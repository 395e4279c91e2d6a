/** Json::parse (src/json.cpp): the entry point that wires a tokenizer to a
    parser over the given text. */
module Json {
  import opened JsonTokens
  import opened JsonValues
  import opened JsonTokenizer
  import opened JsonParser
  import JsonGrammar

  /** Parses `data` as one JSON value, or gives the first error met. */
  method Parse(data: string) returns (r: Result<JsonValue>)
    ensures r == JsonGrammar.ParseText(data)
  {
    var tokenizer := new Tokenizer(data);
    var parser := new Parser(tokenizer);
    r := parser.Parse();
  }
}
