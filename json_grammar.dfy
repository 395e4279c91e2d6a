/** What JsonParser computes (src/json_parser.cpp), as functions of the input
    text and the parser's state: the tokenizer's position and the lookahead
    token. Each production returns the value it built and the state it left. */
module JsonGrammar {
  import opened JsonTokens
  import opened JsonLexSpec
  import opened JsonValues

  /** The parser's state: the tokenizer position and currentToken_. */
  datatype Cursor = Cursor(pos: nat, look: Token)

  /** A value and the state after it. */
  datatype Parsed = Parsed(value: JsonValue, rest: Cursor)

  /** The state of a new parser: nothing read, lookahead EndOfInput. */
  const Start: Cursor := Cursor(0, Token(TokenType.EndOfInput, None))

  /** The termination measure: the unread input plus one for a lookahead that
      still has to be consumed. */
  function Rank(s: string, c: Cursor): nat
    requires c.pos <= |s|
  {
    |s| - c.pos + if c.look.kind == TokenType.EndOfInput then 0 else 1
  }

  /** JsonParser::nextToken: the next token becomes the lookahead. */
  function Advance(s: string, c: Cursor): (r: Result<Cursor>)
    requires c.pos <= |s|
    ensures r.Ok? ==> c.pos <= r.value.pos <= |s| && Rank(s, r.value) <= |s| - c.pos
  {
    var l :- Lex(s, c.pos);
    Ok(Cursor(l.next, l.token))
  }

  /** The lookahead becomes EndOfInput exactly when only whitespace is left,
      and then it stands at the end of the text. */
  lemma {:induction false} AdvanceEnd(s: string, c: Cursor)
    requires c.pos <= |s|
    ensures All(s, c.pos, |s|, IsSpace) <==> Advance(s, c) == Ok(Cursor(|s|, Token(TokenType.EndOfInput, None)))
    ensures Advance(s, c).Ok? && Advance(s, c).value.look.kind == TokenType.EndOfInput ==>
              Advance(s, c).value == Cursor(|s|, Token(TokenType.EndOfInput, None))
  {
    LexEndOfInput(s, c.pos);
  }

  /** A lookahead that is not EndOfInput is consumed by Advance. */
  predicate Consumes(s: string, c: Cursor, r: Result<Parsed>)
    requires c.pos <= |s|
  {
    r.Ok? ==> r.value.rest.pos <= |s| && Rank(s, r.value.rest) < Rank(s, c)
  }

  /** JsonParser::parseValue: dispatch on the kind of the lookahead. */
  function ParseValue(s: string, c: Cursor): (r: Result<Parsed>)
    requires c.pos <= |s|
    ensures Consumes(s, c, r)
    ensures c.look.kind !in {TokenType.String, TokenType.Number, TokenType.Boolean,
                             TokenType.Null, TokenType.LeftBrace, TokenType.LeftBracket}
            ==> r == Err(UnexpectedTokenInValue)
    decreases Rank(s, c), 1
  {
    match c.look.kind
    case String => ParseString(s, c)
    case Number => ParseNumber(s, c)
    case Boolean => ParseBoolean(s, c)
    case Null => ParseNull(s, c)
    case LeftBrace => ParseObject(s, c)
    case LeftBracket => ParseArray(s, c)
    case _ => Err(UnexpectedTokenInValue)
  }

  /** JsonParser::parseString. */
  function ParseString(s: string, c: Cursor): (r: Result<Parsed>)
    requires c.pos <= |s|
    ensures Consumes(s, c, r)
    ensures r.Ok? ==> c.look.kind == TokenType.String && c.look.value.Some? && r.value.value == JString(c.look.value.value)
  {
    if c.look.kind != TokenType.String || c.look.value.None? then Err(ExpectedStringToken)
    else
      var next :- Advance(s, c);
      Ok(Parsed(JString(c.look.value.value), next))
  }

  /** JsonParser::parseNumber, keeping the lexeme instead of std::stod. */
  function ParseNumber(s: string, c: Cursor): (r: Result<Parsed>)
    requires c.pos <= |s|
    ensures Consumes(s, c, r)
    ensures r.Ok? ==> c.look.kind == TokenType.Number && c.look.value.Some? && r.value.value == JNumber(c.look.value.value)
  {
    if c.look.kind != TokenType.Number || c.look.value.None? then Err(ExpectedNumberToken)
    else
      var next :- Advance(s, c);
      Ok(Parsed(JNumber(c.look.value.value), next))
  }

  /** JsonParser::parseBoolean: true exactly when the payload is `true`. */
  function ParseBoolean(s: string, c: Cursor): (r: Result<Parsed>)
    requires c.pos <= |s|
    ensures Consumes(s, c, r)
    ensures r.Ok? ==> c.look.kind == TokenType.Boolean && r.value.value == JBool(c.look.value == Some("true"))
  {
    if c.look.kind != TokenType.Boolean || c.look.value.None? then Err(ExpectedBooleanToken)
    else
      var next :- Advance(s, c);
      Ok(Parsed(JBool(c.look.value.value == "true"), next))
  }

  /** JsonParser::parseNull. */
  function ParseNull(s: string, c: Cursor): (r: Result<Parsed>)
    requires c.pos <= |s|
    ensures Consumes(s, c, r)
    ensures r.Ok? ==> c.look.kind == TokenType.Null && r.value.value == JNull
  {
    if c.look.kind != TokenType.Null then Err(ExpectedNullToken)
    else
      var next :- Advance(s, c);
      Ok(Parsed(JNull, next))
  }

  /** JsonParser::parseArray. */
  function ParseArray(s: string, c: Cursor): (r: Result<Parsed>)
    requires c.pos <= |s|
    ensures Consumes(s, c, r)
    ensures r.Ok? ==> c.look.kind == TokenType.LeftBracket && r.value.value.JArray?
    decreases Rank(s, c), 0
  {
    if c.look.kind != TokenType.LeftBracket then Err(ExpectedArrayStart)
    else
      var first :- Advance(s, c);
      if first.look.kind == TokenType.RightBracket then
        var next :- Advance(s, first);
        Ok(Parsed(JArray([]), next))
      else Elements(s, first, [])
  }

  /** The `while (true)` loop of parseArray, having collected `acc`. */
  function Elements(s: string, c: Cursor, acc: seq<JsonValue>): (r: Result<Parsed>)
    requires c.pos <= |s|
    ensures Consumes(s, c, r)
    ensures r.Ok? ==> r.value.value.JArray?
    ensures r.Ok? ==> acc < r.value.value.arr
    decreases Rank(s, c), 2
  {
    var element :- ParseValue(s, c);
    var items := acc + [element.value];
    var after := element.rest;
    if after.look.kind == TokenType.Comma then
      var next :- Advance(s, after);
      Elements(s, next, items)
    else if after.look.kind == TokenType.RightBracket then
      var next :- Advance(s, after);
      Ok(Parsed(JArray(items), next))
    else Err(ExpectedCommaOrBracket)
  }

  /** std::map::emplace: inserts only a key that is not there yet. */
  function Emplace(m: map<string, JsonValue>, key: string, v: JsonValue): (r: map<string, JsonValue>)
    ensures r.Keys == m.Keys + {key}
    ensures forall k | k in m :: r[k] == m[k]
    ensures key !in m ==> r[key] == v
  {
    if key in m then m else m[key := v]
  }

  /** JsonParser::parseObject. */
  function ParseObject(s: string, c: Cursor): (r: Result<Parsed>)
    requires c.pos <= |s|
    ensures Consumes(s, c, r)
    ensures r.Ok? ==> c.look.kind == TokenType.LeftBrace && r.value.value.JObject?
    decreases Rank(s, c), 0
  {
    if c.look.kind != TokenType.LeftBrace then Err(ExpectedObjectStart)
    else
      var first :- Advance(s, c);
      if first.look.kind == TokenType.RightBrace then
        var next :- Advance(s, first);
        Ok(Parsed(JObject(map[]), next))
      else Members(s, first, map[])
  }

  /** A key with its value and the state after the value. */
  datatype Field = Field(key: string, value: JsonValue, rest: Cursor)

  /** The first half of the parseObject loop body: a string key, a colon and
      a value. */
  function Member(s: string, c: Cursor): (r: Result<Field>)
    requires c.pos <= |s|
    ensures r.Ok? ==> r.value.rest.pos <= |s| && Rank(s, r.value.rest) < Rank(s, c)
    ensures r.Ok? ==> c.look.kind == TokenType.String && c.look.value == Some(r.value.key)
    decreases Rank(s, c), 1
  {
    if c.look.kind != TokenType.String || c.look.value.None? then Err(ExpectedKey)
    else
      var colon :- Advance(s, c);
      if colon.look.kind != TokenType.Colon then Err(ExpectedColon)
      else
        var valueStart :- Advance(s, colon);
        var member :- ParseValue(s, valueStart);
        Ok(Field(c.look.value.value, member.value, member.rest))
  }

  /** The `while (true)` loop of parseObject, having collected `acc`: a
      member, then a comma or the closing brace. */
  function Members(s: string, c: Cursor, acc: map<string, JsonValue>): (r: Result<Parsed>)
    requires c.pos <= |s|
    ensures Consumes(s, c, r)
    ensures r.Ok? ==> c.look.kind == TokenType.String && c.look.value.Some? && r.value.value.JObject?
    ensures r.Ok? ==> acc.Keys + {c.look.value.value} <= r.value.value.obj.Keys
    ensures r.Ok? ==> forall k | k in acc :: k in r.value.value.obj && r.value.value.obj[k] == acc[k]
    decreases Rank(s, c), 2
  {
    var member :- Member(s, c);
    var fields := Emplace(acc, member.key, member.value);
    var after := member.rest;
    if after.look.kind == TokenType.Comma then
      var next :- Advance(s, after);
      Members(s, next, fields)
    else if after.look.kind == TokenType.RightBrace then
      var next :- Advance(s, after);
      Ok(Parsed(JObject(fields), next))
    else Err(ExpectedCommaOrBrace)
  }

  /** JsonParser::parse from state c: prime the lookahead, read one value and
      reject whatever token follows it. */
  function ParseDocument(s: string, c: Cursor): (r: Result<JsonValue>)
    requires c.pos <= |s|
    ensures All(s, c.pos, |s|, IsSpace) ==> r == Err(UnexpectedTokenInValue)
  {
    AdvanceEnd(s, c);
    var first :- Advance(s, c);
    var root :- ParseValue(s, first);
    if root.rest.look.kind != TokenType.EndOfInput then Err(TrailingToken)
    else Ok(root.value)
  }

  /** Json::parse: a new tokenizer and parser over the text, then parse. */
  function ParseText(s: string): (r: Result<JsonValue>)
    ensures All(s, 0, |s|, IsSpace) ==> r == Err(UnexpectedTokenInValue)
  {
    ParseDocument(s, Start)
  }
}
