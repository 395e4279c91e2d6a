/** JsonParser (include/json_parser.h, src/json_parser.cpp): a recursive-descent
    parser that owns a tokenizer and keeps one lookahead token. Every method is
    proved to do what the matching function of JsonGrammar says, from the
    state (tokenizer position, lookahead) it started in. */
module JsonParser {
  import opened JsonTokens
  import opened JsonValues
  import opened JsonTokenizer
  import JsonGrammar

  /** A method that returned r and left the parser in state c did what the
      grammar function's result g says: the value and the state after it on
      success, the same error otherwise. */
  predicate Agrees(r: Result<JsonValue>, g: Result<JsonGrammar.Parsed>, c: JsonGrammar.Cursor) {
    match g
    case Ok(p) => r == Ok(p.value) && c == p.rest
    case Err(e) => r == Err(e)
  }

  class Parser {
    /** The tokenizer the parser reads from (tokenizer_). */
    const tokenizer: Tokenizer
    /** The lookahead token (currentToken_). */
    var current: Token

    ghost predicate Valid()
      reads this, tokenizer
    {
      tokenizer.Valid()
    }

    /** The parser's state as the grammar functions see it. */
    ghost function State(): JsonGrammar.Cursor
      reads this, tokenizer
    {
      JsonGrammar.Cursor(tokenizer.pos, current)
    }

    ghost function Rank(): nat
      reads this, tokenizer
      requires Valid()
    {
      JsonGrammar.Rank(tokenizer.input, State())
    }

    /** A new parser holds the tokenizer and an EndOfInput lookahead. */
    constructor (t: Tokenizer)
      requires t.Valid()
      ensures tokenizer == t && current == Token(TokenType.EndOfInput, None)
      ensures Valid() && State() == JsonGrammar.Cursor(t.pos, Token(TokenType.EndOfInput, None))
    {
      tokenizer := t;
      current := Token(TokenType.EndOfInput, None);
    }

    /** The tokenizer's next token becomes the lookahead; an error from the
        tokenizer is passed on and the lookahead is kept. */
    method NextToken() returns (r: Result<Token>)
      requires Valid()
      modifies this, tokenizer
      ensures Valid()
      ensures JsonGrammar.Advance(tokenizer.input, old(State())) ==
              if r.Ok? then Ok(State()) else Err(r.error)
      ensures r.Ok? ==> current == r.value
      ensures r.Err? ==> current == old(current)
    {
      r := tokenizer.NextToken();
      if r.Ok? {
        current := r.value;
      }
    }

    /** Reads the whole input as one value followed by EndOfInput. */
    method Parse() returns (r: Result<JsonValue>)
      requires Valid()
      modifies this, tokenizer
      ensures Valid()
      ensures r == JsonGrammar.ParseDocument(tokenizer.input, old(State()))
    {
      var n := NextToken();
      if n.Err? {
        return Err(n.error);
      }
      var output := ParseValue();
      if output.Err? {
        return output;
      }
      if current.kind != TokenType.EndOfInput {
        return Err(TrailingToken);
      }
      return output;
    }

    method ParseValue() returns (r: Result<JsonValue>)
      requires Valid()
      modifies this, tokenizer
      ensures Valid()
      ensures Agrees(r, JsonGrammar.ParseValue(tokenizer.input, old(State())), State())
      decreases Rank(), 1
    {
      match current.kind
      case String => r := ParseString();
      case Number => r := ParseNumber();
      case Boolean => r := ParseBoolean();
      case Null => r := ParseNull();
      case LeftBrace => r := ParseObject();
      case LeftBracket => r := ParseArray();
      case _ => r := Err(UnexpectedTokenInValue);
    }

    method ParseString() returns (r: Result<JsonValue>)
      requires Valid()
      modifies this, tokenizer
      ensures Valid()
      ensures Agrees(r, JsonGrammar.ParseString(tokenizer.input, old(State())), State())
    {
      if current.kind != TokenType.String || current.value.None? {
        return Err(ExpectedStringToken);
      }
      var str := current.value.value;
      var n := NextToken();
      if n.Err? {
        return Err(n.error);
      }
      return Ok(JString(str));
    }

    /** Keeps the lexeme where the source converts it with std::stod. */
    method ParseNumber() returns (r: Result<JsonValue>)
      requires Valid()
      modifies this, tokenizer
      ensures Valid()
      ensures Agrees(r, JsonGrammar.ParseNumber(tokenizer.input, old(State())), State())
    {
      if current.kind != TokenType.Number || current.value.None? {
        return Err(ExpectedNumberToken);
      }
      var lexeme := current.value.value;
      var n := NextToken();
      if n.Err? {
        return Err(n.error);
      }
      return Ok(JNumber(lexeme));
    }

    method ParseBoolean() returns (r: Result<JsonValue>)
      requires Valid()
      modifies this, tokenizer
      ensures Valid()
      ensures Agrees(r, JsonGrammar.ParseBoolean(tokenizer.input, old(State())), State())
    {
      if current.kind != TokenType.Boolean || current.value.None? {
        return Err(ExpectedBooleanToken);
      }
      var value := current.value.value == "true";
      var n := NextToken();
      if n.Err? {
        return Err(n.error);
      }
      return Ok(JBool(value));
    }

    method ParseNull() returns (r: Result<JsonValue>)
      requires Valid()
      modifies this, tokenizer
      ensures Valid()
      ensures Agrees(r, JsonGrammar.ParseNull(tokenizer.input, old(State())), State())
    {
      if current.kind != TokenType.Null {
        return Err(ExpectedNullToken);
      }
      var n := NextToken();
      if n.Err? {
        return Err(n.error);
      }
      return Ok(JNull);
    }

    method ParseArray() returns (r: Result<JsonValue>)
      requires Valid()
      modifies this, tokenizer
      ensures Valid()
      ensures Agrees(r, JsonGrammar.ParseArray(tokenizer.input, old(State())), State())
      decreases Rank(), 0
    {
      if current.kind != TokenType.LeftBracket {
        return Err(ExpectedArrayStart);
      }
      var n := NextToken();
      if n.Err? {
        return Err(n.error);
      }
      var elements: seq<JsonValue> := [];
      if current.kind == TokenType.RightBracket {
        n := NextToken();
        if n.Err? {
          return Err(n.error);
        }
        return Ok(JArray(elements));
      }
      while true
        invariant Valid() && Rank() < old(Rank())
        invariant JsonGrammar.ParseArray(tokenizer.input, old(State())) ==
                  JsonGrammar.Elements(tokenizer.input, State(), elements)
        decreases Rank()
      {
        var element := ParseValue();
        if element.Err? {
          return Err(element.error);
        }
        elements := elements + [element.value];
        if current.kind == TokenType.Comma {
          n := NextToken();
          if n.Err? {
            return Err(n.error);
          }
        } else if current.kind == TokenType.RightBracket {
          n := NextToken();
          if n.Err? {
            return Err(n.error);
          }
          break;
        } else {
          return Err(ExpectedCommaOrBracket);
        }
      }
      return Ok(JArray(elements));
    }

    method ParseObject() returns (r: Result<JsonValue>)
      requires Valid()
      modifies this, tokenizer
      ensures Valid()
      ensures Agrees(r, JsonGrammar.ParseObject(tokenizer.input, old(State())), State())
      decreases Rank(), 0
    {
      if current.kind != TokenType.LeftBrace {
        return Err(ExpectedObjectStart);
      }
      var n := NextToken();
      if n.Err? {
        return Err(n.error);
      }
      var fields: map<string, JsonValue> := map[];
      if current.kind == TokenType.RightBrace {
        n := NextToken();
        if n.Err? {
          return Err(n.error);
        }
        return Ok(JObject(fields));
      }
      while true
        invariant Valid() && Rank() < old(Rank())
        invariant JsonGrammar.ParseObject(tokenizer.input, old(State())) ==
                  JsonGrammar.Members(tokenizer.input, State(), fields)
        decreases Rank()
      {
        var member := ParseMember();
        if member.Err? {
          return Err(member.error);
        }
        var (key, value) := member.value;
        fields := JsonGrammar.Emplace(fields, key, value);
        if current.kind == TokenType.Comma {
          n := NextToken();
          if n.Err? {
            return Err(n.error);
          }
        } else if current.kind == TokenType.RightBrace {
          n := NextToken();
          if n.Err? {
            return Err(n.error);
          }
          break;
        } else {
          return Err(ExpectedCommaOrBrace);
        }
      }
      return Ok(JObject(fields));
    }

    /** The first half of the parseObject loop body: a string key, a colon
        and a value. */
    method ParseMember() returns (r: Result<(string, JsonValue)>)
      requires Valid()
      modifies this, tokenizer
      ensures Valid()
      ensures match JsonGrammar.Member(tokenizer.input, old(State()))
              case Ok(f) => r == Ok((f.key, f.value)) && State() == f.rest
              case Err(e) => r == Err(e)
      decreases Rank(), 1
    {
      if current.kind != TokenType.String || current.value.None? {
        return Err(ExpectedKey);
      }
      var key := current.value.value;
      var n := NextToken();
      if n.Err? {
        return Err(n.error);
      }
      if current.kind != TokenType.Colon {
        return Err(ExpectedColon);
      }
      n := NextToken();
      if n.Err? {
        return Err(n.error);
      }
      var value := ParseValue();
      if value.Err? {
        return Err(value.error);
      }
      return Ok((key, value.value));
    }
  }
}
