/** JsonTokenizer (include/json_tokenizer.h, src/json_tokenizer.cpp): a cursor
    over the input text that hands out one token per call. Every method is
    proved to do what the matching function of JsonLexSpec says. */
module JsonTokenizer {
  import opened JsonTokens
  import opened JsonLexSpec

  /** A method that returned r and left the cursor at pos did what the
      specification l says: the token and the new position on success, the
      same error otherwise. */
  predicate Yields(r: Result<Token>, pos: nat, l: Result<Lexed>) {
    match l
    case Ok(x) => r == Ok(x.token) && pos == x.next
    case Err(e) => r == Err(e)
  }

  /** std::string_view::substr(p, n): at most n characters from p on. */
  function Substr(s: string, p: nat, n: nat): (t: string)
    requires p <= |s|
    ensures |t| == if p + n <= |s| then n else |s| - p
    ensures t == s[p..p + |t|]
  {
    if p + n <= |s| then s[p..p + n] else s[p..]
  }

  lemma {:induction false} SliceExtend(s: string, i: nat, j: nat)
    requires i <= j < |s|
    ensures s[i..j + 1] == s[i..j] + [s[j]]
  {
  }

  /** LexNumber once the optional minus sign before i is read. */
  lemma {:induction false} IntegerFrom(s: string, p: nat, i: nat)
    requires p <= i <= |s| && i == if p < |s| && s[p] == '-' then p + 1 else p
    ensures LexNumber(s, p) ==
            if i < |s| && s[i] == '0' then
              if DigitAt(s, i + 1) then Err(LeadingZeros) else NumberFraction(s, p, i + 1)
            else if DigitAt(s, i) then NumberFraction(s, p, RunEnd(s, i, IsDigit))
            else Err(ExpectedDigit)
  {
  }

  lemma {:induction false} SliceJoin(s: string, i: nat, j: nat, k: nat)
    requires i <= j <= k <= |s|
    ensures s[i..j] + s[j..k] == s[i..k]
  {
  }

  class Tokenizer {
    /** The text being tokenized (input_). */
    const input: string
    /** The index of the next unread character (position_). */
    var pos: nat

    ghost predicate Valid()
      reads this
    {
      pos <= |input|
    }

    constructor (text: string)
      ensures input == text && pos == 0 && Valid()
    {
      input := text;
      pos := 0;
    }

    /** Under the invariant, the end of input is exactly the last position. */
    function IsEndOfInput(): (b: bool)
      reads this
      ensures Valid() ==> (b <==> pos == |input|)
    {
      pos >= |input|
    }

    function CurrentChar(): (c: Option<char>)
      reads this
      ensures c.Some? <==> pos < |input|
      ensures c.Some? ==> c.value == input[pos]
    {
      if IsEndOfInput() then None else Some(input[pos])
    }

    /** Reads the current character and moves past it; at the end of the
        input nothing moves. */
    method Advance() returns (c: Option<char>)
      modifies this
      ensures c == old(CurrentChar())
      ensures pos == if old(IsEndOfInput()) then old(pos) else old(pos) + 1
    {
      if IsEndOfInput() {
        return None;
      }
      c := Some(input[pos]);
      pos := pos + 1;
    }

    method SkipWhitespace()
      requires Valid()
      modifies this
      ensures Valid()
      ensures pos == RunEnd(input, old(pos), IsSpace)
    {
      while !IsEndOfInput() && IsSpace(input[pos])
        invariant old(pos) <= pos <= |input|
        invariant RunEnd(input, pos, IsSpace) == RunEnd(input, old(pos), IsSpace)
        decreases |input| - pos
      {
        pos := pos + 1;
      }
    }

    method ParseString() returns (r: Result<Token>)
      requires Valid()
      modifies this
      ensures Valid()
      ensures Yields(r, pos, LexString(input, old(pos)))
    {
      var open := Advance();
      if open != Some('"') {
        return Err(ExpectedOpeningQuote);
      }
      var result := "";
      var escaped := false;
      var c := CurrentChar();
      while c.Some?
        invariant old(pos) < pos <= |input| && c == CurrentChar()
        invariant LexString(input, old(pos)) == StringBody(input, pos, result, escaped)
        decreases |input| - pos
      {
        if escaped {
          match Unescape(c.value)
          case None =>
            return Err(InvalidEscape(c.value));
          case Some(d) =>
            result := result + [d];
          escaped := false;
          var _ := Advance();
        } else if c.value == '\\' {
          escaped := true;
          var _ := Advance();
        } else if c.value == '"' {
          var _ := Advance();
          return Ok(Token(TokenType.String, Some(result)));
        } else {
          result := result + [c.value];
          var _ := Advance();
        }
        c := CurrentChar();
      }
      return Err(UnterminatedString);
    }

    /** One of the three digit loops of parseNumber: appends the run of digits
        at the cursor to `result` and moves past it. */
    method AppendDigits(result: string) returns (extended: string)
      requires Valid()
      modifies this
      ensures Valid()
      ensures pos == RunEnd(input, old(pos), IsDigit)
      ensures extended == result + input[old(pos)..pos]
    {
      extended := result;
      while CurrentChar().Some? && IsDigit(CurrentChar().value)
        invariant old(pos) <= pos <= |input| && extended == result + input[old(pos)..pos]
        invariant RunEnd(input, pos, IsDigit) == RunEnd(input, old(pos), IsDigit)
        decreases |input| - pos
      {
        SliceExtend(input, old(pos), pos);
        extended := extended + [CurrentChar().value];
        var _ := Advance();
      }
    }

    method ParseNumber() returns (r: Result<Token>)
      requires Valid()
      modifies this
      ensures Valid()
      ensures Yields(r, pos, LexNumber(input, old(pos)))
    {
      ghost var start := pos;
      var integer := AppendInteger();
      if integer.Err? {
        return Err(integer.error);
      }
      var withFraction := AppendFraction(start, integer.value);
      if withFraction.Err? {
        return Err(withFraction.error);
      }
      var withExponent := AppendExponent(start, withFraction.value);
      if withExponent.Err? {
        return Err(withExponent.error);
      }
      return Ok(Token(TokenType.Number, Some(withExponent.value)));
    }

    /** The sign and integer part of parseNumber: a lone zero or a run of
        digits that does not start with zero. */
    method AppendInteger() returns (r: Result<string>)
      requires Valid()
      modifies this
      ensures Valid() && old(pos) <= pos
      ensures r.Ok? ==> old(pos) < pos && r.value == input[old(pos)..pos]
      ensures LexNumber(input, old(pos)) ==
              if r.Ok? then NumberFraction(input, old(pos), pos) else Err(r.error)
    {
      ghost var start := pos;
      var result := "";
      if CurrentChar() == Some('-') {
        SliceExtend(input, start, pos);
        result := result + ['-'];
        var _ := Advance();
      }
      IntegerFrom(input, start, pos);
      if CurrentChar() == Some('0') {
        SliceExtend(input, start, pos);
        result := result + ['0'];
        var _ := Advance();
        if CurrentChar().Some? && IsDigit(CurrentChar().value) {
          return Err(LeadingZeros);
        }
      } else if CurrentChar().Some? && IsDigit(CurrentChar().value) {
        ghost var first := pos;
        result := AppendDigits(result);
        SliceJoin(input, start, first, pos);
      } else {
        return Err(ExpectedDigit);
      }
      return Ok(result);
    }

    /** The decimal-point block of parseNumber: `result` holds the number read
        since `start`; a point must be followed by at least one digit. */
    method AppendFraction(ghost start: nat, result: string) returns (r: Result<string>)
      requires Valid() && start < pos && result == input[start..pos]
      modifies this
      ensures Valid() && old(pos) <= pos
      ensures NumberFraction(input, start, old(pos)) ==
              if r.Ok? then NumberExponent(input, start, pos) else Err(r.error)
      ensures r.Ok? ==> r.value == input[start..pos]
    {
      if CurrentChar().Some? && CurrentChar().value == '.' {
        SliceExtend(input, start, pos);
        var extended := result + ['.'];
        var _ := Advance();
        if !(CurrentChar().Some? && IsDigit(CurrentChar().value)) {
          return Err(ExpectedFractionDigit);
        }
        ghost var first := pos;
        extended := AppendDigits(extended);
        SliceJoin(input, start, first, pos);
        return Ok(extended);
      }
      return Ok(result);
    }

    /** The exponent block of parseNumber: a marker, an optional sign and at
        least one digit. */
    method AppendExponent(ghost start: nat, result: string) returns (r: Result<string>)
      requires Valid() && start < pos && result == input[start..pos]
      modifies this
      ensures Valid() && old(pos) <= pos
      ensures NumberExponent(input, start, old(pos)) ==
              if r.Ok? then NumberToken(input, start, pos) else Err(r.error)
      ensures r.Ok? ==> r.value == input[start..pos]
    {
      if CurrentChar().Some? && (CurrentChar().value == 'e' || CurrentChar().value == 'E') {
        var extended := AppendMarker(start, result);
        if !(CurrentChar().Some? && IsDigit(CurrentChar().value)) {
          return Err(ExpectedExponentDigit);
        }
        ghost var first := pos;
        extended := AppendDigits(extended);
        SliceJoin(input, start, first, pos);
        return Ok(extended);
      }
      return Ok(result);
    }

    /** The exponent marker at the cursor and the sign that may follow it. */
    method AppendMarker(ghost start: nat, result: string) returns (extended: string)
      requires Valid() && start < pos < |input| && result == input[start..pos]
      modifies this
      ensures Valid() && pos == ExpDigits(input, old(pos))
      ensures extended == input[start..pos]
    {
      SliceExtend(input, start, pos);
      extended := result + [input[pos]];
      var _ := Advance();
      if CurrentChar().Some? && (CurrentChar().value == '+' || CurrentChar().value == '-') {
        SliceExtend(input, start, pos);
        extended := extended + [CurrentChar().value];
        var _ := Advance();
      }
    }

    method ParseBooleanOrNull() returns (r: Result<Token>)
      requires Valid()
      modifies this
      ensures Valid()
      ensures Yields(r, pos, LexKeyword(input, old(pos)))
      ensures r.Err? ==> pos == old(pos)
    {
      var prefixes := Keywords;
      var types := KeywordTypes;
      for i := 0 to 3
        invariant pos == old(pos)
        invariant KeywordFrom(input, pos, 0) == KeywordFrom(input, pos, i)
      {
        if Substr(input, pos, |prefixes[i]|) == prefixes[i] {
          pos := pos + |prefixes[i]|;
          return Ok(Token(types[i], Some(prefixes[i])));
        }
      }
      return Err(ExpectedKeyword);
    }

    method NextToken() returns (r: Result<Token>)
      requires Valid()
      modifies this
      ensures Valid()
      ensures Yields(r, pos, Lex(input, old(pos)))
    {
      SkipWhitespace();
      if IsEndOfInput() {
        return Ok(Token(TokenType.EndOfInput, None));
      }
      var c := CurrentChar().value;
      match Punctuation(c)
      case Some(kind) =>
        var _ := Advance();
        return Ok(Token(kind, None));
      case None =>
      if c == '"' {
        r := ParseString();
      } else if c == '-' || IsDigit(c) {
        r := ParseNumber();
      } else if c == 't' || c == 'f' || c == 'n' {
        r := ParseBooleanOrNull();
      } else {
        r := Err(UnexpectedCharacter(c));
      }
    }
  }
}
