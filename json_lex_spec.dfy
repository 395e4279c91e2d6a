/** What JsonTokenizer::nextToken computes, as functions of the input text and
    the cursor position (src/json_tokenizer.cpp), with the grammar of numbers
    from section 6 of RFC 8259 and an escaping function as independent
    references for the number and string lexers. */
module JsonLexSpec {
  import opened JsonTokens

  /** std::isspace in the C locale: space, \t, \n, \v, \f and \r. */
  predicate IsSpace(c: char) {
    c == ' ' || c == '\t' || c == '\n' || c == '\U{B}' || c == '\U{C}' || c == '\r'
  }

  /** std::isdigit in the C locale. */
  predicate IsDigit(c: char) {
    '0' <= c <= '9'
  }

  /** There is a digit at position i. */
  predicate DigitAt(s: string, i: nat) {
    i < |s| && IsDigit(s[i])
  }

  /** Every character of s[i..j] satisfies P. */
  predicate All(s: string, i: nat, j: nat, P: char -> bool)
    requires i <= j <= |s|
  {
    forall k | i <= k < j :: P(s[k])
  }

  /** The end of the longest run of P-characters that starts at i. */
  function RunEnd(s: string, i: nat, P: char -> bool): (j: nat)
    requires i <= |s|
    ensures i <= j <= |s|
    ensures All(s, i, j, P)
    ensures j == |s| || !P(s[j])
    decreases |s| - i
  {
    if i < |s| && P(s[i]) then RunEnd(s, i + 1, P) else i
  }

  /** A run of P-characters that cannot be extended ends where RunEnd says. */
  lemma {:induction false} RunEndUnique(s: string, i: nat, j: nat, P: char -> bool)
    requires i <= j <= |s|
    requires All(s, i, j, P)
    requires j == |s| || !P(s[j])
    ensures RunEnd(s, i, P) == j
    decreases j - i
  {
    if i < j {
      RunEndUnique(s, i + 1, j, P);
    }
  }

  /** s[p..] starts with w (std::string_view::substr(p, |w|) == w). */
  predicate HasPrefixAt(s: string, p: nat, w: string) {
    p + |w| <= |s| && s[p..p + |w|] == w
  }

  // ---------------------------------------------------------------- structural

  /** The payload-free token type of a structural character. */
  function Punctuation(c: char): Option<TokenType> {
    match c
    case '{' => Some(TokenType.LeftBrace)
    case '}' => Some(TokenType.RightBrace)
    case '[' => Some(TokenType.LeftBracket)
    case ']' => Some(TokenType.RightBracket)
    case ',' => Some(TokenType.Comma)
    case ':' => Some(TokenType.Colon)
    case _ => None
  }

  // ------------------------------------------------------------------ strings

  /** The character that the escape sequence `\c` stands for; None for every
      unsupported escape, `\u` included. */
  function Unescape(c: char): (r: Option<char>)
    ensures r.Some? <==> c in "\"\\/bfnrt"
    ensures r.Some? ==> (r.value == c <==> c in "\"\\/")
  {
    match c
    case '"' => Some('"')
    case '\\' => Some('\\')
    case '/' => Some('/')
    case 'b' => Some('\U{8}')
    case 'f' => Some('\U{C}')
    case 'n' => Some('\n')
    case 'r' => Some('\r')
    case 't' => Some('\t')
    case _ => None
  }

  /** The string loop from position i, having decoded `acc`, with `escaped`
      set just after a backslash. */
  function StringBody(s: string, i: nat, acc: string, escaped: bool): (r: Result<Lexed>)
    requires i <= |s|
    ensures r.Ok? ==> i < r.value.next <= |s| && s[r.value.next - 1] == '"'
    ensures r.Ok? ==> r.value.token.kind == TokenType.String && r.value.token.value.Some?
    ensures r.Ok? ==> acc <= r.value.token.value.value
    decreases |s| - i
  {
    if i == |s| then Err(UnterminatedString)
    else if escaped then
      match Unescape(s[i])
      case None => Err(InvalidEscape(s[i]))
      case Some(d) => StringBody(s, i + 1, acc + [d], false)
    else if s[i] == '\\' then StringBody(s, i + 1, acc, true)
    else if s[i] == '"' then Ok(Lexed(Token(TokenType.String, Some(acc)), i + 1))
    else StringBody(s, i + 1, acc + [s[i]], false)
  }

  /** JsonTokenizer::parseString started at position p. */
  function LexString(s: string, p: nat): (r: Result<Lexed>)
    requires p <= |s|
    ensures r.Ok? ==> p + 2 <= r.value.next <= |s| && s[p] == '"' && s[r.value.next - 1] == '"'
    ensures r.Ok? ==> r.value.token.kind == TokenType.String && r.value.token.value.Some?
  {
    if p == |s| || s[p] != '"' then Err(ExpectedOpeningQuote)
    else StringBody(s, p + 1, "", false)
  }

  /** How a character is written inside a string literal: the quote, the
      backslash and the five control characters with a short escape are
      escaped, every other character stands for itself. */
  function EscapeChar(c: char): (e: string)
    ensures 1 <= |e| <= 2
    ensures |e| == 1 ==> e[0] == c && c != '"' && c != '\\'
    ensures |e| == 2 ==> e[0] == '\\' && Unescape(e[1]) == Some(c)
  {
    match c
    case '"' => "\\\""
    case '\\' => "\\\\"
    case '\U{8}' => "\\b"
    case '\U{C}' => "\\f"
    case '\n' => "\\n"
    case '\r' => "\\r"
    case '\t' => "\\t"
    case _ => [c]
  }

  /** The escape table read both ways: every supported escape but `\/` is how
      EscapeChar writes the character it stands for, and every two-character
      encoding is such an escape. */
  lemma {:induction false} EscapeInverse(c: char, x: char)
    ensures Unescape(c) == Some(x) && c != '/' <==> EscapeChar(x) == ['\\', c]
    ensures EscapeChar(x) == [x] <==> x !in "\"\\\U{8}\U{C}\n\r\t"
  {
  }

  /** The body of a string literal whose decoded text is t. */
  function Escape(t: string): string {
    if t == [] then [] else EscapeChar(t[0]) + Escape(t[1..])
  }

  /** The string literal whose decoded text is t. */
  function Quote(t: string): string {
    ['"'] + Escape(t) + ['"']
  }

  /** Text with no character that needs an escape is written as itself. */
  lemma {:induction false} EscapePlain(t: string)
    requires forall k | 0 <= k < |t| :: t[k] !in "\"\\\U{8}\U{C}\n\r\t"
    ensures Escape(t) == t
    decreases |t|
  {
    if t != [] {
      EscapeInverse(t[0], t[0]);
      EscapePlain(t[1..]);
      assert t == [t[0]] + t[1..];
    }
  }

  /** Position-wise reading of a prefix. */
  lemma {:induction false} PrefixSlice(s: string, p: nat, w: string, i: nat, j: nat)
    requires HasPrefixAt(s, p, w) && i <= j <= |w|
    ensures s[p + i..p + j] == w[i..j]
    ensures i < |w| ==> s[p + i] == w[i]
  {
    forall k | 0 <= k < j - i ensures s[p + i..p + j][k] == w[i..j][k] {
      assert w[i + k] == s[p..p + |w|][i + k];
    }
    if i < |w| {
      assert s[p + i] == s[p..p + |w|][i];
    }
  }

  /** A prefix made of two parts holds part by part. */
  lemma {:induction false} PrefixSplit(s: string, p: nat, t: string, v: string, w: string)
    requires HasPrefixAt(s, p, t) && t == v + w
    ensures HasPrefixAt(s, p, v) && HasPrefixAt(s, p + |v|, w)
  {
    PrefixConcat(s, p, v, w);
  }

  lemma {:induction false} PrefixConcat(s: string, p: nat, v: string, w: string)
    requires HasPrefixAt(s, p, v + w)
    ensures HasPrefixAt(s, p, v) && HasPrefixAt(s, p + |v|, w)
  {
    PrefixSlice(s, p, v + w, 0, |v|);
    PrefixSlice(s, p, v + w, |v|, |v| + |w|);
    assert (v + w)[0..|v|] == v;
    assert (v + w)[|v|..|v| + |w|] == w;
  }

  /** A well-formed literal body as the string loop reads it: a sequence of
      pieces, each a character other than the quote and the backslash (raw
      control characters included), or a backslash and one of the eight
      supported escape letters. */
  predicate Body(w: string) {
    BodyFrom(w, 0)
  }

  /** The pieces of w from index k on are well formed. */
  predicate BodyFrom(w: string, k: nat)
    requires k <= |w|
    decreases |w| - k
  {
    k == |w| ||
    (w[k] != '"' && w[k] != '\\' && BodyFrom(w, k + 1)) ||
    (w[k] == '\\' && k + 1 < |w| && Unescape(w[k + 1]).Some? && BodyFrom(w, k + 2))
  }

  /** The text a well-formed body stands for. */
  function Decode(w: string): string
    requires Body(w)
  {
    DecodeFrom(w, 0)
  }

  /** The text the pieces of w from index k on stand for. */
  function DecodeFrom(w: string, k: nat): (t: string)
    requires k <= |w| && BodyFrom(w, k)
    ensures |t| <= |w| - k
    decreases |w| - k
  {
    if k == |w| then []
    else if w[k] != '\\' then [w[k]] + DecodeFrom(w, k + 1)
    else [Unescape(w[k + 1]).value] + DecodeFrom(w, k + 2)
  }

  /** Pieces do not depend on the text written before them. */
  lemma {:induction false} BodyShift(x: string, r: string, k: nat)
    requires k <= |r|
    ensures BodyFrom(x + r, |x| + k) == BodyFrom(r, k)
    ensures BodyFrom(r, k) ==> DecodeFrom(x + r, |x| + k) == DecodeFrom(r, k)
    decreases |r| - k
  {
    if k < |r| {
      assert (x + r)[|x| + k] == r[k];
      if k + 1 < |r| {
        assert (x + r)[|x| + k + 1] == r[k + 1];
        BodyShift(x, r, k + 2);
      }
      BodyShift(x, r, k + 1);
    }
  }

  /** The string loop reads the pieces of w, written at i, from index k on:
      it decodes them and carries on right after w. */
  lemma {:induction false} BodyReads(s: string, i: nat, w: string, k: nat, acc: string)
    requires HasPrefixAt(s, i, w) && k <= |w| && BodyFrom(w, k)
    ensures StringBody(s, i + k, acc, false) == StringBody(s, i + |w|, acc + DecodeFrom(w, k), false)
    decreases |w| - k, 1
  {
    if k == |w| {
      assert acc + DecodeFrom(w, k) == acc;
    } else if w[k] != '\\' {
      CharReads(s, i, w, k, acc);
    } else {
      EscapeReads(s, i, w, k, acc);
    }
  }

  /** BodyReads when the next piece is a plain character. */
  lemma {:induction false} CharReads(s: string, i: nat, w: string, k: nat, acc: string)
    requires HasPrefixAt(s, i, w) && k < |w| && w[k] != '\\' && BodyFrom(w, k)
    ensures StringBody(s, i + k, acc, false) == StringBody(s, i + |w|, acc + DecodeFrom(w, k), false)
    decreases |w| - k, 0
  {
    DecodeCharAt(w, k, acc);
    PrefixSlice(s, i, w, k, k + 1);
    BodyReads(s, i, w, k + 1, acc + [w[k]]);
    StringBodyChar(s, i + k, acc, w[k], StringBody(s, i + |w|, acc + DecodeFrom(w, k), false));
  }

  /** BodyReads when the next piece is an escape. */
  lemma {:induction false} EscapeReads(s: string, i: nat, w: string, k: nat, acc: string)
    requires HasPrefixAt(s, i, w) && k < |w| && w[k] == '\\' && BodyFrom(w, k)
    ensures StringBody(s, i + k, acc, false) == StringBody(s, i + |w|, acc + DecodeFrom(w, k), false)
    decreases |w| - k, 0
  {
    DecodeEscapeAt(w, k, acc);
    PrefixSlice(s, i, w, k, k + 1);
    PrefixSlice(s, i, w, k + 1, k + 2);
    BodyReads(s, i, w, k + 2, acc + [Unescape(w[k + 1]).value]);
    StringBodyEscape(s, i + k, acc, w[k + 1], StringBody(s, i + |w|, acc + DecodeFrom(w, k), false));
  }

  /** Decoding pieces that start with a plain character, after acc. */
  lemma {:induction false} DecodeCharAt(w: string, k: nat, acc: string)
    requires k < |w| && w[k] != '\\' && BodyFrom(w, k)
    ensures w[k] != '"' && BodyFrom(w, k + 1)
    ensures acc + DecodeFrom(w, k) == acc + [w[k]] + DecodeFrom(w, k + 1)
  {
  }

  /** Decoding pieces that start with an escape, after acc. */
  lemma {:induction false} DecodeEscapeAt(w: string, k: nat, acc: string)
    requires k < |w| && w[k] == '\\' && BodyFrom(w, k)
    ensures k + 1 < |w| && Unescape(w[k + 1]).Some? && BodyFrom(w, k + 2)
    ensures acc + DecodeFrom(w, k) == acc + [Unescape(w[k + 1]).value] + DecodeFrom(w, k + 2)
  {
  }

  /** A character other than the quote and the backslash is taken over. */
  lemma {:induction false} StringBodyChar(s: string, i: nat, acc: string, c: char, a: Result<Lexed>)
    requires i < |s| && s[i] == c && c != '"' && c != '\\'
    requires StringBody(s, i + 1, acc + [c], false) == a
    ensures StringBody(s, i, acc, false) == a
  {
  }

  /** A supported escape is decoded through the escape table. */
  lemma {:induction false} StringBodyEscape(s: string, i: nat, acc: string, c: char, a: Result<Lexed>)
    requires i + 1 < |s| && s[i] == '\\' && s[i + 1] == c && Unescape(c).Some?
    requires StringBody(s, i + 2, acc + [Unescape(c).value], false) == a
    ensures StringBody(s, i, acc, false) == a
  {
    assert StringBody(s, i, acc, false) == StringBody(s, i + 1, acc, true);
  }

  /** The closing quote ends the loop with what has been decoded. */
  lemma {:induction false} StringBodyClose(s: string, i: nat, acc: string)
    requires i < |s| && s[i] == '"'
    ensures StringBody(s, i, acc, false) == Ok(Lexed(Token(TokenType.String, Some(acc)), i + 1))
  {
  }

  /** Every escaped text is a well-formed body that decodes back to it. */
  lemma {:induction false} EscapeBody(t: string)
    ensures Body(Escape(t)) && Decode(Escape(t)) == t
    decreases |t|
  {
    if t != [] {
      EscapeBody(t[1..]);
      BodyShift(EscapeChar(t[0]), Escape(t[1..]), 0);
      assert Escape(t) == EscapeChar(t[0]) + Escape(t[1..]);
      assert t == [t[0]] + t[1..];
    }
  }

  /** A literal with a well-formed body w stands for Decode(w), and the
      cursor ends just past its closing quote. */
  lemma {:induction false} BodyString(s: string, p: nat, w: string)
    requires HasPrefixAt(s, p, ['"'] + w + ['"']) && Body(w)
    ensures LexString(s, p) == Ok(Lexed(Token(TokenType.String, Some(Decode(w))), p + |w| + 2))
  {
    Delimited(s, p, w, ['"']);
    BodyReads(s, p + 1, w, 0, "");
    StringBodyClose(s, p + 1 + |w|, "" + Decode(w));
    assert "" + Decode(w) == Decode(w);
  }

  /** Conversely, the string loop from i succeeds only over well-formed
      pieces up to its closing quote, and its payload is what they stand
      for. */
  lemma {:induction false} StringBodyWritten(s: string, i: nat, acc: string, u: string)
    requires i <= |s| && StringBody(s, i, acc, false).Ok?
    requires u == s[..StringBody(s, i, acc, false).value.next - 1]
    ensures i <= |u| && BodyFrom(u, i)
    ensures StringBody(s, i, acc, false).value.token.value == Some(acc + DecodeFrom(u, i))
    decreases |s| - i
  {
    if s[i] == '"' {
      assert acc + DecodeFrom(u, i) == acc;
    } else if s[i] == '\\' {
      assert StringBody(s, i, acc, false) == StringBody(s, i + 1, acc, true);
      assert i + 1 < |s| && Unescape(s[i + 1]).Some?;
      StringBodyWritten(s, i + 2, acc + [Unescape(s[i + 1]).value], u);
      assert u[i] == s[i] && u[i + 1] == s[i + 1];
      assert acc + [Unescape(s[i + 1]).value] + DecodeFrom(u, i + 2) == acc + DecodeFrom(u, i);
    } else {
      StringBodyWritten(s, i + 1, acc + [s[i]], u);
      assert u[i] == s[i];
      assert acc + [s[i]] + DecodeFrom(u, i + 1) == acc + DecodeFrom(u, i);
    }
  }

  /** Every literal the tokenizer accepts is a quote, a well-formed body and
      a quote, and stands for what that body decodes to. */
  lemma {:induction false} StringWritten(s: string, p: nat)
    requires p <= |s| && LexString(s, p).Ok?
    ensures Body(s[p + 1..LexString(s, p).value.next - 1])
    ensures LexString(s, p).value.token.value == Some(Decode(s[p + 1..LexString(s, p).value.next - 1]))
  {
    StringBodyWritten(s, p + 1, "", s[..LexString(s, p).value.next - 1]);
    WrittenBody(s[..p + 1], s[p + 1..LexString(s, p).value.next - 1], s[..LexString(s, p).value.next - 1]);
  }

  /** The body that follows the text x in u = x + w, read from |x| on. */
  lemma {:induction false} WrittenBody(x: string, w: string, u: string)
    requires u == x + w && BodyFrom(u, |x|)
    ensures Body(w) && DecodeFrom(u, |x|) == Decode(w) == "" + Decode(w)
  {
    BodyShift(x, w, 0);
  }

  /** Lexing the literal of any text gives back that text, and the cursor ends
      just past the closing quote. */
  lemma {:induction false} StringRoundTrip(s: string, p: nat, t: string)
    requires HasPrefixAt(s, p, Quote(t))
    ensures LexString(s, p) == Ok(Lexed(Token(TokenType.String, Some(t)), p + |Quote(t)|))
  {
    EscapeBody(t);
    BodyString(s, p, Escape(t));
  }

  /** An escape other than the eight supported ones, after any well-formed
      body, is an error. */
  lemma {:induction false} StringInvalidEscape(s: string, p: nat, w: string, c: char)
    requires HasPrefixAt(s, p, ['"'] + w + ['\\', c]) && Body(w)
    requires Unescape(c).None?
    ensures LexString(s, p) == Err(InvalidEscape(c))
  {
    Delimited(s, p, w, ['\\', c]);
    BodyReads(s, p + 1, w, 0, "");
    assert StringBody(s, p + 1 + |w|, "" + Decode(w), false) == StringBody(s, p + 2 + |w|, "" + Decode(w), true);
  }

  /** Input that ends inside a string literal, after any well-formed body and
      possibly just after a backslash, is an unterminated literal. */
  lemma {:induction false} StringUnterminated(s: string, p: nat, w: string, backslash: bool)
    requires p <= |s| && s[p..] == ['"'] + w + (if backslash then ['\\'] else []) && Body(w)
    ensures LexString(s, p) == Err(UnterminatedString)
  {
    assert HasPrefixAt(s, p, ['"'] + w + (if backslash then ['\\'] else []));
    Delimited(s, p, w, if backslash then ['\\'] else []);
    BodyReads(s, p + 1, w, 0, "");
    if backslash {
      assert StringBody(s, p + 1 + |w|, "" + Decode(w), false) == StringBody(s, p + 2 + |w|, "" + Decode(w), true);
    }
  }

  /** No character of w ends a literal or starts an escape. */
  predicate Plain(w: string) {
    forall k | 0 <= k < |w| :: w[k] != '"' && w[k] != '\\'
  }

  /** Characters that are neither a quote nor a backslash, control
      characters included, are taken over as they are. */
  lemma {:induction false} StringBodyPlain(s: string, i: nat, acc: string, w: string)
    requires HasPrefixAt(s, i, w) && Plain(w)
    ensures StringBody(s, i, acc, false) == StringBody(s, i + |w|, acc + w, false)
    decreases |w|
  {
    if w != [] {
      PrefixSlice(s, i, w, 0, 1);
      PrefixConcat(s, i, [w[0]], w[1..]);
      assert [w[0]] + w[1..] == w;
      StringBodyPlain(s, i + 1, acc + [w[0]], w[1..]);
      assert acc + [w[0]] + w[1..] == acc + w;
    } else {
      assert acc + w == acc;
    }
  }

  /** A literal whose body has no quote and no backslash stands for its body
      as written, raw control characters included. */
  lemma {:induction false} PlainString(s: string, p: nat, w: string)
    requires HasPrefixAt(s, p, ['"'] + w + ['"']) && Plain(w)
    ensures LexString(s, p) == Ok(Lexed(Token(TokenType.String, Some(w)), p + |w| + 2))
  {
    Delimited(s, p, w, ['"']);
    StringBodyPlain(s, p + 1, "", w);
    assert "" + w == w;
  }

  /** A literal holding one supported escape `\c` stands for the character of
      the escape table; `\/` gives `/`, which EscapeChar never writes. */
  lemma {:induction false} EscapedString(s: string, p: nat, c: char)
    requires HasPrefixAt(s, p, ['"', '\\', c, '"']) && Unescape(c).Some?
    ensures LexString(s, p) == Ok(Lexed(Token(TokenType.String, Some([Unescape(c).value])), p + 4))
  {
    var w: string := ['"', '\\', c, '"'];
    PrefixSlice(s, p, w, 0, 1);
    PrefixSlice(s, p, w, 1, 2);
    PrefixSlice(s, p, w, 2, 3);
    PrefixSlice(s, p, w, 3, 4);
    assert StringBody(s, p + 1, "", false) == StringBody(s, p + 2, "", true);
    assert "" + [Unescape(c).value] == [Unescape(c).value];
  }

  /** The five letter escapes stand for backspace, form feed, line feed,
      carriage return and tab. */
  lemma {:induction false} LetterEscapes(s: string, p: nat)
    ensures HasPrefixAt(s, p, "\"\\b\"") ==> LexString(s, p) == Ok(Lexed(Token(TokenType.String, Some("\U{8}")), p + 4))
    ensures HasPrefixAt(s, p, "\"\\f\"") ==> LexString(s, p) == Ok(Lexed(Token(TokenType.String, Some("\U{C}")), p + 4))
    ensures HasPrefixAt(s, p, "\"\\n\"") ==> LexString(s, p) == Ok(Lexed(Token(TokenType.String, Some("\n")), p + 4))
    ensures HasPrefixAt(s, p, "\"\\r\"") ==> LexString(s, p) == Ok(Lexed(Token(TokenType.String, Some("\r")), p + 4))
    ensures HasPrefixAt(s, p, "\"\\t\"") ==> LexString(s, p) == Ok(Lexed(Token(TokenType.String, Some("\t")), p + 4))
  {
    if HasPrefixAt(s, p, "\"\\b\"") { EscapedString(s, p, 'b'); }
    if HasPrefixAt(s, p, "\"\\f\"") { EscapedString(s, p, 'f'); }
    if HasPrefixAt(s, p, "\"\\n\"") { EscapedString(s, p, 'n'); }
    if HasPrefixAt(s, p, "\"\\r\"") { EscapedString(s, p, 'r'); }
    if HasPrefixAt(s, p, "\"\\t\"") { EscapedString(s, p, 't'); }
  }

  /** The pieces of an opening quote, a body e and a tail, read in place. */
  lemma {:induction false} Delimited(s: string, p: nat, e: string, tail: string)
    requires HasPrefixAt(s, p, ['"'] + e + tail)
    ensures s[p] == '"' && HasPrefixAt(s, p + 1, e) && p + 1 + |e| + |tail| <= |s|
    ensures |tail| > 0 ==> s[p + 1 + |e|] == tail[0]
    ensures |tail| > 1 ==> s[p + 2 + |e|] == tail[1]
  {
    PrefixConcat(s, p, ['"'] + e, tail);
    PrefixConcat(s, p, ['"'], e);
    PrefixFirst(s, p, ['"']);
    if |tail| > 1 {
      PrefixSlice(s, p + 1 + |e|, tail, 1, 2);
    }
    if |tail| > 0 {
      PrefixSlice(s, p + 1 + |e|, tail, 0, 1);
    }
  }


  // ------------------------------------------------------------------ numbers

  /** JsonTokenizer::parseNumber started at position p: optional minus, integer
      part, then NumberFraction. */
  function LexNumber(s: string, p: nat): (r: Result<Lexed>)
    requires p <= |s|
    ensures r.Ok? ==> p < r.value.next <= |s|
    ensures r.Ok? ==> r.value.token == Token(TokenType.Number, Some(s[p..r.value.next]))
  {
    var i := if p < |s| && s[p] == '-' then p + 1 else p;
    if i < |s| && s[i] == '0' then
      if DigitAt(s, i + 1) then Err(LeadingZeros) else NumberFraction(s, p, i + 1)
    else if DigitAt(s, i) then NumberFraction(s, p, RunEnd(s, i, IsDigit))
    else Err(ExpectedDigit)
  }

  /** The optional fraction of a number that started at `start`, at position i. */
  function NumberFraction(s: string, start: nat, i: nat): (r: Result<Lexed>)
    requires start < i <= |s|
    ensures r.Ok? ==> i <= r.value.next <= |s|
    ensures r.Ok? ==> r.value.token == Token(TokenType.Number, Some(s[start..r.value.next]))
  {
    if i < |s| && s[i] == '.' then
      if DigitAt(s, i + 1) then NumberExponent(s, start, RunEnd(s, i + 1, IsDigit))
      else Err(ExpectedFractionDigit)
    else NumberExponent(s, start, i)
  }

  /** The optional exponent of a number that started at `start`, at position i. */
  function NumberExponent(s: string, start: nat, i: nat): (r: Result<Lexed>)
    requires start < i <= |s|
    ensures r.Ok? ==> i <= r.value.next <= |s|
    ensures r.Ok? ==> r.value.token == Token(TokenType.Number, Some(s[start..r.value.next]))
  {
    if i < |s| && (s[i] == 'e' || s[i] == 'E') then
      var j := ExpDigits(s, i);
      if DigitAt(s, j) then NumberToken(s, start, RunEnd(s, j, IsDigit))
      else Err(ExpectedExponentDigit)
    else NumberToken(s, start, i)
  }

  /** Where the digits of an exponent whose marker is at i begin: after the
      marker and an optional sign. */
  function ExpDigits(s: string, i: nat): (j: nat)
    requires i < |s|
    ensures i < j <= |s| + 1
  {
    if SignAt(s, i + 1) then i + 2 else i + 1
  }

  function NumberToken(s: string, start: nat, end: nat): Result<Lexed>
    requires start <= end <= |s|
  {
    Ok(Lexed(Token(TokenType.Number, Some(s[start..end])), end))
  }

  // The grammar of section 6 of RFC 8259:
  //   number = [ minus ] int [ frac ] [ exp ]
  //   int = zero / ( digit1-9 *DIGIT ),  frac = "." 1*DIGIT,
  //   exp = ("e" / "E") [ "-" / "+" ] 1*DIGIT

  /** Every character of t is a digit. */
  predicate IsDigits(t: string) {
    t == [] || (IsDigit(t[0]) && IsDigits(t[1..]))
  }

  predicate IsSignPart(t: string) {
    t == "" || t == "-"
  }

  predicate IsIntPart(t: string) {
    t == "0" || (|t| > 0 && '1' <= t[0] <= '9' && IsDigits(t))
  }

  predicate IsFracPart(t: string) {
    t == "" || (|t| > 1 && t[0] == '.' && IsDigits(t[1..]))
  }

  predicate IsExpPart(t: string) {
    t == "" ||
    (|t| > 1 && (t[0] == 'e' || t[0] == 'E') &&
     if t[1] == '+' || t[1] == '-' then |t| > 2 && IsDigits(t[2..]) else IsDigits(t[1..]))
  }

  /** t is sign, integer, fraction and exponent, split at a, b and c. */
  predicate NumberSplit(t: string, a: nat, b: nat, c: nat) {
    a <= b <= c <= |t| &&
    IsSignPart(t[..a]) && IsIntPart(t[a..b]) && IsFracPart(t[b..c]) && IsExpPart(t[c..])
  }

  ghost predicate IsNumberLexeme(t: string) {
    exists a: nat, b: nat, c: nat :: NumberSplit(t, a, b, c)
  }

  /** u is an optional minus and an integer part, with no fraction or exponent. */
  predicate IsInteger(u: string) {
    var a := if |u| > 0 && u[0] == '-' then 1 else 0;
    NumberSplit(u, a, |u|, |u|)
  }

  /** There is a `+` or `-` at position i. */
  predicate SignAt(s: string, i: nat) {
    i < |s| && (s[i] == '+' || s[i] == '-')
  }

  /** A character that cannot continue any number: not a digit, `.`, `e` or `E`. */
  predicate EndsNumber(c: char) {
    !IsDigit(c) && c != '.' && c != 'e' && c != 'E'
  }

  /** The parts of a lexeme inside the input, read position by position. */
  lemma {:induction false} SplitAt(s: string, p: nat, t: string, a: nat, b: nat, c: nat) returns (i: nat, j: nat, k: nat)
    requires HasPrefixAt(s, p, t) && NumberSplit(t, a, b, c)
    ensures i == p + a && j == p + b && k == p + c && p <= i <= j <= k <= p + |t| <= |s|
    ensures IsSignPart(s[p..i]) && IsIntPart(s[i..j])
    ensures IsFracPart(s[j..k]) && IsExpPart(s[k..p + |t|])
    ensures j < k ==> s[j] == '.'
    ensures k < p + |t| ==> s[k] == 'e' || s[k] == 'E'
  {
    i, j, k := p + a, p + b, p + c;
    PrefixSlice(s, p, t, 0, a);
    PrefixSlice(s, p, t, a, b);
    PrefixSlice(s, p, t, b, c);
    PrefixSlice(s, p, t, c, |t|);
    assert t[..a] == t[0..a];
    if j < k {
      assert s[j] == s[j..k][0];
    }
    if k < p + |t| {
      assert s[k] == s[k..p + |t|][0];
    }
  }

  // Position-wise readings of the grammar predicates on a slice of the input.

  lemma {:induction false} DigitsAt(s: string, i: nat, j: nat)
    requires i <= j <= |s|
    ensures IsDigits(s[i..j]) <==> All(s, i, j, IsDigit)
    decreases j - i
  {
    if i < j {
      assert s[i..j][0] == s[i];
      assert s[i..j][1..] == s[i + 1..j];
      DigitsAt(s, i + 1, j);
    }
  }

  lemma {:induction false} SignPartAt(s: string, p: nat, i: nat)
    requires p <= i <= |s|
    ensures IsSignPart(s[p..i]) <==> i == p || (i == p + 1 && s[p] == '-')
  {
    if p < i {
      assert s[p..i][0] == s[p];
    }
    if i == p + 1 {
      assert s[p..i] == [s[p]];
    }
  }

  lemma {:induction false} IntPartAt(s: string, i: nat, b: nat)
    requires i <= b <= |s|
    ensures IsIntPart(s[i..b]) <==>
            i < b && ((s[i] == '0' && b == i + 1) || ('1' <= s[i] <= '9' && All(s, i, b, IsDigit)))
  {
    DigitsAt(s, i, b);
    if i < b {
      assert s[i..b][0] == s[i];
    }
    if b == i + 1 {
      assert s[i..b] == [s[i]];
    }
  }

  lemma {:induction false} FracPartAt(s: string, b: nat, c: nat)
    requires b <= c <= |s|
    ensures IsFracPart(s[b..c]) <==> b == c || (b + 1 < c && s[b] == '.' && All(s, b + 1, c, IsDigit))
  {
    if b < c {
      assert s[b..c][0] == s[b];
      assert s[b..c][1..] == s[b + 1..c];
      DigitsAt(s, b + 1, c);
    }
  }

  lemma {:induction false} ExpPartAt(s: string, c: nat, q: nat)
    requires c <= q <= |s|
    ensures IsExpPart(s[c..q]) <==>
            c == q ||
            (c < q && (s[c] == 'e' || s[c] == 'E') && ExpDigits(s, c) < q && All(s, ExpDigits(s, c), q, IsDigit))
  {
    if c < q {
      var t := s[c..q];
      assert t[0] == s[c];
      if c + 1 < q {
        assert t[1] == s[c + 1];
        assert t[1..] == s[c + 1..q];
        DigitsAt(s, c + 1, q);
        if c + 2 < q {
          assert t[2..] == s[c + 2..q];
          DigitsAt(s, c + 2, q);
        }
      }
    }
  }

  /** Past an optional minus and an integer part that no digit follows, the
      lexer continues with the fraction. */
  lemma {:induction false} LexNumberInteger(s: string, p: nat, i: nat, b: nat)
    requires p <= i <= b <= |s|
    requires IsSignPart(s[p..i]) && IsIntPart(s[i..b]) && !DigitAt(s, b)
    ensures p < b && LexNumber(s, p) == NumberFraction(s, p, b)
  {
    SignPartAt(s, p, i);
    IntPartAt(s, i, b);
    if s[i] != '0' {
      RunEndUnique(s, i, b, IsDigit);
    }
  }

  /** A fraction part that no digit follows is read whole; an absent fraction
      leaves the position unchanged. */
  lemma {:induction false} LexNumberFraction(s: string, start: nat, b: nat, c: nat)
    requires start < b <= c <= |s|
    requires IsFracPart(s[b..c]) && !DigitAt(s, c)
    requires b == c ==> b == |s| || s[b] != '.'
    ensures NumberFraction(s, start, b) == NumberExponent(s, start, c)
  {
    FracPartAt(s, b, c);
    if b < c {
      RunEndUnique(s, b + 1, c, IsDigit);
    }
  }

  /** An exponent part that no digit follows is read whole, ending the token;
      an absent exponent ends the token where it is. */
  lemma {:induction false} LexNumberExponent(s: string, start: nat, c: nat, q: nat)
    requires start < c <= q <= |s|
    requires IsExpPart(s[c..q]) && !DigitAt(s, q)
    requires c == q ==> c == |s| || (s[c] != 'e' && s[c] != 'E')
    ensures NumberExponent(s, start, c) == NumberToken(s, start, q)
  {
    ExpPartAt(s, c, q);
    if c < q {
      RunEndUnique(s, ExpDigits(s, c), q, IsDigit);
    }
  }

  /** Every number lexeme that a non-number character (or the end) follows is
      read whole, as one Number token. */
  lemma {:induction false} LexNumberComplete(s: string, p: nat, t: string)
    requires HasPrefixAt(s, p, t) && IsNumberLexeme(t)
    requires p + |t| == |s| || EndsNumber(s[p + |t|])
    ensures LexNumber(s, p) == Ok(Lexed(Token(TokenType.Number, Some(t)), p + |t|))
  {
    LexemeRead(s, p, t);
  }

  /** The number loop stops exactly at the end of a lexeme written at p. */
  lemma {:induction false} LexemeRead(s: string, p: nat, t: string)
    requires HasPrefixAt(s, p, t) && IsNumberLexeme(t)
    requires p + |t| == |s| || EndsNumber(s[p + |t|])
    ensures p + |t| <= |s| && s[p..p + |t|] == t && LexNumber(s, p) == NumberToken(s, p, p + |t|)
  {
    var i, b, c := LexemeAt(s, p, t);
    LexNumberParts(s, p, i, b, c, p + |t|);
  }

  /** Where the parts of a lexeme that starts at p lie in the input. */
  lemma {:induction false} LexemeAt(s: string, p: nat, t: string) returns (i: nat, b: nat, c: nat)
    requires HasPrefixAt(s, p, t) && IsNumberLexeme(t)
    ensures p <= i <= b <= c <= p + |t| <= |s| && s[p..p + |t|] == t
    ensures IsSignPart(s[p..i]) && IsIntPart(s[i..b])
    ensures IsFracPart(s[b..c]) && IsExpPart(s[c..p + |t|])
    ensures b < c ==> s[b] == '.'
    ensures c < p + |t| ==> s[c] == 'e' || s[c] == 'E'
    ensures c < p + |t| ==> 'e' in t || 'E' in t
  {
    var a': nat, b': nat, c': nat :| NumberSplit(t, a', b', c');
    i, b, c := SplitAt(s, p, t, a', b', c');
    MarkerIn(t, a', b', c');
  }

  /** A lexeme with an exponent part contains its marker. */
  lemma {:induction false} MarkerIn(t: string, a: nat, b: nat, c: nat)
    requires NumberSplit(t, a, b, c)
    ensures c < |t| ==> 'e' in t || 'E' in t
  {
    if c < |t| {
      assert t[c..][0] == t[c];
      assert t[c] in t;
    }
  }

  /** A number whose parts sit at p..i..b..c..q, followed by the end or by a
      character that cannot continue it, is read whole. */
  lemma {:induction false} LexNumberParts(s: string, p: nat, i: nat, b: nat, c: nat, q: nat)
    requires p <= i <= b <= c <= q <= |s|
    requires IsSignPart(s[p..i]) && IsIntPart(s[i..b]) && IsFracPart(s[b..c]) && IsExpPart(s[c..q])
    requires b < c ==> s[b] == '.'
    requires c < q ==> s[c] == 'e' || s[c] == 'E'
    requires q == |s| || EndsNumber(s[q])
    ensures LexNumber(s, p) == NumberToken(s, p, q)
  {
    assert !DigitAt(s, c);
    assert !DigitAt(s, b);
    LexNumberInteger(s, p, i, b);
    LexNumberFraction(s, p, b, c);
    LexNumberExponent(s, p, c, q);
  }

  /** Where the integer part that LexNumber reads ends. */
  lemma {:induction false} IntegerSound(s: string, p: nat) returns (i: nat, b: nat)
    requires p <= |s| && LexNumber(s, p).Ok?
    ensures p <= i < b <= |s|
    ensures IsSignPart(s[p..i]) && IsIntPart(s[i..b]) && !DigitAt(s, b)
    ensures LexNumber(s, p) == NumberFraction(s, p, b)
  {
    i := if p < |s| && s[p] == '-' then p + 1 else p;
    b := if s[i] == '0' then i + 1 else RunEnd(s, i, IsDigit);
    SignPartAt(s, p, i);
    IntPartAt(s, i, b);
  }

  /** Where the fraction that NumberFraction reads ends. */
  lemma {:induction false} FractionSound(s: string, start: nat, b: nat) returns (c: nat)
    requires start < b <= |s| && NumberFraction(s, start, b).Ok? && !DigitAt(s, b)
    ensures b <= c <= |s| && IsFracPart(s[b..c]) && !DigitAt(s, c)
    ensures c == b ==> b == |s| || s[b] != '.'
    ensures b < c ==> s[b] == '.'
    ensures NumberFraction(s, start, b) == NumberExponent(s, start, c)
  {
    if b < |s| && s[b] == '.' {
      c := RunEnd(s, b + 1, IsDigit);
    } else {
      c := b;
    }
    FracPartAt(s, b, c);
  }

  /** Where the exponent that NumberExponent reads ends. */
  lemma {:induction false} ExponentSound(s: string, start: nat, c: nat) returns (q: nat)
    requires start < c <= |s| && NumberExponent(s, start, c).Ok? && !DigitAt(s, c)
    ensures c <= q <= |s| && IsExpPart(s[c..q]) && !DigitAt(s, q)
    ensures q == c ==> c == |s| || (s[c] != 'e' && s[c] != 'E')
    ensures c < q ==> s[c] == 'e' || s[c] == 'E'
    ensures NumberExponent(s, start, c) == NumberToken(s, start, q)
  {
    if c < |s| && (s[c] == 'e' || s[c] == 'E') {
      q := RunEnd(s, ExpDigits(s, c), IsDigit);
    } else {
      q := c;
    }
    ExpPartAt(s, c, q);
  }

  /** A successful number lexeme is a number of RFC 8259, and the lexer stopped
      at the first character that cannot extend it: no digit, no `.` unless it
      already has a fraction or exponent, no `e`/`E` unless it already has an
      exponent. */
  lemma {:induction false} LexNumberSound(s: string, p: nat)
    requires p <= |s| && LexNumber(s, p).Ok?
    ensures var q := LexNumber(s, p).value.next;
            IsNumberLexeme(s[p..q]) && !DigitAt(s, q) &&
            (q < |s| && s[q] == '.' ==> '.' in s[p..q] || 'e' in s[p..q] || 'E' in s[p..q]) &&
            (q < |s| && (s[q] == 'e' || s[q] == 'E') ==> 'e' in s[p..q] || 'E' in s[p..q])
  {
    var i, b := IntegerSound(s, p);
    var c := FractionSound(s, p, b);
    var q := ExponentSound(s, p, c);
    assert LexNumber(s, p).value.next == q;
    PartsSplit(s, p, i, b, c, q);
    var t := s[p..q];
    if c < q {
      assert t[c - p] == s[c];
    } else if b < c {
      assert t[b - p] == s[b];
    }
  }

  /** Parts found at positions p..i..b..c..q split the lexeme s[p..q]. */
  lemma {:induction false} PartsSplit(s: string, p: nat, i: nat, b: nat, c: nat, q: nat)
    requires p <= i <= b <= c <= q <= |s|
    requires IsSignPart(s[p..i]) && IsIntPart(s[i..b]) && IsFracPart(s[b..c]) && IsExpPart(s[c..q])
    ensures NumberSplit(s[p..q], i - p, b - p, c - p)
  {
    var t := s[p..q];
    SliceOfSlice(s, p, q, p, i);
    SliceOfSlice(s, p, q, i, b);
    SliceOfSlice(s, p, q, b, c);
    SliceOfSlice(s, p, q, c, q);
    assert t[..i - p] == t[0..i - p];
    assert t[c - p..] == t[c - p..q - p];
  }

  lemma {:induction false} SliceOfSlice(s: string, p: nat, q: nat, x: nat, y: nat)
    requires p <= x <= y <= q <= |s|
    ensures s[p..q][x - p..y - p] == s[x..y]
  {
    forall k | 0 <= k < y - x ensures s[p..q][x - p..y - p][k] == s[x..y][k] {
      assert s[p..q][x - p..y - p][k] == s[p..q][x - p + k];
    }
  }

  /** A minus sign without a digit after it, and a zero followed by a digit,
      are errors. */
  lemma {:induction false} LexNumberErrors(s: string, p: nat)
    requires p <= |s|
    ensures HasPrefixAt(s, p, "-") && !DigitAt(s, p + 1) ==> LexNumber(s, p) == Err(ExpectedDigit)
    ensures HasPrefixAt(s, p, "0") && DigitAt(s, p + 1) ==> LexNumber(s, p) == Err(LeadingZeros)
    ensures HasPrefixAt(s, p, "-0") && DigitAt(s, p + 2) ==> LexNumber(s, p) == Err(LeadingZeros)
  {
    if HasPrefixAt(s, p, "-") {
      PrefixSlice(s, p, "-", 0, 1);
    }
    if HasPrefixAt(s, p, "-0") {
      PrefixSlice(s, p, "-0", 0, 1);
      PrefixSlice(s, p, "-0", 1, 2);
    }
    if HasPrefixAt(s, p, "0") {
      PrefixSlice(s, p, "0", 0, 1);
    }
  }

  /** A decimal point that no digit follows is an error. */
  lemma {:induction false} FractionWithoutDigits(s: string, p: nat, u: string)
    requires HasPrefixAt(s, p, u + ".") && IsInteger(u) && !DigitAt(s, p + |u| + 1)
    ensures LexNumber(s, p) == Err(ExpectedFractionDigit)
  {
    var a := if |u| > 0 && u[0] == '-' then 1 else 0;
    PrefixSlice(s, p, u + ".", 0, |u|);
    PrefixSlice(s, p, u + ".", |u|, |u| + 1);
    assert HasPrefixAt(s, p, u);
    var i, b, _ := SplitAt(s, p, u, a, |u|, |u|);
    LexNumberInteger(s, p, i, b);
  }

  /** An exponent marker, with or without a sign, that no digit follows is an
      error; a marker alone must not be followed by a sign either, since the
      sign would be read as part of the exponent. */
  lemma {:induction false} ExponentWithoutDigits(s: string, p: nat, u: string, e: string)
    requires e in ["e", "E", "e+", "e-", "E+", "E-"]
    requires HasPrefixAt(s, p, u + e) && IsNumberLexeme(u) && 'e' !in u && 'E' !in u
    requires !DigitAt(s, p + |u| + |e|)
    requires |e| == 1 ==> !SignAt(s, p + |u| + 1)
    ensures LexNumber(s, p) == Err(ExpectedExponentDigit)
  {
    ExponentMarkerAt(s, p, u, e);
    var i, b, c := LexemeAt(s, p, u);
    ExponentMissing(s, p, i, b, p + |u|);
  }

  lemma {:induction false} ExponentMarkerAt(s: string, p: nat, u: string, e: string)
    requires e in ["e", "E", "e+", "e-", "E+", "E-"]
    requires HasPrefixAt(s, p, u + e)
    requires !DigitAt(s, p + |u| + |e|)
    requires |e| == 1 ==> !SignAt(s, p + |u| + 1)
    ensures HasPrefixAt(s, p, u)
    ensures var q := p + |u|; q < |s| && (s[q] == 'e' || s[q] == 'E') && !DigitAt(s, ExpDigits(s, q))
  {
    PrefixSlice(s, p, u + e, 0, |u|);
    PrefixSlice(s, p, u + e, |u|, |u| + 1);
    if |e| == 2 {
      PrefixSlice(s, p, u + e, |u| + 1, |u| + 2);
    }
  }

  /** The position-wise core of ExponentWithoutDigits. */
  lemma {:induction false} ExponentMissing(s: string, p: nat, i: nat, b: nat, c: nat)
    requires p <= i <= b <= c < |s|
    requires IsSignPart(s[p..i]) && IsIntPart(s[i..b]) && IsFracPart(s[b..c])
    requires b < c ==> s[b] == '.'
    requires s[c] == 'e' || s[c] == 'E'
    requires !DigitAt(s, ExpDigits(s, c))
    ensures LexNumber(s, p) == Err(ExpectedExponentDigit)
  {
    assert !DigitAt(s, b);
    LexNumberInteger(s, p, i, b);
    LexNumberFraction(s, p, b, c);
  }

  // ----------------------------------------------------------------- keywords

  /** The keyword table of JsonTokenizer::parseBooleanOrNull, in its order. */
  const Keywords: seq<string> := ["true", "false", "null"]
  const KeywordTypes: seq<TokenType> := [TokenType.Boolean, TokenType.Boolean, TokenType.Null]

  /** The keyword loop from table entry i on. */
  function KeywordFrom(s: string, p: nat, i: nat): (r: Result<Lexed>)
    requires p <= |s| && i <= 3
    ensures r.Ok? <==> exists k | i <= k < 3 :: HasPrefixAt(s, p, Keywords[k])
    ensures r.Ok? ==> exists k | i <= k < 3 :: HasPrefixAt(s, p, Keywords[k]) &&
                        r.value == Lexed(Token(KeywordTypes[k], Some(Keywords[k])), p + |Keywords[k]|)
    ensures r.Err? ==> r.error == ExpectedKeyword
    decreases 3 - i
  {
    if i == 3 then Err(ExpectedKeyword)
    else if HasPrefixAt(s, p, Keywords[i])
    then Ok(Lexed(Token(KeywordTypes[i], Some(Keywords[i])), p + |Keywords[i]|))
    else KeywordFrom(s, p, i + 1)
  }

  /** JsonTokenizer::parseBooleanOrNull at position p: an exact prefix `true`,
      `false` or `null` gives its token and is consumed; anything else is an
      error. */
  function LexKeyword(s: string, p: nat): (r: Result<Lexed>)
    requires p <= |s|
    ensures HasPrefixAt(s, p, "true") ==> r == Ok(Lexed(Token(TokenType.Boolean, Some("true")), p + 4))
    ensures HasPrefixAt(s, p, "false") ==> r == Ok(Lexed(Token(TokenType.Boolean, Some("false")), p + 5))
    ensures HasPrefixAt(s, p, "null") ==> r == Ok(Lexed(Token(TokenType.Null, Some("null")), p + 4))
    ensures !HasPrefixAt(s, p, "true") && !HasPrefixAt(s, p, "false") && !HasPrefixAt(s, p, "null")
            ==> r == Err(ExpectedKeyword)
  {
    KeywordTable(s, p);
    KeywordFrom(s, p, 0)
  }

  /** The keyword loop tries `true`, `false` and `null` in turn; no two of
      them can match at the same position. */
  lemma {:induction false} KeywordTable(s: string, p: nat)
    requires p <= |s|
    ensures KeywordFrom(s, p, 0) ==
            if HasPrefixAt(s, p, "true") then Ok(Lexed(Token(TokenType.Boolean, Some("true")), p + 4))
            else if HasPrefixAt(s, p, "false") then Ok(Lexed(Token(TokenType.Boolean, Some("false")), p + 5))
            else if HasPrefixAt(s, p, "null") then Ok(Lexed(Token(TokenType.Null, Some("null")), p + 4))
            else Err(ExpectedKeyword)
    ensures HasPrefixAt(s, p, "true") ==> !HasPrefixAt(s, p, "false") && !HasPrefixAt(s, p, "null")
    ensures HasPrefixAt(s, p, "false") ==> !HasPrefixAt(s, p, "null")
  {
    assert KeywordFrom(s, p, 2) == if HasPrefixAt(s, p, "null")
      then Ok(Lexed(Token(TokenType.Null, Some("null")), p + 4)) else KeywordFrom(s, p, 3);
    assert KeywordFrom(s, p, 1) == if HasPrefixAt(s, p, "false")
      then Ok(Lexed(Token(TokenType.Boolean, Some("false")), p + 5)) else KeywordFrom(s, p, 2);
    PrefixFirst(s, p, "true");
    PrefixFirst(s, p, "false");
    PrefixFirst(s, p, "null");
  }

  lemma {:induction false} PrefixFirst(s: string, p: nat, w: string)
    requires |w| > 0
    ensures HasPrefixAt(s, p, w) ==> p < |s| && s[p] == w[0]
  {
    if HasPrefixAt(s, p, w) {
      PrefixSlice(s, p, w, 0, 1);
    }
  }

  // -------------------------------------------------------------- next token

  /** JsonTokenizer::nextToken at position p. */
  function Lex(s: string, p: nat): (r: Result<Lexed>)
    requires p <= |s|
    ensures r.Ok? ==> p <= r.value.next <= |s|
    ensures r.Ok? && r.value.token.kind != TokenType.EndOfInput ==> p < r.value.next
    ensures r.Ok? && r.value.token.kind == TokenType.EndOfInput
            ==> r.value == Lexed(Token(TokenType.EndOfInput, None), |s|)
  {
    var q := RunEnd(s, p, IsSpace);
    if q == |s| then Ok(Lexed(Token(TokenType.EndOfInput, None), q))
    else LexAt(s, q)
  }

  /** nextToken gives EndOfInput exactly when nothing but whitespace is left,
      and then the cursor is at the end. */
  lemma {:induction false} LexEndOfInput(s: string, p: nat)
    requires p <= |s|
    ensures All(s, p, |s|, IsSpace) <==> Lex(s, p) == Ok(Lexed(Token(TokenType.EndOfInput, None), |s|))
  {
    if All(s, p, |s|, IsSpace) {
      RunEndUnique(s, p, |s|, IsSpace);
    }
  }

  /** The dispatch of nextToken on the first character after whitespace. */
  function LexAt(s: string, q: nat): (r: Result<Lexed>)
    requires q < |s|
    ensures r.Ok? ==> q < r.value.next <= |s| && r.value.token.kind != TokenType.EndOfInput
  {
    var c := s[q];
    match Punctuation(c)
    case Some(k) => Ok(Lexed(Token(k, None), q + 1))
    case None =>
      if c == '"' then LexString(s, q)
      else if c == '-' || IsDigit(c) then LexNumber(s, q)
      else if c == 't' || c == 'f' || c == 'n' then LexKeyword(s, q)
      else Err(UnexpectedCharacter(c))
  }

  /** After whitespace, a structural character gives its payload-free token and
      is consumed alone; a character that starts no token is an error. */
  lemma {:induction false} LexDispatch(s: string, p: nat)
    requires p <= |s|
    ensures var q := RunEnd(s, p, IsSpace);
            q < |s| && Punctuation(s[q]).Some? ==>
              Lex(s, p) == Ok(Lexed(Token(Punctuation(s[q]).value, None), q + 1))
    ensures var q := RunEnd(s, p, IsSpace);
            q < |s| && Punctuation(s[q]).None? && s[q] !in "\"-0123456789tfn" ==>
              Lex(s, p) == Err(UnexpectedCharacter(s[q]))
  {
  }
}
