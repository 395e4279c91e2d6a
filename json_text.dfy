/** JSON text as the parser reads it: a syntax tree of documents that keeps
    the whitespace written in every gap between two tokens, the text each one
    is written as, and the value each one means. The round-trip theorem says
    that the parser reads every well-formed document, in any layout, back as
    its meaning: ParseText(SerItem(x)) == Ok(Meaning(x.doc)). */
module JsonText {
  import opened JsonTokens
  import opened JsonLexSpec
  import opened JsonValues
  import opened JsonGrammar

  /** A JSON document as written: members keep their order and duplicates,
      numbers keep their lexeme. `inner` is the whitespace between the
      brackets of an empty array or object. */
  datatype Doc =
    | DNull
    | DBool(b: bool)
    | DString(text: string)
    | DNumber(lexeme: string)
    | DArray(items: seq<Item>, inner: string)
    | DObject(members: seq<Member>, inner: string)

  /** A value with the whitespace written before and after it. */
  datatype Item = Item(before: string, doc: Doc, after: string)

  /** An object member: whitespace, the key literal, whitespace, the colon,
      then the value. */
  datatype Member = Member(before: string, key: string, colon: string, value: Item)

  /** Text made of whitespace only (std::isspace in the C locale). */
  predicate Blank(w: string) {
    forall k | 0 <= k < |w| :: IsSpace(w[k])
  }

  /** Every number is a lexeme of the number grammar, and every gap holds
      whitespace only. */
  ghost predicate WellFormed(d: Doc) {
    match d
    case DNumber(x) => IsNumberLexeme(x)
    case DArray(items, inner) => Blank(inner) && forall i | 0 <= i < |items| :: ItemWellFormed(items[i])
    case DObject(ms, inner) => Blank(inner) && forall i | 0 <= i < |ms| :: MemberWellFormed(ms[i])
    case _ => true
  }

  ghost predicate ItemWellFormed(x: Item) {
    Blank(x.before) && WellFormed(x.doc) && Blank(x.after)
  }

  ghost predicate MemberWellFormed(m: Member) {
    Blank(m.before) && Blank(m.colon) && ItemWellFormed(m.value)
  }

  /** The text of a document: `,` between items and members, `:` after keys,
      and the recorded whitespace around every token. */
  function Ser(d: Doc): string {
    match d
    case DNull => "null"
    case DBool(b) => if b then "true" else "false"
    case DString(t) => Quote(t)
    case DNumber(x) => x
    case DArray(items, inner) => "[" + (if items == [] then inner else SerItems(items)) + "]"
    case DObject(ms, inner) => "{" + (if ms == [] then inner else SerMembers(ms)) + "}"
  }

  function SerItem(x: Item): string {
    x.before + Ser(x.doc) + x.after
  }

  function SerItems(items: seq<Item>): string {
    if items == [] then ""
    else if |items| == 1 then SerItem(items[0])
    else SerItem(items[0]) + "," + SerItems(items[1..])
  }

  function SerMember(m: Member): string {
    m.before + Quote(m.key) + m.colon + ":" + SerItem(m.value)
  }

  function SerMembers(ms: seq<Member>): string {
    if ms == [] then ""
    else if |ms| == 1 then SerMember(ms[0])
    else SerMember(ms[0]) + "," + SerMembers(ms[1..])
  }

  /** The value a document stands for: objects keep the first value written
      for each key. */
  function Meaning(d: Doc): JsonValue {
    match d
    case DNull => JNull
    case DBool(b) => JBool(b)
    case DString(t) => JString(t)
    case DNumber(x) => JNumber(x)
    case DArray(items, _) => JArray(Meanings(items))
    case DObject(ms, _) => JObject(Fields(map[], ms))
  }

  function Meanings(items: seq<Item>): seq<JsonValue> {
    if items == [] then [] else [Meaning(items[0].doc)] + Meanings(items[1..])
  }

  function Fields(acc: map<string, JsonValue>, ms: seq<Member>): map<string, JsonValue>
    decreases ms
  {
    if ms == [] then acc else Fields(Emplace(acc, ms[0].key, Meaning(ms[0].value.doc)), ms[1..])
  }

  /** Text t written right after the item x cannot run into x's last token:
      x ends with whitespace, x is not a number (a literal, a closing quote,
      bracket or brace ends its token whatever follows), or t does not start
      with a character that continues a number. */
  predicate Apart(x: Item, t: string) {
    x.after != [] || !x.doc.DNumber? || t == [] || EndsNumber(t[0])
  }

  // ------------------------------------------------------------ reading tokens

  /** The lookahead after nextToken from position p. */
  function From(s: string, p: nat): Result<Cursor>
    requires p <= |s|
  {
    Advance(s, Cursor(p, Token(TokenType.EndOfInput, None)))
  }

  /** A parse that ends with the lookahead r and the value v. */
  function Then(r: Result<Cursor>, v: JsonValue): Result<Parsed> {
    match r
    case Ok(c) => Ok(Parsed(v, c))
    case Err(e) => Err(e)
  }

  /** A number may end at q: at the end of input or before a character that
      cannot continue it. */
  predicate Ends(s: string, q: nat) {
    q == |s| || (q < |s| && EndsNumber(s[q]))
  }

  /** The text of d, written up to q, is read as d's own tokens: d is not a
      number, or a number may end at q. */
  predicate Closed(d: Doc, s: string, q: nat) {
    !d.DNumber? || Ends(s, q)
  }

  lemma {:induction false} AdvanceFrom(s: string, c: Cursor)
    requires c.pos <= |s|
    ensures Advance(s, c) == From(s, c.pos)
  {
  }

  lemma {:induction false} AdvanceAt(s: string, c: Cursor, p: nat, a: Result<Cursor>)
    requires c.pos == p && p <= |s| && From(s, p) == a
    ensures Advance(s, c) == a
  {
  }

  /** Whitespace written at p does not change the next token. */
  lemma {:induction false} Skip(s: string, p: nat, w: string)
    requires HasPrefixAt(s, p, w) && Blank(w)
    ensures From(s, p) == From(s, p + |w|)
  {
    var r := RunEnd(s, p + |w|, IsSpace);
    forall k | p <= k < p + |w| ensures IsSpace(s[k]) {
      assert s[k] == s[p..p + |w|][k - p];
    }
    RunEndUnique(s, p, r, IsSpace);
  }

  /** The same, once the token after the whitespace is known. */
  lemma {:induction false} SkipTo(s: string, p: nat, w: string, a: Result<Cursor>)
    requires HasPrefixAt(s, p, w) && Blank(w) && From(s, p + |w|) == a
    ensures From(s, p) == a
  {
    Skip(s, p, w);
  }

  lemma {:induction false} FromEnd(s: string)
    ensures From(s, |s|) == Ok(Cursor(|s|, Token(TokenType.EndOfInput, None)))
  {
  }

  /** A structural character is read as its token. */
  lemma {:induction false} FromPunct(s: string, p: nat)
    requires p < |s| && Punctuation(s[p]).Some?
    ensures From(s, p) == Ok(Cursor(p + 1, Token(Punctuation(s[p]).value, None)))
  {
    assert RunEnd(s, p, IsSpace) == p;
  }

  /** The token that starts a document's text t, which ends at e. */
  lemma {:induction false} FromFirst(s: string, p: nat, d: Doc, t: string, e: nat)
    requires WellFormed(d) && t == Ser(d) && HasPrefixAt(s, p, t) && e == p + |t| && Closed(d, s, e)
    ensures From(s, p) == Ok(FirstCursor(p, d))
  {
    match d
    case DNull => FromLiteral(s, p, d, t);
    case DBool(_) => FromLiteral(s, p, d, t);
    case DString(_) => FromQuoted(s, p, d, t);
    case DNumber(_) => FromLexeme(s, p, d, t);
    case DArray(_, _) => FromOpening(s, p, d, t);
    case DObject(_, _) => FromOpening(s, p, d, t);
  }

  /** The keyword that is the text t of null, true or false. */
  lemma {:induction false} FromLiteral(s: string, p: nat, d: Doc, t: string)
    requires (d.DNull? || d.DBool?) && t == Ser(d) && HasPrefixAt(s, p, t)
    ensures From(s, p) == Ok(FirstCursor(p, d))
  {
    FromKeyword(s, p, t);
  }

  /** The quoted text t of a string document. */
  lemma {:induction false} FromQuoted(s: string, p: nat, d: Doc, t: string)
    requires d.DString? && t == Ser(d) && HasPrefixAt(s, p, t)
    ensures From(s, p) == Ok(FirstCursor(p, d))
  {
    FromString(s, p, d.text, t);
  }

  /** The lexeme t of a number document, followed by a character that ends it. */
  lemma {:induction false} FromLexeme(s: string, p: nat, d: Doc, t: string)
    requires d.DNumber? && WellFormed(d) && t == Ser(d) && HasPrefixAt(s, p, t) && Ends(s, p + |t|)
    ensures From(s, p) == Ok(FirstCursor(p, d))
  {
    assert t == d.lexeme;
    FromNumber(s, p, t);
    assert FirstCursor(p, d) == Cursor(p + |t|, Token(TokenType.Number, Some(t)));
  }

  /** The opening bracket or brace of a container's text t. */
  lemma {:induction false} FromOpening(s: string, p: nat, d: Doc, t: string)
    requires (d.DArray? || d.DObject?) && t == Ser(d) && HasPrefixAt(s, p, t)
    ensures From(s, p) == Ok(FirstCursor(p, d))
  {
    Opening(d, t);
    PrefixSlice(s, p, t, 0, 1);
    FromPunct(s, p);
  }

  /** Away from whitespace, nextToken is the dispatch on the character. */
  lemma {:induction false} FromToken(s: string, p: nat, l: Result<Lexed>)
    requires p < |s| && !IsSpace(s[p]) && l == LexAt(s, p)
    ensures From(s, p) == match l
                          case Ok(x) => Ok(Cursor(x.next, x.token))
                          case Err(e) => Err(e)
  {
    assert RunEnd(s, p, IsSpace) == p;
  }

  lemma {:induction false} FromKeyword(s: string, p: nat, w: string)
    requires w in Keywords && HasPrefixAt(s, p, w)
    ensures From(s, p) == Ok(Cursor(p + |w|, Token(if w == "null" then TokenType.Null else TokenType.Boolean, Some(w))))
  {
    KeywordLexed(s, p, w);
    FromToken(s, p, Ok(Lexed(Token(if w == "null" then TokenType.Null else TokenType.Boolean, Some(w)), p + |w|)));
  }

  lemma {:induction false} KeywordLexed(s: string, p: nat, w: string)
    requires w in Keywords && HasPrefixAt(s, p, w)
    ensures p < |s| && !IsSpace(s[p])
    ensures LexAt(s, p) == Ok(Lexed(Token(if w == "null" then TokenType.Null else TokenType.Boolean, Some(w)), p + |w|))
  {
    PrefixFirst(s, p, w);
    assert s[p] == 't' || s[p] == 'f' || s[p] == 'n';
    assert LexAt(s, p) == LexKeyword(s, p);
  }

  lemma {:induction false} FromString(s: string, p: nat, t: string, e: string)
    requires e == Quote(t) && HasPrefixAt(s, p, e)
    ensures From(s, p) == Ok(Cursor(p + |e|, Token(TokenType.String, Some(t))))
  {
    StringLexed(s, p, t, e);
    FromToken(s, p, Ok(Lexed(Token(TokenType.String, Some(t)), p + |e|)));
  }

  lemma {:induction false} StringLexed(s: string, p: nat, t: string, e: string)
    requires e == Quote(t) && HasPrefixAt(s, p, e)
    ensures p < |s| && !IsSpace(s[p])
    ensures LexAt(s, p) == Ok(Lexed(Token(TokenType.String, Some(t)), p + |e|))
  {
    PrefixSlice(s, p, e, 0, 1);
    assert LexAt(s, p) == LexString(s, p);
    StringRoundTrip(s, p, t);
  }

  lemma {:induction false} FromNumber(s: string, p: nat, x: string)
    requires IsNumberLexeme(x) && HasPrefixAt(s, p, x) && Ends(s, p + |x|)
    ensures From(s, p) == Ok(Cursor(p + |x|, Token(TokenType.Number, Some(x))))
  {
    NumberLexed(s, p, x);
    FromToken(s, p, Ok(Lexed(Token(TokenType.Number, Some(x)), p + |x|)));
  }

  lemma {:induction false} NumberLexed(s: string, p: nat, x: string)
    requires IsNumberLexeme(x) && HasPrefixAt(s, p, x) && Ends(s, p + |x|)
    ensures p < |s| && !IsSpace(s[p])
    ensures LexAt(s, p) == Ok(Lexed(Token(TokenType.Number, Some(x)), p + |x|))
  {
    assert p < |s| && (s[p] == '-' || IsDigit(s[p])) by {
      LexemeStart(x);
      PrefixSlice(s, p, x, 0, 1);
    }
    LexAtNumber(s, p);
    LexNumberComplete(s, p, x);
  }

  lemma {:induction false} LexAtNumber(s: string, p: nat)
    requires p < |s| && (s[p] == '-' || IsDigit(s[p]))
    ensures LexAt(s, p) == LexNumber(s, p)
  {
  }

  /** The lookahead after the first token of d, read at p. */
  function FirstCursor(p: nat, d: Doc): Cursor {
    match d
    case DNull => Cursor(p + 4, Token(TokenType.Null, Some("null")))
    case DBool(b) =>
      if b then Cursor(p + 4, Token(TokenType.Boolean, Some("true")))
      else Cursor(p + 5, Token(TokenType.Boolean, Some("false")))
    case DString(t) => Cursor(p + |Quote(t)|, Token(TokenType.String, Some(t)))
    case DNumber(x) => Cursor(p + |x|, Token(TokenType.Number, Some(x)))
    case DArray(_, _) => Cursor(p + 1, Token(TokenType.LeftBracket, None))
    case DObject(_, _) => Cursor(p + 1, Token(TokenType.LeftBrace, None))
  }

  /** The lookahead after the first token of an item written at q. */
  function ItemCursor(q: nat, x: Item): Cursor {
    FirstCursor(q + |x.before|, x.doc)
  }

  /** The lookahead after the key literal of a member written at q. */
  function KeyCursor(q: nat, m: Member): Cursor {
    Cursor(q + |m.before| + |Quote(m.key)|, Token(TokenType.String, Some(m.key)))
  }

  /** A number lexeme starts with a minus sign or a digit. */
  lemma {:induction false} LexemeStart(t: string)
    requires IsNumberLexeme(t)
    ensures |t| > 0 && (t[0] == '-' || IsDigit(t[0]))
  {
    var a: nat, b: nat, c: nat :| NumberSplit(t, a, b, c);
    if a == 0 {
      assert t[a..b][0] == t[0];
    } else {
      assert t[..a] == "-";
      assert t[..a][0] == t[0];
    }
  }

  /** The first token of a document ends within its text. */
  lemma {:induction false} FirstWithin(p: nat, d: Doc)
    ensures FirstCursor(p, d).pos <= p + |Ser(d)|
  {
  }

  // ---------------------------------------------------------------- pieces

  /** A text made of three parts, read at q, has each part at its place. */
  lemma {:induction false} Split3(s: string, q: nat, t: string, x: string, y: string, z: string, i: nat, j: nat)
    requires HasPrefixAt(s, q, t) && t == x + y + z && i == q + |x| && j == i + |y|
    ensures HasPrefixAt(s, q, x) && HasPrefixAt(s, i, y) && HasPrefixAt(s, j, z)
  {
    PrefixSplit(s, q, t, x + y, z);
    PrefixSplit(s, q, x + y, x, y);
  }

  /** A document d whose text ends at e, followed by whitespace w up to f,
      is closed at e. */
  lemma {:induction false} ValueEnds(s: string, d: Doc, e: nat, w: string, f: nat)
    requires HasPrefixAt(s, e, w) && Blank(w) && f == e + |w| && (w != [] || Closed(d, s, f))
    ensures Closed(d, s, e)
  {
    if w != [] {
      PrefixSlice(s, e, w, 0, 1);
    }
  }

  ghost predicate AllWellFormed(items: seq<Item>) {
    forall i | 0 <= i < |items| :: ItemWellFormed(items[i])
  }

  ghost predicate MembersWellFormed(ms: seq<Member>) {
    forall i | 0 <= i < |ms| :: MemberWellFormed(ms[i])
  }

  lemma {:induction false} AllWellFormedTail(items: seq<Item>)
    requires items != [] && AllWellFormed(items)
    ensures ItemWellFormed(items[0]) && AllWellFormed(items[1..])
  {
    assert ItemWellFormed(items[0]);
    forall i | 0 <= i < |items| - 1 ensures ItemWellFormed(items[1..][i]) {
      assert items[1..][i] == items[i + 1];
    }
  }

  lemma {:induction false} MembersWellFormedTail(ms: seq<Member>)
    requires ms != [] && MembersWellFormed(ms)
    ensures MemberWellFormed(ms[0]) && MembersWellFormed(ms[1..])
  {
    assert MemberWellFormed(ms[0]);
    forall i | 0 <= i < |ms| - 1 ensures MemberWellFormed(ms[1..][i]) {
      assert ms[1..][i] == ms[i + 1];
    }
  }

  lemma {:induction false} MeaningsCons(acc: seq<JsonValue>, items: seq<Item>)
    requires items != []
    ensures acc + Meanings(items) == acc + [Meaning(items[0].doc)] + Meanings(items[1..])
    ensures |items| == 1 ==> acc + Meanings(items) == acc + [Meaning(items[0].doc)]
  {
  }

  lemma {:induction false} FieldsCons(acc: map<string, JsonValue>, ms: seq<Member>)
    requires ms != []
    ensures Fields(acc, ms) == Fields(Emplace(acc, ms[0].key, Meaning(ms[0].value.doc)), ms[1..])
    ensures |ms| == 1 ==> Fields(acc, ms) == Emplace(acc, ms[0].key, Meaning(ms[0].value.doc))
  {
  }

  // ------------------------------------------------------- grammar steps

  lemma {:induction false} ArrayOpen(s: string, c: Cursor, first: Cursor)
    requires c.pos <= |s| && first.pos <= |s| && c.look.kind == TokenType.LeftBracket
    requires Advance(s, c) == Ok(first) && first.look.kind != TokenType.RightBracket
    ensures ParseArray(s, c) == Elements(s, first, [])
  {
  }

  lemma {:induction false} ArrayEmpty(s: string, c: Cursor, first: Cursor)
    requires c.pos <= |s| && first.pos <= |s| && c.look.kind == TokenType.LeftBracket
    requires Advance(s, c) == Ok(first) && first.look.kind == TokenType.RightBracket
    ensures ParseArray(s, c) == Then(Advance(s, first), JArray([]))
  {
  }

  lemma {:induction false} ObjectOpen(s: string, c: Cursor, first: Cursor)
    requires c.pos <= |s| && first.pos <= |s| && c.look.kind == TokenType.LeftBrace
    requires Advance(s, c) == Ok(first) && first.look.kind != TokenType.RightBrace
    ensures ParseObject(s, c) == Members(s, first, map[])
  {
  }

  lemma {:induction false} ObjectEmpty(s: string, c: Cursor, first: Cursor)
    requires c.pos <= |s| && first.pos <= |s| && c.look.kind == TokenType.LeftBrace
    requires Advance(s, c) == Ok(first) && first.look.kind == TokenType.RightBrace
    ensures ParseObject(s, c) == Then(Advance(s, first), JObject(map[]))
  {
  }

  /** One turn of the parseArray loop that ends at a comma. */
  lemma {:induction false} ElementsNext(s: string, c: Cursor, acc: seq<JsonValue>, x: JsonValue, after: Cursor, next: Cursor)
    requires c.pos <= |s| && after.pos <= |s| && next.pos <= |s|
    requires ParseValue(s, c) == Ok(Parsed(x, after)) && after.look.kind == TokenType.Comma
    requires Advance(s, after) == Ok(next)
    ensures Elements(s, c, acc) == Elements(s, next, acc + [x])
  {
  }

  /** The turn of the parseArray loop that ends at the closing bracket. */
  lemma {:induction false} ElementsLast(s: string, c: Cursor, acc: seq<JsonValue>, x: JsonValue, after: Cursor)
    requires c.pos <= |s| && after.pos <= |s|
    requires ParseValue(s, c) == Ok(Parsed(x, after)) && after.look.kind == TokenType.RightBracket
    ensures Elements(s, c, acc) == Then(Advance(s, after), JArray(acc + [x]))
  {
  }

  /** A key, a colon and a value. */
  lemma {:induction false} MemberStep(s: string, c: Cursor, colon: Cursor, start: Cursor, x: JsonValue, a: Cursor)
    requires c.pos <= |s| && colon.pos <= |s| && start.pos <= |s|
    requires c.look.kind == TokenType.String && c.look.value.Some?
    requires Advance(s, c) == Ok(colon) && colon.look.kind == TokenType.Colon
    requires Advance(s, colon) == Ok(start) && ParseValue(s, start) == Ok(Parsed(x, a))
    ensures JsonGrammar.Member(s, c) == Ok(Field(c.look.value.value, x, a))
  {
  }

  /** One turn of the parseObject loop that ends at a comma. */
  lemma {:induction false} MembersNext(s: string, c: Cursor, acc: map<string, JsonValue>, k: string, x: JsonValue, after: Cursor, next: Cursor)
    requires c.pos <= |s| && after.pos <= |s| && next.pos <= |s|
    requires JsonGrammar.Member(s, c) == Ok(Field(k, x, after)) && after.look.kind == TokenType.Comma
    requires Advance(s, after) == Ok(next)
    ensures Members(s, c, acc) == Members(s, next, Emplace(acc, k, x))
  {
  }

  /** After an element, a token other than `,` or `]` is an error. */
  lemma {:induction false} ElementsSeparator(s: string, c: Cursor, acc: seq<JsonValue>, x: JsonValue, after: Cursor)
    requires c.pos <= |s| && ParseValue(s, c) == Ok(Parsed(x, after))
    requires after.look.kind != TokenType.Comma && after.look.kind != TokenType.RightBracket
    ensures Elements(s, c, acc) == Err(ExpectedCommaOrBracket)
  {
  }

  /** After a key, a token other than `:` is an error. */
  lemma {:induction false} KeyWithoutColon(s: string, c: Cursor, next: Cursor)
    requires c.pos <= |s| && c.look.kind == TokenType.String && c.look.value.Some?
    requires Advance(s, c) == Ok(next) && next.look.kind != TokenType.Colon
    ensures JsonGrammar.Member(s, c) == Err(ExpectedColon)
  {
  }

  /** After a member, a token other than `,` or `}` is an error. */
  lemma {:induction false} MembersSeparator(s: string, c: Cursor, acc: map<string, JsonValue>, k: string, x: JsonValue, after: Cursor)
    requires c.pos <= |s| && JsonGrammar.Member(s, c) == Ok(Field(k, x, after))
    requires after.look.kind != TokenType.Comma && after.look.kind != TokenType.RightBrace
    ensures Members(s, c, acc) == Err(ExpectedCommaOrBrace)
  {
  }

  /** The first token of a document is one that starts a value. */
  lemma {:induction false} FirstKind(p: nat, d: Doc)
    ensures FirstCursor(p, d).look.kind in {TokenType.Null, TokenType.Boolean, TokenType.String,
                                            TokenType.Number, TokenType.LeftBracket, TokenType.LeftBrace}
  {
  }

  /** The same, for the first token of an item written at q. */
  lemma {:induction false} ItemKind(q: nat, x: Item)
    ensures ItemCursor(q, x).look.kind in {TokenType.Null, TokenType.Boolean, TokenType.String,
                                           TokenType.Number, TokenType.LeftBracket, TokenType.LeftBrace}
  {
    FirstKind(q + |x.before|, x.doc);
  }

  // ---------------------------------------------------------------- layout

  /** Where the whitespace and the value of an item's text, read at q, lie. */
  lemma {:induction false} ItemLayout(s: string, q: nat, x: Item, f: nat) returns (p: nat, e: nat)
    requires HasPrefixAt(s, q, SerItem(x)) && f == q + |SerItem(x)|
    ensures p == q + |x.before| && e == p + |Ser(x.doc)| && f == e + |x.after|
    ensures HasPrefixAt(s, q, x.before) && HasPrefixAt(s, p, Ser(x.doc)) && HasPrefixAt(s, e, x.after)
  {
    p := q + |x.before|;
    e := p + |Ser(x.doc)|;
    Split3(s, q, SerItem(x), x.before, Ser(x.doc), x.after, p, e);
  }

  /** Where the brackets and the inside of an array's text t lie. */
  lemma {:induction false} ArrayLayout(s: string, p: nat, d: Doc, t: string, e: nat) returns (b: string, j: nat)
    requires d.DArray? && t == Ser(d) && HasPrefixAt(s, p, t) && e == p + |t|
    ensures b == (if d.items == [] then d.inner else SerItems(d.items)) && j == p + 1 + |b| && e == j + 1
    ensures HasPrefixAt(s, p + 1, b) && j < |s| && s[j] == ']'
  {
    b := if d.items == [] then d.inner else SerItems(d.items);
    j := p + 1 + |b|;
    assert t == "[" + b + "]";
    Split3(s, p, t, "[", b, "]", p + 1, j);
    PrefixSlice(s, j, "]", 0, 1);
  }

  /** Where the braces and the inside of an object's text t lie. */
  lemma {:induction false} ObjectLayout(s: string, p: nat, d: Doc, t: string, e: nat) returns (b: string, j: nat)
    requires d.DObject? && t == Ser(d) && HasPrefixAt(s, p, t) && e == p + |t|
    ensures b == (if d.members == [] then d.inner else SerMembers(d.members)) && j == p + 1 + |b| && e == j + 1
    ensures HasPrefixAt(s, p + 1, b) && j < |s| && s[j] == '}'
  {
    b := if d.members == [] then d.inner else SerMembers(d.members);
    j := p + 1 + |b|;
    assert t == "{" + b + "}";
    Split3(s, p, t, "{", b, "}", p + 1, j);
    PrefixSlice(s, j, "}", 0, 1);
  }

  /** An item list b read at q and ending at j before a closing bracket: its
      first item's text ends at f, then either the list ends or a comma and
      the text b' of the other items follow. */
  lemma {:induction false} ItemsLayout(s: string, q: nat, items: seq<Item>, b: string, j: nat) returns (f: nat, b': string)
    requires items != [] && b == SerItems(items)
    requires HasPrefixAt(s, q, b) && j == q + |b| && j < |s| && s[j] == ']'
    ensures HasPrefixAt(s, q, SerItem(items[0])) && f == q + |SerItem(items[0])| && Ends(s, f)
    ensures |items| == 1 ==> f == j
    ensures |items| > 1 ==> b' == SerItems(items[1..]) && f < |s| && s[f] == ',' &&
                            HasPrefixAt(s, f + 1, b') && j == f + 1 + |b'|
  {
    var v := SerItem(items[0]);
    f := q + |v|;
    b' := SerItems(items[1..]);
    if |items| == 1 {
      assert b == v;
    } else {
      assert b == v + "," + b';
      Split3(s, q, b, v, ",", b', f, f + 1);
      PrefixSlice(s, f, ",", 0, 1);
    }
  }

  /** Where the parts of a member's text, read at q, lie: the key literal
      ends at k and the colon is at i. */
  lemma {:induction false} MemberLayout(s: string, q: nat, m: Member, f: nat) returns (k: nat, i: nat)
    requires HasPrefixAt(s, q, SerMember(m)) && f == q + |SerMember(m)|
    ensures HasPrefixAt(s, q, m.before) && HasPrefixAt(s, q + |m.before|, Quote(m.key))
    ensures k == KeyCursor(q, m).pos && HasPrefixAt(s, k, m.colon) && i == k + |m.colon| && i < |s| && s[i] == ':'
    ensures HasPrefixAt(s, i + 1, SerItem(m.value)) && f == i + 1 + |SerItem(m.value)|
  {
    var kq := Quote(m.key);
    k := q + |m.before| + |kq|;
    i := k + |m.colon|;
    var head := m.before + kq;
    var t := SerMember(m);
    assert t == (head + m.colon) + ":" + SerItem(m.value);
    Split3(s, q, t, head + m.colon, ":", SerItem(m.value), i, i + 1);
    PrefixSlice(s, i, ":", 0, 1);
    Split3(s, q, head + m.colon, m.before, kq, m.colon, q + |m.before|, k);
  }

  /** A member list b read at q and ending at j before a closing brace: its
      first member's text ends at f, then either the list ends or a comma and
      the text b' of the other members follow. */
  lemma {:induction false} MembersLayout(s: string, q: nat, ms: seq<Member>, b: string, j: nat) returns (f: nat, b': string)
    requires ms != [] && b == SerMembers(ms)
    requires HasPrefixAt(s, q, b) && j == q + |b| && j < |s| && s[j] == '}'
    ensures HasPrefixAt(s, q, SerMember(ms[0])) && f == q + |SerMember(ms[0])| && Ends(s, f)
    ensures |ms| == 1 ==> f == j
    ensures |ms| > 1 ==> b' == SerMembers(ms[1..]) && f < |s| && s[f] == ',' &&
                         HasPrefixAt(s, f + 1, b') && j == f + 1 + |b'|
  {
    var v := SerMember(ms[0]);
    f := q + |v|;
    b' := SerMembers(ms[1..]);
    if |ms| == 1 {
      assert b == v;
    } else {
      assert b == v + "," + b';
      Split3(s, q, b, v, ",", b', f, f + 1);
      PrefixSlice(s, f, ",", 0, 1);
    }
  }

  /** The first character of a container's text. */
  lemma {:induction false} Opening(d: Doc, t: string)
    requires (d.DArray? || d.DObject?) && t == Ser(d)
    ensures |t| > 0 && t[0] == if d.DArray? then '[' else '{'
  {
  }

  // ------------------------------------------------------------ round trip

  /** The first token of an item's text, which ends at f: its leading
      whitespace is skipped. */
  lemma {:induction false} ItemFirst(s: string, q: nat, x: Item, f: nat)
    requires ItemWellFormed(x) && HasPrefixAt(s, q, SerItem(x)) && f == q + |SerItem(x)|
    requires x.after != [] || Closed(x.doc, s, f)
    ensures From(s, q) == Ok(ItemCursor(q, x))
  {
    var p, e := ItemLayout(s, q, x, f);
    ValueEnds(s, x.doc, e, x.after, f);
    FirstAfter(s, q, x.before, x.doc, e);
  }

  /** Whitespace w, then the text of a document, which ends at e. */
  lemma {:induction false} FirstAfter(s: string, q: nat, w: string, d: Doc, e: nat)
    requires Blank(w) && HasPrefixAt(s, q, w) && WellFormed(d) && HasPrefixAt(s, q + |w|, Ser(d))
    requires e == q + |w| + |Ser(d)| && Closed(d, s, e)
    ensures From(s, q) == Ok(FirstCursor(q + |w|, d))
  {
    FromFirst(s, q + |w|, d, Ser(d), e);
    SkipTo(s, q, w, Ok(FirstCursor(q + |w|, d)));
  }

  /** Reading an item's text, which ends at f, from its first token gives
      its meaning, then the token that follows its trailing whitespace. */
  lemma {:induction false} ItemRoundTrip(s: string, q: nat, x: Item, f: nat, a: Result<Cursor>)
    requires ItemWellFormed(x) && HasPrefixAt(s, q, SerItem(x)) && f == q + |SerItem(x)|
    requires x.after != [] || Closed(x.doc, s, f)
    requires From(s, f) == a
    ensures ItemCursor(q, x).pos <= |s|
    ensures ParseValue(s, ItemCursor(q, x)) == Then(a, Meaning(x.doc))
    decreases x, 2
  {
    var p, e := ItemLayout(s, q, x, f);
    ValueEnds(s, x.doc, e, x.after, f);
    SkipTo(s, e, x.after, a);
    ValueRoundTrip(s, p, x.doc, Ser(x.doc), e, a);
    assert ItemCursor(q, x) == FirstCursor(p, x.doc);
  }

  /** Reading the text t of a document, which ends at e, from its first
      token gives its meaning, then the token read from e. */
  lemma {:induction false} ValueRoundTrip(s: string, p: nat, d: Doc, t: string, e: nat, a: Result<Cursor>)
    requires WellFormed(d) && t == Ser(d) && HasPrefixAt(s, p, t) && e == p + |t| && Closed(d, s, e)
    requires From(s, e) == a
    ensures FirstCursor(p, d).pos <= |s|
    ensures ParseValue(s, FirstCursor(p, d)) == Then(a, Meaning(d))
    decreases d, 1
  {
    FirstWithin(p, d);
    match d
    case DArray(_, _) => ArrayRoundTrip(s, p, d, t, e, a);
    case DObject(_, _) => ObjectRoundTrip(s, p, d, t, e, a);
    case _ => ScalarRoundTrip(s, p, d, t, e, a);
  }

  /** A scalar is one token: the lookahead after it is read from e. */
  lemma {:induction false} ScalarRoundTrip(s: string, p: nat, d: Doc, t: string, e: nat, a: Result<Cursor>)
    requires !d.DArray? && !d.DObject? && t == Ser(d) && e == p + |t| && e <= |s| && From(s, e) == a
    ensures ParseValue(s, FirstCursor(p, d)) == Then(a, Meaning(d))
  {
    var c := FirstCursor(p, d);
    assert c.pos == e;
    AdvanceAt(s, c, e, a);
  }

  lemma {:induction false} ArrayRoundTrip(s: string, p: nat, d: Doc, t: string, e: nat, a: Result<Cursor>)
    requires d.DArray? && WellFormed(d) && t == Ser(d) && HasPrefixAt(s, p, t) && e == p + |t|
    requires From(s, e) == a
    ensures p + 1 <= |s|
    ensures ParseArray(s, Cursor(p + 1, Token(TokenType.LeftBracket, None))) == Then(a, Meaning(d))
    decreases d, 0
  {
    var b, j := ArrayLayout(s, p, d, t, e);
    assert Blank(d.inner) && AllWellFormed(d.items);
    ArrayBody(s, p + 1, d.items, d.inner, b, j, a);
  }

  /** The inside b of an array, which ends at j before the closing bracket,
      read after the opening bracket. */
  lemma {:induction false} ArrayBody(s: string, q: nat, items: seq<Item>, inner: string, b: string, j: nat, a: Result<Cursor>)
    requires AllWellFormed(items) && Blank(inner) && b == (if items == [] then inner else SerItems(items))
    requires HasPrefixAt(s, q, b) && j == q + |b| && j < |s| && s[j] == ']'
    requires From(s, j + 1) == a
    ensures ParseArray(s, Cursor(q, Token(TokenType.LeftBracket, None))) == Then(a, JArray(Meanings(items)))
    decreases items, 3
  {
    var c := Cursor(q, Token(TokenType.LeftBracket, None));
    AdvanceFrom(s, c);
    if items == [] {
      EmptyArray(s, q, inner, j, a);
    } else {
      var first := ItemCursor(q, items[0]);
      assert From(s, q) == Ok(first) by {
        ItemsFirst(s, q, items, b, j);
      }
      ElementsRoundTrip(s, q, items, [], b, j, a);
      ArrayOpen(s, c, first);
      assert [] + Meanings(items) == Meanings(items);
    }
  }
  /** An empty array: whitespace and the closing bracket. */
  lemma {:induction false} EmptyArray(s: string, q: nat, inner: string, j: nat, a: Result<Cursor>)
    requires Blank(inner) && HasPrefixAt(s, q, inner) && j == q + |inner| && j < |s| && s[j] == ']'
    requires From(s, j + 1) == a
    ensures ParseArray(s, Cursor(q, Token(TokenType.LeftBracket, None))) == Then(a, JArray([]))
  {
    FromPunct(s, j);
    SkipTo(s, q, inner, Ok(Cursor(j + 1, Token(TokenType.RightBracket, None))));
    AdvanceAt(s, Cursor(q, Token(TokenType.LeftBracket, None)), q, Ok(Cursor(j + 1, Token(TokenType.RightBracket, None))));
    AdvanceAt(s, Cursor(j + 1, Token(TokenType.RightBracket, None)), j + 1, a);
    ArrayEmpty(s, Cursor(q, Token(TokenType.LeftBracket, None)), Cursor(j + 1, Token(TokenType.RightBracket, None)));
  }

  /** The first item's first token starts a non-empty item list b that ends
      at j, before a closing bracket. */
  lemma {:induction false} ItemsFirst(s: string, q: nat, items: seq<Item>, b: string, j: nat)
    requires items != [] && AllWellFormed(items) && b == SerItems(items)
    requires HasPrefixAt(s, q, b) && j == q + |b| && j < |s| && s[j] == ']'
    ensures From(s, q) == Ok(ItemCursor(q, items[0]))
  {
    var f, _ := ItemsLayout(s, q, items, b, j);
    assert ItemWellFormed(items[0]);
    ItemFirst(s, q, items[0], f);
  }

  /** The loop of parseArray reads an item list b, which ends at j, and the
      closing bracket there. */
  lemma {:induction false} ElementsRoundTrip(s: string, q: nat, items: seq<Item>, acc: seq<JsonValue>, b: string, j: nat, a: Result<Cursor>)
    requires items != [] && AllWellFormed(items) && b == SerItems(items)
    requires HasPrefixAt(s, q, b) && j == q + |b| && j < |s| && s[j] == ']'
    requires From(s, j + 1) == a
    ensures ItemCursor(q, items[0]).pos <= |s|
    ensures Elements(s, ItemCursor(q, items[0]), acc) == Then(a, JArray(acc + Meanings(items)))
    decreases items, 2
  {
    if |items| == 1 {
      LastElement(s, q, items, acc, b, j, a);
    } else {
      NextElement(s, q, items, acc, b, j, a);
    }
  }

  /** The last item and the closing bracket. */
  lemma {:induction false} LastElement(s: string, q: nat, items: seq<Item>, acc: seq<JsonValue>, b: string, j: nat, a: Result<Cursor>)
    requires |items| == 1 && AllWellFormed(items) && b == SerItems(items)
    requires HasPrefixAt(s, q, b) && j == q + |b| && j < |s| && s[j] == ']'
    requires From(s, j + 1) == a
    ensures ItemCursor(q, items[0]).pos <= |s|
    ensures Elements(s, ItemCursor(q, items[0]), acc) == Then(a, JArray(acc + Meanings(items)))
    decreases items, 1
  {
    var x := items[0];
    var f, _ := ItemsLayout(s, q, items, b, j);
    AllWellFormedTail(items);
    var close := Cursor(j + 1, Token(TokenType.RightBracket, None));
    FromPunct(s, j);
    ItemRoundTrip(s, q, x, j, Ok(close));
    assert ParseValue(s, ItemCursor(q, x)) == Ok(Parsed(Meaning(x.doc), close));
    AdvanceFrom(s, close);
    ElementsLast(s, ItemCursor(q, x), acc, Meaning(x.doc), close);
    assert Elements(s, ItemCursor(q, x), acc) == Then(a, JArray(acc + [Meaning(x.doc)]));
    MeaningsCons(acc, items);
  }

  /** An item followed by a comma, and the rest of the list. */
  lemma {:induction false} NextElement(s: string, q: nat, items: seq<Item>, acc: seq<JsonValue>, b: string, j: nat, a: Result<Cursor>)
    requires |items| > 1 && AllWellFormed(items) && b == SerItems(items)
    requires HasPrefixAt(s, q, b) && j == q + |b| && j < |s| && s[j] == ']'
    requires From(s, j + 1) == a
    ensures ItemCursor(q, items[0]).pos <= |s|
    ensures Elements(s, ItemCursor(q, items[0]), acc) == Then(a, JArray(acc + Meanings(items)))
    decreases items, 1
  {
    var f, b' := ItemsLayout(s, q, items, b, j);
    AllWellFormedTail(items);
    ElementsAfter(s, q, items, acc, f, b', j, a);
    MeaningsCons(acc, items);
  }

  /** The first item, whose text ends at the comma at f, then the rest b' of
      the list. */
  lemma {:induction false} ElementsAfter(s: string, q: nat, items: seq<Item>, acc: seq<JsonValue>, f: nat, b': string, j: nat, a: Result<Cursor>)
    requires |items| > 1 && ItemWellFormed(items[0]) && AllWellFormed(items[1..])
    requires HasPrefixAt(s, q, SerItem(items[0])) && f == q + |SerItem(items[0])| && f < |s| && s[f] == ','
    requires b' == SerItems(items[1..]) && HasPrefixAt(s, f + 1, b') && j == f + 1 + |b'| && j < |s| && s[j] == ']'
    requires From(s, j + 1) == a
    ensures ItemCursor(q, items[0]).pos <= |s|
    ensures Elements(s, ItemCursor(q, items[0]), acc) == Then(a, JArray(acc + [Meaning(items[0].doc)] + Meanings(items[1..])))
    decreases items, 0
  {
    var x := items[0];
    var rest := items[1..];
    var r := f + 1;
    var comma := Cursor(r, Token(TokenType.Comma, None));
    ItemAfterComma(s, f, rest, b', j, comma);
    ItemRoundTrip(s, q, x, f, Ok(comma));
    assert ParseValue(s, ItemCursor(q, x)) == Ok(Parsed(Meaning(x.doc), comma));
    ElementsNext(s, ItemCursor(q, x), acc, Meaning(x.doc), comma, ItemCursor(r, rest[0]));
    ElementsRoundTrip(s, r, rest, acc + [Meaning(x.doc)], b', j, a);
  }

  /** A comma at f, and after it the first token of the next item. */
  lemma {:induction false} ItemAfterComma(s: string, f: nat, rest: seq<Item>, b': string, j: nat, comma: Cursor)
    requires f < |s| && s[f] == ',' && comma == Cursor(f + 1, Token(TokenType.Comma, None))
    requires rest != [] && AllWellFormed(rest) && b' == SerItems(rest)
    requires HasPrefixAt(s, f + 1, b') && j == f + 1 + |b'| && j < |s| && s[j] == ']'
    ensures From(s, f) == Ok(comma) && Advance(s, comma) == Ok(ItemCursor(f + 1, rest[0]))
  {
    FromPunct(s, f);
    ItemsFirst(s, f + 1, rest, b', j);
    AdvanceFrom(s, comma);
  }

  lemma {:induction false} ObjectRoundTrip(s: string, p: nat, d: Doc, t: string, e: nat, a: Result<Cursor>)
    requires d.DObject? && WellFormed(d) && t == Ser(d) && HasPrefixAt(s, p, t) && e == p + |t|
    requires From(s, e) == a
    ensures p + 1 <= |s|
    ensures ParseObject(s, Cursor(p + 1, Token(TokenType.LeftBrace, None))) == Then(a, Meaning(d))
    decreases d, 0
  {
    var b, j := ObjectLayout(s, p, d, t, e);
    assert Blank(d.inner) && MembersWellFormed(d.members);
    ObjectBody(s, p + 1, d.members, d.inner, b, j, a);
  }

  /** The inside b of an object, which ends at j before the closing brace,
      read after the opening brace. */
  lemma {:induction false} ObjectBody(s: string, q: nat, ms: seq<Member>, inner: string, b: string, j: nat, a: Result<Cursor>)
    requires MembersWellFormed(ms) && Blank(inner) && b == (if ms == [] then inner else SerMembers(ms))
    requires HasPrefixAt(s, q, b) && j == q + |b| && j < |s| && s[j] == '}'
    requires From(s, j + 1) == a
    ensures ParseObject(s, Cursor(q, Token(TokenType.LeftBrace, None))) == Then(a, JObject(Fields(map[], ms)))
    decreases ms, 4
  {
    var c := Cursor(q, Token(TokenType.LeftBrace, None));
    AdvanceFrom(s, c);
    if ms == [] {
      EmptyObject(s, q, inner, j, a);
    } else {
      var first := KeyCursor(q, ms[0]);
      assert From(s, q) == Ok(first) by {
        MembersFirst(s, q, ms, b, j);
      }
      MembersRoundTrip(s, q, ms, map[], b, j, a);
      ObjectOpen(s, c, first);
    }
  }
  /** An empty object: whitespace and the closing brace. */
  lemma {:induction false} EmptyObject(s: string, q: nat, inner: string, j: nat, a: Result<Cursor>)
    requires Blank(inner) && HasPrefixAt(s, q, inner) && j == q + |inner| && j < |s| && s[j] == '}'
    requires From(s, j + 1) == a
    ensures ParseObject(s, Cursor(q, Token(TokenType.LeftBrace, None))) == Then(a, JObject(map[]))
  {
    FromPunct(s, j);
    SkipTo(s, q, inner, Ok(Cursor(j + 1, Token(TokenType.RightBrace, None))));
    AdvanceAt(s, Cursor(q, Token(TokenType.LeftBrace, None)), q, Ok(Cursor(j + 1, Token(TokenType.RightBrace, None))));
    AdvanceAt(s, Cursor(j + 1, Token(TokenType.RightBrace, None)), j + 1, a);
    ObjectEmpty(s, Cursor(q, Token(TokenType.LeftBrace, None)), Cursor(j + 1, Token(TokenType.RightBrace, None)));
  }

  /** The first key of a non-empty member list b, which ends at j before a
      closing brace. */
  lemma {:induction false} MembersFirst(s: string, q: nat, ms: seq<Member>, b: string, j: nat)
    requires ms != [] && MembersWellFormed(ms) && b == SerMembers(ms)
    requires HasPrefixAt(s, q, b) && j == q + |b| && j < |s| && s[j] == '}'
    ensures From(s, q) == Ok(KeyCursor(q, ms[0]))
  {
    var f, _ := MembersLayout(s, q, ms, b, j);
    assert MemberWellFormed(ms[0]);
    KeyFirst(s, q, ms[0], f);
  }

  /** The key literal of a member's text, after its leading whitespace. */
  lemma {:induction false} KeyFirst(s: string, q: nat, m: Member, f: nat)
    requires MemberWellFormed(m) && HasPrefixAt(s, q, SerMember(m)) && f == q + |SerMember(m)|
    ensures From(s, q) == Ok(KeyCursor(q, m))
  {
    var _, _ := MemberLayout(s, q, m, f);
    KeyAt(s, q, m.before, m.key);
    assert From(s, q) == Ok(Cursor(q + |m.before| + |Quote(m.key)|, Token(TokenType.String, Some(m.key))));
  }

  /** Whitespace w, then a string literal. */
  lemma {:induction false} KeyAt(s: string, q: nat, w: string, k: string)
    requires Blank(w) && HasPrefixAt(s, q, w) && HasPrefixAt(s, q + |w|, Quote(k))
    ensures From(s, q) == Ok(Cursor(q + |w| + |Quote(k)|, Token(TokenType.String, Some(k))))
  {
    FromString(s, q + |w|, k, Quote(k));
    SkipTo(s, q, w, Ok(Cursor(q + |w| + |Quote(k)|, Token(TokenType.String, Some(k)))));
  }

  /** Whitespace w, then a structural character at i. */
  lemma {:induction false} PunctAfter(s: string, k: nat, w: string, i: nat)
    requires Blank(w) && HasPrefixAt(s, k, w) && i == k + |w| && i < |s| && Punctuation(s[i]).Some?
    ensures From(s, k) == Ok(Cursor(i + 1, Token(Punctuation(s[i]).value, None)))
  {
    FromPunct(s, i);
    SkipTo(s, k, w, Ok(Cursor(i + 1, Token(Punctuation(s[i]).value, None))));
  }

  /** After the key literal, whitespace and the colon at i; the value's text
      follows. */
  lemma {:induction false} ColonAfterKey(s: string, q: nat, m: Member, f: nat) returns (i: nat)
    requires MemberWellFormed(m) && HasPrefixAt(s, q, SerMember(m)) && f == q + |SerMember(m)|
    ensures KeyCursor(q, m).pos <= i < |s| && HasPrefixAt(s, i + 1, SerItem(m.value)) && f == i + 1 + |SerItem(m.value)|
    ensures From(s, KeyCursor(q, m).pos) == Ok(Cursor(i + 1, Token(TokenType.Colon, None)))
  {
    var k;
    k, i := MemberLayout(s, q, m, f);
    PunctAfter(s, k, m.colon, i);
  }

  /** The value of a member, read after its colon, whose text ends at f. */
  lemma {:induction false} ValueAfterColon(s: string, i: nat, x: Item, f: nat, after: Cursor)
    requires ItemWellFormed(x) && HasPrefixAt(s, i + 1, SerItem(x)) && f == i + 1 + |SerItem(x)|
    requires x.after != [] || Closed(x.doc, s, f)
    requires From(s, f) == Ok(after)
    ensures ItemCursor(i + 1, x).pos <= |s|
    ensures Advance(s, Cursor(i + 1, Token(TokenType.Colon, None))) == Ok(ItemCursor(i + 1, x))
    ensures ParseValue(s, ItemCursor(i + 1, x)) == Ok(Parsed(Meaning(x.doc), after))
    decreases x, 3
  {
    ItemFirst(s, i + 1, x, f);
    AdvanceFrom(s, Cursor(i + 1, Token(TokenType.Colon, None)));
    ItemRoundTrip(s, i + 1, x, f, Ok(after));
  }

  /** The first half of the parseObject loop body reads one member, whose
      text ends at f, from its key on. */
  lemma {:induction false} MemberRoundTrip(s: string, q: nat, m: Member, f: nat, after: Cursor)
    requires MemberWellFormed(m) && HasPrefixAt(s, q, SerMember(m)) && f == q + |SerMember(m)|
    requires m.value.after != [] || Closed(m.value.doc, s, f)
    requires From(s, f) == Ok(after)
    ensures KeyCursor(q, m).pos <= |s|
    ensures JsonGrammar.Member(s, KeyCursor(q, m)) == Ok(Field(m.key, Meaning(m.value.doc), after))
    decreases m, 1
  {
    var c := KeyCursor(q, m);
    var i := ColonAfterKey(s, q, m, f);
    var colon := Cursor(i + 1, Token(TokenType.Colon, None));
    AdvanceFrom(s, c);
    ValueAfterColon(s, i, m.value, f, after);
    MemberStep(s, c, colon, ItemCursor(i + 1, m.value), Meaning(m.value.doc), after);
  }

  /** The loop of parseObject reads a member list b, which ends at j, and the
      closing brace there. */
  lemma {:induction false} MembersRoundTrip(s: string, q: nat, ms: seq<Member>, acc: map<string, JsonValue>, b: string, j: nat, a: Result<Cursor>)
    requires ms != [] && MembersWellFormed(ms) && b == SerMembers(ms)
    requires HasPrefixAt(s, q, b) && j == q + |b| && j < |s| && s[j] == '}'
    requires From(s, j + 1) == a
    ensures KeyCursor(q, ms[0]).pos <= |s|
    ensures Members(s, KeyCursor(q, ms[0]), acc) == Then(a, JObject(Fields(acc, ms)))
    decreases ms, 3
  {
    if |ms| == 1 {
      LastMember(s, q, ms, acc, b, j, a);
    } else {
      NextMember(s, q, ms, acc, b, j, a);
    }
  }

  /** The last member and the closing brace. */
  lemma {:induction false} LastMember(s: string, q: nat, ms: seq<Member>, acc: map<string, JsonValue>, b: string, j: nat, a: Result<Cursor>)
    requires |ms| == 1 && MembersWellFormed(ms) && b == SerMembers(ms)
    requires HasPrefixAt(s, q, b) && j == q + |b| && j < |s| && s[j] == '}'
    requires From(s, j + 1) == a
    ensures KeyCursor(q, ms[0]).pos <= |s|
    ensures Members(s, KeyCursor(q, ms[0]), acc) == Then(a, JObject(Fields(acc, ms)))
    decreases ms, 2
  {
    var _, _ := MembersLayout(s, q, ms, b, j);
    MembersWellFormedTail(ms);
    MemberClose(s, q, ms[0], acc, j, a);
    FieldsCons(acc, ms);
  }

  /** A member whose text ends at the closing brace at j. */
  lemma {:induction false} MemberClose(s: string, q: nat, m: Member, acc: map<string, JsonValue>, j: nat, a: Result<Cursor>)
    requires MemberWellFormed(m) && HasPrefixAt(s, q, SerMember(m)) && j == q + |SerMember(m)| && j < |s| && s[j] == '}'
    requires From(s, j + 1) == a
    ensures KeyCursor(q, m).pos <= |s|
    ensures Members(s, KeyCursor(q, m), acc) == Then(a, JObject(Emplace(acc, m.key, Meaning(m.value.doc))))
    decreases m, 2
  {
    var close := Cursor(j + 1, Token(TokenType.RightBrace, None));
    FromPunct(s, j);
    MemberRoundTrip(s, q, m, j, close);
    MembersClose(s, KeyCursor(q, m), acc, m.key, Meaning(m.value.doc), j, a);
  }

  /** A member read up to the closing brace at j ends the object. */
  lemma {:induction false} MembersClose(s: string, c: Cursor, acc: map<string, JsonValue>, k: string, x: JsonValue, j: nat, a: Result<Cursor>)
    requires c.pos <= |s| && j < |s|
    requires JsonGrammar.Member(s, c) == Ok(Field(k, x, Cursor(j + 1, Token(TokenType.RightBrace, None))))
    requires From(s, j + 1) == a
    ensures Members(s, c, acc) == Then(a, JObject(Emplace(acc, k, x)))
  {
  }

  /** A member followed by a comma, and the rest of the list. */
  lemma {:induction false} NextMember(s: string, q: nat, ms: seq<Member>, acc: map<string, JsonValue>, b: string, j: nat, a: Result<Cursor>)
    requires |ms| > 1 && MembersWellFormed(ms) && b == SerMembers(ms)
    requires HasPrefixAt(s, q, b) && j == q + |b| && j < |s| && s[j] == '}'
    requires From(s, j + 1) == a
    ensures KeyCursor(q, ms[0]).pos <= |s|
    ensures Members(s, KeyCursor(q, ms[0]), acc) == Then(a, JObject(Fields(acc, ms)))
    decreases ms, 2
  {
    var f, b' := MembersLayout(s, q, ms, b, j);
    MembersWellFormedTail(ms);
    MembersAfter(s, q, ms, acc, f, b', j, a);
  }

  /** The first member, whose text ends at the comma at f, then the rest b'
      of the list. */
  lemma {:induction false} MembersAfter(s: string, q: nat, ms: seq<Member>, acc: map<string, JsonValue>, f: nat, b': string, j: nat, a: Result<Cursor>)
    requires |ms| > 1 && MemberWellFormed(ms[0]) && MembersWellFormed(ms[1..])
    requires HasPrefixAt(s, q, SerMember(ms[0])) && f == q + |SerMember(ms[0])| && f < |s| && s[f] == ','
    requires b' == SerMembers(ms[1..]) && HasPrefixAt(s, f + 1, b') && j == f + 1 + |b'| && j < |s| && s[j] == '}'
    requires From(s, j + 1) == a
    ensures KeyCursor(q, ms[0]).pos <= |s|
    ensures Members(s, KeyCursor(q, ms[0]), acc) == Then(a, JObject(Fields(acc, ms)))
    decreases ms, 1
  {
    MemberAfterComma(s, f, ms[1..], b', j, Cursor(f + 1, Token(TokenType.Comma, None)));
    MemberRoundTrip(s, q, ms[0], f, Cursor(f + 1, Token(TokenType.Comma, None)));
    MembersRoundTrip(s, f + 1, ms[1..], Emplace(acc, ms[0].key, Meaning(ms[0].value.doc)), b', j, a);
    MembersContinue(s, KeyCursor(q, ms[0]), acc, ms, Cursor(f + 1, Token(TokenType.Comma, None)), KeyCursor(f + 1, ms[1..][0]), a);
  }

  /** A member read up to its comma continues the object with the rest of the
      members. */
  lemma {:induction false} MembersContinue(s: string, c: Cursor, acc: map<string, JsonValue>, ms: seq<Member>, after: Cursor, next: Cursor, a: Result<Cursor>)
    requires |ms| > 1 && c.pos <= |s| && after.pos <= |s| && next.pos <= |s|
    requires JsonGrammar.Member(s, c) == Ok(Field(ms[0].key, Meaning(ms[0].value.doc), after))
    requires after.look.kind == TokenType.Comma && Advance(s, after) == Ok(next)
    requires Members(s, next, Emplace(acc, ms[0].key, Meaning(ms[0].value.doc)))
             == Then(a, JObject(Fields(Emplace(acc, ms[0].key, Meaning(ms[0].value.doc)), ms[1..])))
    ensures Members(s, c, acc) == Then(a, JObject(Fields(acc, ms)))
  {
    MembersNext(s, c, acc, ms[0].key, Meaning(ms[0].value.doc), after, next);
    FieldsCons(acc, ms);
  }

  /** A comma at f, and after it the next key. */
  lemma {:induction false} MemberAfterComma(s: string, f: nat, rest: seq<Member>, b': string, j: nat, comma: Cursor)
    requires f < |s| && s[f] == ',' && comma == Cursor(f + 1, Token(TokenType.Comma, None))
    requires rest != [] && MembersWellFormed(rest) && b' == SerMembers(rest)
    requires HasPrefixAt(s, f + 1, b') && j == f + 1 + |b'| && j < |s| && s[j] == '}'
    ensures From(s, f) == Ok(comma)
    ensures Advance(s, comma) == Ok(KeyCursor(f + 1, rest[0]))
  {
    FromPunct(s, f);
    MembersFirst(s, f + 1, rest, b', j);
    AdvanceFrom(s, comma);
  }

  // ------------------------------------------------------------- documents

  /** The parser reads the text of every well-formed document, in any
      layout, back as the document's meaning. */
  lemma {:induction false} TextRoundTrip(x: Item)
    requires ItemWellFormed(x)
    ensures ParseText(SerItem(x)) == Ok(Meaning(x.doc))
  {
    var s := SerItem(x);
    var a := Cursor(|s|, Token(TokenType.EndOfInput, None));
    assert HasPrefixAt(s, 0, s);
    ItemFirst(s, 0, x, |s|);
    FromEnd(s);
    ItemRoundTrip(s, 0, x, |s|, Ok(a));
    AdvanceFrom(s, Start);
  }

  /** After a complete document, the parse succeeds exactly when the rest t
      of the text is whitespace; whatever else follows is an error. When the
      document is a number written without trailing whitespace, t must not
      continue it. */
  lemma {:induction false} TrailingText(x: Item, t: string)
    requires ItemWellFormed(x) && Apart(x, t)
    ensures ParseText(SerItem(x) + t).Ok? <==> Blank(t)
    ensures Blank(t) ==> ParseText(SerItem(x) + t) == Ok(Meaning(x.doc))
  {
    var u := SerItem(x);
    var s := u + t;
    var f := |u|;
    assert HasPrefixAt(s, 0, u) by {
      assert s[0..|u|] == u;
    }
    BlankRest(u, t);
    AdvanceEnd(s, Cursor(f, Token(TokenType.EndOfInput, None)));
    ItemFirst(s, 0, x, f);
    ItemRoundTrip(s, 0, x, f, From(s, f));
    AdvanceFrom(s, Start);
  }

  /** The rest t of a text u + t is whitespace exactly when every character
      from |u| on is. */
  lemma {:induction false} BlankRest(u: string, t: string)
    ensures Blank(t) <==> All(u + t, |u|, |u + t|, IsSpace)
  {
    forall k | 0 <= k < |t| ensures (u + t)[|u| + k] == t[k] {
    }
    if All(u + t, |u|, |u + t|, IsSpace) {
      forall k | 0 <= k < |t| ensures IsSpace(t[k]) {
        assert (u + t)[|u| + k] == t[k];
      }
    }
  }
}
