/** Documents the parser accepts and rejects, read end to end through
    Json::parse: the example of tests/test_json_parser.cpp, duplicate keys,
    missing separators, trailing commas and trailing content. */
module JsonExamples {
  import opened JsonTokens
  import opened JsonLexSpec
  import opened JsonValues
  import opened JsonGrammar
  import opened JsonText

  /** Reading members into `acc` keeps every key already there. */
  lemma {:induction false} FieldsKeep(acc: map<string, JsonValue>, ms: seq<Member>, k: string)
    requires k in acc
    ensures k in Fields(acc, ms) && Fields(acc, ms)[k] == acc[k]
    decreases ms
  {
    if ms != [] {
      FieldsKeep(Emplace(acc, ms[0].key, Meaning(ms[0].value.doc)), ms[1..], k);
    }
  }

  /** The keys of an object are the keys written in it. */
  lemma {:induction false} FieldsKeys(acc: map<string, JsonValue>, ms: seq<Member>)
    ensures Fields(acc, ms).Keys == acc.Keys + set j | 0 <= j < |ms| :: ms[j].key
    decreases ms
  {
    if ms != [] {
      var next := Emplace(acc, ms[0].key, Meaning(ms[0].value.doc));
      FieldsKeys(next, ms[1..]);
      var all := set j | 0 <= j < |ms| :: ms[j].key;
      var rest := set j | 0 <= j < |ms| - 1 :: ms[1..][j].key;
      assert all == {ms[0].key} + rest by {
        forall k | k in all ensures k in {ms[0].key} + rest {
          var j :| 0 <= j < |ms| && ms[j].key == k;
          if j > 0 {
            assert ms[1..][j - 1].key == k;
          }
        }
        forall k | k in rest ensures k in all {
          var j :| 0 <= j < |ms| - 1 && ms[1..][j].key == k;
          assert ms[j + 1].key == k;
        }
      }
    }
  }

  /** std::map::emplace keeps the first value written for a key: the value of
      the key of member i is that member's value when no earlier member has
      the same key. */
  lemma {:induction false} FieldsFirstWins(acc: map<string, JsonValue>, ms: seq<Member>, i: nat)
    requires i < |ms| && ms[i].key !in acc
    requires forall j | 0 <= j < i :: ms[j].key != ms[i].key
    ensures ms[i].key in Fields(acc, ms) && Fields(acc, ms)[ms[i].key] == Meaning(ms[i].value.doc)
    decreases ms
  {
    var next := Emplace(acc, ms[0].key, Meaning(ms[0].value.doc));
    if i == 0 {
      FieldsKeep(next, ms[1..], ms[0].key);
    } else {
      forall j | 0 <= j < i - 1 ensures ms[1..][j].key != ms[1..][i - 1].key {
        assert ms[1..][j] == ms[j + 1];
      }
      FieldsFirstWins(next, ms[1..], i - 1);
    }
  }

  /** Parsing an object text with duplicate keys, in any layout: the parsed
      object has exactly the keys written, and each key maps to the value of
      its first occurrence. */
  lemma {:induction false} DuplicateKeysFirstWins(x: Item, i: nat)
    requires ItemWellFormed(x) && x.doc.DObject? && i < |x.doc.members|
    requires forall j | 0 <= j < i :: x.doc.members[j].key != x.doc.members[i].key
    ensures ParseText(SerItem(x)).Ok?
    ensures ParseText(SerItem(x)).value.AsObject().Ok?
    ensures ParseText(SerItem(x)).value.AsObject().value.Keys == set j | 0 <= j < |x.doc.members| :: x.doc.members[j].key
    ensures ParseText(SerItem(x)).value.Get(x.doc.members[i].key) == Ok(Meaning(x.doc.members[i].value.doc))
  {
    var ms := x.doc.members;
    TextRoundTrip(x);
    FieldsKeys(map[], ms);
    FieldsFirstWins(map[], ms, i);
  }

  /** The number lexeme `30`. */
  lemma {:induction false} Thirty()
    ensures IsNumberLexeme("30")
  {
    assert "30"[..0] == "" && "30"[0..2] == "30" && "30"[2..2] == "" && "30"[2..] == "";
    assert NumberSplit("30", 0, 2, 2);
  }

  /** The document of tests/test_json_parser.cpp. */
  const AliceText: string := "{" + "\"name\": \"Alice\"" + "," + " \"age\": 30" + "}"

  /** Its syntax tree: no space inside the braces or before a colon, one
      space after each colon and after the comma. */
  const AliceName: Member := Member("", "name", "", Item(" ", DString("Alice"), ""))
  const AliceAge: Member := Member(" ", "age", "", Item(" ", DNumber("30"), ""))
  const Alice: Item := Item("", DObject([AliceName, AliceAge], ""), "")

  lemma {:induction false} AliceWritten()
    ensures ItemWellFormed(Alice) && SerItem(Alice) == AliceText
  {
    Thirty();
    AliceMembers();
    assert [AliceName, AliceAge][1..] == [AliceAge];
    var body := "\"name\": \"Alice\"" + "," + " \"age\": 30";
    assert SerMembers([AliceName, AliceAge]) == body;
    assert SerItem(Alice) == "" + ("{" + body + "}") + "";
    assert "{" + body + "}" == AliceText;
  }

  lemma {:induction false} AliceMembers()
    ensures SerMember(AliceName) == "\"name\": \"Alice\""
    ensures SerMember(AliceAge) == " \"age\": 30"
  {
    AliceQuotes();
  }

  lemma {:induction false} AliceQuotes()
    ensures Quote("name") == "\"name\"" && Quote("Alice") == "\"Alice\"" && Quote("age") == "\"age\""
  {
    EscapePlain("name");
    EscapePlain("Alice");
    EscapePlain("age");
  }

  /** tests/test_json_parser.cpp: `{"name": "Alice", "age": 30}` is an object
      whose `name` is the string `Alice` and whose `age` is the number `30`. */
  lemma {:induction false} AliceExample()
    ensures ParseText(AliceText) == Ok(AliceValue)
    ensures AliceValue.Get("name") == Ok(JString("Alice"))
    ensures AliceValue.Get("age") == Ok(JNumber("30"))
  {
    AliceWritten();
    AliceMeaning();
    TextRoundTrip(Alice);
  }

  const AliceValue: JsonValue := JObject(map["name" := JString("Alice"), "age" := JNumber("30")])

  lemma {:induction false} AliceMeaning()
    ensures Meaning(Alice.doc) == AliceValue
  {
    FieldsCons(map[], [AliceName, AliceAge]);
    FieldsCons(map["name" := JString("Alice")], [AliceAge]);
    assert [AliceName, AliceAge][1..] == [AliceAge];
  }

  /** The middle of a concatenation, read where it starts. */
  lemma {:induction false} Infix(x: string, y: string, z: string)
    ensures HasPrefixAt(x + y + z, |x|, y)
  {
    assert (x + y + z)[|x|..|x| + |y|] == y;
  }

  /** A text made of an opening character, two parts and a closing one. */
  lemma {:induction false} Enclosed(s: string, o: char, u: string, v: string, c: char)
    requires s == [o] + u + v + [c]
    ensures |s| == |u| + |v| + 2 && s[0] == o && s[|s| - 1] == c
    ensures HasPrefixAt(s, 1, u) && HasPrefixAt(s, 1 + |u|, v)
  {
    assert s == [o] + u + (v + [c]);
    Infix([o], u, v + [c]);
    Infix([o] + u, v, [c]);
  }

  /** parse, once the first token and the root value are known. */
  lemma {:induction false} Document(s: string, first: Cursor, root: Result<Parsed>)
    requires From(s, 0) == Ok(first) && first.pos <= |s| && ParseValue(s, first) == root
    ensures ParseText(s) == match root
      case Err(e) => Err(e)
      case Ok(p) => if p.rest.look.kind != TokenType.EndOfInput then Err(TrailingToken) else Ok(p.value)
  {
    AdvanceFrom(s, Start);
  }

  /** The token after a comma at e is the closing character at e + 1. */
  lemma {:induction false} CommaThen(s: string, e: nat, ch: char, k: TokenType)
    requires |s| == e + 2 && s[e + 1] == ch && Punctuation(ch) == Some(k)
    ensures Advance(s, Cursor(e + 1, Token(TokenType.Comma, None))) == Ok(Cursor(e + 2, Token(k, None)))
  {
    FromPunct(s, e + 1);
  }

  // ---------------------------------------------------------------- arrays

  /** An array whose first element has begun. */
  lemma {:induction false} ArrayStart(s: string, first: Cursor)
    requires |s| > 0 && s[0] == '[' && first.pos <= |s| && first.look.kind != TokenType.RightBracket
    requires From(s, 1) == Ok(first)
    ensures From(s, 0) == Ok(Cursor(1, Token(TokenType.LeftBracket, None)))
    ensures ParseValue(s, Cursor(1, Token(TokenType.LeftBracket, None))) == Elements(s, first, [])
  {
    var open := Cursor(1, Token(TokenType.LeftBracket, None));
    FromPunct(s, 0);
    AdvanceAt(s, open, 1, Ok(first));
    ArrayOpen(s, open, first);
  }

  /** An item read right after `[`, whose text ends at f, followed by the
      token `next`. */
  lemma {:induction false} FirstElement(s: string, x: Item, f: nat, next: Cursor)
    requires |s| > 0 && s[0] == '[' && ItemWellFormed(x) && HasPrefixAt(s, 1, SerItem(x)) && f == 1 + |SerItem(x)|
    requires Apart(x, s[f..]) && From(s, f) == Ok(next)
    ensures ItemCursor(1, x).pos <= |s|
    ensures From(s, 0) == Ok(Cursor(1, Token(TokenType.LeftBracket, None)))
    ensures ParseValue(s, Cursor(1, Token(TokenType.LeftBracket, None))) == Elements(s, ItemCursor(1, x), [])
    ensures ParseValue(s, ItemCursor(1, x)) == Ok(Parsed(Meaning(x.doc), next))
  {
    assert x.after != [] || Closed(x.doc, s, f) by {
      if f < |s| {
        assert s[f..][0] == s[f];
      }
    }
    ItemFirst(s, 1, x, f);
    ItemRoundTrip(s, 1, x, f, Ok(next));
    ItemKind(1, x);
    ArrayStart(s, ItemCursor(1, x));
  }

  /** `[v,]`, in any layout of v: after a comma a value must follow, and `]`
      is not one. */
  lemma {:induction false} ArrayTrailingComma(x: Item)
    requires ItemWellFormed(x)
    ensures ParseText("[" + SerItem(x) + ",]") == Err(UnexpectedTokenInValue)
  {
    var s := "[" + SerItem(x) + ",]";
    var f := 1 + |SerItem(x)|;
    Enclosed(s, '[', SerItem(x), ",", ']');
    PrefixSlice(s, f, ",", 0, 1);
    ElementThenComma(s, x, f);
  }

  /** The positional part of ArrayTrailingComma. */
  lemma {:induction false} ElementThenComma(s: string, x: Item, f: nat)
    requires ItemWellFormed(x) && |s| == f + 2 && s[0] == '[' && s[f] == ',' && s[f + 1] == ']'
    requires HasPrefixAt(s, 1, SerItem(x)) && f == 1 + |SerItem(x)|
    ensures ParseText(s) == Err(UnexpectedTokenInValue)
  {
    var comma := Cursor(f + 1, Token(TokenType.Comma, None));
    FromPunct(s, f);
    assert s[f..][0] == s[f];
    FirstElement(s, x, f, comma);
    ElementsAfterComma(s, ItemCursor(1, x), Meaning(x.doc), f);
    Document(s, Cursor(1, Token(TokenType.LeftBracket, None)), Err(UnexpectedTokenInValue));
  }

  /** A value followed by `,]`: no value follows the comma. */
  lemma {:induction false} ElementsAfterComma(s: string, first: Cursor, x: JsonValue, e: nat)
    requires |s| == e + 2 && s[e + 1] == ']' && first.pos <= |s|
    requires ParseValue(s, first) == Ok(Parsed(x, Cursor(e + 1, Token(TokenType.Comma, None))))
    ensures Elements(s, first, []) == Err(UnexpectedTokenInValue)
  {
    var comma := Cursor(e + 1, Token(TokenType.Comma, None));
    var close := Cursor(e + 2, Token(TokenType.RightBracket, None));
    CommaThen(s, e, ']', TokenType.RightBracket);
    ElementsNext(s, first, [], x, comma, close);
    ElementsAtClose(s, close, [x]);
  }

  /** The array loop expects a value and finds `]`. */
  lemma {:induction false} ElementsAtClose(s: string, close: Cursor, acc: seq<JsonValue>)
    requires close.pos <= |s| && close.look.kind == TokenType.RightBracket
    ensures Elements(s, close, acc) == Err(UnexpectedTokenInValue)
  {
  }

  /** `[v w]`, in any layout: two elements without a comma between them. */
  lemma {:induction false} MissingComma(x: Item, y: Item)
    requires ItemWellFormed(x) && ItemWellFormed(y) && Apart(x, SerItem(y))
    ensures ParseText("[" + SerItem(x) + SerItem(y) + "]") == Err(ExpectedCommaOrBracket)
  {
    var s := "[" + SerItem(x) + SerItem(y) + "]";
    var f := 1 + |SerItem(x)|;
    Enclosed(s, '[', SerItem(x), SerItem(y), ']');
    assert s[f..] == SerItem(y) + "]";
    TwoElements(s, x, y, f);
  }

  /** The grammar part of MissingComma: the second item's first token is
      where the array loop wants a separator. */
  lemma {:induction false} TwoElements(s: string, x: Item, y: Item, f: nat)
    requires ItemWellFormed(x) && ItemWellFormed(y) && |s| > 0 && s[0] == '['
    requires HasPrefixAt(s, 1, SerItem(x)) && f == 1 + |SerItem(x)| && HasPrefixAt(s, f, SerItem(y))
    requires |s| == f + |SerItem(y)| + 1 && s[|s| - 1] == ']' && Apart(x, s[f..])
    ensures ParseText(s) == Err(ExpectedCommaOrBracket)
  {
    var g := f + |SerItem(y)|;
    assert Ends(s, g);
    assert x.after != [] || Closed(x.doc, s, f) by {
      assert s[f..][0] == s[f];
    }
    var next := ItemCursor(f, y);
    ItemFirst(s, f, y, g);
    assert From(s, f) == Ok(next);
    ItemFirst(s, 1, x, f);
    ItemRoundTrip(s, 1, x, f, Ok(next));
    assert ParseValue(s, ItemCursor(1, x)) == Ok(Parsed(Meaning(x.doc), next));
    ItemKind(1, x);
    ItemKind(f, y);
    ArrayClash(s, ItemCursor(1, x), Meaning(x.doc), next);
  }

  /** An array whose first value is followed by a token that neither
      continues nor closes it. */
  lemma {:induction false} ArrayClash(s: string, first: Cursor, x: JsonValue, next: Cursor)
    requires |s| > 0 && s[0] == '[' && first.pos <= |s| && first.look.kind != TokenType.RightBracket
    requires From(s, 1) == Ok(first) && ParseValue(s, first) == Ok(Parsed(x, next))
    requires next.look.kind != TokenType.Comma && next.look.kind != TokenType.RightBracket
    ensures ParseText(s) == Err(ExpectedCommaOrBracket)
  {
    ArrayStart(s, first);
    ElementsSeparator(s, first, [], x, next);
    Document(s, Cursor(1, Token(TokenType.LeftBracket, None)), Err(ExpectedCommaOrBracket));
  }

  // --------------------------------------------------------------- objects

  /** An object whose first key has been read. */
  lemma {:induction false} ObjectStart(s: string, key: Cursor)
    requires |s| > 0 && s[0] == '{' && key.pos <= |s| && key.look.kind == TokenType.String
    requires From(s, 1) == Ok(key)
    ensures From(s, 0) == Ok(Cursor(1, Token(TokenType.LeftBrace, None)))
    ensures ParseValue(s, Cursor(1, Token(TokenType.LeftBrace, None))) == Members(s, key, map[])
  {
    var open := Cursor(1, Token(TokenType.LeftBrace, None));
    FromPunct(s, 0);
    AdvanceAt(s, open, 1, Ok(key));
    ObjectOpen(s, open, key);
  }

  /** A member read right after `{`, whose text ends at f, followed by the
      token `next`. */
  lemma {:induction false} FirstMember(s: string, m: Member, f: nat, next: Cursor)
    requires |s| > 0 && s[0] == '{' && MemberWellFormed(m) && HasPrefixAt(s, 1, SerMember(m)) && f == 1 + |SerMember(m)|
    requires Apart(m.value, s[f..]) && From(s, f) == Ok(next)
    ensures KeyCursor(1, m).pos <= |s|
    ensures From(s, 0) == Ok(Cursor(1, Token(TokenType.LeftBrace, None)))
    ensures ParseValue(s, Cursor(1, Token(TokenType.LeftBrace, None))) == Members(s, KeyCursor(1, m), map[])
    ensures JsonGrammar.Member(s, KeyCursor(1, m)) == Ok(Field(m.key, Meaning(m.value.doc), next))
  {
    assert m.value.after != [] || Closed(m.value.doc, s, f) by {
      if f < |s| {
        assert s[f..][0] == s[f];
      }
    }
    KeyFirst(s, 1, m, f);
    MemberRoundTrip(s, 1, m, f, next);
    ObjectStart(s, KeyCursor(1, m));
  }

  /** `{"k": v,}`, in any layout: after a comma a key must follow. */
  lemma {:induction false} ObjectTrailingComma(m: Member)
    requires MemberWellFormed(m)
    ensures ParseText("{" + SerMember(m) + ",}") == Err(ExpectedKey)
  {
    var s := "{" + SerMember(m) + ",}";
    var f := 1 + |SerMember(m)|;
    Enclosed(s, '{', SerMember(m), ",", '}');
    PrefixSlice(s, f, ",", 0, 1);
    MemberThenComma(s, m, f);
  }

  /** The positional part of ObjectTrailingComma. */
  lemma {:induction false} MemberThenComma(s: string, m: Member, f: nat)
    requires MemberWellFormed(m) && |s| == f + 2 && s[0] == '{' && s[f] == ',' && s[f + 1] == '}'
    requires HasPrefixAt(s, 1, SerMember(m)) && f == 1 + |SerMember(m)|
    ensures ParseText(s) == Err(ExpectedKey)
  {
    var comma := Cursor(f + 1, Token(TokenType.Comma, None));
    FromPunct(s, f);
    assert s[f..][0] == s[f];
    FirstMember(s, m, f, comma);
    MembersAfterComma(s, KeyCursor(1, m), map[], m.key, Meaning(m.value.doc), f);
    Document(s, Cursor(1, Token(TokenType.LeftBrace, None)), Err(ExpectedKey));
  }

  /** A member followed by `,}`: no key follows the comma. */
  lemma {:induction false} MembersAfterComma(s: string, key: Cursor, acc: map<string, JsonValue>, k: string, x: JsonValue, e: nat)
    requires |s| == e + 2 && s[e + 1] == '}' && key.pos <= |s|
    requires JsonGrammar.Member(s, key) == Ok(Field(k, x, Cursor(e + 1, Token(TokenType.Comma, None))))
    ensures Members(s, key, acc) == Err(ExpectedKey)
  {
    var comma := Cursor(e + 1, Token(TokenType.Comma, None));
    var close := Cursor(e + 2, Token(TokenType.RightBrace, None));
    CommaThen(s, e, '}', TokenType.RightBrace);
    MembersNext(s, key, acc, k, x, comma, close);
    MembersAtClose(s, close, Emplace(acc, k, x));
  }

  /** The object loop expects a key and finds `}`. */
  lemma {:induction false} MembersAtClose(s: string, close: Cursor, acc: map<string, JsonValue>)
    requires close.pos <= |s| && close.look.kind == TokenType.RightBrace
    ensures Members(s, close, acc) == Err(ExpectedKey)
  {
  }

  /** `{"k" v}`, in any layout of v: a key without its colon. */
  lemma {:induction false} MissingColon(k: string, x: Item)
    requires ItemWellFormed(x)
    ensures ParseText("{" + Quote(k) + SerItem(x) + "}") == Err(ExpectedColon)
  {
    var s := "{" + Quote(k) + SerItem(x) + "}";
    var c := 1 + |Quote(k)|;
    Enclosed(s, '{', Quote(k), SerItem(x), '}');
    KeyThenItem(s, k, x, c);
  }

  /** The positional part of MissingColon. */
  lemma {:induction false} KeyThenItem(s: string, k: string, x: Item, c: nat)
    requires ItemWellFormed(x) && |s| == c + |SerItem(x)| + 1 && s[0] == '{' && s[|s| - 1] == '}'
    requires HasPrefixAt(s, 1, Quote(k)) && c == 1 + |Quote(k)| && HasPrefixAt(s, c, SerItem(x))
    ensures ParseText(s) == Err(ExpectedColon)
  {
    var key := Cursor(c, Token(TokenType.String, Some(k)));
    FromString(s, 1, k, Quote(k));
    assert From(s, 1) == Ok(key);
    assert Ends(s, c + |SerItem(x)|);
    ItemFirst(s, c, x, c + |SerItem(x)|);
    assert From(s, c) == Ok(ItemCursor(c, x));
    ItemKind(c, x);
    AdvanceAt(s, key, c, Ok(ItemCursor(c, x)));
    KeyWithoutColon(s, key, ItemCursor(c, x));
    ObjectStart(s, key);
    assert Members(s, key, map[]) == Err(ExpectedColon);
    Document(s, Cursor(1, Token(TokenType.LeftBrace, None)), Err(ExpectedColon));
  }

  /** `{"a": v "b": w}`, in any layout: two members without a comma between
      them. */
  lemma {:induction false} MissingMemberComma(m1: Member, m2: Member)
    requires MemberWellFormed(m1) && MemberWellFormed(m2)
    ensures ParseText("{" + SerMember(m1) + SerMember(m2) + "}") == Err(ExpectedCommaOrBrace)
  {
    var s := "{" + SerMember(m1) + SerMember(m2) + "}";
    var f := 1 + |SerMember(m1)|;
    Enclosed(s, '{', SerMember(m1), SerMember(m2), '}');
    TwoMembers(s, m1, m2, f);
  }

  /** The positional part of MissingMemberComma. */
  lemma {:induction false} TwoMembers(s: string, m1: Member, m2: Member, f: nat)
    requires MemberWellFormed(m1) && MemberWellFormed(m2) && |s| > 0 && s[0] == '{'
    requires HasPrefixAt(s, 1, SerMember(m1)) && f == 1 + |SerMember(m1)| && HasPrefixAt(s, f, SerMember(m2))
    requires |s| == f + |SerMember(m2)| + 1 && s[|s| - 1] == '}'
    ensures ParseText(s) == Err(ExpectedCommaOrBrace)
  {
    var next := KeyCursor(f, m2);
    assert Ends(s, f + |SerMember(m2)|);
    KeyFirst(s, f, m2, f + |SerMember(m2)|);
    assert Apart(m1.value, s[f..]) by {
      MemberStart(m2);
      assert s[f..][0] == s[f] == SerMember(m2)[0];
    }
    FirstMember(s, m1, f, next);
    MembersSeparator(s, KeyCursor(1, m1), map[], m1.key, Meaning(m1.value.doc), next);
    Document(s, Cursor(1, Token(TokenType.LeftBrace, None)), Err(ExpectedCommaOrBrace));
  }

  /** A member's text starts with whitespace or the opening quote of its key. */
  lemma {:induction false} MemberStart(m: Member)
    requires MemberWellFormed(m)
    ensures |SerMember(m)| > 0 && EndsNumber(SerMember(m)[0])
  {
    var t := SerMember(m);
    if m.before == [] {
      assert t[0] == Quote(m.key)[0] == '"';
    } else {
      assert t[0] == m.before[0];
      assert IsSpace(m.before[0]);
    }
  }

  // -------------------------------------------------------------- documents

  /** Two complete values, in any layout: parse requires EndOfInput after the
      root value. */
  lemma {:induction false} TrailingContent(x: Item, y: Item)
    requires ItemWellFormed(x) && ItemWellFormed(y) && Apart(x, SerItem(y))
    ensures ParseText(SerItem(x) + SerItem(y)) == Err(TrailingToken)
  {
    var s := SerItem(x) + SerItem(y);
    var f := |SerItem(x)|;
    assert HasPrefixAt(s, 0, SerItem(x)) by {
      assert s[0..f] == SerItem(x);
    }
    Infix(SerItem(x), SerItem(y), "");
    assert SerItem(x) + SerItem(y) + "" == s;
    assert x.after != [] || Closed(x.doc, s, f) by {
      assert s[f] == SerItem(y)[0];
    }
    ItemFirst(s, f, y, |s|);
    ItemFirst(s, 0, x, f);
    ItemRoundTrip(s, 0, x, f, Ok(ItemCursor(f, y)));
    ItemKind(f, y);
    Document(s, ItemCursor(0, x), Ok(Parsed(Meaning(x.doc), ItemCursor(f, y))));
  }

  /** `true1`: a keyword ends its token whatever follows, so the digit is a
      second value. */
  lemma {:induction false} KeywordThenNumber()
    ensures ParseText("true1") == Err(TrailingToken)
  {
    One();
    var x := Item("", DBool(true), "");
    var y := Item("", DNumber("1"), "");
    assert SerItem(x) + SerItem(y) == "true1";
    TrailingContent(x, y);
  }

  /** `["a"1]`: a closing quote ends its token, so the digit is a second
      element without a comma. */
  lemma {:induction false} StringThenNumber()
    ensures ParseText("[\"a\"1]") == Err(ExpectedCommaOrBracket)
  {
    One();
    var x := Item("", DString("a"), "");
    var y := Item("", DNumber("1"), "");
    assert Quote("a") == "\"a\"";
    assert "[" + SerItem(x) + SerItem(y) + "]" == "[\"a\"1]";
    MissingComma(x, y);
  }

  /** The number lexeme `1`. */
  lemma {:induction false} One()
    ensures IsNumberLexeme("1")
  {
    assert "1"[..0] == "" && "1"[0..1] == "1" && "1"[1..1] == "" && "1"[1..] == "";
    assert NumberSplit("1", 0, 1, 1);
  }

  /** `1a`: the number stops before `a`, which stays unread. */
  lemma {:induction false} NumberStopsEarly()
    ensures Lex("1a", 0) == Ok(Lexed(Token(TokenType.Number, Some("1")), 1))
  {
    var s := "1a";
    One();
    assert HasPrefixAt(s, 0, "1") by { assert s[0..1] == "1"; }
    NumberLexed(s, 0, "1");
    assert RunEnd(s, 0, IsSpace) == 0;
  }
}
