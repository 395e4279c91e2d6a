# libjson reader, modelled in Dafny

libjson reads JSON text in two stages:

- `JsonTokenizer` walks a character buffer with a cursor and hands out one `Token` per call.
- `JsonParser` is a recursive-descent parser. It keeps one lookahead token and builds a `JsonValue` tree from the tokens.
- `Json::parse` connects the two.

This project models those three parts and the `JsonValue` type in Dafny and proves properties of them.

The model has two layers.

**Specification layer (pure functions):**

- `JsonLexSpec` says what `nextToken` returns at every position of the input. It also gives two independent references:
  - the number grammar of section 6 of RFC 8259, as predicates on a lexeme;
  - an escaping function `Quote`, the inverse of string decoding.
- `JsonGrammar` says what each parser production returns from a parser state. The state is the tokenizer position plus the lookahead token.

**Code layer (imperative, shaped like the C++):**

- `JsonTokenizer.Tokenizer` is a class with the input and a `pos` field. Its methods move the cursor with the same loops as the C++.
- `JsonParser.Parser` is a class with the tokenizer and the lookahead field. Its methods are the same mutually recursive productions, with the same `while (true)` loops.
- Every method is proved to compute exactly what its specification function says, from the state it started in.

**Properties proved about the specification layer:**

- string lexing inverts escaping;
- every accepted number is an RFC 8259 number, and the lexer stops at the first character that cannot extend it;
- each error case of the lexer, a string error after any well-formed literal body;
- every string literal the lexer accepts is a quote, a well-formed body and a quote, and its payload is that body's decoding;
- the main theorem `JsonText.TextRoundTrip`: for every document whose numbers are valid lexemes, written in any layout of whitespace, parsing its text gives back its meaning. That meaning keeps the FIRST value of a duplicate key;
- `JsonText.TrailingText`: after a complete document the parse succeeds exactly when only whitespace follows;
- the error of each missing separator (`,` in arrays and objects, `:` after a key), of trailing commas and of trailing content, for documents in any layout.

Modules:

| file | module | models |
|---|---|---|
| json_tokens.dfy | JsonTokens | `Token`, `TokenType`, the errors thrown, a `Result` type |
| json_lex_spec.dfy | JsonLexSpec | what `nextToken` and its helpers compute |
| json_tokenizer.dfy | JsonTokenizer | the `JsonTokenizer` class |
| json_value.dfy | JsonValues | `JsonType` and `JsonValue` with its accessors |
| json_grammar.dfy | JsonGrammar | what the parser productions compute |
| json_parser.dfy | JsonParser | the `JsonParser` class |
| json.dfy | Json | `Json::parse` |
| json_text.dfy | JsonText | documents as written (values plus the whitespace in every gap), their text, and the round-trip theorem |
| json_examples.dfy | JsonExamples | whole documents: the test's document, duplicate keys, missing separators, trailing commas, trailing content |

Choices worth knowing:

- Errors are variants of one `Error` datatype, one per message the code throws. Results are `Result<T>` values; nothing is thrown.
- A number keeps the lexeme the tokenizer accepted instead of the `double` that `std::stod` makes.
- A document as written is a `JsonText.Item`: the value, plus the whitespace before and after it. Arrays and objects record the whitespace around every `,` and before every `:`. So the round trip holds for every whitespace layout, not only one canonical spacing. String literals are written in one spelling (`Quote`). The lexer also accepts `\/` and raw control characters. `JsonLexSpec.BodyString` gives the payload of every well-formed body, and `JsonLexSpec.StringWritten` shows that the lexer accepts nothing else.
- Whitespace and digits are the C-locale `std::isspace` (space, `\t`, `\n`, `\v`, `\f`, `\r`) and `std::isdigit` sets.
- Duplicate keys: `std::map::emplace` (src/json_parser.cpp:131) does not overwrite, so the first value of a key is kept. The model follows the code here.

## Model

| member | source | states |
|---|---|---|
| JsonTokenizer.Tokenizer.constructor | include/json_tokenizer.h:42-43 | A new tokenizer is over the given text with the cursor at 0. |
| JsonTokenizer.Tokenizer.CurrentChar | include/json_tokenizer.h:61-64 | Gives a character exactly when the cursor is before the end, and that character is the one under the cursor. |
| JsonTokenizer.Tokenizer.Advance | include/json_tokenizer.h:66-69 | Returns the character under the cursor and moves one step. At the end it returns nothing and the cursor stays. |
| JsonTokenizer.Substr | src/json_tokenizer.cpp:188 | `substr(p, n)` is the slice from p of length n, cut short at the end of the text. |
| JsonTokenizer.Tokenizer.SkipWhitespace | src/json_tokenizer.cpp:59-63 | The cursor ends at the end of the whitespace run that starts where it was. |
| JsonTokenizer.Tokenizer.ParseString | src/json_tokenizer.cpp:65-120 | Returns the token and leaves the cursor where `LexString` says, or fails with the same error. |
| JsonTokenizer.Tokenizer.AppendDigits | src/json_tokenizer.cpp:139-142 | A digit loop moves past the whole digit run and appends exactly the characters it passed. |
| JsonTokenizer.Tokenizer.ParseNumber | src/json_tokenizer.cpp:122-181 | Returns the token and leaves the cursor where `LexNumber` says, or fails with the same error. |
| JsonTokenizer.Tokenizer.IsEndOfInput | include/json_tokenizer.h:59 | The input is used up exactly when the cursor stands at its end. |
| JsonTokenizer.Tokenizer.AppendInteger | src/json_tokenizer.cpp:127-146 | Reads the sign and the integer part (a lone `0`, or digits not starting with `0`) and returns exactly the characters passed. Its outcome and new position are where `LexNumber` continues with the fraction, or the same error. |
| JsonTokenizer.Tokenizer.AppendFraction | src/json_tokenizer.cpp:148-160 | An optional `.` followed by at least one digit. Extends the text read so far by exactly the characters passed; agrees with `NumberFraction`, including the missing-digit error. |
| JsonTokenizer.Tokenizer.AppendExponent | src/json_tokenizer.cpp:162-178 | An optional `e`/`E`, optional sign and at least one digit. Extends the text read so far by exactly the characters passed; agrees with `NumberExponent`, including the missing-digit error. |
| JsonTokenizer.Tokenizer.AppendMarker | src/json_tokenizer.cpp:163-170 | Passes the exponent marker and an optional `+`/`-` after it, appending exactly those characters. |
| JsonTokenizer.Tokenizer.ParseBooleanOrNull | src/json_tokenizer.cpp:183-195 | Agrees with `LexKeyword`. On an error the cursor has not moved. |
| JsonTokenizer.Tokenizer.NextToken | src/json_tokenizer.cpp:5-57 | Returns the token and leaves the cursor where `Lex` says, or fails with the same error. |
| JsonLexSpec.RunEnd | src/json_tokenizer.cpp:59-63 | The end of a run lies within the text. Every character before it is in the class, and the character at it (if any) is not. |
| JsonLexSpec.RunEndUnique | src/json_tokenizer.cpp:59-63 | A run that cannot be extended ends exactly where `RunEnd` says. |
| JsonLexSpec.Lex | src/json_tokenizer.cpp:5-10 | The cursor never passes the end of the text. Every token except EndOfInput consumes at least one character. EndOfInput carries no payload and leaves the cursor at the end. |
| JsonLexSpec.LexEndOfInput | src/json_tokenizer.cpp:6-10 | nextToken gives EndOfInput, at the end of the text, exactly when only whitespace is left. |
| JsonLexSpec.LexAt | src/json_tokenizer.cpp:17-56 | Any token read at a non-space character consumes at least that character and is never EndOfInput. |
| JsonLexSpec.LexDispatch | src/json_tokenizer.cpp:17-56 | After whitespace, each of `{ } [ ] , :` gives its payload-free token and is consumed alone. A character that starts no token is an "unexpected character" error. |
| JsonLexSpec.StringBody | src/json_tokenizer.cpp:70-117 | A successful string loop ends just past a closing quote and extends the text decoded so far. |
| JsonLexSpec.LexString | src/json_tokenizer.cpp:65-120 | A string token spans an opening and a closing quote and carries a payload. |
| JsonLexSpec.Unescape | src/json_tokenizer.cpp:75-98 | An escape `\c` is supported exactly for `" \ / b f n r t`; it stands for `c` itself exactly for `" \ /`. |
| JsonLexSpec.EscapeChar | src/json_tokenizer.cpp:75-98 | A character is written as itself or as a backslash and a letter that decodes back to it. Only a character other than the quote and the backslash is written as itself. |
| JsonLexSpec.EscapeInverse | src/json_tokenizer.cpp:75-98 | The escape table read both ways: `\c` with c other than `/` decodes to x exactly when x is written `\c`. A character is written as itself exactly when it is not the quote, the backslash, `\b`, `\f`, `\n`, `\r` or `\t`. |
| JsonLexSpec.EscapePlain | src/json_tokenizer.cpp:115-116 | Text without any of those seven characters is written as itself. |
| JsonLexSpec.StringBodyPlain | src/json_tokenizer.cpp:115-116 | Characters that are neither a quote nor a backslash, control characters included, are copied to the payload unchanged. |
| JsonLexSpec.PlainString | src/json_tokenizer.cpp:65-120 | A literal `"w"` whose body has no quote and no backslash gives a String token with payload exactly w and consumes `|w| + 2` characters. |
| JsonLexSpec.EscapedString | src/json_tokenizer.cpp:74-101 | A literal holding one supported escape gives the character of the escape table; `\/` gives `/`. |
| JsonLexSpec.LetterEscapes | src/json_tokenizer.cpp:81-95 | `\b`, `\f`, `\n`, `\r` and `\t` in a literal give backspace, form feed, line feed, carriage return and tab. |
| JsonLexSpec.BodyString | src/json_tokenizer.cpp:65-120 | A literal `"w"` with any well-formed body w (plain characters, raw control characters and the eight escapes, `\/` included) gives a String token with payload `Decode(w)` and consumes `|w| + 2` characters. |
| JsonLexSpec.StringWritten | src/json_tokenizer.cpp:65-120 | Conversely, every literal the lexer accepts is a quote, a well-formed body and a quote, and its payload is that body's decoding. |
| JsonLexSpec.StringBodyWritten | src/json_tokenizer.cpp:73-117 | The loop form of StringWritten: a successful run of the loop from any position read well-formed pieces up to the closing quote and appended their decoding. |
| JsonLexSpec.BodyReads | src/json_tokenizer.cpp:73-117 | The loop reads any well-formed body in place, appending its decoding, and carries on right after it. |
| JsonLexSpec.EscapeBody | src/json_tokenizer.cpp:75-98 | Every escaped text `Escape(t)` is a well-formed body whose decoding is t. |
| JsonLexSpec.StringRoundTrip | src/json_tokenizer.cpp:65-120 | Lexing the literal `Quote(t)` of any text t gives a String token with payload exactly t, with the cursor just past the closing quote. |
| JsonLexSpec.StringInvalidEscape | src/json_tokenizer.cpp:96-97 | After an opening quote and any well-formed body (plain characters, raw control characters included, and supported escapes such as `\/`), a backslash followed by anything outside `" \ / b f n r t` (`u` included) is an invalid-escape error. |
| JsonLexSpec.StringUnterminated | src/json_tokenizer.cpp:119 | Input that ends after an opening quote and any well-formed body, also right after a trailing backslash, is an unterminated-string error. |
| JsonLexSpec.LexNumber | src/json_tokenizer.cpp:122-181 | A number token consumes at least one character, and its payload is exactly the slice consumed. |
| JsonLexSpec.NumberFraction | src/json_tokenizer.cpp:148-160 | The number from its start to the end of the fraction (if any) and exponent is the token payload, exactly the slice consumed. |
| JsonLexSpec.NumberExponent | src/json_tokenizer.cpp:162-178 | The number from its start to the end of the exponent (if any) is the token payload, exactly the slice consumed. |
| JsonLexSpec.LexNumberComplete | src/json_tokenizer.cpp:122-181 | Every RFC 8259 number lexeme followed by the end or a character that cannot extend a number is read whole as one Number token. |
| JsonLexSpec.LexNumberSound | src/json_tokenizer.cpp:122-181 | Every accepted lexeme is an RFC 8259 number. The lexer stopped at the first character that cannot extend it: no digit, no `.` after the integer part, no `e`/`E` before an exponent. |
| JsonLexSpec.LexNumberErrors | src/json_tokenizer.cpp:132-146 | `-` without a digit is a missing-digit error. A leading `0` (also after `-`) followed by a digit is a leading-zeros error. |
| JsonLexSpec.FractionWithoutDigits | src/json_tokenizer.cpp:149-156 | An integer followed by `.` and no digit is a missing-fraction-digit error. |
| JsonLexSpec.ExponentWithoutDigits | src/json_tokenizer.cpp:163-173 | An exponent marker, with or without a sign, that no digit follows is a missing-exponent-digit error. |
| JsonLexSpec.LexKeyword | src/json_tokenizer.cpp:183-195 | An exact prefix `true`, `false` or `null` gives Boolean, Boolean or Null with the keyword as payload and advances by its length. Anything else is an error. |
| JsonLexSpec.KeywordFrom | src/json_tokenizer.cpp:184-192 | The loop from table entry i succeeds exactly when some keyword from entry i on is a prefix at the cursor, and then gives that keyword's type and payload and advances by its length. Otherwise it fails with the expected-keyword error. |
| JsonLexSpec.KeywordTable | src/json_tokenizer.cpp:184-192 | The keyword loop gives the first matching keyword in table order. No two keywords match at the same position. |
| JsonValues.JsonValue.Type | include/json_parser.h:32-37 | The type tag is Null, String, Number, Boolean, Object or Array exactly when the value is that variant. |
| JsonValues.ExactlyOneType | include/json_parser.h:87-92 | Exactly one of the six `is*` tests holds for any value. |
| JsonValues.JsonValue.Get | include/json_parser.h:40-46 | Succeeds exactly on an object holding the key, with the value mapped to it. Otherwise it fails with not-an-object or key-not-found. |
| JsonValues.JsonValue.At | include/json_parser.h:49-54 | Succeeds exactly on an array with index < size, with the element at the index. Otherwise it fails with not-an-array or index-out-of-bounds. |
| JsonValues.JsonValue.AsString | include/json_parser.h:57-60 | Succeeds exactly on a String, returns its payload, and never coerces. |
| JsonValues.JsonValue.AsNumber | include/json_parser.h:62-65 | Succeeds exactly on a Number and returns its lexeme. |
| JsonValues.JsonValue.AsBool | include/json_parser.h:71-74 | Succeeds exactly on a Boolean and returns its payload. |
| JsonValues.JsonValue.AsObject | include/json_parser.h:76-79 | Succeeds exactly on an Object and returns its map. |
| JsonValues.JsonValue.AsArray | include/json_parser.h:81-84 | Succeeds exactly on an Array and returns its elements. |
| JsonGrammar.Advance | include/json_parser.h:106 | Reading the next token never moves the cursor back or past the end, and the unread input never grows. |
| JsonGrammar.AdvanceEnd | src/json_tokenizer.cpp:6-10 | The lookahead becomes EndOfInput exactly when only whitespace is left, and it then stands at the end of the text. |
| JsonGrammar.ParseValue | src/json_parser.cpp:17-34 | A successful value consumes its lookahead. A lookahead other than String, Number, Boolean, Null, `{` or `[` is rejected without recursing. |
| JsonGrammar.ParseString | src/json_parser.cpp:36-44 | Succeeds only on a String token and gives a String with its payload. |
| JsonGrammar.ParseNumber | src/json_parser.cpp:46-54 | Succeeds only on a Number token and gives a Number with its lexeme. |
| JsonGrammar.ParseBoolean | src/json_parser.cpp:56-64 | Succeeds only on a Boolean token and gives true exactly when the payload is `true`. |
| JsonGrammar.ParseNull | src/json_parser.cpp:66-73 | Succeeds only on a Null token and gives Null. |
| JsonGrammar.ParseArray | src/json_parser.cpp:75-102 | Succeeds only on `[`, gives an array, and consumes input. |
| JsonGrammar.Elements | src/json_parser.cpp:85-99 | The array loop keeps every element collected so far as a proper prefix of the result. |
| JsonGrammar.Emplace | src/json_parser.cpp:131 | The key is added. Every key already present keeps its value; the new value is stored only for a new key. |
| JsonGrammar.ParseObject | src/json_parser.cpp:104-144 | Succeeds only on `{`, gives an object, and consumes input. |
| JsonGrammar.Member | src/json_parser.cpp:118-130 | A member starts with a String key token and consumes input. |
| JsonGrammar.Members | src/json_parser.cpp:117-141 | The object loop keeps every key and value collected so far and adds the member's key. |
| JsonGrammar.ParseDocument | src/json_parser.cpp:6-15 | Input that holds only whitespace from the cursor on fails: the first lookahead is EndOfInput, which starts no value. |
| JsonGrammar.ParseText | src/json.cpp:6-11 | Empty or whitespace-only text fails with the unexpected-token error. |
| JsonParser.Parser.constructor | include/json_parser.h:97-98 | A new parser holds the tokenizer with an EndOfInput lookahead. |
| JsonParser.Parser.NextToken | include/json_parser.h:106 | The lookahead becomes the tokenizer's next token, as `JsonGrammar.Advance` says. On an error the lookahead is kept. |
| JsonParser.Parser.Parse | src/json_parser.cpp:6-15 | The result is exactly `ParseDocument` from the starting state: prime the lookahead, read one value, then require EndOfInput. |
| JsonParser.Parser.ParseValue | src/json_parser.cpp:17-34 | Result and new state agree with `JsonGrammar.ParseValue`. |
| JsonParser.Parser.ParseString | src/json_parser.cpp:36-44 | Result and new state agree with `JsonGrammar.ParseString`. |
| JsonParser.Parser.ParseNumber | src/json_parser.cpp:46-54 | Result and new state agree with `JsonGrammar.ParseNumber`. |
| JsonParser.Parser.ParseBoolean | src/json_parser.cpp:56-64 | Result and new state agree with `JsonGrammar.ParseBoolean`. |
| JsonParser.Parser.ParseNull | src/json_parser.cpp:66-73 | Result and new state agree with `JsonGrammar.ParseNull`. |
| JsonParser.Parser.ParseArray | src/json_parser.cpp:75-102 | Result and new state agree with `JsonGrammar.ParseArray`. |
| JsonParser.Parser.ParseObject | src/json_parser.cpp:104-144 | Result and new state agree with `JsonGrammar.ParseObject`. |
| JsonParser.Parser.ParseMember | src/json_parser.cpp:118-130 | Key, value and new state agree with `JsonGrammar.Member`. |
| Json.Parse | src/json.cpp:6-11 | A fresh tokenizer and parser over the text give exactly `ParseText` of the text. |
| JsonText.Skip | src/json_tokenizer.cpp:59-63 | Whitespace before a token does not change which token is read next. |
| JsonText.ArrayOpen | src/json_parser.cpp:75-88 | After `[` and a lookahead other than `]`, parseArray is its element loop from that lookahead. |
| JsonText.ArrayEmpty | src/json_parser.cpp:83-86 | After `[` and `]`, parseArray gives the empty array and reads the next token. |
| JsonText.ObjectOpen | src/json_parser.cpp:104-117 | After `{` and a lookahead other than `}`, parseObject is its member loop from that lookahead. |
| JsonText.ObjectEmpty | src/json_parser.cpp:112-115 | After `{` and `}`, parseObject gives the empty object and reads the next token. |
| JsonText.ElementsNext | src/json_parser.cpp:88-92 | An element followed by `,` continues the array loop with the element appended. |
| JsonText.ElementsLast | src/json_parser.cpp:93-95 | An element followed by `]` ends the array with the element appended, then reads the next token. |
| JsonText.ElementsSeparator | src/json_parser.cpp:96-97 | An element followed by anything but `,` or `]` fails with the expected-comma-or-bracket error. |
| JsonText.MemberStep | src/json_parser.cpp:118-130 | A key, a colon and a value make a member with that key and value. |
| JsonText.KeyWithoutColon | src/json_parser.cpp:125-127 | A key followed by anything but `:` fails with the expected-colon error. |
| JsonText.MembersNext | src/json_parser.cpp:131-134 | A member followed by `,` continues the object loop with the member emplaced. |
| JsonText.MembersClose | src/json_parser.cpp:131-137 | A member followed by `}` ends the object with the member emplaced, then reads the next token. |
| JsonText.MembersSeparator | src/json_parser.cpp:138-139 | A member followed by anything but `,` or `}` fails with the expected-comma-or-brace error. |
| JsonText.FirstKind | src/json_parser.cpp:17-30 | The first token of every document is one that parseValue accepts. |
| JsonText.ItemRoundTrip | src/json_parser.cpp:17-34 | Reading an item's text from its first token gives its meaning, then the token after its trailing whitespace. |
| JsonText.ElementsRoundTrip | src/json_parser.cpp:88-99 | The array loop reads the items of a list, separated by `,` with any whitespace, in order, and stops after the `]`. |
| JsonText.MemberRoundTrip | src/json_parser.cpp:118-130 | Reading a member's text, with any whitespace around the key and the colon, gives its key and meaning. |
| JsonText.MembersRoundTrip | src/json_parser.cpp:117-141 | The object loop reads the members of a list in order, emplacing each, and stops after the `}`. |
| JsonText.TextRoundTrip | src/json_parser.cpp:6-144 | Parsing the text of any document whose numbers are RFC 8259 lexemes, in any whitespace layout, succeeds and gives its meaning: elements in order, and the first value of each key. (See `## Left out` on `std::stod` range errors.) |
| JsonText.TrailingText | src/json_parser.cpp:10-12 | After a complete document the parse succeeds exactly when the rest of the text is whitespace, and then gives the document's meaning. The one exclusion: a number written without trailing whitespace, followed by a digit, `.`, `e` or `E` (the characters `EndsNumber` rejects). |
| JsonExamples.FieldsFirstWins | src/json_parser.cpp:131 | In an object read member by member, a key maps to the value of its first occurrence. |
| JsonExamples.FieldsKeys | src/json_parser.cpp:117-141 | The keys of an object read member by member are exactly the keys written. |
| JsonExamples.DuplicateKeysFirstWins | src/json_parser.cpp:131 | Parsing an object text with repeated keys gives exactly the keys written, each with its first value. |
| JsonExamples.AliceExample | tests/test_json_parser.cpp:7-13 | `{"name": "Alice", "age": 30}` parses to an object whose `name` is String `Alice` and whose `age` is Number `30`. |
| JsonExamples.ArrayTrailingComma | src/json_parser.cpp:88-92 | `[v,]`, in any layout of v, fails because `]` does not start a value. |
| JsonExamples.MissingComma | src/json_parser.cpp:88-98 | `[v w]`, two elements in any layout with no comma between them, fails with the expected-comma-or-bracket error (unless v is a number written without trailing whitespace and w starts with a digit, `.`, `e` or `E`; see `EndsNumber`). |
| JsonExamples.ObjectTrailingComma | src/json_parser.cpp:117-120 | `{"k": v,}`, in any layout, fails with the expected-key error. |
| JsonExamples.MissingColon | src/json_parser.cpp:122-127 | `{"k" v}` fails with the expected-colon error. |
| JsonExamples.MissingMemberComma | src/json_parser.cpp:131-139 | Two members with no comma between them fail with the expected-comma-or-brace error. |
| JsonExamples.TrailingContent | src/json_parser.cpp:10-12 | A value followed by another value, in any layout, fails with the trailing-token error (unless the first is a number written without trailing whitespace and the second starts with a digit, `.`, `e` or `E`, as in `1` then `2`; see `EndsNumber`). |
| JsonExamples.KeywordThenNumber | src/json_parser.cpp:10-12 | `true1` fails with the trailing-token error: a keyword ends its token whatever follows. |
| JsonExamples.StringThenNumber | src/json_parser.cpp:93-97 | `["a"1]` fails with the expected-comma-or-bracket error: a closing quote ends its token. |
| JsonExamples.NumberStopsEarly | src/json_tokenizer.cpp:139-180 | In `1a` the number token is `1` and the cursor stops on `a`. |

## Left out

- `std::stod`, the `double` payload, `asDouble` and `asInt`'s truncating cast are floating point. A Number keeps its lexeme; `AsNumber` stands for `asDouble` and fails exactly where it does. `asInt` fails exactly where `asDouble` does.
- The "Unexpected end of input" guard in `nextToken` (src/json_tokenizer.cpp:13-15) cannot fire after the end-of-input test above it, so it is not modelled.
- The text of error messages is left out: each message is an `Error` variant, and the exception types are not distinguished.
- Locale: `std::isspace` and `std::isdigit` are fixed to the C locale.
- The iteration order of `std::map` is left out: objects are Dafny maps.
- `JsonParser.Parser` refers to the tokenizer instead of owning a moved copy. C++ move semantics, `std::string_view` lifetime and copying are not modelled.
- Stack depth on deeply nested input is not modelled: the recursion is unbounded.
- `\u` escapes are not supported, as in the code.
- Unescaped control characters are accepted inside strings, as in the code.
- JsonText.TextRoundTrip, JsonGrammar.ParseNumber: `std::stod` (src/json_parser.cpp:51) throws `std::out_of_range` for a valid lexeme whose value does not fit a `double`, such as `1e400` (and, with common C libraries, an underflowing one such as `1e-400`). The model keeps the lexeme, so it accepts those documents where the code throws.
- The input is a `string_view` of bytes; the model reads a sequence of characters. For UTF-8 text the two agree on every token decision, because every byte the tokenizer tests is ASCII. They differ in payloads: a string payload and the character of an unexpected-character error are bytes in the code and characters here.
- include/json.h is the declaration of `Json::parse` and is not part of this model.
- The gtest scaffolding of tests/test_json_parser.cpp is not modelled; only its document and assertions are restated, in `JsonExamples.AliceExample`.
