/** Tokens, token types and the error values shared by the tokenizer, the
    parser and the value accessors (include/json_tokenizer.h). */
module JsonTokens {

  datatype Option<+T> = None | Some(value: T)

  /** The library throws JsonTokenizerError for lexical and syntax errors and
      std::runtime_error for accessor errors; each message becomes a variant. */
  datatype Error =
    // lexical errors (src/json_tokenizer.cpp)
    | UnexpectedCharacter(c: char)
    | ExpectedOpeningQuote
    | InvalidEscape(c: char)
    | UnterminatedString
    | LeadingZeros
    | ExpectedDigit
    | ExpectedFractionDigit
    | ExpectedExponentDigit
    | ExpectedKeyword
    // syntax errors (src/json_parser.cpp)
    | TrailingToken
    | UnexpectedTokenInValue
    | ExpectedStringToken
    | ExpectedNumberToken
    | ExpectedBooleanToken
    | ExpectedNullToken
    | ExpectedArrayStart
    | ExpectedObjectStart
    | ExpectedCommaOrBracket
    | ExpectedKey
    | ExpectedColon
    | ExpectedCommaOrBrace
    // accessor errors (include/json_parser.h)
    | NotAnObject
    | KeyNotFound(key: string)
    | NotAnArray
    | IndexOutOfBounds
    | NotAString
    | NotANumber
    | NotABoolean

  /** A value or the error that was thrown instead. */
  datatype Result<+T> = Ok(value: T) | Err(error: Error) {
    predicate IsFailure() { Err? }

    function PropagateFailure<U>(): Result<U>
      requires Err?
    {
      Err(error)
    }

    function Extract(): T
      requires Ok?
    {
      value
    }
  }

  datatype TokenType =
    | Number | String | Boolean | Null
    | LeftBrace | RightBrace | LeftBracket | RightBracket | Comma | Colon
    | EndOfInput

  /** `Token(type)` carries no payload; `Token(type, s)` carries `s`. */
  datatype Token = Token(kind: TokenType, value: Option<string>)

  /** A token together with the cursor position just after it. */
  datatype Lexed = Lexed(token: Token, next: nat)
}
