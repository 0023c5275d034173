/** What `OurReader::addError` records. */
module Errors {
  import opened Basics

  datatype Message =
    | ValueExpected
    | MissingColon
    | DuplicateKey(name: Bytes)
    | MissingCommaOrBrace
    | MissingBraceOrName
    | MissingCommaOrBracket
    | NotANumber(text: Bytes)
    | EmptyEscape
    | BadEscape
    | FourDigitsExpected
    | HexDigitExpected
    | SixCharactersExpected
    | SecondHalfExpected
    | ExtraAfterValue
    | RootNotContainer

  // `ErrorInfo`: the token's offsets, the message and the optional further location.
  datatype Error = Error(start: nat, limit: nat, message: Message, extra: Option<nat>)
}
