/**
  What `OurReader`'s scanner computes: pure functions from a document and a cursor to a token and
  the next cursor. Every function is total on arbitrary bytes.
 */
module Lexer {
  import opened Basics
  import opened JsonStrings

  datatype Features = Features(
    allowComments: bool,
    strictRoot: bool,
    allowDroppedNullPlaceholders: bool,
    allowNumericKeys: bool,
    allowSingleQuotes: bool,
    failIfExtra: bool,
    rejectDupKeys: bool,
    allowSpecialFloats: bool,
    stackLimit: int)

  datatype TokenType =
    | EndOfStream
    | ObjectBegin
    | ObjectEnd
    | ArrayBegin
    | ArrayEnd
    | StringToken
    | NumberToken
    | TrueToken
    | FalseToken
    | NullToken
    | NaNToken
    | PosInfToken
    | NegInfToken
    | ArraySeparator
    | MemberSeparator
    | CommentToken
    | ErrorToken

  datatype Token = Token(typ: TokenType, start: nat, end: nat)

  const LETTER_E: Byte := 0x65
  const UPPER_E: Byte := 0x45
  const UPPER_I: Byte := 0x49
  const UPPER_N: Byte := 0x4E

  const NFINITY: Bytes := [0x6E, 0x66, 0x69, 0x6E, 0x69, 0x74, 0x79]
  const AN: Bytes := [0x61, 0x4E]

  /** `skipSpaces` */
  function SkipSpaces(doc: Bytes, i: nat): (j: nat)
    requires i <= |doc|
    ensures i <= j <= |doc|
    ensures forall k :: i <= k < j ==> IsBlank(doc[k])
    ensures j < |doc| ==> !IsBlank(doc[j])
    decreases |doc| - i
  {
    if i < |doc| && IsBlank(doc[i]) then SkipSpaces(doc, i + 1) else i
  }

  /** `match`: whether the pattern stands at `i`, and the cursor. */
  function Match(doc: Bytes, i: nat, pattern: Bytes): (bool, nat) {
    if At(doc, i, pattern) then (true, i + |pattern|) else (false, i)
  }

  function SkipDigits(doc: Bytes, i: nat): (j: nat)
    requires i <= |doc|
    ensures i <= j <= |doc|
    ensures forall k :: i <= k < j ==> IsDigit(doc[k])
    ensures j < |doc| ==> !IsDigit(doc[j])
    decreases |doc| - i
  {
    if i < |doc| && IsDigit(doc[i]) then SkipDigits(doc, i + 1) else i
  }

  predicate IsExponent(b: Byte) {
    b == LETTER_E || b == UPPER_E
  }

  predicate IsSign(b: Byte) {
    b == PLUS || b == MINUS
  }

  function SkipFraction(doc: Bytes, i: nat): (j: nat)
    requires i <= |doc|
    ensures i <= j <= |doc|
  {
    if i < |doc| && doc[i] == DOT then SkipDigits(doc, i + 1) else i
  }

  function SkipExponent(doc: Bytes, i: nat): (j: nat)
    requires i <= |doc|
    ensures i <= j <= |doc|
  {
    if i < |doc| && IsExponent(doc[i]) then
      SkipDigits(doc, if i + 1 < |doc| && IsSign(doc[i + 1]) then i + 2 else i + 1)
    else i
  }

  /** `readNumber` after its first character: is it a number, and the cursor. */
  function ScanNumber(doc: Bytes, i: nat, checkInf: bool): (r: (bool, nat))
    requires i <= |doc|
    ensures i <= r.1 <= |doc|
  {
    if checkInf && i < |doc| && doc[i] == UPPER_I then (false, i + 1)
    else (true, SkipExponent(doc, SkipFraction(doc, SkipDigits(doc, i))))
  }

  /** Where the loop of `readCStyleComment` leaves the cursor. */
  function CStyleEnd(doc: Bytes, i: nat): (j: nat)
    requires i <= |doc|
    ensures i <= j <= |doc|
    decreases |doc| - i
  {
    if i + 1 < |doc| then
      if doc[i] == STAR && doc[i + 1] == SLASH then i + 1 else CStyleEnd(doc, i + 1)
    else i
  }

  /** `readCppStyleComment` */
  function CppStyleEnd(doc: Bytes, i: nat): (j: nat)
    requires i <= |doc|
    ensures i <= j <= |doc|
    decreases |doc| - i
  {
    if i == |doc| then i
    else if doc[i] == LF then i + 1
    else if doc[i] == CR then (if i + 1 < |doc| && doc[i + 1] == LF then i + 2 else i + 1)
    else CppStyleEnd(doc, i + 1)
  }

  /** `readComment` after its first character: is it a comment, and the cursor. */
  function ScanComment(doc: Bytes, i: nat): (r: (bool, nat))
    requires i <= |doc|
    ensures i <= r.1 <= |doc|
  {
    if i == |doc| then (false, i)
    else if doc[i] == STAR then
      var e := CStyleEnd(doc, i + 1);
      if e == |doc| then (false, e) else (doc[e] == SLASH, e + 1)
    else if doc[i] == SLASH then (true, CppStyleEnd(doc, i + 1))
    else (false, i + 1)
  }

  /** The `switch` of `readToken` on the byte at `s`: the token's type if its text is good, and the cursor. */
  function Classify(doc: Bytes, f: Features, s: nat): (r: (TokenType, (bool, nat)))
    requires s < |doc|
    ensures s < r.1.1 <= |doc|
  {
    var c, p := doc[s], s + 1;
    if c == LBRACE then (ObjectBegin, (true, p))
    else if c == RBRACE then (ObjectEnd, (true, p))
    else if c == LBRACKET then (ArrayBegin, (true, p))
    else if c == RBRACKET then (ArrayEnd, (true, p))
    else if c == QUOTE then (StringToken, ScanString(doc, p, QUOTE))
    else if c == APOSTROPHE && f.allowSingleQuotes then (StringToken, ScanString(doc, p, APOSTROPHE))
    else if c == APOSTROPHE || c == SLASH then (CommentToken, ScanComment(doc, p))
    else if IsDigit(c) then (NumberToken, ScanNumber(doc, p, false))
    else if c == MINUS then
      var number := ScanNumber(doc, p, true);
      if number.0 then (NumberToken, number)
      else if f.allowSpecialFloats then (NegInfToken, Match(doc, number.1, NFINITY))
      else (ErrorToken, number)
    else if c == LETTER_T then (TrueToken, Match(doc, p, TRUE_TEXT[1..]))
    else if c == LETTER_F then (FalseToken, Match(doc, p, FALSE_TEXT[1..]))
    else if c == LETTER_N then (NullToken, Match(doc, p, NULL_TEXT[1..]))
    else if c == UPPER_N && f.allowSpecialFloats then (NaNToken, Match(doc, p, AN))
    else if c == UPPER_I && f.allowSpecialFloats then (PosInfToken, Match(doc, p, NFINITY))
    else if c == COMMA then (ArraySeparator, (true, p))
    else if c == COLON then (MemberSeparator, (true, p))
    else if c == 0 then (EndOfStream, (true, p))
    else (ErrorToken, (false, p))
  }

  /** `readToken` */
  function ReadToken(doc: Bytes, f: Features, i: nat): (t: Token)
    requires i <= |doc|
    ensures i <= t.start <= t.end <= |doc|
    ensures t.typ != EndOfStream ==> t.start < t.end
    ensures t.typ == StringToken ==> t.start + 2 <= t.end
  {
    var s := SkipSpaces(doc, i);
    if s == |doc| then Token(EndOfStream, s, s)
    else
      var (typ, (ok, end)) := Classify(doc, f, s);
      Token(if ok then typ else ErrorToken, s, end)
  }

  /** The next token that is not a comment. */
  function SkipComments(doc: Bytes, f: Features, i: nat): (t: Token)
    requires i <= |doc|
    ensures i <= t.start <= t.end <= |doc|
    ensures t.typ != CommentToken
    ensures t.typ != EndOfStream ==> t.start < t.end
    ensures t.typ == StringToken ==> t.start + 2 <= t.end
    decreases |doc| - i
  {
    var t := ReadToken(doc, f, i);
    if t.typ == CommentToken then SkipComments(doc, f, t.end) else t
  }

  /** `skipCommentTokens` */
  function NextToken(doc: Bytes, f: Features, i: nat): (t: Token)
    requires i <= |doc|
    ensures i <= t.start <= t.end <= |doc|
    ensures t.typ != EndOfStream ==> t.start < t.end
    ensures t.typ == StringToken ==> t.start + 2 <= t.end
  {
    if f.allowComments then SkipComments(doc, f, i) else ReadToken(doc, f, i)
  }

  /** The cursor after `recoverFromError`. */
  function Recover(doc: Bytes, f: Features, i: nat, until: TokenType): (j: nat)
    requires i <= |doc|
    ensures i <= j <= |doc|
    decreases |doc| - i
  {
    var t := ReadToken(doc, f, i);
    if t.typ == until || t.typ == EndOfStream then t.end else Recover(doc, f, t.end, until)
  }
}
