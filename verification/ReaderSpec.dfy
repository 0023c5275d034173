/**
  What `OurReader` computes, as mutually recursive pure functions over a document. `Read` says how
  one `readValue` ends: with the new cursor and the new current value, and on failure with the one
  error that was recorded before recovery, or with the exception that was thrown.
 */
module ReaderSpec {
  import opened Basics
  import opened Errors
  import opened Grammar
  import opened Integers
  import opened JsonStrings
  import opened Lexer
  import opened Values

  datatype Read =
    | Success(cur: nat, v: Value)
    | Failure(cur: nat, v: Value, e: Error)
    | Threw

  predicate LocatedIn(e: Error, doc: Bytes) {
    e.start <= e.limit <= |doc| && (e.extra.Some? ==> e.start <= e.extra.value <= e.limit)
  }

  /** The cursor has not gone back and is inside the document, as is the place of any error. */
  predicate InBounds(r: Read, i: nat, doc: Bytes) {
    && (!r.Threw? ==> i <= r.cur <= |doc|)
    && (r.Failure? ==> LocatedIn(r.e, doc))
  }

  function TokenError(t: Token, m: Message): Error {
    Error(t.start, t.end, m, None)
  }

  function Spanned(p: Payload, t: Token): Value {
    Value(p, t.start, t.end)
  }

  /** `decodeNumber` on a token's text: integers exactly, anything else through the C library. */
  function DecodeNumber(text: Bytes, g: Settings): Option<Payload> {
    match IntegerMeaning(text)
    case Some(p) => Some(p)
    case None =>
      match g.scan(text)
      case Some(d) => Some(Real(d))
      case None => None
  }

  datatype Name = Named(name: Bytes) | BadName(e: Error) | NoName

  function TokenText(doc: Bytes, t: Token): Bytes
    requires t.start <= t.end <= |doc|
  {
    doc[t.start..t.end]
  }

  /** The text between the quotes of a string token. */
  function TokenBody(doc: Bytes, t: Token): Bytes
    requires t.start + 2 <= t.end <= |doc|
  {
    doc[t.start + 1..t.end - 1]
  }

  /** The error `decodeString` records for a string token. */
  function StringError(t: Token, d: Decoded): Error
    requires d.Bad?
  {
    Error(t.start, t.end, d.message, Some(t.start + 1 + d.at))
  }

  function NumberError(doc: Bytes, t: Token): Error
    requires t.start <= t.end <= |doc|
  {
    TokenError(t, NotANumber(TokenText(doc, t)))
  }

  /** `asString()` of a decoded number, used for numeric keys. */
  function NumberName(p: Payload, g: Settings): Bytes {
    match p
    case Int(i) => IntegerText(i)
    case UInt(u) => IntegerText(u)
    case Real(d) => g.show(d)
    case _ => []
  }

  /** The member name a token stands for. */
  function MemberName(doc: Bytes, g: Settings, t: Token): (r: Name)
    requires t.start <= t.end <= |doc|
    requires t.typ == StringToken ==> t.start + 2 <= t.end
    ensures r.BadName? ==> LocatedIn(r.e, doc)
    ensures !r.NoName? ==> t.typ == StringToken || t.typ == NumberToken
  {
    if t.typ == StringToken then
      var d := DecodeFrom(TokenBody(doc, t), 0);
      if d.Good? then Named(d.s) else BadName(StringError(t, d))
    else if t.typ == NumberToken && g.f.allowNumericKeys then
      match DecodeNumber(TokenText(doc, t), g)
      case Some(p) => Named(NumberName(p, g))
      case None => BadName(NumberError(doc, t))
    else NoName
  }

  /** A value that is a single token. */
  function ReadScalar(doc: Bytes, g: Settings, t: Token, v: Value): (r: Read)
    requires t.start <= t.end <= |doc|
    requires t.typ == StringToken ==> t.start + 2 <= t.end
    ensures !r.Threw? && InBounds(r, t.start, doc) && r.cur <= t.end
  {
    if t.typ == NumberToken then
      match DecodeNumber(TokenText(doc, t), g)
      case Some(p) => Success(t.end, Spanned(p, t))
      case None => Failure(t.end, v, NumberError(doc, t))
    else if t.typ == StringToken then
      var d := DecodeFrom(TokenBody(doc, t), 0);
      if d.Good? then Success(t.end, Spanned(String(d.s), t)) else Failure(t.end, v, StringError(t, d))
    else if t.typ == TrueToken then Success(t.end, Spanned(Boolean(true), t))
    else if t.typ == FalseToken then Success(t.end, Spanned(Boolean(false), t))
    else if t.typ == NullToken then Success(t.end, Spanned(Null, t))
    else if t.typ == NaNToken then Success(t.end, Spanned(Real(NaN), t))
    else if t.typ == PosInfToken then Success(t.end, Spanned(Real(PosInf), t))
    else if t.typ == NegInfToken then Success(t.end, Spanned(Real(NegInf), t))
    else if g.f.allowDroppedNullPlaceholders && IsUnreadable(t) then
      Success(t.end - 1, Value(Null, t.end - 2, t.end - 1))
    else Failure(t.end, Value(v.payload, t.start, t.end), TokenError(t, ValueExpected))
  }

  // The tokens `readValue` un-reads when nulls may be dropped.
  predicate IsUnreadable(t: Token) {
    (t.typ == ArraySeparator || t.typ == ObjectEnd || t.typ == ArrayEnd) && t.start < t.end
  }

  function SetLimit(r: Read): Read {
    match r
    case Success(cur, v) => Success(cur, Value(v.payload, v.start, cur))
    case Failure(cur, v, e) => Failure(cur, Value(v.payload, v.start, cur), e)
    case Threw => Threw
  }

  /** `readValue` with the node stack `depth` high and `v` on top of it. */
  function ReadValue(doc: Bytes, g: Settings, depth: nat, i: nat, v: Value): (r: Read)
    requires i <= |doc|
    ensures InBounds(r, i, doc)
    decreases |doc| - i, 0
  {
    if depth > g.f.stackLimit then Threw
    else
      var t := NextToken(doc, g.f, i);
      if t.typ == ObjectBegin then
        SetLimit(ReadMembers(doc, g, depth, t.end, [], map[], Value(v.payload, t.start, v.limit)))
      else if t.typ == ArrayBegin then
        SetLimit(ReadArray(doc, g, depth, t.end, Value(v.payload, t.start, v.limit)))
      else ReadScalar(doc, g, t, v)
  }

  function FailAndRecover(doc: Bytes, g: Settings, i: nat, v: Value, e: Error, until: TokenType): (r: Read)
    requires i <= |doc| && LocatedIn(e, doc)
    ensures InBounds(r, i, doc) && r.Failure?
  {
    Failure(Recover(doc, g.f, i, until), v, e)
  }

  function WithMembers(v: Value, m: map<Bytes, Value>): Value {
    Value(Object(m), v.start, v.limit)
  }

  /** The loop of `readObject`: `name` is the last member's name, `m` the members so far. */
  function ReadMembers(doc: Bytes, g: Settings, depth: nat, i: nat, name: Bytes, m: map<Bytes, Value>, v: Value): (r: Read)
    requires i <= |doc|
    ensures InBounds(r, i, doc)
    decreases |doc| - i, 1
  {
    var t := SkipComments(doc, g.f, i);
    if t.typ == ObjectEnd && name == [] then Success(t.end, WithMembers(v, m))
    else
      match MemberName(doc, g, t)
      case NoName =>
        FailAndRecover(doc, g, t.end, WithMembers(v, m), TokenError(t, MissingBraceOrName), ObjectEnd)
      case BadName(e) => FailAndRecover(doc, g, t.end, WithMembers(v, m), e, ObjectEnd)
      case Named(n) => ReadMember(doc, g, depth, t, n, m, v)
  }

  /** One turn of that loop, from the colon on. */
  function ReadMember(doc: Bytes, g: Settings, depth: nat, t: Token, n: Bytes, m: map<Bytes, Value>, v: Value): (r: Read)
    requires t.start < t.end <= |doc|
    ensures InBounds(r, t.end, doc)
    decreases |doc| - t.end, 2
  {
    var colon := ReadToken(doc, g.f, t.end);
    if colon.typ != MemberSeparator then
      FailAndRecover(doc, g, colon.end, WithMembers(v, m), TokenError(colon, MissingColon), ObjectEnd)
    else if |n| >= KEY_LIMIT then Threw
    else if g.f.rejectDupKeys && n in m then
      FailAndRecover(doc, g, colon.end, WithMembers(v, m), TokenError(t, DuplicateKey(n)), ObjectEnd)
    else
      match ReadValue(doc, g, depth + 1, colon.end, if n in m then m[n] else NULL_VALUE)
      case Threw => Threw
      case Failure(cur, w, e) => FailAndRecover(doc, g, cur, WithMembers(v, m[n := w]), e, ObjectEnd)
      case Success(cur, w) =>
        var comma := ReadToken(doc, g.f, cur);
        if comma.typ !in {ObjectEnd, ArraySeparator, CommentToken} then
          FailAndRecover(doc, g, comma.end, WithMembers(v, m[n := w]), TokenError(comma, MissingCommaOrBrace), ObjectEnd)
        else
          var next := SkipComments(doc, g.f, cur);
          if next.typ == ObjectEnd then Success(next.end, WithMembers(v, m[n := w]))
          else ReadMembers(doc, g, depth, next.end, n, m[n := w], v)
  }

  function WithElems(v: Value, m: map<nat, Value>): Value {
    Value(Array(m), v.start, v.limit)
  }

  /** `readArray` after its bracket. */
  function ReadArray(doc: Bytes, g: Settings, depth: nat, i: nat, v: Value): (r: Read)
    requires i <= |doc|
    ensures InBounds(r, i, doc)
    decreases |doc| - i, 2
  {
    var j := SkipSpaces(doc, i);
    if j < |doc| && doc[j] == RBRACKET then Success(j + 1, WithElems(v, map[]))
    else ReadElements(doc, g, depth, j, 0, map[], v)
  }

  /** The loop of `readArray`: `m` holds the elements below `index`. */
  function ReadElements(doc: Bytes, g: Settings, depth: nat, i: nat, index: nat, m: map<nat, Value>, v: Value): (r: Read)
    requires i <= |doc|
    ensures InBounds(r, i, doc)
    decreases |doc| - i, 1
  {
    match ReadValue(doc, g, depth + 1, i, ElementAt(m, index))
    case Threw => Threw
    case Failure(cur, w, e) => FailAndRecover(doc, g, cur, WithElems(v, m[index := w]), e, ArrayEnd)
    case Success(cur, w) =>
      var t := SkipComments(doc, g.f, cur);
      if t.typ == ArraySeparator then ReadElements(doc, g, depth, t.end, index + 1, m[index := w], v)
      else if t.typ == ArrayEnd then Success(t.end, WithElems(v, m[index := w]))
      else FailAndRecover(doc, g, t.end, WithElems(v, m[index := w]), TokenError(t, MissingCommaOrBracket), ArrayEnd)
  }

  // How a whole `parse` ends.
  datatype Parsed =
    | Done(ok: bool, errors: seq<Error>, root: Value)
    | Thrown

  predicate IsContainer(v: Value) {
    v.payload.Array? || v.payload.Object?
  }

  /** `parse` of a document into `root`. */
  function Parse(doc: Bytes, g: Settings, root: Value): (r: Parsed) {
    match ReadValue(doc, g, 1, 0, root)
    case Threw => Thrown
    case Success(cur, v) => Finish(doc, g, cur, v, [])
    case Failure(cur, v, e) => Finish(doc, g, cur, v, [e])
  }

  /** The checks `parse` makes once the root has been read. */
  function Finish(doc: Bytes, g: Settings, cur: nat, v: Value, errors: seq<Error>): (r: Parsed)
    requires cur <= |doc|
  {
    var t := NextToken(doc, g.f, cur);
    if g.f.failIfExtra && (g.f.strictRoot || t.typ != ErrorToken) && t.typ != EndOfStream then
      Done(false, errors + [TokenError(t, ExtraAfterValue)], v)
    else if g.f.strictRoot && !IsContainer(v) then
      Done(false, errors + [TokenError(Token(ErrorToken, 0, |doc|), RootNotContainer)], v)
    else Done(errors == [], errors, v)
  }

  /**
    Error accounting over a whole run: a parse that does not throw returns true exactly when no
    error is recorded; however deep the failure and whatever recovery skips, the tree contributes
    at most one error and the two root checks at most one more.
   */
  lemma ErrorAccounting(doc: Bytes, g: Settings, root: Value)
    ensures var r := Parse(doc, g, root);
            r.Done? ==>
              && (r.ok <==> r.errors == [])
              && (!g.f.failIfExtra && !g.f.strictRoot ==> |r.errors| <= 1)
              && |r.errors| <= 2
              && (r.ok && g.f.strictRoot ==> IsContainer(r.root))
              && forall k :: 0 <= k < |r.errors| ==> LocatedIn(r.errors[k], doc)
  {
  }
}
