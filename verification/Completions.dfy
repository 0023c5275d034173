/**
  What the reader has read when it finds an error is the beginning of a text it accepts, and the message names
  what can come next: in front of the error's token the text can be completed, beginning with a value, a colon,
  a comma, a closing bracket or brace, or a name, as the message says.
 */
module Completions {
  import opened Basics
  import opened ErrorPlaces
  import opened Errors
  import opened GoingOn
  import opened Grammar
  import opened JsonStrings
  import opened Lexer
  import opened Prefixes
  import opened ReaderSpec
  import opened Roomier
  import opened Values
  import LR = LeftToRight
  import S = Spans

  // The messages

  predicate IsStringMessage(m: Message) {
    || m.EmptyEscape? || m.BadEscape? || m.FourDigitsExpected? || m.HexDigitExpected?
    || m.SixCharactersExpected? || m.SecondHalfExpected?
  }

  lemma {:induction false} DecodeMessages(s: Bytes, i: nat)
    requires i <= |s| && DecodeFrom(s, i).Bad?
    ensures IsStringMessage(DecodeFrom(s, i).message)
    decreases |s| - i
  {
    if s[i] != BACKSLASH {
      DecodeMessages(s, i + 1);
    } else if i + 1 < |s| {
      if s[i + 1] == LETTER_U {
        var d := DecodeCodePoint(s, i + 2);
        if d.CodePointAt? {
          DecodeMessages(s, d.next);
        }
      } else if EscapedByte(s[i + 1]).Some? {
        DecodeMessages(s, i + 2);
      }
    }
  }

  /**
    `y` begins with what the message says is missing: a value, a colon, a name and its colon, or either of the two
    it offers. A bad string or number, or a repeated key, is to be replaced by a value or by a name. At the end of
    the document the other thing to offer in place of a name, a closing brace, may be the only one: behind a comment
    the loop takes whatever comes next for a comma.
   */
  predicate Supplies(m: Message, comma: bool, atEnd: bool, y: Bytes) {
    match m
    case ValueExpected => [0x5B, 0x5D] <= y
    case MissingColon => [0x3A] <= y
    case MissingCommaOrBrace => [if comma then 0x2C else 0x7D] <= y
    case MissingCommaOrBracket => [if comma then 0x2C else 0x5D] <= y
    case MissingBraceOrName => [0x22, 0x61, 0x22, 0x3A] <= y || (atEnd && [0x7D] <= y)
    case DuplicateKey(_) => [0x22, 0x61, 0x22, 0x3A] <= y
    case _ => [0x5B, 0x5D] <= y || [0x22, 0x61, 0x22, 0x3A] <= y
  }

  lemma SuppliesMore(m: Message, comma: bool, atEnd: bool, y: Bytes, z: Bytes)
    requires Supplies(m, comma, atEnd, y) && Starts(y)
    ensures Supplies(m, comma, atEnd, y + z) && Starts(y + z) && (y + z)[0] == y[0]
  {
    assert y <= y + z;
  }

  // Completions of the parts of a text. In each, `k` is where the error is.

  predicate ValueDone(doc: Bytes, g: Settings, k: nat, y: Bytes, depth: nat, i: nat, other: Bytes, w: Value) {
    Extends(doc, k, y, other) ==> i <= |other| && Completed(ReadValue(other, Roomy(g), depth, i, w), k + |y|)
  }

  ghost predicate ValueFinishes(doc: Bytes, g: Settings, k: nat, y: Bytes, depth: nat, i: nat) {
    forall other: Bytes, w: Value :: ValueDone(doc, g, k, y, depth, i, other, w)
  }

  predicate ArrayDone(doc: Bytes, g: Settings, k: nat, y: Bytes, depth: nat, i: nat, other: Bytes, w: Value) {
    Extends(doc, k, y, other) ==> i <= |other| && Completed(ReadArray(other, Roomy(g), depth, i, w), k + |y|)
  }

  ghost predicate ArrayFinishes(doc: Bytes, g: Settings, k: nat, y: Bytes, depth: nat, i: nat) {
    forall other: Bytes, w: Value :: ArrayDone(doc, g, k, y, depth, i, other, w)
  }

  predicate ElementsDone(
      doc: Bytes, g: Settings, k: nat, y: Bytes, depth: nat, i: nat, index: nat, other: Bytes, m: map<nat, Value>, w: Value)
  {
    Extends(doc, k, y, other) ==> i <= |other| && Completed(ReadElements(other, Roomy(g), depth, i, index, m, w), k + |y|)
  }

  ghost predicate ElementsFinish(doc: Bytes, g: Settings, k: nat, y: Bytes, depth: nat, i: nat, index: nat) {
    forall other: Bytes, m: map<nat, Value>, w: Value :: ElementsDone(doc, g, k, y, depth, i, index, other, m, w)
  }

  predicate MembersDone(
      doc: Bytes, g: Settings, k: nat, y: Bytes, depth: nat, i: nat, name: Bytes, other: Bytes, m: map<Bytes, Value>, w: Value)
  {
    Extends(doc, k, y, other) ==> i <= |other| && Completed(ReadMembers(other, Roomy(g), depth, i, name, m, w), k + |y|)
  }

  ghost predicate MembersFinish(doc: Bytes, g: Settings, k: nat, y: Bytes, depth: nat, i: nat, name: Bytes) {
    forall other: Bytes, m: map<Bytes, Value>, w: Value :: MembersDone(doc, g, k, y, depth, i, name, other, m, w)
  }

  predicate MemberDone(
      doc: Bytes, g: Settings, k: nat, y: Bytes, depth: nat, t: Token, n: Bytes, other: Bytes, m: map<Bytes, Value>, w: Value)
    requires t.start < t.end
  {
    Extends(doc, k, y, other) ==> t.end <= |other| && Completed(ReadMember(other, Roomy(g), depth, t, n, m, w), k + |y|)
  }

  ghost predicate MemberFinishes(doc: Bytes, g: Settings, k: nat, y: Bytes, depth: nat, t: Token, n: Bytes)
    requires t.start < t.end
  {
    forall other: Bytes, m: map<Bytes, Value>, w: Value :: MemberDone(doc, g, k, y, depth, t, n, other, m, w)
  }

  predicate EndDone(
      doc: Bytes, g: Settings, k: nat, y: Bytes, depth: nat, cur: nat, n: Bytes, other: Bytes, m: map<Bytes, Value>, w: Value)
  {
    Extends(doc, k, y, other) ==> cur <= |other| && Completed(S.MemberEnd(other, Roomy(g), depth, cur, n, m, w), k + |y|)
  }

  ghost predicate EndFinishes(doc: Bytes, g: Settings, k: nat, y: Bytes, depth: nat, cur: nat, n: Bytes) {
    forall other: Bytes, m: map<Bytes, Value>, w: Value :: EndDone(doc, g, k, y, depth, cur, n, other, m, w)
  }

  /** A name is short enough to be a key. */
  predicate KeyFits(doc: Bytes, g: Settings, p: nat)
    requires p <= |doc|
  {
    var n := MemberName(doc, g, ReadToken(doc, g.f, p)); n.Named? ==> |n.name| < KEY_LIMIT
  }

  predicate KeysFit(doc: Bytes, g: Settings) {
    forall p: nat :: p <= |doc| ==> KeyFits(doc, g, p)
  }

  /** An error at `k`, and what must be so for the text in front of it to be completed. */
  predicate FailsAt(doc: Bytes, g: Settings, k: nat, i: nat, r: Read) {
    && r.Failure? && r.e.start == k && i <= k && Usable(doc, g.f, k) && Places(doc, g.f, k)(i)
    && (r.e.message.MissingColon? ==> KeysFit(doc, g))
  }

  // Values in front of the error

  lemma ValueOn(doc: Bytes, g: Settings, k: nat, other: Bytes, depth: nat, i: nat, v: Value, w: Value)
    requires Usable(doc, g.f, k) && BeginAlike(doc, other, k) && StopsAt(other, k) && i <= k && Places(doc, g.f, k)(i)
    requires ReadValue(doc, g, depth, i, v).Success? && ReadValue(doc, g, depth, i, v).cur <= k
    requires ReadValue(doc, g, depth, i, v).cur == k ==> k < |other| && other[k] in [COMMA, RBRACKET, RBRACE]
    ensures var r := ReadValue(other, Roomy(g), depth, i, w);
            r.Success? && r.cur == ReadValue(doc, g, depth, i, v).cur && Places(doc, g.f, k)(r.cur)
  {
    hide ReadValue, NextToken, ReadToken, Usable, BeginAlike, StopsAt, S.Carries, Erase, IsUnreadable, OnPath;
    var h := Roomy(g);
    RoomyValue(doc, g, depth, i, v);
    RoomyNext(doc, g, i);
    var r := ReadValue(doc, g, depth, i, v);
    if r.cur < k || !S.Drops(doc, h, i) {
      PlacesCarry(doc, g, k, other);
      S.ShiftValue(doc, h, 0, other, k, Places(doc, g.f, k), depth, depth, i, v, w);
    } else {
      DroppedOn(doc, g, k, other, depth, i, v, w);
    }
  }

  // A null is dropped right in front of the error, and in front of what stands there in the other document.
  lemma DroppedOn(doc: Bytes, g: Settings, k: nat, other: Bytes, depth: nat, i: nat, v: Value, w: Value)
    requires Usable(doc, g.f, k) && BeginAlike(doc, other, k) && StopsAt(other, k) && i <= k && Places(doc, g.f, k)(i)
    requires ReadValue(doc, g, depth, i, v).Success? && ReadValue(doc, g, depth, i, v).cur == k && S.Drops(doc, g, i)
    requires k < |other| && other[k] in [COMMA, RBRACKET, RBRACE]
    ensures var r := ReadValue(other, Roomy(g), depth, i, w); r.Success? && r.cur == k && Places(doc, g.f, k)(k)
  {
    hide NextToken, ReadToken, Usable, BeginAlike, StopsAt, ReadMembers, ReadArray, OnPath;
    var t := NextToken(doc, g.f, i);
    S.NextTokenLength(doc, g.f, i);
    S.DroppedScalar(doc, g, t, v);
    ReachNext(doc, other, g.f, k, i);
    RoomyNext(other, g, i);
    MarkAt(other, g.f, k);
    S.DroppedScalar(other, Roomy(g), NextToken(other, g.f, k), w);
    NextOnPath(doc, g.f, i);
    PlaceOn(doc, g.f, k, i, k);
  }

  // One step up

  lemma LeafFinishes(doc: Bytes, g: Settings, k: nat, depth: nat, i: nat)
    requires Usable(doc, g.f, k) && i <= k && Places(doc, g.f, k)(i) && NextToken(doc, g.f, i).start == k
    requires depth <= Roomy(g).f.stackLimit
    ensures ValueFinishes(doc, g, k, EMPTY_ARRAY, depth, i)
  {
    hide NextToken, ReadToken, Usable, BeginAlike, StopsAt, ReadMembers, ReadArray, ReadScalar, OnPath;
    var h := Roomy(g);
    forall other: Bytes, w: Value ensures ValueDone(doc, g, k, EMPTY_ARRAY, depth, i, other, w) {
      if Extends(doc, k, EMPTY_ARRAY, other) {
        ExtendsStops(doc, k, EMPTY_ARRAY, other);
        ReachNext(doc, other, g.f, k, i);
        RoomyNext(other, g, i);
        RoomyNext(other, g, k);
        EmptyArrayAt(other, h, depth, k, w);
        assert ReadValue(other, h, depth, i, w) == ReadValue(other, h, depth, k, w);
      }
    }
  }

  lemma ObjectFinishes(doc: Bytes, g: Settings, k: nat, y: Bytes, depth: nat, i: nat)
    requires Usable(doc, g.f, k) && i <= k && Places(doc, g.f, k)(i) && Starts(y) && depth <= Roomy(g).f.stackLimit
    requires NextToken(doc, g.f, i).typ == ObjectBegin && NextToken(doc, g.f, i).end <= k
    requires MembersFinish(doc, g, k, y, depth, NextToken(doc, g.f, i).end, [])
    ensures ValueFinishes(doc, g, k, y, depth, i)
  {
    hide NextToken, ReadToken, Usable, BeginAlike, StopsAt, ReadMembers, OnPath, Extends;
    var h, t := Roomy(g), NextToken(doc, g.f, i);
    forall other: Bytes, w: Value ensures ValueDone(doc, g, k, y, depth, i, other, w) {
      if Extends(doc, k, y, other) {
        ExtendsStops(doc, k, y, other);
        NextOver(doc, other, g.f, k, i);
        RoomyNext(other, g, i);
        assert MembersDone(doc, g, k, y, depth, t.end, [], other, map[], Value(w.payload, t.start, w.limit));
      }
    }
  }

  lemma ArrayValueFinishes(doc: Bytes, g: Settings, k: nat, y: Bytes, depth: nat, i: nat)
    requires Usable(doc, g.f, k) && i <= k && Places(doc, g.f, k)(i) && Starts(y) && depth <= Roomy(g).f.stackLimit
    requires NextToken(doc, g.f, i).typ == ArrayBegin && NextToken(doc, g.f, i).end <= k
    requires ArrayFinishes(doc, g, k, y, depth, NextToken(doc, g.f, i).end)
    ensures ValueFinishes(doc, g, k, y, depth, i)
  {
    hide NextToken, ReadToken, Usable, BeginAlike, StopsAt, ReadArray, OnPath, Extends;
    var h, t := Roomy(g), NextToken(doc, g.f, i);
    forall other: Bytes, w: Value ensures ValueDone(doc, g, k, y, depth, i, other, w) {
      if Extends(doc, k, y, other) {
        ExtendsStops(doc, k, y, other);
        NextOver(doc, other, g.f, k, i);
        RoomyNext(other, g, i);
        assert ArrayDone(doc, g, k, y, depth, t.end, other, Value(w.payload, t.start, w.limit));
      }
    }
  }

  // The first token of an array, in the document or at `k`, does not close it; or it is all there is.
  lemma ElementsToArray(doc: Bytes, g: Settings, k: nat, y: Bytes, depth: nat, i: nat)
    requires Usable(doc, g.f, k) && i <= k && Places(doc, g.f, k)(i) && Starts(y)
    requires ReadToken(doc, g.f, i).typ != ArrayEnd && ReadToken(doc, g.f, i).start <= k
    requires ReadToken(doc, g.f, i).start < k ==> ReadToken(doc, g.f, i).end <= k
    requires ReadToken(doc, g.f, i).start < k || y[0] != RBRACKET || y == [RBRACKET]
    requires ElementsFinish(doc, g, k, y, depth, i, 0)
    ensures ArrayFinishes(doc, g, k, y, depth, i)
  {
    hide NextToken, ReadToken, Usable, BeginAlike, StopsAt, ReadArray, ReadElements, OnPath, Extends;
    var h := Roomy(g);
    forall other: Bytes, w: Value ensures ArrayDone(doc, g, k, y, depth, i, other, w) {
      if Extends(doc, k, y, other) {
        ExtendsStops(doc, k, y, other);
        RoomyToken(other, g, i);
        S.ArrayByTokens(other, h, depth, i, w);
        assert ElementsDone(doc, g, k, y, depth, i, 0, other, map[], w);
        FirstOfArray(doc, g.f, k, y, other, i);
      }
    }
  }

  lemma FirstOfArray(doc: Bytes, f: Features, k: nat, y: Bytes, other: Bytes, i: nat)
    requires Usable(doc, f, k) && i <= k && Places(doc, f, k)(i) && Starts(y) && Extends(doc, k, y, other) && i <= |other|
    requires ReadToken(doc, f, i).typ != ArrayEnd && ReadToken(doc, f, i).start <= k
    requires ReadToken(doc, f, i).start < k ==> ReadToken(doc, f, i).end <= k
    requires ReadToken(doc, f, i).start < k || y[0] != RBRACKET || y == [RBRACKET]
    ensures ReadToken(other, f, i).typ == ArrayEnd ==> ReadToken(other, f, i).end == k + |y|
  {
    hide ReadToken, Usable, BeginAlike, StopsAt, OnPath;
    ExtendsStops(doc, k, y, other);
    if ReadToken(doc, f, i).start < k {
      LR.EndsOfInput(doc, f, i);
      TokenOver(doc, other, f, k, i);
    } else {
      ReachToken(doc, other, f, k, i);
      NoBracket(other, f, k);
    }
  }

  lemma NoBracket(other: Bytes, f: Features, k: nat)
    requires k < |other| && IsStop(other[k])
    ensures var t := ReadToken(other, f, k); t.typ == ArrayEnd ==> other[k] == RBRACKET && t.end == k + 1
  {
    hide ScanString, ScanComment, ScanNumber, Match;
  }

  /** The value of an element is completed; then the array is closed. */
  lemma ElementValueFinishes(doc: Bytes, g: Settings, k: nat, y: Bytes, depth: nat, i: nat, index: nat)
    requires i <= k && Starts(y) && ValueFinishes(doc, g, k, y, depth + 1, i)
    ensures ElementsFinish(doc, g, k, y + [RBRACKET], depth, i, index)
  {
    hide ReadValue, ReadToken, SkipComments, Extends, IsContainer;
    var h := Roomy(g);
    forall other: Bytes, m: map<nat, Value>, w: Value ensures ElementsDone(doc, g, k, y + [RBRACKET], depth, i, index, other, m, w) {
      if Extends(doc, k, y + [RBRACKET], other) {
        ExtendsFront(doc, k, y, [RBRACKET], other);
        assert ValueDone(doc, g, k, y, depth + 1, i, other, ElementAt(m, index));
        AtByte(other, k + |y|, [RBRACKET], 0);
        MarkAt(other, h.f, k + |y|);
        ArrayIsContainer(w, m[index := ReadValue(other, h, depth + 1, i, ElementAt(m, index)).v]);
      }
    }
  }

  lemma ArrayIsContainer(v: Value, m: map<nat, Value>)
    ensures IsContainer(WithElems(v, m))
  {
  }

  /** Behind an element whose value is read, the array is closed, or goes on with one more element. */
  lemma SeparatorFinishes(doc: Bytes, g: Settings, k: nat, comma: bool, depth: nat, i: nat, index: nat, x: Value)
    requires Usable(doc, g.f, k) && i <= k && Places(doc, g.f, k)(i) && k <= |doc|
    requires ReadValue(doc, g, depth + 1, i, x).Success? && ReadValue(doc, g, depth + 1, i, x).cur <= k
    requires SkipComments(doc, g.f, ReadValue(doc, g, depth + 1, i, x).cur).start == k
    requires depth + 1 <= Roomy(g).f.stackLimit
    ensures ElementsFinish(doc, g, k, if comma then ONE_MORE else [RBRACKET], depth, i, index)
  {
    hide ReadValue, ReadToken, SkipComments, Extends, Usable, BeginAlike, StopsAt, OnPath, ReadElements;
    var y: Bytes := if comma then ONE_MORE else [RBRACKET];
    var cur := ReadValue(doc, g, depth + 1, i, x).cur;
    forall other: Bytes, m: map<nat, Value>, w: Value ensures ElementsDone(doc, g, k, y, depth, i, index, other, m, w) {
      if Extends(doc, k, y, other) {
        ExtendsStops(doc, k, y, other);
        ExtendsIs(doc, k, y, other);
        ValueOn(doc, g, k, other, depth + 1, i, x, ElementAt(m, index));
        ReachSkip(doc, other, g.f, k, cur);
        RoomySkip(other, g, cur);
        RoomySkip(other, g, k);
        SeparatorAt(other, Roomy(g), depth, k, comma, i, index, m, w);
      }
    }
  }

  const ONE_MORE: Bytes := [COMMA, LBRACKET, RBRACKET, RBRACKET]

  lemma SeparatorAt(other: Bytes, h: Settings, depth: nat, k: nat, comma: bool, i: nat, index: nat, m: map<nat, Value>, w: Value)
    requires i <= |other| && At(other, k, if comma then ONE_MORE else [RBRACKET]) && depth + 1 <= h.f.stackLimit
    requires ReadValue(other, h, depth + 1, i, ElementAt(m, index)).Success?
    requires SkipComments(other, h.f, ReadValue(other, h, depth + 1, i, ElementAt(m, index)).cur) == SkipComments(other, h.f, k)
    ensures Completed(ReadElements(other, h, depth, i, index, m, w), if comma then k + 4 else k + 1)
  {
    hide ReadValue, ReadToken, SkipComments, At, IsContainer;
    var l := m[index := ReadValue(other, h, depth + 1, i, ElementAt(m, index)).v];
    if comma {
      OneMoreAt(other, h, depth, k, index + 1, l, w);
    } else {
      ByteAt(other, k, RBRACKET);
      MarkAt(other, h.f, k);
      ArrayIsContainer(w, l);
    }
  }

  lemma OneMoreAt(other: Bytes, h: Settings, depth: nat, k: nat, index: nat, l: map<nat, Value>, w: Value)
    requires At(other, k, ONE_MORE) && depth + 1 <= h.f.stackLimit
    ensures k + 4 <= |other| && SkipComments(other, h.f, k) == Token(ArraySeparator, k, k + 1)
    ensures Completed(ReadElements(other, h, depth, k + 1, index, l, w), k + 4)
  {
    hide ReadValue, ReadToken, SkipComments, At, IsContainer;
    OneMoreBytes(other, k);
    var x := ElementAt(l, index);
    MarkAt(other, h.f, k);
    EmptyArrayAt(other, h, depth + 1, k + 1, x);
    MarkAt(other, h.f, k + 3);
    ArrayIsContainer(w, l[index := ReadValue(other, h, depth + 1, k + 1, x).v]);
  }

  lemma OneMoreBytes(other: Bytes, k: nat)
    requires At(other, k, ONE_MORE)
    ensures k + 4 <= |other| && other[k] == COMMA && At(other, k + 1, EMPTY_ARRAY) && other[k + 3] == RBRACKET
  {
    AtByte(other, k, ONE_MORE, 0);
    AtByte(other, k, ONE_MORE, 3);
    assert ONE_MORE == [COMMA] + EMPTY_ARRAY + [RBRACKET];
    AtAppend(other, k, [COMMA] + EMPTY_ARRAY, [RBRACKET]);
    AtAppend(other, k, [COMMA], EMPTY_ARRAY);
  }

  lemma ElementsGoOn(doc: Bytes, g: Settings, k: nat, y: Bytes, depth: nat, i: nat, index: nat, x: Value)
    requires Usable(doc, g.f, k) && i <= k && Places(doc, g.f, k)(i) && Starts(y)
    requires ReadValue(doc, g, depth + 1, i, x).Success?
    requires var t := SkipComments(doc, g.f, ReadValue(doc, g, depth + 1, i, x).cur);
             t.typ == ArraySeparator && t.end <= k && ElementsFinish(doc, g, k, y, depth, t.end, index + 1)
    ensures ElementsFinish(doc, g, k, y, depth, i, index)
  {
    hide ReadValue, ReadToken, SkipComments, Extends, Usable, BeginAlike, StopsAt, OnPath;
    var cur := ReadValue(doc, g, depth + 1, i, x).cur;
    var t := SkipComments(doc, g.f, cur);
    forall other: Bytes, m: map<nat, Value>, w: Value ensures ElementsDone(doc, g, k, y, depth, i, index, other, m, w) {
      if Extends(doc, k, y, other) {
        ExtendsStops(doc, k, y, other);
        var z := ElementAt(m, index);
        ValueOn(doc, g, k, other, depth + 1, i, x, z);
        SkipOver(doc, other, g.f, k, cur);
        RoomySkip(other, g, cur);
        assert ElementsDone(doc, g, k, y, depth, t.end, index + 1, other, m[index := ReadValue(other, Roomy(g), depth + 1, i, z).v], w);
      }
    }
  }

  /** In place of what is no name a new member is read. */
  lemma NameFinishes(doc: Bytes, g: Settings, k: nat, depth: nat, i: nat, name: Bytes)
    requires Usable(doc, g.f, k) && i <= k && Places(doc, g.f, k)(i) && SkipComments(doc, g.f, i).start == k
    requires depth + 1 <= Roomy(g).f.stackLimit
    ensures MembersFinish(doc, g, k, NEW_MEMBER, depth, i, name)
  {
    hide ReadToken, SkipComments, Usable, BeginAlike, StopsAt, OnPath, Extends, MemberName, ReadMember;
    forall other: Bytes, m: map<Bytes, Value>, w: Value ensures MembersDone(doc, g, k, NEW_MEMBER, depth, i, name, other, m, w) {
      if Extends(doc, k, NEW_MEMBER, other) {
        ExtendsStops(doc, k, NEW_MEMBER, other);
        ExtendsIs(doc, k, NEW_MEMBER, other);
        ReachSkip(doc, other, g.f, k, i);
        RoomySkip(other, g, i);
        RoomySkip(other, g, k);
        NewMemberAt(other, Roomy(g), depth, k, name, m, w);
      }
    }
  }

  lemma ExtendsIs(doc: Bytes, k: nat, y: Bytes, other: Bytes)
    requires Extends(doc, k, y, other)
    ensures At(other, k, y)
  {
  }

  lemma MembersGoOn(doc: Bytes, g: Settings, k: nat, y: Bytes, depth: nat, i: nat, name: Bytes)
    requires Usable(doc, g.f, k) && i <= k && Places(doc, g.f, k)(i) && Starts(y)
    requires var t := SkipComments(doc, g.f, i);
             && t.start < t.end <= k && MemberName(doc, g, t).Named? && !(t.typ == ObjectEnd && name == [])
             && MemberFinishes(doc, g, k, y, depth, t, MemberName(doc, g, t).name)
    ensures MembersFinish(doc, g, k, y, depth, i, name)
  {
    hide ReadToken, SkipComments, Usable, StopsAt, OnPath, Extends, MemberName, ReadMember;
    var t := SkipComments(doc, g.f, i);
    forall other: Bytes, m: map<Bytes, Value>, w: Value ensures MembersDone(doc, g, k, y, depth, i, name, other, m, w) {
      if Extends(doc, k, y, other) {
        ExtendsStops(doc, k, y, other);
        SkipOver(doc, other, g.f, k, i);
        RoomySkip(other, g, i);
        LR.AlikeName(doc, g, other, k, t);
        RoomyScalar(other, g, t, w);
        assert MemberDone(doc, g, k, y, depth, t, MemberName(doc, g, t).name, other, m, w);
      }
    }
  }

  lemma ColonFinishes(doc: Bytes, g: Settings, k: nat, depth: nat, t: Token, n: Bytes)
    requires Usable(doc, g.f, k) && t.start < t.end <= k && Places(doc, g.f, k)(t.end) && ReadToken(doc, g.f, t.end).start == k
    requires depth + 1 <= Roomy(g).f.stackLimit && |n| < KEY_LIMIT
    ensures MemberFinishes(doc, g, k, NEW_MEMBER[3..], depth, t, n)
  {
    hide ReadToken, Usable, BeginAlike, StopsAt, OnPath, Extends, ReadMember;
    var y := NEW_MEMBER[3..];
    assert y[0] == COLON;
    forall other: Bytes, m: map<Bytes, Value>, w: Value ensures MemberDone(doc, g, k, y, depth, t, n, other, m, w) {
      if Extends(doc, k, y, other) {
        ExtendsStops(doc, k, y, other);
        ExtendsIs(doc, k, y, other);
        ReachToken(doc, other, g.f, k, t.end);
        RoomyToken(other, g, t.end);
        RoomyToken(other, g, k);
        ColonAt(other, Roomy(g), depth, k, t, n, m, w);
      }
    }
  }

  lemma ObjectIsContainer(v: Value, m: map<Bytes, Value>)
    ensures IsContainer(WithMembers(v, m))
  {
  }

  /** The value of a member is completed; then the object is closed. */
  lemma MemberValueFinishes(doc: Bytes, g: Settings, k: nat, y: Bytes, depth: nat, t: Token, n: Bytes)
    requires Usable(doc, g.f, k) && t.start < t.end <= k && Places(doc, g.f, k)(t.end) && Starts(y) && |n| < KEY_LIMIT
    requires ReadToken(doc, g.f, t.end).typ == MemberSeparator && ReadToken(doc, g.f, t.end).end <= k
    requires ValueFinishes(doc, g, k, y, depth + 1, ReadToken(doc, g.f, t.end).end)
    ensures MemberFinishes(doc, g, k, y + [RBRACE], depth, t, n)
  {
    hide ReadToken, ReadValue, Usable, BeginAlike, StopsAt, OnPath, Extends, ReadMember, IsContainer, At;
    var colon := ReadToken(doc, g.f, t.end);
    forall other: Bytes, m: map<Bytes, Value>, w: Value ensures MemberDone(doc, g, k, y + [RBRACE], depth, t, n, other, m, w) {
      if Extends(doc, k, y + [RBRACE], other) {
        ExtendsFront(doc, k, y, [RBRACE], other);
        ExtendsStops(doc, k, y, other);
        TokenOver(doc, other, g.f, k, t.end);
        RoomyToken(other, g, t.end);
        assert ValueDone(doc, g, k, y, depth + 1, colon.end, other, S.Current(m, n));
        ClosedBehind(other, Roomy(g), k + |y|, depth, t, n, m, w);
      }
    }
  }

  // Behind the colon a value ends at `e`, and there a brace closes the object.
  lemma ClosedBehind(other: Bytes, h: Settings, e: nat, depth: nat, t: Token, n: Bytes, m: map<Bytes, Value>, w: Value)
    requires t.start < t.end <= |other| && ReadToken(other, h.f, t.end).typ == MemberSeparator && |n| < KEY_LIMIT && !h.f.rejectDupKeys
    requires Completed(ReadValue(other, h, depth + 1, ReadToken(other, h.f, t.end).end, S.Current(m, n)), e) && At(other, e, [RBRACE])
    ensures Completed(ReadMember(other, h, depth, t, n, m, w), e + 1)
  {
    hide ReadToken, ReadValue, SkipComments, ReadMembers, ReadMember, S.MemberEnd, IsContainer;
    S.MemberGoesOn(other, h, depth, t, n, m, w);
    BraceAt(other, h, depth, e, e, n, m[n := ReadValue(other, h, depth + 1, ReadToken(other, h.f, t.end).end, S.Current(m, n)).v], w);
  }

  lemma MemberGoesOnFinishes(doc: Bytes, g: Settings, k: nat, y: Bytes, depth: nat, t: Token, n: Bytes, x: Value)
    requires Usable(doc, g.f, k) && t.start < t.end <= k && Places(doc, g.f, k)(t.end) && Starts(y) && |n| < KEY_LIMIT
    requires ReadToken(doc, g.f, t.end).typ == MemberSeparator && ReadToken(doc, g.f, t.end).end <= k
    requires var r := ReadValue(doc, g, depth + 1, ReadToken(doc, g.f, t.end).end, x);
             && r.Success? && r.cur <= k && (r.cur == k ==> y[0] in [COMMA, RBRACKET, RBRACE])
             && EndFinishes(doc, g, k, y, depth, r.cur, n)
    ensures MemberFinishes(doc, g, k, y, depth, t, n)
  {
    hide ReadToken, ReadValue, Usable, BeginAlike, StopsAt, OnPath, Extends, ReadMember, S.MemberEnd;
    var colon := ReadToken(doc, g.f, t.end);
    var cur := ReadValue(doc, g, depth + 1, colon.end, x).cur;
    forall other: Bytes, m: map<Bytes, Value>, w: Value ensures MemberDone(doc, g, k, y, depth, t, n, other, m, w) {
      if Extends(doc, k, y, other) {
        ExtendsStops(doc, k, y, other);
        TokenOver(doc, other, g.f, k, t.end);
        RoomyToken(other, g, t.end);
        ValueOn(doc, g, k, other, depth + 1, colon.end, x, S.Current(m, n));
        S.MemberGoesOn(other, Roomy(g), depth, t, n, m, w);
        assert EndDone(doc, g, k, y, depth, cur, n, other, m[n := ReadValue(other, Roomy(g), depth + 1, colon.end, S.Current(m, n)).v], w);
      }
    }
  }

  /** Behind a member, the object is closed, or goes on with one more member. */
  lemma CommaFinishes(doc: Bytes, g: Settings, k: nat, comma: bool, depth: nat, cur: nat, n: Bytes)
    requires Usable(doc, g.f, k) && cur <= k && Places(doc, g.f, k)(cur) && ReadToken(doc, g.f, cur).start == k
    requires depth + 1 <= Roomy(g).f.stackLimit
    ensures EndFinishes(doc, g, k, if comma then [COMMA] + NEW_MEMBER else [RBRACE], depth, cur, n)
  {
    hide ReadToken, SkipComments, Usable, BeginAlike, StopsAt, OnPath, Extends, S.MemberEnd;
    var y: Bytes := if comma then [COMMA] + NEW_MEMBER else [RBRACE];
    var h := Roomy(g);
    forall other: Bytes, m: map<Bytes, Value>, w: Value ensures EndDone(doc, g, k, y, depth, cur, n, other, m, w) {
      if Extends(doc, k, y, other) {
        ExtendsStops(doc, k, y, other);
        ExtendsIs(doc, k, y, other);
        ReachToken(doc, other, g.f, k, cur);
        RoomyToken(other, g, cur);
        RoomyToken(other, g, k);
        if comma {
          CommaAt(other, h, depth, k, cur, n, m, w);
        } else {
          BraceAt(other, h, depth, k, cur, n, m, w);
        }
      }
    }
  }

  lemma CommaAt(other: Bytes, h: Settings, depth: nat, k: nat, cur: nat, n: Bytes, m: map<Bytes, Value>, w: Value)
    requires At(other, k, [COMMA] + NEW_MEMBER) && depth + 1 <= h.f.stackLimit && !h.f.rejectDupKeys
    requires cur <= |other| && k <= |other| && ReadToken(other, h.f, cur) == ReadToken(other, h.f, k)
    ensures Completed(S.MemberEnd(other, h, depth, cur, n, m, w), k + 8)
  {
    hide ReadToken, SkipComments, ReadMembers, At, IsContainer;
    AtAppend(other, k, [COMMA], NEW_MEMBER);
    ByteAt(other, k, COMMA);
    MarkAt(other, h.f, k);
    SameSkip(other, h.f, cur, k);
    NewMemberAt(other, h, depth, k + 1, n, m, w);
  }

  lemma BraceAt(other: Bytes, h: Settings, depth: nat, k: nat, cur: nat, n: Bytes, m: map<Bytes, Value>, w: Value)
    requires At(other, k, [RBRACE])
    requires cur <= |other| && k <= |other| && ReadToken(other, h.f, cur) == ReadToken(other, h.f, k)
    ensures Completed(S.MemberEnd(other, h, depth, cur, n, m, w), k + 1)
  {
    hide ReadToken, SkipComments, ReadMembers, At, IsContainer;
    ByteAt(other, k, RBRACE);
    MarkAt(other, h.f, k);
    SameSkip(other, h.f, cur, k);
    ObjectIsContainer(w, m);
  }

  lemma ByteAt(other: Bytes, k: nat, b: Byte)
    requires At(other, k, [b])
    ensures k < |other| && other[k] == b
  {
    AtByte(other, k, [b], 0);
  }

  lemma SameSkip(doc: Bytes, f: Features, i: nat, j: nat)
    requires i <= |doc| && j <= |doc| && ReadToken(doc, f, i) == ReadToken(doc, f, j)
    ensures SkipComments(doc, f, i) == SkipComments(doc, f, j)
  {
    hide ReadToken;
  }

  lemma EndGoesOn(doc: Bytes, g: Settings, k: nat, y: Bytes, depth: nat, cur: nat, n: Bytes)
    requires Usable(doc, g.f, k) && cur <= k && Places(doc, g.f, k)(cur) && Starts(y)
    requires ReadToken(doc, g.f, cur).typ in {ObjectEnd, ArraySeparator, CommentToken}
    requires var next := SkipComments(doc, g.f, cur);
             next.start < next.end <= k && next.typ != ObjectEnd && MembersFinish(doc, g, k, y, depth, next.end, n)
    ensures EndFinishes(doc, g, k, y, depth, cur, n)
  {
    hide ReadToken, SkipComments, Usable, BeginAlike, StopsAt, OnPath, Extends, ReadMembers;
    var next := SkipComments(doc, g.f, cur);
    S.SkipCommentsPast(doc, g.f, cur);
    forall other: Bytes, m: map<Bytes, Value>, w: Value ensures EndDone(doc, g, k, y, depth, cur, n, other, m, w) {
      if Extends(doc, k, y, other) {
        ExtendsStops(doc, k, y, other);
        TokenOver(doc, other, g.f, k, cur);
        SkipOver(doc, other, g.f, k, cur);
        RoomyToken(other, g, cur);
        RoomySkip(other, g, cur);
        assert MembersDone(doc, g, k, y, depth, next.end, n, other, m, w);
      }
    }
  }

  // Behind the value stand comments, and then the document ends.
  lemma EndAtEnd(doc: Bytes, g: Settings, k: nat, depth: nat, cur: nat, n: Bytes)
    requires Usable(doc, g.f, k) && cur <= k && Places(doc, g.f, k)(cur)
    requires ReadToken(doc, g.f, cur).typ == CommentToken && ReadToken(doc, g.f, cur).end <= k && SkipComments(doc, g.f, cur).start == k
    ensures EndFinishes(doc, g, k, [RBRACE], depth, cur, n)
  {
    hide ReadToken, SkipComments, Usable, BeginAlike, StopsAt, OnPath, Extends, ReadMembers;
    var h := Roomy(g);
    var y: Bytes := [RBRACE];
    forall other: Bytes, m: map<Bytes, Value>, w: Value ensures EndDone(doc, g, k, y, depth, cur, n, other, m, w) {
      if Extends(doc, k, y, other) {
        ExtendsStops(doc, k, y, other);
        TokenOver(doc, other, g.f, k, cur);
        ReachSkip(doc, other, g.f, k, cur);
        RoomyToken(other, g, cur);
        RoomySkip(other, g, cur);
        RoomySkip(other, g, k);
        MarkAt(other, h.f, k);
        ObjectIsContainer(w, m);
      }
    }
  }

  // Recovery

  /** Where the reader is when, from `i` on, it has looked for the ends of these containers, one after the other. */
  function Resumes(doc: Bytes, f: Features, open: seq<TokenType>, i: nat): (j: nat)
    requires i <= |doc|
    ensures i <= j <= |doc|
  {
    if open == [] then i else Resumes(doc, f, open[1..], Recover(doc, f, i, open[0]))
  }

  function EndMark(t: TokenType): Byte {
    if t.ArrayEnd? then 0x5D else 0x7D
  }

  function EndMarks(open: seq<TokenType>): Bytes {
    seq(|open|, i requires 0 <= i < |open| => EndMark(open[i]))
  }

  /**
    The containers `open`, from the innermost, are those the error has left open: their ends are what the completion
    ends with, and what recovery looks for, from where the error was noticed.
   */
  predicate Reopens(doc: Bytes, f: Features, r: Read, open: seq<TokenType>, y: Bytes) {
    && r.Failure? && r.e.limit <= |doc| && r.cur == Resumes(doc, f, open, LR.Seen(doc, f, r.e))
    && |open| <= |y| && y[|y| - |open|..] == EndMarks(open)
  }

  lemma {:induction false} ResumesOnce(doc: Bytes, f: Features, open: seq<TokenType>, i: nat, t: TokenType)
    requires i <= |doc|
    ensures Resumes(doc, f, open + [t], i) == Recover(doc, f, Resumes(doc, f, open, i), t)
    decreases |open|
  {
    hide Recover;
    var all := open + [t];
    if open == [] {
      assert all[1..] == [];
      assert Resumes(doc, f, all[1..], Recover(doc, f, i, t)) == Recover(doc, f, i, t);
    } else {
      assert all[1..] == open[1..] + [t];
      ResumesOnce(doc, f, open[1..], Recover(doc, f, i, open[0]), t);
    }
  }

  // One container further out.
  lemma ReopensOut(doc: Bytes, f: Features, r: Read, s: Read, open: seq<TokenType>, y: Bytes, t: TokenType)
    requires Reopens(doc, f, r, open, y) && r.cur <= |doc| && s.Failure? && s.e == r.e && s.cur == Recover(doc, f, r.cur, t)
    ensures Reopens(doc, f, s, open + [t], y + [EndMark(t)])
  {
    hide Recover, Resumes, LR.Seen;
    ResumesOnce(doc, f, open, LR.Seen(doc, f, r.e), t);
    assert EndMarks(open + [t]) == EndMarks(open) + [EndMark(t)];
    var z := y + [EndMark(t)];
    assert z[|z| - (|open| + 1)..] == y[|y| - |open|..] + [EndMark(t)];
  }

  // The error is between the parts of a container.
  lemma ReopensHere(doc: Bytes, f: Features, r: Read, t: TokenType, y: Bytes)
    requires r.Failure? && r.e.limit <= |doc| && r.cur == Recover(doc, f, LR.Seen(doc, f, r.e), t)
    requires y != [] && y[|y| - 1] == EndMark(t)
    ensures Reopens(doc, f, r, [t], y)
  {
    hide Recover;
    assert [t][1..] == [];
    assert Resumes(doc, f, [], r.cur) == r.cur;
    assert y[|y| - 1..] == [y[|y| - 1]];
  }

  lemma ScalarReopens(doc: Bytes, g: Settings, t: Token, v: Value, y: Bytes)
    requires t.start <= t.end <= |doc| && (t.typ == StringToken ==> t.start + 2 <= t.end)
    requires ReadScalar(doc, g, t, v).Failure? && t.typ != ObjectBegin && t.typ != ArrayBegin
    ensures Reopens(doc, g.f, ReadScalar(doc, g, t, v), [], y)
  {
    hide DecodeFrom, DecodeNumber, ReadToken;
    if t.typ == StringToken {
      DecodeMessages(TokenBody(doc, t), 0);
    }
    assert y[|y|..] == [];
  }

  // The induction

  /** `y` completes what the error `e` breaks off. */
  predicate Answers(doc: Bytes, e: Error, comma: bool, y: Bytes) {
    Starts(y) && Supplies(e.message, comma, e.start == |doc|, y)
  }

  lemma AnswersStart(doc: Bytes, e: Error, comma: bool, y: Bytes)
    requires Answers(doc, e, comma, y)
    ensures Starts(y)
  {
  }

  /** A value or a name is put in place of a string or a number that is bad, or of nothing. */
  lemma ValueAnswers(doc: Bytes, g: Settings, t: Token, v: Value, comma: bool)
    requires t.start <= t.end <= |doc| && (t.typ == StringToken ==> t.start + 2 <= t.end)
    requires ReadScalar(doc, g, t, v).Failure? && t.typ != ObjectBegin && t.typ != ArrayBegin
    ensures Answers(doc, ReadScalar(doc, g, t, v).e, comma, EMPTY_ARRAY)
  {
    hide DecodeFrom, DecodeNumber;
    if t.typ == StringToken {
      DecodeMessages(TokenBody(doc, t), 0);
    }
  }

  lemma NameAnswers(doc: Bytes, g: Settings, t: Token, comma: bool)
    requires t.start <= t.end <= |doc| && (t.typ == StringToken ==> t.start + 2 <= t.end) && MemberName(doc, g, t).BadName?
    ensures Answers(doc, MemberName(doc, g, t).e, comma, NEW_MEMBER)
    ensures var e := MemberName(doc, g, t).e; e.start == t.start && e.limit == t.end && !e.message.DuplicateKey?
  {
    hide DecodeFrom, DecodeNumber;
    assert [0x22, 0x61, 0x22, 0x3A] <= NEW_MEMBER;
    if t.typ == StringToken {
      DecodeMessages(TokenBody(doc, t), 0);
    }
  }

  lemma {:induction false} ValueCompletes(
      doc: Bytes, g: Settings, k: nat, depth: nat, i: nat, v: Value, comma: bool)
    returns (y: Bytes, open: seq<TokenType>)
    requires i <= |doc| && FailsAt(doc, g, k, i, ReadValue(doc, g, depth, i, v))
    ensures Answers(doc, ReadValue(doc, g, depth, i, v).e, comma, y) && ValueFinishes(doc, g, k, y, depth, i)
    ensures Reopens(doc, g.f, ReadValue(doc, g, depth, i, v), open, y)
    ensures y[0] == LBRACKET || ReadToken(doc, g.f, i).start < k
    decreases |doc| - i, 0
  {
    hide NextToken, ReadMembers, ReadArray, ReadScalar, ReadToken, OnPath, IsTokenError, Explains, Usable, Places, KeysFit;
    hide ValueFinishes, ArrayFinishes, MembersFinish, Supplies;
    var t := NextToken(doc, g.f, i);
    var w := Value(v.payload, t.start, v.limit);
    NextOnPath(doc, g.f, i);
    FirstInNext(doc, g.f, i);
    if t.typ == ObjectBegin {
      MembersKeep(doc, g, depth, t.end, [], map[], w);
      PlaceOn(doc, g.f, k, i, t.end);
      y, open := MembersComplete(doc, g, k, depth, t.end, [], map[], w, comma);
      ObjectFinishes(doc, g, k, y, depth, i);
    } else if t.typ == ArrayBegin {
      ArrayKeeps(doc, g, depth, t.end, w);
      PlaceOn(doc, g.f, k, i, t.end);
      y, open := ArrayCompletes(doc, g, k, depth, t.end, w, comma);
      ArrayValueFinishes(doc, g, k, y, depth, i);
    } else {
      y := EMPTY_ARRAY;
      ScalarExplained(doc, g, t, v);
      ValueAnswers(doc, g, t, v, comma);
      open := [];
      ScalarReopens(doc, g, t, v, y);
      LeafFinishes(doc, g, k, depth, i);
    }
  }

  /** The first token is not behind the first that is no comment. */
  lemma FirstInNext(doc: Bytes, f: Features, i: nat)
    requires i <= |doc|
    ensures ReadToken(doc, f, i).start <= NextToken(doc, f, i).start
  {
    hide ReadToken;
  }

  lemma {:induction false} ArrayCompletes(
      doc: Bytes, g: Settings, k: nat, depth: nat, i: nat, v: Value, comma: bool)
    returns (y: Bytes, open: seq<TokenType>)
    requires i <= |doc| && FailsAt(doc, g, k, i, ReadArray(doc, g, depth, i, v))
    ensures Answers(doc, ReadArray(doc, g, depth, i, v).e, comma, y) && ArrayFinishes(doc, g, k, y, depth, i)
    ensures Reopens(doc, g.f, ReadArray(doc, g, depth, i, v), open, y)
    decreases |doc| - i, 2
  {
    hide ReadArray, ReadElements, ReadToken, OnPath, IsTokenError, Usable, Places, KeysFit, Reopens, ArrayFinishes;
    hide ElementsFinish, Supplies;
    ArrayKeeps(doc, g, depth, i, v);
    S.ArrayByTokens(doc, g, depth, i, v);
    y, open := ElementsComplete(doc, g, k, depth, i, 0, map[], v, comma);
    TokenAtError(doc, g, ReadArray(doc, g, depth, i, v).e, k);
    FirstOnPath(doc, g.f, i, k);
    ElementsToArray(doc, g, k, y, depth, i);
  }

  lemma TokenAtError(doc: Bytes, g: Settings, e: Error, k: nat)
    requires IsTokenError(doc, g, e) && e.start == k
    ensures k <= |doc| && ReadToken(doc, g.f, k).start == k
  {
    hide ReadToken, Explains;
  }

  lemma FirstOnPath(doc: Bytes, f: Features, i: nat, k: nat)
    requires i <= k <= |doc| && OnPath(doc, f, i, k) && ReadToken(doc, f, k).start == k
    ensures var t := ReadToken(doc, f, i); t.start <= k && (t.start < k ==> t.end <= k)
  {
    hide ReadToken;
  }

  lemma {:induction false} ElementsComplete(
      doc: Bytes, g: Settings, k: nat, depth: nat, i: nat, index: nat, m: map<nat, Value>, v: Value, comma: bool)
    returns (y: Bytes, open: seq<TokenType>)
    requires i <= |doc| && FailsAt(doc, g, k, i, ReadElements(doc, g, depth, i, index, m, v))
    ensures Answers(doc, ReadElements(doc, g, depth, i, index, m, v).e, comma, y) && ElementsFinish(doc, g, k, y, depth, i, index)
    ensures Reopens(doc, g.f, ReadElements(doc, g, depth, i, index, m, v), open, y)
    ensures ReadToken(doc, g.f, i).start < k || y[0] != RBRACKET || y == [RBRACKET]
    decreases |doc| - i, 1
  {
    hide ReadValue, SkipComments, ReadToken, OnPath, IsTokenError, Usable, Places, KeysFit, Reopens, ElementsFinish;
    hide ValueFinishes, Supplies, Recover;
    var x := ElementAt(m, index);
    var r := ReadValue(doc, g, depth + 1, i, x);
    if r.Success? {
      ValueKeeps(doc, g, depth + 1, i, x);
      DepthRead(doc, g, depth + 1, i, x);
      var t := SkipComments(doc, g.f, r.cur);
      SkipOnPath(doc, g.f, r.cur);
      if t.typ == ArraySeparator {
        var next := m[index := r.v];
        ElementsKeep(doc, g, depth, t.end, index + 1, next, v);
        PathsJoin(doc, g.f, i, r.cur, t.start);
        PathsJoin(doc, g.f, i, r.cur, t.end);
        PlaceOn(doc, g.f, k, i, t.end);
        y, open := ElementsComplete(doc, g, k, depth, t.end, index + 1, next, v, comma);
        ElementsGoOn(doc, g, k, y, depth, i, index, x);
        FirstOnPath(doc, g.f, i, t.start);
      } else {
        y := if comma then ONE_MORE else [RBRACKET];
        BracketAnswers(doc, TokenError(t, MissingCommaOrBracket), comma);
        open := [ArrayEnd];
        ReopensHere(doc, g.f, ReadElements(doc, g, depth, i, index, m, v), ArrayEnd, y);
        SeparatorFinishes(doc, g, k, comma, depth, i, index, x);
      }
    } else {
      var z, inner := ValueCompletes(doc, g, k, depth + 1, i, x, comma);
      y := z + [RBRACKET];
      SuppliesMore(r.e.message, comma, k == |doc|, z, [RBRACKET]);
      open := inner + [ArrayEnd];
      ReopensOut(doc, g.f, r, ReadElements(doc, g, depth, i, index, m, v), inner, z, ArrayEnd);
      ElementValueFinishes(doc, g, k, z, depth, i, index);
    }
  }

  lemma DepthRead(doc: Bytes, g: Settings, depth: nat, i: nat, v: Value)
    requires i <= |doc| && !ReadValue(doc, g, depth, i, v).Threw?
    ensures depth <= g.f.stackLimit
  {
    hide NextToken, ReadMembers, ReadArray, ReadScalar;
  }

  lemma BracketAnswers(doc: Bytes, e: Error, comma: bool)
    requires e.message == MissingCommaOrBracket
    ensures Answers(doc, e, comma, if comma then ONE_MORE else [RBRACKET])
  {
    assert [0x2C] <= ONE_MORE;
  }

  lemma {:induction false} MembersComplete(
      doc: Bytes, g: Settings, k: nat, depth: nat, i: nat, name: Bytes, m: map<Bytes, Value>, v: Value, comma: bool)
    returns (y: Bytes, open: seq<TokenType>)
    requires i <= |doc| && FailsAt(doc, g, k, i, ReadMembers(doc, g, depth, i, name, m, v)) && depth <= g.f.stackLimit
    ensures Answers(doc, ReadMembers(doc, g, depth, i, name, m, v).e, comma, y) && MembersFinish(doc, g, k, y, depth, i, name)
    ensures Reopens(doc, g.f, ReadMembers(doc, g, depth, i, name, m, v), open, y)
    decreases |doc| - i, 1
  {
    hide SkipComments, ReadMember, ReadToken, OnPath, IsTokenError, Usable, Places, KeysFit, Reopens, MembersFinish;
    hide MemberFinishes, Supplies, Answers, EndMark, IsUnreadable, ReadValue, ReadScalar, LR.Seen;
    hide MemberName, Recover, Starts;
    var t := SkipComments(doc, g.f, i);
    SkipOnPath(doc, g.f, i);
    if !MemberName(doc, g, t).Named? {
      y := NEW_MEMBER;
      NoNameFails(doc, g, depth, i, name, m, v, comma);
      open := [ObjectEnd];
      NameFinishes(doc, g, k, depth, i, name);
    } else {
      var n := MemberName(doc, g, t).name;
      MemberKeeps(doc, g, depth, t, n, m, v);
      if k == t.start {
        y := NEW_MEMBER;
        open := [ObjectEnd];
        KeyRepeats(doc, g, depth, t, n, m, v, comma);
        NameFinishes(doc, g, k, depth, i, name);
      } else {
        PlaceOn(doc, g.f, k, i, t.end);
        y, open := MemberCompletes(doc, g, k, depth, t, n, m, v, comma);
        AnswersStart(doc, ReadMember(doc, g, depth, t, n, m, v).e, comma, y);
        MembersGoOn(doc, g, k, y, depth, i, name);
      }
    }
  }

  // A repeated key is the only error at the name that is found behind it.
  lemma KeyRepeats(doc: Bytes, g: Settings, depth: nat, t: Token, n: Bytes, m: map<Bytes, Value>, v: Value, comma: bool)
    requires t.start < t.end <= |doc| && ReadMember(doc, g, depth, t, n, m, v).Failure?
    requires KeepsMemberPath(doc, g, t, ReadMember(doc, g, depth, t, n, m, v)) && ReadMember(doc, g, depth, t, n, m, v).e.start == t.start
    ensures var r := ReadMember(doc, g, depth, t, n, m, v);
            Reopens(doc, g.f, r, [ObjectEnd], NEW_MEMBER) && Answers(doc, r.e, comma, NEW_MEMBER)
  {
    hide Reopens, Answers, ReadToken, ReadValue, ReadMembers, SkipComments, S.MemberEnd, OnPath, IsTokenError, Recover;
    var colon := ReadToken(doc, g.f, t.end);
    if colon.typ == MemberSeparator && !(g.f.rejectDupKeys && n in m) {
      var r := ReadValue(doc, g, depth + 1, colon.end, S.Current(m, n));
      ValueKeeps(doc, g, depth + 1, colon.end, S.Current(m, n));
      if r.Success? {
        S.MemberGoesOn(doc, g, depth, t, n, m, v);
        LR.EndSeen(doc, g, depth, r.cur, n, m[n := r.v], v);
        S.SkipCommentsPast(doc, g.f, r.cur);
      }
      assert false;
    } else {
      var r := ReadMember(doc, g, depth, t, n, m, v);
      NoNameAnswers(doc, r.e, comma);
      ReopensHere(doc, g.f, r, ObjectEnd, NEW_MEMBER);
    }
  }

  lemma NoNameFails(doc: Bytes, g: Settings, depth: nat, i: nat, name: Bytes, m: map<Bytes, Value>, v: Value, comma: bool)
    requires i <= |doc| && ReadMembers(doc, g, depth, i, name, m, v).Failure? && !MemberName(doc, g, SkipComments(doc, g.f, i)).Named?
    ensures var e := ReadMembers(doc, g, depth, i, name, m, v).e;
            e.start == SkipComments(doc, g.f, i).start && Answers(doc, e, comma, NEW_MEMBER)
    ensures Reopens(doc, g.f, ReadMembers(doc, g, depth, i, name, m, v), [ObjectEnd], NEW_MEMBER)
  {
    hide SkipComments, ReadMember, MemberName, Recover, Supplies, Starts, Reopens, Answers;
    var t := SkipComments(doc, g.f, i);
    match MemberName(doc, g, t) {
      case NoName => NoNameAnswers(doc, TokenError(t, MissingBraceOrName), comma);
      case BadName(e) => NameAnswers(doc, g, t, comma);
    }
    ReopensHere(doc, g.f, ReadMembers(doc, g, depth, i, name, m, v), ObjectEnd, NEW_MEMBER);
  }

  lemma NoNameAnswers(doc: Bytes, e: Error, comma: bool)
    requires e.message == MissingBraceOrName || e.message.DuplicateKey?
    ensures Answers(doc, e, comma, NEW_MEMBER)
  {
    assert [0x22, 0x61, 0x22, 0x3A] <= NEW_MEMBER;
  }

  lemma {:induction false} MemberCompletes(
      doc: Bytes, g: Settings, k: nat, depth: nat, t: Token, n: Bytes, m: map<Bytes, Value>, v: Value, comma: bool)
    returns (y: Bytes, open: seq<TokenType>)
    requires t.start < t.end <= |doc| && FailsAt(doc, g, k, t.end, ReadMember(doc, g, depth, t, n, m, v)) && depth <= g.f.stackLimit
    requires (t.typ == StringToken ==> t.start + 2 <= t.end) && ReadToken(doc, g.f, t.start) == t && MemberName(doc, g, t) == Named(n)
    ensures Answers(doc, ReadMember(doc, g, depth, t, n, m, v).e, comma, y) && MemberFinishes(doc, g, k, y, depth, t, n)
    ensures Reopens(doc, g.f, ReadMember(doc, g, depth, t, n, m, v), open, y)
    decreases |doc| - t.end, 3
  {
    hide ReadToken, ReadValue, SkipComments, OnPath, IsTokenError, Usable, Places, KeysFit, Reopens, MemberFinishes;
    hide Supplies, Recover, ReadMembers;
    hide S.MemberEnd, ValueFinishes, EndFinishes, Starts, MemberName;
    var colon := ReadToken(doc, g.f, t.end);
    TokenEndOnPath(doc, g.f, t.end);
    if colon.typ != MemberSeparator {
      y := NEW_MEMBER[3..];
      ColonAnswers(doc, TokenError(colon, MissingColon), comma);
      open := [ObjectEnd];
      ReopensHere(doc, g.f, ReadMember(doc, g, depth, t, n, m, v), ObjectEnd, y);
      ShortKey(doc, g, t, n);
      ColonFinishes(doc, g, k, depth, t, n);
    } else {
      var x := S.Current(m, n);
      var r := ReadValue(doc, g, depth + 1, colon.end, x);
      ValueKeeps(doc, g, depth + 1, colon.end, x);
      if r.Success? {
        S.MemberGoesOn(doc, g, depth, t, n, m, v);
        LR.EndSeen(doc, g, depth, r.cur, n, m[n := r.v], v);
        S.SkipCommentsPast(doc, g.f, r.cur);
        PlaceOn(doc, g.f, k, t.end, colon.end);
        PlaceOn(doc, g.f, k, colon.end, r.cur);
        y, open := EndCompletes(doc, g, k, depth, r.cur, n, m[n := r.v], v, comma);
        MemberGoesOnFinishes(doc, g, k, y, depth, t, n, x);
      } else {
        PlaceOn(doc, g.f, k, t.end, colon.end);
        var z, inner := ValueCompletes(doc, g, k, depth + 1, colon.end, x, comma);
        y := z + [RBRACE];
        SuppliesMore(r.e.message, comma, k == |doc|, z, [RBRACE]);
        open := inner + [ObjectEnd];
        ReopensOut(doc, g.f, r, ReadMember(doc, g, depth, t, n, m, v), inner, z, ObjectEnd);
        MemberValueFinishes(doc, g, k, z, depth, t, n);
      }
    }
  }

  lemma ColonAnswers(doc: Bytes, e: Error, comma: bool)
    requires e.message == MissingColon
    ensures Answers(doc, e, comma, NEW_MEMBER[3..])
  {
    assert NEW_MEMBER[3..] == [COLON, LBRACKET, RBRACKET, RBRACE];
    assert [0x3A] <= NEW_MEMBER[3..];
  }

  lemma ShortKey(doc: Bytes, g: Settings, t: Token, n: Bytes)
    requires KeysFit(doc, g) && t.start <= t.end <= |doc| && (t.typ == StringToken ==> t.start + 2 <= t.end)
    requires ReadToken(doc, g.f, t.start) == t && MemberName(doc, g, t) == Named(n)
    ensures |n| < KEY_LIMIT
  {
    hide ReadToken, MemberName;
    assert KeyFits(doc, g, t.start);
  }

  lemma {:induction false} EndCompletes(
      doc: Bytes, g: Settings, k: nat, depth: nat, cur: nat, n: Bytes, m: map<Bytes, Value>, v: Value, comma: bool)
    returns (y: Bytes, open: seq<TokenType>)
    requires cur <= |doc| && FailsAt(doc, g, k, cur, S.MemberEnd(doc, g, depth, cur, n, m, v)) && depth <= g.f.stackLimit
    ensures Answers(doc, S.MemberEnd(doc, g, depth, cur, n, m, v).e, comma, y) && EndFinishes(doc, g, k, y, depth, cur, n)
    ensures Reopens(doc, g.f, S.MemberEnd(doc, g, depth, cur, n, m, v), open, y)
    ensures k == cur ==> y[0] in [COMMA, RBRACKET, RBRACE]
    decreases |doc| - cur, 2
  {
    hide ReadToken, SkipComments, OnPath, IsTokenError, Usable, Places, KeysFit, Reopens, Supplies, Recover;
    hide ReadMembers, EndFinishes, MembersFinish, Answers, EndMark, ReadValue, ReadScalar, LR.Seen, Starts;
    var first, next := ReadToken(doc, g.f, cur), SkipComments(doc, g.f, cur);
    LR.EndSeen(doc, g, depth, cur, n, m, v);
    SkipOnPath(doc, g.f, cur);
    S.SkipCommentsPast(doc, g.f, cur);
    if first.typ !in {ObjectEnd, ArraySeparator, CommentToken} {
      y := if comma then [COMMA] + NEW_MEMBER else [RBRACE];
      open := [ObjectEnd];
      CommaMissing(doc, g, depth, cur, n, m, v, comma);
      CommaFinishes(doc, g, k, comma, depth, cur, n);
    } else if next.start < next.end {
      PlaceOn(doc, g.f, k, cur, next.end);
      y, open := MembersComplete(doc, g, k, depth, next.end, n, m, v, comma);
      AnswersStart(doc, S.MemberEnd(doc, g, depth, cur, n, m, v).e, comma, y);
      EndGoesOn(doc, g, k, y, depth, cur, n);
    } else {
      y := [RBRACE];
      NothingBehind(doc, g, depth, cur, n, m, v, comma);
      open := [ObjectEnd];
      EndAtEnd(doc, g, k, depth, cur, n);
    }
  }

  lemma CommaMissing(doc: Bytes, g: Settings, depth: nat, cur: nat, n: Bytes, m: map<Bytes, Value>, v: Value, comma: bool)
    requires cur <= |doc| && ReadToken(doc, g.f, cur).typ !in {ObjectEnd, ArraySeparator, CommentToken}
    ensures var r, y := S.MemberEnd(doc, g, depth, cur, n, m, v), if comma then [COMMA] + NEW_MEMBER else [RBRACE];
            && r.Failure? && r.e.start == ReadToken(doc, g.f, cur).start
            && Answers(doc, r.e, comma, y) && Reopens(doc, g.f, r, [ObjectEnd], y)
  {
    hide ReadToken, SkipComments, ReadMembers, Recover, Answers, Reopens;
    var r := S.MemberEnd(doc, g, depth, cur, n, m, v);
    CommaAnswers(doc, r.e, comma);
    ReopensHere(doc, g.f, r, ObjectEnd, if comma then [COMMA] + NEW_MEMBER else [RBRACE]);
  }

  lemma CommaAnswers(doc: Bytes, e: Error, comma: bool)
    requires e.message == MissingCommaOrBrace
    ensures Answers(doc, e, comma, if comma then [COMMA] + NEW_MEMBER else [RBRACE])
  {
    assert [0x2C] <= [COMMA] + NEW_MEMBER;
  }

  lemma NothingBehind(doc: Bytes, g: Settings, depth: nat, cur: nat, n: Bytes, m: map<Bytes, Value>, v: Value, comma: bool)
    requires cur <= |doc| && S.MemberEnd(doc, g, depth, cur, n, m, v).Failure?
    requires ReadToken(doc, g.f, cur).typ in {ObjectEnd, ArraySeparator, CommentToken}
    requires SkipComments(doc, g.f, cur).start == SkipComments(doc, g.f, cur).end
    ensures ReadToken(doc, g.f, cur).typ == CommentToken
    ensures Reopens(doc, g.f, S.MemberEnd(doc, g, depth, cur, n, m, v), [ObjectEnd], [RBRACE])
    ensures Answers(doc, S.MemberEnd(doc, g, depth, cur, n, m, v).e, comma, [RBRACE])
  {
    hide ReadToken, ReadMember, Recover, MemberName;
    var next := SkipComments(doc, g.f, cur);
    S.SkipCommentsPast(doc, g.f, cur);
    EndOfDocument(doc, g);
    assert ReadMembers(doc, g, depth, next.end, n, m, v).e == TokenError(Token(EndOfStream, |doc|, |doc|), MissingBraceOrName);
    ReopensHere(doc, g.f, S.MemberEnd(doc, g, depth, cur, n, m, v), ObjectEnd, [RBRACE]);
  }

  lemma EndOfDocument(doc: Bytes, g: Settings)
    ensures var t := Token(EndOfStream, |doc|, |doc|); SkipComments(doc, g.f, |doc|) == t && MemberName(doc, g, t) == NoName
  {
  }

  lemma PlaceZero(doc: Bytes, f: Features, k: nat)
    ensures Places(doc, f, k)(0)
  {
  }

  /**
    What the reader has read when a parse fails in the tree is the beginning of an accepted text, and the error's
    message says what comes next. `comma` chooses where the message offers two things. Recovery goes on behind the ends
    of the containers that the completion closes.
   */
  lemma ErrorIsFirstFault(doc: Bytes, g: Settings, root: Value, comma: bool)
    returns (y: Bytes, open: seq<TokenType>)
    requires ReadValue(doc, g, 1, 0, root).Failure?
    requires Usable(doc, g.f, ReadValue(doc, g, 1, 0, root).e.start)
    requires ReadValue(doc, g, 1, 0, root).e.message.MissingColon? ==> KeysFit(doc, g)
    ensures var e := ReadValue(doc, g, 1, 0, root).e;
            && e.start <= |doc| && Answers(doc, e, comma, y)
            && Reopens(doc, g.f, ReadValue(doc, g, 1, 0, root), open, y)
            && forall w :: IsAccepted(Parse(doc[..e.start] + y, Roomy(g), w))
  {
    hide ReadValue, ReadToken, NextToken, OnPath, Usable, IsTokenError, KeysFit, Supplies;
    var e := ReadValue(doc, g, 1, 0, root).e;
    ValueKeeps(doc, g, 1, 0, root);
    PlaceZero(doc, g.f, e.start);
    y, open := ValueCompletes(doc, g, e.start, 1, 0, root, comma);
    var whole := doc[..e.start] + y;
    forall w ensures IsAccepted(Parse(whole, Roomy(g), w)) {
      assert ValueDone(doc, g, e.start, y, 1, 0, whole, w);
      assert Extends(doc, e.start, y, whole);
      S.NothingLeft(whole, Roomy(g).f);
    }
  }

  predicate IsAccepted(r: Parsed) {
    r.Done? && r.ok
  }
}
