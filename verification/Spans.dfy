/**
  The offsets the reader leaves in a tree. After a successful parse every node's span lies inside
  its parent's, the spans of siblings are disjoint, and parsing just the bytes of a node's span
  builds the same tree again. Dropped nulls have no bytes of their own; their spans are stated exactly.
 */
module Spans {
  import opened Basics
  import opened Errors
  import opened Grammar
  import opened JsonStrings
  import opened Lexer
  import opened ReaderSpec
  import opened Shift
  import opened Values

  // Reading a slice

  /** Two successful reads of the same bytes, `a` apart. */
  predicate SameRead(r: Read, s: Read, a: nat) {
    r.Success? && s.Success? && r.cur == a + s.cur && Erase(r.v) == Erase(s.v)
  }

  predicate EndsAt(s: Read, at: nat -> bool) {
    s.Success? && at(s.cur)
  }

  predicate Within(r: Read, end: nat) {
    r.Success? && r.cur <= end
  }

  /** The reader finds a null placeholder dropped: a separator or a closing bracket where a value is called for. */
  predicate Drops(doc: Bytes, g: Settings, i: nat)
    requires i <= |doc|
  {
    g.f.allowDroppedNullPlaceholders && IsUnreadable(NextToken(doc, g.f, i))
  }

  /** What decides the read from `i` on lies before `end`; for a dropped null that takes in the byte that ends it. */
  predicate DecidedBefore(doc: Bytes, g: Settings, i: nat, r: Read, end: nat)
    requires i <= |doc|
  {
    Within(r, end) && (Drops(doc, g, i) ==> r.cur < end)
  }

  // The two documents have the same bytes there.
  predicate SameBytes(doc: Bytes, a: nat, part: Bytes, size: nat) {
    a + size <= |doc| && size <= |part| && forall k :: 0 <= k < size ==> part[k] == doc[a + k]
  }

  /**
    The first `size` bytes of `part` are those of `doc` from `a` on, and so are the tokens found there from
    the positions `at`, which scanning does not leave.
   */
  ghost predicate Carries(doc: Bytes, f: Features, a: nat, part: Bytes, size: nat, at: nat -> bool) {
    && SameBytes(doc, a, part, size)
    && forall i: nat :: i <= size && at(i) ==> TokenCarries(doc, f, a, part, size, at, i)
  }

  predicate TokenCarries(doc: Bytes, f: Features, a: nat, part: Bytes, size: nat, at: nat -> bool, i: nat)
    requires a + size <= |doc| && size <= |part| && i <= size
  {
    var t := ReadToken(doc, f, a + i);
    Inside(t, a + size) ==> t == Moved(ReadToken(part, f, i), a) && at(t.start - a) && at(t.end - a)
  }

  predicate Everywhere(i: nat) {
    true
  }

  /** A slice carries everything. */
  lemma SliceCarries(doc: Bytes, f: Features, a: nat, part: Bytes)
    requires SliceAt(doc, a, part)
    ensures Carries(doc, f, a, part, |part|, Everywhere)
  {
    hide ReadToken;
    forall i: nat | i <= |part| ensures TokenCarries(doc, f, a, part, |part|, Everywhere, i) {
      if Inside(ReadToken(doc, f, a + i), a + |part|) {
        ShiftToken(doc, f, a, part, i);
      }
    }
  }

  lemma CarriedToken(doc: Bytes, f: Features, a: nat, part: Bytes, size: nat, at: nat -> bool, i: nat)
    requires Carries(doc, f, a, part, size, at) && i <= size && at(i)
    requires var t := ReadToken(doc, f, a + i); Inside(t, a + size)
    ensures ReadToken(doc, f, a + i) == Moved(ReadToken(part, f, i), a)
    ensures at(ReadToken(part, f, i).start) && at(ReadToken(part, f, i).end) && ReadToken(part, f, i).end <= size
  {
    hide ReadToken;
    assert TokenCarries(doc, f, a, part, size, at, i);
  }

  lemma {:induction false} CarriedSkip(doc: Bytes, f: Features, a: nat, part: Bytes, size: nat, at: nat -> bool, i: nat)
    requires Carries(doc, f, a, part, size, at) && i <= size && at(i)
    requires var t := SkipComments(doc, f, a + i); Inside(t, a + size)
    ensures var s := SkipComments(part, f, i);
            SkipComments(doc, f, a + i) == Moved(s, a) && at(s.start) && at(s.end) && s.end <= size
    decreases size - i
  {
    hide ReadToken, Carries;
    CarriedToken(doc, f, a, part, size, at, i);
    var t := ReadToken(part, f, i);
    if t.typ == CommentToken {
      CarriedSkip(doc, f, a, part, size, at, t.end);
    }
  }

  lemma CarriedNext(doc: Bytes, f: Features, a: nat, part: Bytes, size: nat, at: nat -> bool, i: nat)
    requires Carries(doc, f, a, part, size, at) && i <= size && at(i)
    requires var t := NextToken(doc, f, a + i); Inside(t, a + size)
    ensures var s := NextToken(part, f, i);
            NextToken(doc, f, a + i) == Moved(s, a) && at(s.start) && at(s.end) && s.end <= size
  {
    hide ReadToken, SkipComments, Carries;
    if f.allowComments {
      CarriedSkip(doc, f, a, part, size, at, i);
    } else {
      CarriedToken(doc, f, a, part, size, at, i);
    }
  }

  lemma ShiftText(doc: Bytes, a: nat, part: Bytes, size: nat, t: Token)
    requires SameBytes(doc, a, part, size) && t.start <= t.end <= size
    ensures TokenText(doc, Moved(t, a)) == TokenText(part, t)
    ensures t.start + 2 <= t.end ==> TokenBody(doc, Moved(t, a)) == TokenBody(part, t)
  {
  }

  lemma ShiftScalar(doc: Bytes, g: Settings, a: nat, part: Bytes, size: nat, t: Token, v: Value, w: Value)
    requires SameBytes(doc, a, part, size) && t.start <= t.end <= size
    requires t.typ == StringToken ==> t.start + 2 <= t.end
    requires ReadScalar(doc, g, Moved(t, a), v).Success?
    ensures SameRead(ReadScalar(doc, g, Moved(t, a), v), ReadScalar(part, g, t, w), a)
  {
    ShiftText(doc, a, part, size, t);
  }

  lemma ShiftName(doc: Bytes, g: Settings, a: nat, part: Bytes, size: nat, t: Token)
    requires SameBytes(doc, a, part, size) && t.start <= t.end <= size
    requires t.typ == StringToken ==> t.start + 2 <= t.end
    requires MemberName(doc, g, Moved(t, a)).Named?
    ensures MemberName(part, g, t) == MemberName(doc, g, Moved(t, a))
  {
    ShiftText(doc, a, part, size, t);
  }

  /** A successful scalar ends where its token does. */
  lemma ScalarEnd(doc: Bytes, g: Settings, t: Token, v: Value)
    requires t.start <= t.end <= |doc| && !(g.f.allowDroppedNullPlaceholders && IsUnreadable(t))
    requires t.typ == StringToken ==> t.start + 2 <= t.end
    requires ReadScalar(doc, g, t, v).Success?
    ensures var r := ReadScalar(doc, g, t, v); r.cur == r.v.limit == t.end && r.v.start == t.start
    ensures t.typ != EndOfStream && t.typ != ErrorToken && t.typ != CommentToken
    ensures ReadScalar(doc, g, t, v).v.payload.Null? ==> t.typ == NullToken
  {
  }

  lemma ShiftValue(
      doc: Bytes, g: Settings, a: nat, part: Bytes, size: nat, at: nat -> bool, depth: nat, low: nat, i: nat, v: Value, w: Value)
    requires Carries(doc, g.f, a, part, size, at) && i <= size && at(i) && low <= depth
    requires DecidedBefore(doc, g, a + i, ReadValue(doc, g, depth, a + i, v), a + size)
    ensures SameRead(ReadValue(doc, g, depth, a + i, v), ReadValue(part, g, low, i, w), a)
    ensures EndsAt(ReadValue(part, g, low, i, w), at)
    decreases size - i, 0
  {
    hide NextToken, ReadMembers, ReadArray, ReadScalar, ErasePayload, Carries;
    var t := NextToken(doc, g.f, a + i);
    if t.typ != ObjectBegin && t.typ != ArrayBegin {
      ShiftLeaf(doc, g, a, part, size, at, i, v, w);
    } else {
      CarriedNext(doc, g.f, a, part, size, at, i);
      var s := NextToken(part, g.f, i);
      if t.typ == ObjectBegin {
        ShiftMembers(doc, g, a, part, size, at, depth, low, s.end, [], map[], map[],
                     Value(v.payload, t.start, v.limit), Value(w.payload, s.start, w.limit));
      } else {
        ShiftArray(doc, g, a, part, size, at, depth, low, s.end,
                   Value(v.payload, t.start, v.limit), Value(w.payload, s.start, w.limit));
      }
    }
  }

  // A value of one token, or a dropped null.
  lemma ShiftLeaf(doc: Bytes, g: Settings, a: nat, part: Bytes, size: nat, at: nat -> bool, i: nat, v: Value, w: Value)
    requires Carries(doc, g.f, a, part, size, at) && i <= size && at(i)
    requires var r := ReadScalar(doc, g, NextToken(doc, g.f, a + i), v);
             Within(r, a + size) && (Drops(doc, g, a + i) ==> r.cur < a + size)
    ensures var t, s := NextToken(doc, g.f, a + i), NextToken(part, g.f, i);
            && t == Moved(s, a)
            && SameRead(ReadScalar(doc, g, t, v), ReadScalar(part, g, s, w), a) && EndsAt(ReadScalar(part, g, s, w), at)
  {
    hide NextToken, ReadScalar, Erase, TokenCarries;
    var t := NextToken(doc, g.f, a + i);
    NextTokenLength(doc, g.f, a + i);
    if Drops(doc, g, a + i) {
      DroppedScalar(doc, g, t, v);
    } else {
      ScalarEnd(doc, g, t, v);
    }
    CarriedNext(doc, g.f, a, part, size, at, i);
    ShiftScalar(doc, g, a, part, size, NextToken(part, g.f, i), v, w);
  }

  lemma ShiftMembers(doc: Bytes, g: Settings, a: nat, part: Bytes, size: nat, at: nat -> bool, depth: nat, low: nat, i: nat, name: Bytes,
                     m: map<Bytes, Value>, k: map<Bytes, Value>, v: Value, w: Value)
    requires Carries(doc, g.f, a, part, size, at) && i <= size && at(i) && low <= depth
    requires EraseMembers(m) == EraseMembers(k)
    requires Within(ReadMembers(doc, g, depth, a + i, name, m, v), a + size)
    ensures SameRead(ReadMembers(doc, g, depth, a + i, name, m, v), ReadMembers(part, g, low, i, name, k, w), a)
    ensures EndsAt(ReadMembers(part, g, low, i, name, k, w), at)
    decreases size - i, 1
  {
    hide SkipComments, ReadMember, MemberName, Erase, EraseMembers;
    var t := SkipComments(doc, g.f, a + i);
    CarriedSkip(doc, g.f, a, part, size, at, i);
    var s := SkipComments(part, g.f, i);
    if t.typ == ObjectEnd && name == [] {
      EraseObject(WithMembers(v, m));
      EraseObject(WithMembers(w, k));
    } else {
      ShiftName(doc, g, a, part, size, s);
      ShiftMember(doc, g, a, part, size, at, depth, low, s, MemberName(part, g, s).name, m, k, v, w);
    }
  }

  lemma EraseInsert(m: map<Bytes, Value>, k: map<Bytes, Value>, n: Bytes, x: Value, y: Value)
    requires EraseMembers(m) == EraseMembers(k) && Erase(x) == Erase(y)
    ensures EraseMembers(m[n := x]) == EraseMembers(k[n := y])
    ensures n in m <==> n in k
  {
    hide EraseMembers, Erase;
    EraseMembersUpdate(m, n, x);
    EraseMembersUpdate(k, n, y);
  }

  // The value of the member called `n`, before it is read.
  function Current(m: map<Bytes, Value>, n: Bytes): Value {
    if n in m then m[n] else NULL_VALUE
  }

  /** How a turn of the loop ends once the value of the member has been read, up to `cur`. */
  function MemberEnd(doc: Bytes, g: Settings, depth: nat, cur: nat, n: Bytes, m: map<Bytes, Value>, v: Value): Read
    requires cur <= |doc|
  {
    var comma, next := ReadToken(doc, g.f, cur), SkipComments(doc, g.f, cur);
    if comma.typ !in {ObjectEnd, ArraySeparator, CommentToken} then
      FailAndRecover(doc, g, comma.end, WithMembers(v, m), TokenError(comma, MissingCommaOrBrace), ObjectEnd)
    else if next.typ == ObjectEnd then Success(next.end, WithMembers(v, m))
    else ReadMembers(doc, g, depth, next.end, n, m, v)
  }

  /** A turn succeeds exactly when its colon, its value and its end are in order. */
  lemma MemberParts(doc: Bytes, g: Settings, depth: nat, t: Token, n: Bytes, m: map<Bytes, Value>, v: Value)
    requires t.start < t.end <= |doc|
    ensures var colon := ReadToken(doc, g.f, t.end); var read := ReadMember(doc, g, depth, t, n, m, v);
            var r := ReadValue(doc, g, depth + 1, colon.end, Current(m, n));
            if colon.typ == MemberSeparator && |n| < KEY_LIMIT && !(g.f.rejectDupKeys && n in m) && r.Success?
               && MemberEnd(doc, g, depth, r.cur, n, m[n := r.v], v).Success?
            then read == MemberEnd(doc, g, depth, r.cur, n, m[n := r.v], v)
            else !read.Success?
  {
    hide ReadToken, SkipComments, ReadValue, ReadMembers;
  }

  /** A turn whose value is read goes on with its end. */
  lemma MemberGoesOn(doc: Bytes, g: Settings, depth: nat, t: Token, n: Bytes, m: map<Bytes, Value>, v: Value)
    requires t.start < t.end <= |doc| && |n| < KEY_LIMIT && !(g.f.rejectDupKeys && n in m)
    requires ReadToken(doc, g.f, t.end).typ == MemberSeparator
    requires ReadValue(doc, g, depth + 1, ReadToken(doc, g.f, t.end).end, Current(m, n)).Success?
    ensures var r := ReadValue(doc, g, depth + 1, ReadToken(doc, g.f, t.end).end, Current(m, n));
            ReadMember(doc, g, depth, t, n, m, v) == MemberEnd(doc, g, depth, r.cur, n, m[n := r.v], v)
  {
    hide ReadToken, SkipComments, ReadValue, ReadMembers, Recover;
  }

  lemma ShiftMemberEnd(doc: Bytes, g: Settings, a: nat, part: Bytes, size: nat, at: nat -> bool, depth: nat, low: nat, i: nat, n: Bytes,
                       m: map<Bytes, Value>, k: map<Bytes, Value>, v: Value, w: Value)
    requires Carries(doc, g.f, a, part, size, at) && i <= size && at(i) && low <= depth
    requires EraseMembers(m) == EraseMembers(k)
    requires Within(MemberEnd(doc, g, depth, a + i, n, m, v), a + size)
    ensures SameRead(MemberEnd(doc, g, depth, a + i, n, m, v), MemberEnd(part, g, low, i, n, k, w), a)
    ensures EndsAt(MemberEnd(part, g, low, i, n, k, w), at)
    decreases size - i, 2
  {
    hide ReadToken, SkipComments, ReadMembers, Erase, EraseMembers;
    var next := SkipComments(doc, g.f, a + i);
    if next.typ != ObjectEnd {
      MembersSpan(doc, g, depth, next.end, n, m, v);
    }
    SkipCommentsPast(doc, g.f, a + i);
    CarriedToken(doc, g.f, a, part, size, at, i);
    CarriedSkip(doc, g.f, a, part, size, at, i);
    if next.typ == ObjectEnd {
      EraseObject(WithMembers(v, m));
      EraseObject(WithMembers(w, k));
    } else {
      ShiftMembers(doc, g, a, part, size, at, depth, low, SkipComments(part, g.f, i).end, n, m, k, v, w);
    }
  }

  lemma ShiftMember(doc: Bytes, g: Settings, a: nat, part: Bytes, size: nat, at: nat -> bool, depth: nat, low: nat, t: Token, n: Bytes,
                    m: map<Bytes, Value>, k: map<Bytes, Value>, v: Value, w: Value)
    requires Carries(doc, g.f, a, part, size, at) && t.start < t.end <= size && at(t.end) && low <= depth
    requires EraseMembers(m) == EraseMembers(k)
    requires Within(ReadMember(doc, g, depth, Moved(t, a), n, m, v), a + size)
    ensures SameRead(ReadMember(doc, g, depth, Moved(t, a), n, m, v), ReadMember(part, g, low, t, n, k, w), a)
    ensures EndsAt(ReadMember(part, g, low, t, n, k, w), at)
    decreases size - t.end, 3
  {
    hide ReadToken, ReadValue, ReadMember, MemberEnd, Erase, EraseMembers;
    MemberParts(doc, g, depth, Moved(t, a), n, m, v);
    MemberParts(part, g, low, t, n, k, w);
    var colon := ReadToken(doc, g.f, a + t.end);
    var r := ReadValue(doc, g, depth + 1, colon.end, Current(m, n));
    MemberEndAdvances(doc, g, depth, r.cur, n, m[n := r.v], v);
    CarriedToken(doc, g.f, a, part, size, at, t.end);
    var d := ReadToken(part, g.f, t.end);
    ShiftValue(doc, g, a, part, size, at, depth + 1, low + 1, d.end, Current(m, n), Current(k, n));
    var s := ReadValue(part, g, low + 1, d.end, Current(k, n));
    EraseInsert(m, k, n, r.v, s.v);
    ShiftMemberEnd(doc, g, a, part, size, at, depth, low, s.cur, n, m[n := r.v], k[n := s.v], v, w);
  }

  lemma MemberEndAdvances(doc: Bytes, g: Settings, depth: nat, i: nat, n: Bytes, m: map<Bytes, Value>, v: Value)
    requires i <= |doc| && MemberEnd(doc, g, depth, i, n, m, v).Success?
    ensures i < MemberEnd(doc, g, depth, i, n, m, v).cur
  {
    hide ReadToken, SkipComments, ReadMembers;
    var next := SkipComments(doc, g.f, i);
    if next.typ != ObjectEnd {
      MembersSpan(doc, g, depth, next.end, n, m, v);
    }
  }

  /** The token behind the comments is not before the first token, and a missing one is at the end. */
  lemma SkipCommentsPast(doc: Bytes, f: Features, i: nat)
    requires i <= |doc|
    ensures ReadToken(doc, f, i).end <= SkipComments(doc, f, i).end
    ensures var t := SkipComments(doc, f, i); t.start == t.end ==> t.end == |doc|
    decreases |doc| - i
  {
    var t := ReadToken(doc, f, i);
    if t.typ == CommentToken {
      SkipCommentsPast(doc, f, t.end);
    }
  }

  /** An array is empty when its first token closes it; otherwise blanks before its first element do not matter. */
  lemma ArrayByTokens(doc: Bytes, g: Settings, depth: nat, i: nat, v: Value)
    requires i <= |doc|
    ensures var t := ReadToken(doc, g.f, i);
            ReadArray(doc, g, depth, i, v)
            == if t.typ == ArrayEnd then Success(t.end, WithElems(v, map[])) else ReadElements(doc, g, depth, i, 0, map[], v)
  {
    hide ReadValue, ReadElements, SkipComments;
    var j := SkipSpaces(doc, i);
    BracketToken(doc, g.f, i);
    SameFromBlank(doc, g, depth, i, j, v);
  }

  lemma BracketToken(doc: Bytes, f: Features, i: nat)
    requires i <= |doc|
    ensures var j := SkipSpaces(doc, i); var t := ReadToken(doc, f, i);
            && (t.typ == ArrayEnd <==> j < |doc| && doc[j] == RBRACKET) && (t.typ == ArrayEnd ==> t.end == j + 1)
            && ReadToken(doc, f, j) == t
  {
    hide ScanString, ScanNumber, ScanComment, Match;
  }

  lemma SameFromBlank(doc: Bytes, g: Settings, depth: nat, i: nat, j: nat, v: Value)
    requires i <= j <= |doc| && ReadToken(doc, g.f, i) == ReadToken(doc, g.f, j)
    ensures ReadElements(doc, g, depth, i, 0, map[], v) == ReadElements(doc, g, depth, j, 0, map[], v)
  {
    hide ReadToken, ReadMembers, ReadArray, ReadScalar;
    assert SkipComments(doc, g.f, i) == SkipComments(doc, g.f, j);
    assert ReadValue(doc, g, depth + 1, i, NULL_VALUE) == ReadValue(doc, g, depth + 1, j, NULL_VALUE);
  }

  /** The first token of a list of elements is behind its start and within what is read. */
  lemma FirstWithin(doc: Bytes, g: Settings, depth: nat, i: nat, index: nat, m: map<nat, Value>, v: Value)
    requires i <= |doc| && ReadElements(doc, g, depth, i, index, m, v).Success?
    ensures ReadToken(doc, g.f, i).start < ReadToken(doc, g.f, i).end <= ReadElements(doc, g, depth, i, index, m, v).cur
    ensures ReadToken(doc, g.f, i).typ != ErrorToken
  {
    hide ReadToken, SkipComments, ReadMembers, ReadArray, ReadScalar, ReadElements;
    var r := ReadValue(doc, g, depth + 1, i, ElementAt(m, index));
    TurnEnds(doc, g, depth, i, index, m, v);
    var t := NextToken(doc, g.f, i);
    SkipCommentsPast(doc, g.f, i);
    if t.typ == ObjectBegin {
      MembersSpan(doc, g, depth + 1, t.end, [], map[], Value(ElementAt(m, index).payload, t.start, ElementAt(m, index).limit));
    } else if t.typ == ArrayBegin {
      ArraySpan(doc, g, depth + 1, t.end, Value(ElementAt(m, index).payload, t.start, ElementAt(m, index).limit));
    } else if Drops(doc, g, i) {
      DroppedScalar(doc, g, t, ElementAt(m, index));
    } else {
      ScalarEnd(doc, g, t, ElementAt(m, index));
    }
    FirstIsGood(doc, g.f, i);
  }

  lemma TurnEnds(doc: Bytes, g: Settings, depth: nat, i: nat, index: nat, m: map<nat, Value>, v: Value)
    requires i <= |doc| && ReadElements(doc, g, depth, i, index, m, v).Success?
    ensures var r := ReadValue(doc, g, depth + 1, i, ElementAt(m, index));
            r.Success? && r.cur < ReadElements(doc, g, depth, i, index, m, v).cur
  {
    hide ReadToken, SkipComments, ReadValue;
    var r := ReadValue(doc, g, depth + 1, i, ElementAt(m, index));
    var t := SkipComments(doc, g.f, r.cur);
    if t.typ == ArraySeparator {
      ElementsSpan(doc, g, depth, t.end, index + 1, m[index := r.v], v);
    }
  }

  lemma FirstIsGood(doc: Bytes, f: Features, i: nat)
    requires i <= |doc| && NextToken(doc, f, i).typ != ErrorToken && NextToken(doc, f, i).typ != EndOfStream
    ensures ReadToken(doc, f, i).typ != ErrorToken && ReadToken(doc, f, i).start < ReadToken(doc, f, i).end
  {
    hide ReadToken;
  }

  lemma ShiftArray(
      doc: Bytes, g: Settings, a: nat, part: Bytes, size: nat, at: nat -> bool, depth: nat, low: nat, i: nat, v: Value, w: Value)
    requires Carries(doc, g.f, a, part, size, at) && i <= size && at(i) && low <= depth
    requires Within(ReadArray(doc, g, depth, a + i, v), a + size)
    ensures SameRead(ReadArray(doc, g, depth, a + i, v), ReadArray(part, g, low, i, w), a)
    ensures EndsAt(ReadArray(part, g, low, i, w), at)
    decreases size - i, 2
  {
    hide ReadElements, ReadArray, ReadToken, TokenCarries, Erase;
    ArrayByTokens(doc, g, depth, a + i, v);
    ArrayByTokens(part, g, low, i, w);
    if ReadToken(doc, g.f, a + i).typ == ArrayEnd {
      CarriedToken(doc, g.f, a, part, size, at, i);
      EraseArray(WithElems(v, map[]));
      EraseArray(WithElems(w, map[]));
      assert EraseElems(map[]) == map[];
    } else {
      FirstWithin(doc, g, depth, a + i, 0, map[], v);
      CarriedToken(doc, g.f, a, part, size, at, i);
      ShiftElements(doc, g, a, part, size, at, depth, low, i, 0, map[], map[], v, w);
    }
  }

  lemma EraseUpdate(m: map<nat, Value>, k: map<nat, Value>, index: nat, x: Value, y: Value)
    requires EraseElems(m) == EraseElems(k) && Erase(x) == Erase(y)
    ensures EraseElems(m[index := x]) == EraseElems(k[index := y])
  {
    hide EraseElems, Erase;
    EraseElemsUpdate(m, index, x);
    EraseElemsUpdate(k, index, y);
  }

  lemma ShiftElements(doc: Bytes, g: Settings, a: nat, part: Bytes, size: nat, at: nat -> bool, depth: nat, low: nat, i: nat, index: nat,
                      m: map<nat, Value>, k: map<nat, Value>, v: Value, w: Value)
    requires Carries(doc, g.f, a, part, size, at) && i <= size && at(i) && low <= depth
    requires EraseElems(m) == EraseElems(k)
    requires Within(ReadElements(doc, g, depth, a + i, index, m, v), a + size)
    ensures SameRead(ReadElements(doc, g, depth, a + i, index, m, v), ReadElements(part, g, low, i, index, k, w), a)
    ensures EndsAt(ReadElements(part, g, low, i, index, k, w), at)
    decreases size - i, 1
  {
    hide SkipComments, ReadValue, Erase, EraseElems, ReadToken, SliceAt, NextToken, SkipSpaces, IsContainer;
    hide IsUnreadable, ReadScalar;
    var x, y := ElementAt(m, index), ElementAt(k, index);
    var r := ReadValue(doc, g, depth + 1, a + i, x);
    var t := SkipComments(doc, g.f, r.cur);
    ShiftValue(doc, g, a, part, size, at, depth + 1, low + 1, i, x, y);
    var s := ReadValue(part, g, low + 1, i, y);
    EraseUpdate(m, k, index, r.v, s.v);
    CarriedSkip(doc, g.f, a, part, size, at, s.cur);
    if t.typ == ArraySeparator {
      ShiftElements(doc, g, a, part, size, at, depth, low, SkipComments(part, g.f, s.cur).end, index + 1,
                    m[index := r.v], k[index := s.v], v, w);
    } else {
      EraseArray(WithElems(v, m[index := r.v]));
      EraseArray(WithElems(w, k[index := s.v]));
    }
  }

  // Spans

  /**
    Parsing just the bytes of the node's span builds the node again, whatever the root was, and
    records no error, unless only a container is accepted as the root.
   */
  ghost predicate Reparses(doc: Bytes, g: Settings, n: Value)
    requires 0 <= n.start <= n.limit <= |doc|
  {
    forall root: Value ::
      var r := Parse(doc[n.start..n.limit], g, root);
      && r.Done? && Erase(r.root) == Erase(n)
      && (r.ok <==> !g.f.strictRoot || IsContainer(n))
      && r.errors == (if r.ok then [] else [Error(0, n.limit - n.start, RootNotContainer, None)])
  }

  /**
    A dropped null. It has no text of its own: its span is the byte before the separator or the closing
    bracket that stands in its place.
   */
  predicate IsPlaceholder(doc: Bytes, f: Features, n: Value) {
    && f.allowDroppedNullPlaceholders && n.payload.Null?
    && 0 <= n.limit < |doc| && n.start == n.limit - 1
    && (doc[n.limit] == COMMA || doc[n.limit] == RBRACKET || doc[n.limit] == RBRACE)
  }

  /** Strictly inside; a dropped element may share the byte its array begins with. */
  predicate Inner(doc: Bytes, f: Features, parent: Value, child: Value) {
    && child.limit < parent.limit
    && (if IsPlaceholder(doc, f, child) then parent.start <= child.start else parent.start < child.start)
  }

  /** One behind the other, with a byte between them unless the second is dropped. */
  predicate Behind(doc: Bytes, f: Features, a: Value, b: Value) {
    if IsPlaceholder(doc, f, b) then a.limit <= b.start else a.limit < b.start
  }

  /** The elements of an array are numbered without a gap and lie one behind the other. */
  predicate InSequence(doc: Bytes, f: Features, m: map<nat, Value>) {
    && (forall i: nat :: i in m ==> forall j: nat :: j < i ==> j in m)
    && (forall i, j :: i in m && j in m && i < j ==> Behind(doc, f, m[i], m[j]))
  }

  predicate Apart(m: map<Bytes, Value>) {
    forall k, l :: k in m && l in m && k != l ==> m[k].limit < m[l].start || m[l].limit < m[k].start
  }

  /** The spans of a whole tree: every node is a dropped null or can be parsed again from its own bytes. */
  ghost predicate Faithful(doc: Bytes, g: Settings, n: Value) {
    || IsPlaceholder(doc, g.f, n)
    || (&& 0 <= n.start < n.limit <= |doc|
        && Reparses(doc, g, n)
        && match n.payload
           case Array(m) =>
             InSequence(doc, g.f, m) && forall i :: i in m ==> Faithful(doc, g, m[i]) && Inner(doc, g.f, n, m[i])
           case Object(m) =>
             Apart(m) && forall k :: k in m ==> Faithful(doc, g, m[k]) && n.start < m[k].start && m[k].limit < n.limit
           case _ => true)
  }

  lemma NextTokenAgain(doc: Bytes, f: Features, i: nat)
    requires i <= |doc|
    ensures var t := NextToken(doc, f, i); t.typ != CommentToken ==> NextToken(doc, f, t.start) == t
    decreases |doc| - i
  {
    var t := ReadToken(doc, f, i);
    assert ReadToken(doc, f, t.start) == t;
    if f.allowComments && t.typ == CommentToken {
      NextTokenAgain(doc, f, t.end);
    }
  }

  lemma MembersSpan(doc: Bytes, g: Settings, depth: nat, i: nat, name: Bytes, m: map<Bytes, Value>, v: Value)
    requires i <= |doc| && ReadMembers(doc, g, depth, i, name, m, v).Success?
    ensures var r := ReadMembers(doc, g, depth, i, name, m, v);
            r.v.start == v.start && r.v.payload.Object? && i < r.cur
    decreases |doc| - i
  {
    hide SkipComments, ReadToken, ReadValue, MemberName;
    var t := SkipComments(doc, g.f, i);
    if !(t.typ == ObjectEnd && name == []) {
      var n := MemberName(doc, g, t).name;
      var colon := ReadToken(doc, g.f, t.end);
      var r := ReadValue(doc, g, depth + 1, colon.end, if n in m then m[n] else NULL_VALUE);
      var next := SkipComments(doc, g.f, r.cur);
      if next.typ != ObjectEnd {
        MembersSpan(doc, g, depth, next.end, n, m[n := r.v], v);
      }
    }
  }

  lemma ElementsSpan(doc: Bytes, g: Settings, depth: nat, i: nat, index: nat, m: map<nat, Value>, v: Value)
    requires i <= |doc| && ReadElements(doc, g, depth, i, index, m, v).Success?
    ensures var r := ReadElements(doc, g, depth, i, index, m, v);
            r.v.start == v.start && r.v.payload.Array? && i < r.cur
    decreases |doc| - i
  {
    hide SkipComments, ReadValue;
    var r := ReadValue(doc, g, depth + 1, i, ElementAt(m, index));
    var t := SkipComments(doc, g.f, r.cur);
    if t.typ == ArraySeparator {
      ElementsSpan(doc, g, depth, t.end, index + 1, m[index := r.v], v);
    }
  }

  lemma ArraySpan(doc: Bytes, g: Settings, depth: nat, i: nat, v: Value)
    requires i <= |doc| && ReadArray(doc, g, depth, i, v).Success?
    ensures var r := ReadArray(doc, g, depth, i, v);
            r.v.start == v.start && r.v.payload.Array? && i < r.cur
  {
    hide ReadElements;
    var j := SkipSpaces(doc, i);
    if !(j < |doc| && doc[j] == RBRACKET) {
      ElementsSpan(doc, g, depth, j, 0, map[], v);
    }
  }

  // How long the text of a token is.
  predicate HasLength(doc: Bytes, t: Token) {
    && (IsUnreadable(t) ==>
          && t.start < |doc| && t.end == t.start + 1
          && (doc[t.start] == COMMA || doc[t.start] == RBRACKET || doc[t.start] == RBRACE))
    && (t.typ == NullToken ==> t.end == t.start + |NULL_TEXT|)
  }

  lemma TokenLength(doc: Bytes, f: Features, i: nat)
    requires i <= |doc|
    ensures HasLength(doc, ReadToken(doc, f, i))
  {
    hide ScanString, ScanComment, ScanNumber;
  }

  lemma {:induction false} NextTokenLength(doc: Bytes, f: Features, i: nat)
    requires i <= |doc|
    ensures HasLength(doc, NextToken(doc, f, i))
    decreases |doc| - i
  {
    hide ReadToken, HasLength;
    var t := ReadToken(doc, f, i);
    TokenLength(doc, f, i);
    if f.allowComments && t.typ == CommentToken {
      NextTokenLength(doc, f, t.end);
    }
  }

  /** What a successful `readValue` says about the span of its value. */
  lemma ValueSpan(doc: Bytes, g: Settings, depth: nat, i: nat, v: Value)
    requires i <= |doc| && ReadValue(doc, g, depth, i, v).Success?
    ensures var r, s := ReadValue(doc, g, depth, i, v), NextToken(doc, g.f, i).start;
            if Drops(doc, g, i) then i <= s == r.v.start + 1 == r.v.limit == r.cur && IsPlaceholder(doc, g.f, r.v)
            else
              && i <= s == r.v.start < r.v.limit == r.cur && !IsPlaceholder(doc, g.f, r.v)
              && ReadValue(doc, g, depth, s, v) == r && !Drops(doc, g, s)
  {
    hide NextToken, ReadMembers, ReadArray, ReadScalar;
    var t := NextToken(doc, g.f, i);
    if t.typ == ObjectBegin {
      MembersSpan(doc, g, depth, t.end, [], map[], Value(v.payload, t.start, v.limit));
    } else if t.typ == ArrayBegin {
      ArraySpan(doc, g, depth, t.end, Value(v.payload, t.start, v.limit));
    } else {
      NextTokenLength(doc, g.f, i);
      if Drops(doc, g, i) {
        DroppedScalar(doc, g, t, v);
      } else {
        ScalarEnd(doc, g, t, v);
      }
    }
    NextTokenAgain(doc, g.f, i);
  }

  lemma DroppedScalar(doc: Bytes, g: Settings, t: Token, v: Value)
    requires g.f.allowDroppedNullPlaceholders && IsUnreadable(t) && t.end <= |doc|
    ensures ReadScalar(doc, g, t, v) == Success(t.end - 1, Value(Null, t.end - 2, t.end - 1))
  {
  }

  /** A successfully read value that is not a dropped null can be read again from its own bytes. */
  lemma ValueReparses(doc: Bytes, g: Settings, depth: nat, i: nat, v: Value)
    requires i <= |doc| && 1 <= depth && ReadValue(doc, g, depth, i, v).Success?
    ensures var r := ReadValue(doc, g, depth, i, v);
            IsPlaceholder(doc, g.f, r.v) || (0 <= r.v.start < r.v.limit <= |doc| && Reparses(doc, g, r.v))
  {
    hide ReadValue, NextToken, Erase, IsPlaceholder, Drops, Carries, SameBytes;
    ValueSpan(doc, g, depth, i, v);
    var n := ReadValue(doc, g, depth, i, v).v;
    if !Drops(doc, g, i) {
      var part := doc[n.start..n.limit];
      forall root
        ensures var r := Parse(part, g, root);
                && r.Done? && Erase(r.root) == Erase(n)
                && (r.ok <==> !g.f.strictRoot || IsContainer(n))
                && r.errors == (if r.ok then [] else [Error(0, |part|, RootNotContainer, None)])
      {
        SliceCarries(doc, g.f, n.start, part);
        ShiftValue(doc, g, n.start, part, |part|, Everywhere, depth, 1, 0, v, root);
        NothingLeft(part, g.f);
        EraseKeepsKind(ReadValue(part, g, 1, 0, root).v);
        EraseKeepsKind(n);
      }
    }
  }

  lemma EraseKeepsKind(v: Value)
    ensures IsContainer(Erase(v)) <==> IsContainer(v)
  {
  }

  lemma NothingLeft(doc: Bytes, f: Features)
    ensures NextToken(doc, f, |doc|).typ == EndOfStream
  {
  }

  // The whole tree

  lemma ValueFaithful(doc: Bytes, g: Settings, depth: nat, i: nat, v: Value)
    requires i <= |doc| && 1 <= depth && ReadValue(doc, g, depth, i, v).Success?
    ensures Faithful(doc, g, ReadValue(doc, g, depth, i, v).v)
    decreases |doc| - i, 0
  {
    hide NextToken, ReadMembers, ReadArray, ReadScalar, Reparses, IsPlaceholder;
    ValueSpan(doc, g, depth, i, v);
    ValueReparses(doc, g, depth, i, v);
    var t := NextToken(doc, g.f, i);
    if t.typ == ObjectBegin {
      MembersFaithful(doc, g, depth, t.start, t.end, [], map[], Value(v.payload, t.start, v.limit));
    } else if t.typ == ArrayBegin {
      ArrayFaithful(doc, g, depth, t.start, t.end, Value(v.payload, t.start, v.limit));
    } else {
      ScalarIsLeaf(doc, g, t, v);
    }
  }

  lemma ScalarIsLeaf(doc: Bytes, g: Settings, t: Token, v: Value)
    requires t.start <= t.end <= |doc|
    requires t.typ == StringToken ==> t.start + 2 <= t.end
    requires ReadScalar(doc, g, t, v).Success?
    ensures !IsContainer(ReadScalar(doc, g, t, v).v)
  {
  }

  /** The members read so far lie between `low` and `high`. */
  ghost predicate MembersBetween(doc: Bytes, g: Settings, low: nat, high: nat, m: map<Bytes, Value>) {
    Apart(m) && forall k :: k in m ==> Faithful(doc, g, m[k]) && low < m[k].start < m[k].limit <= high
  }

  lemma OneMoreMember(doc: Bytes, g: Settings, low: nat, high: nat, m: map<Bytes, Value>, n: Bytes, w: Value, end: nat)
    requires MembersBetween(doc, g, low, high, m) && Faithful(doc, g, w)
    requires low <= high < w.start < w.limit <= end
    ensures MembersBetween(doc, g, low, end, m[n := w])
  {
    hide Faithful;
  }

  lemma BetweenGrows(doc: Bytes, g: Settings, low: nat, high: nat, m: map<Bytes, Value>, end: nat)
    requires MembersBetween(doc, g, low, high, m) && high <= end
    ensures MembersBetween(doc, g, low, end, m)
  {
    hide Faithful;
  }

  lemma MembersFaithful(doc: Bytes, g: Settings, depth: nat, low: nat, i: nat, name: Bytes, m: map<Bytes, Value>, v: Value)
    requires low < i <= |doc| && 1 <= depth
    requires ReadMembers(doc, g, depth, i, name, m, v).Success?
    requires MembersBetween(doc, g, low, i, m)
    ensures var r := ReadMembers(doc, g, depth, i, name, m, v);
            r.v.payload.Object? && MembersBetween(doc, g, low, r.cur - 1, r.v.payload.members)
    decreases |doc| - i, 1
  {
    hide SkipComments, ReadToken, ReadValue, MemberName, Faithful, MembersBetween, NextToken, SkipSpaces, Drops;
    hide IsPlaceholder, IsContainer;
    var t := SkipComments(doc, g.f, i);
    if t.typ == ObjectEnd && name == [] {
      BetweenGrows(doc, g, low, i, m, t.end - 1);
    } else {
      var n := MemberName(doc, g, t).name;
      var colon := ReadToken(doc, g.f, t.end);
      var w := if n in m then m[n] else NULL_VALUE;
      var r := ReadValue(doc, g, depth + 1, colon.end, w);
      ValueSpan(doc, g, depth + 1, colon.end, w);
      ValueFaithful(doc, g, depth + 1, colon.end, w);
      var next := SkipComments(doc, g.f, r.cur);
      if next.typ == ObjectEnd {
        OneMoreMember(doc, g, low, i, m, n, r.v, next.end - 1);
      } else {
        OneMoreMember(doc, g, low, i, m, n, r.v, next.end);
        MembersFaithful(doc, g, depth, low, next.end, n, m[n := r.v], v);
      }
    }
  }

  lemma ArrayFaithful(doc: Bytes, g: Settings, depth: nat, low: nat, i: nat, v: Value)
    requires low < i <= |doc| && 1 <= depth
    requires ReadArray(doc, g, depth, i, v).Success?
    ensures var r := ReadArray(doc, g, depth, i, v);
            && r.v.payload.Array? && InSequence(doc, g.f, r.v.payload.elems)
            && ElementsBetween(doc, g, low, r.cur - 1, r.v.payload.elems)
    decreases |doc| - i, 2
  {
    hide ReadElements, Faithful;
    var j := SkipSpaces(doc, i);
    if !(j < |doc| && doc[j] == RBRACKET) {
      ElementsFaithful(doc, g, depth, low, j, 0, map[], v);
    }
  }

  /** The elements read so far lie between `low` and `high`, where a dropped one may reach `low`. */
  ghost predicate ElementsBetween(doc: Bytes, g: Settings, low: nat, high: nat, m: map<nat, Value>) {
    forall i :: i in m ==>
      && Faithful(doc, g, m[i]) && m[i].limit <= high
      && (if IsPlaceholder(doc, g.f, m[i]) then low <= m[i].start else low < m[i].start)
  }

  lemma OneMoreElement(doc: Bytes, g: Settings, low: nat, i: nat, m: map<nat, Value>, index: nat, w: Value, e: nat)
    requires low < i <= e <= |doc| && ElementsBetween(doc, g, low, i - 1, m) && InSequence(doc, g.f, m)
    requires forall k: nat :: k in m <==> k < index
    requires w.limit <= e && Faithful(doc, g, w)
    requires if IsPlaceholder(doc, g.f, w) then i - 1 <= w.start else i <= w.start
    ensures ElementsBetween(doc, g, low, e, m[index := w]) && InSequence(doc, g.f, m[index := w])
  {
    hide Faithful, IsPlaceholder;
  }

  lemma ElementsFaithful(doc: Bytes, g: Settings, depth: nat, low: nat, i: nat, index: nat, m: map<nat, Value>, v: Value)
    requires low < i <= |doc| && 1 <= depth
    requires ReadElements(doc, g, depth, i, index, m, v).Success?
    requires forall k: nat :: k in m <==> k < index
    requires InSequence(doc, g.f, m) && ElementsBetween(doc, g, low, i - 1, m)
    ensures var r := ReadElements(doc, g, depth, i, index, m, v);
            && r.v.payload.Array? && InSequence(doc, g.f, r.v.payload.elems)
            && ElementsBetween(doc, g, low, r.cur - 1, r.v.payload.elems)
    decreases |doc| - i, 1
  {
    hide SkipComments, ReadValue, Faithful, InSequence, ElementsBetween, ReadToken, NextToken, Drops, IsPlaceholder;
    var w := ElementAt(m, index);
    var r := ReadValue(doc, g, depth + 1, i, w);
    ValueSpan(doc, g, depth + 1, i, w);
    ValueFaithful(doc, g, depth + 1, i, w);
    var t := SkipComments(doc, g.f, r.cur);
    OneMoreElement(doc, g, low, i, m, index, r.v, t.end - 1);
    if t.typ == ArraySeparator {
      ElementsFaithful(doc, g, depth, low, t.end, index + 1, m[index := r.v], v);
    }
  }

  /** The offsets of every node of every successfully parsed tree are faithful, whatever the features. */
  lemma OffsetsFaithful(doc: Bytes, g: Settings, root: Value)
    ensures var r := Parse(doc, g, root); r.Done? && r.ok ==> Faithful(doc, g, r.root)
  {
    hide ReadValue, Faithful, NextToken;
    if ReadValue(doc, g, 1, 0, root).Success? {
      ValueFaithful(doc, g, 1, 0, root);
    }
  }

  lemma LoneSeparatorTokens(f: Features)
    ensures var doc: Bytes := [LBRACKET, COMMA, RBRACKET];
            && NextToken(doc, f, 0) == Token(ArrayBegin, 0, 1) && NextToken(doc, f, 3) == Token(EndOfStream, 3, 3)
            && NextToken(doc, f, 1) == Token(ArraySeparator, 1, 2) == SkipComments(doc, f, 1)
            && NextToken(doc, f, 2) == Token(ArrayEnd, 2, 3) == SkipComments(doc, f, 2)
  {
  }

  /** Why dropped nulls are set apart: of the two in `[,]` the first has the span of the bracket of its array. */
  lemma DroppedSpans(g: Settings, root: Value)
    requires g.f.allowDroppedNullPlaceholders && g.f.stackLimit >= 2
    ensures Parse([LBRACKET, COMMA, RBRACKET], g, root)
            == Done(true, [], Value(Array(map[0 := Value(Null, 0, 1), 1 := Value(Null, 1, 2)]), 0, 3))
  {
    hide ReadToken, NextToken, SkipComments;
    var doc: Bytes := [LBRACKET, COMMA, RBRACKET];
    var w := Value(root.payload, 0, root.limit);
    LoneSeparatorTokens(g.f);
    var first, second := Value(Null, 0, 1), Value(Null, 1, 2);
    assert ReadValue(doc, g, 2, 1, NULL_VALUE) == Success(1, first);
    assert ReadValue(doc, g, 2, 2, NULL_VALUE) == Success(2, second);
    assert ReadElements(doc, g, 1, 2, 1, map[0 := first], w) == Success(3, WithElems(w, map[0 := first][1 := second]));
    assert ReadElements(doc, g, 1, 1, 0, map[], w) == Success(3, WithElems(w, map[0 := first][1 := second]));
    assert SkipSpaces(doc, 1) == 1;
    assert ReadArray(doc, g, 1, 1, w) == Success(3, WithElems(w, map[0 := first][1 := second]));
    assert ReadValue(doc, g, 1, 0, root) == Success(3, Value(Array(map[0 := first][1 := second]), 0, 3));
  }
}
