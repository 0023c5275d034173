/**
  An error is found reading from left to right: the bytes behind its token have no part in it. Any document that
  begins alike up to there, and does not extend that token, fails with the same error.
 */
module LeftToRight {
  import opened Basics
  import opened ErrorPlaces
  import opened Errors
  import opened Grammar
  import opened JsonStrings
  import opened Lexer
  import opened Prefixes
  import opened ReaderSpec
  import opened Shift
  import opened Values
  import S = Spans

  // Tokens that end at `k` or before, in a document that goes on.

  lemma AlikeCarries(doc: Bytes, other: Bytes, f: Features, k: nat)
    requires BeginAlike(doc, other, k) && StopsAt(other, k) && k < |doc|
    ensures S.Carries(doc, f, 0, other, k, S.Everywhere)
  {
    hide ReadToken;
    forall i: nat | i <= k ensures S.TokenCarries(doc, f, 0, other, k, S.Everywhere, i) {
      if Inside(ReadToken(doc, f, i), k) {
        AlikeToken(doc, other, f, k, i);
      }
    }
  }

  lemma EndsOfInput(doc: Bytes, f: Features, i: nat)
    requires i <= |doc|
    ensures ReadToken(doc, f, i).start == ReadToken(doc, f, i).end ==> ReadToken(doc, f, i).end == |doc|
  {
    hide Classify;
  }

  lemma AlikeNow(doc: Bytes, other: Bytes, f: Features, k: nat, i: nat)
    requires BeginAlike(doc, other, k) && StopsAt(other, k) && i <= k < |doc| && ReadToken(doc, f, i).end <= k
    ensures ReadToken(other, f, i) == ReadToken(doc, f, i)
  {
    hide ReadToken;
    EndsOfInput(doc, f, i);
    AlikeToken(doc, other, f, k, i);
  }

  lemma {:induction false} AlikeSkip(doc: Bytes, other: Bytes, f: Features, k: nat, i: nat)
    requires BeginAlike(doc, other, k) && StopsAt(other, k) && i <= k < |doc| && SkipComments(doc, f, i).end <= k
    ensures SkipComments(other, f, i) == SkipComments(doc, f, i)
    decreases k - i
  {
    hide ReadToken;
    AlikeNow(doc, other, f, k, i);
    var t := ReadToken(doc, f, i);
    if t.typ == CommentToken {
      AlikeSkip(doc, other, f, k, t.end);
    }
  }

  lemma AlikeNext(doc: Bytes, other: Bytes, f: Features, k: nat, i: nat)
    requires BeginAlike(doc, other, k) && StopsAt(other, k) && i <= k < |doc| && NextToken(doc, f, i).end <= k
    ensures NextToken(other, f, i) == NextToken(doc, f, i)
  {
    hide ReadToken, SkipComments;
    if f.allowComments {
      AlikeSkip(doc, other, f, k, i);
    } else {
      AlikeNow(doc, other, f, k, i);
    }
  }

  lemma AlikeText(doc: Bytes, other: Bytes, k: nat, t: Token)
    requires BeginAlike(doc, other, k) && t.start <= t.end <= k
    ensures TokenText(doc, t) == TokenText(other, t)
    ensures t.start + 2 <= t.end ==> TokenBody(doc, t) == TokenBody(other, t)
  {
  }

  lemma AlikeName(doc: Bytes, g: Settings, other: Bytes, k: nat, t: Token)
    requires BeginAlike(doc, other, k) && t.start <= t.end <= k && (t.typ == StringToken ==> t.start + 2 <= t.end)
    ensures MemberName(doc, g, t) == MemberName(other, g, t)
  {
    hide DecodeFrom, DecodeNumber;
    AlikeText(doc, other, k, t);
  }

  // Reading

  /** Both fail, with the same error. */
  predicate FailAlike(r: Read, s: Read) {
    r.Failure? && s.Failure? && r.e == s.e
  }

  /** Where the reader has looked when it records the error; a repeated key is noticed at its colon. */
  function Seen(doc: Bytes, f: Features, e: Error): (k: nat)
    requires e.limit <= |doc|
    ensures e.limit <= k <= |doc|
  {
    if e.message.DuplicateKey? then ReadToken(doc, f, e.limit).end else e.limit
  }

  predicate SeenBefore(doc: Bytes, f: Features, r: Read, k: nat) {
    r.Failure? && r.e.start < r.e.limit <= |doc| && Seen(doc, f, r.e) <= k
  }

  lemma ScalarAlike(doc: Bytes, g: Settings, other: Bytes, k: nat, t: Token, v: Value, w: Value)
    requires BeginAlike(doc, other, k) && t.start <= t.end <= k && (t.typ == StringToken ==> t.start + 2 <= t.end)
    requires ReadScalar(doc, g, t, v).Failure?
    ensures FailAlike(ReadScalar(doc, g, t, v), ReadScalar(other, g, t, w))
  {
    hide DecodeFrom, DecodeNumber;
    AlikeText(doc, other, k, t);
  }

  /** A value in front of the error is read alike. */
  lemma ValueAlike(doc: Bytes, g: Settings, other: Bytes, k: nat, depth: nat, i: nat, v: Value, w: Value)
    requires BeginAlike(doc, other, k) && StopsAt(other, k) && i <= k < |doc|
    requires ReadValue(doc, g, depth, i, v).Success? && ReadValue(doc, g, depth, i, v).cur < k
    ensures S.SameRead(ReadValue(doc, g, depth, i, v), ReadValue(other, g, depth, i, w), 0)
  {
    hide ReadValue, Erase, S.Carries, S.Drops;
    AlikeCarries(doc, other, g.f, k);
    S.ShiftValue(doc, g, 0, other, k, S.Everywhere, depth, depth, i, v, w);
  }

  lemma {:induction false} ValueFailsAlike(
      doc: Bytes, g: Settings, other: Bytes, k: nat, depth: nat, i: nat, v: Value, w: Value)
    requires BeginAlike(doc, other, k) && StopsAt(other, k) && i <= k < |doc| && k <= |other|
    requires SeenBefore(doc, g.f, ReadValue(doc, g, depth, i, v), k)
    ensures FailAlike(ReadValue(doc, g, depth, i, v), ReadValue(other, g, depth, i, w))
    decreases |doc| - i, 0
  {
    hide NextToken, ReadMembers, ReadArray, ReadScalar, ReadToken, BeginAlike, StopsAt, OnPath, IsTokenError;
    var t := NextToken(doc, g.f, i);
    var x, y := Value(v.payload, t.start, v.limit), Value(w.payload, t.start, w.limit);
    if t.typ == ObjectBegin {
      MembersKeep(doc, g, depth, t.end, [], map[], x);
      AlikeNext(doc, other, g.f, k, i);
      MembersFailAlike(doc, g, other, k, depth, t.end, [], map[], map[], x, y);
    } else if t.typ == ArrayBegin {
      ArrayKeeps(doc, g, depth, t.end, x);
      AlikeNext(doc, other, g.f, k, i);
      ArrayFailsAlike(doc, g, other, k, depth, t.end, x, y);
    } else {
      ScalarExplained(doc, g, t, v);
      AlikeNext(doc, other, g.f, k, i);
      ScalarAlike(doc, g, other, k, t, v, w);
    }
  }

  lemma {:induction false} ArrayFailsAlike(
      doc: Bytes, g: Settings, other: Bytes, k: nat, depth: nat, i: nat, v: Value, w: Value)
    requires BeginAlike(doc, other, k) && StopsAt(other, k) && i <= k < |doc| && k <= |other|
    requires SeenBefore(doc, g.f, ReadArray(doc, g, depth, i, v), k)
    ensures FailAlike(ReadArray(doc, g, depth, i, v), ReadArray(other, g, depth, i, w))
    decreases |doc| - i, 2
  {
    hide ReadArray, ReadElements, ReadToken, BeginAlike, StopsAt;
    S.ArrayByTokens(doc, g, depth, i, v);
    S.ArrayByTokens(other, g, depth, i, w);
    FirstBefore(doc, g, depth, i, v);
    AlikeNow(doc, other, g.f, k, i);
    ElementsFailAlike(doc, g, other, k, depth, i, 0, map[], map[], v, w);
  }

  /** The error of an array is at its first token or behind it. */
  lemma FirstBefore(doc: Bytes, g: Settings, depth: nat, i: nat, v: Value)
    requires i <= |doc| && ReadArray(doc, g, depth, i, v).Failure?
    ensures var e := ReadArray(doc, g, depth, i, v).e; e.start < e.limit ==> ReadToken(doc, g.f, i).end <= e.limit
  {
    hide ReadArray, ReadToken, IsTokenError;
    ArrayKeeps(doc, g, depth, i, v);
    var e := ReadArray(doc, g, depth, i, v).e;
    PathReaches(doc, g.f, i, e.start);
    TokenAtError(doc, g, e);
  }

  lemma TokenAtError(doc: Bytes, g: Settings, e: Error)
    requires IsTokenError(doc, g, e)
    ensures e.start <= e.limit <= |doc| && ReadToken(doc, g.f, e.start).start == e.start && ReadToken(doc, g.f, e.start).end == e.limit
  {
    hide ReadToken, Explains;
  }

  /** The first token of a path is at its end or before it. */
  lemma PathReaches(doc: Bytes, f: Features, i: nat, p: nat)
    requires i <= p <= |doc| && OnPath(doc, f, i, p)
    ensures var t := ReadToken(doc, f, i); t.end <= p || ReadToken(doc, f, p) == t
  {
    hide ReadToken;
    TokenAgain(doc, f, i);
  }

  lemma {:induction false} ElementsFailAlike(
      doc: Bytes, g: Settings, other: Bytes, k: nat, depth: nat, i: nat, index: nat,
      m: map<nat, Value>, l: map<nat, Value>, v: Value, w: Value)
    requires BeginAlike(doc, other, k) && StopsAt(other, k) && i <= k < |doc| && k <= |other|
    requires SeenBefore(doc, g.f, ReadElements(doc, g, depth, i, index, m, v), k)
    ensures FailAlike(ReadElements(doc, g, depth, i, index, m, v), ReadElements(other, g, depth, i, index, l, w))
    decreases |doc| - i, 1
  {
    hide ReadValue, SkipComments, ReadToken, BeginAlike, StopsAt, OnPath, IsTokenError, Erase, Recover, NextToken, Seen, IsContainer;
    var x, y := ElementAt(m, index), ElementAt(l, index);
    var r := ReadValue(doc, g, depth + 1, i, x);
    if r.Success? {
      var t := SkipComments(doc, g.f, r.cur);
      var next := m[index := r.v];
      if t.typ == ArraySeparator {
        ElementsKeep(doc, g, depth, t.end, index + 1, next, v);
      }
      ValueAlike(doc, g, other, k, depth + 1, i, x, y);
      AlikeSkip(doc, other, g.f, k, r.cur);
      if t.typ == ArraySeparator {
        var after := l[index := ReadValue(other, g, depth + 1, i, y).v];
        ElementsFailAlike(doc, g, other, k, depth, t.end, index + 1, next, after, v, w);
      }
    } else {
      ValueFailsAlike(doc, g, other, k, depth + 1, i, x, y);
    }
  }

  lemma {:induction false} MembersFailAlike(
      doc: Bytes, g: Settings, other: Bytes, k: nat, depth: nat, i: nat, name: Bytes,
      m: map<Bytes, Value>, l: map<Bytes, Value>, v: Value, w: Value)
    requires BeginAlike(doc, other, k) && StopsAt(other, k) && i <= k < |doc| && k <= |other| && m.Keys == l.Keys
    requires SeenBefore(doc, g.f, ReadMembers(doc, g, depth, i, name, m, v), k)
    ensures FailAlike(ReadMembers(doc, g, depth, i, name, m, v), ReadMembers(other, g, depth, i, name, l, w))
    decreases |doc| - i, 1
  {
    hide SkipComments, ReadMember, MemberName, ReadToken, BeginAlike, StopsAt, OnPath, IsTokenError, Recover;
    var t := SkipComments(doc, g.f, i);
    NameSeen(doc, g, depth, i, name, m, v);
    SkipOnPath(doc, g.f, i);
    AlikeSkip(doc, other, g.f, k, i);
    AlikeName(doc, g, other, k, t);
    if MemberName(doc, g, t).Named? {
      ColonSeen(doc, g, depth, t, MemberName(doc, g, t).name, m, v);
      MemberFailsAlike(doc, g, other, k, depth, t, MemberName(doc, g, t).name, m, l, v, w);
    }
  }

  lemma NameSeen(doc: Bytes, g: Settings, depth: nat, i: nat, name: Bytes, m: map<Bytes, Value>, v: Value)
    requires i <= |doc| && ReadMembers(doc, g, depth, i, name, m, v).Failure?
    ensures SkipComments(doc, g.f, i).end <= ReadMembers(doc, g, depth, i, name, m, v).e.limit
  {
    hide SkipComments, ReadMember, MemberName, ReadToken, OnPath, IsTokenError, Recover;
    var t := SkipComments(doc, g.f, i);
    SkipOnPath(doc, g.f, i);
    match MemberName(doc, g, t)
    case NoName =>
    case BadName(e) => BadNameLimit(doc, g, t);
    case Named(n) =>
      MemberKeeps(doc, g, depth, t, n, m, v);
      TokenAtError(doc, g, ReadMember(doc, g, depth, t, n, m, v).e);
  }

  /** The token behind a name is seen before any error from there on. */
  lemma ColonSeen(doc: Bytes, g: Settings, depth: nat, t: Token, n: Bytes, m: map<Bytes, Value>, v: Value)
    requires t.start < t.end <= |doc| && ReadMember(doc, g, depth, t, n, m, v).Failure?
    ensures ReadToken(doc, g.f, t.end).end <= Seen(doc, g.f, ReadMember(doc, g, depth, t, n, m, v).e)
  {
    hide ReadToken, ReadValue, ReadMembers, SkipComments, S.MemberEnd, OnPath, IsTokenError, Recover;
    var colon := ReadToken(doc, g.f, t.end);
    if colon.typ == MemberSeparator && !(g.f.rejectDupKeys && n in m) {
      var r := ReadValue(doc, g, depth + 1, colon.end, S.Current(m, n));
      ValueKeeps(doc, g, depth + 1, colon.end, S.Current(m, n));
      if r.Success? {
        S.MemberGoesOn(doc, g, depth, t, n, m, v);
        EndSeen(doc, g, depth, r.cur, n, m[n := r.v], v);
        S.SkipCommentsPast(doc, g.f, r.cur);
      }
    }
  }

  lemma BadNameLimit(doc: Bytes, g: Settings, t: Token)
    requires t.start <= t.end <= |doc| && (t.typ == StringToken ==> t.start + 2 <= t.end)
    requires MemberName(doc, g, t).BadName?
    ensures MemberName(doc, g, t).e.limit == t.end
  {
    hide DecodeNumber, DecodeFrom;
  }

  lemma {:induction false} MemberFailsAlike(
      doc: Bytes, g: Settings, other: Bytes, k: nat, depth: nat, t: Token, n: Bytes,
      m: map<Bytes, Value>, l: map<Bytes, Value>, v: Value, w: Value)
    requires BeginAlike(doc, other, k) && StopsAt(other, k) && t.start < t.end <= k < |doc| && k <= |other| && m.Keys == l.Keys
    requires SeenBefore(doc, g.f, ReadMember(doc, g, depth, t, n, m, v), k)
    requires ReadToken(doc, g.f, t.end).end <= k
    ensures FailAlike(ReadMember(doc, g, depth, t, n, m, v), ReadMember(other, g, depth, t, n, l, w))
    decreases |doc| - t.end, 3
  {
    hide ReadToken, ReadValue, SkipComments, ReadMembers, OnPath, IsTokenError, Recover, BeginAlike, StopsAt, Erase, S.MemberEnd;
    var colon := ReadToken(doc, g.f, t.end);
    AlikeNow(doc, other, g.f, k, t.end);
    if colon.typ == MemberSeparator && !(g.f.rejectDupKeys && n in m) {
      var x, y := S.Current(m, n), S.Current(l, n);
      var r := ReadValue(doc, g, depth + 1, colon.end, x);
      if r.Success? {
        S.MemberGoesOn(doc, g, depth, t, n, m, v);
        EndSeen(doc, g, depth, r.cur, n, m[n := r.v], v);
        ValueAlike(doc, g, other, k, depth + 1, colon.end, x, y);
        S.MemberGoesOn(other, g, depth, t, n, l, w);
        var z := ReadValue(other, g, depth + 1, colon.end, y).v;
        KeysStay(m, l, n, r.v, z);
        EndFailsAlike(doc, g, other, k, depth, r.cur, n, m[n := r.v], l[n := z], v, w);
      } else {
        ValueFailsAlike(doc, g, other, k, depth + 1, colon.end, x, y);
      }
    }
  }

  lemma KeysStay(m: map<Bytes, Value>, l: map<Bytes, Value>, n: Bytes, x: Value, y: Value)
    requires m.Keys == l.Keys
    ensures m[n := x].Keys == l[n := y].Keys
  {
  }

  /** What stands behind the value of a member is not behind the error found there. */
  lemma EndSeen(doc: Bytes, g: Settings, depth: nat, cur: nat, n: Bytes, m: map<Bytes, Value>, v: Value)
    requires cur <= |doc| && S.MemberEnd(doc, g, depth, cur, n, m, v).Failure?
    ensures var e, comma, next := S.MemberEnd(doc, g, depth, cur, n, m, v).e, ReadToken(doc, g.f, cur), SkipComments(doc, g.f, cur);
            if comma.typ in {ObjectEnd, ArraySeparator, CommentToken} then next.end <= e.start
            else e.start == comma.start && e.limit == comma.end
  {
    hide ReadToken, ReadMembers, SkipComments, OnPath, IsTokenError, Recover;
    MembersKeep(doc, g, depth, SkipComments(doc, g.f, cur).end, n, m, v);
  }

  lemma {:induction false} EndFailsAlike(
      doc: Bytes, g: Settings, other: Bytes, k: nat, depth: nat, cur: nat, n: Bytes,
      m: map<Bytes, Value>, l: map<Bytes, Value>, v: Value, w: Value)
    requires BeginAlike(doc, other, k) && StopsAt(other, k) && cur <= k < |doc| && k <= |other| && m.Keys == l.Keys
    requires SeenBefore(doc, g.f, S.MemberEnd(doc, g, depth, cur, n, m, v), k)
    ensures FailAlike(S.MemberEnd(doc, g, depth, cur, n, m, v), S.MemberEnd(other, g, depth, cur, n, l, w))
    decreases |doc| - cur, 2
  {
    hide ReadToken, ReadMembers, SkipComments, OnPath, IsTokenError, Recover, BeginAlike, StopsAt;
    var comma, next := ReadToken(doc, g.f, cur), SkipComments(doc, g.f, cur);
    EndSeen(doc, g, depth, cur, n, m, v);
    S.SkipCommentsPast(doc, g.f, cur);
    AlikeNow(doc, other, g.f, k, cur);
    if comma.typ in {ObjectEnd, ArraySeparator, CommentToken} {
      AlikeSkip(doc, other, g.f, k, cur);
      MembersFailAlike(doc, g, other, k, depth, next.end, n, m, l, v, w);
    }
  }

  /**
    The bytes behind the error's token have no part in the error: every document that begins with the same bytes and
    does not extend the token fails with the same error, the document cut off behind the token among them.
   */
  lemma ErrorLooksNoFurther(doc: Bytes, g: Settings, other: Bytes, v: Value, w: Value)
    requires ReadValue(doc, g, 1, 0, v).Failure?
    requires var k := Seen(doc, g.f, ReadValue(doc, g, 1, 0, v).e);
             k < |doc| && k <= |other| && BeginAlike(doc, other, k) && StopsAt(other, k)
    ensures FailAlike(ReadValue(doc, g, 1, 0, v), ReadValue(other, g, 1, 0, w))
  {
    hide ReadValue, ReadToken, OnPath, BeginAlike, StopsAt;
    ValueKeeps(doc, g, 1, 0, v);
    var e := ReadValue(doc, g, 1, 0, v).e;
    TokenAtError(doc, g, e);
    EndsOfInput(doc, g.f, e.start);
    ValueFailsAlike(doc, g, other, Seen(doc, g.f, e), 1, 0, v, w);
  }

  /** Cutting the document off behind what has been read keeps its first error. */
  lemma CutKeepsError(doc: Bytes, g: Settings, root: Value)
    requires ReadValue(doc, g, 1, 0, root).Failure?
    ensures var e := ReadValue(doc, g, 1, 0, root).e; var cut := Parse(doc[..Seen(doc, g.f, e)], g, root);
            cut.Done? && !cut.ok && cut.errors != [] && cut.errors[0] == e == Parse(doc, g, root).errors[0]
  {
    hide ReadValue, ReadToken, NextToken;
    var k := Seen(doc, g.f, ReadValue(doc, g, 1, 0, root).e);
    if k < |doc| {
      ErrorLooksNoFurther(doc, g, doc[..k], root, root);
    } else {
      assert doc[..k] == doc;
    }
  }
}
