/**
  Another document that begins like a given one and goes on differently from `k` on: what it has in common with the
  given one in front of `k`, and what stands at `k`.
 */
module GoingOn {
  import opened Basics
  import opened ErrorPlaces
  import opened Grammar
  import opened Lexer
  import opened Prefixes
  import opened ReaderSpec
  import opened Roomier
  import opened Shift
  import opened Values
  import L = Leniencies
  import R = ReaderMeaning
  import S = Spans

  /** No token of the document leans on its end: a comment that ends there is closed, and nothing is left open. */
  predicate Finished(doc: Bytes, f: Features) {
    forall i: nat :: i <= |doc| && OnPath(doc, f, 0, i) ==> IsFinished(doc, f, ReadToken(doc, f, i))
  }

  predicate IsFinished(doc: Bytes, f: Features, t: Token) {
    t.start < t.end ==> IsComplete(doc, f, t)
  }

  predicate Usable(doc: Bytes, f: Features, k: nat) {
    k < |doc| || (k == |doc| && Finished(doc, f))
  }

  /** The places of the document, up to `k`, that reading tokens one after the other comes by. */
  function Places(doc: Bytes, f: Features, k: nat): nat -> bool {
    (p: nat) => p <= k && (k < |doc| || OnPath(doc, f, 0, p))
  }

  lemma PlaceOn(doc: Bytes, f: Features, k: nat, i: nat, p: nat)
    requires i <= p <= k <= |doc| && Places(doc, f, k)(i) && OnPath(doc, f, i, p)
    ensures Places(doc, f, k)(p)
  {
    hide OnPath;
    if k == |doc| {
      PathsJoin(doc, f, 0, i, p);
    }
  }

  lemma PlaceCloses(doc: Bytes, f: Features, k: nat, i: nat)
    requires Usable(doc, f, k) && i <= k && Places(doc, f, k)(i)
    requires ReadToken(doc, f, i).start < ReadToken(doc, f, i).end <= k
    ensures IsComplete(doc, f, ReadToken(doc, f, i))
  {
    hide ReadToken, OnPath;
    assert k == |doc| ==> IsFinished(doc, f, ReadToken(doc, f, i));
  }

  /** A token in front of `k` is a token of both, and leads to another place. */
  lemma TokenOver(doc: Bytes, other: Bytes, f: Features, k: nat, i: nat)
    requires Usable(doc, f, k) && BeginAlike(doc, other, k) && StopsAt(other, k) && i <= k && Places(doc, f, k)(i)
    requires ReadToken(doc, f, i).start < ReadToken(doc, f, i).end <= k
    ensures var t := ReadToken(doc, f, i); ReadToken(other, f, i) == t && Places(doc, f, k)(t.start) && Places(doc, f, k)(t.end)
  {
    hide ReadToken, OnPath, StopsAt, IsComplete, BeginAlike;
    var t := ReadToken(doc, f, i);
    PlaceCloses(doc, f, k, i);
    AlikeToken(doc, other, f, k, i);
    PathStart(doc, f, i);
    TokenEndOnPath(doc, f, i);
    PlaceOn(doc, f, k, i, t.start);
    PlaceOn(doc, f, k, i, t.end);
  }

  lemma {:induction false} SkipOver(doc: Bytes, other: Bytes, f: Features, k: nat, i: nat)
    requires Usable(doc, f, k) && BeginAlike(doc, other, k) && StopsAt(other, k) && i <= k && Places(doc, f, k)(i)
    requires SkipComments(doc, f, i).start < SkipComments(doc, f, i).end <= k
    ensures var t := SkipComments(doc, f, i); SkipComments(other, f, i) == t && Places(doc, f, k)(t.start) && Places(doc, f, k)(t.end)
    decreases k - i
  {
    hide ReadToken, OnPath, StopsAt, BeginAlike, Usable, Places;
    TokenOver(doc, other, f, k, i);
    var t := ReadToken(doc, f, i);
    if t.typ == CommentToken {
      SkipOver(doc, other, f, k, t.end);
    }
  }

  lemma NextOver(doc: Bytes, other: Bytes, f: Features, k: nat, i: nat)
    requires Usable(doc, f, k) && BeginAlike(doc, other, k) && StopsAt(other, k) && i <= k && Places(doc, f, k)(i)
    requires NextToken(doc, f, i).start < NextToken(doc, f, i).end <= k
    ensures var t := NextToken(doc, f, i); NextToken(other, f, i) == t && Places(doc, f, k)(t.start) && Places(doc, f, k)(t.end)
  {
    hide ReadToken, SkipComments, OnPath, StopsAt, BeginAlike, Usable, Places;
    if f.allowComments {
      SkipOver(doc, other, f, k, i);
    } else {
      TokenOver(doc, other, f, k, i);
    }
  }

  /** From the last place in front of `k`, the other document gets to what stands at `k` there. */
  lemma ReachToken(doc: Bytes, other: Bytes, f: Features, k: nat, i: nat)
    requires BeginAlike(doc, other, k) && StopsAt(other, k) && i <= k < |other| && k <= |doc| && ReadToken(doc, f, i).start == k
    ensures ReadToken(other, f, i) == ReadToken(other, f, k)
  {
    hide Classify;
    AlikeSpaces(doc, other, k, i);
  }

  lemma {:induction false} ReachSkip(doc: Bytes, other: Bytes, f: Features, k: nat, i: nat)
    requires Usable(doc, f, k) && BeginAlike(doc, other, k) && StopsAt(other, k) && i <= k < |other| && Places(doc, f, k)(i)
    requires SkipComments(doc, f, i).start == k
    ensures SkipComments(other, f, i) == SkipComments(other, f, k)
    decreases k - i
  {
    hide ReadToken, OnPath, StopsAt, BeginAlike, Usable, Places;
    var t := ReadToken(doc, f, i);
    if t.typ == CommentToken {
      TokenOver(doc, other, f, k, i);
      ReachSkip(doc, other, f, k, t.end);
    } else {
      ReachToken(doc, other, f, k, i);
    }
  }

  lemma ReachNext(doc: Bytes, other: Bytes, f: Features, k: nat, i: nat)
    requires Usable(doc, f, k) && BeginAlike(doc, other, k) && StopsAt(other, k) && i <= k < |other| && Places(doc, f, k)(i)
    requires NextToken(doc, f, i).start == k
    ensures NextToken(other, f, i) == NextToken(other, f, k)
  {
    hide ReadToken, SkipComments, OnPath, StopsAt, BeginAlike, Usable, Places;
    if f.allowComments {
      ReachSkip(doc, other, f, k, i);
    } else {
      ReachToken(doc, other, f, k, i);
    }
  }

  lemma PlacesCarry(doc: Bytes, g: Settings, k: nat, other: Bytes)
    requires Usable(doc, g.f, k) && BeginAlike(doc, other, k) && StopsAt(other, k)
    ensures S.Carries(doc, Roomy(g).f, 0, other, k, Places(doc, g.f, k))
  {
    hide ReadToken, OnPath, StopsAt, Usable;
    var at := Places(doc, g.f, k);
    forall i: nat | i <= k && at(i) ensures S.TokenCarries(doc, Roomy(g).f, 0, other, k, at, i) {
      RoomyToken(doc, g, i);
      RoomyToken(other, g, i);
      if Inside(ReadToken(doc, g.f, i), k) {
        TokenOver(doc, other, g.f, k, i);
      }
    }
  }

  /** `other` begins like the document up to `k`, goes on with `y`, and does not extend it. */
  predicate Extends(doc: Bytes, k: nat, y: Bytes, other: Bytes) {
    BeginAlike(doc, other, k) && At(other, k, y) && StopsAt(other, k + |y|)
  }

  predicate Starts(y: Bytes) {
    y != [] && IsStop(y[0])
  }

  lemma ExtendsStops(doc: Bytes, k: nat, y: Bytes, other: Bytes)
    requires Extends(doc, k, y, other) && Starts(y)
    ensures BeginAlike(doc, other, k) && StopsAt(other, k) && k < |other| && other[k] == y[0]
  {
    AtByte(other, k, y, 0);
  }

  lemma ExtendsFront(doc: Bytes, k: nat, y: Bytes, z: Bytes, other: Bytes)
    requires Extends(doc, k, y + z, other) && Starts(z)
    ensures Extends(doc, k, y, other) && At(other, k + |y|, z)
  {
    AtAppend(other, k, y, z);
    AtByte(other, k + |y|, z, 0);
  }

  // What is put in front of the rest

  const EMPTY_ARRAY: Bytes := [LBRACKET, RBRACKET]
  const NEW_MEMBER: Bytes := [QUOTE, 0x61, QUOTE, COLON, LBRACKET, RBRACKET, RBRACE]

  /** Reading ends well at `end`, with an array or an object. */
  predicate Completed(r: Read, end: nat) {
    r.Success? && r.cur == end && IsContainer(r.v)
  }

  lemma MarkAt(other: Bytes, f: Features, k: nat)
    requires k < |other| && other[k] in [COMMA, RBRACKET, RBRACE, COLON]
    ensures var t := Token(R.PunctuationType(other[k]), k, k + 1);
            ReadToken(other, f, k) == t && SkipComments(other, f, k) == t && NextToken(other, f, k) == t
  {
    hide ReadToken, SkipComments, NextToken;
    R.SpacesStop(other, k);
    R.Punctuation(other, f, k, k);
  }

  lemma EmptyArrayAt(other: Bytes, g: Settings, depth: nat, k: nat, w: Value)
    requires At(other, k, EMPTY_ARRAY) && depth <= g.f.stackLimit
    ensures Completed(ReadValue(other, g, depth, k, w), k + 2)
  {
    hide NextToken, ReadElements;
    AtByte(other, k, EMPTY_ARRAY, 0);
    AtByte(other, k, EMPTY_ARRAY, 1);
    L.OpensAt(other, g.f, k);
    R.SpacesStop(other, k + 1);
  }

  lemma MemberBytes(other: Bytes, k: nat)
    requires At(other, k, NEW_MEMBER)
    ensures At(other, k, [QUOTE, 0x61, QUOTE]) && other[k + 3] == COLON && At(other, k + 3, NEW_MEMBER[3..])
  {
    assert NEW_MEMBER == NEW_MEMBER[..3] + NEW_MEMBER[3..];
    AtAppend(other, k, NEW_MEMBER[..3], NEW_MEMBER[3..]);
    AtByte(other, k, NEW_MEMBER, 3);
  }

  // From the colon to the closing brace.
  lemma ColonAt(other: Bytes, g: Settings, depth: nat, k: nat, t: Token, n: Bytes, m: map<Bytes, Value>, v: Value)
    requires At(other, k, NEW_MEMBER[3..]) && depth + 1 <= g.f.stackLimit && !g.f.rejectDupKeys
    requires t.start < t.end <= |other| && ReadToken(other, g.f, t.end) == ReadToken(other, g.f, k) && |n| < KEY_LIMIT
    ensures Completed(ReadMember(other, g, depth, t, n, m, v), k + 4)
  {
    hide ReadToken, SkipComments, ReadValue, ReadMembers, ReadMember;
    assert NEW_MEMBER[3..] == [COLON] + EMPTY_ARRAY + [RBRACE];
    AtAppend(other, k, [COLON] + EMPTY_ARRAY, [RBRACE]);
    AtAppend(other, k, [COLON], EMPTY_ARRAY);
    AtByte(other, k, [COLON], 0);
    AtByte(other, k + 3, [RBRACE], 0);
    MarkAt(other, g.f, k);
    EmptyArrayAt(other, g, depth + 1, k + 1, S.Current(m, n));
    MarkAt(other, g.f, k + 3);
    S.MemberGoesOn(other, g, depth, t, n, m, v);
  }

  /** A new member, and the end of the object. */
  lemma NewMemberAt(other: Bytes, g: Settings, depth: nat, k: nat, name: Bytes, m: map<Bytes, Value>, v: Value)
    requires At(other, k, NEW_MEMBER) && depth + 1 <= g.f.stackLimit && !g.f.rejectDupKeys
    ensures Completed(ReadMembers(other, g, depth, k, name, m, v), k + 7)
  {
    hide ReadToken, SkipComments, ReadMember, MemberName;
    MemberBytes(other, k);
    L.KeyAt(other, g, k, 0x61);
    ColonAt(other, g, depth, k + 3, Token(StringToken, k, k + 3), [0x61], m, v);
  }
}
