/** Settings that are more lenient about two things: what is read successfully is read the same with them. */
module Roomier {
  import opened Basics
  import opened Grammar
  import opened JsonStrings
  import opened Lexer
  import opened ReaderSpec
  import opened Values
  import S = Spans

  /** The completion may open one level more than the text did, and does not mind a repeated key. */
  function Roomy(g: Settings): Settings {
    g.(f := g.f.(rejectDupKeys := false, stackLimit := g.f.stackLimit + 1))
  }

  lemma RoomyToken(doc: Bytes, g: Settings, i: nat)
    requires i <= |doc|
    ensures ReadToken(doc, Roomy(g).f, i) == ReadToken(doc, g.f, i)
  {
    hide ScanString, ScanComment, ScanNumber, Match;
  }

  lemma {:induction false} RoomySkip(doc: Bytes, g: Settings, i: nat)
    requires i <= |doc|
    ensures SkipComments(doc, Roomy(g).f, i) == SkipComments(doc, g.f, i)
    decreases |doc| - i
  {
    hide ReadToken;
    RoomyToken(doc, g, i);
    var t := ReadToken(doc, g.f, i);
    if t.typ == CommentToken {
      RoomySkip(doc, g, t.end);
    }
  }

  lemma RoomyNext(doc: Bytes, g: Settings, i: nat)
    requires i <= |doc|
    ensures NextToken(doc, Roomy(g).f, i) == NextToken(doc, g.f, i)
  {
    hide ReadToken, SkipComments;
    RoomyToken(doc, g, i);
    RoomySkip(doc, g, i);
  }

  lemma RoomyScalar(doc: Bytes, g: Settings, t: Token, v: Value)
    requires t.start <= t.end <= |doc| && (t.typ == StringToken ==> t.start + 2 <= t.end)
    ensures ReadScalar(doc, Roomy(g), t, v) == ReadScalar(doc, g, t, v)
    ensures MemberName(doc, Roomy(g), t) == MemberName(doc, g, t)
  {
    hide DecodeFrom;
    if t.typ == NumberToken {
      assert DecodeNumber(TokenText(doc, t), Roomy(g)) == DecodeNumber(TokenText(doc, t), g);
    }
  }

  lemma {:induction false} RoomyValue(doc: Bytes, g: Settings, depth: nat, i: nat, v: Value)
    requires i <= |doc| && ReadValue(doc, g, depth, i, v).Success?
    ensures ReadValue(doc, Roomy(g), depth, i, v) == ReadValue(doc, g, depth, i, v)
    decreases |doc| - i, 0
  {
    hide NextToken, ReadMembers, ReadArray, ReadScalar;
    RoomyNext(doc, g, i);
    var t := NextToken(doc, g.f, i);
    var w := Value(v.payload, t.start, v.limit);
    if t.typ == ObjectBegin {
      RoomyMembers(doc, g, depth, t.end, [], map[], w);
    } else if t.typ == ArrayBegin {
      RoomyArray(doc, g, depth, t.end, w);
    } else {
      RoomyScalar(doc, g, t, v);
    }
  }

  lemma {:induction false} RoomyArray(doc: Bytes, g: Settings, depth: nat, i: nat, v: Value)
    requires i <= |doc| && ReadArray(doc, g, depth, i, v).Success?
    ensures ReadArray(doc, Roomy(g), depth, i, v) == ReadArray(doc, g, depth, i, v)
    decreases |doc| - i, 2
  {
    hide ReadElements;
    var j := SkipSpaces(doc, i);
    if !(j < |doc| && doc[j] == RBRACKET) {
      RoomyElements(doc, g, depth, j, 0, map[], v);
    }
  }

  lemma {:induction false} RoomyElements(doc: Bytes, g: Settings, depth: nat, i: nat, index: nat, m: map<nat, Value>, v: Value)
    requires i <= |doc| && ReadElements(doc, g, depth, i, index, m, v).Success?
    ensures ReadElements(doc, Roomy(g), depth, i, index, m, v) == ReadElements(doc, g, depth, i, index, m, v)
    decreases |doc| - i, 1
  {
    hide ReadValue, SkipComments;
    RoomyValue(doc, g, depth + 1, i, ElementAt(m, index));
    var r := ReadValue(doc, g, depth + 1, i, ElementAt(m, index));
    RoomySkip(doc, g, r.cur);
    var t := SkipComments(doc, g.f, r.cur);
    if t.typ == ArraySeparator {
      RoomyElements(doc, g, depth, t.end, index + 1, m[index := r.v], v);
    }
  }

  lemma {:induction false} RoomyMembers(
      doc: Bytes, g: Settings, depth: nat, i: nat, name: Bytes, m: map<Bytes, Value>, v: Value)
    requires i <= |doc| && ReadMembers(doc, g, depth, i, name, m, v).Success?
    ensures ReadMembers(doc, Roomy(g), depth, i, name, m, v) == ReadMembers(doc, g, depth, i, name, m, v)
    decreases |doc| - i, 1
  {
    hide SkipComments, ReadMember, MemberName, Recover;
    RoomySkip(doc, g, i);
    var t := SkipComments(doc, g.f, i);
    RoomyScalar(doc, g, t, v);
    if !(t.typ == ObjectEnd && name == []) {
      RoomyMember(doc, g, depth, t, MemberName(doc, g, t).name, m, v);
    }
  }

  lemma {:induction false} RoomyMember(
      doc: Bytes, g: Settings, depth: nat, t: Token, n: Bytes, m: map<Bytes, Value>, v: Value)
    requires t.start < t.end <= |doc| && ReadMember(doc, g, depth, t, n, m, v).Success?
    ensures ReadMember(doc, Roomy(g), depth, t, n, m, v) == ReadMember(doc, g, depth, t, n, m, v)
    decreases |doc| - t.end, 3
  {
    hide ReadToken, ReadValue, ReadMember, S.MemberEnd;
    S.MemberParts(doc, g, depth, t, n, m, v);
    S.MemberParts(doc, Roomy(g), depth, t, n, m, v);
    RoomyToken(doc, g, t.end);
    var colon := ReadToken(doc, g.f, t.end);
    var r := ReadValue(doc, g, depth + 1, colon.end, S.Current(m, n));
    RoomyValue(doc, g, depth + 1, colon.end, S.Current(m, n));
    RoomyEnd(doc, g, depth, r.cur, n, m[n := r.v], v);
  }

  lemma {:induction false} RoomyEnd(
      doc: Bytes, g: Settings, depth: nat, cur: nat, n: Bytes, m: map<Bytes, Value>, v: Value)
    requires cur <= |doc| && S.MemberEnd(doc, g, depth, cur, n, m, v).Success?
    ensures S.MemberEnd(doc, Roomy(g), depth, cur, n, m, v) == S.MemberEnd(doc, g, depth, cur, n, m, v)
    decreases |doc| - cur, 2
  {
    hide ReadToken, SkipComments, ReadMembers;
    RoomyToken(doc, g, cur);
    RoomySkip(doc, g, cur);
    var next := SkipComments(doc, g.f, cur);
    if next.typ != ObjectEnd {
      RoomyMembers(doc, g, depth, next.end, n, m, v);
    }
  }
}
