/**
  Where an error is: at a token of the document that is reached by reading tokens one after the other,
  and nothing behind that token has a part in it.
 */
module ErrorPlaces {
  import opened Basics
  import opened Errors
  import opened Escapes
  import opened Grammar
  import opened JsonStrings
  import opened Lexer
  import opened ReaderSpec
  import opened Values
  import S = Spans

  // Paths of tokens

  /** Reading tokens one after the other from `i` gets to `p`: to the start or to the end of one. */
  predicate OnPath(doc: Bytes, f: Features, i: nat, p: nat)
    requires i <= |doc|
    decreases |doc| - i
  {
    var t := ReadToken(doc, f, i);
    i == p || t.start == p || (t.start < t.end <= p && OnPath(doc, f, t.end, p))
  }

  lemma TokenAgain(doc: Bytes, f: Features, i: nat)
    requires i <= |doc|
    ensures var t := ReadToken(doc, f, i); t.start <= |doc| && ReadToken(doc, f, t.start) == t
  {
    hide Classify;
  }

  lemma {:induction false} PathsJoin(doc: Bytes, f: Features, i: nat, p: nat, k: nat)
    requires i <= |doc| && p <= |doc| && OnPath(doc, f, i, p) && OnPath(doc, f, p, k) && i <= p
    ensures OnPath(doc, f, i, k)
    decreases |doc| - i
  {
    hide ReadToken;
    var t := ReadToken(doc, f, i);
    if i != p && t.start == p {
      TokenAgain(doc, f, i);
    } else if i != p {
      PathsJoin(doc, f, t.end, p, k);
    }
  }

  lemma TokenEndOnPath(doc: Bytes, f: Features, i: nat)
    requires i <= |doc|
    ensures var t := ReadToken(doc, f, i); t.start < t.end ==> OnPath(doc, f, i, t.end)
  {
    hide ReadToken;
    var t := ReadToken(doc, f, i);
    if t.start < t.end {
      assert OnPath(doc, f, t.end, t.end);
    }
  }

  lemma {:induction false} SkipOnPath(doc: Bytes, f: Features, i: nat)
    requires i <= |doc|
    ensures var t := SkipComments(doc, f, i);
            OnPath(doc, f, i, t.start) && (t.start < t.end ==> OnPath(doc, f, i, t.end)) && ReadToken(doc, f, t.start) == t
    decreases |doc| - i
  {
    hide ReadToken;
    var c := ReadToken(doc, f, i);
    TokenEndOnPath(doc, f, i);
    TokenAgain(doc, f, i);
    if c.typ == CommentToken {
      SkipOnPath(doc, f, c.end);
    }
  }

  lemma NextOnPath(doc: Bytes, f: Features, i: nat)
    requires i <= |doc|
    ensures var t := NextToken(doc, f, i);
            OnPath(doc, f, i, t.start) && (t.start < t.end ==> OnPath(doc, f, i, t.end)) && ReadToken(doc, f, t.start) == t
  {
    hide ReadToken, SkipComments;
    TokenEndOnPath(doc, f, i);
    TokenAgain(doc, f, i);
    SkipOnPath(doc, f, i);
  }

  // Errors are on the path

  // The tokens a value can begin with.
  const VALUE_BEGINNINGS := {ObjectBegin, ArrayBegin, StringToken, NumberToken, TrueToken, FalseToken, NullToken,
                             NaNToken, PosInfToken, NegInfToken}

  /** What is wrong with the token an error names, by the error's message; only a bad string has a further place. */
  predicate Explains(doc: Bytes, g: Settings, t: Token, message: Message, extra: Option<nat>)
    requires t.start <= t.end <= |doc|
    requires t.typ == StringToken ==> t.start + 2 <= t.end
  {
    if extra.Some? then
      t.typ == StringToken && extra.value > t.start && DecodeFrom(TokenBody(doc, t), 0) == Bad(message, extra.value - t.start - 1)
    else
      match message
      case ValueExpected => t.typ !in VALUE_BEGINNINGS && !(g.f.allowDroppedNullPlaceholders && IsUnreadable(t))
      case MissingColon => t.typ != MemberSeparator
      case MissingCommaOrBrace => t.typ !in {ArraySeparator, ObjectEnd, CommentToken}
      case MissingCommaOrBracket => t.typ !in {ArraySeparator, ArrayEnd, CommentToken}
      case MissingBraceOrName => t.typ !in {StringToken, CommentToken} && !(t.typ == NumberToken && g.f.allowNumericKeys)
      case NotANumber(text) => t.typ == NumberToken && text == TokenText(doc, t) && DecodeNumber(text, g) == None
      case DuplicateKey(n) =>
        g.f.rejectDupKeys && MemberName(doc, g, t) == Named(n) && ReadToken(doc, g.f, t.end).typ == MemberSeparator
      case _ => false
  }

  /** A token begins at the error and ends where the error does, and is what the message says. */
  predicate IsTokenError(doc: Bytes, g: Settings, e: Error) {
    && e.start <= e.limit <= |doc|
    && var t := ReadToken(doc, g.f, e.start);
       t.start == e.start && t.end == e.limit && Explains(doc, g, t, e.message, e.extra)
  }

  /** A read that succeeds ends on the path; an error is at a token on the path. */
  predicate KeepsPath(doc: Bytes, g: Settings, i: nat, r: Read)
    requires i <= |doc|
  {
    && (r.Success? ==> i <= r.cur <= |doc| && OnPath(doc, g.f, i, r.cur))
    && (r.Failure? ==> i <= r.e.start && OnPath(doc, g.f, i, r.e.start) && IsTokenError(doc, g, r.e))
  }

  lemma KeepsFrom(doc: Bytes, g: Settings, i: nat, p: nat, r: Read)
    requires i <= p <= |doc| && OnPath(doc, g.f, i, p) && KeepsPath(doc, g, p, r)
    ensures KeepsPath(doc, g, i, r)
  {
    hide ReadToken, OnPath;
    if r.Success? {
      PathsJoin(doc, g.f, i, p, r.cur);
    } else if r.Failure? {
      PathsJoin(doc, g.f, i, p, r.e.start);
    }
  }

  lemma ScalarExplained(doc: Bytes, g: Settings, t: Token, v: Value)
    requires t.start <= t.end <= |doc| && (t.typ == StringToken ==> t.start + 2 <= t.end)
    requires ReadScalar(doc, g, t, v).Failure? && t.typ != ObjectBegin && t.typ != ArrayBegin
    ensures var e := ReadScalar(doc, g, t, v).e; e.start == t.start && e.limit == t.end && Explains(doc, g, t, e.message, e.extra)
  {
    hide ReadToken, DecodeNumber, DecodeFrom;
  }

  lemma ScalarKeeps(doc: Bytes, g: Settings, i: nat, v: Value)
    requires i <= |doc| && NextToken(doc, g.f, i).typ != ObjectBegin && NextToken(doc, g.f, i).typ != ArrayBegin
    ensures KeepsPath(doc, g, i, ReadScalar(doc, g, NextToken(doc, g.f, i), v))
  {
    hide ReadToken, NextToken, OnPath, DecodeNumber, DecodeFrom, Explains;
    NextOnPath(doc, g.f, i);
    var t := NextToken(doc, g.f, i);
    if ReadScalar(doc, g, t, v).Failure? {
      ScalarExplained(doc, g, t, v);
    }
    S.NextTokenLength(doc, g.f, i);
    if g.f.allowDroppedNullPlaceholders && IsUnreadable(t) {
      S.DroppedScalar(doc, g, t, v);
    }
  }

  /** Every error in a tree is at a token of the document, on the path. */
  lemma {:induction false} ValueKeeps(doc: Bytes, g: Settings, depth: nat, i: nat, v: Value)
    requires i <= |doc|
    ensures KeepsPath(doc, g, i, ReadValue(doc, g, depth, i, v))
    decreases |doc| - i, 0
  {
    hide NextToken, ReadMembers, ReadArray, ReadScalar, OnPath, ReadToken;
    if depth <= g.f.stackLimit {
      var t := NextToken(doc, g.f, i);
      var w := Value(v.payload, t.start, v.limit);
      NextOnPath(doc, g.f, i);
      if t.typ == ObjectBegin {
        MembersKeep(doc, g, depth, t.end, [], map[], w);
        KeepsFrom(doc, g, i, t.end, ReadMembers(doc, g, depth, t.end, [], map[], w));
      } else if t.typ == ArrayBegin {
        ArrayKeeps(doc, g, depth, t.end, w);
        KeepsFrom(doc, g, i, t.end, ReadArray(doc, g, depth, t.end, w));
      } else {
        ScalarKeeps(doc, g, i, v);
      }
    }
  }

  lemma {:induction false} ArrayKeeps(doc: Bytes, g: Settings, depth: nat, i: nat, v: Value)
    requires i <= |doc|
    ensures KeepsPath(doc, g, i, ReadArray(doc, g, depth, i, v))
    decreases |doc| - i, 2
  {
    hide ReadArray, ReadElements, OnPath, ReadToken;
    S.ArrayByTokens(doc, g, depth, i, v);
    if ReadToken(doc, g.f, i).typ == ArrayEnd {
      TokenEndOnPath(doc, g.f, i);
    } else {
      ElementsKeep(doc, g, depth, i, 0, map[], v);
    }
  }

  lemma {:induction false} ElementsKeep(doc: Bytes, g: Settings, depth: nat, i: nat, index: nat, m: map<nat, Value>, v: Value)
    requires i <= |doc|
    ensures KeepsPath(doc, g, i, ReadElements(doc, g, depth, i, index, m, v))
    decreases |doc| - i, 1
  {
    hide ReadValue, SkipComments, OnPath, ReadToken, IsTokenError, Recover;
    var r := ReadValue(doc, g, depth + 1, i, ElementAt(m, index));
    ValueKeeps(doc, g, depth + 1, i, ElementAt(m, index));
    if r.Success? {
      var t := SkipComments(doc, g.f, r.cur);
      SkipOnPath(doc, g.f, r.cur);
      PathsJoin(doc, g.f, i, r.cur, t.start);
      if t.typ == ArraySeparator {
        var next := m[index := r.v];
        ElementsKeep(doc, g, depth, t.end, index + 1, next, v);
        PathsJoin(doc, g.f, i, r.cur, t.end);
        KeepsFrom(doc, g, i, t.end, ReadElements(doc, g, depth, t.end, index + 1, next, v));
      } else if t.typ == ArrayEnd {
        PathsJoin(doc, g.f, i, r.cur, t.end);
      } else {
        IsItsOwnError(doc, g, t, MissingCommaOrBracket);
      }
    }
  }

  lemma IsItsOwnError(doc: Bytes, g: Settings, t: Token, m: Message)
    requires t.start <= t.end <= |doc| && ReadToken(doc, g.f, t.start) == t && Explains(doc, g, t, m, None)
    ensures IsTokenError(doc, g, TokenError(t, m))
  {
    hide ReadToken, Explains;
  }

  lemma {:induction false} MembersKeep(
      doc: Bytes, g: Settings, depth: nat, i: nat, name: Bytes, m: map<Bytes, Value>, v: Value)
    requires i <= |doc|
    ensures KeepsPath(doc, g, i, ReadMembers(doc, g, depth, i, name, m, v))
    decreases |doc| - i, 1
  {
    hide SkipComments, ReadMember, MemberName, OnPath, ReadToken, IsTokenError, Recover;
    var t := SkipComments(doc, g.f, i);
    SkipOnPath(doc, g.f, i);
    if !(t.typ == ObjectEnd && name == []) {
      match MemberName(doc, g, t)
      case NoName =>
        NoNameExplained(doc, g, t);
        IsItsOwnError(doc, g, t, MissingBraceOrName);
      case BadName(e) => BadNamePlace(doc, g, t);
      case Named(n) =>
        MemberKeeps(doc, g, depth, t, n, m, v);
        KeepsMember(doc, g, i, t, ReadMember(doc, g, depth, t, n, m, v));
    }
  }

  lemma NoNameExplained(doc: Bytes, g: Settings, t: Token)
    requires t.start <= t.end <= |doc| && (t.typ == StringToken ==> t.start + 2 <= t.end)
    requires MemberName(doc, g, t).NoName? && t.typ != CommentToken
    ensures Explains(doc, g, t, MissingBraceOrName, None)
  {
    hide ReadToken, DecodeNumber, DecodeFrom;
  }

  lemma BadNamePlace(doc: Bytes, g: Settings, t: Token)
    requires t.start <= t.end <= |doc| && (t.typ == StringToken ==> t.start + 2 <= t.end)
    requires ReadToken(doc, g.f, t.start) == t && MemberName(doc, g, t).BadName?
    ensures var e := MemberName(doc, g, t).e; e.start == t.start && IsTokenError(doc, g, e)
  {
    hide ReadToken, DecodeNumber, DecodeFrom;
  }

  // From behind the name back to the name itself, where a repeated key is reported.
  predicate KeepsMemberPath(doc: Bytes, g: Settings, t: Token, r: Read)
    requires t.start < t.end <= |doc|
  {
    || KeepsPath(doc, g, t.end, r)
    || (r.Failure? && r.e.message.DuplicateKey? && r.e.start == t.start && IsTokenError(doc, g, r.e))
  }

  lemma KeepsMember(doc: Bytes, g: Settings, i: nat, t: Token, r: Read)
    requires i <= t.start < t.end <= |doc| && OnPath(doc, g.f, i, t.start) && OnPath(doc, g.f, i, t.end)
    requires KeepsMemberPath(doc, g, t, r)
    ensures KeepsPath(doc, g, i, r)
  {
    hide ReadToken, OnPath, IsTokenError;
    if KeepsPath(doc, g, t.end, r) {
      KeepsFrom(doc, g, i, t.end, r);
    }
  }

  lemma {:induction false} MemberKeeps(
      doc: Bytes, g: Settings, depth: nat, t: Token, n: Bytes, m: map<Bytes, Value>, v: Value)
    requires t.start < t.end <= |doc| && ReadToken(doc, g.f, t.start) == t
    requires (t.typ == StringToken ==> t.start + 2 <= t.end) && MemberName(doc, g, t) == Named(n)
    ensures KeepsMemberPath(doc, g, t, ReadMember(doc, g, depth, t, n, m, v))
    decreases |doc| - t.end, 3
  {
    hide ReadToken, ReadValue, SkipComments, ReadMembers, OnPath, IsTokenError, Recover, MemberName;
    var colon := ReadToken(doc, g.f, t.end);
    TokenEndOnPath(doc, g.f, t.end);
    TokenAgain(doc, g.f, t.end);
    PathStart(doc, g.f, t.end);
    if colon.typ != MemberSeparator {
      IsItsOwnError(doc, g, colon, MissingColon);
    } else if |n| < KEY_LIMIT {
      if g.f.rejectDupKeys && n in m {
        IsItsOwnError(doc, g, t, DuplicateKey(n));
      } else {
        var w := S.Current(m, n);
        var r := ReadValue(doc, g, depth + 1, colon.end, w);
        ValueKeeps(doc, g, depth + 1, colon.end, w);
        KeepsFrom(doc, g, t.end, colon.end, r);
        if r.Success? {
          EndKeeps(doc, g, depth, t.end, r.cur, n, m[n := r.v], v);
        }
      }
    }
  }

  lemma PathStart(doc: Bytes, f: Features, i: nat)
    requires i <= |doc|
    ensures OnPath(doc, f, i, ReadToken(doc, f, i).start)
  {
    hide ReadToken;
  }

  // Behind the value of a member.
  lemma {:induction false} EndKeeps(
      doc: Bytes, g: Settings, depth: nat, i: nat, cur: nat, n: Bytes, m: map<Bytes, Value>, v: Value)
    requires i <= cur <= |doc| && OnPath(doc, g.f, i, cur)
    ensures var comma, next := ReadToken(doc, g.f, cur), SkipComments(doc, g.f, cur);
            if comma.typ !in {ObjectEnd, ArraySeparator, CommentToken} then
              OnPath(doc, g.f, i, comma.start) && i <= comma.start && IsTokenError(doc, g, TokenError(comma, MissingCommaOrBrace))
            else if next.typ == ObjectEnd then i <= next.end && OnPath(doc, g.f, i, next.end)
            else KeepsPath(doc, g, i, ReadMembers(doc, g, depth, next.end, n, m, v))
    decreases |doc| - cur, 2
  {
    hide ReadToken, SkipComments, ReadMembers, OnPath, IsTokenError;
    var comma, next := ReadToken(doc, g.f, cur), SkipComments(doc, g.f, cur);
    TokenAgain(doc, g.f, cur);
    PathStart(doc, g.f, cur);
    PathsJoin(doc, g.f, i, cur, comma.start);
    if comma.typ !in {ObjectEnd, ArraySeparator, CommentToken} {
      IsItsOwnError(doc, g, comma, MissingCommaOrBrace);
    }
    SkipOnPath(doc, g.f, cur);
    if next.start < next.end {
      PathsJoin(doc, g.f, i, cur, next.end);
      if next.typ != ObjectEnd {
        MembersKeep(doc, g, depth, next.end, n, m, v);
        KeepsFrom(doc, g, i, next.end, ReadMembers(doc, g, depth, next.end, n, m, v));
      }
    } else {
      PathsJoin(doc, g.f, i, cur, next.start);
      AtEndKeeps(doc, g, depth, i, next.end, n, m, v);
    }
  }

  // No token is left: the object is not closed.
  lemma AtEndKeeps(doc: Bytes, g: Settings, depth: nat, i: nat, p: nat, n: Bytes, m: map<Bytes, Value>, v: Value)
    requires i <= p <= |doc| && OnPath(doc, g.f, i, p) && ReadToken(doc, g.f, p) == Token(EndOfStream, p, p)
    ensures KeepsPath(doc, g, i, ReadMembers(doc, g, depth, p, n, m, v))
  {
    hide ReadToken, ReadMember, OnPath, Recover, DecodeFrom, DecodeNumber;
    var t := ReadToken(doc, g.f, p);
    assert SkipComments(doc, g.f, p) == t;
    NoNameExplained(doc, g, t);
    IsItsOwnError(doc, g, t, MissingBraceOrName);
  }

  /** The error of a parse that fails in the tree. */
  lemma ErrorIsAtToken(doc: Bytes, g: Settings, root: Value)
    requires ReadValue(doc, g, 1, 0, root).Failure?
    ensures var e := ReadValue(doc, g, 1, 0, root).e; var r := Parse(doc, g, root);
            && r.Done? && r.errors != [] && r.errors[0] == e
            && IsTokenError(doc, g, e) && OnPath(doc, g.f, 0, e.start)
  {
    hide ReadValue, ReadToken, NextToken, OnPath;
    ValueKeeps(doc, g, 1, 0, root);
  }

  /**
    The further place of a bad string: the string's bytes can be decoded up to an escape that is broken, and the
    place is behind what is wrong with it.
   */
  lemma StringErrorPlace(doc: Bytes, g: Settings, root: Value) returns (k: nat)
    requires ReadValue(doc, g, 1, 0, root).Failure? && ReadValue(doc, g, 1, 0, root).e.extra.Some?
    ensures var e := ReadValue(doc, g, 1, 0, root).e;
            && e.start + 2 <= e.limit <= |doc| && e.extra.value > e.start
            && var body := doc[e.start + 1..e.limit - 1];
               k <= |body| && DecodeFrom(body[..k], 0).Good? && Broken(body, k, e.message, e.extra.value - e.start - 1)
  {
    hide ReadValue, ReadToken, OnPath, Broken, DecodeFrom;
    ValueKeeps(doc, g, 1, 0, root);
    var e := ReadValue(doc, g, 1, 0, root).e;
    k := DecodingBreaks(TokenBody(doc, ReadToken(doc, g.f, e.start)), 0);
  }

  // Going on behind an error

  // What recovery looks for.
  predicate Stops(t: Token, until: TokenType) {
    t.typ == until || t.typ == EndOfStream
  }

  /** Recovery goes on behind the first token of the type, or the end of the input. */
  lemma {:induction false} RecoverStops(doc: Bytes, f: Features, i: nat, until: TokenType) returns (p: nat)
    requires i <= |doc|
    ensures i <= p <= |doc| && OnPath(doc, f, i, p)
    ensures var t := ReadToken(doc, f, p); t.start == p && Stops(t, until) && Recover(doc, f, i, until) == t.end
    ensures forall q: nat :: i <= q < p && OnPath(doc, f, i, q) ==> !StartsStop(doc, f, q, until)
    decreases |doc| - i
  {
    hide ReadToken;
    var t := ReadToken(doc, f, i);
    TokenAgain(doc, f, i);
    if Stops(t, until) {
      p := t.start;
    } else {
      p := RecoverStops(doc, f, t.end, until);
      forall q: nat | i <= q < p && OnPath(doc, f, i, q) ensures !StartsStop(doc, f, q, until) {
        if q >= t.end {
          assert OnPath(doc, f, t.end, q);
        }
      }
    }
  }

  predicate StartsStop(doc: Bytes, f: Features, q: nat, until: TokenType)
    requires q <= |doc|
  {
    var t := ReadToken(doc, f, q); t.start == q && Stops(t, until)
  }
}
