/**
  What may stand between two tokens: blanks, and where the reader skips them, complete comments.
 */
module Gaps {
  import opened Basics
  import opened Lexer

  /** Behind the first end of a block comment in `s`, looking from `i`; 0 when there is none. */
  function BlockEnd(s: Bytes, i: nat): (n: nat)
    requires i <= |s|
    ensures n <= |s| && (n > 0 ==> n >= i + 2)
    decreases |s| - i
  {
    if i + 1 >= |s| then 0
    else if s[i] == STAR && s[i + 1] == SLASH then i + 2
    else BlockEnd(s, i + 1)
  }

  /** Behind the first end of line in `s`, looking from `i`; 0 when there is none. */
  function LineEnd(s: Bytes, i: nat): (n: nat)
    requires i <= |s|
    ensures n <= |s| && (n > 0 ==> n > i)
    decreases |s| - i
  {
    if i == |s| then 0
    else if s[i] == LF then i + 1
    else if s[i] == CR then (if i + 1 < |s| && s[i + 1] == LF then i + 2 else i + 1)
    else LineEnd(s, i + 1)
  }

  /** Which comments are skipped: none, those that begin with a slash, or those with an apostrophe for it as well. */
  datatype Comments = Never | Slashed | Quoted

  /** Where the loops of arrays and objects skip them: an apostrophe begins one unless it begins a string. */
  function Skipped(f: Features): Comments {
    if f.allowSingleQuotes then Slashed else Quoted
  }

  /** Where a value is called for. */
  function Early(f: Features): Comments {
    if f.allowComments then Skipped(f) else Never
  }

  /** Behind the root. */
  function Late(f: Features): Comments {
    if f.failIfExtra then Early(f) else Skipped(f)
  }

  predicate BeginsComment(b: Byte, comments: Comments) {
    match comments
    case Never => false
    case Slashed => b == SLASH
    case Quoted => b == SLASH || b == APOSTROPHE
  }

  /** The length of the complete comment at the front of `s`; 0 when there is none. */
  function CommentLength(s: Bytes, comments: Comments): (n: nat)
    ensures n <= |s|
  {
    if |s| < 2 || !BeginsComment(s[0], comments) then 0
    else if s[1] == STAR then BlockEnd(s, 2)
    else if s[1] == SLASH then LineEnd(s, 2)
    else 0
  }

  /** Blanks and complete comments. */
  predicate IsGap(s: Bytes, comments: Comments)
    decreases |s|
  {
    || s == []
    || (IsBlank(s[0]) && IsGap(s[1..], comments))
    || (CommentLength(s, comments) > 0 && IsGap(s[CommentLength(s, comments)..], comments))
  }

  lemma {:induction false} BlankIsGap(s: Bytes, comments: Comments)
    requires AllBlank(s)
    ensures IsGap(s, comments)
    decreases |s|
  {
    if s != [] {
      BlankIsGap(s[1..], comments);
    }
  }

  /** Blanks in front of a gap. */
  lemma {:induction false} BlankThenGap(s: Bytes, t: Bytes, comments: Comments)
    requires AllBlank(s) && IsGap(t, comments)
    ensures IsGap(s + t, comments)
    decreases |s|
  {
    if s == [] {
      assert s + t == t;
    } else {
      BlankThenGap(s[1..], t, comments);
      assert (s + t)[1..] == s[1..] + t;
    }
  }

  lemma {:induction false} GapWithoutComments(s: Bytes)
    ensures IsGap(s, Never) <==> AllBlank(s)
    decreases |s|
  {
    if s != [] {
      GapWithoutComments(s[1..]);
      assert forall k :: 0 < k < |s| ==> s[k] == s[1..][k - 1];
    }
  }

  /** What is allowed early is skipped anywhere. */
  lemma {:induction false} EarlyIsSkipped(s: Bytes, f: Features)
    ensures IsGap(s, Early(f)) <==> IsGap(s, Skipped(f)) && (!f.allowComments ==> AllBlank(s))
    ensures IsGap(s, Late(f)) ==> IsGap(s, Skipped(f))
  {
    GapWithoutComments(s);
    if AllBlank(s) {
      BlankIsGap(s, Skipped(f));
    }
  }

  // Scanning a comment

  lemma {:induction false} ScansBlock(doc: Bytes, a: nat, s: Bytes, i: nat)
    requires At(doc, a, s) && i <= |s| && BlockEnd(s, i) > 0
    ensures CStyleEnd(doc, a + i) + 1 == a + BlockEnd(s, i) <= |doc| && doc[a + BlockEnd(s, i) - 1] == SLASH
    decreases |s| - i
  {
    AtByte(doc, a, s, i);
    AtByte(doc, a, s, i + 1);
    if !(s[i] == STAR && s[i + 1] == SLASH) {
      ScansBlock(doc, a, s, i + 1);
    }
  }

  // The scanner takes the LF of a CRLF even where the comment's own text ends at the CR.
  predicate EndsComment(doc: Bytes, e: nat, n: nat) {
    e == n || (e == n + 1 && n < |doc| && doc[n] == LF)
  }

  lemma {:induction false} ScansLine(doc: Bytes, a: nat, s: Bytes, i: nat)
    requires At(doc, a, s) && i <= |s| && LineEnd(s, i) > 0
    ensures EndsComment(doc, CppStyleEnd(doc, a + i), a + LineEnd(s, i))
    decreases |s| - i
  {
    AtByte(doc, a, s, i);
    if s[i] == CR {
      if i + 1 < |s| {
        AtByte(doc, a, s, i + 1);
      }
    } else if s[i] != LF {
      ScansLine(doc, a, s, i + 1);
    }
  }

  /** A complete comment is one token. */
  lemma ScansComment(doc: Bytes, f: Features, i: nat, s: Bytes)
    requires At(doc, i, s) && CommentLength(s, Skipped(f)) > 0
    ensures var t := ReadToken(doc, f, i);
            t.typ == CommentToken && t.start == i && EndsComment(doc, t.end, i + CommentLength(s, Skipped(f)))
  {
    AtByte(doc, i, s, 0);
    AtByte(doc, i, s, 1);
    if s[1] == STAR {
      ScansBlock(doc, i, s, 2);
    } else {
      ScansLine(doc, i, s, 2);
    }
  }

  // What the reader sees behind a gap

  lemma BlankStep(doc: Bytes, f: Features, i: nat)
    requires i < |doc| && IsBlank(doc[i])
    ensures ReadToken(doc, f, i) == ReadToken(doc, f, i + 1)
    ensures SkipComments(doc, f, i) == SkipComments(doc, f, i + 1)
  {
    hide Classify;
  }

  lemma CommentStep(doc: Bytes, f: Features, i: nat, s: Bytes)
    requires At(doc, i, s) && CommentLength(s, Skipped(f)) > 0
    ensures SkipComments(doc, f, i) == SkipComments(doc, f, i + CommentLength(s, Skipped(f)))
  {
    hide ReadToken, CommentLength, At;
    ScansComment(doc, f, i, s);
    if ReadToken(doc, f, i).end == i + CommentLength(s, Skipped(f)) + 1 {
      BlankStep(doc, f, i + CommentLength(s, Skipped(f)));
    }
  }

  lemma AtTail(doc: Bytes, i: nat, s: Bytes, k: nat)
    requires At(doc, i, s) && k <= |s|
    ensures i + |s| <= |doc| && At(doc, i + k, s[k..]) && (s != [] ==> doc[i] == s[0])
  {
    assert s == s[..k] + s[k..];
    AtAppend(doc, i, s[..k], s[k..]);
    if s != [] {
      AtByte(doc, i, s, 0);
    }
  }

  /** Skipping comments from the front of a gap is skipping them from its end. */
  lemma {:induction false} SkipsGap(doc: Bytes, f: Features, i: nat, s: Bytes)
    requires At(doc, i, s) && IsGap(s, Skipped(f))
    ensures SkipComments(doc, f, i) == SkipComments(doc, f, i + |s|)
    decreases |s|
  {
    hide ReadToken, SkipComments, CommentLength, At;
    if s != [] {
      AtTail(doc, i, s, 1);
      if IsBlank(s[0]) && IsGap(s[1..], Skipped(f)) {
        BlankStep(doc, f, i);
        SkipsGap(doc, f, i + 1, s[1..]);
      } else {
        var n := CommentLength(s, Skipped(f));
        AtTail(doc, i, s, n);
        CommentStep(doc, f, i, s);
        SkipsGap(doc, f, i + n, s[n..]);
      }
    }
  }

  /** The first token met in a gap is a comment or the one behind the gap. */
  lemma {:induction false} FirstInGap(doc: Bytes, f: Features, i: nat, s: Bytes)
    requires At(doc, i, s) && IsGap(s, Skipped(f))
    ensures ReadToken(doc, f, i).typ == CommentToken || ReadToken(doc, f, i) == ReadToken(doc, f, i + |s|)
    ensures !AllBlank(s) ==> ReadToken(doc, f, i).typ == CommentToken
    ensures AllBlank(s) ==> ReadToken(doc, f, i) == ReadToken(doc, f, i + |s|)
    decreases |s|
  {
    hide ReadToken;
    if s != [] {
      AtTail(doc, i, s, 1);
      if IsBlank(s[0]) && IsGap(s[1..], Skipped(f)) {
        BlankStep(doc, f, i);
        FirstInGap(doc, f, i + 1, s[1..]);
      } else {
        ScansComment(doc, f, i, s);
      }
    }
  }

  /** Where comments are allowed a value is found behind any gap, elsewhere behind blanks. */
  lemma NextBehindGap(doc: Bytes, f: Features, i: nat, s: Bytes)
    requires At(doc, i, s) && IsGap(s, Early(f))
    ensures NextToken(doc, f, i) == NextToken(doc, f, i + |s|)
  {
    hide ReadToken, SkipComments;
    EarlyIsSkipped(s, f);
    if f.allowComments {
      SkipsGap(doc, f, i, s);
    } else {
      FirstInGap(doc, f, i, s);
    }
  }
}
