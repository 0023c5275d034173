/**
  White space as section 2 of RFC 8259 has it: space, horizontal tab, line feed, carriage return, and no
  other byte. It may stand in front of any token, and more of it anywhere between the tokens of a text
  changes nothing.
 */
module Whitespace {
  import opened Basics
  import opened Gaps
  import opened Grammar
  import opened Lexer
  import opened ReaderMeaning
  import opened ReaderSpec
  import opened Values

  predicate IsWhite(b: Byte) {
    b == 0x20 || b == 0x09 || b == 0x0A || b == 0x0D
  }

  predicate AllWhite(s: Bytes) {
    forall k :: 0 <= k < |s| ==> IsWhite(s[k])
  }

  /** A token is looked for behind these four bytes, and begins at any other. */
  lemma WhiteIsSkipped(doc: Bytes, f: Features, i: nat)
    requires i < |doc|
    ensures IsWhite(doc[i]) ==> ReadToken(doc, f, i) == ReadToken(doc, f, i + 1)
    ensures !IsWhite(doc[i]) ==> ReadToken(doc, f, i).start == i
  {
    hide Classify;
  }

  lemma {:induction false} WhiteStretch(doc: Bytes, f: Features, i: nat, w: Bytes)
    requires At(doc, i, w) && AllWhite(w)
    ensures ReadToken(doc, f, i) == ReadToken(doc, f, i + |w|)
    decreases |w|
  {
    hide ReadToken;
    if w != [] {
      AtByte(doc, i, w, 0);
      WhiteIsSkipped(doc, f, i);
      assert w == [w[0]] + w[1..];
      AtAppend(doc, i, [w[0]], w[1..]);
      WhiteStretch(doc, f, i + 1, w[1..]);
    }
  }

  // More white space between the tokens

  /** `t` is `s` with white space in front and behind. */
  ghost predicate Widened(s: Bytes, t: Bytes) {
    exists a, b :: AllWhite(a) && AllWhite(b) && t == a + s + b
  }

  /** The same tokens with more white space between them, anywhere and everywhere. */
  ghost predicate Respaced(c: Syntax, d: Syntax)
    decreases c
  {
    match c
    case ArrayText(items, blank) =>
      && d.ArrayText? && Widened(blank, d.blank) && |items| == |d.items| && (items != [] ==> d.blank == blank)
      && forall i :: 0 <= i < |items| ==> RespacedItem(items[i], d.items[i])
    case ObjectText(members, end) =>
      && d.ObjectText? && |members| == |d.members| && d.end.lead == end.lead && Widened(end.gap, d.end.gap)
      && (members != [] && end == CLOSED ==> d.end == CLOSED)
      && forall i :: 0 <= i < |members| ==>
           var m, n := members[i], d.members[i];
           && n.lead == m.lead && n.key == m.key && Widened(m.before, n.before) && Widened(m.beforeColon, n.beforeColon)
           && RespacedItem(m.value, n.value)
    case _ => d == c
  }

  ghost predicate RespacedItem(item: Item, other: Item)
    decreases item
  {
    && Widened(item.before, other.before) && Widened(item.after, other.after) && Respaced(item.v, other.v)
    && (item.v.Dropped? <==> other.v.Dropped?)
  }

  lemma WhiteIsBlank(s: Bytes)
    ensures AllWhite(s) <==> AllBlank(s)
  {
  }

  // A comment keeps its length when something follows, but for the line feed of a CRLF.
  lemma {:induction false} BlockGrows(s: Bytes, t: Bytes, i: nat)
    requires i <= |s| && BlockEnd(s, i) > 0
    ensures BlockEnd(s + t, i) == BlockEnd(s, i)
    decreases |s| - i
  {
    assert (s + t)[i] == s[i] && (s + t)[i + 1] == s[i + 1];
    if !(s[i] == STAR && s[i + 1] == SLASH) {
      BlockGrows(s, t, i + 1);
    }
  }

  lemma {:induction false} LineGrows(s: Bytes, t: Bytes, i: nat)
    requires i <= |s| && LineEnd(s, i) > 0
    ensures LineEnd(s + t, i) == LineEnd(s, i)
            || (LineEnd(s, i) == |s| && t != [] && t[0] == LF && LineEnd(s + t, i) == |s| + 1)
    decreases |s| - i
  {
    assert (s + t)[i] == s[i] && (i + 1 < |s| ==> (s + t)[i + 1] == s[i + 1]);
    if s[i] != LF && s[i] != CR {
      LineGrows(s, t, i + 1);
    }
  }

  lemma CommentGrows(s: Bytes, t: Bytes, comments: Comments)
    requires CommentLength(s, comments) > 0
    ensures var n := CommentLength(s + t, comments);
            n == CommentLength(s, comments) || (CommentLength(s, comments) == |s| && t != [] && t[0] == LF && n == |s| + 1)
  {
    assert (s + t)[0] == s[0] && (s + t)[1] == s[1];
    if s[1] == STAR {
      BlockGrows(s, t, 2);
    } else {
      LineGrows(s, t, 2);
    }
  }

  lemma {:induction false} GapThenBlank(s: Bytes, t: Bytes, comments: Comments)
    requires IsGap(s, comments) && AllBlank(t)
    ensures IsGap(s + t, comments)
    decreases |s|
  {
    hide CommentLength;
    if s == [] {
      assert s + t == t;
      BlankIsGap(t, comments);
    } else if IsBlank(s[0]) && IsGap(s[1..], comments) {
      GapThenBlank(s[1..], t, comments);
      assert (s + t)[1..] == s[1..] + t;
    } else {
      var n := CommentLength(s, comments);
      CommentGrows(s, t, comments);
      if CommentLength(s + t, comments) == n {
        GapThenBlank(s[n..], t, comments);
        assert (s + t)[n..] == s[n..] + t;
      } else {
        assert (s + t)[n + 1..] == t[1..];
        BlankIsGap(t[1..], comments);
      }
    }
  }

  lemma WidenedGap(s: Bytes, t: Bytes, comments: Comments)
    requires Widened(s, t)
    ensures IsGap(s, comments) ==> IsGap(t, comments)
    ensures AllBlank(s) <==> AllBlank(t)
  {
    hide IsGap;
    var a, b :| AllWhite(a) && AllWhite(b) && t == a + s + b;
    WhiteIsBlank(a);
    WhiteIsBlank(b);
    if IsGap(s, comments) {
      BlankThenGap(a, s, comments);
      GapThenBlank(a + s, b, comments);
    }
    assert forall k :: 0 <= k < |s| ==> s[k] == t[|a| + k];
  }

  /** The meaning stays the same. */
  lemma {:induction false} RespacedMeans(c: Syntax, d: Syntax, g: Settings)
    requires WellFormed(c, g) && Respaced(c, d)
    ensures WellFormed(d, g) && Denote(d, g) == Denote(c, g) && Depth(d) == Depth(c)
    decreases c, 1
  {
    hide Widened, IsGap, AllBlank, Separates;
    match c
    case ArrayText(items, blank) =>
      RespacedItems(items, d.items, g, map[], 0);
      WidenedGap(blank, d.blank, Never);
      if |items| == 1 {
        WidenedGap(items[0].before, d.items[0].before, Never);
        WidenedGap(items[0].after, d.items[0].after, Never);
      }
    case ObjectText(members, end) =>
      RespacedMembers(members, d.members, g, map[]);
      WidenedGap(end.gap, d.end.gap, Skipped(g.f));
      RespacedClosing(members, end, d.members, d.end, g.f);
    case _ =>
  }

  lemma RespacedClosing(members: seq<Member>, end: Closing, others: seq<Member>, other: Closing, f: Features)
    requires Closes(members, end, f) && |members| == |others| && other.lead == end.lead
    requires members != [] && end == CLOSED ==> other == CLOSED
    requires members != [] ==>
               var m, n := members[|members| - 1], others[|members| - 1];
               n.key == m.key && Widened(m.value.after, n.value.after) && (m.value.v.Dropped? <==> n.value.v.Dropped?)
    ensures Closes(others, other, f)
  {
    hide Widened, AllBlank, IsAnyToken;
    if members != [] {
      WidenedGap(members[|members| - 1].value.after, others[|members| - 1].value.after, Never);
    }
  }

  lemma RespacedGaps(item: Item, other: Item, early: Comments, late: Comments)
    requires RespacedItem(item, other) && ItemGaps(item, early, late)
    ensures ItemGaps(other, early, late)
  {
    hide Widened, IsGap;
    WidenedGap(item.before, other.before, early);
    WidenedGap(item.after, other.after, if item.v.Dropped? then early else late);
  }

  lemma {:induction false} RespacedItems(items: seq<Item>, others: seq<Item>, g: Settings, m: map<nat, Value>, n: nat)
    requires WellFormedItems(items, g) && |items| == |others|
    requires forall i :: 0 <= i < |items| ==> RespacedItem(items[i], others[i])
    ensures WellFormedItems(others, g) && DenoteItems(m, n, others, g) == DenoteItems(m, n, items, g)
    ensures ItemsDepth(others) == ItemsDepth(items)
    decreases items, 0
  {
    hide Widened, IsGap, ItemGaps, Denote;
    if items != [] {
      RespacedMeans(items[0].v, others[0].v, g);
      RespacedGaps(items[0], others[0], Early(g.f), Skipped(g.f));
      RespacedItems(items[1..], others[1..], g, m[n := Denote(items[0].v, g)], n + 1);
    }
  }

  lemma {:induction false} RespacedMembers(members: seq<Member>, others: seq<Member>, g: Settings, m: map<Bytes, Value>)
    requires WellFormedMembers(members, g) && |members| == |others|
    requires forall i :: 0 <= i < |members| ==>
               var x, y := members[i], others[i];
               && y.lead == x.lead && y.key == x.key && Widened(x.before, y.before) && Widened(x.beforeColon, y.beforeColon)
               && RespacedItem(x.value, y.value)
    ensures WellFormedMembers(others, g) && DenoteMembers(m, others, g) == DenoteMembers(m, members, g)
    ensures MembersDepth(others) == MembersDepth(members)
    ensures DistinctKeys(others) <==> DistinctKeys(members)
    decreases members, 0
  {
    hide Widened, IsGap, ItemGaps, Denote, AllBlank, IsAnyToken, KeyOf, WellFormedKey;
    SameKeys(others, members);
    if members != [] {
      var x, y := members[0], others[0];
      RespacedMeans(x.value.v, y.value.v, g);
      RespacedGaps(x.value, y.value, Early(g.f), Skipped(g.f));
      WidenedGap(x.before, y.before, Skipped(g.f));
      WidenedGap(x.beforeColon, y.beforeColon, Never);
      WidenedGap(x.value.after, y.value.after, Never);
      SameKeyOf(x, y);
      RespacedMembers(members[1..], others[1..], g, m[KeyOf(x) := Denote(x.value.v, g)]);
    }
  }

  lemma SameKeyOf(x: Member, y: Member)
    requires x.key == y.key
    ensures KeyOf(x) == KeyOf(y)
  {
  }

  /**
    White space put between any tokens of a text, around it and inside it: the document is read as before,
    to the same tree, or refused, or throws as before.
   */
  lemma WhitespaceDoesNotMatter(text: Item, other: Item, g: Settings, root: Value)
    requires IsGap(text.before, Early(g.f)) && IsGap(text.after, Late(g.f))
    requires WellFormed(text.v, g) && !text.v.Dropped? && RespacedItem(text, other)
    ensures var r, s := Parse(PrintItem(text), g, root), Parse(PrintItem(other), g, root);
            && (r.Thrown? <==> s.Thrown?)
            && (r.Done? ==> s.ok == r.ok && Erase(s.root) == Erase(r.root) && |s.errors| == |r.errors|)
  {
    hide Parse, PrintItem, WellFormed, IsGap, Widened, Denote, Depth, Respaced;
    RespacedMeans(text.v, other.v, g);
    RespacedKind(text.v, other.v);
    WidenedGap(text.before, other.before, Early(g.f));
    WidenedGap(text.after, other.after, Late(g.f));
    ParseMeaning(text, g, root);
    ParseMeaning(other, g, root);
  }

  lemma RespacedKind(c: Syntax, d: Syntax)
    requires Respaced(c, d)
    ensures (c.ArrayText? <==> d.ArrayText?) && (c.ObjectText? <==> d.ObjectText?)
  {
  }

  /** In particular a document is read alike with any white space in front of it and behind it. */
  lemma WhiteAround(w: Bytes, text: Item, z: Bytes, g: Settings, root: Value)
    requires IsGap(text.before, Early(g.f)) && IsGap(text.after, Late(g.f))
    requires WellFormed(text.v, g) && !text.v.Dropped? && AllWhite(w) && AllWhite(z)
    ensures var r, s := Parse(PrintItem(text), g, root), Parse(w + PrintItem(text) + z, g, root);
            (r.Thrown? <==> s.Thrown?) && (r.Done? ==> s.ok == r.ok && Erase(s.root) == Erase(r.root))
  {
    hide Parse, WellFormed, IsGap, Respaced, Print;
    var other := Item(w + text.before, text.v, text.after + z);
    var e: Bytes := [];
    assert AllWhite(e) && other.before == w + text.before + e && other.after == e + text.after + z;
    Unchanged(text.v);
    assert PrintItem(other) == w + PrintItem(text) + z;
    WhitespaceDoesNotMatter(text, other, g, root);
  }

  lemma NotWidened(s: Bytes)
    ensures Widened(s, s)
  {
    var e: Bytes := [];
    assert AllWhite(e) && s == e + s + e;
  }

  lemma {:induction false} Unchanged(c: Syntax)
    ensures Respaced(c, c)
    decreases c
  {
    hide Widened;
    match c
    case ArrayText(items, blank) =>
      NotWidened(blank);
      forall i | 0 <= i < |items| ensures RespacedItem(items[i], items[i]) {
        NotWidened(items[i].before);
        NotWidened(items[i].after);
        Unchanged(items[i].v);
      }
    case ObjectText(members, end) =>
      NotWidened(end.gap);
      forall i | 0 <= i < |members|
        ensures Widened(members[i].before, members[i].before) && Widened(members[i].beforeColon, members[i].beforeColon)
        ensures RespacedItem(members[i].value, members[i].value)
      {
        NotWidened(members[i].before);
        NotWidened(members[i].beforeColon);
        NotWidened(members[i].value.before);
        NotWidened(members[i].value.after);
        Unchanged(members[i].value.v);
      }
    case _ =>
  }
}
