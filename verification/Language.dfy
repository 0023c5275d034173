/**
  Which documents the reader accepts: of the documents made of tokens, exactly the texts of the grammar.
  `ReaderMeaning` has one half of this, what becomes of the texts of the grammar; the other half is that
  nothing else passes.
 */
module Language {
  import opened Acceptance
  import opened Basics
  import opened ExtraText
  import opened Gaps
  import opened Grammar
  import opened JsonStrings
  import opened Lexer
  import opened ReaderMeaning
  import opened ReaderSpec
  import opened Separators
  import opened Shift
  import opened TokenTexts
  import opened Values
  import S = Spans

  /** From `i` on there is nothing that is no token, and no NUL byte outside a string or a comment. */
  predicate MadeOfTokens(doc: Bytes, f: Features, i: nat)
    requires i <= |doc|
    decreases |doc| - i
  {
    var t := ReadToken(doc, f, i);
    t.start == |doc| || (t.typ != ErrorToken && t.typ != EndOfStream && MadeOfTokens(doc, f, t.end))
  }

  // A good token, and the document goes on well behind it.
  predicate Sound(doc: Bytes, f: Features, t: Token) {
    && t.start <= t.end <= |doc| && t.typ != ErrorToken && MadeOfTokens(doc, f, t.start)
    && ReadToken(doc, f, t.start) == t
    && (t.typ == EndOfStream ==> t.start == |doc|)
    && (t.typ != EndOfStream ==>
          t.start < |doc| && Classify(doc, f, t.start) == (t.typ, (true, t.end)) && MadeOfTokens(doc, f, t.end))
  }

  lemma SoundToken(doc: Bytes, f: Features, i: nat)
    requires i <= |doc| && MadeOfTokens(doc, f, i)
    ensures var t := ReadToken(doc, f, i); Sound(doc, f, t) && AllBlank(doc[i..t.start]) && SkipSpaces(doc, i) == t.start
  {
    hide Classify;
  }

  // Comments

  /** A block comment that is followed by something is complete. */
  lemma {:induction false} BlockFrom(doc: Bytes, a: nat, end: nat, k: nat)
    requires a <= k <= |doc| && a <= end < |doc| && CStyleEnd(doc, k) + 1 <= end
    ensures k - a <= end - a && BlockEnd(doc[a..end], k - a) == CStyleEnd(doc, k) + 1 - a
    decreases |doc| - k
  {
    if !(doc[k] == STAR && doc[k + 1] == SLASH) {
      BlockFrom(doc, a, end, k + 1);
    }
  }

  lemma {:induction false} LineFrom(doc: Bytes, a: nat, end: nat, k: nat)
    requires a <= k <= |doc| && a <= end < |doc| && CppStyleEnd(doc, k) <= end
    ensures k - a <= end - a && LineEnd(doc[a..end], k - a) == CppStyleEnd(doc, k) - a
    decreases |doc| - k
  {
    if doc[k] != LF && doc[k] != CR {
      LineFrom(doc, a, end, k + 1);
    }
  }

  lemma CommentFrom(doc: Bytes, f: Features, a: nat, e: nat, end: nat)
    requires a < |doc| && Classify(doc, f, a) == (CommentToken, (true, e)) && e <= end < |doc|
    ensures CommentLength(doc[a..end], Skipped(f)) == e - a > 0
  {
    hide ScanNumber, ScanString, Match, CStyleEnd, CppStyleEnd;
    if doc[a + 1] == STAR {
      BlockFrom(doc, a, end, a + 2);
    } else {
      LineFrom(doc, a, end, a + 2);
    }
  }

  /** What is skipped before a token is a gap. */
  lemma {:induction false} SoundSkip(doc: Bytes, f: Features, i: nat)
    requires i <= |doc| && MadeOfTokens(doc, f, i)
    ensures var t := SkipComments(doc, f, i);
            && Sound(doc, f, t) && SkipComments(doc, f, t.start) == t
            && (t.typ != EndOfStream ==> IsGap(doc[i..t.start], Skipped(f)))
            && (ReadToken(doc, f, i).typ == CommentToken && t.typ != EndOfStream ==> !AllBlank(doc[i..t.start]))
            && (ReadToken(doc, f, i).typ != CommentToken ==> t == ReadToken(doc, f, i))
    decreases |doc| - i
  {
    hide ReadToken, Classify, MadeOfTokens, SkipSpaces, AllBlank, CommentLength;
    var c, t := ReadToken(doc, f, i), SkipComments(doc, f, i);
    SoundToken(doc, f, i);
    if c.typ == CommentToken {
      SoundSkip(doc, f, c.end);
      if t.typ != EndOfStream {
        CommentFrom(doc, f, c.start, c.end, t.start);
        CommentThenGap(doc, f, c.start, c.end, t.start);
        assert doc[i..t.start] == doc[i..c.start] + doc[c.start..t.start];
        BlankThenGap(doc[i..c.start], doc[c.start..t.start], Skipped(f));
        CommentNotBlank(doc, f, i, c, t.start);
      }
    } else {
      if t.typ != EndOfStream {
        BlankIsGap(doc[i..t.start], Skipped(f));
      }
    }
  }

  lemma CommentThenGap(doc: Bytes, f: Features, a: nat, e: nat, end: nat)
    requires a < e <= end <= |doc| && CommentLength(doc[a..end], Skipped(f)) == e - a && IsGap(doc[e..end], Skipped(f))
    ensures IsGap(doc[a..end], Skipped(f))
  {
    hide CommentLength;
    assert doc[a..end][e - a..] == doc[e..end];
  }

  lemma CommentNotBlank(doc: Bytes, f: Features, i: nat, c: Token, end: nat)
    requires i <= c.start < end <= |doc| && Sound(doc, f, c) && c.typ == CommentToken
    ensures !AllBlank(doc[i..end])
  {
    hide Classify;
    assert !IsBlank(doc[c.start]);
    assert doc[i..end][c.start - i] == doc[c.start];
  }

  /** The token a value begins with stands behind a gap that is allowed there. */
  lemma SoundNext(doc: Bytes, f: Features, i: nat)
    requires i <= |doc| && MadeOfTokens(doc, f, i)
    ensures var t := NextToken(doc, f, i);
            Sound(doc, f, t) && NextToken(doc, f, t.start) == t && (t.typ != EndOfStream ==> IsGap(doc[i..t.start], Early(f)))
  {
    hide ReadToken, Classify, MadeOfTokens, SkipSpaces, AllBlank, SkipComments;
    if f.allowComments {
      SoundSkip(doc, f, i);
    } else {
      SoundToken(doc, f, i);
      BlankIsGap(doc[i..ReadToken(doc, f, i).start], Never);
    }
  }

  // Values

  // The text of a value that was read from `i` on, behind a gap.
  predicate WroteValue(doc: Bytes, g: Settings, depth: nat, i: nat, r: Read, c: Syntax)
    requires i <= |doc|
  {
    var t := NextToken(doc, g.f, i);
    && t.start < |doc| && t.typ != EndOfStream && t.typ != CommentToken
    && WellFormed(c, g) && depth + Depth(c) - 1 <= g.f.stackLimit
    && (c.Dropped? <==> g.f.allowDroppedNullPlaceholders && IsUnreadable(t))
    && r.Success? && At(doc, t.start, Print(c)) && r.cur == t.start + |Print(c)| <= |doc|
    && MadeOfTokens(doc, g.f, r.cur)
    && (IsContainer(r.v) <==> c.ArrayText? || c.ObjectText?)
  }

  lemma ValueText(doc: Bytes, g: Settings, depth: nat, i: nat, v: Value) returns (c: Syntax)
    requires i <= |doc| && PlainFeatures(g.f) && MadeOfTokens(doc, g.f, i) && ReadValue(doc, g, depth, i, v).Success?
    ensures WroteValue(doc, g, depth, i, ReadValue(doc, g, depth, i, v), c)
    decreases |doc| - i, 0
  {
    hide ReadMembers, ReadArray, ReadScalar, ReadToken, NextToken, SkipComments, SkipSpaces, Classify, At, Print, WellFormed, AllBlank;
    hide IsGap, MadeOfTokens;
    SoundNext(doc, g.f, i);
    var t := NextToken(doc, g.f, i);
    var w := Value(v.payload, t.start, v.limit);
    if t.typ == ObjectBegin {
      PunctuationFrom(doc, g.f, t.start, t.typ, t.end);
      c := ObjectFrom(doc, g, depth, t.start, w);
      S.MembersSpan(doc, g, depth, t.end, [], map[], w);
    } else if t.typ == ArrayBegin {
      PunctuationFrom(doc, g.f, t.start, t.typ, t.end);
      c := ArrayFrom(doc, g, depth, t.start, w);
      S.ArraySpan(doc, g, depth, t.end, w);
    } else {
      S.ScalarIsLeaf(doc, g, t, v);
      ScalarNotEnd(doc, g, t, v);
      if g.f.allowDroppedNullPlaceholders && IsUnreadable(t) {
        PunctuationFrom(doc, g.f, t.start, t.typ, t.end);
        c := DroppedFrom(doc, g, t, v);
      } else {
        c := ScalarFrom(doc, g, t.start, v);
      }
      LeafDepth(c);
    }
  }

  lemma LeafDepth(c: Syntax)
    requires !c.ArrayText? && !c.ObjectText?
    ensures Depth(c) == 1
  {
  }

  lemma ScalarNotEnd(doc: Bytes, g: Settings, t: Token, v: Value)
    requires t.start <= t.end <= |doc| && (t.typ == StringToken ==> t.start + 2 <= t.end)
    requires ReadScalar(doc, g, t, v).Success?
    ensures t.typ != EndOfStream && t.typ != CommentToken
  {
  }

  lemma DroppedFrom(doc: Bytes, g: Settings, t: Token, v: Value) returns (c: Syntax)
    requires g.f.allowDroppedNullPlaceholders && IsUnreadable(t) && t.end == t.start + 1 <= |doc|
    ensures c.Dropped? && WellFormed(c, g) && At(doc, t.start, Print(c)) && Print(c) == []
    ensures ReadScalar(doc, g, t, v).Success? && ReadScalar(doc, g, t, v).cur == t.start
  {
    c := Dropped;
  }

  /** An item between `i` and the token behind it. */
  lemma ItemFrom(doc: Bytes, g: Settings, depth: nat, i: nat, r: Read, c: Syntax) returns (item: Item, q: nat)
    requires i <= |doc| && MadeOfTokens(doc, g.f, i) && WroteValue(doc, g, depth, i, r, c)
    requires SkipComments(doc, g.f, r.cur).typ != EndOfStream
    ensures ItemGaps(item, Early(g.f), Skipped(g.f)) && item.v == c
    ensures At(doc, i, PrintItem(item)) && q == i + |PrintItem(item)| < |doc|
    ensures q == SkipComments(doc, g.f, r.cur).start && Sound(doc, g.f, SkipComments(doc, g.f, r.cur))
    ensures IsEmptyItem(item) ==> SkipSpaces(doc, i) == q
    ensures ReadToken(doc, g.f, r.cur).typ == CommentToken ==> !c.Dropped? && !AllBlank(item.after)
    ensures ReadToken(doc, g.f, r.cur).typ != CommentToken ==> ReadToken(doc, g.f, r.cur) == SkipComments(doc, g.f, r.cur)
  {
    hide ReadToken, SkipComments, NextToken, SkipSpaces, Print, WellFormed, MadeOfTokens, AllBlank, Classify, Depth, IsGap;
    var t := NextToken(doc, g.f, i);
    SoundNext(doc, g.f, i);
    SoundSkip(doc, g.f, r.cur);
    q := SkipComments(doc, g.f, r.cur).start;
    item := Item(doc[i..t.start], c, doc[r.cur..q]);
    if c.Dropped? {
      DroppedPrintsNothing(c);
      EmptyGap(doc, r.cur, Early(g.f));
    }
    assert doc[i..q] == doc[i..t.start] + (doc[t.start..r.cur] + doc[r.cur..q]);
    SliceIsAt(doc, i, q);
    if IsEmptyItem(item) {
      BlankUpTo(doc, g.f, i, t);
    }
  }

  lemma EmptyGap(doc: Bytes, i: nat, comments: Comments)
    requires i <= |doc|
    ensures IsGap(doc[i..i], comments)
  {
  }

  lemma BlankUpTo(doc: Bytes, f: Features, i: nat, t: Token)
    requires i <= t.start < |doc| && AllBlank(doc[i..t.start]) && Sound(doc, f, t)
    ensures SkipSpaces(doc, i) == t.start
  {
    hide Classify;
    SliceIsAt(doc, i, t.start);
    SkipBlank(doc, i, doc[i..t.start]);
  }

  lemma DroppedPrintsNothing(c: Syntax)
    ensures c.Dropped? ==> Print(c) == []
  {
  }

  // Arrays

  // The text of the elements from `i` on, up to the closing bracket.
  predicate WroteItems(doc: Bytes, g: Settings, depth: nat, i: nat, r: Read, items: seq<Item>) {
    && items != [] && WellFormedItems(items, g) && depth + ItemsDepth(items) <= g.f.stackLimit
    && r.Success? && At(doc, i, PrintItem(items[0]) + PrintItemTail(items[1..]))
    && r.cur == i + |PrintItem(items[0]) + PrintItemTail(items[1..])| <= |doc|
    && MadeOfTokens(doc, g.f, r.cur)
  }

  lemma ArrayFrom(doc: Bytes, g: Settings, depth: nat, s: nat, v: Value) returns (c: Syntax)
    requires s < |doc| && PlainFeatures(g.f) && MadeOfTokens(doc, g.f, s + 1) && doc[s] == LBRACKET
    requires ReadArray(doc, g, depth, s + 1, v).Success? && depth <= g.f.stackLimit
    ensures c.ArrayText? && WellFormed(c, g) && depth + Depth(c) - 1 <= g.f.stackLimit
    ensures var r := ReadArray(doc, g, depth, s + 1, v);
            At(doc, s, Print(c)) && r.cur == s + |Print(c)| <= |doc| && MadeOfTokens(doc, g.f, r.cur)
    decreases |doc| - (s + 1), 2
  {
    hide ReadElements, ReadToken, NextToken, SkipComments, MadeOfTokens, Classify, At, Print, WellFormed, AllBlank, Depth, SkipSpaces;
    hide WroteItems;
    var j := SkipSpaces(doc, s + 1);
    SpacesTwice(doc, g.f, s + 1);
    if j < |doc| && doc[j] == RBRACKET {
      c := NoItemsText(doc, g, s, j);
      Punctuation(doc, g.f, s + 1, j);
      SoundToken(doc, g.f, s + 1);
    } else {
      var items := ElementsText(doc, g, depth, s + 1, j, 0, map[], v);
      c := ArrayText(items, []);
      ItemsIn(doc, g, depth, s, ReadElements(doc, g, depth, j, 0, map[], v), items);
    }
  }

  lemma NoItemsText(doc: Bytes, g: Settings, s: nat, q: nat) returns (c: Syntax)
    requires s < q < |doc| && doc[s] == LBRACKET && doc[q] == RBRACKET && AllBlank(doc[s + 1..q])
    ensures c.ArrayText? && WellFormed(c, g) && Depth(c) == 1
    ensures At(doc, s, Print(c)) && q + 1 == s + |Print(c)|
  {
    hide AllBlank;
    NoItems(g);
    c := ArrayText([], doc[s + 1..q]);
    assert doc[s..q + 1] == [LBRACKET] + (doc[s + 1..q] + [RBRACKET]);
  }

  lemma ItemsIn(doc: Bytes, g: Settings, depth: nat, s: nat, r: Read, items: seq<Item>)
    requires s < |doc| && doc[s] == LBRACKET && WroteItems(doc, g, depth, s + 1, r, items)
    requires |items| == 1 ==> !IsEmptyItem(items[0])
    ensures var c := ArrayText(items, []);
            && WellFormed(c, g) && depth + Depth(c) - 1 <= g.f.stackLimit
            && At(doc, s, Print(c)) && r.cur == s + |Print(c)| <= |doc| && MadeOfTokens(doc, g.f, r.cur)
  {
    hide PrintItem, PrintItemTail, WellFormedItems, MadeOfTokens, IsEmptyItem;
    Prepend(doc, s, PrintItem(items[0]) + PrintItemTail(items[1..]));
  }

  // Blanks in front of the first element, which the loop does not see.
  lemma SpacesTwice(doc: Bytes, f: Features, i: nat)
    requires i <= |doc| && MadeOfTokens(doc, f, i)
    ensures var j := SkipSpaces(doc, i);
            NextToken(doc, f, j) == NextToken(doc, f, i) && MadeOfTokens(doc, f, j) && AllBlank(doc[i..j])
  {
    hide Classify;
    BlanksSkipped(doc, f, i);
    assert ReadToken(doc, f, SkipSpaces(doc, i)) == ReadToken(doc, f, i);
  }

  lemma NoItems(g: Settings)
    ensures WellFormedItems([], g) && ItemsDepth([]) == 0
  {
  }

  lemma Prepend(doc: Bytes, s: nat, rest: Bytes)
    requires s < |doc| && At(doc, s + 1, rest)
    ensures At(doc, s, [doc[s]] + rest)
  {
    AtAppend(doc, s, [doc[s]], rest);
  }

  /** The elements the loop read from `j` on; blanks from `i` to there belong to the first. */
  lemma ElementsText(doc: Bytes, g: Settings, depth: nat, i: nat, j: nat, index: nat, m: map<nat, Value>, v: Value)
    returns (items: seq<Item>)
    requires i <= j <= |doc| && NextToken(doc, g.f, i) == NextToken(doc, g.f, j) && PlainFeatures(g.f)
    requires MadeOfTokens(doc, g.f, i) && MadeOfTokens(doc, g.f, j)
    requires ReadElements(doc, g, depth, j, index, m, v).Success?
    ensures WroteItems(doc, g, depth, i, ReadElements(doc, g, depth, j, index, m, v), items)
    ensures |items| == 1 && IsEmptyItem(items[0]) ==>
              SkipSpaces(doc, i) < |doc| && doc[SkipSpaces(doc, i)] == RBRACKET
    decreases |doc| - j, 1
  {
    hide ReadToken, NextToken, ReadValue, ReadElements, SkipComments, MadeOfTokens, PrintItem, PrintItemTail, WellFormed, IsEmptyItem;
    hide ItemGaps, Classify, At, SkipSpaces, AllBlank, Depth, Print, WroteItems, WellFormedItems, ItemsDepth;
    var w := ElementAt(m, index);
    ElementsTurn(doc, g, depth, j, index, m, v);
    var r := ReadValue(doc, g, depth + 1, j, w);
    var c := ValueText(doc, g, depth + 1, j, w);
    var item, q := ItemFrom(doc, g, depth + 1, i, r, c);
    var t := SkipComments(doc, g.f, r.cur);
    PunctuationFrom(doc, g.f, q, t.typ, t.end);
    if t.typ == ArraySeparator {
      var rest := ElementsText(doc, g, depth, q + 1, q + 1, index + 1, m[index := r.v], v);
      items := [item] + rest;
      MoreItems(doc, g, depth, i, item, q, ReadElements(doc, g, depth, j, index, m, v), rest);
    } else {
      items := [item];
      LastItem(doc, g, depth, i, item, q, ReadElements(doc, g, depth, j, index, m, v));
    }
  }

  /** A turn of the loop that does not fail. */
  lemma ElementsTurn(doc: Bytes, g: Settings, depth: nat, j: nat, index: nat, m: map<nat, Value>, v: Value)
    requires j <= |doc| && ReadElements(doc, g, depth, j, index, m, v).Success?
    ensures var r := ReadValue(doc, g, depth + 1, j, ElementAt(m, index)); var s := ReadElements(doc, g, depth, j, index, m, v);
            && r.Success?
            && var t := SkipComments(doc, g.f, r.cur);
               && (t.typ == ArraySeparator || t.typ == ArrayEnd)
               && j < t.end <= |doc|
               && (if t.typ == ArrayEnd then s.cur == t.end
                   else s == ReadElements(doc, g, depth, t.end, index + 1, m[index := r.v], v))
  {
    hide ReadValue, SkipComments;
  }

  // An item that fits the grammar and the stack, between `i` and `q`.
  predicate ItemAt(doc: Bytes, g: Settings, depth: nat, i: nat, item: Item, q: nat) {
    && ItemGaps(item, Early(g.f), Skipped(g.f)) && WellFormed(item.v, g) && depth + Depth(item.v) <= g.f.stackLimit
    && At(doc, i, PrintItem(item)) && q == i + |PrintItem(item)| < |doc|
  }

  lemma MoreItems(doc: Bytes, g: Settings, depth: nat, i: nat, item: Item, q: nat, r: Read, rest: seq<Item>)
    requires ItemAt(doc, g, depth, i, item, q) && doc[q] == COMMA && WroteItems(doc, g, depth, q + 1, r, rest)
    ensures WroteItems(doc, g, depth, i, r, [item] + rest) && |[item] + rest| > 1
  {
    hide PrintItem, MadeOfTokens, WellFormed, Depth, ItemGaps, At;
    var tail := PrintItem(rest[0]) + PrintItemTail(rest[1..]);
    Prepend(doc, q, tail);
    AtAppend(doc, i, PrintItem(item), [COMMA] + tail);
    assert ([item] + rest)[1..] == rest;
  }

  lemma LastItem(doc: Bytes, g: Settings, depth: nat, i: nat, item: Item, q: nat, r: Read)
    requires ItemAt(doc, g, depth, i, item, q) && doc[q] == RBRACKET
    requires r.Success? && r.cur == q + 1 && MadeOfTokens(doc, g.f, q + 1)
    ensures WroteItems(doc, g, depth, i, r, [item])
  {
    hide PrintItem, MadeOfTokens, WellFormed, Depth, ItemGaps;
    assert At(doc, q, [RBRACKET]) && [item][1..] == [];
    NoItems(g);
    AtAppend(doc, i, PrintItem(item), [RBRACKET]);
  }

  // Objects

  // The text of the members from `i` on, up to the closing brace.
  predicate WroteMembers(
    doc: Bytes, g: Settings, depth: nat, i: nat, r: Read, m: map<Bytes, Value>, members: seq<Member>, end: Closing)
  {
    && members != [] && WellFormedMembers(members, g) && FreshKeys(g, m, members)
    && depth + MembersDepth(members) <= g.f.stackLimit
    && Closes(members, end, g.f) && IsGap(end.gap, Skipped(g.f))
    && r.Success? && At(doc, i, PrintMember(members[0]) + PrintMemberTail(members[1..], end))
    && r.cur == i + |PrintMember(members[0]) + PrintMemberTail(members[1..], end)| <= |doc|
    && MadeOfTokens(doc, g.f, r.cur)
  }

  lemma ObjectFrom(doc: Bytes, g: Settings, depth: nat, s: nat, v: Value) returns (c: Syntax)
    requires s < |doc| && PlainFeatures(g.f) && MadeOfTokens(doc, g.f, s + 1) && doc[s] == LBRACE
    requires ReadMembers(doc, g, depth, s + 1, [], map[], v).Success? && depth <= g.f.stackLimit
    ensures c.ObjectText? && WellFormed(c, g) && depth + Depth(c) - 1 <= g.f.stackLimit
    ensures var r := ReadMembers(doc, g, depth, s + 1, [], map[], v);
            At(doc, s, Print(c)) && r.cur == s + |Print(c)| <= |doc| && MadeOfTokens(doc, g.f, r.cur)
    decreases |doc| - (s + 1), 2
  {
    hide ReadMembers, ReadToken, SkipComments, MadeOfTokens, Classify, WroteMembers, WellFormed, Print;
    hide AllBlank, Depth, SkipSpaces, IsGap;
    SoundSkip(doc, g.f, s + 1);
    var t := SkipComments(doc, g.f, s + 1);
    if t.typ == ObjectEnd {
      PunctuationFrom(doc, g.f, t.start, t.typ, t.end);
      EmptyRead(doc, g, depth, s + 1, v);
      c := NoMembersText(doc, g, s, t.start);
    } else {
      var members, end := MembersText(doc, g, depth, s + 1, [], [COMMA], map[], v);
      c := ObjectText(members, end);
      MembersIn(doc, g, depth, s, ReadMembers(doc, g, depth, s + 1, [], map[], v), members, end);
    }
  }

  lemma EmptyRead(doc: Bytes, g: Settings, depth: nat, i: nat, v: Value)
    requires i <= |doc| && SkipComments(doc, g.f, i).typ == ObjectEnd
    ensures ReadMembers(doc, g, depth, i, [], map[], v) == Success(SkipComments(doc, g.f, i).end, WithMembers(v, map[]))
  {
    hide SkipComments, ReadMember;
  }

  lemma NoMembersText(doc: Bytes, g: Settings, s: nat, q: nat) returns (c: Syntax)
    requires s < q < |doc| && doc[s] == LBRACE && doc[q] == RBRACE && IsGap(doc[s + 1..q], Skipped(g.f))
    ensures c.ObjectText? && WellFormed(c, g) && Depth(c) == 1
    ensures At(doc, s, Print(c)) && q + 1 == s + |Print(c)|
  {
    hide IsGap, AllBlank;
    NoMembers(g);
    c := ObjectText([], Closing([], doc[s + 1..q]));
    assert doc[s..q + 1] == [LBRACE] + ([] + (doc[s + 1..q] + [RBRACE]));
  }

  lemma MembersIn(doc: Bytes, g: Settings, depth: nat, s: nat, r: Read, members: seq<Member>, end: Closing)
    requires s < |doc| && doc[s] == LBRACE && WroteMembers(doc, g, depth, s + 1, r, map[], members, end)
    ensures var c := ObjectText(members, end);
            && WellFormed(c, g) && depth + Depth(c) - 1 <= g.f.stackLimit
            && At(doc, s, Print(c)) && r.cur == s + |Print(c)| <= |doc| && MadeOfTokens(doc, g.f, r.cur)
  {
    hide PrintMember, PrintMemberTail, WellFormedMembers, FreshKeys, DistinctKeys, MadeOfTokens, Closes, IsGap;
    FreshKeysDistinct(g, map[], members);
    Prepend(doc, s, PrintMember(members[0]) + PrintMemberTail(members[1..], end));
  }

  lemma NoMembers(g: Settings)
    ensures WellFormedMembers([], g) && MembersDepth([]) == 0 && DistinctKeys([])
  {
  }

  lemma FreshKeysDistinct(g: Settings, m: map<Bytes, Value>, members: seq<Member>)
    requires FreshKeys(g, m, members)
    ensures g.f.rejectDupKeys ==> DistinctKeys(members)
  {
  }

  lemma ColonFrom(doc: Bytes, f: Features, i: nat) returns (colon: nat)
    requires i <= |doc| && MadeOfTokens(doc, f, i) && ReadToken(doc, f, i).typ == MemberSeparator
    ensures i <= colon < |doc| && doc[colon] == COLON && AllBlank(doc[i..colon])
    ensures ReadToken(doc, f, i).end == colon + 1 && MadeOfTokens(doc, f, colon + 1)
  {
    hide ReadToken, SkipComments, MadeOfTokens, Classify, AllBlank, SkipSpaces;
    SoundToken(doc, f, i);
    var d := ReadToken(doc, f, i);
    PunctuationFrom(doc, f, d.start, d.typ, d.end);
    colon := d.start;
  }

  /** The token that names a member is a string literal. */
  lemma NameFrom(doc: Bytes, g: Settings, i: nat) returns (cs: seq<StringChar>)
    requires i <= |doc| && PlainFeatures(g.f) && MadeOfTokens(doc, g.f, i)
    requires MemberName(doc, g, SkipComments(doc, g.f, i)).Named?
    ensures var t := SkipComments(doc, g.f, i);
            && t.typ != EndOfStream && IsGap(doc[i..t.start], Skipped(g.f)) && MadeOfTokens(doc, g.f, t.end)
            && At(doc, t.start, PrintText(cs)) && t.end == t.start + |PrintText(cs)| && WellFormedChars(cs)
            && MemberName(doc, g, t).name == CharsMeaning(cs)
  {
    hide ReadToken, SkipComments, MadeOfTokens, Classify, DecodeFrom, PrintText, WellFormedChars, CharsMeaning, SkipSpaces, DecodeNumber;
    hide AllBlank, TokenBody, At, IsGap;
    SoundSkip(doc, g.f, i);
    var t := SkipComments(doc, g.f, i);
    cs := TextFrom(doc, g.f, t.start, t.end);
  }

  /** A member up to its colon. */
  lemma KeyFrom(doc: Bytes, g: Settings, i: nat, lead: Bytes) returns (front: Member, colon: nat)
    requires i <= |doc| && PlainFeatures(g.f) && MadeOfTokens(doc, g.f, i)
    requires var t := SkipComments(doc, g.f, i);
             && MemberName(doc, g, t).Named? && |MemberName(doc, g, t).name| < KEY_LIMIT
             && ReadToken(doc, g.f, t.end).typ == MemberSeparator
    ensures front.lead == lead
    ensures IsGap(front.before, Skipped(g.f)) && WellFormedKey(front.key) && AllBlank(front.beforeColon)
    ensures KeyOf(front) == MemberName(doc, g, SkipComments(doc, g.f, i)).name
    ensures i < colon < |doc| && doc[colon] == COLON && MadeOfTokens(doc, g.f, colon + 1)
    ensures ReadToken(doc, g.f, SkipComments(doc, g.f, i).end).end == colon + 1
    ensures At(doc, i, front.before + (PrintText(front.key) + front.beforeColon))
    ensures i + |front.before + (PrintText(front.key) + front.beforeColon)| == colon
  {
    hide ReadToken, SkipComments, MadeOfTokens, PrintText, WellFormedChars, CharsMeaning, AllBlank, IsGap, MemberName;
    var cs := NameFrom(doc, g, i);
    var t := SkipComments(doc, g.f, i);
    colon := ColonFrom(doc, g.f, t.end);
    front := Member(lead, doc[i..t.start], cs, doc[t.end..colon], Item([], NullText, []));
    assert doc[i..colon] == doc[i..t.start] + (doc[t.start..t.end] + doc[t.end..colon]);
  }

  /** The members the loop read from `i` on, the first of them behind the token `lead`. */
  lemma MembersText(doc: Bytes, g: Settings, depth: nat, i: nat, name: Bytes, lead: Bytes, m: map<Bytes, Value>, v: Value)
    returns (members: seq<Member>, end: Closing)
    requires i <= |doc| && PlainFeatures(g.f) && MadeOfTokens(doc, g.f, i) && SkipComments(doc, g.f, i).typ != ObjectEnd
    requires ReadMembers(doc, g, depth, i, name, m, v).Success?
    ensures WroteMembers(doc, g, depth, i, ReadMembers(doc, g, depth, i, name, m, v), m, members, end)
    ensures members[0].lead == lead
    decreases |doc| - i, 1
  {
    hide ReadToken, ReadValue, ReadMembers, SkipComments, MadeOfTokens, PrintMember, PrintMemberTail, WellFormed, ItemGaps, Classify, At;
    hide SkipSpaces, AllBlank, Depth, Print, MemberName, FreshKeys, KeyOf, WellFormedKey, IsGap, PrintItem, PrintText, WroteMembers;
    hide WellFormedMembers, MembersDepth, Separates, MemberAt;
    MembersTurn(doc, g, depth, i, name, m, v);
    var read := ReadMembers(doc, g, depth, i, name, m, v);
    var r := MemberValue(doc, g, depth, i, m);
    var n := MemberName(doc, g, SkipComments(doc, g.f, i)).name;
    var member, q := OneMember(doc, g, depth, i, name, lead, m, v);
    var d := SkipComments(doc, g.f, r.cur);
    if d.typ == ObjectEnd {
      members, end := [member], CLOSED;
      LastMember(doc, g, depth, i, member, q, m, read);
    } else {
      var next := doc[q..d.end];
      SoundSkip(doc, g.f, d.end);
      if SkipComments(doc, g.f, d.end).typ == ObjectEnd {
        members := [member];
        end := TrailingText(doc, g, depth, i, member, q, d.end, m, r.v, n, v, read);
      } else {
        var rest: seq<Member>;
        rest, end := MembersText(doc, g, depth, d.end, n, next, m[n := r.v], v);
        members := [member] + rest;
        MoreMembers(doc, g, depth, i, member, q, d.end, m, r.v, read, rest, end);
      }
    }
  }

  // The value read for the member at `i`.
  function MemberValue(doc: Bytes, g: Settings, depth: nat, i: nat, m: map<Bytes, Value>): Read
    requires i <= |doc|
  {
    var t := SkipComments(doc, g.f, i);
    var key, colon := MemberName(doc, g, t), ReadToken(doc, g.f, t.end);
    if key.Named? then ReadValue(doc, g, depth + 1, colon.end, S.Current(m, key.name)) else Threw
  }

  lemma OneMember(doc: Bytes, g: Settings, depth: nat, i: nat, name: Bytes, lead: Bytes, m: map<Bytes, Value>, v: Value)
    returns (member: Member, q: nat)
    requires i <= |doc| && PlainFeatures(g.f) && MadeOfTokens(doc, g.f, i) && SkipComments(doc, g.f, i).typ != ObjectEnd
    requires ReadMembers(doc, g, depth, i, name, m, v).Success?
    ensures member.lead == lead && MemberAt(doc, g, depth, i, member, q)
    ensures KeyOf(member) == MemberName(doc, g, SkipComments(doc, g.f, i)).name
    ensures var r := MemberValue(doc, g, depth, i, m);
            && r.Success? && r.cur <= |doc|
            && var d := SkipComments(doc, g.f, r.cur);
               && d.start == q < d.end <= |doc| && MadeOfTokens(doc, g.f, d.end)
               && (if d.typ == ObjectEnd then doc[q] == RBRACE && d.end == q + 1
                   else Separates(doc[q..d.end], member.value, g.f))
    decreases |doc| - i, 0
  {
    hide ReadToken, ReadValue, ReadMembers, SkipComments, MadeOfTokens, PrintMember, WellFormed, ItemGaps, Classify, At;
    hide SkipSpaces, AllBlank, Depth, Print, MemberName, KeyOf, WellFormedKey, IsGap, PrintItem, PrintText, Separates;
    MembersTurn(doc, g, depth, i, name, m, v);
    var front, colon := KeyFrom(doc, g, i, lead);
    var w := S.Current(m, MemberName(doc, g, SkipComments(doc, g.f, i)).name);
    var r := ReadValue(doc, g, depth + 1, colon + 1, w);
    var c := ValueText(doc, g, depth + 1, colon + 1, w);
    SoundSkip(doc, g.f, r.cur);
    var item: Item;
    item, q := ItemFrom(doc, g, depth + 1, colon + 1, r, c);
    member := front.(value := item);
    SameKey(front, item);
    MemberFrom(doc, i, front, colon, item);
    var d := SkipComments(doc, g.f, r.cur);
    if d.typ == ObjectEnd {
      PunctuationFrom(doc, g.f, q, d.typ, d.end);
    } else {
      SeparatorFrom(doc, g.f, d, item, ReadToken(doc, g.f, r.cur));
    }
  }

  /** What the loop took for a separator is one. */
  lemma SeparatorFrom(doc: Bytes, f: Features, d: Token, value: Item, first: Token)
    requires Sound(doc, f, d) && d.typ != ObjectEnd && d.typ != EndOfStream && d.typ != CommentToken
    requires first.typ != CommentToken ==> first == d
    requires first.typ == ArraySeparator || first.typ == ObjectEnd || first.typ == CommentToken
    requires first.typ == CommentToken ==> !value.v.Dropped? && !AllBlank(value.after)
    ensures d.start < d.end && Separates(doc[d.start..d.end], value, f)
  {
    hide Classify, MadeOfTokens, AllBlank;
    if d.typ == ArraySeparator {
      PunctuationFrom(doc, f, d.start, d.typ, d.end);
      assert doc[d.start..d.end] == [COMMA];
    } else {
      var lead := doc[d.start..d.end];
      ShiftClass(doc, f, d.start, lead, 0);
      ScanningClass(lead, f, 0);
    }
  }

  /** A turn of the loop that does not fail. */
  lemma MembersTurn(doc: Bytes, g: Settings, depth: nat, i: nat, name: Bytes, m: map<Bytes, Value>, v: Value)
    requires i <= |doc| && ReadMembers(doc, g, depth, i, name, m, v).Success?
    requires SkipComments(doc, g.f, i).typ != ObjectEnd
    ensures var t, s := SkipComments(doc, g.f, i), ReadMembers(doc, g, depth, i, name, m, v);
            && t.start < t.end <= |doc| && MemberName(doc, g, t).Named?
            && var n, colon := MemberName(doc, g, t).name, ReadToken(doc, g.f, t.end);
               && colon.typ == MemberSeparator && |n| < KEY_LIMIT && !(g.f.rejectDupKeys && n in m) && i < colon.end <= |doc|
               && var r := ReadValue(doc, g, depth + 1, colon.end, S.Current(m, n));
                  && r.Success? && r.cur <= |doc|
                  && var comma, next := ReadToken(doc, g.f, r.cur), SkipComments(doc, g.f, r.cur);
                     && (comma.typ == ObjectEnd || comma.typ == ArraySeparator || comma.typ == CommentToken)
                     && i < next.end <= |doc| && (Sound(doc, g.f, next) ==> next.typ != EndOfStream)
                     && (if next.typ == ObjectEnd then s.cur == next.end
                         else s == ReadMembers(doc, g, depth, next.end, n, m[n := r.v], v))
  {
    hide ReadToken, ReadValue, SkipComments, MemberName, ReadMember, Sound;
    var t := SkipComments(doc, g.f, i);
    var n := MemberName(doc, g, t).name;
    S.MemberParts(doc, g, depth, t, n, m, v);
    var r := ReadValue(doc, g, depth + 1, ReadToken(doc, g.f, t.end).end, S.Current(m, n));
    if Sound(doc, g.f, SkipComments(doc, g.f, r.cur)) {
      NotAtEnd(doc, g, depth, r.cur, n, m[n := r.v], v);
    }
  }

  lemma NotAtEnd(doc: Bytes, g: Settings, depth: nat, cur: nat, n: Bytes, m: map<Bytes, Value>, v: Value)
    requires cur <= |doc| && S.MemberEnd(doc, g, depth, cur, n, m, v).Success? && Sound(doc, g.f, SkipComments(doc, g.f, cur))
    ensures SkipComments(doc, g.f, cur).typ != EndOfStream
  {
    hide ReadToken, ReadMembers, MadeOfTokens, SkipComments;
    var next := SkipComments(doc, g.f, cur);
    if next.typ == EndOfStream {
      S.MembersSpan(doc, g, depth, next.end, n, m, v);
    }
  }

  // A member that fits the grammar and the stack, between `i` and `q`.
  predicate MemberAt(doc: Bytes, g: Settings, depth: nat, i: nat, member: Member, q: nat) {
    && IsGap(member.before, Skipped(g.f)) && WellFormedKey(member.key) && AllBlank(member.beforeColon)
    && ItemGaps(member.value, Early(g.f), Skipped(g.f)) && WellFormed(member.value.v, g)
    && depth + Depth(member.value.v) <= g.f.stackLimit
    && At(doc, i, PrintMember(member)) && q == i + |PrintMember(member)| < |doc|
  }

  lemma MoreMembers(doc: Bytes, g: Settings, depth: nat, i: nat, member: Member, q: nat, next: nat, m: map<Bytes, Value>, w: Value,
                    r: Read, rest: seq<Member>, end: Closing)
    requires MemberAt(doc, g, depth, i, member, q) && !(g.f.rejectDupKeys && KeyOf(member) in m)
    requires q < next <= |doc| && Separates(doc[q..next], member.value, g.f)
    requires WroteMembers(doc, g, depth, next, r, m[KeyOf(member) := w], rest, end) && rest[0].lead == doc[q..next]
    ensures WroteMembers(doc, g, depth, i, r, m, [member] + rest, end)
  {
    hide PrintMember, MadeOfTokens, WellFormed, Depth, ItemGaps, At, IsGap, AllBlank, WellFormedKey, FreshKeys, KeyOf, Separates;
    var tail := PrintMember(rest[0]) + PrintMemberTail(rest[1..], end);
    SliceIsAt(doc, q, next);
    AtAppend(doc, q, doc[q..next], tail);
    AtAppend(doc, i, PrintMember(member), doc[q..next] + tail);
    assert ([member] + rest)[1..] == rest && ([member] + rest)[|rest|] == rest[|rest| - 1];
    FreshKeysBack(g, m, [member] + rest, w);
  }

  lemma LastMember(doc: Bytes, g: Settings, depth: nat, i: nat, member: Member, q: nat, m: map<Bytes, Value>, r: Read)
    requires MemberAt(doc, g, depth, i, member, q) && doc[q] == RBRACE && !(g.f.rejectDupKeys && KeyOf(member) in m)
    requires r.Success? && r.cur == q + 1 && MadeOfTokens(doc, g.f, q + 1)
    ensures WroteMembers(doc, g, depth, i, r, m, [member], CLOSED)
  {
    hide PrintMember, MadeOfTokens, WellFormed, Depth, ItemGaps, IsGap, AllBlank, WellFormedKey, FreshKeys, KeyOf, Separates;
    EmptyGap([], 0, Skipped(g.f));
    OneMemberList(doc, g, depth, i, member, q, m, CLOSED);
    assert PrintMemberTail([], CLOSED) == [RBRACE];
    assert At(doc, q, [RBRACE]);
    AtAppend(doc, i, PrintMember(member), [RBRACE]);
  }

  // What of `WroteMembers` does not depend on how the object ends.
  lemma OneMemberList(doc: Bytes, g: Settings, depth: nat, i: nat, member: Member, q: nat, m: map<Bytes, Value>, end: Closing)
    requires MemberAt(doc, g, depth, i, member, q) && !(g.f.rejectDupKeys && KeyOf(member) in m)
    ensures var members := [member];
            && members[1..] == [] && WellFormedMembers(members, g) && FreshKeys(g, m, members)
            && depth + MembersDepth(members) <= g.f.stackLimit
            && (Closes(members, end, g.f) <==> end == CLOSED || (KeyOf(member) == [] && Separates(end.lead, member.value, g.f)))
  {
    hide PrintMember, WellFormed, Depth, ItemGaps, IsGap, AllBlank, WellFormedKey, FreshKeys, KeyOf, Separates, At;
    assert [member][1..] == [] && [member][0] == member;
    NoMembers(g);
    FreshKeysBack(g, m, [member], NULL_VALUE);
  }

  /** A separator behind the last member, whose key is empty then. */
  lemma TrailingText(doc: Bytes, g: Settings, depth: nat, i: nat, member: Member, q: nat, next: nat, m: map<Bytes, Value>, w: Value,
                     n: Bytes, v: Value, r: Read) returns (end: Closing)
    requires MemberAt(doc, g, depth, i, member, q) && !(g.f.rejectDupKeys && KeyOf(member) in m) && n == KeyOf(member)
    requires q < next <= |doc| && Separates(doc[q..next], member.value, g.f) && MadeOfTokens(doc, g.f, next)
    requires SkipComments(doc, g.f, next).typ == ObjectEnd && r == ReadMembers(doc, g, depth, next, n, m[n := w], v) && r.Success?
    ensures WroteMembers(doc, g, depth, i, r, m, [member], end)
  {
    hide PrintMember, MadeOfTokens, WellFormed, Depth, ItemGaps, IsGap, AllBlank, WellFormedKey, FreshKeys, KeyOf, Separates, At;
    hide ReadMembers, SkipComments, Classify, WellFormedMembers, MembersDepth, Closes;
    var t := SkipComments(doc, g.f, next);
    SoundSkip(doc, g.f, next);
    PunctuationFrom(doc, g.f, t.start, t.typ, t.end);
    BraceRead(doc, g, depth, next, n, m[n := w], v);
    end := Closing(doc[q..next], doc[next..t.start]);
    OneMemberList(doc, g, depth, i, member, q, m, end);
    ClosingAt(doc, q, next, t.start);
    AtAppend(doc, i, PrintMember(member), PrintMemberTail([], end));
    assert [member][1..] == [];
  }

  lemma ClosingAt(doc: Bytes, q: nat, next: nat, brace: nat)
    requires q <= next <= brace < |doc| && doc[brace] == RBRACE
    ensures var tail := PrintMemberTail([], Closing(doc[q..next], doc[next..brace]));
            At(doc, q, tail) && q + |tail| == brace + 1
  {
    assert doc[q..brace + 1] == doc[q..next] + (doc[next..brace] + [RBRACE]);
  }

  lemma BraceRead(doc: Bytes, g: Settings, depth: nat, i: nat, name: Bytes, m: map<Bytes, Value>, v: Value)
    requires i <= |doc| && SkipComments(doc, g.f, i).typ == ObjectEnd && ReadMembers(doc, g, depth, i, name, m, v).Success?
    ensures name == [] && ReadMembers(doc, g, depth, i, name, m, v).cur == SkipComments(doc, g.f, i).end
  {
    hide SkipComments, ReadMember;
  }

  lemma SameKey(front: Member, item: Item)
    ensures KeyOf(front.(value := item)) == KeyOf(front)
  {
  }

  lemma MemberFrom(doc: Bytes, i: nat, front: Member, colon: nat, item: Item)
    requires At(doc, i, front.before + (PrintText(front.key) + front.beforeColon))
    requires colon == i + |front.before + (PrintText(front.key) + front.beforeColon)| < |doc| && doc[colon] == COLON
    requires At(doc, colon + 1, PrintItem(item))
    ensures var member := front.(value := item);
            At(doc, i, PrintMember(member)) && i + |PrintMember(member)| == colon + 1 + |PrintItem(item)|
  {
    hide PrintItem, PrintText, At;
    var key := front.before + (PrintText(front.key) + front.beforeColon);
    Prepend(doc, colon, PrintItem(item));
    AtAppend(doc, i, key, [COLON] + PrintItem(item));
    assert PrintMember(front.(value := item)) == key + ([COLON] + PrintItem(item));
  }

  // Documents

  /** A document that is a text of the grammar, within the stack limit, behind a gap; `failIfExtra` wants no text behind it. */
  predicate IsTextOf(text: Item, doc: Bytes, g: Settings) {
    && PrintItem(text) == doc && IsGap(text.before, Early(g.f))
    && WellFormed(text.v, g) && Depth(text.v) <= g.f.stackLimit
    && |text.after| <= |doc| && (g.f.failIfExtra ==> TextStart(doc, g.f, |doc| - |text.after|) == |doc|)
  }

  ghost predicate InLanguage(doc: Bytes, g: Settings) {
    exists text :: IsTextOf(text, doc, g) && !text.v.Dropped? && (g.f.strictRoot ==> text.v.ArrayText? || text.v.ObjectText?)
  }

  /** Whatever is accepted begins with a text of the grammar, which is a container if one is called for. */
  lemma AcceptedText(doc: Bytes, g: Settings, root: Value) returns (text: Item)
    requires PlainFeatures(g.f) && MadeOfTokens(doc, g.f, 0)
    requires Parse(doc, g, root).Done? && Parse(doc, g, root).ok
    ensures IsTextOf(text, doc, g)
    ensures g.f.strictRoot ==> text.v.ArrayText? || text.v.ObjectText?
    ensures g.f.failIfExtra ==> !text.v.Dropped?
  {
    hide ReadValue, ReadToken, NextToken, SkipComments, MadeOfTokens, Print, WellFormed, AllBlank, Depth, Classify, SkipSpaces, IsGap;
    hide TextStart, At, Parse;
    OkMeans(doc, g, root);
    var r := ReadValue(doc, g, 1, 0, root);
    var c := ValueText(doc, g, 1, 0, root);
    var t := NextToken(doc, g.f, 0);
    SoundNext(doc, g.f, 0);
    text := Item(doc[0..t.start], c, doc[r.cur..]);
    Reassemble(doc, t.start, Print(c));
    if g.f.failIfExtra {
      SoundNext(doc, g.f, r.cur);
      NothingBehind(doc, g.f, r.cur);
      DroppedPrintsNothing(c);
    }
  }

  // What a parse that returns true has found.
  lemma OkMeans(doc: Bytes, g: Settings, root: Value)
    requires Parse(doc, g, root).Done? && Parse(doc, g, root).ok
    ensures var r := ReadValue(doc, g, 1, 0, root);
            && r.Success? && (g.f.strictRoot ==> IsContainer(r.v))
            && (g.f.failIfExtra ==> NextToken(doc, g.f, r.cur).typ == EndOfStream || NextToken(doc, g.f, r.cur).typ == ErrorToken)
  {
    hide ReadValue, NextToken;
  }

  lemma Reassemble(doc: Bytes, p: nat, s: Bytes)
    requires At(doc, p, s)
    ensures p + |s| <= |doc| && doc[0..p] + (s + doc[p + |s|..]) == doc
  {
    assert doc == doc[0..p] + (doc[p..p + |s|] + doc[p + |s|..]);
  }

  lemma NothingBehind(doc: Bytes, f: Features, e: nat)
    requires e <= |doc| && NextToken(doc, f, e).typ == EndOfStream && Sound(doc, f, NextToken(doc, f, e))
    ensures TextStart(doc, f, e) == |doc|
  {
    hide Classify, NextToken, TextStart, MadeOfTokens;
    NextTokenIsText(doc, f, e);
    if TextStart(doc, f, e) < |doc| {
      SpacesStop(doc, TextStart(doc, f, e));
    }
  }

  /** Where nothing but a gap is left, the reader is at the end. */
  lemma {:induction false} EndFollows(doc: Bytes, f: Features, e: nat)
    requires e <= |doc| && TextStart(doc, f, e) == |doc|
    ensures Follows(doc, f, e, |doc|)
    decreases |doc| - e
  {
    hide Classify, ReadToken, SkipComments;
    if e < |doc| && IsBlank(doc[e]) {
      BlankStep(doc, f, e);
      EndFollows(doc, f, e + 1);
    } else if e < |doc| {
      CommentHereSkipped(doc, f, e);
      EndFollows(doc, f, Classify(doc, f, e).1.1);
    }
  }

  lemma CommentHereSkipped(doc: Bytes, f: Features, e: nat)
    requires e < |doc| && CommentHere(doc, f, e) && !IsBlank(doc[e])
    ensures doc[e] == SLASH || doc[e] == APOSTROPHE
    ensures ReadToken(doc, f, e).typ == CommentToken && SkipComments(doc, f, e) == SkipComments(doc, f, Classify(doc, f, e).1.1)
  {
    hide ScanNumber, ScanString, ScanComment, Match;
    SpacesStop(doc, e);
  }

  lemma TextLayout(text: Item, doc: Bytes, g: Settings)
    requires IsTextOf(text, doc, g) && !text.v.Dropped? && g.f.failIfExtra
    ensures var p := |text.before|; var e := p + |Print(text.v)|;
            && ItemLayout(doc, g.f, 0, text.v, p, |doc|)
            && e <= |doc| && NextToken(doc, g.f, e) == NextToken(doc, g.f, |doc|)
  {
    hide ReadToken, SkipComments, NextToken, Print, AllBlank, IsGap, WellFormed, TextStart, Depth, Follows, At;
    var p := |text.before|;
    var e := p + |Print(text.v)|;
    assert At(doc, 0, PrintItem(text)) by { WholeAt(doc); }
    ItemParts(doc, 0, text);
    AtBounds(doc, p, Print(text.v));
    NextBehindGap(doc, g.f, 0, text.before);
    EndFollows(doc, g.f, e);
    NextTokenIsText(doc, g.f, e);
    NextTokenIsText(doc, g.f, |doc|);
    AtEndStart(doc, g.f);
  }

  lemma WholeAt(doc: Bytes)
    ensures At(doc, 0, doc)
  {
  }

  lemma AtEndStart(doc: Bytes, f: Features)
    ensures TextStart(doc, f, |doc|) == |doc|
  {
  }

  /** A text of the grammar with nothing but a gap behind it. */
  lemma TextParses(text: Item, doc: Bytes, g: Settings, root: Value)
    requires IsTextOf(text, doc, g) && !text.v.Dropped? && g.f.failIfExtra
    ensures var r := Parse(doc, g, root);
            && r.Done? && Erase(r.root) == Denote(text.v, g)
            && (r.ok <==> !g.f.strictRoot || text.v.ArrayText? || text.v.ObjectText?)
  {
    hide ReadValue, ReadToken, SkipComments, NextToken, Finish, Print, AllBlank, IsGap, WellFormed, Denote, TextStart, Depth;
    hide ItemLayout, PrintItem;
    TextLayout(text, doc, g);
    ReadsValue(doc, g, 1, 0, root, text.v, |text.before|, |doc|);
    var r := ReadValue(doc, g, 1, 0, root);
    FinishAtEnd(doc, g, r.cur, r.v);
    DenotesContainer(text.v, g, r.v);
  }

  /**
    The language of the reader. With `failIfExtra` and without single quotes, specials and numeric keys, a
    document made of tokens is accepted exactly when it is a text of the grammar, and then the tree is what
    the text denotes.
   */
  lemma AcceptedIff(doc: Bytes, g: Settings, root: Value)
    requires g.f.failIfExtra && PlainFeatures(g.f) && MadeOfTokens(doc, g.f, 0)
    ensures var r := Parse(doc, g, root);
            && (r.Done? && r.ok <==> InLanguage(doc, g))
            && forall text :: IsTextOf(text, doc, g) && !text.v.Dropped? ==> r.Done? && Erase(r.root) == Denote(text.v, g)
  {
    hide Parse, PrintItem, MadeOfTokens, WellFormed, Denote, IsGap, Depth, TextStart;
    var r := Parse(doc, g, root);
    if r.Done? && r.ok {
      var text := AcceptedText(doc, g, root);
    }
    forall text | IsTextOf(text, doc, g) && !text.v.Dropped? ensures r.Done? && Erase(r.root) == Denote(text.v, g) {
      TextParses(text, doc, g, root);
    }
    if InLanguage(doc, g) {
      var text :| IsTextOf(text, doc, g) && !text.v.Dropped? && (g.f.strictRoot ==> text.v.ArrayText? || text.v.ObjectText?);
      TextParses(text, doc, g, root);
    }
  }
}
