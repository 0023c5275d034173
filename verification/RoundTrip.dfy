/**
  Reader and writers undo each other: what either writer prints for a value, the reader turns back
  into that value up to its normal form, whatever the layout, the features and the previous root.
 */
module RoundTrip {
  import opened Basics
  import opened Acceptance
  import opened Errors
  import opened FastWriter
  import opened Gaps
  import opened Grammar
  import opened Lexer
  import opened ReaderMeaning
  import opened ReaderSpec
  import opened StyledWriter
  import opened Values
  import opened WriterSyntax

  /** How a parse ends when the text stands for `back`, `depth` levels deep. */
  predicate ParsesTo(r: Parsed, g: Settings, depth: nat, length: nat, back: Value) {
    if depth > g.f.stackLimit then r.Thrown?
    else
      && r.Done? && Erase(r.root) == back
      && (r.ok <==> !g.f.strictRoot || IsContainer(back))
      && r.errors == (if r.ok then [] else [Error(0, length, RootNotContainer, None)])
  }

  lemma ContainerMeaning(c: Syntax, g: Settings)
    requires WellFormed(c, g)
    ensures IsContainer(Denote(c, g)) <==> c.ArrayText? || c.ObjectText?
  {
    if c.Number? {
      assert NumberMeaning(c.n, g.scan).Some?;
    }
  }

  /**
    How the parse of a text without comments ends that is grammatical but for repeated keys and dropped
    nulls: it is refused if the features do not admit it, and otherwise gives what the text denotes.
   */
  lemma TextParses(c: Syntax, after: Bytes, g: Settings, root: Value)
    requires WellFormed(c, Lenient(g)) && NoEarlyComments(c) && !c.Dropped? && AllBlank(after)
    ensures var r := Parse(Print(c) + after, g, root);
            if !Admits(g.f, c) then !(r.Done? && r.ok)
            else ParsesTo(r, g, Depth(c), |Print(c) + after|, Denote(c, Lenient(g)))
  {
    hide Parse, Print, WellFormed, Denote, AllDistinct, NoEarlyComments, NoDropped, IsGap;
    assert PrintItem(Item([], c, after)) == Print(c) + after;
    BlankIsGap([], Early(g.f));
    BlankIsGap([], Skipped(g.f));
    BlankIsGap(after, Skipped(g.f));
    BlankIsGap(after, Late(g.f));
    WellFormedIff(c, g);
    if WellFormed(c, g) {
      ParseMeaning(Item([], c, after), g, root);
      ContainerMeaning(c, g);
      DenoteLenient(c, g);
    } else {
      TextAccepted(Item([], c, after), g, root);
    }
  }

  /** Parsing nothing but blanks fails, unless it throws. */
  lemma BlankFails(text: Bytes, g: Settings, root: Value)
    requires AllBlank(text)
    ensures var r := Parse(text, g, root); r.Done? ==> !r.ok
  {
    assert At(text, 0, text);
    SkipBlank(text, 0, text);
    assert NextToken(text, g.f, 0) == Token(EndOfStream, |text|, |text|);
  }

  /** A dropped root leaves nothing, which is not a text. */
  predicate IsLost(v: Value, drop: bool) {
    drop && v.payload.Null?
  }

  /** The reader takes the text of a value: no two keys have become equal, and no null is left out, or it does not mind. */
  predicate Takes(f: Features, v: Value, drop: bool) {
    && (f.rejectDupKeys ==> KeysApart(v))
    && (drop && !f.allowDroppedNullPlaceholders ==> NothingDropped(v))
  }

  /**
    `FastWriter` and the reader, for every tree without reals: if the reader takes the text at all, what is
    read back is `ReadBack`, the normal form with strings repaired and short of the nulls that dropping
    makes unreadable.
   */
  lemma FastRoundTrip(v: Value, drop: bool, yaml: bool, after: Bytes, show: ShowDouble, g: Settings, root: Value)
    requires Writable(v) && AllBlank(after) && !IsLost(v, drop)
    ensures var c := CompactSyntax(v, drop, Gap(yaml), show); var text := Print(c) + after;
            var r := Parse(text, g, root);
            if !Takes(g.f, v, drop) then !(r.Done? && r.ok)
            else ParsesTo(r, g, Depth(c), |text|, ReadBack(v, drop))
  {
    hide Parse, Print, WellFormed, Denote, CompactSyntax, ReadBack, AllDistinct, KeysApart, NoDropped, NothingDropped;
    CompactMeaning(v, drop, Gap(yaml), show, g);
    CompactIsDropped(v, drop, Gap(yaml), show);
    TextParses(CompactSyntax(v, drop, Gap(yaml), show), after, g, root);
  }

  // What survives being written and read.
  predicate IsKept(v: Value, drop: bool) {
    AllUtf8(v) && (!drop || (!v.payload.Null? && NoLoneNull(v)))
  }

  lemma ReadBackKind(v: Value, drop: bool)
    ensures IsContainer(ReadBack(v, drop)) <==> IsContainer(v)
  {
  }

  /**
    When the compact round trip is exact, for every tree without reals and every reader: the stack
    suffices, the root is a container if one is called for, every string is valid UTF-8, dropping nulls
    costs neither the root nor an array of one null, and the reader takes what is dropped. Nothing else is
    lost.
   */
  lemma FastRoundTripIff(v: Value, drop: bool, yaml: bool, after: Bytes, show: ShowDouble, g: Settings, root: Value)
    requires Writable(v) && AllBlank(after)
    ensures var c := CompactSyntax(v, drop, Gap(yaml), show); var r := Parse(Print(c) + after, g, root);
            (r.Done? && r.ok && Erase(r.root) == Norm(v)) <==>
            && IsKept(v, drop) && Depth(c) <= g.f.stackLimit && (g.f.strictRoot ==> IsContainer(v))
            && (drop && !g.f.allowDroppedNullPlaceholders ==> NothingDropped(v))
  {
    hide Parse, Norm, ReadBack, NoLoneNull, AllUtf8, KeysApart, NothingDropped, Depth, IsContainer;
    var c := CompactSyntax(v, drop, Gap(yaml), show);
    if IsLost(v, drop) {
      assert Print(c) + after == after;
      BlankFails(after, g, root);
    } else {
      FastRoundTrip(v, drop, yaml, after, show, g, root);
      ReadBackIsNorm(v, drop);
      ReadBackKind(v, drop);
      if AllUtf8(v) {
        Utf8KeysApart(v);
      }
    }
  }

  /** The styled text is the compact text with blanks between its tokens: same meaning, same keys, same depth. */
  lemma StyledMeaning(st: Style, v: Value, g: Settings)
    requires BlankStyle(st) && Writable(v)
    ensures var c := StyledSyntax(st, v, []);
            && WellFormed(c, Lenient(g)) && Denote(c, Lenient(g)) == ReadBack(v, st.dropNulls)
            && NoEarlyComments(c) && (AllDistinct(c) <==> KeysApart(v))
            && (NoDropped(c) <==> !st.dropNulls || NothingDropped(v))
            && Depth(c) == Depth(CompactSyntax(v, st.dropNulls, [], st.show))
            && Compact(c) == CompactSyntax(v, st.dropNulls, [], st.show)
            && (c.Dropped? <==> IsLost(v, st.dropNulls))
  {
    hide WellFormed, Denote, CompactSyntax, StyledSyntax, ReadBack, Depth, AllDistinct, KeysApart, NoEarlyComments;
    var h := NoComments(g);
    CompactMeaning(v, st.dropNulls, [], st.show, g);
    WellFormedIff(CompactSyntax(v, st.dropNulls, [], st.show), h);
    StyledIsCompact(st, v, []);
    StyledBlanks(st, v, []);
    BlanksAreGaps(StyledSyntax(st, v, []), Early(h.f), Skipped(h.f));
    GapsDoNotMatter(StyledSyntax(st, v, []), h);
    WellFormedIff(StyledSyntax(st, v, []), h);
    DenoteLenient(StyledSyntax(st, v, []), h);
    DenoteLenient(CompactSyntax(v, st.dropNulls, [], st.show), h);
    BlanksKeepKeys(StyledSyntax(st, v, []));
    BlanksKeepDropped(StyledSyntax(st, v, []));
    CompactIsDropped(v, st.dropNulls, [], st.show);
  }

  /** The indented text of a value reads back to the same tree as its compact text. */
  lemma StyledRoundTrip(st: Style, v: Value, after: Bytes, g: Settings, root: Value)
    requires BlankStyle(st) && Writable(v) && AllBlank(after) && !IsLost(v, st.dropNulls)
    ensures var text := Print(StyledSyntax(st, v, [])) + after;
            var r := Parse(text, g, root);
            if !Takes(g.f, v, st.dropNulls) then !(r.Done? && r.ok)
            else ParsesTo(r, g, Depth(CompactSyntax(v, st.dropNulls, [], st.show)), |text|, ReadBack(v, st.dropNulls))
  {
    hide Parse, Print, WellFormed, Denote, CompactSyntax, StyledSyntax, ReadBack, AllDistinct, KeysApart;
    hide NoDropped, NothingDropped;
    StyledMeaning(st, v, g);
    TextParses(StyledSyntax(st, v, []), after, g, root);
  }
}
