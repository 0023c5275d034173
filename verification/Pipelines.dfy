/**
  The reader and the writers run against each other: what one object writes, another reads back.
 */
module Pipelines {
  import opened Basics
  import opened Errors
  import Fast = FastWriter
  import opened Grammar
  import Reader = OurReader
  import opened ReaderSpec
  import opened RoundTrip
  import opened StyledWriter
  import opened Values
  import opened WriterSyntax

  /** No node of the tree, holes among them, is more than `n` levels down. */
  ghost predicate NoDeeperThan(v: Value, n: int) {
    && n >= 1
    && match v.payload
       case Array(m) => forall i :: i in m ==> NoDeeperThan(m[i], n - 1)
       case Object(m) => forall k :: k in m ==> NoDeeperThan(m[k], n - 1)
       case _ => true
  }

  lemma {:induction false} ItemsDepthIs(items: seq<Item>, n: nat)
    ensures ItemsDepth(items) <= n <==> forall i :: 0 <= i < |items| ==> Depth(items[i].v) <= n
    decreases |items|
  {
    if items != [] {
      ItemsDepthIs(items[1..], n);
      assert forall i :: 0 < i < |items| ==> items[i] == items[1..][i - 1];
    }
  }

  lemma {:induction false} MembersDepthIs(members: seq<Member>, n: nat)
    ensures MembersDepth(members) <= n <==> forall i :: 0 <= i < |members| ==> Depth(members[i].value.v) <= n
    decreases |members|
  {
    if members != [] {
      MembersDepthIs(members[1..], n);
      assert forall i :: 0 < i < |members| ==> members[i] == members[1..][i - 1];
    }
  }

  /** The reader needs as much stack for the text as the value has levels. */
  lemma {:induction false} DepthIsHeight(v: Value, drop: bool, gap: Bytes, show: ShowDouble, n: nat)
    requires !drop || NoLoneNull(v)
    ensures Depth(CompactSyntax(v, drop, gap, show)) <= n <==> NoDeeperThan(v, n)
  {
    match v.payload
    case Array(m) =>
      forall i, k: nat | i in m ensures Depth(CompactSyntax(m[i], drop, gap, show)) <= k <==> NoDeeperThan(m[i], k) {
        DepthIsHeight(m[i], drop, gap, show, k);
      }
      ArrayDepth(v, drop, gap, show, n);
    case Object(m) =>
      forall i, k: nat | i in m ensures Depth(CompactSyntax(m[i], drop, gap, show)) <= k <==> NoDeeperThan(m[i], k) {
        DepthIsHeight(m[i], drop, gap, show, k);
      }
      ObjectDepth(v, drop, gap, show, n);
    case _ =>
  }

  lemma ArrayDepth(v: Value, drop: bool, gap: Bytes, show: ShowDouble, n: nat)
    requires v.payload.Array? && (!drop || NoLoneNull(v))
    requires forall i, k: nat :: i in v.payload.elems ==>
               (Depth(CompactSyntax(v.payload.elems[i], drop, gap, show)) <= k <==> NoDeeperThan(v.payload.elems[i], k))
    ensures Depth(CompactSyntax(v, drop, gap, show)) <= n <==> NoDeeperThan(v, n)
  {
    hide CompactSyntax, CompactItems, Size, ItemsDepth;
    var m := v.payload.elems;
    var items := CompactItems(m, drop, gap, show);
    CompactArray(v, drop, gap, show);
    if Size(m) == 1 {
      CompactIsDropped(m[0], drop, gap, show);
    }
    assert Depth(CompactSyntax(v, drop, gap, show)) == 1 + ItemsDepth(items);
    if n > 0 {
      ItemsDepthIs(items, n - 1);
      forall i | 0 <= i < |items| ensures i !in m ==> Depth(items[i].v) == 1 {
      }
      assert Size(m) > 0 ==> Size(m) - 1 in m;
    }
  }

  lemma ObjectDepth(v: Value, drop: bool, gap: Bytes, show: ShowDouble, n: nat)
    requires v.payload.Object?
    requires forall i, k: nat :: i in v.payload.members ==>
               (Depth(CompactSyntax(v.payload.members[i], drop, gap, show)) <= k <==> NoDeeperThan(v.payload.members[i], k))
    ensures Depth(CompactSyntax(v, drop, gap, show)) <= n <==> NoDeeperThan(v, n)
  {
    hide CompactSyntax, CompactMembers, MembersDepth, MemberNames, CompactMember;
    var m := v.payload.members;
    var members := CompactMembers(m, drop, gap, show);
    var ks := MemberNames(m);
    CompactObject(v, drop, gap, show);
    if n > 0 {
      MembersDepthIs(members, n - 1);
      forall i | 0 <= i < |ks| ensures members[i].value.v == CompactSyntax(m[ks[i]], drop, gap, show) && ks[i] in m {
        CompactMemberKey(ks[i], m[ks[i]], drop, gap, show);
      }
      forall k | k in m ensures exists i :: 0 <= i < |ks| && ks[i] == k {
        assert k in ks;
      }
    }
  }

  // Whether a parse built `v` again.
  predicate Rebuilt(r: Parsed, v: Value) {
    r.Done? && r.ok && r.errors == [] && Erase(r.root) == Norm(v)
  }

  /**
    How the parse of a printed value ends. A value that is kept comes back unless the reader takes no
    dropped nulls and one is dropped, or it has too many levels, which throws, or is not the container
    that is called for; any other value does not.
   */
  ghost predicate ComesBack(r: Parsed, v: Value, drop: bool, g: Settings) {
    if !IsKept(v, drop) then !Rebuilt(r, v)
    else if drop && !g.f.allowDroppedNullPlaceholders && !NothingDropped(v) then !(r.Done? && r.ok)
    else if !NoDeeperThan(v, g.f.stackLimit) then r.Thrown?
    else if g.f.strictRoot && !IsContainer(v) then r.Done? && !r.ok
    else Rebuilt(r, v)
  }

  // From the tree that was read back to the outcome.
  lemma FromReadBack(r: Parsed, v: Value, drop: bool, g: Settings, depth: nat, length: nat)
    requires if !Takes(g.f, v, drop) then !(r.Done? && r.ok)
             else ParsesTo(r, g, depth, length, ReadBack(v, drop))
    requires !IsLost(v, drop)
    requires (!drop || NoLoneNull(v)) ==> (depth <= g.f.stackLimit <==> NoDeeperThan(v, g.f.stackLimit))
    ensures ComesBack(r, v, drop, g)
  {
    hide Norm, ReadBack, NoLoneNull, NoDeeperThan, AllUtf8, KeysApart, NothingDropped, IsContainer;
    ReadBackIsNorm(v, drop);
    ReadBackKind(v, drop);
    if AllUtf8(v) {
      Utf8KeysApart(v);
    }
  }

  /** Which texts of `FastWriter` the reader turns back into the value, and what stops it otherwise. */
  lemma Recovery(v: Value, drop: bool, yaml: bool, after: Bytes, show: ShowDouble, g: Settings, root: Value)
    requires Writable(v) && AllBlank(after)
    ensures ComesBack(Parse(Print(CompactSyntax(v, drop, Fast.Gap(yaml), show)) + after, g, root), v, drop, g)
  {
    hide CompactSyntax, Print, Depth, Norm, ReadBack, NoLoneNull, Parse, Writable, NoDeeperThan, AllUtf8, KeysApart;
    var c := CompactSyntax(v, drop, Fast.Gap(yaml), show);
    if IsLost(v, drop) {
      CompactNull(yaml, show, v);
      assert Print(c) + after == after;
      BlankFails(after, g, root);
    } else {
      FastRoundTrip(v, drop, yaml, after, show, g, root);
      if !drop || NoLoneNull(v) {
        StackFits(v, drop, Fast.Gap(yaml), show, g.f.stackLimit);
      }
      FromReadBack(Parse(Print(c) + after, g, root), v, drop, g, Depth(c), |Print(c) + after|);
    }
  }

  /** The same for the indented text. */
  lemma StyledRecovery(st: Style, v: Value, after: Bytes, g: Settings, root: Value)
    requires BlankStyle(st) && Writable(v) && AllBlank(after)
    ensures ComesBack(Parse(Print(StyledSyntax(st, v, [])) + after, g, root), v, st.dropNulls, g)
  {
    hide CompactSyntax, StyledSyntax, Print, Depth, Norm, ReadBack, NoLoneNull, Parse, Writable, NoDeeperThan;
    hide AllUtf8, KeysApart;
    var c := StyledSyntax(st, v, []);
    if IsLost(v, st.dropNulls) {
      StyledNull(st, v);
      assert Print(c) + after == after;
      BlankFails(after, g, root);
    } else {
      StyledRoundTrip(st, v, after, g, root);
      if !st.dropNulls || NoLoneNull(v) {
        StackFits(v, st.dropNulls, [], st.show, g.f.stackLimit);
      }
      FromReadBack(Parse(Print(c) + after, g, root), v, st.dropNulls, g,
                   Depth(CompactSyntax(v, st.dropNulls, [], st.show)), |Print(c) + after|);
    }
  }

  lemma StyledNull(st: Style, v: Value)
    requires IsLost(v, st.dropNulls)
    ensures Print(StyledSyntax(st, v, [])) == []
  {
  }

  lemma CompactNull(yaml: bool, show: ShowDouble, v: Value)
    requires v.payload.Null?
    ensures Print(CompactSyntax(v, true, Fast.Gap(yaml), show)) == []
  {
  }

  lemma StackFits(v: Value, drop: bool, gap: Bytes, show: ShowDouble, limit: int)
    requires !drop || NoLoneNull(v)
    ensures Depth(CompactSyntax(v, drop, gap, show)) <= limit <==> NoDeeperThan(v, limit)
  {
    hide NoLoneNull, CompactSyntax;
    if limit >= 0 {
      DepthIsHeight(v, drop, gap, show, limit);
    }
  }

  // What a caller of `parse` sees.
  function Seen(r: Reader.Outcome, errors: seq<Error>, back: Value): Parsed {
    if r == Reader.Outcome.Threw then Thrown else Done(r == Reader.Succeeded, errors, back)
  }

  /**
    `FastWriter` to `OurReader`, whatever either object was used for before: a value without reals
    comes back as its normal form exactly when every string is valid UTF-8, dropping nulls loses nothing,
    none is dropped unless the reader takes that, it fits the reader's stack, and it is a container if the
    reader insists on one.
   */
  method WriteAndRead(writer: Fast.FastWriter, reader: Reader.OurReader, v: Value, root: Value)
    returns (text: Bytes, r: Reader.Outcome, back: Value)
    requires Writable(v)
    modifies writer, reader
    ensures ComesBack(Seen(r, reader.errors, back), v, writer.dropNullPlaceholders, reader.g)
  {
    hide CompactSyntax, Print, ComesBack, Parse, Writable;
    text := writer.Write(v);
    r, back := reader.Parse(text, root);
    ghost var drop, yaml, show := writer.dropNullPlaceholders, writer.yamlCompatibilityEnabled, writer.show;
    ghost var after := if writer.omitEndingLineFeed then [] else [LF];
    Recovery(v, drop, yaml, after, show, reader.g, root);
  }

  /** The same for the indented printer, whatever its layout. */
  method WriteStyledAndRead(writer: BuiltStyledStreamWriter, reader: Reader.OurReader, v: Value, root: Value)
    returns (text: Bytes, r: Reader.Outcome, back: Value)
    requires writer.Valid() && BlankStyle(writer.st) && Writable(v)
    modifies writer, reader
    ensures writer.indentString == []
    ensures ComesBack(Seen(r, reader.errors, back), v, writer.st.dropNulls, reader.g)
  {
    hide StyledSyntax, Print, ComesBack, Parse, Writable;
    text := writer.Write(v);
    r, back := reader.Parse(text, root);
    assert Print(StyledSyntax(writer.st, v, [])) + [] == text;
    StyledRecovery(writer.st, v, [], reader.g, root);
  }
}
