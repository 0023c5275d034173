/**
  The texts the writers print, as syntax trees over a value, and what those texts mean to the
  reader: for any tree without reals, a tree with its strings and keys repaired, which is the normal
  form of the first exactly when every string is valid UTF-8 and no null was dropped from an array of one.
 */
module WriterSyntax {
  import opened Basics
  import opened Gaps
  import opened Grammar
  import opened Integers
  import opened JsonStrings
  import opened Keys
  import opened Repairs
  import opened Utf8
  import opened Values

  /** How `valueToString` prints a double is the C library's business. */
  type ShowDouble = Double -> Bytes

  function IntegerSyntax(n: int): Syntax {
    Number(NumberText(n < 0, Digits(Magnitude(n)), None, None))
  }

  function NullSyntax(drop: bool): Syntax {
    if drop then Dropped else NullText
  }

  /** `getMemberNames()`: the keys in map order. */
  function MemberNames(m: map<Bytes, Value>): (ks: seq<Bytes>)
    ensures Ascending(BytesLess, ks)
    ensures forall k :: k in ks <==> k in m
    ensures |ks| == |m|
  {
    BytesLessIsStrictTotal();
    Sorted(BytesLess, m.Keys)
  }

  /** The items of an array text; a lone dropped null leaves nothing but the blanks around it. */
  function ArraySyntax(items: seq<Item>): Syntax {
    if |items| == 1 && items[0].v.Dropped? then ArrayText([], items[0].before + items[0].after)
    else ArrayText(items, [])
  }

  /** The text `FastWriter` prints: null placeholders may be dropped, `gap` follows each colon. */
  function CompactSyntax(v: Value, drop: bool, gap: Bytes, show: ShowDouble): Syntax {
    match v.payload
    case Null => NullSyntax(drop)
    case Int(i) => IntegerSyntax(i)
    case UInt(u) => IntegerSyntax(u)
    case Real(d) => Unparsed(show(d))
    case String(s) => Text(QuoteChars(s))
    case Boolean(b) => if b then TrueText else FalseText
    case Array(m) =>
      ArraySyntax(seq(Size(m), i requires 0 <= i < Size(m) =>
        Item([], if i in m then CompactSyntax(m[i], drop, gap, show) else NullSyntax(drop), [])))
    case Object(m) =>
      var ks := MemberNames(m);
      ObjectText(seq(|ks|, i requires 0 <= i < |ks| =>
        Member([COMMA], [], QuoteChars(ks[i]), [], Item(gap, CompactSyntax(m[ks[i]], drop, gap, show), []))), CLOSED)
  }

  /** No reals, and no key that reading back would make too long for the reader. */
  predicate Writable(v: Value) {
    match v.payload
    case Real(_) => false
    case Array(m) => forall i :: i in m ==> Writable(m[i])
    case Object(m) => forall k :: k in m ==> |Repaired(k)| < KEY_LIMIT && Writable(m[k])
    case _ => true
  }

  /** Every string and every key is valid UTF-8. */
  predicate AllUtf8(v: Value) {
    match v.payload
    case String(s) => ValidUtf8(s)
    case Array(m) => forall i :: i in m ==> AllUtf8(m[i])
    case Object(m) => forall k :: k in m ==> ValidUtf8(k) && AllUtf8(m[k])
    case _ => true
  }

  predicate RepairsApart(ks: set<Bytes>) {
    forall k, l :: k in ks && l in ks && Repaired(k) == Repaired(l) ==> k == l
  }

  /** No object has two keys that reading back makes equal. */
  predicate KeysApart(v: Value) {
    match v.payload
    case Array(m) => forall i :: i in m ==> KeysApart(m[i])
    case Object(m) =>
      RepairsApart(m.Keys) && forall k :: k in m ==> KeysApart(m[k])
    case _ => true
  }

  lemma {:induction false} Utf8KeysApart(v: Value)
    requires AllUtf8(v)
    ensures KeysApart(v)
  {
    match v.payload
    case Array(m) =>
      forall i | i in m ensures KeysApart(m[i]) { Utf8KeysApart(m[i]); }
    case Object(m) =>
      forall k | k in m ensures KeysApart(m[k]) && Repaired(k) == k {
        Utf8KeysApart(m[k]);
        RepairedIffValid(k);
      }
    case _ =>
  }

  /**
    What is read back: the normal form, with strings and keys repaired, and with an array of one null
    emptied when nulls are dropped.
   */
  function ReadBack(v: Value, drop: bool): Value
    decreases v, 1, 0
  {
    Value(match v.payload
          case Int(i) => if i < 0 then Int(i) else NaturalPayload(i)
          case UInt(u) => NaturalPayload(u)
          case String(s) => String(Repaired(s))
          case Array(m) =>
            if drop && IsLoneNull(m) then Array(map[])
            else Array(map i | 0 <= i < Size(m) :: if i in m then ReadBack(m[i], drop) else NULL_VALUE)
          case Object(m) => Object(MembersBack(map[], MemberNames(m), v, drop))
          case p => p, 0, 0)
  }

  /** Members of `v` assigned one after the other under their repaired keys: of equal keys the later wins. */
  function MembersBack(m: map<Bytes, Value>, ks: seq<Bytes>, v: Value, drop: bool): map<Bytes, Value>
    requires v.payload.Object? && forall k :: k in ks ==> k in v.payload.members
    decreases v, 0, |ks|
  {
    if ks == [] then m
    else MembersBack(m[Repaired(ks[0]) := ReadBack(v.payload.members[ks[0]], drop)], ks[1..], v, drop)
  }

  /** An array of a single null. */
  predicate IsLoneNull(m: map<nat, Value>) {
    Size(m) == 1 && m[0].payload.Null?
  }

  /** No array in the tree consists of a single null. */
  predicate NoLoneNull(v: Value) {
    match v.payload
    case Array(m) => !IsLoneNull(m) && forall i :: i in m ==> NoLoneNull(m[i])
    case Object(m) => forall k :: k in m ==> NoLoneNull(m[k])
    case _ => true
  }

  /** Dropping nulls leaves none out: there is no null, and no hole, but those alone in their arrays. */
  predicate NothingDropped(v: Value) {
    match v.payload
    case Null => false
    case Array(m) => IsLoneNull(m) || forall i :: 0 <= i < Size(m) ==> i in m && NothingDropped(m[i])
    case Object(m) => forall k :: k in m ==> NothingDropped(m[k])
    case _ => true
  }

  /** Nothing is lost exactly when every string is valid UTF-8 and dropping nulls meets no array of one null. */
  lemma {:induction false} ReadBackIsNorm(v: Value, drop: bool)
    ensures ReadBack(v, drop) == Norm(v) <==> (!drop || NoLoneNull(v)) && AllUtf8(v)
  {
    hide Size, MembersBack, MemberNames, Repaired, ValidUtf8;
    match v.payload
    case String(s) => RepairedIffValid(s);
    case Array(m) =>
      forall i | i in m ensures ReadBack(m[i], drop) == Norm(m[i]) <==> (!drop || NoLoneNull(m[i])) && AllUtf8(m[i]) {
        ReadBackIsNorm(m[i], drop);
      }
      if drop && IsLoneNull(m) {
        assert 0 in Norm(v).payload.elems;
      } else {
        ArrayReadBack(v, drop);
      }
    case Object(m) =>
      forall k | k in m ensures ReadBack(m[k], drop) == Norm(m[k]) <==> (!drop || NoLoneNull(m[k])) && AllUtf8(m[k]) {
        ReadBackIsNorm(m[k], drop);
      }
      ObjectReadBack(v, drop);
    case _ =>
  }

  lemma ArrayReadBackElems(v: Value, drop: bool)
    requires v.payload.Array?
    requires !(drop && IsLoneNull(v.payload.elems))
    ensures var m := v.payload.elems; var p := ReadBack(v, drop).payload;
            && p.Array? && ReadBack(v, drop) == Value(p, 0, 0)
            && (forall i :: i in p.elems <==> 0 <= i < Size(m))
            && forall i :: i in p.elems ==> p.elems[i] == if i in m then ReadBack(m[i], drop) else NULL_VALUE
  {
    hide Size;
  }

  // Two containers read back alike exactly when their children do.
  lemma ArrayReadBack(v: Value, drop: bool)
    requires v.payload.Array?
    requires !(drop && IsLoneNull(v.payload.elems))
    ensures var m := v.payload.elems;
            ReadBack(v, drop) == Norm(v) <==> forall i :: i in m ==> ReadBack(m[i], drop) == Norm(m[i])
  {
    hide Size;
    var m := v.payload.elems;
    var r, n := ReadBack(v, drop).payload.elems, Norm(v).payload.elems;
    assert r.Keys == n.Keys;
    forall i | i in m ensures i in r && r[i] == ReadBack(m[i], drop) && n[i] == Norm(m[i]) {
    }
    if forall i :: i in m ==> ReadBack(m[i], drop) == Norm(m[i]) {
      assert r == n;
    }
  }

  /** The keys that come back are the repaired ones. */
  lemma {:induction false} MembersBackKeys(m: map<Bytes, Value>, ks: seq<Bytes>, v: Value, drop: bool, r: Bytes)
    requires v.payload.Object? && forall k :: k in ks ==> k in v.payload.members
    ensures r in MembersBack(m, ks, v, drop) <==> r in m || exists k :: k in ks && Repaired(k) == r
    decreases |ks|
  {
    hide ReadBack;
    if ks != [] {
      MembersBackKeys(m[Repaired(ks[0]) := ReadBack(v.payload.members[ks[0]], drop)], ks[1..], v, drop, r);
      assert forall k :: k in ks <==> k == ks[0] || k in ks[1..];
    }
  }

  /** Valid keys come back with their own values. */
  lemma {:induction false} MembersBackValid(m: map<Bytes, Value>, ks: seq<Bytes>, v: Value, drop: bool, r: Bytes)
    requires v.payload.Object? && forall k :: k in ks ==> k in v.payload.members && Repaired(k) == k
    ensures var w := MembersBack(m, ks, v, drop);
            && (r in w <==> r in m || r in ks)
            && (r in w ==> w[r] == if r in ks then ReadBack(v.payload.members[r], drop) else m[r])
    decreases |ks|
  {
    hide ReadBack;
    if ks != [] {
      MembersBackValid(m[ks[0] := ReadBack(v.payload.members[ks[0]], drop)], ks[1..], v, drop, r);
      assert r in ks <==> r == ks[0] || r in ks[1..];
    }
  }

  lemma AllUtf8Members(m: map<Bytes, Value>)
    ensures RepairedKeys(m.Keys) == m.Keys <==> forall k :: k in m ==> ValidUtf8(k)
    ensures forall k :: Repaired(k) == k <==> ValidUtf8(k)
  {
    RepairedKeysIffValid(m.Keys);
    forall k ensures Repaired(k) == k <==> ValidUtf8(k) {
      RepairedIffValid(k);
    }
  }

  function NormMembers(m: map<Bytes, Value>): map<Bytes, Value> {
    map k | k in m :: Norm(m[k])
  }

  lemma NormObject(v: Value)
    requires v.payload.Object?
    ensures Norm(v) == Value(Object(NormMembers(v.payload.members)), 0, 0)
  {
    var m := v.payload.members;
    assert Norm(v).payload.members == NormMembers(m);
  }

  // An object reads back as its normal form exactly when its keys are valid and its members do.
  lemma ObjectReadBack(v: Value, drop: bool)
    requires v.payload.Object?
    ensures var m := v.payload.members;
            ReadBack(v, drop) == Norm(v) <==>
            forall k :: k in m ==> ValidUtf8(k) && ReadBack(m[k], drop) == Norm(m[k])
  {
    hide Norm, Repaired, ValidUtf8, MembersBack, MemberNames, RepairedKeys;
    var m := v.payload.members;
    var r := MembersBack(map[], MemberNames(m), v, drop);
    assert ReadBack(v, drop) == Value(Object(r), 0, 0);
    NormObject(v);
    AllUtf8Members(m);
    MembersBackDomain(v, drop);
    if forall k :: k in m ==> ValidUtf8(k) {
      MembersAlike(v, drop);
    }
  }

  lemma MembersBackDomain(v: Value, drop: bool)
    requires v.payload.Object?
    ensures MembersBack(map[], MemberNames(v.payload.members), v, drop).Keys == RepairedKeys(v.payload.members.Keys)
    ensures NormMembers(v.payload.members).Keys == v.payload.members.Keys
  {
    hide Repaired, MembersBack, MemberNames;
    var m := v.payload.members;
    var r := MembersBack(map[], MemberNames(m), v, drop);
    forall key ensures key in r.Keys <==> key in RepairedKeys(m.Keys) {
      MembersBackKeys(map[], MemberNames(m), v, drop, key);
    }
  }

  lemma MembersAlike(v: Value, drop: bool)
    requires v.payload.Object? && forall k :: k in v.payload.members ==> Repaired(k) == k
    ensures var m := v.payload.members;
            MembersBack(map[], MemberNames(m), v, drop) == NormMembers(m) <==>
            forall k :: k in m ==> ReadBack(m[k], drop) == Norm(m[k])
  {
    hide Repaired, MembersBack, MemberNames, ReadBack, Norm;
    var m := v.payload.members;
    var r, n := MembersBack(map[], MemberNames(m), v, drop), NormMembers(m);
    forall k ensures (k in r <==> k in m) && (k in m ==> r[k] == ReadBack(m[k], drop)) {
      MembersBackValid(map[], MemberNames(m), v, drop, k);
    }
    if forall k :: k in m ==> ReadBack(m[k], drop) == Norm(m[k]) {
      assert r.Keys == n.Keys;
      assert r == n;
    }
  }

  // The meaning of compact texts

  lemma IntegerSyntaxMeaning(n: int, g: Settings)
    requires -TWO_TO_THE_63 <= n < TWO_TO_THE_64
    ensures WellFormed(IntegerSyntax(n), g)
    ensures Denote(IntegerSyntax(n), g) == Value(if n < 0 then Int(n) else NaturalPayload(n), 0, 0)
    ensures Print(IntegerSyntax(n)) == IntegerText(n)
  {
    NatOfDigits(Magnitude(n));
    var t := IntegerSyntax(n).n;
    assert PrintUnsigned(t) == Digits(Magnitude(n));
  }

  lemma StringMeaning(s: Bytes)
    ensures WellFormedChars(QuoteChars(s)) && CharsMeaning(QuoteChars(s)) == Repaired(s)
  {
    QuoteCharsMeaning(s);
  }

  lemma {:induction false} ItemsWellFormed(items: seq<Item>, g: Settings)
    requires forall i :: 0 <= i < |items| ==>
               AllBlank(items[i].before) && AllBlank(items[i].after) && WellFormed(items[i].v, g)
    ensures WellFormedItems(items, g)
    decreases |items|
  {
    hide WellFormed, ItemGaps;
    if items != [] {
      BlankItem(items[0], Early(g.f), Skipped(g.f));
      ItemsWellFormed(items[1..], g);
    }
  }

  // A well-formed member with nothing but blanks around its parts.
  predicate BlankMember(member: Member, g: Settings) {
    && member.lead == [COMMA] && AllBlank(member.before) && WellFormedKey(member.key) && AllBlank(member.beforeColon)
    && AllBlank(member.value.before) && AllBlank(member.value.after) && WellFormed(member.value.v, g)
  }

  lemma {:induction false} MembersWellFormed(members: seq<Member>, g: Settings)
    requires forall i :: 0 <= i < |members| ==> BlankMember(members[i], g)
    ensures WellFormedMembers(members, g)
    decreases |members|
  {
    hide WellFormed, ItemGaps, WellFormedKey;
    if members != [] {
      assert BlankMember(members[0], g);
      BlankIsGap(members[0].before, Skipped(g.f));
      BlankItem(members[0].value, Early(g.f), Skipped(g.f));
      MembersWellFormed(members[1..], g);
    }
  }

  /** Reading members of an object back assigns them under their repaired keys, one after the other. */
  lemma {:induction false} MembersMeaning(
      m: map<Bytes, Value>, members: seq<Member>, ks: seq<Bytes>, v: Value, drop: bool, g: Settings)
    requires WellFormedMembers(members, g) && v.payload.Object? && |members| == |ks|
    requires forall i :: 0 <= i < |ks| ==>
               && ks[i] in v.payload.members && KeyOf(members[i]) == Repaired(ks[i])
               && WellFormed(members[i].value.v, g)
               && Denote(members[i].value.v, g) == ReadBack(v.payload.members[ks[i]], drop)
    ensures DenoteMembers(m, members, g) == MembersBack(m, ks, v, drop)
    decreases |members|
  {
    hide ReadBack, WellFormed, Denote, KeyOf, Repaired;
    if members != [] {
      MembersMeaning(m[KeyOf(members[0]) := Denote(members[0].value.v, g)], members[1..], ks[1..], v, drop, g);
    }
  }

  lemma ItemsMeaning(items: seq<Item>, m: map<nat, Value>, g: Settings)
    requires WellFormedItems(items, g)
    requires forall i :: i in m <==> 0 <= i < |items|
    requires forall i :: 0 <= i < |items| ==> WellFormed(items[i].v, g) && Denote(items[i].v, g) == m[i]
    ensures DenoteItems(map[], 0, items, g) == m
  {
    var r := DenoteItems(map[], 0, items, g);
    forall i: nat ensures (i in r <==> i in m) && (i in m ==> r[i] == m[i]) {
      DenoteItemsAt(map[], 0, items, g, i);
    }
    assert r.Keys == m.Keys;
  }

  /**
    The compact text of a value without reals is a text of the grammar but for dropped nulls and for keys
    that its repair makes equal, and denotes what is read back.
   */
  lemma CompactMeaning(v: Value, drop: bool, gap: Bytes, show: ShowDouble, g: Settings)
    requires Writable(v) && AllBlank(gap)
    ensures var c := CompactSyntax(v, drop, gap, show);
            && WellFormed(c, Lenient(g)) && Denote(c, Lenient(g)) == ReadBack(v, drop)
            && NoEarlyComments(c) && (AllDistinct(c) <==> KeysApart(v)) && (NoDropped(c) <==> !drop || NothingDropped(v))
  {
    hide WellFormed, Denote, CompactSyntax, ReadBack, NoEarlyComments, AllDistinct, KeysApart, NoDropped, NothingDropped;
    var c := CompactSyntax(v, drop, gap, show);
    CompactDenotes(v, drop, gap, show, NoComments(g));
    WellFormedIff(c, NoComments(g));
    DenoteLenient(c, NoComments(g));
    CompactDistinct(v, drop, gap, show);
    CompactDropped(v, drop, gap, show);
  }

  // The lenient reader, but for comments.
  function NoComments(g: Settings): (h: Settings)
    ensures Lenient(h) == Lenient(g)
  {
    g.(f := g.f.(rejectDupKeys := false, allowComments := false, allowDroppedNullPlaceholders := true))
  }

  lemma {:induction false} CompactDenotes(v: Value, drop: bool, gap: Bytes, show: ShowDouble, g: Settings)
    requires Writable(v) && AllBlank(gap) && (drop ==> g.f.allowDroppedNullPlaceholders) && !g.f.rejectDupKeys
    ensures WellFormed(CompactSyntax(v, drop, gap, show), g)
    ensures Denote(CompactSyntax(v, drop, gap, show), g) == ReadBack(v, drop)
  {
    hide Size, MemberNames, MembersBack, Repaired, CharsMeaning, WellFormedChars;
    match v.payload
    case Int(i) => IntegerSyntaxMeaning(i, g);
    case UInt(u) => IntegerSyntaxMeaning(u, g);
    case String(s) => StringMeaning(s);
    case Array(m) =>
      forall i | i in m
        ensures WellFormed(CompactSyntax(m[i], drop, gap, show), g)
        ensures Denote(CompactSyntax(m[i], drop, gap, show), g) == ReadBack(m[i], drop)
      {
        CompactDenotes(m[i], drop, gap, show, g);
      }
      CompactArrayMeaning(v, drop, gap, show, g);
    case Object(m) =>
      forall k | k in m
        ensures WellFormed(CompactSyntax(m[k], drop, gap, show), g)
        ensures Denote(CompactSyntax(m[k], drop, gap, show), g) == ReadBack(m[k], drop)
      {
        CompactDenotes(m[k], drop, gap, show, g);
      }
      CompactObjectMeaning(v, drop, gap, show, g);
    case _ =>
  }

  lemma CompactIsDropped(v: Value, drop: bool, gap: Bytes, show: ShowDouble)
    ensures CompactSyntax(v, drop, gap, show).Dropped? <==> drop && v.payload.Null?
  {
  }

  /** The items of the compact text of an array. */
  function CompactItems(m: map<nat, Value>, drop: bool, gap: Bytes, show: ShowDouble): (items: seq<Item>)
    ensures |items| == Size(m)
    ensures forall i :: 0 <= i < |items| ==>
              items[i] == Item([], if i in m then CompactSyntax(m[i], drop, gap, show) else NullSyntax(drop), [])
  {
    seq(Size(m), i requires 0 <= i < Size(m) =>
      Item([], if i in m then CompactSyntax(m[i], drop, gap, show) else NullSyntax(drop), []))
  }

  lemma CompactArray(v: Value, drop: bool, gap: Bytes, show: ShowDouble)
    requires v.payload.Array?
    ensures CompactSyntax(v, drop, gap, show) == ArraySyntax(CompactItems(v.payload.elems, drop, gap, show))
  {
    hide Size;
    var m := v.payload.elems;
    assert CompactItems(m, drop, gap, show) == seq(Size(m), i requires 0 <= i < Size(m) =>
      Item([], if i in m then CompactSyntax(m[i], drop, gap, show) else NullSyntax(drop), []));
  }

  lemma CompactArrayMeaning(v: Value, drop: bool, gap: Bytes, show: ShowDouble, g: Settings)
    requires v.payload.Array? && (drop ==> g.f.allowDroppedNullPlaceholders)
    requires var m := v.payload.elems;
             forall i :: i in m ==>
               && WellFormed(CompactSyntax(m[i], drop, gap, show), g)
               && Denote(CompactSyntax(m[i], drop, gap, show), g) == ReadBack(m[i], drop)
    ensures WellFormed(CompactSyntax(v, drop, gap, show), g)
    ensures Denote(CompactSyntax(v, drop, gap, show), g) == ReadBack(v, drop)
  {
    hide Size, CompactSyntax, ReadBack, WellFormed, Denote, WellFormedItems, DenoteItems, ArraySyntax;
    var m := v.payload.elems;
    var items := CompactItems(m, drop, gap, show);
    CompactArray(v, drop, gap, show);
    if Size(m) == 1 {
      CompactIsDropped(m[0], drop, gap, show);
    }
    if drop && IsLoneNull(m) {
      LoneNullMeaning(v, items, drop, g);
    } else {
      CompactItemsMeaning(v, drop, gap, show, g);
      ArrayReadBackElems(v, drop);
      ItemsTextMeaning(items, g);
    }
  }

  // An array of one dropped null prints as an empty one.
  lemma LoneNullMeaning(v: Value, items: seq<Item>, drop: bool, g: Settings)
    requires v.payload.Array? && drop && IsLoneNull(v.payload.elems)
    requires |items| == 1 && items[0].v.Dropped? && items[0].before == items[0].after == []
    ensures WellFormed(ArraySyntax(items), g) && Denote(ArraySyntax(items), g) == ReadBack(v, drop)
  {
    hide Size;
  }

  lemma ItemsTextMeaning(items: seq<Item>, g: Settings)
    requires WellFormedItems(items, g) && !(|items| == 1 && items[0].v.Dropped?)
    ensures WellFormed(ArraySyntax(items), g)
    ensures Denote(ArraySyntax(items), g) == Value(Array(DenoteItems(map[], 0, items, g)), 0, 0)
  {
  }

  lemma NullMeaning(drop: bool, g: Settings)
    requires drop ==> g.f.allowDroppedNullPlaceholders
    ensures WellFormed(NullSyntax(drop), g) && Denote(NullSyntax(drop), g) == NULL_VALUE
  {
  }

  lemma CompactItemsMeaning(v: Value, drop: bool, gap: Bytes, show: ShowDouble, g: Settings)
    requires v.payload.Array? && (drop ==> g.f.allowDroppedNullPlaceholders)
    requires var m := v.payload.elems;
             && !(drop && IsLoneNull(m))
             && forall i :: i in m ==>
                  && WellFormed(CompactSyntax(m[i], drop, gap, show), g)
                  && Denote(CompactSyntax(m[i], drop, gap, show), g) == ReadBack(m[i], drop)
    ensures var items := CompactItems(v.payload.elems, drop, gap, show);
            WellFormedItems(items, g) && Value(Array(DenoteItems(map[], 0, items, g)), 0, 0) == ReadBack(v, drop)
  {
    hide CompactSyntax, ReadBack, DenoteItems, WellFormedItems, WellFormed, Denote, Size;
    var m := v.payload.elems;
    var items := CompactItems(m, drop, gap, show);
    ArrayReadBackElems(v, drop);
    var back := ReadBack(v, drop).payload.elems;
    forall i | 0 <= i < Size(m)
      ensures WellFormed(items[i].v, g) && Denote(items[i].v, g) == back[i]
    {
      NullMeaning(drop, g);
    }
    ItemsWellFormed(items, g);
    ItemsMeaning(items, back, g);
  }

  function CompactMember(k: Bytes, v: Value, drop: bool, gap: Bytes, show: ShowDouble): Member {
    Member([COMMA], [], QuoteChars(k), [], Item(gap, CompactSyntax(v, drop, gap, show), []))
  }

  /** The members of the compact text of an object. */
  function CompactMembers(m: map<Bytes, Value>, drop: bool, gap: Bytes, show: ShowDouble): (members: seq<Member>)
    ensures var ks := MemberNames(m);
            |members| == |ks| && forall i :: 0 <= i < |ks| ==> members[i] == CompactMember(ks[i], m[ks[i]], drop, gap, show)
  {
    var ks := MemberNames(m);
    seq(|ks|, i requires 0 <= i < |ks| => CompactMember(ks[i], m[ks[i]], drop, gap, show))
  }

  lemma CompactObject(v: Value, drop: bool, gap: Bytes, show: ShowDouble)
    requires v.payload.Object?
    ensures CompactSyntax(v, drop, gap, show) == ObjectText(CompactMembers(v.payload.members, drop, gap, show), CLOSED)
  {
    hide MemberNames;
    var m := v.payload.members;
    var ks := MemberNames(m);
    var members := CompactSyntax(v, drop, gap, show).members;
    assert |members| == |ks|;
    forall i | 0 <= i < |ks| ensures members[i] == CompactMember(ks[i], m[ks[i]], drop, gap, show) {
    }
  }

  lemma ObjectTextMeaning(members: seq<Member>, g: Settings)
    requires WellFormedMembers(members, g) && !g.f.rejectDupKeys
    ensures WellFormed(ObjectText(members, CLOSED), g)
    ensures Denote(ObjectText(members, CLOSED), g) == Value(Object(DenoteMembers(map[], members, g)), 0, 0)
  {
  }

  lemma CompactLead(k: Bytes, v: Value, drop: bool, gap: Bytes, show: ShowDouble)
    ensures CompactMember(k, v, drop, gap, show).lead == [COMMA]
  {
  }

  lemma CompactMemberKey(k: Bytes, v: Value, drop: bool, gap: Bytes, show: ShowDouble)
    ensures var m := CompactMember(k, v, drop, gap, show);
            && KeyOf(m) == Repaired(k) && (|Repaired(k)| < KEY_LIMIT ==> WellFormedKey(m.key))
            && m.value.v == CompactSyntax(v, drop, gap, show)
  {
    StringMeaning(k);
  }

  lemma CompactMemberFits(k: Bytes, v: Value, drop: bool, gap: Bytes, show: ShowDouble, g: Settings)
    requires AllBlank(gap) && |Repaired(k)| < KEY_LIMIT && WellFormed(CompactSyntax(v, drop, gap, show), g)
    ensures BlankMember(CompactMember(k, v, drop, gap, show), g)
  {
    CompactMemberKey(k, v, drop, gap, show);
  }

  lemma CompactObjectMeaning(v: Value, drop: bool, gap: Bytes, show: ShowDouble, g: Settings)
    requires v.payload.Object? && AllBlank(gap) && !g.f.rejectDupKeys
    requires var m := v.payload.members;
             forall k :: k in m ==>
               && |Repaired(k)| < KEY_LIMIT
               && WellFormed(CompactSyntax(m[k], drop, gap, show), g)
               && Denote(CompactSyntax(m[k], drop, gap, show), g) == ReadBack(m[k], drop)
    ensures WellFormed(CompactSyntax(v, drop, gap, show), g)
    ensures Denote(CompactSyntax(v, drop, gap, show), g) == ReadBack(v, drop)
  {
    hide WellFormed, Denote, DenoteMembers, WellFormedMembers, CompactSyntax, MembersBack, KeyOf, CompactMember;
    hide WellFormedKey, RepairsApart;
    hide Repaired, MemberNames, BlankMember, AllBlank, Norm;
    var m := v.payload.members;
    var ks := MemberNames(m);
    var members := CompactMembers(m, drop, gap, show);
    CompactObject(v, drop, gap, show);
    forall i | 0 <= i < |ks|
      ensures ks[i] in m && BlankMember(members[i], g) && KeyOf(members[i]) == Repaired(ks[i])
      ensures members[i].value.v == CompactSyntax(m[ks[i]], drop, gap, show)
    {
      assert ks[i] in m;
      CompactMemberFits(ks[i], m[ks[i]], drop, gap, show, g);
      CompactMemberKey(ks[i], m[ks[i]], drop, gap, show);
    }
    MembersWellFormed(members, g);
    ObjectTextMeaning(members, g);
    MembersMeaning(map[], members, ks, v, drop, g);
  }

  // Which keys meet

  /** The compact text repeats a key exactly where the repair of two keys of one object is the same. */
  lemma {:induction false} CompactDistinct(v: Value, drop: bool, gap: Bytes, show: ShowDouble)
    ensures AllDistinct(CompactSyntax(v, drop, gap, show)) <==> KeysApart(v)
  {
    hide Size, MemberNames, Repaired;
    match v.payload
    case Array(m) =>
      forall i | i in m ensures AllDistinct(CompactSyntax(m[i], drop, gap, show)) <==> KeysApart(m[i]) {
        CompactDistinct(m[i], drop, gap, show);
      }
      ArrayDistinct(v, drop, gap, show);
    case Object(m) =>
      forall k | k in m ensures AllDistinct(CompactSyntax(m[k], drop, gap, show)) <==> KeysApart(m[k]) {
        CompactDistinct(m[k], drop, gap, show);
      }
      ObjectDistinct(v, drop, gap, show);
    case _ =>
  }

  lemma ArrayDistinct(v: Value, drop: bool, gap: Bytes, show: ShowDouble)
    requires v.payload.Array?
    requires var m := v.payload.elems;
             forall i :: i in m ==> (AllDistinct(CompactSyntax(m[i], drop, gap, show)) <==> KeysApart(m[i]))
    ensures AllDistinct(CompactSyntax(v, drop, gap, show)) <==> KeysApart(v)
  {
    hide Size, CompactSyntax, KeyOf, DistinctKeys;
    var m := v.payload.elems;
    var items := CompactItems(m, drop, gap, show);
    CompactArray(v, drop, gap, show);
    if Size(m) == 1 {
      CompactIsDropped(m[0], drop, gap, show);
    }
    forall i | 0 <= i < Size(m) ensures AllDistinct(items[i].v) <==> (i in m ==> KeysApart(m[i])) {
    }
    forall i | i in m ensures i < Size(m) && items[i].v == CompactSyntax(m[i], drop, gap, show) {
    }
    assert Size(m) == 1 && items[0].v.Dropped? ==> (0 in m ==> KeysApart(m[0]));
  }

  lemma ObjectDistinct(v: Value, drop: bool, gap: Bytes, show: ShowDouble)
    requires v.payload.Object?
    requires var m := v.payload.members;
             forall k :: k in m ==> (AllDistinct(CompactSyntax(m[k], drop, gap, show)) <==> KeysApart(m[k]))
    ensures AllDistinct(CompactSyntax(v, drop, gap, show)) <==> KeysApart(v)
  {
    hide CompactSyntax, MemberNames, Repaired, KeyOf, DistinctKeys, QuoteChars, RepairsApart, CompactMember;
    var m := v.payload.members;
    var ks := MemberNames(m);
    var members := CompactMembers(m, drop, gap, show);
    CompactObject(v, drop, gap, show);
    forall i | 0 <= i < |ks|
      ensures ks[i] in m && KeyOf(members[i]) == Repaired(ks[i]) && members[i].value.v == CompactSyntax(m[ks[i]], drop, gap, show)
    {
      assert ks[i] in m;
      CompactMemberKey(ks[i], m[ks[i]], drop, gap, show);
    }
    NamesApart(m, members);
    forall k | k in m ensures exists i :: 0 <= i < |ks| && ks[i] == k {
      assert k in ks;
    }
  }

  lemma NamesDiffer(m: map<Bytes, Value>, i: nat, j: nat)
    requires i < j < |MemberNames(m)|
    ensures MemberNames(m)[i] != MemberNames(m)[j]
  {
    hide BytesLess, MemberNames;
    BytesLessIsStrictTotal();
    assert BytesLess(MemberNames(m)[i], MemberNames(m)[j]);
  }

  lemma NamesApart(m: map<Bytes, Value>, members: seq<Member>)
    requires |members| == |MemberNames(m)|
    requires forall i :: 0 <= i < |members| ==> KeyOf(members[i]) == Repaired(MemberNames(m)[i])
    ensures DistinctKeys(members) <==> RepairsApart(m.Keys)
  {
    hide KeyOf, Repaired, BytesLess, MemberNames, Ascending, DistinctKeys;
    DistinctKeysAt(members);
    var ks := MemberNames(m);
    if forall i, j :: 0 <= i < j < |members| ==> KeyOf(members[i]) != KeyOf(members[j]) {
      forall k, l | k in m && l in m && Repaired(k) == Repaired(l) ensures k == l {
        assert k in ks && l in ks;
        var i :| 0 <= i < |ks| && ks[i] == k;
        var j :| 0 <= j < |ks| && ks[j] == l;
        assert KeyOf(members[i]) == KeyOf(members[j]);
      }
    } else {
      var i, j :| 0 <= i < j < |members| && KeyOf(members[i]) == KeyOf(members[j]);
      NamesDiffer(m, i, j);
      assert ks[i] in m && ks[j] in m;
    }
  }

  // Which nulls are left out

  /** The compact text has a dropped null exactly where nulls are dropped and one is not alone in an array. */
  lemma {:induction false} CompactDropped(v: Value, drop: bool, gap: Bytes, show: ShowDouble)
    ensures NoDropped(CompactSyntax(v, drop, gap, show)) <==> !drop || NothingDropped(v)
  {
    hide Size, MemberNames, IsLoneNull;
    match v.payload
    case Array(m) =>
      forall i | i in m ensures NoDropped(CompactSyntax(m[i], drop, gap, show)) <==> !drop || NothingDropped(m[i]) {
        CompactDropped(m[i], drop, gap, show);
      }
      ArrayDropped(v, drop, gap, show);
    case Object(m) =>
      forall k | k in m ensures NoDropped(CompactSyntax(m[k], drop, gap, show)) <==> !drop || NothingDropped(m[k]) {
        CompactDropped(m[k], drop, gap, show);
      }
      ObjectDropped(v, drop, gap, show);
    case _ =>
  }

  lemma ArrayDropped(v: Value, drop: bool, gap: Bytes, show: ShowDouble)
    requires v.payload.Array?
    requires var m := v.payload.elems;
             forall i :: i in m ==> (NoDropped(CompactSyntax(m[i], drop, gap, show)) <==> !drop || NothingDropped(m[i]))
    ensures NoDropped(CompactSyntax(v, drop, gap, show)) <==> !drop || NothingDropped(v)
  {
    hide Size, CompactSyntax;
    var m := v.payload.elems;
    var items := CompactItems(m, drop, gap, show);
    CompactArray(v, drop, gap, show);
    if Size(m) == 1 {
      CompactIsDropped(m[0], drop, gap, show);
    }
    forall i | 0 <= i < Size(m) ensures NoDropped(items[i].v) <==> !drop || (i in m && NothingDropped(m[i])) {
    }
  }

  lemma ObjectDropped(v: Value, drop: bool, gap: Bytes, show: ShowDouble)
    requires v.payload.Object?
    requires var m := v.payload.members;
             forall k :: k in m ==> (NoDropped(CompactSyntax(m[k], drop, gap, show)) <==> !drop || NothingDropped(m[k]))
    ensures NoDropped(CompactSyntax(v, drop, gap, show)) <==> !drop || NothingDropped(v)
  {
    hide CompactSyntax, MemberNames, CompactMember, Repaired, QuoteChars;
    var m := v.payload.members;
    var ks := MemberNames(m);
    var members := CompactMembers(m, drop, gap, show);
    CompactObject(v, drop, gap, show);
    forall i | 0 <= i < |ks| ensures ks[i] in m && members[i].value.v == CompactSyntax(m[ks[i]], drop, gap, show) {
      CompactMemberKey(ks[i], m[ks[i]], drop, gap, show);
    }
    forall k | k in m ensures exists i :: 0 <= i < |ks| && ks[i] == k {
      assert k in ks;
    }
  }
}
