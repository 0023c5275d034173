/**
  `Value::operator<`, `operator==` and `compare`. The order is lexicographic all the way down: by
  type, then by content, containers by their number of entries and then entry by entry in key order.
 */
module Order {
  import opened Basics
  import opened Keys
  import opened Values

  // The position of a type in `ValueType`.
  function TypeRank(p: Payload): nat {
    match p
    case Null => 0
    case Int(_) => 1
    case UInt(_) => 2
    case Real(_) => 3
    case String(_) => 4
    case Boolean(_) => 5
    case Array(_) => 6
    case Object(_) => 7
  }

  /** IEEE comparison: a NaN is neither below nor above anything, itself included. */
  predicate DoubleLess(a: Double, b: Double) {
    match (a, b)
    case (Finite(x), Finite(y)) => x < y
    case (NegInf, b) => b.Finite? || b.PosInf?
    case (Finite(_), PosInf) => true
    case _ => false
  }

  predicate DoubleEq(a: Double, b: Double) {
    a == b && !a.NaN?
  }

  /** What iterating over a `std::map` visits. */
  function Entries<K(!new, ==)>(lt: (K, K) -> bool, m: map<K, Value>): (s: seq<(K, Value)>)
    requires StrictTotal(lt)
    ensures |s| == |m|
    ensures forall i :: 0 <= i < |s| ==> s[i].0 in m && s[i].1 == m[s[i].0]
    ensures forall k :: k in m ==> (k, m[k]) in s
  {
    var ks := Sorted(lt, m.Keys);
    var s := seq(|ks|, i requires 0 <= i < |ks| => assert ks[i] in ks; (ks[i], m[ks[i]]));
    assert forall k :: k in m ==> (k, m[k]) in s by {
      forall k | k in m ensures (k, m[k]) in s {
        assert k in ks;
        var i :| 0 <= i < |ks| && ks[i] == k;
        assert s[i] == (k, m[k]);
      }
    }
    s
  }

  function Elements(m: map<nat, Value>): (s: seq<(nat, Value)>)
    ensures |s| == |m|
  {
    Entries(IndexLess, m)
  }

  function Members(m: map<Bytes, Value>): (s: seq<(Bytes, Value)>)
    ensures |s| == |m|
  {
    BytesLessIsStrictTotal();
    Entries(BytesLess, m)
  }

  // Weights, the measure of all recursion over two trees at once

  function Sum(ns: seq<nat>): nat {
    if ns == [] then 0 else ns[0] + Sum(ns[1..])
  }

  /** The number of nodes of a tree. */
  ghost function Weight(v: Value): (w: nat)
    ensures w > 0
  {
    match v.payload
    case Array(m) =>
      var xs := Elements(m);
      1 + Sum(seq(|xs|, i requires 0 <= i < |xs| => Weight(xs[i].1)))
    case Object(m) =>
      var xs := Members(m);
      1 + Sum(seq(|xs|, i requires 0 <= i < |xs| => Weight(xs[i].1)))
    case _ => 1
  }

  ghost function WeightOf<K>(xs: seq<(K, Value)>): nat {
    if xs == [] then 0 else Weight(xs[0].1) + WeightOf(xs[1..])
  }

  lemma {:induction false} WeightOfIsSum<K>(xs: seq<(K, Value)>, ns: seq<nat>)
    requires |ns| == |xs| && forall i :: 0 <= i < |xs| ==> ns[i] == Weight(xs[i].1)
    ensures Sum(ns) == WeightOf(xs)
  {
    if xs != [] {
      WeightOfIsSum(xs[1..], ns[1..]);
    }
  }

  lemma ArrayWeight(v: Value)
    requires v.payload.Array?
    ensures Weight(v) == 1 + WeightOf(Elements(v.payload.elems))
  {
    hide Elements, Members, WeightOf, Sum;
    var xs := Elements(v.payload.elems);
    WeightOfIsSum(xs, seq(|xs|, i requires 0 <= i < |xs| => Weight(xs[i].1)));
  }

  lemma ObjectWeight(v: Value)
    requires v.payload.Object?
    ensures Weight(v) == 1 + WeightOf(Members(v.payload.members))
  {
    hide Elements, Members, WeightOf, Sum;
    var xs := Members(v.payload.members);
    WeightOfIsSum(xs, seq(|xs|, i requires 0 <= i < |xs| => Weight(xs[i].1)));
  }

  // The comparisons

  /** `operator<` */
  predicate Less(a: Value, b: Value)
    decreases Weight(a) + Weight(b), 0
  {
    if TypeRank(a.payload) != TypeRank(b.payload) then TypeRank(a.payload) < TypeRank(b.payload)
    else
      match a.payload
      case Null => false
      case Int(i) => i < b.payload.i
      case UInt(u) => u < b.payload.u
      case Real(d) => DoubleLess(d, b.payload.d)
      case Boolean(x) => !x && b.payload.b
      case String(s) => BytesLess(s, b.payload.s)
      case Array(m) =>
        var n := b.payload.elems;
        ArrayWeight(a); ArrayWeight(b);
        if |m| != |n| then |m| < |n| else EntriesLess(IndexLess, Elements(m), Elements(n))
      case Object(m) =>
        var n := b.payload.members;
        ObjectWeight(a); ObjectWeight(b);
        if |m| != |n| then |m| < |n| else EntriesLess(BytesLess, Members(m), Members(n))
  }

  /** `operator<` on two `std::map`s: `std::lexicographical_compare` of their entries, pairs by key and then value. */
  predicate EntriesLess<K(==)>(lt: (K, K) -> bool, xs: seq<(K, Value)>, ys: seq<(K, Value)>)
    decreases WeightOf(xs) + WeightOf(ys), 1
  {
    if xs == [] || ys == [] then ys != []
    else if lt(xs[0].0, ys[0].0) || (!lt(ys[0].0, xs[0].0) && Less(xs[0].1, ys[0].1)) then true
    else if lt(ys[0].0, xs[0].0) || (!lt(xs[0].0, ys[0].0) && Less(ys[0].1, xs[0].1)) then false
    else EntriesLess(lt, xs[1..], ys[1..])
  }

  /** `operator==` */
  predicate Equal(a: Value, b: Value)
    decreases Weight(a), 0
  {
    && TypeRank(a.payload) == TypeRank(b.payload)
    && match a.payload
       case Null => true
       case Int(i) => i == b.payload.i
       case UInt(u) => u == b.payload.u
       case Real(d) => DoubleEq(d, b.payload.d)
       case Boolean(x) => x == b.payload.b
       case String(s) => |s| == |b.payload.s| && Memcmp(s, b.payload.s) == 0
       case Array(m) =>
         ArrayWeight(a);
         |m| == |b.payload.elems| && EntriesEqual(Elements(m), Elements(b.payload.elems))
       case Object(m) =>
         ObjectWeight(a);
         |m| == |b.payload.members| && EntriesEqual(Members(m), Members(b.payload.members))
  }

  predicate EntriesEqual<K(==)>(xs: seq<(K, Value)>, ys: seq<(K, Value)>)
    requires |xs| == |ys|
    decreases WeightOf(xs), 1
  {
    xs == [] || (xs[0].0 == ys[0].0 && Equal(xs[0].1, ys[0].1) && EntriesEqual(xs[1..], ys[1..]))
  }

  /** `compare` */
  function Compare(a: Value, b: Value): int {
    if Less(a, b) then -1 else if Less(b, a) then 1 else 0
  }

  /** No number in the tree is a NaN. */
  ghost predicate NaNFree(v: Value) {
    match v.payload
    case Real(d) => !d.NaN?
    case Array(m) => forall i :: i in m ==> NaNFree(m[i])
    case Object(m) => forall k :: k in m ==> NaNFree(m[k])
    case _ => true
  }

  ghost predicate EntriesNaNFree<K(!new)>(xs: seq<(K, Value)>) {
    forall x :: x in xs ==> NaNFree(x.1)
  }

  // Equality

  lemma {:induction false} MemcmpZero(a: Bytes, b: Bytes)
    requires |a| == |b|
    ensures Memcmp(a, b) == 0 <==> a == b
  {
    if a != [] && a[0] == b[0] {
      MemcmpZero(a[1..], b[1..]);
      assert a == [a[0]] + a[1..] && b == [b[0]] + b[1..];
    }
  }

  /** The entries of two maps agree up to offsets. */
  predicate SameEntries<K(==)>(xs: seq<(K, Value)>, ys: seq<(K, Value)>) {
    |xs| == |ys| && forall i :: 0 <= i < |xs| ==> xs[i].0 == ys[i].0 && Erase(xs[i].1) == Erase(ys[i].1)
  }

  /** Maps agree exactly when their entries do. */
  lemma SameMaps<K(!new)>(lt: (K, K) -> bool, m: map<K, Value>, n: map<K, Value>)
    requires StrictTotal(lt)
    ensures SameEntries(Entries(lt, m), Entries(lt, n)) <==>
            m.Keys == n.Keys && forall k :: k in m ==> Erase(m[k]) == Erase(n[k])
  {
    hide Erase, Entries, StrictTotal;
    var xs, ys := Entries(lt, m), Entries(lt, n);
    if SameEntries(xs, ys) {
      forall k | k in m ensures k in n && Erase(m[k]) == Erase(n[k]) {
        var i :| 0 <= i < |xs| && xs[i] == (k, m[k]);
      }
      forall k | k in n ensures k in m {
        var i :| 0 <= i < |ys| && ys[i] == (k, n[k]);
      }
    } else if m.Keys == n.Keys && forall k :: k in m ==> Erase(m[k]) == Erase(n[k]) {
      EntryKeys(lt, m, n);
    }
  }

  // Maps with the same keys list them in the same order.
  lemma EntryKeys<K(!new)>(lt: (K, K) -> bool, m: map<K, Value>, n: map<K, Value>)
    requires StrictTotal(lt) && m.Keys == n.Keys
    ensures var xs, ys := Entries(lt, m), Entries(lt, n);
            |xs| == |ys| && forall i :: 0 <= i < |xs| ==> xs[i].0 == ys[i].0
  {
    hide Sorted, StrictTotal;
  }


  lemma ErasedArraysEqual(m: map<nat, Value>, n: map<nat, Value>)
    ensures EraseElems(m) == EraseElems(n) <==> m.Keys == n.Keys && forall k :: k in m ==> Erase(m[k]) == Erase(n[k])
  {
    hide Erase;
    var x, y := EraseElems(m), EraseElems(n);
    if x == y {
      assert m.Keys == x.Keys == y.Keys == n.Keys;
      forall k | k in m ensures Erase(m[k]) == Erase(n[k]) {
        assert x[k] == y[k];
      }
    } else if m.Keys == n.Keys && forall k :: k in m ==> Erase(m[k]) == Erase(n[k]) {
      assert x.Keys == y.Keys;
      assert forall k :: k in x ==> x[k] == y[k];
    }
  }

  lemma SameArrays(a: Value, b: Value)
    requires a.payload.Array? && b.payload.Array?
    ensures Erase(a) == Erase(b) <==> SameEntries(Elements(a.payload.elems), Elements(b.payload.elems))
  {
    hide Erase, EraseElems, SameEntries, Entries;
    var m, n := a.payload.elems, b.payload.elems;
    EraseArray(a);
    EraseArray(b);
    ErasedArraysEqual(m, n);
    IndexLessIsStrictTotal();
    SameMaps(IndexLess, m, n);
  }

  lemma ErasedObjectsEqual(m: map<Bytes, Value>, n: map<Bytes, Value>)
    ensures EraseMembers(m) == EraseMembers(n) <==> m.Keys == n.Keys && forall k :: k in m ==> Erase(m[k]) == Erase(n[k])
  {
    hide Erase;
    var x, y := EraseMembers(m), EraseMembers(n);
    if x == y {
      assert m.Keys == x.Keys == y.Keys == n.Keys;
      forall k | k in m ensures Erase(m[k]) == Erase(n[k]) {
        assert x[k] == y[k];
      }
    } else if m.Keys == n.Keys && forall k :: k in m ==> Erase(m[k]) == Erase(n[k]) {
      assert x.Keys == y.Keys;
      assert forall k :: k in x ==> x[k] == y[k];
    }
  }

  lemma SameObjects(a: Value, b: Value)
    requires a.payload.Object? && b.payload.Object?
    ensures Erase(a) == Erase(b) <==> SameEntries(Members(a.payload.members), Members(b.payload.members))
  {
    hide Erase, EraseMembers, SameEntries, Entries;
    var m, n := a.payload.members, b.payload.members;
    EraseObject(a);
    EraseObject(b);
    ErasedObjectsEqual(m, n);
    BytesLessIsStrictTotal();
    SameMaps(BytesLess, m, n);
  }

  /** `operator==` ignores offsets and nothing else; only a NaN differs from itself. */
  lemma {:induction false} EqualMeaning(a: Value, b: Value)
    ensures Equal(a, b) <==> Erase(a) == Erase(b) && NaNFree(a)
    decreases Weight(a), 0
  {
    if TypeRank(a.payload) == TypeRank(b.payload) {
      match a.payload
      case String(s) =>
        if |s| == |b.payload.s| { MemcmpZero(s, b.payload.s); }
      case Array(m) =>
        ArrayWeight(a);
        SameArrays(a, b);
        if |m| == |b.payload.elems| { EntriesEqualMeaning(Elements(m), Elements(b.payload.elems)); }
        ArrayNaNFree(a);
      case Object(m) =>
        ObjectWeight(a);
        SameObjects(a, b);
        if |m| == |b.payload.members| { EntriesEqualMeaning(Members(m), Members(b.payload.members)); }
        ObjectNaNFree(a);
      case _ =>
    }
  }

  lemma ArrayNaNFree(v: Value)
    requires v.payload.Array?
    ensures NaNFree(v) <==> EntriesNaNFree(Elements(v.payload.elems))
  {
    var m := v.payload.elems;
    if EntriesNaNFree(Elements(m)) {
      forall k | k in m ensures NaNFree(m[k]) {
        assert (k, m[k]) in Elements(m);
      }
    }
  }

  lemma ObjectNaNFree(v: Value)
    requires v.payload.Object?
    ensures NaNFree(v) <==> EntriesNaNFree(Members(v.payload.members))
  {
    var m := v.payload.members;
    if EntriesNaNFree(Members(m)) {
      forall k | k in m ensures NaNFree(m[k]) {
        assert (k, m[k]) in Members(m);
      }
    }
  }

  lemma {:induction false} EntriesEqualMeaning<K(!new)>(xs: seq<(K, Value)>, ys: seq<(K, Value)>)
    requires |xs| == |ys|
    ensures EntriesEqual(xs, ys) <==> SameEntries(xs, ys) && EntriesNaNFree(xs)
    decreases WeightOf(xs), 1
  {
    hide Equal, Erase, NaNFree;
    if xs != [] {
      EqualMeaning(xs[0].1, ys[0].1);
      EntriesEqualMeaning(xs[1..], ys[1..]);
      SameCons(xs, ys);
      assert forall x :: x in xs <==> x == xs[0] || x in xs[1..];
    }
  }

  lemma SameCons<K>(xs: seq<(K, Value)>, ys: seq<(K, Value)>)
    requires |xs| == |ys| > 0
    ensures SameEntries(xs, ys) <==>
            xs[0].0 == ys[0].0 && Erase(xs[0].1) == Erase(ys[0].1) && SameEntries(xs[1..], ys[1..])
  {
    hide Erase;
    if xs[0].0 == ys[0].0 && Erase(xs[0].1) == Erase(ys[0].1) && SameEntries(xs[1..], ys[1..]) {
      forall i | 0 <= i < |xs| ensures xs[i].0 == ys[i].0 && Erase(xs[i].1) == Erase(ys[i].1) {
        assert i > 0 ==> xs[1..][i - 1] == xs[i] && ys[1..][i - 1] == ys[i];
      }
    }
  }

  // The order

  lemma BytesUnordered(s: Bytes, t: Bytes)
    ensures !(BytesLess(s, t) && BytesLess(t, s))
    ensures !BytesLess(s, t) && !BytesLess(t, s) <==> s == t
  {
    hide BytesLess;
    BytesLessIsStrictTotal();
  }

  lemma BytesSplit(s: Bytes, t: Bytes, u: Bytes)
    requires BytesLess(s, u)
    ensures BytesLess(s, t) || BytesLess(t, u)
  {
    hide BytesLess;
    BytesLessIsStrictTotal();
  }

  /** Two trees are unordered exactly when they differ at most in their offsets. */
  lemma {:induction false} UnorderedMeaning(a: Value, b: Value)
    requires NaNFree(a) && NaNFree(b)
    ensures !(Less(a, b) && Less(b, a))
    ensures !Less(a, b) && !Less(b, a) <==> Erase(a) == Erase(b)
    decreases Weight(a) + Weight(b), 0
  {
    hide Elements, Members, EntriesLess, EntriesNaNFree, WeightOf, Weight, StrictTotal, BytesLess;
    if TypeRank(a.payload) == TypeRank(b.payload) {
      match a.payload
      case String(s) => BytesUnordered(s, b.payload.s);
      case Array(m) =>
        ArrayWeight(a); ArrayWeight(b);
        ArrayNaNFree(a); ArrayNaNFree(b);
        SameArrays(a, b);
        IndexLessIsStrictTotal();
        EntriesUnordered(IndexLess, Elements(m), Elements(b.payload.elems));
      case Object(m) =>
        ObjectWeight(a); ObjectWeight(b);
        ObjectNaNFree(a); ObjectNaNFree(b);
        SameObjects(a, b);
        BytesLessIsStrictTotal();
        EntriesUnordered(BytesLess, Members(m), Members(b.payload.members));
      case _ =>
    }
  }

  lemma {:induction false} EntriesUnordered<K(!new)>(lt: (K, K) -> bool, xs: seq<(K, Value)>, ys: seq<(K, Value)>)
    requires StrictTotal(lt) && EntriesNaNFree(xs) && EntriesNaNFree(ys)
    ensures !(EntriesLess(lt, xs, ys) && EntriesLess(lt, ys, xs))
    ensures !EntriesLess(lt, xs, ys) && !EntriesLess(lt, ys, xs) <==> SameEntries(xs, ys)
    decreases WeightOf(xs) + WeightOf(ys), 1
  {
    hide Less, Erase, NaNFree;
    if xs != [] && ys != [] {
      assert xs[0] in xs && ys[0] in ys;
      UnorderedMeaning(xs[0].1, ys[0].1);
      EntriesUnordered(lt, xs[1..], ys[1..]);
      if |xs| == |ys| { SameCons(xs, ys); }
    }
  }

  /** A step up from `a` to `c` goes up somewhere, whichever tree lies on the way. */
  lemma {:induction false} LessSplits(a: Value, b: Value, c: Value)
    requires NaNFree(a) && NaNFree(b) && NaNFree(c) && Less(a, c)
    ensures Less(a, b) || Less(b, c)
    decreases Weight(a) + Weight(b) + Weight(c), 0
  {
    hide Elements, Members, EntriesLess, EntriesNaNFree, WeightOf, Weight, StrictTotal, BytesLess;
    if TypeRank(a.payload) == TypeRank(b.payload) == TypeRank(c.payload) {
      match a.payload
      case String(s) => BytesSplit(s, b.payload.s, c.payload.s);
      case Array(m) =>
        IndexLessIsStrictTotal();
        ArrayWeight(a); ArrayWeight(b); ArrayWeight(c);
        ArrayNaNFree(a); ArrayNaNFree(b); ArrayNaNFree(c);
        if |m| == |b.payload.elems| == |c.payload.elems| {
          EntriesSplit(IndexLess, Elements(m), Elements(b.payload.elems), Elements(c.payload.elems));
        }
      case Object(m) =>
        ObjectWeight(a); ObjectWeight(b); ObjectWeight(c);
        ObjectNaNFree(a); ObjectNaNFree(b); ObjectNaNFree(c);
        BytesLessIsStrictTotal();
        if |m| == |b.payload.members| == |c.payload.members| {
          EntriesSplit(BytesLess, Members(m), Members(b.payload.members), Members(c.payload.members));
        }
      case _ =>
    }
  }

  lemma {:induction false} EntriesSplit<K(!new)>(lt: (K, K) -> bool, xs: seq<(K, Value)>, ys: seq<(K, Value)>, zs: seq<(K, Value)>)
    requires StrictTotal(lt) && EntriesNaNFree(xs) && EntriesNaNFree(ys) && EntriesNaNFree(zs)
    requires EntriesLess(lt, xs, zs)
    ensures EntriesLess(lt, xs, ys) || EntriesLess(lt, ys, zs)
    decreases WeightOf(xs) + WeightOf(ys) + WeightOf(zs), 1
  {
    hide Less, NaNFree;
    if xs != [] && ys != [] && zs != [] {
      assert xs[0] in xs && ys[0] in ys && zs[0] in zs;
      var a, b, c := xs[0].1, ys[0].1, zs[0].1;
      if Less(a, c) { LessSplits(a, b, c); }
      if Less(b, a) { LessSplits(b, c, a); }
      if Less(c, b) { LessSplits(c, a, b); }
      UnorderedMeaning(a, c);
      if EntriesLess(lt, xs[1..], zs[1..]) { EntriesSplit(lt, xs[1..], ys[1..], zs[1..]); }
    }
  }

  /**
    On trees without NaNs `operator<` is a strict total order up to offsets, and `compare` tells its
    three cases apart: it is 0 exactly for equal trees.
   */
  lemma OrderIsStrictTotal(a: Value, b: Value, c: Value)
    requires NaNFree(a) && NaNFree(b) && NaNFree(c)
    ensures !Less(a, a)
    ensures Less(a, b) && Less(b, c) ==> Less(a, c)
    ensures Less(a, b) || Equal(a, b) || Less(b, a)
    ensures Compare(a, b) == 0 <==> Equal(a, b)
    ensures Compare(a, b) == -Compare(b, a)
    ensures Equal(a, b) ==> Compare(a, c) == Compare(b, c)
  {
    hide Less, Equal, NaNFree, Erase;
    UnorderedMeaning(a, a);
    UnorderedMeaning(a, b);
    EqualMeaning(a, b);
    UnorderedMeaning(b, c);
    UnorderedMeaning(a, c);
    if Less(a, b) && Less(b, c) { LessSplits(a, c, b); }
    if Less(a, c) { LessSplits(a, b, c); }
    if Less(b, c) { LessSplits(b, a, c); }
    if Less(c, a) { LessSplits(c, b, a); }
    if Less(c, b) { LessSplits(c, a, b); }
  }

  /** No tree is below itself, NaNs or not. */
  lemma {:induction false} NotBelowItself(a: Value)
    ensures !Less(a, a)
    decreases Weight(a), 0
  {
    hide Elements, Members, EntriesLess, WeightOf, Weight, StrictTotal, BytesLess;
    match a.payload
    case String(s) => BytesUnordered(s, s);
    case Array(m) =>
      ArrayWeight(a);
      IndexLessIsStrictTotal();
      EntriesNotBelow(IndexLess, Elements(m));
    case Object(m) =>
      ObjectWeight(a);
      BytesLessIsStrictTotal();
      EntriesNotBelow(BytesLess, Members(m));
    case _ =>
  }

  lemma {:induction false} EntriesNotBelow<K(!new)>(lt: (K, K) -> bool, xs: seq<(K, Value)>)
    requires StrictTotal(lt)
    ensures !EntriesLess(lt, xs, xs)
    decreases WeightOf(xs), 1
  {
    hide Less;
    if xs != [] {
      NotBelowItself(xs[0].1);
      EntriesNotBelow(lt, xs[1..]);
    }
  }

  /** Where the order fails: `compare` finds a tree equal to itself in any case, `operator==` only without NaNs. */
  lemma EqualToItselfIff(a: Value)
    ensures Equal(a, a) <==> NaNFree(a)
    ensures !Less(a, a) && Compare(a, a) == 0
  {
    EqualMeaning(a, a);
    NotBelowItself(a);
  }
}
