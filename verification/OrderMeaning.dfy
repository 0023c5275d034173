/**
  Which way the order of `Order` goes: by the type, by the number, by the first byte or the first entry
  where two values part. Stated on the values themselves, without the functions that compute it.
 */
module OrderMeaning {
  import opened Basics
  import opened Keys
  import opened Order
  import opened Values

  function Sign(x: real): int {
    if x < 0.0 then -1 else if x > 0.0 then 1 else 0
  }

  /** Numbers compare by value, `false` is below `true`, and null is tied with null. */
  lemma ScalarsCompare(a: Value, b: Value)
    ensures a.payload.Null? && b.payload.Null? ==> Compare(a, b) == 0
    ensures a.payload.Int? && b.payload.Int? ==> Compare(a, b) == Sign((a.payload.i - b.payload.i) as real)
    ensures a.payload.UInt? && b.payload.UInt? ==> Compare(a, b) == Sign((a.payload.u - b.payload.u) as real)
    ensures a.payload.Boolean? && b.payload.Boolean? ==>
              Compare(a, b) == if a.payload.b == b.payload.b then 0 else if b.payload.b then -1 else 1
  {
  }

  /** Doubles: negative infinity, the finite ones by value, positive infinity; a NaN is tied with all. */
  lemma RealsCompare(a: Value, b: Value)
    requires a.payload.Real? && b.payload.Real?
    ensures a.payload.d.Finite? && b.payload.d.Finite? ==> Compare(a, b) == Sign(a.payload.d.r - b.payload.d.r)
    ensures a.payload.d.NegInf? && (b.payload.d.Finite? || b.payload.d.PosInf?) ==> Compare(a, b) == -1
    ensures a.payload.d.Finite? && b.payload.d.PosInf? ==> Compare(a, b) == -1
    ensures a.payload.d.PosInf? && (b.payload.d.Finite? || b.payload.d.NegInf?) ==> Compare(a, b) == 1
    ensures a.payload.d.Finite? && b.payload.d.NegInf? ==> Compare(a, b) == 1
    ensures a.payload.d == b.payload.d || a.payload.d.NaN? || b.payload.d.NaN? ==> Compare(a, b) == 0
  {
  }

  /** Strings: the first byte where they part decides, or the length. */
  lemma StringsCompare(a: Value, b: Value, k: nat)
    requires a.payload.String? && b.payload.String?
    requires var s, t := a.payload.s, b.payload.s; k <= |s| && k <= |t| && s[..k] == t[..k]
    ensures var s, t := a.payload.s, b.payload.s;
            && (k < |s| && k < |t| && s[k] != t[k] ==> Compare(a, b) == if s[k] < t[k] then -1 else 1)
            && (k == |s| && k < |t| ==> Compare(a, b) == -1)
            && (k < |s| && k == |t| ==> Compare(a, b) == 1)
            && (k == |s| == |t| ==> Compare(a, b) == 0)
  {
    var s, t := a.payload.s, b.payload.s;
    assert forall j :: 0 <= j < k ==> s[j] == s[..k][j] && t[j] == t[..k][j];
    if k == |s| || k == |t| || s[k] != t[k] {
      ForkIsFirstDifference(s, t, k);
      ForkIsFirstDifference(t, s, k);
      BytesLessAtFork(s, t);
      BytesLessAtFork(t, s);
    }
  }

  predicate Below(a: Value, b: Value) {
    Compare(a, b) == -1 && Compare(b, a) == 1
  }

  /** Between types: null, integer, unsigned, real, string, boolean, array, object. */
  lemma TypesCompare(a: Value, b: Value)
    ensures var p, q := a.payload, b.payload;
            && (p.Null? && !q.Null? ==> Below(a, b))
            && (p.Int? && (q.UInt? || q.Real? || q.String? || q.Boolean? || q.Array? || q.Object?) ==> Below(a, b))
            && (p.UInt? && (q.Real? || q.String? || q.Boolean? || q.Array? || q.Object?) ==> Below(a, b))
            && (p.Real? && (q.String? || q.Boolean? || q.Array? || q.Object?) ==> Below(a, b))
            && (p.String? && (q.Boolean? || q.Array? || q.Object?) ==> Below(a, b))
            && (p.Boolean? && (q.Array? || q.Object?) ==> Below(a, b))
            && (p.Array? && q.Object? ==> Below(a, b))
  {
  }

  /** Containers of one type: the one with fewer entries is below. */
  lemma SizesCompare(a: Value, b: Value)
    ensures a.payload.Array? && b.payload.Array? && |a.payload.elems| < |b.payload.elems| ==> Below(a, b)
    ensures a.payload.Object? && b.payload.Object? && |a.payload.members| < |b.payload.members| ==> Below(a, b)
  {
  }

  // The first entry where two containers part

  /** Two maps have nothing to tell them apart at `k`. */
  predicate TiedAt<K(==)>(m: map<K, Value>, n: map<K, Value>, k: K) {
    (k in m <==> k in n) && (k in m && k in n ==> !Less(m[k], n[k]) && !Less(n[k], m[k]))
  }

  /** `k` is the least key at which two maps part. */
  ghost predicate PartAt<K(!new)>(lt: (K, K) -> bool, m: map<K, Value>, n: map<K, Value>, k: K) {
    !TiedAt(m, n, k) && forall j :: lt(j, k) ==> TiedAt(m, n, j)
  }

  // The entries `xs` are those of `m` from some key on, and no key before `least` is left.
  ghost predicate Lists<K(!new)>(lt: (K, K) -> bool, xs: seq<(K, Value)>, m: map<K, Value>) {
    && (forall i, j :: 0 <= i < j < |xs| ==> lt(xs[i].0, xs[j].0))
    && (forall i :: 0 <= i < |xs| ==> xs[i].0 in m && xs[i].1 == m[xs[i].0])
  }

  ghost predicate Listed<K(!new)>(xs: seq<(K, Value)>, k: K) {
    exists i :: 0 <= i < |xs| && xs[i].0 == k
  }

  lemma ListsEntries<K(!new)>(lt: (K, K) -> bool, m: map<K, Value>)
    requires StrictTotal(lt)
    ensures Lists(lt, Entries(lt, m), m) && forall k :: k in m <==> Listed(Entries(lt, m), k)
  {
    var xs := Entries(lt, m);
    forall k | k in m ensures Listed(xs, k) {
      var i :| 0 <= i < |xs| && xs[i] == (k, m[k]);
    }
  }

  lemma ListedTail<K(!new)>(lt: (K, K) -> bool, xs: seq<(K, Value)>, m: map<K, Value>, k: K)
    requires StrictTotal(lt) && Lists(lt, xs, m) && xs != []
    ensures Listed(xs, k) <==> k == xs[0].0 || Listed(xs[1..], k)
    ensures Listed(xs, k) && k != xs[0].0 ==> lt(xs[0].0, k)
    ensures Listed(xs[1..], k) ==> lt(xs[0].0, k)
    ensures Lists(lt, xs[1..], m)
  {
    if i :| 0 <= i < |xs| && xs[i].0 == k {
      assert i > 0 ==> xs[1..][i - 1].0 == k;
    }
  }

  /** What is left of two maps of equal size is below where the map with the lesser key, or the lesser value, is. */
  lemma {:induction false} EntriesPart<K(!new)>(
      lt: (K, K) -> bool, xs: seq<(K, Value)>, ys: seq<(K, Value)>, m: map<K, Value>, n: map<K, Value>, k: K)
    requires StrictTotal(lt) && Lists(lt, xs, m) && Lists(lt, ys, n) && |xs| == |ys| && PartAt(lt, m, n, k)
    requires Listed(xs, k) <==> k in m
    requires Listed(ys, k) <==> k in n
    requires forall j :: lt(j, k) ==> (Listed(xs, j) <==> Listed(ys, j))
    ensures EntriesLess(lt, xs, ys) <==> k in m && (k in n ==> Less(m[k], n[k]))
    decreases |xs|
  {
    hide Less;
    if xs != [] {
      var x, y := xs[0].0, ys[0].0;
      forall j ensures (Listed(xs, j) <==> j == x || Listed(xs[1..], j)) && (Listed(ys, j) <==> j == y || Listed(ys[1..], j)) {
        ListedTail(lt, xs, m, j);
        ListedTail(lt, ys, n, j);
      }
      ListedTail(lt, xs, m, k);
      ListedTail(lt, ys, n, k);
      ListedTail(lt, xs, m, y);
      ListedTail(lt, ys, n, x);
      if x == y && x != k {
        forall j | lt(j, k) ensures Listed(xs[1..], j) <==> Listed(ys[1..], j) {
          ListedTail(lt, xs, m, j);
          ListedTail(lt, ys, n, j);
        }
        EntriesPart(lt, xs[1..], ys[1..], m, n, k);
      }
    }
  }

  lemma MapsPart<K(!new)>(lt: (K, K) -> bool, m: map<K, Value>, n: map<K, Value>, k: K)
    requires StrictTotal(lt) && |m| == |n| && PartAt(lt, m, n, k)
    ensures EntriesLess(lt, Entries(lt, m), Entries(lt, n)) <==> k in m && (k in n ==> Less(m[k], n[k]))
  {
    hide EntriesLess, Less, Lists, Listed, StrictTotal;
    ListsEntries(lt, m);
    ListsEntries(lt, n);
    forall j | lt(j, k) ensures Listed(Entries(lt, m), j) <==> Listed(Entries(lt, n), j) {
      assert TiedAt(m, n, j);
    }
    EntriesPart(lt, Entries(lt, m), Entries(lt, n), m, n, k);
  }

  /** Arrays with equally many elements: the least index decides at which one is missing or one is below. */
  lemma ArraysCompare(a: Value, b: Value, k: nat)
    requires a.payload.Array? && b.payload.Array? && |a.payload.elems| == |b.payload.elems|
    requires PartAt(IndexLess, a.payload.elems, b.payload.elems, k)
    ensures var m, n := a.payload.elems, b.payload.elems; Less(a, b) <==> k in m && (k in n ==> Less(m[k], n[k]))
  {
    hide EntriesLess, Entries, Less, PartAt, StrictTotal;
    IndexLessIsStrictTotal();
    MapsPart(IndexLess, a.payload.elems, b.payload.elems, k);
    ArraysByEntries(a, b);
  }

  /** Objects with equally many members: the least key decides that one lacks or at which one is below. */
  lemma ObjectsCompare(a: Value, b: Value, k: Bytes)
    requires a.payload.Object? && b.payload.Object? && |a.payload.members| == |b.payload.members|
    requires PartAt(BytesLess, a.payload.members, b.payload.members, k)
    ensures var m, n := a.payload.members, b.payload.members; Less(a, b) <==> k in m && (k in n ==> Less(m[k], n[k]))
  {
    hide EntriesLess, Entries, BytesLess, Less, PartAt, StrictTotal;
    BytesLessIsStrictTotal();
    MapsPart(BytesLess, a.payload.members, b.payload.members, k);
    ObjectsByEntries(a, b);
  }

  /** Where nothing tells two arrays of equal size apart, neither is below. */
  lemma ArraysTied(a: Value, b: Value)
    requires a.payload.Array? && b.payload.Array? && |a.payload.elems| == |b.payload.elems|
    requires forall k :: TiedAt(a.payload.elems, b.payload.elems, k)
    ensures Compare(a, b) == 0
  {
    hide EntriesLess, Entries, Less, StrictTotal, TiedAt;
    IndexLessIsStrictTotal();
    EntriesTied(IndexLess, a.payload.elems, b.payload.elems);
    ArraysByEntries(a, b);
    ArraysByEntries(b, a);
  }

  lemma ObjectsTied(a: Value, b: Value)
    requires a.payload.Object? && b.payload.Object? && |a.payload.members| == |b.payload.members|
    requires forall k :: TiedAt(a.payload.members, b.payload.members, k)
    ensures Compare(a, b) == 0
  {
    hide EntriesLess, Entries, BytesLess, Less, StrictTotal, TiedAt;
    BytesLessIsStrictTotal();
    EntriesTied(BytesLess, a.payload.members, b.payload.members);
    ObjectsByEntries(a, b);
    ObjectsByEntries(b, a);
  }

  lemma ArraysByEntries(a: Value, b: Value)
    requires a.payload.Array? && b.payload.Array? && |a.payload.elems| == |b.payload.elems|
    ensures Less(a, b) <==> EntriesLess(IndexLess, Elements(a.payload.elems), Elements(b.payload.elems))
  {
    hide EntriesLess, Elements;
  }

  lemma ObjectsByEntries(a: Value, b: Value)
    requires a.payload.Object? && b.payload.Object? && |a.payload.members| == |b.payload.members|
    ensures Less(a, b) <==> EntriesLess(BytesLess, Members(a.payload.members), Members(b.payload.members))
  {
    hide EntriesLess, Members;
  }

  lemma EntriesTied<K(!new)>(lt: (K, K) -> bool, m: map<K, Value>, n: map<K, Value>)
    requires StrictTotal(lt) && forall k :: TiedAt(m, n, k)
    ensures !EntriesLess(lt, Entries(lt, m), Entries(lt, n)) && !EntriesLess(lt, Entries(lt, n), Entries(lt, m))
  {
    hide EntriesLess, Less, StrictTotal;
    forall k ensures k in m.Keys <==> k in n.Keys {
      assert TiedAt(m, n, k);
    }
    assert m.Keys == n.Keys;
    EntryKeys(lt, m, n);
    forall i | 0 <= i < |Entries(lt, m)|
      ensures var x, y := Entries(lt, m)[i], Entries(lt, n)[i]; x.0 == y.0 && !Less(x.1, y.1) && !Less(y.1, x.1)
    {
      assert TiedAt(m, n, Entries(lt, m)[i].0);
    }
    PairsTied(lt, Entries(lt, m), Entries(lt, n));
  }

  lemma {:induction false} PairsTied<K(!new)>(lt: (K, K) -> bool, xs: seq<(K, Value)>, ys: seq<(K, Value)>)
    requires StrictTotal(lt) && |xs| == |ys|
    requires forall i :: 0 <= i < |xs| ==> xs[i].0 == ys[i].0 && !Less(xs[i].1, ys[i].1) && !Less(ys[i].1, xs[i].1)
    ensures !EntriesLess(lt, xs, ys) && !EntriesLess(lt, ys, xs)
    decreases |xs|
  {
    hide Less;
    if xs != [] {
      PairsTied(lt, xs[1..], ys[1..]);
    }
  }

  /** Of two lists of entries of which one is the front of the other, the shorter is below. */
  lemma {:induction false} FrontIsBelow<K(!new)>(lt: (K, K) -> bool, xs: seq<(K, Value)>, more: seq<(K, Value)>)
    requires StrictTotal(lt)
    ensures EntriesLess(lt, xs, xs + more) <==> more != []
    ensures !EntriesLess(lt, xs + more, xs)
    decreases |xs|
  {
    hide Less;
    var ys := xs + more;
    if xs == [] {
      assert ys == more;
    } else {
      assert ys[0] == xs[0] && ys[1..] == xs[1..] + more;
      NotBelowItself(xs[0].1);
      FrontIsBelow(lt, xs[1..], more);
    }
  }
}
