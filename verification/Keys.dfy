/**
  The order of the keys of `Value::ObjectValues`, a `std::map<CZString, Value>`, and
  the ascending key sequence an iteration over such a map visits.
 */
module Keys {
  import opened Basics

  /** `memcmp` on two buffers of the same length. */
  function Memcmp(a: Bytes, b: Bytes): int
    requires |a| == |b|
  {
    if a == [] then 0
    else if a[0] != b[0] then a[0] - b[0]
    else Memcmp(a[1..], b[1..])
  }

  /** `CZString::operator<` on two string keys, also the order on string values. */
  predicate BytesLess(a: Bytes, b: Bytes) {
    var n := if |a| < |b| then |a| else |b|;
    var comp := Memcmp(a[..n], b[..n]);
    if comp < 0 then true
    else if comp > 0 then false
    else |a| < |b|
  }

  /** `CZString::operator<` on two array indexes. */
  predicate IndexLess(a: nat, b: nat) {
    a < b
  }

  ghost predicate StrictTotal<K(!new)>(lt: (K, K) -> bool) {
    && (forall a :: !lt(a, a))
    && (forall a, b, c :: lt(a, b) && lt(b, c) ==> lt(a, c))
    && (forall a, b :: lt(a, b) || a == b || lt(b, a))
  }

  ghost predicate Ascending<K>(lt: (K, K) -> bool, s: seq<K>) {
    forall i, j :: 0 <= i < j < |s| ==> lt(s[i], s[j])
  }

  /** The first position where two byte strings part, or the shorter length. */
  ghost function Fork(a: Bytes, b: Bytes): (k: nat)
    ensures k <= |a| && k <= |b|
    ensures forall j :: 0 <= j < k ==> a[j] == b[j]
    ensures k < |a| && k < |b| ==> a[k] != b[k]
  {
    if a == [] || b == [] || a[0] != b[0] then 0 else 1 + Fork(a[1..], b[1..])
  }

  lemma {:induction false} BytesLessAtFork(a: Bytes, b: Bytes)
    ensures var k := Fork(a, b);
            BytesLess(a, b) <==> k < |b| && (k == |a| || a[k] < b[k])
  {
    var n := if |a| < |b| then |a| else |b|;
    if n > 0 && a[0] == b[0] {
      BytesLessAtFork(a[1..], b[1..]);
      assert a[..n][1..] == a[1..][..n - 1] && b[..n][1..] == b[1..][..n - 1];
    }
  }

  lemma BytesLessIsStrictTotal()
    ensures StrictTotal(BytesLess)
  {
    forall a: Bytes ensures !BytesLess(a, a) {
      BytesLessAtFork(a, a);
    }
    forall a, b ensures BytesLess(a, b) || a == b || BytesLess(b, a) {
      BytesLessAtFork(a, b);
      BytesLessAtFork(b, a);
      assert Fork(a, b) == Fork(b, a) by { ForkIsFirstDifference(a, b, Fork(b, a)); }
    }
    forall a, b, c | BytesLess(a, b) && BytesLess(b, c) ensures BytesLess(a, c) {
      BytesLessAtFork(a, b);
      BytesLessAtFork(b, c);
      BytesLessAtFork(a, c);
      var k := if Fork(a, b) < Fork(b, c) then Fork(a, b) else Fork(b, c);
      ForkIsFirstDifference(a, c, k);
    }
  }

  lemma {:induction false} ForkIsFirstDifference(a: Bytes, b: Bytes, k: nat)
    requires k <= |a| && k <= |b|
    requires forall j :: 0 <= j < k ==> a[j] == b[j]
    requires k < |a| && k < |b| ==> a[k] != b[k]
    ensures Fork(a, b) == k
  {
    if k > 0 {
      assert a[0] == b[0];
      ForkIsFirstDifference(a[1..], b[1..], k - 1);
    }
  }

  lemma IndexLessIsStrictTotal()
    ensures StrictTotal(IndexLess)
  {
  }

  lemma {:induction false} LeastExists<K(!new)>(lt: (K, K) -> bool, ks: set<K>) returns (least: K)
    requires StrictTotal(lt) && ks != {}
    ensures least in ks && forall j :: j in ks && j != least ==> lt(least, j)
  {
    var k :| k in ks;
    var rest := ks - {k};
    least := k;
    if rest != {} {
      var m := LeastExists(lt, rest);
      least := if lt(k, m) then k else m;
      forall j | j in ks && j != least ensures lt(least, j) {
        assert j == k || j in rest;
        assert j == m || j == k || lt(m, j);
      }
    } else {
      assert ks == rest + {k};
    }
  }

  /** The keys of a map in iteration order. */
  function Sorted<K(!new, ==)>(lt: (K, K) -> bool, ks: set<K>): (s: seq<K>)
    requires StrictTotal(lt)
    ensures Ascending(lt, s)
    ensures forall k :: k in s <==> k in ks
    ensures |s| == |ks|
  {
    if ks == {} then []
    else
      assert exists k :: k in ks && forall j :: j in ks && j != k ==> lt(k, j) by {
        var least := LeastExists(lt, ks);
      }
      var k :| k in ks && forall j :: j in ks && j != k ==> lt(k, j);
      [k] + Sorted(lt, ks - {k})
  }
}
