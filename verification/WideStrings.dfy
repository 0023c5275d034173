/**
  Wide strings compared without regard to case, and the `std::set` that `CaseInsensitiveLess`
  orders: a sequence kept ascending, searched by lower bound.
 */
module WideStrings {
  type Wide = seq<nat>

  // What `towlower` does in the current locale: only the terminator becomes the terminator.
  type CaseMap = f: nat -> nat | forall c :: f(c) == 0 <==> c == 0 witness (c: nat) => c

  // The character a C string has at its front.
  function Front(s: Wide): nat {
    if s == [] then 0 else s[0]
  }

  /** `_wcsicmp` on the two C strings: it stops at a terminator, or where the lower-case forms part. */
  function Wcsicmp(lower: CaseMap, s: Wide, t: Wide): int {
    var f, l := lower(Front(s)), lower(Front(t));
    if f != 0 && f == l then Wcsicmp(lower, s[1..], t[1..]) else f - l
  }

  /** `CaseInsensitiveLess` */
  predicate CaseInsensitiveLess(lower: CaseMap, s: Wide, t: Wide) {
    Wcsicmp(lower, s, t) < 0
  }

  /** The part of a string that `c_str()` shows. */
  function CStr<T(==)>(s: seq<T>, nul: T): (r: seq<T>)
    ensures nul !in r && r <= s
    ensures |r| < |s| ==> s[|r|] == nul
  {
    if s == [] || s[0] == nul then [] else [s[0]] + CStr(s[1..], nul)
  }

  /** The lower-case form of a C string. */
  function Folded(lower: CaseMap, s: Wide): seq<nat> {
    var c := CStr(s, 0);
    seq(|c|, i requires 0 <= i < |c| => lower(c[i]))
  }

  predicate SameName(lower: CaseMap, s: Wide, t: Wide) {
    Folded(lower, s) == Folded(lower, t)
  }

  lemma FoldedFront(lower: CaseMap, s: Wide)
    ensures Folded(lower, s) == if Front(s) == 0 then [] else [lower(s[0])] + Folded(lower, s[1..])
  {
    if Front(s) != 0 {
      var c, d := CStr(s, 0), CStr(s[1..], 0);
      assert c == [s[0]] + d;
      assert forall i :: 0 <= i < |d| ==> c[i + 1] == d[i];
    }
  }

  lemma {:induction false} WcsicmpZero(lower: CaseMap, s: Wide, t: Wide)
    ensures Wcsicmp(lower, s, t) == 0 <==> SameName(lower, s, t)
    ensures Wcsicmp(lower, s, t) == -Wcsicmp(lower, t, s)
  {
    hide Folded;
    FoldedFront(lower, s);
    FoldedFront(lower, t);
    if Front(s) != 0 && lower(Front(s)) == lower(Front(t)) {
      WcsicmpZero(lower, s[1..], t[1..]);
      var a, b := Folded(lower, s), Folded(lower, t);
      assert a[1..] == Folded(lower, s[1..]) && b[1..] == Folded(lower, t[1..]);
    } else if Front(s) != 0 && Front(t) != 0 {
      assert Folded(lower, s)[0] != Folded(lower, t)[0];
    }
  }

  /** The result is the difference of the lower-case forms where they part, or where a string ends, which counts as 0. */
  lemma {:induction false} WcsicmpParts(lower: CaseMap, s: Wide, t: Wide, k: nat)
    requires k <= |s| && k <= |t| && forall j :: 0 <= j < k ==> s[j] != 0 && lower(s[j]) == lower(t[j])
    requires Front(s[k..]) == 0 || lower(Front(s[k..])) != lower(Front(t[k..]))
    ensures Wcsicmp(lower, s, t) == lower(Front(s[k..])) - lower(Front(t[k..]))
    decreases k
  {
    if k > 0 {
      assert s[1..][k - 1..] == s[k..] && t[1..][k - 1..] == t[k..];
      WcsicmpParts(lower, s[1..], t[1..], k - 1);
    } else {
      assert s[0..] == s && t[0..] == t;
    }
  }

  /** `<=` composes: the comparison is a weak order whose ties are the equal names. */
  lemma {:induction false} WcsicmpTransitive(lower: CaseMap, s: Wide, t: Wide, u: Wide)
    requires Wcsicmp(lower, s, t) <= 0 && Wcsicmp(lower, t, u) <= 0
    ensures Wcsicmp(lower, s, u) <= 0
    ensures Wcsicmp(lower, s, t) < 0 || Wcsicmp(lower, t, u) < 0 ==> Wcsicmp(lower, s, u) < 0
  {
    if Front(s) != 0 && lower(Front(s)) == lower(Front(t)) == lower(Front(u)) {
      WcsicmpTransitive(lower, s[1..], t[1..], u[1..]);
    }
  }

  // std::set<std::wstring, CaseInsensitiveLess>

  predicate Ordered(lower: CaseMap, items: seq<Wide>) {
    forall i, j :: 0 <= i < j < |items| ==> CaseInsensitiveLess(lower, items[i], items[j])
  }

  /** The first element that is not before `s`. */
  function LowerBound(lower: CaseMap, items: seq<Wide>, s: Wide): (k: nat)
    ensures k <= |items|
    ensures forall j :: 0 <= j < k ==> CaseInsensitiveLess(lower, items[j], s)
    ensures k < |items| ==> !CaseInsensitiveLess(lower, items[k], s)
  {
    if items == [] || !CaseInsensitiveLess(lower, items[0], s) then 0
    else 1 + LowerBound(lower, items[1..], s)
  }

  /** `find(s) != end()` */
  predicate Contains(lower: CaseMap, items: seq<Wide>, s: Wide) {
    var k := LowerBound(lower, items, s);
    k < |items| && !CaseInsensitiveLess(lower, s, items[k])
  }

  /** `insert(s)`: an element equivalent to one already there is not added. */
  function Inserted(lower: CaseMap, items: seq<Wide>, s: Wide): seq<Wide> {
    if Contains(lower, items, s) then items
    else
      var k := LowerBound(lower, items, s);
      items[..k] + [s] + items[k..]
  }

  /** In an ordered set the search finds exactly the names that some element equals ignoring case. */
  lemma ContainsMeaning(lower: CaseMap, items: seq<Wide>, s: Wide)
    requires Ordered(lower, items)
    ensures Contains(lower, items, s) <==> exists w :: w in items && SameName(lower, w, s)
  {
    hide Wcsicmp, LowerBound, SameName;
    var k := LowerBound(lower, items, s);
    if k < |items| {
      WcsicmpZero(lower, items[k], s);
    }
    forall j | 0 <= j < |items| && SameName(lower, items[j], s) ensures j == k {
      WcsicmpZero(lower, items[j], s);
      if k < j {
        assert CaseInsensitiveLess(lower, items[k], items[j]);
        WcsicmpTransitive(lower, items[k], items[j], s);
      }
    }
  }

  /** Insertion keeps the set ordered and adds the one name. */
  lemma InsertedMeaning(lower: CaseMap, items: seq<Wide>, s: Wide)
    requires Ordered(lower, items)
    ensures Ordered(lower, Inserted(lower, items, s))
    ensures forall x :: Contains(lower, Inserted(lower, items, s), x) <==>
                        Contains(lower, items, x) || SameName(lower, s, x)
  {
    hide Contains, SameName, LowerBound, CaseInsensitiveLess;
    InsertedOrdered(lower, items, s);
    SameIsEquivalence(lower);
    var after := Inserted(lower, items, s);
    forall x ensures Contains(lower, after, x) <==> Contains(lower, items, x) || SameName(lower, s, x) {
      ContainsMeaning(lower, after, x);
      ContainsMeaning(lower, items, x);
      ContainsMeaning(lower, items, s);
      InsertedElements(lower, items, s);
      if w :| w in items && SameName(lower, w, s) && SameName(lower, s, x) {
        assert SameName(lower, w, x);
      }
    }
  }

  lemma SameIsEquivalence(lower: CaseMap)
    ensures forall s, t, u :: SameName(lower, s, t) && SameName(lower, t, u) ==> SameName(lower, s, u)
    ensures forall s, t :: SameName(lower, s, t) ==> SameName(lower, t, s)
    ensures forall s :: SameName(lower, s, s)
  {
  }

  lemma InsertedElements(lower: CaseMap, items: seq<Wide>, s: Wide)
    ensures var after := Inserted(lower, items, s);
            forall w :: w in after <==> w in items || (w == s && !Contains(lower, items, s))
  {
    hide Contains;
    var k := LowerBound(lower, items, s);
    assert items == items[..k] + items[k..];
  }

  lemma InsertedOrdered(lower: CaseMap, items: seq<Wide>, s: Wide)
    requires Ordered(lower, items)
    ensures Ordered(lower, Inserted(lower, items, s))
  {
    hide Wcsicmp, LowerBound;
    if !Contains(lower, items, s) {
      var k, after := LowerBound(lower, items, s), Inserted(lower, items, s);
      forall j | k <= j < |items| ensures CaseInsensitiveLess(lower, s, items[j]) {
        WcsicmpZero(lower, items[k], s);
        if k < j { WcsicmpTransitive(lower, s, items[k], items[j]); }
      }
      forall i, j | 0 <= i < j < |after| ensures CaseInsensitiveLess(lower, after[i], after[j]) {
        assert i < k ==> after[i] == items[i];
        assert i > k ==> after[i] == items[i - 1];
        assert j < k ==> after[j] == items[j];
        assert j > k ==> after[j] == items[j - 1];
      }
    }
  }
}
