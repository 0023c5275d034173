/**
  `Value` as an array. Elements live in a map from index to value that may have holes; seen through
  `size` and `operator[] const` it is a sequence in which a hole reads as null. This module proves
  each mutating method against that sequence, for every map, holes included.
 */
module Arrays {
  import opened Basics
  import opened Values

  /** The sequence a caller sees through `size()` and `operator[](ArrayIndex) const`. */
  function AsSeq(m: map<nat, Value>): (s: seq<Value>)
    ensures |s| == Size(m)
  {
    seq(Size(m), i requires 0 <= i < Size(m) => ElementAt(m, i))
  }

  function Nulls(n: nat): seq<Value> {
    seq(n, _ => NULL_VALUE)
  }

  /** `s`, grown with nulls to at least `n` elements. */
  function Padded(s: seq<Value>, n: nat): (r: seq<Value>)
    ensures |r| == if n > |s| then n else |s|
    ensures s <= r
  {
    if n > |s| then s + Nulls(n - |s|) else s
  }

  function Without(s: seq<Value>, i: nat): seq<Value>
    requires i < |s|
  {
    s[..i] + s[i + 1..]
  }

  predicate HoleFree(m: map<nat, Value>) {
    forall i: nat :: i < Size(m) ==> i in m
  }

  lemma SizeIs(m: map<nat, Value>, n: nat)
    requires forall i :: i in m ==> i < n
    requires n > 0 ==> n - 1 in m
    ensures Size(m) == n
  {
  }

  /** What `erase` of every index from `n` on leaves. */
  function Below(m: map<nat, Value>, n: nat): map<nat, Value> {
    map i | i in m && i < n :: m[i]
  }

  /** The elements after `resize` to a size other than 0, which throws if it cuts at a hole. */
  function Resized(m: map<nat, Value>, n: nat): map<nat, Value>
    requires n > 0
  {
    if n > Size(m) then m[n - 1 := NULL_VALUE] else Below(m, n)
  }

  /** `removeIndex(index)`: everything behind `index` moves down by one, and the holes there are filled. */
  function Removed(m: map<nat, Value>, index: nat): map<nat, Value>
    requires index in m
  {
    var last: nat := Size(m) - 1;
    map i: nat | 0 <= i < last && (i in m || i >= index) :: if i < index then ElementAt(m, i) else ElementAt(m, i + 1)
  }

  // The observed sequence under the map operations

  lemma WriteObserved(m: map<nat, Value>, index: nat, v: Value)
    ensures AsSeq(m[index := v]) == Padded(AsSeq(m), index + 1)[index := v]
    ensures HoleFree(m) && index <= Size(m) ==> HoleFree(m[index := v])
  {
    hide Size;
    var after := m[index := v];
    SizeIs(after, if index < Size(m) then Size(m) else index + 1);
    forall i | 0 <= i < Size(after) ensures AsSeq(after)[i] == Padded(AsSeq(m), index + 1)[index := v][i] {
    }
  }

  /** Asking for an element creates it, which a reader of the array cannot tell from padding it with nulls. */
  lemma TouchObserved(m: map<nat, Value>, index: nat)
    ensures AsSeq(m[index := ElementAt(m, index)]) == Padded(AsSeq(m), index + 1)
  {
    hide Size;
    WriteObserved(m, index, ElementAt(m, index));
    var s := Padded(AsSeq(m), index + 1);
    assert s[index] == ElementAt(m, index);
    assert s[index := s[index]] == s;
  }

  /** Cutting an array at `n` leaves exactly its first `n` elements, unless there is a hole before `n`. */
  lemma BelowObserved(m: map<nat, Value>, n: nat)
    requires n <= Size(m)
    ensures Size(Below(m, n)) <= n
    ensures AsSeq(Below(m, n)) == AsSeq(m)[..Size(Below(m, n))]
    ensures Size(Below(m, n)) == n <==> n == 0 || n - 1 in m
    ensures HoleFree(m) ==> HoleFree(Below(m, n)) && Size(Below(m, n)) == n
  {
    hide Size;
    var after := Below(m, n);
    if n > 0 && n - 1 in m {
      SizeIs(after, n);
    }
  }

  /** Removing an element leaves exactly the others, unless it was the last one and a hole precedes it. */
  lemma RemovedObserved(m: map<nat, Value>, index: nat)
    requires index in m
    ensures index < |AsSeq(m)| && AsSeq(m)[index] == m[index]
    ensures var after := Removed(m, index);
            && Size(after) < Size(m)
            && AsSeq(after) == Without(AsSeq(m), index)[..Size(after)]
            && (Size(after) == Size(m) - 1 <==> index < Size(m) - 1 || index == 0 || index - 1 in m)
            && (HoleFree(m) ==> HoleFree(after) && AsSeq(after) == Without(AsSeq(m), index))
  {
    hide Size;
    var after, last := Removed(m, index), Size(m) - 1;
    if index < last || index == 0 || index - 1 in m {
      SizeIs(after, last);
    }
  }

  /** The elements while those behind `index` are moving down, up to position `i`. */
  function Moving(m: map<nat, Value>, index: nat, i: nat): map<nat, Value> {
    map k: nat | 0 <= k < Size(m) && (k in m || index <= k <= i) :: ElementAt(m, if index <= k < i then k + 1 else k)
  }

  lemma MovingStart(m: map<nat, Value>, index: nat)
    requires index in m
    ensures Moving(m, index, index) == m
  {
    hide Size;
    assert Moving(m, index, index).Keys == m.Keys;
  }

  lemma MovingStep(m: map<nat, Value>, index: nat, i: nat)
    requires index <= i < Size(m) - 1
    ensures var now := Moving(m, index, i); var next := ElementAt(now, i + 1);
            Moving(m, index, i + 1) == now[i + 1 := next][i := next]
  {
    hide Size;
    var now := Moving(m, index, i);
    var a, b := Moving(m, index, i + 1), now[i + 1 := ElementAt(now, i + 1)][i := ElementAt(now, i + 1)];
    assert forall k: nat :: k in a <==> k in b;
    assert forall k: nat :: k in b ==> a[k] == b[k];
  }

  lemma MovingEnd(m: map<nat, Value>, index: nat)
    requires index in m
    ensures Moving(m, index, Size(m) - 1) - {Size(m) - 1} == Removed(m, index)
  {
    hide Size, ElementAt;
    var a, b := Moving(m, index, Size(m) - 1) - {Size(m) - 1}, Removed(m, index);
    assert forall k: nat :: k in a <==> k in b;
    assert forall k: nat :: k in b ==> a[k] == b[k];
  }

  /** A JSON value that its holder changes in place. */
  class ArrayValue {
    var payload: Payload
    var start: int
    var limit: int

    constructor (v: Value)
      ensures Val() == v
    {
      payload, start, limit := v.payload, v.start, v.limit;
    }

    function Val(): Value
      reads this
    {
      Value(payload, start, limit)
    }

    // A null may become an array; any other value refuses to be used as one.
    predicate Indexable()
      reads this
    {
      payload.Null? || payload.Array?
    }

    function Elems(): map<nat, Value>
      reads this
    {
      if payload.Array? then payload.elems else map[]
    }

    function Contents(): seq<Value>
      reads this
    {
      AsSeq(Elems())
    }

    method BecomeArray()
      requires Indexable()
      modifies this
      ensures payload == Array(old(Elems()))
      ensures old(payload.Null?) ==> start == limit == 0
      ensures !old(payload.Null?) ==> start == old(start) && limit == old(limit)
    {
      if payload.Null? {
        payload, start, limit := Array(map[]), 0, 0;
      }
    }

    /** `operator[](ArrayIndex)`: the element, created if it was not there; `None` stands for the exception. */
    method Index(index: nat) returns (r: Option<Value>)
      modifies this
      ensures !old(Indexable()) ==> r.None? && Val() == old(Val())
      ensures old(Indexable()) ==>
        && r == Some(ElementAt(old(Elems()), index))
        && payload == Array(old(Elems())[index := r.value])
        && Contents() == Padded(old(Contents()), index + 1)
        && (old(payload.Array?) ==> start == old(start) && limit == old(limit))
    {
      hide Size;
      if !Indexable() {
        return None;
      }
      BecomeArray();
      if index !in payload.elems {
        payload := Array(payload.elems[index := NULL_VALUE]);
      }
      assert old(Elems())[index := payload.elems[index]] == payload.elems;
      TouchObserved(old(Elems()), index);
      return Some(payload.elems[index]);
    }

    /** `(*this)[index] = v` */
    method Assign(index: nat, v: Value) returns (ok: bool)
      modifies this
      ensures ok == old(Indexable())
      ensures !ok ==> Val() == old(Val())
      ensures ok ==>
        && payload == Array(old(Elems())[index := v])
        && Contents() == Padded(old(Contents()), index + 1)[index := v]
        && (old(payload.Array?) ==> start == old(start) && limit == old(limit))
    {
      hide Size;
      var r := Index(index);
      ok := r.Some?;
      if ok {
        payload := Array(payload.elems[index := v]);
        assert payload.elems == old(Elems())[index := v];
        WriteObserved(old(Elems()), index, v);
      }
    }

    /** `append` */
    method Append(v: Value) returns (ok: bool)
      modifies this
      ensures ok == old(Indexable())
      ensures !ok ==> Val() == old(Val())
      ensures ok ==> payload.Array? && Contents() == old(Contents()) + [v]
      ensures ok && HoleFree(old(Elems())) ==> HoleFree(Elems())
      ensures old(payload.Array?) ==> start == old(start) && limit == old(limit)
    {
      hide Size;
      ok := Assign(Size(Elems()), v);
      if ok {
        WriteObserved(old(Elems()), Size(old(Elems())), v);
      }
    }

    /**
      `resize`. Growing pads with nulls and cutting keeps the first elements; cutting right behind a
      hole makes the method's own assertion throw, with the trailing holes gone as well.
     */
    method Resize(newSize: nat) returns (ok: bool)
      modifies this
      ensures !old(Indexable()) ==> !ok && Val() == old(Val())
      ensures old(Indexable()) ==>
        && payload.Array?
        && (ok <==> newSize == 0 || newSize >= |old(Contents())| || newSize - 1 in old(Elems()))
        && (ok ==> Contents() == Padded(old(Contents()), newSize)[..newSize])
        && (!ok ==> Contents() == old(Contents())[..Size(Below(old(Elems()), newSize))] && |Contents()| < newSize)
        && (HoleFree(old(Elems())) ==> ok)
        && (0 < newSize ==> payload == Array(Resized(old(Elems()), newSize)))
        && (newSize == 0 ==> start == limit == 0)
        && (newSize > 0 && old(payload.Array?) ==> start == old(start) && limit == old(limit))
    {
      hide Size;
      if !Indexable() {
        return false;
      }
      BecomeArray();
      var oldSize := Size(payload.elems);
      if newSize == 0 {
        payload, start, limit := Array(map[]), 0, 0;
        SizeIs(payload.elems, 0);
        ok := true;
      } else if newSize > oldSize {
        var _ := Index(newSize - 1);
        ok := true;
      } else {
        var index := newSize;
        while index < oldSize
          invariant newSize <= index <= oldSize
          invariant old(payload.Array?) ==> start == old(start) && limit == old(limit)
          invariant payload.Array? && payload.elems == map i | i in old(Elems()) && !(newSize <= i < index) :: old(Elems())[i]
        {
          payload := Array(payload.elems - {index});
          index := index + 1;
        }
        assert payload.elems == Below(old(Elems()), newSize);
        BelowObserved(old(Elems()), newSize);
        ok := Size(payload.elems) == newSize;
      }
    }

    /** `removeIndex`: takes the element out and moves the ones behind it down. */
    method RemoveIndex(index: nat) returns (removed: Option<Value>)
      modifies this
      ensures removed.Some? <==> old(payload.Array?) && index in old(Elems())
      ensures removed.None? ==> Val() == old(Val())
      ensures removed.Some? ==>
        && index < |old(Contents())| && removed.value == old(Contents())[index]
        && payload == Array(Removed(old(Elems()), index))
        && Contents() == Without(old(Contents()), index)[..|Contents()|]
        && (|Contents()| == |old(Contents())| - 1 <==>
              index < |old(Contents())| - 1 || index == 0 || index - 1 in old(Elems()))
        && start == old(start) && limit == old(limit)
      ensures removed.Some? && HoleFree(old(Elems())) ==>
        HoleFree(Elems()) && Contents() == Without(old(Contents()), index)
    {
      hide Size, AsSeq, Padded, Without, Removed, HoleFree, Moving;
      if !payload.Array? || index !in payload.elems {
        return None;
      }
      removed := Some(payload.elems[index]);
      var oldSize := Size(payload.elems);
      ghost var was := payload.elems;
      var i := index;
      MovingStart(was, index);
      while i < oldSize - 1
        invariant index <= i <= oldSize - 1
        invariant payload == Array(Moving(was, index, i)) && start == old(start) && limit == old(limit)
      {
        MovingStep(was, index, i);
        var next := Index(i + 1);
        payload := Array(payload.elems[i := next.value]);
        i := i + 1;
      }
      MovingEnd(was, index);
      payload := Array(payload.elems - {oldSize - 1});
      RemovedObserved(was, index);
    }
  }

  /**
    Growing stores only the last element, so cutting into the grown part afterwards always throws,
    even on an array that had no holes to begin with.
   */
  method GrowThenCut(a: ArrayValue, more: nat, fewer: nat) returns (grown: bool, cut: bool)
    requires a.payload.Array? && |a.Contents()| < fewer < more
    modifies a
    ensures grown && !cut
    ensures a.Contents() == old(a.Contents())
  {
    hide Size;
    ghost var m := a.Elems();
    grown := a.Resize(more);
    SizeIs(m[more - 1 := NULL_VALUE], more);
    cut := a.Resize(fewer);
    assert Below(m[more - 1 := NULL_VALUE], fewer) == m;
  }

  lemma NoHoles(m: map<nat, Value>, n: nat)
    requires forall k: nat :: k in m <==> k < n
    ensures HoleFree(m)
  {
    hide Size;
    SizeIs(m, n);
  }
}
