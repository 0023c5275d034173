/** `Json::Value`: a tagged tree whose nodes remember where in the document they came from. */
module Values {
  import opened Basics
  import opened Keys

  const TWO_TO_THE_63 := 0x8000_0000_0000_0000
  const TWO_TO_THE_64 := 0x1_0000_0000_0000_0000
  const MAX_INT := 0x7FFF_FFFF

  type LargestInt = i: int | -TWO_TO_THE_63 <= i < TWO_TO_THE_63
  type LargestUInt = u: int | 0 <= u < TWO_TO_THE_64

  // What `double` can hold; the model never computes with it.
  datatype Double = NaN | PosInf | NegInf | Finite(r: real)

  datatype Value = Value(payload: Payload, start: int, limit: int)

  datatype Payload =
    | Null
    | Int(i: LargestInt)
    | UInt(u: LargestUInt)
    | Real(d: Double)
    | String(s: Bytes)
    | Boolean(b: bool)
    | Array(elems: map<nat, Value>)
    | Object(members: map<Bytes, Value>)

  // A freshly constructed value, `Value::nullSingleton()` among them.
  const NULL_VALUE := Value(Null, 0, 0)

  lemma LastIsHighest(ks: seq<nat>)
    requires Ascending(IndexLess, ks)
    ensures forall k :: k in ks ==> k <= ks[|ks| - 1]
  {
  }

  /** `Value::size()` of an array: the highest index plus one. */
  function Size(m: map<nat, Value>): (n: nat)
    ensures forall i :: i in m ==> i < n
    ensures n > 0 ==> n - 1 in m
  {
    IndexLessIsStrictTotal();
    var ks := Sorted(IndexLess, m.Keys);
    LastIsHighest(ks);
    if ks == [] then 0 else ks[|ks| - 1] + 1
  }

  /** `operator[](ArrayIndex) const`: a hole reads as null. */
  function ElementAt(m: map<nat, Value>, i: nat): Value {
    if i in m then m[i] else NULL_VALUE
  }

  /** The tree without its offsets, which is what two nodes with the same payload share. */
  function Erase(v: Value): Value {
    Value(ErasePayload(v.payload), 0, 0)
  }

  function ErasePayload(p: Payload): Payload {
    match p
    case Array(m) => Array(map i | i in m :: Erase(m[i]))
    case Object(m) => Object(map k | k in m :: Erase(m[k]))
    case _ => p
  }

  lemma EraseArray(v: Value)
    requires v.payload.Array?
    ensures Erase(v) == Value(Array(EraseElems(v.payload.elems)), 0, 0)
  {
    var m := v.payload.elems;
    var erased := ErasePayload(v.payload);
    assert erased.elems == EraseElems(m);
  }

  lemma EraseObject(v: Value)
    requires v.payload.Object?
    ensures Erase(v) == Value(Object(EraseMembers(v.payload.members)), 0, 0)
  {
    var m := v.payload.members;
    var erased := ErasePayload(v.payload);
    assert erased.members == EraseMembers(m);
  }

  function EraseMembers(m: map<Bytes, Value>): map<Bytes, Value> {
    map k | k in m :: Erase(m[k])
  }

  function EraseElems(m: map<nat, Value>): map<nat, Value> {
    map i | i in m :: Erase(m[i])
  }

  lemma EraseMembersUpdate(m: map<Bytes, Value>, k: Bytes, w: Value)
    ensures EraseMembers(m[k := w]) == EraseMembers(m)[k := Erase(w)]
    ensures k in m <==> k in EraseMembers(m)
  {
    hide Erase;
    var after, before := EraseMembers(m[k := w]), EraseMembers(m)[k := Erase(w)];
    assert after.Keys == before.Keys;
    assert forall key :: key in before ==> after[key] == before[key];
  }

  lemma EraseElemsUpdate(m: map<nat, Value>, i: nat, w: Value)
    ensures EraseElems(m[i := w]) == EraseElems(m)[i := Erase(w)]
  {
    hide Erase;
    var after, before := EraseElems(m[i := w]), EraseElems(m)[i := Erase(w)];
    assert after.Keys == before.Keys;
    assert forall key :: key in before ==> after[key] == before[key];
  }

  /** The payload the reader gives to a non-negative integer literal. */
  function NaturalPayload(n: LargestUInt): Payload {
    if n <= MAX_INT then Int(n) else UInt(n)
  }

  /** What survives printing and reading: integers are re-tagged by value and holes become nulls. */
  function Norm(v: Value): Value {
    Value(match v.payload
          case Int(i) => if i < 0 then Int(i) else NaturalPayload(i)
          case UInt(u) => NaturalPayload(u)
          case Array(m) => Array(map i | 0 <= i < Size(m) :: if i in m then Norm(m[i]) else NULL_VALUE)
          case Object(m) => Object(map k | k in m :: Norm(m[k]))
          case p => p, 0, 0)
  }
}
