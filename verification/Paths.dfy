/**
  `Path::make` and `Path::resolve` for a given list of arguments. `make` walks down from the root and
  creates what is missing; the caller then assigns through the reference it returns. `resolve` only
  looks. The two laws are that an assigned value is found again, and that every other path is
  untouched although nulls become containers and arrays grow on the way.
 */
module Paths {
  import opened Arrays
  import opened Basics
  import opened Values

  datatype Arg = Index(i: nat) | Key(k: Bytes)

  type Path = seq<Arg>

  // Whether `operator[]` takes the argument: a null becomes the container that is needed.
  predicate Accepts(v: Value, a: Arg) {
    v.payload.Null? || (if a.Index? then v.payload.Array? else v.payload.Object?)
  }

  /** The element or member as it is before `operator[]` creates it. */
  function Child(v: Value, a: Arg): Value
    requires Accepts(v, a)
  {
    if v.payload.Null? then NULL_VALUE
    else if a.Index? then ElementAt(v.payload.elems, a.i)
    else if a.k in v.payload.members then v.payload.members[a.k] else NULL_VALUE
  }

  /** The container once `operator[]` has been asked for the child and `w` been left there. */
  function WithChild(v: Value, a: Arg, w: Value): (r: Value)
    requires Accepts(v, a)
    ensures Accepts(r, a) && Child(r, a) == w
  {
    match (v.payload, a)
    case (Null, Index(i)) => Value(Array(map[i := w]), 0, 0)
    case (Null, Key(k)) => Value(Object(map[k := w]), 0, 0)
    case (Array(m), Index(i)) => Value(Array(m[i := w]), v.start, v.limit)
    case (Object(m), Key(k)) => Value(Object(m[k := w]), v.start, v.limit)
  }

  /** `make`: the tree it leaves, and whether it returned a reference rather than threw. */
  function Make(v: Value, p: Path): (Value, bool)
    decreases |p|
  {
    if p == [] then (v, true)
    else if !Accepts(v, p[0]) then (v, false)
    else
      var (w, ok) := Make(Child(v, p[0]), p[1..]);
      (WithChild(v, p[0], w), ok)
  }

  /** The tree after an assignment to the node at `p`, which must be there. */
  function Assigned(v: Value, p: Path, x: Value): Value
    decreases |p|
  {
    if p == [] then x
    else if !Accepts(v, p[0]) then v
    else WithChild(v, p[0], Assigned(Child(v, p[0]), p[1..], x))
  }

  /** `make(root) = x` */
  function Put(v: Value, p: Path, x: Value): Option<Value> {
    var (t, ok) := Make(v, p);
    if ok then Some(Assigned(t, p, x)) else None
  }

  /** The child `resolve` steps to, if it does not give up. */
  function Step(v: Value, a: Arg): Option<Value> {
    match (v.payload, a)
    case (Array(m), Index(i)) => if i < Size(m) then Some(ElementAt(m, i)) else None
    case (Object(m), Key(k)) => if k in m then Some(m[k]) else None
    case _ => None
  }

  /** The node at the end of a path, if there is one. */
  function Found(v: Value, p: Path): Option<Value>
    decreases |p|
  {
    if p == [] then Some(v)
    else match Step(v, p[0])
         case Some(w) => Found(w, p[1..])
         case None => None
  }

  /** `resolve(root)` without a default. */
  function Lookup(v: Value, p: Path): Value {
    match Found(v, p)
    case Some(w) => w
    case None => NULL_VALUE
  }

  lemma {:induction false} FoundAppend(v: Value, p: Path, q: Path)
    ensures Found(v, p + q) == match Found(v, p) case Some(w) => Found(w, q) case None => None
    decreases |p|
  {
    if p == [] {
      assert p + q == q;
    } else {
      assert (p + q)[1..] == p[1..] + q;
      match Step(v, p[0])
      case Some(w) => FoundAppend(w, p[1..], q);
      case None =>
    }
  }

  /** `resolve`, with the caller's default or null. */
  method Resolve(root: Value, args: Path, defaultValue: Value) returns (r: Value)
    ensures r == match Found(root, args) case Some(w) => w case None => defaultValue
  {
    var node := root;
    var it := 0;
    while it < |args|
      invariant 0 <= it <= |args|
      invariant Found(root, args[..it]) == Some(node)
    {
      hide Found, Size;
      var arg := args[it];
      ResolveStep(root, args, it, node);
      match arg {
        case Index(i) =>
          if !node.payload.Array? || i >= Size(node.payload.elems) {
            return defaultValue;
          }
          node := ElementAt(node.payload.elems, i);
        case Key(k) =>
          if !node.payload.Object? || k !in node.payload.members {
            return defaultValue;
          }
          node := node.payload.members[k];
      }
      it := it + 1;
    }
    assert args[..it] == args;
    return node;
  }

  /** From the node reached over the first `it` arguments to the next one. */
  lemma ResolveStep(root: Value, args: Path, it: nat, node: Value)
    requires it < |args| && Found(root, args[..it]) == Some(node)
    ensures Found(root, args[..it + 1]) == Step(node, args[it])
    ensures Step(node, args[it]).None? ==> Found(root, args).None?
  {
    hide Found, Step;
    assert args == args[..it] + args[it..] && args[..it + 1] == args[..it] + [args[it]];
    FoundAppend(root, args[..it], args[it..]);
    FoundAppend(root, args[..it], [args[it]]);
    FoundStep(node, args[it..]);
    FoundStep(node, [args[it]]);
    if Step(node, args[it]).Some? {
      FoundStep(Step(node, args[it]).value, [args[it]]);
      assert [args[it]][1..] == [];
    }
  }

  lemma FoundStep(v: Value, p: Path)
    requires p != []
    ensures Found(v, p) == match Step(v, p[0]) case Some(w) => Found(w, p[1..]) case None => None
    ensures Found(v, []) == Some(v)
  {
  }

  // Making

  /** No node the path passes is of a kind that `operator[]` refuses. */
  predicate Compatible(v: Value, p: Path) {
    forall k :: 0 <= k < |p| ==> Accepts(Lookup(v, p[..k]), p[k])
  }

  lemma LookupChild(v: Value, a: Arg, q: Path)
    requires Accepts(v, a)
    ensures Lookup(v, [a] + q) == Lookup(Child(v, a), q)
  {
    hide Size;
    assert ([a] + q)[1..] == q;
    if Step(v, a).None? && q != [] {
      assert Step(NULL_VALUE, q[0]).None?;
    }
  }

  /** `make` returns exactly when the path is compatible with the tree; when it throws it has changed nothing. */
  lemma {:induction false} MakeIffCompatible(v: Value, p: Path)
    ensures Make(v, p).1 <==> Compatible(v, p)
    ensures !Make(v, p).1 ==> Make(v, p).0 == v
    decreases |p|
  {
    hide Lookup;
    if p != [] {
      assert p[..0] == [] && Lookup(v, []) == v by { LookupNothing(v); }
      if Accepts(v, p[0]) {
        var w := Child(v, p[0]);
        MakeIffCompatible(w, p[1..]);
        CompatibleTail(v, p);
        if !Make(v, p).1 {
          UnmadeChild(v, p);
        }
      }
    }
  }

  lemma LookupNothing(v: Value)
    ensures Lookup(v, []) == v
  {
  }

  lemma CompatibleTail(v: Value, p: Path)
    requires p != [] && Accepts(v, p[0])
    ensures Compatible(v, p) <==> Compatible(Child(v, p[0]), p[1..])
  {
    hide Lookup;
    LookupNothing(v);
    forall k | 0 < k < |p| ensures Lookup(v, p[..k]) == Lookup(Child(v, p[0]), p[1..][..k - 1]) {
      assert p[..k] == [p[0]] + p[1..][..k - 1];
      LookupChild(v, p[0], p[1..][..k - 1]);
    }
    if Compatible(v, p) {
      forall k | 0 <= k < |p| - 1 ensures Accepts(Lookup(Child(v, p[0]), p[1..][..k]), p[1..][k]) {
        assert Accepts(Lookup(v, p[..k + 1]), p[k + 1]);
      }
    }
  }

  /** A walk that throws has only passed containers and children that were there already. */
  lemma UnmadeChild(v: Value, p: Path)
    requires p != [] && Accepts(v, p[0])
    requires var (w, ok) := Make(Child(v, p[0]), p[1..]); !ok && w == Child(v, p[0])
    ensures WithChild(v, p[0], Child(v, p[0])) == v
  {
    var w := Child(v, p[0]);
    assert w != NULL_VALUE by {
      if w == NULL_VALUE { NullMakes(p[1..]); }
    }
    match (v.payload, p[0])
    case (Array(m), Index(i)) => assert m[i := w] == m;
    case (Object(m), Key(k)) => assert m[k := w] == m;
    case (Null, _) =>
  }

  lemma {:induction false} NullMakes(p: Path)
    ensures Make(NULL_VALUE, p).1
    decreases |p|
  {
    if p != [] { NullMakes(p[1..]); }
  }

  // Putting and getting

  /** Below the root, putting is putting into the child. */
  lemma PutStep(v: Value, p: Path, x: Value)
    requires p != []
    ensures Put(v, p, x) ==
            if !Accepts(v, p[0]) then None
            else match Put(Child(v, p[0]), p[1..], x)
                 case Some(w) => Some(WithChild(v, p[0], w))
                 case None => None
  {
    if Accepts(v, p[0]) {
      var t := Make(Child(v, p[0]), p[1..]).0;
      var made := WithChild(v, p[0], t);
      OverwriteChild(v, p[0], t, Assigned(t, p[1..], x));
    }
  }

  lemma OverwriteChild(v: Value, a: Arg, w: Value, x: Value)
    requires Accepts(v, a)
    ensures WithChild(WithChild(v, a, w), a, x) == WithChild(v, a, x)
  {
    match (v.payload, a)
    case (Null, Index(i)) => assert map[i := w][i := x] == map[i := x];
    case (Null, Key(k)) => assert map[k := w][k := x] == map[k := x];
    case (Array(m), Index(i)) => assert m[i := w][i := x] == m[i := x];
    case (Object(m), Key(k)) => assert m[k := w][k := x] == m[k := x];
  }

  /** A child that has been left somewhere is where `resolve` steps to, and no other child has changed. */
  lemma StepAfter(v: Value, a: Arg, w: Value, b: Arg)
    requires Accepts(v, a)
    ensures Step(WithChild(v, a, w), a) == Some(w)
    ensures b != a ==> Step(WithChild(v, a, w), b) == if GrownOver(v, a, b) then Some(NULL_VALUE) else Step(v, b)
  {
    hide Size;
    if a.Index? {
      var m := if v.payload.Null? then map[] else v.payload.elems;
      SizeIs(map[], 0);
      SizeIs(m[a.i := w], if a.i < Size(m) then Size(m) else a.i + 1);
    }
  }

  /** `b` is a position that the array gains only because it grows up to `a`. */
  predicate GrownOver(v: Value, a: Arg, b: Arg) {
    a.Index? && b.Index? && b.i < a.i && !(v.payload.Array? && b.i < Size(v.payload.elems))
  }

  /** Get after put, at the path itself and behind it. */
  lemma {:induction false} GetPut(v: Value, p: Path, x: Value, q: Path)
    requires Put(v, p, x).Some?
    ensures Found(Put(v, p, x).value, p + q) == Found(x, q)
    decreases |p|
  {
    hide Put, Step, Accepts, WithChild, Child;
    if p == [] {
      assert p + q == q;
      PutNothing(v, x);
    } else {
      PutStep(v, p, x);
      var w := Child(v, p[0]);
      GetPut(w, p[1..], x, q);
      StepAfter(v, p[0], Put(w, p[1..], x).value, p[0]);
      assert (p + q)[1..] == p[1..] + q;
    }
  }

  lemma PutNothing(v: Value, x: Value)
    ensures Put(v, [], x) == Some(x)
  {
  }

  predicate Comparable(p: Path, q: Path) {
    p <= q || q <= p
  }

  /**
    The only way another path can be affected: it ends in an array position that was not there and
    that the array gains by growing, so that it is now found and holds null.
   */
  predicate GainsNull(v: Value, p: Path, q: Path) {
    && q != [] && |q| <= |p|
    && var k: nat := |q| - 1;
       q[..k] == p[..k] && GrownOver(Lookup(v, q[..k]), p[k], q[k])
  }

  /** Every path that neither extends nor precedes `p` finds what it found before, or gains a null. */
  lemma {:induction false} FoundElsewhere(v: Value, p: Path, x: Value, q: Path)
    requires Put(v, p, x).Some? && !Comparable(p, q)
    ensures Found(Put(v, p, x).value, q) == if GainsNull(v, p, q) then Some(NULL_VALUE) else Found(v, q)
    ensures GainsNull(v, p, q) ==> Found(v, q).None?
    decreases |p|
  {
    hide Put, Accepts, WithChild, Child, Size, GainsNull, GrownOver, Lookup, Step;
    PutStep(v, p, x);
    var w := Child(v, p[0]);
    var y := Put(w, p[1..], x).value;
    StepAfter(v, p[0], y, q[0]);
    if q[0] == p[0] {
      FoundElsewhere(w, p[1..], x, q[1..]);
      GainsBelow(v, p, q);
      FoundBelow(v, p[0], q);
    } else {
      GainsHere(v, p, q);
    }
  }

  lemma FoundBelow(v: Value, a: Arg, q: Path)
    requires Accepts(v, a) && |q| > 1 && q[0] == a
    ensures Found(v, q) == Found(Child(v, a), q[1..])
  {
    hide Size;
    if Step(v, a).None? {
      assert Step(NULL_VALUE, q[1]).None?;
    }
  }

  lemma GainsBelow(v: Value, p: Path, q: Path)
    requires |p| > 1 && |q| > 1 && q[0] == p[0] && Accepts(v, p[0])
    ensures GainsNull(v, p, q) <==> GainsNull(Child(v, p[0]), p[1..], q[1..])
  {
    hide Lookup, GrownOver;
    if |q| <= |p| {
      var k := |q| - 1;
      assert q[..k] == [q[0]] + q[1..][..k - 1];
      assert p[..k] == [p[0]] + p[1..][..k - 1];
      LookupChild(v, p[0], q[1..][..k - 1]);
      assert q[..k] == p[..k] <==> q[1..][..k - 1] == p[1..][..k - 1] by {
        assert q[..k][1..] == q[1..][..k - 1] && p[..k][1..] == p[1..][..k - 1];
      }
    }
  }

  lemma GainsHere(v: Value, p: Path, q: Path)
    requires p != [] && q != [] && q[0] != p[0] && Accepts(v, p[0])
    ensures GainsNull(v, p, q) <==> |q| == 1 && GrownOver(v, p[0], q[0])
    ensures GrownOver(v, p[0], q[0]) ==> Step(v, q[0]).None?
    ensures |q| > 1 ==> Found(NULL_VALUE, q[1..]).None?
  {
    hide Size;
    LookupNothing(v);
    if |q| == 1 {
      assert q[..0] == [] == p[..0];
    } else {
      assert Step(NULL_VALUE, q[1]).None?;
    }
  }

  /**
    The get/put law. On a compatible tree the assignment succeeds, the value is found at its path and
    its parts behind it; what `resolve` returns for any other path that is not on the way is the same.
   */
  lemma PutGetLaw(v: Value, p: Path, x: Value, q: Path)
    ensures Put(v, p, x).Some? <==> Compatible(v, p)
    ensures Put(v, p, x).Some? ==>
      var after := Put(v, p, x).value;
      && Found(after, p) == Some(x)
      && Lookup(after, p + q) == Lookup(x, q)
      && (!Comparable(p, q) ==> Lookup(after, q) == Lookup(v, q))
  {
    hide Compatible, Make, Found, GainsNull;
    MakeIffCompatible(v, p);
    if Put(v, p, x).Some? {
      GetPut(v, p, x, q);
      GetPut(v, p, x, []);
      assert p + [] == p;
      assert Found(x, []) == Some(x) by { FoundNothing(x); }
      if !Comparable(p, q) {
        FoundElsewhere(v, p, x, q);
      }
    }
  }

  lemma FoundNothing(v: Value)
    ensures Found(v, []) == Some(v)
  {
  }

  /** A node on the way to `p` is afterwards what putting into it alone makes of it. */
  lemma {:induction false} PutAbove(v: Value, p: Path, x: Value, r: Path)
    requires Put(v, p + r, x).Some?
    ensures Found(Put(v, p + r, x).value, p) == Put(Lookup(v, p), r, x)
    decreases |p|
  {
    hide Put, Accepts, WithChild, Child, Size, Lookup, Step;
    if p == [] {
      assert p + r == r;
      LookupNothing(v);
    } else {
      assert (p + r)[1..] == p[1..] + r;
      PutStep(v, p + r, x);
      var w := Child(v, p[0]);
      PutAbove(w, p[1..], x, r);
      StepAfter(v, p[0], Put(w, p[1..] + r, x).value, p[0]);
      assert p == [p[0]] + p[1..];
      LookupChild(v, p[0], p[1..]);
    }
  }
}
