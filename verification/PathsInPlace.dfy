/**
  `Path::make` as it is written: a pointer walks down a tree of nodes, creating what is missing in
  place, and the caller assigns through the pointer it gets back. The proof is that the tree then
  stands for what `Paths.Put` says, and that no node outside the tree is touched.
 */
module PathsInPlace {
  import opened Paths
  import opened ReaderSpec
  import opened Values

  // `type_` and `value_` of a node; arrays and objects share one kind of map, from `CZString` to child.
  datatype Content = Scalar(p: Payload) | Container(isArray: bool, kids: map<Arg, Node>)

  // A node's fields at one moment.
  datatype Cell = Cell(content: Content, start: int, limit: int)

  type Memory = map<Node, Cell>

  class Node {
    var content: Content
    var start: int
    var limit: int

    constructor ()
      ensures Now() == Cell(Scalar(Null), 0, 0)
    {
      content, start, limit := Scalar(Null), 0, 0;
    }

    function Now(): Cell
      reads this
    {
      Cell(content, start, limit)
    }
  }

  /** The fields of all nodes of a region. */
  ghost function Snapshot(region: set<Node>): Memory
    reads region
  {
    map n | n in region :: n.Now()
  }

  /** Whether a container holds a child under this key. */
  predicate HasKid(v: Value, a: Arg) {
    match (v.payload, a)
    case (Array(m), Index(i)) => i in m
    case (Object(m), Key(k)) => k in m
    case _ => false
  }

  function Kid(v: Value, a: Arg): (w: Value)
    requires HasKid(v, a)
    ensures w < v && Accepts(v, a) && w == Child(v, a)
  {
    match a
    case Index(i) => v.payload.elems[i]
    case Key(k) => v.payload.members[k]
  }

  /** The nodes of the tree at `n`, which stands for `v`. */
  ghost function Nodes(h: Memory, n: Node, v: Value): set<Node>
    decreases v
  {
    {n} + if n !in h || h[n].content.Scalar? then {} else
      var kids := h[n].content.kids;
      set a, x | a in kids && HasKid(v, a) && x in Nodes(h, kids[a], Kid(v, a)) :: x
  }

  /** `n` stands for `v`, and every node below it is reached in one way only. */
  ghost predicate Stands(h: Memory, n: Node, v: Value)
    decreases v
  {
    && n in h && h[n].start == v.start && h[n].limit == v.limit
    && match h[n].content
       case Scalar(p) => v.payload == p && !IsContainer(v)
       case Container(isArray, kids) =>
         && (if isArray then v.payload.Array? else v.payload.Object?)
         && (forall a :: a in kids <==> HasKid(v, a))
         && (forall a :: a in kids ==> Stands(h, kids[a], Kid(v, a)) && n !in Nodes(h, kids[a], Kid(v, a)))
         && (forall a, b :: a in kids && b in kids && a != b ==> Nodes(h, kids[a], Kid(v, a)) !! Nodes(h, kids[b], Kid(v, b)))
  }

  // The children of a container that stands for `v`.
  ghost function Kids(h: Memory, n: Node, v: Value): map<Arg, Node>
    requires Stands(h, n, v)
  {
    if h[n].content.Scalar? then map[] else h[n].content.kids
  }

  lemma KidStands(h: Memory, n: Node, v: Value, a: Arg)
    requires Stands(h, n, v) && HasKid(v, a)
    ensures a in Kids(h, n, v) && Stands(h, Kids(h, n, v)[a], Kid(v, a))
    ensures Nodes(h, Kids(h, n, v)[a], Kid(v, a)) <= Nodes(h, n, v)
    ensures n !in Nodes(h, Kids(h, n, v)[a], Kid(v, a))
  {
  }

  lemma NodesKnown(h: Memory, n: Node, v: Value)
    requires Stands(h, n, v)
    ensures Nodes(h, n, v) <= h.Keys
    decreases v
  {
    forall a | HasKid(v, a) ensures Nodes(h, Kids(h, n, v)[a], Kid(v, a)) <= h.Keys {
      KidStands(h, n, v, a);
      NodesKnown(h, Kids(h, n, v)[a], Kid(v, a));
    }
  }

  /** A tree none of whose nodes has changed stands for what it stood for. */
  lemma {:induction false} Unaffected(h: Memory, k: Memory, n: Node, v: Value)
    requires Stands(h, n, v)
    requires forall x :: x in Nodes(h, n, v) ==> x in k && x in h && k[x] == h[x]
    ensures Stands(k, n, v) && Nodes(k, n, v) == Nodes(h, n, v)
    decreases v
  {
    assert n in Nodes(h, n, v);
    forall a | HasKid(v, a)
      ensures Stands(k, Kids(h, n, v)[a], Kid(v, a))
      ensures Nodes(k, Kids(h, n, v)[a], Kid(v, a)) == Nodes(h, Kids(h, n, v)[a], Kid(v, a))
    {
      KidStands(h, n, v, a);
      Unaffected(h, k, Kids(h, n, v)[a], Kid(v, a));
    }
  }

  // Positions in a tree

  predicate HasPath(v: Value, p: Path)
    decreases |p|
  {
    p == [] || (HasKid(v, p[0]) && HasPath(Kid(v, p[0]), p[1..]))
  }

  function Sub(v: Value, p: Path): Value
    requires HasPath(v, p)
    decreases |p|
  {
    if p == [] then v else Sub(Kid(v, p[0]), p[1..])
  }

  ghost function NodeAt(h: Memory, n: Node, v: Value, p: Path): Node
    requires Stands(h, n, v) && HasPath(v, p)
    decreases |p|
  {
    if p == [] then n
    else
      KidStands(h, n, v, p[0]);
      NodeAt(h, Kids(h, n, v)[p[0]], Kid(v, p[0]), p[1..])
  }

  lemma {:induction false} NodeAtStands(h: Memory, n: Node, v: Value, p: Path)
    requires Stands(h, n, v) && HasPath(v, p)
    ensures Stands(h, NodeAt(h, n, v, p), Sub(v, p))
    ensures Nodes(h, NodeAt(h, n, v, p), Sub(v, p)) <= Nodes(h, n, v)
    decreases |p|
  {
    if p != [] {
      KidStands(h, n, v, p[0]);
      NodeAtStands(h, Kids(h, n, v)[p[0]], Kid(v, p[0]), p[1..]);
    }
  }

  // Changing one subtree

  lemma AssignedStep(v: Value, p: Path, w: Value)
    requires p != [] && HasKid(v, p[0])
    ensures Assigned(v, p, w) == WithChild(v, p[0], Assigned(Kid(v, p[0]), p[1..], w))
  {
  }

  lemma WithChildKids(v: Value, a: Arg, w: Value)
    requires Accepts(v, a)
    ensures var r := WithChild(v, a, w);
            && HasKid(r, a) && Kid(r, a) == w
            && (forall b :: b != a ==> (HasKid(r, b) <==> HasKid(v, b)))
            && (forall b :: b != a && HasKid(v, b) ==> Kid(r, b) == Kid(v, b))
            && (if a.Index? then r.payload.Array? else r.payload.Object?)
            && (!v.payload.Null? ==> r.start == v.start && r.limit == v.limit)
            && (v.payload.Null? ==> r.start == r.limit == 0)
  {
  }

  /** The nodes of a container are itself and the nodes of its children. */
  lemma NodesOf(h: Memory, n: Node, v: Value, x: Node)
    requires Stands(h, n, v)
    ensures x in Nodes(h, n, v) <==> x == n || exists a :: HasKid(v, a) && x in Nodes(h, Kids(h, n, v)[a], Kid(v, a))
  {
  }

  /**
    A container whose child under `a` has come to stand for `w`, with nodes of its own, and whose
    other children have not changed, stands for the container with that child replaced.
   */
  lemma ReplaceKid(h: Memory, k: Memory, n: Node, v: Value, a: Arg, w: Value)
    requires Stands(h, n, v) && HasKid(v, a) && n in k && k[n] == h[n]
    requires var c := Kids(h, n, v)[a]; Stands(k, c, w) && n !in Nodes(k, c, w)
    requires forall b :: HasKid(v, b) && b != a ==>
               && (forall x :: x in Nodes(h, Kids(h, n, v)[b], Kid(v, b)) ==> x in k && x in h && k[x] == h[x])
               && Nodes(h, Kids(h, n, v)[b], Kid(v, b)) !! Nodes(k, Kids(h, n, v)[a], w)
    ensures Stands(k, n, WithChild(v, a, w))
    ensures Kids(k, n, WithChild(v, a, w)) == Kids(h, n, v)
    ensures forall b :: HasKid(v, b) && b != a ==>
              Nodes(k, Kids(h, n, v)[b], Kid(v, b)) == Nodes(h, Kids(h, n, v)[b], Kid(v, b))
  {
    var r, kids := WithChild(v, a, w), Kids(h, n, v);
    WithChildKids(v, a, w);
    forall b | HasKid(v, b) && b != a
      ensures Stands(k, kids[b], Kid(v, b)) && Nodes(k, kids[b], Kid(v, b)) == Nodes(h, kids[b], Kid(v, b))
    {
      KidStands(h, n, v, b);
      Unaffected(h, k, kids[b], Kid(v, b));
    }
  }

  // What is left of a tree outside a part of one child.
  lemma OutsideKid(h: Memory, n: Node, v: Value, a: Arg, inner: set<Node>)
    requires Stands(h, n, v) && HasKid(v, a) && inner <= Nodes(h, Kids(h, n, v)[a], Kid(v, a))
    ensures n in Nodes(h, n, v) - inner
    ensures Nodes(h, Kids(h, n, v)[a], Kid(v, a)) - inner <= Nodes(h, n, v) - inner
    ensures forall b :: HasKid(v, b) && b != a ==>
              Nodes(h, Kids(h, n, v)[b], Kid(v, b)) <= Nodes(h, n, v) - inner
              && Nodes(h, Kids(h, n, v)[b], Kid(v, b)) !! Nodes(h, Kids(h, n, v)[a], Kid(v, a))
  {
    KidStands(h, n, v, a);
    forall b | HasKid(v, b) && b != a
      ensures Nodes(h, Kids(h, n, v)[b], Kid(v, b)) <= Nodes(h, n, v) - inner
      ensures Nodes(h, Kids(h, n, v)[b], Kid(v, b)) !! Nodes(h, Kids(h, n, v)[a], Kid(v, a))
    {
      KidStands(h, n, v, b);
    }
  }

  lemma NodesReplaced(h: Memory, k: Memory, n: Node, v: Value, a: Arg, w: Value)
    requires Stands(h, n, v) && HasKid(v, a) && Stands(k, n, WithChild(v, a, w))
    requires Kids(k, n, WithChild(v, a, w)) == Kids(h, n, v)
    requires forall b :: HasKid(v, b) && b != a ==>
               Nodes(k, Kids(h, n, v)[b], Kid(v, b)) == Nodes(h, Kids(h, n, v)[b], Kid(v, b))
    ensures Nodes(k, n, WithChild(v, a, w)) <=
            (Nodes(h, n, v) - Nodes(h, Kids(h, n, v)[a], Kid(v, a))) + Nodes(k, Kids(h, n, v)[a], w)
  {
    hide Stands, Nodes, Kids, WithChild;
    var kids := Kids(h, n, v);
    KidStands(h, n, v, a);
    OutsideKid(h, n, v, a, Nodes(h, kids[a], Kid(v, a)));
    WithChildKids(v, a, w);
    forall x | x in Nodes(k, n, WithChild(v, a, w))
      ensures x in (Nodes(h, n, v) - Nodes(h, kids[a], Kid(v, a))) + Nodes(k, kids[a], w)
    {
      NodesOf(k, n, WithChild(v, a, w), x);
    }
  }

  /** Replacing the subtree at a path, and nothing else, is an assignment to that path. */
  lemma {:induction false} Reframe(h: Memory, k: Memory, n: Node, v: Value, p: Path, w: Value)
    requires Stands(h, n, v) && HasPath(v, p)
    requires Stands(k, NodeAt(h, n, v, p), w)
    requires var t := NodeAt(h, n, v, p); var rest := Nodes(h, n, v) - Nodes(h, t, Sub(v, p));
             (forall x :: x in rest ==> x in k && x in h && k[x] == h[x]) && Nodes(k, t, w) !! rest
    ensures Stands(k, n, Assigned(v, p, w)) && HasPath(Assigned(v, p, w), p)
    ensures NodeAt(k, n, Assigned(v, p, w), p) == NodeAt(h, n, v, p) && Sub(Assigned(v, p, w), p) == w
    ensures var t := NodeAt(h, n, v, p);
            Nodes(k, n, Assigned(v, p, w)) <= (Nodes(h, n, v) - Nodes(h, t, Sub(v, p))) + Nodes(k, t, w)
    decreases |p|
  {
    hide Stands, Nodes, Kids, WithChild, Assigned;
    AssignedNothing(v, w);
    if p != [] {
      var a := p[0];
      var kids := Kids(h, n, v);
      KidStands(h, n, v, a);
      NodeAtStands(h, kids[a], Kid(v, a), p[1..]);
      OutsideKid(h, n, v, a, Nodes(h, NodeAt(h, n, v, p), Sub(v, p)));
      Reframe(h, k, kids[a], Kid(v, a), p[1..], w);
      var c := Assigned(Kid(v, a), p[1..], w);
      AssignedStep(v, p, w);
      WithChildKids(v, a, c);
      ReplaceKid(h, k, n, v, a, c);
      NodesReplaced(h, k, n, v, a, c);
    }
  }

  lemma AssignedNothing(v: Value, w: Value)
    ensures Assigned(v, [], w) == w
  {
  }

  // `operator[]`

  /** A container that gains a new null child. */
  lemma AddKid(h: Memory, k: Memory, n: Node, v: Value, a: Arg, child: Node)
    requires Stands(h, n, v) && Accepts(v, a) && !HasKid(v, a)
    requires child !in h && child in k && k[child] == Cell(Scalar(Null), 0, 0)
    requires n in k && k[n].content == Container(a.Index?, Kids(h, n, v)[a := child])
    requires if v.payload.Null? then k[n].start == k[n].limit == 0 else k[n].start == v.start && k[n].limit == v.limit
    requires forall x :: x in h && x != n ==> x in k && k[x] == h[x]
    ensures var w := WithChild(v, a, NULL_VALUE);
            && Child(v, a) == NULL_VALUE
            && Stands(k, n, w) && HasKid(w, a) && Kids(k, n, w)[a] == child
            && Nodes(k, n, w) <= Nodes(h, n, v) + {child}
  {
    hide WithChild, Child;
    var w, kids := WithChild(v, a, NULL_VALUE), Kids(h, n, v);
    WithChildKids(v, a, NULL_VALUE);
    AbsentChild(v, a);
    OldKids(h, k, n, v, a, child);
    NewChild(k, child);
    assert forall b :: b in k[n].content.kids <==> HasKid(w, b);
    AddedNodes(h, k, n, v, a, child);
  }

  lemma NewChild(k: Memory, child: Node)
    requires child in k && k[child] == Cell(Scalar(Null), 0, 0)
    ensures Stands(k, child, NULL_VALUE) && Nodes(k, child, NULL_VALUE) == {child}
  {
  }

  // The children that were there before are as they were.
  lemma OldKids(h: Memory, k: Memory, n: Node, v: Value, a: Arg, child: Node)
    requires Stands(h, n, v) && child !in h
    requires forall x :: x in h && x != n ==> x in k && k[x] == h[x]
    ensures forall b :: HasKid(v, b) ==>
              var c := Kids(h, n, v)[b];
              && Stands(k, c, Kid(v, b)) && Nodes(k, c, Kid(v, b)) == Nodes(h, c, Kid(v, b))
              && child !in Nodes(h, c, Kid(v, b)) && Nodes(h, c, Kid(v, b)) <= Nodes(h, n, v)
  {
    NodesKnown(h, n, v);
    forall b | HasKid(v, b)
      ensures var c := Kids(h, n, v)[b];
              && Stands(k, c, Kid(v, b)) && Nodes(k, c, Kid(v, b)) == Nodes(h, c, Kid(v, b))
              && child !in Nodes(h, c, Kid(v, b)) && Nodes(h, c, Kid(v, b)) <= Nodes(h, n, v)
    {
      KidStands(h, n, v, b);
      Unaffected(h, k, Kids(h, n, v)[b], Kid(v, b));
    }
  }

  lemma AddedNodes(h: Memory, k: Memory, n: Node, v: Value, a: Arg, child: Node)
    requires Stands(h, n, v) && Accepts(v, a) && !HasKid(v, a) && child !in h
    requires Stands(k, n, WithChild(v, a, NULL_VALUE)) && Kids(k, n, WithChild(v, a, NULL_VALUE)) == Kids(h, n, v)[a := child]
    requires Nodes(k, child, NULL_VALUE) == {child}
    requires forall x :: x in h && x != n ==> x in k && k[x] == h[x]
    ensures Nodes(k, n, WithChild(v, a, NULL_VALUE)) <= Nodes(h, n, v) + {child}
  {
    hide WithChild, Stands, Nodes, Kids;
    var w := WithChild(v, a, NULL_VALUE);
    WithChildKids(v, a, NULL_VALUE);
    OldKids(h, k, n, v, a, child);
    NodeItself(h, n, v);
    forall x | x in Nodes(k, n, w) ensures x in Nodes(h, n, v) + {child} {
      NodesOf(k, n, w, x);
    }
  }

  lemma AbsentChild(v: Value, a: Arg)
    requires Accepts(v, a) && !HasKid(v, a)
    ensures Child(v, a) == NULL_VALUE
  {
  }

  lemma ExistingKid(v: Value, a: Arg)
    requires HasKid(v, a)
    ensures WithChild(v, a, Child(v, a)) == v
  {
    match (v.payload, a)
    case (Array(m), Index(i)) => assert m[i := m[i]] == m;
    case (Object(m), Key(k)) => assert m[k := m[k]] == m;
    case _ =>
  }

  /** `(*node)[arg]`: the child, created as null if it was not there; null stands for the exception. */
  method Subscript(node: Node, a: Arg, ghost v: Value, ghost region: set<Node>)
    returns (child: Node?, ghost after: set<Node>)
    requires node in region && Stands(Snapshot(region), node, v)
    modifies node
    ensures region <= after && fresh(after - region)
    ensures forall n :: n in region && n != node ==> n.Now() == old(n.Now())
    ensures child != null <==> Accepts(v, a)
    ensures child == null ==> after == region && node.Now() == old(node.Now())
    ensures child != null ==>
      var w, k := WithChild(v, a, Child(v, a)), Snapshot(after);
      && child in after
      && Stands(k, node, w) && HasKid(w, a) && Kids(k, node, w)[a] == child
      && Nodes(k, node, w) <= old(Nodes(Snapshot(region), node, v)) + (after - region)
  {
    hide WithChild, Nodes;
    after := region;
    ghost var h := Snapshot(region);
    ghost var kids := Kids(h, node, v);
    if node.content.Scalar? {
      if !node.content.p.Null? {
        return null, after;
      }
      node.content := Container(a.Index?, map[]);
      node.start, node.limit := 0, 0;
    } else if node.content.isArray != a.Index? {
      return null, after;
    }
    if a in node.content.kids {
      ExistingKid(v, a);
      assert Snapshot(after) == h;
      KidStands(h, node, v, a);
      ChildKnown(h, node, v, a);
      return node.content.kids[a], after;
    }
    child := new Node();
    node.content := node.content.(kids := node.content.kids[a := child]);
    after := region + {child};
    AddKid(h, Snapshot(after), node, v, a, child);
  }

  lemma ChildKnown(h: Memory, n: Node, v: Value, a: Arg)
    requires Stands(h, n, v) && HasKid(v, a)
    ensures a in Kids(h, n, v) && Kids(h, n, v)[a] in h
  {
  }

  // `make`

  lemma {:induction false} PathNext(v: Value, p: Path, a: Arg)
    requires HasPath(v, p) && HasKid(Sub(v, p), a)
    ensures HasPath(v, p + [a]) && Sub(v, p + [a]) == Kid(Sub(v, p), a)
    decreases |p|
  {
    if p == [] {
      assert p + [a] == [a];
    } else {
      assert (p + [a])[1..] == p[1..] + [a];
      PathNext(Kid(v, p[0]), p[1..], a);
    }
  }

  lemma {:induction false} NodeNext(h: Memory, n: Node, v: Value, p: Path, a: Arg)
    requires Stands(h, n, v) && HasPath(v, p) && HasKid(Sub(v, p), a)
    requires Stands(h, NodeAt(h, n, v, p), Sub(v, p))
    ensures HasPath(v, p + [a]) && a in Kids(h, NodeAt(h, n, v, p), Sub(v, p))
    ensures NodeAt(h, n, v, p + [a]) == Kids(h, NodeAt(h, n, v, p), Sub(v, p))[a]
    decreases |p|
  {
    PathNext(v, p, a);
    hide Stands, Nodes;
    if p == [] {
      assert p + [a] == [a];
      KidStands(h, n, v, a);
    } else {
      assert (p + [a])[1..] == p[1..] + [a];
      KidStands(h, n, v, p[0]);
      NodeAtStands(h, Kids(h, n, v)[p[0]], Kid(v, p[0]), p[1..]);
      NodeNext(h, Kids(h, n, v)[p[0]], Kid(v, p[0]), p[1..], a);
    }
  }

  /** Along a path that is there, `make` only descends. */
  lemma {:induction false} MakeBelow(v: Value, p: Path, q: Path)
    requires HasPath(v, p)
    ensures Make(v, p + q) == (Assigned(v, p, Make(Sub(v, p), q).0), Make(Sub(v, p), q).1)
    decreases |p|
  {
    if p == [] {
      assert p + q == q;
    } else {
      assert (p + q)[1..] == p[1..] + q;
      MakeBelow(Kid(v, p[0]), p[1..], q);
    }
  }

  lemma {:induction false} AssignedTwice(v: Value, p: Path, x: Value, y: Value)
    requires HasPath(v, p)
    ensures var w := Assigned(v, p, x);
            HasPath(w, p) && Sub(w, p) == x && Assigned(w, p, y) == Assigned(v, p, y)
    decreases |p|
  {
    if p != [] {
      var a, u := p[0], Kid(v, p[0]);
      AssignedTwice(u, p[1..], x, y);
      var c := Assigned(u, p[1..], x);
      AssignedStep(v, p, x);
      AssignedStep(v, p, y);
      WithChildKids(v, a, c);
      AssignedStep(WithChild(v, a, c), p, y);
      OverwriteChild(v, a, c, Assigned(c, p[1..], y));
    }
  }

  /** Creating the next child changes nothing about where `make` ends. */
  lemma MakeNext(v: Value, p: Path, a: Arg, q: Path)
    requires HasPath(v, p) && Accepts(Sub(v, p), a)
    ensures var x := Sub(v, p); var w := Assigned(v, p, WithChild(x, a, Child(x, a)));
            && HasPath(w, p + [a]) && Sub(w, p + [a]) == Child(x, a)
            && Make(w, p + ([a] + q)) == Make(v, p + ([a] + q))
  {
    var x := Sub(v, p);
    var y := WithChild(x, a, Child(x, a));
    var w := Assigned(v, p, y);
    AssignedTwice(v, p, y, Make(x, [a] + q).0);
    WithChildKids(x, a, Child(x, a));
    PathNext(w, p, a);
    MakeBelow(v, p, [a] + q);
    MakeBelow(w, p, [a] + q);
    assert ([a] + q)[1..] == q;
    OverwriteChild(x, a, Child(x, a), Make(Child(x, a), q).0);
  }

  lemma MakeStuck(v: Value, p: Path, a: Arg, q: Path)
    requires HasPath(v, p) && !Accepts(Sub(v, p), a)
    ensures Make(v, p + ([a] + q)) == (v, false)
  {
    MakeBelow(v, p, [a] + q);
    MakeIffCompatible(v, p + ([a] + q));
  }

  // The invariant of the loop: `node` is the node at the arguments walked so far.
  ghost predicate Walked(h: Memory, root: Node, u: Value, p: Path, node: Node) {
    Stands(h, root, u) && HasPath(u, p) && node == NodeAt(h, root, u, p)
  }

  /** `make(root)`: the node at the path, or null for the exception; the tree is changed in place. */
  method MakeInPlace(root: Node, args: Path, ghost v: Value, ghost region: set<Node>)
    returns (node: Node?, ghost after: set<Node>)
    requires root in region && Stands(Snapshot(region), root, v)
    modifies region
    ensures region <= after && fresh(after - region)
    ensures node != null <==> Make(v, args).1
    ensures Stands(Snapshot(after), root, Make(v, args).0)
    ensures node != null ==> node in after && Walked(Snapshot(after), root, Make(v, args).0, args, node)
    ensures Nodes(Snapshot(after), root, Make(v, args).0) <= old(Nodes(Snapshot(region), root, v)) + (after - region)
    ensures forall n :: n in region && n !in old(Nodes(Snapshot(region), root, v)) ==> n.Now() == old(n.Now())
  {
    hide Stands, Nodes, WithChild, Assigned, Make, HasPath, Sub, NodeAt;
    node, after := root, region;
    ghost var u := v;
    StartOfPath(Snapshot(region), root, v);
    var it := 0;
    while it < |args|
      invariant 0 <= it <= |args| && node != null && node in after
      invariant region <= after && fresh(after - region)
      invariant Walked(Snapshot(after), root, u, args[..it], node)
      invariant Make(u, args) == Make(v, args)
      invariant Nodes(Snapshot(after), root, u) <= old(Nodes(Snapshot(region), root, v)) + (after - region)
      invariant forall n :: n in region && n !in old(Nodes(Snapshot(region), root, v)) ==> n.Now() == old(n.Now())
    {
      var arg := args[it];
      ghost var p, h, x := args[..it], Snapshot(after), Sub(u, args[..it]);
      assert args == p + ([arg] + args[it + 1..]) && args[..it + 1] == p + [arg];
      NodeAtStands(h, root, u, p);
      NodesKnown(h, root, u);
      NodeItself(h, node, x);
      ghost var before := after;
      var child;
      child, after := Subscript(node, arg, x, after);
      if child == null {
        MakeStuck(u, p, arg, args[it + 1..]);
        assert Snapshot(after) == h;
        return null, after;
      }
      ghost var w := WithChild(x, arg, Child(x, arg));
      Grown(h, Snapshot(after), root, u, p, node, w);
      MakeNext(u, p, arg, args[it + 1..]);
      NodesKnown(Snapshot(after), root, Assigned(u, p, w));
      NodeAtStands(Snapshot(after), root, Assigned(u, p, w), p);
      NodeNext(Snapshot(after), root, Assigned(u, p, w), p, arg);
      u := Assigned(u, p, w);
      node := child;
      it := it + 1;
    }
    assert args[..it] == args;
    MakeThere(u, args);
  }

  lemma StartOfPath(h: Memory, root: Node, v: Value)
    requires Stands(h, root, v)
    ensures Walked(h, root, v, [], root)
  {
  }

  lemma NodeItself(h: Memory, n: Node, v: Value)
    ensures n in Nodes(h, n, v)
  {
  }

  lemma MakeThere(v: Value, p: Path)
    requires HasPath(v, p)
    ensures Make(v, p) == (v, true)
  {
    MakeBelow(v, p, []);
    assert p + [] == p;
    AssignedSelf(v, p);
  }

  lemma {:induction false} AssignedSelf(v: Value, p: Path)
    requires HasPath(v, p)
    ensures Assigned(v, p, Sub(v, p)) == v
    decreases |p|
  {
    if p != [] {
      AssignedSelf(Kid(v, p[0]), p[1..]);
      ExistingKid(v, p[0]);
    }
  }

  /** One step of the walk: the node on the path has changed and may have a new child, nothing else. */
  lemma Grown(h: Memory, k: Memory, root: Node, v: Value, p: Path, node: Node, w: Value)
    requires Walked(h, root, v, p, node) && Stands(k, node, w)
    requires h.Keys <= k.Keys && forall x :: x in h && x != node ==> k[x] == h[x]
    requires forall x :: x in Nodes(k, node, w) ==> x in Nodes(h, node, Sub(v, p)) || x !in h
    ensures Walked(k, root, Assigned(v, p, w), p, node) && Sub(Assigned(v, p, w), p) == w
    ensures forall x :: x in Nodes(k, root, Assigned(v, p, w)) ==> x in Nodes(h, root, v) || x !in h
  {
    hide Stands, Nodes, Assigned, HasPath, Sub, NodeAt;
    NodeAtStands(h, root, v, p);
    NodesKnown(h, root, v);
    NodeItself(h, node, Sub(v, p));
    Reframe(h, k, root, v, p, w);
  }

  // `make(root) = x`

  /** A tree moved into another node. */
  lemma MovedInto(h: Memory, k: Memory, copy: Node, node: Node, x: Value)
    requires Stands(h, copy, x) && node !in Nodes(h, copy, x) && node in k && k[node] == h[copy]
    requires forall n :: n in Nodes(h, copy, x) ==> n in k && n in h && k[n] == h[n]
    ensures Stands(k, node, x) && Nodes(k, node, x) <= Nodes(h, copy, x) + {node}
  {
    var kids := Kids(h, copy, x);
    forall a | HasKid(x, a)
      ensures Stands(k, kids[a], Kid(x, a)) && Nodes(k, kids[a], Kid(x, a)) == Nodes(h, kids[a], Kid(x, a))
    {
      KidStands(h, copy, x, a);
      Unaffected(h, k, kids[a], Kid(x, a));
    }
  }

  /**
    `path.make(root) = x`, where `copy` is the tree of the assigned value, shared with nothing: on a
    compatible tree the root then stands for what `Put` says, and otherwise for what it stood for;
    nodes outside the tree are untouched.
   */
  method PutInPlace(root: Node, args: Path, copy: Node, ghost v: Value, ghost x: Value, ghost region: set<Node>)
    returns (ok: bool, ghost after: set<Node>)
    requires root in region && copy in region && Stands(Snapshot(region), root, v) && Stands(Snapshot(region), copy, x)
    requires Nodes(Snapshot(region), root, v) !! Nodes(Snapshot(region), copy, x)
    modifies region
    ensures region <= after && fresh(after - region)
    ensures ok <==> Compatible(v, args)
    ensures ok ==> Put(v, args, x).Some? && Stands(Snapshot(after), root, Put(v, args, x).value)
    ensures !ok ==> Stands(Snapshot(after), root, v)
    ensures forall n :: n in region && n !in old(Nodes(Snapshot(region), root, v)) ==> n.Now() == old(n.Now())
  {
    hide Stands, Nodes, Compatible, Make, Assigned, HasPath, Sub, NodeAt;
    MakeIffCompatible(v, args);
    ghost var start := Snapshot(region);
    NodesKnown(start, copy, x);
    var node;
    node, after := MakeInPlace(root, args, v, region);
    ok := node != null;
    if ok {
      ghost var u, h := Make(v, args).0, Snapshot(after);
      Unaffected(start, h, copy, x);
      NodeAtStands(h, root, u, args);
      NodesKnown(h, root, u);
      NodeItself(h, node, Sub(u, args));
      NodeItself(h, copy, x);
      node.content, node.start, node.limit := copy.content, copy.start, copy.limit;
      MovedInto(h, Snapshot(after), copy, node, x);
      Reframe(h, Snapshot(after), root, u, args, x);
    }
  }
}
