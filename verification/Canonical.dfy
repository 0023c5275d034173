/**
  The trees the reader builds are canonical: arrays have no holes, every integer has the type its
  value calls for, and no node is deeper than the stack allowed. So they are their own normal form,
  and printing and reading them again changes nothing.
 */
module Canonical {
  import opened Arrays
  import opened Basics
  import opened Grammar
  import opened Lexer
  import opened Pipelines
  import opened ReaderSpec
  import opened RoundTrip
  import opened Values
  import opened WriterSyntax
  import Fast = FastWriter
  import Reader = OurReader

  /** Canonical, and at most `n` levels deep. */
  ghost predicate CanonicalTo(v: Value, n: int) {
    && n >= 1
    && match v.payload
       case Int(i) => i <= MAX_INT
       case UInt(u) => u > MAX_INT
       case Array(m) => HoleFree(m) && forall i :: i in m ==> CanonicalTo(m[i], n - 1)
       case Object(m) => forall k :: k in m ==> CanonicalTo(m[k], n - 1)
       case _ => true
  }

  /** A canonical tree is its own normal form. */
  lemma {:induction false} CanonicalIsNormal(v: Value, n: int)
    requires CanonicalTo(v, n)
    ensures Norm(v) == Erase(v)
  {
    match v.payload
    case Array(m) =>
      forall i | i in m ensures Norm(m[i]) == Erase(m[i]) {
        CanonicalIsNormal(m[i], n - 1);
      }
      NormalArray(v);
    case Object(m) =>
      forall k | k in m ensures Norm(m[k]) == Erase(m[k]) {
        CanonicalIsNormal(m[k], n - 1);
      }
      NormalObject(v);
    case _ =>
  }

  lemma NormalArray(v: Value)
    requires v.payload.Array? && HoleFree(v.payload.elems)
    requires forall i :: i in v.payload.elems ==> Norm(v.payload.elems[i]) == Erase(v.payload.elems[i])
    ensures Norm(v) == Erase(v)
  {
    hide Size, Erase;
    var m := v.payload.elems;
    EraseArray(v);
    var a, b := Norm(v).payload.elems, EraseElems(m);
    assert forall i: nat :: i in a <==> i < Size(m);
    assert a.Keys == b.Keys;
    assert forall i: nat :: i in b ==> a[i] == b[i];
  }

  lemma NormalObject(v: Value)
    requires v.payload.Object?
    requires forall k :: k in v.payload.members ==> Norm(v.payload.members[k]) == Erase(v.payload.members[k])
    ensures Norm(v) == Erase(v)
  {
    hide Size, Erase;
    var m := v.payload.members;
    EraseObject(v);
    var a, b := Norm(v).payload.members, EraseMembers(m);
    assert a.Keys == b.Keys;
    assert forall k :: k in b ==> a[k] == b[k];
  }

  lemma {:induction false} CanonicalIsShallow(v: Value, n: int)
    requires CanonicalTo(v, n)
    ensures NoDeeperThan(v, n)
  {
    match v.payload
    case Array(m) =>
      forall i | i in m ensures NoDeeperThan(m[i], n - 1) {
        CanonicalIsShallow(m[i], n - 1);
      }
    case Object(m) =>
      forall k | k in m ensures NoDeeperThan(m[k], n - 1) {
        CanonicalIsShallow(m[k], n - 1);
      }
    case _ =>
  }

  // The reader

  lemma ScalarCanonical(doc: Bytes, g: Settings, t: Token, v: Value, n: int)
    requires t.start <= t.end <= |doc| && n >= 1
    requires t.typ == StringToken ==> t.start + 2 <= t.end
    requires ReadScalar(doc, g, t, v).Success?
    ensures CanonicalTo(ReadScalar(doc, g, t, v).v, n)
  {
    hide DecodeNumber;
    if t.typ == NumberToken {
      NumberCanonical(TokenText(doc, t), g);
    }
  }

  lemma NumberCanonical(text: Bytes, g: Settings)
    requires DecodeNumber(text, g).Some?
    ensures match DecodeNumber(text, g).value
            case Int(i) => i <= MAX_INT
            case UInt(u) => u > MAX_INT
            case Real(_) => true
            case _ => false
  {
  }

  lemma ReadsCanonical(doc: Bytes, g: Settings, depth: nat, i: nat, v: Value)
    requires i <= |doc| && ReadValue(doc, g, depth, i, v).Success?
    ensures CanonicalTo(ReadValue(doc, g, depth, i, v).v, g.f.stackLimit - depth + 1)
    decreases |doc| - i, 0
  {
    hide NextToken, ReadMembers, ReadElements, HoleFree, ReadScalar;
    var t := NextToken(doc, g.f, i);
    var w := Value(v.payload, t.start, v.limit);
    if t.typ == ObjectBegin {
      MembersCanonical(doc, g, depth, t.end, [], map[], w);
    } else if t.typ == ArrayBegin {
      var j := SkipSpaces(doc, t.end);
      NoHoles(map[], 0);
      if !(j < |doc| && doc[j] == RBRACKET) {
        ElementsCanonical(doc, g, depth, j, 0, map[], w);
      }
    } else {
      ScalarCanonical(doc, g, t, v, g.f.stackLimit - depth + 1);
    }
  }

  lemma MembersCanonical(doc: Bytes, g: Settings, depth: nat, i: nat, name: Bytes, m: map<Bytes, Value>, v: Value)
    requires i <= |doc| && depth <= g.f.stackLimit && ReadMembers(doc, g, depth, i, name, m, v).Success?
    requires forall k :: k in m ==> CanonicalTo(m[k], g.f.stackLimit - depth)
    ensures var r := ReadMembers(doc, g, depth, i, name, m, v);
            r.v.payload.Object? && CanonicalTo(r.v, g.f.stackLimit - depth + 1)
    decreases |doc| - i, 1
  {
    hide SkipComments, ReadToken, ReadValue, MemberName, CanonicalTo;
    var n := g.f.stackLimit - depth;
    var t := SkipComments(doc, g.f, i);
    if t.typ == ObjectEnd && name == [] {
      ObjectCanonical(WithMembers(v, m), n);
    } else {
      var key := MemberName(doc, g, t).name;
      var colon := ReadToken(doc, g.f, t.end);
      var w := if key in m then m[key] else NULL_VALUE;
      var r := ReadValue(doc, g, depth + 1, colon.end, w);
      ReadsCanonical(doc, g, depth + 1, colon.end, w);
      var next := SkipComments(doc, g.f, r.cur);
      if next.typ == ObjectEnd {
        ObjectCanonical(WithMembers(v, m[key := r.v]), n);
      } else {
        MembersCanonical(doc, g, depth, next.end, key, m[key := r.v], v);
      }
    }
  }

  lemma ObjectCanonical(v: Value, n: int)
    requires n >= 0 && v.payload.Object?
    requires forall k :: k in v.payload.members ==> CanonicalTo(v.payload.members[k], n)
    ensures CanonicalTo(v, n + 1)
  {
  }

  lemma ArrayCanonical(v: Value, n: int, size: nat)
    requires n >= 0 && v.payload.Array? && forall i: nat :: i in v.payload.elems <==> i < size
    requires forall i :: i in v.payload.elems ==> CanonicalTo(v.payload.elems[i], n)
    ensures CanonicalTo(v, n + 1)
  {
    hide HoleFree;
    NoHoles(v.payload.elems, size);
  }

  lemma ElementsCanonical(doc: Bytes, g: Settings, depth: nat, i: nat, index: nat, m: map<nat, Value>, v: Value)
    requires i <= |doc| && depth <= g.f.stackLimit && ReadElements(doc, g, depth, i, index, m, v).Success?
    requires forall k: nat :: k in m <==> k < index
    requires forall k :: k in m ==> CanonicalTo(m[k], g.f.stackLimit - depth)
    ensures var r := ReadElements(doc, g, depth, i, index, m, v);
            r.v.payload.Array? && CanonicalTo(r.v, g.f.stackLimit - depth + 1)
    decreases |doc| - i, 1
  {
    hide SkipComments, ReadValue, CanonicalTo;
    var r := ReadValue(doc, g, depth + 1, i, ElementAt(m, index));
    ReadsCanonical(doc, g, depth + 1, i, ElementAt(m, index));
    var t := SkipComments(doc, g.f, r.cur);
    if t.typ == ArraySeparator {
      ElementsCanonical(doc, g, depth, t.end, index + 1, m[index := r.v], v);
    } else {
      ArrayCanonical(WithElems(v, m[index := r.v]), g.f.stackLimit - depth, index + 1);
    }
  }

  /** Whatever the document and the features, a successful parse builds a canonical tree that fits the stack. */
  lemma ParseBuildsCanonical(doc: Bytes, g: Settings, root: Value)
    ensures var r := Parse(doc, g, root); r.Done? && r.ok ==> CanonicalTo(r.root, g.f.stackLimit)
  {
    hide ReadValue, CanonicalTo;
    if ReadValue(doc, g, 1, 0, root).Success? {
      ReadsCanonical(doc, g, 1, 0, root);
    }
  }

  /**
    Reading, printing and reading again, with any features: for every document that parses to a tree
    without reals, comments and all, the printed text parses to the same tree if and only if every
    string is valid UTF-8, dropping nulls loses nothing, and none is dropped unless the reader takes it.
   */
  method ReadWriteRead(reader: Reader.OurReader, writer: Fast.FastWriter, doc: Bytes, root: Value, other: Value)
    returns (first: Reader.Outcome, v: Value, text: Bytes, second: Reader.Outcome, back: Value)
    modifies reader, writer
    ensures first == Reader.Succeeded && Writable(v) ==>
              (second == Reader.Succeeded && reader.errors == [] && Erase(back) == Erase(v) <==>
               && IsKept(v, writer.dropNullPlaceholders)
               && (writer.dropNullPlaceholders && !reader.g.f.allowDroppedNullPlaceholders ==> NothingDropped(v)))
  {
    hide Writable, CanonicalTo, Norm, Parse, NoDeeperThan, IsKept, Erase;
    first, v := reader.Parse(doc, root);
    text, second, back := [], Reader.Failed, other;
    if first == Reader.Succeeded && Writable(v) {
      ParseBuildsCanonical(doc, reader.g, root);
      ErrorAccounting(doc, reader.g, root);
      CanonicalIsNormal(v, reader.g.f.stackLimit);
      CanonicalIsShallow(v, reader.g.f.stackLimit);
      text, second, back := WriteAndRead(writer, reader, v, other);
    }
  }
}
