/**
  Which texts the reader accepts: of the texts that are grammatical when keys may repeat, nulls may be
  dropped and comments may stand anywhere the grammar has a place for one, exactly those are accepted in
  which the features find nothing to object to, at any depth.
 */
module Acceptance {
  import opened Basics
  import opened Gaps
  import opened Grammar
  import opened Lexer
  import opened ReaderMeaning
  import opened ReaderSpec
  import opened Separators
  import opened Values

  /** The read does not succeed, and with enough stack it is an error rather than an exception. */
  predicate Fails(r: Read, enough: bool) {
    !r.Success? && (enough ==> r.Failure?)
  }

  // A comment where a value is called for.

  /** The reader meets a comment first where a gap before a value has one. */
  lemma MeetsComment(doc: Bytes, f: Features, i: nat, item: Item)
    requires ItemGaps(item, Skipped(f), Skipped(f)) && !NoEarlyComment(item) && At(doc, i, PrintItem(item))
    ensures i <= |doc| && ReadToken(doc, f, i).typ == CommentToken
  {
    hide ReadToken, IsGap, Print, PrintItem;
    ItemParts(doc, i, item);
    AtBounds(doc, i, item.before);
    FirstInGap(doc, f, i, item.before);
    if AllBlank(item.before) {
      DroppedIsEmpty(item.v);
      FirstInGap(doc, f, i + |item.before|, item.after);
    }
  }

  lemma CommentFails(doc: Bytes, g: Settings, depth: nat, i: nat, j: nat, v: Value)
    requires i <= |doc| && j <= |doc| && NextToken(doc, g.f, i) == NextToken(doc, g.f, j)
    requires !g.f.allowComments && ReadToken(doc, g.f, j).typ == CommentToken
    ensures Fails(ReadValue(doc, g, depth, i, v), depth <= g.f.stackLimit)
  {
    hide ReadToken;
  }

  // A dropped value.

  lemma DroppedFails(doc: Bytes, g: Settings, depth: nat, i: nat, v: Value, q: nat)
    requires i <= |doc| && q < |doc| && Terminated(doc, q) && NextToken(doc, g.f, i) == NextToken(doc, g.f, q)
    requires !g.f.allowDroppedNullPlaceholders && depth <= g.f.stackLimit
    ensures ReadValue(doc, g, depth, i, v).Failure?
  {
    hide NextToken, SkipComments, ReadToken;
    SpacesStop(doc, q);
    Punctuation(doc, g.f, q, q);
  }

  // The induction over syntax

  /** A text that is only grammatical without the features makes the reader fail. */
  lemma {:induction false} FailsValue(doc: Bytes, g: Settings, depth: nat, i: nat, v: Value, c: Syntax, p: nat, q: nat)
    requires WellFormed(c, Lenient(g)) && !WellFormed(c, g) && ItemLayout(doc, g.f, i, c, p, q)
    ensures Fails(ReadValue(doc, g, depth, i, v), depth + Depth(c) - 1 <= g.f.stackLimit)
    decreases c, 1
  {
    hide ReadValue, ReadArray, ReadMembers, At, NextToken, Follows, Terminated, WellFormedItems, WellFormedMembers, IsGap;
    if depth > g.f.stackLimit {
      StackExceeded(doc, g, depth, i, v);
    } else if c.Dropped? {
      DroppedFails(doc, g, depth, i, v, q);
    } else {
      var w := Value(v.payload, p, v.limit);
      OpenBracket(doc, g, depth, i, v, c, p);
      match c
      case ArrayText(items, blank) => FailsArray(doc, g, depth, p, w, items, blank);
      case ObjectText(members, end) => FailsObject(doc, g, depth, p, w, members, end);
    }
  }

  lemma {:induction false} FailsArray(doc: Bytes, g: Settings, depth: nat, p: nat, v: Value, items: seq<Item>, blank: Bytes)
    requires WellFormed(ArrayText(items, blank), Lenient(g)) && !WellFormed(ArrayText(items, blank), g)
    requires At(doc, p, Print(ArrayText(items, blank))) && p < |doc|
    ensures Fails(ReadArray(doc, g, depth, p + 1, v), depth + ItemsDepth(items) <= g.f.stackLimit)
    decreases items, 1
  {
    hide ReadValue, ReadElements, At, Print, NextToken;
    ArrayParts(doc, Lenient(g), p, items, blank);
    BlanksSkipped(doc, g.f, p + 1);
    FailsElements(doc, g, depth, SkipSpaces(doc, p + 1), 0, map[], v, items, p + 1);
  }

  lemma {:induction false} FailsElements(
      doc: Bytes, g: Settings, depth: nat, i: nat, index: nat, m: map<nat, Value>, v: Value, items: seq<Item>, pos: nat)
    requires WellFormedItems(items, Lenient(g)) && !WellFormedItems(items, g)
    requires At(doc, pos, PrintItem(items[0])) && At(doc, pos + |PrintItem(items[0])|, PrintItemTail(items[1..]))
    requires i <= |doc| && pos <= |doc| && NextToken(doc, g.f, i) == NextToken(doc, g.f, pos)
    ensures Fails(ReadElements(doc, g, depth, i, index, m, v), depth + ItemsDepth(items) <= g.f.stackLimit)
    decreases items, 0
  {
    hide ReadToken, SkipComments, NextToken, Print, PrintItem, ReadElements, ReadValue, At, WellFormed, ItemLayout, ItemGaps;
    hide ValueEnd, Follows;
    var c := items[0].v;
    var q := pos + |PrintItem(items[0])|;
    var p := pos + |items[0].before|;
    var r := ReadValue(doc, g, depth + 1, i, ElementAt(m, index));
    LenientGaps(items[0], g.f);
    if !ItemGaps(items[0], Early(g.f), Skipped(g.f)) {
      MeetsComment(doc, g.f, pos, items[0]);
      CommentFails(doc, g, depth + 1, i, pos, ElementAt(m, index));
      ElementsFail(doc, g, depth, i, index, m, v);
    } else {
      TailTerminates(doc, q, items[1..]);
      LayOutItem(doc, g.f, Lenient(g), pos, items[0], q);
      LayoutFrom(doc, g.f, i, pos, c, p, q);
      if WellFormed(c, g) {
        ReadsValue(doc, g, depth + 1, i, ElementAt(m, index), c, p, q);
        LayoutFollows(doc, g.f, i, c, p, q);
        ElementsStep(doc, g, depth, i, index, m, v, r, q);
        if r.Success? {
          FailsElements(doc, g, depth, q + 1, index + 1, m[index := r.v], v, items[1..], q + 1);
        }
      } else {
        FailsValue(doc, g, depth + 1, i, ElementAt(m, index), c, p, q);
        ElementsFail(doc, g, depth, i, index, m, v);
      }
    }
  }

  /** An element that cannot be read ends the array. */
  lemma ElementsFail(doc: Bytes, g: Settings, depth: nat, i: nat, index: nat, m: map<nat, Value>, v: Value)
    requires i <= |doc|
    ensures var r := ReadValue(doc, g, depth + 1, i, ElementAt(m, index)); var s := ReadElements(doc, g, depth, i, index, m, v);
            (r.Failure? ==> s.Failure?) && (r.Threw? ==> s.Threw?)
  {
    hide ReadValue;
  }

  lemma {:induction false} FailsObject(
      doc: Bytes, g: Settings, depth: nat, p: nat, v: Value, members: seq<Member>, end: Closing)
    requires WellFormed(ObjectText(members, end), Lenient(g)) && !WellFormed(ObjectText(members, end), g)
    requires At(doc, p, Print(ObjectText(members, end))) && p < |doc|
    ensures Fails(ReadMembers(doc, g, depth, p + 1, [], map[], v), depth + MembersDepth(members) <= g.f.stackLimit)
    decreases members, 1
  {
    hide ReadValue, ReadMembers, At, Print, IsGap, IsAnyToken, AllBlank;
    ObjectParts(doc, p, members, end);
    FailsMembers(doc, g, depth, p + 1, [], map[], v, members, end);
  }

  lemma {:induction false} FailsMembers(
      doc: Bytes, g: Settings, depth: nat, i: nat, name: Bytes, m: map<Bytes, Value>, v: Value, members: seq<Member>, end: Closing)
    requires members != [] && !(WellFormedMembers(members, g) && FreshKeys(g, m, members))
    requires At(doc, i, PrintMember(members[0])) && RestAt(doc, Lenient(g), i + |PrintMember(members[0])|, members, end)
    ensures Fails(ReadMembers(doc, g, depth, i, name, m, v), depth + MembersDepth(members) <= g.f.stackLimit)
    decreases members, 0
  {
    hide ReadToken, SkipComments, ReadValue, ReadMembers, ReadMember, Print, PrintItem, PrintMember, PrintMemberTail, MemberName, At;
    hide WellFormed, ItemLayout, FreshKeys, WellFormedKey, KeyOf, ItemGaps, NextToken, ValueEnd, Follows, IsGap, AllBlank, Depth;
    hide Separates, Closes;
    var member := members[0];
    var q := i + |PrintMember(member)|;
    var n := KeyOf(member);
    var t, colon := MemberFront(doc, g, i, member, q);
    if g.f.rejectDupKeys && n in m {
      DuplicateFails(doc, g, depth, i, name, m, v, t, n, colon);
    } else {
      FailsFromValue(doc, g, depth, i, name, m, v, members, end, t, colon);
    }
  }

  // A member whose key is in order, from its value on.
  lemma {:induction false} FailsFromValue(
      doc: Bytes, g: Settings, depth: nat, i: nat, name: Bytes, m: map<Bytes, Value>, v: Value, members: seq<Member>,
      end: Closing, t: Token, colon: nat)
    requires members != [] && !(WellFormedMembers(members, g) && FreshKeys(g, m, members))
    requires var q := i + |PrintMember(members[0])|;
             && RestAt(doc, Lenient(g), q, members, end) && colon < |doc|
             && At(doc, colon + 1, PrintItem(members[0].value)) && q == colon + 1 + |PrintItem(members[0].value)|
    requires i <= |doc|
    requires var n := KeyOf(members[0]);
             MemberRead(doc, g, depth, i, m, t, n, colon, ReadValue(doc, g, depth + 1, colon + 1, if n in m then m[n] else NULL_VALUE))
    ensures Fails(ReadMembers(doc, g, depth, i, name, m, v), depth + MembersDepth(members) <= g.f.stackLimit)
    decreases members, 0, 0
  {
    hide ReadToken, SkipComments, ReadValue, ReadMembers, ReadMember, Print, PrintItem, PrintMember, PrintMemberTail, MemberName, At;
    hide WellFormed, ItemLayout, FreshKeys, WellFormedKey, KeyOf, ItemGaps, NextToken, ValueEnd, Follows, IsGap, AllBlank, Depth;
    hide Separates, SeparatorAt, Closes, Terminated;
    var member := members[0];
    var q := i + |PrintMember(member)|;
    var p := colon + 1 + |member.value.before|;
    var n := KeyOf(member);
    var previous := if n in m then m[n] else NULL_VALUE;
    var r := ReadValue(doc, g, depth + 1, colon + 1, previous);
    RestBegins(doc, Lenient(g), q, members, end);
    LenientGaps(member.value, g.f);
    if !ItemGaps(member.value, Early(g.f), Skipped(g.f)) {
      MeetsComment(doc, g.f, colon + 1, member.value);
      CommentFails(doc, g, depth + 1, colon + 1, colon + 1, previous);
      MemberFails(doc, g, depth, i, name, m, v, t, n, colon, r);
    } else {
      LayOutItem(doc, g.f, Lenient(g), colon + 1, member.value, q);
      if WellFormed(member.value.v, g) {
        ReadsValue(doc, g, depth + 1, colon + 1, previous, member.value.v, p, q);
        if r.Success? {
          FreshKeysBack(g, m, members, r.v);
          SameMembers(members, g);
          LayoutFollows(doc, g.f, colon + 1, member.value.v, p, q);
          MemberSeparated(doc, g.f, Lenient(g), q, members, end, colon, r.cur);
          MemberGoesOn(doc, g, depth, i, name, m, v, t, n, colon, r, q, q + |NextLead(members, end)|);
          RestGoesOn(doc, Lenient(g), q, members, end);
          FailsMembers(doc, g, depth, q + |members[1].lead|, n, m[n := r.v], v, members[1..], end);
        } else {
          MemberThrows(doc, g, depth, i, name, m, v, t, n, colon, r);
        }
      } else {
        FailsValue(doc, g, depth + 1, colon + 1, previous, member.value.v, p, q);
        MemberFails(doc, g, depth, i, name, m, v, t, n, colon, r);
      }
    }
  }

  // What is left of a list of members that only the lenient grammar has.
  lemma SameMembers(members: seq<Member>, g: Settings)
    requires members != [] && WellFormedMembers(members, Lenient(g)) && WellFormed(members[0].value.v, g)
    requires ItemGaps(members[0].value, Early(g.f), Skipped(g.f))
    ensures members[1..] == [] || WellFormedMembers(members[1..], g) ==> WellFormedMembers(members, g)
  {
    hide WellFormed, ItemGaps, WellFormedKey, IsGap;
    if members[1..] != [] {
      SameSeparators(members[1].lead, members[0].value, g.f, Lenient(g).f);
    }
  }

  /** A key that is there already ends the object. */
  lemma DuplicateFails(
      doc: Bytes, g: Settings, depth: nat, i: nat, name: Bytes, m: map<Bytes, Value>, v: Value, t: Token, n: Bytes, colon: nat)
    requires i <= |doc| && t == SkipComments(doc, g.f, i) && t.typ == StringToken
    requires MemberName(doc, g, t) == Named(n) && |n| < KEY_LIMIT && g.f.rejectDupKeys && n in m
    requires colon < |doc| && ReadToken(doc, g.f, t.end) == Token(MemberSeparator, colon, colon + 1)
    ensures ReadMembers(doc, g, depth, i, name, m, v).Failure?
  {
    hide ReadToken, ReadValue, SkipComments;
    assert ReadMembers(doc, g, depth, i, name, m, v) == ReadMember(doc, g, depth, t, n, m, v);
  }

  /** A member whose value cannot be read ends the object. */
  lemma MemberFails(
      doc: Bytes, g: Settings, depth: nat, i: nat, name: Bytes, m: map<Bytes, Value>, v: Value,
      t: Token, n: Bytes, colon: nat, r: Read)
    requires i <= |doc| && MemberRead(doc, g, depth, i, m, t, n, colon, r)
    ensures var s := ReadMembers(doc, g, depth, i, name, m, v);
            (r.Failure? ==> s.Failure?) && (r.Threw? ==> s.Threw?)
  {
    hide ReadToken, ReadValue, SkipComments;
    assert ReadMembers(doc, g, depth, i, name, m, v) == ReadMember(doc, g, depth, t, n, m, v);
  }

  lemma FreshKeysBack(g: Settings, m: map<Bytes, Value>, members: seq<Member>, w: Value)
    requires members != [] && !(g.f.rejectDupKeys && KeyOf(members[0]) in m)
    ensures FreshKeys(g, m[KeyOf(members[0]) := w], members[1..]) ==> FreshKeys(g, m, members)
    ensures members[1..] == [] ==> FreshKeys(g, m[KeyOf(members[0]) := w], members[1..])
  {
    hide KeyOf;
    var after := m[KeyOf(members[0]) := w];
    if g.f.rejectDupKeys && FreshKeys(g, after, members[1..]) {
      assert KeyOf(members[0]) in after;
      assert forall k :: k in m ==> k in after;
    }
  }

  // Whole documents

  /** What the features say about a document: its text, and the gaps around it. */
  predicate AdmitsText(f: Features, text: Item) {
    && Admits(f, text.v)
    && (f.strictRoot ==> text.v.ArrayText? || text.v.ObjectText?)
    && (!f.allowComments ==> AllBlank(text.before) && (f.failIfExtra ==> AllBlank(text.after)))
  }

  /**
    The parse of a text that is grammatical but for repeated keys, dropped nulls and early comments returns
    true exactly when the stack suffices and the features admit the document. Otherwise it records one
    error if the root checks are off, and never more than two.
   */
  lemma TextAccepted(text: Item, g: Settings, root: Value)
    requires IsGap(text.before, Skipped(g.f)) && IsGap(text.after, Skipped(g.f)) && WellFormed(text.v, Lenient(g)) && !text.v.Dropped?
    ensures var r := Parse(PrintItem(text), g, root);
            if Depth(text.v) > g.f.stackLimit then !(r.Done? && r.ok)
            else
              && r.Done?
              && (r.ok <==> AdmitsText(g.f, text))
              && (!r.ok ==> 1 <= |r.errors| <= 2)
              && (!r.ok && !g.f.strictRoot && !g.f.failIfExtra ==> |r.errors| == 1)
  {
    hide ReadValue, ReadToken, Print, PrintItem, WellFormed, Admits, NextToken, IsGap, ItemLayout, Finish;
    var doc := PrintItem(text);
    ErrorAccounting(doc, g, root);
    WellFormedIff(text.v, g);
    EarlyIsSkipped(text.before, g.f);
    EarlyIsSkipped(text.after, g.f);
    if !g.f.allowComments && !AllBlank(text.before) {
      EarlyRootFails(text, g, root);
    } else if WellFormed(text.v, g) {
      RootReads(text, g, root);
    } else {
      RootLayout(text, g, Lenient(g));
      FailsValue(doc, g, 1, 0, root, text.v, |text.before|, |doc|);
      FailureFinishes(doc, g, root);
    }
  }

  // A comment before the root.
  lemma EarlyRootFails(text: Item, g: Settings, root: Value)
    requires IsGap(text.before, Skipped(g.f)) && !AllBlank(text.before) && !g.f.allowComments
    ensures var r := Parse(PrintItem(text), g, root);
            if 1 > g.f.stackLimit then r.Thrown? else r.Done? && !r.ok
  {
    hide ReadToken, IsGap, Print, PrintItem, ReadValue, NextToken, Finish;
    var doc := PrintItem(text);
    assert At(doc, 0, doc);
    ItemParts(doc, 0, text);
    FirstInGap(doc, g.f, 0, text.before);
    CommentFails(doc, g, 1, 0, 0, root);
    FailureFinishes(doc, g, root);
    if 1 > g.f.stackLimit {
      StackExceeded(doc, g, 1, 0, root);
    }
  }

  lemma FailureFinishes(doc: Bytes, g: Settings, root: Value)
    ensures var r, read := Parse(doc, g, root), ReadValue(doc, g, 1, 0, root);
            && (read.Failure? ==> r.Done? && !r.ok)
            && (read.Threw? ==> r.Thrown?)
  {
    hide ReadValue, NextToken;
  }

  // A root that the features admit, and what follows it.
  lemma RootReads(text: Item, g: Settings, root: Value)
    requires IsGap(text.before, Early(g.f)) && IsGap(text.after, Skipped(g.f)) && WellFormed(text.v, g) && !text.v.Dropped?
    ensures var r := Parse(PrintItem(text), g, root);
            if Depth(text.v) > g.f.stackLimit then r.Thrown?
            else
              && r.Done?
              && (r.ok <==>
                    && (g.f.strictRoot ==> text.v.ArrayText? || text.v.ObjectText?)
                    && (!g.f.allowComments && g.f.failIfExtra ==> AllBlank(text.after)))
  {
    hide ReadValue, ReadToken, Print, PrintItem, WellFormed, NextToken, IsGap, ItemLayout;
    EarlyIsSkipped(text.after, g.f);
    if g.f.allowComments || !g.f.failIfExtra || AllBlank(text.after) {
      ParseMeaning(text, g, root);
    } else {
      var doc := PrintItem(text);
      RootLayout(text, g, g);
      ReadsValue(doc, g, 1, 0, root, text.v, |text.before|, |doc|);
      LateComment(text, g.f);
    }
  }

  // A comment behind the root.
  lemma LateComment(text: Item, f: Features)
    requires IsGap(text.after, Skipped(f)) && !AllBlank(text.after) && !f.allowComments
    ensures var e := |text.before| + |Print(text.v)|;
            e <= |PrintItem(text)| && NextToken(PrintItem(text), f, e).typ == CommentToken
  {
    hide ReadToken, IsGap, Print, PrintItem;
    var doc := PrintItem(text);
    assert At(doc, 0, doc);
    ItemParts(doc, 0, text);
    AtBounds(doc, |text.before| + |Print(text.v)|, text.after);
    FirstInGap(doc, f, |text.before| + |Print(text.v)|, text.after);
  }

  /**
    With `rejectDupKeys`, a text whose comments are in place is accepted exactly when no object in it,
    at any depth, repeats a key and its root is a container if one is called for.
   */
  lemma DuplicatesDecide(text: Item, g: Settings, root: Value)
    requires IsGap(text.before, Early(g.f)) && IsGap(text.after, Early(g.f)) && !text.v.Dropped?
    requires WellFormed(text.v, g.(f := g.f.(rejectDupKeys := false))) && g.f.rejectDupKeys
    requires Depth(text.v) <= g.f.stackLimit
    ensures var r := Parse(PrintItem(text), g, root);
            && r.Done?
            && (r.ok <==> AllDistinct(text.v) && (g.f.strictRoot ==> text.v.ArrayText? || text.v.ObjectText?))
            && (!AllDistinct(text.v) ==> 1 <= |r.errors| <= 2)
            && (!g.f.strictRoot && !g.f.failIfExtra ==> |r.errors| == if AllDistinct(text.v) then 0 else 1)
  {
    hide WellFormed, IsGap, Parse, PrintItem, AllDistinct, NoEarlyComments, Depth;
    WellFormedIff(text.v, g.(f := g.f.(rejectDupKeys := false)));
    EarlyIsSkipped(text.before, g.f);
    EarlyIsSkipped(text.after, g.f);
    TextAccepted(text, g, root);
    ErrorAccounting(PrintItem(text), g, root);
  }
}
