/**
  `BuiltStyledStreamWriter` on values without comments: an indenting writer with a re-used buffer of
  child texts and an `indented_` flag. What it writes is the compact text with blanks between the
  tokens, so it reads back to the same value.
 */
module StyledWriter {
  import opened Basics
  import opened FastWriter
  import opened Grammar
  import opened Integers
  import opened JsonStrings
  import opened ReaderSpec
  import opened Values
  import opened WriterSyntax

  const RIGHT_MARGIN := 74

  // The constructor arguments of the writer; `colonSymbol_` is `beforeColon`, a colon, `afterColon`.
  datatype Style = Style(
    indentation: Bytes, allComments: bool, beforeColon: Bytes, afterColon: Bytes, dropNulls: bool, show: ShowDouble)

  /** The style `StreamWriterBuilder::newStreamWriter` sets up. */
  function BuildStyle(indentation: Bytes, allComments: bool, yaml: bool, dropNulls: bool, show: ShowDouble): (st: Style)
    ensures AllBlank(indentation) ==> BlankStyle(st)
  {
    Style(indentation, allComments, if !yaml && indentation != [] then [SPACE] else [],
          if yaml || indentation != [] then [SPACE] else [], dropNulls, show)
  }

  /** `isValidStyle`: everything the style puts between tokens is blank. */
  predicate BlankStyle(st: Style) {
    AllBlank(st.indentation) && AllBlank(st.beforeColon) && AllBlank(st.afterColon)
  }

  // What is written

  /** `writeIndent` with the given indentation string. */
  function Newline(st: Style, indent: Bytes): Bytes {
    if st.indentation == [] then [] else [LF] + indent
  }

  function SingleSpace(st: Style): Bytes {
    if st.indentation == [] then [] else [SPACE]
  }

  predicate IsFilled(v: Value) {
    match v.payload
    case Array(m) => Size(m) > 0
    case Object(m) => m != map[]
    case _ => false
  }

  /** The text of a value that has no children, which is what the child buffer holds. */
  function LeafText(st: Style, v: Value): Bytes {
    Print(CompactSyntax(v, st.dropNulls, [], st.show))
  }

  function ChildTexts(st: Style, m: map<nat, Value>): seq<Bytes> {
    seq(Size(m), i requires 0 <= i < Size(m) => LeafText(st, ElementAt(m, i)))
  }

  function TotalLength(texts: seq<Bytes>): nat {
    if texts == [] then 0 else TotalLength(texts[..|texts| - 1]) + |texts[|texts| - 1]|
  }

  /** Whether an array goes through the child buffer: few elements, none of them a filled container. */
  predicate IsBuffered(m: map<nat, Value>) {
    Size(m) * 3 < RIGHT_MARGIN && forall i :: 0 <= i < Size(m) ==> !IsFilled(ElementAt(m, i))
  }

  /** `isMultilineArray`, and the test of the comment style before it. */
  predicate IsMultiline(st: Style, m: map<nat, Value>) {
    st.allComments || !IsBuffered(m) || 4 + (Size(m) - 1) * 2 + TotalLength(ChildTexts(st, m)) >= RIGHT_MARGIN
  }

  /** Whether writing the value starts with `writeWithIndent`. */
  predicate StartsLine(st: Style, v: Value) {
    match v.payload
    case Array(m) => Size(m) > 0 && IsMultiline(st, m)
    case Object(m) => m != map[]
    case _ => false
  }

  /** The blank the writer puts before a value when it is not indented yet. */
  function Lead(st: Style, v: Value, indent: Bytes, indented: bool): Bytes {
    if !indented && StartsLine(st, v) then Newline(st, indent) else []
  }

  /** The text written for a value at the given indentation, without its lead. */
  function StyledSyntax(st: Style, v: Value, indent: Bytes): Syntax
    decreases v
  {
    match v.payload
    case Array(m) =>
      if Size(m) == 0 then ArrayText([], []) else ArraySyntax(StyledItems(st, v, indent))
    case Object(m) =>
      if m == map[] then ObjectText([], CLOSED) else ObjectText(StyledMembers(st, v, indent), CLOSED)
    case _ => CompactSyntax(v, st.dropNulls, [], st.show)
  }

  function StyledItems(st: Style, v: Value, indent: Bytes): (items: seq<Item>)
    requires v.payload.Array?
    ensures |items| == Size(v.payload.elems)
    decreases v, 0
  {
    var m := v.payload.elems;
    var n := Size(m);
    var multiline := IsMultiline(st, m);
    var inner := indent + st.indentation;
    seq(n, i requires 0 <= i < n =>
      Item(if multiline then Newline(st, inner) else SingleSpace(st),
           if i in m then StyledSyntax(st, m[i], inner) else NullSyntax(st.dropNulls),
           if i < n - 1 then [] else if multiline then Newline(st, indent) else SingleSpace(st)))
  }

  function StyledMembers(st: Style, v: Value, indent: Bytes): (members: seq<Member>)
    requires v.payload.Object?
    ensures |members| == |v.payload.members|
    decreases v, 0
  {
    var m := v.payload.members;
    var ks := MemberNames(m);
    var inner := indent + st.indentation;
    seq(|ks|, i requires 0 <= i < |ks| =>
      Member([COMMA], Newline(st, inner), QuoteChars(ks[i]), st.beforeColon,
             Item(st.afterColon + Lead(st, m[ks[i]], inner, false),
                  StyledSyntax(st, m[ks[i]], inner),
                  if i < |ks| - 1 then [] else Newline(st, indent))))
  }

  // Only blanks differ from the compact text

  lemma CompactOfArraySyntax(items: seq<Item>, plain: seq<Item>)
    requires |items| == |plain|
    requires forall i :: 0 <= i < |items| ==> plain[i] == Item([], Compact(items[i].v), [])
    ensures Compact(ArraySyntax(items)) == ArraySyntax(plain)
  {
    if |items| == 1 && items[0].v.Dropped? {
      assert plain[0].before + plain[0].after == [];
    } else {
      assert Compact(ArrayText(items, [])).items == plain;
    }
  }

  lemma CompactOfObjectText(members: seq<Member>, plain: seq<Member>)
    requires |members| == |plain|
    requires forall i :: 0 <= i < |members| ==>
               plain[i] == Member([COMMA], [], members[i].key, [], Item([], Compact(members[i].value.v), []))
    ensures Compact(ObjectText(members, CLOSED)) == ObjectText(plain, CLOSED)
  {
    assert Compact(ObjectText(members, CLOSED)).members == plain;
  }

  /** The tokens of the styled text are those of the compact text: without its blanks, it is that text. */
  lemma {:induction false} StyledIsCompact(st: Style, v: Value, indent: Bytes)
    ensures Compact(StyledSyntax(st, v, indent)) == CompactSyntax(v, st.dropNulls, [], st.show)
    decreases v, 1
  {
    hide Compact, StyledItems, StyledMembers, CompactItems, CompactMembers;
    match v.payload
    case Array(m) =>
      CompactArray(v, st.dropNulls, [], st.show);
      StyledItemsCompact(st, v, indent);
      CompactOfArraySyntax(StyledItems(st, v, indent), CompactItems(m, st.dropNulls, [], st.show));
      EmptyCompact();
    case Object(m) =>
      CompactObject(v, st.dropNulls, [], st.show);
      StyledMembersCompact(st, v, indent);
      CompactOfObjectText(StyledMembers(st, v, indent), CompactMembers(m, st.dropNulls, [], st.show));
      EmptyCompact();
    case _ => ScalarIsCompact(CompactSyntax(v, st.dropNulls, [], st.show));
  }

  lemma EmptyCompact()
    ensures Compact(ArrayText([], [])) == ArrayText([], []) && Compact(ObjectText([], CLOSED)) == ObjectText([], CLOSED)
  {
  }

  lemma ScalarIsCompact(c: Syntax)
    requires !c.ArrayText? && !c.ObjectText?
    ensures Compact(c) == c
  {
  }

  lemma {:induction false} StyledItemsCompact(st: Style, v: Value, indent: Bytes)
    requires v.payload.Array?
    ensures var items := StyledItems(st, v, indent);
            var plain := CompactItems(v.payload.elems, st.dropNulls, [], st.show);
            |items| == |plain| && forall i :: 0 <= i < |items| ==> plain[i] == Item([], Compact(items[i].v), [])
    decreases v, 0
  {
    hide StyledSyntax, CompactSyntax, IsMultiline, Newline, SingleSpace, Size;
    var m := v.payload.elems;
    var items, plain := StyledItems(st, v, indent), CompactItems(m, st.dropNulls, [], st.show);
    forall i | 0 <= i < Size(m) ensures plain[i] == Item([], Compact(items[i].v), []) {
      if i in m {
        StyledIsCompact(st, m[i], indent + st.indentation);
      }
    }
  }

  lemma {:induction false} StyledMembersCompact(st: Style, v: Value, indent: Bytes)
    requires v.payload.Object?
    ensures var members := StyledMembers(st, v, indent);
            var plain := CompactMembers(v.payload.members, st.dropNulls, [], st.show);
            && |members| == |plain|
            && forall i :: 0 <= i < |members| ==>
                 plain[i] == Member([COMMA], [], members[i].key, [], Item([], Compact(members[i].value.v), []))
    decreases v, 0
  {
    hide StyledSyntax, CompactSyntax, Newline, Lead, QuoteChars, Compact;
    var m := v.payload.members;
    var members, plain := StyledMembers(st, v, indent), CompactMembers(m, st.dropNulls, [], st.show);
    var ks := MemberNames(m);
    forall i | 0 <= i < |ks|
      ensures plain[i] == Member([COMMA], [], members[i].key, [], Item([], Compact(members[i].value.v), []))
    {
      assert ks[i] in m;
      StyledIsCompact(st, m[ks[i]], indent + st.indentation);
    }
  }

  lemma BlanksOfArraySyntax(items: seq<Item>)
    requires forall i :: 0 <= i < |items| ==>
               AllBlank(items[i].before) && AllBlank(items[i].after) && BlanksAreBlank(items[i].v)
    ensures BlanksAreBlank(ArraySyntax(items))
  {
  }

  lemma BlankLines(st: Style, indent: Bytes)
    requires BlankStyle(st) && AllBlank(indent)
    ensures AllBlank(Newline(st, indent)) && AllBlank(SingleSpace(st)) && AllBlank(indent + st.indentation)
  {
  }

  lemma {:induction false} StyledBlanks(st: Style, v: Value, indent: Bytes)
    requires BlankStyle(st) && AllBlank(indent)
    ensures BlanksAreBlank(StyledSyntax(st, v, indent))
    decreases v, 1
  {
    hide StyledItems, StyledMembers;
    match v.payload
    case Array(m) =>
      StyledItemsBlanks(st, v, indent);
      BlanksOfArraySyntax(StyledItems(st, v, indent));
    case Object(m) => StyledMembersBlanks(st, v, indent);
    case _ =>
  }

  lemma {:induction false} StyledItemsBlanks(st: Style, v: Value, indent: Bytes)
    requires v.payload.Array? && BlankStyle(st) && AllBlank(indent)
    ensures forall i :: 0 <= i < Size(v.payload.elems) ==>
              var item := StyledItems(st, v, indent)[i];
              AllBlank(item.before) && AllBlank(item.after) && BlanksAreBlank(item.v)
    decreases v, 0
  {
    hide StyledSyntax, IsMultiline, Newline, SingleSpace, Size;
    var m := v.payload.elems;
    var inner := indent + st.indentation;
    BlankLines(st, indent);
    BlankLines(st, inner);
    var items := StyledItems(st, v, indent);
    forall i | 0 <= i < Size(m)
      ensures AllBlank(items[i].before) && AllBlank(items[i].after) && BlanksAreBlank(items[i].v)
    {
      if i in m {
        StyledBlanks(st, m[i], inner);
      }
    }
  }

  lemma {:induction false} StyledMembersBlanks(st: Style, v: Value, indent: Bytes)
    requires v.payload.Object? && BlankStyle(st) && AllBlank(indent)
    ensures forall i :: 0 <= i < |v.payload.members| ==>
              var m := StyledMembers(st, v, indent)[i];
              && m.lead == [COMMA] && AllBlank(m.before) && AllBlank(m.beforeColon)
              && AllBlank(m.value.before) && AllBlank(m.value.after) && BlanksAreBlank(m.value.v)
    decreases v, 0
  {
    hide StyledSyntax, Newline, QuoteChars;
    var m := v.payload.members;
    var inner := indent + st.indentation;
    BlankLines(st, indent);
    BlankLines(st, inner);
    var members := StyledMembers(st, v, indent);
    var ks := MemberNames(m);
    forall i | 0 <= i < |ks|
      ensures && AllBlank(members[i].before) && AllBlank(members[i].beforeColon)
              && AllBlank(members[i].value.before) && AllBlank(members[i].value.after)
              && BlanksAreBlank(members[i].value.v)
    {
      assert ks[i] in m;
      StyledBlanks(st, m[ks[i]], inner);
    }
  }

  // Writing it piece by piece

  /** What is left of an array text once the value of item `i` is written. */
  function AfterItem(items: seq<Item>, i: nat): Bytes
    requires i < |items|
  {
    items[i].after + ItemsFrom(items, i + 1)
  }

  lemma ArraySyntaxPrint(items: seq<Item>)
    requires items != []
    ensures Print(ArraySyntax(items)) == [LBRACKET] + (items[0].before + Print(items[0].v) + AfterItem(items, 0))
  {
    hide PrintNumber;
    ItemsFromStep(items, 0);
    assert ItemsFrom(items, 0) == PrintItem(items[0]) + ItemsFrom(items, 1);
    assert PrintItem(items[0]) + ItemsFrom(items, 1) == items[0].before + Print(items[0].v) + AfterItem(items, 0);
    if |items| == 1 && items[0].v.Dropped? {
      assert ItemsFrom(items, 1) == [RBRACKET];
      assert items[0].before + [] + (items[0].after + [RBRACKET]) == items[0].before + items[0].after + [RBRACKET];
    }
  }

  lemma AfterItemStep(items: seq<Item>, i: nat)
    requires i + 1 < |items|
    ensures AfterItem(items, i)
            == items[i].after + [COMMA] + (items[i + 1].before + Print(items[i + 1].v) + AfterItem(items, i + 1))
  {
    ItemsFromStep(items, i + 1);
  }

  lemma AfterLastItem(items: seq<Item>)
    requires items != []
    ensures AfterItem(items, |items| - 1) == items[|items| - 1].after + [RBRACKET]
  {
    ItemsFromEnd(items);
  }

  /** A member up to its value. */
  function MemberFront(m: Member): Bytes {
    m.before + PrintText(m.key) + m.beforeColon + [COLON] + m.value.before
  }

  function AfterMember(members: seq<Member>, i: nat): Bytes
    requires i < |members|
  {
    members[i].value.after + MembersFrom(members, i + 1)
  }

  /** The text of an object from one of its members on. */
  function FromMember(members: seq<Member>, i: nat): Bytes
    requires i < |members|
  {
    MemberFront(members[i]) + Print(members[i].value.v) + AfterMember(members, i)
  }

  /** One member has been written behind `before`, and another follows. */
  lemma MemberWritten(st: Style, v: Value, indent: Bytes, i: nat, before: Bytes, written: Bytes)
    requires v.payload.Object? && i + 1 < |v.payload.members|
    requires var member := StyledMembers(st, v, indent)[i];
             written == before + MemberFront(member) + Print(member.value.v)
    ensures var members := StyledMembers(st, v, indent);
            written + [COMMA] + FromMember(members, i + 1) == before + FromMember(members, i)
  {
    hide Print, StyledMembers, AfterMember, MemberFront;
    var members := StyledMembers(st, v, indent);
    MiddleMember(st, v, indent, i);
    AfterMemberStep(members, i);
    CommaNext(written, FromMember(members, i + 1));
    Regroup(before, MemberFront(members[i]), Print(members[i].value.v), AfterMember(members, i));
  }

  lemma LastMemberWritten(st: Style, v: Value, indent: Bytes, before: Bytes, written: Bytes)
    requires v.payload.Object? && v.payload.members != map[] && |v.payload.members| > 0
    requires var members := StyledMembers(st, v, indent); var member := members[|members| - 1];
             written == before + MemberFront(member) + Print(member.value.v)
    ensures var members := StyledMembers(st, v, indent);
            written + Newline(st, indent) + [RBRACE] == before + FromMember(members, |members| - 1)
  {
    hide Print, StyledMembers, AfterMember, MemberFront, Newline;
    var members := StyledMembers(st, v, indent);
    var i := |members| - 1;
    AfterLastMember(members);
    LastMember(st, v, indent);
    Regroup(before, MemberFront(members[i]), Print(members[i].value.v), AfterMember(members, i));
    assert written + (Newline(st, indent) + [RBRACE]) == written + Newline(st, indent) + [RBRACE];
  }

  lemma PrintMemberParts(m: Member)
    ensures PrintMember(m) == MemberFront(m) + Print(m.value.v) + m.value.after
  {
    assert PrintItem(m.value) == m.value.before + Print(m.value.v) + m.value.after;
  }

  lemma ObjectTextPrints(members: seq<Member>)
    requires members != []
    ensures Print(ObjectText(members, CLOSED))
            == [LBRACE] + (MemberFront(members[0]) + Print(members[0].value.v) + AfterMember(members, 0))
  {
    MembersFromStep(members, 0);
    PrintMemberParts(members[0]);
    assert Print(ObjectText(members, CLOSED)) == [LBRACE] + MembersFrom(members, 0);
    assert MembersFrom(members, 0) == PrintMember(members[0]) + MembersFrom(members, 1);
    assert MembersFrom(members, 0) == MemberFront(members[0]) + Print(members[0].value.v) + AfterMember(members, 0);
  }

  lemma AfterMemberStep(members: seq<Member>, i: nat)
    requires i + 1 < |members| && members[i + 1].lead == [COMMA]
    ensures AfterMember(members, i)
            == members[i].value.after + [COMMA]
               + (MemberFront(members[i + 1]) + Print(members[i + 1].value.v) + AfterMember(members, i + 1))
  {
    MembersFromStep(members, i + 1);
    PrintMemberParts(members[i + 1]);
  }

  lemma AfterLastMember(members: seq<Member>)
    requires members != []
    ensures AfterMember(members, |members| - 1) == members[|members| - 1].value.after + [RBRACE]
  {
    MembersFromEnd(members);
  }

  /** A value without children is written alike everywhere. */
  lemma UnfilledText(st: Style, v: Value, indent: Bytes)
    requires !IsFilled(v)
    ensures Print(StyledSyntax(st, v, indent)) == LeafText(st, v)
    ensures !StartsLine(st, v)
  {
    hide Size;
    if v.payload.Array? {
      CompactArray(v, st.dropNulls, [], st.show);
      assert CompactItems(v.payload.elems, st.dropNulls, [], st.show) == [];
    } else if v.payload.Object? {
      CompactObject(v, st.dropNulls, [], st.show);
      assert MemberNames(v.payload.members) == [];
    }
  }

  class BuiltStyledStreamWriter {
    const st: Style
    var sout: Bytes
    var childValues: seq<Bytes>
    var indentString: Bytes
    var addChildValues: bool
    var indented: bool

    constructor (st: Style)
      ensures this.st == st && Valid()
    {
      this.st := st;
      sout, childValues, indentString, addChildValues, indented := [], [], [], false, false;
    }

    /** The child buffer is only ever used when arrays may stay on one line. */
    ghost predicate Valid()
      reads this
    {
      st.allComments ==> childValues == [] && !addChildValues
    }

    method Write(root: Value) returns (text: Bytes)
      requires Valid()
      modifies this
      ensures Valid() && text == sout == Print(StyledSyntax(st, root, [])) && indentString == []
    {
      sout := [];
      addChildValues := false;
      indented := true;
      indentString := [];
      WriteValue(root);
      return sout;
    }

    method PushValue(text: Bytes)
      modifies this`sout, this`childValues
      ensures if addChildValues then sout == old(sout) && childValues == old(childValues) + [text]
              else sout == old(sout) + text && childValues == old(childValues)
    {
      if addChildValues {
        childValues := childValues + [text];
      } else {
        sout := sout + text;
      }
    }

    method WriteIndent()
      modifies this`sout
      ensures sout == old(sout) + Newline(st, indentString)
    {
      if st.indentation != [] {
        sout := sout + ([LF] + indentString);
      }
    }

    method WriteWithIndent(text: Bytes)
      modifies this`sout, this`indented
      ensures sout == old(sout) + (if old(indented) then [] else Newline(st, indentString)) + text
      ensures !indented
    {
      if !indented {
        WriteIndent();
      }
      sout := sout + text;
      indented := false;
    }

    method Indent()
      modifies this`indentString
      ensures indentString == old(indentString) + st.indentation
    {
      indentString := indentString + st.indentation;
    }

    method Unindent()
      requires |indentString| >= |st.indentation|
      modifies this`indentString
      ensures indentString == old(indentString)[..|old(indentString)| - |st.indentation|]
    {
      indentString := indentString[..|indentString| - |st.indentation|];
    }

    /** The writer's state after a value has been written to the stream rather than to the buffer. */
    twostate predicate WroteStyled(value: Value)
      reads this
    {
      && sout == old(sout) + Lead(st, value, old(indentString), old(indented))
                 + Print(StyledSyntax(st, value, old(indentString)))
      && indented == (old(indented) && !StartsLine(st, value))
    }

    method WriteValue(value: Value)
      requires Valid() && (addChildValues ==> !IsFilled(value))
      modifies this
      ensures Valid() && addChildValues == old(addChildValues) && indentString == old(indentString)
      ensures old(addChildValues) ==>
                && sout == old(sout) && indented == old(indented)
                && childValues == old(childValues) + [LeafText(st, value)]
      ensures !old(addChildValues) ==> WroteStyled(value)
      decreases if IsContainer(value) then 1 else 0, value, 5
    {
      hide Size;
      if !IsFilled(value) {
        WriteUnfilled(value);
        UnfilledText(st, value, indentString);
      } else {
        match value.payload
        case Array(m) => WriteArrayValue(value);
        case Object(m) => WriteObject(value);
      }
    }

    /** The cases of `writeValue` that come down to one `pushValue`. */
    method WriteUnfilled(value: Value)
      requires Valid() && !IsFilled(value)
      modifies this`sout, this`childValues
      ensures if addChildValues then sout == old(sout) && childValues == old(childValues) + [LeafText(st, value)]
              else sout == old(sout) + LeafText(st, value) && childValues == old(childValues)
    {
      hide Size;
      match value.payload
      case Null => PushValue(if st.dropNulls then [] else NULL_TEXT);
      case Int(i) =>
        var text := ValueToStringSigned(i);
        IntegerPrint(i);
        PushValue(text);
      case UInt(u) =>
        var text := ValueToStringUnsigned(u);
        IntegerPrint(u);
        PushValue(text);
      case Real(d) => PushValue(st.show(d));
      case String(s) =>
        var text := ValueToQuotedStringN(s);
        QuotedText(s);
        PushValue(text);
      case Boolean(b) => PushValue(if b then TRUE_TEXT else FALSE_TEXT);
      case Array(m) =>
        UnfilledArrayText(value);
        PushValue([LBRACKET, RBRACKET]);
      case Object(m) =>
        UnfilledObjectText(value);
        PushValue([LBRACE, RBRACE]);
    }

    lemma UnfilledArrayText(value: Value)
      requires value.payload.Array? && Size(value.payload.elems) == 0
      ensures LeafText(st, value) == [LBRACKET, RBRACKET]
    {
      UnfilledText(st, value, []);
      assert Print(ArrayText([], [])) == [LBRACKET] + ([] + [RBRACKET]);
    }

    lemma UnfilledObjectText(value: Value)
      requires value.payload == Object(map[])
      ensures LeafText(st, value) == [LBRACE, RBRACE]
    {
      UnfilledText(st, value, []);
      assert Print(ObjectText([], CLOSED)) == [LBRACE] + ([] + [RBRACE]);
    }

    method WriteObject(value: Value)
      requires Valid() && !addChildValues && value.payload.Object? && value.payload.members != map[]
      modifies this
      ensures Valid() && addChildValues == old(addChildValues) && indentString == old(indentString)
      ensures WroteStyled(value)
      decreases 1, value, 4
    {
      hide Print, StyledSyntax, StyledMembers, AfterMember, MemberFront, CompactSyntax, Newline, Lead, StartsLine;
      hide MemberNames, Size, IsMultiline, IsBuffered, ChildTexts, TotalLength, LeafText, PrintText, IsFilled;
      hide FromMember;
      ghost var outer := indentString;
      ghost var members := StyledMembers(st, value, indentString);
      ghost var target := sout + Lead(st, value, indentString, indented) + Print(StyledSyntax(st, value, indentString));
      LineStart(st, value, indentString, indented);
      OpenObject(value, members);
      WriteMembers(value, outer, target);
      Unindent();
      assert indentString == outer;
      WriteWithIndent([RBRACE]);
    }

    // The loop over the members, up to the text `target` but for its closing brace.
    method WriteMembers(value: Value, ghost outer: Bytes, ghost target: Bytes)
      requires Valid() && !addChildValues && !indented && indentString == outer + st.indentation
      requires value.payload.Object? && |value.payload.members| > 0
      requires sout + FromMember(StyledMembers(st, value, outer), 0) == target
      modifies this
      ensures Valid() && !addChildValues && !indented && indentString == old(indentString)
      ensures sout + Newline(st, outer) + [RBRACE] == target
      decreases 1, value, 3
    {
      hide Print, StyledSyntax, StyledMembers, AfterMember, MemberFront, CompactSyntax, Newline, MemberNames;
      hide PrintText, FromMember, Lead, StartsLine, Size, IsMultiline, IsFilled, LeafText;
      var m := value.payload.members;
      var names := MemberNames(m);
      ghost var members := StyledMembers(st, value, outer);
      var it := 0;
      while true
        invariant 0 <= it < |names| == |members|
        invariant Valid() && !addChildValues && !indented && indentString == outer + st.indentation
        invariant sout + FromMember(members, it) == target
        decreases |names| - it
      {
        ghost var before := sout;
        WriteMember(m, names[it], value, outer, it);
        it := it + 1;
        if it == |names| {
          LastMemberWritten(st, value, outer, before, sout);
          return;
        }
        MemberWritten(st, value, outer, it - 1, before, sout);
        sout := sout + [COMMA];
      }
    }

    // `writeWithIndent("{"); indent();`
    method OpenObject(value: Value, ghost members: seq<Member>)
      requires value.payload.Object? && value.payload.members != map[]
      requires members == StyledMembers(st, value, indentString)
      modifies this`sout, this`indented, this`indentString
      ensures !indented && indentString == old(indentString) + st.indentation
      ensures |members| == |MemberNames(value.payload.members)| > 0
      ensures sout + FromMember(members, 0)
              == old(sout) + Lead(st, value, old(indentString), old(indented))
                 + Print(StyledSyntax(st, value, old(indentString)))
    {
      hide Print, StyledSyntax, StyledMembers, AfterMember, MemberFront, CompactSyntax, Newline, Lead, StartsLine;
      hide MemberNames;
      StyledObjectPrint(st, value, indentString);
      LineStart(st, value, indentString, indented);
      RegroupOpen(sout, Lead(st, value, indentString, indented), [LBRACE],
               MemberFront(members[0]) + Print(members[0].value.v) + AfterMember(members, 0));
      WriteWithIndent([LBRACE]);
      Indent();
    }

    // A member: its key on a line of its own, the colon, and its value.
    method WriteMember(m: map<Bytes, Value>, name: Bytes, ghost value: Value, ghost outer: Bytes, ghost it: nat)
      requires Valid() && !addChildValues && !indented && indentString == outer + st.indentation
      requires value.payload == Object(m) && it < |m| && MemberNames(m)[it] == name
      modifies this
      ensures Valid() && !addChildValues && !indented && indentString == old(indentString)
      ensures var member := StyledMembers(st, value, outer)[it];
              sout == old(sout) + MemberFront(member) + Print(member.value.v)
      decreases 1, value, 2
    {
      hide Print, StyledSyntax, StyledMembers, CompactSyntax, Newline, QuoteChars, Quoted, Lead, StartsLine;
      hide MemberNames, Size, PrintText;
      var childValue := m[name];
      ghost var member := StyledMembers(st, value, outer)[it];
      StyledMember(st, value, outer, it);
      ghost var before := sout;
      var key := ValueToQuotedStringN(name);
      QuotedText(name);
      WriteWithIndent(key);
      sout := sout + (st.beforeColon + [COLON] + st.afterColon);
      FrontParts(before, member.before, key, st.beforeColon, st.afterColon, Lead(st, childValue, indentString, false));
      WriteValue(childValue);
    }

    method WriteArrayValue(value: Value)
      requires Valid() && !addChildValues && value.payload.Array? && Size(value.payload.elems) > 0
      modifies this
      ensures Valid() && addChildValues == old(addChildValues) && indentString == old(indentString)
      ensures WroteStyled(value)
      decreases 1, value, 4
    {
      hide Size;
      var m := value.payload.elems;
      var isMultiLine := st.allComments;
      if !isMultiLine {
        isMultiLine := IsMultilineArray(value);
      }
      if isMultiLine {
        WriteLines(value);
      } else {
        WriteSingleLine(value);
      }
    }

    /**
      `isMultilineArray`: afterwards the child buffer is empty, or holds exactly the texts of this
      array's own elements in order.
     */
    method IsMultilineArray(value: Value) returns (isMultiLine: bool)
      requires Valid() && !st.allComments && !addChildValues && value.payload.Array? && Size(value.payload.elems) > 0
      modifies this
      ensures Valid() && !addChildValues && indentString == old(indentString)
      ensures sout == old(sout) && indented == old(indented)
      ensures isMultiLine <==> IsMultiline(st, value.payload.elems)
      ensures childValues == if IsBuffered(value.payload.elems) then ChildTexts(st, value.payload.elems) else []
      decreases 1, value, 3
    {
      hide ChildTexts, IsFilled, Size;
      var m := value.payload.elems;
      var size := Size(m);
      isMultiLine := size * 3 >= RIGHT_MARGIN;
      childValues := [];
      var index := 0;
      while index < size && !isMultiLine
        invariant 0 <= index <= size
        invariant childValues == [] && sout == old(sout) && indentString == old(indentString)
        invariant isMultiLine <==> size * 3 >= RIGHT_MARGIN || exists i :: 0 <= i < index && IsFilled(ElementAt(m, i))
      {
        isMultiLine := IsFilled(ElementAt(m, index));
        index := index + 1;
      }
      if !isMultiLine {
        var lineLength := FillChildValues(value);
        isMultiLine := isMultiLine || lineLength >= RIGHT_MARGIN;
      }
    }

    // "check if line length > max line length": fills the buffer and adds up the line.
    method FillChildValues(value: Value) returns (lineLength: nat)
      requires Valid() && !st.allComments && !addChildValues && childValues == []
      requires value.payload.Array? && Size(value.payload.elems) > 0 && IsBuffered(value.payload.elems)
      modifies this
      ensures Valid() && !addChildValues && indentString == old(indentString)
      ensures sout == old(sout) && indented == old(indented)
      ensures childValues == ChildTexts(st, value.payload.elems)
      ensures lineLength == 4 + (Size(value.payload.elems) - 1) * 2 + TotalLength(childValues)
      decreases 1, value, 2
    {
      hide LeafText, IsFilled, WroteStyled, Size, IsMultiline, StartsLine, CompactSyntax, Print;
      var m := value.payload.elems;
      var size := Size(m);
      addChildValues := true;
      lineLength := 4 + (size - 1) * 2;
      for index := 0 to size
        invariant Valid() && addChildValues && indentString == old(indentString)
        invariant sout == old(sout) && indented == old(indented)
        invariant childValues == ChildTexts(st, m)[..index]
        invariant lineLength == 4 + (size - 1) * 2 + TotalLength(childValues)
      {
        WriteValue(ElementAt(m, index));
        assert childValues[..index] == ChildTexts(st, m)[..index];
        lineLength := lineLength + |childValues[index]|;
      }
      assert ChildTexts(st, m)[..size] == ChildTexts(st, m);
      addChildValues := false;
    }

    /** The multi-line branch of `writeArrayValue`. */
    method WriteLines(value: Value)
      requires Valid() && !addChildValues && value.payload.Array? && Size(value.payload.elems) > 0
      requires IsMultiline(st, value.payload.elems)
      requires childValues == [] || (childValues == ChildTexts(st, value.payload.elems) && IsBuffered(value.payload.elems))
      modifies this
      ensures Valid() && addChildValues == old(addChildValues) && indentString == old(indentString)
      ensures WroteStyled(value)
      decreases 1, value, 3
    {
      hide Print, StyledSyntax, StyledItems, AfterItem, CompactSyntax, Newline, Lead, StartsLine, IsMultiline;
      hide IsBuffered, ChildTexts, Size, TotalLength, LeafText;
      ghost var outer := indentString;
      ghost var items := StyledItems(st, value, indentString);
      StyledArrayPrint(st, value, indentString);
      ghost var lead := Lead(st, value, indentString, indented);
      ghost var target := sout + lead + Print(StyledSyntax(st, value, indentString));
      LineStart(st, value, indentString, indented);
      RegroupOpen(sout, lead, [LBRACKET], items[0].before + Print(items[0].v) + AfterItem(items, 0));
      WriteWithIndent([LBRACKET]);
      Indent();
      WriteItems(value, outer, target);
      Unindent();
      assert indentString == outer;
      WriteWithIndent([RBRACKET]);
    }

    // The loop over the elements, up to the text `target` but for its closing bracket.
    method WriteItems(value: Value, ghost outer: Bytes, ghost target: Bytes)
      requires Valid() && !addChildValues && !indented && indentString == outer + st.indentation
      requires value.payload.Array? && Size(value.payload.elems) > 0 && IsMultiline(st, value.payload.elems)
      requires childValues == [] || (childValues == ChildTexts(st, value.payload.elems) && IsBuffered(value.payload.elems))
      requires var items := StyledItems(st, value, outer);
               sout + (items[0].before + Print(items[0].v) + AfterItem(items, 0)) == target
      modifies this
      ensures Valid() && !addChildValues && !indented && indentString == old(indentString)
      ensures sout + (Newline(st, outer) + [RBRACKET]) == target
      decreases 1, value, 2
    {
      hide Print, StyledSyntax, StyledItems, AfterItem, CompactSyntax, Newline, Lead, StartsLine, IsMultiline;
      hide IsBuffered, ChildTexts, Size, TotalLength, LeafText;
      var size := Size(value.payload.elems);
      ghost var items := StyledItems(st, value, outer);
      var hasChildValue := childValues != [];
      var index := 0;
      while true
        invariant 0 <= index < size
        invariant Valid() && !addChildValues && !indented && indentString == outer + st.indentation
        invariant hasChildValue ==> childValues == ChildTexts(st, value.payload.elems) && IsBuffered(value.payload.elems)
        invariant sout + (items[index].before + Print(items[index].v) + AfterItem(items, index)) == target
        decreases size - index
      {
        ghost var before := sout;
        WriteLine(value, outer, index, hasChildValue);
        Regroup(before, items[index].before, Print(items[index].v), AfterItem(items, index));
        LinesItem(st, value, outer, index);
        index := index + 1;
        if index == size {
          AfterLastItem(items);
          return;
        }
        AfterItemStep(items, index - 1);
        CommaNext(sout, items[index].before + Print(items[index].v) + AfterItem(items, index));
        sout := sout + [COMMA];
      }
    }

    // One element on a line of its own, from the buffer or by recursion.
    method WriteLine(value: Value, ghost outer: Bytes, index: nat, hasChildValue: bool)
      requires Valid() && !addChildValues && !indented && indentString == outer + st.indentation
      requires value.payload.Array? && index < Size(value.payload.elems) && IsMultiline(st, value.payload.elems)
      requires hasChildValue ==> childValues == ChildTexts(st, value.payload.elems) && IsBuffered(value.payload.elems)
      modifies this
      ensures Valid() && !addChildValues && !indented && indentString == old(indentString)
      ensures hasChildValue ==> childValues == old(childValues)
      ensures var item := StyledItems(st, value, outer)[index];
              sout == old(sout) + item.before + Print(item.v)
      decreases 1, value, 1
    {
      hide Print, StyledItems, CompactSyntax, Newline, Size, ChildTexts, LeafText, IsBuffered, IsMultiline;
      hide StyledSyntax, StartsLine, IsFilled;
      var childValue := ElementAt(value.payload.elems, index);
      LinesItem(st, value, outer, index);
      if hasChildValue {
        ChildText(st, value.payload.elems, index);
        UnfilledText(st, childValue, indentString);
        WriteWithIndent(childValues[index]);
      } else {
        if !indented {
          WriteIndent();
        }
        indented := true;
        WriteValue(childValue);
        indented := false;
      }
    }

    /** The single-line branch of `writeArrayValue`. */
    method WriteSingleLine(value: Value)
      requires Valid() && !addChildValues && value.payload.Array? && Size(value.payload.elems) > 0
      requires !IsMultiline(st, value.payload.elems) && childValues == ChildTexts(st, value.payload.elems)
      modifies this`sout
      ensures WroteStyled(value)
    {
      hide Print, StyledSyntax, StyledItems, AfterItem, CompactSyntax, LeafText, IsMultiline, SingleSpace, Size;
      var size := Size(value.payload.elems);
      ghost var items := StyledItems(st, value, indentString);
      ghost var target := sout + Print(StyledSyntax(st, value, indentString));
      OpenSingleLine(value);
      for index := 0 to size
        invariant if index == 0 then sout + (Print(items[0].v) + AfterItem(items, 0)) == target
                  else sout + AfterItem(items, index - 1) == target
      {
        WriteNext(value, index);
      }
      AfterLastItem(items);
      SingleLineItem(st, value, indentString, size - 1);
      sout := sout + SingleSpace(st);
      sout := sout + [RBRACKET];
      NoLead(st, value, indentString, indented);
      assert old(sout) + Lead(st, value, indentString, indented) == old(sout);
      assert sout == target;
    }

    // `*sout_ << "["; if (!indentation_.empty()) *sout_ << " ";`
    method OpenSingleLine(value: Value)
      requires value.payload.Array? && Size(value.payload.elems) > 0 && !IsMultiline(st, value.payload.elems)
      modifies this`sout
      ensures var items := StyledItems(st, value, indentString);
              sout + (Print(items[0].v) + AfterItem(items, 0)) == old(sout) + Print(StyledSyntax(st, value, indentString))
    {
      hide Print, StyledSyntax, StyledItems, AfterItem, CompactSyntax, LeafText, IsMultiline, SingleSpace, Size;
      ghost var items := StyledItems(st, value, indentString);
      StyledArrayPrint(st, value, indentString);
      SingleLineItem(st, value, indentString, 0);
      Regroup(sout, [LBRACKET], items[0].before, Print(items[0].v) + AfterItem(items, 0));
      assert [LBRACKET] + (items[0].before + Print(items[0].v) + AfterItem(items, 0))
             == [LBRACKET] + items[0].before + (Print(items[0].v) + AfterItem(items, 0));
      sout := sout + [LBRACKET];
      sout := sout + SingleSpace(st);
    }

    // The separator before an element that is not the first, and its text.
    method WriteNext(value: Value, index: nat)
      requires value.payload.Array? && index < Size(value.payload.elems) && !IsMultiline(st, value.payload.elems)
      requires childValues == ChildTexts(st, value.payload.elems)
      modifies this`sout
      ensures var items := StyledItems(st, value, indentString);
              sout + AfterItem(items, index)
              == old(sout) + if index == 0 then Print(items[0].v) + AfterItem(items, 0) else AfterItem(items, index - 1)
    {
      hide Print, StyledSyntax, StyledItems, CompactSyntax, LeafText, IsMultiline, AfterItem, Size;
      ghost var items := StyledItems(st, value, indentString);
      SingleLineItem(st, value, indentString, index);
      ghost var before := sout;
      if index > 0 {
        SingleLineItem(st, value, indentString, index - 1);
        AfterItemStep(items, index - 1);
        sout := sout + (if st.indentation != [] then [COMMA, SPACE] else [COMMA]);
        assert sout == before + ([] + [COMMA] + items[index].before);
        SeparatorNext(before, items[index].before, Print(items[index].v), AfterItem(items, index));
      }
      sout := sout + childValues[index];
    }
  }

  lemma FrontParts(written: Bytes, before: Bytes, key: Bytes, beforeColon: Bytes, afterColon: Bytes, lead: Bytes)
    ensures written + [] + before + key + (beforeColon + [COLON] + afterColon) + lead
            == written + (before + key + beforeColon + [COLON] + (afterColon + lead))
    ensures written + before + key + (beforeColon + [COLON] + afterColon) + lead
            == written + (before + key + beforeColon + [COLON] + (afterColon + lead))
  {
  }

  // The buffered text of one element.
  lemma ChildText(st: Style, m: map<nat, Value>, i: nat)
    requires i < Size(m) && IsBuffered(m)
    ensures |ChildTexts(st, m)| == Size(m) && ChildTexts(st, m)[i] == LeafText(st, ElementAt(m, i))
    ensures !IsFilled(ElementAt(m, i))
  {
    hide Size, LeafText, IsFilled;
  }

  lemma NoLead(st: Style, v: Value, indent: Bytes, indented: bool)
    requires v.payload.Array? && !IsMultiline(st, v.payload.elems)
    ensures !StartsLine(st, v) && Lead(st, v, indent, indented) == []
  {
  }

  lemma SeparatorNext(written: Bytes, space: Bytes, text: Bytes, rest: Bytes)
    ensures written + ([] + [COMMA] + (space + text + rest)) == written + ([] + [COMMA] + space) + text + rest
  {
  }

  lemma Regroup(written: Bytes, a: Bytes, b: Bytes, rest: Bytes)
    ensures written + (a + b + rest) == written + a + b + rest
  {
  }

  lemma RegroupOpen(written: Bytes, lead: Bytes, open: Bytes, rest: Bytes)
    ensures written + lead + (open + rest) == written + lead + open + rest
  {
  }

  lemma LineStart(st: Style, v: Value, indent: Bytes, indented: bool)
    requires IsFilled(v) && (v.payload.Array? ==> IsMultiline(st, v.payload.elems))
    ensures StartsLine(st, v) && Lead(st, v, indent, indented) == if indented then [] else Newline(st, indent)
  {
  }

  lemma CommaNext(written: Bytes, rest: Bytes)
    ensures written + ([] + [COMMA] + rest) == written + [COMMA] + rest
  {
  }

  // The parts of the styled text of a container, for the methods above

  lemma StyledArrayPrint(st: Style, v: Value, indent: Bytes)
    requires v.payload.Array? && Size(v.payload.elems) > 0
    ensures var items := StyledItems(st, v, indent);
            Print(StyledSyntax(st, v, indent))
            == [LBRACKET] + (items[0].before + Print(items[0].v) + AfterItem(items, 0))
  {
    hide Size;
    ArraySyntaxPrint(StyledItems(st, v, indent));
  }

  lemma LinesItem(st: Style, v: Value, indent: Bytes, i: nat)
    requires v.payload.Array? && i < Size(v.payload.elems) && IsMultiline(st, v.payload.elems)
    ensures var items := StyledItems(st, v, indent); var inner := indent + st.indentation;
            && items[i].before == Newline(st, inner)
            && Print(items[i].v) == Print(StyledSyntax(st, ElementAt(v.payload.elems, i), inner))
            && items[i].after == if i < Size(v.payload.elems) - 1 then [] else Newline(st, indent)
  {
    hide Size;
  }

  lemma SingleLineItem(st: Style, v: Value, indent: Bytes, i: nat)
    requires v.payload.Array? && i < Size(v.payload.elems) && !IsMultiline(st, v.payload.elems)
    ensures var items := StyledItems(st, v, indent);
            && items[i].before == SingleSpace(st)
            && Print(items[i].v) == ChildTexts(st, v.payload.elems)[i]
            && items[i].after == if i < Size(v.payload.elems) - 1 then [] else SingleSpace(st)
  {
    hide Size;
    UnfilledText(st, ElementAt(v.payload.elems, i), indent + st.indentation);
  }

  lemma StyledObjectPrint(st: Style, v: Value, indent: Bytes)
    requires v.payload.Object? && v.payload.members != map[]
    ensures var members := StyledMembers(st, v, indent);
            && |members| == |MemberNames(v.payload.members)| > 0
            && Print(StyledSyntax(st, v, indent))
               == [LBRACE] + (MemberFront(members[0]) + Print(members[0].value.v) + AfterMember(members, 0))
  {
    hide MemberNames, Print, MemberFront, AfterMember, StyledMembers;
    assert |v.payload.members| > 0;
    ObjectTextPrints(StyledMembers(st, v, indent));
  }

  lemma StyledMember(st: Style, v: Value, indent: Bytes, i: nat)
    requires v.payload.Object? && i < |v.payload.members|
    ensures var m := v.payload.members; var k := MemberNames(m)[i]; var inner := indent + st.indentation;
            var member := StyledMembers(st, v, indent)[i];
            && k in m
            && member.before == Newline(st, inner) && member.key == QuoteChars(k) && member.beforeColon == st.beforeColon
            && member.value.before == st.afterColon + Lead(st, m[k], inner, false)
            && member.value.v == StyledSyntax(st, m[k], inner)
  {
  }

  lemma MiddleMember(st: Style, v: Value, indent: Bytes, i: nat)
    requires v.payload.Object? && i < |v.payload.members| - 1
    ensures StyledMembers(st, v, indent)[i].value.after == [] && StyledMembers(st, v, indent)[i + 1].lead == [COMMA]
  {
  }

  lemma LastMember(st: Style, v: Value, indent: Bytes)
    requires v.payload.Object? && |v.payload.members| > 0
    ensures StyledMembers(st, v, indent)[|v.payload.members| - 1].value.after == Newline(st, indent)
  {
  }
}
