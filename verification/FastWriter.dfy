/**
  `FastWriter`: appends to `document` as it walks the tree. What it appends is exactly the compact
  text of the value, and reading that text gives the value back.
 */
module FastWriter {
  import opened Basics
  import opened Grammar
  import opened Integers
  import opened JsonStrings
  import opened ReaderSpec
  import opened Values
  import opened WriterSyntax

  /** The text between the colon and the value. */
  function Gap(yaml: bool): Bytes {
    if yaml then [SPACE] else []
  }

  /** What is left to write of an array once `i` of its items are written. */
  function ItemsFrom(items: seq<Item>, i: nat): Bytes
    requires i <= |items|
  {
    if i == 0 && items != [] then PrintItem(items[0]) + PrintItemTail(items[1..]) else PrintItemTail(items[i..])
  }

  lemma ItemsFromStep(items: seq<Item>, i: nat)
    requires i < |items|
    ensures ItemsFrom(items, i) == (if i > 0 then [COMMA] else []) + PrintItem(items[i]) + ItemsFrom(items, i + 1)
  {
    hide PrintItem;
    assert items[i..][1..] == items[i + 1..];
    if i == 0 {
      assert ItemsFrom(items, 0) == [] + PrintItem(items[0]) + PrintItemTail(items[1..]);
    } else {
      assert items[i..][0] == items[i];
    }
  }

  function MembersFrom(members: seq<Member>, i: nat): Bytes
    requires i <= |members|
  {
    if i == 0 && members != [] then PrintMember(members[0]) + PrintMemberTail(members[1..], CLOSED)
    else PrintMemberTail(members[i..], CLOSED)
  }

  lemma MembersFromStep(members: seq<Member>, i: nat)
    requires i < |members| && (i > 0 ==> members[i].lead == [COMMA])
    ensures MembersFrom(members, i) == (if i > 0 then [COMMA] else []) + PrintMember(members[i]) + MembersFrom(members, i + 1)
  {
    hide PrintMember;
    assert members[i..][1..] == members[i + 1..];
    if i == 0 {
      assert MembersFrom(members, 0) == [] + PrintMember(members[0]) + PrintMemberTail(members[1..], CLOSED);
    } else {
      assert members[i..][0] == members[i];
    }
  }

  class FastWriter {
    const yamlCompatibilityEnabled: bool
    const dropNullPlaceholders: bool
    const omitEndingLineFeed: bool
    const show: ShowDouble
    var document: Bytes

    constructor (yaml: bool, dropNulls: bool, omitLineFeed: bool, show: ShowDouble)
      ensures yamlCompatibilityEnabled == yaml && dropNullPlaceholders == dropNulls
      ensures omitEndingLineFeed == omitLineFeed && this.show == show && document == []
    {
      yamlCompatibilityEnabled, dropNullPlaceholders, omitEndingLineFeed := yaml, dropNulls, omitLineFeed;
      this.show, document := show, [];
    }

    function Syntax(v: Value): Grammar.Syntax {
      CompactSyntax(v, dropNullPlaceholders, Gap(yamlCompatibilityEnabled), show)
    }

    method Write(root: Value) returns (text: Bytes)
      modifies this`document
      ensures text == document == Print(Syntax(root)) + (if omitEndingLineFeed then [] else [LF])
    {
      document := [];
      WriteValue(root);
      if !omitEndingLineFeed {
        document := document + [LF];
      }
      return document;
    }

    method WriteValue(value: Value)
      modifies this`document
      ensures document == old(document) + Print(Syntax(value))
      decreases if IsContainer(value) then 1 else 0, value, 3
    {
      match value.payload
      case Null =>
        if !dropNullPlaceholders {
          document := document + NULL_TEXT;
        }
      case Int(i) =>
        var text := ValueToStringSigned(i);
        document := document + text;
        IntegerPrint(i);
      case UInt(u) =>
        var text := ValueToStringUnsigned(u);
        document := document + text;
        IntegerPrint(u);
      case Real(d) =>
        document := document + show(d);
      case String(s) =>
        var text := ValueToQuotedStringN(s);
        document := document + text;
        QuotedText(s);
      case Boolean(b) =>
        document := document + (if b then TRUE_TEXT else FALSE_TEXT);
      case Array(m) =>
        WriteArray(value);
      case Object(m) =>
        WriteObject(value);
    }

    method WriteArray(value: Value)
      requires value.payload.Array?
      modifies this`document
      ensures document == old(document) + Print(Syntax(value))
      decreases 1, value, 2
    {
      hide ItemsFrom, Print, PrintItem, CompactSyntax, CompactItems, Size;
      var m := value.payload.elems;
      ghost var items := CompactItems(m, dropNullPlaceholders, Gap(yamlCompatibilityEnabled), show);
      ArrayTextPrint(value, dropNullPlaceholders, Gap(yamlCompatibilityEnabled), show);
      ghost var target := document + Print(Syntax(value));
      document := document + [LBRACKET];
      var size := Size(m);
      for index := 0 to size
        invariant document + ItemsFrom(items, index) == target
      {
        ItemAdded(document, items, index);
        if index > 0 {
          document := document + [COMMA];
        }
        WriteElement(m, index, value);
      }
      ItemsFromEnd(items);
      document := document + [RBRACKET];
    }

    // `writeValue(value[index])`
    method WriteElement(m: map<nat, Value>, index: nat, ghost value: Value)
      requires value.payload == Array(m) && index < Size(m)
      modifies this`document
      ensures document
              == old(document) + PrintItem(CompactItems(m, dropNullPlaceholders, Gap(yamlCompatibilityEnabled), show)[index])
      decreases 1, value, 1
    {
      hide CompactSyntax, Print, Size;
      ElementText(m, index, dropNullPlaceholders, Gap(yamlCompatibilityEnabled), show);
      WriteValue(ElementAt(m, index));
    }

    method WriteObject(value: Value)
      requires value.payload.Object?
      modifies this`document
      ensures document == old(document) + Print(Syntax(value))
      decreases 1, value, 2
    {
      hide MembersFrom, Print, PrintMember, CompactSyntax, CompactMembers, MemberNames, CompactMember;
      var m := value.payload.members;
      var names := MemberNames(m);
      ghost var members := CompactMembers(m, dropNullPlaceholders, Gap(yamlCompatibilityEnabled), show);
      ObjectTextPrint(value, dropNullPlaceholders, Gap(yamlCompatibilityEnabled), show);
      ghost var target := document + Print(Syntax(value));
      document := document + [LBRACE];
      for it := 0 to |names|
        invariant document + MembersFrom(members, it) == target
      {
        CompactLead(names[it], m[names[it]], dropNullPlaceholders, Gap(yamlCompatibilityEnabled), show);
        MemberAdded(document, members, it);
        if it > 0 {
          document := document + [COMMA];
        }
        WriteMember(m, names[it], value);
      }
      MembersFromEnd(members);
      document := document + [RBRACE];
    }

    // One member: its key, the colon and `writeValue(value[name])`.
    method WriteMember(m: map<Bytes, Value>, name: Bytes, ghost value: Value)
      requires value.payload == Object(m) && name in m
      modifies this`document
      ensures document == old(document) + PrintMember(CompactMember(name, m[name], dropNullPlaceholders, Gap(yamlCompatibilityEnabled), show))
      decreases 1, value, 1
    {
      hide Print, CompactSyntax, QuoteChars, PrintChars, Quoted;
      ghost var before := document;
      var key := ValueToQuotedStringN(name);
      QuotedText(name);
      document := document + key;
      document := document + (if yamlCompatibilityEnabled then [COLON, SPACE] else [COLON]);
      WriteValue(m[name]);
      assert document == before + PrintMember(CompactMember(name, m[name], dropNullPlaceholders, Gap(yamlCompatibilityEnabled), show));
    }
  }

  lemma ElementText(m: map<nat, Value>, index: nat, drop: bool, gap: Bytes, show: ShowDouble)
    requires index < Size(m)
    ensures PrintItem(CompactItems(m, drop, gap, show)[index]) == Print(CompactSyntax(ElementAt(m, index), drop, gap, show))
  {
    hide Size;
    assert CompactSyntax(NULL_VALUE, drop, gap, show) == NullSyntax(drop);
  }

  /** One more item, with its comma, takes the text from one position to the next. */
  lemma ItemAdded(written: Bytes, items: seq<Item>, i: nat)
    requires i < |items|
    ensures var comma := if i > 0 then [COMMA] else [];
            written + comma + PrintItem(items[i]) + ItemsFrom(items, i + 1) == written + ItemsFrom(items, i)
    ensures i == 0 ==> written + PrintItem(items[i]) + ItemsFrom(items, i + 1) == written + ItemsFrom(items, i)
  {
    hide PrintItem, ItemsFrom;
    ItemsFromStep(items, i);
  }

  lemma MemberAdded(written: Bytes, members: seq<Member>, i: nat)
    requires i < |members| && (i > 0 ==> members[i].lead == [COMMA])
    ensures var comma := if i > 0 then [COMMA] else [];
            written + comma + PrintMember(members[i]) + MembersFrom(members, i + 1) == written + MembersFrom(members, i)
    ensures i == 0 ==> written + PrintMember(members[i]) + MembersFrom(members, i + 1) == written + MembersFrom(members, i)
  {
    hide PrintMember, MembersFrom;
    MembersFromStep(members, i);
  }

  lemma ItemsFromEnd(items: seq<Item>)
    ensures ItemsFrom(items, |items|) == [RBRACKET]
  {
  }

  lemma MembersFromEnd(members: seq<Member>)
    ensures MembersFrom(members, |members|) == [RBRACE]
  {
  }

  lemma ObjectTextPrint(v: Value, drop: bool, gap: Bytes, show: ShowDouble)
    requires v.payload.Object?
    ensures Print(CompactSyntax(v, drop, gap, show))
            == [LBRACE] + MembersFrom(CompactMembers(v.payload.members, drop, gap, show), 0)
  {
    hide CompactSyntax, CompactMembers, PrintMember;
    CompactObject(v, drop, gap, show);
  }

  lemma IntegerPrint(n: int)
    ensures Print(IntegerSyntax(n)) == IntegerText(n)
  {
    var t := IntegerSyntax(n).n;
    assert PrintUnsigned(t) == Digits(Magnitude(n));
  }

  lemma QuotedText(s: Bytes)
    ensures PrintText(QuoteChars(s)) == Quoted(s)
  {
  }

  lemma ArrayTextPrint(v: Value, drop: bool, gap: Bytes, show: ShowDouble)
    requires v.payload.Array?
    ensures Print(CompactSyntax(v, drop, gap, show)) == [LBRACKET] + ItemsFrom(CompactItems(v.payload.elems, drop, gap, show), 0)
  {
    hide CompactSyntax, CompactItems, ArraySyntax, Print, ItemsFrom;
    CompactArray(v, drop, gap, show);
    LoneDropped(CompactItems(v.payload.elems, drop, gap, show));
  }

  lemma LoneDropped(items: seq<Item>)
    ensures Print(ArraySyntax(items)) == [LBRACKET] + ItemsFrom(items, 0)
  {
    if |items| == 1 && items[0].v.Dropped? {
      var before, after := items[0].before, items[0].after;
      assert PrintItem(items[0]) == before + after;
      assert ItemsFrom(items, 0) == PrintItem(items[0]) + [RBRACKET];
    } else if items == [] {
      assert ItemsFrom(items, 0) == [] + [RBRACKET];
    }
  }
}
