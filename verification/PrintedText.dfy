/**
  The texts the two writers print, as text: what stands where, byte by byte, with a value's own text given
  by recursion on the value alone. The writers are proved elsewhere to print syntax trees; here those
  trees print as these texts.
 */
module PrintedText {
  import opened Basics
  import opened FastWriter
  import opened Grammar
  import opened Integers
  import opened JsonStrings
  import opened StyledWriter
  import opened Values
  import opened WriterSyntax

  /** The parts with commas between them. */
  function Joined(parts: seq<Bytes>): Bytes {
    if parts == [] then []
    else if |parts| == 1 then parts[0]
    else parts[0] + Ascii(",") + Joined(parts[1..])
  }

  /** The decimal numeral of a number. */
  function Decimal(n: nat): Bytes {
    if n < 10 then [0x30 + n] else Decimal(n / 10) + [0x30 + n % 10]
  }

  function Numeral(n: int): Bytes {
    if n < 0 then Ascii("-") + Decimal(-n) else Decimal(n)
  }

  function NullWord(drop: bool): Bytes {
    if drop then [] else Ascii("null")
  }

  /** Nothing between the tokens, but one blank behind a colon for YAML. */
  function CompactText(v: Value, drop: bool, yaml: bool, show: ShowDouble): Bytes
    decreases v, 1
  {
    match v.payload
    case Null => NullWord(drop)
    case Int(i) => Numeral(i)
    case UInt(u) => Numeral(u)
    case Real(d) => show(d)
    case String(s) => Quoted(s)
    case Boolean(b) => if b then Ascii("true") else Ascii("false")
    case Array(_) => Ascii("[") + Joined(CompactElements(v, drop, yaml, show)) + Ascii("]")
    case Object(_) => Ascii("{") + Joined(CompactMemberTexts(v, drop, yaml, show)) + Ascii("}")
  }

  function CompactElements(v: Value, drop: bool, yaml: bool, show: ShowDouble): (parts: seq<Bytes>)
    requires v.payload.Array?
    ensures |parts| == Size(v.payload.elems)
    decreases v, 0
  {
    var m := v.payload.elems;
    seq(Size(m), i requires 0 <= i < Size(m) => if i in m then CompactText(m[i], drop, yaml, show) else NullWord(drop))
  }

  function CompactMemberTexts(v: Value, drop: bool, yaml: bool, show: ShowDouble): (parts: seq<Bytes>)
    requires v.payload.Object?
    ensures |parts| == |MemberNames(v.payload.members)|
    decreases v, 0
  {
    var m := v.payload.members;
    var ks := MemberNames(m);
    seq(|ks|, i requires 0 <= i < |ks| =>
      Quoted(ks[i]) + Ascii(if yaml then ": " else ":") + CompactText(m[ks[i]], drop, yaml, show))
  }

  function Copies(s: Bytes, n: nat): Bytes {
    if n == 0 then [] else Copies(s, n - 1) + s
  }

  /** A new line, `depth` levels in; without indentation there are no lines. */
  function NewLine(st: Style, depth: nat): Bytes {
    if st.indentation == [] then [] else [0x0A] + Copies(st.indentation, depth)
  }

  function Blank(st: Style): Bytes {
    if st.indentation == [] then [] else Ascii(" ")
  }

  /** An array or object with something in it. */
  predicate HasChildren(v: Value) {
    match v.payload
    case Array(m) => Size(m) > 0
    case Object(m) => |m| > 0
    case _ => false
  }

  /** The elements of an array on one line, with a blank behind each comma and inside each bracket. */
  function OneLine(st: Style, m: map<nat, Value>): Bytes {
    var parts := seq(Size(m), i requires 0 <= i < Size(m) =>
      Ascii(" ") + if i in m then CompactText(m[i], st.dropNulls, false, st.show) else NullWord(st.dropNulls));
    Ascii("[") + Joined(parts) + Ascii(" ]")
  }

  /** Few elements, none with children of its own, and less than 74 bytes on one line. */
  predicate FitsOneLine(st: Style, m: map<nat, Value>) {
    && !st.allComments && Size(m) * 3 < 74
    && (forall i :: 0 <= i < Size(m) && i in m ==> !HasChildren(m[i]))
    && |OneLine(st, m)| < 74
  }

  /** Whether a value begins a line of its own. */
  predicate BeginsLine(st: Style, v: Value) {
    HasChildren(v) && (v.payload.Array? ==> !FitsOneLine(st, v.payload.elems))
  }

  /**
    The indented text of a value `depth` levels in: every member begins a line, as does every element of an
    array that does not fit on one, a value that is spread over lines, and what closes them.
   */
  function IndentedText(st: Style, v: Value, depth: nat): Bytes
    decreases v, 1
  {
    match v.payload
    case Array(m) =>
      if Size(m) == 0 then Ascii("[]")
      else
        Ascii("[") + Joined(IndentedElements(st, v, depth))
        + (if !FitsOneLine(st, m) then NewLine(st, depth) else Blank(st)) + Ascii("]")
    case Object(m) =>
      if |m| == 0 then Ascii("{}")
      else Ascii("{") + Joined(IndentedMembers(st, v, depth)) + NewLine(st, depth) + Ascii("}")
    case _ => CompactText(v, st.dropNulls, false, st.show)
  }

  function IndentedElements(st: Style, v: Value, depth: nat): (parts: seq<Bytes>)
    requires v.payload.Array?
    ensures |parts| == Size(v.payload.elems)
    decreases v, 0
  {
    var m := v.payload.elems;
    var before := if FitsOneLine(st, m) then Blank(st) else NewLine(st, depth + 1);
    seq(Size(m), i requires 0 <= i < Size(m) =>
      before + if i in m then IndentedText(st, m[i], depth + 1) else NullWord(st.dropNulls))
  }

  function IndentedMembers(st: Style, v: Value, depth: nat): (parts: seq<Bytes>)
    requires v.payload.Object?
    ensures |parts| == |MemberNames(v.payload.members)|
    decreases v, 0
  {
    var m := v.payload.members;
    var ks := MemberNames(m);
    seq(|ks|, i requires 0 <= i < |ks| => MemberText(st, ks[i], m[ks[i]], IndentedText(st, m[ks[i]], depth + 1), depth))
  }

  /** A member of an object, up to what follows it. */
  function MemberText(st: Style, k: Bytes, child: Value, text: Bytes, depth: nat): Bytes {
    NewLine(st, depth + 1) + Quoted(k) + st.beforeColon + Ascii(":") + st.afterColon
    + (if BeginsLine(st, child) then NewLine(st, depth + 1) else []) + text
  }

  // Lists

  lemma {:induction false} JoinedItems(items: seq<Item>, parts: seq<Bytes>)
    requires |items| == |parts| > 0 && forall i :: 0 <= i < |items| ==> PrintItem(items[i]) == parts[i]
    ensures PrintItem(items[0]) + PrintItemTail(items[1..]) == Joined(parts) + Ascii("]")
    decreases |items|
  {
    hide PrintItem;
    if |items| > 1 {
      JoinedItems(items[1..], parts[1..]);
      assert items[1..][0] == items[1] && PrintItemTail(items[1..]) == [COMMA] + (PrintItem(items[1]) + PrintItemTail(items[1..][1..]));
    } else {
      assert PrintItemTail(items[1..]) == [RBRACKET];
    }
  }

  lemma {:induction false} JoinedMembers(members: seq<Member>, parts: seq<Bytes>)
    requires |members| == |parts| > 0
    requires forall i :: 0 <= i < |members| ==> PrintMember(members[i]) == parts[i] && members[i].lead == [COMMA]
    ensures PrintMember(members[0]) + PrintMemberTail(members[1..], CLOSED) == Joined(parts) + Ascii("}")
    decreases |members|
  {
    hide PrintMember;
    if |members| > 1 {
      JoinedMembers(members[1..], parts[1..]);
      assert members[1..][0] == members[1];
      assert PrintMemberTail(members[1..], CLOSED)
             == [COMMA] + (PrintMember(members[1]) + PrintMemberTail(members[1..][1..], CLOSED));
    } else {
      assert PrintMemberTail(members[1..], CLOSED) == [] + ([] + [RBRACE]);
    }
  }

  // What stands behind the last part may as well belong to it.
  lemma {:induction false} JoinedLast(parts: seq<Bytes>, others: seq<Bytes>, x: Bytes)
    requires |parts| == |others| > 0
    requires forall i :: 0 <= i < |parts| - 1 ==> others[i] == parts[i]
    requires others[|parts| - 1] == parts[|parts| - 1] + x
    ensures Joined(others) == Joined(parts) + x
    decreases |parts|
  {
    if |parts| > 1 {
      JoinedLast(parts[1..], others[1..], x);
    }
  }

  // The compact text

  lemma {:induction false} DecimalIs(n: nat)
    ensures Digits(n) == Decimal(n)
  {
    if n >= 10 {
      DecimalIs(n / 10);
    }
  }

  lemma WordsAre()
    ensures NULL_TEXT == Ascii("null") && TRUE_TEXT == Ascii("true") && FALSE_TEXT == Ascii("false")
    ensures [LBRACKET] == Ascii("[") && [RBRACKET] == Ascii("]") && [LBRACE] == Ascii("{") && [RBRACE] == Ascii("}")
    ensures [COMMA] == Ascii(",") && [COLON] == Ascii(":") && [SPACE] == Ascii(" ") && [MINUS] == Ascii("-")
  {
  }

  lemma LeafPrints(v: Value, drop: bool, yaml: bool, show: ShowDouble)
    requires !v.payload.Array? && !v.payload.Object?
    ensures Print(CompactSyntax(v, drop, Gap(yaml), show)) == CompactText(v, drop, yaml, show)
  {
    hide Quoted, QuoteChars, PrintText, PrintNumber, IntegerSyntax, Numeral, Ascii;
    WordsAre();
    match v.payload
    case Int(i) => NumeralPrints(i);
    case UInt(u) => NumeralPrints(u);
    case String(s) => QuotedText(s);
    case _ =>
  }

  lemma NumeralPrints(n: int)
    ensures Print(IntegerSyntax(n)) == Numeral(n)
  {
    hide Print, IntegerSyntax, Digits, Decimal;
    WordsAre();
    IntegerPrint(n);
    DecimalIs(Magnitude(n));
  }

  /** The compact syntax prints as the compact text. */
  lemma {:induction false} CompactPrints(v: Value, drop: bool, yaml: bool, show: ShowDouble)
    ensures Print(CompactSyntax(v, drop, Gap(yaml), show)) == CompactText(v, drop, yaml, show)
    decreases v
  {
    hide Size, MemberNames, CompactSyntax, CompactText, Print;
    match v.payload
    case Array(m) =>
      forall i | i in m ensures Print(CompactSyntax(m[i], drop, Gap(yaml), show)) == CompactText(m[i], drop, yaml, show) {
        CompactPrints(m[i], drop, yaml, show);
      }
      ArrayPrints(v, drop, yaml, show);
    case Object(m) =>
      forall k | k in m ensures Print(CompactSyntax(m[k], drop, Gap(yaml), show)) == CompactText(m[k], drop, yaml, show) {
        CompactPrints(m[k], drop, yaml, show);
      }
      ObjectPrints(v, drop, yaml, show);
    case _ => LeafPrints(v, drop, yaml, show);
  }

  // The parts of an array text, whether or not its one item is dropped.
  lemma ArraySyntaxParts(items: seq<Item>, parts: seq<Bytes>)
    requires |items| == |parts| && forall i :: 0 <= i < |items| ==> PrintItem(items[i]) == parts[i]
    ensures Print(ArraySyntax(items)) == Ascii("[") + Joined(parts) + Ascii("]")
  {
    hide Ascii, Joined;
    WordsAre();
    if items == [] || (|items| == 1 && items[0].v.Dropped?) {
      JoinedFew(parts);
      BareArray(items);
    } else {
      JoinedItems(items, parts);
      assert Print(ArraySyntax(items)) == [LBRACKET] + (PrintItem(items[0]) + PrintItemTail(items[1..]));
    }
  }

  lemma JoinedFew(parts: seq<Bytes>)
    requires |parts| <= 1
    ensures Joined(parts) == if parts == [] then [] else parts[0]
  {
  }

  // No items, or one of which nothing is left.
  lemma BareArray(items: seq<Item>)
    requires items == [] || (|items| == 1 && items[0].v.Dropped?)
    ensures Print(ArraySyntax(items)) == [LBRACKET] + (if items == [] then [] else PrintItem(items[0])) + [RBRACKET]
  {
    if items == [] {
      assert Print(ArrayText([], [])) == [LBRACKET] + ([] + [RBRACKET]);
    } else {
      assert PrintItem(items[0]) == items[0].before + ([] + items[0].after);
      assert Print(ArraySyntax(items)) == [LBRACKET] + (items[0].before + items[0].after + [RBRACKET]);
    }
  }

  lemma ObjectTextParts(members: seq<Member>, parts: seq<Bytes>)
    requires |members| == |parts|
    requires forall i :: 0 <= i < |members| ==> PrintMember(members[i]) == parts[i] && members[i].lead == [COMMA]
    ensures Print(ObjectText(members, CLOSED)) == Ascii("{") + Joined(parts) + Ascii("}")
  {
    hide Ascii, PrintMember;
    WordsAre();
    if members == [] {
      assert Print(ObjectText([], CLOSED)) == [LBRACE] + ([] + ([] + [RBRACE]));
    } else {
      JoinedMembers(members, parts);
      assert Print(ObjectText(members, CLOSED)) == [LBRACE] + (PrintMember(members[0]) + PrintMemberTail(members[1..], CLOSED));
    }
  }

  lemma NullPrints(drop: bool)
    ensures Print(NullSyntax(drop)) == NullWord(drop)
  {
    WordsAre();
  }

  lemma ArrayPrints(v: Value, drop: bool, yaml: bool, show: ShowDouble)
    requires v.payload.Array?
    requires var m := v.payload.elems;
             forall i :: i in m ==> Print(CompactSyntax(m[i], drop, Gap(yaml), show)) == CompactText(m[i], drop, yaml, show)
    ensures Print(CompactSyntax(v, drop, Gap(yaml), show)) == CompactText(v, drop, yaml, show)
  {
    hide Size, CompactSyntax, CompactText, Print, PrintItem, Joined, ArraySyntax, NullSyntax, Ascii;
    var m := v.payload.elems;
    var items := CompactItems(m, drop, Gap(yaml), show);
    var parts := seq(Size(m), i requires 0 <= i < Size(m) => CompactElement(m, i, drop, yaml, show));
    CompactArray(v, drop, Gap(yaml), show);
    forall i | 0 <= i < Size(m) ensures PrintItem(items[i]) == parts[i] {
      NullPrints(drop);
      BareItem(items[i]);
    }
    ArraySyntaxParts(items, parts);
    CompactArrayIs(v, drop, yaml, show, parts);
  }

  lemma BareItem(item: Item)
    requires item.before == [] && item.after == []
    ensures PrintItem(item) == Print(item.v)
  {
    hide Print;
  }

  function CompactElement(m: map<nat, Value>, i: nat, drop: bool, yaml: bool, show: ShowDouble): Bytes {
    if i in m then CompactText(m[i], drop, yaml, show) else NullWord(drop)
  }

  lemma CompactArrayIs(v: Value, drop: bool, yaml: bool, show: ShowDouble, parts: seq<Bytes>)
    requires v.payload.Array? && |parts| == Size(v.payload.elems)
    requires forall i :: 0 <= i < |parts| ==> parts[i] == CompactElement(v.payload.elems, i, drop, yaml, show)
    ensures CompactText(v, drop, yaml, show) == Ascii("[") + Joined(parts) + Ascii("]")
  {
    hide Size, Joined, Ascii, NullWord;
    var texts := CompactElements(v, drop, yaml, show);
    forall i | 0 <= i < |parts| ensures texts[i] == parts[i] {
    }
    assert texts == parts;
  }

  lemma ObjectPrints(v: Value, drop: bool, yaml: bool, show: ShowDouble)
    requires v.payload.Object?
    requires var m := v.payload.members;
             forall k :: k in m ==> Print(CompactSyntax(m[k], drop, Gap(yaml), show)) == CompactText(m[k], drop, yaml, show)
    ensures Print(CompactSyntax(v, drop, Gap(yaml), show)) == CompactText(v, drop, yaml, show)
  {
    hide MemberNames, CompactSyntax, Print, PrintMember, Joined, CompactMember, CompactText, Quoted, Gap, Ascii;
    var m := v.payload.members;
    var ks := MemberNames(m);
    var members := CompactMembers(m, drop, Gap(yaml), show);
    var parts := seq(|ks|, i requires 0 <= i < |ks| => CompactMemberText(ks[i], m[ks[i]], drop, yaml, show));
    CompactObject(v, drop, Gap(yaml), show);
    forall i | 0 <= i < |ks| ensures PrintMember(members[i]) == parts[i] && members[i].lead == [COMMA] {
      assert ks[i] in m;
      MemberPrints(ks[i], m[ks[i]], drop, yaml, show);
    }
    ObjectTextParts(members, parts);
    CompactObjectIs(v, drop, yaml, show, parts);
  }

  function CompactMemberText(k: Bytes, v: Value, drop: bool, yaml: bool, show: ShowDouble): Bytes {
    Quoted(k) + Ascii(if yaml then ": " else ":") + CompactText(v, drop, yaml, show)
  }

  lemma CompactObjectIs(v: Value, drop: bool, yaml: bool, show: ShowDouble, parts: seq<Bytes>)
    requires v.payload.Object? && |parts| == |MemberNames(v.payload.members)|
    requires var m := v.payload.members; var ks := MemberNames(m);
             forall i :: 0 <= i < |ks| ==> parts[i] == CompactMemberText(ks[i], m[ks[i]], drop, yaml, show)
    ensures CompactText(v, drop, yaml, show) == Ascii("{") + Joined(parts) + Ascii("}")
  {
    hide MemberNames, Joined, Quoted, Ascii;
    var texts := CompactMemberTexts(v, drop, yaml, show);
    forall i | 0 <= i < |parts| ensures texts[i] == parts[i] {
    }
    assert texts == parts;
  }

  lemma MemberPrints(k: Bytes, v: Value, drop: bool, yaml: bool, show: ShowDouble)
    requires Print(CompactSyntax(v, drop, Gap(yaml), show)) == CompactText(v, drop, yaml, show)
    ensures var member := CompactMember(k, v, drop, Gap(yaml), show);
            && member.lead == [COMMA]
            && PrintMember(member) == CompactMemberText(k, v, drop, yaml, show)
  {
    hide CompactSyntax, Print, CompactText, Quoted, QuoteChars, PrintText;
    QuotedText(k);
    WordsAre();
    var text := CompactText(v, drop, yaml, show);
    assert PrintItem(Item(Gap(yaml), CompactSyntax(v, drop, Gap(yaml), show), [])) == Gap(yaml) + (text + []);
    assert Ascii(if yaml then ": " else ":") == [COLON] + Gap(yaml);
    assert [] + (Quoted(k) + ([] + ([COLON] + (Gap(yaml) + (text + []))))) == Quoted(k) + ([COLON] + Gap(yaml)) + text;
  }

  // The indented text

  lemma NewLineIs(st: Style, depth: nat)
    ensures Newline(st, Copies(st.indentation, depth)) == NewLine(st, depth)
    ensures SingleSpace(st) == Blank(st)
    ensures Copies(st.indentation, depth) + st.indentation == Copies(st.indentation, depth + 1)
  {
    WordsAre();
  }

  lemma HasChildrenIs(v: Value)
    ensures IsFilled(v) <==> HasChildren(v)
  {
    hide Size;
  }

  // The length of what the buffer holds and of the line it would make.
  lemma {:induction false} JoinedLength(texts: seq<Bytes>, parts: seq<Bytes>)
    requires |texts| == |parts| > 0 && forall i :: 0 <= i < |texts| ==> |parts[i]| == 1 + |texts[i]|
    ensures |Joined(parts)| == TotalLength(texts) + 2 * |texts| - 1
    decreases |texts|
  {
    TotalFront(texts);
    if |texts| > 1 {
      JoinedLength(texts[1..], parts[1..]);
    }
  }

  lemma {:induction false} TotalFront(texts: seq<Bytes>)
    requires texts != []
    ensures TotalLength(texts) == |texts[0]| + TotalLength(texts[1..])
    decreases |texts|
  {
    if |texts| > 1 {
      var front := texts[..|texts| - 1];
      TotalFront(front);
      assert front[1..] == texts[1..][..|texts| - 2];
    } else {
      assert texts[..0] == [] && texts[1..] == [];
    }
  }

  lemma OneLineLength(st: Style, m: map<nat, Value>)
    requires Size(m) > 0
    ensures |OneLine(st, m)| == 4 + (Size(m) - 1) * 2 + TotalLength(ChildTexts(st, m))
  {
    hide Size, LeafText, CompactText, TotalLength, Joined;
    var texts := ChildTexts(st, m);
    var parts := seq(Size(m), i requires 0 <= i < Size(m) =>
      Ascii(" ") + if i in m then CompactText(m[i], st.dropNulls, false, st.show) else NullWord(st.dropNulls));
    forall i | 0 <= i < Size(m) ensures |parts[i]| == 1 + |texts[i]| {
      ElementLeaf(st, m, i);
    }
    JoinedLength(texts, parts);
  }

  lemma ElementLeaf(st: Style, m: map<nat, Value>, i: nat)
    ensures LeafText(st, ElementAt(m, i))
            == if i in m then CompactText(m[i], st.dropNulls, false, st.show) else NullWord(st.dropNulls)
  {
    hide CompactSyntax, CompactText, Print;
    CompactPrints(ElementAt(m, i), st.dropNulls, false, st.show);
    assert CompactText(NULL_VALUE, st.dropNulls, false, st.show) == NullWord(st.dropNulls) by { NullIs(st); }
  }

  lemma NullIs(st: Style)
    ensures CompactText(NULL_VALUE, st.dropNulls, false, st.show) == NullWord(st.dropNulls)
  {
  }

  /** The writer's decision, in terms of the text. */
  lemma FitsIs(st: Style, m: map<nat, Value>)
    requires Size(m) > 0
    ensures IsMultiline(st, m) <==> !FitsOneLine(st, m)
  {
    hide Size, OneLine, TotalLength, ChildTexts, IsFilled, HasChildren;
    OneLineLength(st, m);
    HasChildrenIs(NULL_VALUE);
    assert !HasChildren(NULL_VALUE) by { NullHasNone(); }
    forall i | 0 <= i < Size(m) ensures IsFilled(ElementAt(m, i)) <==> i in m && HasChildren(m[i]) {
      HasChildrenIs(ElementAt(m, i));
    }
  }

  lemma NullHasNone()
    ensures !HasChildren(NULL_VALUE)
  {
  }

  lemma BeginsLineIs(st: Style, v: Value)
    ensures StartsLine(st, v) <==> BeginsLine(st, v)
  {
    hide Size, FitsOneLine, IsMultiline;
    if v.payload.Array? && Size(v.payload.elems) > 0 {
      FitsIs(st, v.payload.elems);
    }
  }

  /** The indented syntax prints as the indented text. */
  lemma {:induction false} IndentedPrints(st: Style, v: Value, depth: nat)
    ensures Print(StyledSyntax(st, v, Copies(st.indentation, depth))) == IndentedText(st, v, depth)
    decreases v
  {
    hide Size, MemberNames, StyledSyntax, IndentedText, Print, Copies;
    match v.payload
    case Array(m) =>
      forall i | i in m
        ensures Print(StyledSyntax(st, m[i], Copies(st.indentation, depth + 1))) == IndentedText(st, m[i], depth + 1)
      {
        IndentedPrints(st, m[i], depth + 1);
      }
      IndentedArray(st, v, depth);
    case Object(m) =>
      forall k | k in m
        ensures Print(StyledSyntax(st, m[k], Copies(st.indentation, depth + 1))) == IndentedText(st, m[k], depth + 1)
      {
        IndentedPrints(st, m[k], depth + 1);
      }
      IndentedObject(st, v, depth);
    case _ => IndentedLeaf(st, v, depth);
  }

  lemma IndentedLeaf(st: Style, v: Value, depth: nat)
    requires !v.payload.Array? && !v.payload.Object?
    ensures Print(StyledSyntax(st, v, Copies(st.indentation, depth))) == IndentedText(st, v, depth)
  {
    hide CompactSyntax, CompactText, Print;
    CompactPrints(v, st.dropNulls, false, st.show);
  }

  lemma IndentedArray(st: Style, v: Value, depth: nat)
    requires v.payload.Array?
    requires var m := v.payload.elems;
             forall i :: i in m ==>
               Print(StyledSyntax(st, m[i], Copies(st.indentation, depth + 1))) == IndentedText(st, m[i], depth + 1)
    ensures Print(StyledSyntax(st, v, Copies(st.indentation, depth))) == IndentedText(st, v, depth)
  {
    hide Size, Print, PrintItem, Joined, ArraySyntax, NullSyntax, FitsOneLine, IsMultiline, Copies, NewLine, Newline, Blank, SingleSpace;
    hide IndentedText, Ascii, StyledItems, NullWord;
    var m := v.payload.elems;
    var n := Size(m);
    if n == 0 {
      EmptyArrayIs(st, v, depth);
    } else {
      var lines := !FitsOneLine(st, m);
      var parts := seq(n, i requires 0 <= i < n => IndentedElement(st, m, i, depth, lines));
      var tail := if lines then NewLine(st, depth) else Blank(st);
      var others := seq(n, i requires 0 <= i < n => if i < n - 1 then parts[i] else parts[i] + tail);
      var items := StyledItems(st, v, Copies(st.indentation, depth));
      FitsIs(st, m);
      forall i | 0 <= i < n ensures PrintItem(items[i]) == others[i] {
        StyledItem(st, v, depth, i);
        ItemText(items[i], parts[i], if i < n - 1 then [] else tail);
      }
      ArraySyntaxParts(items, others);
      JoinedLast(parts, others, tail);
      IndentedArrayIs(st, v, depth, parts);
    }
  }

  function IndentedElement(st: Style, m: map<nat, Value>, i: nat, depth: nat, lines: bool): Bytes {
    (if lines then NewLine(st, depth + 1) else Blank(st))
    + if i in m then IndentedText(st, m[i], depth + 1) else NullWord(st.dropNulls)
  }

  lemma EmptyArrayIs(st: Style, v: Value, depth: nat)
    requires v.payload.Array? && Size(v.payload.elems) == 0
    ensures Print(StyledSyntax(st, v, Copies(st.indentation, depth))) == IndentedText(st, v, depth)
  {
    hide Size;
    EmptyPrints();
  }

  // An item of the indented array and what stands around it.
  lemma StyledItem(st: Style, v: Value, depth: nat, i: nat)
    requires v.payload.Array? && i < Size(v.payload.elems)
    requires var m := v.payload.elems;
             forall j :: j in m ==>
               Print(StyledSyntax(st, m[j], Copies(st.indentation, depth + 1))) == IndentedText(st, m[j], depth + 1)
    ensures var m := v.payload.elems; var lines := IsMultiline(st, m);
            var item := StyledItems(st, v, Copies(st.indentation, depth))[i];
            && IndentedElement(st, m, i, depth, lines) == item.before + Print(item.v)
            && item.after == if i < Size(m) - 1 then [] else if lines then NewLine(st, depth) else Blank(st)
  {
    hide Size, Print, NullSyntax, IsMultiline, Copies, NewLine, Newline, Blank, SingleSpace, IndentedText, StyledSyntax;
    NewLineIs(st, depth);
    NewLineIs(st, depth + 1);
    NullPrints(st.dropNulls);
  }

  lemma IndentedArrayIs(st: Style, v: Value, depth: nat, parts: seq<Bytes>)
    requires v.payload.Array? && |parts| == Size(v.payload.elems) > 0
    requires var m := v.payload.elems;
             forall i :: 0 <= i < |parts| ==> parts[i] == IndentedElement(st, m, i, depth, !FitsOneLine(st, m))
    ensures var tail := if !FitsOneLine(st, v.payload.elems) then NewLine(st, depth) else Blank(st);
            IndentedText(st, v, depth) == Ascii("[") + (Joined(parts) + tail) + Ascii("]")
  {
    hide Size, Joined, Ascii, NullWord, FitsOneLine, NewLine, Blank;
    var texts := IndentedElements(st, v, depth);
    forall i | 0 <= i < |parts| ensures texts[i] == parts[i] {
    }
    assert texts == parts;
  }

  lemma ItemText(item: Item, part: Bytes, tail: Bytes)
    requires part == item.before + Print(item.v) && item.after == tail
    ensures PrintItem(item) == if tail == [] then part else part + tail
  {
    hide Print;
    assert item.before + (Print(item.v) + item.after) == part + tail;
  }

  lemma EmptyPrints()
    ensures Print(ArrayText([], [])) == Ascii("[]") && Print(ObjectText([], CLOSED)) == Ascii("{}")
  {
    assert Print(ArrayText([], [])) == [LBRACKET] + ([] + [RBRACKET]);
    assert Print(ObjectText([], CLOSED)) == [LBRACE] + ([] + ([] + [RBRACE]));
  }

  lemma MemberTextIs(st: Style, member: Member, k: Bytes, child: Value, text: Bytes, depth: nat)
    requires member.before == NewLine(st, depth + 1) && member.key == QuoteChars(k) && member.beforeColon == st.beforeColon
    requires member.value.before == st.afterColon + (if BeginsLine(st, child) then NewLine(st, depth + 1) else [])
    requires Print(member.value.v) == text
    ensures PrintMember(member) == MemberText(st, k, child, text, depth) + member.value.after
  {
    hide Print, PrintText, Quoted, QuoteChars, NewLine, BeginsLine;
    QuotedText(k);
    WordsAre();
    var lead := if BeginsLine(st, child) then NewLine(st, depth + 1) else [];
    var nl, q, b, a, after := NewLine(st, depth + 1), Quoted(k), st.beforeColon, st.afterColon, member.value.after;
    assert PrintItem(member.value) == (a + lead) + (text + after);
    assert nl + (q + (b + ([COLON] + ((a + lead) + (text + after))))) == nl + q + b + [COLON] + a + lead + text + after;
  }

  lemma IndentedObject(st: Style, v: Value, depth: nat)
    requires v.payload.Object?
    requires var m := v.payload.members;
             forall k :: k in m ==>
               Print(StyledSyntax(st, m[k], Copies(st.indentation, depth + 1))) == IndentedText(st, m[k], depth + 1)
    ensures Print(StyledSyntax(st, v, Copies(st.indentation, depth))) == IndentedText(st, v, depth)
  {
    hide MemberNames, Print, Joined, Copies, NewLine, Newline, PrintMember, Quoted, BeginsLine, StartsLine, MemberText;
    var m := v.payload.members;
    if m == map[] {
      EmptyPrints();
    } else {
      assert |m| > 0;
      var indent := Copies(st.indentation, depth);
      var ks := MemberNames(m);
      var n := |ks|;
      var members := StyledMembers(st, v, indent);
      NewLineIs(st, depth);
      NewLineIs(st, depth + 1);
      var parts := seq(n, i requires 0 <= i < n =>
        MemberText(st, ks[i], m[ks[i]], IndentedText(st, m[ks[i]], depth + 1), depth));
      var others := seq(n, i requires 0 <= i < n => if i < n - 1 then parts[i] else parts[i] + NewLine(st, depth));
      forall i | 0 <= i < n ensures PrintMember(members[i]) == others[i] && members[i].lead == [COMMA] {
        StyledMember(st, v, indent, i);
        BeginsLineIs(st, m[ks[i]]);
        MemberTextIs(st, members[i], ks[i], m[ks[i]], IndentedText(st, m[ks[i]], depth + 1), depth);
        assert members[i].value.after == if i < n - 1 then [] else NewLine(st, depth);
      }
      ObjectTextParts(members, others);
      JoinedLast(parts, others, NewLine(st, depth));
      ObjectTextIs(st, v, depth, parts);
    }
  }

  lemma ObjectTextIs(st: Style, v: Value, depth: nat, parts: seq<Bytes>)
    requires v.payload.Object? && |v.payload.members| > 0 && |parts| == |MemberNames(v.payload.members)|
    requires var m := v.payload.members; var ks := MemberNames(m);
             forall i :: 0 <= i < |ks| ==> parts[i] == MemberText(st, ks[i], m[ks[i]], IndentedText(st, m[ks[i]], depth + 1), depth)
    ensures IndentedText(st, v, depth) == Ascii("{") + (Joined(parts) + NewLine(st, depth)) + Ascii("}")
  {
    hide MemberNames, Joined, NewLine, Quoted, BeginsLine, Ascii, MemberText;
    var texts := IndentedMembers(st, v, depth);
    forall i | 0 <= i < |parts| ensures texts[i] == parts[i] {
    }
    assert texts == parts;
  }

  /** The whole text of the indenting writer. */
  lemma StyledPrints(st: Style, v: Value)
    ensures Print(StyledSyntax(st, v, [])) == IndentedText(st, v, 0)
  {
    IndentedPrints(st, v, 0);
  }

  /** The three colons of the builder. */
  lemma ColonIs(indentation: Bytes, allComments: bool, yaml: bool, drop: bool, show: ShowDouble)
    ensures var st := BuildStyle(indentation, allComments, yaml, drop, show);
            st.beforeColon + Ascii(":") + st.afterColon
            == if yaml then Ascii(": ") else if indentation == [] then Ascii(":") else Ascii(" : ")
  {
  }
}
