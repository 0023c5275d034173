/**
  JSON texts as syntax trees (section 2 of RFC 8259): every blank, every comment and every escape is
  a choice of the tree, `Print` is the text, `Denote` the value the text stands for. Leniencies of the
  reader are part of the trees: comments where it skips them, a dropped null placeholder, leading zeros
  and missing digits, and a surrogate pair whose second half is any escape.
 */
module Grammar {
  import opened Basics
  import opened Gaps
  import opened Integers
  import opened JsonStrings
  import opened Lexer
  import opened Values

  // The reader's features, and the two C library conversions it delegates real numbers to.
  datatype Settings = Settings(f: Features, scan: Bytes -> Option<Double>, show: Double -> Bytes)

  datatype Exponent = Exponent(letter: Byte, sign: Bytes, digits: Bytes)

  datatype NumberText = NumberText(negative: bool, whole: Bytes, fraction: Option<Bytes>, exponent: Option<Exponent>)

  datatype Syntax =
    | NullText
    | TrueText
    | FalseText
    | Dropped
    | Number(n: NumberText)
    | Unparsed(text: Bytes)  // what the C library printed for a double; outside the grammar modelled here
    | Text(cs: seq<StringChar>)
    | ArrayText(items: seq<Item>, blank: Bytes)
    | ObjectText(members: seq<Member>, end: Closing)

  datatype Item = Item(before: Bytes, v: Syntax, after: Bytes)

  // A member, and the token that stands for the comma in front of it when it is not the first.
  datatype Member = Member(lead: Bytes, before: Bytes, key: seq<StringChar>, beforeColon: Bytes, value: Item)

  // What stands between the last member of an object and its brace: nothing, or a token that stands for a comma
  // and a gap; or the gap in an object without members.
  datatype Closing = Closing(lead: Bytes, gap: Bytes)

  const CLOSED := Closing([], [])

  // Text

  function PrintFraction(fraction: Option<Bytes>): Bytes {
    if fraction.None? then [] else [DOT] + fraction.value
  }

  function PrintExponent(e: Option<Exponent>): Bytes {
    if e.None? then [] else [e.value.letter] + (e.value.sign + e.value.digits)
  }

  function PrintUnsigned(n: NumberText): Bytes {
    n.whole + (PrintFraction(n.fraction) + PrintExponent(n.exponent))
  }

  function PrintNumber(n: NumberText): Bytes {
    if n.negative then [MINUS] + PrintUnsigned(n) else PrintUnsigned(n)
  }

  function PrintText(cs: seq<StringChar>): Bytes {
    [QUOTE] + (PrintChars(cs) + [QUOTE])
  }

  function Print(c: Syntax): Bytes
    decreases c, 1
  {
    match c
    case NullText => NULL_TEXT
    case TrueText => TRUE_TEXT
    case FalseText => FALSE_TEXT
    case Dropped => []
    case Number(n) => PrintNumber(n)
    case Unparsed(text) => text
    case Text(cs) => PrintText(cs)
    case ArrayText(items, blank) =>
      [LBRACKET] + (if items == [] then blank + [RBRACKET] else PrintItem(items[0]) + PrintItemTail(items[1..]))
    case ObjectText(members, end) =>
      [LBRACE] + (if members == [] then PrintMemberTail([], end)
                  else PrintMember(members[0]) + PrintMemberTail(members[1..], end))
  }

  function PrintItem(item: Item): Bytes
    decreases item, 2
  {
    item.before + (Print(item.v) + item.after)
  }

  /** The rest of an array after one of its items. */
  function PrintItemTail(items: seq<Item>): Bytes
    decreases items, 0
  {
    if items == [] then [RBRACKET] else [COMMA] + (PrintItem(items[0]) + PrintItemTail(items[1..]))
  }

  function PrintMember(m: Member): Bytes
    decreases m, 2
  {
    m.before + (PrintText(m.key) + (m.beforeColon + ([COLON] + PrintItem(m.value))))
  }

  /** The rest of an object after one of its members. */
  function PrintMemberTail(members: seq<Member>, end: Closing): Bytes
    decreases members, 0
  {
    if members == [] then end.lead + (end.gap + [RBRACE])
    else members[0].lead + (PrintMember(members[0]) + PrintMemberTail(members[1..], end))
  }

  // Well-formedness

  /** What the scanner takes for a number: it wants a digit or a minus sign in front, and no digit elsewhere. */
  predicate WellFormedNumber(n: NumberText) {
    && (n.whole != [] || n.negative) && AllDigits(n.whole)
    && (n.fraction.Some? ==> AllDigits(n.fraction.value))
    && (n.exponent.Some? ==>
          var e := n.exponent.value;
          && IsExponent(e.letter)
          && (e.sign == [] || e.sign == [PLUS] || e.sign == [MINUS])
          && AllDigits(e.digits))
  }

  /** An integer in range is exact; anything else is whatever the C library makes of its text. */
  function NumberMeaning(n: NumberText, scan: Bytes -> Option<Double>): Option<Payload>
    requires WellFormedNumber(n)
  {
    var magnitude: int := NatOf(n.whole);
    if n.fraction.None? && n.exponent.None? && n.negative && magnitude <= TWO_TO_THE_63 then Some(Int(-magnitude))
    else if n.fraction.None? && n.exponent.None? && !n.negative && magnitude < TWO_TO_THE_64 then
      Some(NaturalPayload(magnitude))
    else
      match scan(PrintNumber(n))
      case Some(d) => Some(Real(d))
      case None => None
  }

  // JSONCPP limits keys to 30 bits of length.
  const KEY_LIMIT := 0x4000_0000

  predicate WellFormedKey(key: seq<StringChar>) {
    WellFormedChars(key) && |CharsMeaning(key)| < KEY_LIMIT
  }

  /** The bytes of a member's key. */
  function KeyOf(m: Member): Bytes {
    if WellFormedChars(m.key) then CharsMeaning(m.key) else []
  }

  predicate HasKey(members: seq<Member>, key: Bytes) {
    members != [] && (KeyOf(members[0]) == key || HasKey(members[1..], key))
  }

  predicate DistinctKeys(members: seq<Member>) {
    members == [] || (!HasKey(members[1..], KeyOf(members[0])) && DistinctKeys(members[1..]))
  }

  /**
    What may stand around a value. Comments before it, or in place of a dropped one, must be allowed;
    the loops of arrays and objects skip those behind it in any case.
   */
  predicate ItemGaps(item: Item, early: Comments, late: Comments) {
    IsGap(item.before, early) && IsGap(item.after, if item.v.Dropped? then early else late)
  }

  // A lone dropped null needs a comment, or the brackets would be empty.
  predicate IsEmptyItem(item: Item) {
    item.v.Dropped? && AllBlank(item.before) && AllBlank(item.after)
  }

  // The features that tell tokens apart; the others are given no part in it.
  function Scanning(f: Features): Features {
    Features(false, false, false, false, f.allowSingleQuotes, false, false, f.allowSpecialFloats, 0)
  }

  /** A whole token that is not a closing brace, nor a NUL, which ends the input. */
  predicate IsAnyToken(s: Bytes, f: Features) {
    && s != [] && !IsBlank(s[0])
    && var (typ, scan) := Classify(s, f, 0);
       scan == (true, |s|) && typ != CommentToken && typ != ObjectEnd && typ != EndOfStream && typ != ErrorToken
  }

  /** What may stand between the value of a member and the next: a comma, or behind a comment any token. */
  predicate Separates(lead: Bytes, value: Item, f: Features) {
    || lead == [COMMA]
    || (!value.v.Dropped? && !AllBlank(value.after) && IsAnyToken(lead, Scanning(f)))
  }

  /** A separator may stand before the closing brace only behind a member whose key is empty. */
  predicate Closes(members: seq<Member>, end: Closing, f: Features) {
    if members == [] then end.lead == []
    else
      var last := members[|members| - 1];
      end == CLOSED || (KeyOf(last) == [] && Separates(end.lead, last.value, f))
  }

  predicate WellFormed(c: Syntax, g: Settings)
    decreases c, 1
  {
    match c
    case NullText => true
    case TrueText => true
    case FalseText => true
    case Dropped => g.f.allowDroppedNullPlaceholders
    case Number(n) => WellFormedNumber(n) && NumberMeaning(n, g.scan).Some?
    case Unparsed(_) => false
    case Text(cs) => WellFormedChars(cs)
    case ArrayText(items, blank) =>
      AllBlank(blank) && (|items| == 1 ==> !IsEmptyItem(items[0])) && WellFormedItems(items, g)
    case ObjectText(members, end) =>
      && WellFormedMembers(members, g) && (g.f.rejectDupKeys ==> DistinctKeys(members))
      && IsGap(end.gap, Skipped(g.f)) && Closes(members, end, g.f)
  }

  predicate WellFormedItems(items: seq<Item>, g: Settings)
    decreases items, 0
  {
    || items == []
    || (ItemGaps(items[0], Early(g.f), Skipped(g.f)) && WellFormed(items[0].v, g)
        && WellFormedItems(items[1..], g))
  }

  predicate WellFormedMembers(members: seq<Member>, g: Settings)
    decreases members, 0
  {
    || members == []
    || (IsGap(members[0].before, Skipped(g.f)) && WellFormedKey(members[0].key) && AllBlank(members[0].beforeColon)
        && ItemGaps(members[0].value, Early(g.f), Skipped(g.f)) && WellFormed(members[0].value.v, g)
        && (members[1..] != [] ==> Separates(members[1].lead, members[0].value, g.f))
        && WellFormedMembers(members[1..], g))
  }

  // Meaning

  function Denote(c: Syntax, g: Settings): Value
    requires WellFormed(c, g)
    decreases c, 1
  {
    Value(match c
          case NullText => Null
          case Dropped => Null
          case Unparsed(_) => Null
          case TrueText => Boolean(true)
          case FalseText => Boolean(false)
          case Number(n) => NumberMeaning(n, g.scan).value
          case Text(cs) => String(CharsMeaning(cs))
          case ArrayText(items, _) => Array(DenoteItems(map[], 0, items, g))
          case ObjectText(members, _) => Object(DenoteMembers(map[], members, g)),
          0, 0)
  }

  /** Items in order, from index `n` on. */
  function DenoteItems(m: map<nat, Value>, n: nat, items: seq<Item>, g: Settings): map<nat, Value>
    requires WellFormedItems(items, g)
    decreases items, 0
  {
    if items == [] then m else DenoteItems(m[n := Denote(items[0].v, g)], n + 1, items[1..], g)
  }

  /** Members in order, on top of what is already there. */
  function DenoteMembers(m: map<Bytes, Value>, members: seq<Member>, g: Settings): map<Bytes, Value>
    requires WellFormedMembers(members, g)
    decreases members, 0
  {
    if members == [] then m
    else DenoteMembers(m[KeyOf(members[0]) := Denote(members[0].value.v, g)], members[1..], g)
  }

  /** An array text denotes the sequence of its items: hole-free, each item at its own index. */
  lemma {:induction false} DenoteItemsAt(m: map<nat, Value>, n: nat, items: seq<Item>, g: Settings, i: nat)
    requires WellFormedItems(items, g)
    ensures var r := DenoteItems(m, n, items, g);
            if n <= i < n + |items| then
              i in r && WellFormed(items[i - n].v, g) && r[i] == Denote(items[i - n].v, g)
            else (i in r <==> i in m) && (i in m ==> r[i] == m[i])
    decreases |items|
  {
    hide WellFormed, Denote, ItemGaps;
    if items != [] {
      DenoteItemsAt(m[n := Denote(items[0].v, g)], n + 1, items[1..], g, i);
    }
  }

  predicate IsLastWithKey(members: seq<Member>, key: Bytes, k: nat) {
    k < |members| && KeyOf(members[k]) == key && !HasKey(members[k + 1..], key)
  }

  lemma {:induction false} LastWithKey(members: seq<Member>, g: Settings, key: Bytes) returns (k: nat)
    requires WellFormedMembers(members, g) && HasKey(members, key)
    ensures IsLastWithKey(members, key, k) && WellFormed(members[k].value.v, g)
    decreases |members|
  {
    if HasKey(members[1..], key) {
      var j := LastWithKey(members[1..], g, key);
      k := j + 1;
      assert members[1..][j + 1..] == members[k + 1..];
    } else {
      k := 0;
    }
  }

  /** An object text gives a key the value of its last member with that key: later duplicates win. */
  lemma {:induction false} LastDuplicateWins(m: map<Bytes, Value>, members: seq<Member>, g: Settings, key: Bytes, k: nat)
    requires WellFormedMembers(members, g)
    requires HasKey(members, key) ==> IsLastWithKey(members, key, k) && WellFormed(members[k].value.v, g)
    ensures var r := DenoteMembers(m, members, g);
            if HasKey(members, key) then key in r && r[key] == Denote(members[k].value.v, g)
            else (key in r <==> key in m) && (key in m ==> r[key] == m[key])
    decreases |members|
  {
    if members != [] {
      var rest := members[1..];
      var m1 := m[KeyOf(members[0]) := Denote(members[0].value.v, g)];
      if HasKey(rest, key) {
        assert rest[k - 1 + 1..] == members[k + 1..];
        LastDuplicateWins(m1, rest, g, key, k - 1);
      } else {
        LastDuplicateWins(m1, rest, g, key, 0);
        if HasKey(members, key) && k > 0 {
          HasKeyIff(rest, key);
        }
      }
    }
  }

  /** In an object read into an empty one, every key that occurs has the value of its last member. */
  lemma LastMemberWins(members: seq<Member>, g: Settings, key: Bytes) returns (k: nat)
    requires WellFormedMembers(members, g) && HasKey(members, key)
    ensures IsLastWithKey(members, key, k) && WellFormed(members[k].value.v, g)
    ensures var r := DenoteMembers(map[], members, g); key in r && r[key] == Denote(members[k].value.v, g)
  {
    k := LastWithKey(members, g, key);
    LastDuplicateWins(map[], members, g, key, k);
  }

  lemma {:induction false} HasKeyIff(members: seq<Member>, key: Bytes)
    ensures HasKey(members, key) <==> exists i :: 0 <= i < |members| && KeyOf(members[i]) == key
    decreases |members|
  {
    hide KeyOf;
    if members != [] {
      HasKeyIff(members[1..], key);
      assert forall i :: 0 < i < |members| ==> members[i] == members[1..][i - 1];
    }
  }

  lemma {:induction false} DistinctKeysAt(members: seq<Member>)
    ensures DistinctKeys(members) <==> forall i, j :: 0 <= i < j < |members| ==> KeyOf(members[i]) != KeyOf(members[j])
    decreases |members|
  {
    hide KeyOf;
    if members != [] {
      DistinctKeysAt(members[1..]);
      HasKeyIff(members[1..], KeyOf(members[0]));
      assert forall i :: 0 < i < |members| ==> members[i] == members[1..][i - 1];
    }
  }

  /** How deep the reader's node stack gets. */
  function Depth(c: Syntax): (d: nat)
    ensures d > 0
    decreases c, 1
  {
    match c
    case ArrayText(items, _) => 1 + ItemsDepth(items)
    case ObjectText(members, _) => 1 + MembersDepth(members)
    case _ => 1
  }

  function ItemsDepth(items: seq<Item>): nat
    decreases items, 0
  {
    if items == [] then 0
    else
      var d, rest := Depth(items[0].v), ItemsDepth(items[1..]);
      if d > rest then d else rest
  }

  function MembersDepth(members: seq<Member>): nat
    decreases members, 0
  {
    if members == [] then 0
    else
      var d, rest := Depth(members[0].value.v), MembersDepth(members[1..]);
      if d > rest then d else rest
  }

  // Blanks do not matter

  /** The same text without any optional blank. */
  function Compact(c: Syntax): Syntax
    decreases c
  {
    match c
    case ArrayText(items, _) =>
      ArrayText(seq(|items|, i requires 0 <= i < |items| => Item([], Compact(items[i].v), [])), [])
    case ObjectText(members, _) =>
      ObjectText(seq(|members|, i requires 0 <= i < |members| =>
        Member([COMMA], [], members[i].key, [], Item([], Compact(members[i].value.v), []))), CLOSED)
    case _ => c
  }

  /** Commas and nothing else between the members. */
  predicate PlainSeparators(members: seq<Member>, end: Closing) {
    && (forall i :: 0 <= i < |members| ==> members[i].lead == [COMMA])
    && end.lead == [] && (members != [] ==> end.gap == [])
  }

  /** Everything the tree calls a blank is one. */
  predicate BlanksAreBlank(c: Syntax)
    decreases c
  {
    match c
    case ArrayText(items, blank) =>
      && AllBlank(blank)
      && forall i :: 0 <= i < |items| ==>
           AllBlank(items[i].before) && AllBlank(items[i].after) && BlanksAreBlank(items[i].v)
    case ObjectText(members, end) =>
      && PlainSeparators(members, end) && AllBlank(end.gap)
      && forall i :: 0 <= i < |members| ==>
           && AllBlank(members[i].before) && AllBlank(members[i].beforeColon)
           && AllBlank(members[i].value.before) && AllBlank(members[i].value.after)
           && BlanksAreBlank(members[i].value.v)
    case _ => true
  }

  /** Between the tokens there are only blanks, and comments where the reader skips them. */
  predicate GapsInPlace(c: Syntax, early: Comments, late: Comments)
    decreases c
  {
    match c
    case ArrayText(items, blank) =>
      && AllBlank(blank)
      && forall i :: 0 <= i < |items| ==> ItemGaps(items[i], early, late) && GapsInPlace(items[i].v, early, late)
    case ObjectText(members, end) =>
      && PlainSeparators(members, end) && IsGap(end.gap, late)
      && forall i :: 0 <= i < |members| ==>
           && IsGap(members[i].before, late) && AllBlank(members[i].beforeColon)
           && ItemGaps(members[i].value, early, late) && GapsInPlace(members[i].value.v, early, late)
    case _ => true
  }

  lemma BlankItem(item: Item, early: Comments, late: Comments)
    requires AllBlank(item.before) && AllBlank(item.after)
    ensures ItemGaps(item, early, late)
  {
    BlankIsGap(item.before, early);
    BlankIsGap(item.after, if item.v.Dropped? then early else late);
  }

  lemma {:induction false} BlanksAreGaps(c: Syntax, early: Comments, late: Comments)
    requires BlanksAreBlank(c)
    ensures GapsInPlace(c, early, late)
    decreases c
  {
    match c
    case ArrayText(items, blank) =>
      forall i | 0 <= i < |items| ensures ItemGaps(items[i], early, late) && GapsInPlace(items[i].v, early, late) {
        BlankItem(items[i], early, late);
        BlanksAreGaps(items[i].v, early, late);
      }
    case ObjectText(members, end) =>
      BlankIsGap(end.gap, late);
      forall i | 0 <= i < |members|
        ensures IsGap(members[i].before, late) && ItemGaps(members[i].value, early, late)
        ensures GapsInPlace(members[i].value.v, early, late)
      {
        BlankIsGap(members[i].before, late);
        BlankItem(members[i].value, early, late);
        BlanksAreGaps(members[i].value.v, early, late);
      }
    case _ =>
  }

  // A dropped null alone in its array is there only by the comment beside it.
  predicate NoLoneDropped(c: Syntax)
    decreases c
  {
    match c
    case ArrayText(items, _) =>
      !(|items| == 1 && items[0].v.Dropped?) && forall i :: 0 <= i < |items| ==> NoLoneDropped(items[i].v)
    case ObjectText(members, _) => forall i :: 0 <= i < |members| ==> NoLoneDropped(members[i].value.v)
    case _ => true
  }

  /**
    Blanks between the tokens of a text, and comments where they are skipped, decide neither whether it is
    well-formed, but for dropped nulls alone in their arrays, nor its meaning nor its depth.
   */
  lemma {:induction false} GapsDoNotMatter(c: Syntax, g: Settings)
    requires GapsInPlace(c, Early(g.f), Skipped(g.f))
    ensures WellFormed(Compact(c), g) <==> WellFormed(c, g) && NoLoneDropped(c)
    ensures WellFormed(Compact(c), g) ==> Denote(c, g) == Denote(Compact(c), g)
    ensures Depth(c) == Depth(Compact(c))
    decreases c, 1
  {
    hide ItemGaps, DistinctKeys, IsGap;
    match c
    case ArrayText(items, blank) =>
      ItemGapsDoNotMatter(items, Compact(c).items, g, map[], 0);
      assert AllBlank([]);
    case ObjectText(members, end) =>
      MemberGapsDoNotMatter(members, Compact(c).members, g, map[]);
      BlankIsGap([], Skipped(g.f));
    case _ =>
  }

  lemma {:induction false} ItemGapsDoNotMatter(items: seq<Item>, plain: seq<Item>, g: Settings, m: map<nat, Value>, n: nat)
    requires |plain| == |items|
    requires forall i :: 0 <= i < |items| ==>
               && plain[i] == Item([], Compact(items[i].v), [])
               && ItemGaps(items[i], Early(g.f), Skipped(g.f)) && GapsInPlace(items[i].v, Early(g.f), Skipped(g.f))
    ensures WellFormedItems(plain, g) <==>
            WellFormedItems(items, g) && forall i :: 0 <= i < |items| ==> NoLoneDropped(items[i].v)
    ensures WellFormedItems(plain, g) ==> DenoteItems(m, n, items, g) == DenoteItems(m, n, plain, g)
    ensures ItemsDepth(items) == ItemsDepth(plain)
    decreases items, 0
  {
    hide ItemGaps, Compact, NoLoneDropped, Denote;
    if items != [] {
      GapsDoNotMatter(items[0].v, g);
      BlankItem(plain[0], Early(g.f), Skipped(g.f));
      var next := if WellFormed(plain[0].v, g) then m[n := Denote(plain[0].v, g)] else m;
      ItemGapsDoNotMatter(items[1..], plain[1..], g, next, n + 1);
      assert forall i :: 0 < i < |items| ==> items[i] == items[1..][i - 1];
    }
  }

  lemma {:induction false} MemberGapsDoNotMatter(members: seq<Member>, plain: seq<Member>, g: Settings, m: map<Bytes, Value>)
    requires |plain| == |members|
    requires forall i :: 0 <= i < |members| ==>
               && plain[i] == Member([COMMA], [], members[i].key, [], Item([], Compact(members[i].value.v), []))
               && members[i].lead == [COMMA]
               && IsGap(members[i].before, Skipped(g.f)) && AllBlank(members[i].beforeColon)
               && ItemGaps(members[i].value, Early(g.f), Skipped(g.f)) && GapsInPlace(members[i].value.v, Early(g.f), Skipped(g.f))
    ensures WellFormedMembers(plain, g) <==>
            WellFormedMembers(members, g) && forall i :: 0 <= i < |members| ==> NoLoneDropped(members[i].value.v)
    ensures WellFormedMembers(plain, g) ==> DenoteMembers(m, members, g) == DenoteMembers(m, plain, g)
    ensures MembersDepth(members) == MembersDepth(plain)
    ensures DistinctKeys(members) <==> DistinctKeys(plain)
    ensures forall k :: HasKey(members, k) <==> HasKey(plain, k)
    decreases members, 0
  {
    hide ItemGaps, IsGap, Compact, NoLoneDropped, Denote, WellFormedKey;
    if members != [] {
      GapsDoNotMatter(members[0].value.v, g);
      BlankItem(plain[0].value, Early(g.f), Skipped(g.f));
      BlankIsGap([], Skipped(g.f));
      var next := if WellFormed(plain[0].value.v, g) then m[KeyOf(plain[0]) := Denote(plain[0].value.v, g)] else m;
      MemberGapsDoNotMatter(members[1..], plain[1..], g, next);
      assert KeyOf(members[0]) == KeyOf(plain[0]);
      assert forall i :: 0 < i < |members| ==> members[i] == members[1..][i - 1];
    }
  }

  // Duplicate keys

  /** No object of the text repeats a key. */
  predicate AllDistinct(c: Syntax)
    decreases c
  {
    match c
    case ArrayText(items, _) => forall i :: 0 <= i < |items| ==> AllDistinct(items[i].v)
    case ObjectText(members, _) =>
      DistinctKeys(members) && forall i :: 0 <= i < |members| ==> AllDistinct(members[i].value.v)
    case _ => true
  }

  // Early comments

  predicate NoEarlyComment(item: Item) {
    AllBlank(item.before) && (item.v.Dropped? ==> AllBlank(item.after))
  }

  /** No comment stands before a value or in place of a dropped one. */
  predicate NoEarlyComments(c: Syntax)
    decreases c
  {
    match c
    case ArrayText(items, _) => forall i :: 0 <= i < |items| ==> NoEarlyComment(items[i]) && NoEarlyComments(items[i].v)
    case ObjectText(members, _) =>
      forall i :: 0 <= i < |members| ==> NoEarlyComment(members[i].value) && NoEarlyComments(members[i].value.v)
    case _ => true
  }

  // Dropped nulls

  /** No value of the text is dropped. */
  predicate NoDropped(c: Syntax)
    decreases c
  {
    match c
    case Dropped => false
    case ArrayText(items, _) => forall i :: 0 <= i < |items| ==> NoDropped(items[i].v)
    case ObjectText(members, _) => forall i :: 0 <= i < |members| ==> NoDropped(members[i].value.v)
    case _ => true
  }

  // The most lenient grammar

  // The same reader with repeated keys, comments and dropped nulls allowed.
  function Lenient(g: Settings): Settings {
    g.(f := g.f.(rejectDupKeys := false, allowComments := true, allowDroppedNullPlaceholders := true))
  }

  /** What the three features take away from the lenient grammar. */
  predicate Admits(f: Features, c: Syntax) {
    && (f.rejectDupKeys ==> AllDistinct(c))
    && (!f.allowComments ==> NoEarlyComments(c))
    && (!f.allowDroppedNullPlaceholders ==> NoDropped(c))
  }

  lemma LenientGaps(item: Item, f: Features)
    ensures ItemGaps(item, Early(f), Skipped(f)) <==>
            ItemGaps(item, Skipped(f), Skipped(f)) && (!f.allowComments ==> NoEarlyComment(item))
  {
    EarlyIsSkipped(item.before, f);
    EarlyIsSkipped(item.after, f);
  }

  /** The three features take away nothing else. */
  lemma {:induction false} WellFormedIff(c: Syntax, g: Settings)
    ensures WellFormed(c, g) <==> WellFormed(c, Lenient(g)) && Admits(g.f, c)
    decreases c, 1
  {
    hide ItemGaps, IsEmptyItem, DistinctKeys;
    match c
    case ArrayText(items, _) => ItemsWellFormedIff(items, g);
    case ObjectText(members, _) => MembersWellFormedIff(members, g);
    case _ =>
  }

  lemma {:induction false} ItemsWellFormedIff(items: seq<Item>, g: Settings)
    ensures WellFormedItems(items, g) <==>
            && WellFormedItems(items, Lenient(g))
            && (g.f.rejectDupKeys ==> forall i :: 0 <= i < |items| ==> AllDistinct(items[i].v))
            && (!g.f.allowComments ==>
                  forall i :: 0 <= i < |items| ==> NoEarlyComment(items[i]) && NoEarlyComments(items[i].v))
            && (!g.f.allowDroppedNullPlaceholders ==> forall i :: 0 <= i < |items| ==> NoDropped(items[i].v))
    decreases items, 0
  {
    hide ItemGaps, AllDistinct, NoEarlyComments, NoEarlyComment, NoDropped;
    if items != [] {
      LenientGaps(items[0], g.f);
      WellFormedIff(items[0].v, g);
      ItemsWellFormedIff(items[1..], g);
      assert forall i :: 0 < i < |items| ==> items[i] == items[1..][i - 1];
    }
  }

  lemma {:induction false} MembersWellFormedIff(members: seq<Member>, g: Settings)
    ensures WellFormedMembers(members, g) <==>
            && WellFormedMembers(members, Lenient(g))
            && (g.f.rejectDupKeys ==> forall i :: 0 <= i < |members| ==> AllDistinct(members[i].value.v))
            && (!g.f.allowComments ==>
                  forall i :: 0 <= i < |members| ==>
                    NoEarlyComment(members[i].value) && NoEarlyComments(members[i].value.v))
            && (!g.f.allowDroppedNullPlaceholders ==> forall i :: 0 <= i < |members| ==> NoDropped(members[i].value.v))
    decreases members, 0
  {
    hide ItemGaps, AllDistinct, NoEarlyComments, NoEarlyComment, NoDropped, WellFormedKey, IsGap;
    if members != [] {
      LenientGaps(members[0].value, g.f);
      WellFormedIff(members[0].value.v, g);
      MembersWellFormedIff(members[1..], g);
      assert forall i :: 0 < i < |members| ==> members[i] == members[1..][i - 1];
    }
  }

  /** The features have no part in what a text denotes. */
  lemma {:induction false} DenoteLenient(c: Syntax, g: Settings)
    requires WellFormed(c, g) && WellFormed(c, Lenient(g))
    ensures Denote(c, g) == Denote(c, Lenient(g))
    decreases c, 1
  {
    match c
    case ArrayText(items, _) => DenoteItemsLenient(map[], 0, items, g);
    case ObjectText(members, _) => DenoteMembersLenient(map[], members, g);
    case _ =>
  }

  lemma {:induction false} DenoteItemsLenient(m: map<nat, Value>, n: nat, items: seq<Item>, g: Settings)
    requires WellFormedItems(items, g) && WellFormedItems(items, Lenient(g))
    ensures DenoteItems(m, n, items, g) == DenoteItems(m, n, items, Lenient(g))
    decreases items, 0
  {
    if items != [] {
      DenoteLenient(items[0].v, g);
      DenoteItemsLenient(m[n := Denote(items[0].v, g)], n + 1, items[1..], g);
    }
  }

  lemma {:induction false} DenoteMembersLenient(m: map<Bytes, Value>, members: seq<Member>, g: Settings)
    requires WellFormedMembers(members, g) && WellFormedMembers(members, Lenient(g))
    ensures DenoteMembers(m, members, g) == DenoteMembers(m, members, Lenient(g))
    decreases members, 0
  {
    if members != [] {
      DenoteLenient(members[0].value.v, g);
      DenoteMembersLenient(m[KeyOf(members[0]) := Denote(members[0].value.v, g)], members[1..], g);
    }
  }

  /** Putting blanks into a text leaves its keys alone. */
  lemma {:induction false} BlanksKeepKeys(c: Syntax)
    ensures AllDistinct(c) <==> AllDistinct(Compact(c))
    decreases c
  {
    hide DistinctKeys;
    match c
    case ArrayText(items, _) =>
      forall i | 0 <= i < |items| ensures AllDistinct(items[i].v) <==> AllDistinct(Compact(c).items[i].v) {
        BlanksKeepKeys(items[i].v);
      }
    case ObjectText(members, _) =>
      var plain := Compact(c).members;
      SameKeys(members, plain);
      forall i | 0 <= i < |members| ensures AllDistinct(members[i].value.v) <==> AllDistinct(plain[i].value.v) {
        BlanksKeepKeys(members[i].value.v);
      }
    case _ =>
  }

  /** Putting blanks into a text leaves its dropped values alone. */
  lemma {:induction false} BlanksKeepDropped(c: Syntax)
    ensures NoDropped(c) <==> NoDropped(Compact(c))
    decreases c
  {
    match c
    case ArrayText(items, _) =>
      forall i | 0 <= i < |items| ensures NoDropped(items[i].v) <==> NoDropped(Compact(c).items[i].v) {
        BlanksKeepDropped(items[i].v);
      }
    case ObjectText(members, _) =>
      forall i | 0 <= i < |members| ensures NoDropped(members[i].value.v) <==> NoDropped(Compact(c).members[i].value.v) {
        BlanksKeepDropped(members[i].value.v);
      }
    case _ =>
  }

  lemma SameKeys(a: seq<Member>, b: seq<Member>)
    requires |a| == |b| && forall i :: 0 <= i < |a| ==> a[i].key == b[i].key
    ensures DistinctKeys(a) <==> DistinctKeys(b)
  {
    hide DistinctKeys;
    DistinctKeysAt(a);
    DistinctKeysAt(b);
    assert forall i :: 0 <= i < |a| ==> KeyOf(a[i]) == KeyOf(b[i]);
  }
}
