/**
  How the indented text is laid out, read off the text: outside strings, every line feed is followed by as
  many copies of the indentation as containers are open there, or by one fewer before the bracket or brace
  that closes one.
 */
module Layout {
  import opened Basics
  import opened JsonStrings
  import opened PrintedText
  import opened StyledWriter
  import opened Values
  import opened WriterSyntax

  predicate Opens(b: Byte) {
    b == 0x5B || b == 0x7B
  }

  predicate Closes(b: Byte) {
    b == 0x5D || b == 0x7D
  }

  predicate IsInline(b: Byte) {
    b == 0x20 || b == 0x09
  }

  /** `t` begins with `n` copies of `indent` and then `b`. */
  predicate IndentedBy(t: Bytes, indent: Bytes, n: nat) {
    var w := Copies(indent, n);
    |w| < |t| && t[..|w|] == w && !IsInline(t[|w|])
  }

  /** What stands behind a line feed with `open` containers open: the indentation, exactly. */
  predicate LineStarts(t: Bytes, indent: Bytes, open: nat) {
    || (IndentedBy(t, indent, open) && !Closes(t[|Copies(indent, open)|]))
    || (open > 0 && IndentedBy(t, indent, open - 1) && Closes(t[|Copies(indent, open - 1)|]))
  }

  /** The law, with `open` containers open before `s`, and possibly a string. */
  predicate LaidOut(s: Bytes, indent: Bytes, open: nat, quoted: bool)
    decreases |s|
  {
    if s == [] then open == 0 && !quoted
    else if quoted then
      if s[0] == 0x5C then |s| > 1 && LaidOut(s[2..], indent, open, true)
      else LaidOut(s[1..], indent, open, s[0] != 0x22)
    else if s[0] == 0x22 then LaidOut(s[1..], indent, open, true)
    else if Opens(s[0]) then LaidOut(s[1..], indent, open + 1, false)
    else if Closes(s[0]) then open > 0 && LaidOut(s[1..], indent, open - 1, false)
    else (s[0] == 0x0A ==> LineStarts(s[1..], indent, open)) && LaidOut(s[1..], indent, open, false)
  }

  // Pieces of text that the law passes over

  /** May stand behind a value on a line of its own. */
  predicate GoesOn(r: Bytes) {
    r != [] && !IsInline(r[0]) && !Closes(r[0])
  }

  /** Does not begin with what could not stand behind an indentation. */
  predicate StartsWell(s: Bytes) {
    s == [] || (!IsInline(s[0]) && !Closes(s[0]))
  }

  lemma GoesOnWell(s: Bytes, r: Bytes)
    requires StartsWell(s) && GoesOn(r)
    ensures GoesOn(s + r)
  {
    if s == [] {
      assert s + r == r;
    }
  }

  /** `s` keeps to the law with anything behind it that does; on a line of its own, if it goes on there. */
  ghost predicate Passes(s: Bytes, indent: Bytes, open: nat, alone: bool) {
    forall r :: LaidOut(r, indent, open, false) && (alone ==> GoesOn(r)) ==> LaidOut(s + r, indent, open, false)
  }

  predicate IsPlain(s: Bytes) {
    forall k :: 0 <= k < |s| ==> !Opens(s[k]) && !Closes(s[k]) && s[k] != 0x22 && s[k] != 0x0A
  }

  lemma {:induction false} PlainPasses(s: Bytes, r: Bytes, indent: Bytes, open: nat)
    requires IsPlain(s) && LaidOut(r, indent, open, false)
    ensures LaidOut(s + r, indent, open, false)
    decreases |s|
  {
    if s == [] {
      assert s + r == r;
    } else {
      PlainPasses(s[1..], r, indent, open);
      assert (s + r)[1..] == s[1..] + r && (s + r)[0] == s[0];
    }
  }

  lemma CharPasses(c: StringChar, r: Bytes, indent: Bytes, open: nat)
    requires WellFormedChar(c) && LaidOut(r, indent, open, true)
    ensures LaidOut(PrintChar(c) + r, indent, open, true)
  {
    hide HexValue, LaidOut, PrintHex, EscapedByte;
    match c
    case Raw(b) => RawPasses(b, r, indent, open);
    case Escaped(e) => EscapedPasses(e, r, indent, open);
    case Unicode(h) => HexPasses(h, r, indent, open);
    case Pair(h, l) =>
      HexPasses(l, r, indent, open);
      HexPasses(h, PrintHex(l) + r, indent, open);
      assert PrintChar(c) + r == PrintHex(h) + (PrintHex(l) + r);
  }

  lemma RawPasses(b: Byte, r: Bytes, indent: Bytes, open: nat)
    requires b != 0x22 && b != 0x5C && LaidOut(r, indent, open, true)
    ensures LaidOut([b] + r, indent, open, true)
  {
    assert ([b] + r)[1..] == r;
  }

  lemma HexPasses(h: Bytes, r: Bytes, indent: Bytes, open: nat)
    requires IsHex4(h) && LaidOut(r, indent, open, true)
    ensures LaidOut(PrintHex(h) + r, indent, open, true)
  {
    hide LaidOut;
    QuotedByte(h[3], r, indent, open);
    QuotedByte(h[2], [h[3]] + r, indent, open);
    QuotedByte(h[1], [h[2]] + ([h[3]] + r), indent, open);
    QuotedByte(h[0], [h[1]] + ([h[2]] + ([h[3]] + r)), indent, open);
    var s := [h[0]] + ([h[1]] + ([h[2]] + ([h[3]] + r)));
    EscapedPasses(0x75, s, indent, open);
    assert PrintHex(h) + r == [0x5C, 0x75] + s;
  }

  lemma QuotedByte(b: Byte, r: Bytes, indent: Bytes, open: nat)
    requires HexNibble(b).Some? && LaidOut(r, indent, open, true)
    ensures LaidOut([b] + r, indent, open, true)
  {
    assert ([b] + r)[1..] == r;
  }

  lemma EscapedPasses(b: Byte, r: Bytes, indent: Bytes, open: nat)
    requires LaidOut(r, indent, open, true)
    ensures LaidOut([0x5C, b] + r, indent, open, true)
  {
    assert ([0x5C, b] + r)[2..] == r;
  }

  lemma {:induction false} CharsPass(cs: seq<StringChar>, r: Bytes, indent: Bytes, open: nat)
    requires WellFormedChars(cs) && LaidOut(r, indent, open, true)
    ensures LaidOut(PrintChars(cs) + r, indent, open, true)
    decreases |cs|
  {
    hide LaidOut, PrintChar, WellFormedChar;
    if cs == [] {
      assert PrintChars(cs) + r == r;
    } else {
      CharsPass(cs[1..], r, indent, open);
      CharPasses(cs[0], PrintChars(cs[1..]) + r, indent, open);
      assert PrintChars(cs) + r == PrintChar(cs[0]) + (PrintChars(cs[1..]) + r);
    }
  }

  /** A string is passed over whole, whatever it holds. */
  lemma QuotedPasses(s: Bytes, r: Bytes, indent: Bytes, open: nat)
    requires LaidOut(r, indent, open, false)
    ensures LaidOut(Quoted(s) + r, indent, open, false)
  {
    hide QuoteChars, PrintChars, WellFormedChars, CharsMeaning;
    QuoteCharsMeaning(s);
    var body := PrintChars(QuoteChars(s));
    assert ([0x22] + r)[1..] == r;
    CharsPass(QuoteChars(s), [0x22] + r, indent, open);
    assert Quoted(s) + r == [0x22] + (body + ([0x22] + r));
    assert ([0x22] + (body + ([0x22] + r)))[1..] == body + ([0x22] + r);
  }

  lemma {:induction false} CopiesPlain(indent: Bytes, n: nat)
    requires forall k :: 0 <= k < |indent| ==> IsInline(indent[k])
    ensures forall k :: 0 <= k < |Copies(indent, n)| ==> IsInline(Copies(indent, n)[k])
  {
    if n > 0 {
      CopiesPlain(indent, n - 1);
    }
  }

  /** A new line in front of what goes on there, or in front of what closes a container. */
  lemma NewLinePasses(st: Style, depth: nat, r: Bytes, open: nat)
    requires Inline(st) && st.indentation != [] && LaidOut(r, st.indentation, open, false)
    requires if r != [] && Closes(r[0]) then depth + 1 == open else depth == open && GoesOn(r)
    ensures LaidOut(NewLine(st, depth) + r, st.indentation, open, false)
  {
    var w := Copies(st.indentation, depth);
    CopiesPlain(st.indentation, depth);
    PlainPasses(w, r, st.indentation, open);
    assert (NewLine(st, depth) + r)[1..] == w + r;
    assert (w + r)[..|w|] == w && (w + r)[|w|] == r[0];
  }

  // What the writer is given

  /** Spaces and tabs for the indentation and around the colon. */
  predicate Inline(st: Style) {
    && (forall k :: 0 <= k < |st.indentation| ==> IsInline(st.indentation[k]))
    && (forall k :: 0 <= k < |st.beforeColon| ==> IsInline(st.beforeColon[k]))
    && (forall k :: 0 <= k < |st.afterColon| ==> IsInline(st.afterColon[k]))
  }

  /** The C library prints doubles without blanks, quotes and brackets. */
  ghost predicate PlainDoubles(show: ShowDouble) {
    forall d :: IsPlain(show(d)) && forall k :: 0 <= k < |show(d)| ==> !IsInline(show(d)[k])
  }

  lemma {:induction false} DecimalPlain(n: nat)
    ensures Decimal(n) != [] && forall k :: 0 <= k < |Decimal(n)| ==> 0x30 <= Decimal(n)[k] <= 0x39
  {
    if n >= 10 {
      DecimalPlain(n / 10);
    }
  }

  lemma NumeralPlain(n: int)
    ensures IsPlain(Numeral(n)) && Numeral(n) != [] && !IsInline(Numeral(n)[0]) && !Closes(Numeral(n)[0])
  {
    DecimalPlain(if n < 0 then -n else n);
  }

  /** The text of a value without children: it passes anywhere, and goes on where it stands alone. */
  lemma LeafPasses(v: Value, st: Style, r: Bytes, indent: Bytes, open: nat)
    requires PlainDoubles(st.show) && !HasChildren(v) && LaidOut(r, indent, open, false)
    ensures LaidOut(CompactText(v, st.dropNulls, false, st.show) + r, indent, open, false)
  {
    hide LaidOut, Quoted, Numeral, Size;
    var text := CompactText(v, st.dropNulls, false, st.show);
    match v.payload
    case Int(i) =>
      NumeralPlain(i);
      PlainPasses(text, r, indent, open);
    case UInt(u) =>
      NumeralPlain(u);
      PlainPasses(text, r, indent, open);
    case String(s) => QuotedPasses(s, r, indent, open);
    case Array(m) => EmptyPasses(v, st, r, indent, open);
    case Object(m) => EmptyPasses(v, st, r, indent, open);
    case Null => WordPasses(text, r, indent, open);
    case Boolean(_) => WordPasses(text, r, indent, open);
    case Real(d) => PlainPasses(text, r, indent, open);
  }

  lemma LeafStartsWell(v: Value, st: Style)
    requires PlainDoubles(st.show) && !HasChildren(v)
    ensures StartsWell(CompactText(v, st.dropNulls, false, st.show))
  {
    hide Numeral, Size;
    match v.payload
    case Int(i) => NumeralPlain(i);
    case UInt(u) => NumeralPlain(u);
    case Array(m) => EmptyText(v, st);
    case Object(m) => EmptyText(v, st);
    case _ =>
  }

  lemma QuotedBegins(s: Bytes, r: Bytes)
    ensures GoesOn(Quoted(s) + r)
  {
  }

  lemma WordPasses(text: Bytes, r: Bytes, indent: Bytes, open: nat)
    requires text == [] || text == Ascii("null") || text == Ascii("true") || text == Ascii("false")
    requires LaidOut(r, indent, open, false)
    ensures LaidOut(text + r, indent, open, false) && StartsWell(text)
  {
    PlainPasses(text, r, indent, open);
  }

  lemma EmptyPasses(v: Value, st: Style, r: Bytes, indent: Bytes, open: nat)
    requires (v.payload.Array? || v.payload.Object?) && !HasChildren(v) && LaidOut(r, indent, open, false)
    ensures var text := CompactText(v, st.dropNulls, false, st.show);
            LaidOut(text + r, indent, open, false)
  {
    hide Size, MemberNames;
    var text := CompactText(v, st.dropNulls, false, st.show);
    EmptyText(v, st);
    assert (text + r)[1..] == [text[1]] + r && ([text[1]] + r)[1..] == r;
  }

  lemma EmptyText(v: Value, st: Style)
    requires (v.payload.Array? || v.payload.Object?) && !HasChildren(v)
    ensures CompactText(v, st.dropNulls, false, st.show) == if v.payload.Array? then [0x5B, 0x5D] else [0x7B, 0x7D]
  {
    hide Size;
    var none: seq<Bytes> := [];
    assert Joined(none) == [];
    if v.payload.Array? {
      CompactArrayIs(v, st.dropNulls, false, st.show, none);
    } else {
      CompactObjectIs(v, st.dropNulls, false, st.show, none);
    }
  }

  // Lists

  lemma CommaPasses(r: Bytes, indent: Bytes, open: nat)
    requires LaidOut(r, indent, open, false)
    ensures LaidOut(Ascii(",") + r, indent, open, false) && GoesOn(Ascii(",") + r)
  {
    assert (Ascii(",") + r)[1..] == r;
  }

  lemma {:induction false} JoinedPasses(parts: seq<Bytes>, indent: Bytes, open: nat, alone: bool)
    requires forall i :: 0 <= i < |parts| ==> Passes(parts[i], indent, open, alone)
    ensures Passes(Joined(parts), indent, open, alone)
    decreases |parts|
  {
    hide LaidOut, GoesOn;
    forall r | LaidOut(r, indent, open, false) && (alone ==> GoesOn(r)) ensures LaidOut(Joined(parts) + r, indent, open, false) {
      if parts == [] {
        assert Joined(parts) + r == r;
      } else if |parts| > 1 {
        JoinedPasses(parts[1..], indent, open, alone);
        var rest := Joined(parts[1..]) + r;
        CommaPasses(rest, indent, open);
        assert Joined(parts) + r == parts[0] + (Ascii(",") + rest);
      }
    }
  }

  // The tree

  /** Between `open` and `close`, one level deeper, and then what follows. */
  lemma BlockPasses(open: Byte, inner: Bytes, tail: Bytes, close: Byte, indent: Bytes, depth: nat, alone: bool)
    requires Opens(open) && Closes(close) && Passes(inner, indent, depth + 1, alone)
    requires forall r :: LaidOut(r, indent, depth, false) ==>
               LaidOut(tail + ([close] + r), indent, depth + 1, false) && (alone ==> GoesOn(tail + ([close] + r)))
    ensures Passes([open] + (inner + tail) + [close], indent, depth, false)
  {
    forall r | LaidOut(r, indent, depth, false)
      ensures LaidOut([open] + (inner + tail) + [close] + r, indent, depth, false)
    {
      var rest := tail + ([close] + r);
      assert LaidOut(inner + rest, indent, depth + 1, false);
      assert [open] + (inner + tail) + [close] + r == [open] + (inner + rest);
      assert ([open] + (inner + rest))[1..] == inner + rest;
    }
  }

  lemma ClosePasses(close: Byte, r: Bytes, indent: Bytes, depth: nat)
    requires Closes(close) && LaidOut(r, indent, depth, false)
    ensures LaidOut([close] + r, indent, depth + 1, false)
  {
    assert ([close] + r)[1..] == r;
  }

  /** Every value keeps to the law, wherever it stands. */
  lemma {:induction false} TextPasses(st: Style, v: Value, depth: nat)
    requires Inline(st) && st.indentation != [] && PlainDoubles(st.show)
    ensures Passes(IndentedText(st, v, depth), st.indentation, depth, false)
    ensures StartsWell(IndentedText(st, v, depth))
    decreases v
  {
    hide Size, MemberNames, IndentedText, LaidOut, Inline, GoesOn, Passes, PlainDoubles, CompactText;
    match v.payload
    case Array(m) =>
      forall i | i in m
        ensures Passes(IndentedText(st, m[i], depth + 1), st.indentation, depth + 1, false)
        ensures StartsWell(IndentedText(st, m[i], depth + 1))
      {
        TextPasses(st, m[i], depth + 1);
      }
      ArrayPasses(st, v, depth);
    case Object(m) =>
      forall k | k in m
        ensures Passes(IndentedText(st, m[k], depth + 1), st.indentation, depth + 1, false)
        ensures StartsWell(IndentedText(st, m[k], depth + 1))
      {
        TextPasses(st, m[k], depth + 1);
      }
      ObjectPasses(st, v, depth);
    case _ => BarePasses(st, v, depth);
  }

  lemma BarePasses(st: Style, v: Value, depth: nat)
    requires PlainDoubles(st.show) && !HasChildren(v)
    ensures Passes(IndentedText(st, v, depth), st.indentation, depth, false)
    ensures StartsWell(IndentedText(st, v, depth))
  {
    hide LaidOut, GoesOn, PlainDoubles, CompactText, Size;
    BareText(st, v, depth);
    forall r | LaidOut(r, st.indentation, depth, false)
      ensures LaidOut(IndentedText(st, v, depth) + r, st.indentation, depth, false)
    {
      LeafPasses(v, st, r, st.indentation, depth);
    }
    LeafStartsWell(v, st);
  }

  lemma BareText(st: Style, v: Value, depth: nat)
    requires !HasChildren(v)
    ensures IndentedText(st, v, depth) == CompactText(v, st.dropNulls, false, st.show)
  {
    hide Size;
    if v.payload.Array? || v.payload.Object? {
      EmptyText(v, st);
    }
  }

  lemma ArrayPasses(st: Style, v: Value, depth: nat)
    requires Inline(st) && st.indentation != [] && PlainDoubles(st.show) && v.payload.Array?
    requires var m := v.payload.elems;
             forall i :: i in m ==>
               && Passes(IndentedText(st, m[i], depth + 1), st.indentation, depth + 1, false)
               && StartsWell(IndentedText(st, m[i], depth + 1))
    ensures Passes(IndentedText(st, v, depth), st.indentation, depth, false)
    ensures StartsWell(IndentedText(st, v, depth))
  {
    hide Size, IndentedText, LaidOut, Inline, Passes, PlainDoubles, CompactText, FitsOneLine, NewLine, IndentedElement;
    var m := v.payload.elems;
    var n := Size(m);
    if n == 0 {
      BarePasses(st, v, depth);
    } else {
      var lines := !FitsOneLine(st, m);
      var parts := seq(n, i requires 0 <= i < n => IndentedElement(st, m, i, depth, lines));
      forall i | 0 <= i < n ensures Passes(parts[i], st.indentation, depth + 1, lines) {
        ElementPasses(st, m, i, depth);
      }
      JoinedPasses(parts, st.indentation, depth + 1, lines);
      IndentedArrayIs(st, v, depth, parts);
      ClosingPasses(st, depth, lines, 0x5D);
      BracketsAre();
      BlockPasses(0x5B, Joined(parts), if lines then NewLine(st, depth) else Blank(st), 0x5D, st.indentation, depth, lines);
    }
  }

  lemma BracketsAre()
    ensures Ascii("[") == [0x5B] && Ascii("]") == [0x5D] && Ascii("{") == [0x7B] && Ascii("}") == [0x7D]
  {
  }

  // The end of a container.
  lemma ClosingPasses(st: Style, depth: nat, lines: bool, close: Byte)
    requires Inline(st) && st.indentation != [] && Closes(close)
    ensures forall r :: LaidOut(r, st.indentation, depth, false) ==>
              var tail := if lines then NewLine(st, depth) else Blank(st);
              LaidOut(tail + ([close] + r), st.indentation, depth + 1, false) && (lines ==> GoesOn(tail + ([close] + r)))
  {
    hide LaidOut;
    forall r | LaidOut(r, st.indentation, depth, false)
      ensures var tail := if lines then NewLine(st, depth) else Blank(st);
              LaidOut(tail + ([close] + r), st.indentation, depth + 1, false) && (lines ==> GoesOn(tail + ([close] + r)))
    {
      ClosePasses(close, r, st.indentation, depth);
      if lines {
        NewLinePasses(st, depth, [close] + r, depth + 1);
      } else {
        PlainPasses(Blank(st), [close] + r, st.indentation, depth + 1);
      }
    }
  }

  lemma ElementPasses(st: Style, m: map<nat, Value>, i: nat, depth: nat)
    requires Inline(st) && st.indentation != [] && PlainDoubles(st.show) && i < Size(m)
    requires i in m ==>
               && Passes(IndentedText(st, m[i], depth + 1), st.indentation, depth + 1, false)
               && StartsWell(IndentedText(st, m[i], depth + 1))
    ensures var lines := !FitsOneLine(st, m); Passes(IndentedElement(st, m, i, depth, lines), st.indentation, depth + 1, lines)
  {
    hide Size, IndentedText, LaidOut, Inline, PlainDoubles, CompactText, FitsOneLine, NewLine, GoesOn;
    var lines := !FitsOneLine(st, m);
    var text := if i in m then IndentedText(st, m[i], depth + 1) else NullWord(st.dropNulls);
    forall r | LaidOut(r, st.indentation, depth + 1, false) && (lines ==> GoesOn(r))
      ensures LaidOut(IndentedElement(st, m, i, depth, lines) + r, st.indentation, depth + 1, false)
    {
      if i !in m {
        WordPasses(text, r, st.indentation, depth + 1);
      }
      assert LaidOut(text + r, st.indentation, depth + 1, false);
      if lines {
        GoesOnWell(text, r);
        BeginsSomething(text + r);
        NewLinePasses(st, depth + 1, text + r, depth + 1);
        assert IndentedElement(st, m, i, depth, lines) + r == NewLine(st, depth + 1) + (text + r);
      } else {
        BlankPasses(st, text + r, depth + 1);
        assert IndentedElement(st, m, i, depth, lines) + r == Blank(st) + (text + r);
      }
    }
  }

  lemma BeginsSomething(r: Bytes)
    requires GoesOn(r)
    ensures r != [] && !Closes(r[0])
  {
  }

  lemma BlankPasses(st: Style, r: Bytes, open: nat)
    requires LaidOut(r, st.indentation, open, false)
    ensures LaidOut(Blank(st) + r, st.indentation, open, false)
  {
    PlainPasses(Blank(st), r, st.indentation, open);
  }

  lemma ObjectPasses(st: Style, v: Value, depth: nat)
    requires Inline(st) && st.indentation != [] && PlainDoubles(st.show) && v.payload.Object?
    requires var m := v.payload.members;
             forall k :: k in m ==>
               && Passes(IndentedText(st, m[k], depth + 1), st.indentation, depth + 1, false)
               && StartsWell(IndentedText(st, m[k], depth + 1))
    ensures Passes(IndentedText(st, v, depth), st.indentation, depth, false)
    ensures StartsWell(IndentedText(st, v, depth))
  {
    hide MemberNames, IndentedText, LaidOut, Inline, Passes, PlainDoubles, CompactText, NewLine, MemberText;
    var m := v.payload.members;
    if |m| == 0 {
      BarePasses(st, v, depth);
    } else {
      var ks := MemberNames(m);
      var parts := seq(|ks|, i requires 0 <= i < |ks| =>
        MemberText(st, ks[i], m[ks[i]], IndentedText(st, m[ks[i]], depth + 1), depth));
      forall i | 0 <= i < |ks| ensures Passes(parts[i], st.indentation, depth + 1, true) {
        assert ks[i] in m;
        MemberPasses(st, ks[i], m[ks[i]], depth);
      }
      JoinedPasses(parts, st.indentation, depth + 1, true);
      ObjectTextIs(st, v, depth, parts);
      ClosingPasses(st, depth, true, 0x7D);
      BracketsAre();
      BlockPasses(0x7B, Joined(parts), NewLine(st, depth), 0x7D, st.indentation, depth, true);
    }
  }

  lemma MemberPasses(st: Style, k: Bytes, child: Value, depth: nat)
    requires Inline(st) && st.indentation != []
    requires Passes(IndentedText(st, child, depth + 1), st.indentation, depth + 1, false)
    requires StartsWell(IndentedText(st, child, depth + 1))
    ensures Passes(MemberText(st, k, child, IndentedText(st, child, depth + 1), depth), st.indentation, depth + 1, true)
  {
    hide IndentedText, LaidOut, NewLine, GoesOn, Quoted, BeginsLine, MemberText;
    var text := IndentedText(st, child, depth + 1);
    forall r | LaidOut(r, st.indentation, depth + 1, false) && GoesOn(r)
      ensures LaidOut(MemberText(st, k, child, text, depth) + r, st.indentation, depth + 1, false)
    {
      var open := depth + 1;
      var rest := text + r;
      assert LaidOut(rest, st.indentation, open, false);
      GoesOnWell(text, r);
      FrontPasses(st, k, child, depth, rest);
      MemberSplit(st, k, child, text, depth, r);
    }
  }

  // A member up to its value.
  function MemberHead(st: Style, k: Bytes, child: Value, depth: nat, rest: Bytes): Bytes {
    NewLine(st, depth + 1)
    + (Quoted(k) + (st.beforeColon + Ascii(":") + st.afterColon
                    + ((if BeginsLine(st, child) then NewLine(st, depth + 1) else []) + rest)))
  }

  lemma MemberSplit(st: Style, k: Bytes, child: Value, text: Bytes, depth: nat, r: Bytes)
    ensures MemberText(st, k, child, text, depth) + r == MemberHead(st, k, child, depth, text + r)
  {
    hide NewLine, Quoted, BeginsLine, Ascii;
    var lead := if BeginsLine(st, child) then NewLine(st, depth + 1) else [];
    var nl, q, b, c, a := NewLine(st, depth + 1), Quoted(k), st.beforeColon, Ascii(":"), st.afterColon;
    assert nl + q + b + c + a + lead + text + r == nl + (q + (b + c + a + (lead + (text + r))));
  }

  lemma FrontPasses(st: Style, k: Bytes, child: Value, depth: nat, rest: Bytes)
    requires Inline(st) && st.indentation != [] && LaidOut(rest, st.indentation, depth + 1, false) && GoesOn(rest)
    ensures LaidOut(MemberHead(st, k, child, depth, rest), st.indentation, depth + 1, false)
  {
    hide LaidOut, NewLine, GoesOn, Quoted, BeginsLine;
    var open := depth + 1;
    var lead := if BeginsLine(st, child) then NewLine(st, open) else [];
    BeginsSomething(rest);
    if BeginsLine(st, child) {
      NewLinePasses(st, open, rest, open);
    } else {
      assert lead + rest == rest;
    }
    var colon := st.beforeColon + Ascii(":") + st.afterColon;
    PlainPasses(colon, lead + rest, st.indentation, open);
    QuotedPasses(k, colon + (lead + rest), st.indentation, open);
    QuotedBegins(k, colon + (lead + rest));
    BeginsSomething(Quoted(k) + (colon + (lead + rest)));
    NewLinePasses(st, open, Quoted(k) + (colon + (lead + rest)), open);
  }

  /** The text of the indenting writer keeps to the law, from no container open to none. */
  lemma IndentedTextIsLaidOut(st: Style, v: Value)
    requires Inline(st) && st.indentation != [] && PlainDoubles(st.show)
    ensures LaidOut(IndentedText(st, v, 0), st.indentation, 0, false)
  {
    hide IndentedText, PlainDoubles;
    TextPasses(st, v, 0);
    var r: Bytes := [];
    assert LaidOut(r, st.indentation, 0, false);
    assert IndentedText(st, v, 0) + r == IndentedText(st, v, 0);
  }
}
