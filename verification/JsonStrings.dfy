/**
  JSON string literals (section 7 of RFC 8259): their characters as syntax, the escaping writer
  (`valueToQuotedStringN`), the decoder (`decodeString`), and the scanner that finds the closing
  quote (`readString`).
 */
module JsonStrings {
  import opened Basics
  import opened Errors
  import opened Utf8

  // Syntax

  datatype StringChar =
    | Raw(b: Byte)
    | Escaped(c: Byte)
    | Unicode(h: Bytes)
    | Pair(high: Bytes, low: Bytes)

  const LETTER_B: Byte := 0x62
  const LETTER_F: Byte := 0x66
  const LETTER_N: Byte := 0x6E
  const LETTER_R: Byte := 0x72
  const LETTER_T: Byte := 0x74
  const LETTER_U: Byte := 0x75

  /** The byte a two-character escape stands for. */
  function EscapedByte(c: Byte): Option<Byte> {
    if c == QUOTE || c == SLASH || c == BACKSLASH then Some(c)
    else if c == LETTER_B then Some(0x08)
    else if c == LETTER_F then Some(0x0C)
    else if c == LETTER_N then Some(LF)
    else if c == LETTER_R then Some(CR)
    else if c == LETTER_T then Some(TAB)
    else None
  }

  function HexNibble(b: Byte): Option<nat> {
    if ZERO <= b <= NINE then Some(b - ZERO)
    else if 0x61 <= b <= 0x66 then Some(b - 0x61 + 10)
    else if 0x41 <= b <= 0x46 then Some(b - 0x41 + 10)
    else None
  }

  predicate IsHex4(h: Bytes) {
    |h| == 4 && forall k :: 0 <= k < 4 ==> HexNibble(h[k]).Some?
  }

  function HexValue(h: Bytes): (x: nat)
    requires IsHex4(h)
    ensures x < 0x1_0000
  {
    ((HexNibble(h[0]).value * 16 + HexNibble(h[1]).value) * 16 + HexNibble(h[2]).value) * 16 + HexNibble(h[3]).value
  }

  predicate IsHighSurrogate(x: nat) {
    0xD800 <= x <= 0xDBFF
  }

  /** The code point of a surrogate pair (RFC 2781, section 2.2), as lenient about its second half as the reader. */
  function JoinSurrogates(high: nat, low: nat): nat {
    0x1_0000 + high % 0x400 * 0x400 + low % 0x400
  }

  predicate WellFormedChar(c: StringChar) {
    match c
    case Raw(b) => b != QUOTE && b != BACKSLASH
    case Escaped(e) => EscapedByte(e).Some?
    case Unicode(h) => IsHex4(h) && !IsHighSurrogate(HexValue(h))
    case Pair(h, l) => IsHex4(h) && IsHex4(l) && IsHighSurrogate(HexValue(h))
  }

  predicate WellFormedChars(cs: seq<StringChar>) {
    forall k :: 0 <= k < |cs| ==> WellFormedChar(cs[k])
  }

  function PrintChar(c: StringChar): Bytes {
    match c
    case Raw(b) => [b]
    case Escaped(e) => [BACKSLASH, e]
    case Unicode(h) => PrintHex(h)
    case Pair(h, l) => PrintHex(h) + PrintHex(l)
  }

  function PrintChars(cs: seq<StringChar>): Bytes {
    if cs == [] then [] else PrintChar(cs[0]) + PrintChars(cs[1..])
  }

  function CharMeaning(c: StringChar): Bytes
    requires WellFormedChar(c)
  {
    match c
    case Raw(b) => [b]
    case Escaped(e) => [EscapedByte(e).value]
    case Unicode(h) => CodePointToUtf8(HexValue(h))
    case Pair(h, l) => CodePointToUtf8(JoinSurrogates(HexValue(h), HexValue(l)))
  }

  /** The bytes a string literal denotes. */
  function CharsMeaning(cs: seq<StringChar>): Bytes
    requires WellFormedChars(cs)
  {
    if cs == [] then [] else CharMeaning(cs[0]) + CharsMeaning(cs[1..])
  }

  lemma {:induction false} PrintCharsAppend(a: seq<StringChar>, b: seq<StringChar>)
    ensures PrintChars(a + b) == PrintChars(a) + PrintChars(b)
  {
    hide PrintChar;
    if a == [] {
      assert a + b == b;
    } else {
      PrintCharsAppend(a[1..], b);
      assert (a + b)[0] == a[0] && (a + b)[1..] == a[1..] + b;
      var c := PrintChar(a[0]);
      assert c + (PrintChars(a[1..]) + PrintChars(b)) == (c + PrintChars(a[1..])) + PrintChars(b);
    }
  }

  lemma {:induction false} CharsMeaningAppend(a: seq<StringChar>, b: seq<StringChar>)
    requires WellFormedChars(a) && WellFormedChars(b)
    ensures WellFormedChars(a + b) && CharsMeaning(a + b) == CharsMeaning(a) + CharsMeaning(b)
  {
    hide CharMeaning, WellFormedChar;
    if a == [] {
      assert a + b == b;
    } else {
      CharsMeaningAppend(a[1..], b);
      assert (a + b)[1..] == a[1..] + b;
    }
  }

  // `\\u` and four digits.
  function PrintHex(h: Bytes): Bytes {
    [BACKSLASH, LETTER_U] + h
  }

  lemma AtHex(doc: Bytes, i: nat, h: Bytes)
    requires At(doc, i, PrintHex(h))
    ensures doc[i] == BACKSLASH && doc[i + 1] == LETTER_U && At(doc, i + 2, h)
  {
    AtByte(doc, i, PrintHex(h), 0);
    AtByte(doc, i, PrintHex(h), 1);
    AtAppend(doc, i, [BACKSLASH, LETTER_U], h);
  }

  // Scanning

  /** `readString` and `readStringSingleQuote` after the opening quote: found, and the cursor. */
  function ScanString(doc: Bytes, i: nat, quote: Byte): (r: (bool, nat))
    requires i <= |doc|
    ensures i <= r.1 <= |doc|
    ensures r.0 ==> i < r.1 && doc[r.1 - 1] == quote
    decreases |doc| - i
  {
    if i == |doc| then (false, i)
    else if doc[i] == BACKSLASH then ScanString(doc, if i + 1 < |doc| then i + 2 else i + 1, quote)
    else if doc[i] == quote then (true, i + 1)
    else ScanString(doc, i + 1, quote)
  }

  lemma ScanHex(doc: Bytes, i: nat, h: Bytes)
    requires IsHex4(h) && At(doc, i, PrintHex(h))
    ensures ScanString(doc, i, QUOTE) == ScanString(doc, i + 6, QUOTE)
  {
    AtHex(doc, i, h);
    AtByte(doc, i + 2, h, 0);
    AtByte(doc, i + 2, h, 1);
    AtByte(doc, i + 2, h, 2);
    AtByte(doc, i + 2, h, 3);
    assert ScanString(doc, i, QUOTE) == ScanString(doc, i + 3, QUOTE);
    assert ScanString(doc, i + 3, QUOTE) == ScanString(doc, i + 5, QUOTE);
  }

  lemma ScanChar(doc: Bytes, i: nat, c: StringChar)
    requires WellFormedChar(c) && At(doc, i, PrintChar(c))
    ensures ScanString(doc, i, QUOTE) == ScanString(doc, i + |PrintChar(c)|, QUOTE)
  {
    match c
    case Raw(b) => AtByte(doc, i, [b], 0);
    case Escaped(e) =>
      AtByte(doc, i, [BACKSLASH, e], 0);
    case Unicode(h) => ScanHex(doc, i, h);
    case Pair(h, l) =>
      AtAppend(doc, i, PrintHex(h), PrintHex(l));
      ScanHex(doc, i, h);
      ScanHex(doc, i + 6, l);
  }

  lemma ScanEnd(doc: Bytes, i: nat)
    requires At(doc, i, [QUOTE])
    ensures ScanString(doc, i, QUOTE) == (true, i + 1)
  {
    AtByte(doc, i, [QUOTE], 0);
  }

  /** The scanner stops right after the closing quote of a literal, whatever follows it. */
  lemma {:induction false} ScanLiteral(doc: Bytes, i: nat, cs: seq<StringChar>)
    requires WellFormedChars(cs) && At(doc, i, PrintChars(cs)) && At(doc, i + |PrintChars(cs)|, [QUOTE])
    ensures ScanString(doc, i, QUOTE) == (true, i + |PrintChars(cs)| + 1)
    decreases |cs|
  {
    hide ScanString, PrintChar;
    if cs == [] {
      ScanEnd(doc, i);
    } else {
      var head, tail := PrintChar(cs[0]), PrintChars(cs[1..]);
      AtAppend(doc, i, head, tail);
      ScanChar(doc, i, cs[0]);
      ScanLiteral(doc, i + |head|, cs[1..]);
    }
  }

  // Decoding

  // Either the decoded bytes, or the message and the offset in the body where decoding gave up.
  datatype Decoded = Good(s: Bytes) | Bad(message: Message, at: nat)

  datatype CodePoint = CodePointAt(cp: nat, next: nat) | NoCodePoint(message: Message, at: nat)

  function Prepend(s: Bytes, d: Decoded): Decoded {
    if d.Good? then Good(s + d.s) else d
  }

  /** `decodeUnicodeEscapeSequence` at offset `i` of a string body. */
  function DecodeHex(s: Bytes, i: nat): (r: CodePoint)
    requires i <= |s|
    ensures r.CodePointAt? ==> r.next == i + 4 <= |s| && IsHex4(s[i..i + 4]) && r.cp == HexValue(s[i..i + 4])
    ensures r.NoCodePoint? ==> i <= r.at <= |s|
  {
    if |s| - i < 4 then NoCodePoint(FourDigitsExpected, i)
    else if HexNibble(s[i]).None? then NoCodePoint(HexDigitExpected, i + 1)
    else if HexNibble(s[i + 1]).None? then NoCodePoint(HexDigitExpected, i + 2)
    else if HexNibble(s[i + 2]).None? then NoCodePoint(HexDigitExpected, i + 3)
    else if HexNibble(s[i + 3]).None? then NoCodePoint(HexDigitExpected, i + 4)
    else CodePointAt(HexValue(s[i..i + 4]), i + 4)
  }

  /** `decodeUnicodeCodePoint` at offset `i` of a string body. */
  function DecodeCodePoint(s: Bytes, i: nat): (r: CodePoint)
    requires i <= |s|
    ensures r.CodePointAt? ==> i < r.next <= |s|
    ensures r.NoCodePoint? ==> i <= r.at <= |s|
  {
    var first := DecodeHex(s, i);
    if first.NoCodePoint? || !IsHighSurrogate(first.cp) then first
    else if |s| - first.next < 6 then NoCodePoint(SixCharactersExpected, first.next)
    else if s[first.next] != BACKSLASH then NoCodePoint(SecondHalfExpected, first.next + 1)
    else if s[first.next + 1] != LETTER_U then NoCodePoint(SecondHalfExpected, first.next + 2)
    else
      var second := DecodeHex(s, first.next + 2);
      if second.NoCodePoint? then second else CodePointAt(JoinSurrogates(first.cp, second.cp), second.next)
  }

  /** `decodeString` from offset `i` of the text between the quotes. */
  function DecodeFrom(s: Bytes, i: nat): (d: Decoded)
    requires i <= |s|
    ensures d.Bad? ==> d.at <= |s|
    decreases |s| - i
  {
    if i == |s| || s[i] == QUOTE then Good([])
    else if s[i] != BACKSLASH then Prepend([s[i]], DecodeFrom(s, i + 1))
    else if i + 1 == |s| then Bad(EmptyEscape, i + 1)
    else if s[i + 1] == LETTER_U then
      match DecodeCodePoint(s, i + 2)
      case CodePointAt(cp, next) => Prepend(CodePointToUtf8(cp), DecodeFrom(s, next))
      case NoCodePoint(message, at) => Bad(message, at)
    else
      match EscapedByte(s[i + 1])
      case Some(b) => Prepend([b], DecodeFrom(s, i + 2))
      case None => Bad(BadEscape, i + 2)
  }

  lemma DecodeHexAt(s: Bytes, i: nat, h: Bytes)
    requires IsHex4(h) && At(s, i, h)
    ensures DecodeHex(s, i) == CodePointAt(HexValue(h), i + 4)
  {
    AtByte(s, i, h, 0);
    AtByte(s, i, h, 1);
    AtByte(s, i, h, 2);
    AtByte(s, i, h, 3);
  }

  lemma DecodeChar(s: Bytes, i: nat, c: StringChar)
    requires WellFormedChar(c) && At(s, i, PrintChar(c))
    ensures DecodeFrom(s, i) == Prepend(CharMeaning(c), DecodeFrom(s, i + |PrintChar(c)|))
  {
    hide HexValue, HexNibble, DecodeHex, JoinSurrogates, CodePointToUtf8;
    match c
    case Raw(b) => AtByte(s, i, [b], 0);
    case Escaped(e) =>
      AtByte(s, i, [BACKSLASH, e], 0);
      AtByte(s, i, [BACKSLASH, e], 1);
    case Unicode(h) =>
      AtHex(s, i, h);
      DecodeHexAt(s, i + 2, h);
    case Pair(h, l) => DecodePair(s, i, h, l);
  }

  lemma DecodePair(s: Bytes, i: nat, h: Bytes, l: Bytes)
    requires WellFormedChar(Pair(h, l)) && At(s, i, PrintHex(h) + PrintHex(l))
    ensures DecodeFrom(s, i) == Prepend(CharMeaning(Pair(h, l)), DecodeFrom(s, i + |PrintHex(h) + PrintHex(l)|))
  {
    hide HexValue, HexNibble, DecodeHex, JoinSurrogates, CodePointToUtf8, At;
    AtAppend(s, i, PrintHex(h), PrintHex(l));
    AtHex(s, i, h);
    AtHex(s, i + 6, l);
    DecodeHexAt(s, i + 2, h);
    DecodeHexAt(s, i + 8, l);
  }

  lemma DecodeEnd(s: Bytes)
    ensures DecodeFrom(s, |s|) == Good([])
  {
  }

  lemma {:induction false} DecodeChars(s: Bytes, i: nat, cs: seq<StringChar>)
    requires WellFormedChars(cs) && At(s, i, PrintChars(cs)) && i + |PrintChars(cs)| == |s|
    ensures DecodeFrom(s, i) == Good(CharsMeaning(cs))
    decreases |cs|
  {
    hide DecodeFrom, PrintChar, CharMeaning, WellFormedChar;
    if cs != [] {
      var head, tail := PrintChar(cs[0]), PrintChars(cs[1..]);
      AtAppend(s, i, head, tail);
      DecodeChars(s, i + |head|, cs[1..]);
      DecodeChar(s, i, cs[0]);
    } else {
      DecodeEnd(s);
    }
  }

  /** Decoding the text between the quotes of a literal gives the bytes the literal denotes. */
  lemma DecodeLiteral(cs: seq<StringChar>)
    requires WellFormedChars(cs)
    ensures DecodeFrom(PrintChars(cs), 0) == Good(CharsMeaning(cs))
  {
    DecodeChars(PrintChars(cs), 0, cs);
  }

  // Quoting

  function HexDigit(d: nat): (b: Byte)
    requires d < 16
    ensures HexNibble(b) == Some(d)
  {
    if d < 10 then ZERO + d else 0x61 + (d - 10)
  }

  /** `toHex16Bit`: the low 16 bits in four lower-case digits. */
  function ToHex16(x: nat): (h: Bytes)
    ensures IsHex4(h)
  {
    [HexDigit(x / 0x1000 % 16), HexDigit(x / 0x100 % 16), HexDigit(x / 16 % 16), HexDigit(x % 16)]
  }

  lemma HexRoundTrip(x: nat)
    requires x < 0x1_0000
    ensures HexValue(ToHex16(x)) == x
  {
    assert x / 0x1000 == x / 16 / 16 / 16 && x / 0x100 == x / 16 / 16;
  }

  function ShortEscape(b: Byte): Option<Byte> {
    if b == QUOTE || b == BACKSLASH then Some(b)
    else if b == 0x08 then Some(LETTER_B)
    else if b == 0x0C then Some(LETTER_F)
    else if b == LF then Some(LETTER_N)
    else if b == CR then Some(LETTER_R)
    else if b == TAB then Some(LETTER_T)
    else None
  }

  /** One turn of the quoting loop at the front of `s`: what it writes and how many bytes it consumes. */
  function QuoteHead(s: Bytes): (r: (seq<StringChar>, nat))
    requires s != []
    ensures 0 < r.1 <= |s|
  {
    match ShortEscape(s[0])
    case Some(c) => ([Escaped(c)], 1)
    case None =>
      var (cp, n) := Utf8ToCodepoint(s);
      if 0x20 <= cp < 0x80 then ([Raw(cp)], n)
      else if cp < 0x1_0000 then ([Unicode(ToHex16(cp))], n)
      else
        var high, low := ToHex16(HighHalf(cp)), ToHex16(LowHalf(cp));
        if cp <= 0x10FFFF then ([Pair(high, low)], n) else ([Unicode(high), Unicode(low)], n)
  }

  /** The characters `valueToQuotedStringN` writes between the quotes. */
  function QuoteChars(s: Bytes): seq<StringChar> {
    if s == [] then []
    else
      var (cs, n) := QuoteHead(s);
      cs + QuoteChars(s[n..])
  }

  function Quoted(s: Bytes): Bytes {
    [QUOTE] + PrintChars(QuoteChars(s)) + [QUOTE]
  }

  /** What reading back a quoted string gives: ill-formed sequences are replaced. */
  function Repaired(s: Bytes): Bytes {
    if s == [] then []
    else
      var (cp, n) := Utf8ToCodepoint(s);
      Rewritten(cp) + Repaired(s[n..])
  }

  lemma ConvertedRange(s: Bytes)
    requires s != []
    ensures var (cp, n) := Utf8ToCodepoint(s);
            cp <= 0x1F_FFFF && !(0xD800 <= cp <= 0xDFFF) && (cp < 0x80 ==> cp == s[0] && n == 1)
  {
  }

  lemma OneChar(c: StringChar)
    ensures PrintChars([c]) == PrintChar(c)
    ensures WellFormedChar(c) ==> CharsMeaning([c]) == CharMeaning(c)
  {
    assert PrintChars([c]) == PrintChar(c) + [];
    if WellFormedChar(c) {
      assert CharsMeaning([c]) == CharMeaning(c) + [];
    }
  }

  lemma TwoChars(c: StringChar, d: StringChar)
    ensures PrintChars([c, d]) == PrintChar(c) + PrintChar(d)
    ensures WellFormedChar(c) && WellFormedChar(d) ==> CharsMeaning([c, d]) == CharMeaning(c) + CharMeaning(d)
  {
    OneChar(c);
    OneChar(d);
    assert [c, d] == [c] + [d];
    PrintCharsAppend([c], [d]);
    if WellFormedChar(c) && WellFormedChar(d) {
      CharsMeaningAppend([c], [d]);
    }
  }

  // The two halves written for a code point beyond the basic plane.
  function HighHalf(cp: nat): nat
    requires cp >= 0x1_0000
  {
    (cp - 0x1_0000) / 0x400 + 0xD800
  }

  function LowHalf(cp: nat): nat
    requires cp >= 0x1_0000
  {
    (cp - 0x1_0000) % 0x400 + 0xDC00
  }

  lemma SplitSurrogates(cp: nat)
    requires 0x1_0000 <= cp <= 0x1F_FFFF
    ensures 0xD800 <= HighHalf(cp) <= 0xDFBF && 0xDC00 <= LowHalf(cp) <= 0xDFFF
    ensures IsHighSurrogate(HighHalf(cp)) <==> cp <= 0x10FFFF
    ensures cp <= 0x10FFFF ==> JoinSurrogates(HighHalf(cp), LowHalf(cp)) == cp
  {
    var q := cp - 0x1_0000;
    var a, b := q / 0x400, q % 0x400;
    assert q == a * 0x400 + b;
    assert (b + 0xDC00) % 0x400 == b;
    if cp <= 0x10FFFF {
      assert a < 0x400;
      assert (a + 0xD800) % 0x400 == a;
    }
  }

  /** What a converted code point becomes once it has been written as escapes and read again. */
  function Rewritten(cp: nat): Bytes {
    if cp <= 0x10FFFF then CodePointToUtf8(cp)
    else CodePointToUtf8(HighHalf(cp)) + CodePointToUtf8(LowHalf(cp))
  }

  lemma QuoteHeadMeaning(s: Bytes)
    requires s != []
    ensures var (cs, n) := QuoteHead(s);
            && n == Utf8ToCodepoint(s).1
            && WellFormedChars(cs)
            && CharsMeaning(cs) == Rewritten(Utf8ToCodepoint(s).0)
  {
    ConvertedRange(s);
    var (cs, n) := QuoteHead(s);
    var cp := Utf8ToCodepoint(s).0;
    if ShortEscape(s[0]).Some? || 0x20 <= cp < 0x80 {
      OneChar(cs[0]);
    } else if cp < 0x1_0000 {
      HexRoundTrip(cp);
      OneChar(cs[0]);
    } else {
      SplitSurrogates(cp);
      HexRoundTrip(HighHalf(cp));
      HexRoundTrip(LowHalf(cp));
      if cp <= 0x10FFFF {
        OneChar(cs[0]);
      } else {
        TwoChars(cs[0], cs[1]);
      }
    }
  }

  lemma {:induction false} QuoteCharsMeaning(s: Bytes)
    ensures WellFormedChars(QuoteChars(s))
    ensures CharsMeaning(QuoteChars(s)) == Repaired(s)
  {
    if s != [] {
      var (cs, n) := QuoteHead(s);
      QuoteHeadMeaning(s);
      QuoteCharsMeaning(s[n..]);
      CharsMeaningAppend(cs, QuoteChars(s[n..]));
    }
  }

  predicate Printable(s: Bytes) {
    forall k :: 0 <= k < |s| ==> 0x20 <= s[k] <= 0x7F
  }

  lemma {:induction false} QuotedIsPrintable(s: Bytes)
    ensures Printable(Quoted(s))
  {
    QuoteCharsArePrintable(s);
  }

  lemma QuoteHeadIsPrintable(s: Bytes)
    requires s != []
    ensures Printable(PrintChars(QuoteHead(s).0))
  {
    hide Utf8ToCodepoint, PrintChars, QuoteChars;
    ConvertedRange(s);
    var cs := QuoteHead(s).0;
    if |cs| == 1 {
      OneChar(cs[0]);
    } else {
      TwoChars(cs[0], cs[1]);
    }
  }

  lemma {:induction false} QuoteCharsArePrintable(s: Bytes)
    ensures Printable(PrintChars(QuoteChars(s)))
  {
    if s != [] {
      var (cs, n) := QuoteHead(s);
      QuoteCharsArePrintable(s[n..]);
      PrintCharsAppend(cs, QuoteChars(s[n..]));
      QuoteHeadIsPrintable(s);
    }
  }

  lemma QuotedAt(s: Bytes, doc: Bytes, i: nat)
    requires At(doc, i, Quoted(s))
    ensures var body := PrintChars(QuoteChars(s));
            && |Quoted(s)| == |body| + 2
            && At(doc, i, [QUOTE]) && At(doc, i + 1, body) && At(doc, i + 1 + |body|, [QUOTE])
  {
    hide At, PrintChars, QuoteChars;
    var body := PrintChars(QuoteChars(s));
    AtAppend(doc, i, [QUOTE] + body, [QUOTE]);
    AtAppend(doc, i, [QUOTE], body);
  }

  /** Reading a quoted string back: framing and decoding succeed for arbitrary bytes, whatever follows. */
  lemma QuotedReadsBack(s: Bytes, doc: Bytes, i: nat)
    requires At(doc, i, Quoted(s))
    ensures ScanString(doc, i + 1, QUOTE) == (true, i + |Quoted(s)|)
    ensures DecodeFrom(doc[i + 1..i + |Quoted(s)| - 1], 0) == Good(Repaired(s))
  {
    hide QuoteChars, PrintChars, ScanString, DecodeFrom, CharsMeaning, WellFormedChars, Repaired;
    QuotedAt(s, doc, i);
    QuoteCharsMeaning(s);
    ScanLiteral(doc, i + 1, QuoteChars(s));
    DecodeLiteral(QuoteChars(s));
  }

  /** The round trip is the identity exactly on valid UTF-8. */
  lemma {:induction false} RepairedIffValid(s: Bytes)
    ensures Repaired(s) == s <==> ValidUtf8(s)
  {
    hide Utf8ToCodepoint, CodePointToUtf8;
    if s != [] {
      var (cp, n) := Utf8ToCodepoint(s);
      RepairedIffValid(s[n..]);
      if WellFormedLength(s) > 0 {
        WellFormedHead(s);
        assert s == s[..n] + s[n..];
        assert Repaired(s) == s[..n] + Repaired(s[n..]);
        assert Repaired(s)[n..] == Repaired(s[n..]);
      } else {
        IllFormedHead(s);
        assert Repaired(s) == Rewritten(cp) + Repaired(s[n..]);
        ConvertedRange(s);
        RewrittenStart(cp);
      }
    }
  }

  lemma RewrittenStart(cp: nat)
    requires cp <= 0x1F_FFFF
    ensures cp <= 0x10FFFF ==> Rewritten(cp) == CodePointToUtf8(cp)
    ensures cp > 0x10FFFF ==> Rewritten(cp) != [] && Rewritten(cp)[0] == 0xED
  {
    if cp > 0x10FFFF {
      SplitSurrogates(cp);
      assert CodePointToUtf8(HighHalf(cp))[0] == 0xED;
    }
  }

  // The imperative forms

  // A byte as a signed `char`.
  function Signed(b: Byte): int {
    if b < 0x80 then b else b as int - 0x100
  }

  /** `isAnyCharRequiredQuoting`, on a platform whose `char` is signed. */
  method IsAnyCharRequiredQuoting(s: Bytes) returns (r: bool)
    ensures r <==> s != []
  {
    for cur := 0 to |s|
      invariant cur == 0
    {
      var c := Signed(s[cur]);
      if c == BACKSLASH || c == QUOTE || c < SPACE || s[cur] < 0x80 {
        return true;
      }
    }
    return false;
  }

  lemma EmptyPrint()
    ensures PrintChars(QuoteChars([])) == []
  {
  }

  lemma QuoteStep(s: Bytes)
    requires s != []
    ensures var (cs, n) := QuoteHead(s);
            PrintChars(QuoteChars(s)) == PrintChars(cs) + PrintChars(QuoteChars(s[n..]))
  {
    hide PrintChars, QuoteHead;
    var (cs, n) := QuoteHead(s);
    PrintCharsAppend(cs, QuoteChars(s[n..]));
  }

  /** `valueToQuotedStringN` on a non-null pointer. */
  method ValueToQuotedStringN(value: Bytes) returns (result: Bytes)
    ensures result == Quoted(value)
  {
    hide PrintChars, QuoteHead, QuoteChars;
    var quoting := IsAnyCharRequiredQuoting(value);
    if !quoting {
      EmptyPrint();
      return [QUOTE] + value + [QUOTE];
    }
    result := [QUOTE];
    var c := 0;
    while c != |value|
      invariant 0 <= c <= |value|
      invariant result + PrintChars(QuoteChars(value[c..])) == [QUOTE] + PrintChars(QuoteChars(value))
      decreases |value| - c
    {
      QuoteStep(value[c..]);
      var text, consumed := QuoteOne(value[c..]);
      assert value[c..][consumed..] == value[c + consumed..];
      result := result + text;
      c := c + consumed;
    }
    assert value[c..] == [];
    EmptyPrint();
    result := result + [QUOTE];
  }

  /** One turn of the `switch` in `valueToQuotedStringN`. */
  method QuoteOne(s: Bytes) returns (text: Bytes, consumed: nat)
    requires s != []
    ensures text == PrintChars(QuoteHead(s).0) && consumed == QuoteHead(s).1
  {
    hide Utf8ToCodepoint, PrintChars, CharsMeaning, WellFormedChar;
    ghost var cs := QuoteHead(s).0;
    if |cs| == 1 {
      OneChar(cs[0]);
    } else {
      TwoChars(cs[0], cs[1]);
    }
    var escape := ShortEscape(s[0]);
    if escape.Some? {
      return [BACKSLASH, escape.value], 1;
    }
    var converted := Utf8ToCodepoint(s);
    var cp := converted.0;
    consumed := converted.1;
    if cp < 0x80 && cp >= 0x20 {
      text := [cp];
    } else if cp < 0x1_0000 {
      text := [BACKSLASH, LETTER_U];
      text := text + ToHex16(cp);
    } else {
      cp := cp - 0x1_0000;
      text := [BACKSLASH, LETTER_U];
      text := text + ToHex16(cp / 0x400 + 0xD800);
      text := text + [BACKSLASH, LETTER_U];
      text := text + ToHex16(cp % 0x400 + 0xDC00);
    }
  }

  /** The first half of `decodeString`'s work: the body of a token, without its quotes. */
  method DecodeString(s: Bytes) returns (r: Decoded)
    ensures r == DecodeFrom(s, 0)
  {
    var decoded: Bytes := [];
    var current := 0;
    while current != |s|
      invariant 0 <= current <= |s|
      invariant DecodeFrom(s, 0) == Prepend(decoded, DecodeFrom(s, current))
      decreases |s| - current
    {
      ghost var at := current;
      ghost var before := decoded;
      var c := s[current];
      current := current + 1;
      if c == QUOTE {
        break;
      } else if c == BACKSLASH {
        if current == |s| {
          return Bad(EmptyEscape, current);
        }
        var escape := s[current];
        current := current + 1;
        if escape == LETTER_U {
          var unicode := DecodeUnicodeCodePoint(s, current);
          if unicode.NoCodePoint? {
            return Bad(unicode.message, unicode.at);
          }
          current := unicode.next;
          decoded := decoded + CodePointToUtf8(unicode.cp);
        } else if EscapedByte(escape).Some? {
          decoded := decoded + [EscapedByte(escape).value];
        } else {
          return Bad(BadEscape, current);
        }
      } else {
        decoded := decoded + [c];
      }
      PrependTwice(before, decoded[|before|..], DecodeFrom(s, current));
      assert decoded == before + decoded[|before|..];
    }
    return Good(decoded);
  }

  lemma PrependTwice(a: Bytes, b: Bytes, d: Decoded)
    ensures Prepend(a, Prepend(b, d)) == Prepend(a + b, d)
  {
    if d.Good? {
      assert a + (b + d.s) == a + b + d.s;
    }
  }

  method DecodeUnicodeCodePoint(s: Bytes, start: nat) returns (r: CodePoint)
    requires start <= |s|
    ensures r == DecodeCodePoint(s, start)
  {
    r := DecodeUnicodeEscapeSequence(s, start);
    if r.NoCodePoint? {
      return;
    }
    var current, unicode := r.next, r.cp;
    if unicode >= 0xD800 && unicode <= 0xDBFF {
      if |s| - current < 6 {
        return NoCodePoint(SixCharactersExpected, current);
      }
      current := current + 1;
      var matched := s[current - 1] == BACKSLASH;
      if matched {
        current := current + 1;
        matched := s[current - 1] == LETTER_U;
      }
      if !matched {
        return NoCodePoint(SecondHalfExpected, current);
      }
      var second := DecodeUnicodeEscapeSequence(s, current);
      if second.NoCodePoint? {
        return second;
      }
      return CodePointAt(0x1_0000 + unicode % 0x400 * 0x400 + second.cp % 0x400, second.next);
    }
  }

  method DecodeUnicodeEscapeSequence(s: Bytes, start: nat) returns (r: CodePoint)
    requires start <= |s|
    ensures r == DecodeHex(s, start)
  {
    if |s| - start < 4 {
      return NoCodePoint(FourDigitsExpected, start);
    }
    var unicode := 0;
    var current := start;
    ghost var values: seq<nat> := [];
    for index := 0 to 4
      invariant current == start + index
      invariant |values| == index
      invariant forall k :: 0 <= k < index ==> HexNibble(s[start + k]) == Some(values[k])
      invariant unicode == (if index == 0 then 0 else if index == 1 then values[0]
                            else if index == 2 then values[0] * 16 + values[1]
                            else if index == 3 then (values[0] * 16 + values[1]) * 16 + values[2]
                            else ((values[0] * 16 + values[1]) * 16 + values[2]) * 16 + values[3])
    {
      var nibble := HexNibble(s[current]);
      current := current + 1;
      if nibble.None? {
        assert index > 0 ==> HexNibble(s[start + 0]).Some?;
        assert index > 1 ==> HexNibble(s[start + 1]).Some?;
        assert index > 2 ==> HexNibble(s[start + 2]).Some?;
        return NoCodePoint(HexDigitExpected, current);
      }
      unicode := unicode * 16 + nibble.value;
      values := values + [nibble.value];
    }
    assert HexNibble(s[start + 0]) == Some(values[0]) && HexNibble(s[start + 1]) == Some(values[1]);
    assert HexNibble(s[start + 2]) == Some(values[2]) && HexNibble(s[start + 3]) == Some(values[3]);
    return CodePointAt(unicode, current);
  }
}
