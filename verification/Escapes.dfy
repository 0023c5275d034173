/**
  String literals byte by byte, as section 7 of RFC 8259 has them: which byte each escape stands for,
  what four hexadecimal digits are worth, and which escapes the writer uses. All of it in numbers and
  ASCII text, without the names the codec uses for them.
 */
module Escapes {
  import opened Basics
  import opened Errors
  import opened JsonStrings
  import opened Utf8

  // Reading

  // What decoding gives when `n` bytes that stand for `s` come first.
  function Behind(s: Bytes, n: nat, d: Decoded): Decoded {
    match d
    case Good(t) => Good(s + t)
    case Bad(m, at) => Bad(m, n + at)
  }

  lemma HexShift(a: Bytes, s: Bytes, i: nat)
    requires i <= |s|
    ensures DecodeHex(a + s, |a| + i) == match DecodeHex(s, i)
                                         case CodePointAt(cp, next) => CodePointAt(cp, |a| + next)
                                         case NoCodePoint(m, at) => NoCodePoint(m, |a| + at)
  {
    var t := a + s;
    assert forall k :: 0 <= k < |s| ==> t[|a| + k] == s[k];
    if i + 4 <= |s| {
      assert t[|a| + i..|a| + i + 4] == s[i..i + 4];
    }
  }

  lemma CodePointShift(a: Bytes, s: Bytes, i: nat)
    requires i <= |s|
    ensures DecodeCodePoint(a + s, |a| + i) == match DecodeCodePoint(s, i)
                                               case CodePointAt(cp, next) => CodePointAt(cp, |a| + next)
                                               case NoCodePoint(m, at) => NoCodePoint(m, |a| + at)
  {
    hide DecodeHex, JoinSurrogates;
    var t := a + s;
    assert forall k :: 0 <= k < |s| ==> t[|a| + k] == s[k];
    HexShift(a, s, i);
    var first := DecodeHex(s, i);
    if first.CodePointAt? && |s| - first.next >= 6 {
      HexShift(a, s, first.next + 2);
    }
  }

  /** Decoding does not look back. */
  lemma {:induction false} DecodeShift(a: Bytes, s: Bytes, i: nat)
    requires i <= |s|
    ensures DecodeFrom(a + s, |a| + i) == Behind([], |a|, DecodeFrom(s, i))
    decreases |s| - i
  {
    hide DecodeCodePoint, EscapedByte, CodePointToUtf8;
    var t := a + s;
    assert (i < |s| ==> t[|a| + i] == s[i]) && (i + 1 < |s| ==> t[|a| + (i + 1)] == s[i + 1]);
    if i < |s| && s[i] != QUOTE {
      if s[i] != BACKSLASH {
        DecodeShift(a, s, i + 1);
      } else if i + 1 < |s| {
        if s[i + 1] == LETTER_U {
          CodePointShift(a, s, i + 2);
          match DecodeCodePoint(s, i + 2)
          case CodePointAt(cp, next) => DecodeShift(a, s, next);
          case NoCodePoint(_, _) =>
        } else if EscapedByte(s[i + 1]).Some? {
          DecodeShift(a, s, i + 2);
        }
      }
    }
  }

  lemma DecodeTail(a: Bytes, rest: Bytes)
    ensures DecodeFrom(a + rest, |a|) == Behind([], |a|, DecodeFrom(rest, 0))
  {
    DecodeShift(a, rest, 0);
  }

  /** Quotation mark, reverse solidus, solidus, b, f, n, r, t. */
  const SHORT_ESCAPES: map<Byte, Byte> :=
    map[0x22 := 0x22, 0x5C := 0x5C, 0x2F := 0x2F, 0x62 := 0x08, 0x66 := 0x0C, 0x6E := 0x0A, 0x72 := 0x0D, 0x74 := 0x09]

  lemma EscapedByteIs(c: Byte)
    ensures EscapedByte(c) == if c in SHORT_ESCAPES then Some(SHORT_ESCAPES[c]) else None
    ensures c in SHORT_ESCAPES ==> c != 0x75
  {
  }

  /** The eight two-byte escapes stand for these bytes, and no other letter but `u` may follow a backslash. */
  lemma ShortEscapeReads(c: Byte, rest: Bytes)
    ensures c in SHORT_ESCAPES ==>
              DecodeFrom([0x5C, c] + rest, 0) == Behind([SHORT_ESCAPES[c]], 2, DecodeFrom(rest, 0))
    ensures c !in SHORT_ESCAPES && c != 0x75 ==> DecodeFrom([0x5C, c] + rest, 0) == Bad(BadEscape, 2)
    ensures DecodeFrom([0x5C], 0) == Bad(EmptyEscape, 1)
  {
    hide EscapedByte, DecodeCodePoint;
    EscapedByteIs(c);
    DecodeTail([0x5C, c], rest);
    var s := [0x5C, c] + rest;
    assert s[0] == 0x5C && s[1] == c;
  }

  /** Any other byte stands for itself, whatever it is, and a quotation mark ends the string. */
  lemma PlainByteReads(b: Byte, rest: Bytes)
    ensures b != 0x22 && b != 0x5C ==> DecodeFrom([b] + rest, 0) == Behind([b], 1, DecodeFrom(rest, 0))
    ensures DecodeFrom([0x22] + rest, 0) == Good([]) && DecodeFrom([], 0) == Good([])
  {
    hide EscapedByte, DecodeCodePoint;
    DecodeTail([b], rest);
    assert ([b] + rest)[0] == b;
  }

  // Hexadecimal digits

  const LOWER: string := "0123456789abcdef"
  const UPPER: string := "0123456789ABCDEF"

  /** The byte is the digit for `d`, in either case. */
  predicate IsDigit16(b: Byte, d: nat) {
    d < 16 && (b == LOWER[d] as int || b == UPPER[d] as int)
  }

  lemma NibbleIs(b: Byte)
    ensures forall d :: 0 <= d < 16 ==> (IsDigit16(b, d) <==> HexNibble(b) == Some(d))
    ensures HexNibble(b).None? <==> forall d :: 0 <= d < 16 ==> !IsDigit16(b, d)
  {
    forall d | 0 <= d < 16 ensures IsDigit16(b, d) <==> HexNibble(b) == Some(d) {
      DigitTable(d);
    }
    if HexNibble(b).Some? {
      assert HexNibble(b) == Some(HexNibble(b).value);
    }
  }

  lemma DigitTable(d: nat)
    requires d < 16
    ensures LOWER[d] as int == (if d < 10 then 0x30 + d else 0x57 + d)
    ensures UPPER[d] as int == (if d < 10 then 0x30 + d else 0x37 + d)
  {
  }

  /** The value of four digits, the first the most significant. */
  ghost predicate IsNumeral16(h: Bytes, x: nat) {
    && |h| == 4
    && exists a: nat, b: nat, c: nat, d: nat ::
         && IsDigit16(h[0], a) && IsDigit16(h[1], b) && IsDigit16(h[2], c) && IsDigit16(h[3], d)
         && x == a * 0x1000 + b * 0x100 + c * 0x10 + d
  }

  lemma NumeralIs(h: Bytes, x: nat)
    requires IsNumeral16(h, x)
    ensures IsHex4(h) && HexValue(h) == x
  {
    hide HexNibble, IsDigit16;
    var a: nat, b: nat, c: nat, d: nat :| && IsDigit16(h[0], a) && IsDigit16(h[1], b) && IsDigit16(h[2], c) && IsDigit16(h[3], d)
                      && x == a * 0x1000 + b * 0x100 + c * 0x10 + d;
    DigitBelow(h[0], a); DigitBelow(h[1], b); DigitBelow(h[2], c); DigitBelow(h[3], d);
    NibbleIs(h[0]); NibbleIs(h[1]); NibbleIs(h[2]); NibbleIs(h[3]);
  }

  lemma DigitBelow(b: Byte, d: nat)
    requires IsDigit16(b, d)
    ensures d < 16
  {
  }

  /** `s` is the UTF-8 form of `cp`: the table of section 3 of RFC 3629. */
  predicate IsUtf8Of(s: seq<int>, cp: nat) {
    if cp < 0x80 then s == [cp]
    else if cp < 0x800 then
      |s| == 2 && 0xC0 <= s[0] < 0xE0 && 0x80 <= s[1] < 0xC0 && cp == (s[0] - 0xC0) * 0x40 + (s[1] - 0x80)
    else if cp < 0x1_0000 then
      && |s| == 3 && 0xE0 <= s[0] < 0xF0 && 0x80 <= s[1] < 0xC0 && 0x80 <= s[2] < 0xC0
      && cp == (s[0] - 0xE0) * 0x1000 + (s[1] - 0x80) * 0x40 + (s[2] - 0x80)
    else
      && |s| == 4 && 0xF0 <= s[0] < 0xF8 && 0x80 <= s[1] < 0xC0 && 0x80 <= s[2] < 0xC0 && 0x80 <= s[3] < 0xC0
      && cp == (s[0] - 0xF0) * 0x4_0000 + (s[1] - 0x80) * 0x1000 + (s[2] - 0x80) * 0x40 + (s[3] - 0x80)
  }

  lemma EncodedIs(cp: nat)
    requires cp <= 0x10FFFF
    ensures IsUtf8Of(CodePointToUtf8(cp), cp)
  {
    hide CodePointToUtf8;
    var x, y, z, u := SixBits(cp);
    if cp < 0x80 {
      OneByte(cp);
    } else if cp < 0x800 {
      Encode2(y, x);
    } else if cp < 0x1_0000 {
      Encode3(z, y, x);
    } else {
      Encode4(u, z, y, x);
    }
  }

  lemma OneByte(cp: nat)
    requires cp < 0x80
    ensures CodePointToUtf8(cp) == [cp]
  {
  }

  // A number in digits of six bits.
  lemma SixBits(cp: nat) returns (x: nat, y: nat, z: nat, u: nat)
    ensures x < 0x40 && y < 0x40 && z < 0x40 && cp == u * 0x4_0000 + z * 0x1000 + y * 0x40 + x
  {
    var a := cp / 0x40;
    var b := a / 0x40;
    x, y, z, u := cp % 0x40, a % 0x40, b % 0x40, b / 0x40;
    assert cp == a * 0x40 + x && a == b * 0x40 + y && b == u * 0x40 + z;
  }

  /** A code point outside the surrogates: four digits, in either case, give its UTF-8 form. */
  lemma UnicodeEscapeReads(h: Bytes, x: nat, rest: Bytes) returns (u: Bytes)
    requires IsNumeral16(h, x) && !(0xD800 <= x <= 0xDBFF)
    ensures IsUtf8Of(u, x) && DecodeFrom([0x5C, 0x75] + h + rest, 0) == Behind(u, 6, DecodeFrom(rest, 0))
  {
    hide HexValue, IsHex4, HexNibble, IsUtf8Of, IsNumeral16, CodePointToUtf8, DecodeHex;
    NumeralIs(h, x);
    NumeralBelow(h, x);
    EncodedIs(x);
    u := CodePointToUtf8(x);
    var s := [0x5C, 0x75] + h + rest;
    assert s[2..6] == h;
    DecodeHexAt(s, 2, h);
    DecodeTail([0x5C, 0x75] + h, rest);
  }

  lemma NumeralBelow(h: Bytes, x: nat)
    requires IsNumeral16(h, x)
    ensures |h| == 4 && x < 0x1_0000
  {
    NumeralIs(h, x);
  }

  /** A high surrogate with four more digits behind it: the code point the two halves make, of the second its last ten bits. */
  lemma SurrogatePairReads(h: Bytes, l: Bytes, high: nat, low: nat, rest: Bytes) returns (u: Bytes)
    requires IsNumeral16(h, high) && IsNumeral16(l, low) && 0xD800 <= high <= 0xDBFF
    ensures IsUtf8Of(u, 0x1_0000 + (high - 0xD800) * 0x400 + low % 0x400)
    ensures 0xDC00 <= low <= 0xDFFF ==> low % 0x400 == low - 0xDC00
    ensures DecodeFrom([0x5C, 0x75] + h + [0x5C, 0x75] + l + rest, 0) == Behind(u, 12, DecodeFrom(rest, 0))
  {
    hide HexValue, IsHex4, HexNibble, IsUtf8Of, IsNumeral16, CodePointToUtf8, DecodeHex;
    NumeralIs(h, high);
    NumeralIs(l, low);
    NumeralBelow(h, high);
    NumeralBelow(l, low);
    var cp := 0x1_0000 + (high - 0xD800) * 0x400 + low % 0x400;
    assert JoinSurrogates(high, low) == cp;
    EncodedIs(cp);
    u := CodePointToUtf8(cp);
    var a := [0x5C, 0x75] + h + [0x5C, 0x75] + l;
    var s := a + rest;
    assert s[2..6] == h && s[8..12] == l && s[6] == 0x5C && s[7] == 0x75;
    DecodeHexAt(s, 2, h);
    DecodeHexAt(s, 8, l);
    DecodeTail(a, rest);
  }

  ghost predicate IsHexDigit(b: Byte) {
    exists d: nat :: IsDigit16(b, d)
  }

  lemma HexDigitIs(b: Byte)
    ensures IsHexDigit(b) <==> HexNibble(b).Some?
  {
    hide IsDigit16, HexNibble;
    NibbleIs(b);
    if d: nat :| IsDigit16(b, d) {
      DigitBelow(b, d);
    }
  }

  /** The first byte that is no hexadecimal digit is where decoding gives up. */
  lemma BadDigitFound(h: Bytes, k: nat, rest: Bytes)
    requires k < |h| == 4 && !IsHexDigit(h[k]) && forall j :: 0 <= j < k ==> IsHexDigit(h[j])
    ensures DecodeFrom([0x5C, 0x75] + h + rest, 0) == Bad(HexDigitExpected, 2 + k + 1)
  {
    hide HexNibble, IsHexDigit, HexValue, EscapedByte;
    var s := [0x5C, 0x75] + h + rest;
    HexDigitIs(h[0]); HexDigitIs(h[1]); HexDigitIs(h[2]); HexDigitIs(h[3]);
    assert s[2] == h[0] && s[3] == h[1] && s[4] == h[2] && s[5] == h[3];
    assert DecodeHex(s, 2) == NoCodePoint(HexDigitExpected, 2 + k + 1);
  }

  lemma ShortUnicodeFound(s: Bytes)
    requires 2 <= |s| < 6 && s[0] == 0x5C && s[1] == 0x75
    ensures DecodeFrom(s, 0) == Bad(FourDigitsExpected, 2)
  {
  }

  // Where decoding gives up

  lemma NumeralOf(h: Bytes)
    requires IsHex4(h)
    ensures IsNumeral16(h, HexValue(h))
  {
    hide HexNibble, IsDigit16;
    NibbleIs(h[0]); NibbleIs(h[1]); NibbleIs(h[2]); NibbleIs(h[3]);
    var a, b, c, d := HexNibble(h[0]).value, HexNibble(h[1]).value, HexNibble(h[2]).value, HexNibble(h[3]).value;
    NibbleSmall(h[0]); NibbleSmall(h[1]); NibbleSmall(h[2]); NibbleSmall(h[3]);
    assert IsDigit16(h[0], a) && IsDigit16(h[1], b) && IsDigit16(h[2], c) && IsDigit16(h[3], d);
  }

  lemma NibbleSmall(b: Byte)
    ensures HexNibble(b).Some? ==> HexNibble(b).value < 16
  {
  }

  /** Four digits make the first half of a surrogate pair. */
  ghost predicate IsHighHalf(h: Bytes) {
    exists x: nat :: IsNumeral16(h, x) && 0xD800 <= x <= 0xDBFF
  }

  ghost predicate HighAt(s: Bytes, i: nat) {
    i + 4 <= |s| && IsHighHalf(s[i..i + 4])
  }

  /** The first byte from `i` on that is no hexadecimal digit is the one before `at`, one of four. */
  ghost predicate DigitMissing(s: Bytes, i: nat, at: nat) {
    && i < at <= i + 4 <= |s| && !IsHexDigit(s[at - 1])
    && forall j :: i <= j < at - 1 ==> IsHexDigit(s[j])
  }

  /**
    The escape at `k` is broken, and `at` is behind the first byte that shows it; where bytes are missing, it is
    where they are.
   */
  ghost predicate Broken(s: Bytes, k: nat, m: Message, at: nat) {
    && k < |s| && s[k] == 0x5C
    && match m
       case EmptyEscape => at == k + 1 == |s|
       case BadEscape => at == k + 2 <= |s| && s[k + 1] !in SHORT_ESCAPES && s[k + 1] != 0x75
       case FourDigitsExpected => k + 2 <= |s| < k + 6 && s[k + 1] == 0x75 && at == k + 2
       case HexDigitExpected =>
         && k + 2 <= |s| && s[k + 1] == 0x75
         && (DigitMissing(s, k + 2, at)
             || (HighAt(s, k + 2) && k + 12 <= |s| && s[k + 6] == 0x5C && s[k + 7] == 0x75 && DigitMissing(s, k + 8, at)))
       case SixCharactersExpected => k + 2 <= |s| < k + 12 && s[k + 1] == 0x75 && HighAt(s, k + 2) && at == k + 6
       case SecondHalfExpected =>
         && k + 12 <= |s| && s[k + 1] == 0x75 && HighAt(s, k + 2)
         && (if s[k + 6] != 0x5C then at == k + 7 else s[k + 7] != 0x75 && at == k + 8)
       case _ => false
  }

  lemma HexBreaks(s: Bytes, i: nat)
    requires i <= |s| && DecodeHex(s, i).NoCodePoint?
    ensures var d := DecodeHex(s, i);
            if |s| - i < 4 then d == NoCodePoint(FourDigitsExpected, i)
            else d.message == HexDigitExpected && DigitMissing(s, i, d.at)
  {
    hide HexNibble, IsHexDigit, HexValue;
    if |s| - i >= 4 {
      HexDigitIs(s[i]); HexDigitIs(s[i + 1]); HexDigitIs(s[i + 2]); HexDigitIs(s[i + 3]);
    }
  }

  lemma EscapeBreaks(s: Bytes, k: nat)
    requires k + 2 <= |s| && s[k] == 0x5C && s[k + 1] == 0x75 && DecodeCodePoint(s, k + 2).NoCodePoint?
    ensures var d := DecodeCodePoint(s, k + 2); Broken(s, k, d.message, d.at)
  {
    hide DecodeHex, HexValue, IsNumeral16, DigitMissing, IsHex4;
    var first := DecodeHex(s, k + 2);
    if first.NoCodePoint? {
      HexBreaks(s, k + 2);
    } else {
      NumeralOf(s[k + 2..k + 6]);
      assert HighAt(s, k + 2);
      if |s| - first.next >= 6 && s[k + 6] == 0x5C && s[k + 7] == 0x75 {
        HexBreaks(s, k + 8);
      }
    }
  }

  /** A character read from a longer string is read from the part that holds it. */
  lemma CodePointInPart(s: Bytes, i: nat, k: nat)
    requires i <= k <= |s| && DecodeCodePoint(s, i).CodePointAt? && DecodeCodePoint(s, i).next <= k
    ensures DecodeCodePoint(s[..k], i) == DecodeCodePoint(s, i)
  {
    hide HexNibble, HexValue, IsHex4;
    var t := s[..k];
    assert t[i..i + 4] == s[i..i + 4];
    if i + 10 <= k {
      assert t[i + 6..i + 10] == s[i + 6..i + 10];
    }
    if i + 12 <= k {
      assert t[i + 8..i + 12] == s[i + 8..i + 12];
    }
  }

  /** Decoding fails at the first broken escape: what stands before it can be decoded. */
  lemma {:induction false} DecodingBreaks(s: Bytes, i: nat) returns (k: nat)
    requires i <= |s| && DecodeFrom(s, i).Bad?
    ensures i <= k <= |s| && Broken(s, k, DecodeFrom(s, i).message, DecodeFrom(s, i).at) && DecodeFrom(s[..k], i).Good?
    decreases |s| - i
  {
    hide DecodeCodePoint, CodePointToUtf8, Broken;
    if s[i] != BACKSLASH {
      k := DecodingBreaks(s, i + 1);
    } else if i + 1 < |s| && s[i + 1] == LETTER_U && DecodeCodePoint(s, i + 2).CodePointAt? {
      k := DecodingBreaks(s, DecodeCodePoint(s, i + 2).next);
      CodePointInPart(s, i + 2, k);
    } else if i + 1 < |s| && s[i + 1] != LETTER_U && EscapedByte(s[i + 1]).Some? {
      k := DecodingBreaks(s, i + 2);
    } else {
      k := i;
      BreaksHere(s, i);
    }
  }

  lemma BreaksHere(s: Bytes, i: nat)
    requires i < |s| && s[i] == BACKSLASH && DecodeFrom(s, i).Bad?
    requires i + 1 < |s| && s[i + 1] == LETTER_U ==> DecodeCodePoint(s, i + 2).NoCodePoint?
    requires i + 1 < |s| && s[i + 1] != LETTER_U ==> EscapedByte(s[i + 1]).None?
    ensures Broken(s, i, DecodeFrom(s, i).message, DecodeFrom(s, i).at)
  {
    hide DecodeCodePoint, HighAt, DigitMissing;
    if i + 1 < |s| && s[i + 1] == LETTER_U {
      EscapeBreaks(s, i);
    }
  }

  // Writing

  function Body(s: Bytes): Bytes {
    PrintChars(QuoteChars(s))
  }

  lemma BodyStep(s: Bytes)
    requires s != []
    ensures var (cs, n) := QuoteHead(s); Body(s) == PrintChars(cs) + Body(s[n..])
  {
    PrintCharsAppend(QuoteHead(s).0, QuoteChars(s[QuoteHead(s).1..]));
  }

  /** The seven bytes that are written with a letter behind a backslash; a solidus is not one of them. */
  const WRITTEN_ESCAPES: map<Byte, Byte> :=
    map[0x22 := 0x22, 0x5C := 0x5C, 0x08 := 0x62, 0x0C := 0x66, 0x0A := 0x6E, 0x0D := 0x72, 0x09 := 0x74]

  lemma ShortEscapeIs(b: Byte)
    ensures ShortEscape(b) == if b in WRITTEN_ESCAPES then Some(WRITTEN_ESCAPES[b]) else None
  {
  }

  // The loop takes an ASCII byte as one character.
  lemma AsciiTaken(b: Byte, rest: Bytes, c: StringChar)
    requires b < 0x80 && QuoteHead([b] + rest) == ([c], 1)
    ensures Body([b] + rest) == PrintChar(c) + Body(rest)
  {
    hide QuoteHead, Body, PrintChar;
    BodyStep([b] + rest);
    assert ([b] + rest)[1..] == rest;
    OneChar(c);
  }

  lemma ShortEscapeWritten(b: Byte, rest: Bytes)
    requires b in WRITTEN_ESCAPES
    ensures Body([b] + rest) == [0x5C, WRITTEN_ESCAPES[b]] + Body(rest)
  {
    hide ShortEscape, Body, Utf8ToCodepoint;
    ShortEscapeIs(b);
    EscapesAscii(b);
    AsciiTaken(b, rest, Escaped(WRITTEN_ESCAPES[b]));
  }

  lemma EscapesAscii(b: Byte)
    requires b in WRITTEN_ESCAPES
    ensures b < 0x80
  {
  }

  lemma PlainIsNotEscaped(b: Byte)
    requires 0x20 <= b < 0x80 && b != 0x22 && b != 0x5C
    ensures b !in WRITTEN_ESCAPES
  {
  }

  /** Every other ASCII byte from the blank on is written as it is. */
  lemma PlainByteWritten(b: Byte, rest: Bytes)
    requires 0x20 <= b < 0x80 && b != 0x22 && b != 0x5C
    ensures Body([b] + rest) == [b] + Body(rest)
  {
    hide ShortEscape, Body;
    ShortEscapeIs(b);
    PlainIsNotEscaped(b);
    AsciiTaken(b, rest, Raw(b));
  }

  lemma {:induction false} PlainTextWritten(s: Bytes)
    requires forall k :: 0 <= k < |s| ==> 0x20 <= s[k] < 0x80 && s[k] != 0x22 && s[k] != 0x5C
    ensures Quoted(s) == [0x22] + s + [0x22]
    decreases |s|
  {
    if s != [] {
      PlainTextWritten(s[1..]);
      PlainByteWritten(s[0], s[1..]);
      assert s == [s[0]] + s[1..];
      assert Body(s[1..]) == s[1..] by {
        assert Quoted(s[1..])[1..|Quoted(s[1..])| - 1] == Body(s[1..]);
        assert ([0x22] + s[1..] + [0x22])[1..|s|] == s[1..];
      }
    }
  }

  /** The digit for `d`, in lower case. */
  function Digit16(d: nat): (b: Byte)
    requires d < 16
    ensures IsDigit16(b, d)
  {
    DigitTable(d);
    LOWER[d] as int
  }

  /** `\u` and the four digits of a number below 2^16, in lower case. */
  function UnicodeEscape(x: nat): Bytes
    requires x < 0x1_0000
  {
    [0x5C, 0x75, Digit16(x / 0x1000), Digit16(x / 0x100 % 16), Digit16(x / 16 % 16), Digit16(x % 16)]
  }

  lemma HexWritten(x: nat)
    requires x < 0x1_0000
    ensures PrintHex(ToHex16(x)) == UnicodeEscape(x)
  {
    DigitTable(x / 0x1000);
    DigitTable(x / 0x100 % 16);
    DigitTable(x / 16 % 16);
    DigitTable(x % 16);
    assert x / 0x1000 % 16 == x / 0x1000;
  }

  /** A control byte without a letter of its own is written as `\u00` and two digits. */
  lemma ControlWritten(b: Byte, rest: Bytes)
    requires b < 0x20 && b !in WRITTEN_ESCAPES
    ensures Body([b] + rest) == UnicodeEscape(b) + Body(rest)
  {
    hide ShortEscape, Body, ToHex16, PrintHex, UnicodeEscape;
    ShortEscapeIs(b);
    HexWritten(b);
    AsciiTaken(b, rest, Unicode(ToHex16(b)));
  }

  /** The code point of a well-formed character is the number its UTF-8 form stands for. */
  lemma HeadIs(s: Bytes)
    requires WellFormedLength(s) > 0
    ensures var (cp, n) := Utf8ToCodepoint(s); n == WellFormedLength(s) && IsUtf8Of(s[..n], cp)
  {
    hide CodePointToUtf8, Utf8ToCodepoint, IsUtf8Of;
    WellFormedHead(s);
    EncodedIs(Utf8ToCodepoint(s).0);
  }

  /** The first byte alone decides how many bytes the loop takes at once; where so many are not left it takes one. */
  lemma BytesTaken(s: Bytes)
    requires s != []
    ensures var length := if s[0] < 0x80 || s[0] >= 0xF8 then 1 else if s[0] < 0xE0 then 2 else if s[0] < 0xF0 then 3 else 4;
            Utf8ToCodepoint(s).1 == if |s| < length then 1 else length
  {
  }

  // The loop takes a well-formed character of several bytes as one.
  lemma CharacterTaken(s: Bytes, cp: nat, rest: Bytes)
    requires 0x80 <= cp && WellFormedLength(s) == |s| > 0 && IsUtf8Of(s, cp)
    ensures s + rest != [] && Utf8ToCodepoint(s + rest) == (cp, |s|) && (s + rest)[|s|..] == rest
    ensures ShortEscape((s + rest)[0]).None?
  {
    hide Utf8ToCodepoint;
    var t := s + rest;
    assert t[0] == s[0] && t[..|s|] == s;
    LengthOfFront(s, rest);
    HeadIs(t);
    SameCodePoint(s, cp, Utf8ToCodepoint(t).0);
  }

  /** A character outside ASCII is written as one escape, or as the escapes of its two surrogates. */
  lemma CharacterWritten(s: Bytes, cp: nat, rest: Bytes)
    requires 0x80 <= cp && WellFormedLength(s) == |s| > 0 && IsUtf8Of(s, cp)
    ensures cp < 0x1_0000 ==> Body(s + rest) == UnicodeEscape(cp) + Body(rest)
    ensures 0x1_0000 <= cp <= 0x10FFFF
            ==> Body(s + rest)
                == UnicodeEscape(0xD800 + (cp - 0x1_0000) / 0x400) + UnicodeEscape(0xDC00 + (cp - 0x1_0000) % 0x400) + Body(rest)
  {
    hide PrintHex, UnicodeEscape, Utf8ToCodepoint, ToHex16, IsUtf8Of, WellFormedLength, ShortEscape, Body;
    CharacterTaken(s, cp, rest);
    BodyStep(s + rest);
    if cp < 0x1_0000 {
      HexWritten(cp);
      OneChar(Unicode(ToHex16(cp)));
    } else if cp <= 0x10FFFF {
      HexWritten(HighHalf(cp));
      HexWritten(LowHalf(cp));
      OneChar(Pair(ToHex16(HighHalf(cp)), ToHex16(LowHalf(cp))));
    }
  }

  lemma LengthOfFront(s: Bytes, rest: Bytes)
    requires WellFormedLength(s) == |s| > 0
    ensures WellFormedLength(s + rest) == |s|
  {
    var t := s + rest;
    assert forall k :: 0 <= k < |s| ==> t[k] == s[k];
  }

  lemma SameCodePoint(s: Bytes, cp: nat, other: nat)
    requires s != [] && IsUtf8Of(s, cp) && IsUtf8Of(s, other)
    ensures cp == other
  {
  }
}
