/**
  UTF-8 as the JSON code converts it (`codePointToUTF8`, `utf8ToCodepoint`) against the byte
  grammar of RFC 3629, section 4. Masks and shifts are written as `%` and `/`.
 */
module Utf8 {
  import opened Basics

  const REPLACEMENT: nat := 0xFFFD

  function CodePointToUtf8(cp: nat): Bytes {
    if cp <= 0x7F then [cp]
    else if cp <= 0x7FF then [0xC0 + cp / 0x40 % 0x20, 0x80 + cp % 0x40]
    else if cp <= 0xFFFF then [0xE0 + cp / 0x1000 % 0x10, 0x80 + cp / 0x40 % 0x40, 0x80 + cp % 0x40]
    else if cp <= 0x10FFFF then
      [0xF0 + cp / 0x4_0000 % 8, 0x80 + cp / 0x1000 % 0x40, 0x80 + cp / 0x40 % 0x40, 0x80 + cp % 0x40]
    else []
  }

  /** `utf8ToCodepoint` at the front of `s`: the code point and how many bytes the caller's loop consumes. */
  function Utf8ToCodepoint(s: Bytes): (r: (nat, nat))
    requires s != []
    ensures 0 < r.1 <= |s|
  {
    var b := s[0];
    if b < 0x80 then (b, 1)
    else if b < 0xE0 then
      if |s| < 2 then (REPLACEMENT, 1)
      else
        var cp := b % 0x20 * 0x40 + s[1] % 0x40;
        (if cp < 0x80 then REPLACEMENT else cp, 2)
    else if b < 0xF0 then
      if |s| < 3 then (REPLACEMENT, 1)
      else
        var cp := b % 0x10 * 0x1000 + s[1] % 0x40 * 0x40 + s[2] % 0x40;
        (if 0xD800 <= cp <= 0xDFFF || cp < 0x800 then REPLACEMENT else cp, 3)
    else if b < 0xF8 then
      if |s| < 4 then (REPLACEMENT, 1)
      else
        var cp := b % 8 * 0x4_0000 + s[1] % 0x40 * 0x1000 + s[2] % 0x40 * 0x40 + s[3] % 0x40;
        (if cp < 0x1_0000 then REPLACEMENT else cp, 4)
    else (REPLACEMENT, 1)
  }

  predicate IsTail(b: Byte) {
    0x80 <= b <= 0xBF
  }

  /** How many bytes the well-formed character at the front of `s` takes; 0 when there is none. */
  function WellFormedLength(s: Bytes): (n: nat)
    ensures n <= |s| && n <= 4
  {
    if s == [] then 0
    else
      var b := s[0];
      if b <= 0x7F then 1
      else if 0xC2 <= b <= 0xDF then (if |s| >= 2 && IsTail(s[1]) then 2 else 0)
      else if 0xE0 <= b <= 0xEF then
        if |s| >= 3 && IsTail(s[1]) && IsTail(s[2])
           && (b == 0xE0 ==> s[1] >= 0xA0) && (b == 0xED ==> s[1] <= 0x9F) then 3
        else 0
      else if 0xF0 <= b <= 0xF4 then
        if |s| >= 4 && IsTail(s[1]) && IsTail(s[2]) && IsTail(s[3])
           && (b == 0xF0 ==> s[1] >= 0x90) && (b == 0xF4 ==> s[1] <= 0x8F) then 4
        else 0
      else 0
  }

  /** RFC 3629: a sequence of well-formed characters. */
  predicate ValidUtf8(s: Bytes) {
    s == [] || (WellFormedLength(s) > 0 && ValidUtf8(s[WellFormedLength(s)..]))
  }

  // The bit fields of a joined code point.
  lemma Fields(y: nat, x: nat)
    requires x < 0x40
    ensures (y * 0x40 + x) / 0x40 == y && (y * 0x40 + x) % 0x40 == x
  {
  }

  lemma Encode2(y: nat, x: nat)
    requires 2 <= y < 0x20 && x < 0x40
    ensures CodePointToUtf8(y * 0x40 + x) == [0xC0 + y, 0x80 + x]
  {
    Fields(y, x);
  }

  lemma Encode3(z: nat, y: nat, x: nat)
    requires z < 0x10 && y < 0x40 && x < 0x40 && z * 0x40 + y >= 0x20
    ensures CodePointToUtf8(z * 0x1000 + y * 0x40 + x) == [0xE0 + z, 0x80 + y, 0x80 + x]
  {
    var cp := z * 0x1000 + y * 0x40 + x;
    Fields(z * 0x40 + y, x);
    Fields(z, y);
    assert cp / 0x1000 == z;
  }

  lemma Encode4(u: nat, z: nat, y: nat, x: nat)
    requires z < 0x40 && y < 0x40 && x < 0x40
    requires 0x1_0000 <= u * 0x4_0000 + z * 0x1000 + y * 0x40 + x <= 0x10FFFF
    ensures CodePointToUtf8(u * 0x4_0000 + z * 0x1000 + y * 0x40 + x) == [0xF0 + u, 0x80 + z, 0x80 + y, 0x80 + x]
  {
    var cp := u * 0x4_0000 + z * 0x1000 + y * 0x40 + x;
    Fields(u * 0x1000 + z * 0x40 + y, x);
    Fields(u * 0x40 + z, y);
    Fields(u, z);
    assert cp / 0x1000 == u * 0x40 + z;
    assert cp / 0x4_0000 == u;
  }

  /** The converted code point, field by field, and the bytes it turns back into. */
  ghost predicate HeadShape(s: Bytes)
    requires s != []
  {
    var (cp, n) := Utf8ToCodepoint(s);
    var out := CodePointToUtf8(cp);
    var b: nat := s[0];
    if b < 0x80 then n == 1 && out == [b]
    else if cp == REPLACEMENT then out == [0xEF, 0xBF, 0xBD]
    else if b < 0xE0 then n == 2 && |s| >= 2 && b % 0x20 >= 2 && out == [0xC0 + b % 0x20, 0x80 + s[1] % 0x40]
    else if b < 0xF0 then
      && n == 3 && |s| >= 3 && b % 0x10 * 0x40 + s[1] % 0x40 >= 0x20
      && !(0xD800 <= cp <= 0xDFFF)
      && out == [0xE0 + b % 0x10, 0x80 + s[1] % 0x40, 0x80 + s[2] % 0x40]
    else
      && n == 4 && |s| >= 4 && b % 8 * 0x40 + s[1] % 0x40 >= 0x10
      && (cp > 0x10FFFF <==> b % 8 * 0x40 + s[1] % 0x40 >= 0x110)
      && (cp <= 0x10FFFF ==> out == [0xF0 + b % 8, 0x80 + s[1] % 0x40, 0x80 + s[2] % 0x40, 0x80 + s[3] % 0x40])
  }

  lemma HeadFields(s: Bytes)
    requires s != []
    ensures HeadShape(s)
  {
    var (cp, n) := Utf8ToCodepoint(s);
    var b := s[0];
    if cp == REPLACEMENT {
      Encode3(0xF, 0x3F, 0x3D);
    } else if 0x80 <= b < 0xE0 {
      Encode2(b % 0x20, s[1] % 0x40);
    } else if 0xE0 <= b < 0xF0 {
      HeadFields3(s);
    } else if 0xF0 <= b < 0xF8 {
      HeadFields4(s);
    }
  }

  lemma HeadFields3(s: Bytes)
    requires |s| >= 3 && 0xE0 <= s[0] < 0xF0 && Utf8ToCodepoint(s).0 != REPLACEMENT
    ensures HeadShape(s)
  {
    var z: nat, y: nat, x: nat := s[0] % 0x10, s[1] % 0x40, s[2] % 0x40;
    assert Utf8ToCodepoint(s).0 == z * 0x1000 + y * 0x40 + x;
    Encode3(z, y, x);
  }

  lemma HeadFields4(s: Bytes)
    requires |s| >= 4 && 0xF0 <= s[0] < 0xF8 && Utf8ToCodepoint(s).0 != REPLACEMENT
    ensures HeadShape(s)
  {
    var u: nat, z: nat, y: nat, x: nat := s[0] % 8, s[1] % 0x40, s[2] % 0x40, s[3] % 0x40;
    var cp := Utf8ToCodepoint(s).0;
    assert cp == u * 0x4_0000 + z * 0x1000 + y * 0x40 + x;
    if cp <= 0x10FFFF {
      Encode4(u, z, y, x);
    }
  }

  lemma WellFormedIsNotReplaced(s: Bytes)
    requires WellFormedLength(s) > 0
    ensures var (cp, n) := Utf8ToCodepoint(s);
            n == WellFormedLength(s) && cp <= 0x10FFFF && !(0xD800 <= cp <= 0xDFFF) && (cp == REPLACEMENT ==> s[..n] == [0xEF, 0xBF, 0xBD])
  {
  }

  lemma WellFormedHead(s: Bytes)
    requires WellFormedLength(s) > 0
    ensures var (cp, n) := Utf8ToCodepoint(s);
            && n == WellFormedLength(s)
            && cp <= 0x10FFFF && !(0xD800 <= cp <= 0xDFFF)
            && CodePointToUtf8(cp) == s[..n]
  {
    hide Utf8ToCodepoint, CodePointToUtf8;
    HeadFields(s);
    WellFormedIsNotReplaced(s);
    var n := WellFormedLength(s);
    if n == 1 {
      assert s[..n] == [s[0]];
    } else if n == 2 {
      TailBits(s[1]);
      assert s[..n] == [s[0], s[1]];
    } else if n == 3 {
      TailBits(s[1]);
      TailBits(s[2]);
      assert s[..n] == [s[0], s[1], s[2]];
    } else {
      TailBits(s[1]);
      TailBits(s[2]);
      TailBits(s[3]);
      assert s[..n] == [s[0], s[1], s[2], s[3]];
    }
  }

  lemma TailBits(b: Byte)
    requires IsTail(b)
    ensures 0x80 + b % 0x40 == b
  {
  }

  /** Conversely, a converted character that reproduces the front of its source came from a well-formed one. */
  lemma IllFormedHead(s: Bytes)
    requires s != [] && WellFormedLength(s) == 0
    ensures var (cp, n) := Utf8ToCodepoint(s);
            && (cp <= 0x10FFFF ==> !(CodePointToUtf8(cp) <= s))
            && (cp > 0x10FFFF ==> s[0] != 0xED)
  {
    HeadFields(s);
  }
}
