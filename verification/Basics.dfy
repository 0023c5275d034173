/**
  Byte strings, and the ASCII bytes the JSON code mentions by name.
 */
module Basics {
  datatype Option<+T> = None | Some(value: T)

  // A C++ `char`, seen as the unsigned byte it stores.
  type Byte = b: int | 0 <= b < 256
  type Bytes = seq<Byte>

  const TAB: Byte := 0x09
  const LF: Byte := 0x0A
  const CR: Byte := 0x0D
  const SPACE: Byte := 0x20
  const QUOTE: Byte := 0x22
  const APOSTROPHE: Byte := 0x27
  const STAR: Byte := 0x2A
  const PLUS: Byte := 0x2B
  const COMMA: Byte := 0x2C
  const MINUS: Byte := 0x2D
  const DOT: Byte := 0x2E
  const SLASH: Byte := 0x2F
  const ZERO: Byte := 0x30
  const NINE: Byte := 0x39
  const COLON: Byte := 0x3A
  const LBRACKET: Byte := 0x5B
  const BACKSLASH: Byte := 0x5C
  const RBRACKET: Byte := 0x5D
  const LBRACE: Byte := 0x7B
  const RBRACE: Byte := 0x7D

  const NULL_TEXT: Bytes := [0x6E, 0x75, 0x6C, 0x6C]
  const TRUE_TEXT: Bytes := [0x74, 0x72, 0x75, 0x65]
  const FALSE_TEXT: Bytes := [0x66, 0x61, 0x6C, 0x73, 0x65]

  /** The bytes of an ASCII text. */
  function Ascii(s: string): (r: Bytes)
    requires forall i :: 0 <= i < |s| ==> s[i] < 128 as char
    ensures |r| == |s| && forall i :: 0 <= i < |s| ==> r[i] == s[i] as int
  {
    seq(|s|, i requires 0 <= i < |s| => s[i] as int)
  }

  predicate IsDigit(b: Byte) {
    ZERO <= b <= NINE
  }

  predicate IsBlank(b: Byte) {
    b == SPACE || b == TAB || b == CR || b == LF
  }

  predicate AllBlank(s: Bytes) {
    forall k :: 0 <= k < |s| ==> IsBlank(s[k])
  }

  predicate AllDigits(s: Bytes) {
    forall k :: 0 <= k < |s| ==> IsDigit(s[k])
  }

  /** `s` stands in `doc` at offset `i`. */
  predicate At(doc: Bytes, i: nat, s: Bytes) {
    i + |s| <= |doc| && doc[i..i + |s|] == s
  }

  lemma AtAppend(doc: Bytes, i: nat, a: Bytes, b: Bytes)
    ensures At(doc, i, a + b) <==> At(doc, i, a) && At(doc, i + |a|, b)
  {
    if i + |a| + |b| <= |doc| {
      var w := doc[i..i + |a| + |b|];
      assert w[..|a|] == doc[i..i + |a|];
      assert w[|a|..] == doc[i + |a|..i + |a| + |b|];
      assert w == w[..|a|] + w[|a|..];
      assert (a + b)[..|a|] == a && (a + b)[|a|..] == b;
    }
  }

  lemma AtByte(doc: Bytes, i: nat, s: Bytes, k: nat)
    requires At(doc, i, s) && k < |s|
    ensures doc[i + k] == s[k]
  {
    assert doc[i..i + |s|][k] == s[k];
  }
}
