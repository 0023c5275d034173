/** Decimal text of 64-bit integers: `uintToString`, `valueToString` and the two `decodeNumber`s. */
module Integers {
  import opened Basics
  import opened Values

  function NatOf(s: Bytes): nat
    requires AllDigits(s)
  {
    if s == [] then 0 else NatOf(s[..|s| - 1]) * 10 + (s[|s| - 1] - ZERO)
  }

  function Digits(n: nat): (s: Bytes)
    ensures s != [] && AllDigits(s)
  {
    if n < 10 then [ZERO + n] else Digits(n / 10) + [ZERO + n % 10]
  }

  function Magnitude(n: int): nat {
    if n < 0 then -n else n
  }

  function IntegerText(n: int): Bytes {
    if n < 0 then [MINUS] + Digits(Magnitude(n)) else Digits(n)
  }

  lemma {:induction false} NatOfDigits(n: nat)
    ensures NatOf(Digits(n)) == n
  {
    if n >= 10 {
      NatOfDigits(n / 10);
      var s := Digits(n);
      assert s[..|s| - 1] == Digits(n / 10);
    }
  }

  lemma {:induction false} NatOfGrows(s: Bytes, k: nat)
    requires AllDigits(s) && k <= |s|
    ensures NatOf(s) >= NatOf(s[..k])
    ensures k < |s| ==> NatOf(s) >= 10 * NatOf(s[..k])
  {
    if k < |s| {
      var t := s[..|s| - 1];
      NatOfGrows(t, k);
      assert t[..k] == s[..k];
    } else {
      assert s[..k] == s;
    }
  }

  function Pow10(k: nat): nat {
    if k == 0 then 1 else 10 * Pow10(k - 1)
  }

  lemma {:induction false} DigitsLength(n: nat, k: nat)
    requires 0 < k && n < Pow10(k)
    ensures |Digits(n)| <= k
  {
    if n >= 10 {
      DigitsLength(n / 10, k - 1);
    }
  }

  // `char buffer[3 * sizeof(LargestUInt) + 1]`
  const BUFFER_SIZE := 25

  lemma DigitsFitBuffer(n: nat)
    requires n < TWO_TO_THE_64
    ensures |Digits(n)| + 2 <= BUFFER_SIZE == 3 * 8 + 1
  {
    assert Pow10(5) == 100_000;
    assert Pow10(10) == 10_000_000_000 by { assert Pow10(8) == 1000 * Pow10(5); }
    assert Pow10(15) == 1_000_000_000_000_000 by { assert Pow10(13) == 1000 * Pow10(10); }
    assert Pow10(20) == 100_000_000_000_000_000_000 by { assert Pow10(18) == 1000 * Pow10(15); }
    DigitsLength(n, 20);
  }

  /** `uintToString`: fills the buffer backwards from `current`, terminator first. */
  method UIntToString(value: LargestUInt, buffer: array<Byte>, current: nat) returns (first: nat)
    requires |Digits(value)| + 1 <= current <= buffer.Length
    modifies buffer
    ensures first + |Digits(value)| + 1 == current
    ensures buffer[first..current] == Digits(value) + [0]
    ensures current == buffer.Length ==> buffer[first..] == Digits(value) + [0]
    ensures buffer[..first] == old(buffer[..first]) && buffer[current..] == old(buffer[current..])
  {
    first := current - 1;
    buffer[first] := 0;
    var rest := value;
    ghost var tail: Bytes := [0];
    while true
      invariant 0 <= rest
      invariant |Digits(rest)| <= first < current
      invariant buffer[first..current] == tail
      invariant Digits(rest) + tail == Digits(value) + [0]
      invariant buffer[..first] == old(buffer[..first]) && buffer[current..] == old(buffer[current..])
      decreases rest
    {
      hide Digits;
      ghost var digit := [ZERO + rest % 10];
      LastDigit(rest, tail);
      first := first - 1;
      buffer[first] := ZERO + rest % 10;
      assert buffer[first..current] == digit + tail;
      rest := rest / 10;
      if rest == 0 {
        return;
      }
      tail := digit + tail;
    }
  }

  // Moving the last digit of a number to the front of what follows it.
  lemma LastDigit(n: nat, tail: Bytes)
    ensures if n < 10 then Digits(n) == [ZERO + n % 10]
            else Digits(n) + tail == Digits(n / 10) + ([ZERO + n % 10] + tail) && |Digits(n)| == |Digits(n / 10)| + 1
  {
  }

  /** The string a NUL-terminated buffer denotes. */
  function CString(s: Bytes): Bytes {
    if s == [] || s[0] == 0 then [] else [s[0]] + CString(s[1..])
  }

  lemma {:induction false} CStringOfDigits(s: Bytes, rest: Bytes)
    requires forall k :: 0 <= k < |s| ==> s[k] != 0
    ensures CString(s + [0] + rest) == s
  {
    if s != [] {
      CStringOfDigits(s[1..], rest);
      assert (s + [0] + rest)[1..] == s[1..] + [0] + rest;
    }
  }

  method ValueToStringUnsigned(value: LargestUInt) returns (text: Bytes)
    ensures text == IntegerText(value)
  {
    hide Digits, CString;
    DigitsFitBuffer(value);
    var buffer := new Byte[BUFFER_SIZE](_ => 0);
    var current := UIntToString(value, buffer, BUFFER_SIZE);
    CStringOfDigits(Digits(value), []);
    assert buffer[current..] == Digits(value) + [0] + [];
    text := CString(buffer[current..]);
  }

  // `*--current = '-'`
  method PutMinus(buffer: array<Byte>, current: nat) returns (first: nat)
    requires 0 < current <= buffer.Length
    modifies buffer
    ensures first == current - 1
    ensures buffer[first..] == [MINUS] + old(buffer[current..])
  {
    first := current - 1;
    buffer[first] := MINUS;
  }

  method ValueToStringSigned(value: LargestInt) returns (text: Bytes)
    ensures text == IntegerText(value)
  {
    hide Digits, CString;
    var buffer := new Byte[BUFFER_SIZE](_ => 0);
    var current := BUFFER_SIZE;
    ghost var magnitude := Magnitude(value);
    DigitsFitBuffer(magnitude);
    if value == -TWO_TO_THE_63 {
      current := UIntToString(TWO_TO_THE_63 - 1 + 1, buffer, current);
      current := PutMinus(buffer, current);
    } else if value < 0 {
      current := UIntToString(-value, buffer, current);
      current := PutMinus(buffer, current);
    } else {
      current := UIntToString(value, buffer, current);
    }
    CStringOfDigits(IntegerText(value), []);
    assert buffer[current..] == IntegerText(value) + [0] + [];
    text := CString(buffer[current..]);
  }

  /** What an integer token means: its exact value when that fits 64 bits, otherwise nothing. */
  function IntegerMeaning(text: Bytes): Option<Payload> {
    var negative := text != [] && text[0] == MINUS;
    var digits := if negative then text[1..] else text;
    if !AllDigits(digits) then None
    else
      var n: int := NatOf(digits);
      if negative then (if n <= TWO_TO_THE_63 then Some(Int(-n)) else None)
      else if n < TWO_TO_THE_64 then Some(NaturalPayload(n))
      else None
  }

  // Two's complement, where the C++ relies on it.
  function WrapUnsigned(i: int): LargestUInt {
    i % TWO_TO_THE_64
  }

  function WrapSigned(i: int): LargestInt {
    var u := WrapUnsigned(i);
    if u < TWO_TO_THE_63 then u else u - TWO_TO_THE_64
  }

  lemma WrapSignedIs(i: int)
    requires -TWO_TO_THE_63 <= i <= TWO_TO_THE_64
    ensures WrapSigned(i) == if i < TWO_TO_THE_63 then i else i - TWO_TO_THE_64
    ensures WrapUnsigned(-TWO_TO_THE_63) == TWO_TO_THE_63
  {
  }

  /**
    The loop both decoders share: the accumulator stays within 64 bits (its type says so) and
    the loop gives up exactly when the text is not digits or its value exceeds `maximum`.
   */
  method Accumulate(digits: Bytes, maximum: LargestUInt) returns (r: Option<LargestUInt>)
    requires maximum >= 100
    ensures r.Some? <==> AllDigits(digits) && NatOf(digits) <= maximum
    ensures r.Some? ==> r.value == NatOf(digits)
  {
    var threshold := maximum / 10;
    var value: LargestUInt := 0;
    var current := 0;
    while current < |digits|
      invariant 0 <= current <= |digits|
      invariant AllDigits(digits[..current])
      invariant value == NatOf(digits[..current]) <= maximum
    {
      var c := digits[current];
      current := current + 1;
      if c < ZERO || c > NINE {
        return None;
      }
      var digit := c - ZERO;
      ghost var prefix := digits[..current];
      assert prefix[..current - 1] == digits[..current - 1];
      assert NatOf(prefix) == value * 10 + digit;
      if value >= threshold {
        if value > threshold || current != |digits| || digit > maximum % 10 {
          if AllDigits(digits) {
            NatOfGrows(digits, current);
          }
          return None;
        }
      }
      value := value * 10 + digit;
    }
    assert digits[..current] == digits;
    return Some(value);
  }

  /** `OurReader::decodeNumber`, up to the hand-over to `decodeDouble`. */
  method DecodeInteger(text: Bytes) returns (r: Option<Payload>)
    requires text != []
    ensures r == IntegerMeaning(text)
  {
    hide NatOf, AllDigits, WrapSigned, WrapUnsigned;
    WrapSignedIs(TWO_TO_THE_63);
    var isNegative := text[0] == MINUS;
    var maximum := if isNegative then WrapUnsigned(WrapSigned(-(-TWO_TO_THE_63))) else TWO_TO_THE_64 - 1;
    var n := Accumulate(if isNegative then text[1..] else text, maximum);
    if n.None? {
      return None;
    }
    WrapSignedIs(n.value);
    var signed: int := WrapSigned(n.value);
    WrapSignedIs(-signed);
    if isNegative {
      return Some(Int(WrapSigned(-signed)));
    } else if n.value <= MAX_INT {
      return Some(Int(WrapSigned(n.value)));
    } else {
      return Some(UInt(n.value));
    }
  }

  /** `Reader::decodeNumber`, the older reader's version. */
  method DecodeIntegerLegacy(text: Bytes) returns (r: Option<Payload>)
    requires text != []
    ensures r == IntegerMeaning(text)
  {
    hide NatOf, AllDigits, WrapSigned, WrapUnsigned;
    var isNegative := text[0] == MINUS;
    var maximum := if isNegative then TWO_TO_THE_63 - 1 + 1 else TWO_TO_THE_64 - 1;
    var n := Accumulate(if isNegative then text[1..] else text, maximum);
    if n.None? {
      return None;
    }
    WrapSignedIs(n.value);
    var signed: int := WrapSigned(n.value);
    WrapSignedIs(-signed);
    if isNegative && n.value == maximum {
      return Some(Int(-TWO_TO_THE_63));
    } else if isNegative {
      return Some(Int(WrapSigned(-signed)));
    } else if n.value <= MAX_INT {
      return Some(Int(WrapSigned(n.value)));
    } else {
      return Some(UInt(n.value));
    }
  }

  /** Printing any 64-bit integer and decoding the text gives it back, re-tagged by value. */
  lemma IntegerRoundTrip(n: int)
    requires -TWO_TO_THE_63 <= n < TWO_TO_THE_64
    ensures IntegerMeaning(IntegerText(n)) == Some(if n < 0 then Int(n) else NaturalPayload(n))
  {
    if n < 0 {
      NatOfDigits(-n);
      assert IntegerText(n)[1..] == Digits(-n);
    } else {
      NatOfDigits(n);
    }
  }
}
