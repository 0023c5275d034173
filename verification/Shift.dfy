/**
  Locality of the reader: what it makes of a stretch of the document depends on that stretch alone.
  Reading a slice that contains everything a successful read consumed gives the same tokens and the
  same tree, whatever was current before and with no more stack.
 */
module Shift {
  import opened Basics
  import opened JsonStrings
  import opened Lexer

  /** `part` is the slice of `doc` that begins at `a`. */
  predicate SliceAt(doc: Bytes, a: nat, part: Bytes) {
    a + |part| <= |doc| && forall k :: 0 <= k < |part| ==> part[k] == doc[a + k]
  }

  // Scanning. In each lemma the scan of `doc` from `a + i` ends inside the slice.

  /** Good text may reach the end of the slice; bad text that does could go on behind it. */
  predicate EndsIn(ok: bool, e: nat, end: nat) {
    if ok then e <= end else e < end
  }

  lemma {:induction false} ShiftSpaces(doc: Bytes, a: nat, part: Bytes, i: nat)
    requires SliceAt(doc, a, part) && i <= |part|
    requires SkipSpaces(doc, a + i) <= a + |part|
    ensures SkipSpaces(doc, a + i) == a + SkipSpaces(part, i)
    decreases |part| - i
  {
    if i < |part| && IsBlank(doc[a + i]) {
      ShiftSpaces(doc, a, part, i + 1);
    }
  }

  lemma {:induction false} ShiftDigits(doc: Bytes, a: nat, part: Bytes, i: nat)
    requires SliceAt(doc, a, part) && i <= |part|
    requires SkipDigits(doc, a + i) <= a + |part|
    ensures SkipDigits(doc, a + i) == a + SkipDigits(part, i)
    decreases |part| - i
  {
    if i < |part| && IsDigit(doc[a + i]) {
      ShiftDigits(doc, a, part, i + 1);
    }
  }

  lemma ShiftFraction(doc: Bytes, a: nat, part: Bytes, i: nat)
    requires SliceAt(doc, a, part) && i <= |part|
    requires SkipFraction(doc, a + i) <= a + |part|
    ensures SkipFraction(doc, a + i) == a + SkipFraction(part, i)
  {
    if a + i < |doc| && doc[a + i] == DOT {
      ShiftDigits(doc, a, part, i + 1);
    }
  }

  lemma ShiftExponent(doc: Bytes, a: nat, part: Bytes, i: nat)
    requires SliceAt(doc, a, part) && i <= |part|
    requires SkipExponent(doc, a + i) <= a + |part|
    ensures SkipExponent(doc, a + i) == a + SkipExponent(part, i)
  {
    if a + i < |doc| && IsExponent(doc[a + i]) {
      if a + i + 1 < |doc| && IsSign(doc[a + i + 1]) {
        ShiftDigits(doc, a, part, i + 2);
      } else {
        ShiftDigits(doc, a, part, i + 1);
      }
    }
  }

  lemma ShiftNumber(doc: Bytes, a: nat, part: Bytes, i: nat, checkInf: bool)
    requires SliceAt(doc, a, part) && i <= |part|
    requires ScanNumber(doc, a + i, checkInf).1 <= a + |part|
    ensures var (ok, e) := ScanNumber(part, i, checkInf); ScanNumber(doc, a + i, checkInf) == (ok, a + e)
  {
    hide SkipDigits, SkipFraction, SkipExponent;
    if !(checkInf && a + i < |doc| && doc[a + i] == UPPER_I) {
      ShiftDigits(doc, a, part, i);
      ShiftFraction(doc, a, part, SkipDigits(part, i));
      ShiftExponent(doc, a, part, SkipFraction(part, SkipDigits(part, i)));
    }
  }

  lemma {:induction false} ShiftString(doc: Bytes, a: nat, part: Bytes, i: nat, quote: Byte)
    requires SliceAt(doc, a, part) && i <= |part|
    requires var r := ScanString(doc, a + i, quote); EndsIn(r.0, r.1, a + |part|)
    ensures var (ok, e) := ScanString(part, i, quote); ScanString(doc, a + i, quote) == (ok, a + e)
    decreases |part| - i
  {
    if doc[a + i] == BACKSLASH {
      ShiftString(doc, a, part, i + 2, quote);
    } else if doc[a + i] != quote {
      ShiftString(doc, a, part, i + 1, quote);
    }
  }

  lemma {:induction false} ShiftCStyle(doc: Bytes, a: nat, part: Bytes, i: nat)
    requires SliceAt(doc, a, part) && i <= |part|
    requires CStyleEnd(doc, a + i) < a + |part|
    ensures CStyleEnd(doc, a + i) == a + CStyleEnd(part, i)
    decreases |part| - i
  {
    if a + i + 1 < |doc| && !(doc[a + i] == STAR && doc[a + i + 1] == SLASH) {
      ShiftCStyle(doc, a, part, i + 1);
    }
  }

  lemma {:induction false} ShiftCppStyle(doc: Bytes, a: nat, part: Bytes, i: nat)
    requires SliceAt(doc, a, part) && i <= |part|
    requires CppStyleEnd(doc, a + i) <= a + |part|
    ensures CppStyleEnd(doc, a + i) == a + CppStyleEnd(part, i)
    decreases |part| - i
  {
    if a + i < |doc| && doc[a + i] != LF && doc[a + i] != CR {
      ShiftCppStyle(doc, a, part, i + 1);
    }
  }

  lemma ShiftComment(doc: Bytes, a: nat, part: Bytes, i: nat)
    requires SliceAt(doc, a, part) && i <= |part|
    requires var r := ScanComment(doc, a + i); EndsIn(r.0, r.1, a + |part|)
    ensures var (ok, e) := ScanComment(part, i); ScanComment(doc, a + i) == (ok, a + e)
  {
    if doc[a + i] == STAR {
      ShiftCStyle(doc, a, part, i + 1);
    } else if doc[a + i] == SLASH {
      ShiftCppStyle(doc, a, part, i + 1);
    }
  }

  lemma ShiftMatch(doc: Bytes, a: nat, part: Bytes, i: nat, pattern: Bytes)
    requires SliceAt(doc, a, part) && i <= |part|
    requires var r := Match(doc, a + i, pattern); EndsIn(r.0, r.1, a + |part|)
    ensures var (ok, e) := Match(part, i, pattern); Match(doc, a + i, pattern) == (ok, a + e)
  {
    if i + |pattern| <= |part| {
      assert part[i..i + |pattern|] == doc[a + i..a + i + |pattern|];
    }
  }

  /** A token that ends inside the slice is the same token of the slice. */
  lemma ShiftClass(doc: Bytes, f: Features, a: nat, part: Bytes, s: nat)
    requires SliceAt(doc, a, part) && s < |part|
    requires var (typ, (ok, e)) := Classify(doc, f, a + s); EndsIn(ok, e, a + |part|)
    ensures var (typ, (ok, e)) := Classify(part, f, s); Classify(doc, f, a + s) == (typ, (ok, a + e))
  {
    hide ScanNumber, ScanString, ScanComment, Match;
    var c := doc[a + s];
    if c == QUOTE {
      ShiftString(doc, a, part, s + 1, QUOTE);
    } else if c == APOSTROPHE && f.allowSingleQuotes {
      ShiftString(doc, a, part, s + 1, APOSTROPHE);
    } else if c == APOSTROPHE || c == SLASH {
      ShiftComment(doc, a, part, s + 1);
    } else if IsDigit(c) {
      ShiftNumber(doc, a, part, s + 1, false);
    } else if c == MINUS {
      ShiftMinus(doc, f, a, part, s);
    } else if c == LETTER_T {
      ShiftMatch(doc, a, part, s + 1, TRUE_TEXT[1..]);
    } else if c == LETTER_F {
      ShiftMatch(doc, a, part, s + 1, FALSE_TEXT[1..]);
    } else if c == LETTER_N {
      ShiftMatch(doc, a, part, s + 1, NULL_TEXT[1..]);
    } else if c == UPPER_N && f.allowSpecialFloats {
      ShiftMatch(doc, a, part, s + 1, AN);
    } else if c == UPPER_I && f.allowSpecialFloats {
      ShiftMatch(doc, a, part, s + 1, NFINITY);
    }
  }

  lemma ShiftMinus(doc: Bytes, f: Features, a: nat, part: Bytes, s: nat)
    requires SliceAt(doc, a, part) && s < |part| && doc[a + s] == MINUS
    requires var (typ, (ok, e)) := Classify(doc, f, a + s); EndsIn(ok, e, a + |part|)
    ensures var (typ, (ok, e)) := Classify(part, f, s); Classify(doc, f, a + s) == (typ, (ok, a + e))
  {
    hide SkipExponent, SkipFraction, SkipDigits;
    var number := ScanNumber(doc, a + s + 1, true);
    if number.0 {
      ShiftNumber(doc, a, part, s + 1, true);
    } else if f.allowSpecialFloats {
      assert doc[a + s + 1] == UPPER_I;
      ShiftMatch(doc, a, part, s + 2, NFINITY);
    }
  }

  function Moved(t: Token, a: nat): Token {
    Token(t.typ, a + t.start, a + t.end)
  }

  /** A token made of bytes before `end`, whose text does not change when the document is cut there. */
  predicate Inside(t: Token, end: nat) {
    t.start < t.end && EndsIn(t.typ != ErrorToken, t.end, end)
  }

  lemma ShiftToken(doc: Bytes, f: Features, a: nat, part: Bytes, i: nat)
    requires SliceAt(doc, a, part) && i <= |part|
    requires var t := ReadToken(doc, f, a + i); Inside(t, a + |part|)
    ensures ReadToken(doc, f, a + i) == Moved(ReadToken(part, f, i), a)
  {
    hide Classify;
    ShiftSpaces(doc, a, part, i);
    ShiftClass(doc, f, a, part, SkipSpaces(part, i));
  }
}
