/**
  Two documents that begin alike: the tokens of the one that end where they part are tokens of the other,
  if the other goes on there with a quotation mark or with punctuation.
 */
module Prefixes {
  import opened Basics
  import opened Gaps
  import opened JsonStrings
  import opened Lexer

  /** The first `k` bytes are the same. */
  predicate BeginAlike(doc: Bytes, other: Bytes, k: nat) {
    k <= |doc| && k <= |other| && forall j :: 0 <= j < k ==> doc[j] == other[j]
  }

  // A quotation mark, a comma, a colon, a bracket or a brace.
  predicate IsStop(b: Byte) {
    b == 0x22 || b == 0x2C || b == 0x3A || b == 0x5B || b == 0x5D || b == 0x7B || b == 0x7D
  }

  /** `other` ends at `k`, or goes on with a byte that extends no token. */
  predicate StopsAt(other: Bytes, k: nat) {
    k == |other| || (k < |other| && IsStop(other[k]))
  }

  lemma {:induction false} AlikeSpaces(doc: Bytes, other: Bytes, k: nat, i: nat)
    requires BeginAlike(doc, other, k) && StopsAt(other, k) && i <= k && SkipSpaces(doc, i) <= k
    ensures SkipSpaces(other, i) == SkipSpaces(doc, i)
    decreases k - i
  {
    if i < k && IsBlank(doc[i]) {
      AlikeSpaces(doc, other, k, i + 1);
    }
  }

  lemma {:induction false} AlikeDigits(doc: Bytes, other: Bytes, k: nat, i: nat)
    requires BeginAlike(doc, other, k) && StopsAt(other, k) && i <= k && SkipDigits(doc, i) <= k
    ensures SkipDigits(other, i) == SkipDigits(doc, i)
    decreases k - i
  {
    if i < k && IsDigit(doc[i]) {
      AlikeDigits(doc, other, k, i + 1);
    }
  }

  lemma AlikeFraction(doc: Bytes, other: Bytes, k: nat, i: nat)
    requires BeginAlike(doc, other, k) && StopsAt(other, k) && i <= k && SkipFraction(doc, i) <= k
    ensures SkipFraction(other, i) == SkipFraction(doc, i)
  {
    hide SkipDigits;
    if i < k && doc[i] == DOT {
      AlikeDigits(doc, other, k, i + 1);
    }
  }

  lemma AlikeExponent(doc: Bytes, other: Bytes, k: nat, i: nat)
    requires BeginAlike(doc, other, k) && StopsAt(other, k) && i <= k && SkipExponent(doc, i) <= k
    ensures SkipExponent(other, i) == SkipExponent(doc, i)
  {
    hide SkipDigits;
    if i < k && IsExponent(doc[i]) {
      AlikeDigits(doc, other, k, if i + 1 < |doc| && IsSign(doc[i + 1]) then i + 2 else i + 1);
    }
  }

  lemma AlikeNumber(doc: Bytes, other: Bytes, k: nat, i: nat, checkInf: bool)
    requires BeginAlike(doc, other, k) && StopsAt(other, k) && i <= k && ScanNumber(doc, i, checkInf).1 <= k
    ensures ScanNumber(other, i, checkInf) == ScanNumber(doc, i, checkInf)
  {
    hide SkipDigits, SkipFraction, SkipExponent;
    if !(checkInf && i < |doc| && doc[i] == UPPER_I) {
      AlikeDigits(doc, other, k, i);
      AlikeFraction(doc, other, k, SkipDigits(doc, i));
      AlikeExponent(doc, other, k, SkipFraction(doc, SkipDigits(doc, i)));
    }
  }

  lemma {:induction false} AlikeString(doc: Bytes, other: Bytes, k: nat, i: nat, quote: Byte)
    requires BeginAlike(doc, other, k) && i <= k && ScanString(doc, i, quote).1 <= k
    requires ScanString(doc, i, quote).0 || ScanString(doc, i, quote).1 < |doc|
    ensures ScanString(other, i, quote) == ScanString(doc, i, quote)
    decreases k - i
  {
    StringToEnd(doc, i, quote);
    if doc[i] == BACKSLASH {
      AlikeString(doc, other, k, if i + 1 < |doc| then i + 2 else i + 1, quote);
    } else if doc[i] != quote {
      AlikeString(doc, other, k, i + 1, quote);
    }
  }

  /** Only the end of the document leaves a string open. */
  lemma {:induction false} StringToEnd(doc: Bytes, i: nat, quote: Byte)
    requires i <= |doc|
    ensures !ScanString(doc, i, quote).0 ==> ScanString(doc, i, quote).1 == |doc|
    decreases |doc| - i
  {
    if i < |doc| {
      if doc[i] == BACKSLASH {
        StringToEnd(doc, if i + 1 < |doc| then i + 2 else i + 1, quote);
      } else if doc[i] != quote {
        StringToEnd(doc, i + 1, quote);
      }
    }
  }

  lemma {:induction false} AlikeBlock(doc: Bytes, other: Bytes, k: nat, i: nat)
    requires BeginAlike(doc, other, k) && i <= k && CStyleEnd(doc, i) + 1 <= k && CStyleEnd(doc, i) + 1 < |doc|
    ensures CStyleEnd(other, i) == CStyleEnd(doc, i) && doc[CStyleEnd(doc, i)] == SLASH
    decreases k - i
  {
    if !(doc[i] == STAR && doc[i + 1] == SLASH) {
      AlikeBlock(doc, other, k, i + 1);
    }
  }

  // A block comment that ends with the document, properly.
  lemma {:induction false} AlikeLastBlock(doc: Bytes, other: Bytes, a: nat, i: nat)
    requires BeginAlike(doc, other, |doc|) && a <= i <= |doc| && a < |doc| && BlockEnd(doc[a..], i - a) == |doc| - a
    ensures CStyleEnd(other, i) == CStyleEnd(doc, i) == |doc| - 1 && doc[|doc| - 1] == SLASH
    decreases |doc| - i
  {
    assert doc[a..][i - a] == doc[i] && doc[a..][i - a + 1] == doc[i + 1];
    if !(doc[i] == STAR && doc[i + 1] == SLASH) {
      AlikeLastBlock(doc, other, a, i + 1);
    }
  }

  lemma {:induction false} AlikeLine(doc: Bytes, other: Bytes, k: nat, i: nat)
    requires BeginAlike(doc, other, k) && StopsAt(other, k) && i <= k && CppStyleEnd(doc, i) <= k < |doc|
    ensures CppStyleEnd(other, i) == CppStyleEnd(doc, i)
    decreases k - i
  {
    if i < |doc| && doc[i] != LF && doc[i] != CR {
      AlikeLine(doc, other, k, i + 1);
    }
  }

  lemma {:induction false} AlikeLastLine(doc: Bytes, other: Bytes, a: nat, i: nat)
    requires BeginAlike(doc, other, |doc|) && StopsAt(other, |doc|) && a <= i <= |doc| && a < |doc| && LineEnd(doc[a..], i - a) == |doc| - a
    ensures CppStyleEnd(other, i) == CppStyleEnd(doc, i) == |doc|
    decreases |doc| - i
  {
    assert doc[a..][i - a] == doc[i] && (i + 1 < |doc| ==> doc[a..][i - a + 1] == doc[i + 1]);
    if doc[i] != LF && doc[i] != CR {
      AlikeLastLine(doc, other, a, i + 1);
    }
  }

  /** A token that does not lean on the end of the document. */
  predicate IsComplete(doc: Bytes, f: Features, t: Token) {
    && t.start < t.end <= |doc|
    && (t.end == |doc| ==>
          && t.typ != ErrorToken
          && (t.typ == CommentToken ==> CommentLength(doc[t.start..], Skipped(f)) == t.end - t.start))
  }

  lemma AlikeComment(doc: Bytes, other: Bytes, f: Features, k: nat, s: nat)
    requires BeginAlike(doc, other, k) && StopsAt(other, k) && s < k && Classify(doc, f, s).0 == CommentToken
    requires var (ok, e) := ScanComment(doc, s + 1);
             e <= k && IsComplete(doc, f, Token(if ok then CommentToken else ErrorToken, s, e))
    ensures ScanComment(other, s + 1) == ScanComment(doc, s + 1)
  {
    hide ScanNumber, ScanString, Match, CStyleEnd, CppStyleEnd, BlockEnd, LineEnd;
    var (ok, e) := ScanComment(doc, s + 1);
    if s + 1 < |doc| && doc[s + 1] == STAR {
      if e < |doc| {
        AlikeBlock(doc, other, k, s + 2);
      } else if ok {
        AlikeLastBlock(doc, other, s, s + 2);
      }
    } else if s + 1 < |doc| && doc[s + 1] == SLASH {
      if k < |doc| {
        AlikeLine(doc, other, k, s + 2);
      } else if e < |doc| {
        AlikeInnerLine(doc, other, s + 2);
      } else {
        AlikeLastLine(doc, other, s, s + 2);
      }
    }
  }

  lemma {:induction false} AlikeInnerLine(doc: Bytes, other: Bytes, i: nat)
    requires BeginAlike(doc, other, |doc|) && i <= |doc| && CppStyleEnd(doc, i) < |doc|
    ensures CppStyleEnd(other, i) == CppStyleEnd(doc, i)
    decreases |doc| - i
  {
    if i < |doc| && doc[i] != LF && doc[i] != CR {
      AlikeInnerLine(doc, other, i + 1);
    }
  }

  // The words are made of letters, so no word runs on over a stop.
  predicate NoStops(pattern: Bytes) {
    forall j :: 0 <= j < |pattern| ==> !IsStop(pattern[j])
  }

  lemma AlikeMatch(doc: Bytes, other: Bytes, k: nat, i: nat, pattern: Bytes)
    requires BeginAlike(doc, other, k) && StopsAt(other, k) && NoStops(pattern) && i <= k && Match(doc, i, pattern).1 <= k
    ensures Match(other, i, pattern) == Match(doc, i, pattern)
  {
    if i + |pattern| <= k {
      assert doc[i..i + |pattern|] == other[i..i + |pattern|];
    } else if At(other, i, pattern) {
      AtByte(other, i, pattern, k - i);
    }
  }

  lemma AlikeClass(doc: Bytes, other: Bytes, f: Features, k: nat, s: nat)
    requires BeginAlike(doc, other, k) && StopsAt(other, k) && s < k
    requires var (typ, (ok, e)) := Classify(doc, f, s);
             e <= k && IsComplete(doc, f, Token(if ok then typ else ErrorToken, s, e))
    ensures Classify(other, f, s) == Classify(doc, f, s)
  {
    hide ScanNumber, ScanString, ScanComment, Match, NoStops;
    var c := doc[s];
    if c == QUOTE {
      AlikeString(doc, other, k, s + 1, QUOTE);
    } else if c == APOSTROPHE && f.allowSingleQuotes {
      AlikeString(doc, other, k, s + 1, APOSTROPHE);
    } else if c == APOSTROPHE || c == SLASH {
      AlikeComment(doc, other, f, k, s);
    } else if IsDigit(c) {
      AlikeNumber(doc, other, k, s + 1, false);
    } else if c == MINUS {
      AlikeMinus(doc, other, f, k, s);
    } else if c == LETTER_T || c == LETTER_F || c == LETTER_N || c == UPPER_N || c == UPPER_I {
      AlikeWord(doc, other, f, k, s);
    }
  }

  lemma AlikeMinus(doc: Bytes, other: Bytes, f: Features, k: nat, s: nat)
    requires BeginAlike(doc, other, k) && StopsAt(other, k) && s < k && doc[s] == MINUS && Classify(doc, f, s).1.1 <= k
    ensures Classify(other, f, s) == Classify(doc, f, s)
  {
    hide ScanString, ScanComment, At, SkipExponent, SkipFraction, SkipDigits, NoStops;
    var number := ScanNumber(doc, s + 1, true);
    AlikeNumber(doc, other, k, s + 1, true);
    if !number.0 && f.allowSpecialFloats {
      WordsStop();
      AlikeMatch(doc, other, k, number.1, NFINITY);
    }
  }

  lemma WordsStop()
    ensures NoStops(NFINITY) && NoStops(AN) && NoStops(TRUE_TEXT[1..]) && NoStops(FALSE_TEXT[1..]) && NoStops(NULL_TEXT[1..])
  {
  }

  lemma AlikeWord(doc: Bytes, other: Bytes, f: Features, k: nat, s: nat)
    requires BeginAlike(doc, other, k) && StopsAt(other, k) && s < k && Classify(doc, f, s).1.1 <= k
    requires doc[s] in [LETTER_T, LETTER_F, LETTER_N, UPPER_N, UPPER_I]
    ensures Classify(other, f, s) == Classify(doc, f, s)
  {
    hide ScanNumber, ScanString, ScanComment, Match, NoStops;
    var c := doc[s];
    WordsStop();
    if c == LETTER_T {
      AlikeMatch(doc, other, k, s + 1, TRUE_TEXT[1..]);
    } else if c == LETTER_F {
      AlikeMatch(doc, other, k, s + 1, FALSE_TEXT[1..]);
    } else if c == LETTER_N {
      AlikeMatch(doc, other, k, s + 1, NULL_TEXT[1..]);
    } else if c == UPPER_N && f.allowSpecialFloats {
      AlikeMatch(doc, other, k, s + 1, AN);
    } else if c == UPPER_I && f.allowSpecialFloats {
      AlikeMatch(doc, other, k, s + 1, NFINITY);
    }
  }

  /** A complete token that ends where the documents part, or before, is a token of both. */
  lemma AlikeToken(doc: Bytes, other: Bytes, f: Features, k: nat, i: nat)
    requires BeginAlike(doc, other, k) && StopsAt(other, k) && i <= k
    requires var t := ReadToken(doc, f, i); t.end <= k && IsComplete(doc, f, t)
    ensures ReadToken(other, f, i) == ReadToken(doc, f, i)
  {
    hide Classify, IsComplete;
    var t := ReadToken(doc, f, i);
    assert t.start < t.end by { CompleteIsNotEmpty(doc, f, t); }
    AlikeSpaces(doc, other, k, i);
    AlikeClass(doc, other, f, k, t.start);
  }

  lemma CompleteIsNotEmpty(doc: Bytes, f: Features, t: Token)
    requires IsComplete(doc, f, t)
    ensures t.start < t.end <= |doc|
  {
  }
}
