/**
  Tokens that stand where the reader wants a separator. A token is recognised by its own bytes as long as
  what follows it would not make it longer.
 */
module Separators {
  import opened Basics
  import opened Grammar
  import opened JsonStrings
  import opened Lexer

  /** The end of the document or a byte that ends a value. */
  predicate Terminated(doc: Bytes, q: nat) {
    q == |doc| || (q < |doc| && (doc[q] == COMMA || doc[q] == RBRACKET || doc[q] == RBRACE))
  }

  /** What may follow a token: nothing that would extend a number. */
  predicate Delimited(doc: Bytes, e: nat) {
    || e == |doc|
    || (e < |doc| && (IsBlank(doc[e]) || doc[e] == SLASH || doc[e] == APOSTROPHE || doc[e] == QUOTE || Terminated(doc, e)))
  }

  // A scan that uses up `s` ends at the same place in a document where `s` is followed by something else.

  lemma {:induction false} DigitsGrow(doc: Bytes, q: nat, s: Bytes, i: nat)
    requires At(doc, q, s) && i <= |s| && Delimited(doc, q + |s|)
    ensures SkipDigits(doc, q + i) == q + SkipDigits(s, i)
    decreases |s| - i
  {
    if i < |s| {
      AtByte(doc, q, s, i);
      if IsDigit(s[i]) {
        DigitsGrow(doc, q, s, i + 1);
      }
    }
  }

  lemma FractionGrows(doc: Bytes, q: nat, s: Bytes, i: nat)
    requires At(doc, q, s) && i <= |s| && Delimited(doc, q + |s|)
    ensures SkipFraction(doc, q + i) == q + SkipFraction(s, i)
  {
    hide SkipDigits;
    if i < |s| {
      AtByte(doc, q, s, i);
      if s[i] == DOT {
        DigitsGrow(doc, q, s, i + 1);
      }
    }
  }

  lemma ExponentGrows(doc: Bytes, q: nat, s: Bytes, i: nat)
    requires At(doc, q, s) && i <= |s| && Delimited(doc, q + |s|)
    ensures SkipExponent(doc, q + i) == q + SkipExponent(s, i)
  {
    hide SkipDigits;
    if i < |s| {
      AtByte(doc, q, s, i);
      if IsExponent(s[i]) {
        if i + 1 < |s| {
          AtByte(doc, q, s, i + 1);
        }
        DigitsGrow(doc, q, s, if i + 1 < |s| && IsSign(s[i + 1]) then i + 2 else i + 1);
      }
    }
  }

  lemma NumberGrows(doc: Bytes, q: nat, s: Bytes, i: nat, checkInf: bool)
    requires At(doc, q, s) && i <= |s| && Delimited(doc, q + |s|)
    ensures var (ok, e) := ScanNumber(s, i, checkInf); ScanNumber(doc, q + i, checkInf) == (ok, q + e)
  {
    hide SkipDigits, SkipFraction, SkipExponent;
    if i < |s| {
      AtByte(doc, q, s, i);
    }
    DigitsGrow(doc, q, s, i);
    FractionGrows(doc, q, s, SkipDigits(s, i));
    ExponentGrows(doc, q, s, SkipFraction(s, SkipDigits(s, i)));
  }

  lemma {:induction false} StringGrows(doc: Bytes, q: nat, s: Bytes, i: nat, quote: Byte)
    requires At(doc, q, s) && i <= |s| && ScanString(s, i, quote).0
    ensures ScanString(doc, q + i, quote) == (true, q + ScanString(s, i, quote).1)
    decreases |s| - i
  {
    AtByte(doc, q, s, i);
    if s[i] == BACKSLASH {
      StringGrows(doc, q, s, if i + 1 < |s| then i + 2 else i + 1, quote);
    } else if s[i] != quote {
      StringGrows(doc, q, s, i + 1, quote);
    }
  }

  lemma MatchGrows(doc: Bytes, q: nat, s: Bytes, i: nat, pattern: Bytes)
    requires At(doc, q, s) && i <= |s| && Match(s, i, pattern).0
    ensures Match(doc, q + i, pattern) == (true, q + Match(s, i, pattern).1)
  {
    assert s == s[..i] + (pattern + s[i + |pattern|..]);
    AtAppend(doc, q, s[..i], pattern + s[i + |pattern|..]);
    AtAppend(doc, q + i, pattern, s[i + |pattern|..]);
  }

  lemma ClassGrows(doc: Bytes, f: Features, q: nat, s: Bytes)
    requires At(doc, q, s) && s != [] && Delimited(doc, q + |s|) && q < |doc|
    requires Classify(s, f, 0).1 == (true, |s|) && Classify(s, f, 0).0 != CommentToken
    ensures Classify(doc, f, q) == (Classify(s, f, 0).0, (true, q + |s|))
  {
    hide ScanNumber, ScanString, Match, ScanComment;
    AtByte(doc, q, s, 0);
    var c := s[0];
    if c == QUOTE {
      StringGrows(doc, q, s, 1, QUOTE);
    } else if c == APOSTROPHE {
      StringGrows(doc, q, s, 1, APOSTROPHE);
    } else if IsDigit(c) {
      NumberGrows(doc, q, s, 1, false);
    } else if c == MINUS {
      NumberGrows(doc, q, s, 1, true);
      if !ScanNumber(s, 1, true).0 {
        MatchGrows(doc, q, s, ScanNumber(s, 1, true).1, NFINITY);
      }
    } else if c == LETTER_T || c == LETTER_F || c == LETTER_N || c == UPPER_N || c == UPPER_I {
      WordGrows(doc, f, q, s);
    }
  }

  lemma WordGrows(doc: Bytes, f: Features, q: nat, s: Bytes)
    requires At(doc, q, s) && s != [] && q < |doc| && doc[q] == s[0]
    requires s[0] in [LETTER_T, LETTER_F, LETTER_N, UPPER_N, UPPER_I] && Classify(s, f, 0).1 == (true, |s|)
    ensures Classify(doc, f, q) == (Classify(s, f, 0).0, (true, q + |s|))
  {
    hide ScanNumber, ScanString, Match, ScanComment;
    var c := s[0];
    var word := if c == LETTER_T then TRUE_TEXT[1..] else if c == LETTER_F then FALSE_TEXT[1..]
                else if c == LETTER_N then NULL_TEXT[1..] else if c == UPPER_N then AN else NFINITY;
    MatchGrows(doc, q, s, 1, word);
  }

  lemma ScanningClass(s: Bytes, f: Features, i: nat)
    requires i < |s|
    ensures Classify(s, Scanning(f), i) == Classify(s, f, i)
  {
    hide ScanNumber, ScanString, Match, ScanComment;
  }

  /** A separator is found where it stands. */
  lemma AnyTokenAt(doc: Bytes, f: Features, q: nat, s: Bytes)
    requires At(doc, q, s) && IsAnyToken(s, Scanning(f)) && Delimited(doc, q + |s|)
    ensures q < |doc|
    ensures var t := ReadToken(doc, f, q);
            && t == SkipComments(doc, f, q) && t == Token(t.typ, q, q + |s|)
            && t.typ != CommentToken && t.typ != ObjectEnd && t.typ != EndOfStream && t.typ != ErrorToken
  {
    hide Classify;
    AtByte(doc, q, s, 0);
    ScanningClass(s, f, 0);
    ClassGrows(doc, f, q, s);
  }
}
