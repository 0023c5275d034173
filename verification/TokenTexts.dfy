/**
  From tokens back to syntax: what the scanner took for a number, a word or a string literal, and the
  decoder understood, is the text of a number, a word or a literal of the grammar.
 */
module TokenTexts {
  import opened Basics
  import opened Grammar
  import opened JsonStrings
  import opened Lexer
  import opened ReaderMeaning
  import opened ReaderSpec
  import opened Values

  /** Neither preset turns these features on: strings in single quotes, `NaN` and `Infinity`, numbers as keys. */
  predicate PlainFeatures(f: Features) {
    !f.allowSingleQuotes && !f.allowSpecialFloats && !f.allowNumericKeys
  }

  lemma SliceIsAt(doc: Bytes, i: nat, j: nat)
    requires i <= j <= |doc|
    ensures At(doc, i, doc[i..j])
  {
  }

  // Numbers

  lemma DigitsAre(doc: Bytes, i: nat)
    requires i <= |doc|
    ensures AllDigits(doc[i..SkipDigits(doc, i)])
  {
    forall k | 0 <= k < SkipDigits(doc, i) - i ensures IsDigit(doc[i..SkipDigits(doc, i)][k]) {
    }
  }

  lemma FractionFrom(doc: Bytes, i: nat) returns (fraction: Option<Bytes>)
    requires i <= |doc|
    ensures PrintFraction(fraction) == doc[i..SkipFraction(doc, i)]
    ensures fraction.Some? ==> AllDigits(fraction.value)
  {
    if i < |doc| && doc[i] == DOT {
      DigitsAre(doc, i + 1);
      fraction := Some(doc[i + 1..SkipDigits(doc, i + 1)]);
    } else {
      fraction := None;
    }
  }

  lemma ExponentFrom(doc: Bytes, i: nat) returns (e: Option<Exponent>)
    requires i <= |doc|
    ensures PrintExponent(e) == doc[i..SkipExponent(doc, i)]
    ensures e.Some? ==>
              && IsExponent(e.value.letter) && AllDigits(e.value.digits)
              && (e.value.sign == [] || e.value.sign == [PLUS] || e.value.sign == [MINUS])
  {
    if i < |doc| && IsExponent(doc[i]) {
      var k := if i + 1 < |doc| && IsSign(doc[i + 1]) then i + 2 else i + 1;
      var j := SkipDigits(doc, k);
      DigitsAre(doc, k);
      e := Some(Exponent(doc[i], doc[i + 1..k], doc[k..j]));
      assert doc[i..j] == [doc[i]] + (doc[i + 1..k] + doc[k..j]);
    } else {
      e := None;
    }
  }

  /** The longest number without a sign at `i`. */
  lemma UnsignedFrom(doc: Bytes, i: nat, negative: bool) returns (n: NumberText)
    requires i <= |doc| && (negative || (i < |doc| && IsDigit(doc[i])))
    ensures WellFormedNumber(n) && n.negative == negative
    ensures PrintUnsigned(n) == doc[i..SkipExponent(doc, SkipFraction(doc, SkipDigits(doc, i)))]
  {
    hide SkipFraction, SkipExponent, PrintFraction, PrintExponent;
    var j := SkipDigits(doc, i);
    var k := SkipFraction(doc, j);
    DigitsAre(doc, i);
    var fraction := FractionFrom(doc, j);
    var exponent := ExponentFrom(doc, k);
    n := NumberText(negative, doc[i..j], fraction, exponent);
    assert doc[i..SkipExponent(doc, k)] == doc[i..j] + (doc[j..k] + doc[k..SkipExponent(doc, k)]);
  }

  lemma NumberFrom(doc: Bytes, f: Features, s: nat, e: nat) returns (n: NumberText)
    requires s < |doc| && Classify(doc, f, s) == (NumberToken, (true, e))
    ensures WellFormedNumber(n) && At(doc, s, PrintNumber(n)) && e == s + |PrintNumber(n)|
  {
    hide SkipDigits, SkipFraction, SkipExponent, PrintUnsigned, WellFormedNumber, ScanString, ScanComment, Match;
    if doc[s] == MINUS {
      n := UnsignedFrom(doc, s + 1, true);
      assert doc[s..e] == [MINUS] + doc[s + 1..e];
    } else {
      n := UnsignedFrom(doc, s, false);
      SkipDigitsStep(doc, s);
    }
  }

  // Strings

  /** One turn of the decoder takes one character of a literal. */
  lemma CharFrom(s: Bytes, i: nat) returns (c: StringChar)
    requires i < |s| && s[i] != QUOTE && DecodeFrom(s, i).Good?
    ensures WellFormedChar(c) && At(s, i, PrintChar(c)) && PrintChar(c) != [] && DecodeFrom(s, i + |PrintChar(c)|).Good?
  {
    hide DecodeCodePoint, HexValue;
    if s[i] != BACKSLASH {
      c := Raw(s[i]);
    } else if s[i + 1] != LETTER_U {
      c := Escaped(s[i + 1]);
    } else {
      c := UnicodeFrom(s, i);
    }
  }

  lemma UnicodeFrom(s: Bytes, i: nat) returns (c: StringChar)
    requires i + 2 <= |s| && s[i] == BACKSLASH && s[i + 1] == LETTER_U && DecodeCodePoint(s, i + 2).CodePointAt?
    ensures WellFormedChar(c) && At(s, i, PrintChar(c)) && PrintChar(c) != []
    ensures i + |PrintChar(c)| == DecodeCodePoint(s, i + 2).next
  {
    hide HexValue, HexNibble, DecodeHex, JoinSurrogates, IsHex4, At;
    var first := DecodeHex(s, i + 2);
    var h := s[i + 2..i + 6];
    HexIsAt(s, i);
    if IsHighSurrogate(first.cp) {
      HexIsAt(s, i + 6);
      AtAppend(s, i, PrintHex(h), PrintHex(s[i + 8..i + 12]));
      c := Pair(h, s[i + 8..i + 12]);
    } else {
      c := Unicode(h);
    }
  }

  lemma HexIsAt(s: Bytes, i: nat)
    requires i + 6 <= |s| && s[i] == BACKSLASH && s[i + 1] == LETTER_U
    ensures At(s, i, PrintHex(s[i + 2..i + 6])) && |PrintHex(s[i + 2..i + 6])| == 6
  {
    assert s[i..i + 6] == [BACKSLASH, LETTER_U] + s[i + 2..i + 6];
  }

  lemma SliceOfSlice(doc: Bytes, b: nat, e: nat, i: nat, j: nat)
    requires b <= e <= |doc| && i <= j <= e - b
    ensures doc[b..e][i..j] == doc[b + i..b + j]
  {
    forall k | 0 <= k < j - i ensures doc[b..e][i..j][k] == doc[b + i..b + j][k] {
    }
  }

  /** What the scanner delimits and the decoder accepts is the body of a literal. */
  lemma {:induction false} CharsFrom(doc: Bytes, b: nat, i: nat, e: nat) returns (cs: seq<StringChar>)
    requires b + i < e <= |doc| && ScanString(doc, b + i, QUOTE) == (true, e) && DecodeFrom(doc[b..e - 1], i).Good?
    ensures WellFormedChars(cs) && PrintChars(cs) == doc[b + i..e - 1]
    decreases e - i
  {
    hide DecodeFrom, PrintChar, WellFormedChar;
    var body := doc[b..e - 1];
    if i == |body| {
      cs := [];
    } else {
      assert doc[b + i] == body[i];
      var c := CharFrom(body, i);
      var n := |PrintChar(c)|;
      SliceOfSlice(doc, b, e - 1, i, i + n);
      ScanChar(doc, b + i, c);
      var rest := CharsFrom(doc, b, i + n, e);
      cs := [c] + rest;
      assert doc[b + i..e - 1] == PrintChar(c) + doc[b + i + n..e - 1];
    }
  }

  lemma TextFrom(doc: Bytes, f: Features, s: nat, e: nat) returns (cs: seq<StringChar>)
    requires s < |doc| && PlainFeatures(f) && Classify(doc, f, s) == (StringToken, (true, e))
    requires s + 2 <= e && DecodeFrom(TokenBody(doc, Token(StringToken, s, e)), 0).Good?
    ensures WellFormedChars(cs) && At(doc, s, PrintText(cs)) && e == s + |PrintText(cs)|
    ensures DecodeFrom(TokenBody(doc, Token(StringToken, s, e)), 0) == Good(CharsMeaning(cs))
  {
    hide DecodeFrom, PrintChars, WellFormedChars, CharsMeaning, ScanNumber, ScanComment, Match;
    cs := CharsFrom(doc, s + 1, 0, e);
    assert doc[s..e] == [QUOTE] + (doc[s + 1..e - 1] + [QUOTE]);
    TextDecodes(doc, Token(StringToken, s, e), cs);
  }

  // Tokens

  lemma WordFrom(doc: Bytes, f: Features, s: nat, typ: TokenType, e: nat)
    requires s < |doc| && Classify(doc, f, s) == (typ, (true, e))
    ensures typ == TrueToken ==> At(doc, s, TRUE_TEXT) && e == s + |TRUE_TEXT|
    ensures typ == FalseToken ==> At(doc, s, FALSE_TEXT) && e == s + |FALSE_TEXT|
    ensures typ == NullToken ==> At(doc, s, NULL_TEXT) && e == s + |NULL_TEXT|
  {
    hide ScanString, ScanNumber, ScanComment;
    var c := doc[s];
    if c == LETTER_T || c == LETTER_F || c == LETTER_N {
      var word := if c == LETTER_T then TRUE_TEXT else if c == LETTER_F then FALSE_TEXT else NULL_TEXT;
      AtAppend(doc, s, [c], word[1..]);
      assert word == [c] + word[1..];
    }
  }

  lemma PunctuationFrom(doc: Bytes, f: Features, s: nat, typ: TokenType, e: nat)
    requires s < |doc| && Classify(doc, f, s) == (typ, (true, e))
    ensures typ == ObjectBegin ==> doc[s] == LBRACE && e == s + 1
    ensures typ == ObjectEnd ==> doc[s] == RBRACE && e == s + 1
    ensures typ == ArrayBegin ==> doc[s] == LBRACKET && e == s + 1
    ensures typ == ArrayEnd ==> doc[s] == RBRACKET && e == s + 1
    ensures typ == ArraySeparator ==> doc[s] == COMMA && e == s + 1
    ensures typ == MemberSeparator ==> doc[s] == COLON && e == s + 1
  {
    hide ScanString, ScanNumber, ScanComment, Match;
  }

  /** A good token has been classified, and stands behind blanks. */
  lemma TokenIs(doc: Bytes, f: Features, i: nat)
    requires i <= |doc| && ReadToken(doc, f, i).typ != ErrorToken && ReadToken(doc, f, i).start < |doc|
    ensures var t := ReadToken(doc, f, i);
            && Classify(doc, f, t.start) == (t.typ, (true, t.end)) && AllBlank(doc[i..t.start])
            && !IsBlank(doc[t.start])
  {
    hide Classify;
  }

  /** A value of a single token was written as one. */
  lemma ScalarFrom(doc: Bytes, g: Settings, i: nat, v: Value) returns (c: Syntax)
    requires i <= |doc| && PlainFeatures(g.f) && ReadScalar(doc, g, ReadToken(doc, g.f, i), v).Success?
    requires !(g.f.allowDroppedNullPlaceholders && IsUnreadable(ReadToken(doc, g.f, i)))
    ensures IsScalar(c) && WellFormed(c, g)
    ensures var t := ReadToken(doc, g.f, i);
            At(doc, t.start, Print(c)) && t.end == t.start + |Print(c)| == ReadScalar(doc, g, t, v).cur
  {
    hide Classify, DecodeNumber, DecodeFrom, At, WellFormedChars, WellFormedNumber, PrintNumber, PrintText, NumberMeaning;
    hide ReadToken, AllBlank;
    var t := ReadToken(doc, g.f, i);
    TokenAtEnd(doc, g.f, i);
    TokenIs(doc, g.f, i);
    WordFrom(doc, g.f, t.start, t.typ, t.end);
    NoSpecials(doc, g.f, t.start);
    if t.typ == NumberToken {
      var n := NumberFrom(doc, g.f, t.start, t.end);
      AtIsSlice(doc, t.start, PrintNumber(n));
      NumberDecodes(n, g);
      c := Number(n);
    } else if t.typ == StringToken {
      var cs := TextFrom(doc, g.f, t.start, t.end);
      c := Text(cs);
    } else if t.typ == TrueToken {
      c := TrueText;
    } else if t.typ == FalseToken {
      c := FalseText;
    } else {
      c := NullText;
    }
  }

  lemma AtIsSlice(doc: Bytes, i: nat, s: Bytes)
    requires At(doc, i, s)
    ensures i + |s| <= |doc| && doc[i..i + |s|] == s
  {
  }

  lemma TokenAtEnd(doc: Bytes, f: Features, i: nat)
    requires i <= |doc|
    ensures ReadToken(doc, f, i).start == |doc| ==> ReadToken(doc, f, i).typ == EndOfStream
  {
    hide Classify;
  }

  lemma NoSpecials(doc: Bytes, f: Features, s: nat)
    requires s < |doc| && PlainFeatures(f)
    ensures Classify(doc, f, s).0 !in {NaNToken, PosInfToken, NegInfToken}
  {
    hide ScanString, ScanNumber, ScanComment, Match;
  }
}
