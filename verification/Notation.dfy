/**
  The notation of the texts the reader takes, in ASCII: the marks, the words, the digits of a number, the quotes
  and the comments. Nothing here is said with the names the scanner has for bytes and words.
 */
module Notation {
  import opened Basics
  import opened Errors
  import opened Gaps
  import opened Grammar
  import opened Integers
  import opened JsonStrings
  import opened Lexer
  import opened ReaderSpec
  import opened Values
  import P = PrintedText
  import R = ReaderMeaning
  import S = Spans

  // Marks

  const MARKS: map<char, TokenType> :=
    map['{' := ObjectBegin, '}' := ObjectEnd, '[' := ArrayBegin, ']' := ArrayEnd, ',' := ArraySeparator, ':' := MemberSeparator]

  /** Each of the six structural characters is a token, and so is a NUL, which ends the input. */
  lemma MarkReads(doc: Bytes, f: Features, i: nat, mark: char)
    requires i < |doc| && mark as int == doc[i]
    ensures mark in MARKS ==> ReadToken(doc, f, i) == Token(MARKS[mark], i, i + 1)
    ensures doc[i] == 0 ==> ReadToken(doc, f, i) == Token(EndOfStream, i, i + 1)
  {
    hide ScanString, ScanNumber, ScanComment, Match;
  }

  // Words

  /** Whether the word stands there. */
  predicate Reads(doc: Bytes, i: nat, word: string)
    requires forall k :: 0 <= k < |word| ==> word[k] < 128 as char
  {
    At(doc, i, Ascii(word))
  }

  /** A word is its first letter and the rest. */
  lemma WordSplits(doc: Bytes, i: nat, word: string, rest: Bytes)
    requires word != [] && (forall k :: 0 <= k < |word| ==> word[k] < 128 as char) && Ascii(word[1..]) == rest
    ensures Reads(doc, i, word) <==> i < |doc| && doc[i] == word[0] as int && At(doc, i + 1, rest)
  {
    assert Ascii(word) == [word[0] as int] + rest;
    AtAppend(doc, i, [word[0] as int], rest);
    if i < |doc| {
      assert doc[i..i + 1] == [doc[i]];
    }
  }

  // The rest of each word, as the scanner has it.
  lemma RestsAre()
    ensures Ascii("true"[1..]) == TRUE_TEXT[1..] && Ascii("false"[1..]) == FALSE_TEXT[1..] && Ascii("null"[1..]) == NULL_TEXT[1..]
    ensures Ascii("NaN"[1..]) == AN && Ascii("Infinity"[1..]) == NFINITY && Ascii("-Infinity"[1..]) == Ascii("Infinity")
  {
  }

  /** The token of a word, or an error if the first letter is not followed by the rest. */
  predicate IsWord(doc: Bytes, f: Features, i: nat, word: string, allowed: bool, typ: TokenType)
    requires i <= |doc| && forall k :: 0 <= k < |word| ==> word[k] < 128 as char
  {
    var t := ReadToken(doc, f, i);
    t.start == i && if allowed && Reads(doc, i, word) then t.typ == typ && t.end == i + |word| else t.typ == ErrorToken
  }

  /** The words and what begins like them, by their first letter; three of them must be allowed. */
  lemma WordReads(doc: Bytes, f: Features, i: nat)
    requires i < |doc|
    ensures doc[i] == 't' as int ==> IsWord(doc, f, i, "true", true, TrueToken)
    ensures doc[i] == 'f' as int ==> IsWord(doc, f, i, "false", true, FalseToken)
    ensures doc[i] == 'n' as int ==> IsWord(doc, f, i, "null", true, NullToken)
    ensures doc[i] == 'N' as int ==> IsWord(doc, f, i, "NaN", f.allowSpecialFloats, NaNToken)
    ensures doc[i] == 'I' as int ==> IsWord(doc, f, i, "Infinity", f.allowSpecialFloats, PosInfToken)
  {
    hide ScanString, ScanNumber, ScanComment, At, Ascii;
    RestsAre();
    WordSplits(doc, i, "true", TRUE_TEXT[1..]); WordSplits(doc, i, "false", FALSE_TEXT[1..]);
    WordSplits(doc, i, "null", NULL_TEXT[1..]); WordSplits(doc, i, "NaN", AN); WordSplits(doc, i, "Infinity", NFINITY);
  }

  lemma MinusWordReads(doc: Bytes, f: Features, i: nat)
    requires i + 1 < |doc| && doc[i] == '-' as int && doc[i + 1] == 'I' as int
    ensures IsWord(doc, f, i, "-Infinity", f.allowSpecialFloats, NegInfToken)
  {
    hide ScanString, ScanComment, At, Ascii;
    RestsAre();
    WordSplits(doc, i, "-Infinity", Ascii("Infinity"));
    WordSplits(doc, i + 1, "Infinity", NFINITY);
  }

  const WORDS: map<string, Payload> :=
    map["null" := Null, "true" := Boolean(true), "false" := Boolean(false),
        "NaN" := Real(NaN), "Infinity" := Real(PosInf), "-Infinity" := Real(NegInf)]

  /** The value each word stands for. */
  lemma WordValue(doc: Bytes, g: Settings, depth: nat, i: nat, v: Value, word: string)
    requires depth <= g.f.stackLimit && word in WORDS && (g.f.allowSpecialFloats || !WORDS[word].Real?)
    requires (forall k :: 0 <= k < |word| ==> word[k] < 128 as char) && Reads(doc, i, word)
    ensures ReadValue(doc, g, depth, i, v) == Success(i + |word|, Value(WORDS[word], i, i + |word|))
  {
    hide ReadToken, ReadValue, Reads;
    FirstLetter(doc, i, word);
    WordReads(doc, g.f, i);
    if word == "-Infinity" {
      SecondLetter(doc, i);
      MinusWordReads(doc, g.f, i);
    }
    NotSkipped(doc, g.f, i);
    TokenValue(doc, g, depth, i, v);
  }

  // What a word token is read as.
  lemma TokenValue(doc: Bytes, g: Settings, depth: nat, i: nat, v: Value)
    requires i <= |doc| && depth <= g.f.stackLimit
    ensures var t := NextToken(doc, g.f, i); var r := ReadValue(doc, g, depth, i, v);
            && (t.typ == TrueToken ==> r == Success(t.end, Value(Boolean(true), t.start, t.end)))
            && (t.typ == FalseToken ==> r == Success(t.end, Value(Boolean(false), t.start, t.end)))
            && (t.typ == NullToken ==> r == Success(t.end, Value(Null, t.start, t.end)))
            && (t.typ == NaNToken ==> r == Success(t.end, Value(Real(NaN), t.start, t.end)))
            && (t.typ == PosInfToken ==> r == Success(t.end, Value(Real(PosInf), t.start, t.end)))
            && (t.typ == NegInfToken ==> r == Success(t.end, Value(Real(NegInf), t.start, t.end)))
  {
    hide NextToken, ReadMembers, ReadArray, DecodeFrom, DecodeNumber;
  }

  lemma SecondLetter(doc: Bytes, i: nat)
    requires Reads(doc, i, "-Infinity")
    ensures i + 9 <= |doc| && doc[i] == '-' as int && doc[i + 1] == 'I' as int
  {
    RestsAre();
    WordSplits(doc, i, "-Infinity", Ascii("Infinity"));
    FirstLetter(doc, i, "-Infinity");
    FirstLetter(doc, i + 1, "Infinity");
  }

  lemma FirstLetter(doc: Bytes, i: nat, word: string)
    requires word != [] && (forall k :: 0 <= k < |word| ==> word[k] < 128 as char) && Reads(doc, i, word)
    ensures i < |doc| && doc[i] == word[0] as int && i + |word| <= |doc|
  {
    AtByte(doc, i, Ascii(word), 0);
  }

  lemma NotSkipped(doc: Bytes, f: Features, i: nat)
    requires i <= |doc|
    ensures ReadToken(doc, f, i).typ != CommentToken ==> NextToken(doc, f, i) == ReadToken(doc, f, i)
  {
    hide ReadToken;
  }

  // Numbers

  predicate IsNumeral(s: Bytes) {
    forall k :: 0 <= k < |s| ==> '0' as int <= s[k] <= '9' as int
  }

  /** What the reader takes for a number, and its text: a sign, digits, a fraction, an exponent. */
  lemma NumberIs(n: NumberText)
    ensures WellFormedNumber(n) <==>
              && (n.whole != [] || n.negative) && IsNumeral(n.whole)
              && (n.fraction.Some? ==> IsNumeral(n.fraction.value))
              && (n.exponent.Some? ==>
                    && n.exponent.value.letter in Ascii("eE") && IsNumeral(n.exponent.value.digits)
                    && n.exponent.value.sign in [[], Ascii("+"), Ascii("-")])
    ensures PrintNumber(n) ==
            (if n.negative then Ascii("-") else [])
            + (n.whole + ((if n.fraction.Some? then Ascii(".") + n.fraction.value else [])
                          + (if n.exponent.Some? then
                               [n.exponent.value.letter] + (n.exponent.value.sign + n.exponent.value.digits)
                             else [])))
  {
    assert Ascii("+") == [PLUS] && Ascii("-") == [MINUS] && Ascii(".") == [DOT];
    assert Ascii("eE") == [LETTER_E, UPPER_E];
    if !n.negative {
      assert [] + PrintUnsigned(n) == PrintUnsigned(n);
    }
  }

  /** Decimal place value. */
  lemma NumeralStep(s: Bytes, b: Byte)
    requires IsNumeral(s) && '0' as int <= b <= '9' as int
    ensures AllDigits(s + [b]) && AllDigits(s) && NatOf(s + [b]) == 10 * NatOf(s) + (b - '0' as int)
    ensures NatOf([]) == 0
  {
    assert (s + [b])[..|s|] == s;
  }

  /** Which integers are exact, and how they are tagged: from -2^63 to 2^64 - 1, unsigned from 2^31 on. */
  lemma IntegerRange(n: NumberText, scan: Bytes -> Option<Double>)
    requires WellFormedNumber(n) && n.fraction.None? && n.exponent.None?
    ensures var x: int := NatOf(n.whole);
            NumberMeaning(n, scan) ==
            if n.negative && x <= 9223372036854775808 then Some(Int(-x))
            else if !n.negative && x <= 2147483647 then Some(Int(x))
            else if !n.negative && x <= 18446744073709551615 then Some(UInt(x))
            else match scan(PrintNumber(n)) case Some(d) => Some(Real(d)) case None => None
  {
    hide NatOf;
  }

  /** A number for a name, where that is allowed: what the number reads as, printed. */
  lemma NumericName(doc: Bytes, g: Settings, t: Token, v: Value)
    requires t.typ == NumberToken && t.start <= t.end <= |doc|
    ensures !g.f.allowNumericKeys ==> MemberName(doc, g, t) == NoName
    ensures g.f.allowNumericKeys ==>
              match ReadScalar(doc, g, t, v)
              case Success(_, w) =>
                MemberName(doc, g, t) == Named(if w.payload.Int? then P.Numeral(w.payload.i)
                                               else if w.payload.UInt? then P.Numeral(w.payload.u)
                                               else if w.payload.Real? then g.show(w.payload.d) else [])
              case Failure(_, _, e) => MemberName(doc, g, t) == BadName(e)
              case Threw => false
  {
    hide DecodeNumber, NumberName, P.Numeral;
    if DecodeNumber(TokenText(doc, t), g).Some? {
      NameIs(DecodeNumber(TokenText(doc, t), g).value, g);
    }
  }

  lemma NameIs(p: Payload, g: Settings)
    ensures NumberName(p, g) == if p.Int? then P.Numeral(p.i) else if p.UInt? then P.Numeral(p.u) else if p.Real? then g.show(p.d) else []
  {
    hide Digits, P.Decimal;
    if p.Int? {
      P.DecimalIs(Magnitude(p.i));
      P.WordsAre();
    } else if p.UInt? {
      P.DecimalIs(p.u);
    }
  }

  /** Behind its colon a name of 2^30 bytes or more throws, and a shorter one does not. */
  lemma LongNameThrows(doc: Bytes, g: Settings, depth: nat, t: Token, n: Bytes, m: map<Bytes, Value>, v: Value)
    requires t.start < t.end <= |doc| && ReadToken(doc, g.f, t.end).typ == MemberSeparator
    ensures |n| >= 1073741824 ==> ReadMember(doc, g, depth, t, n, m, v).Threw?
    ensures |n| < 1073741824 && g.f.rejectDupKeys && n in m ==>
              var r := ReadMember(doc, g, depth, t, n, m, v);
              r.Failure? && r.e == Error(t.start, t.end, DuplicateKey(n), None)
    ensures var r := ReadValue(doc, g, depth + 1, ReadToken(doc, g.f, t.end).end, S.Current(m, n));
            |n| < 1073741824 && !(g.f.rejectDupKeys && n in m) && r.Success? ==>
              ReadMember(doc, g, depth, t, n, m, v) == S.MemberEnd(doc, g, depth, r.cur, n, m[n := r.v], v)
  {
    hide ReadToken, SkipComments, ReadValue, ReadMembers, Recover;
  }

  // Quotes

  /** The body of a string between two quotes of one kind: a backslash takes the next byte with it. */
  predicate IsBody(s: Bytes, quote: Byte)
    decreases |s|
  {
    || s == []
    || (s[0] == '\\' as int && |s| >= 2 && IsBody(s[2..], quote))
    || (s[0] != '\\' as int && s[0] != quote && IsBody(s[1..], quote))
  }

  lemma {:induction false} BodyScanned(doc: Bytes, i: nat, s: Bytes, quote: Byte)
    requires At(doc, i, s + [quote]) && IsBody(s, quote) && quote != '\\' as int
    ensures i <= |doc| && ScanString(doc, i, quote) == (true, i + |s| + 1)
    decreases |s|
  {
    var t := s + [quote];
    AtByte(doc, i, t, 0);
    if s != [] {
      var n := if s[0] == '\\' as int then 2 else 1;
      AtByte(doc, i, t, 1);
      assert t == s[..n] + (s[n..] + [quote]);
      AtAppend(doc, i, s[..n], s[n..] + [quote]);
      BodyScanned(doc, i + n, s[n..], quote);
    }
  }

  lemma QuoteClass(doc: Bytes, f: Features, i: nat)
    requires i < |doc| && (doc[i] == '"' as int || (doc[i] == '\'' as int && f.allowSingleQuotes))
    ensures Classify(doc, f, i) == (StringToken, ScanString(doc, i + 1, doc[i]))
  {
    hide ScanNumber, ScanComment, Match, ScanString;
  }

  /** A string token: between quotation marks, or between apostrophes where they are allowed. */
  lemma QuotedReads(doc: Bytes, f: Features, i: nat, s: Bytes, quote: char)
    requires quote == '"' || (quote == '\'' && f.allowSingleQuotes)
    requires At(doc, i, [quote as int] + (s + [quote as int])) && IsBody(s, quote as int)
    ensures i <= |doc| && ReadToken(doc, f, i) == Token(StringToken, i, i + |s| + 2)
  {
    hide Classify, ScanString, IsBody, At;
    var q: Bytes := [quote as int];
    AtAppend(doc, i, q, s + q);
    AtByte(doc, i, q, 0);
    BodyScanned(doc, i + 1, s, quote as int);
    AtByte(doc, i + 1, s + q, |s|);
    QuoteClass(doc, f, i);
    R.SpacesStop(doc, i);
  }

  // Comments

  /** A block comment ends at its first end mark. */
  lemma {:induction false} BlockEndIs(s: Bytes, i: nat, e: nat)
    requires i <= e && e + 2 <= |s| && Reads(s, e, "*/") && forall k: nat :: i <= k < e ==> !Reads(s, k, "*/")
    ensures BlockEnd(s, i) == e + 2
    decreases e - i
  {
    MarkPair(s, i);
    if i < e {
      BlockEndIs(s, i + 1, e);
    }
  }

  lemma MarkPair(s: Bytes, i: nat)
    ensures Reads(s, i, "*/") <==> i + 2 <= |s| && s[i] == '*' as int && s[i + 1] == '/' as int
  {
    assert Ascii("*/") == ['*' as int, '/' as int];
    if i + 2 <= |s| {
      assert s[i..i + 2] == [s[i], s[i + 1]];
    }
  }

  // What begins a comment: a slash, or an apostrophe that begins no string.
  predicate CommentMark(b: Byte, comments: Comments) {
    b == '/' as int || (comments.Quoted? && b == '\'' as int)
  }

  /** Block comments, at least to the first end mark behind the begin mark. */
  lemma BlockCommentIs(s: Bytes, e: nat, comments: Comments)
    requires !comments.Never? && 2 <= e && e + 2 <= |s| && CommentMark(s[0], comments) && s[1] == '*' as int
    requires Reads(s, e, "*/") && forall k: nat :: 2 <= k < e ==> !Reads(s, k, "*/")
    ensures CommentLength(s, comments) == e + 2
  {
    BlockEndIs(s, 2, e);
  }

  /** Line comments end behind a line feed, a carriage return, or the two of them. */
  lemma {:induction false} LineEndIs(s: Bytes, i: nat, e: nat)
    requires i <= e < |s| && (s[e] == 0x0A || s[e] == 0x0D) && forall k :: i <= k < e ==> s[k] != 0x0A && s[k] != 0x0D
    ensures LineEnd(s, i) == if s[e] == 0x0D && e + 1 < |s| && s[e + 1] == 0x0A then e + 2 else e + 1
    decreases e - i
  {
    if i < e {
      LineEndIs(s, i + 1, e);
    }
  }

  lemma LineCommentIs(s: Bytes, e: nat, comments: Comments)
    requires !comments.Never? && 2 <= e < |s| && CommentMark(s[0], comments) && s[1] == '/' as int
    requires (s[e] == 0x0A || s[e] == 0x0D) && forall k :: 2 <= k < e ==> s[k] != 0x0A && s[k] != 0x0D
    ensures CommentLength(s, comments) == if s[e] == 0x0D && e + 1 < |s| && s[e + 1] == 0x0A then e + 2 else e + 1
  {
    LineEndIs(s, 2, e);
  }

  /** Nothing else begins a comment. */
  lemma NoCommentIs(s: Bytes, comments: Comments)
    requires s == [] || comments.Never? || !CommentMark(s[0], comments) || (|s| > 1 && s[1] != '*' as int && s[1] != '/' as int)
    ensures CommentLength(s, comments) == 0
  {
  }
}
