/**
  The reader gives every text of the grammar its meaning: parsing `Print(c)` yields `Denote(c)`
  when the node stack suffices and throws when it does not, whatever the blanks, escapes, features
  and previous contents of the root.
 */
module ReaderMeaning {
  import opened Basics
  import opened Errors
  import opened Gaps
  import opened Grammar
  import opened JsonStrings
  import opened Lexer
  import opened ReaderSpec
  import opened Separators
  import opened Values

  // Blanks and punctuation

  lemma SkipBlank(doc: Bytes, i: nat, blank: Bytes)
    requires At(doc, i, blank) && AllBlank(blank)
    requires i + |blank| < |doc| ==> !IsBlank(doc[i + |blank|])
    ensures SkipSpaces(doc, i) == i + |blank|
  {
    forall k: nat | i <= k < i + |blank| ensures IsBlank(doc[k]) {
      AtByte(doc, i, blank, k - i);
    }
  }

  // A gap up to `q`: what the reader sees at `e` is what is there or a comment before it.
  predicate Follows(doc: Bytes, f: Features, e: nat, q: nat) {
    && e <= q <= |doc| && Delimited(doc, e)
    && SkipComments(doc, f, e) == SkipComments(doc, f, q)
    && (ReadToken(doc, f, e) == ReadToken(doc, f, q) || ReadToken(doc, f, e).typ == CommentToken)
  }

  lemma GapFollows(doc: Bytes, f: Features, e: nat, gap: Bytes)
    requires At(doc, e, gap) && IsGap(gap, Skipped(f)) && (AllBlank(gap) ==> Terminated(doc, e + |gap|))
    ensures Follows(doc, f, e, e + |gap|)
    ensures !AllBlank(gap) ==> ReadToken(doc, f, e).typ == CommentToken
  {
    hide ReadToken, SkipComments;
    SkipsGap(doc, f, e, gap);
    FirstInGap(doc, f, e, gap);
    if gap != [] {
      AtByte(doc, e, gap, 0);
    }
  }

  function PunctuationType(b: Byte): TokenType {
    if b == COMMA then ArraySeparator
    else if b == RBRACKET then ArrayEnd
    else if b == RBRACE then ObjectEnd
    else MemberSeparator
  }

  lemma Punctuation(doc: Bytes, f: Features, i: nat, p: nat)
    requires i <= |doc| && SkipSpaces(doc, i) == p && p < |doc|
    requires doc[p] == COMMA || doc[p] == RBRACKET || doc[p] == RBRACE || doc[p] == COLON
    ensures var t := Token(PunctuationType(doc[p]), p, p + 1);
            ReadToken(doc, f, i) == t && SkipComments(doc, f, i) == t && NextToken(doc, f, i) == t
  {
  }

  /** Behind a value, the terminator is what the loops find once they have skipped comments. */
  lemma TerminatorFollows(doc: Bytes, f: Features, e: nat, q: nat)
    requires Follows(doc, f, e, q) && q < |doc| && (doc[q] == COMMA || doc[q] == RBRACKET || doc[q] == RBRACE)
    ensures SkipComments(doc, f, e) == Token(PunctuationType(doc[q]), q, q + 1)
    ensures ReadToken(doc, f, e).typ == PunctuationType(doc[q]) || ReadToken(doc, f, e).typ == CommentToken
  {
    hide ReadToken, SkipComments;
    Punctuation(doc, f, q, q);
  }

  // Numbers

  lemma SkipDigitsOver(doc: Bytes, i: nat, digits: Bytes)
    requires At(doc, i, digits) && AllDigits(digits)
    requires i + |digits| < |doc| ==> !IsDigit(doc[i + |digits|])
    ensures SkipDigits(doc, i) == i + |digits|
  {
    forall k: nat | i <= k < i + |digits| ensures IsDigit(doc[k]) {
      AtByte(doc, i, digits, k - i);
    }
  }

  lemma SkipFractionOver(doc: Bytes, i: nat, fraction: Option<Bytes>)
    requires At(doc, i, PrintFraction(fraction))
    requires fraction.Some? ==> AllDigits(fraction.value)
    requires var e := i + |PrintFraction(fraction)|; e < |doc| ==> !IsDigit(doc[e]) && doc[e] != DOT
    ensures SkipFraction(doc, i) == i + |PrintFraction(fraction)|
  {
    if fraction.Some? {
      AtByte(doc, i, PrintFraction(fraction), 0);
      AtAppend(doc, i, [DOT], fraction.value);
      SkipDigitsOver(doc, i + 1, fraction.value);
    }
  }

  lemma NotInNumber(doc: Bytes, e: nat)
    requires Delimited(doc, e)
    ensures e <= |doc| && (e < |doc| ==> !IsDigit(doc[e]) && !IsExponent(doc[e]) && !IsSign(doc[e]) && doc[e] != DOT)
  {
  }

  lemma ExponentParts(doc: Bytes, i: nat, e: Exponent)
    requires At(doc, i, PrintExponent(Some(e)))
    ensures var k := i + 1 + |e.sign|;
            && i < |doc| && doc[i] == e.letter && At(doc, i + 1, e.sign) && At(doc, k, e.digits)
            && k + |e.digits| == i + |PrintExponent(Some(e))|
  {
    hide At;
    AtByte(doc, i, PrintExponent(Some(e)), 0);
    AtBounds(doc, i, PrintExponent(Some(e)));
    AtAppend(doc, i, [e.letter], e.sign + e.digits);
    AtAppend(doc, i + 1, e.sign, e.digits);
  }

  lemma SkipExponentOver(doc: Bytes, i: nat, e: Option<Exponent>)
    requires At(doc, i, PrintExponent(e))
    requires e.Some? ==> IsExponent(e.value.letter) && AllDigits(e.value.digits)
    requires e.Some? ==> e.value.sign == [] || e.value.sign == [PLUS] || e.value.sign == [MINUS]
    requires Delimited(doc, i + |PrintExponent(e)|)
    ensures SkipExponent(doc, i) == i + |PrintExponent(e)|
  {
    NotInNumber(doc, i + |PrintExponent(e)|);
    if e.Some? {
      SkipSomeExponent(doc, i, e.value);
    }
  }

  lemma SkipSomeExponent(doc: Bytes, i: nat, e: Exponent)
    requires At(doc, i, PrintExponent(Some(e))) && IsExponent(e.letter) && AllDigits(e.digits)
    requires e.sign == [] || e.sign == [PLUS] || e.sign == [MINUS]
    requires var k := i + |PrintExponent(Some(e))|; k <= |doc| && (k < |doc| ==> !IsDigit(doc[k]) && !IsSign(doc[k]))
    ensures SkipExponent(doc, i) == i + |PrintExponent(Some(e))|
  {
    hide SkipDigits, At, PrintExponent;
    var k := i + 1 + |e.sign|;
    ExponentParts(doc, i, e);
    SkipDigitsOver(doc, k, e.digits);
    if e.digits != [] {
      AtByte(doc, k, e.digits, 0);
    }
    if e.sign != [] {
      AtByte(doc, i + 1, e.sign, 0);
    }
  }

  lemma SkipDigitsStep(doc: Bytes, i: nat)
    requires i < |doc| && IsDigit(doc[i])
    ensures SkipDigits(doc, i) == SkipDigits(doc, i + 1)
  {
  }

  /** Where the parts of a number are, and that each is delimited by what follows it. */
  lemma UnsignedParts(doc: Bytes, i: nat, n: NumberText)
    requires WellFormedNumber(n) && At(doc, i, PrintUnsigned(n)) && Delimited(doc, i + |PrintUnsigned(n)|)
    ensures var j := i + |n.whole|; var k := j + |PrintFraction(n.fraction)|;
            && At(doc, i, n.whole) && At(doc, j, PrintFraction(n.fraction)) && At(doc, k, PrintExponent(n.exponent))
            && i + |PrintUnsigned(n)| == k + |PrintExponent(n.exponent)|
            && (n.whole != [] ==> i < |doc| && IsDigit(doc[i])) && (i < |doc| ==> doc[i] != UPPER_I)
            && (j < |doc| ==> !IsDigit(doc[j])) && (k < |doc| ==> !IsDigit(doc[k]) && doc[k] != DOT)
  {
    hide At;
    var fraction, exponent := PrintFraction(n.fraction), PrintExponent(n.exponent);
    var j := i + |n.whole|;
    var k := j + |fraction|;
    AtAppend(doc, i, n.whole, fraction + exponent);
    AtAppend(doc, j, fraction, exponent);
    if n.whole != [] {
      AtByte(doc, i, n.whole, 0);
    }
    if n.exponent.Some? {
      AtByte(doc, k, exponent, 0);
    }
    if n.fraction.Some? {
      AtByte(doc, j, fraction, 0);
    }
  }

  /** The scanner takes the whole of a number and no more. */
  lemma ScanUnsigned(doc: Bytes, i: nat, n: NumberText)
    requires WellFormedNumber(n) && At(doc, i, PrintUnsigned(n)) && Delimited(doc, i + |PrintUnsigned(n)|)
    ensures SkipExponent(doc, SkipFraction(doc, SkipDigits(doc, i))) == i + |PrintUnsigned(n)|
    ensures n.whole != [] ==> i < |doc| && IsDigit(doc[i]) && SkipDigits(doc, i) == SkipDigits(doc, i + 1)
    ensures i < |doc| ==> doc[i] != UPPER_I
  {
    hide SkipDigits, SkipFraction, SkipExponent, PrintUnsigned, PrintFraction, PrintExponent, IsDigit;
    var j := i + |n.whole|;
    var k := j + |PrintFraction(n.fraction)|;
    UnsignedParts(doc, i, n);
    if n.whole != [] {
      SkipDigitsStep(doc, i);
    }
    SkipDigitsOver(doc, i, n.whole);
    SkipFractionOver(doc, j, n.fraction);
    SkipExponentOver(doc, k, n.exponent);
  }

  lemma NumberClass(doc: Bytes, f: Features, p: nat, n: NumberText)
    requires WellFormedNumber(n) && At(doc, p, PrintNumber(n)) && Delimited(doc, p + |PrintNumber(n)|)
    requires p < |doc|
    ensures Classify(doc, f, p) == (NumberToken, (true, p + |PrintNumber(n)|))
    ensures !IsBlank(doc[p])
  {
    hide AllDigits, SkipDigits, SkipFraction, SkipExponent, PrintUnsigned, ScanString, ScanComment, Match, At, Delimited;
    if n.negative {
      AtByte(doc, p, PrintNumber(n), 0);
      AtAppend(doc, p, [MINUS], PrintUnsigned(n));
      ScanUnsigned(doc, p + 1, n);
    } else {
      ScanUnsigned(doc, p, n);
    }
  }

  /** Decoding the text of a number gives the number's meaning. */
  lemma NumberDecodes(n: NumberText, g: Settings)
    requires WellFormedNumber(n)
    ensures DecodeNumber(PrintNumber(n), g) == NumberMeaning(n, g.scan)
  {
    var text := PrintNumber(n);
    var u := PrintUnsigned(n);
    var fraction, exponent := PrintFraction(n.fraction), PrintExponent(n.exponent);
    assert n.whole != [] ==> u[0] == n.whole[0];
    assert n.negative ==> text[0] == MINUS && text[1..] == u;
    if n.fraction.None? && n.exponent.None? {
      assert u == n.whole;
    } else {
      var k := |n.whole|;
      assert u[k] == (fraction + exponent)[0];
      assert !IsDigit(u[k]);
      assert !AllDigits(u);
    }
  }

  // Strings

  lemma TextAt(doc: Bytes, p: nat, cs: seq<StringChar>)
    requires At(doc, p, PrintText(cs))
    ensures At(doc, p + 1, PrintChars(cs)) && At(doc, p + 1 + |PrintChars(cs)|, [QUOTE])
    ensures |PrintText(cs)| == |PrintChars(cs)| + 2
    ensures doc[p] == QUOTE
  {
    hide PrintChars;
    AtByte(doc, p, PrintText(cs), 0);
    AtAppend(doc, p, [QUOTE], PrintChars(cs) + [QUOTE]);
    AtAppend(doc, p + 1, PrintChars(cs), [QUOTE]);
  }

  lemma QuoteClass(doc: Bytes, f: Features, p: nat)
    requires p < |doc| && doc[p] == QUOTE
    ensures Classify(doc, f, p) == (StringToken, ScanString(doc, p + 1, QUOTE))
  {
  }

  /** A quoted text is one token. */
  lemma TextClass(doc: Bytes, f: Features, p: nat, cs: seq<StringChar>)
    requires WellFormedChars(cs) && At(doc, p, PrintText(cs))
    ensures p + 2 <= p + |PrintText(cs)| <= |doc|
    ensures Classify(doc, f, p) == (StringToken, (true, p + |PrintText(cs)|))
    ensures !IsBlank(doc[p])
  {
    hide PrintText, ScanString, Classify, WellFormedChars;
    var e := p + |PrintText(cs)|;
    assert doc[p] == QUOTE && ScanString(doc, p + 1, QUOTE) == (true, e) && p + 2 <= e <= |doc| by {
      TextAt(doc, p, cs);
      ScanLiteral(doc, p + 1, cs);
    }
    QuoteClass(doc, f, p);
  }

  /** Decoding that token gives the bytes the text denotes. */
  lemma TextDecodes(doc: Bytes, t: Token, cs: seq<StringChar>)
    requires WellFormedChars(cs) && At(doc, t.start, PrintText(cs)) && t.end == t.start + |PrintText(cs)|
    ensures t.start + 2 <= t.end
    ensures DecodeFrom(TokenBody(doc, t), 0) == Good(CharsMeaning(cs))
  {
    hide PrintChars, CharsMeaning, WellFormedChar, DecodeFrom;
    TextAt(doc, t.start, cs);
    DecodeLiteral(cs);
  }

  /** From a classification to the token the reader sees. */
  lemma TokenFrom(doc: Bytes, f: Features, i: nat, p: nat, typ: TokenType, e: nat)
    requires i <= |doc| && SkipSpaces(doc, i) == p && p < |doc|
    requires Classify(doc, f, p) == (typ, (true, e)) && typ != CommentToken
    ensures var t := Token(typ, p, e);
            ReadToken(doc, f, i) == t && SkipComments(doc, f, i) == t && NextToken(doc, f, i) == t
  {
  }

  // Single tokens

  predicate IsScalar(c: Syntax) {
    !c.ArrayText? && !c.ObjectText? && !c.Dropped? && !c.Unparsed?
  }

  lemma WordClass(doc: Bytes, f: Features, p: nat, c: Syntax)
    requires c.NullText? || c.TrueText? || c.FalseText?
    requires At(doc, p, Print(c))
    ensures p < |doc| && !IsBlank(doc[p])
    ensures Classify(doc, f, p)
            == (if c.NullText? then NullToken else if c.TrueText? then TrueToken else FalseToken,
                (true, p + |Print(c)|))
  {
    var word := Print(c);
    AtByte(doc, p, word, 0);
    assert word == [word[0]] + word[1..];
    AtAppend(doc, p, [word[0]], word[1..]);
  }

  function ScalarType(c: Syntax): TokenType
    requires IsScalar(c)
  {
    match c
    case NullText => NullToken
    case TrueText => TrueToken
    case FalseText => FalseToken
    case Number(_) => NumberToken
    case Text(_) => StringToken
  }

  lemma ScalarClass(doc: Bytes, g: Settings, p: nat, c: Syntax)
    requires IsScalar(c) && WellFormed(c, g) && At(doc, p, Print(c)) && Delimited(doc, p + |Print(c)|)
    ensures p < |doc| && Classify(doc, g.f, p) == (ScalarType(c), (true, p + |Print(c)|))
    ensures c.Text? ==> |Print(c)| >= 2
  {
    hide Classify, Delimited, IsBlank;
    match c
    case Number(n) =>
      assert |PrintNumber(n)| > 0 by {
        assert n.whole != [] ==> |PrintUnsigned(n)| > 0;
      }
      NumberClass(doc, g.f, p, n);
    case Text(cs) => TextClass(doc, g.f, p, cs);
    case _ => WordClass(doc, g.f, p, c);
  }

  lemma NumberRead(doc: Bytes, g: Settings, v: Value, n: NumberText, p: nat)
    requires WellFormedNumber(n) && NumberMeaning(n, g.scan).Some? && At(doc, p, PrintNumber(n))
    ensures ReadScalar(doc, g, Token(NumberToken, p, p + |PrintNumber(n)|), v)
            == Success(p + |PrintNumber(n)|,
                       Value(NumberMeaning(n, g.scan).value, p, p + |PrintNumber(n)|))
    ensures !NumberMeaning(n, g.scan).value.Array? && !NumberMeaning(n, g.scan).value.Object?
  {
    assert TokenText(doc, Token(NumberToken, p, p + |PrintNumber(n)|)) == PrintNumber(n);
    NumberDecodes(n, g);
  }

  lemma TextRead(doc: Bytes, g: Settings, v: Value, cs: seq<StringChar>, p: nat)
    requires WellFormedChars(cs) && At(doc, p, PrintText(cs)) && |PrintText(cs)| >= 2
    ensures ReadScalar(doc, g, Token(StringToken, p, p + |PrintText(cs)|), v)
            == Success(p + |PrintText(cs)|, Value(String(CharsMeaning(cs)), p, p + |PrintText(cs)|))
  {
    TextDecodes(doc, Token(StringToken, p, p + |PrintText(cs)|), cs);
  }

  // A single token at `p` reads as the value its syntax denotes.
  predicate TokenDenotes(doc: Bytes, g: Settings, v: Value, c: Syntax, p: nat)
    requires IsScalar(c) && WellFormed(c, g) && p + |Print(c)| <= |doc| && (c.Text? ==> |Print(c)| >= 2)
  {
    var r := ReadScalar(doc, g, Token(ScalarType(c), p, p + |Print(c)|), v);
    r.Success? && r.cur == p + |Print(c)| && Erase(r.v) == Denote(c, g)
  }

  lemma NumberReads(doc: Bytes, g: Settings, v: Value, c: Syntax, p: nat)
    requires c.Number? && WellFormed(c, g) && At(doc, p, Print(c))
    ensures TokenDenotes(doc, g, v, c, p)
  {
    hide ReadScalar, PrintNumber, WellFormedNumber, NumberMeaning;
    NumberRead(doc, g, v, c.n, p);
    EraseLeaf(Value(NumberMeaning(c.n, g.scan).value, p, p + |Print(c)|));
  }

  lemma EraseLeaf(v: Value)
    requires !IsContainer(v)
    ensures Erase(v) == Value(v.payload, 0, 0)
  {
    assert ErasePayload(v.payload) == v.payload;
  }

  lemma TextReads(doc: Bytes, g: Settings, v: Value, c: Syntax, p: nat)
    requires c.Text? && WellFormed(c, g) && At(doc, p, Print(c)) && |Print(c)| >= 2
    ensures TokenDenotes(doc, g, v, c, p)
  {
    hide ReadScalar, PrintText, WellFormedChars, CharsMeaning;
    TextRead(doc, g, v, c.cs, p);
    EraseLeaf(Value(String(CharsMeaning(c.cs)), p, p + |Print(c)|));
  }

  lemma WordReads(doc: Bytes, g: Settings, v: Value, c: Syntax, p: nat)
    requires c.NullText? || c.TrueText? || c.FalseText?
    requires At(doc, p, Print(c))
    ensures TokenDenotes(doc, g, v, c, p)
  {
    hide DecodeNumber, DecodeFrom, Erase;
    var e := p + |Print(c)|;
    EraseLeaf(Value(Null, p, e));
    EraseLeaf(Value(Boolean(true), p, e));
    EraseLeaf(Value(Boolean(false), p, e));
  }

  /** The value of a single token. */
  lemma ScalarMeaning(doc: Bytes, g: Settings, v: Value, c: Syntax, p: nat)
    requires IsScalar(c) && WellFormed(c, g) && At(doc, p, Print(c))
    requires c.Text? ==> |Print(c)| >= 2
    ensures TokenDenotes(doc, g, v, c, p)
  {
    hide TokenDenotes, WellFormed, Print;
    if c.Number? {
      NumberReads(doc, g, v, c, p);
    } else if c.Text? {
      TextReads(doc, g, v, c, p);
    } else {
      WordReads(doc, g, v, c, p);
    }
  }

  /** Reading a value that is a single token. */
  lemma ReadsScalar(doc: Bytes, g: Settings, depth: nat, i: nat, v: Value, c: Syntax, p: nat)
    requires IsScalar(c) && WellFormed(c, g) && At(doc, p, Print(c)) && Delimited(doc, p + |Print(c)|)
    requires i <= |doc| && p <= |doc| && NextToken(doc, g.f, i) == NextToken(doc, g.f, p)
    requires depth <= g.f.stackLimit
    ensures var r := ReadValue(doc, g, depth, i, v);
            r.Success? && r.cur == p + |Print(c)| && Erase(r.v) == Denote(c, g)
  {
    hide Print, WellFormed, NextToken, Erase, Denote, Classify, ReadToken, SkipComments, ReadScalar, At, Delimited;
    hide ReadMembers, ReadArray;
    ScalarClass(doc, g, p, c);
    ScalarFirst(doc, g, p, c);
    TokenFrom(doc, g.f, p, p, ScalarType(c), p + |Print(c)|);
    ScalarMeaning(doc, g, v, c, p);
  }

  lemma ScalarFirst(doc: Bytes, g: Settings, p: nat, c: Syntax)
    requires IsScalar(c) && WellFormed(c, g) && At(doc, p, Print(c))
    ensures p < |doc| && SkipSpaces(doc, p) == p
  {
    hide Print, WellFormed, At;
    FirstByte(c, g);
    AtByte(doc, p, Print(c), 0);
    AtBounds(doc, p, Print(c));
  }

  lemma AtBounds(doc: Bytes, i: nat, s: Bytes)
    requires At(doc, i, s)
    ensures i + |s| <= |doc|
  {
  }

  // Where the parts of an item are

  /** Where the reader stands once it has read a value: behind its text, or at the byte that ends a dropped one. */
  function ValueEnd(c: Syntax, p: nat, q: nat): nat {
    if c.Dropped? then q else p + |Print(c)|
  }

  /**
    The layout the reader relies on: from `i` the next token is that of the value at `p` (or, when it
    is dropped, of the byte at `q` that ends it), and behind the value only a gap comes before `q`.
   */
  predicate ItemLayout(doc: Bytes, f: Features, i: nat, c: Syntax, p: nat, q: nat) {
    && i <= |doc| && p <= |doc| && q <= |doc|
    && At(doc, p, Print(c))
    && NextToken(doc, f, i) == NextToken(doc, f, if c.Dropped? then q else p)
    && Follows(doc, f, ValueEnd(c, p, q), q)
    && (c.Dropped? ==> q < |doc| && Terminated(doc, q))
  }

  lemma FirstByte(c: Syntax, g: Settings)
    requires WellFormed(c, g) && !c.Dropped?
    ensures Print(c) != []
    ensures var b := Print(c)[0]; !IsBlank(b) && b != RBRACKET && b != COMMA
  {
    if c.Number? {
      assert c.n.whole != [] ==> PrintUnsigned(c.n)[0] == c.n.whole[0];
    }
  }

  lemma ItemParts(doc: Bytes, i: nat, item: Item)
    requires At(doc, i, PrintItem(item))
    ensures var p := i + |item.before|;
            && At(doc, i, item.before) && At(doc, p, Print(item.v)) && At(doc, p + |Print(item.v)|, item.after)
            && i + |PrintItem(item)| == p + |Print(item.v)| + |item.after|
  {
    AtAppend(doc, i, item.before, Print(item.v) + item.after);
    AtAppend(doc, i + |item.before|, Print(item.v), item.after);
  }

  lemma DroppedIsEmpty(c: Syntax)
    requires c.Dropped?
    ensures Print(c) == []
  {
  }

  lemma LayOutItem(doc: Bytes, f: Features, g: Settings, i: nat, item: Item, q: nat)
    requires ItemGaps(item, Early(f), Skipped(f)) && WellFormed(item.v, g)
    requires At(doc, i, PrintItem(item)) && q == i + |PrintItem(item)|
    requires item.v.Dropped? || AllBlank(item.after) ==> Terminated(doc, q)
    requires item.v.Dropped? ==> q < |doc|
    ensures ItemLayout(doc, f, i, item.v, i + |item.before|, q)
  {
    hide PrintItem, WellFormed, NextToken, ReadToken, SkipComments, Follows, IsGap, Print;
    var p := i + |item.before|;
    ItemParts(doc, i, item);
    AtBounds(doc, i, item.before);
    AtBounds(doc, p, Print(item.v));
    AtBounds(doc, p + |Print(item.v)|, item.after);
    NextBehindGap(doc, f, i, item.before);
    if item.v.Dropped? {
      DroppedIsEmpty(item.v);
      NextBehindGap(doc, f, p, item.after);
      assert At(doc, q, []);
      BlankIsGap([], Skipped(f));
      GapFollows(doc, f, q, []);
    } else {
      GapFollows(doc, f, p + |Print(item.v)|, item.after);
    }
  }

  /** The first byte in front of a value that is not blank: its own, or that of a comment. */
  lemma {:induction false} GapByte(doc: Bytes, i: nat, gap: Bytes, comments: Comments)
    requires At(doc, i, gap) && IsGap(gap, comments)
    ensures var j := SkipSpaces(doc, i);
            (j < |doc| && (doc[j] == SLASH || doc[j] == APOSTROPHE)) || (AllBlank(gap) && j == SkipSpaces(doc, i + |gap|))
    decreases |gap|
  {
    if gap != [] {
      AtByte(doc, i, gap, 0);
      if IsBlank(gap[0]) && IsGap(gap[1..], comments) {
        assert gap == [gap[0]] + gap[1..];
        AtAppend(doc, i, [gap[0]], gap[1..]);
        GapByte(doc, i + 1, gap[1..], comments);
        assert AllBlank(gap[1..]) ==> AllBlank(gap);
      }
    }
  }

  /** Where the parts of a member are. */
  lemma MemberParts(doc: Bytes, i: nat, m: Member)
    requires At(doc, i, PrintMember(m))
    ensures var p := i + |m.before|; var e := p + |PrintText(m.key)|; var c := e + |m.beforeColon|;
            && At(doc, i, m.before) && At(doc, p, PrintText(m.key)) && At(doc, e, m.beforeColon)
            && c < |doc| && doc[c] == COLON && At(doc, c + 1, PrintItem(m.value))
            && i + |PrintMember(m)| == c + 1 + |PrintItem(m.value)|
  {
    hide At, PrintText, PrintItem;
    var p := i + |m.before|;
    var e := p + |PrintText(m.key)|;
    var c := e + |m.beforeColon|;
    var item := [COLON] + PrintItem(m.value);
    AtAppend(doc, i, m.before, PrintText(m.key) + (m.beforeColon + item));
    AtAppend(doc, p, PrintText(m.key), m.beforeColon + item);
    ColonParts(doc, e, m);
  }

  lemma ColonParts(doc: Bytes, e: nat, m: Member)
    requires At(doc, e, m.beforeColon + ([COLON] + PrintItem(m.value)))
    ensures var c := e + |m.beforeColon|;
            && At(doc, e, m.beforeColon)
            && c < |doc| && doc[c] == COLON && At(doc, c + 1, PrintItem(m.value))
  {
    var c := e + |m.beforeColon|;
    AtAppend(doc, e, m.beforeColon, [COLON] + PrintItem(m.value));
    AtAppend(doc, c, [COLON], PrintItem(m.value));
    AtByte(doc, c, [COLON], 0);
  }

  /** A member's key is the next token, and names the member. */
  lemma KeyToken(doc: Bytes, g: Settings, i: nat, before: Bytes, key: seq<StringChar>)
    requires At(doc, i, before) && IsGap(before, Skipped(g.f)) && WellFormedChars(key) && At(doc, i + |before|, PrintText(key))
    ensures var t := Token(StringToken, i + |before|, i + |before| + |PrintText(key)|);
            && t.start + 2 <= t.end <= |doc|
            && SkipComments(doc, g.f, i) == t
            && MemberName(doc, g, t) == Named(CharsMeaning(key))
  {
    hide PrintText, PrintChars, Classify, SkipSpaces, ReadToken, SkipComments, DecodeFrom, CharsMeaning, ScanString;
    hide WellFormedChars;
    var p := i + |before|;
    TextDecodes(doc, Token(StringToken, p, p + |PrintText(key)|), key);
    assert SkipSpaces(doc, p) == p && Classify(doc, g.f, p) == (StringToken, (true, p + |PrintText(key)|)) by {
      TextClass(doc, g.f, p, key);
      SpacesStop(doc, p);
    }
    TokenFrom(doc, g.f, p, p, StringToken, p + |PrintText(key)|);
    SkipsGap(doc, g.f, i, before);
  }

  lemma SpacesStop(doc: Bytes, p: nat)
    requires p < |doc| && !IsBlank(doc[p])
    ensures SkipSpaces(doc, p) == p
  {
  }

  // The induction over syntax

  /** Reading ends well, at `e`, with the tree `w`; or the stack limit is hit. */
  predicate ReadsAs(r: Read, enough: bool, e: nat, w: Value) {
    if enough then r.Success? && r.cur == e && Erase(r.v) == w else r.Threw?
  }

  lemma ReadsDropped(doc: Bytes, g: Settings, depth: nat, i: nat, v: Value, q: nat)
    requires g.f.allowDroppedNullPlaceholders && depth <= g.f.stackLimit
    requires i <= |doc| && q < |doc| && Terminated(doc, q) && NextToken(doc, g.f, i) == NextToken(doc, g.f, q)
    ensures ReadsAs(ReadValue(doc, g, depth, i, v), true, q, NULL_VALUE)
  {
    hide NextToken, SkipComments, ReadToken;
    SpacesStop(doc, q);
    Punctuation(doc, g.f, q, q);
    EraseLeaf(Value(Null, q - 1, q));
  }

  lemma ReadsToken(doc: Bytes, g: Settings, depth: nat, i: nat, v: Value, c: Syntax, p: nat, q: nat)
    requires WellFormed(c, g) && IsScalar(c) && ItemLayout(doc, g.f, i, c, p, q) && depth <= g.f.stackLimit
    ensures ReadsAs(ReadValue(doc, g, depth, i, v), true, ValueEnd(c, p, q), Denote(c, g))
  {
    hide ReadValue, WellFormed, Denote, Print, At, NextToken, SkipComments, ReadToken, Erase, Delimited, Terminated, Depth;
    ReadsScalar(doc, g, depth, i, v, c, p);
  }

  lemma {:induction false} ReadsValue(doc: Bytes, g: Settings, depth: nat, i: nat, v: Value, c: Syntax, p: nat, q: nat)
    requires WellFormed(c, g) && ItemLayout(doc, g.f, i, c, p, q)
    ensures ReadsAs(ReadValue(doc, g, depth, i, v), depth + Depth(c) - 1 <= g.f.stackLimit, ValueEnd(c, p, q), Denote(c, g))
    decreases c, 1
  {
    hide ReadValue, ReadArray, ReadMembers, At, NextToken, Follows, Terminated, WellFormedItems, WellFormedMembers;
    hide Print, ReadToken, SkipComments, SkipSpaces, DenoteItems, DenoteMembers, Delimited;
    hide ReadsAs, ReadsElems, ReadsMembersTo;
    if depth > g.f.stackLimit {
      StackExceeded(doc, g, depth, i, v);
      ThrowsAs(doc, g, depth, i, v, c, ValueEnd(c, p, q));
    } else {
      match c
      case Dropped => ReadsDropped(doc, g, depth, i, v, q);
      case Unparsed(_) =>
      case ArrayText(items, blank) =>
        OpenBracket(doc, g, depth, i, v, c, p);
        ReadsArray(doc, g, depth, p, Value(v.payload, p, v.limit), items, blank);
        var r := ReadArray(doc, g, depth, p + 1, Value(v.payload, p, v.limit));
        ElemsToValue(r, depth + ItemsDepth(items) <= g.f.stackLimit, p + |Print(c)|, Value(v.payload, p, v.limit),
                     DenoteItems(map[], 0, items, g));
      case ObjectText(members, end) =>
        OpenBracket(doc, g, depth, i, v, c, p);
        ReadsObject(doc, g, depth, p, Value(v.payload, p, v.limit), members, end);
        var r := ReadMembers(doc, g, depth, p + 1, [], map[], Value(v.payload, p, v.limit));
        MembersToValue(r, depth + MembersDepth(members) <= g.f.stackLimit, p + |Print(c)|, Value(v.payload, p, v.limit),
                       DenoteMembers(map[], members, g));
      case _ => ReadsToken(doc, g, depth, i, v, c, p, q);
    }
  }

  lemma StackExceeded(doc: Bytes, g: Settings, depth: nat, i: nat, v: Value)
    requires depth > g.f.stackLimit && i <= |doc|
    ensures ReadValue(doc, g, depth, i, v) == Threw
  {
  }

  lemma ThrowsAs(doc: Bytes, g: Settings, depth: nat, i: nat, v: Value, c: Syntax, e: nat)
    requires depth > g.f.stackLimit && i <= |doc| && WellFormed(c, g) && ReadValue(doc, g, depth, i, v) == Threw
    ensures ReadsAs(ReadValue(doc, g, depth, i, v), depth + Depth(c) - 1 <= g.f.stackLimit, e, Denote(c, g))
  {
    hide ReadValue;
  }

  lemma ElemsToValue(r: Read, enough: bool, e: nat, v: Value, elems: map<nat, Value>)
    requires ReadsElems(r, enough, e, v, elems)
    ensures ReadsAs(SetLimit(r), enough, e, Value(Array(elems), 0, 0))
  {
    if enough {
      EraseArray(SetLimit(r).v);
    }
  }

  lemma MembersToValue(r: Read, enough: bool, e: nat, v: Value, members: map<Bytes, Value>)
    requires ReadsMembersTo(r, enough, e, v, members)
    ensures ReadsAs(SetLimit(r), enough, e, Value(Object(members), 0, 0))
  {
    if enough {
      EraseObject(SetLimit(r).v);
    }
  }

  /** The first token of an array or object text sends the reader into the matching loop. */
  lemma OpenBracket(doc: Bytes, g: Settings, depth: nat, i: nat, v: Value, c: Syntax, p: nat)
    requires depth <= g.f.stackLimit && i <= |doc| && p <= |doc| && NextToken(doc, g.f, i) == NextToken(doc, g.f, p)
    requires (c.ArrayText? || c.ObjectText?) && At(doc, p, Print(c))
    ensures p < |doc|
    ensures ReadValue(doc, g, depth, i, v)
            == SetLimit(if c.ArrayText? then ReadArray(doc, g, depth, p + 1, Value(v.payload, p, v.limit))
                        else ReadMembers(doc, g, depth, p + 1, [], map[], Value(v.payload, p, v.limit)))
  {
    hide SkipSpaces, ReadArray, ReadMembers, ReadScalar, PrintItem, PrintMember, PrintItemTail, PrintMemberTail, SetLimit;
    AtByte(doc, p, Print(c), 0);
    SpacesStop(doc, p);
    TokenFrom(doc, g.f, p, p, if c.ArrayText? then ArrayBegin else ObjectBegin, p + 1);
  }

  /** An array read to its closing bracket at `e - 1`, or the stack limit. */
  predicate ReadsElems(r: Read, enough: bool, e: nat, v: Value, elems: map<nat, Value>) {
    if enough then
      r.Success? && r.cur == e && r.v.payload.Array? && r.v == WithElems(v, r.v.payload.elems)
      && EraseElems(r.v.payload.elems) == elems
    else r.Threw?
  }

  lemma {:induction false} ReadsArray(doc: Bytes, g: Settings, depth: nat, p: nat, v: Value, items: seq<Item>, blank: Bytes)
    requires WellFormed(ArrayText(items, blank), g) && At(doc, p, Print(ArrayText(items, blank)))
    requires depth <= g.f.stackLimit
    ensures p < |doc|
    ensures ReadsElems(ReadArray(doc, g, depth, p + 1, v), depth + ItemsDepth(items) <= g.f.stackLimit,
                       p + |Print(ArrayText(items, blank))|, v, DenoteItems(map[], 0, items, g))
    decreases items, 1
  {
    hide ReadElements, At, Print, PrintItem, PrintItemTail, NextToken, SkipSpaces, DenoteItems, EraseElems;
    hide ReadsElems, IsGap;
    if items == [] {
      EmptyArray(doc, g, depth, p, v, blank);
    } else {
      ArrayParts(doc, g, p, items, blank);
      BlanksSkipped(doc, g.f, p + 1);
      ReadsElements(doc, g, depth, SkipSpaces(doc, p + 1), 0, map[], v, items, p + 1);
      EraseNoElems();
      AtBounds(doc, p, Print(ArrayText(items, blank)));
    }
  }

  lemma EraseNoElems()
    ensures EraseElems(map[]) == map[]
  {
  }

  lemma EmptyArray(doc: Bytes, g: Settings, depth: nat, p: nat, v: Value, blank: Bytes)
    requires At(doc, p, Print(ArrayText([], blank))) && AllBlank(blank)
    ensures p < |doc|
    ensures ReadsElems(ReadArray(doc, g, depth, p + 1, v), true, p + |Print(ArrayText([], blank))|, v,
                       DenoteItems(map[], 0, [], g))
  {
    hide ReadElements, At, AllBlank, SkipSpaces;
    EmptyBrackets(doc, p, blank);
    EraseNoElems();
  }

  lemma BlanksSkipped(doc: Bytes, f: Features, i: nat)
    requires i <= |doc|
    ensures NextToken(doc, f, SkipSpaces(doc, i)) == NextToken(doc, f, i)
  {
    hide Classify;
    assert SkipSpaces(doc, SkipSpaces(doc, i)) == SkipSpaces(doc, i);
    assert ReadToken(doc, f, SkipSpaces(doc, i)) == ReadToken(doc, f, i);
  }

  /** An empty array text: nothing but blanks up to the closing bracket. */
  lemma EmptyBrackets(doc: Bytes, p: nat, blank: Bytes)
    requires At(doc, p, [LBRACKET] + (blank + [RBRACKET])) && AllBlank(blank)
    ensures var q := p + 1 + |blank|;
            && q < |doc| && doc[q] == RBRACKET && SkipSpaces(doc, p + 1) == q
            && p + |[LBRACKET] + (blank + [RBRACKET])| == q + 1
  {
    AtAppend(doc, p, [LBRACKET], blank + [RBRACKET]);
    AtAppend(doc, p + 1, blank, [RBRACKET]);
    AtByte(doc, p + 1 + |blank|, [RBRACKET], 0);
    SkipBlank(doc, p + 1, blank);
  }

  lemma ArrayParts(doc: Bytes, g: Settings, p: nat, items: seq<Item>, blank: Bytes)
    requires WellFormed(ArrayText(items, blank), g) && At(doc, p, Print(ArrayText(items, blank))) && items != []
    ensures var q := p + 1 + |PrintItem(items[0])|;
            && At(doc, p + 1, PrintItem(items[0])) && At(doc, q, PrintItemTail(items[1..]))
            && p + |Print(ArrayText(items, blank))| == q + |PrintItemTail(items[1..])|
    ensures p + 1 <= |doc|
    ensures var j := SkipSpaces(doc, p + 1); j < |doc| ==> doc[j] != RBRACKET
  {
    hide IsGap, SkipSpaces, ItemGaps, PrintItem;
    var item, tail := PrintItem(items[0]), PrintItemTail(items[1..]);
    AtAppend(doc, p, [LBRACKET], item + tail);
    AtAppend(doc, p + 1, item, tail);
    TailTerminates(doc, p + 1 + |item|, items[1..]);
    NotEmptyBrackets(doc, g, p + 1, items[0], p + 1 + |item|);
  }

  /** The first byte behind a bracket that is not blank does not close it when an item follows. */
  lemma NotEmptyBrackets(doc: Bytes, g: Settings, i: nat, item: Item, q: nat)
    requires ItemGaps(item, Early(g.f), Skipped(g.f)) && WellFormed(item.v, g)
    requires At(doc, i, PrintItem(item)) && q == i + |PrintItem(item)| && q < |doc|
    requires IsEmptyItem(item) ==> doc[q] == COMMA
    ensures var j := SkipSpaces(doc, i); j < |doc| ==> doc[j] != RBRACKET
  {
    hide PrintItem, WellFormed, IsGap, Print, At, AllBlank;
    var p := i + |item.before|;
    ItemParts(doc, i, item);
    GapByte(doc, i, item.before, Early(g.f));
    if item.v.Dropped? && AllBlank(item.before) {
      DroppedIsEmpty(item.v);
      DroppedBeforeComma(doc, p, item.after, Early(g.f));
    } else if !item.v.Dropped? {
      FirstByte(item.v, g);
      AtByte(doc, p, Print(item.v), 0);
      AtBounds(doc, p, Print(item.v));
      SpacesStop(doc, p);
    }
  }

  lemma DroppedBeforeComma(doc: Bytes, p: nat, gap: Bytes, comments: Comments)
    requires At(doc, p, gap) && IsGap(gap, comments) && p + |gap| < |doc|
    requires AllBlank(gap) ==> doc[p + |gap|] == COMMA
    ensures var j := SkipSpaces(doc, p); j < |doc| ==> doc[j] != RBRACKET
  {
    hide At, IsGap, AllBlank;
    GapByte(doc, p, gap, comments);
    if AllBlank(gap) {
      SpacesStop(doc, p + |gap|);
    }
  }

  lemma TailTerminates(doc: Bytes, q: nat, items: seq<Item>)
    requires At(doc, q, PrintItemTail(items))
    ensures q < |doc| && Terminated(doc, q) && doc[q] == if items == [] then RBRACKET else COMMA
    ensures items != [] ==>
              && At(doc, q + 1, PrintItem(items[0]))
              && At(doc, q + 1 + |PrintItem(items[0])|, PrintItemTail(items[1..]))
              && |PrintItemTail(items)| == 1 + |PrintItem(items[0])| + |PrintItemTail(items[1..])|
  {
    hide PrintItem;
    AtByte(doc, q, PrintItemTail(items), 0);
    if items != [] {
      AtAppend(doc, q, [COMMA], PrintItem(items[0]) + PrintItemTail(items[1..]));
      AtAppend(doc, q + 1, PrintItem(items[0]), PrintItemTail(items[1..]));
    }
  }

  lemma {:induction false} ReadsElements(
      doc: Bytes, g: Settings, depth: nat, i: nat, index: nat, m: map<nat, Value>, v: Value, items: seq<Item>, pos: nat)
    requires WellFormedItems(items, g) && items != []
    requires At(doc, pos, PrintItem(items[0])) && At(doc, pos + |PrintItem(items[0])|, PrintItemTail(items[1..]))
    requires i <= |doc| && pos <= |doc| && NextToken(doc, g.f, i) == NextToken(doc, g.f, pos)
    ensures ReadsElems(ReadElements(doc, g, depth, i, index, m, v), depth + ItemsDepth(items) <= g.f.stackLimit,
                       pos + |PrintItem(items[0])| + |PrintItemTail(items[1..])|, v,
                       DenoteItems(EraseElems(m), index, items, g))
    decreases items, 0
  {
    hide ReadToken, SkipComments, NextToken, Print, PrintItem, ReadElements, ReadValue, At, ItemGaps, WellFormed;
    hide Denote, ItemLayout;
    hide EraseElems, ValueEnd, Follows, SkipSpaces;
    var c := items[0].v;
    var q := pos + |PrintItem(items[0])|;
    var p := pos + |items[0].before|;
    TailTerminates(doc, q, items[1..]);
    LayOutItem(doc, g.f, g, pos, items[0], q);
    LayoutFrom(doc, g.f, i, pos, c, p, q);
    ReadsValue(doc, g, depth + 1, i, ElementAt(m, index), c, p, q);
    var r := ReadValue(doc, g, depth + 1, i, ElementAt(m, index));
    LayoutFollows(doc, g.f, i, c, p, q);
    ElementsStep(doc, g, depth, i, index, m, v, r, q);
    if r.Success? {
      EraseElemsUpdate(m, index, r.v);
      if items[1..] != [] {
        ReadsElements(doc, g, depth, q + 1, index + 1, m[index := r.v], v, items[1..], q + 1);
      }
    }
  }

  lemma LayoutFrom(doc: Bytes, f: Features, i: nat, j: nat, c: Syntax, p: nat, q: nat)
    requires i <= |doc| && ItemLayout(doc, f, j, c, p, q) && NextToken(doc, f, i) == NextToken(doc, f, j)
    ensures ItemLayout(doc, f, i, c, p, q)
  {
  }

  lemma LayoutFollows(doc: Bytes, f: Features, i: nat, c: Syntax, p: nat, q: nat)
    requires ItemLayout(doc, f, i, c, p, q)
    ensures Follows(doc, f, ValueEnd(c, p, q), q)
  {
  }

  /** One turn of the array loop on a value that was read. */
  lemma ElementsStep(
      doc: Bytes, g: Settings, depth: nat, i: nat, index: nat, m: map<nat, Value>, v: Value, r: Read, q: nat)
    requires i <= |doc| && r == ReadValue(doc, g, depth + 1, i, ElementAt(m, index)) && !r.Failure?
    requires r.Success? ==> Follows(doc, g.f, r.cur, q) && q < |doc| && (doc[q] == COMMA || doc[q] == RBRACKET)
    ensures ReadElements(doc, g, depth, i, index, m, v)
            == if r.Threw? then Threw
               else if doc[q] == RBRACKET then Success(q + 1, WithElems(v, m[index := r.v]))
               else ReadElements(doc, g, depth, q + 1, index + 1, m[index := r.v], v)
  {
    hide ReadToken, ReadValue, SkipComments, Follows;
    if r.Success? {
      TerminatorFollows(doc, g.f, r.cur, q);
    }
  }

  /** An object read to its closing brace at `e - 1`, or the stack limit. */
  predicate ReadsMembersTo(r: Read, enough: bool, e: nat, v: Value, members: map<Bytes, Value>) {
    if enough then
      r.Success? && r.cur == e && r.v.payload.Object? && r.v == WithMembers(v, r.v.payload.members)
      && EraseMembers(r.v.payload.members) == members
    else r.Threw?
  }

  /** Where the parts of the end of an object are. */
  lemma EndParts(doc: Bytes, q: nat, end: Closing)
    requires At(doc, q, PrintMemberTail([], end))
    ensures var p := q + |end.lead|; var e := p + |end.gap|;
            && At(doc, q, end.lead) && At(doc, p, end.gap) && e < |doc| && doc[e] == RBRACE
            && q + |PrintMemberTail([], end)| == e + 1
  {
    hide At;
    AtAppend(doc, q, end.lead, end.gap + [RBRACE]);
    AtAppend(doc, q + |end.lead|, end.gap, [RBRACE]);
    AtByte(doc, q + |end.lead| + |end.gap|, [RBRACE], 0);
    AtBounds(doc, q + |end.lead| + |end.gap|, [RBRACE]);
  }

  /** Where the parts of the rest of an object are. */
  lemma TailParts(doc: Bytes, q: nat, members: seq<Member>, end: Closing)
    requires members != [] && At(doc, q, PrintMemberTail(members, end))
    ensures var p := q + |members[0].lead|; var n := p + |PrintMember(members[0])|;
            && At(doc, q, members[0].lead) && At(doc, p, PrintMember(members[0]))
            && At(doc, n, PrintMemberTail(members[1..], end))
            && q + |PrintMemberTail(members, end)| == n + |PrintMemberTail(members[1..], end)|
  {
    hide PrintMember, At;
    var tail := PrintMemberTail(members[1..], end);
    AtAppend(doc, q, members[0].lead, PrintMember(members[0]) + tail);
    AtAppend(doc, q + |members[0].lead|, PrintMember(members[0]), tail);
  }

  // The token behind a member: where it is, and where the loop goes on.
  predicate SeparatorAt(doc: Bytes, f: Features, cur: nat, q: nat, next: nat)
    requires cur <= |doc|
  {
    var first, t := ReadToken(doc, f, cur), SkipComments(doc, f, cur);
    && (first.typ == ArraySeparator || first.typ == ObjectEnd || first.typ == CommentToken)
    && t.start == q && t.end == next && t.typ != ObjectEnd
  }

  /** The loop finds a separator behind the value it belongs to. */
  lemma SeparatorFollows(doc: Bytes, f: Features, value: Item, cur: nat, q: nat, lead: Bytes)
    requires Follows(doc, f, cur, q) && At(doc, q, lead) && Separates(lead, value, f) && Delimited(doc, q + |lead|)
    requires !value.v.Dropped? && !AllBlank(value.after) ==> ReadToken(doc, f, cur).typ == CommentToken
    ensures SeparatorAt(doc, f, cur, q, q + |lead|)
  {
    hide ReadToken, SkipComments, AllBlank, Delimited;
    if lead == [COMMA] {
      AtByte(doc, q, lead, 0);
      AtBounds(doc, q, lead);
      TerminatorFollows(doc, f, cur, q);
    } else {
      AnyTokenAt(doc, f, q, lead);
    }
  }

  /** What stands behind a separator does not make it longer. */
  lemma BehindSeparator(doc: Bytes, f: Features, p: nat, gap: Bytes)
    requires At(doc, p, gap) && IsGap(gap, Skipped(f))
    requires p + |gap| < |doc| && (doc[p + |gap|] == QUOTE || doc[p + |gap|] == RBRACE)
    ensures Delimited(doc, p)
  {
    if gap != [] {
      AtByte(doc, p, gap, 0);
    }
  }

  lemma SeparatorBeforeMember(doc: Bytes, f: Features, p: nat, m: Member)
    requires At(doc, p, PrintMember(m)) && IsGap(m.before, Skipped(f))
    ensures Delimited(doc, p)
  {
    hide PrintItem, PrintChars, IsGap, Delimited;
    MemberParts(doc, p, m);
    TextAt(doc, p + |m.before|, m.key);
    AtBounds(doc, p + |m.before|, PrintText(m.key));
    BehindSeparator(doc, f, p, m.before);
  }

  /** The keys still to come are new, as far as the duplicate check is concerned. */
  predicate FreshKeys(g: Settings, m: map<Bytes, Value>, members: seq<Member>) {
    g.f.rejectDupKeys ==> DistinctKeys(members) && forall k :: k in m ==> !HasKey(members, k)
  }

  lemma {:induction false} ReadsObject(
      doc: Bytes, g: Settings, depth: nat, p: nat, v: Value, members: seq<Member>, end: Closing)
    requires WellFormed(ObjectText(members, end), g) && At(doc, p, Print(ObjectText(members, end)))
    requires depth <= g.f.stackLimit
    ensures p < |doc|
    ensures ReadsMembersTo(ReadMembers(doc, g, depth, p + 1, [], map[], v), depth + MembersDepth(members) <= g.f.stackLimit,
                           p + |Print(ObjectText(members, end))|, v, DenoteMembers(map[], members, g))
    decreases members, 1
  {
    hide ReadToken, ReadValue, ReadMembers, SkipComments, IsGap, At, PrintMemberTail, PrintMember, Separates;
    ObjectParts(doc, p, members, end);
    if members == [] {
      EmptyObject(doc, g, depth, p, v, end);
    } else {
      ReadsMembers(doc, g, depth, p + 1, [], map[], v, members, end);
    }
    assert EraseMembers(map[]) == map[];
  }

  /** A closing brace in place of a member: the loop ends where the last key was empty. */
  lemma BraceEnds(doc: Bytes, g: Settings, depth: nat, p: nat, gap: Bytes, m: map<Bytes, Value>, v: Value)
    requires At(doc, p, gap) && IsGap(gap, Skipped(g.f)) && p + |gap| < |doc| && doc[p + |gap|] == RBRACE
    ensures ReadMembers(doc, g, depth, p, [], m, v) == Success(p + |gap| + 1, WithMembers(v, m))
  {
    hide ReadToken, ReadMember, SkipComments, IsGap, AllBlank, SkipSpaces;
    var q := p + |gap|;
    SkipsGap(doc, g.f, p, gap);
    SpacesStop(doc, q);
    Punctuation(doc, g.f, q, q);
  }

  lemma EmptyObject(doc: Bytes, g: Settings, depth: nat, p: nat, v: Value, end: Closing)
    requires At(doc, p + 1, PrintMemberTail([], end)) && IsGap(end.gap, Skipped(g.f)) && end.lead == []
    ensures p + 1 <= |doc|
    ensures ReadMembers(doc, g, depth, p + 1, [], map[], v)
            == Success(p + 1 + |PrintMemberTail([], end)|, WithMembers(v, map[]))
  {
    hide ReadMembers, IsGap, PrintMemberTail;
    EndParts(doc, p + 1, end);
    BraceEnds(doc, g, depth, p + 1, end.gap, map[], v);
  }

  lemma ObjectParts(doc: Bytes, p: nat, members: seq<Member>, end: Closing)
    requires At(doc, p, Print(ObjectText(members, end)))
    ensures p < |doc|
    ensures if members == [] then
              At(doc, p + 1, PrintMemberTail([], end))
              && p + |Print(ObjectText(members, end))| == p + 1 + |PrintMemberTail([], end)|
            else
              var q := p + 1 + |PrintMember(members[0])|;
              && At(doc, p + 1, PrintMember(members[0])) && At(doc, q, PrintMemberTail(members[1..], end))
              && p + |Print(ObjectText(members, end))| == q + |PrintMemberTail(members[1..], end)|
  {
    hide PrintMember, PrintMemberTail;
    if members == [] {
      AtAppend(doc, p, [LBRACE], PrintMemberTail([], end));
    } else {
      AtAppend(doc, p, [LBRACE], PrintMember(members[0]) + PrintMemberTail(members[1..], end));
      AtAppend(doc, p + 1, PrintMember(members[0]), PrintMemberTail(members[1..], end));
    }
  }

  lemma FreshKeysStep(g: Settings, m: map<Bytes, Value>, members: seq<Member>, w: Value)
    requires FreshKeys(g, m, members) && members != []
    ensures FreshKeys(g, m[KeyOf(members[0]) := w], members[1..])
    ensures !(g.f.rejectDupKeys && KeyOf(members[0]) in m)
  {
  }

  // The rest of an object text, behind the value of its first member.
  predicate RestAt(doc: Bytes, g: Settings, q: nat, members: seq<Member>, end: Closing) {
    && members != [] && WellFormedMembers(members, g) && Closes(members, end, g.f) && IsGap(end.gap, Skipped(g.f))
    && At(doc, q, PrintMemberTail(members[1..], end))
  }

  // The token behind the first member, and what is behind that.
  function NextLead(members: seq<Member>, end: Closing): Bytes
    requires members != []
  {
    if members[1..] == [] then end.lead else members[1].lead
  }

  /** The object ends behind its first member, or a separator stands there. */
  lemma RestBegins(doc: Bytes, g: Settings, q: nat, members: seq<Member>, end: Closing)
    requires RestAt(doc, g, q, members, end)
    ensures var lead := NextLead(members, end); var value := members[0].value;
            && q < |doc|
            && (value.v.Dropped? || AllBlank(value.after) ==> Terminated(doc, q))
            && (if members[1..] == [] && end == CLOSED then
                  doc[q] == RBRACE && q + |PrintMemberTail(members[1..], end)| == q + 1
                else At(doc, q, lead) && Separates(lead, value, g.f) && Delimited(doc, q + |lead|))
  {
    hide PrintMember, WellFormed, ItemGaps, WellFormedKey, IsAnyToken, Delimited, AllBlank, KeyOf, IsGap, At;
    var rest := members[1..];
    var lead := NextLead(members, end);
    if rest == [] {
      EndParts(doc, q, end);
      if end != CLOSED {
        BehindSeparator(doc, g.f, q + |lead|, end.gap);
      }
    } else {
      TailParts(doc, q, rest, end);
      FirstHasGaps(rest, g);
      SeparatorBeforeMember(doc, g.f, q + |lead|, rest[0]);
    }
    if !(rest == [] && end == CLOSED) {
      LeadByte(doc, g.f, q, lead, members[0].value);
    }
  }

  lemma LeadByte(doc: Bytes, f: Features, q: nat, lead: Bytes, value: Item)
    requires At(doc, q, lead) && Separates(lead, value, f)
    ensures q < |doc| && (value.v.Dropped? || AllBlank(value.after) ==> Terminated(doc, q))
  {
    hide AllBlank;
    AtByte(doc, q, lead, 0);
    AtBounds(doc, q, lead);
  }

  lemma {:induction false} ReadsMembers(
      doc: Bytes, g: Settings, depth: nat, i: nat, name: Bytes, m: map<Bytes, Value>, v: Value, members: seq<Member>, end: Closing)
    requires members != [] && FreshKeys(g, m, members)
    requires At(doc, i, PrintMember(members[0])) && RestAt(doc, g, i + |PrintMember(members[0])|, members, end)
    ensures ReadsMembersTo(ReadMembers(doc, g, depth, i, name, m, v), depth + MembersDepth(members) <= g.f.stackLimit,
                           i + |PrintMember(members[0])| + |PrintMemberTail(members[1..], end)|, v,
                           DenoteMembers(EraseMembers(m), members, g))
    decreases members, 0
  {
    hide ReadToken, SkipComments, ReadValue, ReadMembers, ReadMember, Print, PrintItem, PrintMember, PrintMemberTail, MemberName;
    hide At, ItemGaps, WellFormed, Denote, ItemLayout, FreshKeys, WellFormedKey, KeyOf, EraseMembers, ValueEnd, Follows;
    hide IsGap, AllBlank, Separates, SeparatorAt, Delimited, Terminated, Closes;
    var member := members[0];
    var q := i + |PrintMember(member)|;
    var n := KeyOf(member);
    var previous := if n in m then m[n] else NULL_VALUE;
    RestBegins(doc, g, q, members, end);
    var t, colon := MemberFront(doc, g, i, member, q);
    var p := colon + 1 + |member.value.before|;
    LayOutItem(doc, g.f, g, colon + 1, member.value, q);
    ReadsValue(doc, g, depth + 1, colon + 1, previous, member.value.v, p, q);
    var r := ReadValue(doc, g, depth + 1, colon + 1, previous);
    LayoutFollows(doc, g.f, colon + 1, member.value.v, p, q);
    FreshKeysStep(g, m, members, previous);
    if r.Success? {
      EraseMembersUpdate(m, n, r.v);
      FreshKeysStep(g, m, members, r.v);
      MemberEnds(doc, g, depth, i, name, m, v, t, colon, r, q, members, end);
      if members[1..] != [] {
        var next := q + |members[1].lead|;
        RestGoesOn(doc, g, q, members, end);
        ReadsMembers(doc, g, depth, next, n, m[n := r.v], v, members[1..], end);
      }
    } else {
      MemberThrows(doc, g, depth, i, name, m, v, t, n, colon, r);
    }
  }

  lemma RestGoesOn(doc: Bytes, g: Settings, q: nat, members: seq<Member>, end: Closing)
    requires RestAt(doc, g, q, members, end) && members[1..] != []
    ensures var next := q + |members[1].lead|; var e := next + |PrintMember(members[1])|;
            && At(doc, next, PrintMember(members[1])) && RestAt(doc, g, e, members[1..], end)
            && q + |PrintMemberTail(members[1..], end)| == e + |PrintMemberTail(members[2..], end)|
  {
    hide PrintMember, PrintMemberTail, WellFormed, ItemGaps, WellFormedKey, IsAnyToken, AllBlank, KeyOf, IsGap, At, Separates;
    TailParts(doc, q, members[1..], end);
    assert members[1..][1..] == members[2..];
    assert members[1..][|members| - 2] == members[|members| - 1];
  }

  // The layout of a member's value has a comment behind it where one stands there.
  lemma CommentFollows(doc: Bytes, f: Features, item: Item, colon: nat, q: nat)
    requires At(doc, colon, PrintItem(item)) && q == colon + |PrintItem(item)| && !item.v.Dropped?
    requires IsGap(item.after, Skipped(f)) && !AllBlank(item.after)
    ensures var e := colon + |item.before| + |Print(item.v)|; e <= |doc| && ReadToken(doc, f, e).typ == CommentToken
  {
    hide ReadToken, Print, PrintItem, IsGap;
    ItemParts(doc, colon, item);
    var e := colon + |item.before| + |Print(item.v)|;
    AtBounds(doc, e, item.after);
    FirstInGap(doc, f, e, item.after);
  }

  lemma TrailingEnds(doc: Bytes, g: Settings, depth: nat, q: nat, members: seq<Member>, end: Closing, m: map<Bytes, Value>, v: Value)
    requires RestAt(doc, g, q, members, end) && members[1..] == [] && end != CLOSED
    ensures q + |end.lead| <= |doc| && KeyOf(members[0]) == []
    ensures ReadMembers(doc, g, depth, q + |end.lead|, [], m, v) == Success(q + |PrintMemberTail([], end)|, WithMembers(v, m))
  {
    hide ReadMembers, IsGap, KeyOf, Separates, WellFormedMembers, PrintMemberTail;
    EndParts(doc, q, end);
    BraceEnds(doc, g, depth, q + |end.lead|, end.gap, m, v);
  }

  lemma SameSeparators(lead: Bytes, value: Item, f: Features, h: Features)
    requires Scanning(f) == Scanning(h)
    ensures Separates(lead, value, f) <==> Separates(lead, value, h)
    ensures Skipped(f) == Skipped(h)
  {
  }

  /** Behind the value of a member that is not the end of its object stands a separator. */
  lemma MemberSeparated(
      doc: Bytes, f: Features, g: Settings, q: nat, members: seq<Member>, end: Closing, colon: nat, cur: nat)
    requires Scanning(f) == Scanning(g.f) && members != [] && RestAt(doc, g, q, members, end) && !(members[1..] == [] && end == CLOSED)
    requires var value := members[0].value;
             && At(doc, colon + 1, PrintItem(value)) && q == colon + 1 + |PrintItem(value)|
             && cur == ValueEnd(value.v, colon + 1 + |value.before|, q)
    requires Follows(doc, f, cur, q)
    ensures SeparatorAt(doc, f, cur, q, q + |NextLead(members, end)|)
  {
    hide ReadToken, SkipComments, Print, PrintItem, PrintMember, PrintMemberTail, At, ItemGaps, WellFormed, WellFormedKey, KeyOf;
    hide Follows, IsGap, AllBlank, Separates, Delimited, Terminated, WellFormedMembers, SeparatorAt, Closes, RestAt;
    var value := members[0].value;
    RestBegins(doc, g, q, members, end);
    RestHasGaps(doc, g, q, members, end);
    if !value.v.Dropped? && !AllBlank(value.after) {
      CommentFollows(doc, f, value, colon + 1, q);
    }
    SameSeparators(NextLead(members, end), value, f, g.f);
    SeparatorFollows(doc, f, value, cur, q, NextLead(members, end));
  }

  lemma RestHasGaps(doc: Bytes, g: Settings, q: nat, members: seq<Member>, end: Closing)
    requires RestAt(doc, g, q, members, end)
    ensures !members[0].value.v.Dropped? ==> IsGap(members[0].value.after, Skipped(g.f))
  {
    hide IsGap, WellFormed, WellFormedKey, WellFormedMembers, Closes, At;
    FirstHasGaps(members, g);
  }

  /** What the loop makes of a member that was read: it goes on behind the separator, or the object ends. */
  lemma MemberEnds(
      doc: Bytes, g: Settings, depth: nat, i: nat, name: Bytes, m: map<Bytes, Value>, v: Value,
      t: Token, colon: nat, r: Read, q: nat, members: seq<Member>, end: Closing)
    requires members != [] && RestAt(doc, g, q, members, end)
    requires i <= |doc| && MemberRead(doc, g, depth, i, m, t, KeyOf(members[0]), colon, r)
    requires r.Success? && r.cur <= |doc| && Follows(doc, g.f, r.cur, q)
    requires var value := members[0].value;
             && At(doc, colon + 1, PrintItem(value)) && q == colon + 1 + |PrintItem(value)|
             && r.cur == ValueEnd(value.v, colon + 1 + |value.before|, q)
    ensures var n := KeyOf(members[0]); var read := ReadMembers(doc, g, depth, i, name, m, v);
            if members[1..] == [] then
              read == Success(q + |PrintMemberTail([], end)|, WithMembers(v, m[n := r.v]))
            else
              q + |members[1].lead| <= |doc| && read == ReadMembers(doc, g, depth, q + |members[1].lead|, n, m[n := r.v], v)
  {
    hide ReadToken, SkipComments, ReadValue, ReadMembers, ReadMember, Print, PrintItem, PrintMember, PrintMemberTail, MemberName;
    hide At, ItemGaps, WellFormed, WellFormedKey, KeyOf, Follows, IsGap, AllBlank, Separates, Delimited, Terminated, WellFormedMembers;
    hide SeparatorAt, Closes, RestAt, MemberRead;
    var n := KeyOf(members[0]);
    RestBegins(doc, g, q, members, end);
    if members[1..] == [] && end == CLOSED {
      MemberIsLast(doc, g, depth, i, name, m, v, t, n, colon, r, q);
    } else {
      var lead := NextLead(members, end);
      MemberSeparated(doc, g.f, g, q, members, end, colon, r.cur);
      MemberGoesOn(doc, g, depth, i, name, m, v, t, n, colon, r, q, q + |lead|);
      AtBounds(doc, q, lead);
      if members[1..] == [] {
        TrailingEnds(doc, g, depth, q, members, end, m[n := r.v], v);
      }
    }
  }

  lemma FirstHasGaps(members: seq<Member>, g: Settings)
    requires members != [] && WellFormedMembers(members, g)
    ensures IsGap(members[0].before, Skipped(g.f))
    ensures !members[0].value.v.Dropped? ==> IsGap(members[0].value.after, Skipped(g.f))
  {
    hide IsGap, WellFormed, WellFormedKey;
  }

  lemma ColonToken(doc: Bytes, f: Features, e: nat, blank: Bytes)
    requires At(doc, e, blank) && AllBlank(blank) && e + |blank| < |doc| && doc[e + |blank|] == COLON
    ensures ReadToken(doc, f, e) == Token(MemberSeparator, e + |blank|, e + |blank| + 1)
  {
    SkipBlank(doc, e, blank);
    Punctuation(doc, f, e, e + |blank|);
  }

  /** The tokens of a member up to its value, as the object loop meets them, and where its value is. */
  lemma MemberFront(doc: Bytes, g: Settings, i: nat, m: Member, q: nat) returns (t: Token, colon: nat)
    requires IsGap(m.before, Skipped(g.f)) && WellFormedKey(m.key) && AllBlank(m.beforeColon)
    requires At(doc, i, PrintMember(m)) && q == i + |PrintMember(m)|
    ensures t == SkipComments(doc, g.f, i) && t.typ == StringToken && MemberName(doc, g, t) == Named(KeyOf(m))
    ensures colon < |doc| && ReadToken(doc, g.f, t.end) == Token(MemberSeparator, colon, colon + 1)
    ensures |KeyOf(m)| < KEY_LIMIT
    ensures At(doc, colon + 1, PrintItem(m.value)) && q == colon + 1 + |PrintItem(m.value)|
  {
    hide ReadToken, SkipComments, MemberName, Print, Classify, PrintItem, At, PrintMember, PrintText, IsGap;
    hide AllBlank, CharsMeaning, WellFormedChars, SkipSpaces;
    MemberParts(doc, i, m);
    KeyToken(doc, g, i, m.before, m.key);
    var e := i + |m.before| + |PrintText(m.key)|;
    t := Token(StringToken, i + |m.before|, e);
    colon := e + |m.beforeColon|;
    ColonToken(doc, g.f, e, m.beforeColon);
  }

  // One turn of the object loop on a well-formed key and colon.

  predicate MemberRead(
    doc: Bytes, g: Settings, depth: nat, i: nat, m: map<Bytes, Value>, t: Token, n: Bytes, colon: nat, r: Read)
    requires i <= |doc|
  {
    && t == SkipComments(doc, g.f, i) && t.typ == StringToken
    && MemberName(doc, g, t) == Named(n) && |n| < KEY_LIMIT && !(g.f.rejectDupKeys && n in m)
    && colon < |doc| && ReadToken(doc, g.f, t.end) == Token(MemberSeparator, colon, colon + 1)
    && r == ReadValue(doc, g, depth + 1, colon + 1, if n in m then m[n] else NULL_VALUE)
  }

  lemma MemberThrows(
      doc: Bytes, g: Settings, depth: nat, i: nat, name: Bytes, m: map<Bytes, Value>, v: Value,
      t: Token, n: Bytes, colon: nat, r: Read)
    requires i <= |doc| && MemberRead(doc, g, depth, i, m, t, n, colon, r) && r.Threw?
    ensures ReadMembers(doc, g, depth, i, name, m, v) == Threw
  {
    hide ReadToken, ReadValue, SkipComments;
    assert ReadMembers(doc, g, depth, i, name, m, v) == ReadMember(doc, g, depth, t, n, m, v);
  }

  lemma MemberIsLast(
      doc: Bytes, g: Settings, depth: nat, i: nat, name: Bytes, m: map<Bytes, Value>, v: Value,
      t: Token, n: Bytes, colon: nat, r: Read, q: nat)
    requires i <= |doc| && MemberRead(doc, g, depth, i, m, t, n, colon, r) && r.Success?
    requires Follows(doc, g.f, r.cur, q) && q < |doc| && doc[q] == RBRACE
    ensures ReadMembers(doc, g, depth, i, name, m, v) == Success(q + 1, WithMembers(v, m[n := r.v]))
  {
    hide ReadToken, ReadValue, SkipComments, Follows;
    assert ReadMembers(doc, g, depth, i, name, m, v) == ReadMember(doc, g, depth, t, n, m, v);
    TerminatorFollows(doc, g.f, r.cur, q);
  }

  lemma MemberGoesOn(
      doc: Bytes, g: Settings, depth: nat, i: nat, name: Bytes, m: map<Bytes, Value>, v: Value,
      t: Token, n: Bytes, colon: nat, r: Read, q: nat, next: nat)
    requires i <= |doc| && MemberRead(doc, g, depth, i, m, t, n, colon, r) && r.Success?
    requires r.cur <= |doc| && SeparatorAt(doc, g.f, r.cur, q, next)
    ensures next <= |doc| && ReadMembers(doc, g, depth, i, name, m, v) == ReadMembers(doc, g, depth, next, n, m[n := r.v], v)
  {
    hide ReadToken, ReadValue, SkipComments;
    assert ReadMembers(doc, g, depth, i, name, m, v) == ReadMember(doc, g, depth, t, n, m, v);
  }

  /** The whole document has been read: nothing is left that the reader does not skip. */
  lemma FinishAtEnd(doc: Bytes, g: Settings, cur: nat, v: Value)
    requires cur <= |doc| && (g.f.failIfExtra ==> NextToken(doc, g.f, cur) == NextToken(doc, g.f, |doc|))
    ensures Finish(doc, g, cur, v, [])
            == if g.f.strictRoot && !IsContainer(v) then
                 Done(false, [Error(0, |doc|, RootNotContainer, None)], v)
               else Done(true, [], v)
  {
  }

  /**
    Parsing a text of the grammar, with blanks around it, and comments if they are allowed, and into
    any root: with enough stack the result is what the text denotes and no error is recorded, unless
    only a container is accepted as the root; without enough stack the parse throws.
   */
  lemma ParseMeaning(text: Item, g: Settings, root: Value)
    requires IsGap(text.before, Early(g.f)) && IsGap(text.after, Late(g.f))
    requires WellFormed(text.v, g) && !text.v.Dropped?
    ensures var r := Parse(PrintItem(text), g, root);
            if Depth(text.v) > g.f.stackLimit then r.Thrown?
            else
              && r.Done? && Erase(r.root) == Denote(text.v, g)
              && (r.ok <==> !g.f.strictRoot || text.v.ArrayText? || text.v.ObjectText?)
              && r.errors == (if r.ok then [] else [Error(0, |PrintItem(text)|, RootNotContainer, None)])
  {
    hide ReadValue, ReadToken, Finish, Print, PrintItem, NextToken, IsGap, ItemLayout;
    var doc := PrintItem(text);
    EarlyIsSkipped(text.after, g.f);
    RootLayout(text, g, g);
    ReadsValue(doc, g, 1, 0, root, text.v, |text.before|, |doc|);
    var r := ReadValue(doc, g, 1, 0, root);
    if r.Success? {
      FinishAtEnd(doc, g, r.cur, r.v);
      DenotesContainer(text.v, g, r.v);
    }
  }

  lemma RootLayout(text: Item, g: Settings, h: Settings)
    requires IsGap(text.before, Early(g.f)) && IsGap(text.after, Skipped(g.f))
    requires WellFormed(text.v, h) && !text.v.Dropped?
    ensures var doc, e := PrintItem(text), |text.before| + |Print(text.v)|;
            && ItemLayout(doc, g.f, 0, text.v, |text.before|, |doc|)
            && e <= |doc|
            && (IsGap(text.after, Early(g.f)) ==> NextToken(doc, g.f, e) == NextToken(doc, g.f, |doc|))
  {
    hide PrintItem, Print, NextToken, IsGap, ItemLayout;
    var doc := PrintItem(text);
    assert At(doc, 0, doc);
    LayOutItem(doc, g.f, h, 0, text, |doc|);
    ItemParts(doc, 0, text);
    AtBounds(doc, |text.before| + |Print(text.v)|, text.after);
    if IsGap(text.after, Early(g.f)) {
      NextBehindGap(doc, g.f, |text.before| + |Print(text.v)|, text.after);
    }
  }

  lemma DenotesContainer(c: Syntax, g: Settings, v: Value)
    requires WellFormed(c, g) && Erase(v) == Denote(c, g)
    ensures IsContainer(v) <==> c.ArrayText? || c.ObjectText?
  {
    if c.Number? {
      assert NumberMeaning(c.n, g.scan).Some?;
    }
  }
}
