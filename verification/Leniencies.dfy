/**
  Where the reader lets through more, or less, than it promises. The loops of arrays and objects skip
  comments behind a value in any case, refuse them before a colon in any case, and behind a comment
  the object loop takes any one token for the comma. A comma behind an empty key may be the last one,
  and a minus sign alone is a number.
 */
module Leniencies {
  import opened Acceptance
  import opened Basics
  import opened Errors
  import opened Gaps
  import opened Grammar
  import opened Integers
  import opened JsonStrings
  import opened Lexer
  import opened ReaderMeaning
  import opened ReaderSpec
  import opened Separators
  import opened Values

  const BLOCK: Bytes := [SLASH, STAR, STAR, SLASH]

  // Small tokens

  lemma BlockIsGap(f: Features)
    ensures IsGap(BLOCK, Skipped(f))
  {
    assert BlockEnd(BLOCK, 2) == 4;
    assert CommentLength(BLOCK, Skipped(f)) == 4;
    assert BLOCK[4..] == [];
  }

  /** A single digit before something that cannot belong to a number reads as itself. */
  lemma DigitAt(doc: Bytes, g: Settings, depth: nat, i: nat, d: Byte, v: Value)
    requires i + 1 < |doc| && d <= 9 && doc[i] == ZERO + d && (doc[i + 1] == SLASH || Terminated(doc, i + 1))
    requires depth <= g.f.stackLimit
    ensures SkipComments(doc, g.f, i) == Token(NumberToken, i, i + 1)
    ensures ReadValue(doc, g, depth, i, v) == Success(i + 1, Value(Int(d), i, i + 1))
  {
    var t := Token(NumberToken, i, i + 1);
    assert ScanNumber(doc, i + 1, false) == (true, i + 1);
    SpacesStop(doc, i);
    TokenFrom(doc, g.f, i, i, NumberToken, i + 1);
    assert TokenText(doc, t) == [doc[i]];
    OneDigit(doc[i], d);
  }

  lemma OneDigit(b: Byte, d: Byte)
    requires d <= 9 && b == ZERO + d
    ensures IntegerMeaning([b]) == Some(Int(d))
  {
    assert [b][..0] == [];
    assert NatOf([b]) == d;
  }

  /** A key of one plain letter. */
  lemma KeyAt(doc: Bytes, g: Settings, i: nat, letter: Byte)
    requires i + 3 < |doc| && doc[i..i + 3] == [QUOTE, letter, QUOTE] && 0x61 <= letter <= 0x62
    ensures var t := Token(StringToken, i, i + 3);
            SkipComments(doc, g.f, i) == t && MemberName(doc, g, t) == Named([letter])
  {
    assert doc[i..i + 3][0] == doc[i] && doc[i..i + 3][1] == doc[i + 1] && doc[i..i + 3][2] == doc[i + 2];
    assert ScanString(doc, i + 1, QUOTE) == (true, i + 3);
    QuoteClass(doc, g.f, i);
    SpacesStop(doc, i);
    TokenFrom(doc, g.f, i, i, StringToken, i + 3);
    assert TokenBody(doc, Token(StringToken, i, i + 3)) == [letter];
    DecodeLetter(letter);
  }

  lemma DecodeLetter(letter: Byte)
    requires 0x61 <= letter <= 0x62
    ensures DecodeFrom([letter], 0) == Good([letter])
  {
    assert DecodeFrom([letter], 1) == Good([]);
  }

  // A block comment in front of a digit or a closing bracket.
  lemma BlockAt(doc: Bytes, f: Features, i: nat)
    requires At(doc, i, BLOCK)
    ensures ReadToken(doc, f, i).typ == CommentToken
    ensures i + 4 <= |doc| && SkipComments(doc, f, i) == SkipComments(doc, f, i + 4)
  {
    hide ReadToken, SkipComments;
    BlockIsGap(f);
    SkipsGap(doc, f, i, BLOCK);
    assert BlockEnd(BLOCK, 2) == 4;
    ScansComment(doc, f, i, BLOCK);
  }

  // Arrays

  const COMMENTED_ARRAY: Bytes := [LBRACKET, 0x31, SLASH, STAR, STAR, SLASH, RBRACKET]

  /** `[1 / * * /]` without the spaces is accepted, with comments switched off as well. */
  lemma CommentBehindElement(g: Settings, root: Value)
    requires g.f.stackLimit >= 2
    ensures var r := Parse(COMMENTED_ARRAY, g, root);
            r.Done? && r.ok && r.root.payload == Array(map[0 := Value(Int(1), 1, 2)])
  {
    hide ReadToken, SkipComments, NextToken, Classify, SkipSpaces, ReadMembers, ReadScalar;
    var doc := COMMENTED_ARRAY;
    var w := Value(root.payload, 0, root.limit);
    var elems: map<nat, Value> := map[0 := Value(Int(1), 1, 2)];
    DigitAt(doc, g, 2, 1, 1, NULL_VALUE);
    assert doc[2..6] == BLOCK;
    BlockAt(doc, g.f, 2);
    SpacesStop(doc, 6);
    Punctuation(doc, g.f, 6, 6);
    assert ReadElements(doc, g, 1, 1, 0, map[], w) == Success(7, WithElems(w, elems));
    SpacesStop(doc, 1);
    assert ReadArray(doc, g, 1, 1, w) == Success(7, WithElems(w, elems));
    OpensAt(doc, g.f, 0);
    assert ReadValue(doc, g, 1, 0, root) == Success(7, Value(Array(elems), 0, 7));
    EndsAt(doc, g.f);
  }

  lemma OpensAt(doc: Bytes, f: Features, i: nat)
    requires i < |doc| && (doc[i] == LBRACKET || doc[i] == LBRACE)
    ensures NextToken(doc, f, i) == Token(if doc[i] == LBRACKET then ArrayBegin else ObjectBegin, i, i + 1)
  {
  }

  lemma EndsAt(doc: Bytes, f: Features)
    ensures NextToken(doc, f, |doc|) == Token(EndOfStream, |doc|, |doc|)
  {
  }

  /**
    A comment between the brackets of an array that is empty otherwise: it is taken for a dropped null, so
    the document is accepted exactly when comments and dropped nulls are both allowed.
   */
  lemma CommentInBrackets(gap: Bytes, g: Settings, root: Value)
    requires IsGap(gap, Skipped(g.f)) && !AllBlank(gap)
    ensures var r := Parse([LBRACKET] + gap + [RBRACKET], g, root);
            && (r.Done? && r.ok <==> g.f.allowComments && g.f.allowDroppedNullPlaceholders && g.f.stackLimit >= 2)
            && (r.Done? && r.ok ==> Erase(r.root) == Value(Array(map[0 := NULL_VALUE]), 0, 0))
  {
    hide Parse, IsGap, AllBlank;
    var item := Item(gap, Dropped, []);
    var text := Item([], ArrayText([item], []), []);
    OneItemText(item);
    assert PrintItem(item) == gap && PrintItem(text) == [LBRACKET] + gap + [RBRACKET];
    BlankIsGap([], Skipped(g.f));
    BlankIsGap([], Late(g.f));
    BlankIsGap([], Early(g.f));
    GapWithoutComments(gap);
    NothingIsBlank();
    OneItemWellFormed(item, Lenient(g));
    LoneDroppedAdmitted(item, g.f);
    TextAccepted(text, g, root);
    if g.f.allowComments && g.f.allowDroppedNullPlaceholders && g.f.stackLimit >= 2 {
      DenoteOne(item, g);
      ParseMeaning(text, g, root);
    }
  }

  lemma OneItemWellFormed(item: Item, g: Settings)
    requires ItemGaps(item, Early(g.f), Skipped(g.f)) && WellFormed(item.v, g) && !IsEmptyItem(item)
    ensures WellFormed(ArrayText([item], []), g)
  {
    assert [item][0] == item && [item][1..] == [] && WellFormedItems([], g);
    assert WellFormedItems([item], g);
  }

  lemma LoneDroppedAdmitted(item: Item, f: Features)
    requires item.v.Dropped? && !AllBlank(item.before)
    ensures Admits(f, ArrayText([item], [])) <==> f.allowComments && f.allowDroppedNullPlaceholders
  {
    hide IsGap;
    var items := [item];
    assert items[0] == item;
    assert NoEarlyComments(ArrayText(items, [])) ==> NoEarlyComment(items[0]);
    assert NoDropped(ArrayText(items, [])) ==> NoDropped(items[0].v);
    assert AllDistinct(ArrayText(items, []));
  }

  lemma NothingIsBlank()
    ensures AllBlank([])
  {
  }

  lemma OneItemText(item: Item)
    ensures PrintItem(Item([], ArrayText([item], []), [])) == [LBRACKET] + PrintItem(item) + [RBRACKET]
    ensures Depth(ArrayText([item], [])) == 1 + Depth(item.v)
    ensures PrintItem(item) == item.before + Print(item.v) + item.after
  {
    assert [item][1..] == [] && PrintItemTail([]) == [RBRACKET] && ItemsDepth([]) == 0;
  }

  // Objects

  /** A comment between a key and its colon ends the object, even where comments are allowed. */
  lemma CommentBeforeColon(doc: Bytes, g: Settings, depth: nat, t: Token, n: Bytes, m: map<Bytes, Value>, v: Value)
    requires t.start < t.end <= |doc| && ReadToken(doc, g.f, t.end).typ == CommentToken
    ensures var r := ReadMember(doc, g, depth, t, n, m, v);
            r.Failure? && r.e == TokenError(ReadToken(doc, g.f, t.end), MissingColon)
  {
    hide ReadToken;
  }

  // Separators

  // The tokens that may follow a member by the grammar.
  predicate IsSeparator(t: Token) {
    t.typ == ArraySeparator || t.typ == ObjectEnd
  }

  /** The object loop refuses what stands at `cur`, behind the value of a member. */
  predicate Refused(doc: Bytes, f: Features, cur: nat)
    requires cur <= |doc|
  {
    !IsSeparator(ReadToken(doc, f, cur)) && ReadToken(doc, f, cur).typ != CommentToken
  }

  // A member read up to the end of its value, with key and colon in order.
  predicate ValueRead(doc: Bytes, g: Settings, depth: nat, t: Token, n: Bytes, m: map<Bytes, Value>, r: Read)
    requires t.start < t.end <= |doc|
  {
    && ReadToken(doc, g.f, t.end).typ == MemberSeparator && |n| < KEY_LIMIT && !(g.f.rejectDupKeys && n in m)
    && r == ReadValue(doc, g, depth + 1, ReadToken(doc, g.f, t.end).end, if n in m then m[n] else NULL_VALUE)
    && r.Success?
  }

  /**
    What the object loop takes as a separator behind a member: if it is not refused, the next token
    that is not a comment, whatever it is. A closing brace ends the object, and behind any other token
    the loop goes on.
   */
  lemma SeparatorTaken(doc: Bytes, g: Settings, depth: nat, t: Token, n: Bytes, m: map<Bytes, Value>, v: Value, r: Read)
    requires t.start < t.end <= |doc| && ValueRead(doc, g, depth, t, n, m, r)
    ensures var read, next := ReadMember(doc, g, depth, t, n, m, v), SkipComments(doc, g.f, r.cur);
            if Refused(doc, g.f, r.cur) then
              read.Failure? && read.e == TokenError(ReadToken(doc, g.f, r.cur), MissingCommaOrBrace)
            else if next.typ == ObjectEnd then read == Success(next.end, WithMembers(v, m[n := r.v]))
            else read == ReadMembers(doc, g, depth, next.end, n, m[n := r.v], v)
  {
    hide ReadToken, ReadValue, SkipComments, ReadMembers;
  }

  /** So the loop takes only separators exactly when the token behind the comments is one, or no comment hides it. */
  lemma OnlySeparatorsIff(doc: Bytes, f: Features, cur: nat)
    requires cur <= |doc|
    ensures (Refused(doc, f, cur) || IsSeparator(SkipComments(doc, f, cur))) <==>
            (ReadToken(doc, f, cur).typ != CommentToken || IsSeparator(SkipComments(doc, f, cur)))
  {
    hide ReadToken;
  }

  const LENIENT_OBJECT: Bytes :=
    [LBRACE, QUOTE, 0x61, QUOTE, COLON, 0x31, SLASH, STAR, STAR, SLASH, 0x37, QUOTE, 0x62, QUOTE, COLON, 0x32, RBRACE]

  /** `{"a":1 / * * / 7"b":2}` without the spaces has the 7 for a comma, with comments on or off. */
  lemma AnyTokenSeparates(g: Settings, root: Value)
    requires g.f.stackLimit >= 2
    ensures var r := Parse(LENIENT_OBJECT, g, root);
            && r.Done? && r.ok
            && r.root.payload == Object(map[[0x61] := Value(Int(1), 5, 6), [0x62] := Value(Int(2), 15, 16)])
  {
    hide ReadToken, SkipComments, NextToken, Classify, ReadMember, ReadValue, MemberName;
    var doc := LENIENT_OBJECT;
    var w := Value(root.payload, 0, root.limit);
    var one, two := Value(Int(1), 5, 6), Value(Int(2), 15, 16);
    var a := map[[0x61] := one];
    var b := a[[0x62] := two];
    FirstMember(g, w, a);
    SecondMember(g, w, a, b);
    assert a[[0x62] := two] == b;
    FromBrace(doc, g, root, b);
    EndsAt(doc, g.f);
  }

  // The second member, from behind the 7 on.
  lemma SecondMember(g: Settings, w: Value, a: map<Bytes, Value>, b: map<Bytes, Value>)
    requires g.f.stackLimit >= 2 && [0x62] !in a && b == a[[0x62] := Value(Int(2), 15, 16)]
    ensures ReadMembers(LENIENT_OBJECT, g, 1, 11, [0x61], a, w) == Success(17, WithMembers(w, b))
  {
    hide ReadToken, SkipComments, NextToken, Classify, ReadValue, MemberName;
    var doc := LENIENT_OBJECT;
    assert doc[11..14] == [QUOTE, 0x62, QUOTE];
    KeyAt(doc, g, 11, 0x62);
    SpacesStop(doc, 14);
    Punctuation(doc, g.f, 14, 14);
    DigitAt(doc, g, 2, 15, 2, NULL_VALUE);
    SpacesStop(doc, 16);
    Punctuation(doc, g.f, 16, 16);
    var t := Token(StringToken, 11, 14);
    assert ReadMember(doc, g, 1, t, [0x62], a, w) == Success(17, WithMembers(w, b));
  }

  // The first member, up to the 7.
  lemma FirstMember(g: Settings, w: Value, a: map<Bytes, Value>)
    requires g.f.stackLimit >= 2 && a == map[[0x61] := Value(Int(1), 5, 6)]
    ensures ReadMembers(LENIENT_OBJECT, g, 1, 1, [], map[], w) == ReadMembers(LENIENT_OBJECT, g, 1, 11, [0x61], a, w)
  {
    hide ReadToken, SkipComments, NextToken, Classify, ReadValue, MemberName;
    var doc := LENIENT_OBJECT;
    assert doc[1..4] == [QUOTE, 0x61, QUOTE];
    KeyAt(doc, g, 1, 0x61);
    SpacesStop(doc, 4);
    Punctuation(doc, g.f, 4, 4);
    DigitAt(doc, g, 2, 5, 1, NULL_VALUE);
    assert doc[6..10] == BLOCK;
    BlockAt(doc, g.f, 6);
    SevenAt(g.f);
    var t := Token(StringToken, 1, 4);
    assert ReadMember(doc, g, 1, t, [0x61], map[], w) == ReadMembers(doc, g, 1, 11, [0x61], a, w);
  }

  lemma SevenAt(f: Features)
    ensures SkipComments(LENIENT_OBJECT, f, 10) == Token(NumberToken, 10, 11)
  {
    hide ReadToken;
    var doc := LENIENT_OBJECT;
    assert ScanNumber(doc, 11, false) == (true, 11);
    SpacesStop(doc, 10);
    TokenFrom(doc, f, 10, 10, NumberToken, 11);
  }

  lemma FromBrace(doc: Bytes, g: Settings, root: Value, m: map<Bytes, Value>)
    requires g.f.stackLimit >= 1 && doc != [] && doc[0] == LBRACE
    requires var w := Value(root.payload, 0, root.limit);
             ReadMembers(doc, g, 1, 1, [], map[], w) == Success(|doc|, WithMembers(w, m))
    ensures ReadValue(doc, g, 1, 0, root) == Success(|doc|, Value(Object(m), 0, |doc|))
  {
    hide NextToken, ReadMembers;
    OpensAt(doc, g.f, 0);
  }

  // Trailing commas

  /** A closing brace in place of a member passes exactly when the member before it, if there is one, has an empty key. */
  lemma TrailingCommaIff(doc: Bytes, g: Settings, depth: nat, i: nat, name: Bytes, m: map<Bytes, Value>, v: Value)
    requires i <= |doc| && SkipComments(doc, g.f, i).typ == ObjectEnd
    ensures var r := ReadMembers(doc, g, depth, i, name, m, v);
            if name == [] then r == Success(SkipComments(doc, g.f, i).end, WithMembers(v, m))
            else r.Failure? && r.e == TokenError(SkipComments(doc, g.f, i), MissingBraceOrName)
  {
    hide SkipComments;
  }

  const TRAILING_COMMA: Bytes := [LBRACE, QUOTE, QUOTE, COLON, 0x31, COMMA, RBRACE]

  /** So `{"":1,}` is accepted. */
  lemma TrailingCommaAccepted(g: Settings, root: Value)
    requires g.f.stackLimit >= 2
    ensures Parse(TRAILING_COMMA, g, root) == Done(true, [], Value(Object(map[[] := Value(Int(1), 4, 5)]), 0, 7))
  {
    hide ReadToken, SkipComments, NextToken, Classify, ReadValue, MemberName;
    var doc := TRAILING_COMMA;
    var w := Value(root.payload, 0, root.limit);
    var t := Token(StringToken, 1, 3);
    var a := map[[] := Value(Int(1), 4, 5)];
    EmptyKeyAt(g);
    SpacesStop(doc, 3);
    Punctuation(doc, g.f, 3, 3);
    DigitAt(doc, g, 2, 4, 1, NULL_VALUE);
    SpacesStop(doc, 5);
    Punctuation(doc, g.f, 5, 5);
    SpacesStop(doc, 6);
    Punctuation(doc, g.f, 6, 6);
    TrailingCommaIff(doc, g, 1, 6, [], a, w);
    assert ReadMember(doc, g, 1, t, [], map[], w) == ReadMembers(doc, g, 1, 6, [], a, w);
    assert ReadMembers(doc, g, 1, 1, [], map[], w) == Success(7, WithMembers(w, a));
    FromBrace(doc, g, root, a);
    EndsAt(doc, g.f);
  }

  lemma EmptyKeyAt(g: Settings)
    ensures var t := Token(StringToken, 1, 3);
            SkipComments(TRAILING_COMMA, g.f, 1) == t && MemberName(TRAILING_COMMA, g, t) == Named([])
  {
    assert TRAILING_COMMA[1..] == PrintText([]) + TRAILING_COMMA[3..];
    assert At(TRAILING_COMMA, 1, PrintText([]));
    BlankIsGap([], Skipped(g.f));
    KeyToken(TRAILING_COMMA, g, 1, [], []);
  }

  // Numbers

  /** A minus sign alone is 0: `[-]` is accepted. */
  lemma LoneMinusIsZero(g: Settings, root: Value)
    requires g.f.stackLimit >= 2
    ensures var r := Parse([LBRACKET, MINUS, RBRACKET], g, root);
            r.Done? && r.ok && Erase(r.root) == Value(Array(map[0 := Value(Int(0), 0, 0)]), 0, 0)
  {
    hide Parse;
    var minus := Number(NumberText(true, [], None, None));
    var item := Item([], minus, []);
    assert PrintNumber(minus.n) == [MINUS] && WellFormed(minus, g) && Denote(minus, g) == Value(Int(0), 0, 0);
    OneItemText(item);
    assert PrintItem(Item([], ArrayText([item], []), [])) == [LBRACKET, MINUS, RBRACKET];
    BlankItem(item, Early(g.f), Skipped(g.f));
    DenoteOne(item, g);
    ParseMeaning(Item([], ArrayText([item], []), []), g, root);
  }

  lemma DenoteOne(item: Item, g: Settings)
    requires WellFormed(item.v, g) && ItemGaps(item, Early(g.f), Skipped(g.f))
    ensures WellFormedItems([item], g) && DenoteItems(map[], 0, [item], g) == map[0 := Denote(item.v, g)]
  {
    hide WellFormed, Denote;
    assert [item][1..] == [] && WellFormedItems([], g);
    forall i: nat ensures i in DenoteItems(map[], 0, [item], g) <==> i == 0 {
      DenoteItemsAt(map[], 0, [item], g, i);
    }
    DenoteItemsAt(map[], 0, [item], g, 0);
  }
}
