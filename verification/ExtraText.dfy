/**
  What `failIfExtra` lets through: the documentation says nothing, the code says a NUL byte and
  everything behind it, and without `strictRoot` any text that is not a token.
 */
module ExtraText {
  import opened Basics
  import opened Errors
  import opened Gaps
  import opened Grammar
  import opened Lexer
  import opened ReaderMeaning
  import opened ReaderSpec
  import opened Values

  // Whether the bytes at `e` begin with a complete token.
  predicate StartsToken(doc: Bytes, f: Features, e: nat)
    requires e < |doc|
  {
    Classify(doc, f, e).1.0
  }

  // Whether a complete comment that is allowed begins at `e`.
  predicate CommentHere(doc: Bytes, f: Features, e: nat)
    requires e < |doc|
  {
    f.allowComments && Classify(doc, f, e).0 == CommentToken && StartsToken(doc, f, e)
  }

  /** Where the text from `i` on begins, if there is any: behind blanks, and behind complete comments if they are allowed. */
  function TextStart(doc: Bytes, f: Features, i: nat): (e: nat)
    requires i <= |doc|
    ensures i <= e <= |doc| && (e < |doc| ==> !IsBlank(doc[e]) && !CommentHere(doc, f, e))
    decreases |doc| - i
  {
    if i == |doc| then i
    else if IsBlank(doc[i]) then TextStart(doc, f, i + 1)
    else if CommentHere(doc, f, i) then TextStart(doc, f, Classify(doc, f, i).1.1)
    else i
  }

  /** The next token is the one that begins there. */
  lemma {:induction false} NextTokenIsText(doc: Bytes, f: Features, i: nat)
    requires i <= |doc|
    ensures NextToken(doc, f, i) == ReadToken(doc, f, TextStart(doc, f, i))
    decreases |doc| - i
  {
    hide Classify;
    if i < |doc| && IsBlank(doc[i]) {
      BlankStep(doc, f, i);
      NextTokenIsText(doc, f, i + 1);
    } else if i < |doc| && CommentHere(doc, f, i) {
      SpacesStop(doc, i);
      NextTokenIsText(doc, f, Classify(doc, f, i).1.1);
    } else if i < |doc| {
      SpacesStop(doc, i);
    }
  }

  lemma TokenAt(doc: Bytes, f: Features, e: nat)
    requires e <= |doc| && (e < |doc| ==> !IsBlank(doc[e]))
    ensures var t := ReadToken(doc, f, e);
            && (t.typ == EndOfStream <==> e == |doc| || doc[e] == 0)
            && (t.typ == ErrorToken <==> e < |doc| && !StartsToken(doc, f, e))
  {
    hide ScanNumber, ScanComment, Match;
    if e < |doc| {
      SpacesStop(doc, e);
    }
  }

  /**
    With `failIfExtra`, any document whose root has been read is accepted exactly when the root is a
    container if one is called for and, behind blanks and allowed comments, the document ends, or goes on
    with a NUL, or with text that is no token and `strictRoot` is off.
   */
  lemma ExtraTextRefusedIff(doc: Bytes, g: Settings, root: Value)
    requires g.f.failIfExtra && ReadValue(doc, g, 1, 0, root).Success?
    ensures var read, r := ReadValue(doc, g, 1, 0, root), Parse(doc, g, root);
            var e := TextStart(doc, g.f, read.cur);
            && r.Done?
            && (r.ok <==>
                  && (g.f.strictRoot ==> IsContainer(read.v))
                  && (e == |doc| || doc[e] == 0 || (!g.f.strictRoot && !StartsToken(doc, g.f, e))))
  {
    hide ReadValue, ReadToken, NextToken, StartsToken, TextStart;
    var cur := ReadValue(doc, g, 1, 0, root).cur;
    NextTokenIsText(doc, g.f, cur);
    TokenAt(doc, g.f, TextStart(doc, g.f, cur));
  }

  /** Extra text is found behind the root: `failIfExtra` asks for it, and it is a token or the root is strict. */
  predicate IsExtra(doc: Bytes, f: Features, e: nat)
    requires e <= |doc|
  {
    f.failIfExtra && e < |doc| && doc[e] != 0 && (f.strictRoot || StartsToken(doc, f, e))
  }

  /**
    The errors of any parse: the one of the tree, if there is one, and then at most one of the root: the token of the
    extra text, or the whole document if the root should be a container.
   */
  lemma RootErrors(doc: Bytes, g: Settings, root: Value)
    requires !ReadValue(doc, g, 1, 0, root).Threw?
    ensures var read, r := ReadValue(doc, g, 1, 0, root), Parse(doc, g, root);
            var e := TextStart(doc, g.f, read.cur);
            && r.Done? && r.root == read.v && (r.ok <==> r.errors == [])
            && r.errors == (if read.Failure? then [read.e] else [])
                           + (if IsExtra(doc, g.f, e) then [Error(e, Classify(doc, g.f, e).1.1, ExtraAfterValue, None)]
                              else if g.f.strictRoot && !IsContainer(read.v) then [Error(0, |doc|, RootNotContainer, None)]
                              else [])
  {
    hide ReadValue, ReadToken, NextToken, StartsToken, TextStart, Classify;
    var cur := ReadValue(doc, g, 1, 0, root).cur;
    NextTokenIsText(doc, g.f, cur);
    var e := TextStart(doc, g.f, cur);
    TokenAt(doc, g.f, e);
    TokenEnd(doc, g.f, e);
  }

  lemma TokenEnd(doc: Bytes, f: Features, e: nat)
    requires e < |doc| ==> !IsBlank(doc[e])
    requires e <= |doc|
    ensures ReadToken(doc, f, e).start == e && (e < |doc| ==> ReadToken(doc, f, e).end == Classify(doc, f, e).1.1)
  {
    hide Classify;
    if e < |doc| {
      SpacesStop(doc, e);
    }
  }

  lemma ReadsBrackets(doc: Bytes, g: Settings, root: Value)
    requires |doc| >= 2 && doc[0] == LBRACKET && doc[1] == RBRACKET && g.f.stackLimit >= 1
    ensures ReadValue(doc, g, 1, 0, root) == Success(2, Value(Array(map[]), 0, 2))
  {
    SpacesStop(doc, 0);
    TokenFrom(doc, g.f, 0, 0, ArrayBegin, 1);
    SpacesStop(doc, 1);
  }

  /** So `[]@` parses without `strictRoot`, and refuses with it. */
  lemma ExtraTextAccepted(g: Settings, root: Value)
    requires g.f.failIfExtra && g.f.stackLimit >= 1
    ensures var r := Parse([LBRACKET, RBRACKET, 0x40], g, root); r.Done? && (r.ok <==> !g.f.strictRoot)
  {
    var doc: Bytes := [LBRACKET, RBRACKET, 0x40];
    ReadsBrackets(doc, g, root);
    ExtraTextRefusedIff(doc, g, root);
  }

  /** And `[]`, a NUL and `]` parses in any case. */
  lemma TextBehindNulAccepted(g: Settings, root: Value)
    requires g.f.failIfExtra && g.f.stackLimit >= 1
    ensures var r := Parse([LBRACKET, RBRACKET, 0, RBRACKET], g, root); r.Done? && r.ok
  {
    var doc: Bytes := [LBRACKET, RBRACKET, 0, RBRACKET];
    ReadsBrackets(doc, g, root);
    ExtraTextRefusedIff(doc, g, root);
  }

  /** A slash that begins no comment is no token: `[]/` parses without `strictRoot`. */
  lemma LoneSlashAccepted(g: Settings, root: Value)
    requires g.f.failIfExtra && g.f.stackLimit >= 1
    ensures var r := Parse([LBRACKET, RBRACKET, SLASH], g, root); r.Done? && (r.ok <==> !g.f.strictRoot)
  {
    var doc: Bytes := [LBRACKET, RBRACKET, SLASH];
    ReadsBrackets(doc, g, root);
    assert ScanComment(doc, 3) == (false, 3);
    ExtraTextRefusedIff(doc, g, root);
  }

  /** `[]//` parses if comments are allowed, with `strictRoot` too, and otherwise never. */
  lemma LateCommentAccepted(g: Settings, root: Value)
    requires g.f.failIfExtra && g.f.stackLimit >= 1
    ensures var r := Parse([LBRACKET, RBRACKET, SLASH, SLASH], g, root); r.Done? && (r.ok <==> g.f.allowComments)
  {
    var doc: Bytes := [LBRACKET, RBRACKET, SLASH, SLASH];
    ReadsBrackets(doc, g, root);
    assert CppStyleEnd(doc, 4) == 4;
    assert ScanComment(doc, 3) == (true, 4);
    assert TextStart(doc, g.f, 4) == 4;
    ExtraTextRefusedIff(doc, g, root);
  }
}
