/**
  `OurReader` itself: the cursor, the error list and the node stack, updated step by step. Each
  method is proved to do to those fields what the functions of `Lexer` and `ReaderSpec` say, for
  every document and every feature setting. Comment collection is off.

  `nodes` holds the values the C++ pointers point to: popping a node writes it back into its parent.
 */
module OurReader {
  import opened Basics
  import opened Errors
  import opened Grammar
  import Integers
  import opened JsonStrings
  import Lexer
  import opened Values
  import Spec = ReaderSpec

  type Token = Lexer.Token
  type TokenType = Lexer.TokenType

  // How a call ends: true, false, or by an exception.
  datatype Outcome = Succeeded | Failed | Threw

  /** The fields after a call that was to read a value with `errors` and `nodes` before it. */
  ghost predicate Refines(
    r: Outcome, spec: Spec.Read, current: nat, errors: seq<Error>, nodes: seq<Value>,
    errorsBefore: seq<Error>, nodesBefore: seq<Value>)
    requires |nodesBefore| > 0
  {
    match spec
    case Success(cur, v) =>
      r == Succeeded && current == cur && errors == errorsBefore
      && nodes == nodesBefore[..|nodesBefore| - 1] + [v]
    case Failure(cur, v, e) =>
      r == Failed && current == cur && errors == errorsBefore + [e]
      && nodes == nodesBefore[..|nodesBefore| - 1] + [v]
    case Threw => r == Outcome.Threw && errors == errorsBefore
  }

  class OurReader {
    const g: Settings
    var document: Bytes
    var current: nat
    var errors: seq<Error>
    var nodes: seq<Value>

    constructor (g: Settings)
      ensures this.g == g && document == [] && current == 0 && errors == [] && nodes == []
    {
      this.g := g;
      document, current, errors, nodes := [], 0, [], [];
    }

    ghost predicate Valid()
      reads this
    {
      current <= |document|
    }

    // Scanning

    method GetNextChar() returns (c: Byte)
      requires Valid()
      modifies this`current
      ensures Valid()
      ensures if old(current) == |document| then c == 0 && current == old(current)
              else c == document[old(current)] && current == old(current) + 1
    {
      if current == |document| {
        return 0;
      }
      c := document[current];
      current := current + 1;
    }

    method SkipSpaces()
      requires Valid()
      modifies this`current
      ensures Valid() && current == Lexer.SkipSpaces(document, old(current))
    {
      while current != |document|
        invariant Valid()
        invariant Lexer.SkipSpaces(document, old(current)) == Lexer.SkipSpaces(document, current)
        decreases |document| - current
      {
        var c := document[current];
        if c == SPACE || c == TAB || c == CR || c == LF {
          current := current + 1;
        } else {
          break;
        }
      }
    }

    method Match(pattern: Bytes) returns (ok: bool)
      requires Valid()
      modifies this`current
      ensures Valid() && (ok, current) == Lexer.Match(document, old(current), pattern)
    {
      if |document| - current < |pattern| {
        return false;
      }
      var index := |pattern|;
      while index > 0
        invariant 0 <= index <= |pattern|
        invariant forall k :: index <= k < |pattern| ==> document[current + k] == pattern[k]
      {
        index := index - 1;
        if document[current + index] != pattern[index] {
          assert document[current..current + |pattern|][index] != pattern[index];
          return false;
        }
      }
      assert document[current..current + |pattern|] == pattern;
      current := current + |pattern|;
      return true;
    }

    method ReadCStyleComment() returns (ok: bool)
      requires Valid()
      modifies this`current
      ensures Valid()
      ensures var e := Lexer.CStyleEnd(document, old(current));
              if e == |document| then !ok && current == e else ok == (document[e] == SLASH) && current == e + 1
    {
      while current + 1 < |document|
        invariant Valid()
        invariant Lexer.CStyleEnd(document, old(current)) == Lexer.CStyleEnd(document, current)
        decreases |document| - current
      {
        var c := GetNextChar();
        if c == STAR && document[current] == SLASH {
          break;
        }
      }
      var last := GetNextChar();
      return last == SLASH;
    }

    method ReadCppStyleComment() returns (ok: bool)
      requires Valid()
      modifies this`current
      ensures Valid() && ok && current == Lexer.CppStyleEnd(document, old(current))
    {
      while current != |document|
        invariant Valid()
        invariant Lexer.CppStyleEnd(document, old(current)) == Lexer.CppStyleEnd(document, current)
        decreases |document| - current
      {
        var c := GetNextChar();
        if c == LF {
          break;
        }
        if c == CR {
          if current != |document| && document[current] == LF {
            var eol := GetNextChar();
          }
          break;
        }
      }
      return true;
    }

    method ReadComment() returns (ok: bool)
      requires Valid()
      modifies this`current
      ensures Valid() && (ok, current) == Lexer.ScanComment(document, old(current))
    {
      var c := GetNextChar();
      ok := false;
      if c == STAR {
        ok := ReadCStyleComment();
      } else if c == SLASH {
        ok := ReadCppStyleComment();
      }
    }

    /** `readString` and `readStringSingleQuote`. */
    method ReadString(quote: Byte) returns (ok: bool)
      requires Valid() && quote != 0 && quote != BACKSLASH
      modifies this`current
      ensures Valid() && (ok, current) == ScanString(document, old(current), quote)
    {
      var c: Byte := 0;
      while current != |document|
        invariant Valid()
        invariant c != quote
        invariant ScanString(document, old(current), quote) == ScanString(document, current, quote)
        decreases |document| - current
      {
        c := GetNextChar();
        if c == BACKSLASH {
          var escaped := GetNextChar();
        } else if c == quote {
          break;
        }
      }
      return c == quote;
    }

    // `c` is the byte at the cursor and `p` the position after it.
    ghost predicate Looking(c: Byte, p: nat)
      reads this
    {
      && Valid()
      && (if current < |document| then c == document[current] && p == current + 1 else c == 0 && p == current)
    }

    // `c = (current_ = p) < end_ ? *p++ : '\0'`
    method Step(p: nat) returns (c: Byte, next: nat)
      requires p <= |document|
      modifies this`current
      ensures current == p && Looking(c, next)
    {
      current := p;
      if current < |document| {
        return document[p], p + 1;
      }
      return 0, p;
    }

    // `while (c >= '0' && c <= '9') c = (current_ = p) < end_ ? *p++ : '\0'`
    method StepOverDigits(c0: Byte, p0: nat) returns (c: Byte, p: nat)
      requires p0 <= |document|
      requires Looking(c0, p0) || (c0 == ZERO && p0 == current)
      modifies this`current
      ensures Looking(c, p) && current == Lexer.SkipDigits(document, old(current))
    {
      c, p := c0, p0;
      while IsDigit(c)
        invariant Valid() && p <= |document|
        invariant Looking(c, p) || (c == ZERO && p == current)
        invariant Lexer.SkipDigits(document, old(current)) == Lexer.SkipDigits(document, current)
        decreases |document| - p, if Looking(c, p) then 0 else 1, |document| - current
      {
        c, p := Step(p);
      }
    }

    // "fractional part" of `readNumber`
    method ReadFraction(c0: Byte, p0: nat) returns (c: Byte, p: nat)
      requires Looking(c0, p0)
      modifies this`current
      ensures Looking(c, p) && current == Lexer.SkipFraction(document, old(current))
    {
      c, p := c0, p0;
      if c == DOT {
        c, p := Step(p);
        c, p := StepOverDigits(c, p);
      }
    }

    // "exponential part" of `readNumber`
    method ReadExponent(c0: Byte, p0: nat) returns (c: Byte, p: nat)
      requires Looking(c0, p0)
      modifies this`current
      ensures Looking(c, p) && current == Lexer.SkipExponent(document, old(current))
    {
      c, p := c0, p0;
      if c == Lexer.LETTER_E || c == Lexer.UPPER_E {
        c, p := Step(p);
        if c == PLUS || c == MINUS {
          c, p := Step(p);
        }
        c, p := StepOverDigits(c, p);
      }
    }

    method ReadNumber(checkInf: bool) returns (ok: bool)
      requires Valid()
      modifies this`current
      ensures Valid() && (ok, current) == Lexer.ScanNumber(document, old(current), checkInf)
    {
      var p := current;
      if checkInf && p != |document| && document[p] == Lexer.UPPER_I {
        current := p + 1;
        return false;
      }
      var c := ZERO;
      c, p := StepOverDigits(c, p);
      c, p := ReadFraction(c, p);
      c, p := ReadExponent(c, p);
      return true;
    }

    // The token at `start` has been scanned up to the cursor: `typ` is its type if its text is `good`.
    ghost predicate Scanned(start: nat, typ: TokenType, good: bool)
      reads this
    {
      && Valid() && start < |document|
      && var (expected, scan) := Lexer.Classify(document, g.f, start);
         scan.0 == good && scan.1 == current && (good ==> typ == expected)
    }

    // The cases of the `switch` in `readToken` that begin a number or a negative infinity.
    method ReadNumberToken(c: Byte, ghost start: nat) returns (typ: TokenType, good: bool)
      requires Valid() && start < |document| && current == start + 1 && c == document[start]
      requires IsDigit(c) || c == MINUS
      modifies this`current
      ensures Scanned(start, typ, good)
    {
      hide Lexer.SkipExponent, Lexer.Match, Lexer.ScanComment, ScanString;
      typ, good := Lexer.NumberToken, true;
      if IsDigit(c) {
        var number := ReadNumber(false);
      } else {
        var number := ReadNumber(true);
        if !number {
          typ := Lexer.NegInfToken;
          good := g.f.allowSpecialFloats;
          if good {
            good := Match(Lexer.NFINITY);
          }
        }
      }
    }

    // The cases that begin a word.
    method ReadWord(c: Byte, ghost start: nat) returns (typ: TokenType, good: bool)
      requires Valid() && start < |document| && current == start + 1 && c == document[start]
      requires c == LETTER_T || c == LETTER_F || c == LETTER_N || c == Lexer.UPPER_N || c == Lexer.UPPER_I
      modifies this`current
      ensures Scanned(start, typ, good)
    {
      hide Lexer.ScanNumber, Lexer.Match, Lexer.ScanComment, ScanString;
      typ, good := Lexer.ErrorToken, false;
      if c == LETTER_T {
        typ := Lexer.TrueToken;
        good := Match(TRUE_TEXT[1..]);
      } else if c == LETTER_F {
        typ := Lexer.FalseToken;
        good := Match(FALSE_TEXT[1..]);
      } else if c == LETTER_N {
        typ := Lexer.NullToken;
        good := Match(NULL_TEXT[1..]);
      } else if g.f.allowSpecialFloats {
        if c == Lexer.UPPER_N {
          typ := Lexer.NaNToken;
          good := Match(Lexer.AN);
        } else {
          typ := Lexer.PosInfToken;
          good := Match(Lexer.NFINITY);
        }
      }
    }

    // The cases that begin a string or a comment.
    method ReadQuotedOrComment(c: Byte, ghost start: nat) returns (typ: TokenType, good: bool)
      requires Valid() && start < |document| && current == start + 1 && c == document[start]
      requires c == QUOTE || c == APOSTROPHE || c == SLASH
      modifies this`current
      ensures Scanned(start, typ, good)
    {
      hide Lexer.ScanNumber, Lexer.Match, Lexer.ScanComment, ScanString;
      if c == QUOTE {
        typ := Lexer.StringToken;
        good := ReadString(QUOTE);
      } else if c == APOSTROPHE && g.f.allowSingleQuotes {
        typ := Lexer.StringToken;
        good := ReadString(APOSTROPHE);
      } else {
        typ := Lexer.CommentToken;
        good := ReadComment();
      }
    }

    // The cases that are a single byte, the end of the document, and those that are no token.
    method PunctuationToken(c: Byte, ghost start: nat) returns (typ: TokenType, good: bool)
      requires Valid() && start <= |document|
      requires if start < |document| then current == start + 1 && c == document[start] else current == start && c == 0
      requires !IsDigit(c) && c !in [MINUS, QUOTE, APOSTROPHE, SLASH]
      requires c !in [LETTER_T, LETTER_F, LETTER_N, Lexer.UPPER_N, Lexer.UPPER_I]
      ensures if start < |document| then Scanned(start, typ, good) else typ == Lexer.EndOfStream && good
    {
      hide Lexer.ScanNumber, Lexer.Match, Lexer.ScanComment, ScanString;
      typ, good := Lexer.ErrorToken, true;
      if c == LBRACE {
        typ := Lexer.ObjectBegin;
      } else if c == RBRACE {
        typ := Lexer.ObjectEnd;
      } else if c == LBRACKET {
        typ := Lexer.ArrayBegin;
      } else if c == RBRACKET {
        typ := Lexer.ArrayEnd;
      } else if c == COMMA {
        typ := Lexer.ArraySeparator;
      } else if c == COLON {
        typ := Lexer.MemberSeparator;
      } else if c == 0 {
        typ := Lexer.EndOfStream;
      } else {
        good := false;
      }
    }

    method ReadToken() returns (ok: bool, token: Token)
      requires Valid()
      modifies this`current
      ensures Valid() && ok
      ensures token == Lexer.ReadToken(document, g.f, old(current)) && current == token.end
    {
      hide Lexer.Classify;
      SkipSpaces();
      var start := current;
      var c := GetNextChar();
      var typ, good;
      if IsDigit(c) || c == MINUS {
        typ, good := ReadNumberToken(c, start);
      } else if c == QUOTE || c == APOSTROPHE || c == SLASH {
        typ, good := ReadQuotedOrComment(c, start);
      } else if c == LETTER_T || c == LETTER_F || c == LETTER_N || c == Lexer.UPPER_N || c == Lexer.UPPER_I {
        typ, good := ReadWord(c, start);
      } else {
        typ, good := PunctuationToken(c, start);
      }
      if !good {
        typ := Lexer.ErrorToken;
      }
      return true, Lexer.Token(typ, start, current);
    }

    method SkipCommentTokens() returns (token: Token)
      requires Valid()
      modifies this`current
      ensures Valid() && token == Lexer.NextToken(document, g.f, old(current)) && current == token.end
    {
      var ok: bool;
      if g.f.allowComments {
        ok, token := ReadToken();
        while token.typ == Lexer.CommentToken
          invariant Valid() && current == token.end
          invariant token.typ != Lexer.CommentToken ==> token == Lexer.SkipComments(document, g.f, old(current))
          invariant token.typ == Lexer.CommentToken ==>
                      Lexer.SkipComments(document, g.f, old(current)) == Lexer.SkipComments(document, g.f, current)
          decreases |document| - current, if token.typ == Lexer.CommentToken then 1 else 0
        {
          ok, token := ReadToken();
        }
      } else {
        ok, token := ReadToken();
      }
    }

    // `while (token.type_ == tokenComment && ok) ok = readToken(token)`, after a first `readToken`
    method PassComments(first: Token) returns (token: Token)
      requires Valid() && current == first.end
      modifies this`current
      ensures Valid() && current == token.end
      ensures token == if first.typ == Lexer.CommentToken then Lexer.SkipComments(document, g.f, old(current)) else first
    {
      token := first;
      var ok := true;
      while token.typ == Lexer.CommentToken && ok
        invariant Valid() && current == token.end && ok
        invariant first.typ != Lexer.CommentToken ==> token == first && current == old(current)
        invariant first.typ == Lexer.CommentToken && token.typ != Lexer.CommentToken ==>
                    token == Lexer.SkipComments(document, g.f, old(current))
        invariant first.typ == Lexer.CommentToken && token.typ == Lexer.CommentToken ==>
                    Lexer.SkipComments(document, g.f, old(current)) == Lexer.SkipComments(document, g.f, current)
        decreases |document| - current, if token.typ == Lexer.CommentToken then 1 else 0
      {
        ok, token := ReadToken();
      }
    }

    // Errors and recovery

    method AddError(message: Message, token: Token, extra: Option<nat>) returns (ok: bool)
      modifies this`errors
      ensures !ok && errors == old(errors) + [Error(token.start, token.end, message, extra)]
    {
      errors := errors + [Error(token.start, token.end, message, extra)];
      return false;
    }

    method RecoverFromError(skipUntil: TokenType) returns (ok: bool)
      requires Valid()
      modifies this`current, this`errors
      ensures Valid() && !ok && errors == old(errors)
      ensures current == Lexer.Recover(document, g.f, old(current), skipUntil)
    {
      var errorCount := |errors|;
      var skip := Lexer.Token(Lexer.ErrorToken, current, current);
      while true
        invariant Valid() && errors == old(errors)
        invariant Lexer.Recover(document, g.f, old(current), skipUntil) == Lexer.Recover(document, g.f, current, skipUntil)
        decreases |document| - current
      {
        var ok: bool;
        ok, skip := ReadToken();  // always true, so there is nothing to discard here
        if skip.typ == skipUntil || skip.typ == Lexer.EndOfStream {
          break;
        }
      }
      errors := errors[..errorCount];
      return false;
    }

    method AddErrorAndRecover(message: Message, token: Token, skipUntil: TokenType) returns (ok: bool)
      requires Valid()
      modifies this`current, this`errors
      ensures Valid() && !ok && errors == old(errors) + [Spec.TokenError(token, message)]
      ensures current == Lexer.Recover(document, g.f, old(current), skipUntil)
    {
      var added := AddError(message, token, None);
      ok := RecoverFromError(skipUntil);
    }

    // Decoding tokens

    predicate IsToken(token: Token)
      reads this
    {
      && token.start <= token.end <= |document|
      && (token.typ == Lexer.StringToken ==> token.start + 2 <= token.end)
      && (token.typ == Lexer.NumberToken ==> token.start < token.end)
    }

    method DecodeDouble(token: Token) returns (r: Option<Payload>)
      requires IsToken(token)
      modifies this`errors
      ensures var d := g.scan(Spec.TokenText(document, token));
              if d.Some? then r == Some(Real(d.value)) && errors == old(errors)
              else r == None && errors == old(errors) + [Spec.NumberError(document, token)]
    {
      var text := document[token.start..token.end];
      var d := g.scan(text);
      if d.None? {
        var added := AddError(NotANumber(text), token, None);
        return None;
      }
      return Some(Real(d.value));
    }

    method DecodeNumber(token: Token) returns (r: Option<Payload>)
      requires IsToken(token) && token.start < token.end
      modifies this`errors
      ensures r == Spec.DecodeNumber(Spec.TokenText(document, token), g)
      ensures errors == if r.Some? then old(errors) else old(errors) + [Spec.NumberError(document, token)]
    {
      r := Integers.DecodeInteger(document[token.start..token.end]);
      if r.None? {
        r := DecodeDouble(token);
      }
    }

    method DecodeStringToken(token: Token) returns (r: Option<Bytes>)
      requires IsToken(token) && token.typ == Lexer.StringToken
      modifies this`errors
      ensures var d := DecodeFrom(Spec.TokenBody(document, token), 0);
              if d.Good? then r == Some(d.s) && errors == old(errors)
              else r == None && errors == old(errors) + [Spec.StringError(token, d)]
    {
      var d := DecodeString(document[token.start + 1..token.end - 1]);
      if d.Bad? {
        var added := AddError(d.message, token, Some(token.start + 1 + d.at));
        return None;
      }
      return Some(d.s);
    }

    /** `asString()` of the number that is a key. */
    method NumberAsString(p: Payload) returns (name: Bytes)
      requires p.Int? || p.UInt? || p.Real?
      ensures name == Spec.NumberName(p, g)
    {
      match p
      case Int(i) => name := Integers.ValueToStringSigned(i);
      case UInt(u) => name := Integers.ValueToStringUnsigned(u);
      case Real(d) => name := g.show(d);
    }

    // The current value

    // The stack below the value being read, with `v` on top.
    ghost predicate OnTop(v: Value, below: seq<Value>)
      reads this
    {
      nodes == below + [v]
    }

    method SetCurrentValue(v: Value)
      requires nodes != []
      modifies this`nodes
      ensures nodes == old(nodes)[..|old(nodes)| - 1] + [v]
    {
      nodes := nodes[..|nodes| - 1] + [v];
    }

    // The cases of the `switch` in `readValue` whose token says it all.
    function LiteralMeaning(typ: TokenType): Option<Payload> {
      match typ
      case TrueToken => Some(Boolean(true))
      case FalseToken => Some(Boolean(false))
      case NullToken => Some(Null)
      case NaNToken => Some(Real(NaN))
      case PosInfToken => Some(Real(PosInf))
      case NegInfToken => Some(Real(NegInf))
      case _ => None
    }

    /** A value that is a single token: the scalar cases of the `switch` in `readValue`. */
    method ReadScalar(token: Token) returns (r: Outcome)
      requires Valid() && nodes != [] && IsToken(token) && current == token.end
      modifies this`current, this`errors, this`nodes
      ensures Valid()
      ensures Refines(r, Spec.ReadScalar(document, g, token, old(nodes)[|old(nodes)| - 1]), current, errors, nodes,
                      old(errors), old(nodes))
    {
      hide Lexer.Recover, Spec.DecodeNumber, DecodeFrom, Spec.TokenBody, Spec.TokenText;
      var v := nodes[|nodes| - 1];
      var payload: Option<Payload> := None;
      if token.typ == Lexer.NumberToken {
        payload := DecodeNumber(token);
        if payload.None? {
          SetCurrentValue(v);
          return Failed;
        }
      } else if token.typ == Lexer.StringToken {
        var decoded := DecodeStringToken(token);
        if decoded.None? {
          SetCurrentValue(v);
          return Failed;
        }
        payload := Some(String(decoded.value));
      } else if LiteralMeaning(token.typ).Some? {
        payload := LiteralMeaning(token.typ);
      } else if g.f.allowDroppedNullPlaceholders && Spec.IsUnreadable(token) {
        current := current - 1;
        SetCurrentValue(Value(Null, current - 1, current));
        return Succeeded;
      } else {
        SetCurrentValue(Value(v.payload, token.start, token.end));
        var added := AddError(ValueExpected, token, None);
        return Failed;
      }
      SetCurrentValue(Value(payload.value, token.start, token.end));
      return Succeeded;
    }

    // `currentValue().setOffsetLimit(current_ - begin_)`, which an exception skips
    method SetOffsetLimit(r: Outcome)
      requires r != Outcome.Threw ==> nodes != []
      modifies this`nodes
      ensures if r == Outcome.Threw then nodes == old(nodes)
              else var n := |old(nodes)| - 1; var v := old(nodes)[n];
                   nodes == old(nodes)[..n] + [Value(v.payload, v.start, current)]
    {
      if r != Outcome.Threw {
        var v := nodes[|nodes| - 1];
        SetCurrentValue(Value(v.payload, v.start, current));
      }
    }

    method ReadValue() returns (r: Outcome)
      requires Valid() && nodes != []
      modifies this`current, this`errors, this`nodes
      ensures Valid()
      ensures Refines(r, Spec.ReadValue(document, g, |old(nodes)|, old(current), old(nodes)[|old(nodes)| - 1]),
                      current, errors, nodes, old(errors), old(nodes))
      decreases |document| - current, 0
    {
      hide Lexer.NextToken, Spec.ReadScalar, Spec.ReadMembers, Spec.ReadArray;
      if |nodes| > g.f.stackLimit {
        return Outcome.Threw;
      }
      var token := SkipCommentTokens();
      if token.typ == Lexer.ObjectBegin {
        r := ReadObject(token);
        SetOffsetLimit(r);
      } else if token.typ == Lexer.ArrayBegin {
        r := ReadArray(token);
        SetOffsetLimit(r);
      } else {
        r := ReadScalar(token);
      }
    }

    /** The name a member's first token stands for. */
    method ReadName(token: Token) returns (r: Spec.Name)
      requires IsToken(token)
      modifies this`errors
      ensures r == Spec.MemberName(document, g, token)
      ensures errors == if r.BadName? then old(errors) + [r.e] else old(errors)
    {
      if token.typ == Lexer.StringToken {
        var decoded := DecodeStringToken(token);
        if decoded.None? {
          return Spec.BadName(errors[|errors| - 1]);
        }
        return Spec.Named(decoded.value);
      } else if token.typ == Lexer.NumberToken && g.f.allowNumericKeys {
        var number := DecodeNumber(token);
        if number.None? {
          return Spec.BadName(errors[|errors| - 1]);
        }
        var name := NumberAsString(number.value);
        return Spec.Named(name);
      }
      return Spec.NoName;
    }

    method ReadObject(token: Token) returns (r: Outcome)
      requires Valid() && nodes != [] && IsToken(token) && current == token.end
      modifies this`current, this`errors, this`nodes
      ensures Valid()
      ensures var v := old(nodes)[|old(nodes)| - 1];
              Refines(r, Spec.ReadMembers(document, g, |old(nodes)|, old(current), [], map[], Value(v.payload, token.start, v.limit)),
                      current, errors, nodes, old(errors), old(nodes))
      decreases |document| - current, 4
    {
      hide Spec.ReadMembers;
      var below, top := nodes[..|nodes| - 1], nodes[|nodes| - 1];
      ghost var v := Value(top.payload, token.start, top.limit);
      SetCurrentValue(Value(Object(map[]), token.start, top.limit));
      r := ReadMembers(v, below);
    }

    /** The loop of `readObject`. */
    method ReadMembers(ghost v: Value, ghost below: seq<Value>) returns (r: Outcome)
      requires Valid() && OnTop(Spec.WithMembers(v, map[]), below)
      modifies this`current, this`errors, this`nodes
      ensures Valid()
      ensures Refines(r, Spec.ReadMembers(document, g, |below| + 1, old(current), [], map[], v),
                      current, errors, nodes, old(errors), old(nodes))
      decreases |document| - current, 3
    {
      hide Lexer.ReadToken, Spec.ReadMember, Spec.MemberName;
      var name: Bytes := [];
      var members: map<Bytes, Value> := map[];
      while true
        invariant Valid() && errors == old(errors)
        invariant OnTop(Spec.WithMembers(v, members), below)
        invariant Spec.ReadMembers(document, g, |below| + 1, old(current), [], map[], v)
                  == Spec.ReadMembers(document, g, |below| + 1, current, name, members, v)
        decreases |document| - current
      {
        var ok, tokenName := ReadToken();
        tokenName := PassComments(tokenName);
        if tokenName.typ == Lexer.ObjectEnd && name == [] {
          return Succeeded;
        }
        var key := ReadName(tokenName);
        if key.NoName? {
          ok := AddErrorAndRecover(MissingBraceOrName, tokenName, Lexer.ObjectEnd);
          return Failed;
        } else if key.BadName? {
          ok := RecoverFromError(Lexer.ObjectEnd);
          return Failed;
        }
        name := key.name;
        var done: bool;
        done, r, members := ReadMember(tokenName, name, members, v, below);
        if done {
          return r;
        }
      }
    }

    /** One turn of the loop of `readObject`, from the colon on: `done` when the turn ends the loop. */
    method ReadMember(tokenName: Token, name: Bytes, members: map<Bytes, Value>, ghost v: Value, ghost below: seq<Value>)
      returns (done: bool, r: Outcome, rest: map<Bytes, Value>)
      requires Valid() && IsToken(tokenName) && tokenName.start < tokenName.end == current
      requires OnTop(Spec.WithMembers(v, members), below)
      modifies this`current, this`errors, this`nodes
      ensures Valid()
      ensures done ==>
                Refines(r, Spec.ReadMember(document, g, |below| + 1, tokenName, name, members, v),
                        current, errors, nodes, old(errors), old(nodes))
      ensures !done ==>
                && errors == old(errors) && OnTop(Spec.WithMembers(v, rest), below)
                && old(current) < current
                && Spec.ReadMember(document, g, |below| + 1, tokenName, name, members, v)
                   == Spec.ReadMembers(document, g, |below| + 1, current, name, rest, v)
      decreases |document| - current, 1
    {
      hide Lexer.ReadToken, Lexer.Recover, Spec.ReadValue, Spec.ReadMembers;
      done, r, rest := true, Failed, members;
      var ok, colon := ReadToken();
      if !ok || colon.typ != Lexer.MemberSeparator {
        ok := AddErrorAndRecover(MissingColon, colon, Lexer.ObjectEnd);
        return;
      }
      if |name| >= KEY_LIMIT {
        r := Outcome.Threw;
        return;
      }
      if g.f.rejectDupKeys && name in members {
        ok := AddErrorAndRecover(DuplicateKey(name), tokenName, Lexer.ObjectEnd);
        return;
      }
      r := ReadMemberValue(name, members, v, below);
      if r == Outcome.Threw {
        return;
      }
      rest := nodes[|nodes| - 1].payload.members;
      if r == Failed {
        ok := RecoverFromError(Lexer.ObjectEnd);
        return;
      }
      var comma: Token;
      ok, comma := ReadToken();
      if !ok || (comma.typ != Lexer.ObjectEnd && comma.typ != Lexer.ArraySeparator && comma.typ != Lexer.CommentToken) {
        ok := AddErrorAndRecover(MissingCommaOrBrace, comma, Lexer.ObjectEnd);
        r := Failed;
        return;
      }
      comma := PassComments(comma);
      if comma.typ == Lexer.ObjectEnd {
        return;
      }
      done := false;
    }

    /** `Value& value = currentValue()[name]; nodes_.push(&value); readValue(); nodes_.pop();` */
    method ReadMemberValue(name: Bytes, members: map<Bytes, Value>, ghost v: Value, ghost below: seq<Value>)
      returns (r: Outcome)
      requires Valid() && OnTop(Spec.WithMembers(v, members), below)
      modifies this`current, this`errors, this`nodes
      ensures Valid()
      ensures match Spec.ReadValue(document, g, |below| + 2, old(current), if name in members then members[name] else NULL_VALUE)
              case Threw => r == Outcome.Threw && errors == old(errors)
              case Success(cur, w) =>
                r == Succeeded && current == cur && errors == old(errors)
                && OnTop(Spec.WithMembers(v, members[name := w]), below)
              case Failure(cur, w, e) =>
                r == Failed && current == cur && errors == old(errors) + [e]
                && OnTop(Spec.WithMembers(v, members[name := w]), below)
      decreases |document| - current, 1
    {
      var top := nodes[|nodes| - 1];
      var child := if name in members then members[name] else NULL_VALUE;
      SetCurrentValue(Value(Object(members[name := child]), top.start, top.limit));
      nodes := nodes + [child];
      ghost var pushed := nodes;
      r := ReadValue();
      if r == Outcome.Threw {
        return;
      }
      assert nodes[..|nodes| - 1] == pushed[..|pushed| - 1] == below + [Value(Object(members[name := child]), top.start, top.limit)];
      var w := nodes[|nodes| - 1];
      nodes := nodes[..|nodes| - 1];
      SetCurrentValue(Value(Object(members[name := w]), top.start, top.limit));
    }

    method ReadArray(token: Token) returns (r: Outcome)
      requires Valid() && nodes != [] && IsToken(token) && current == token.end
      modifies this`current, this`errors, this`nodes
      ensures Valid()
      ensures var v := old(nodes)[|old(nodes)| - 1];
              Refines(r, Spec.ReadArray(document, g, |old(nodes)|, old(current), Value(v.payload, token.start, v.limit)),
                      current, errors, nodes, old(errors), old(nodes))
      decreases |document| - current, 4
    {
      hide Spec.ReadElements;
      var below, top := nodes[..|nodes| - 1], nodes[|nodes| - 1];
      ghost var v := Value(top.payload, token.start, top.limit);
      SetCurrentValue(Value(Array(map[]), token.start, top.limit));
      SkipSpaces();
      if current != |document| && document[current] == RBRACKET {
        var ok, endArray := ReadToken();
        return Succeeded;
      }
      r := ReadElements(v, below);
    }

    /** The loop of `readArray`. */
    method ReadElements(ghost v: Value, ghost below: seq<Value>) returns (r: Outcome)
      requires Valid() && OnTop(Spec.WithElems(v, map[]), below)
      modifies this`current, this`errors, this`nodes
      ensures Valid()
      ensures Refines(r, Spec.ReadElements(document, g, |below| + 1, old(current), 0, map[], v),
                      current, errors, nodes, old(errors), old(nodes))
      decreases |document| - current, 3
    {
      hide Lexer.ReadToken, Spec.ReadValue;
      var elems: map<nat, Value> := map[];
      var index := 0;
      while true
        invariant Valid() && errors == old(errors) && old(current) <= current
        invariant OnTop(Spec.WithElems(v, elems), below)
        invariant Spec.ReadElements(document, g, |below| + 1, old(current), 0, map[], v)
                  == Spec.ReadElements(document, g, |below| + 1, current, index, elems, v)
        decreases |document| - current
      {
        r := ReadElementValue(index, elems, v, below);
        if r == Outcome.Threw {
          return;
        }
        elems := nodes[|nodes| - 1].payload.elems;
        var ok: bool;
        if r == Failed {
          ok := RecoverFromError(Lexer.ArrayEnd);
          return;
        }
        index := index + 1;
        var currentToken: Token;
        ok, currentToken := ReadToken();
        currentToken := PassComments(currentToken);
        var badTokenType := currentToken.typ != Lexer.ArraySeparator && currentToken.typ != Lexer.ArrayEnd;
        if !ok || badTokenType {
          ok := AddErrorAndRecover(MissingCommaOrBracket, currentToken, Lexer.ArrayEnd);
          return Failed;
        }
        if currentToken.typ == Lexer.ArrayEnd {
          return Succeeded;
        }
      }
    }

    /** `Value& value = currentValue()[index]; nodes_.push(&value); readValue(); nodes_.pop();` */
    method ReadElementValue(index: nat, elems: map<nat, Value>, ghost v: Value, ghost below: seq<Value>)
      returns (r: Outcome)
      requires Valid() && OnTop(Spec.WithElems(v, elems), below)
      modifies this`current, this`errors, this`nodes
      ensures Valid()
      ensures match Spec.ReadValue(document, g, |below| + 2, old(current), ElementAt(elems, index))
              case Threw => r == Outcome.Threw && errors == old(errors)
              case Success(cur, w) =>
                r == Succeeded && current == cur && errors == old(errors)
                && OnTop(Spec.WithElems(v, elems[index := w]), below)
              case Failure(cur, w, e) =>
                r == Failed && current == cur && errors == old(errors) + [e]
                && OnTop(Spec.WithElems(v, elems[index := w]), below)
      decreases |document| - current, 1
    {
      var top := nodes[|nodes| - 1];
      var child := ElementAt(elems, index);
      SetCurrentValue(Value(Array(elems[index := child]), top.start, top.limit));
      nodes := nodes + [child];
      ghost var pushed := nodes;
      r := ReadValue();
      if r == Outcome.Threw {
        return;
      }
      assert nodes[..|nodes| - 1] == pushed[..|pushed| - 1] == below + [Value(Array(elems[index := child]), top.start, top.limit)];
      var w := nodes[|nodes| - 1];
      nodes := nodes[..|nodes| - 1];
      SetCurrentValue(Value(Array(elems[index := w]), top.start, top.limit));
    }

    /** `parse`: the document, and the root value it is read into. */
    method Parse(doc: Bytes, root: Value) returns (r: Outcome, v: Value)
      modifies this
      ensures document == doc && Valid()
      ensures match Spec.Parse(doc, g, root)
              case Thrown => r == Outcome.Threw
              case Done(ok, es, w) => r == (if ok then Succeeded else Failed) && errors == es && v == w
      ensures r != Outcome.Threw ==> (r == Succeeded <==> errors == []) && nodes == [v]
      ensures r == Failed && !g.f.failIfExtra && !g.f.strictRoot ==> |errors| == 1
    {
      hide Spec.ReadValue, Lexer.NextToken;
      Spec.ErrorAccounting(doc, g, root);
      document, current, errors, nodes := doc, 0, [], [root];
      r := ReadValue();
      v := root;
      if r == Outcome.Threw {
        return;
      }
      v := nodes[0];
      var token := SkipCommentTokens();
      if g.f.failIfExtra {
        if (g.f.strictRoot || token.typ != Lexer.ErrorToken) && token.typ != Lexer.EndOfStream {
          var added := AddError(ExtraAfterValue, token, None);
          return Failed, v;
        }
      }
      if g.f.strictRoot {
        if !v.payload.Array? && !v.payload.Object? {
          var added := AddError(RootNotContainer, Lexer.Token(Lexer.ErrorToken, 0, |document|), None);
          return Failed, v;
        }
      }
    }
  }
}
