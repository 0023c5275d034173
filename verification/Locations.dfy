/**
  Lines and columns of error messages. The scan that counts them treats CR, LF and CRLF as
  `normalizeEOL` does, so a location can be read off the normalised text before it.
 */
module Locations {
  import opened Basics

  /** `normalizeEOL`: CRLF and a lone CR become LF. */
  function Normalize(s: Bytes): Bytes {
    if s == [] then []
    else if s[0] == CR then [LF] + Normalize(if |s| > 1 && s[1] == LF then s[2..] else s[1..])
    else [s[0]] + Normalize(s[1..])
  }

  method NormalizeEOL(doc: Bytes, begin: nat, end: nat) returns (normalized: Bytes)
    requires begin <= end <= |doc|
    ensures normalized == Normalize(doc[begin..end])
  {
    normalized := [];
    var current := begin;
    while current != end
      invariant begin <= current <= end
      invariant normalized + Normalize(doc[current..end]) == Normalize(doc[begin..end])
      decreases end - current
    {
      hide Normalize;
      NormalizeFront(doc, current, end, normalized);
      var c := doc[current];
      current := current + 1;
      if c == CR {
        if current != end && doc[current] == LF {
          current := current + 1;
        }
        normalized := normalized + [LF];
      } else {
        normalized := normalized + [c];
      }
    }
  }

  // One turn of that loop on the text.
  lemma NormalizeFront(doc: Bytes, i: nat, end: nat, written: Bytes)
    requires i < end <= |doc|
    ensures var next := if doc[i] == CR && i + 1 < end && doc[i + 1] == LF then i + 2 else i + 1;
            written + Normalize(doc[i..end]) == written + [if doc[i] == CR then LF else doc[i]] + Normalize(doc[next..end])
  {
    var rest := doc[i..end];
    assert rest[1..] == doc[i + 1..end];
    assert |rest| > 1 ==> rest[2..] == doc[i + 2..end];
  }

  predicate EndsWithCR(s: Bytes) {
    s != [] && s[|s| - 1] == CR
  }

  /** Normalising one more byte: only the LF of a CRLF adds nothing. */
  lemma {:induction false} NormalizeNext(s: Bytes, c: Byte)
    ensures Normalize(s + [c]) ==
            if c == LF && EndsWithCR(s) then Normalize(s) else Normalize(s) + [if c == CR then LF else c]
    decreases |s|
  {
    var t := s + [c];
    if s != [] {
      if s[0] == CR && |s| > 1 && s[1] == LF {
        assert t[2..] == s[2..] + [c];
        NormalizeNext(s[2..], c);
      } else if |s| > 1 {
        assert t[1..] == s[1..] + [c];
        NormalizeNext(s[1..], c);
      } else {
        assert t[1..] == [c] && (c == LF ==> t[2..] == []);
      }
    }
  }

  function LineFeeds(s: Bytes): nat {
    if s == [] then 0 else LineFeeds(s[..|s| - 1]) + if s[|s| - 1] == LF then 1 else 0
  }

  /** The number of bytes behind the last line feed. */
  function LastLine(s: Bytes): (n: nat)
    ensures n <= |s|
  {
    if s == [] || s[|s| - 1] == LF then 0 else 1 + LastLine(s[..|s| - 1])
  }

  lemma LineNext(s: Bytes, c: Byte)
    ensures LineFeeds(s + [c]) == LineFeeds(s) + if c == LF then 1 else 0
    ensures LastLine(s + [c]) == if c == LF then 0 else LastLine(s) + 1
  {
    assert (s + [c])[..|s|] == s;
  }

  /** A location between the two bytes of a CRLF. */
  predicate SplitsCRLF(doc: Bytes, location: nat) {
    0 < location < |doc| && doc[location - 1] == CR && doc[location] == LF
  }

  // Where the scan of the first `current` bytes stands.
  ghost predicate Scanned(doc: Bytes, current: nat, line: nat, lastLineStart: nat) {
    && lastLineStart <= current <= |doc| && !SplitsCRLF(doc, current)
    && var before := Normalize(doc[..current]);
       line == LineFeeds(before) && current - lastLineStart == LastLine(before)
  }

  lemma ScanNext(doc: Bytes, current: nat)
    requires current < |doc|
    ensures var before, after := Normalize(doc[..current]), Normalize(doc[..current + 1]);
            if SplitsCRLF(doc, current) then after == before
            else
              && LineFeeds(after) == LineFeeds(before) + (if doc[current] == CR || doc[current] == LF then 1 else 0)
              && LastLine(after) == if doc[current] == CR || doc[current] == LF then 0 else LastLine(before) + 1
  {
    hide Normalize, LineFeeds, LastLine;
    var c := doc[current];
    assert doc[..current + 1] == doc[..current] + [c];
    NormalizeNext(doc[..current], c);
    LineNext(Normalize(doc[..current]), if c == CR then LF else c);
  }

  /**
    `getLocationLineAndColumn`. Lines and columns count from 1 in the normalised text before the
    location; the one exception is a location inside a CRLF, whose column is 0.
   */
  method GetLocationLineAndColumn(doc: Bytes, location: nat) returns (line: nat, column: int)
    requires location <= |doc|
    ensures line == 1 + LineFeeds(Normalize(doc[..location]))
    ensures column == if SplitsCRLF(doc, location) then 0 else 1 + LastLine(Normalize(doc[..location]))
  {
    hide Normalize, LineFeeds, LastLine;
    var current, lastLineStart := 0, 0;
    line := 0;
    ScanStart(doc);
    while current < location && current != |doc|
      invariant Scanned(doc, current, line, lastLineStart)
      invariant current <= location || (current == location + 1 && SplitsCRLF(doc, location) && lastLineStart == current)
    {
      var c := doc[current];
      ScanNext(doc, current);
      current := current + 1;
      if c == CR {
        // At the end of the document the source looks at the byte behind it, a terminator.
        if current < |doc| && doc[current] == LF {
          ScanNext(doc, current);
          current := current + 1;
        }
        lastLineStart := current;
        line := line + 1;
      } else if c == LF {
        lastLineStart := current;
        line := line + 1;
      }
    }
    if current == location + 1 {
      ScanNext(doc, location);
    }
    column := location - lastLineStart + 1;
    line := line + 1;
  }

  lemma ScanStart(doc: Bytes)
    ensures Scanned(doc, 0, 0, 0)
  {
    assert doc[..0] == [];
  }

  /** Text without carriage returns is left alone, and normalising twice is normalising once. */
  lemma {:induction false} NormalizeMeaning(s: Bytes)
    ensures CR !in Normalize(s) && Normalize(Normalize(s)) == Normalize(s)
    ensures CR !in s ==> Normalize(s) == s
    decreases |s|
  {
    if s != [] {
      var rest := if s[0] == CR && |s| > 1 && s[1] == LF then s[2..] else s[1..];
      NormalizeMeaning(rest);
      assert Normalize(s)[1..] == Normalize(rest);
      assert s[0] != CR ==> s == [s[0]] + rest;
    }
  }
}
