/**
  What writing and reading makes of a byte string that is not UTF-8, and of a set of such keys.
  Repairing twice always yields valid UTF-8, so no set of keys with an ill-formed key among them can
  be its own set of repairs.
 */
module Repairs {
  import opened Basics
  import opened JsonStrings
  import opened Utf8

  predicate IsScalarValue(cp: nat) {
    cp <= 0x10FFFF && !(0xD800 <= cp <= 0xDFFF)
  }

  /** The encoding of a scalar value is a well-formed character, whatever follows it. */
  lemma EncodedWellFormed(cp: nat, rest: Bytes)
    requires IsScalarValue(cp)
    ensures var x := CodePointToUtf8(cp); WellFormedLength(x + rest) == |x| > 0
  {
    if 0x80 <= cp <= 0x7FF {
      assert cp / 0x40 % 0x20 == cp / 0x40;
    } else if 0x800 <= cp <= 0xFFFF {
      EncodedThree(cp, rest);
    } else if cp > 0xFFFF {
      EncodedFour(cp, rest);
    }
  }

  lemma EncodedThree(cp: nat, rest: Bytes)
    requires 0x800 <= cp <= 0xFFFF && IsScalarValue(cp)
    ensures WellFormedLength(CodePointToUtf8(cp) + rest) == |CodePointToUtf8(cp)| == 3
  {
    var z, y := cp / 0x1000, cp / 0x40 % 0x40;
    assert cp / 0x40 == z * 0x40 + y && z % 0x10 == z;
    var s := CodePointToUtf8(cp) + rest;
    assert s[0] == 0xE0 + z && s[1] == 0x80 + y;
  }

  lemma EncodedFour(cp: nat, rest: Bytes)
    requires 0xFFFF < cp <= 0x10FFFF
    ensures WellFormedLength(CodePointToUtf8(cp) + rest) == |CodePointToUtf8(cp)| == 4
  {
    var u, z := cp / 0x4_0000, cp / 0x1000 % 0x40;
    assert cp / 0x1000 == u * 0x40 + z && u % 8 == u;
    var s := CodePointToUtf8(cp) + rest;
    assert s[0] == 0xF0 + u && s[1] == 0x80 + z;
  }

  lemma ValidPrepend(cp: nat, rest: Bytes)
    requires IsScalarValue(cp) && ValidUtf8(rest)
    ensures ValidUtf8(CodePointToUtf8(cp) + rest)
  {
    hide CodePointToUtf8, WellFormedLength;
    var x := CodePointToUtf8(cp);
    EncodedWellFormed(cp, rest);
    assert (x + rest)[|x|..] == rest;
  }

  /** A well-formed character at the front survives repair. */
  lemma RepairedPrepend(cp: nat, rest: Bytes)
    requires IsScalarValue(cp)
    ensures Repaired(CodePointToUtf8(cp) + rest) == CodePointToUtf8(cp) + Repaired(rest)
  {
    hide CodePointToUtf8, WellFormedLength, Utf8ToCodepoint;
    var x := CodePointToUtf8(cp);
    EncodedWellFormed(cp, rest);
    WellFormedHead(x + rest);
    assert (x + rest)[|x|..] == rest && (x + rest)[..|x|] == x;
  }

  /** An encoded surrogate at the front is replaced. */
  lemma SurrogatePrepend(cp: nat, rest: Bytes)
    requires 0xD800 <= cp <= 0xDFFF
    ensures Repaired(CodePointToUtf8(cp) + rest) == CodePointToUtf8(REPLACEMENT) + Repaired(rest)
  {
    var s := CodePointToUtf8(cp) + rest;
    assert s[0] % 0x10 == 0xD && s[1] % 0x40 == cp / 0x40 % 0x40 && s[2] % 0x40 == cp % 0x40;
    assert cp == cp / 0x1000 * 0x1000 + cp / 0x40 % 0x40 * 0x40 + cp % 0x40;
    assert Utf8ToCodepoint(s) == (REPLACEMENT, 3);
    assert s[3..] == rest;
  }

  /** One repair can leave encoded surrogates behind; the second leaves only valid UTF-8. */
  lemma {:induction false} RepairedTwiceIsValid(s: Bytes)
    ensures ValidUtf8(Repaired(Repaired(s)))
    decreases |s|
  {
    hide CodePointToUtf8, Utf8ToCodepoint, ValidUtf8;
    if s == [] {
      EmptyIsValid();
    } else {
      var (cp, n) := Utf8ToCodepoint(s);
      var rest := Repaired(s[n..]);
      RepairedTwiceIsValid(s[n..]);
      ConvertedRange(s);
      if cp <= 0x10FFFF {
        RepairedPrepend(cp, rest);
        ValidPrepend(cp, Repaired(rest));
      } else {
        SplitSurrogates(cp);
        var low := CodePointToUtf8(LowHalf(cp)) + rest;
        assert Repaired(s) == CodePointToUtf8(HighHalf(cp)) + low;
        SurrogatePrepend(HighHalf(cp), low);
        SurrogatePrepend(LowHalf(cp), rest);
        ValidPrepend(REPLACEMENT, Repaired(rest));
        ValidPrepend(REPLACEMENT, CodePointToUtf8(REPLACEMENT) + Repaired(rest));
      }
    }
  }

  /** Once is not enough: a number beyond the last code point is written as two halves that come back as surrogates. */
  lemma RepairedOnceIsNot()
    ensures !ValidUtf8(Repaired([0xF5, 0x80, 0x80, 0x80]))
  {
    var s: Bytes := [0xF5, 0x80, 0x80, 0x80];
    assert Utf8ToCodepoint(s) == (0x14_0000, 4);
    assert s[4..] == [];
  }

  lemma EmptyIsValid()
    ensures ValidUtf8([]) && Repaired([]) == []
  {
  }

  /** The keys of an object after reading. */
  function RepairedKeys(keys: set<Bytes>): set<Bytes> {
    set k | k in keys :: Repaired(k)
  }

  /** A set of keys comes back as itself exactly when every key is valid UTF-8. */
  lemma RepairedKeysIffValid(keys: set<Bytes>)
    ensures RepairedKeys(keys) == keys <==> forall k :: k in keys ==> ValidUtf8(k)
  {
    forall k ensures Repaired(k) == k <==> ValidUtf8(k) {
      RepairedIffValid(k);
    }
    if RepairedKeys(keys) == keys {
      forall k | k in keys ensures ValidUtf8(k) {
        assert k in RepairedKeys(keys);
        var j :| j in keys && Repaired(j) == k;
        assert j in RepairedKeys(keys);
        var i :| i in keys && Repaired(i) == j;
        RepairedTwiceIsValid(i);
      }
    }
  }
}
