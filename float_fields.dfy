/** The field extraction of FloatInspector.cpp: the 32-bit pattern of a
    `float` is read as a signed `int` and cut, by a shift and a mask each,
    into the three fields of the IEEE 754 binary32 layout (section 3.4 of
    IEEE 754-2019): 1 sign bit, an 8-bit biased exponent and a 23-bit
    trailing significand, called the mantissa in the program. */
module FloatFields {
  import opened Arith
  import opened CppInt

  const SignWeight: int := 0x8000_0000     // 2^31
  const ExponentWeight: int := 0x80_0000   // 2^23
  const ExponentLimit: int := 0x100        // 2^8
  const MantissaLimit: int := 0x80_0000    // 2^23

  /** The values held by the three bitsets `sign`, `exponent`, `mantissa`. */
  datatype Fields = Fields(sign: nat, exponent: nat, mantissa: nat)

  /** Each field fits its bitset's width. */
  predicate InRange(f: Fields)
  {
    f.sign < 2 && f.exponent < ExponentLimit && f.mantissa < MantissaLimit
  }

  /** The unsigned 32-bit number whose bits are the fields laid side by side,
      sign highest and mantissa lowest. */
  function Weight(f: Fields): int
  {
    f.sign * SignWeight + f.exponent * ExponentWeight + f.mantissa
  }

  /** The three bitsets built from `int i = *(int*)&f`:
      `(i >> 31) & 0x1`, `(i >> 23) & 0xFF` and `i & 0x7FFFFF`, each kept to
      its bitset's width of 1, 8 and 23 bits. */
  function Decode(w: Word): (f: Fields)
    ensures InRange(f)
  {
    Pow2Values();
    var i := AsSigned(w);
    Fields(
      BitsetOf(1, BitAnd(ShiftRight(i, 31), 0x0000_0001)),
      BitsetOf(8, BitAnd(ShiftRight(i, 23), 0x0000_00FF)),
      BitsetOf(23, BitAnd(i, 0x007F_FFFF)))
  }

  /** For a negative `i` the shift `i >> 31` yields -1 (all ones), not 1; the
      mask `& 0x1` still leaves exactly the top bit of the unsigned pattern,
      and the one-bit bitset keeps that whole value. */
  lemma SignField(w: Word)
    ensures ShiftRight(AsSigned(w), 31) == if w >= TwoTo31 then -1 else 0
    ensures BitAnd(ShiftRight(AsSigned(w), 31), 0x1) == Decode(w).sign == w / SignWeight
  {
    var s := ShiftRight(AsSigned(w), 31);
    assert s == if w >= TwoTo31 then -1 else 0 by {
      Pow2Values();
    }
    var b := BitAnd(s, 0x1);
    assert b == w / SignWeight by {
      Pow2Values();
      MaskIsResidue(s, 1);
    }
    assert Decode(w).sign == b by {
      Pow2Values();
      BitsetKeepsFit(1, b);
    }
  }

  /** The exponent is bits 23 to 30 of the unsigned pattern, whatever sign
      bits the arithmetic shift brought in above them; the mask already
      leaves a value the 8-bit bitset holds unchanged. */
  lemma ExponentField(w: Word)
    ensures BitAnd(ShiftRight(AsSigned(w), 23), 0xFF) == Decode(w).exponent
      == (w / ExponentWeight) % ExponentLimit
  {
    var i := AsSigned(w);
    var s := ShiftRight(i, 23);
    var q := w / ExponentWeight;
    assert s % ExponentLimit == q % ExponentLimit by {
      Pow2Values();
      if w >= TwoTo31 {
        DivModUnique(i, ExponentWeight, q - 0x200, w % ExponentWeight);
        DivModUnique(s, ExponentLimit, q / ExponentLimit - 2, q % ExponentLimit);
      }
    }
    var b := BitAnd(s, 0xFF);
    assert b == s % ExponentLimit by {
      Pow2Values();
      MaskIsResidue(s, 8);
    }
    assert Decode(w).exponent == b by {
      Pow2Values();
      BitsetKeepsFit(8, b);
    }
  }

  /** The mantissa is the low 23 bits of the unsigned pattern, for a
      negative `i` as well; the 23-bit bitset holds the masked value
      unchanged. */
  lemma MantissaField(w: Word)
    ensures BitAnd(AsSigned(w), 0x7F_FFFF) == Decode(w).mantissa == w % MantissaLimit
  {
    var i := AsSigned(w);
    assert i % MantissaLimit == w % MantissaLimit by {
      if w >= TwoTo31 {
        DivModUnique(i, MantissaLimit, w / MantissaLimit - 0x200, w % MantissaLimit);
      }
    }
    var b := BitAnd(i, 0x7F_FFFF);
    assert b == i % MantissaLimit by {
      Pow2Values();
      MaskIsResidue(i, 23);
    }
    assert Decode(w).mantissa == b by {
      Pow2Values();
      BitsetKeepsFit(23, b);
    }
  }

  /** Had the shifts filled with zeros instead of copies of the sign bit,
      that is, shifted the unsigned pattern, the masks would leave the same
      sign and exponent: the fields do not depend on which bits the shift
      brings in. (The mantissa is not shifted.) */
  lemma ZeroFillSameFields(w: Word)
    ensures BitAnd(ShiftRight(w, 31), 0x1) == Decode(w).sign
    ensures BitAnd(ShiftRight(w, 23), 0xFF) == Decode(w).exponent
  {
    SignField(w);
    ExponentField(w);
    Pow2Values();
    MaskIsResidue(ShiftRight(w, 31), 1);
    MaskIsResidue(ShiftRight(w, 23), 8);
  }

  /** The fields partition the word: laid side by side they give back the
      unsigned value of the pattern, so no bit is lost or counted twice. */
  lemma DecodePartition(w: Word)
    ensures Weight(Decode(w)) == w
  {
    SignField(w);
    ExponentField(w);
    MantissaField(w);
    var q, m := w / ExponentWeight, w % MantissaLimit;
    var e := q % ExponentLimit;
    assert w == ExponentWeight * q + m;
    assert q == ExponentLimit * (q / ExponentLimit) + e;
    DivModUnique(w, SignWeight, q / ExponentLimit, e * ExponentWeight + m);
  }

  /** Conversely, any in-range triple that lays out to `w` is the one
      `Decode` extracts: decoding a reassembled word gives back its fields. */
  lemma DecodeUnique(w: Word, f: Fields)
    requires InRange(f) && Weight(f) == w
    ensures Decode(w) == f
  {
    SignField(w);
    ExponentField(w);
    MantissaField(w);
    var high := f.sign * ExponentLimit + f.exponent;
    DivModUnique(w, MantissaLimit, high, f.mantissa);
    DivModUnique(high, ExponentLimit, f.sign, f.exponent);
    DivModUnique(w, SignWeight, f.sign, f.exponent * ExponentWeight + f.mantissa);
  }
}
