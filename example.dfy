/** The run recorded at the end of FloatInspector.cpp: the literal `1.1f`,
    whose storage pattern is 0x3F8CCCCD, and the table printed for it. */
module ExampleOutput {
  import opened Arith
  import opened CppInt
  import opened FloatFields
  import opened Table

  /** The storage pattern of the `float` literal `1.1f`. */
  const OnePointOne: Word := 0x3F8C_CCCD

  /** Its fields: sign 0, biased exponent 127 (true exponent 0), mantissa
      0x0CCCCD. */
  lemma ExampleFields()
    ensures Decode(OnePointOne) == Fields(0, 127, 0x0C_CCCD)
  {
    DecodeUnique(OnePointOne, Fields(0, 127, 0x0C_CCCD));
  }

  /** The data row printed for `1.1f` is the one in the recorded output. */
  lemma ExampleRow()
    ensures DataRow(Decode(OnePointOne)) == "| 0 | 01111111 | 00011001100110011001101 |"
  {
    var f := Decode(OnePointOne);
    ExampleFields();
    ShortTexts();
    ExponentText();
    MantissaText(f.mantissa);
    RowText(BitsetString(1, f.sign), BitsetString(8, f.exponent), BitsetString(23, f.mantissa));
  }

  // The steps below evaluate the digit strings in pieces small enough for
  // the verifier, then join them with BitsetStringConcat.

  lemma ShortTexts()
    ensures BitsetString(1, 0) == "0" && BitsetString(3, 0) == "000"
    ensures BitsetString(4, 0xC) == "1100" && BitsetString(4, 0xD) == "1101"
  {
  }

  lemma ExponentText()
    ensures BitsetString(8, 127) == "01111111"
  {
  }

  lemma MantissaDigits()
    ensures "000" + "1100" + "1100" + "1100" + "1100" + "1101" == "00011001100110011001101"
  {
  }

  /** 0x0CCCCD printed as 23 digits: three zero bits, then the nibbles
      C, C, C, C, D. */
  lemma MantissaText(m: nat)
    requires m == 0x0C_CCCD
    ensures BitsetString(23, m) == "00011001100110011001101"
  {
    var p0, p1, p2, p3, p4 := m / 0x10_0000, m / 0x1_0000, m / 0x1000, m / 0x100, m / 0x10;
    var c, d := 0xC, 0xD;
    AppendNibble(3, p0, c, p1);
    AppendNibble(7, p1, c, p2);
    AppendNibble(11, p2, c, p3);
    AppendNibble(15, p3, c, p4);
    AppendNibble(19, p4, d, m);
    assert p0 == 0;
    ShortTexts();
    MantissaDigits();
  }

  lemma AppendNibble(n: nat, high: nat, nibble: nat, v: nat)
    requires nibble < 0x10 && v == high * 0x10 + nibble
    ensures BitsetString(n + 4, v) == BitsetString(n, high) + BitsetString(4, nibble)
  {
    assert Pow2(4) == 0x10;
    BitsetStringConcat(n, 4, high, nibble);
  }

  lemma RowText(s: string, e: string, m: string)
    requires s == "0" && e == "01111111" && m == "00011001100110011001101"
    ensures "| " + s + " | " + e + " | " + m + " |" == "| 0 | 01111111 | 00011001100110011001101 |"
  {
  }
}
