/** The two table rows FloatInspector.cpp writes after the input line: a
    fixed header, and a data row in which each field appears as the text
    `operator<<` gives a `std::bitset<N>`, N binary digits with the most
    significant first, between `|` separators. */
module Table {
  import opened Arith
  import opened CppInt
  import opened FloatFields

  /** The character for one bit. */
  function Digit(bit: int): char
  {
    if bit == 1 then '1' else '0'
  }

  predicate IsBinary(s: string)
  {
    forall k :: 0 <= k < |s| ==> s[k] == '0' || s[k] == '1'
  }

  /** What `operator<<` writes for a `std::bitset<n>` holding `v`: the digit
      of bit 0 last, preceded by the text of the higher bits. */
  function BitsetString(n: nat, v: nat): (s: string)
    ensures |s| == n && IsBinary(s)
  {
    if n == 0 then [] else BitsetString(n - 1, v / 2) + [Digit(v % 2)]
  }

  /** The value of a binary numeral read with its most significant digit
      first. */
  function NumeralValue(s: string): nat
  {
    if s == [] then 0 else 2 * NumeralValue(s[..|s| - 1]) + (if s[|s| - 1] == '1' then 1 else 0)
  }

  /** Character `k` of the text is bit n-1-k of the value: most significant
      bit first. */
  lemma {:induction false} BitsetStringAt(n: nat, v: nat, k: nat)
    requires k < n
    ensures BitsetString(n, v)[k] == Digit((v / Pow2(n - 1 - k)) % 2)
  {
    if k < n - 1 {
      BitsetStringAt(n - 1, v / 2, k);
      DivHalf(v, n - 2 - k);
    }
  }

  /** Reading the text back as a binary numeral gives the bitset's value, so
      the text of a value below 2^n determines it. */
  lemma {:induction false} BitsetStringValue(n: nat, v: nat)
    ensures NumeralValue(BitsetString(n, v)) == v % Pow2(n)
  {
    if n > 0 {
      var s := BitsetString(n, v);
      assert s[..n - 1] == BitsetString(n - 1, v / 2);
      BitsetStringValue(n - 1, v / 2);
      HalveMod(v, Pow2(n - 1));
    }
  }

  /** Printing a high part and then an m-bit low part prints the number they
      form together. */
  lemma {:induction false} BitsetStringConcat(n: nat, m: nat, a: nat, b: nat)
    requires b < Pow2(m)
    ensures BitsetString(n, a) + BitsetString(m, b) == BitsetString(n + m, a * Pow2(m) + b)
  {
    if m > 0 {
      var p := Pow2(m - 1);
      var x := a * Pow2(m) + b;
      assert a * Pow2(m) == 2 * (a * p);
      DivModUnique(x, 2, a * p + b / 2, b % 2);
      BitsetStringConcat(n, m - 1, a, b / 2);
      calc {
        BitsetString(n + m, x);
        BitsetString(n + m - 1, a * p + b / 2) + [Digit(b % 2)];
        BitsetString(n, a) + BitsetString(m - 1, b / 2) + [Digit(b % 2)];
        BitsetString(n, a) + BitsetString(m, b);
      }
    }
  }

  /** The header row, its titles centred over the columns of the data row. */
  const Header: string := "| + | exponent |        mantissa         |"

  /** The columns holding the `|` separators of both rows. */
  predicate IsSeparatorColumn(k: int)
  {
    k == 0 || k == 4 || k == 15 || k == 41
  }

  /** The data row: `"| " << sign << " | " << exponent << " | " << mantissa << " |"`. */
  function DataRow(f: Fields): (r: string)
    ensures |r| == |Header| == 42
    ensures forall k :: 0 <= k < |r| ==> (r[k] == '|' <==> IsSeparatorColumn(k))
    ensures forall k :: 0 <= k < |Header| ==> (Header[k] == '|' <==> IsSeparatorColumn(k))
  {
    "| " + BitsetString(1, f.sign) + " | " + BitsetString(8, f.exponent) + " | "
      + BitsetString(23, f.mantissa) + " |"
  }

  /** The two rows as written: the header, a newline, then the data row.
      The newline after the header is the only one, so the table is exactly
      two lines. */
  function Rows(f: Fields): (r: string)
    ensures |r| == 85 && r[..42] == Header && r[43..] == DataRow(f)
    ensures forall k :: 0 <= k < |r| ==> (r[k] == '\n' <==> k == 42)
  {
    var d := DataRow(f);
    assert forall k :: 0 <= k < |d| ==> d[k] != '\n';
    Header + "\n" + d
  }

  /** Where each field's digits stand in the data row. */
  lemma DataRowCells(f: Fields)
    ensures var r := DataRow(f);
      r[2..3] == BitsetString(1, f.sign) && r[6..14] == BitsetString(8, f.exponent)
      && r[17..40] == BitsetString(23, f.mantissa)
  {
    var s, e, m := BitsetString(1, f.sign), BitsetString(8, f.exponent), BitsetString(23, f.mantissa);
    var r := DataRow(f);
    assert r == "| " + s + " | " + e + " | " + m + " |";
    assert r[2..3] == s;
    assert r[6..14] == e;
    assert r[17..40] == m;
  }

  /** Three in-range fields printed side by side are the 32-digit text of
      the word they lay out to. */
  lemma CellsSpellWeight(f: Fields)
    requires InRange(f)
    ensures BitsetString(1, f.sign) + BitsetString(8, f.exponent) + BitsetString(23, f.mantissa)
      == BitsetString(32, Weight(f))
  {
    var high := f.sign * 0x100 + f.exponent;
    var s, e, m := BitsetString(1, f.sign), BitsetString(8, f.exponent), BitsetString(23, f.mantissa);
    var x, y := BitsetString(9, high), BitsetString(32, Weight(f));
    assert s + e == x by {
      Pow2Values();
      BitsetStringConcat(1, 8, f.sign, f.exponent);
    }
    assert x + m == y by {
      Pow2Values();
      BitsetStringConcat(9, 23, high, f.mantissa);
      assert high * 0x80_0000 + f.mantissa == Weight(f);
    }
  }

  /** The digits of the data row, read left to right across the three cells,
      are the 32-bit binary expansion of the pattern. */
  lemma DataRowSpellsPattern(w: Word)
    ensures var r := DataRow(Decode(w)); r[2..3] + r[6..14] + r[17..40] == BitsetString(32, w)
  {
    DataRowCells(Decode(w));
    CellsSpellWeight(Decode(w));
    DecodePartition(w);
  }

  /** The printed rows lose nothing: two patterns print the same table
      exactly when they are the same pattern. */
  lemma RowsDeterminePattern(u: Word, w: Word)
    ensures Rows(Decode(u)) == Rows(Decode(w)) <==> u == w
  {
    if Rows(Decode(u)) == Rows(Decode(w)) {
      var ru, rw := DataRow(Decode(u)), DataRow(Decode(w));
      assert ru == rw by {
        assert Rows(Decode(u))[|Header| + 1..] == ru;
        assert Rows(Decode(w))[|Header| + 1..] == rw;
      }
      var su, sw := BitsetString(32, u), BitsetString(32, w);
      assert su == sw by {
        DataRowSpellsPattern(u);
        DataRowSpellsPattern(w);
      }
      BitsetStringValue(32, u);
      BitsetStringValue(32, w);
      Pow2Values();
      DivModUnique(u, Pow2(32), 0, u);
      DivModUnique(w, Pow2(32), 0, w);
    }
  }
}
