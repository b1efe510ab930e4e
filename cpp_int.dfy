/** The C++ integer operations that FloatInspector.cpp applies to the bit
    pattern of a float: reading the 32 storage bits as a signed `int`, the
    right shift `>>` on that `int`, the bitwise `&` with a mask, and the
    construction of a `std::bitset<N>` from the result. */
module CppInt {
  import opened Arith

  const TwoTo31: int := 0x8000_0000
  const TwoTo32: int := 0x1_0000_0000

  /** A 32-bit storage pattern, read as an unsigned number. */
  type Word = w: int | 0 <= w < 0x1_0000_0000

  /** The `int` whose 32-bit two's complement representation is the pattern:
      `*(int*)&f` read as a value. */
  function AsSigned(w: Word): (i: int)
    ensures -TwoTo31 <= i < TwoTo31
    ensures (i - w) % TwoTo32 == 0
    ensures i < 0 <==> w >= TwoTo31
  {
    if w < TwoTo31 then w else w - TwoTo32
  }

  /** `x >> k` on a signed integer: the quotient rounded toward negative
      infinity, so a negative `x` shifts in copies of its sign bit. */
  function ShiftRight(x: int, k: nat): (r: int)
    ensures Pow2(k) * r <= x < Pow2(k) * (r + 1)
  {
    DivModUnique(x, Pow2(k), x / Pow2(k), x % Pow2(k));
    x / Pow2(k)
  }

  /** How far a two's complement integer is from the all-zeros or all-ones
      pattern that its halving reaches. */
  function Magnitude(x: int): nat
  {
    if x >= 0 then x else -x - 1
  }

  /** `x & y` on two's complement integers, bit by bit from the lowest: the
      lowest bit of the result is set exactly when both lowest bits are set,
      and the rest is the `&` of the halved operands. When both operands are
      0 (all zeros) or -1 (all ones) every bit is the same. The result has
      its sign bit set exactly when both operands do, and a mask that is not
      negative keeps the result between 0 and the mask. */
  function BitAnd(x: int, y: int): (r: int)
    ensures r < 0 <==> x < 0 && y < 0
    ensures 0 <= y ==> 0 <= r <= y
    decreases Magnitude(x) + Magnitude(y)
  {
    if (x == 0 || x == -1) && (y == 0 || y == -1) then
      (if x == -1 && y == -1 then -1 else 0)
    else
      2 * BitAnd(x / 2, y / 2) + (if x % 2 == 1 && y % 2 == 1 then 1 else 0)
  }

  /** `x & 0` clears every bit. */
  lemma {:induction false} BitAndZero(x: int)
    ensures BitAnd(x, 0) == 0
    decreases Magnitude(x)
  {
    if x != 0 && x != -1 {
      BitAndZero(x / 2);
    }
  }

  /** `x & (2^n - 1)` keeps the low n bits of `x`: for every integer, negative
      ones included, it is the non-negative remainder modulo 2^n. */
  lemma {:induction false} MaskIsResidue(x: int, n: nat)
    ensures BitAnd(x, Pow2(n) - 1) == x % Pow2(n)
    decreases n
  {
    if n == 0 {
      BitAndZero(x);
    } else {
      var p := Pow2(n - 1);
      var m := Pow2(n) - 1;
      assert m / 2 == p - 1 && m % 2 == 1 by {
        DivModUnique(m, 2, p - 1, 1);
      }
      assert BitAnd(x, m) == 2 * BitAnd(x / 2, p - 1) + x % 2;
      assert BitAnd(x / 2, p - 1) == (x / 2) % p by {
        MaskIsResidue(x / 2, n - 1);
      }
      HalveMod(x, p);
    }
  }

  /** The value held by `std::bitset<N>{v}`: the low N bits of `v` (after the
      conversion to `unsigned long long`, which keeps the low 64 bits). */
  function BitsetOf(n: nat, v: int): (b: nat)
    requires n <= 64
    ensures b < Pow2(n)
    ensures (v - b) % Pow2(n) == 0
  {
    var p := Pow2(n);
    DivModUnique(v - v % p, p, v / p, 0);
    v % p
  }

  /** A value that already fits N bits is held by the bitset unchanged. */
  lemma BitsetKeepsFit(n: nat, v: int)
    requires n <= 64 && 0 <= v < Pow2(n)
    ensures BitsetOf(n, v) == v
  {
    DivModUnique(v, Pow2(n), 0, v);
  }
}
