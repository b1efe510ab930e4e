/** Powers of two and the facts about floor division and remainder by them
    that the bit-level reasoning of the other modules rests on. Dafny's `/`
    and `%` with a positive divisor are floor division and a non-negative
    remainder, which is what every use below needs. */
module Arith {

  /** 2^n */
  function Pow2(n: nat): (p: nat)
    ensures p >= 1
  {
    if n == 0 then 1 else 2 * Pow2(n - 1)
  }

  /** The exponents the float layout uses, evaluated once. */
  lemma Pow2Values()
    ensures Pow2(1) == 2 && Pow2(8) == 0x100 && Pow2(9) == 0x200
    ensures Pow2(23) == 0x80_0000 && Pow2(31) == 0x8000_0000 && Pow2(32) == 0x1_0000_0000
  {
  }

  /** Quotient and remainder are determined by the division equation. */
  lemma DivModUnique(x: int, d: int, q: int, r: int)
    requires d > 0 && 0 <= r < d && x == d * q + r
    ensures x / d == q && x % d == r
  {
    var q', r' := x / d, x % d;
    assert x == d * q' + r' && 0 <= r' < d;
    if q' < q {
      var k := q - q';
      assert d * q == d * q' + d * k;
      MulAtLeast(d, k);
    } else if q' > q {
      var k := q' - q;
      assert d * q' == d * q + d * k;
      MulAtLeast(d, k);
    }
  }

  lemma {:induction false} MulAtLeast(d: int, k: int)
    requires d > 0 && k >= 1
    ensures d * k >= d
  {
    if k > 1 {
      MulAtLeast(d, k - 1);
      assert d * k == d * (k - 1) + d;
    }
  }

  /** Halving first and then dividing by 2^k is dividing by 2^(k+1). */
  lemma DivHalf(x: int, k: nat)
    ensures (x / 2) / Pow2(k) == x / Pow2(k + 1)
  {
    var p := Pow2(k);
    var h, b := x / 2, x % 2;
    var q, r := h / p, h % p;
    assert x == 2 * (p * q + r) + b;
    assert x == Pow2(k + 1) * q + (2 * r + b);
    DivModUnique(x, Pow2(k + 1), q, 2 * r + b);
  }

  /** The remainder modulo 2P is rebuilt from the halved value's remainder
      modulo P and the parity. */
  lemma HalveMod(x: int, p: int)
    requires p > 0
    ensures 2 * ((x / 2) % p) + x % 2 == x % (2 * p)
  {
    var h, b := x / 2, x % 2;
    var q, r := h / p, h % p;
    assert x == 2 * (p * q + r) + b;
    assert x == (2 * p) * q + (2 * r + b);
    DivModUnique(x, 2 * p, q, 2 * r + b);
  }
}
