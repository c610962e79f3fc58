/** Integer facts shared by the numeric models: powers, products and quotients. */
module Arith {

  /** 2^k */
  function Pow2(k: nat): (p: nat)
    ensures p > 0
  {
    if k == 0 then 1 else 2 * Pow2(k - 1)
  }

  lemma MulNonNeg(x: nat, y: nat)
    ensures 0 <= x * y
  {
  }

  function Least(i: int, j: int): int {
    if i <= j then i else j
  }

  lemma MulPos(x: nat, y: nat)
    requires 0 < x && 0 < y
    ensures 0 < x * y
  {
  }

  lemma MulMono(x: int, y: int, z: nat)
    requires x <= y
    ensures x * z <= y * z && z * x <= z * y
  {
  }

  lemma MulStrict(x: int, y: int, z: nat)
    requires x < y && 0 < z
    ensures x * z < y * z && z * x < z * y
  {
  }

  lemma MulBounds(x: nat, x1: nat, y: nat, y1: nat)
    requires x <= x1 && y <= y1
    ensures 0 <= x * y <= x1 * y1
  {
    MulMono(x, x1, y);
    MulMono(y, y1, x1);
  }

  /** Cancelling a positive factor from an inequality. */
  lemma MulCancelLess(x: int, y: int, z: nat)
    requires 0 < z && (x * z < y * z || z * x < z * y)
    ensures x < y
  {
    if y <= x {
      MulMono(y, x, z);
    }
  }

  lemma Distribute(x: int, y: int, z: int)
    ensures (x + y) * z == x * z + y * z
    ensures (x - y) * z == x * z - y * z
    ensures z * (x + y) == z * x + z * y
    ensures z * (x - y) == z * x - z * y
  {
  }

  lemma MulAssoc(x: int, y: int, z: int)
    ensures x * (y * z) == (x * y) * z == y * (x * z)
  {
  }

  /** The quotient and remainder are the only pair that fits. */
  lemma SwapFactors(a: int, b: int)
    ensures a * b == b * a
  {
  }

  lemma Euclid(m: nat, u: nat)
    requires u > 0
    ensures m == m / u * u + m % u && 0 <= m % u < u && m / u >= 0
  {
  }

  lemma DivModUnique(x: int, d: nat, q: int, r: int)
    requires 0 < d && x == q * d + r && 0 <= r < d
    ensures x / d == q && x % d == r
  {
    var q', r' := x / d, x % d;
    assert x == q' * d + r' && 0 <= r' < d;
    Distribute(q, q', d);
    if q < q' {
      MulMono(1, q' - q, d);
      Distribute(q', q, d);
    } else if q' < q {
      MulMono(1, q - q', d);
    }
  }

  lemma PowerOfZero(v: nat)
    ensures v * Pow2(0) == v
  {
  }

  lemma {:induction false} Pow2Add(i: nat, j: nat)
    ensures Pow2(i + j) == Pow2(i) * Pow2(j)
  {
    if i > 0 {
      Pow2Add(i - 1, j);
      MulAssoc(2, Pow2(i - 1), Pow2(j));
      assert i + j - 1 == i - 1 + j;
    }
  }

  lemma {:induction false} Pow2Mono(i: nat, j: nat)
    requires i <= j
    ensures Pow2(i) <= Pow2(j)
  {
    if i < j {
      Pow2Mono(i, j - 1);
    }
  }

  lemma Pow2Small()
    ensures Pow2(8) == 0x100 && Pow2(16) == 0x1_0000
  {
    assert Pow2(4) == 16;
    assert Pow2(8) == 0x100;
    Pow2Add(8, 8);
  }
}
