/** Division of a double limb by a normalised limb through a precomputed reciprocal. */
module MpUdiv {
  import opened Arith
  import opened Limbs

  /** d has its top bit set, as every divisor of libbf does. */
  predicate Normalised(d: Limb) {
    2 * (d as int) >= B
  }

  /** B + v is the largest integer whose product with d stays below B^2. */
  ghost predicate IsInverse(d: Limb, v: Limb) {
    1 <= B * B - (B as int + v) * d <= d
  }

  /** udiv1norm_init */
  function Udiv1NormInit(d: Limb): (v: Limb)
    requires Normalised(d)
    ensures IsInverse(d, v)
  {
    var a: nat := SubW(SubW(0, d), 1) * B + (B - 1);
    InverseExists(d, a, a / d);
    a / d
  }

  lemma InverseExists(d: nat, a: nat, v: nat)
    requires d < B && 2 * d >= B && a == (B - d - 1) * B + (B - 1) && v == a / d
    ensures v < B && 1 <= B * B - (B + v) * d <= d
  {
    var b: nat, m := B, a % d;
    Euclid(a, d);
    Distribute(b, d + 1, b);
    assert a == b * b - d * b - 1;
    Distribute(b, v, d);
    if v >= b {
      MulMono(b, v, d);
      Distribute(2 * d, b, b);
    }
  }

  /** What the estimate h + a1 leaves, scaled by b so that the truncation l shows. */
  lemma EstimateRemainder(b: int, d: int, v: int, f: int, a1: int, a0: int, h: int, l: int, u: int, n: int)
    requires (b + v) * d == b * b - f && v * u + n == h * b + l
    ensures (a1 * b + a0 - (h + a1) * d) * b == a1 * (b * b) + a0 * b - (a1 - u) * (b * d) - u * (b * b - f) - (n - l) * d
  {
    var hb, bvd := h * b, (b + v) * d;
    assert hb * d == (v * u + n - l) * d;
    assert u * bvd == u * (b * b - f);
    RemainderIdentity(b, d, v, a1, a0, h, l, u, n);
  }

  lemma RemainderIdentity(b: int, d: int, v: int, a1: int, a0: int, h: int, l: int, u: int, n: int)
    ensures (a1 * b + a0 - (h + a1) * d) * b
         == a1 * (b * b) + a0 * b - (a1 - u) * (b * d) - u * ((b + v) * d) - (h * b) * d + (v * u) * d
  {
  }

  /** With a small low limb the estimate h + a1 leaves a remainder below 2 * d. */
  lemma EstimateLow(b: nat, d: nat, v: nat, f: nat, a1: nat, a0: nat, h: nat, l: nat)
    requires 0 < d < b && 2 * d >= b && (b + v) * d == b * b - f && f <= d && a1 < d && 2 * a0 < b
    requires v * a1 + a0 == h * b + l && l < b
    ensures 0 <= a1 * b + a0 - (h + a1) * d < 2 * d
  {
    var rem := a1 * b + a0 - (h + a1) * d;
    EstimateRemainder(b, d, v, f, a1, a0, h, l, a1, a0);
    assert rem * b == a1 * f + a0 * (b - d) + l * d;
    LowTerms(b, d, f, a1, a0, l);
    Squeeze(rem, b, d);
  }

  lemma LowTerms(b: nat, d: nat, f: nat, a1: nat, a0: nat, l: nat)
    requires 0 < d < b && 2 * d >= b && f <= d && a1 < d && 2 * a0 < b && l < b
    ensures 0 <= a1 * f + a0 * (b - d) + l * d < 2 * (d * b)
  {
    var c: nat := b - d;
    MulBounds(a1, d - 1, f, d);
    MulBounds(2 * a0, b, c, c);
    MulAssoc(2, a0, c);
    MulBounds(l, b - 1, d, d);
    MulNonNeg(a0, c);
    EstimateLowBound(b, c, d);
    LowSum(a1 * f, a0 * c, l * d, (d - 1) * d, b * c, (b - 1) * d, d * b);
  }

  lemma LowSum(x: nat, y: nat, z: nat, x1: int, y1: int, z1: int, t: int)
    requires x <= x1 && 2 * y <= y1 && z <= z1 && 2 * x1 + y1 + 2 * z1 < 4 * t
    ensures x + y + z < 2 * t
  {
  }

  lemma Squeeze(rem: int, b: nat, d: nat)
    requires 0 < b && 0 <= rem * b < 2 * (d * b)
    ensures 0 <= rem < 2 * d
  {
    MulCancelLess(rem, 2 * d, b);
    MulCancelLess(-1, rem, b);
  }

  lemma EstimateLowBound(b: nat, c: nat, d: nat)
    requires b == c + d && 0 < d && c <= d
    ensures 2 * ((d - 1) * d) + b * c + 2 * ((b - 1) * d) < 4 * (d * b)
  {
    MulMono(c, d, c);
    Distribute(d, -1, d);
    Distribute(c, d, c);
    Distribute(c, d - 1, d);
    SwapFactors(c, d);
    SwapFactors(b, d);
    Distribute(c, d, d);
  }

  /** With a large low limb the adjusted estimate leaves a remainder below 2 * d as well. */
  lemma EstimateHigh(b: nat, d: nat, v: nat, f: nat, a1: nat, a0: nat, h: nat, l: nat)
    requires 0 < d < b && 2 * d >= b && (b + v) * d == b * b - f && f <= d && a1 < d && a0 < b <= 2 * a0
    requires v * (a1 + 1) + (a0 + d - b) == h * b + l && l < b
    ensures 0 <= a1 * b + a0 - (h + a1) * d < 2 * d
  {
    var rem := a1 * b + a0 - (h + a1) * d;
    EstimateRemainder(b, d, v, f, a1, a0, h, l, a1 + 1, a0 + d - b);
    HighIdentity(b, d, f, a1, a0, l);
    HighTerms(b, b - d, d, f, a1, a0, l);
    Squeeze(rem, b, d);
  }

  lemma HighIdentity(b: int, d: int, f: int, a1: int, a0: int, l: int)
    ensures a1 * (b * b) + a0 * b - (a1 - (a1 + 1)) * (b * d) - (a1 + 1) * (b * b - f) - ((a0 + d - b) - l) * d
         == (b - d) * (a0 - (b - d)) + (a1 + 1) * f + l * d
  {
  }

  lemma HighTerms(b: nat, c: nat, d: nat, f: nat, a1: nat, a0: nat, l: nat)
    requires 0 < d && b == c + d && c <= a0 < b && f <= d && a1 < d && l < b
    ensures 0 <= c * (a0 - c) + (a1 + 1) * f + l * d < 2 * (d * b)
  {
    MulBounds(a1 + 1, d, f, d);
    MulBounds(c, c, a0 - c, d - 1);
    MulBounds(l, b - 1, d, d);
    HighSum(b, c, d);
  }

  lemma HighSum(b: int, c: int, d: int)
    requires b == c + d
    ensures c * (d - 1) + d * d + (b - 1) * d == 2 * (d * b) - b
  {
    Distribute(c, d, d);
  }

  /** The double limb that udiv1norm forms first; its high half, added to a1, estimates the quotient. */
  function Product(a1: Limb, a0: Limb, d: Limb, v: Limb): nat {
    MulNonNeg(v, a1); MulNonNeg(v, a1 as int + 1);
    if 2 * (a0 as int) >= B then v as int * (a1 as int + 1) + AddW(a0, d) else v as int * a1 + a0
  }

  lemma EstimateIsClose(a1: Limb, a0: Limb, d: Limb, v: Limb, q: nat)
    requires a1 < d && Normalised(d) && IsInverse(d, v) && q == Product(a1, a0, d, v) / B + a1
    ensures 0 <= a1 as int * B + a0 - q * d < 2 * (d as int)
  {
    var f: nat := B * B - (B as int + v) * d;
    var a := Product(a1, a0, d, v);
    var h, l := a / B, a % B;
    assert a == h * B + l;
    if 2 * (a0 as int) >= B {
      EstimateHigh(B, d, v, f, a1, a0, h, l);
    } else {
      EstimateLow(B, d, v, f, a1, a0, h, l);
    }
  }

  /** udiv1norm: quotient and remainder of a1 * B + a0 by d, in wrapping limb arithmetic. */
  function Udiv1Norm(a1: Limb, a0: Limb, d: Limb, v: Limb): (qr: (Limb, Limb))
    requires a1 < d && Normalised(d) && IsInverse(d, v)
    ensures a1 as int * B + a0 == qr.0 as int * d + qr.1 && qr.1 < d
  {
    var q: nat := Product(a1, a0, d, v) / B + a1;
    EstimateIsClose(a1, a0, d, v, q);
    var a: int := a1 as int * B + a0 - q * d - d;
    var w: nat := WrapDouble(a);
    Correction(a1, a0, d, q, a, w);
    var ah := w / B;  // 0, or all ones when the subtraction wrapped
    (AddW(AddW(q, 1), ah), AddW(w % B, if ah == 0 then 0 else d))
  }

  /** A small difference as the double-limb type holds it. */
  function WrapDouble(a: int): (w: nat)
    requires 0 < a + B && a < B
    ensures w / B == (if a < 0 then B - 1 else 0) && w % B == if a < 0 then a + B else a
  {
    var w: nat := if a < 0 then a + B * B else a;
    assert a < 0 ==> w == (B - 1) * B + (a + B);
    DivModUnique(w, B, if a < 0 then B - 1 else 0, if a < 0 then a + B else a);
    w
  }

  lemma Correction(a1: Limb, a0: Limb, d: Limb, q: nat, a: int, w: nat)
    requires a1 < d && 0 <= a1 as int * B + a0 - q * d < 2 * (d as int) && a == a1 as int * B + a0 - q * d - d
    requires w / B == (if a < 0 then B - 1 else 0) && w % B == if a < 0 then a + B else a
    ensures q < B
    ensures var q', r := AddW(AddW(q, 1), w / B), AddW(w % B, if w / B == 0 then 0 else d);
            a1 as int * B + a0 == q' as int * d + r && r < d
  {
    QuotientFits(a1, a0, d, q);
    Distribute(q, 1, d);
  }

  lemma QuotientFits(a1: nat, a0: nat, d: nat, q: nat)
    requires a1 < d < B && a0 < B && 0 <= a1 * B + a0 - q * d < 2 * d
    ensures q < B && (a1 * B + a0 - q * d >= d ==> q + 1 < B)
  {
    MulMono(a1 + 1, d, B);
    Distribute(a1, 1, B);
    assert q * d < B * d;
    MulCancelLess(q, B, d);
    if a1 * B + a0 - q * d >= d {
      Distribute(q, 1, d);
      MulCancelLess(q + 1, B, d);
    }
  }
}
