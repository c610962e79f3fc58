/** One step of the conversion to digits: the exact quotient and remainder, from an estimate that is at most two off. */
module RadixQuotient {
  import opened Arith
  import opened Limbs
  import opened RoundMath
  import opened BfRound
  import opened BfNumber
  import opened BfScale
  import opened BfNormalize
  import opened BfWindow
  import opened BfSum
  import opened BfAddition
  import opened BfExact
  import opened BfMul
  import opened BfRint
  import opened RadixFrom
  import opened RadixInverse

  // How far the estimate can be off: x is divided by d, n / s is the inverse of d, k / s the rounded product.

  ghost predicate NearInverse(x: nat, d: nat, n: nat, s: nat) {
    d > 0 && x <= s && 2 * s <= 2 * (n * d) + d && 2 * (n * d) <= 2 * s + d
  }

  lemma ProductNear(x: nat, d: nat, n: nat, s: nat)
    requires NearInverse(x, d, n, s)
    ensures 2 * (x * s) <= 2 * (x * n * d) + s * d && 2 * (x * n * d) <= 2 * (x * s) + s * d
  {
    var y := n * d;
    MulAssoc(x, n, d);
    MulMono(2 * s, 2 * y + d, x);
    MulMono(2 * y, 2 * s + d, x);
    Distribute(2 * y, d, x);
    Distribute(2 * s, d, x);
    MulAssoc(2, s, x);
    MulAssoc(2, y, x);
    SwapFactors(x, s);
    SwapFactors(x, y);
    SwapFactors(x, d);
    MulMono(x, s, d);
  }

  lemma EstimateNear(x: nat, d: nat, n: nat, s: nat, k: nat, z: nat)
    requires NearInverse(x, d, n, s) && d > 0 && s > 0 && k <= x * n + s && x * n <= k + s && z * s <= k < (z + 1) * s
    ensures 2 * (z * d) <= 2 * x + 3 * d && 2 * x < 2 * (z * d) + 5 * d
  {
    hide NearInverse;
    ProductNear(x, d, n, s);
    MulAssoc(x, n, d);
    Distribute(z, 1, s);
    EstimateChain(x, d, s, x * n, z, z * s);
  }

  lemma EstimateChain(x: nat, d: nat, s: nat, v: int, z: nat, zs: int)
    requires d > 0 && s > 0 && zs == z * s && zs <= v + s && v < zs + 2 * s
    requires 2 * (x * s) <= 2 * (v * d) + s * d && 2 * (v * d) <= 2 * (x * s) + s * d
    ensures 2 * (z * d) <= 2 * x + 3 * d && 2 * x < 2 * (z * d) + 5 * d
  {
    TimesDivisor(zs, v, s, d);
    MulAssoc(z, s, d);
    MulAssoc(z, d, s);
    SwapFactors(s, d);
    var zd, zds, xs, ds := z * d, zs * d, x * s, s * d;
    assert zds == zd * s;
    DropScale(zd, x, d, s, zds, xs, ds);
  }

  lemma TimesDivisor(zs: int, v: int, s: int, d: nat)
    requires d > 0 && zs <= v + s && v < zs + 2 * s
    ensures zs * d <= v * d + s * d && v * d < zs * d + 2 * (s * d)
  {
    MulMono(zs, v + s, d);
    MulStrict(v, zs + 2 * s, d);
    Distribute(v, s, d);
    Distribute(zs, 2 * s, d);
    MulAssoc(2, s, d);
  }

  /** Everything is a multiple of s. */
  lemma DropScale(zd: int, x: int, d: int, s: nat, zds: int, xs: int, ds: int)
    requires s > 0 && zds == zd * s && xs == x * s && ds == d * s && 2 * zds <= 2 * xs + 3 * ds && 2 * xs < 2 * zds + 5 * ds
    ensures 2 * zd <= 2 * x + 3 * d && 2 * x < 2 * zd + 5 * d
  {
    Combination(zd, x, d, 3, s);
    Combination(x, zd, d, 5, s);
    ScaledSide(2 * x + 3 * d, 2 * zd, s);
    ScaledSide(2 * x, 2 * zd + 5 * d, s);
  }

  lemma Combination(x: int, y: int, d: int, c: int, s: nat)
    ensures 2 * x * s == 2 * (x * s) && (2 * y + c * d) * s == 2 * (y * s) + c * (d * s)
  {
    MulAssoc(2, x, s);
    Distribute(2 * y, c * d, s);
    MulAssoc(2, y, s);
    MulAssoc(c, d, s);
  }

  lemma ProductBelow(x: nat, d: nat, n: nat, s: nat, w: nat)
    requires NearInverse(x, d, n, s) && s > 0 && x < w * d
    ensures x * n < 2 * w * s
  {
    ProductNear(x, d, n, s);
    MulStrict(x, w * d, s);
    MulAssoc(w, d, s);
    MulAssoc(w, s, d);
    SwapFactors(s, d);
    if w == 0 {
      assert false;
    }
    MulMono(1, w, s * d);
    MulAssoc(2 * w, s, d);
    MulAssoc(2, w, s * d);
    if x * n >= 2 * w * s {
      MulMono(2 * w * s, x * n, d);
    }
  }

  // The product, rounded to the nearest number of qPrec bits.

  lemma RoundedNear(v: nat, g: nat, j: int, m': nat, i': int) returns (k: nat)
    requires Rounded(RNDN, false, v, 0 - g, j, m', i') && j <= 1
    ensures SameValue(m', i', k, 0 - g) && k <= v + Pow2(g) && v <= k + Pow2(g)
  {
    hide Pow2, SameValue;
    if j <= 0 - g {
      k := v;
    } else {
      var u := Pow2(j + g);
      var n :| IsRounding(RNDN, false, v, u, n) && SameValue(m', i', n, j);
      MulNonNeg(n, u);
      k := n * u;
      SameScaled(n, j, j + g);
      assert j - (j + g) == 0 - g;
      SameSym(k, 0 - g, n, j);
      SameTrans(m', i', n, j, k, 0 - g);
      Pow2Mono(j + g, g + 1);
      Doubled(g + 1);
    }
  }

  lemma TopAtMost(v: nat, g: nat, e: int, q: nat)
    requires TopBit(v, 0 - g, e) && v < Pow2(q) * Pow2(g)
    ensures 0 - g < e <= q
  {
    hide Pow2;
    Pow2Add(q, g);
    if e > q {
      Pow2Mono(q + g, e + g - 1);
    }
  }

  /** The product is an ordinary number, within one of what it should be. */
  lemma ProductOutcome(r: Number, a: Value, inv: Value, x: nat, d: nat, prec: nat, n: nat, g: nat, q: nat, e: int, st: Status, l: nat)
    returns (k: nat)
    requires NEAREST.Valid() && 16 * NEAREST.Range() == B && 2 * l + 8 < NEAREST.Range() && g <= 2 * l + 2 && 0 < q <= l
    requires Size(a, x) && 0 < x && !a.sign && prec > 0 && InverseBy(inv, d, prec, n, g)
    requires NearInverse(x, d, n, Pow2(g)) && x < Pow2(q) * d
    requires IsProduct(r, a, inv, q, NEAREST, e, st, false)
    ensures r.Now().Proper() && r.expn < NEAREST.Range() && !r.sign
    ensures SameValue(Val(r.tab[..]), r.Now().Lowest(), k, 0 - g)
    ensures k <= x * n + Pow2(g) && x * n <= k + Pow2(g)
  {
    hide Pow2, SameValue, Val, Seg, TopBit, NearInverse, BPow, Number.Overflowed, Rounded;
    SizeTop(a, x);
    ProductScale(r, a, inv, x, d, prec, n, g, q, e, st);
    var v := Times(x, n);
    ProductBelow(x, d, n, Pow2(g), Pow2(q));
    Doubled(q + 1);
    TopAtMost(v, g, e, q + 1);
    k := RoundedNear(v, g, e - q, r.Mantissa(r.tab.Length), r.expn - LIMB_BITS * r.tab.Length);
    WholeVal(r.tab[..]);
    var y := r.Now();
    if |y.limbs| > 0 {
      NormalTop(y.limbs, y.expn);
      TopBitSame(Val(y.limbs), y.Lowest(), k, 0 - g, y.expn);
      OneMore(v, k, Pow2(q + 1), Pow2(g));
      Doubled(q + 2);
      TopAtMost(k, g, y.expn, q + 2);
    }
  }

  lemma OneMore(v: nat, k: nat, w: nat, s: nat)
    requires v < w * s && k <= v + s && w > 0
    ensures k < 2 * w * s
  {
    MulMono(1, w, s);
    MulAssoc(2, w, s);
  }

  lemma ProductScale(r: Number, a: Value, inv: Value, x: nat, d: nat, prec: nat, n: nat, g: nat, q: nat, e: int, st: Status)
    requires NEAREST.Valid() && Size(a, x) && 0 < x && prec > 0 && InverseBy(inv, d, prec, n, g)
    requires IsProduct(r, a, inv, q, NEAREST, e, st, false)
    ensures TopBit(Times(x, n), 0 - g, e) && r.Outcome(q, NEAREST, Times(x, n), 0 - g, e, false, st)
    ensures r.sign == (a.sign != inv.sign)
  {
    hide Pow2, SameValue, Val, TopBit, Number.Outcome, BPow;
    SizeTop(a, x);
    NormalTop(a.limbs, 0);
    InverseNormal(inv, d, prec, n, g);
    NormalTop(inv.limbs, 0);
    MulPos(Val(a.limbs), Val(inv.limbs));
    SameProduct(Val(a.limbs), a.Lowest(), x, 0, Val(inv.limbs), inv.Lowest(), n, 0 - g);
    OutcomeSame(r, q, NEAREST, Times(Val(a.limbs), Val(inv.limbs)), a.Lowest() + inv.Lowest(), Times(x, n), 0 - g, e, st);
  }

  lemma InverseNormal(inv: Value, d: nat, prec: nat, n: nat, g: nat)
    requires prec > 0 && InverseBy(inv, d, prec, n, g)
    ensures |inv.limbs| > 0 && inv.expn < EXP_INF
  {
  }

  /** bf_mul(&Q, a, B_inv, q_prec, BF_RNDN) and bf_rint(&Q, BF_RNDZ) */
  method Estimate(a: Value, inv: Value, q: nat, ghost x: nat, ghost d: nat, ghost prec: nat, ghost l: nat)
    returns (r: Number, ghost z: nat)
    requires EXACT.Valid() && 4 * l < EXACT.Range() && l > 4 && 0 < q <= l && q + 1 < prec
    requires Holds(a, x) && d > 0 && Inverse(inv, d, prec, 2 * l + 2) && x < Pow2(q) * d
    ensures fresh(r) && fresh(r.tab) && Holds(r.Now(), z)
    ensures 2 * (z * d) <= 2 * x + 3 * d && 2 * x < 2 * (z * d) + 5 * d
  {
    hide IsProduct, Size, IsFloor, IsRint, Pow2, InverseBy, NearInverse, SameValue, Val;
    NearestRange();
    ghost var n: nat, g: nat :| g <= 2 * l + 2 && InverseBy(inv, d, prec, n, g);
    InverseProper(inv, d, prec, n, g);
    Finite(a, a, x, x);
    r := new Number();
    var st, invalid, e := MulInternal(r, a, inv, q, NEAREST);
    CloseInverse(inv, x, d, prec, n, g, q);
    ghost var k := EstimateOutcome(r, a, inv, x, d, prec, n, g, q, e, st, invalid, l);
    ghost var m, i := Val(r.tab[..]), r.Now().Lowest();
    var exact;
    exact, z := Rint(r, RNDZ);
    TruncatedIsFloor(r.sign, m, i, z);
    FloorSame(m, i, k, g, z);
    EstimateNear(x, d, n, Pow2(g), k, z);
    if x == 0 {
      NothingLeft(z, k, n, Pow2(g));
    }
  }

  lemma NothingLeft(z: nat, k: nat, n: nat, s: nat)
    requires s > 0 && k <= 0 * n && z * s <= k
    ensures z == 0
  {
    if z > 0 {
      MulPos(z, s);
    }
  }

  lemma EstimateOutcome(r: Number, a: Value, inv: Value, x: nat, d: nat, prec: nat, n: nat, g: nat, q: nat, e: int, st: Status, invalid: bool, l: nat)
    returns (k: nat)
    requires NEAREST.Valid() && 16 * NEAREST.Range() == B && 2 * l + 8 < NEAREST.Range() && g <= 2 * l + 2 && 0 < q <= l
    requires Holds(a, x) && prec > 0 && InverseBy(inv, d, prec, n, g)
    requires NearInverse(x, d, n, Pow2(g)) && x < Pow2(q) * d
    requires IsProduct(r, a, inv, q, NEAREST, e, st, invalid)
    ensures r.Now().Proper() && r.expn < NEAREST.Range() && (x > 0 ==> !r.sign) && (x == 0 ==> k == 0)
    ensures SameValue(Val(r.tab[..]), r.Now().Lowest(), k, 0 - g)
    ensures k <= x * n + Pow2(g) && x * n <= k + Pow2(g)
  {
    hide IsProduct, Size, Pow2, InverseBy, NearInverse, SameValue, Val;
    if x == 0 {
      InverseProper(inv, d, prec, n, g);
      ZeroProduct(r, a, inv, q, e, st, invalid);
      ZeroValue(r.Now().Lowest(), 0 - g);
      k := 0;
    } else {
      NoInvalid(r, a, inv, x, d, prec, n, g, q, e, st, invalid);
      k := ProductOutcome(r, a, inv, x, d, prec, n, g, q, e, st, l);
    }
  }

  lemma InverseProper(inv: Value, d: nat, prec: nat, n: nat, g: nat)
    requires prec > 0 && InverseBy(inv, d, prec, n, g)
    ensures inv.Proper() && !inv.sign && EXP_ZERO < inv.expn < EXP_INF
  {
  }

  lemma ZeroProduct(r: Number, a: Value, inv: Value, q: nat, e: int, st: Status, invalid: bool)
    requires NEAREST.Valid() && Size(a, 0) && EXP_ZERO < inv.expn < EXP_INF && IsProduct(r, a, inv, q, NEAREST, e, st, invalid)
    ensures r.Now().Proper() && r.expn == EXP_ZERO && Val(r.tab[..]) == 0
  {
    hide Pow2, SameValue, TopBit, Number.Outcome, BPow;
    SizeTop(a, 0);
    ZeroUnits(r.Now(), r.Now().Lowest());
  }

  lemma NoInvalid(r: Number, a: Value, inv: Value, x: nat, d: nat, prec: nat, n: nat, g: nat, q: nat, e: int, st: Status, invalid: bool)
    requires NEAREST.Valid() && Size(a, x) && x > 0 && prec > 0 && InverseBy(inv, d, prec, n, g)
    requires IsProduct(r, a, inv, q, NEAREST, e, st, invalid)
    ensures !invalid
  {
    hide Pow2, SameValue, TopBit, Number.Outcome, BPow;
    SizeTop(a, x);
    InverseNormal(inv, d, prec, n, g);
  }

  lemma CloseInverse(inv: Value, x: nat, d: nat, prec: nat, n: nat, g: nat, q: nat)
    requires q + 1 < prec && d > 0 && InverseBy(inv, d, prec, n, g) && x < Pow2(q) * d
    ensures NearInverse(x, d, n, Pow2(g))
  {
    hide Pow2, SameValue;
    Pow2Mono(q, prec - 1);
    MulMono(Pow2(q), Pow2(prec - 1), d);
  }

  // Putting the quotient right.

  /** Comparing magnitudes of integers. */
  lemma ComparesIntegers(a: Value, b: Value, x: nat, y: nat, c: int)
    requires Size(a, x) && Size(b, y) && y > 0
    requires a.expn != b.expn ==> c == Order(a.expn, b.expn)
    requires |a.limbs| > 0 && |b.limbs| > 0 ==> c == (var i := Least(a.Lowest(), b.Lowest()); Order(Units(a, i), Units(b, i)))
    ensures c == Order(x, y)
  {
    hide Units, Pow2, TopBit, SameValue;
    SizeTop(a, x);
    SizeTop(b, y);
    if x > 0 {
      var i := Least(a.Lowest(), b.Lowest());
      var lo := Least(i, 0);
      SameOrder(a, b, i, lo);
      IntegerUnits(a, x, lo);
      IntegerUnits(b, y, lo);
      ScaledSide(x, y, Pow2(-lo));
    }
  }

  /** The remainder after t corrections, which is at most two away from where it belongs. */
  ghost predicate Remains(x: nat, d: nat, z: nat, t: int, rem: int) {
    && rem == x - (z + t) * d && -2 <= t <= 2
    && -3 * d <= 2 * (rem + t * d) < 5 * d
  }

  lemma RemainsStart(x: nat, d: nat, z: nat)
    requires 2 * (z * d) <= 2 * x + 3 * d && 2 * x < 2 * (z * d) + 5 * d
    ensures Remains(x, d, z, 0, x - z * d)
  {
  }

  lemma RemainsStep(x: nat, d: nat, z: nat, t: int, rem: int, c: int)
    requires d > 0 && Remains(x, d, z, t, rem) && (c == 1 || c == -1) && (if c == 1 then rem >= d else rem < 0)
    ensures Remains(x, d, z, t + c, rem - c * d)
  {
    Distribute(z + t, c, d);
    Distribute(t, c, d);
    if c == 1 && t == 2 {
      assert false;
    }
    if c == -1 && t == -2 {
      assert false;
    }
  }

  lemma RemainsInRange(x: nat, d: nat, z: nat, t: int, rem: int, n0: nat)
    requires d > 0 && Remains(x, d, z, t, rem) && Room(n0) && x <= BPow(n0 + 1) && d <= BPow(n0 + 1)
    ensures InRange(rem) && InRange(z + t) && InRange((z + t) * d)
  {
    hide Room, InRange, BPow;
    FewMultiples(x, d, z, t, rem);
    BPowSucc(n0 + 1);
    MulMono(16, B, BPow(n0 + 1));
    InRoom(rem, n0 + 2, n0);
    InRoom(z + t, n0 + 2, n0);
    InRoom((z + t) * d, n0 + 2, n0);
  }

  lemma FewMultiples(x: nat, d: nat, z: nat, t: int, rem: int)
    requires d > 0 && Remains(x, d, z, t, rem)
    ensures -5 * d <= rem <= 5 * d && Magnitude((z + t) * d) <= x + 5 * d && Magnitude(z + t) <= x + 5 * d
  {
    MulMono(-2, t, d);
    MulMono(t, 2, d);
    var q := z + t;
    if q >= 0 {
      MulMono(1, d, q);
    } else {
      MulMono(q, -1, d);
    }
  }

  /** The end of the step: the remainder is where it belongs, so the quotient is right. */
  lemma RemainderIs(x: nat, d: nat, z: nat, t: int, rem: int)
    requires d > 0 && Remains(x, d, z, t, rem) && 0 <= rem < d
    ensures x / d == z + t && x % d == rem
  {
    DivModUnique(x, d, z + t, rem);
  }

  /** Q and R of one step of bf_integer_to_radix_rec. */
  method DivideByPower(a: Value, pw: Value, inv: Value, q: nat, ghost x: nat, ghost d: nat, ghost prec: nat, ghost n0: nat, ghost l: nat)
    returns (quot: Number, rem: Number)
    requires EXACT.Valid() && 4 * l < EXACT.Range() && l > 4 && 0 < q <= l && q + 1 < prec && Room(n0)
    requires Holds(a, x) && Holds(pw, d) && d > 0 && Inverse(inv, d, prec, 2 * l + 2) && x < Pow2(q) * d
    requires x <= BPow(n0 + 1) && d <= BPow(n0 + 1)
    ensures Holds(quot.Now(), x / d) && Holds(rem.Now(), x % d)
  {
    hide Holds, Inverse, InRange, Remains, Room, Pow2, BPow;
    ghost var z;
    quot, z := Estimate(a, inv, q, x, d, prec, l);
    RemainsStart(x, d, z);
    RemainsInRange(x, d, z, 0, x - z * d, n0);
    rem := new Number();
    var st := MulExact(rem, quot.Now(), pw, z, d);
    st := SubExact(rem, a, rem.Now(), x, z * d);
    var t := Adjust(rem, pw, x, d, z, n0);
    if t != 0 {
      st := AddSi(quot, quot.Now(), t, z);
    }
  }

  /** The two loops. */
  method Adjust(rem: Number, pw: Value, ghost x: nat, ghost d: nat, ghost z: nat, ghost n0: nat) returns (t: int)
    requires d > 0 && Holds(rem.Now(), x - z * d) && Holds(pw, d) && Remains(x, d, z, 0, x - z * d)
    requires Room(n0) && x <= BPow(n0 + 1) && d <= BPow(n0 + 1)
    modifies rem, rem.tab
    ensures -2 <= t <= 2 && x / d == z + t && Holds(rem.Now(), x % d) && InRange(z + t)
    ensures fresh(rem.tab) || rem.tab == old(rem.tab)
  {
    hide Holds, InRange, Remains, Room, Pow2, BPow;
    t := 0;
    ghost var v: int := x - z * d;
    SignOf(rem.Now(), v);
    while rem.sign && rem.tab.Length != 0
      invariant Holds(rem.Now(), v) && Remains(x, d, z, t, v) && (fresh(rem.tab) || rem.tab == old(rem.tab))
      invariant v < 0 <==> rem.sign && rem.tab.Length != 0
      decreases -v
    {
      RemainsStep(x, d, z, t, v, -1);
      RemainsInRange(x, d, z, t - 1, v + d, n0);
      var st := AddExact(rem, rem.Now(), pw, v, d);
      t, v := t - 1, v + d;
      SignOf(rem.Now(), v);
    }
    var c := CmpU(rem.Now(), pw);
    CompareHeld(rem.Now(), pw, v, d, c);
    while c >= 0
      invariant Holds(rem.Now(), v) && Remains(x, d, z, t, v) && (fresh(rem.tab) || rem.tab == old(rem.tab))
      invariant v >= 0 && (c >= 0 <==> v >= d)
      decreases v
    {
      RemainsStep(x, d, z, t, v, 1);
      RemainsInRange(x, d, z, t + 1, v - d, n0);
      var st := SubExact(rem, rem.Now(), pw, v, d);
      t, v := t + 1, v - d;
      c := CmpU(rem.Now(), pw);
      CompareHeld(rem.Now(), pw, v, d, c);
    }
    RemainderIs(x, d, z, t, v);
    RemainsInRange(x, d, z, t, v, n0);
    CorrectionsFew(x, d, z, t, v);
  }

  lemma CorrectionsFew(x: nat, d: nat, z: nat, t: int, rem: int)
    requires Remains(x, d, z, t, rem)
    ensures -2 <= t <= 2
  {
  }

  lemma SignOf(v: Value, x: int)
    requires Holds(v, x)
    ensures x < 0 <==> v.sign && |v.limbs| != 0
  {
    hide TopBit, SameValue;
    SizeTop(v, Magnitude(x));
  }

  lemma CompareHeld(a: Value, b: Value, x: int, y: nat, c: int)
    requires Holds(a, x) && Holds(b, y) && y > 0 && x >= 0
    requires a.expn != b.expn ==> c == Order(a.expn, b.expn)
    requires a.Proper() && b.Proper() && |a.limbs| > 0 && |b.limbs| > 0
             ==> c == (var i := Least(a.Lowest(), b.Lowest()); Order(Units(a, i), Units(b, i)))
    ensures c >= 0 <==> x >= y
  {
    hide Units, TopBit, SameValue;
    ComparesIntegers(a, b, x, y, c);
  }
}
