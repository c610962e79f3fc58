/** Rounding to an integer. */
module BfRint {
  import opened Arith
  import opened Limbs
  import opened RoundMath
  import opened BfRound
  import opened BfNumber
  import opened BfScale
  import opened BfNormalize
  import opened BfSum
  import opened BfExact

  /** The flags of bf_rint: the precision counts the bits after the radix point. */
  function Point(mode: Mode): Flags {
    Flags(mode, LIMB_BITS - 3, false, true)
  }

  /** z is m * 2^i rounded to an integer. */
  ghost predicate IsRint(mode: Mode, negative: bool, m: nat, i: int, z: nat) {
    if i >= 0 then z == m * Pow2(i) else IsRounding(mode, negative, m, Pow2(-i), z)
  }

  /** z is the integer part of m * 2^i. */
  ghost predicate IsFloor(m: nat, i: int, z: nat) {
    if i >= 0 then z == m * Pow2(i) else z * Pow2(-i) <= m < (z + 1) * Pow2(-i)
  }

  /** The integer part does not depend on how the number is written. */
  lemma FloorSame(m: nat, i: int, k: nat, g: int, z: nat)
    requires g >= 0 && IsFloor(m, i, z) && SameValue(m, i, k, -g)
    ensures z * Pow2(g) <= k < (z + 1) * Pow2(g)
  {
    hide Pow2;
    var b := Least(i, -g);
    SameAt(m, i, k, -g, b);
    Pow2Add(g, -g - b);
    assert g + (-g - b) == -b;
    MulAssoc(z, Pow2(g), Pow2(-g - b));
    MulAssoc(z + 1, Pow2(g), Pow2(-g - b));
    FloorAt(m, i, z, b);
    ScaledSide(z * Pow2(g), k, Pow2(-g - b));
    ScaledSide(k, (z + 1) * Pow2(g), Pow2(-g - b));
  }

  lemma FloorAt(m: nat, i: int, z: nat, b: int)
    requires IsFloor(m, i, z) && b <= i && b <= 0
    ensures z * Pow2(-b) <= m * Pow2(i - b) < (z + 1) * Pow2(-b)
  {
    hide Pow2;
    var w := Pow2(if i >= 0 then -b else i - b);
    Distribute(z, 1, Pow2(-b));
    if i >= 0 {
      Pow2Add(i, -b);
      assert i + -b == i - b;
      MulAssoc(m, Pow2(i), Pow2(-b));
    } else {
      Pow2Add(-i, i - b);
      assert -i + (i - b) == -b;
      MulAssoc(z, Pow2(-i), w);
      MulAssoc(z + 1, Pow2(-i), w);
      ScaledSide(z * Pow2(-i), m, w);
      ScaledSide(m, (z + 1) * Pow2(-i), w);
    }
  }

  /** Towards zero, the integer part is left. */
  lemma TruncatedIsFloor(negative: bool, m: nat, i: int, z: nat)
    requires IsRint(RNDZ, negative, m, i, z)
    ensures IsFloor(m, i, z)
  {
    hide Pow2;
    if i < 0 {
      Distribute(z, 1, Pow2(-i));
    }
  }

  /** Rounding to units of 2^0 leaves an integer. */
  lemma RoundedIsInteger(mode: Mode, negative: bool, m: nat, i: int, m': nat, i': int) returns (z: nat)
    requires Rounded(mode, negative, m, i, 0, m', i')
    ensures IsRint(mode, negative, m, i, z) && SameValue(m', i', z, 0)
  {
    hide Pow2;
    if i >= 0 {
      MulNonNeg(m, Pow2(i));
      z := m * Pow2(i);
      SameScaled(m, i, i);
      SameSym(z, 0, m, i);
      SameTrans(m', i', m, i, z, 0);
    } else {
      var n :| IsRounding(mode, negative, m, Pow2(-i), n) && SameValue(m', i', n, 0);
      z := n;
    }
  }

  /** One bit more than before at most. */
  lemma RintBelow(mode: Mode, negative: bool, m: nat, i: int, z: nat, e: int)
    requires mode != RNDF && IsRint(mode, negative, m, i, z) && TopBit(m, i, e)
    ensures z <= Pow2(if e > 0 then e else 0)
  {
    hide Pow2;
    if i >= 0 {
      Pow2Add(e - i, i);
      assert e - i + i == e;
      MulStrict(m, Pow2(e - i), Pow2(i));
    } else {
      var u, k := Pow2(-i), if e > 0 then e else 0;
      Pow2Mono(e - i, k - i);
      Pow2Add(k, -i);
      assert k + -i == k - i;
      WithinUnit(mode, negative, m, u, z);
      Distribute(z - 1, 1, u);
      if z > Pow2(k) {
        MulMono(Pow2(k), z - 1, u);
      }
    }
  }

  lemma WithinUnit(mode: Mode, negative: bool, m: nat, u: nat, n: nat)
    requires u > 0 && mode != RNDF && IsRounding(mode, negative, m, u, n)
    ensures n * u < m + u
  {
  }

  /** What is left is an integer, and hardly longer than before. */
  lemma RintSize(r: Number, mode: Mode, m: nat, i: int, e: int, z: nat)
    requires if r.tab.Length > 0 then r.Normal() else r.expn == EXP_ZERO
    requires SameValue(r.Mantissa(r.tab.Length), r.expn - LIMB_BITS * r.tab.Length, z, 0)
    requires mode != RNDF && IsRint(mode, r.sign, m, i, z) && TopBit(m, i, e) && e + 1 < EXP_INF && 1 < EXP_INF
    ensures Size(r.Now(), z)
  {
    hide Pow2, BPow, Val, Seg, SameValue, TopBit, IsRint;
    var v := r.Now();
    WholeVal(v.limbs);
    if |v.limbs| > 0 {
      NormalTop(v.limbs, v.expn);
      TopBitSame(Val(v.limbs), v.Lowest(), z, 0, v.expn);
      RintBelow(mode, r.sign, m, i, z, e);
      TopWithin(z, v.expn, if e > 0 then e else 0);
    }
  }

  lemma TopWithin(z: nat, x: int, e: nat)
    requires TopBit(z, 0, x) && z > 0 && z <= Pow2(e)
    ensures 0 < x <= e + 1 && EXP_ZERO < 0
  {
    hide Pow2;
    if x > e + 1 {
      Pow2Mono(e + 1, x - 1);
      Doubled(e + 1);
    }
  }

  /** bf_rint: the number rounded to an integer in the given mode. The faithful mode rounds to nearest and calls every result inexact. */
  method Rint(r: Number, mode: Mode) returns (st: Status, ghost z: nat)
    requires r.Now().Proper() && Point(mode).Valid() && Point(mode).Range() < EXP_INF
    requires r.tab.Length > 0 ==> r.expn < Point(mode).Range()
    modifies r, r.tab
    ensures r.sign == old(r.sign) && (fresh(r.tab) || r.tab == old(r.tab))
    ensures old(r.tab.Length) == 0 ==> r.Now() == old(r.Now()) && st == CLEAR
    ensures old(r.expn) < EXP_INF ==>
              var m, i := old(Val(r.tab[..])), old(r.Now().Lowest());
              && IsRint(Settled(mode), r.sign, m, i, z) && Size(r.Now(), z)
              && (old(r.tab.Length) > 0 ==> !st.overflow && (st.inexact <==> mode == RNDF || (i < 0 && m % Pow2(-i) != 0)))
  {
    hide Pow2, BPow, Val, Seg, SameValue, TopBit, IsRint, Size, Number.Normal, Number.Overflowed, Rounded;
    ghost var v := r.Now();
    ghost var m, i, e := Val(v.limbs), v.Lowest(), v.expn;
    WholeVal(v.limbs);
    if r.tab.Length == 0 {
      st, z := CLEAR, 0;
      if r.expn < EXP_INF {
        ZeroRint(v, Settled(mode));
      }
      return;
    }
    NormalTop(v.limbs, e);
    st := r.Round(0, Point(mode), r.tab.Length, false);
    z := RoundedIsInteger(Settled(mode), r.sign, m, i, r.Mantissa(r.tab.Length), r.expn - LIMB_BITS * r.tab.Length);
    RintSize(r, Settled(mode), m, i, e, z);
  }

  lemma ZeroRint(v: Value, mode: Mode)
    requires v.Proper() && v.expn < EXP_INF && |v.limbs| == 0 && mode != RNDF
    ensures IsRint(mode, v.sign, Val(v.limbs), v.Lowest(), 0) && Size(v, 0)
  {
    hide Pow2;
    ZeroHolds(v);
  }
}
