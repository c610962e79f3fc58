/** Integers as numbers, and operations that are exact when the precision is infinite. */
module BfExact {
  import opened Arith
  import opened Limbs
  import MpLinear
  import opened MpUdiv
  import opened MpDivNorm
  import opened RoundMath
  import opened BfBits
  import opened BfRound
  import opened BfNumber
  import opened BfScale
  import opened BfNormalize
  import opened BfSum
  import opened BfAddition

  /** The flags BF_RNDZ, with the default number of exponent bits. */
  const EXACT: Flags := Flags(RNDZ, LIMB_BITS - 3, false, false)

  const CLEAR: Status := Status(false, false, false)

  lemma ExactRange()
    ensures EXACT.Valid() && 16 * EXACT.Range() == B
  {
    BaseIsPow2();
    var k := LIMB_BITS - 4;
    Doubled(k + 1);
    Doubled(k + 2);
    Doubled(k + 3);
    Doubled(k + 4);
  }

  /** Small enough for the exponent range of exact operations. */
  ghost predicate InRange(z: int) {
    EXACT.Valid() && Magnitude(z) < Pow2(EXACT.Range() - 1)
  }

  /** The magnitude of v is the integer m. */
  ghost predicate Size(v: Value, m: nat) {
    v.Proper() && v.expn < EXP_INF && SameValue(Val(v.limbs), v.Lowest(), m, 0)
  }

  /** v is the integer z; zero may have either sign. */
  ghost predicate Holds(v: Value, z: int) {
    Size(v, Magnitude(z)) && (z != 0 ==> v.sign == (z < 0))
  }

  // Where the top bit is.

  lemma TopBitSame(m: nat, i: int, m': nat, i': int, e: int)
    requires SameValue(m, i, m', i') && m > 0
    ensures m' > 0 && (TopBit(m, i, e) <==> TopBit(m', i', e))
  {
    hide TopBit, Pow2;
    if i >= i' {
      MulPos(m, Pow2(i - i'));
      TopBitScale(m, i, i - i', e);
      assert i - (i - i') == i';
    } else {
      PositiveFactor(m', Pow2(i' - i));
      TopBitScale(m', i', i' - i, e);
      assert i' - (i' - i) == i;
    }
  }

  lemma PositiveFactor(x: nat, y: nat)
    requires x * y > 0
    ensures x > 0
  {
  }

  lemma TopBitUnique(m: nat, i: int, e: int, e': int)
    requires TopBit(m, i, e) && TopBit(m, i, e')
    ensures e == e'
  {
    hide Pow2;
    if e < e' {
      Pow2Mono(e - i, e' - i - 1);
    } else if e' < e {
      Pow2Mono(e' - i, e - i - 1);
    }
  }

  lemma NormalTop(s: seq<Limb>, x: int)
    requires |s| > 0 && Normalised(s[|s| - 1])
    ensures Val(s) > 0 && TopBit(Val(s), x - LIMB_BITS * |s|, x)
  {
    hide BPow, Pow2, Val, Seg;
    HalfFull(s, 0, |s|);
    WholeVal(s);
    ValBound(s);
    BPowIsPow2(|s|);
    MulMono(1, |s|, LIMB_BITS);
    Doubled(LIMB_BITS * |s|);
    assert x - (x - LIMB_BITS * |s|) == LIMB_BITS * |s|;
  }

  lemma SizeTop(v: Value, m: nat)
    requires Size(v, m)
    ensures m == 0 <==> |v.limbs| == 0
    ensures m == 0 <==> v.expn == EXP_ZERO
    ensures m > 0 ==> TopBit(m, 0, v.expn)
  {
    hide TopBit, Pow2, BPow, SameValue;
    if |v.limbs| == 0 {
      ZeroOnly(v.Lowest(), m, 0);
    } else {
      NormalTop(v.limbs, v.expn);
      TopBitSame(Val(v.limbs), v.Lowest(), m, 0, v.expn);
    }
  }

  /** The same number in other units is rounded alike. */
  lemma OutcomeSame(r: Number, prec: nat, flags: Flags, m: nat, i: int, m': nat, i': int, e: int, st: Status)
    requires flags.Valid() && SameValue(m, i, m', i') && m > 0
    ensures TopBit(m, i, e) && r.Outcome(prec, flags, m, i, e, false, st)
            <==> TopBit(m', i', e) && r.Outcome(prec, flags, m', i', e, false, st)
  {
    hide TopBit, Number.Outcome, Pow2;
    if i >= i' {
      SameOutcome(r, prec, flags, m, i, i - i', e, st);
      assert i - (i - i') == i';
    } else {
      PositiveFactor(m', Pow2(i' - i));
      SameOutcome(r, prec, flags, m', i', i' - i, e, st);
      assert i' - (i' - i) == i;
    }
  }

  /** An integer comes through rounding with infinite precision unchanged. */
  lemma ExactOutcome(r: Number, m: nat, e: int, st: Status)
    requires 0 < m && InRange(m) && TopBit(m, 0, e) && r.Outcome(PREC_INF, EXACT, m, 0, e, false, st)
    ensures Size(r.Now(), m) && st == CLEAR
  {
    hide Pow2, BPow, SameValue, Val, Seg, Number.Overflowed, IsRounding;
    ExactRange();
    WholeVal(r.tab[..]);
    if e > EXACT.Range() - 1 {
      Pow2Mono(EXACT.Range() - 1, e - 1);
      assert false;
    }
    var v := r.Now();
    assert r.Mantissa(r.tab.Length) == Val(v.limbs);
    if |v.limbs| == 0 {
      assert Val(v.limbs) == 0 by { ZeroUnits(v, v.Lowest()); }
      ZeroOnly(v.Lowest(), m, 0);
      assert false;
    }
    NormalTop(v.limbs, v.expn);
    TopBitSame(Val(v.limbs), v.Lowest(), m, 0, v.expn);
    TopBitUnique(m, 0, e, v.expn);
  }

  lemma ExactResult(r: Number, m: nat, i: int, z: nat, e: int, st: Status)
    requires EXACT.Valid() && m > 0 && InRange(z) && SameValue(m, i, z, 0)
    requires TopBit(m, i, e) && r.Outcome(PREC_INF, EXACT, m, i, e, false, st)
    ensures Size(r.Now(), z) && st == CLEAR
  {
    hide TopBit, Number.Outcome, SameValue, InRange, Size;
    OutcomeSame(r, PREC_INF, EXACT, m, i, z, 0, e, st);
    TopBitSame(m, i, z, 0, e);
    ExactOutcome(r, z, e, st);
  }

  // Exact sums.

  lemma IntegerUnits(v: Value, m: nat, lo: int)
    requires Size(v, m) && lo <= 0 && lo <= v.Lowest()
    ensures Units(v, lo) == m * Pow2(-lo)
  {
    hide Pow2, Val;
    SameAt(Val(v.limbs), v.Lowest(), m, 0, lo);
  }

  lemma IntegerSum(a: Value, b: Value, x: int, y: int, lo: int)
    requires Holds(a, x) && Holds(b, y) && lo <= 0 && lo <= a.Lowest() && lo <= b.Lowest()
    ensures SignedSum(a, b, lo) == (x + y) * Pow2(-lo)
  {
    hide Pow2, Units, Size;
    IntegerUnits(a, Magnitude(x), lo);
    IntegerUnits(b, Magnitude(y), lo);
    var w := Pow2(-lo);
    Negated(Magnitude(x), w);
    Negated(Magnitude(y), w);
    Distribute(x, y, w);
  }

  lemma Negated(x: int, w: int)
    ensures -x * w == -(x * w)
  {
  }

  lemma FinerSum(a: Value, b: Value, i: int, lo: int)
    requires lo <= i <= Least(a.Lowest(), b.Lowest())
    ensures SignedSum(a, b, lo) == SignedSum(a, b, i) * Pow2(i - lo)
  {
    hide Pow2, Units;
    FinerUnits(a, i, lo);
    FinerUnits(b, i, lo);
    var w := Pow2(i - lo);
    Negated(Units(a, i), w);
    Negated(Units(b, i), w);
    Distribute(Signed(a.sign, Units(a, i)), Signed(b.sign, Units(b, i)), w);
  }

  /** The sum in the units that bf_add_internal works with is the sum of the integers. */
  lemma SumIsInteger(a: Value, b: Value, x: int, y: int)
    requires Holds(a, x) && Holds(b, y)
    ensures var i := Least(a.Lowest(), b.Lowest());
            var s := SignedSum(a, b, i);
            SameValue(Magnitude(s), i, Magnitude(x + y), 0) && (s < 0 <==> x + y < 0) && (s == 0 <==> x + y == 0)
  {
    hide Pow2, Units, Size, SignedSum;
    var i := Least(a.Lowest(), b.Lowest());
    var lo := Least(i, 0);
    var s := SignedSum(a, b, i);
    IntegerSum(a, b, x, y, lo);
    FinerSum(a, b, i, lo);
    SameSign(s, Pow2(i - lo), x + y, Pow2(-lo));
    SameAt(Magnitude(s), i, Magnitude(x + y), 0, lo);
  }

  lemma SameSign(s: int, w: nat, t: int, w': nat)
    requires w > 0 && w' > 0 && s * w == t * w'
    ensures (s < 0 <==> t < 0) && (s == 0 <==> t == 0) && Magnitude(s) * w == Magnitude(t) * w'
  {
    if s > 0 {
      MulPos(s, w);
    } else if s < 0 {
      MulPos(-s, w);
      Negated(s, w);
    }
    if t > 0 {
      MulPos(t, w');
    } else if t < 0 {
      MulPos(-t, w');
      Negated(t, w');
    }
  }

  /** bf_add with infinite precision. */
  method AddExact(r: Number, a: Value, b: Value, ghost x: int, ghost y: int) returns (st: Status)
    requires Holds(a, x) && Holds(b, y) && InRange(x + y)
    modifies r, r.tab
    ensures Holds(r.Now(), x + y) && fresh(r.tab) && st == CLEAR
  {
    hide IsSum, Size, InRange, SignedSum, Number.Outcome, TopBit;
    ExactRange();
    Finite(a, b, x, y);
    var invalid;
    ghost var e;
    st, invalid, e := AddInternal(r, a, b, PREC_INF, EXACT);
    SumHolds(r, a, b, x, y, e, st, invalid);
  }

  /** bf_sub with infinite precision. */
  method SubExact(r: Number, a: Value, b: Value, ghost x: int, ghost y: int) returns (st: Status)
    requires Holds(a, x) && Holds(b, y) && InRange(x - y)
    modifies r, r.tab
    ensures Holds(r.Now(), x - y) && fresh(r.tab) && st == CLEAR
  {
    hide Holds, InRange;
    SignedHolds(b, y, true);
    st := AddExact(r, a, b.(sign := b.sign != true), x, -y);
  }

  lemma SignedHolds(v: Value, y: int, flip: bool)
    requires Holds(v, y)
    ensures Holds(v.(sign := v.sign != flip), if flip then -y else y)
  {
    hide SameValue;
  }

  lemma Finite(a: Value, b: Value, x: int, y: int)
    requires Holds(a, x) && Holds(b, y)
    ensures a.Proper() && b.Proper()
  {
  }

  lemma SumHolds(r: Number, a: Value, b: Value, x: int, y: int, e: int, st: Status, invalid: bool)
    requires EXACT.Valid() && Holds(a, x) && Holds(b, y) && InRange(x + y) && IsSum(r, a, b, PREC_INF, EXACT, e, st, invalid)
    ensures Holds(r.Now(), x + y) && st == CLEAR && !invalid
  {
    hide SignedSum, Number.Outcome, TopBit, SameValue, Pow2, BPow;
    SumIsInteger(a, b, x, y);
    var i := Least(a.Lowest(), b.Lowest());
    var s := SignedSum(a, b, i);
    if s == 0 {
      ZeroHolds(r.Now());
    } else {
      ExactResult(r, Magnitude(s), i, Magnitude(x + y), e, st);
    }
  }

  lemma ZeroHolds(v: Value)
    requires |v.limbs| == 0 && v.expn == EXP_ZERO
    ensures Holds(v, 0)
  {
    ZeroUnits(v, v.Lowest());
    ZeroValue(v.Lowest(), 0);
  }

  /** Where uint64_t ends. */
  const UINT64_END: nat := 0x1_0000_0000_0000_0000

  /** bf_set_ui: one limb, or two of 32 bits. */
  method SetUi(r: Number, v: nat)
    requires v < UINT64_END
    modifies r
    ensures Holds(r.Now(), v) && fresh(r.tab)
  {
    hide Pow2;
    if v == 0 {
      r.SetZero(false);
      ZeroHolds(r.Now());
    } else if v < B {
      var shift := Clz(v);
      r.sign, r.expn := false, LIMB_BITS - shift;
      r.tab := new Limb[1](_ => v as int * Pow2(shift));
      LimbHolds(r.Now(), v, shift);
    } else {
      var a0, a1 := v % B, v / B;
      var shift := Clz(a1);
      var w := Pow2(shift);
      TwoLimbs(v, a0, a1, shift);
      r.sign, r.expn := false, 2 * LIMB_BITS - shift;
      r.tab := new Limb[2];
      r.tab[0], r.tab[1] := a0 * w % B, a1 * w + a0 * w / B;
      TwoLimbsHold(r.Now(), v, shift);
    }
  }

  /** The two limbs of v << shift: the upper one is shld(a1, a0, shift). */
  lemma TwoLimbs(v: nat, a0: nat, a1: nat, shift: nat)
    requires v == a1 * B + a0 && a0 < B && shift < LIMB_BITS && B <= 2 * (a1 * Pow2(shift)) && a1 * Pow2(shift) < B
    ensures var w := Pow2(shift);
            && 0 <= a0 * w / B && 0 <= a0 * w % B && B <= 2 * (a1 * w + a0 * w / B) && a1 * w + a0 * w / B < B
            && a0 * w % B + B * (a1 * w + a0 * w / B) == v * w
  {
    hide Pow2;
    var w, c := Pow2(shift), Pow2(LIMB_BITS - shift);
    MpLinear.Pow2DividesBase(shift);
    MulCancelLess(a1, c, w);
    MulMono(a1 + 1, c, w);
    Distribute(a1, 1, w);
    TwoLimbsArith(v, a0, a1, w, a0 * w / B, a0 * w % B);
  }

  lemma TwoLimbsArith(v: nat, a0: nat, a1: nat, w: nat, q: int, e: int)
    requires v == a1 * B + a0 && a0 < B && w > 0 && a0 * w == q * B + e && 0 <= e < B
    ensures 0 <= q < w && e + B * (a1 * w + q) == v * w
  {
    MulNonNeg(a0, w);
    MulStrict(a0, B, w);
    if q >= w {
      MulMono(w, q, B);
    }
    if q < 0 {
      MulMono(q, -1, B);
    }
    Distribute(a1 * B, a0, w);
    MulAssoc(a1, B, w);
    MulAssoc(B, a1, w);
    Distribute(a1 * w, q, B);
  }

  lemma TwoLimbsHold(x: Value, v: nat, shift: nat)
    requires v > 0 && shift < LIMB_BITS && |x.limbs| == 2 && B <= 2 * x.limbs[1] as int
    requires !x.sign && x.expn == 2 * LIMB_BITS - shift && x.limbs[0] as int + B * x.limbs[1] as int == v * Pow2(shift)
    ensures Holds(x, v)
  {
    hide Pow2;
    SegCons(x.limbs, 0, 2);
    SegOne(x.limbs, 1);
    WholeVal(x.limbs);
    SameScaled(v, 0, shift);
  }

  lemma LimbHolds(x: Value, v: Limb, shift: nat)
    requires v > 0 && shift < LIMB_BITS && B <= 2 * (v as int * Pow2(shift)) && v as int * Pow2(shift) < B
    requires !x.sign && x.expn == LIMB_BITS - shift && |x.limbs| == 1 && x.limbs[0] as int == v as int * Pow2(shift)
    ensures Holds(x, v)
  {
    hide Pow2;
    SegOne(x.limbs, 0);
    WholeVal(x.limbs);
    SameScaled(v, 0, shift);
  }

  /** bf_add_si with infinite precision. */
  method AddSi(r: Number, a: Value, v: int, ghost x: int) returns (st: Status)
    requires v < B && -v < B && Holds(a, x) && InRange(x + v)
    modifies r, r.tab
    ensures Holds(r.Now(), x + v) && fresh(r.tab) && st == CLEAR
  {
    hide Holds, InRange;
    var b := new Number();
    SetUi(b, if v < 0 then -v else v);
    SignedHolds(b.Now(), Magnitude(v), v < 0);
    b.sign := b.sign != (v < 0);
    st := AddExact(r, a, b.Now(), x, v);
  }
}
