/** The whole of addition and subtraction: comparing magnitudes, special values, and numbers that alias each other. */
module BfAddition {
  import opened Arith
  import opened Limbs
  import opened MpDivNorm
  import opened RoundMath
  import opened BfBits
  import opened BfRound
  import opened BfNumber
  import opened BfScale
  import opened BfNormalize
  import opened BfWindow
  import opened BfSum
  import opened BfCancel
  import opened BfAdd

  /** The magnitude of v in units 2^i. */
  ghost function Units(v: Value, i: int): (m: nat)
    requires i <= v.Lowest()
  {
    MulNonNeg(Val(v.limbs), Pow2(v.Lowest() - i));
    Val(v.limbs) * Pow2(v.Lowest() - i)
  }

  /** The sum of a and b in units 2^i. */
  ghost function SignedSum(a: Value, b: Value, i: int): int
    requires i <= a.Lowest() && i <= b.Lowest()
  {
    Signed(a.sign, Units(a, i)) + Signed(b.sign, Units(b, i))
  }

  function Signed(negative: bool, m: int): int {
    if negative then -m else m
  }

  ghost function Magnitude(x: int): nat {
    if x < 0 then -x else x
  }

  /** What r holds is the sum of a and b, rounded once. */
  ghost predicate IsSum(r: Number, a: Value, b: Value, prec: nat, flags: Flags, e: int, st: Status, invalid: bool)
    reads r, r.tab
    requires flags.Valid()
  {
    var quiet := st == Status(false, false, false) && r.tab.Length == 0;
    if a.expn == EXP_NAN || b.expn == EXP_NAN then r.expn == EXP_NAN && quiet && !invalid
    else if a.expn == EXP_INF && b.expn == EXP_INF && a.sign != b.sign then r.expn == EXP_NAN && quiet && invalid
    else if a.expn == EXP_INF || b.expn == EXP_INF then
      r.expn == EXP_INF && r.sign == (if a.expn == EXP_INF then a.sign else b.sign) && quiet && !invalid
    else
      var i := Least(a.Lowest(), b.Lowest());
      var sum := SignedSum(a, b, i);
      if sum == 0 then
        r.expn == EXP_ZERO && r.sign == (if a.sign == b.sign then a.sign else flags.mode == RNDD) && quiet && !invalid
      else
        r.sign == (sum < 0) && TopBit(Magnitude(sum), i, e) && r.Outcome(prec, flags, Magnitude(sum), i, e, false, st) && !invalid
  }

  // Comparing magnitudes.

  function Order(x: int, y: int): int {
    if x < y then -1 else if x == y then 0 else 1
  }

  lemma UpLess(x: nat, y: nat, j: nat)
    requires Up(x, j) < Up(y, j)
    ensures x < y
  {
    hide BPow;
    Euclid(x, BPow(j));
    Euclid(y, BPow(j));
    MulMono(Up(x, j) + 1, Up(y, j), BPow(j));
    Distribute(Up(x, j), 1, BPow(j));
  }

  /** The higher digits agree, so this one decides. */
  lemma DigitDecides(x: nat, y: nat, j: nat)
    requires Up(x, j + 1) == Up(y, j + 1)
    ensures Digit(x, j) < Digit(y, j) ==> x < y
    ensures Digit(x, j) > Digit(y, j) ==> x > y
    ensures Digit(x, j) == Digit(y, j) ==> Up(x, j) == Up(y, j)
  {
    hide Up, Digit;
    UpStep(x, j);
    UpStep(y, j);
    if Digit(x, j) < Digit(y, j) {
      UpLess(x, y, j);
    } else if Digit(x, j) > Digit(y, j) {
      UpLess(y, x, j);
    }
  }

  /** bf_cmpu: exponents first, then the limbs from the top. */
  method CmpU(a: Value, b: Value) returns (c: int)
    ensures a.expn != b.expn ==> c == Order(a.expn, b.expn)
    ensures |a.limbs| == 0 && |b.limbs| == 0 ==> c == Order(a.expn, b.expn)
    ensures a.Proper() && b.Proper() && |a.limbs| > 0 && |b.limbs| > 0
            ==> c == (var i := Least(a.Lowest(), b.Lowest()); Order(Units(a, i), Units(b, i)))
  {
    hide Up, Digit, AlignedA, Units, BPow;
    if a.expn != b.expn {
      c := Order(a.expn, b.expn);
      if a.Proper() && b.Proper() && |a.limbs| > 0 && |b.limbs| > 0 {
        if a.expn < b.expn {
          HigherIsGreater(b, a);
        } else {
          HigherIsGreater(a, b);
        }
      }
      return;
    }
    var la, lb := |a.limbs|, |b.limbs|;
    var len := if la >= lb then la else lb;
    ghost var x, y := AlignedA(a.limbs, len), AlignedA(b.limbs, len);
    SameScale(a, b, len);
    BoundA(a.limbs, len);
    BoundA(b.limbs, len);
    LowAll(x, len);
    LowAll(y, len);
    var i := len;
    while i > 0
      invariant 0 <= i <= len && Up(x, i) == Up(y, i)
    {
      i := i - 1;
      var v1, v2 := LimbZ(a.limbs, la - len + i), LimbZ(b.limbs, lb - len + i);
      DigitA(a.limbs, len, i);
      DigitA(b.limbs, len, i);
      DigitDecides(x, y, i);
      if v1 != v2 {
        return if v1 < v2 then -1 else 1;
      }
    }
    UpZero(x);
    UpZero(y);
    c := 0;
  }

  /** With equal exponents the limbs are compared as they stand. */
  lemma SameScale(a: Value, b: Value, len: nat)
    requires a.expn == b.expn && len == if |a.limbs| >= |b.limbs| then |a.limbs| else |b.limbs|
    ensures var i := Least(a.Lowest(), b.Lowest()); Units(a, i) == AlignedA(a.limbs, len) && Units(b, i) == AlignedA(b.limbs, len)
  {
    hide BPow, Pow2, Val;
    LowestAt(a, len);
    LowestAt(b, len);
    assert Least(a.Lowest(), b.Lowest()) == a.expn - LIMB_BITS * len;
  }

  lemma LowestAt(a: Value, len: nat)
    requires |a.limbs| <= len
    ensures a.expn - LIMB_BITS * len <= a.Lowest()
    ensures Units(a, a.expn - LIMB_BITS * len) == AlignedA(a.limbs, len)
  {
    hide BPow, Pow2, Val;
    BPowIsPow2(len - |a.limbs|);
    Distribute(len - |a.limbs|, |a.limbs|, LIMB_BITS);
    MulNonNeg(len - |a.limbs|, LIMB_BITS);
    assert a.Lowest() - (a.expn - LIMB_BITS * len) == LIMB_BITS * (len - |a.limbs|);
  }

  /** The smaller number, as it stands against the limbs of the greater one. */
  lemma LowestBelow(q: Value, pe: int, tot: nat)
    requires pe >= q.expn && |q.limbs| <= tot && pe - q.expn <= LIMB_BITS * (tot - |q.limbs|)
    ensures pe - LIMB_BITS * tot <= q.Lowest()
    ensures Units(q, pe - LIMB_BITS * tot) == AlignedB(q.limbs, tot, pe - q.expn)
  {
    hide Pow2, Val;
    Distribute(tot - |q.limbs|, |q.limbs|, LIMB_BITS);
    assert q.Lowest() - (pe - LIMB_BITS * tot) == LIMB_BITS * (tot - |q.limbs|) - (pe - q.expn);
  }

  /** Smaller units. */
  lemma FinerUnits(v: Value, i: int, lo: int)
    requires lo <= i <= v.Lowest()
    ensures Units(v, lo) == Units(v, i) * Pow2(i - lo)
  {
    hide Pow2, Val;
    Pow2Add(v.Lowest() - i, i - lo);
    assert v.Lowest() - i + (i - lo) == v.Lowest() - lo;
    MulAssoc(Val(v.limbs), Pow2(v.Lowest() - i), Pow2(i - lo));
  }

  lemma SameOrder(a: Value, b: Value, i: int, lo: int)
    requires lo <= i <= Least(a.Lowest(), b.Lowest())
    ensures Order(Units(a, i), Units(b, i)) == Order(Units(a, lo), Units(b, lo))
  {
    hide Units, Pow2;
    FinerUnits(a, i, lo);
    FinerUnits(b, i, lo);
    ScaledSide(Units(a, i), Units(b, i), Pow2(i - lo));
  }

  lemma HigherIsGreater(p: Value, q: Value)
    requires p.Proper() && q.Proper() && |p.limbs| > 0 && |q.limbs| > 0 && p.expn > q.expn
    ensures var i := Least(p.Lowest(), q.Lowest()); Units(p, i) > Units(q, i)
  {
    hide Units, AlignedA, AlignedB, BPow, Pow2;
    var d := p.expn - q.expn;
    var tot := TotalLength(|p.limbs|, |q.limbs|, d);
    AlignedHalf(p.limbs, tot);
    AlignedBounds(p.limbs, q.limbs, tot, d);
    Pow2Mono(1, d);
    Pow2One();
    MulMono(2, Pow2(d), AlignedB(q.limbs, tot, d));
    LowestAt(p, tot);
    LowestBelow(q, p.expn, tot);
    SameOrder(p, q, Least(p.Lowest(), q.Lowest()), p.expn - LIMB_BITS * tot);
  }

  // Adding.

  lemma TopBitScale(m: nat, i: int, s: nat, e: int)
    requires m > 0
    ensures TopBit(m * Pow2(s), i - s, e) <==> TopBit(m, i, e)
  {
    hide Pow2;
    var w := Pow2(s);
    if e > i {
      Pow2Add(e - i, s);
      Pow2Add(e - i - 1, s);
      assert e - (i - s) == e - i + s && e - (i - s) - 1 == e - i - 1 + s;
      ScaledSide(m, Pow2(e - i), w);
      ScaledSide(m, Pow2(e - i - 1), w);
    } else if e > i - s {
      Pow2Mono(e - (i - s), s);
      MulMono(1, m, w);
    }
  }

  /** The same number in other units is rounded alike. */
  lemma SameOutcome(r: Number, prec: nat, flags: Flags, m: nat, i: int, s: nat, e: int, st: Status)
    requires flags.Valid() && m > 0
    ensures TopBit(m * Pow2(s), i - s, e) && r.Outcome(prec, flags, m * Pow2(s), i - s, e, false, st)
            <==> TopBit(m, i, e) && r.Outcome(prec, flags, m, i, e, false, st)
  {
    hide TopBit, Number.Outcome, Pow2;
    TopBitScale(m, i, s, e);
    OutcomeScale(r, prec, flags, m, i, s, e, false, st);
  }

  /** Two numbers that are finite and not zero. */
  method AddNormal(r: Number, p: Value, q: Value, prec: nat, flags: Flags) returns (st: Status, ghost e: int)
    requires flags.Valid() && !flags.radPoint && prec > 0 && p.Proper() && q.Proper() && |p.limbs| > 0 && |q.limbs| > 0 && p.expn >= q.expn
    requires p.sign != q.sign ==> var i := Least(p.Lowest(), q.Lowest()); Units(p, i) > Units(q, i)
    modifies r, r.tab
    ensures IsSum(r, p, q, prec, flags, e, st, false) && fresh(r.tab)
  {
    hide Units, AlignedA, AlignedB, BPow, Pow2, TopBit, Number.Outcome, Val;
    ghost var i := Least(p.Lowest(), q.Lowest());
    ghost var d := p.expn - q.expn;
    ghost var tot := TotalLength(|p.limbs|, |q.limbs|, d);
    ghost var lo := p.expn - LIMB_BITS * tot;
    LowestAt(p, tot);
    LowestBelow(q, p.expn, tot);
    SameOrder(p, q, i, lo);
    st, e := AddFinite(r, p.limbs, p.expn, q.limbs, q.expn, p.sign, p.sign != q.sign, prec, flags);
    ghost var m := Magnitude(SignedSum(p, q, i));
    SumInUnits(p, q, i, lo, Units(p, i), Units(q, i), Pow2(i - lo));
    PositiveUnits(p, q, i);
    SameOutcome(r, prec, flags, m, i, i - lo, e, st);
    assert i - (i - lo) == lo;
  }

  lemma PositiveUnits(p: Value, q: Value, i: int)
    requires i <= p.Lowest() && i <= q.Lowest() && p.Proper() && |p.limbs| > 0
    ensures Units(p, i) > 0
  {
    hide Pow2, Val, Seg;
    HalfFull(p.limbs, 0, |p.limbs|);
    WholeVal(p.limbs);
    MulPos(Val(p.limbs), Pow2(p.Lowest() - i));
  }

  lemma SumInUnits(p: Value, q: Value, i: int, lo: int, x: nat, y: nat, w: nat)
    requires lo <= i <= Least(p.Lowest(), q.Lowest()) && w == Pow2(i - lo) && x == Units(p, i) && y == Units(q, i)
    requires p.sign != q.sign ==> x > y
    ensures Magnitude(SignedSum(p, q, i)) == (if p.sign != q.sign then x - y else x + y)
    ensures (x + y) * w == Units(p, lo) + Units(q, lo) && (x - y) * w == Units(p, lo) - Units(q, lo)
  {
    hide Pow2, Units;
    FinerUnits(p, i, lo);
    FinerUnits(q, i, lo);
    Distribute(x, y, w);
  }

  lemma SumSwaps(r: Number, a: Value, b: Value, prec: nat, flags: Flags, e: int, st: Status)
    requires flags.Valid() && IsSum(r, a, b, prec, flags, e, st, false)
    ensures IsSum(r, b, a, prec, flags, e, st, false)
  {
    hide Units, TopBit, Number.Outcome;
    assert Least(a.Lowest(), b.Lowest()) == Least(b.Lowest(), a.Lowest());
  }

  /** One of the numbers is zero: the other is rounded. */
  method AddZero(r: Number, a: Value, b: Value, prec: nat, flags: Flags) returns (st: Status, ghost e: int)
    requires flags.Valid() && !flags.radPoint && prec > 0 && a.Proper() && b.Proper() && a.expn < EXP_INF && b.expn == EXP_ZERO
    requires a.expn == EXP_ZERO ==> a.sign == b.sign
    modifies r, r.tab
    ensures IsSum(r, a, b, prec, flags, e, st, false) && fresh(r.tab)
  {
    hide Units, BPow, Pow2, TopBit, Number.Outcome, Seg;
    r.sign, r.expn := a.sign, a.expn;
    r.tab := new Limb[|a.limbs|](k requires 0 <= k < |a.limbs| => a.limbs[k]);
    assert r.tab[..] == a.limbs;
    WholeVal(a.limbs);
    ghost var i, lo := Least(a.Lowest(), b.Lowest()), a.Lowest();
    st, e := NormalizeAndRound(r, prec, flags);
    ZeroUnits(b, i);
    FinerUnits(a, lo, i);
    OwnUnits(a);
    if |a.limbs| > 0 {
      PositiveUnits(a, a, i);
      PositiveUnits(a, a, lo);
      SameOutcome(r, prec, flags, Val(a.limbs), lo, lo - i, e, st);
      assert lo - (lo - i) == i;
    } else {
      ZeroUnits(a, i);
    }
  }

  lemma OwnUnits(a: Value)
    ensures Units(a, a.Lowest()) == Val(a.limbs)
  {
    hide Val;
    PowersOfZero();
  }

  lemma ZeroUnits(b: Value, i: int)
    requires |b.limbs| == 0 && i <= b.Lowest()
    ensures Units(b, i) == 0 && Val(b.limbs) == 0
  {
  }

  /** bf_add_internal, where the sign of b has already been changed for a subtraction. */
  method AddInternal(r: Number, a: Value, b: Value, prec: nat, flags: Flags) returns (st: Status, invalid: bool, ghost e: int)
    requires flags.Valid() && !flags.radPoint && prec > 0 && a.Proper() && b.Proper()
    modifies r, r.tab
    ensures IsSum(r, a, b, prec, flags, e, st, invalid) && fresh(r.tab)
  {
    hide Units, BPow, Pow2, TopBit, Number.Outcome, Seg;
    st, invalid, e := Status(false, false, false), false, 0;
    var isSub := a.sign != b.sign;
    var cmp := CmpU(a, b);
    var p, q := a, b;
    if cmp < 0 {
      p, q := b, a;
    }
    assert Least(a.Lowest(), b.Lowest()) == Least(b.Lowest(), a.Lowest());
    if cmp == 0 && isSub && p.expn < EXP_INF {
      r.SetZero(flags.mode == RNDD);
      if |a.limbs| == 0 {
        ZeroUnits(a, Least(a.Lowest(), b.Lowest()));
        ZeroUnits(b, Least(a.Lowest(), b.Lowest()));
      }
    } else if |p.limbs| == 0 || |q.limbs| == 0 {
      if p.expn >= EXP_INF {
        if p.expn == EXP_NAN {
          r.SetNan();
        } else if q.expn == EXP_INF && isSub {
          r.SetNan();
          invalid := true;
        } else {
          r.SetInf(p.sign);
        }
      } else {
        st, e := AddZero(r, p, q, prec, flags);
        SumSwaps(r, p, q, prec, flags, e, st);
      }
    } else {
      st, e := AddNormal(r, p, q, prec, flags);
      SumSwaps(r, p, q, prec, flags, e, st);
    }
  }

  /** bf_add and bf_sub: the result may be one of the operands. */
  method Add(r: Number, a: Number, b: Number, subtract: bool, prec: nat, flags: Flags) returns (st: Status, invalid: bool, ghost e: int)
    requires flags.Valid() && !flags.radPoint && prec > 0 && a.Now().Proper() && b.Now().Proper()
    modifies r, r.tab
    ensures fresh(r.tab)
    ensures var vb := old(b.Now()); IsSum(r, old(a.Now()), vb.(sign := vb.sign != subtract), prec, flags, e, st, invalid)
  {
    hide IsSum;
    var va, vb := a.Now(), b.Now().(sign := b.sign != subtract);
    if r == a || r == b {
      var tmp := new Number();
      st, invalid, e := AddInternal(tmp, va, vb, prec, flags);
      r.sign, r.expn, r.tab := tmp.sign, tmp.expn, tmp.tab;
      Moved(r, tmp, va, vb, prec, flags, e, st, invalid);
    } else {
      st, invalid, e := AddInternal(r, va, vb, prec, flags);
    }
  }

  lemma Moved(r: Number, t: Number, a: Value, b: Value, prec: nat, flags: Flags, e: int, st: Status, invalid: bool)
    requires flags.Valid() && r.sign == t.sign && r.expn == t.expn && r.tab == t.tab && IsSum(t, a, b, prec, flags, e, st, invalid)
    ensures IsSum(r, a, b, prec, flags, e, st, invalid)
  {
    hide Units, BPow, Pow2, TopBit, Seg, Correct;
  }
}
