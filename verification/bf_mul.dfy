/** Multiplication: the result is the exact product, rounded once. */
module BfMul {
  import opened Arith
  import opened Limbs
  import MpMul
  import opened RoundMath
  import opened BfNumber
  import opened BfScale
  import opened BfNormalize
  import opened BfWindow
  import opened BfSum
  import opened BfAdd
  import opened BfAddition
  import opened BfExact

  /** What r holds is the product of a and b, rounded once. */
  ghost predicate IsProduct(r: Number, a: Value, b: Value, prec: nat, flags: Flags, e: int, st: Status, invalid: bool)
    reads r, r.tab
    requires flags.Valid()
  {
    var quiet := st == CLEAR && r.tab.Length == 0;
    if a.expn == EXP_NAN || b.expn == EXP_NAN then r.expn == EXP_NAN && quiet && !invalid
    else if (a.expn == EXP_INF && b.expn == EXP_ZERO) || (a.expn == EXP_ZERO && b.expn == EXP_INF) then
      r.expn == EXP_NAN && quiet && invalid
    else
      && !invalid
      && r.sign == (a.sign != b.sign)
      && if a.expn == EXP_INF || b.expn == EXP_INF then r.expn == EXP_INF && quiet
         else if a.expn == EXP_ZERO || b.expn == EXP_ZERO then r.expn == EXP_ZERO && quiet
         else
           var m := Times(Val(a.limbs), Val(b.limbs));
           TopBit(m, a.Lowest() + b.Lowest(), e) && r.Outcome(prec, flags, m, a.Lowest() + b.Lowest(), e, false, st)
  }

  ghost function Times(x: nat, y: nat): nat {
    MulNonNeg(x, y);
    x * y
  }

  lemma ProductSwaps(r: Number, a: Value, b: Value, prec: nat, flags: Flags, e: int, st: Status, invalid: bool)
    requires flags.Valid() && IsProduct(r, a, b, prec, flags, e, st, invalid)
    ensures IsProduct(r, b, a, prec, flags, e, st, invalid)
  {
    hide TopBit, Number.Outcome, Val;
    SwapFactors(Val(a.limbs), Val(b.limbs));
  }

  /** Two numbers that are finite and not zero. */
  method MulNormal(r: Number, a: Value, b: Value, prec: nat, flags: Flags) returns (st: Status, ghost e: int)
    requires flags.Valid() && !flags.radPoint && prec > 0 && a.Proper() && b.Proper() && |a.limbs| > 0 && |b.limbs| > 0
    modifies r, r.tab
    ensures IsProduct(r, a, b, prec, flags, e, st, false) && fresh(r.tab)
  {
    hide TopBit, Number.Outcome, Val, Seg;
    var x := new Limb[|a.limbs|](k requires 0 <= k < |a.limbs| => a.limbs[k]);
    var y := new Limb[|b.limbs|](k requires 0 <= k < |b.limbs| => b.limbs[k]);
    assert x[..] == a.limbs && y[..] == b.limbs;
    var t := new Limb[x.Length + y.Length](_ => 0);
    MpMul.Mul(t, 0, x, 0, x.Length, y, 0, y.Length);
    WholeVal(a.limbs);
    WholeVal(b.limbs);
    NormalTop(a.limbs, 0);
    NormalTop(b.limbs, 0);
    MulPos(Val(a.limbs), Val(b.limbs));
    Distribute(x.Length, y.Length, LIMB_BITS);
    r.tab, r.sign, r.expn := t, a.sign != b.sign, a.expn + b.expn;
    st, e := NormalizeAndRound(r, prec, flags);
  }

  /** The limbs that the faithful mode works with. */
  function Kept(prec: nat): (k: nat)
    ensures k > 0 && prec + 2 <= LIMB_BITS * k
  {
    KeptBits(prec + 2);
    (prec + 2 + LIMB_BITS - 1) / LIMB_BITS
  }

  /** In the faithful mode only the highest limbs take part. */
  function Used(v: Value, prec: nat, flags: Flags): (u: Value)
    ensures u.sign == v.sign && u.expn == v.expn && (v.Proper() ==> u.Proper()) && (|u.limbs| == 0 <==> |v.limbs| == 0)
    ensures u == v <==> flags.mode != RNDF || |v.limbs| <= Kept(prec)
  {
    if flags.mode == RNDF && |v.limbs| > Kept(prec) then v.(limbs := v.limbs[|v.limbs| - Kept(prec)..]) else v
  }

  /** bf_mul */
  method MulInternal(r: Number, a1: Value, b1: Value, prec: nat, flags: Flags) returns (st: Status, invalid: bool, ghost e: int)
    requires flags.Valid() && !flags.radPoint && prec > 0 && a1.Proper() && b1.Proper()
    modifies r, r.tab
    ensures IsProduct(r, Used(a1, prec, flags), Used(b1, prec, flags), prec, flags, e, st, invalid) && fresh(r.tab)
  {
    hide TopBit, Number.Outcome;
    st, invalid, e := CLEAR, false, 0;
    var a, b := Used(a1, prec, flags), Used(b1, prec, flags);
    if |a.limbs| < |b.limbs| {
      a, b := b, a;
    }
    var sign := a.sign != b.sign;
    if |b.limbs| == 0 {
      if a.expn == EXP_NAN || b.expn == EXP_NAN {
        r.SetNan();
      } else if a.expn == EXP_INF || b.expn == EXP_INF {
        if (a.expn == EXP_INF && b.expn == EXP_ZERO) || (a.expn == EXP_ZERO && b.expn == EXP_INF) {
          r.SetNan();
          invalid := true;
        } else {
          r.SetInf(sign);
        }
      } else {
        r.SetZero(sign);
      }
    } else {
      st, e := MulNormal(r, a, b, prec, flags);
      ProductSwaps(r, a, b, prec, flags, e, st, false);
    }
  }

  /** The product may be written over one of the operands. */
  method Mul(r: Number, a: Number, b: Number, prec: nat, flags: Flags) returns (st: Status, invalid: bool, ghost e: int)
    requires flags.Valid() && !flags.radPoint && prec > 0 && a.Now().Proper() && b.Now().Proper()
    modifies r, r.tab
    ensures var va, vb := old(a.Now()), old(b.Now());
            IsProduct(r, Used(va, prec, flags), Used(vb, prec, flags), prec, flags, e, st, invalid) && fresh(r.tab)
  {
    hide IsProduct, Used;
    var va, vb := a.Now(), b.Now();
    if r == a || r == b {
      var tmp := new Number();
      st, invalid, e := MulInternal(tmp, va, vb, prec, flags);
      r.sign, r.expn, r.tab := tmp.sign, tmp.expn, tmp.tab;
      ProductMoved(r, tmp, Used(va, prec, flags), Used(vb, prec, flags), prec, flags, e, st, invalid);
    } else {
      st, invalid, e := MulInternal(r, va, vb, prec, flags);
    }
  }

  lemma ProductMoved(r: Number, t: Number, a: Value, b: Value, prec: nat, flags: Flags, e: int, st: Status, invalid: bool)
    requires flags.Valid() && r.sign == t.sign && r.expn == t.expn && r.tab == t.tab && IsProduct(t, a, b, prec, flags, e, st, invalid)
    ensures IsProduct(r, a, b, prec, flags, e, st, invalid)
  {
    hide TopBit, Seg, Correct, Val, BPow, Pow2;
  }

  // Exact products.

  lemma SameProduct(m: nat, i: int, x: nat, i': int, n: nat, j: int, y: nat, j': int)
    requires SameValue(m, i, x, i') && SameValue(n, j, y, j')
    ensures SameValue(Times(m, n), i + j, Times(x, y), i' + j')
  {
    hide Pow2;
    var b, c := Least(i, i'), Least(j, j');
    SameAt(m, i, x, i', b);
    SameAt(n, j, y, j', c);
    Pow2Add(i - b, j - c);
    Pow2Add(i' - b, j' - c);
    assert i + j - (b + c) == i - b + (j - c) && i' + j' - (b + c) == i' - b + (j' - c);
    FourFactors(m, Pow2(i - b), n, Pow2(j - c));
    FourFactors(x, Pow2(i' - b), y, Pow2(j' - c));
    SameAt(Times(m, n), i + j, Times(x, y), i' + j', b + c);
  }

  lemma FourFactors(m: int, p: int, n: int, q: int)
    ensures m * p * (n * q) == m * n * (p * q)
  {
    MulAssoc(m, p, n * q);
    MulAssoc(p, n, q);
    MulAssoc(n, p, q);
    SwapFactors(p, n);
    MulAssoc(m, n, p * q);
  }

  lemma MagnitudeProduct(x: int, y: int)
    ensures Times(Magnitude(x), Magnitude(y)) == Magnitude(x * y)
    ensures x != 0 && y != 0 ==> x * y != 0 && (x * y < 0 <==> (x < 0) != (y < 0))
    ensures x == 0 || y == 0 ==> x * y == 0
  {
    var u, v := Magnitude(x), Magnitude(y);
    if x != 0 && y != 0 {
      MulPos(u, v);
    }
    Negated(x, y);
    Negated(y, x);
    SwapFactors(x, y);
    Negated(x, -y);
    SwapFactors(x, -y);
  }

  lemma ProductHolds(r: Number, a: Value, b: Value, x: int, y: int, e: int, st: Status, invalid: bool)
    requires EXACT.Valid() && Holds(a, x) && Holds(b, y) && InRange(x * y) && IsProduct(r, a, b, PREC_INF, EXACT, e, st, invalid)
    ensures Holds(r.Now(), x * y) && st == CLEAR && !invalid
  {
    hide Number.Outcome, TopBit, SameValue, Pow2, BPow, Val;
    MagnitudeProduct(x, y);
    SizeTop(a, Magnitude(x));
    SizeTop(b, Magnitude(y));
    if x == 0 || y == 0 {
      ZeroHolds(r.Now());
    } else {
      SameProduct(Val(a.limbs), a.Lowest(), Magnitude(x), 0, Val(b.limbs), b.Lowest(), Magnitude(y), 0);
      NormalTop(a.limbs, 0);
      NormalTop(b.limbs, 0);
      MulPos(Val(a.limbs), Val(b.limbs));
      ExactResult(r, Times(Val(a.limbs), Val(b.limbs)), a.Lowest() + b.Lowest(), Magnitude(x * y), e, st);
    }
  }

  /** bf_mul with infinite precision. */
  method MulExact(r: Number, a: Value, b: Value, ghost x: int, ghost y: int) returns (st: Status)
    requires Holds(a, x) && Holds(b, y) && InRange(x * y)
    modifies r, r.tab
    ensures Holds(r.Now(), x * y) && fresh(r.tab) && st == CLEAR
  {
    hide IsProduct, Size, InRange;
    ExactRange();
    Finite(a, b, x, y);
    var invalid;
    ghost var e;
    st, invalid, e := MulInternal(r, a, b, PREC_INF, EXACT);
    ProductHolds(r, a, b, x, y, e, st, invalid);
  }
}
