/** Division: the result is the exact quotient, rounded once. */
module BfDiv {
  import opened Arith
  import opened Limbs
  import opened MpLinear
  import opened MpUdiv
  import opened MpDivNorm
  import MpRecip
  import opened RoundMath
  import opened BfBits
  import opened BfRound
  import opened BfNumber
  import opened BfScale
  import opened BfNormalize
  import opened BfSum
  import opened BfAdd
  import opened BfExact
  import opened BfMul

  /** 2^k, where negative k stand for 1. */
  ghost function Scale(k: int): (w: nat)
    ensures w > 0
  {
    if k >= 0 then Pow2(k) else 1
  }

  /** The numerator and the denominator of (x / d) * 2^p, counted in units 2^j. */
  ghost function Over(x: nat, p: int, j: int): nat {
    Times(x, Scale(p - j))
  }

  ghost function Under(d: nat, p: int, j: int): (u: nat)
    requires d > 0
    ensures u > 0
  {
    MulPos(d, Scale(j - p));
    Times(d, Scale(j - p))
  }

  /** m' * 2^i' is (x / d) * 2^p, rounded to a multiple of 2^j, and inexact says whether that changed it. */
  ghost predicate CorrectQuotient(mode: Mode, negative: bool, x: nat, p: int, d: nat, j: int, m': nat, i': int, inexact: bool)
    requires d > 0
  {
    && (exists n: nat :: IsRounding(Settled(mode), negative, Over(x, p, j), Under(d, p, j), n) && SameValue(m', i', n, j))
    && (inexact <==> mode == RNDF || Over(x, p, j) % Under(d, p, j) != 0)
  }

  /** (x / d) * 2^p, rounded to a multiple of 2^j, is at least 2^e. */
  ghost predicate QuotientReaches(mode: Mode, negative: bool, x: nat, p: int, d: nat, j: int, e: int)
    requires d > 0
  {
    j <= e && RoundsUpTo(Settled(mode), negative, Over(x, p, j), Under(d, p, j), Pow2(e - j))
  }

  /** (x / d) * 2^p is at least 2^(e-1) and less than 2^e. */
  ghost predicate TopOfQuotient(x: nat, p: int, d: nat, e: int)
    requires d > 0
  {
    Under(d, p, e - 1) <= Over(x, p, e - 1) && Over(x, p, e) < Under(d, p, e)
  }

  /** The same comparison, with lower units. */
  lemma LowerUnits(x: nat, p: int, d: nat, j: int, i: int)
    requires d > 0 && i <= p && i <= j
    ensures var w := Pow2(Least(p, j) - i); Over(x, p, j) * w == x * Pow2(p - i) && Under(d, p, j) * w == d * Pow2(j - i)
  {
    hide Pow2;
    var w := Pow2(Least(p, j) - i);
    PowersOfZero();
    Pow2Add(if p >= j then p - j else j - p, Least(p, j) - i);
    assert Scale(p - j) * w == Pow2(p - i) && Scale(j - p) * w == Pow2(j - i);
    MulAssoc(x, Scale(p - j), w);
    MulAssoc(d, Scale(j - p), w);
  }

  lemma QuotientTop(x: nat, p: int, d: nat, q: nat, f: nat, i: int, e: int)
    requires f < d && i <= p && x * Pow2(p - i) == q * d + f && (f == 0 || q >= 2) && TopBit(Sticky(q, f), i, e)
    ensures TopOfQuotient(x, p, d, e)
  {
    hide Pow2, Over, Under, Sticky;
    StickyBetween(q, f, d, e - i);
    LowerUnits(x, p, d, e - 1, i);
    LowerUnits(x, p, d, e, i);
    SwapFactors(d, Pow2(e - 1 - i));
    SwapFactors(d, Pow2(e - i));
    ScaledSide(Over(x, p, e - 1), Under(d, p, e - 1), Pow2(Least(p, e - 1) - i));
    ScaledSide(Over(x, p, e), Under(d, p, e), Pow2(Least(p, e) - i));
  }

  /** Rounding the quotient q and a bit for the remainder f is rounding the exact quotient. */
  lemma QuotientCorrect(mode: Mode, negative: bool, x: nat, p: int, d: nat, q: nat, f: nat, i: int, j: int, m': nat, i': int, inexact: bool)
    requires f < d && i <= p && x * Pow2(p - i) == q * d + f && (f == 0 || j >= i + 2)
    requires Correct(mode, negative, Sticky(q, f), i, j, m', i', inexact, false)
    ensures CorrectQuotient(mode, negative, x, p, d, j, m', i', inexact)
  {
    hide Pow2, Over, Under, Sticky, IsRounding, SameValue;
    var mode' := Settled(mode);
    if j > i {
      var u := Pow2(j - i);
      var n :| IsRounding(mode', negative, Sticky(q, f), u, n) && SameValue(m', i', n, j);
      ExactQuotient(mode', negative, x, p, d, q, f, i, j, n);
    } else {
      StickyNone(q);
      var n := Times(q, Pow2(i - j));
      SameScaled(q, i, i - j);
      SameSym(n, j, q, i);
      SameTrans(m', i', q, i, n, j);
      WholeQuotient(x, p, d, q, i, j);
      ExactRounds(mode', negative, Over(x, p, j), Under(d, p, j), n);
      DivModUnique(Over(x, p, j), Under(d, p, j), n, 0);
    }
  }

  lemma ExactQuotient(mode: Mode, negative: bool, x: nat, p: int, d: nat, q: nat, f: nat, i: int, j: int, n: nat)
    requires f < d && i <= p && x * Pow2(p - i) == q * d + f && (f == 0 || j >= i + 2) && j > i
    ensures IsRounding(mode, negative, Over(x, p, j), Under(d, p, j), n) <==> IsRounding(mode, negative, Sticky(q, f), Pow2(j - i), n)
    ensures Over(x, p, j) % Under(d, p, j) != 0 <==> Sticky(q, f) % Pow2(j - i) != 0
  {
    hide Pow2, Over, Under, Sticky, IsRounding;
    ShortQuotient(mode, negative, q, f, d, j - i, n);
    LowerUnits(x, p, d, j, i);
    SwapFactors(d, Pow2(j - i));
    var w := Pow2(Least(p, j) - i);
    ScaleRounding(mode, negative, Over(x, p, j), Under(d, p, j), n, w);
    ScaleRemainder(Over(x, p, j), Under(d, p, j), w);
  }

  /** Both reach the same powers of two. */
  lemma QuotientReachesSame(mode: Mode, negative: bool, x: nat, p: int, d: nat, q: nat, f: nat, i: int, j: int, e: int)
    requires f < d && i <= p && x * Pow2(p - i) == q * d + f && (f == 0 || j >= i + 2)
    ensures Reaches(mode, negative, Sticky(q, f), i, j, e) <==> QuotientReaches(mode, negative, x, p, d, j, e)
  {
    hide Pow2, Over, Under, Sticky, IsRounding, AtLeastPower;
    var mode' := Settled(mode);
    if j > i {
      forall n: nat ensures IsRounding(mode', negative, Over(x, p, j), Under(d, p, j), n) <==> IsRounding(mode', negative, Sticky(q, f), Pow2(j - i), n) {
        ExactQuotient(mode', negative, x, p, d, q, f, i, j, n);
      }
      if j <= e {
        RoundsUpToSame(mode', negative, Over(x, p, j), Under(d, p, j), Sticky(q, f), Pow2(j - i), Pow2(e - j));
      }
    } else if j <= e {
      StickyNone(q);
      var k, u := Times(q, Pow2(i - j)), Under(d, p, j);
      WholeQuotient(x, p, d, q, i, j);
      ExactRounds(mode', negative, Over(x, p, j), u, k);
      forall n: nat | IsRounding(mode', negative, Over(x, p, j), u, n) ensures n == k {
        MultipleStays(mode', negative, k, u, n);
      }
      PowerScale(q, i, i - j, e);
      assert i - (i - j) == j;
      UnitsAtLeast(k, j, e);
    }
  }

  lemma WholeQuotient(x: nat, p: int, d: nat, q: nat, i: int, j: int)
    requires d > 0 && j <= i <= p && x * Pow2(p - i) == q * d
    ensures Over(x, p, j) == Times(q, Pow2(i - j)) * Under(d, p, j)
  {
    hide Pow2;
    PowersOfZero();
    assert Under(d, p, j) == d;
    Pow2Add(p - i, i - j);
    assert p - i + (i - j) == p - j;
    MulAssoc(x, Pow2(p - i), Pow2(i - j));
    MulAssoc(q, d, Pow2(i - j));
    MulAssoc(q, Pow2(i - j), d);
    SwapFactors(d, Pow2(i - j));
  }

  lemma ShortQuotient(mode: Mode, negative: bool, q: nat, f: nat, d: nat, k: nat, n: nat)
    requires f < d && (f == 0 || k >= 2)
    ensures Times(q, d) + f >= 0 && Pow2(k) * d > 0
    ensures IsRounding(mode, negative, Times(q, d) + f, Pow2(k) * d, n) <==> IsRounding(mode, negative, Sticky(q, f), Pow2(k), n)
    ensures Sticky(q, f) % Pow2(k) != 0 <==> (Times(q, d) + f) % (Pow2(k) * d) != 0
  {
    hide Pow2, IsRounding, Sticky;
    var u := Pow2(k);
    MulPos(u, d);
    if f == 0 {
      StickyNone(q);
      ScaleRounding(mode, negative, q, u, n, d);
      ScaleRemainder(q, u, d);
    } else {
      Pow2Four(k);
      StickyRounds(mode, negative, q, f, d, u, n);
      StickyInexact(q, f, d, k);
    }
  }

  // The method.

  datatype Exception = Normal | InvalidOp | DivideByZero

  /** What r holds is the quotient of a and b, rounded once. */
  ghost predicate IsQuotient(r: Number, a: Value, b: Value, prec: nat, flags: Flags, e: int, st: Status, exn: Exception)
    reads r, r.tab
    requires flags.Valid()
  {
    var quiet := st == CLEAR && r.tab.Length == 0;
    if a.expn == EXP_NAN || b.expn == EXP_NAN then r.expn == EXP_NAN && quiet && exn == Normal
    else if (a.expn == EXP_INF && b.expn == EXP_INF) || (a.expn == EXP_ZERO && b.expn == EXP_ZERO) then
      r.expn == EXP_NAN && quiet && exn == InvalidOp
    else
      && r.sign == (a.sign != b.sign)
      && if a.expn == EXP_INF then r.expn == EXP_INF && quiet && exn == Normal
         else if b.expn == EXP_INF || a.expn == EXP_ZERO then r.expn == EXP_ZERO && quiet && exn == Normal
         else if b.expn == EXP_ZERO then r.expn == EXP_INF && quiet && exn == DivideByZero
         else
           var x, p, d := Val(a.limbs), a.Lowest() - b.Lowest(), Val(b.limbs);
           && exn == Normal && d > 0 && TopOfQuotient(x, p, d, e)
           && QuotientOutcome(r, prec, flags, x, p, d, e, st)
  }

  /** What rounding leaves of the quotient (x / d) * 2^p, whose top bit has the weight 2^(e-1). */
  ghost predicate QuotientOutcome(r: Number, prec: nat, flags: Flags, x: nat, p: int, d: nat, e: int, st: Status)
    reads r, r.tab
    requires flags.Valid() && d > 0
  {
    var j := LastPlace(prec, flags, e);
    r.Ranged(prec, flags, e, CorrectQuotient(flags.mode, r.sign, x, p, d, j, r.Mantissa(r.tab.Length), r.expn - LIMB_BITS * r.tab.Length, st.inexact),
             QuotientReaches(flags.mode, r.sign, x, p, d, j, e), st)
  }

  lemma RangedImplied(r: Number, prec: nat, flags: Flags, e: int, correct: bool, correct': bool, reaches: bool, st: Status)
    requires flags.Valid() && r.Ranged(prec, flags, e, correct, reaches, st) && (correct ==> correct')
    ensures r.Ranged(prec, flags, e, correct', reaches, st)
  {
    hide Number.Overflowed, Number.Normal;
  }

  lemma QuotientIsRounded(r: Number, prec: nat, flags: Flags, x: nat, p: int, d: nat, q: nat, f: nat, i: int, e: int, st: Status)
    requires flags.Valid() && !flags.radPoint
    requires f < d && i <= p && x * Pow2(p - i) == q * d + f && q >= Pow2(prec + 1)
    requires TopBit(Sticky(q, f), i, e) && r.Outcome(prec, flags, Sticky(q, f), i, e, false, st)
    ensures TopOfQuotient(x, p, d, e) && QuotientOutcome(r, prec, flags, x, p, d, e, st)
  {
    hide Pow2, Correct, Reaches, CorrectQuotient, QuotientReaches, TopOfQuotient, Number.Ranged, TopBit, LastPlace, Sticky;
    var j, m', i' := LastPlace(prec, flags, e), r.Mantissa(r.tab.Length), r.expn - LIMB_BITS * r.tab.Length;
    TopAbove(q, f, i, e, prec);
    LastPlaceAtLeast(prec, flags, e);
    Pow2Mono(1, prec + 1);
    Pow2One();
    QuotientTop(x, p, d, q, f, i, e);
    QuotientReachesSame(flags.mode, r.sign, x, p, d, q, f, i, j, e);
    if Correct(flags.mode, r.sign, Sticky(q, f), i, j, m', i', st.inexact, false) {
      QuotientCorrect(flags.mode, r.sign, x, p, d, q, f, i, j, m', i', st.inexact);
    }
    RangedImplied(r, prec, flags, e, Correct(flags.mode, r.sign, Sticky(q, f), i, j, m', i', st.inexact, false),
                  CorrectQuotient(flags.mode, r.sign, x, p, d, j, m', i', st.inexact),
                  Reaches(flags.mode, r.sign, Sticky(q, f), i, j, e), st);
  }

  /** The quotient has all the bits that decide the rounding. */
  lemma EnoughQuotient(x: nat, la: nat, d: nat, nb: nat, c: nat, n: nat, prec: nat, q: nat, f: nat)
    requires BPow(la) <= 2 * x && d < BPow(nb) && f < d && la + c == n + nb && x * BPow(c) == q * d + f
    requires 0 < n && prec + 2 <= LIMB_BITS * n
    ensures q >= Pow2(prec + 1)
  {
    hide BPow, Pow2;
    var h, t := Pow2(LIMB_BITS * n - 1), BPow(nb);
    BPowAdd(la, c);
    BPowAdd(n, nb);
    BPowIsPow2(n);
    Doubled(LIMB_BITS * n);
    MulMono(BPow(la), 2 * x, BPow(c));
    MulAssoc(2, x, BPow(c));
    MulAssoc(2, h, t);
    Pow2Mono(prec + 1, LIMB_BITS * n - 1);
    if q < h {
      MulMono(q + 1, h, d);
      Distribute(q, 1, d);
      MulStrict(d, t, h);
      SwapFactors(h, d);
      SwapFactors(h, t);
      assert false;
    }
  }

  /** The limbs of the quotient, with their last bit set when there is a remainder. */
  method DivLimbs(a: seq<Limb>, b: seq<Limb>, n: nat) returns (r: array<Limb>, ghost q: nat, ghost f: nat)
    requires 0 < |a| <= n && 0 < |b| && Normalised(b[|b| - 1])
    ensures fresh(r) && r.Length == n + 1 && Val(r[..]) == Sticky(q, f)
    ensures f < Val(b) && Val(a) * BPow(n + |b| - |a|) == q * Val(b) + f
  {
    hide BPow, Val, Seg, Sticky;
    var nb, na := |b|, n + |b|;
    var c := na - |a|;
    var x := new Limb[na](k requires 0 <= k < na => if k < c then 0 else a[k - c]);
    var y := new Limb[nb](k requires 0 <= k < nb => b[k]);
    assert y[..] == b;
    Shifted(x[..], a, c);
    r := new Limb[n + 1](_ => 0);
    MpRecip.DivNorm(r, 0, x, 0, na, y, 0, nb);
    WholeVal(b);
    q, f := Seg(r[..], 0, n + 1), Seg(x[..], 0, nb);
    ghost var s := r[..];
    WholeVal(s);
    var nz := ScanNz(x, 0, nb);
    if nz && r[0] as int % 2 == 0 {
      EvenLimb(r[0]);
      r[0] := r[0] as int + 1;
    }
    SetLastBit(s, r[..], q, f);
  }

  lemma EvenLimb(v: Limb)
    requires v as int % 2 == 0
    ensures v as int + 1 < B
  {
  }

  lemma Shifted(x: seq<Limb>, a: seq<Limb>, c: nat)
    requires |x| == c + |a| && forall k :: 0 <= k < |x| ==> x[k] == if k < c then 0 else a[k - c]
    ensures Seg(x, 0, |x|) == Val(a) * BPow(c)
  {
    hide BPow, Val, Seg;
    SegSplit(x, 0, |x|, c);
    SegZero(x, 0, c);
    MovedSeg(x, a, c);
    SwapFactors(Val(a), BPow(c));
  }

  lemma MovedSeg(x: seq<Limb>, a: seq<Limb>, c: nat)
    requires |x| == c + |a| && forall k :: c <= k < |x| ==> x[k] == a[k - c]
    ensures Seg(x, c, |a|) == Val(a)
  {
    assert x[c..c + |a|] == a;
  }

  /** Two numbers that are finite and not zero. */
  method DivNormal(r: Number, a: Value, b: Value, prec: nat, flags: Flags) returns (st: Status, ghost e: int)
    requires flags.Valid() && !flags.radPoint && prec > 0 && a.Proper() && b.Proper() && |a.limbs| > 0 && |b.limbs| > 0
    modifies r, r.tab
    ensures IsQuotient(r, a, b, prec, flags, e, st, Normal) && fresh(r.tab)
  {
    hide BPow, Pow2, TopBit, Number.Outcome, Val, Seg, Sticky, TopOfQuotient, QuotientOutcome;
    var precl := (prec + 2 + LIMB_BITS - 1) / LIMB_BITS;
    KeptBits(prec + 2);
    var la, nb := |a.limbs|, |b.limbs|;
    var n := if la >= precl then la else precl;
    MulMono(precl, n, LIMB_BITS);
    var t, q, f := DivLimbs(a.limbs, b.limbs, n);
    ghost var c := n + nb - la;
    HalfFull(a.limbs, 0, la);
    WholeVal(a.limbs);
    ValBound(b.limbs);
    EnoughQuotient(Val(a.limbs), la, Val(b.limbs), nb, c, n, prec, q, f);
    BPowIsPow2(c);
    r.tab, r.expn, r.sign := t, a.expn - b.expn + LIMB_BITS, a.sign != b.sign;
    ghost var i, p := r.expn - LIMB_BITS * (n + 1), a.Lowest() - b.Lowest();
    DivPositions(a, b, n, i);
    WholeVal(t[..]);
    StickyPositive(q, f);
    st, e := NormalizeAndRound(r, prec, flags);
    QuotientIsRounded(r, prec, flags, Val(a.limbs), p, Val(b.limbs), q, f, i, e, st);
  }

  lemma DivPositions(a: Value, b: Value, n: nat, i: int)
    requires |a.limbs| <= n && i == a.expn - b.expn + LIMB_BITS - LIMB_BITS * (n + 1)
    ensures a.Lowest() - b.Lowest() - i == LIMB_BITS * (n + |b.limbs| - |a.limbs|) >= 0
  {
    Distribute(n, |b.limbs|, LIMB_BITS);
    Distribute(n + |b.limbs|, |a.limbs|, LIMB_BITS);
    Distribute(n, 1, LIMB_BITS);
    MulNonNeg(n + |b.limbs| - |a.limbs|, LIMB_BITS);
  }

  /** __bf_div */
  method DivInternal(r: Number, a: Value, b: Value, prec: nat, flags: Flags) returns (st: Status, exn: Exception, ghost e: int)
    requires flags.Valid() && !flags.radPoint && prec > 0 && a.Proper() && b.Proper()
    modifies r, r.tab
    ensures IsQuotient(r, a, b, prec, flags, e, st, exn) && fresh(r.tab)
  {
    hide TopOfQuotient, QuotientOutcome;
    st, exn, e := CLEAR, Normal, 0;
    var sign := a.sign != b.sign;
    if a.expn >= EXP_INF || b.expn >= EXP_INF {
      if a.expn == EXP_NAN || b.expn == EXP_NAN {
        r.SetNan();
      } else if a.expn == EXP_INF && b.expn == EXP_INF {
        r.SetNan();
        exn := InvalidOp;
      } else if a.expn == EXP_INF {
        r.SetInf(sign);
      } else {
        r.SetZero(sign);
      }
    } else if a.expn == EXP_ZERO {
      if b.expn == EXP_ZERO {
        r.SetNan();
        exn := InvalidOp;
      } else {
        r.SetZero(sign);
      }
    } else if b.expn == EXP_ZERO {
      r.SetInf(sign);
      exn := DivideByZero;
    } else {
      st, e := DivNormal(r, a, b, prec, flags);
    }
  }

  /** bf_div: the quotient may be written over one of the operands. */
  method Divide(r: Number, a: Number, b: Number, prec: nat, flags: Flags) returns (st: Status, exn: Exception, ghost e: int)
    requires flags.Valid() && !flags.radPoint && prec > 0 && a.Now().Proper() && b.Now().Proper()
    modifies r, r.tab
    ensures IsQuotient(r, old(a.Now()), old(b.Now()), prec, flags, e, st, exn) && fresh(r.tab)
  {
    hide IsQuotient;
    var va, vb := a.Now(), b.Now();
    if r == a || r == b {
      var tmp := new Number();
      st, exn, e := DivInternal(tmp, va, vb, prec, flags);
      r.sign, r.expn, r.tab := tmp.sign, tmp.expn, tmp.tab;
      QuotientMoved(r, tmp, va, vb, prec, flags, e, st, exn);
    } else {
      st, exn, e := DivInternal(r, va, vb, prec, flags);
    }
  }

  lemma QuotientMoved(r: Number, t: Number, a: Value, b: Value, prec: nat, flags: Flags, e: int, st: Status, exn: Exception)
    requires flags.Valid() && r.sign == t.sign && r.expn == t.expn && r.tab == t.tab && IsQuotient(t, a, b, prec, flags, e, st, exn)
    ensures IsQuotient(r, a, b, prec, flags, e, st, exn)
  {
    hide TopOfQuotient, CorrectQuotient, QuotientReaches, Seg, Val, BPow, Pow2;
  }
}
