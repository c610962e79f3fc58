/** Addition and subtraction: the result is the exact sum, rounded once. */
module BfAdd {
  import opened Arith
  import opened Limbs
  import opened MpUdiv
  import opened MpDivNorm
  import opened RoundMath
  import opened BfBits
  import opened BfRound
  import opened BfNumber
  import opened BfScale
  import opened BfNormalize
  import opened BfSum
  import opened BfCancel

  /** The number of limbs that hold a and b exactly when b stands d bits lower. */
  function TotalLength(na: nat, nb: nat, d: nat): (tot: nat)
    ensures Fits(na, nb, tot, d)
  {
    var up := nb + (d + LIMB_BITS - 1) / LIMB_BITS;
    LengthFits(nb, d);
    if na >= up then LengthGrows(na - nb, (d + LIMB_BITS - 1) / LIMB_BITS, d); na else up
  }

  lemma LengthFits(nb: nat, d: nat)
    ensures (d + LIMB_BITS - 1) / LIMB_BITS >= 0 && d <= LIMB_BITS * ((d + LIMB_BITS - 1) / LIMB_BITS)
  {
    Euclid(d + LIMB_BITS - 1, LIMB_BITS);
  }

  lemma LengthGrows(x: nat, y: nat, d: nat)
    requires y <= x && d <= LIMB_BITS * y
    ensures d <= LIMB_BITS * x
  {
    MulMono(y, x, LIMB_BITS);
  }

  /** The exact sum or difference, as a number of tot limbs. */
  ghost function Exact(a: seq<Limb>, b: seq<Limb>, d: nat, sub: bool, tot: nat): int
    requires Fits(|a|, |b|, tot, d)
  {
    if sub then AlignedA(a, tot) - AlignedB(b, tot, d) else AlignedA(a, tot) + AlignedB(b, tot, d)
  }

  /** No more than c leading bits of e are zero. */
  ghost predicate Cancels(e: int, tot: nat, c: nat) {
    BPow(tot) <= e * Pow2(c + 1)
  }

  lemma AlignedHalf(a: seq<Limb>, tot: nat)
    requires 0 < |a| <= tot && Normalised(a[|a| - 1])
    ensures BPow(tot) <= 2 * AlignedA(a, tot)
  {
    hide BPow, Val;
    HalfFull(a, 0, |a|);
    WholeVal(a);
    BPowAdd(|a|, tot - |a|);
    MulMono(BPow(|a|), 2 * Val(a), BPow(tot - |a|));
    MulAssoc(2, Val(a), BPow(tot - |a|));
  }

  lemma AdditionCancels(a: seq<Limb>, b: seq<Limb>, d: nat, tot: nat)
    requires Fits(|a|, |b|, tot, d) && 0 < |a| && Normalised(a[|a| - 1])
    ensures Cancels(Exact(a, b, d, false, tot), tot, 0)
  {
    hide BPow, AlignedA, AlignedB;
    AlignedHalf(a, tot);
    assert Pow2(1) == 2;
  }

  lemma FarCancels(a: seq<Limb>, b: seq<Limb>, d: nat, tot: nat)
    requires Fits(|a|, |b|, tot, d) && 0 < |a| && Normalised(a[|a| - 1]) && d >= 2
    ensures Cancels(Exact(a, b, d, true, tot), tot, 1)
  {
    hide BPow, AlignedA, AlignedB;
    AlignedHalf(a, tot);
    AlignedBounds(a, b, tot, d);
    Pow2Mono(2, d);
    assert Pow2(2) == 4;
    MulMono(4, Pow2(d), AlignedB(b, tot, d));
  }

  /** One more limb at the bottom multiplies both numbers by the base. */
  lemma OneMoreLimb(a: seq<Limb>, b: seq<Limb>, d: nat, tot: nat)
    requires Fits(|a|, |b|, tot, d)
    ensures Fits(|a|, |b|, tot + 1, d)
    ensures AlignedA(a, tot + 1) == B * AlignedA(a, tot) && AlignedB(b, tot + 1, d) == B * AlignedB(b, tot, d)
  {
    hide BPow, Pow2, Val;
    BPowSucc(tot - |a|);
    MulAssoc(Val(a), B, BPow(tot - |a|));
    MulAssoc(B, Val(a), BPow(tot - |a|));
    Distribute(tot - |b|, 1, LIMB_BITS);
    var k := LIMB_BITS * (tot - |b|) - d;
    Pow2Add(LIMB_BITS, k);
    BaseIsPow2();
    assert LIMB_BITS * (tot + 1 - |b|) - d == LIMB_BITS + k;
    MulAssoc(Val(b), B, Pow2(k));
    MulAssoc(B, Val(b), Pow2(k));
  }

  lemma NearCancels(a: seq<Limb>, b: seq<Limb>, d: nat, tot: nat, n: nat)
    requires Fits(|a|, |b|, tot, d) && Fits(|a|, |b|, tot + 1, d) && n < LIMB_BITS * (tot + 1)
    requires Stops(AlignedA(a, tot + 1), AlignedB(b, tot + 1, d), LIMB_BITS * (tot + 1) - n)
    ensures Cancels(Exact(a, b, d, true, tot), tot, n)
  {
    hide BPow, Pow2, AlignedA, AlignedB, Stops;
    var x, y, e := AlignedA(a, tot), AlignedB(b, tot, d), Exact(a, b, d, true, tot);
    var s := LIMB_BITS * (tot + 1) - n;
    OneMoreLimb(a, b, d, tot);
    DifferenceAtLeast(AlignedA(a, tot + 1), AlignedB(b, tot + 1, d), s);
    Distribute(x, y, B);
    BPowIsPow2(tot + 1);
    BPowSucc(tot);
    Pow2Add(s - 1, n + 1);
    assert s - 1 + (n + 1) == LIMB_BITS * (tot + 1);
    CancelBase(e, Pow2(s - 1), Pow2(n + 1), BPow(tot));
  }

  lemma CancelBase(e: int, p: nat, q: nat, t: nat)
    requires p <= B * e && p * q == B * t
    ensures t <= e * q
  {
    MulMono(p, B * e, q);
    MulAssoc(B, e, q);
    if e * q < t {
      MulStrict(e * q, t, B);
    }
  }

  /** With the bits that the subtraction can lose and two more, the limbs kept hold all the bits that decide the rounding. */
  lemma EnoughBits(e: int, tot: nat, c: nat, prec: nat, rLen: nat, top: nat, f: nat)
    requires rLen <= tot && Cancels(e, tot, c) && c + prec + 2 <= LIMB_BITS * rLen && f < BPow(tot - rLen)
    requires e == top * BPow(tot - rLen) + f
    ensures top >= Pow2(prec + 1)
  {
    hide BPow, Pow2;
    var p, w, q := BPow(tot - rLen), Pow2(prec + 1), Pow2(c + 1);
    if top < w {
      MulMono(top + 1, w, p);
      Distribute(top, 1, p);
      MulStrict(e, w * p, q);
      Pow2Add(prec + 1, c + 1);
      Pow2Mono(prec + 1 + (c + 1), LIMB_BITS * rLen);
      BPowIsPow2(rLen);
      BPowAdd(rLen, tot - rLen);
      MulAssoc(w, p, q);
      MulAssoc(p, w, q);
      SwapFactors(p, w * q);
      MulMono(w * q, BPow(rLen), p);
      assert false;
    }
  }

  /** The short number has its top bit where the exact one, top + f / w, has it. */
  lemma StickyBetween(top: nat, f: nat, w: nat, g: nat)
    requires g > 0 && f < w && Pow2(g - 1) <= Sticky(top, f) < Pow2(g) && (f == 0 || top >= 2)
    ensures Pow2(g - 1) * w <= top * w + f < Pow2(g) * w
  {
    hide Pow2;
    if f != 0 && top % 2 == 0 {
      EvenPower(top, g);
    }
    MulMono(Pow2(g - 1), top, w);
    MulMono(top + 1, Pow2(g), w);
    Distribute(top, 1, w);
  }

  lemma StickyTop(top: nat, f: nat, t: nat, i: int, e: int)
    requires f < Pow2(t) && TopBit(Sticky(top, f), i, e) && (f == 0 || top >= 2)
    ensures TopBit(top * Pow2(t) + f, i - t, e)
  {
    hide Pow2;
    var g := e - i;
    Pow2Add(g, t);
    Pow2Add(g - 1, t);
    assert e - (i - t) == g + t && g + t - 1 == g - 1 + t;
    StickyBetween(top, f, Pow2(t), g);
  }

  lemma EvenPower(top: nat, g: nat)
    requires g > 0 && top >= 2 && top % 2 == 0 && Pow2(g - 1) <= top + 1 < Pow2(g)
    ensures Pow2(g - 1) <= top
  {
    if g > 1 {
      Doubled(g - 1);
    }
  }

  lemma LastPlaceAtLeast(prec: nat, flags: Flags, e: int)
    requires flags.Valid() && !flags.radPoint
    ensures LastPlace(prec, flags, e) >= e - prec
  {
  }

  lemma OutcomeSticky(r: Number, prec: nat, flags: Flags, top: nat, f: nat, t: nat, i: int, e: int, st: Status)
    requires flags.Valid() && !flags.radPoint && f < Pow2(t) && (f == 0 || top >= Pow2(prec + 1))
    requires TopBit(Sticky(top, f), i, e) && r.Outcome(prec, flags, Sticky(top, f), i, e, false, st)
    ensures r.Outcome(prec, flags, top * Pow2(t) + f, i - t, e, false, st) && TopBit(top * Pow2(t) + f, i - t, e)
  {
    hide Pow2, Correct, Reaches, Number.Overflowed, Number.Normal, LastPlace, TopBit;
    var j := LastPlace(prec, flags, e);
    LastPlaceAtLeast(prec, flags, e);
    if f != 0 {
      TopAbove(top, f, i, e, prec);
      Pow2Mono(1, prec + 1);
      Pow2One();
    }
    ReachesSticky(flags.mode, r.sign, top, f, t, i, j, e);
    CorrectSticky(flags.mode, r.sign, top, f, t, i, j, r.Mantissa(r.tab.Length), r.expn - LIMB_BITS * r.tab.Length, st.inexact, false);
    StickyTop(top, f, t, i, e);
  }

  lemma TopAbove(top: nat, f: nat, i: int, e: int, prec: nat)
    requires TopBit(Sticky(top, f), i, e) && top >= Pow2(prec + 1)
    ensures e >= i + prec + 2
  {
    if e - i <= prec + 1 {
      Pow2Mono(e - i, prec + 1);
    }
  }

  /** The bits that a subtraction may lose at the top. */
  method Cancelled(a: seq<Limb>, b: seq<Limb>, d: nat, sub: bool, ghost tot: nat) returns (c: nat)
    requires Fits(|a|, |b|, tot, d) && 0 < |a| && Normalised(a[|a| - 1])
    requires sub ==> AlignedA(a, tot) > AlignedB(b, tot, d)
    ensures Cancels(Exact(a, b, d, sub, tot), tot, c)
  {
    hide BPow, Pow2, AlignedA, AlignedB, Stops, Exact, Cancels;
    if !sub {
      AdditionCancels(a, b, d, tot);
      c := 0;
    } else if d <= 1 {
      OneMoreLimb(a, b, d, tot);
      MulStrict(AlignedB(b, tot, d), AlignedA(a, tot), B);
      c := CountCancelledBits(a, b, d, tot + 1);
      NearCancels(a, b, d, tot, c);
    } else {
      FarCancels(a, b, d, tot);
      c := 1;
    }
  }

  /** What r holds is the rounding of the exact sum or difference of the magnitudes of p and q, where p has the greater one. */
  ghost predicate SumRounded(r: Number, p: seq<Limb>, pe: int, q: seq<Limb>, qe: int, sub: bool, prec: nat, flags: Flags, e: int, st: Status)
    reads r, r.tab
    requires flags.Valid() && pe >= qe
  {
    var tot := TotalLength(|p|, |q|, pe - qe);
    var exact := Exact(p, q, pe - qe, sub, tot);
    exact > 0 && TopBit(exact, pe - LIMB_BITS * tot, e) && r.Outcome(prec, flags, exact, pe - LIMB_BITS * tot, e, false, st)
  }

  /** The part of bf_add_internal for two numbers that are finite and not zero; p has the greater magnitude. */
  method AddFinite(r: Number, p: seq<Limb>, pe: int, q: seq<Limb>, qe: int, negative: bool, sub: bool, prec: nat, flags: Flags)
    returns (st: Status, ghost e: int)
    requires flags.Valid() && !flags.radPoint && prec > 0 && 0 < |p| && 0 < |q| && Normalised(p[|p| - 1]) && pe >= qe
    requires sub ==> var tot := TotalLength(|p|, |q|, pe - qe); AlignedA(p, tot) > AlignedB(q, tot, pe - qe)
    modifies r, r.tab
    ensures r.sign == negative && fresh(r.tab) && SumRounded(r, p, pe, q, qe, sub, prec, flags, e, st)
  {
    hide BPow, Pow2, AlignedA, AlignedB, Exact, Cancels, TopBit, Number.Outcome, Sticky, Val, Seg;
    var d := pe - qe;
    var tot := TotalLength(|p|, |q|, d);
    var c := Cancelled(p, q, d, sub, tot);
    var precl := (c + prec + 2 + LIMB_BITS - 1) / LIMB_BITS;
    KeptBits(c + prec + 2);
    var rLen := if precl <= tot then precl else tot;
    var t, carry, f, top := AddLimbs(p, q, d, sub, rLen, tot);
    r.sign := negative;
    r.expn := pe;
    r.tab := t;
    ghost var whole := SumValue(p, q, d, sub, tot, rLen, f, top, carry);
    if !sub && carry != 0 {
      r.tab := WithCarry(t);
      r.expn := r.expn + LIMB_BITS;
      CarryValueIs(t[..], r.tab[..], rLen, top, f);
    }
    Positions(pe, rLen);
    assert r.Mantissa(r.tab.Length) == Sticky(whole, f) by { WholeVal(r.tab[..]); }
    EnoughOrExact(p, q, d, sub, tot, c, prec, rLen, whole, f);
    StickyPositive(whole, f);
    st, e := NormalizeAndRound(r, prec, flags);
    BPowIsPow2(tot - rLen);
    ghost var i := pe - LIMB_BITS * rLen;
    OutcomeSticky(r, prec, flags, whole, f, LIMB_BITS * (tot - rLen), i, e, st);
    Distribute(tot, rLen, LIMB_BITS);
    assert i - LIMB_BITS * (tot - rLen) == pe - LIMB_BITS * tot;
  }

  lemma KeptBits(n: nat)
    requires n > 0
    ensures (n + LIMB_BITS - 1) / LIMB_BITS > 0 && n <= LIMB_BITS * ((n + LIMB_BITS - 1) / LIMB_BITS)
  {
    LengthFits(0, n);
  }

  lemma Positions(pe: int, rLen: nat)
    ensures pe + LIMB_BITS - LIMB_BITS * (rLen + 1) == pe - LIMB_BITS * rLen
  {
    Distribute(rLen, 1, LIMB_BITS);
  }

  /** The exact sum in terms of what the loops leave; a subtraction always ends with a carry. */
  lemma SumValue(p: seq<Limb>, q: seq<Limb>, d: nat, sub: bool, tot: nat, rLen: nat, f: nat, top: nat, carry: nat) returns (whole: nat)
    requires Fits(|p|, |q|, tot, d) && rLen <= tot && carry <= 1 && f < BPow(tot - rLen) && top < BPow(rLen)
    requires var x, y := AlignedA(p, tot), AlignedB(q, tot, d);
             (if sub then x - y + BPow(tot) else x + y) == f + BPow(tot - rLen) * top + carry * BPow(tot) && (sub ==> x > y)
    ensures Exact(p, q, d, sub, tot) == whole * BPow(tot - rLen) + f
    ensures whole == if !sub && carry != 0 then top + BPow(rLen) else top
  {
    hide BPow, AlignedA, AlignedB;
    var w, u := BPow(tot - rLen), BPow(rLen);
    BPowAdd(rLen, tot - rLen);
    SwapFactors(w, top);
    Distribute(top, u, w);
    whole := if !sub && carry != 0 then top + u else top;
    if sub && carry == 0 {
      TooSmall(f, top, w, u);
    }
  }

  lemma TooSmall(f: nat, top: nat, w: nat, u: nat)
    requires f < w && top < u
    ensures f + top * w < u * w
  {
    MulMono(top + 1, u, w);
    Distribute(top, 1, w);
  }

  /** The limbs with one more on top of them. */
  method WithCarry(t: array<Limb>) returns (t': array<Limb>)
    ensures fresh(t') && t'[..] == t[..] + [1]
  {
    t' := new Limb[t.Length + 1](k requires 0 <= k <= t.Length reads t => if k < t.Length then t[k] else 1);
  }

  lemma CarryValueIs(s: seq<Limb>, s': seq<Limb>, rLen: nat, top: nat, f: nat)
    requires |s| == rLen > 0 && s' == s + [1] && Val(s) == Sticky(top, f)
    ensures Val(s') == Sticky(top + BPow(rLen), f)
  {
    hide BPow, Val;
    ValSnoc(s, 1);
    BPowSucc(rLen - 1);
    EvenBase(top, BPow(rLen - 1));
  }

  lemma StickyPositive(top: nat, f: nat)
    requires top > 0
    ensures Sticky(top, f) > 0
  {
  }

  /** Either nothing was cut off, or what is left has all the bits that matter; in both cases it is not zero. */
  lemma EnoughOrExact(p: seq<Limb>, q: seq<Limb>, d: nat, sub: bool, tot: nat, c: nat, prec: nat, rLen: nat, whole: nat, f: nat)
    requires Fits(|p|, |q|, tot, d) && rLen <= tot && f < BPow(tot - rLen) && Cancels(Exact(p, q, d, sub, tot), tot, c)
    requires Exact(p, q, d, sub, tot) == whole * BPow(tot - rLen) + f
    requires c + prec + 2 <= LIMB_BITS * rLen || rLen == tot
    ensures whole > 0 && (f == 0 || whole >= Pow2(prec + 1)) && Exact(p, q, d, sub, tot) > 0
  {
    hide BPow, Pow2, Exact;
    var e := Exact(p, q, d, sub, tot);
    if e <= 0 {
      MulMono(e, 0, Pow2(c + 1));
    }
    if rLen == tot {
      PowersOfZero();
    } else {
      EnoughBits(e, tot, c, prec, rLen, whole, f);
    }
  }
}
