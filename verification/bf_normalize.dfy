/** Bringing the top bit of a number to the top of its limbs before it is rounded. */
module BfNormalize {
  import opened Arith
  import opened Limbs
  import opened MpLinear
  import opened MpUdiv
  import opened MpRecip
  import opened BfBits
  import opened BfRound
  import opened BfNumber
  import opened BfScale

  /** clz: how many zero bits stand above the top bit of v. */
  function Clz(v: Limb): (s: nat)
    requires v > 0
    ensures s < LIMB_BITS && Normalised(v) == (s == 0) && B <= 2 * (v as int * Pow2(s)) && v as int * Pow2(s) < B
    decreases B - v
  {
    PowerOfZero(v);
    if 2 * v as int >= B then 0
    else
      var s := Clz(2 * v as int);
      ClzStep(v, s);
      s + 1
  }

  lemma ClzStep(v: nat, s: nat)
    requires v > 0 && s < LIMB_BITS && 2 * v * Pow2(s) < B
    ensures v * Pow2(s + 1) == 2 * v * Pow2(s) && s + 1 < LIMB_BITS
  {
    MulAssoc(v, 2, Pow2(s));
    MulMono(1, v, Pow2(s));
    MulAssoc(2, v, Pow2(s));
    BaseIsPow2();
    if s + 1 >= LIMB_BITS {
      assert s == LIMB_BITS - 1;
      Doubled(LIMB_BITS);
      assert false;
    }
  }

  /** The limb that the shift writes: the low bits of v moved up, and the high bits of the limb below it. */
  function ShlLimb(v: Limb, below: nat, w: nat, c: nat): (t: Limb)
    requires w > 0 && c > 0 && c * w == B && below < w
    ensures t as int + Div(v, c) * B == v as int * w + below
  {
    ShlFacts(v, below, w, c);
    v as int % c * w + below
  }

  lemma ShlFacts(v: nat, below: nat, w: nat, c: nat)
    requires w > 0 && c > 0 && c * w == B && below < w
    ensures 0 <= v % c * w + below < B && v % c * w + below + v / c * B == v * w + below
  {
    Euclid(v, c);
    var q, r := v / c, v % c;
    Distribute(q * c, r, w);
    MulAssoc(q, c, w);
    MulMono(r + 1, c, w);
    Distribute(r, 1, w);
    MulNonNeg(r, w);
  }

  /** The lowest i limbs of x, times w, are the limbs of s and a carry k above them. */
  ghost predicate Shifted(s: seq<Limb>, x: seq<Limb>, i: nat, w: nat, k: nat)
    requires i <= |s| && i <= |x|
  {
    Seg(s, 0, i) + k * BPow(i) == Seg(x, 0, i) * w
  }

  lemma ShiftStep(s: seq<Limb>, x: seq<Limb>, i: nat, w: nat, k: nat, t: Limb, k': nat)
    requires i < |s| && i < |x| && Shifted(s, x, i, w, k) && t as int + k' * B == x[i] as int * w + k
    ensures Shifted(s[i := t], x, i + 1, w, k')
  {
    hide Seg, BPow;
    SegSnoc(s[i := t], 0, i);
    SegSnoc(x, 0, i);
    SegSame(s, s[i := t], 0, i);
    BPowSucc(i);
    var v: nat, z: nat, p := x[i], t, BPow(i);
    CarryStep(Seg(s, 0, i), k, Seg(x, 0, i) * w, z, k', v * w, p);
    Distribute(Seg(x, 0, i), v * p, w);
    MulAssoc(v, w, p);
    MulAssoc(v, p, w);
  }

  /** Shifting n limbs left, when nothing is lost at the top. */
  method Shl(a: array<Limb>, n: nat, shift: nat)
    requires 0 < n <= a.Length && 0 < shift < LIMB_BITS && a[n - 1] as int * Pow2(shift) < B
    modifies a
    ensures Seg(a[..], 0, n) == Seg(old(a[..]), 0, n) * Pow2(shift) && Within(old(a[..]), a[..], 0, n)
  {
    hide Seg, BPow, Pow2, Div, Shifted;
    ghost var x, s := a[..], a[..];
    var w, c := Pow2(shift), Pow2(LIMB_BITS - shift);
    Pow2DividesBase(shift);
    var v: Limb := 0;
    CarryOut(0, w, c);
    NothingShifted(s, w);
    for i := 0 to n
      invariant a[..] == s && Within(x, s, 0, i) && (i > 0 ==> v == x[i - 1])
      invariant Div(v, c) < w && Shifted(s, x, i, w, Div(v, c))
    {
      var l := a[i];
      assert l == x[i];
      CarryOut(l, w, c);
      var t := ShlLimb(l, Div(v, c), w, c);
      ShiftStep(s, x, i, w, Div(v, c), t, Div(l, c));
      a[i] := t;
      s := s[i := t];
      v := l;
    }
    NothingLost(v, w, c);
    AllShifted(s, x, n, w);
  }

  lemma NothingShifted(x: seq<Limb>, w: nat)
    ensures Shifted(x, x, 0, w, 0)
  {
    SegEmpty(x, 0);
  }

  lemma AllShifted(s: seq<Limb>, x: seq<Limb>, n: nat, w: nat)
    requires n <= |s| && n <= |x| && Shifted(s, x, n, w, 0)
    ensures Seg(s, 0, n) == Seg(x, 0, n) * w
  {
  }

  lemma CarryOut(v: nat, w: nat, c: nat)
    requires w > 0 && c > 0 && c * w == B && v < B
    ensures 0 <= Div(v, c) < w && (v == 0 ==> Div(v, c) == 0)
  {
    Euclid(v, c);
    MulCancelLess(v / c, w, c);
  }

  lemma NothingLost(v: nat, w: nat, c: nat)
    requires w > 0 && c > 0 && c * w == B && v * w < B
    ensures Div(v, c) == 0
  {
    MulCancelLess(v, c, w);
    DivModUnique(v, c, 0, v);
  }

  /** The top bit of m * 2^i has the weight 2^(e-1). */
  ghost predicate TopBit(m: nat, i: int, e: int) {
    e > i && Pow2(e - i - 1) <= m < Pow2(e - i)
  }

  lemma OutcomeScale(r: Number, prec1: nat, flags: Flags, m: nat, i: int, s: nat, e: int, already: bool, st: Status)
    requires flags.Valid()
    ensures r.Outcome(prec1, flags, m * Pow2(s), i - s, e, already, st) <==> r.Outcome(prec1, flags, m, i, e, already, st)
  {
    hide Pow2, Correct, Reaches, Number.Overflowed, Number.Normal;
    ReachesScale(flags.mode, r.sign, m, i, LastPlace(prec1, flags, e), s, e);
    CorrectScale(flags.mode, r.sign, m, i, LastPlace(prec1, flags, e), s, r.Mantissa(r.tab.Length),
                 r.expn - LIMB_BITS * r.tab.Length, st.inexact, already);
  }

  /** Dropping zero limbs at the top, and shifting the top bit to the top of its limb. */
  method Normalize(r: Number) returns (l: nat, ghost shift: nat)
    modifies r`expn, r.tab
    ensures l <= r.tab.Length && (l == 0 <==> old(r.Mantissa(r.tab.Length)) == 0) && r.expn <= old(r.expn)
    ensures l > 0 ==> var m, i := old(r.Mantissa(r.tab.Length)), old(r.expn) - LIMB_BITS * r.tab.Length;
                      && Normalised(r.tab[l - 1]) && r.Mantissa(l) == m * Pow2(shift)
                      && r.expn - LIMB_BITS * l == i - shift && TopBit(m, i, r.expn)
  {
    hide Seg, BPow, Pow2, TopBit;
    ghost var m, i := r.Mantissa(r.tab.Length), r.expn - LIMB_BITS * r.tab.Length;
    ghost var s0 := r.tab[..];
    l, shift := r.tab.Length, 0;
    while l > 0 && r.tab[l - 1] == 0
      invariant 0 <= l <= r.tab.Length && r.tab[..] == s0 && r.expn == old(r.expn)
      invariant forall j :: l <= j < r.tab.Length ==> s0[j] == 0
    {
      l := l - 1;
    }
    TopZeros(s0, l);
    if l == 0 {
      SegEmpty(s0, 0);
      return;
    }
    SegPositive(s0, l);
    LimbSum(l, r.tab.Length);
    MulNonNeg(r.tab.Length - l, LIMB_BITS);
    r.expn := r.expn - (r.tab.Length - l) * LIMB_BITS;
    var s := Clz(r.tab[l - 1]);
    shift := s;
    if s != 0 {
      Shl(r.tab, l, s);
      r.expn := r.expn - s;
    } else {
      PowerOfZero(m);
    }
    ShiftedTop(s0, r.tab[..], l, s);
    TopOfShifted(s0, l, r.tab.Length, s, i, r.expn);
  }

  /** bf_normalize_and_round */
  method NormalizeAndRound(r: Number, prec1: nat, flags: Flags) returns (st: Status, ghost e: int)
    requires flags.Valid() && (prec1 > 0 || (flags.radPoint && r.expn < flags.Range()))
    modifies r, r.tab
    ensures r.sign == old(r.sign) && fresh(r.tab)
    ensures old(r.Mantissa(r.tab.Length)) == 0 ==> r.expn == EXP_ZERO && r.tab.Length == 0 && st == Status(false, false, false)
    ensures var m, i := old(r.Mantissa(r.tab.Length)), old(r.expn) - LIMB_BITS * old(r.tab.Length);
            m > 0 ==> TopBit(m, i, e) && r.Outcome(prec1, flags, m, i, e, false, st)
  {
    hide Seg, BPow, Pow2, Number.Outcome, TopBit;
    ghost var m, i := r.Mantissa(r.tab.Length), r.expn - LIMB_BITS * r.tab.Length;
    var l, shift := Normalize(r);
    e := r.expn;
    if l == 0 {
      r.SetZero(r.sign);
      st := Status(false, false, false);
    } else {
      st := r.Round(prec1, flags, l, false);
      OutcomeScale(r, prec1, flags, m, i, shift, e, false, st);
    }
  }

  lemma LimbSum(l: nat, len: nat)
    requires l <= len
    ensures (len - l) * LIMB_BITS + LIMB_BITS * l == LIMB_BITS * len
  {
    Distribute(len - l, l, LIMB_BITS);
  }

  lemma TopZeros(s: seq<Limb>, l: nat)
    requires l <= |s| && forall j :: l <= j < |s| ==> s[j] == 0
    ensures Seg(s, 0, |s|) == Seg(s, 0, l)
  {
    hide Seg, BPow;
    SegSplit(s, 0, |s|, l);
    SegZero(s, l, |s| - l);
  }

  lemma SegPositive(s: seq<Limb>, l: nat)
    requires 0 < l <= |s| && s[l - 1] != 0
    ensures Seg(s, 0, l) > 0
  {
    SegZero(s, 0, l);
  }

  /** After the shift, the top limb is normalised. */
  lemma ShiftedTop(s: seq<Limb>, s': seq<Limb>, l: nat, shift: nat)
    requires 0 < l <= |s| == |s'| && s[l - 1] != 0 && B <= 2 * (s[l - 1] as int * Pow2(shift))
    requires Seg(s', 0, l) == Seg(s, 0, l) * Pow2(shift)
    ensures Normalised(s'[l - 1]) && BPow(l) <= 2 * Seg(s', 0, l)
  {
    hide Seg, BPow, Pow2;
    SegSnoc(s, 0, l - 1);
    BPowSucc(l - 1);
    var t: nat, p, w := s[l - 1], BPow(l - 1), Pow2(shift);
    TopProduct(Seg(s, 0, l - 1), t, p, w);
    TopNormalised(s', 0, l);
  }

  lemma TopProduct(lo: nat, t: nat, p: nat, w: nat)
    requires B <= 2 * (t * w)
    ensures B * p <= 2 * ((lo + t * p) * w)
  {
    Distribute(lo, t * p, w);
    MulNonNeg(lo, w);
    MulMono(B, 2 * (t * w), p);
    MulAssoc(2, t * w, p);
    MulAssoc(t, w, p);
    MulAssoc(t, p, w);
  }

  /** Where the top bit was before the shift. */
  lemma TopOfShifted(s: seq<Limb>, l: nat, len: nat, shift: nat, i: int, e: int)
    requires 0 < l <= len == |s| && shift < LIMB_BITS && e == i + LIMB_BITS * l - shift && s[l - 1] != 0
    requires B <= 2 * (s[l - 1] as int * Pow2(shift)) && s[l - 1] as int * Pow2(shift) < B
    requires Seg(s, 0, len) == Seg(s, 0, l)
    ensures TopBit(Seg(s, 0, len), i, e)
  {
    hide Seg, BPow, Pow2;
    var m, w, q := Seg(s, 0, l), Pow2(shift), LIMB_BITS * l - shift;
    MulMono(1, l, LIMB_BITS);
    SegSnoc(s, 0, l - 1);
    SegBound(s, 0, l - 1);
    BPowSucc(l - 1);
    var t: nat, p := s[l - 1], BPow(l - 1);
    TopProduct(Seg(s, 0, l - 1), t, p, w);
    BelowTop(Seg(s, 0, l - 1), t, p, w, shift);
    BPowIsPow2(l);
    Pow2Add(q, shift);
    Doubled(q);
    MulCancelLess(m, Pow2(q), w);
    if m < Pow2(q - 1) {
      MulStrict(2 * m, Pow2(q), w);
      MulAssoc(2, m, w);
      assert false;
    }
  }

  lemma BelowTop(lo: nat, t: nat, p: nat, w: nat, shift: nat)
    requires lo < p && t * w < B && w == Pow2(shift) && shift <= LIMB_BITS
    ensures (lo + t * p) * w < B * p
  {
    hide Pow2;
    Pow2DividesBase(shift);
    var c := Pow2(LIMB_BITS - shift);
    MulCancelLess(t, c, w);
    MulMono(t + 1, c, p);
    Distribute(t, 1, p);
    MulStrict(lo + t * p, c * p, w);
    MulAssoc(c, p, w);
    MulAssoc(c, w, p);
  }
}
