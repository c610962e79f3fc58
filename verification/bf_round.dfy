/** Rounding a limb array in place: the decision, the addition of one unit, and cutting off what lies below it. */
module BfRound {
  import opened Arith
  import opened Limbs
  import opened MpLinear
  import opened RoundMath
  import opened BfBits

  function Max(x: int, y: int): int {
    if x >= y then x else y
  }

  /** The first dropped bit and the bits below it, as parts of the remainder f by u, which is twice h. */
  lemma HalfBit(m: nat, h: nat, u: nat, k: nat, f: nat)
    requires h > 0 && u == 2 * h && m == k * u + f && f < u
    ensures (m / h) % 2 == One(f >= h) && m % h == f - One(f >= h) * h == f % h
  {
    var b, g := One(f >= h), if f >= h then f - h else f;
    Below(f, h);
    TwiceQuotient(k, h, u);
    Distribute(2 * k, b, h);
    DivModUnique(m, h, 2 * k + b, g);
  }

  lemma TwiceQuotient(k: nat, h: nat, u: nat)
    requires u == 2 * h
    ensures k * u == 2 * k * h
  {
    MulAssoc(k, 2, h);
  }

  /** The value that a number m rounds to when the lowest q bits are dropped, if one is added or not. */
  ghost predicate Decides(mode: Mode, negative: bool, m: nat, q: int, addOne: bool, inexact: bool) {
    && (q <= 0 ==> !addOne)
    && (q >= 1 ==> IsRounding(Settled(mode), negative, m, Pow2(q), Div(m, Pow2(q)) + One(addOne)))
    && (inexact <==> mode == RNDF || (q >= 1 && Rem(m, Pow2(q)) != 0))
  }

  /** bf_get_rnd_add: the limbs of a stand for a number that is to keep its prec highest bits. */
  method RndAdd(a: seq<Limb>, l: nat, prec: int, negative: bool, mode: Mode) returns (addOne: bool, inexact: bool)
    requires 0 < l <= |a| && Seg(a, 0, l) > 0
    ensures Decides(mode, negative, Seg(a, 0, l), LIMB_BITS * l - prec, addOne, inexact)
  {
    hide Seg, Pow2, IsRounding, BPow, Bit;
    var bits := LIMB_BITS * l;
    ghost var m, q := Seg(a, 0, l), bits - prec;
    var sticky := true;
    if mode != RNDF {
      sticky := ScanBitNz(a, l, bits - 1 - Max(0, prec + 1));
      StickyBits(a, l, prec);
    }
    var half := GetBit(a, l, bits - 1 - prec) == 1;
    inexact := half || sticky;
    var odd := GetBit(a, l, bits - 1 - (prec - 1)) == 1;
    addOne := AddOne(mode, negative, half, sticky, odd);
    if q >= 1 {
      GetBitIsBit(a, l, q - 1);
      GetBitIsBit(a, l, q);
      DecisionIsRight(mode, negative, m, q, half, sticky, odd);
    }
  }

  lemma DecisionIsRight(mode: Mode, negative: bool, m: nat, q: nat, half: bool, sticky: bool, odd: bool)
    requires q >= 1 && half == (Bit(m, q - 1) == 1) && odd == (Bit(m, q) == 1)
    requires if mode == RNDF then sticky else sticky == (m % Pow2(q - 1) != 0)
    ensures Decides(mode, negative, m, q, AddOne(mode, negative, half, sticky, odd), half || sticky)
  {
    hide IsRounding, Pow2, AddOne, One;
    Doubled(q);
    Euclid(m, Pow2(q));
    DecisionScaled(mode, negative, m, Pow2(q - 1), Pow2(q), m / Pow2(q), m % Pow2(q), half, sticky, odd);
  }

  lemma DecisionScaled(mode: Mode, negative: bool, m: nat, h: nat, u: nat, k: nat, f: nat, half: bool, sticky: bool, odd: bool)
    requires h > 0 && u == 2 * h && m == k * u + f && f < u
    requires half == (m / h % 2 == 1) && odd == (k % 2 == 1) && (if mode == RNDF then sticky else sticky == (m % h != 0))
    ensures IsRounding(Settled(mode), negative, m, u, k + One(AddOne(mode, negative, half, sticky, odd)))
    ensures half || sticky <==> mode == RNDF || f != 0
  {
    hide IsRounding, AddOne;
    HalfBit(m, h, u, k, f);
    DecideParts(mode, negative, m, h, u, k, f, half, sticky, odd);
  }

  lemma DecideParts(mode: Mode, negative: bool, m: nat, h: nat, u: nat, k: nat, f: nat, half: bool, sticky: bool, odd: bool)
    requires h > 0 && u == 2 * h && m == k * u + f && f < u
    requires half == (f >= h) && odd == (k % 2 == 1) && (if mode == RNDF then sticky else sticky == (f % h != 0))
    ensures IsRounding(Settled(mode), negative, m, u, k + One(AddOne(mode, negative, half, sticky, odd)))
    ensures half || sticky <==> mode == RNDF || f != 0
  {
    hide IsRounding;
    AddOneRounds(Settled(mode), negative, m, k, f, h);
    Below(f, h);
    SettledAddsOne(mode, negative, half, sticky, f % h != 0, odd);
  }

  /** The faithful mode does not look at the sticky bit. */
  lemma SettledAddsOne(mode: Mode, negative: bool, half: bool, sticky: bool, sticky': bool, odd: bool)
    requires mode == RNDF || sticky == sticky'
    ensures AddOne(mode, negative, half, sticky, odd) == AddOne(Settled(mode), negative, half, sticky', odd)
  {
  }

  /** What the scan for a sticky bit finds. */
  lemma StickyBits(a: seq<Limb>, l: nat, prec: int)
    requires 0 < l <= |a| && Seg(a, 0, l) > 0
    ensures var bits, m := LIMB_BITS * l, Seg(a, 0, l);
            var q, s := bits - prec, bits - 1 - Max(0, prec + 1);
            && (q >= 1 ==> ((s >= 0 && m % Pow2(s + 1) != 0) <==> m % Pow2(q - 1) != 0))
            && (q < 1 ==> s < 0)
  {
    hide Seg;
    var bits, m := LIMB_BITS * l, Seg(a, 0, l);
    var q, s := bits - prec, bits - 1 - Max(0, prec + 1);
    SegBound(a, 0, l);
    BPowIsPow2(l);
    if prec < -1 {
      Pow2Mono(bits, q - 1);
      DivModUnique(m, Pow2(q - 1), 0, m);
      DivModUnique(m, Pow2(bits), 0, m);
    } else if s < 0 && q >= 1 {
      assert q == 1 && Pow2(0) == 1;
    }
  }

  /** Adding one unit of weight w, which divides B^n, to a number t of n limbs. */
  lemma UnitCarries(t: nat, w: nat, c: nat, p: nat)
    requires w > 0 && p == c * w && t < p <= t + w
    ensures (t / w + 1) * w == p && t / w + 1 == c
  {
    var k, f := t / w, t % w;
    assert t == k * w + f;
    Distribute(k, 1, w);
    MulCancelLess(k, c, w);
    if k + 1 < c {
      MulMono(k + 2, c, w);
      Distribute(k, 2, w);
    }
  }

  lemma UnitAdded(t: nat, w: nat)
    requires w > 0
    ensures (t + w) / w == t / w + 1
  {
    Distribute(t / w, 1, w);
    DivModUnique(t + w, w, t / w + 1, t % w);
  }

  /** Half of a number between n units and n + 1 units, n even, is between n / 2 units and that plus one. */
  lemma HalfUnits(t: nat, w: nat, n: nat, h: nat, rem: nat)
    requires w > 0 && n % 2 == 0 && n * w <= t < n * w + w && t == h * 2 + rem && rem < 2
    ensures h / w == n / 2
  {
    var k := n / 2;
    MulAssoc(2, k, w);
    assert n * w == 2 * (k * w);
    DivModUnique(h, w, k, h - k * w);
  }

  /** The weight of a bit below the top of n limbs divides B^n an even number of times. */
  lemma UnitDivides(n: nat, bit: nat) returns (c: nat)
    requires n > 0 && bit < LIMB_BITS
    ensures c > 0 && c % 2 == 0 && BPow(n) == c * Pow2(bit)
  {
    hide BPow, Pow2;
    MulMono(1, n, LIMB_BITS);
    var k := LIMB_BITS * n - bit;
    c := Pow2(k);
    Doubled(k);
    BPowIsPow2(n);
    Pow2Add(k, bit);
  }

  lemma Doubled(q: nat)
    requires q >= 1
    ensures Pow2(q) == 2 * Pow2(q - 1)
  {
  }

  /** Adding one at a bit: the loop with its carry, and the shift by one digit when it runs over the top. */
  method AddUnit(a: array<Limb>, pos: nat, n: nat, bit: nat) returns (carry: bool)
    requires n > 0 && pos + n <= a.Length && bit < LIMB_BITS
    modifies a
    ensures Within(old(a[..]), a[..], pos, n)
    ensures var w, t, t' := Pow2(bit), Seg(old(a[..]), pos, n), Seg(a[..], pos, n);
            if carry then (t / w + 1) * w == BPow(n) && (t / w + 1) % 2 == 0 && t' / w == (t / w + 1) / 2 else t' / w == t / w + 1
  {
    hide BPow, Seg, Pow2;
    ghost var t := Seg(a[..], pos, n);
    Pow2DividesBase(bit);
    Pow2Small2(bit);
    var w := Pow2(bit);
    var k := AddUi(a, pos, w, n);
    ghost var s := a[..];
    ghost var t1 := Seg(s, pos, n);
    ghost var c := UnitDivides(n, bit);
    SegBound(old(a[..]), pos, n);
    SegBound(s, pos, n);
    UnitAdded(t, w);
    carry := k != 0;
    if carry {
      UnitCarries(t, w, c, BPow(n));
      var rem := Shr(a, pos, a, pos, n, 1, 1);
      Pow2One();
      HalfUnits(t + w, w, c, Seg(a[..], pos, n), rem);
    }
  }

  lemma Pow2Small2(bit: nat)
    requires bit < LIMB_BITS
    ensures Pow2(bit) < B
  {
    BaseIsPow2();
    Pow2Mono(bit, LIMB_BITS - 1);
    Doubled(LIMB_BITS);
  }

  lemma Pow2One()
    ensures Pow2(1) == 2
  {
  }

  /** A limb without its lowest bits. */
  function Cleared(v: Limb, bit: nat): Limb {
    Euclid(v, Pow2(bit));
    MulNonNeg(v as int / Pow2(bit), Pow2(bit));
    v as int - v as int % Pow2(bit)
  }

  /** Clearing the bits below weight w of the lowest limb rounds the number down to a multiple of w. */
  lemma Masked(s: seq<Limb>, pos: nat, n: nat, bit: nat, s': seq<Limb>)
    requires n > 0 && pos + n <= |s| && bit < LIMB_BITS && s' == s[pos := Cleared(s[pos], bit)]
    ensures Seg(s', pos, n) == Seg(s, pos, n) / Pow2(bit) * Pow2(bit)
  {
    hide BPow, Seg, Pow2;
    var w, x, r := Pow2(bit), s[pos] as int, Seg(s, pos + 1, n - 1);
    SegCons(s, pos, n);
    SegCons(s', pos, n);
    SegSame(s, s', pos + 1, n - 1);
    Pow2DividesBase(bit);
    MulAssoc(Pow2(LIMB_BITS - bit), w, r);
    MulAssoc(w, Pow2(LIMB_BITS - bit), r);
    AddMultiple(x, w, Pow2(LIMB_BITS - bit) * r);
    Euclid(x + B * r, w);
  }

  /** Keeping the bits from weight 2^bit of limb pos on, and finding the lowest limb that is not zero. */
  method Cut(a: array<Limb>, pos: nat, n: nat, bit: nat) returns (i: nat)
    requires n > 0 && pos + n <= a.Length && bit < LIMB_BITS && Seg(a[..], pos, n) / Pow2(bit) > 0
    modifies a
    ensures pos <= i < pos + n && a[i] != 0 && Within(old(a[..]), a[..], pos, 1)
    ensures Seg(a[..], i, pos + n - i) * BPow(i - pos) == Seg(old(a[..]), pos, n) / Pow2(bit) * Pow2(bit)
  {
    hide BPow, Seg, Pow2;
    ghost var s := a[..];
    var v := Cleared(a[pos], bit);
    Masked(s, pos, n, bit, s[pos := v]);
    a[pos] := v;
    ghost var s' := a[..];
    MulPos(Seg(s, pos, n) / Pow2(bit), Pow2(bit));
    SegZero(s', pos, n);
    i := pos;
    while a[i] == 0
      invariant pos <= i < pos + n && a[..] == s' && forall j :: pos <= j < i ==> s'[j] == 0
      decreases pos + n - i
    {
      i := i + 1;
    }
    SegSplit(s', pos, n, i - pos);
    SegZero(s', pos, i - pos);
  }
}
