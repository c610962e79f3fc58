/** count_cancelled_bits: how many leading bits a subtraction of two numbers of nearly the same size can lose. */
module BfCancel {
  import opened Arith
  import opened Limbs
  import opened BfBits
  import opened BfRound
  import opened BfWindow
  import opened BfSum

  /** The bits of x from 2^s on. */
  function From(x: nat, s: nat): nat {
    Div(x, Pow2(s))
  }

  /** Down to bit s the two numbers follow the pattern X1000.. and X0111..: their difference there is one. */
  ghost predicate Follows(x: nat, y: nat, s: nat) {
    From(x, s) == From(y, s) + 1
  }

  /** The pattern stops there: one bit further down the difference is at least two. */
  ghost predicate Stops(x: nat, y: nat, s: nat) {
    s > 0 && Follows(x, y, s) && From(x, s - 1) >= From(y, s - 1) + 2
  }

  /** Once the pattern has stopped, the difference is at least half of the last matching bit. */
  lemma DifferenceAtLeast(x: nat, y: nat, s: nat)
    requires Stops(x, y, s)
    ensures Pow2(s - 1) <= x - y < 2 * Pow2(s)
  {
    hide Pow2;
    var w := Pow2(s - 1);
    Doubled(s);
    assert Rem(x, w) >= 0 && Rem(y, w) < w && Rem(x, Pow2(s)) < Pow2(s) && Rem(y, Pow2(s)) >= 0;
    var gx, gy := From(x, s - 1), From(y, s - 1);
    MulMono(gy + 2, gx, w);
    Distribute(gy, 2, w);
    Distribute(From(y, s), 1, Pow2(s));
  }

  /** The source's comment, that at least the counted bits are lost, holds exactly when the bits below borrow. */
  lemma LosesAllCounted(x: nat, y: nat, s: nat)
    requires Stops(x, y, s)
    ensures x - y < Pow2(s) <==> Rem(x, Pow2(s)) < Rem(y, Pow2(s))
  {
    hide Pow2;
    Distribute(From(y, s), 1, Pow2(s));
  }

  /** There is one place where the pattern stops. */
  lemma StopsUnique(x: nat, y: nat, s: nat, s': nat)
    requires Stops(x, y, s) && Stops(x, y, s')
    ensures s == s'
  {
    if s < s' {
      NotAgain(x, y, s, s');
    } else if s' < s {
      NotAgain(x, y, s', s);
    }
  }

  lemma NotAgain(x: nat, y: nat, s: nat, s': nat)
    requires s < s' && Stops(x, y, s')
    ensures !Stops(x, y, s)
  {
    hide Pow2;
    var m := s' - 1 - s;
    FromLower(x, s' - 1, m);
    FromLower(y, s' - 1, m);
    assert s' - 1 - m == s;
    var p, gx, gy := Pow2(m), From(x, s' - 1), From(y, s' - 1);
    MulMono(gy + 2, gx, p);
    Distribute(gy, 2, p);
    assert Rem(From(y, s), p) < p && Rem(From(x, s), p) >= 0;
  }

  lemma TwoBitsCounted(x: nat, y: nat, w: nat, n: nat)
    requires w >= 3 && x == Pow2(w - 1) && y == Pow2(w - 2) && n < w && Stops(x, y, w - n)
    ensures n == 2 && x - y == Pow2(w - 2)
  {
    hide Pow2;
    var q := Pow2(w - 2);
    Doubled(w - 1);
    DivModUnique(x, q, 2, 0);
    DivModUnique(y, q, 1, 0);
    Doubled(w - 2);
    DivModUnique(x, Pow2(w - 3), 4, 0);
    DivModUnique(y, Pow2(w - 3), 2, 0);
    StopsUnique(x, y, w - n, w - 2);
  }

  /** Where it fails: the single limb 1000.. less the same one bit further down loses one bit, but two are counted. */
  lemma CountsMore(a: seq<Limb>, b: seq<Limb>, w: nat, n: nat)
    requires a == [B / 2] && b == [B / 2] && w >= 2 && Fits(1, 1, w, 1) && n < LIMB_BITS * w
    requires Stops(AlignedA(a, w), AlignedB(b, w, 1), LIMB_BITS * w - n)
    ensures n == 2 && AlignedA(a, w) - AlignedB(b, w, 1) == Pow2(LIMB_BITS * w - 2)
  {
    hide Pow2, BPow, Val, Seg, Stops;
    var l := LIMB_BITS * (w - 1);
    SegOne(a, 0);
    WholeVal(a);
    BaseIsPow2();
    Doubled(LIMB_BITS);
    Distribute(w - 1, 1, LIMB_BITS);
    BPowIsPow2(w - 1);
    Pow2Add(LIMB_BITS - 1, l);
    Pow2Add(LIMB_BITS - 1, l - 1);
    assert LIMB_BITS - 1 + l == LIMB_BITS * w - 1 && LIMB_BITS - 1 + (l - 1) == LIMB_BITS * w - 2;
    TwoBitsCounted(AlignedA(a, w), AlignedB(b, w, 1), LIMB_BITS * w, n);
  }

  /** The m bits of x below bit s. */
  lemma FromLower(x: nat, s: nat, m: nat)
    requires m <= s
    ensures From(x, s - m) == From(x, s) * Pow2(m) + Rem(From(x, s - m), Pow2(m))
  {
    hide Pow2;
    Pow2Add(s - m, m);
    DivTwice(x, Pow2(s - m), Pow2(m));
    assert Rem(From(x, s - m), Pow2(m)) >= 0;
  }

  /** Leading zeros of v as a number of p bits: clz less the bits above p. */
  function LeadingZeros(v: nat, p: nat): (r: nat)
    requires v < Pow2(p)
    ensures r <= p && v < Pow2(p - r) && (r < p ==> v >= Pow2(p - r - 1))
  {
    if p == 0 then 0 else if v >= Pow2(p - 1) then 0 else 1 + LeadingZeros(v, p - 1)
  }

  /** The number of leading bits of x and y, of m bits each, that are 0 in x and 1 in y. */
  function Run(x: nat, y: nat, m: nat): (r: nat)
    requires x < Pow2(m) && y < Pow2(m)
    ensures r <= m && x < Pow2(m - r) && Pow2(m) - 1 - y < Pow2(m - r)
    ensures r < m ==> x >= Pow2(m - r - 1) || Pow2(m) - 1 - y >= Pow2(m - r - 1)
  {
    var p, q := LeadingZeros(x, m), LeadingZeros(Pow2(m) - 1 - y, m);
    if p <= q then RunMono(m, p, q); p else RunMono(m, q, p); q
  }

  lemma RunMono(m: nat, p: nat, q: nat)
    requires p <= q <= m
    ensures Pow2(m - q) <= Pow2(m - p)
  {
    Pow2Mono(m - q, m - p);
  }

  /** The pattern goes on for as many of the next m bits as the run says, and stops after them if it does not take all. */
  lemma RunFollows(x: nat, y: nat, s: nat, m: nat, u: nat, v: nat)
    requires m <= s && Follows(x, y, s) && u == Rem(From(x, s - m), Pow2(m)) && v == Rem(From(y, s - m), Pow2(m))
    ensures var r := Run(u, v, m); Follows(x, y, s - r) && (r < m ==> Stops(x, y, s - r))
  {
    hide Pow2, From, Follows, Stops, Div, Rem;
    var r := Run(u, v, m);
    FromLower(x, s, m);
    FromLower(y, s, m);
    RunUpper(u, v, m, r);
    RunGoesOn(x, y, s, m, u, v, r);
    if r < m {
      RunBreaks(u, v, m, r);
      RunStops(x, y, s, m, u, v, r);
    }
  }

  lemma RunGoesOn(x: nat, y: nat, s: nat, m: nat, u: nat, v: nat, r: nat)
    requires r <= m <= s && Follows(x, y, s) && u < Pow2(m) && v < Pow2(m)
    requires From(x, s - m) == From(x, s) * Pow2(m) + u && From(y, s - m) == From(y, s) * Pow2(m) + v
    requires Div(u, Pow2(m - r)) == 0 && Div(v, Pow2(m - r)) == Pow2(r) - 1
    ensures Follows(x, y, s - r)
  {
    hide Pow2, From, Div;
    Upper(x, s, m, r, From(x, s), u);
    Upper(y, s, m, r, From(y, s), v);
    Distribute(From(y, s), 1, Pow2(r));
  }

  lemma RunStops(x: nat, y: nat, s: nat, m: nat, u: nat, v: nat, r: nat)
    requires r < m <= s && Follows(x, y, s) && Follows(x, y, s - r) && u < Pow2(m) && v < Pow2(m)
    requires From(x, s - m) == From(x, s) * Pow2(m) + u && From(y, s - m) == From(y, s) * Pow2(m) + v
    requires Div(u, Pow2(m - r - 1)) + 2 * Pow2(r) >= Div(v, Pow2(m - r - 1)) + 2 && Pow2(r + 1) == 2 * Pow2(r)
    ensures Stops(x, y, s - r)
  {
    hide Pow2, From, Div;
    assert m - (r + 1) == m - r - 1 && s - (r + 1) == s - r - 1;
    Upper(x, s, m, r + 1, From(x, s), u);
    Upper(y, s, m, r + 1, From(y, s), v);
    Distribute(From(y, s), 1, Pow2(r + 1));
  }

  /** The first r of the m bits below bit s. */
  lemma Upper(x: nat, s: nat, m: nat, r: nat, g: nat, u: nat)
    requires r <= m <= s && From(x, s - m) == g * Pow2(m) + u && u < Pow2(m)
    ensures From(x, s - r) == g * Pow2(r) + Div(u, Pow2(m - r))
  {
    hide Pow2;
    var w := Pow2(m - r);
    Pow2Add(s - m, m - r);
    assert s - m + (m - r) == s - r;
    DivTwice(x, Pow2(s - m), w);
    Pow2Add(r, m - r);
    MulAssoc(g, Pow2(r), w);
    SwapFactors(w, g * Pow2(r));
    AddMultiple(u, w, g * Pow2(r));
  }

  lemma RunUpper(u: nat, v: nat, m: nat, r: nat)
    requires r <= m && u < Pow2(m - r) && v < Pow2(m) && Pow2(m) - 1 - v < Pow2(m - r)
    ensures Div(u, Pow2(m - r)) == 0 && Div(v, Pow2(m - r)) == Pow2(r) - 1
  {
    hide Pow2;
    var w := Pow2(m - r);
    DivModUnique(u, w, 0, u);
    Pow2Add(r, m - r);
    Distribute(Pow2(r), 1, w);
    DivModUnique(v, w, Pow2(r) - 1, v - (Pow2(r) - 1) * w);
  }

  /** The bit after the run is 1 in u or 0 in v. */
  lemma RunBreaks(u: nat, v: nat, m: nat, r: nat)
    requires r < m && v < Pow2(m) && (u >= Pow2(m - r - 1) || Pow2(m) - 1 - v >= Pow2(m - r - 1))
    requires Div(v, Pow2(m - r)) == Pow2(r) - 1
    ensures m - (r + 1) == m - r - 1 && Div(u, Pow2(m - r - 1)) + 2 * Pow2(r) >= Div(v, Pow2(m - r - 1)) + 2 && Pow2(r + 1) == 2 * Pow2(r)
  {
    hide Pow2;
    var w := Pow2(m - r - 1);
    Doubled(m - r);
    Doubled(r + 1);
    Pow2Add(r + 1, m - r - 1);
    assert Rem(u, w) < w && Rem(v, w) >= 0;
    var du, dv := Div(u, w), Div(v, w);
    if u >= w {
      if du == 0 {
        assert false;
      }
      MulCancelLess(dv, Pow2(r + 1), w);
    } else {
      Distribute(Pow2(r + 1), 1, w);
      MulCancelLess(dv, Pow2(r + 1) - 1, w);
    }
  }

  // The limbs, from the top down.

  lemma FromIsUp(x: nat, j: nat)
    ensures From(x, LIMB_BITS * j) == Up(x, j)
  {
    BPowIsPow2(j);
  }

  /** The lowest m bits of digit j are the bits of x just above those below it. */
  lemma DigitBits(x: nat, j: nat, m: nat)
    requires m <= LIMB_BITS
    ensures Rem(From(x, LIMB_BITS * j), Pow2(m)) == Rem(Digit(x, j), Pow2(m))
  {
    hide Pow2, From, Digit, Up;
    FromIsUp(x, j);
    UpStep(x, j);
    BaseIsPow2();
    Pow2Add(m, LIMB_BITS - m);
    var g, c, w := Up(x, j + 1), Pow2(LIMB_BITS - m), Pow2(m);
    MulAssoc(w, c, g);
    SwapFactors(g, B);
    AddMultiple(Digit(x, j), w, c * g);
  }

  /** clz(v1 ^ v2) + 1: the position, from the top, of the first bit where v1 and v2 differ; the search starts at p. */
  function FirstDifference(v1: Limb, v2: Limb, p: nat): (r: nat)
    requires v1 != v2 && 1 <= p <= LIMB_BITS && Div(v1, Pow2(LIMB_BITS - p + 1)) == Div(v2, Pow2(LIMB_BITS - p + 1))
    ensures p <= r <= LIMB_BITS
    ensures Div(v1, Pow2(LIMB_BITS - r + 1)) == Div(v2, Pow2(LIMB_BITS - r + 1)) && Div(v1, Pow2(LIMB_BITS - r)) != Div(v2, Pow2(LIMB_BITS - r))
    decreases LIMB_BITS - p
  {
    if Div(v1, Pow2(LIMB_BITS - p)) != Div(v2, Pow2(LIMB_BITS - p)) then p
    else
      LastBitDiffers(v1, v2, p);
      FirstDifference(v1, v2, p + 1)
  }

  lemma LastBitDiffers(v1: nat, v2: nat, p: nat)
    requires v1 != v2 && 1 <= p <= LIMB_BITS && Div(v1, Pow2(LIMB_BITS - p)) == Div(v2, Pow2(LIMB_BITS - p))
    ensures p < LIMB_BITS && LIMB_BITS - (p + 1) + 1 == LIMB_BITS - p
  {
    assert Pow2(0) == 1;
  }

  lemma TopBitsEqual(v1: Limb, v2: Limb)
    ensures Div(v1, Pow2(LIMB_BITS)) == Div(v2, Pow2(LIMB_BITS))
  {
    BaseIsPow2();
    DivModUnique(v1, B, 0, v1);
    DivModUnique(v2, B, 0, v2);
  }

  /** At the first bit that differs, the greater number is one ahead. */
  lemma OneAhead(v1: nat, v2: nat, w: nat)
    requires w > 0 && v1 > v2 && Div(v1, 2 * w) == Div(v2, 2 * w) && Div(v1, w) != Div(v2, w)
    ensures Div(v1, w) == Div(v2, w) + 1
  {
    DivTwice(v1, w, 2);
    DivTwice(v2, w, 2);
    SwapFactors(w, 2);
    if Div(v1, w) < Div(v2, w) {
      assert Rem(v1, w) < w && Rem(v2, w) >= 0;
      MulMono(Div(v1, w) + 1, Div(v2, w), w);
      Distribute(Div(v1, w), 1, w);
      assert false;
    }
  }

  /** The first limb that differs starts the pattern. */
  lemma PatternStarts(x: nat, y: nat, j: nat, p: nat)
    requires x > y && Up(x, j + 1) == Up(y, j + 1) && Digit(x, j) != Digit(y, j) && 1 <= p <= LIMB_BITS
    requires Div(Digit(x, j), Pow2(LIMB_BITS - p + 1)) == Div(Digit(y, j), Pow2(LIMB_BITS - p + 1))
    requires Div(Digit(x, j), Pow2(LIMB_BITS - p)) != Div(Digit(y, j), Pow2(LIMB_BITS - p))
    ensures Follows(x, y, LIMB_BITS * (j + 1) - p)
  {
    hide Pow2, From, Digit, Up, Div;
    Ahead(x, y, j);
    Doubled(LIMB_BITS - p + 1);
    OneAhead(Digit(x, j), Digit(y, j), Pow2(LIMB_BITS - p));
    UpperOfLimb(x, j, p);
    UpperOfLimb(y, j, p);
  }

  lemma Ahead(x: nat, y: nat, j: nat)
    requires x > y && Up(x, j + 1) == Up(y, j + 1) && Digit(x, j) != Digit(y, j)
    ensures Digit(x, j) > Digit(y, j)
  {
    hide BPow, Digit;
    UpStep(x, j);
    UpStep(y, j);
    if Up(x, j) < Up(y, j) {
      assert Rem(x, BPow(j)) < BPow(j) && Rem(y, BPow(j)) >= 0;
      MulMono(Up(x, j) + 1, Up(y, j), BPow(j));
      Distribute(Up(x, j), 1, BPow(j));
      assert false;
    }
  }

  lemma UpperOfLimb(x: nat, j: nat, p: nat)
    requires p <= LIMB_BITS
    ensures From(x, LIMB_BITS * (j + 1) - p) == Up(x, j + 1) * Pow2(p) + Div(Digit(x, j), Pow2(LIMB_BITS - p))
  {
    hide Pow2, From, Digit, Up, Div;
    UpStep(x, j);
    FromIsUp(x, j);
    BaseIsPow2();
    Distribute(j, 1, LIMB_BITS);
    assert LIMB_BITS * (j + 1) - LIMB_BITS == LIMB_BITS * j;
    Upper(x, LIMB_BITS * (j + 1), LIMB_BITS, p, Up(x, j + 1), Digit(x, j));
  }

  /** The run over the lowest m bits of limb j. */
  lemma RunOfLimb(x: nat, y: nat, j: nat, m: nat)
    requires m <= LIMB_BITS && Follows(x, y, LIMB_BITS * j + m)
    ensures var u, v := Rem(Digit(x, j), Pow2(m)), Rem(Digit(y, j), Pow2(m));
            var r := Run(u, v, m);
            Follows(x, y, LIMB_BITS * j + m - r) && (r < m ==> Stops(x, y, LIMB_BITS * j + m - r))
  {
    hide Pow2, From, Digit, Rem, Follows, Stops, Run;
    DigitBits(x, j, m);
    DigitBits(y, j, m);
    RunFrom(x, y, LIMB_BITS * j, m, Rem(Digit(x, j), Pow2(m)), Rem(Digit(y, j), Pow2(m)));
  }

  lemma RunFrom(x: nat, y: nat, b: nat, m: nat, u: nat, v: nat)
    requires Follows(x, y, b + m) && u == Rem(From(x, b), Pow2(m)) && v == Rem(From(y, b), Pow2(m))
    ensures var r := Run(u, v, m); Follows(x, y, b + m - r) && (r < m ==> Stops(x, y, b + m - r))
  {
    hide Pow2, From, Rem, Follows, Stops, Run;
    assert b + m - m == b;
    RunFollows(x, y, b + m, m, u, v);
  }

  /** Both limbs at the position that t limbs from the top leave. */
  lemma TopDigits(a: seq<Limb>, b: seq<Limb>, d: nat, w: nat, t: nat, bitOffset: int, bOffset: int)
    requires Fits(|a|, |b|, w, d) && t < w && bitOffset == (|a| - t) * LIMB_BITS - 1
    requires bOffset == (|b| - |a|) * LIMB_BITS - (LIMB_BITS - 1) + d
    ensures var j := w - 1 - t;
            Digit(AlignedA(a, w), j) == LimbZ(a, bitOffset / LIMB_BITS) && Digit(AlignedB(b, w, d), j) == GetBits(b, bitOffset + bOffset)
  {
    hide AlignedA, AlignedB, Digit, GetBits, BPow, Pow2;
    var j := w - 1 - t;
    DigitA(a, w, j);
    DigitB(b, w, d, j);
    Distribute(|a| - t, 1, LIMB_BITS);
    DivModUnique(bitOffset, LIMB_BITS, |a| - t - 1, LIMB_BITS - 1);
    Distribute(|a| - t, |b| - |a|, LIMB_BITS);
    Distribute(|b| - t, 1, LIMB_BITS);
    Distribute(w, t + 1, LIMB_BITS);
    Distribute(w, |b|, LIMB_BITS);
    Distribute(|b|, t + 1, LIMB_BITS);
    Distribute(|b|, t, LIMB_BITS);
    Distribute(t, 1, LIMB_BITS);
  }

  /** With one limb more than both numbers need, the lowest limb is zero in both. */
  lemma LowestIsZero(a: seq<Limb>, b: seq<Limb>, d: nat, w: nat)
    requires w >= 1 && Fits(|a|, |b|, w - 1, d)
    ensures Fits(|a|, |b|, w, d) && Digit(AlignedA(a, w), 0) == 0 && Digit(AlignedB(b, w, d), 0) == 0
  {
    hide AlignedA, AlignedB, Digit, GetBits, BPow, Pow2;
    Distribute(w - 1 - |b|, 1, LIMB_BITS);
    assert LIMB_BITS * (w - |b|) == LIMB_BITS * (w - 1 - |b|) + LIMB_BITS;
    DigitA(a, w, 0);
    DigitB(b, w, d, 0);
    OutsideZero(b, LIMB_BITS * 0 - (LIMB_BITS * (w - |b|) - d));
  }

  lemma AllEqualAbove(a: seq<Limb>, b: seq<Limb>, d: nat, w: nat)
    requires Fits(|a|, |b|, w, d)
    ensures Up(AlignedA(a, w), w) == Up(AlignedB(b, w, d), w)
  {
    hide AlignedA, AlignedB, BPow, Pow2, Up;
    AlignedBounds(a, b, w, d);
    LowAll(AlignedA(a, w), w);
    LowAll(AlignedB(b, w, d), w);
  }

  lemma NextEqual(x: nat, y: nat, j: nat)
    requires x > y && Up(x, j + 1) == Up(y, j + 1) && Digit(x, j) == Digit(y, j)
    ensures Up(x, j) == Up(y, j) && j > 0
  {
    hide Digit, Up;
    UpStep(x, j);
    UpStep(y, j);
    if j == 0 {
      UpZero(x);
      UpZero(y);
    }
  }

  lemma UpZero(x: nat)
    ensures Up(x, 0) == x
  {
    DivModUnique(x, 1, x, 0);
  }

  lemma FullRun(v1: Limb, v2: Limb)
    ensures v1 as int < Pow2(LIMB_BITS) && v2 as int < Pow2(LIMB_BITS)
    ensures Rem(v1, Pow2(LIMB_BITS)) == v1 && Rem(v2, Pow2(LIMB_BITS)) == v2
    ensures Run(v1, v2, LIMB_BITS) == LIMB_BITS <==> v1 == 0 && v2 as int == B - 1
  {
    BaseIsPow2();
    DivModUnique(v1, B, 0, v1);
    DivModUnique(v2, B, 0, v2);
    var r := Run(v1, v2, LIMB_BITS);
    assert Pow2(0) == 1;
    if r < LIMB_BITS {
      assert Pow2(LIMB_BITS - r - 1) >= 1;
    }
  }

  /** The last loop: whole limbs that are zero in a and all ones in b. */
  method CountOn(a: seq<Limb>, b: seq<Limb>, d: nat, ghost w: nat, ghost j: nat, n0: nat, bitOffset0: int, bOffset: int) returns (n: nat)
    requires w >= 1 && Fits(|a|, |b|, w - 1, d) && Fits(|a|, |b|, w, d) && 0 < j <= w
    requires bitOffset0 == (|a| - (w - j)) * LIMB_BITS - 1 && bOffset == (|b| - |a|) * LIMB_BITS - (LIMB_BITS - 1) + d
    requires Follows(AlignedA(a, w), AlignedB(b, w, d), LIMB_BITS * j) && n0 == LIMB_BITS * (w - j)
    ensures n < LIMB_BITS * w && Stops(AlignedA(a, w), AlignedB(b, w, d), LIMB_BITS * w - n)
  {
    hide AlignedA, AlignedB, Digit, GetBits, BPow, Pow2, Up, Follows, Stops, LimbZ, Run;
    ghost var x, y := AlignedA(a, w), AlignedB(b, w, d);
    LowestIsZero(a, b, d, w);
    n := n0;
    var bitOffset := bitOffset0;
    ghost var k := j;
    while true
      invariant 0 < k <= w && n == LIMB_BITS * (w - k) && bitOffset == (|a| - (w - k)) * LIMB_BITS - 1
      invariant Follows(x, y, LIMB_BITS * k)
      decreases k
    {
      TopDigits(a, b, d, w, w - k, bitOffset, bOffset);
      var v1, v2 := LimbZ(a, bitOffset / LIMB_BITS), GetBits(b, bitOffset + bOffset);
      FullRun(v1, v2);
      LimbStep(k, w);
      RunOfLimb(x, y, k - 1, LIMB_BITS);
      if v1 != 0 || v2 as int != B - 1 {
        var r := Run(v1, v2, LIMB_BITS);
        n := n + r;
        return;
      }
      n := n + LIMB_BITS;
      bitOffset := bitOffset - LIMB_BITS;
      k := k - 1;
      Distribute(|a| - (w - k), 1, LIMB_BITS);
    }
  }

  lemma LimbStep(k: nat, w: nat)
    requires 0 < k <= w
    ensures LIMB_BITS * (k - 1) + LIMB_BITS == LIMB_BITS * k && LIMB_BITS * (w - k) + LIMB_BITS == LIMB_BITS * (w - (k - 1))
    ensures LIMB_BITS * (w - k) + LIMB_BITS * k == LIMB_BITS * w
  {
    Distribute(k - 1, 1, LIMB_BITS);
    Distribute(w - k, 1, LIMB_BITS);
    Distribute(w - k, k, LIMB_BITS);
  }

  /** count_cancelled_bits, for numbers a > b that are aligned with b no more than a few bits lower. The number n of bits
      that it counts follow the pattern, and the next one does not. */
  method CountCancelledBits(a: seq<Limb>, b: seq<Limb>, d: nat, ghost w: nat) returns (n: nat)
    requires w >= 1 && Fits(|a|, |b|, w - 1, d) && Fits(|a|, |b|, w, d) && AlignedA(a, w) > AlignedB(b, w, d)
    ensures n < LIMB_BITS * w && Stops(AlignedA(a, w), AlignedB(b, w, d), LIMB_BITS * w - n)
  {
    hide AlignedA, AlignedB, Digit, GetBits, BPow, Pow2, Up, Follows, Stops, LimbZ, Run, FirstDifference;
    ghost var x, y := AlignedA(a, w), AlignedB(b, w, d);
    LowestIsZero(a, b, d, w);
    var bitOffset, bOffset := |a| * LIMB_BITS - 1, (|b| - |a|) * LIMB_BITS - (LIMB_BITS - 1) + d;
    ghost var t := 0;
    n := 0;
    AllEqualAbove(a, b, d, w);
    TopDigits(a, b, d, w, 0, bitOffset, bOffset);
    var v1, v2 := LimbZ(a, bitOffset / LIMB_BITS), GetBits(b, bitOffset + bOffset);
    while v1 == v2
      invariant 0 <= t < w && n == LIMB_BITS * t && bitOffset == (|a| - t) * LIMB_BITS - 1
      invariant Up(x, w - t) == Up(y, w - t) && v1 == Digit(x, w - 1 - t) && v2 == Digit(y, w - 1 - t)
      decreases w - t
    {
      NextEqual(x, y, w - 1 - t);
      n := n + LIMB_BITS;
      bitOffset := bitOffset - LIMB_BITS;
      t := t + 1;
      Distribute(|a| - t, 1, LIMB_BITS);
      Distribute(t - 1, 1, LIMB_BITS);
      TopDigits(a, b, d, w, t, bitOffset, bOffset);
      v1, v2 := LimbZ(a, bitOffset / LIMB_BITS), GetBits(b, bitOffset + bOffset);
    }
    ghost var j := w - 1 - t;
    TopBitsEqual(v1, v2);
    var p := FirstDifference(v1, v2, 1);
    PatternStarts(x, y, j, p);
    n := n + p;
    Distribute(w, t, LIMB_BITS);
    Distribute(j, 1, LIMB_BITS);
    p := LIMB_BITS - p;
    var r := Run(Rem(v1, Pow2(p)), Rem(v2, Pow2(p)), p);
    RunOfLimb(x, y, j, p);
    n := n + r;
    if r == p {
      n := CountOn(a, b, d, w, j, n, bitOffset - LIMB_BITS, bOffset);
    }
  }
}
