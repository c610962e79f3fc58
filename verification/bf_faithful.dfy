/** What the faithful mode keeps of its promise in a multiplication, which cuts long operands first. */
module BfFaithful {
  import opened Arith
  import opened Limbs
  import opened MpDivNorm
  import opened RoundMath
  import opened BfBits
  import opened BfRound
  import opened BfNumber
  import opened BfScale
  import opened BfNormalize
  import opened BfWindow
  import opened BfSum
  import opened BfExact
  import opened BfMul

  /** The number in r is one of the two multiples of 2^j next to m * 2^i, or m * 2^i itself. */
  ghost predicate Neighbour(r: Number, m: nat, i: int, j: int)
    reads r, r.tab
  {
    Rounded(RNDF, r.sign, m, i, j, Val(r.tab[..]), r.Now().Lowest())
  }

  ghost function ExactProduct(a: Value, b: Value): nat {
    Times(Val(a.limbs), Val(b.limbs))
  }

  /** The exponent range is not left, so that the product is rounded and not replaced. */
  ghost predicate Inside(flags: Flags, e: int)
    requires flags.Valid()
  {
    flags.EMin() <= e < flags.Range()
  }

  lemma FaithfulRounded(negative: bool, m: nat, i: int, j: int, x: nat, p: int)
    requires Rounded(Settled(RNDF), negative, m, i, j, x, p)
    ensures Rounded(RNDF, negative, m, i, j, x, p)
  {
    hide Pow2, IsRounding, SameValue;
    if j > i {
      var n :| IsRounding(Settled(RNDF), negative, m, Pow2(j - i), n) && SameValue(x, p, n, j);
      SettledIsFaithful(negative, m, Pow2(j - i), n);
    }
  }

  /** What an outcome inside the exponent range says about the value. */
  lemma InsideRounded(r: Number, prec: nat, flags: Flags, m: nat, i: int, e: int, st: Status)
    requires flags.Valid() && !flags.radPoint && prec > 0 && Inside(flags, e) && r.Outcome(prec, flags, m, i, e, false, st)
    ensures Rounded(Settled(flags.mode), r.sign, m, i, e - prec, Val(r.tab[..]), r.Now().Lowest())
  {
    hide Rounded, Reaches, Seg, Val, Number.Normal, Number.Overflowed;
    WholeVal(r.tab[..]);
  }

  /** Operands that are not cut: the promise is kept. */
  lemma UncutIsFaithful(r: Number, a: Value, b: Value, prec: nat, flags: Flags, e: int, st: Status, invalid: bool)
    requires flags.Valid() && !flags.radPoint && flags.mode == RNDF && prec > 0 && Inside(flags, e)
    requires a.Proper() && b.Proper() && 0 < |a.limbs| <= Kept(prec) && 0 < |b.limbs| <= Kept(prec)
    requires IsProduct(r, Used(a, prec, flags), Used(b, prec, flags), prec, flags, e, st, invalid)
    ensures TopBit(ExactProduct(a, b), a.Lowest() + b.Lowest(), e)
    ensures Neighbour(r, ExactProduct(a, b), a.Lowest() + b.Lowest(), e - prec)
  {
    hide TopBit, Number.Outcome, Rounded, Val;
    var m, i := ExactProduct(a, b), a.Lowest() + b.Lowest();
    InsideRounded(r, prec, flags, m, i, e, st);
    FaithfulRounded(r.sign, m, i, e - prec, Val(r.tab[..]), r.Now().Lowest());
  }

  // How much cutting costs.

  /** The operand in terms of its part that is used. */
  lemma UsedParts(v: Value, prec: nat, flags: Flags) returns (f: nat, c: nat)
    requires v.Proper() && |v.limbs| > 0
    ensures var u := Used(v, prec, flags);
            && Val(v.limbs) == Val(u.limbs) * BPow(c) + f && f < BPow(c) && u.Lowest() == v.Lowest() + LIMB_BITS * c
            && (c > 0 ==> Pow2(prec + 2) <= 2 * Val(u.limbs)) && (c == 0 ==> f == 0)
            && (c > 0 <==> flags.mode == RNDF && |v.limbs| > Kept(prec)) && Val(u.limbs) > 0
  {
    hide Val, Seg, BPow, Pow2;
    var u := Used(v, prec, flags);
    var n := |v.limbs|;
    c := n - |u.limbs|;
    f := Seg(v.limbs, 0, c);
    WholeVal(v.limbs);
    WholeVal(u.limbs);
    SegSplit(v.limbs, 0, n, c);
    SegBound(v.limbs, 0, c);
    TopPart(v.limbs, u.limbs, c);
    SwapFactors(BPow(c), Val(u.limbs));
    Distribute(n, |u.limbs|, LIMB_BITS);
    NormalTop(u.limbs, 0);
    if c > 0 {
      HalfFull(u.limbs, 0, |u.limbs|);
      BPowIsPow2(|u.limbs|);
      Pow2Mono(prec + 2, LIMB_BITS * |u.limbs|);
    } else {
      PowersOfZero();
    }
  }

  lemma TopPart(s: seq<Limb>, t: seq<Limb>, c: nat)
    requires c <= |s| && t == s[c..]
    ensures Seg(s, c, |s| - c) == Val(t)
  {
    assert s[c..c + (|s| - c)] == t;
  }

  /** The part of the product that is lost, for the used parts x and y; what is lost of them is f / p and g / q. */
  lemma LostPart(x: nat, p: nat, f: nat, y: nat, q: nat, g: nat, t: nat)
    requires 0 < p && 0 < q && f < p && g < q
    requires (f > 0 ==> 2 * y < t) && (g > 0 ==> 2 * x < t) && t > 0
    ensures x * y * (p * q) <= (x * p + f) * (y * q + g) < x * y * (p * q) + t * (p * q)
  {
    var pq := p * q;
    FourFactors(x, p, y, q);
    Distribute(x * p, f, y * q + g);
    Distribute(y * q, g, x * p);
    Distribute(y * q, g, f);
    MulNonNeg(f, y * q);
    MulNonNeg(f, g);
    MulNonNeg(x * p, g);
    MulPos(p, q);
    CrossTerm(y, q, f, p);
    CrossTerm(x, p, g, q);
    SwapFactors(q, p);
    MulBounds(f, p, g, q);
    if f == 0 && g == 0 {
      MulPos(t, pq);
    } else if g == 0 {
      OneSided(f, y, p, q, t);
    } else if f == 0 {
      OneSided(g, x, q, p, t);
    } else {
      BothCut(f, g, p, q, x, y, t);
    }
  }

  lemma CrossTerm(y: nat, q: nat, f: nat, p: nat)
    requires f < p
    ensures f * (y * q) <= y * (p * q)
  {
    MulNonNeg(y, q);
    MulMono(f, p, y * q);
    MulAssoc(p, y, q);
    MulAssoc(y, p, q);
    SwapFactors(p, y);
  }

  lemma OneSided(f: nat, y: nat, p: nat, q: nat, t: nat)
    requires f < p && 0 < q && 2 * y < t
    ensures f * (y * q) < t * (p * q)
  {
    CrossTerm(y, q, f, p);
    MulPos(p, q);
    MulStrict(y, t, p * q);
  }

  lemma BothCut(f: nat, g: nat, p: nat, q: nat, x: nat, y: nat, t: nat)
    requires 0 < f < p && 0 < g < q && 2 * y < t && 2 * x < t
    ensures f * (y * q) + g * (x * p) + f * g < t * (p * q)
  {
    var pq := p * q;
    CrossTerm(y, q, f, p);
    CrossTerm(x, p, g, q);
    SwapFactors(q, p);
    MulStrict(f, p, g);
    MulStrict(g, q, p);
    SwapFactors(f, g);
    SwapFactors(p, g);
    Distribute(x + y, 1, pq);
    Distribute(x, y, pq);
    MulMono(x + y + 1, t, pq);
  }

  /** A used part of prec + 2 bits leaves the unit larger than twice the other factor. */
  lemma UnitLarge(x: nat, y: nat, prec: nat, g: nat)
    requires x * y < Pow2(g) && Pow2(prec + 2) <= 2 * x && y > 0
    ensures prec + 2 <= g && 2 * y < Pow2(g - prec)
  {
    hide Pow2;
    Doubled(prec + 2);
    Doubled(prec + 1);
    MulMono(Pow2(prec + 1), x, y);
    MulMono(1, y, Pow2(prec + 1));
    if g < prec + 2 {
      Pow2Mono(g, prec + 1);
      assert false;
    }
    Pow2Add(prec, g - prec);
    MulAssoc(2, Pow2(prec), y);
    MulAssoc(Pow2(prec), 2, y);
    SwapFactors(2, Pow2(prec));
    MulCancelLess(2 * y, Pow2(g - prec), Pow2(prec));
  }

  /** n units u of the used product m, for the whole product M, which is less than a unit above it. */
  lemma WithinUnits(negative: bool, n: nat, m: nat, u: nat, w: nat, M: nat)
    requires u > 0 && w > 0 && IsRounding(Settled(RNDF), negative, m, u, n) && m * w <= M < m * w + u * w
    ensures 2 * (n * (u * w)) - 2 * M < 3 * (u * w) && 2 * M - 2 * (n * (u * w)) < 3 * (u * w)
  {
    var x, U := n * u, u * w;
    MulAssoc(n, u, w);
    NearScaled(x, m, u, w);
  }

  lemma NearScaled(x: int, m: int, u: int, w: nat)
    requires 2 * m <= 2 * x + u && 2 * x <= 2 * m + u
    ensures 2 * (m * w) <= 2 * (x * w) + u * w && 2 * (x * w) <= 2 * (m * w) + u * w
  {
    MulMono(2 * m, 2 * x + u, w);
    MulMono(2 * x, 2 * m + u, w);
    Distribute(2 * x, u, w);
    Distribute(2 * m, u, w);
    MulAssoc(2, x, w);
    MulAssoc(2, m, w);
  }

  /** Operands that are cut: the result is less than one and a half units away from the exact product. */
  lemma CutIsClose(r: Number, a: Value, b: Value, prec: nat, flags: Flags, e: int, st: Status, invalid: bool) returns (n: nat)
    requires flags.Valid() && !flags.radPoint && flags.mode == RNDF && prec > 0 && Inside(flags, e)
    requires a.Proper() && b.Proper() && |a.limbs| > 0 && |b.limbs| > 0 && (|a.limbs| > Kept(prec) || |b.limbs| > Kept(prec))
    requires IsProduct(r, Used(a, prec, flags), Used(b, prec, flags), prec, flags, e, st, invalid)
    ensures var m, i, j := ExactProduct(a, b), a.Lowest() + b.Lowest(), e - prec;
            && j >= i && SameValue(Val(r.tab[..]), r.Now().Lowest(), n, j)
            && var u := Pow2(j - i); 2 * (n * u) - 2 * m < 3 * u && 2 * m - 2 * (n * u) < 3 * u
  {
    hide TopBit, Number.Outcome, Val, Pow2, BPow, IsRounding, SameValue, Used, Kept;
    var a', b' := Used(a, prec, flags), Used(b, prec, flags);
    var f, c := UsedParts(a, prec, flags);
    var g, d := UsedParts(b, prec, flags);
    var x, y, i, i', j := Val(a'.limbs), Val(b'.limbs), a.Lowest() + b.Lowest(), a'.Lowest() + b'.Lowest(), e - prec;
    UsedProduct(r, a, b, prec, flags, e, st, invalid);
    CutPositions(x, y, f, g, c, d, prec, i, i', e);
    n :| IsRounding(Settled(RNDF), r.sign, Times(x, y), Pow2(j - i'), n) && SameValue(Val(r.tab[..]), r.Now().Lowest(), n, j);
    MulPos(BPow(c), BPow(d));
    WithinUnits(r.sign, n, Times(x, y), Pow2(j - i'), BPow(c) * BPow(d), ExactProduct(a, b));
  }

  lemma UsedProduct(r: Number, a: Value, b: Value, prec: nat, flags: Flags, e: int, st: Status, invalid: bool)
    requires flags.Valid() && !flags.radPoint && prec > 0 && Inside(flags, e) && a.Proper() && b.Proper() && |a.limbs| > 0 && |b.limbs| > 0
    requires IsProduct(r, Used(a, prec, flags), Used(b, prec, flags), prec, flags, e, st, invalid)
    ensures var a', b' := Used(a, prec, flags), Used(b, prec, flags);
            var m, i := ExactProduct(a', b'), a'.Lowest() + b'.Lowest();
            TopBit(m, i, e) && Rounded(Settled(flags.mode), r.sign, m, i, e - prec, Val(r.tab[..]), r.Now().Lowest())
  {
    hide TopBit, Number.Outcome, Val, Rounded, Kept;
    var a', b' := Used(a, prec, flags), Used(b, prec, flags);
    InsideRounded(r, prec, flags, ExactProduct(a', b'), a'.Lowest() + b'.Lowest(), e, st);
  }

  lemma CutPositions(x: nat, y: nat, f: nat, g: nat, c: nat, d: nat, prec: nat, i: int, i': int, e: int)
    requires 0 < x && 0 < y && TopBit(Times(x, y), i', e) && i' == i + LIMB_BITS * c + LIMB_BITS * d
    requires (c > 0 || d > 0) && (c == 0 ==> f == 0) && (d == 0 ==> g == 0) && f < BPow(c) && g < BPow(d)
    requires (c > 0 ==> Pow2(prec + 2) <= 2 * x) && (d > 0 ==> Pow2(prec + 2) <= 2 * y)
    ensures var j, w := e - prec, BPow(c) * BPow(d);
            && i <= i' < j && Pow2(j - i) == Pow2(j - i') * w
            && Times(x, y) * w <= (x * BPow(c) + f) * (y * BPow(d) + g) < Times(x, y) * w + Pow2(j - i') * w
  {
    hide Pow2, BPow, TopBit;
    var j := e - prec;
    TopBelow(Times(x, y), i', e);
    CutUnits(x, y, f, g, c, d, prec, e - i');
    Distribute(c, d, LIMB_BITS);
    BPowIsPow2(c + d);
    BPowAdd(c, d);
    MulNonNeg(c + d, LIMB_BITS);
    Pow2Add(j - i', LIMB_BITS * (c + d));
    assert j - i' + LIMB_BITS * (c + d) == j - i;
    LostPart(x, BPow(c), f, y, BPow(d), g, Pow2(j - i'));
  }

  lemma TopBelow(m: nat, i: int, e: int)
    requires TopBit(m, i, e)
    ensures e > i && m < Pow2(e - i)
  {
  }

  lemma CutUnits(x: nat, y: nat, f: nat, g: nat, c: nat, d: nat, prec: nat, k: nat)
    requires 0 < x && 0 < y && x * y < Pow2(k) && (c > 0 || d > 0) && (c == 0 ==> f == 0) && (d == 0 ==> g == 0)
    requires (c > 0 ==> Pow2(prec + 2) <= 2 * x) && (d > 0 ==> Pow2(prec + 2) <= 2 * y)
    ensures prec + 2 <= k && Pow2(k - prec) > 0 && (f > 0 ==> 2 * y < Pow2(k - prec)) && (g > 0 ==> 2 * x < Pow2(k - prec))
  {
    hide Pow2;
    if c > 0 {
      UnitLarge(x, y, prec, k);
    }
    if d > 0 {
      SwapFactors(x, y);
      UnitLarge(y, x, prec, k);
    }
  }

  // Operands for which the promise is broken.

  const LEFT: Value := Value(false, 0, [B - 1, B - 4])
  const RIGHT: Value := Value(false, 0, [B - 1, B / 2 + 1])

  lemma TwoLimbs(x: Limb, y: Limb)
    ensures Val([x, y]) == x as int + y as int * B && Val([y]) == y
  {
    SegOne([y], 0);
    WholeVal([y]);
    SegCons([x, y], 0, 2);
    SegOne([x, y], 1);
    WholeVal([x, y]);
  }

  lemma Examples()
    ensures var x, y := B - 4, B / 2 + 1;
            && B * B / 4 <= x * y < B * B / 2 && x * y / (2 * B) == B / 4 - 1 && x * y % (2 * B) < B
            && B * B * B * (B / 2) <= (B - 1 + x * B) * (B - 1 + y * B) < B * B * B * B
  {
    if B == 0x1_0000_0000 {
      assert (0x1_0000_0000 - 4) * (0x8000_0000 + 1) == 0x7fff_fffe_ffff_fffc;
    } else {
      assert (0x1_0000_0000_0000_0000 - 4) * (0x8000_0000_0000_0000 + 1) == 0x7fff_ffff_ffff_fffe_ffff_ffff_ffff_fffc;
    }
  }

  lemma OneLimbKept()
    ensures Kept(LIMB_BITS - 2) == 1
  {
  }

  /** Powers of two as limbs. */
  lemma Powers()
    ensures Pow2(LIMB_BITS + 1) == 2 * B && Pow2(2 * LIMB_BITS) == B * B && Pow2(2 * LIMB_BITS - 1) == B * B / 2
    ensures Pow2(2 * LIMB_BITS - 2) == B * B / 4
    ensures Pow2(4 * LIMB_BITS) == B * B * B * B && Pow2(4 * LIMB_BITS - 1) == B * B * B * (B / 2)
  {
    hide Pow2;
    var l := LIMB_BITS;
    BaseIsPow2();
    Doubled(l + 1);
    Pow2Add(l, l);
    Doubled(2 * l);
    Doubled(2 * l - 1);
    Doubled(l);
    Pow2Add(2 * l, l);
    Pow2Add(3 * l, l);
    Pow2Add(3 * l, l - 1);
  }

  /** The cut product has its top bit one place lower than the exact one. */
  lemma ExampleTop(e: int)
    requires TopBit(Times(B - 4, B / 2 + 1), -2 * LIMB_BITS, e)
    ensures e == -1
  {
    hide Pow2;
    Examples();
    Powers();
    assert TopBit(Times(B - 4, B / 2 + 1), -2 * LIMB_BITS, -1);
    TopBitUnique(Times(B - 4, B / 2 + 1), -2 * LIMB_BITS, e, -1);
  }

  /** The cut product rounds to an odd number of its units. */
  lemma ExampleRounds(negative: bool, n: nat)
    requires IsRounding(Settled(RNDF), negative, Times(B - 4, B / 2 + 1), 2 * B, n)
    ensures n == B / 4 - 1 && n % 2 == 1
  {
    var m, u, k := Times(B - 4, B / 2 + 1), 2 * B, B / 4 - 1;
    Examples();
    Euclid(m, u);
    assert m == k * u + m % u;
    assert IsRounding(Settled(RNDF), negative, m, u, k);
    RoundingUnique(Settled(RNDF), negative, m, u, n, k);
  }

  /** For these operands the result of a multiplication to LIMB_BITS - 2 bits is neither of the neighbours of the product. */
  lemma FaithfulMayMiss(r: Number, flags: Flags, e: int, st: Status, invalid: bool)
    requires flags.Valid() && !flags.radPoint && flags.mode == RNDF
    requires var prec := LIMB_BITS - 2; IsProduct(r, Used(LEFT, prec, flags), Used(RIGHT, prec, flags), prec, flags, e, st, invalid)
    ensures LEFT.Proper() && RIGHT.Proper() && TopBit(ExactProduct(LEFT, RIGHT), LEFT.Lowest() + RIGHT.Lowest(), 0)
    ensures !Neighbour(r, ExactProduct(LEFT, RIGHT), LEFT.Lowest() + RIGHT.Lowest(), 0 - (LIMB_BITS - 2))
  {
    hide Val, Pow2, IsRounding, SameValue, TopBit, Number.Outcome, Rounded;
    var prec, i, i' := LIMB_BITS - 2, LEFT.Lowest() + RIGHT.Lowest(), -2 * LIMB_BITS;
    var m, m' := ExactProduct(LEFT, RIGHT), Times(B - 4, B / 2 + 1);
    OneLimbKept();
    TwoLimbs(B - 1, B - 4);
    TwoLimbs(B - 1, B / 2 + 1);
    assert Used(LEFT, prec, flags).limbs == [B - 4] && Used(RIGHT, prec, flags).limbs == [B / 2 + 1];
    ExampleTop(e);
    ExactTop(m, i);
    InsideRounded(r, prec, flags, m', i', e, st);
    NotBoth(r.sign, m', m, i, Val(r.tab[..]), r.Now().Lowest());
  }

  lemma ExactTop(m: nat, i: int)
    requires m == (B - 1 + (B - 4) * B) * (B - 1 + (B / 2 + 1) * B) && i == -4 * LIMB_BITS
    ensures TopBit(m, i, 0)
  {
    hide Pow2;
    Examples();
    Powers();
  }

  /** An odd number of units is no number of units twice as large. */
  lemma NotBoth(negative: bool, m': nat, m: nat, i: int, x: nat, p: int)
    requires m' == Times(B - 4, B / 2 + 1) && i == -4 * LIMB_BITS
    requires Rounded(Settled(RNDF), negative, m', -2 * LIMB_BITS, 1 - LIMB_BITS, x, p)
    ensures !Rounded(RNDF, negative, m, i, 2 - LIMB_BITS, x, p)
  {
    hide Pow2, IsRounding, SameValue;
    Powers();
    var n :| IsRounding(Settled(RNDF), negative, m', Pow2(1 - LIMB_BITS + 2 * LIMB_BITS), n) && SameValue(x, p, n, 1 - LIMB_BITS);
    ExampleRounds(negative, n);
    if Rounded(RNDF, negative, m, i, 2 - LIMB_BITS, x, p) {
      var k :| IsRounding(RNDF, negative, m, Pow2(2 - LIMB_BITS - i), k) && SameValue(x, p, k, 2 - LIMB_BITS);
      SameSym(x, p, n, 1 - LIMB_BITS);
      SameTrans(n, 1 - LIMB_BITS, x, p, k, 2 - LIMB_BITS);
      EvenUnits(n, k);
    }
  }

  lemma EvenUnits(n: nat, k: nat)
    requires SameValue(n, 1 - LIMB_BITS, k, 2 - LIMB_BITS)
    ensures n == 2 * k
  {
    Pow2One();
  }
}
