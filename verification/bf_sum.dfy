/** The limb loops of bf_add_internal: adding or subtracting two aligned numbers, and what is discarded below the result. */
module BfSum {
  import opened Arith
  import opened Limbs
  import opened RoundMath
  import opened BfBits
  import opened BfWindow

  /** The second operand: its limbs, or their complements for a subtraction. */
  function Turned(v: Limb, sub: bool): Limb {
    if sub then B - 1 - v else v
  }

  /** One limb of the sum and the carry, with the comparisons that C uses to find it. */
  function AddCarry(v1: Limb, v2: Limb, k: nat): (r: (Limb, nat))
    requires k <= 1
    ensures r.0 as int + r.1 * B == v1 as int + v2 as int + k && r.1 <= 1
  {
    var u := AddW(v1, v2);
    var carry1 := u < v1;
    var u' := AddW(u, k);
    (u', One(u' < k || carry1))
  }

  /** The lowest j limbs of the second operand, turned. */
  function TurnedLow(y: nat, j: nat, sub: bool): (r: nat)
    ensures r < BPow(j)
  {
    if sub then BPow(j) - 1 - Low(y, j) else Low(y, j)
  }

  /** After j limbs the sum of the lowest parts is res, and k is carried. */
  ghost predicate Chain(x: nat, y: nat, sub: bool, j: nat, res: int, k: nat) {
    Low(x, j) + TurnedLow(y, j, sub) + One(sub) == res + k * BPow(j) && 0 <= res < BPow(j) && k <= 1
  }

  lemma ChainStarts(x: nat, y: nat, sub: bool)
    ensures Chain(x, y, sub, 0, 0, One(sub))
  {
    DivModUnique(x, 1, x, 0);
    DivModUnique(y, 1, y, 0);
  }

  lemma TurnedStep(y: nat, j: nat, sub: bool)
    ensures TurnedLow(y, j + 1, sub) == TurnedLow(y, j, sub) + Turned(Digit(y, j), sub) as int * BPow(j)
  {
    hide BPow;
    LowStep(y, j);
    BPowSucc(j);
    var v: int, p := Digit(y, j), BPow(j);
    Distribute(B - 1, v, p);
    Distribute(B, 1, p);
  }

  lemma ChainStep(x: nat, y: nat, sub: bool, j: nat, res: int, k: nat)
    requires Chain(x, y, sub, j, res, k)
    ensures var u := AddCarry(Digit(x, j), Turned(Digit(y, j), sub), k); Chain(x, y, sub, j + 1, res + u.0 as int * BPow(j), u.1)
  {
    hide BPow, Low, TurnedLow, Digit, Turned;
    var v1: int, v2: int, p := Digit(x, j), Turned(Digit(y, j), sub), BPow(j);
    var u := AddCarry(Digit(x, j), Turned(Digit(y, j), sub), k);
    var t: int := u.0;
    LowStep(x, j);
    TurnedStep(y, j, sub);
    BPowSucc(j);
    Distribute(v1, v2, p);
    CarryStep(res, k, Low(x, j) + TurnedLow(y, j, sub) + One(sub), t, u.1, v1 + v2, p);
    LimbOnTop(res, t, p);
  }

  lemma LimbOnTop(res: int, t: int, p: int)
    requires 0 <= res < p && 0 <= t < B
    ensures 0 <= res + t * p < B * p
  {
    MulMono(t + 1, B, p);
    Distribute(t, 1, p);
    MulNonNeg(t, p);
  }

  /** Where both operands have only zero limbs from j to j', one turn of the loop does the work of all of them. */
  lemma ChainJump(x: nat, y: nat, sub: bool, j: nat, j': nat, res: int, k: nat) returns (res': int)
    requires Chain(x, y, sub, j, res, k) && j < j' && Low(x, j') == Low(x, j) && Low(y, j') == Low(y, j)
    ensures var u := AddCarry(0, Turned(0, sub), k);
            Chain(x, y, sub, j', res', u.1) && (res' != 0 <==> res != 0 || u.0 != 0)
  {
    hide BPow;
    var u := AddCarry(0, Turned(0, sub), k);
    var p, p' := BPow(j), BPow(j');
    BPowMono(j + 1, j');
    BPowSucc(j);
    MulMono(2, B, p);
    if !sub {
      res' := res + k * p;
    } else if k == 0 {
      res' := res + p' - p;
    } else {
      res' := res;
    }
  }

  /** Zero digits do not change the low part. */
  lemma {:induction false} LowSame(x: nat, j: nat, j': nat)
    requires j <= j' && forall t :: j <= t < j' ==> Digit(x, t) == 0
    ensures Low(x, j') == Low(x, j)
    decreases j' - j
  {
    hide BPow, Low, Digit;
    if j < j' {
      LowSame(x, j, j' - 1);
      LowStep(x, j' - 1);
    }
  }

  // Two numbers aligned at the top of tot limbs, the second one d bits lower.

  predicate Fits(na: nat, nb: nat, tot: nat, d: nat) {
    na <= tot && nb <= tot && d <= LIMB_BITS * (tot - nb)
  }

  function AlignedA(a: seq<Limb>, tot: nat): nat
    requires |a| <= tot
  {
    var v := Val(a);
    MulNonNeg(v, BPow(tot - |a|));
    v * BPow(tot - |a|)
  }

  function AlignedB(b: seq<Limb>, tot: nat, d: nat): nat
    requires |b| <= tot && d <= LIMB_BITS * (tot - |b|)
  {
    var v := Val(b);
    MulNonNeg(v, Pow2(LIMB_BITS * (tot - |b|) - d));
    v * Pow2(LIMB_BITS * (tot - |b|) - d)
  }

  lemma WholeVal(a: seq<Limb>)
    ensures Seg(a, 0, |a|) == Val(a)
  {
    assert a[0..|a|] == a;
  }

  lemma DigitA(a: seq<Limb>, tot: nat, j: nat)
    requires |a| <= tot
    ensures Digit(AlignedA(a, tot), j) == LimbZ(a, j - (tot - |a|))
  {
    hide BPow, Seg, Digit;
    WholeVal(a);
    ShiftedDigit(Val(a), tot - |a|, j);
    if j >= tot - |a| {
      SegDigit(a, |a|, j - (tot - |a|));
    }
  }

  lemma DigitB(b: seq<Limb>, tot: nat, d: nat, j: nat)
    requires |b| <= tot && d <= LIMB_BITS * (tot - |b|)
    ensures Digit(AlignedB(b, tot, d), j) == GetBits(b, LIMB_BITS * j - (LIMB_BITS * (tot - |b|) - d))
  {
    hide BPow, Pow2, Seg, Digit, GetBits;
    WholeVal(b);
    GetBitsIsDigit(b, j, LIMB_BITS * (tot - |b|) - d);
  }

  /** Outside the limbs there are only zeros. */
  lemma OutsideZero(b: seq<Limb>, pos: int)
    requires pos + LIMB_BITS <= 0 || pos >= |b| * LIMB_BITS
    ensures GetBits(b, pos) == 0
  {
    hide Straddle;
    var i, p := pos / LIMB_BITS, pos % LIMB_BITS;
    assert pos == i * LIMB_BITS + p && 0 <= p < LIMB_BITS;
    if pos + LIMB_BITS <= 0 {
      Distribute(i, 1, LIMB_BITS);
      NotAbove(i + 1, 0);
    } else {
      Distribute(i, 1, LIMB_BITS);
      MulCancelLess(|b|, i + 1, LIMB_BITS);
    }
    if p > 0 {
      StraddleZero(p);
      if pos + LIMB_BITS <= 0 {
        StrictlyBelow(i, p);
      }
    }
  }

  lemma NotAbove(i: int, j: int)
    requires i * LIMB_BITS <= j * LIMB_BITS
    ensures i <= j
  {
    if j < i {
      MulStrict(j, i, LIMB_BITS);
    }
  }

  lemma StrictlyBelow(i: int, p: int)
    requires 0 < p && i * LIMB_BITS + p + LIMB_BITS <= 0
    ensures i + 1 < 0
  {
    Distribute(i, 1, LIMB_BITS);
    MulCancelLess(i + 1, 0, LIMB_BITS);
  }

  /** Where limb i of the result, counted from its bottom, lies in b. */
  function BitAt(nb: nat, rLen: nat, d: nat, i: int): int {
    (nb - rLen) * LIMB_BITS + d + i * LIMB_BITS
  }

  lemma BitAtIs(nb: nat, rLen: nat, tot: nat, d: nat, i: int, j: nat)
    requires j == i + tot - rLen && nb <= tot
    ensures BitAt(nb, rLen, d, i) == LIMB_BITS * j - (LIMB_BITS * (tot - nb) - d)
  {
    Distribute(nb - rLen, i, LIMB_BITS);
    Distribute(j, tot - nb, LIMB_BITS);
  }

  /** The limbs v1 and v2 stand for all the limbs from j to j' of x and y. */
  ghost predicate StandsFor(x: nat, y: nat, j: nat, j': nat, v1: Limb, v2: Limb) {
    || (j' == j + 1 && v1 == Digit(x, j) && v2 == Digit(y, j))
    || (j < j' && v1 == 0 && v2 == 0 && Low(x, j') == Low(x, j) && Low(y, j') == Low(y, j))
  }

  lemma ChainMove(x: nat, y: nat, sub: bool, j: nat, j': nat, v1: Limb, v2: Limb, res: int, k: nat) returns (res': int)
    requires Chain(x, y, sub, j, res, k) && StandsFor(x, y, j, j', v1, v2)
    ensures k <= 1
    ensures var u := AddCarry(v1, Turned(v2, sub), k); Chain(x, y, sub, j', res', u.1) && (res' != 0 <==> res != 0 || u.0 != 0)
  {
    hide BPow, Low, Digit, AddCarry, Turned;
    var u := AddCarry(v1, Turned(v2, sub), k);
    if j' == j + 1 && v1 == Digit(x, j) && v2 == Digit(y, j) {
      ChainStep(x, y, sub, j, res, k);
      NonZeroStep(res, u.0, j);
      res' := res + u.0 as int * BPow(j);
    } else {
      res' := ChainJump(x, y, sub, j, j', res, k);
    }
  }

  /** The limbs of a and b at position i below the result. Outside both of them, the next position is that of the first limb
      inside one of them, so that the time does not depend on the distance between the two numbers. */
  method NextLimbs(a: seq<Limb>, b: seq<Limb>, d: nat, rLen: nat, tot: nat, i: int) returns (v1: Limb, v2: Limb, next: int)
    requires Fits(|a|, |b|, tot, d) && rLen <= tot && rLen - tot <= i < 0
    ensures i < next <= 0
    ensures StandsFor(AlignedA(a, tot), AlignedB(b, tot, d), i + tot - rLen, next + tot - rLen, v1, v2)
  {
    hide BPow, Low, AlignedA, AlignedB, GetBits, LimbZ, BitAt, Digit, NextInB;
    var aOffset := |a| - rLen;
    var ap, bp := aOffset + i, BitAt(|b|, rLen, d, i);
    var inA, inB := 0 <= ap < |a|, bp + LIMB_BITS > 0 && bp < |b| * LIMB_BITS;
    v1, v2 := 0, 0;
    if inA {
      v1 := a[ap];
    }
    if inB {
      v2 := GetBits(b, bp);
    }
    if inA || inB {
      ReadDigits(a, b, d, rLen, tot, i, i + tot - rLen);
      next := i + 1;
    } else {
      next := 0;
      if ap < 0 {
        next := Least(next, -aOffset);
      }
      if bp + LIMB_BITS <= 0 {
        next := Least(next, NextInB(|b|, rLen, d));
      }
      GapBounds(|b|, rLen, d, i, next);
      GapIsZero(a, b, d, rLen, tot, i, next);
    }
  }

  /** The loop over the limbs below the result: the carry into it, and whether anything but zero is discarded. */
  method Discard(a: seq<Limb>, b: seq<Limb>, d: nat, sub: bool, rLen: nat, tot: nat) returns (carry: nat, z: bool, ghost res: int)
    requires Fits(|a|, |b|, tot, d) && rLen <= tot
    ensures Chain(AlignedA(a, tot), AlignedB(b, tot, d), sub, tot - rLen, res, carry) && (z <==> res != 0) && carry <= 1
  {
    hide BPow, Low, Chain, AlignedA, AlignedB, StandsFor;
    ghost var x, y := AlignedA(a, tot), AlignedB(b, tot, d);
    var i := rLen - tot;
    carry, z, res := One(sub), false, 0;
    ChainStarts(x, y, sub);
    while i < 0
      invariant rLen - tot <= i <= 0 && carry <= 1
      invariant Chain(x, y, sub, i + tot - rLen, res, carry) && (z <==> res != 0)
    {
      var v1, v2, next := NextLimbs(a, b, d, rLen, tot, i);
      var u := AddCarry(v1, Turned(v2, sub), carry);
      res := ChainMove(x, y, sub, i + tot - rLen, next + tot - rLen, v1, v2, res, carry);
      i := next;
      carry := u.1;
      z := z || u.0 != 0;
    }
  }

  /** The first limb of the result that reaches into b. */
  function NextInB(nb: nat, rLen: nat, d: nat): int {
    (-((nb - rLen) * LIMB_BITS + d)) / LIMB_BITS
  }

  lemma NonZeroStep(res: int, u: Limb, j: nat)
    requires res >= 0
    ensures res + u as int * BPow(j) != 0 <==> res != 0 || u != 0
  {
    if u > 0 {
      MulPos(u, BPow(j));
    }
  }

  /** What the loops read at limb i are the digits of the aligned numbers. */
  lemma ReadDigits(a: seq<Limb>, b: seq<Limb>, d: nat, rLen: nat, tot: nat, i: int, j: nat)
    requires Fits(|a|, |b|, tot, d) && rLen <= tot && j == i + tot - rLen
    ensures var ap, bp := |a| - rLen + i, BitAt(|b|, rLen, d, i);
            && Digit(AlignedA(a, tot), j) == LimbZ(a, ap) == (if 0 <= ap < |a| then a[ap] else 0)
            && Digit(AlignedB(b, tot, d), j) == GetBits(b, bp)
            && (!(bp + LIMB_BITS > 0 && bp < |b| * LIMB_BITS) ==> GetBits(b, bp) == 0)
  {
    hide BPow, AlignedA, AlignedB, GetBits, Digit, BitAt;
    var bp := BitAt(|b|, rLen, d, i);
    BitAtIs(|b|, rLen, tot, d, i, j);
    DigitA(a, tot, j);
    DigitB(b, tot, d, j);
    if !(bp + LIMB_BITS > 0 && bp < |b| * LIMB_BITS) {
      OutsideZero(b, bp);
    }
  }

  lemma GapBounds(nb: nat, rLen: nat, d: nat, i: int, next: int)
    requires i < 0
    requires BitAt(nb, rLen, d, i) + LIMB_BITS <= 0 ==> next <= NextInB(nb, rLen, d)
    ensures BitAt(nb, rLen, d, i) + LIMB_BITS <= 0 ==> i < NextInB(nb, rLen, d)
    ensures forall t :: i <= t < next ==> (BitAt(nb, rLen, d, i) + LIMB_BITS <= 0 ==> BitAt(nb, rLen, d, t) + LIMB_BITS <= 0)
  {
    var o := (nb - rLen) * LIMB_BITS + d;
    var q := (-o) / LIMB_BITS;
    assert -o == q * LIMB_BITS + (-o) % LIMB_BITS;
    if o + i * LIMB_BITS + LIMB_BITS <= 0 {
      Distribute(i, 1, LIMB_BITS);
      Distribute(q, 1, LIMB_BITS);
      MulCancelLess(i + 1, q + 1, LIMB_BITS);
      forall t | i <= t < next ensures o + t * LIMB_BITS + LIMB_BITS <= 0 {
        MulMono(t + 1, q, LIMB_BITS);
        Distribute(t, 1, LIMB_BITS);
      }
    }
  }

  /** The limbs that the loop jumps over are zero in both numbers. */
  lemma GapIsZero(a: seq<Limb>, b: seq<Limb>, d: nat, rLen: nat, tot: nat, i: int, next: int)
    requires Fits(|a|, |b|, tot, d) && rLen <= tot && rLen - tot <= i < next && next <= -(|a| - rLen)
    requires BitAt(|b|, rLen, d, i) + LIMB_BITS <= 0 || BitAt(|b|, rLen, d, i) >= |b| * LIMB_BITS
    requires forall t :: i <= t < next ==> (BitAt(|b|, rLen, d, i) + LIMB_BITS <= 0 ==> BitAt(|b|, rLen, d, t) + LIMB_BITS <= 0)
    ensures var j, j' := i + tot - rLen, next + tot - rLen;
            Low(AlignedA(a, tot), j') == Low(AlignedA(a, tot), j) && Low(AlignedB(b, tot, d), j') == Low(AlignedB(b, tot, d), j)
  {
    hide BPow, AlignedA, AlignedB, GetBits, Digit, Low;
    var x, y, j, j' := AlignedA(a, tot), AlignedB(b, tot, d), i + tot - rLen, next + tot - rLen;
    forall t | j <= t < j' ensures Digit(x, t) == 0 && Digit(y, t) == 0 {
      var o := t - tot + rLen;
      ReadDigits(a, b, d, rLen, tot, o, t);
      if BitAt(|b|, rLen, d, i) >= |b| * LIMB_BITS {
        MulMono(i, o, LIMB_BITS);
      }
    }
    LowSame(x, j, j');
    LowSame(y, j, j');
  }

  /** The limbs of the result so far, on top of what was discarded, continue the sum. */
  ghost predicate Summed(x: nat, y: nat, sub: bool, low: nat, f: int, s: seq<Limb>, i: nat, k: nat)
    requires i <= |s|
  {
    0 <= f < BPow(low) && Chain(x, y, sub, low + i, f + BPow(low) * Seg(s, 0, i), k)
  }

  lemma SumStarts(x: nat, y: nat, sub: bool, low: nat, f: int, s: seq<Limb>, k: nat)
    requires Chain(x, y, sub, low, f, k)
    ensures Summed(x, y, sub, low, f, s, 0, k)
  {
    SegEmpty(s, 0);
    assert low + 0 == low;
  }

  lemma SumStep(x: nat, y: nat, sub: bool, low: nat, f: int, s: seq<Limb>, i: nat, k: nat)
    requires i < |s| && Summed(x, y, sub, low, f, s, i, k)
    ensures k <= 1
    ensures var u := AddCarry(Digit(x, low + i), Turned(Digit(y, low + i), sub), k);
            Summed(x, y, sub, low, f, s[i := u.0], i + 1, u.1)
  {
    hide BPow, Seg, AddCarry, Turned, Digit, Low, TurnedLow;
    var u := AddCarry(Digit(x, low + i), Turned(Digit(y, low + i), sub), k);
    var s' := s[i := u.0];
    ChainStep(x, y, sub, low + i, f + BPow(low) * Seg(s, 0, i), k);
    SegSnoc(s', 0, i);
    SegSame(s, s', 0, i);
    BPowAdd(low, i);
    var t: int := u.0;
    MulAssoc(t, BPow(low), BPow(i));
    MulAssoc(BPow(low), t, BPow(i));
    Distribute(Seg(s, 0, i), t * BPow(i), BPow(low));
    assert low + (i + 1) == low + i + 1;
  }

  /** Both loops of bf_add_internal, and the sticky bit: the highest rLen limbs of the sum or difference. */
  method AddLimbs(a: seq<Limb>, b: seq<Limb>, d: nat, sub: bool, rLen: nat, tot: nat) returns (r: array<Limb>, carry: nat, ghost f: nat, ghost top: nat)
    requires Fits(|a|, |b|, tot, d) && 0 < rLen <= tot
    ensures fresh(r) && r.Length == rLen && carry <= 1 && f < BPow(tot - rLen) && top < BPow(rLen)
    ensures var x, y := AlignedA(a, tot), AlignedB(b, tot, d);
            x < BPow(tot) && y < BPow(tot)
            && (if sub then x - y + BPow(tot) else x + y) == f + BPow(tot - rLen) * top + carry * BPow(tot)
    ensures Val(r[..]) == Sticky(top, f)
  {
    hide BPow, Low, Chain, AlignedA, AlignedB, GetBits, LimbZ, BitAt, Digit, Seg, Summed;
    ghost var x, y, low := AlignedA(a, tot), AlignedB(b, tot, d), tot - rLen;
    var c, z, res := Discard(a, b, d, sub, rLen, tot);
    carry := c;
    r := new Limb[rLen](_ => 0);
    ghost var s := r[..];
    SumStarts(x, y, sub, low, res, s, carry);
    for i := 0 to rLen
      invariant carry <= 1 && r[..] == s && Summed(x, y, sub, low, res, s, i, carry)
    {
      ReadDigits(a, b, d, rLen, tot, i, low + i);
      var v1, v2 := LimbZ(a, |a| - rLen + i), GetBits(b, BitAt(|b|, rLen, d, i));
      var u := AddCarry(v1, Turned(v2, sub), carry);
      SumStep(x, y, sub, low, res, s, i, carry);
      r[i] := u.0;
      carry := u.1;
      s := s[i := u.0];
    }
    f, top := FinishSum(x, y, sub, low, res, s, rLen, tot, carry, a, b, d);
    if z && r[0] as int % 2 == 0 {
      r[0] := r[0] as int + 1;
    }
    SetLastBit(s, r[..], top, f);
  }

  lemma FinishSum(x: nat, y: nat, sub: bool, low: nat, res: int, s: seq<Limb>, rLen: nat, tot: nat, k: nat, a: seq<Limb>, b: seq<Limb>, d: nat)
    returns (f: nat, top: nat)
    requires Fits(|a|, |b|, tot, d) && x == AlignedA(a, tot) && y == AlignedB(b, tot, d)
    requires rLen == |s| && low == tot - rLen && rLen <= tot && Summed(x, y, sub, low, res, s, rLen, k)
    ensures f == res && top == Val(s) && f < BPow(low) && top < BPow(rLen) && x < BPow(tot) && y < BPow(tot)
    ensures (if sub then x - y + BPow(tot) else x + y) == f + BPow(low) * top + k * BPow(tot)
  {
    hide BPow, AlignedA, AlignedB, Low;
    f, top := res, Val(s);
    WholeVal(s);
    ValBound(s);
    AlignedBounds(a, b, tot, d);
    LowAll(x, tot);
    LowAll(y, tot);
    assert low + rLen == tot;
  }

  lemma AlignedBounds(a: seq<Limb>, b: seq<Limb>, tot: nat, d: nat)
    requires Fits(|a|, |b|, tot, d)
    ensures AlignedA(a, tot) < BPow(tot) && AlignedB(b, tot, d) * Pow2(d) < BPow(tot) && AlignedB(b, tot, d) < BPow(tot)
  {
    hide AlignedA, AlignedB, BPow, Pow2;
    BoundA(a, tot);
    BoundB(b, tot, d);
  }

  lemma BoundA(a: seq<Limb>, tot: nat)
    requires |a| <= tot
    ensures AlignedA(a, tot) < BPow(tot)
  {
    hide BPow, Val;
    ValBound(a);
    BPowAdd(|a|, tot - |a|);
    MulStrict(Val(a), BPow(|a|), BPow(tot - |a|));
  }

  lemma BoundB(b: seq<Limb>, tot: nat, d: nat)
    requires |b| <= tot && d <= LIMB_BITS * (tot - |b|)
    ensures AlignedB(b, tot, d) * Pow2(d) < BPow(tot) && AlignedB(b, tot, d) < BPow(tot)
  {
    hide BPow, Pow2, Val;
    var k := LIMB_BITS * (tot - |b|) - d;
    ValBound(b);
    Pow2Add(k, d);
    BPowIsPow2(tot - |b|);
    BPowAdd(|b|, tot - |b|);
    LowerBound(Val(b), BPow(|b|), Pow2(k), Pow2(d), BPow(tot - |b|), BPow(tot));
  }

  lemma LowerBound(v: nat, p: nat, w: nat, e: nat, q: nat, t: nat)
    requires v < p && q == w * e && t == p * q && e > 0 && w > 0
    ensures v * w * e < t && v * w < t
  {
    MulAssoc(v, w, e);
    MulPos(w, e);
    MulStrict(v, p, q);
    MulNonNeg(v, w);
    MulMono(1, e, v * w);
  }

  lemma SetLastBit(s: seq<Limb>, s': seq<Limb>, top: nat, f: nat)
    requires |s| == |s'| > 0 && top == Val(s) && forall k :: 0 < k < |s| ==> s'[k] == s[k]
    requires s'[0] as int == if f != 0 && s[0] as int % 2 == 0 then s[0] as int + 1 else s[0] as int
    ensures Val(s') == Sticky(top, f)
  {
    hide BPow, Val, Seg, Sticky;
    WholeVal(s);
    WholeVal(s');
    SegCons(s, 0, |s|);
    SegCons(s', 0, |s|);
    SegSame(s, s', 1, |s| - 1);
    LastBit(s[0], s'[0], Seg(s, 1, |s| - 1), f);
  }

  lemma LastBit(x: nat, x': nat, r: nat, f: nat)
    requires x' == if f != 0 && x % 2 == 0 then x + 1 else x
    ensures x + B * r >= 0 && x' + B * r == Sticky(x + B * r, f)
  {
    MulNonNeg(B, r);
    EvenBase(x, r);
  }

  lemma EvenBase(x: nat, r: nat)
    ensures (x + B * r) % 2 == x % 2
  {
    var h := B / 2;
    MulAssoc(2, h, r);
    assert x + B * r == x + 2 * (h * r);
  }
}
