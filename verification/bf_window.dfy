/** Reading the limbs of a number at any bit position, as if it went on with zeros in both directions. */
module BfWindow {
  import opened Arith
  import opened Limbs
  import opened BfBits

  /** The limb of x that has the weight B^j. */
  function Digit(x: nat, j: nat): (d: Limb) {
    Rem(Div(x, BPow(j)), B)
  }

  /** What x holds from the weight B^j on. */
  function Up(x: nat, j: nat): nat {
    Div(x, BPow(j))
  }

  lemma UpStep(x: nat, j: nat)
    ensures Up(x, j) == Up(x, j + 1) * B + Digit(x, j) as int
  {
    hide BPow;
    BPowSucc(j);
    DivTwice(x, BPow(j), B);
    SwapFactors(BPow(j), B);
  }

  /** What x holds below the weight B^j. */
  function Low(x: nat, j: nat): (r: nat)
    ensures r < BPow(j)
  {
    Rem(x, BPow(j))
  }

  lemma LowStep(x: nat, j: nat)
    ensures Low(x, j + 1) == Low(x, j) + Digit(x, j) as int * BPow(j)
  {
    hide BPow;
    var p, hi := BPow(j), Div(x, BPow(j));
    BPowSucc(j);
    SwapFactors(p, B);
    ModSplit(Low(x, j), hi, p, B);
    SwapFactors(hi, p);
    SwapFactors(p, Rem(hi, B));
  }

  lemma LowAll(x: nat, j: nat)
    requires x < BPow(j)
    ensures Low(x, j) == x && Up(x, j) == 0
  {
    hide BPow;
    DivModUnique(x, BPow(j), 0, x);
  }

  /** The limb of s that has the weight B^j. */
  lemma {:induction false} SegDigit(s: seq<Limb>, n: nat, j: nat)
    requires n <= |s|
    ensures Digit(Seg(s, 0, n), j) == if j < n then s[j] else 0
  {
    hide BPow, Seg;
    if j < n {
      SegSplit(s, 0, n, j);
      SegBound(s, 0, j);
      ModSplit(Seg(s, 0, j), Seg(s, j, n - j), BPow(j), 1);
      SegCons(s, j, n - j);
      AddMultiple(s[j], B, Seg(s, j + 1, n - j - 1));
      DivModUnique(s[j], B, 0, s[j]);
    } else {
      SegBound(s, 0, n);
      BPowMono(n, j);
      DivModUnique(Seg(s, 0, n), BPow(j), 0, Seg(s, 0, n));
    }
  }

  /** get_limbz */
  function LimbZ(s: seq<Limb>, idx: int): Limb {
    if 0 <= idx < |s| then s[idx] else 0
  }

  /** Moving a number up by c limbs moves its digits. */
  lemma ShiftedDigit(x: nat, c: nat, j: nat)
    ensures Digit(x * BPow(c), j) == if j >= c then Digit(x, j - c) else 0
  {
    hide BPow;
    var p := BPow(c);
    if j >= c {
      BPowAdd(c, j - c);
      DivTwice(x * p, p, BPow(j - c));
      DivModUnique(x * p, p, x, 0);
    } else {
      BPowAdd(c - j, j);
      var y := x * BPow(c - j);
      MulAssoc(x, BPow(c - j), BPow(j));
      DivModUnique(x * p, BPow(j), y, 0);
      BPowSucc(c - j - 1);
      MulAssoc(x, B, BPow(c - j - 1));
      MulAssoc(B, x, BPow(c - j - 1));
      SwapFactors(B, x * BPow(c - j - 1));
      DivModUnique(y, B, x * BPow(c - j - 1), 0);
    }
  }

  /** The limb that starts p bits above the bottom of a0, with a1 above it. */
  function Straddle(a0: Limb, a1: Limb, p: nat): (v: Limb)
    requires 0 < p < LIMB_BITS
  {
    StraddleFits(a0, a1, p);
    Div(a0, Pow2(p)) + Rem(a1, Pow2(p)) * Pow2(LIMB_BITS - p)
  }

  lemma StraddleFits(a0: nat, a1: nat, p: nat)
    requires a0 < B && 0 < p < LIMB_BITS
    ensures 0 <= Div(a0, Pow2(p)) + Rem(a1, Pow2(p)) * Pow2(LIMB_BITS - p) < B
  {
    hide Pow2;
    var w, c := Pow2(LIMB_BITS - p), Pow2(p);
    BaseIsPow2();
    Pow2Add(LIMB_BITS - p, p);
    var q, r := Div(a0, c), Rem(a1, c);
    assert Rem(a0, c) >= 0;
    MulCancelLess(q, w, c);
    MulMono(r + 1, c, w);
    Distribute(r, 1, w);
    MulNonNeg(r, w);
    SwapFactors(w, c);
  }

  /** get_bits: LIMB_BITS bits from bit pos on. */
  function GetBits(s: seq<Limb>, pos: int): Limb {
    var i, p := pos / LIMB_BITS, pos % LIMB_BITS;
    if p == 0 then LimbZ(s, i) else Straddle(LimbZ(s, i), LimbZ(s, i + 1), p)
  }

  /** Multiplying by w moves the part of each limb that does not fit into the next one. */
  lemma ScaledLow(lo: nat, t: nat, p: nat, w: nat, c: nat)
    requires lo < p && c > 0 && w > 0 && c * w == B
    ensures var k, x := Div(t, c), (lo + Rem(t, c) * p) * w; (lo + t * p) * w == x + k * (B * p) && 0 <= x < B * p
  {
    var k, r := Div(t, c), Rem(t, c);
    Distribute(k * c, r, p);
    MulAssoc(k, c, p);
    Distribute(lo + r * p, k * (c * p), w);
    MulAssoc(k, c * p, w);
    MulAssoc(c, p, w);
    MulAssoc(p, c, w);
    SwapFactors(p, B);
    MulMono(r + 1, c, p);
    Distribute(r, 1, p);
    MulStrict(lo + r * p, c * p, w);
    MulNonNeg(r, p);
    MulNonNeg(lo + r * p, w);
  }

  /** One digit of a number that is multiplied by w = 2^r. */
  lemma ScaledDigit(s: seq<Limb>, j: nat, w: nat, c: nat)
    requires j < |s| && c > 0 && w > 0 && c * w == B
    ensures Digit(Seg(s, 0, |s|) * w, j) as int == Div(if j > 0 then s[j - 1] else 0, c) + Rem(s[j], c) * w
  {
    hide BPow, Seg, Div, Rem;
    var hi, k := Seg(s, j, |s| - j), Div(if j > 0 then s[j - 1] else 0, c);
    SegSplit(s, 0, |s|, j);
    var low := LowPart(s, j, w, c, k);
    JoinParts(Seg(s, 0, j), hi, BPow(j), w, low, k, Seg(s, 0, |s|));
    SegCons(s, j, |s| - j);
    CarryBelow(if j > 0 then s[j - 1] else 0, w, c);
    HighDigit(s[j], Seg(s, j + 1, |s| - j - 1), hi, w, c, k);
  }

  lemma CarryBelow(t: nat, w: nat, c: nat)
    requires t < B && w > 0 && c > 0 && c * w == B
    ensures Div(t, c) < w
  {
    assert Rem(t, c) >= 0;
    SwapFactors(c, w);
    MulCancelLess(Div(t, c), w, c);
  }

  lemma JoinParts(lo: nat, hi: nat, p: nat, w: nat, low: nat, k: nat, v: nat)
    requires v == lo + p * hi && lo * w == low + k * p && low < p
    ensures v * w >= 0 && k + hi * w >= 0 && Div(v * w, p) == k + hi * w
  {
    MulNonNeg(hi, w);
    MulNonNeg(v, w);
    Distribute(lo, p * hi, w);
    MulAssoc(p, hi, w);
    SwapFactors(p, hi * w);
    Distribute(k, hi * w, p);
    DivModUnique(v * w, p, k + hi * w, low);
  }

  lemma LowPart(s: seq<Limb>, j: nat, w: nat, c: nat, k: nat) returns (low: nat)
    requires j < |s| && c > 0 && w > 0 && c * w == B && k == Div(if j > 0 then s[j - 1] else 0, c)
    ensures Seg(s, 0, j) * w == low + k * BPow(j) && low < BPow(j)
  {
    hide BPow, Seg;
    if j == 0 {
      SegEmpty(s, 0);
      DivModUnique(0, c, 0, 0);
      low := 0;
    } else {
      SegSnoc(s, 0, j - 1);
      SegBound(s, 0, j - 1);
      BPowSucc(j - 1);
      ScaledLow(Seg(s, 0, j - 1), s[j - 1], BPow(j - 1), w, c);
      low := (Seg(s, 0, j - 1) + Rem(s[j - 1], c) * BPow(j - 1)) * w;
    }
  }

  lemma HighDigit(t: nat, rest: nat, hi: nat, w: nat, c: nat, k: nat)
    requires c > 0 && w > 0 && c * w == B && k < w && hi == t + B * rest
    ensures k + hi * w >= 0 && Rem(k + hi * w, B) == k + Rem(t, c) * w
  {
    var q, r := Div(t, c), Rem(t, c);
    MulNonNeg(hi, w);
    Distribute(q * c, r, w);
    MulAssoc(q, c, w);
    Distribute(t, B * rest, w);
    MulAssoc(B, rest, w);
    SwapFactors(B, rest * w);
    Distribute(q, rest * w, B);
    MulMono(r + 1, c, w);
    Distribute(r, 1, w);
    MulNonNeg(r, w);
    DivModUnique(k + hi * w, B, q + rest * w, k + r * w);
  }

  function Zeros(n: nat): (z: seq<Limb>)
    ensures |z| == n
  {
    seq(n, _ => 0)
  }

  lemma PaddedSeg(s: seq<Limb>, n: nat)
    ensures Seg(s + Zeros(n), 0, |s| + n) == Seg(s, 0, |s|)
  {
    hide BPow, Seg;
    var z := s + Zeros(n);
    SegSplit(z, 0, |s| + n, |s|);
    SegSame(s, z, 0, |s|);
    SegZero(z, |s|, n);
  }

  lemma BitShiftParts(v: nat, k: nat)
    ensures var c, r := k / LIMB_BITS, k % LIMB_BITS; v * Pow2(k) == v * Pow2(r) * BPow(c)
  {
    hide BPow, Pow2;
    var c, r := k / LIMB_BITS, k % LIMB_BITS;
    BitPosition(k);
    SwapFactors(BPow(c), Pow2(r));
    MulAssoc(v, Pow2(r), BPow(c));
  }

  lemma WindowPosition(j: nat, k: nat)
    ensures var c, r := k / LIMB_BITS, k % LIMB_BITS;
            var pos := LIMB_BITS * j - k;
            && (r == 0 ==> pos / LIMB_BITS == j - c && pos % LIMB_BITS == 0)
            && (r > 0 ==> pos / LIMB_BITS == j - c - 1 && pos % LIMB_BITS == LIMB_BITS - r)
  {
    var c, r := k / LIMB_BITS, k % LIMB_BITS;
    var pos := LIMB_BITS * j - k;
    Distribute(j, c, LIMB_BITS);
    assert k == c * LIMB_BITS + r;
    if r == 0 {
      DivModUnique(pos, LIMB_BITS, j - c, 0);
    } else {
      Distribute(j - c, 1, LIMB_BITS);
      DivModUnique(pos, LIMB_BITS, j - c - 1, LIMB_BITS - r);
    }
  }

  /** Reading at bit LIMB_BITS * j - k gives digit j of the number moved up by k bits. */
  lemma GetBitsIsDigit(s: seq<Limb>, j: nat, k: nat)
    ensures GetBits(s, LIMB_BITS * j - k) == Digit(Seg(s, 0, |s|) * Pow2(k), j)
  {
    hide BPow, Pow2, Seg, Digit, Straddle;
    var c, r, v := k / LIMB_BITS, k % LIMB_BITS, Seg(s, 0, |s|);
    BitShiftParts(v, k);
    ShiftedDigit(v * Pow2(r), c, j);
    WindowPosition(j, k);
    if r == 0 {
      PowerOfZero(v);
      if j >= c {
        SegDigit(s, |s|, j - c);
      }
    } else if j < c {
      StraddleZero(LIMB_BITS - r);
    } else {
      WindowDigit(s, j - c, r);
    }
  }

  lemma StraddleZero(p: nat)
    requires 0 < p < LIMB_BITS
    ensures Straddle(0, 0, p) == 0
  {
    DivModUnique(0, Pow2(p), 0, 0);
  }

  lemma WindowDigit(s: seq<Limb>, t: nat, r: nat)
    requires 0 < r < LIMB_BITS
    ensures Straddle(LimbZ(s, t - 1), LimbZ(s, t), LIMB_BITS - r) == Digit(Seg(s, 0, |s|) * Pow2(r), t)
  {
    hide BPow, Pow2, Seg, Digit, Zeros;
    var z := s + Zeros(t + 1);
    PaddedSeg(s, t + 1);
    BaseIsPow2();
    Pow2Add(LIMB_BITS - r, r);
    ZerosAre(t + 1);
    ScaledDigit(z, t, Pow2(r), Pow2(LIMB_BITS - r));
  }

  lemma ZerosAre(n: nat)
    ensures forall k :: 0 <= k < n ==> Zeros(n)[k] == 0
  {
  }
}
