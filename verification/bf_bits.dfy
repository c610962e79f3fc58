/** Single bits of a limb array. */
module BfBits {
  import opened Arith
  import opened Limbs

  lemma {:induction false} BPowIsPow2(n: nat)
    ensures BPow(n) == Pow2(LIMB_BITS * n)
  {
    if n > 0 {
      BPowIsPow2(n - 1);
      BaseIsPow2();
      Pow2Add(LIMB_BITS, LIMB_BITS * (n - 1));
      assert LIMB_BITS * n == LIMB_BITS + LIMB_BITS * (n - 1);
    }
  }

  /** Quotient and remainder of natural numbers. */
  function Div(x: nat, d: nat): (q: nat)
    requires d > 0
  {
    x / d
  }

  function Rem(x: nat, d: nat): (r: nat)
    requires d > 0
    ensures r < d && x == Div(x, d) * d + r
  {
    x % d
  }

  /** Dividing by a product is dividing twice. */
  lemma DivTwice(x: nat, a: nat, b: nat)
    requires a > 0 && b > 0
    ensures a * b > 0 && x / (a * b) == x / a / b
  {
    Euclid(x, a);
    Euclid(x / a, b);
    DivTwiceBy(x, a, b, x / a, x % a, x / a / b, x / a % b);
  }

  lemma DivTwiceBy(x: nat, a: nat, b: nat, q: nat, r: nat, q': nat, r': nat)
    requires r < a && r' < b && x == q * a + r && q == q' * b + r'
    ensures a * b > 0 && x / (a * b) == q'
  {
    MulPos(a, b);
    Distribute(q' * b, r', a);
    MulAssoc(q', b, a);
    MulMono(r' + 1, b, a);
    Distribute(r', 1, a);
    MulNonNeg(r', a);
    DivModUnique(x, a * b, q', r' * a + r);
  }

  /** The low part of lo + p * hi. */
  lemma ModSplit(lo: nat, hi: nat, p: nat, q: nat)
    requires lo < p && q > 0
    ensures p * q > 0 && (lo + p * hi) % (p * q) == lo + p * (hi % q) && (lo + p * hi) / p == hi
  {
    MulPos(p, q);
    var k, r := hi / q, hi % q;
    Distribute(k * q, r, p);
    MulAssoc(p, k, q);
    MulMono(r + 1, q, p);
    Distribute(r, 1, p);
    MulNonNeg(p, r);
    DivModUnique(lo + p * hi, p * q, k, lo + p * r);
    DivModUnique(lo + p * hi, p, hi, lo);
  }

  /** Limbs above the one that holds a bit do not change it. */
  lemma HigherLimbs(x: nat, rest: nat, p: nat)
    requires p < LIMB_BITS
    ensures (x + B * rest) / Pow2(p) % 2 == x / Pow2(p) % 2
    ensures (x + B * rest) % Pow2(p + 1) == x % Pow2(p + 1)
  {
    var w, c := Pow2(p), Pow2(LIMB_BITS - p - 1);
    BaseIsPow2();
    Pow2Add(p, LIMB_BITS - p);
    assert Pow2(LIMB_BITS - p) == 2 * c && Pow2(p + 1) == 2 * w;
    ThreeFactors(w, c, rest);
    HigherPart(x, B * rest, c * rest, w);
  }

  lemma HigherPart(x: nat, z: nat, y: nat, w: nat)
    requires w > 0 && z == w * (2 * y) == 2 * w * y
    ensures (x + z) / w % 2 == x / w % 2 && (x + z) % (2 * w) == x % (2 * w)
  {
    AddMultiple(x, w, 2 * y);
    AddMultiple(x, 2 * w, y);
    SameParity(x / w, y);
  }

  lemma SameParity(k: int, y: int)
    ensures (k + 2 * y) % 2 == k % 2
  {
  }

  lemma ThreeFactors(w: nat, c: nat, r: nat)
    ensures w * (2 * c) * r == w * (2 * (c * r)) == 2 * w * (c * r)
  {
    MulAssoc(w, 2 * c, r);
    MulAssoc(2, c, r);
    MulAssoc(w, 2, c * r);
  }

  lemma AddMultiple(x: nat, w: nat, k: nat)
    requires w > 0
    ensures (x + w * k) / w == x / w + k && (x + w * k) % w == x % w
  {
    Distribute(x / w, k, w);
    DivModUnique(x + w * k, w, x / w + k, x % w);
  }

  /** get_bit */
  function GetBit(tab: seq<Limb>, len: nat, pos: int): (b: nat)
    requires len <= |tab|
    ensures b <= 1
  {
    if pos < 0 || pos / LIMB_BITS >= len then 0 else tab[pos / LIMB_BITS] as int / Pow2(pos % LIMB_BITS) % 2
  }

  /** The bit of the number. */
  function Bit(m: nat, pos: nat): (b: nat)
    ensures b <= 1
  {
    m / Pow2(pos) % 2
  }

  lemma BitPosition(pos: nat)
    ensures Pow2(pos) == BPow(pos / LIMB_BITS) * Pow2(pos % LIMB_BITS)
  {
    var i, p := pos / LIMB_BITS, pos % LIMB_BITS;
    BPowIsPow2(i);
    Pow2Add(LIMB_BITS * i, p);
    assert pos == LIMB_BITS * i + p;
  }

  lemma GetBitIsBit(tab: seq<Limb>, len: nat, pos: nat)
    requires len <= |tab|
    ensures GetBit(tab, len, pos) == Bit(Seg(tab, 0, len), pos)
  {
    hide BPow, Seg, Pow2;
    var i, p, m := pos / LIMB_BITS, pos % LIMB_BITS, Seg(tab, 0, len);
    if i >= len {
      SegBound(tab, 0, len);
      BPowIsPow2(len);
      Multiples(len, i);
      Pow2Mono(LIMB_BITS * len, pos);
      DivModUnique(m, Pow2(pos), 0, m);
    } else {
      SegSplit(tab, 0, len, i);
      SegBound(tab, 0, i);
      SegCons(tab, i, len - i);
      var hi := Seg(tab, i, len - i);
      BitPosition(pos);
      DivTwice(m, BPow(i), Pow2(p));
      ModSplit(Seg(tab, 0, i), hi, BPow(i), 1);
      HigherLimbs(tab[i], Seg(tab, i + 1, len - i - 1), p);
    }
  }

  lemma Multiples(n: nat, i: nat)
    requires n <= i
    ensures LIMB_BITS * n <= LIMB_BITS * i
  {
    MulMono(n, i, LIMB_BITS);
  }

  /** The bits at and below bit p of limb i: the limb's own, and the limbs below. */
  lemma LowBits(tab: seq<Limb>, len: nat, i: nat, p: nat)
    requires i < len <= |tab| && p < LIMB_BITS
    ensures Seg(tab, 0, len) % Pow2(LIMB_BITS * i + p + 1) == Seg(tab, 0, i) + BPow(i) * (tab[i] as int % Pow2(p + 1))
  {
    hide BPow, Seg, Pow2;
    SegSplit(tab, 0, len, i);
    SegBound(tab, 0, i);
    SegCons(tab, i, len - i);
    HigherLimbs(tab[i], Seg(tab, i + 1, len - i - 1), p);
    ModSplit(Seg(tab, 0, i), Seg(tab, i, len - i), BPow(i), Pow2(p + 1));
    BPowIsPow2(i);
    Pow2Add(LIMB_BITS * i, p + 1);
    assert LIMB_BITS * i + p + 1 == LIMB_BITS * i + (p + 1);
  }

  /** scan_bit_nz: whether a bit from 0 to bitPos is set. */
  method ScanBitNz(tab: seq<Limb>, len: nat, bitPos: int) returns (nz: bool)
    requires len <= |tab| && bitPos < LIMB_BITS * len
    ensures nz <==> bitPos >= 0 && Seg(tab, 0, len) % Pow2(bitPos + 1) != 0
  {
    hide BPow, Seg, Pow2;
    var pos := bitPos / LIMB_BITS;
    if pos < 0 {
      return false;
    }
    LimbIndex(bitPos, len);
    var p := bitPos % LIMB_BITS;
    LowBits(tab, len, pos, p);
    var v := tab[pos] as int % Pow2(p + 1);
    if v != 0 {
      MulPos(BPow(pos), v);
      return true;
    }
    SegZero(tab, 0, pos);
    var i := pos - 1;
    while i >= 0
      invariant -1 <= i < pos && forall j :: i < j < pos ==> tab[j] == 0
    {
      if tab[i] != 0 {
        return true;
      }
      i := i - 1;
    }
    return false;
  }

  lemma LimbIndex(bitPos: nat, len: nat)
    requires bitPos < LIMB_BITS * len
    ensures bitPos / LIMB_BITS < len && bitPos == LIMB_BITS * (bitPos / LIMB_BITS) + bitPos % LIMB_BITS
  {
    MulCancelLess(bitPos / LIMB_BITS, len, LIMB_BITS);
  }
}
