/** Limb arrays as little-endian numbers in base B = 2^LIMB_BITS. */
module Limbs {
  import opened Arith

  /** The library is built with 32-bit or with 64-bit limbs; nothing below fixes which. */
  type Base = b: nat | b == 0x1_0000_0000 || b == 0x1_0000_0000_0000_0000 witness 0x1_0000_0000
  const B: Base
  const LIMB_BITS: nat := if B == 0x1_0000_0000 then 32 else 64

  type Limb = x: nat | x < B witness 0

  /** B^n */
  function BPow(n: nat): (p: nat)
    ensures p > 0
  {
    if n == 0 then 1 else MulPos(B, BPow(n - 1)); B * BPow(n - 1)
  }

  /** The number that the limbs of s spell, least significant limb first. */
  function Val(s: seq<Limb>): nat {
    if s == [] then 0
    else
      var n := |s| - 1;
      MulNonNeg(s[n], BPow(n));
      Val(s[..n]) + s[n] * BPow(n)
  }

  /** Limb addition and subtraction modulo B, as the C operators on limb_t. */
  function AddW(x: Limb, y: Limb): (r: Limb)
    ensures r == x + y || r == x + y - B
  {
    if x + y < B then x + y else x + y - B
  }

  function SubW(x: Limb, y: Limb): (r: Limb)
    ensures r == x - y || r == x - y + B
  {
    if x >= y then x - y else x - y + B
  }

  lemma PowersOfZero()
    ensures Pow2(0) == 1 && BPow(0) == 1
  {
  }

  lemma {:induction false} BPowMono(i: nat, j: nat)
    requires i <= j
    ensures BPow(i) <= BPow(j)
  {
    if i < j {
      BPowMono(i, j - 1);
      MulMono(1, B, BPow(j - 1));
    }
  }

  lemma BaseIsPow2()
    ensures B == Pow2(LIMB_BITS)
  {
    Pow2Small();
    Pow2Add(16, 16);
    Pow2Add(32, 32);
  }

  lemma ValSnoc(s: seq<Limb>, x: Limb)
    ensures Val(s + [x]) == Val(s) + x * BPow(|s|)
  {
    assert (s + [x])[..|s|] == s;
  }

  lemma {:induction false} ValBound(s: seq<Limb>)
    ensures Val(s) < BPow(|s|)
  {
    if s != [] {
      var n := |s| - 1;
      var x: nat, p := s[n], BPow(n);
      ValBound(s[..n]);
      assert Val(s) < x * p + p;
      assert (x + 1) * p == x * p + p;
      MulMono(x + 1, B, p);
      assert BPow(|s|) == B * p;
    }
  }

  lemma {:induction false} BPowAdd(i: nat, j: nat)
    ensures BPow(i + j) == BPow(i) * BPow(j)
  {
    if i > 0 {
      BPowAdd(i - 1, j);
      MulAssoc(B, BPow(i - 1), BPow(j));
      assert i + j - 1 == i - 1 + j;
    }
  }

  /** Splitting a number at limb k. */
  lemma {:induction false} ValConcat(s: seq<Limb>, t: seq<Limb>)
    ensures Val(s + t) == Val(s) + BPow(|s|) * Val(t)
  {
    if t == [] {
      assert s + t == s;
    } else {
      var m := |t| - 1;
      assert s + t == (s + t[..m]) + [t[m]];
      ValSnoc(s + t[..m], t[m]);
      ValConcat(s, t[..m]);
      BPowAdd(|s|, m);
      MulAssoc(t[m], BPow(|s|), BPow(m));
      Distribute(Val(t[..m]), t[m] * BPow(m), BPow(|s|));
    }
  }

  /** The number in the window s[lo .. lo + n]. */
  ghost function Seg(s: seq<Limb>, lo: nat, n: nat): nat
    requires lo + n <= |s|
  {
    Val(s[lo..lo + n])
  }

  /** t differs from s only inside the window [lo, lo + n). */
  ghost predicate Within(s: seq<Limb>, t: seq<Limb>, lo: nat, n: nat) {
    && |s| == |t|
    && forall j :: 0 <= j < |s| && !(lo <= j < lo + n) ==> t[j] == s[j]
  }

  lemma SegSnoc(s: seq<Limb>, lo: nat, i: nat)
    requires lo + i < |s|
    ensures Seg(s, lo, i + 1) == Seg(s, lo, i) + s[lo + i] * BPow(i)
  {
    assert s[lo..lo + i + 1] == s[lo..lo + i] + [s[lo + i]];
    ValSnoc(s[lo..lo + i], s[lo + i]);
  }

  lemma SegEmpty(s: seq<Limb>, lo: nat)
    requires lo <= |s|
    ensures Seg(s, lo, 0) == 0 && BPow(0) == 1
  {
  }

  lemma BPowSucc(n: nat)
    ensures BPow(n + 1) == B * BPow(n)
  {
  }

  lemma SegOne(s: seq<Limb>, lo: nat)
    requires lo < |s|
    ensures Seg(s, lo, 1) == s[lo]
  {
    SegSnoc(s, lo, 0);
    assert BPow(0) == 1;
  }

  /** Equal windows hold equal numbers. */
  lemma SegSame(s: seq<Limb>, t: seq<Limb>, lo: nat, n: nat)
    requires lo + n <= |s| && lo + n <= |t|
    requires forall j :: lo <= j < lo + n ==> s[j] == t[j]
    ensures Seg(s, lo, n) == Seg(t, lo, n)
  {
    assert s[lo..lo + n] == t[lo..lo + n];
  }

  lemma SegSplit(s: seq<Limb>, lo: nat, n: nat, k: nat)
    requires lo + n <= |s| && k <= n
    ensures Seg(s, lo, n) == Seg(s, lo, k) + BPow(k) * Seg(s, lo + k, n - k)
  {
    hide BPow, Val;
    var u, v := s[lo..lo + k], s[lo + k..lo + k + (n - k)];
    assert s[lo..lo + n] == u + v;
    ValConcat(u, v);
  }

  lemma SegBound(s: seq<Limb>, lo: nat, n: nat)
    requires lo + n <= |s|
    ensures Seg(s, lo, n) < BPow(n)
  {
    ValBound(s[lo..lo + n]);
  }

  /** One limb of a carry chain: the carry k of weight p becomes k' of weight B * p. */
  lemma CarryStep(z: int, k: int, total: int, t: int, k': int, d: int, p: int)
    requires z + k * p == total && t + k' * B == d + k
    ensures z + t * p + k' * (B * p) == total + d * p
  {
    calc {
      t * p + k' * (B * p);
      { MulAssoc(k', B, p); Distribute(t, k' * B, p); }
      (d + k) * p;
      { Distribute(d, k, p); }
      d * p + k * p;
    }
  }

  /** Taking the least significant limb off instead of the most significant one. */
  lemma SegCons(s: seq<Limb>, lo: nat, n: nat)
    requires 0 < n && lo + n <= |s|
    ensures Seg(s, lo, n) == s[lo] + B * Seg(s, lo + 1, n - 1)
  {
    SegSplit(s, lo, n, 1);
    SegSnoc(s, lo, 0);
    assert BPow(0) == 1 && BPow(1) == B;
  }

  /** Limbs zero everywhere is the same as value zero. */
  lemma {:induction false} SegZero(s: seq<Limb>, lo: nat, n: nat)
    requires lo + n <= |s|
    ensures Seg(s, lo, n) == 0 <==> forall j :: lo <= j < lo + n ==> s[j] == 0
  {
    if n > 0 {
      SegZero(s, lo, n - 1);
      SegSnoc(s, lo, n - 1);
      if s[lo + n - 1] > 0 {
        MulPos(s[lo + n - 1], BPow(n - 1));
      }
    }
  }

  /** The most significant limb that differs decides the comparison. */
  lemma SegLess(s: seq<Limb>, so: nat, t: seq<Limb>, to: nat, n: nat, i: nat)
    requires so + n <= |s| && to + n <= |t| && i < n
    requires s[so + i] < t[to + i] && Seg(s, so + i + 1, n - i - 1) == Seg(t, to + i + 1, n - i - 1)
    ensures Seg(s, so, n) < Seg(t, to, n)
  {
    var p := BPow(i);
    SegSplit(s, so, n, i + 1); SegSplit(t, to, n, i + 1);
    SegSnoc(s, so, i); SegSnoc(t, to, i);
    SegBound(s, so, i);
    var x: nat, y: nat := s[so + i], t[to + i];
    MulMono(x + 1, y, p);
    Distribute(x, 1, p);
  }
}
