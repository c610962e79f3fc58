/** Numbers written with digits in any radix, and how the recursive conversions split them. */
module RadixDigits {
  import opened Arith
  import opened Limbs
  import opened BfBits
  import opened BfRound
  import opened BfNormalize

  function RPow(radix: nat, n: nat): (p: nat)
    requires radix > 0
    ensures p > 0
  {
    if n == 0 then 1 else MulPos(radix, RPow(radix, n - 1)); radix * RPow(radix, n - 1)
  }

  /** The number with the digits s, least significant digit first. */
  function RVal(s: seq<Limb>, radix: nat): nat {
    if s == [] then 0
    else
      MulNonNeg(radix, RVal(s[1..], radix));
      s[0] as int + radix * RVal(s[1..], radix)
  }

  ghost predicate AreDigits(s: seq<Limb>, radix: nat) {
    forall k :: 0 <= k < |s| ==> s[k] < radix
  }

  lemma {:induction false} RPowAdd(radix: nat, m: nat, n: nat)
    requires radix > 0
    ensures RPow(radix, m + n) == RPow(radix, m) * RPow(radix, n)
  {
    if m > 0 {
      RPowAdd(radix, m - 1, n);
      MulAssoc(radix, RPow(radix, m - 1), RPow(radix, n));
      assert m + n - 1 == m - 1 + n;
    }
  }

  /** The digits from k on count for radix^k each. */
  lemma {:induction false} RValSplit(s: seq<Limb>, k: nat, radix: nat)
    requires radix > 0 && k <= |s|
    ensures RVal(s, radix) == RVal(s[..k], radix) + RVal(s[k..], radix) * RPow(radix, k)
    decreases k
  {
    if k == 0 {
      assert s[0..] == s;
    } else {
      RValSplit(s[1..], k - 1, radix);
      assert s[..k][1..] == s[1..][..k - 1] && s[1..][k - 1..] == s[k..];
      var lo, hi, p := RVal(s[1..][..k - 1], radix), RVal(s[k..], radix), RPow(radix, k - 1);
      Distribute(lo, hi * p, radix);
      MulAssoc(hi, radix, p);
      MulAssoc(radix, hi, p);
    }
  }

  lemma {:induction false} RValBound(s: seq<Limb>, radix: nat)
    requires radix > 0 && AreDigits(s, radix)
    ensures RVal(s, radix) < RPow(radix, |s|)
  {
    if s != [] {
      RValBound(s[1..], radix);
      var v, p := RVal(s[1..], radix), RPow(radix, |s| - 1);
      MulMono(v + 1, p, radix);
      Distribute(v, 1, radix);
    }
  }

  /** A number has only one row of digits of a given length. */
  lemma {:induction false} DigitsUnique(s: seq<Limb>, t: seq<Limb>, radix: nat)
    requires radix > 0 && |s| == |t| && AreDigits(s, radix) && AreDigits(t, radix) && RVal(s, radix) == RVal(t, radix)
    ensures s == t
  {
    if s != [] {
      var u, v := RVal(s[1..], radix), RVal(t[1..], radix);
      DivModUnique(RVal(s, radix), radix, u, s[0]);
      DivModUnique(RVal(s, radix), radix, v, t[0]);
      DigitsUnique(s[1..], t[1..], radix);
      assert s == [s[0]] + s[1..] && t == [t[0]] + t[1..];
    }
  }

  /** Limbs that are not digits still make a number of that many limbs. */
  lemma {:induction false} RValSmall(s: seq<Limb>, radix: nat)
    requires 0 < radix < B
    ensures RVal(s, radix) < BPow(|s|)
  {
    if s != [] {
      RValSmall(s[1..], radix);
      var v, p := RVal(s[1..], radix), BPow(|s| - 1);
      MulMono(v + 1, p, B);
      Distribute(v, 1, B);
      MulMono(radix, B, v);
    }
  }

  lemma {:induction false} RPowSmall(radix: nat, n: nat)
    requires 0 < radix < B
    ensures RPow(radix, n) <= BPow(n)
  {
    if n > 0 {
      RPowSmall(radix, n - 1);
      MulMono(radix, B, BPow(n - 1));
      MulMono(RPow(radix, n - 1), BPow(n - 1), radix);
    }
  }

  // The recursion.

  /** n2, the number of digits in the lower part, which is the same for all calls on a level. */
  function LowerPart(n0: nat, level: nat): nat {
    (n0 * 2 / Pow2(level + 1) + 1) / 2
  }

  /** On each level, n is the floor of n0 / 2^level or one more. */
  ghost predicate OnLevel(n: nat, n0: nat, level: nat) {
    n >= 1 && (n == Div(n0, Pow2(level)) || n == Div(n0, Pow2(level)) + 1)
  }

  lemma TopLevel(n: nat)
    requires n >= 1
    ensures OnLevel(n, n, 0)
  {
    assert Pow2(0) == 1;
  }

  lemma LevelsHalve(n0: nat, level: nat)
    ensures Div(n0, Pow2(level + 1)) == Div(n0, Pow2(level)) / 2
    ensures n0 * 2 / Pow2(level + 1) == Div(n0, Pow2(level))
  {
    hide Pow2;
    var p, f, r := Pow2(level), Div(n0, Pow2(level)), Rem(n0, Pow2(level));
    Doubled(level + 1);
    DivTwice(n0, p, 2);
    MulAssoc(2, f, p);
    MulAssoc(f, 2, p);
    DivModUnique(n0 * 2, 2 * p, f, 2 * r);
  }

  /** Both parts are shorter, and belong to the next level. */
  lemma PartsOnNextLevel(n: nat, n0: nat, level: nat)
    requires OnLevel(n, n0, level) && n >= 2
    ensures var n2 := LowerPart(n0, level);
            && 1 <= n2 < n && 1 <= n - n2 < n && n - n2 <= n2 + 1
            && OnLevel(n2, n0, level + 1) && OnLevel(n - n2, n0, level + 1)
  {
    hide Pow2, Div;
    LevelsHalve(n0, level);
  }

  /** ceil_log2 */
  function CeilLog2(a: Limb): nat {
    if a <= 1 then 0 else LIMB_BITS - Clz(a as int - 1)
  }

  lemma CeilLog2Covers(a: Limb)
    ensures a as int <= Pow2(CeilLog2(a))
  {
    hide Pow2;
    if a <= 1 {
      assert Pow2(0) == 1 by { PowersOfZero(); }
    } else {
      var v := a as int - 1;
      var s := Clz(v);
      BaseIsPow2();
      Pow2Add(LIMB_BITS - s, s);
      MulCancelLess(v, Pow2(LIMB_BITS - s), Pow2(s));
    }
  }

  /** There is a cached power for every level that needs one. */
  lemma LevelInTable(n: nat, n0: Limb, level: nat)
    requires OnLevel(n, n0, level) && n >= 2
    ensures level <= CeilLog2(n0)
  {
    hide Pow2, CeilLog2;
    CeilLog2Covers(n0);
    var p, c := Pow2(level), CeilLog2(n0);
    MulMono(1, Div(n0, p), p);
    assert Rem(n0, p) >= 0;
    if level > c {
      Pow2Mono(c + 1, level);
      Doubled(c + 1);
      assert false;
    }
  }
}
