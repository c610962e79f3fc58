/** From digits in a radix to a number: bf_integer_from_radix. */
module RadixFrom {
  import opened Arith
  import opened Limbs
  import opened BfBits
  import opened BfRound
  import opened BfNumber
  import opened BfNormalize
  import opened BfAddition
  import opened BfExact
  import opened BfMul
  import opened RadixDigits

  /** All numbers that come up in the conversion of n0 digits are in the exponent range. */
  ghost predicate Room(n0: nat) {
    EXACT.Valid() && 4 * (LIMB_BITS * (n0 + 2)) < EXACT.Range()
  }

  lemma InRoom(z: int, k: nat, n0: nat)
    requires Room(n0) && k <= 3 * (n0 + 2) && Magnitude(z) <= BPow(k)
    ensures InRange(z)
  {
    hide Pow2, BPow;
    BPowIsPow2(k);
    MulMono(k, 3 * (n0 + 2), LIMB_BITS);
    MulAssoc(3, n0 + 2, LIMB_BITS);
    Pow2Mono(LIMB_BITS * k + 1, EXACT.Range() - 1);
    Doubled(LIMB_BITS * k + 1);
  }

  lemma PowerInRoom(radix: nat, n: nat, n0: nat)
    requires 0 < radix < B && Room(n0) && n <= n0 + 2
    ensures InRange(RPow(radix, n))
  {
    RPowSmall(radix, n);
    InRoom(RPow(radix, n), n, n0);
  }

  // Powers.

  lemma TopOfExponent(b: Limb)
    requires b > 0
    ensures var k := LIMB_BITS - Clz(b); k >= 1 && Div(b, Pow2(k - 1)) == 1
  {
    hide Pow2;
    var s := Clz(b);
    var k := LIMB_BITS - s;
    BaseIsPow2();
    Pow2Add(k, s);
    Doubled(k);
    MulCancelLess(b, Pow2(k), Pow2(s));
    MulAssoc(2, b, Pow2(s));
    if 2 * b as int < Pow2(k) {
      MulStrict(2 * b as int, Pow2(k), Pow2(s));
      assert false;
    }
    DivModUnique(b, Pow2(k - 1), 1, b as int - Pow2(k - 1));
  }

  lemma NextExponent(b: nat, i: nat)
    ensures Div(b, Pow2(i)) == 2 * Div(b, Pow2(i + 1)) + Div(b, Pow2(i)) % 2 && Div(b, Pow2(i)) <= b
  {
    hide Pow2;
    Doubled(i + 1);
    DivTwice(b, Pow2(i), 2);
    Euclid(b, Pow2(i));
    MulMono(1, Pow2(i), b / Pow2(i));
  }

  /** One bit of the exponent: squaring, and one more factor when the bit is set. */
  method SquareStep(r: Number, a: Value, radix: Limb, odd: bool, ghost e: nat, ghost n0: nat)
    requires radix > 0 && Room(n0) && (if odd then 2 * e + 1 else 2 * e) <= n0 + 2
    requires Holds(a, radix) && Holds(r.Now(), RPow(radix, e))
    modifies r, r.tab
    ensures Holds(r.Now(), RPow(radix, if odd then 2 * e + 1 else 2 * e)) && fresh(r.tab)
  {
    hide Room, Holds, RPow, InRange;
    PowerInRoom(radix, 2 * e, n0);
    RPowAdd(radix, e, e);
    var st := MulExact(r, r.Now(), r.Now(), RPow(radix, e), RPow(radix, e));
    if odd {
      PowerInRoom(radix, 2 * e + 1, n0);
      PowerOnce(radix);
      RPowAdd(radix, 2 * e, 1);
      st := MulExact(r, r.Now(), a, RPow(radix, 2 * e), radix);
    }
  }

  /** bf_pow_ui_ui with infinite precision. */
  method PowUi(r: Number, radix: Limb, b: Limb, ghost n0: nat)
    requires radix > 0 && Room(n0) && b as int <= n0 + 2
    modifies r, r.tab
    ensures Holds(r.Now(), RPow(radix, b)) && fresh(r.tab)
  {
    hide Room, Holds, RPow, Pow2, Div;
    PowerOnce(radix);
    if b == 0 {
      SetUi(r, 1);
      return;
    }
    var a := new Number();
    SetUi(a, radix);
    var va := a.Now();
    SetUi(r, radix);
    var i := LIMB_BITS - Clz(b) - 1;
    TopOfExponent(b);
    while i > 0
      invariant 0 <= i && fresh(r.tab) && Holds(r.Now(), RPow(radix, Div(b, Pow2(i))))
    {
      i := i - 1;
      NextExponent(b, i);
      SquareStep(r, va, radix, Div(b, Pow2(i)) % 2 == 1, Div(b, Pow2(i + 1)), n0);
    }
    WholeExponent(b);
  }

  lemma WholeExponent(b: nat)
    ensures Div(b, Pow2(0)) == b
  {
  }

  lemma PowerOnce(radix: nat)
    requires radix > 0
    ensures RPow(radix, 0) == 1 && RPow(radix, 1) == radix
  {
  }

  // The table of powers.

  /** Every entry is empty or holds the power that its level needs. */
  ghost predicate Cached(powers: seq<Value>, n0: nat, radix: nat)
    requires radix > 0
  {
    forall k :: 0 <= k < |powers| ==> |powers[k].limbs| == 0 || Holds(powers[k], RPow(radix, LowerPart(n0, k)))
  }

  lemma SizeOfLower(n0: nat, level: nat)
    ensures LowerPart(n0, level) <= n0 + 1
  {
    LevelsHalve(n0, level);
    NextExponent(n0, level);
  }

  /** Computing the power of a level unless it is already there. */
  method NeedPower(powers: array<Value>, level: nat, n0: Limb, radix: Limb)
    requires radix > 0 && Room(n0) && level < powers.Length && Cached(powers[..], n0, radix) && n0 as int + 1 < B
    modifies powers
    ensures Cached(powers[..], n0, radix) && Holds(powers[level], RPow(radix, LowerPart(n0, level)))
  {
    hide Room, Holds, RPow, LowerPart;
    if |powers[level].limbs| == 0 {
      var n2 := LowerPart(n0, level);
      SizeOfLower(n0, level);
      var p := new Number();
      PowUi(p, radix, n2, n0);
      powers[level] := p.Now();
    }
  }

  // The recursion.

  lemma ValueInRoom(s: seq<Limb>, radix: nat, n0: nat)
    requires 0 < radix < B && Room(n0) && |s| <= n0 + 2
    ensures InRange(RVal(s, radix))
  {
    RValSmall(s, radix);
    InRoom(RVal(s, radix), |s|, n0);
  }

  lemma JoinDigits(s: seq<Limb>, off: nat, n: nat, n2: nat, radix: nat, n0: nat)
    requires 0 < radix < B && Room(n0) && off + n <= |s| && n2 <= n <= n0 + 2
    ensures var lo, hi := RVal(s[off..off + n2], radix), RVal(s[off + n2..off + n], radix);
            && RVal(s[off..off + n], radix) == hi * RPow(radix, n2) + lo
            && InRange(hi * RPow(radix, n2)) && InRange(hi * RPow(radix, n2) + lo)
  {
    hide Room, RPow, RVal;
    var t := s[off..off + n];
    RValSplit(t, n2, radix);
    assert t[..n2] == s[off..off + n2] && t[n2..] == s[off + n2..off + n];
    ValueInRoom(t, radix, n0);
    InRangeBelow(RVal(t[n2..], radix), RPow(radix, n2), RVal(t[..n2], radix));
  }

  lemma InRangeBelow(hi: nat, p: nat, lo: nat)
    requires InRange(hi * p + lo)
    ensures InRange(hi * p)
  {
    MulNonNeg(hi, p);
  }

  /** bf_integer_from_radix_rec on the n digits of tab from off on. */
  method FromRadixRec(r: Number, tab: seq<Limb>, off: nat, n: nat, level: nat, n0: Limb, radix: Limb, powers: array<Value>)
    requires radix > 0 && Room(n0) && n0 as int + 1 < B && off + n <= |tab| && OnLevel(n, n0, level) && n <= n0
    requires CeilLog2(n0) < powers.Length && Cached(powers[..], n0, radix)
    modifies r, r.tab, powers
    ensures Holds(r.Now(), RVal(tab[off..off + n], radix)) && fresh(r.tab) && Cached(powers[..], n0, radix)
    decreases n
  {
    hide Room, Holds, RPow, LowerPart, Div, CeilLog2, Cached, RVal, InRange;
    if n == 1 {
      OneDigit(tab, off, radix);
      SetUi(r, tab[off]);
    } else {
      var n2 := LowerPart(n0, level);
      PartsOnNextLevel(n, n0, level);
      LevelInTable(n, n0, level);
      JoinDigits(tab, off, n, n2, radix, n0);
      ghost var lo, hi, p := RVal(tab[off..off + n2], radix), RVal(tab[off + n2..off + n], radix), RPow(radix, n2);
      NeedPower(powers, level, n0, radix);
      var b := powers[level];
      FromRadixRec(r, tab, off + n2, n - n2, level + 1, n0, radix, powers);
      assert off + n2 + (n - n2) == off + n;
      var st := MulExact(r, r.Now(), b, hi, p);
      var t := new Number();
      FromRadixRec(t, tab, off, n2, level + 1, n0, radix, powers);
      st := AddExact(r, r.Now(), t.Now(), hi * p, lo);
    }
  }

  lemma OneDigit(tab: seq<Limb>, off: nat, radix: nat)
    requires off < |tab|
    ensures RVal(tab[off..off + 1], radix) == tab[off]
  {
    assert tab[off..off + 1] == [tab[off]];
  }

  /** bf_integer_from_radix: the table has enough levels. */
  method FromRadix(r: Number, tab: seq<Limb>, radix: Limb)
    requires radix > 0 && 1 <= |tab| && |tab| + 1 < B && Room(|tab|)
    modifies r, r.tab
    ensures Holds(r.Now(), RVal(tab, radix)) && fresh(r.tab)
  {
    hide Room, Holds, RVal;
    var n0: Limb := |tab|;
    var powers := new Value[CeilLog2(n0) + 2](_ => Value(false, EXP_ZERO, []));
    TopLevel(|tab|);
    FromRadixRec(r, tab, 0, |tab|, 0, n0, radix, powers);
    assert tab[0..0 + |tab|] == tab;
  }
}
