/** From a number to its digits in a radix: bf_integer_to_radix. */
module RadixTo {
  import opened Arith
  import opened Limbs
  import opened BfBits
  import opened BfRound
  import opened BfNumber
  import opened BfWindow
  import opened BfExact
  import opened BfLogic
  import opened RadixDigits
  import opened RadixFrom
  import opened RadixInverse
  import opened RadixQuotient

  /** Two neighbouring entries of pow_tab: the power that a level divides by, and its inverse. */
  datatype Entry = Entry(power: Value, inverse: Value)

  /** The precision of the inverse on a level. */
  function InversePrec(n0: nat, level: nat, bits: nat): (p: nat)
    ensures p >= 2
  {
    MulNonNeg(LowerPart(n0, level) + 1, bits);
    (LowerPart(n0, level) + 1) * bits + 2
  }

  /** A bound for the bits of everything that comes up. */
  function Longest(n0: nat): nat {
    LIMB_BITS * (n0 + 2)
  }

  ghost predicate EntryReady(e: Entry, n0: nat, level: nat, radix: nat, bits: nat)
    requires radix > 0
  {
    var d := RPow(radix, LowerPart(n0, level));
    Holds(e.power, d) && Inverse(e.inverse, d, InversePrec(n0, level, bits), 2 * Longest(n0) + 2)
  }

  ghost predicate Ready(entries: seq<Entry>, n0: nat, radix: nat, bits: nat)
    requires radix > 0
  {
    forall k :: 0 <= k < |entries| ==> |entries[k].power.limbs| == 0 || EntryReady(entries[k], n0, k, radix, bits)
  }

  lemma CeilLog2AtMost(a: Limb)
    ensures CeilLog2(a) <= LIMB_BITS && (a >= 2 ==> CeilLog2(a) >= 1)
  {
  }

  /** The sizes of one level fit. */
  lemma LevelSizes(n0: nat, level: nat, radix: nat, bits: nat)
    requires 0 < radix < B && bits <= LIMB_BITS && Room(n0)
    ensures var l, d := Longest(n0), RPow(radix, LowerPart(n0, level));
            && l > 4 && 4 * l < EXACT.Range() && 0 < d <= Pow2(l) && d <= BPow(n0 + 1)
            && InversePrec(n0, level, bits) <= l + 2
  {
    hide RPow, Pow2, BPow, LowerPart;
    var n2, l := LowerPart(n0, level), Longest(n0);
    SizeOfLower(n0, level);
    RPowSmall(radix, n2);
    BPowMono(n2, n0 + 1);
    BPowIsPow2(n0 + 1);
    MulMono(n0 + 1, n0 + 2, LIMB_BITS);
    Pow2Mono(LIMB_BITS * (n0 + 1), l);
    MulMono(2, n0 + 2, LIMB_BITS);
    MulMono(n2 + 1, n0 + 2, bits);
    MulMono(bits, LIMB_BITS, n0 + 2);
    SwapFactors(bits, n0 + 2);
  }

  /** Computing the power of a level and its inverse unless they are already there. */
  method NeedEntry(entries: array<Entry>, level: nat, n0: Limb, radix: Limb, bits: nat)
    requires radix > 0 && bits <= LIMB_BITS && Room(n0) && n0 as int + 1 < B
    requires level < entries.Length && Ready(entries[..], n0, radix, bits)
    modifies entries
    ensures Ready(entries[..], n0, radix, bits) && EntryReady(entries[level], n0, level, radix, bits)
  {
    hide Room, Holds, RPow, LowerPart, Inverse;
    if |entries[level].power.limbs| == 0 {
      var n2 := LowerPart(n0, level);
      SizeOfLower(n0, level);
      LevelSizes(n0, level, radix, bits);
      RoomValid(n0);
      var p := new Number();
      PowUi(p, radix, n2, n0);
      var inv := Invert(p.Now(), InversePrec(n0, level, bits), RPow(radix, n2), Longest(n0));
      entries[level] := Entry(p.Now(), inv);
    }
  }

  lemma RoomValid(n0: nat)
    requires Room(n0)
    ensures EXACT.Valid()
  {
  }

  // The recursion.

  lemma {:induction false} RPowBits(radix: nat, bits: nat, n: nat)
    requires 0 < radix <= Pow2(bits)
    ensures n * bits >= 0 && RPow(radix, n) <= Pow2(n * bits)
  {
    hide Pow2;
    MulNonNeg(n, bits);
    if n == 0 {
      PowersOfZero();
    } else {
      RPowBits(radix, bits, n - 1);
      Distribute(n - 1, 1, bits);
      Pow2Add(bits, (n - 1) * bits);
      MulBounds(radix, Pow2(bits), RPow(radix, n - 1), Pow2((n - 1) * bits));
    }
  }

  /** The number is short enough for the estimate. */
  lemma NumberFits(x: nat, radix: nat, bits: nat, n: nat, n2: nat)
    requires 0 < radix <= Pow2(bits) && n2 <= n && x < RPow(radix, n)
    ensures var q, d := (n - n2) * bits, RPow(radix, n2); q >= 0 && x < RPow(radix, n - n2) * d && x < Pow2(q) * d
  {
    hide Pow2, RPow;
    RPowAdd(radix, n - n2, n2);
    RPowBits(radix, bits, n - n2);
    MulMono(RPow(radix, n - n2), Pow2((n - n2) * bits), RPow(radix, n2));
  }

  lemma QuotientFits(x: nat, d: nat, p: nat)
    requires d > 0 && x < p * d
    ensures 0 <= x / d < p && x == x / d * d + x % d
  {
    Euclid(x, d);
    MulCancelLess(x / d, p, d);
  }

  lemma OneLimb(x: nat)
    requires x < B
    ensures Digit(x, 0) == x
  {
    assert BPow(0) == 1;
    DivModUnique(x, B, 0, x);
  }

  lemma TwoLimbs(x: nat, radix: nat)
    requires 0 < radix < B && x < RPow(radix, 2)
    ensures Digit(x, 0) as int + B * Digit(x, 1) as int == x && 0 <= x / radix < radix
  {
    assert RPow(radix, 2) == radix * RPow(radix, 1) == radix * (radix * 1);
    Euclid(x, radix);
    MulCancelLess(x / radix, radix, radix);
    MulMono(radix, B, radix);
    MulMono(radix, B, B);
    DigitsOfTwo(x);
  }

  lemma DigitsOfTwo(x: nat)
    requires x < B * B
    ensures Digit(x, 0) as int + B * Digit(x, 1) as int == x
  {
    assert BPow(0) == 1 && BPow(1) == B * BPow(0);
    Euclid(x, B);
    MulCancelLess(x / B, B, B);
    DivModUnique(x / B, B, 0, x / B);
  }

  lemma TwoDigits(s: seq<Limb>, off: nat, radix: nat, x: nat)
    requires 0 < radix && off + 2 <= |s| && s[off] as int == x % radix && s[off + 1] as int == x / radix
    ensures RVal(s[off..off + 2], radix) == x
  {
    var t := s[off..off + 2];
    OneDigit(s, off + 1, radix);
    assert t[1..] == s[off + 1..off + 1 + 1];
    JoinTwo(t, radix, x);
  }

  lemma JoinTwo(t: seq<Limb>, radix: nat, x: nat)
    requires 0 < radix && |t| == 2 && t[0] as int == x % radix && RVal(t[1..], radix) == x / radix
    ensures RVal(t, radix) == x
  {
    Euclid(x, radix);
    SwapFactors(radix, x / radix);
  }

  /** out has the digits of x from off on, n of them. */
  ghost predicate Written(s: seq<Limb>, off: nat, n: nat, radix: nat, x: nat) {
    off + n <= |s| && AreDigits(s[off..off + n], radix) && RVal(s[off..off + n], radix) == x
  }

  lemma JoinWritten(s: seq<Limb>, off: nat, n2: nat, n: nat, radix: nat, x: nat, d: nat)
    requires radix > 0 && n2 <= n && d == RPow(radix, n2) && x / d >= 0
    requires Written(s, off, n2, radix, x % d) && Written(s, off + n2, n - n2, radix, x / d)
    ensures Written(s, off, n, radix, x)
  {
    hide RVal, RPow;
    var t := s[off..off + n];
    assert t[..n2] == s[off..off + n2] && t[n2..] == s[off + n2..off + n2 + (n - n2)];
    RValSplit(t, n2, radix);
    Euclid(x, d);
    forall k | 0 <= k < n ensures t[k] < radix {
      if k < n2 {
        assert t[k] == s[off..off + n2][k];
      } else {
        assert t[k] == s[off + n2..off + n2 + (n - n2)][k - n2];
      }
    }
  }

  lemma StaysWritten(s: seq<Limb>, s': seq<Limb>, off: nat, n2: nat, n1: nat, radix: nat, x: nat)
    requires Written(s, off + n2, n1, radix, x) && Within(s, s', off, n2)
    ensures Written(s', off + n2, n1, radix, x)
  {
    assert s'[off + n2..off + n2 + n1] == s[off + n2..off + n2 + n1];
  }

  lemma WithinBoth(s: seq<Limb>, t: seq<Limb>, u: seq<Limb>, off: nat, n2: nat, n1: nat)
    requires Within(s, t, off + n2, n1) && Within(t, u, off, n2)
    ensures Within(s, u, off, n2 + n1)
  {
  }

  /** bf_integer_to_radix_rec */
  method ToRadixRec(entries: array<Entry>, out: array<Limb>, off: nat, a: Value, n: nat, level: nat, n0: Limb, radix: Limb, bits: nat, ghost x: nat)
    requires radix >= 2 && bits == CeilLog2(radix) && Room(n0) && n0 as int + 1 < B && OnLevel(n, n0, level) && n <= n0
    requires CeilLog2(n0) < entries.Length && Ready(entries[..], n0, radix, bits)
    requires off + n <= out.Length && Holds(a, x) && x < RPow(radix, n)
    modifies entries, out
    ensures Ready(entries[..], n0, radix, bits) && Written(out[..], off, n, radix, x)
    ensures Within(old(out[..]), out[..], off, n)
    decreases n
  {
    hide Room, Holds, RPow, LowerPart, Div, CeilLog2, Ready, EntryReady, Written, Within;
    CeilLog2AtMost(radix);
    if n <= 2 {
      WriteShort(out, off, a, n, radix, x);
    } else {
      var n2 := LowerPart(n0, level);
      var n1 := n - n2;
      PartsOnNextLevel(n, n0, level);
      LevelInTable(n, n0, level);
      NeedEntry(entries, level, n0, radix, bits);
      ghost var d := RPow(radix, n2);
      var q, r := Split(entries[level], a, n, n2, level, n0, radix, bits, x);
      ToRadixRec(entries, out, off + n2, q, n1, level + 1, n0, radix, bits, x / d);
      ghost var s := out[..];
      ToRadixRec(entries, out, off, r, n2, level + 1, n0, radix, bits, x % d);
      WithinBoth(old(out[..]), s, out[..], off, n2, n1);
      StaysWritten(s, out[..], off, n2, n1, radix, x / d);
      JoinWritten(out[..], off, n2, n, radix, x, d);
    }
  }

  /** One or two digits come straight from the limbs. */
  method WriteShort(out: array<Limb>, off: nat, a: Value, n: nat, radix: Limb, ghost x: nat)
    requires radix > 0 && 1 <= n <= 2 && off + n <= out.Length && Holds(a, x) && x < RPow(radix, n)
    modifies out
    ensures Written(out[..], off, n, radix, x)
    ensures Within(old(out[..]), out[..], off, n)
  {
    hide Holds, RPow, Written;
    if n == 1 {
      out[off] := OneDigitOf(a, radix, x);
      SingleWritten(out[..], off, radix, x);
    } else {
      var t := TwoLimbsOf(a, radix, x);
      out[off], out[off + 1] := t % radix, t / radix;
      PairWritten(out[..], off, radix, x);
    }
  }

  method OneDigitOf(a: Value, radix: Limb, ghost x: nat) returns (v: Limb)
    requires radix > 0 && Holds(a, x) && x < RPow(radix, 1)
    ensures v as int == x < radix
  {
    PowerOnce(radix);
    IntegerDigit(a, x, 0);
    OneLimb(x);
    v := GetBits(a.limbs, |a.limbs| * LIMB_BITS - a.expn);
  }

  method TwoLimbsOf(a: Value, radix: Limb, ghost x: nat) returns (t: nat)
    requires radix > 0 && Holds(a, x) && x < RPow(radix, 2)
    ensures t == x && 0 <= x / radix as int < radix && 0 <= x % radix as int < radix
  {
    hide RPow, GetBits, Digit, Size;
    var pos := |a.limbs| * LIMB_BITS - a.expn;
    IntegerDigit(a, x, 0);
    IntegerDigit(a, x, 1);
    TwoLimbs(x, radix);
    t := GetBits(a.limbs, pos + LIMB_BITS) as int * B + GetBits(a.limbs, pos) as int;
  }

  lemma SingleWritten(s: seq<Limb>, off: nat, radix: nat, x: nat)
    requires off < |s| && s[off] as int == x < radix
    ensures Written(s, off, 1, radix, x)
  {
    OneDigit(s, off, radix);
  }

  lemma PairWritten(s: seq<Limb>, off: nat, radix: nat, x: nat)
    requires 0 < radix && off + 2 <= |s| && s[off] as int == x % radix && s[off + 1] as int == x / radix < radix
    ensures Written(s, off, 2, radix, x)
  {
    TwoDigits(s, off, radix, x);
  }

  /** The quotient and the remainder of a level. */
  method Split(entry: Entry, a: Value, n: nat, n2: nat, level: nat, n0: Limb, radix: Limb, bits: nat, ghost x: nat)
    returns (q: Value, r: Value)
    requires radix >= 2 && bits == CeilLog2(radix) && Room(n0) && n2 == LowerPart(n0, level) && n2 < n <= n0 && n - n2 <= n2 + 1
    requires EntryReady(entry, n0, level, radix, bits) && Holds(a, x) && x < RPow(radix, n)
    ensures var d := RPow(radix, n2);
            0 <= x / d < RPow(radix, n - n2) && 0 <= x % d < d && Holds(q, x / d) && Holds(r, x % d)
  {
    hide Room, Holds, RPow, LowerPart, CeilLog2, Inverse, Pow2, BPow;
    CeilLog2AtMost(radix);
    CeilLog2Covers(radix);
    LevelSizes(n0, level, radix, bits);
    RoomValid(n0);
    NumberFits(x, radix, bits, n, n2);
    NumberSmall(x, radix, n, n0);
    ghost var d := RPow(radix, n2);
    QuotientFits(x, d, RPow(radix, n - n2));
    EstimateSizes(n - n2, n2, n0, bits);
    var quot, rem := DivideByPower(a, entry.power, entry.inverse, (n - n2) * bits, x, d, InversePrec(n0, level, bits), n0, Longest(n0));
    q, r := quot.Now(), rem.Now();
  }

  lemma NumberSmall(x: nat, radix: nat, n: nat, n0: nat)
    requires 0 < radix < B && n <= n0 && x < RPow(radix, n)
    ensures x <= BPow(n0 + 1)
  {
    RPowSmall(radix, n);
    BPowMono(n, n0 + 1);
  }

  lemma EstimateSizes(n1: nat, n2: nat, n0: nat, bits: nat)
    requires 1 <= n1 <= n2 + 1 && n1 <= n0 && 1 <= bits <= LIMB_BITS
    ensures 0 < n1 * bits <= Longest(n0) && n1 * bits + 1 < (n2 + 1) * bits + 2
  {
    MulPos(n1, bits);
    MulMono(n1, n2 + 1, bits);
    MulMono(n1, n0 + 2, bits);
    MulMono(bits, LIMB_BITS, n0 + 2);
    SwapFactors(bits, n0 + 2);
  }

  /** bf_integer_to_radix: the digits fill out, and the table has enough levels. */
  method ToRadix(out: array<Limb>, a: Value, radix: Limb, ghost x: nat)
    requires radix >= 2 && 1 <= out.Length && out.Length + 1 < B && Room(out.Length) && Holds(a, x) && x < RPow(radix, out.Length)
    modifies out
    ensures AreDigits(out[..], radix) && RVal(out[..], radix) == x
  {
    hide Room, Holds, RPow, RVal;
    var n0: Limb := out.Length;
    var nothing := Value(false, EXP_ZERO, []);
    var entries := new Entry[CeilLog2(n0) + 2](_ => Entry(nothing, nothing));
    TopLevel(out.Length);
    ToRadixRec(entries, out, 0, a, out.Length, 0, n0, radix, CeilLog2(radix), x);
    assert out[..][0..0 + out.Length] == out[..];
  }
}
