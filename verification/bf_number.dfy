/** Floating point numbers and the rounding that every operation of the library ends with. */
module BfNumber {
  import opened Arith
  import opened Limbs
  import opened MpUdiv
  import opened MpDivNorm
  import opened MpRecip
  import opened RoundMath
  import opened BfBits
  import opened BfRound

  /** The exponents that stand for zero, infinity and not-a-number. */
  const EXP_ZERO: int := -(B / 2)
  const EXP_INF: int := B / 2 - 2
  const EXP_NAN: int := B / 2 - 1

  const PREC_INF: nat := B / 4 - 1

  datatype Flags = Flags(mode: Mode, expBits: nat, subnormal: bool, radPoint: bool) {
    predicate Valid() {
      3 <= expBits
    }

    /** The largest exponent. */
    function Range(): (r: nat)
      requires Valid()
      ensures r >= 4
    {
      Pow2Mono(2, expBits - 1);
      assert Pow2(2) == 4;
      Pow2(expBits - 1)
    }

    function EMin(): int
      requires Valid()
    {
      3 - Range()
    }
  }

  datatype Status = Status(inexact: bool, underflow: bool, overflow: bool)

  /** x * 2^i == y * 2^j */
  ghost predicate SameValue(x: nat, i: int, y: nat, j: int) {
    if i >= j then x * Pow2(i - j) == y else x == y * Pow2(j - i)
  }

  lemma SameValueShift(x: nat, i: int, y: nat, j: int, c: int)
    requires SameValue(x, i, y, j)
    ensures SameValue(x, i + c, y, j + c)
  {
    assert i + c - (j + c) == i - j && j + c - (i + c) == j - i;
  }

  /** With exponents that are not negative, the products themselves are equal. */
  lemma SameProducts(x: nat, i: nat, y: nat, j: nat)
    requires x * Pow2(i) == y * Pow2(j)
    ensures SameValue(x, i, y, j)
  {
    hide Pow2;
    if i >= j {
      Pow2Add(i - j, j);
      CancelPower(x, Pow2(i - j), Pow2(j), y);
    } else {
      Pow2Add(j - i, i);
      CancelPower(y, Pow2(j - i), Pow2(i), x);
    }
  }

  lemma CancelPower(x: nat, a: nat, b: nat, y: nat)
    requires b > 0 && x * (a * b) == y * b
    ensures x * a == y
  {
    MulAssoc(x, a, b);
    MulNonNeg(x, a);
    if x * a < y {
      MulStrict(x * a, y, b);
    } else if y < x * a {
      MulStrict(y, x * a, b);
    }
  }

  /** The precision that __bf_round works with. */
  function Effective(prec: nat, flags: Flags, expn: int): int
    requires flags.Valid()
  {
    if flags.radPoint then if prec != PREC_INF then expn + prec else prec
    else if expn < flags.EMin() && flags.subnormal then prec - (flags.EMin() - expn)
    else prec
  }

  /** The exponent of the last place that rounding keeps of a number whose top bit has the weight 2^(e-1): prec places behind
      the radix point, or prec bits below the top bit; where there are subnormal numbers, no lower than for the smallest
      normal one. */
  ghost function LastPlace(prec: nat, flags: Flags, e: int): int
    requires flags.Valid()
  {
    if flags.radPoint && prec != PREC_INF then -(prec as int)
    else if flags.subnormal && !flags.radPoint then Larger(e, flags.EMin()) - prec
    else e - prec
  }

  function Larger(x: int, y: int): int {
    if x < y then y else x
  }

  /** The number m' * 2^i' is the number m * 2^i of m's sign, rounded to a multiple of 2^j. */
  ghost predicate Rounded(mode: Mode, negative: bool, m: nat, i: int, j: int, m': nat, i': int) {
    if j <= i then SameValue(m', i', m, i)
    else exists n :: IsRounding(mode, negative, m, Pow2(j - i), n) && SameValue(m', i', n, j)
  }

  /** Where the rounded number stands after one has been added or not. */
  lemma RoundedFrom(mode: Mode, negative: bool, m: nat, i: int, q: nat, n: nat, m': nat, k: nat)
    requires q > 0 && IsRounding(mode, negative, m, Pow2(q), n) && m' * Pow2(k) == n * Pow2(q)
    ensures Rounded(mode, negative, m, i, i + q, m', i + k)
  {
    hide IsRounding, SameValue, Pow2;
    SameProducts(m', k, n, q);
    SameValueShift(m', k, n, q, i);
    assert i + q - i == q && k + i == i + k && q + i == i + q;
  }

  /** What a number holds: its limbs stand for Val(limbs) * 2^(expn - LIMB_BITS * |limbs|). */
  datatype Value = Value(sign: bool, expn: int, limbs: seq<Limb>) {
    /** Zero, an infinity or not-a-number without limbs, or a number with its top bit set and an exponent in between. */
    predicate Proper() {
      if |limbs| == 0 then expn == EXP_ZERO || expn == EXP_INF || expn == EXP_NAN
      else Normalised(limbs[|limbs| - 1]) && EXP_ZERO < expn < EXP_INF
    }

    function Lowest(): int {
      expn - LIMB_BITS * |limbs|
    }
  }

  class Number {
    var sign: bool
    var expn: int
    var tab: array<Limb>

    constructor ()
      ensures expn == EXP_ZERO && !sign && tab.Length == 0 && fresh(tab)
    {
      sign, expn, tab := false, EXP_ZERO, new Limb[0];
    }

    /** A finite number that is not zero: top bit set, no zero limb at the bottom. */
    ghost predicate Normal()
      reads this, tab
    {
      tab.Length > 0 && Normalised(tab[tab.Length - 1]) && tab[0] != 0
    }

    /** The number in the first l limbs. */
    ghost function Mantissa(l: nat): nat
      reads this, tab
      requires l <= tab.Length
    {
      Seg(tab[..], 0, l)
    }

    method SetZero(negative: bool)
      modifies this
      ensures expn == EXP_ZERO && sign == negative && tab.Length == 0 && fresh(tab)
    {
      sign, expn, tab := negative, EXP_ZERO, new Limb[0];
    }

    method SetInf(negative: bool)
      modifies this
      ensures expn == EXP_INF && sign == negative && tab.Length == 0 && fresh(tab)
    {
      sign, expn, tab := negative, EXP_INF, new Limb[0];
    }

    method SetNan()
      modifies this
      ensures expn == EXP_NAN && !sign && tab.Length == 0 && fresh(tab)
    {
      sign, expn, tab := false, EXP_NAN, new Limb[0];
    }

    /** The value that the fields hold now. */
    function Now(): Value
      reads this, tab
    {
      Value(sign, expn, tab[..])
    }

    /** The memmove and bf_resize that keep the limbs from i to l. */
    method Keep(i: nat, l: nat)
      requires i < l <= tab.Length
      modifies this`tab
      ensures fresh(tab) && tab[..] == old(tab[i..l])
    {
      var src := tab;
      var t := new Limb[l - i](k requires 0 <= k < l - i reads src => src[i + k]);
      tab := t;
    }

    /** Keeping the bits from 2^q on, without zero limbs at the bottom. */
    method CutAt(l: nat, q: int, ghost n: nat)
      requires 0 < l <= tab.Length && q < LIMB_BITS * l
      requires n == Upper(tab[..], l, q) && BPow(l) <= 2 * (n * Unit(q))
      modifies this`tab, tab
      ensures Normal() && fresh(tab) && tab.Length <= l
      ensures Mantissa(tab.Length) * BPow(l - tab.Length) == n * Unit(q)
    {
      hide BPow, Seg, Pow2;
      var pos, bit := LimbOf(q), BitOf(q);
      UpperParts(tab[..], l, q);
      UnitsPositive(n, Unit(q), BPow(l));
      var i := Cut(tab, pos, l - pos, bit);
      ghost var s := tab[..];
      CutValue(Seg(s, i, l - i), i, pos, n, bit, q);
      CutTop(s, i, l, n * Unit(q));
      Keep(i, l);
      SegWhole(s, i, l);
    }

    /** Adding one unit 2^q; the exponent grows when the number runs over its top. */
    method AddUlp(l: nat, q: nat)
      requires 0 < l <= tab.Length && q < LIMB_BITS * l && BPow(l) <= 2 * Mantissa(l)
      modifies this`expn, tab
      ensures expn == old(expn) || expn == old(expn) + 1
      ensures var n, n' := old(Upper(tab[..], l, q)) + 1, Upper(tab[..], l, q);
              && (expn == old(expn) ==> n' == n)
              && (expn == old(expn) + 1 ==> n == 2 * n' && n * Unit(q) == BPow(l))
              && BPow(l) <= 2 * (n' * Unit(q))
    {
      hide BPow, Seg, Pow2;
      ghost var m, n := Mantissa(l), Upper(tab[..], l, q) + 1;
      var pos, bit := LimbOf(q), BitOf(q);
      UpperParts(tab[..], l, q);
      var carry := AddUnit(tab, pos, l - pos, bit);
      UpperParts(tab[..], l, q);
      HalfRemains(m, l, q, n);
      if carry {
        expn := expn + 1;
        CarryValue(n, pos, bit, l, Unit(q));
        MulAssoc(2, n / 2, Unit(q));
      }
    }

    /** What an overflow leaves: infinity, or the largest finite number of prec bits. */
    ghost predicate Overflowed(prec: nat, flags: Flags)
      reads this, tab
      requires flags.Valid()
    {
      if ToInfinity(prec, flags.mode, sign) then expn == EXP_INF && tab.Length == 0
      else expn == flags.Range() && tab.Length == (prec + LIMB_BITS - 1) / LIMB_BITS && LIMB_BITS * tab.Length >= prec
           && Mantissa(tab.Length) + Pow2(LIMB_BITS * tab.Length - prec) == BPow(tab.Length)
    }

    /** bf_set_overflow: infinity, or the largest finite number of prec bits. */
    method SetOverflow(prec: nat, flags: Flags) returns (st: Status)
      requires flags.Valid() && (prec > 0 || ToInfinity(prec, flags.mode, sign))
      modifies this
      ensures sign == old(sign) && fresh(tab) && st == Status(true, false, true)
      ensures Overflowed(prec, flags)
    {
      st := Status(true, false, true);
      if ToInfinity(prec, flags.mode, sign) {
        SetInf(sign);
      } else {
        hide Seg, BPow, Pow2;
        var l := (prec + LIMB_BITS - 1) / LIMB_BITS;
        var k := LIMB_BITS * l - prec;
        Pow2Small2(k);
        var low := B - Pow2(k);
        tab := new Limb[l](j => if j == 0 then low else B - 1);
        expn := flags.Range();
        AllOnes(tab[..], l, Pow2(k));
      }
    }

    /** The end of __bf_round when no bit is kept: one unit, or zero. */
    method RoundTiny(flags: Flags, ghost l: nat, prec: int, addOne: bool, ghost inexact: bool, ghost already: bool)
      requires 0 < l <= tab.Length && prec <= 0 && Mantissa(l) > 0
      requires Decides(flags.mode, sign, Mantissa(l), LIMB_BITS * l - prec, addOne, inexact)
      modifies this
      ensures sign == old(sign) && fresh(tab) && (if tab.Length > 0 then Normal() else expn == EXP_ZERO)
      ensures Correct(flags.mode, sign, old(Mantissa(l)), old(expn) - LIMB_BITS * l, old(expn) - prec,
                      Mantissa(tab.Length), expn - LIMB_BITS * tab.Length, true, already)
    {
      hide Seg, BPow, Pow2, Correct, Decides;
      ghost var m, e := Mantissa(l), expn;
      SegBound(tab[..], 0, l);
      TinyIsCorrect(flags.mode, sign, m, l, e, prec, addOne, inexact, already);
      if addOne {
        tab := new Limb[1](_ => B / 2);
        expn := expn + 1 - prec;
        SingleLimb(tab[..]);
      } else {
        SetZero(sign);
        SegEmpty(tab[..], 0);
        assert Correct(flags.mode, sign, m, e - LIMB_BITS * l, e - prec, 0, expn - LIMB_BITS * tab.Length, true, already);
      }
    }

    /** The rest of __bf_round when prec bits are kept. */
    method RoundBits(prec1: nat, flags: Flags, l: nat, prec: nat, addOne: bool, inexact: bool, already: bool) returns (st: Status)
      requires flags.Valid() && 0 < l <= tab.Length && BPow(l) <= 2 * Mantissa(l) && 0 < prec == expn - LastPlace(prec1, flags, expn)
      requires prec1 > 0 || ToInfinity(prec1, flags.mode, sign) || expn < flags.Range()
      requires Decides(flags.mode, sign, Mantissa(l), LIMB_BITS * l - prec, addOne, inexact)
      modifies this, tab
      ensures sign == old(sign) && fresh(tab)
      ensures Outcome(prec1, flags, old(Mantissa(l)), old(expn) - LIMB_BITS * l, old(expn), already, st)
    {
      hide Seg, BPow, Pow2, Correct, Reaches, Decides, Normalised, Overflowed;
      ghost var m, e := Mantissa(l), expn;
      SegBound(tab[..], 0, l);
      var eMin, eMax, q := flags.EMin(), flags.Range(), LIMB_BITS * l - prec;
      st := Status(already || inexact, false, false);
      HalfRemains(m, l, q, Upper(tab[..], l, q));
      NoAddition(flags.mode, sign, m, q, addOne, inexact);
      if addOne {
        AddUlp(l, q);
      }
      CarryReaches(flags.mode, sign, m, tab[..], l, e, prec, addOne, inexact, expn);
      if expn < eMin && !flags.subnormal {
        st := Status(true, true, false);
        SetZero(sign);
      } else {
        st := Status(st.inexact, expn < eMin && st.inexact, false);
        if expn > eMax {
          st := SetOverflow(prec1, flags);
        } else {
          KeepBits(flags.mode, l, prec, m, e, addOne, inexact, already);
        }
      }
    }

    /** The last part: the bits that are kept are the correctly rounded number. */
    method KeepBits(ghost mode: Mode, l: nat, prec: nat, ghost m: nat, ghost e: int, ghost addOne: bool, ghost inexact: bool, ghost already: bool)
      requires 0 < l <= tab.Length && 0 < prec && Decides(mode, sign, m, LIMB_BITS * l - prec, addOne, inexact)
      requires expn == e || expn == e + 1
      requires var q := LIMB_BITS * l - prec;
               var u, k := Upper(tab[..], l, q), Div(m, Unit(q)) + One(addOne);
               BPow(l) <= 2 * (u * Unit(q)) && if expn == e then u == k else k == 2 * u
      modifies this`tab, tab
      ensures fresh(tab) && Normal()
      ensures Correct(mode, sign, m, e - LIMB_BITS * l, e - prec, Mantissa(tab.Length), expn - LIMB_BITS * tab.Length, already || inexact, already)
    {
      hide Seg, BPow, Pow2, Correct, Decides, Normalised;
      var q := LIMB_BITS * l - prec;
      ghost var u := Upper(tab[..], l, q);
      CutAt(l, q, u);
      NormalIsCorrect(mode, sign, m, l, e, prec, addOne, inexact, already, Mantissa(tab.Length), tab.Length, expn, u);
    }

    /** What rounding leaves of a magnitude whose top bit has the weight 2^(e-1). It overflows exactly when the rounded magnitude
        reaches 2^eMax, and is flushed to zero exactly when it stays below 2^(eMin-1) and there are no subnormal numbers;
        otherwise it is the correctly rounded number. */
    ghost predicate Ranged(prec1: nat, flags: Flags, e: int, correct: bool, reaches: bool, st: Status)
      reads this, tab
      requires flags.Valid()
    {
      var j, eMin, eMax := LastPlace(prec1, flags, e), flags.EMin(), flags.Range();
      if j < e && (e > eMax || (e == eMax && reaches)) then
        st == Status(true, false, true) && Overflowed(prec1, flags)
      else if j < e && !flags.subnormal && e < eMin && !(e == eMin - 1 && reaches) then
        st == Status(true, true, false) && expn == EXP_ZERO && tab.Length == 0
      else
        && correct && !st.overflow && (st.underflow <==> j >= e || (st.inexact && expn < eMin))
        && if tab.Length > 0 then Normal() else expn == EXP_ZERO
    }

    /** What rounding leaves of the magnitude m * 2^i, whose top bit has the weight 2^(e-1). */
    ghost predicate Outcome(prec1: nat, flags: Flags, m: nat, i: int, e: int, already: bool, st: Status)
      reads this, tab
      requires flags.Valid()
    {
      var j := LastPlace(prec1, flags, e);
      Ranged(prec1, flags, e, Correct(flags.mode, sign, m, i, j, Mantissa(tab.Length), expn - LIMB_BITS * tab.Length, st.inexact, already),
             Reaches(flags.mode, sign, m, i, j, e), st)
    }

    /** __bf_round: the first l limbs hold a number with its top bit set. */
    method Round(prec1: nat, flags: Flags, l: nat, already: bool) returns (st: Status)
      requires flags.Valid() && 0 < l <= tab.Length && Normalised(tab[l - 1])
      requires prec1 > 0 || (flags.radPoint && expn < flags.Range())
      modifies this, tab
      ensures sign == old(sign) && fresh(tab)
      ensures Outcome(prec1, flags, old(Mantissa(l)), old(expn) - LIMB_BITS * l, old(expn), already, st)
    {
      hide Seg, BPow, Pow2, Correct, Reaches, Decides, Overflowed;
      var prec := Effective(prec1, flags, expn);
      NormalisedHalf(tab[..], l);
      var addOne, inexact := RndAdd(tab[..], l, prec, sign, flags.mode);
      if prec <= 0 {
        st := Status(true, true, false);
        RoundTiny(flags, l, prec, addOne, inexact, already);
      } else {
        st := RoundBits(prec1, flags, l, prec, addOne, inexact, already);
      }
    }
  }

  lemma NoAddition(mode: Mode, negative: bool, m: nat, q: int, addOne: bool, inexact: bool)
    requires Decides(mode, negative, m, q, addOne, inexact)
    ensures addOne ==> q >= 1
  {
  }

  /** The overflows that become infinite. */
  predicate ToInfinity(prec: nat, mode: Mode, negative: bool) {
    prec == PREC_INF || mode == RNDN || mode == RNDNA || mode == RNDA || (mode == RNDD && negative) || (mode == RNDU && !negative)
  }

  lemma {:induction false} AllOnes(s: seq<Limb>, l: nat, w: nat)
    requires 0 < l == |s| && 0 < w <= B && s[0] as int == B - w && forall j :: 0 < j < l ==> s[j] as int == B - 1
    ensures Seg(s, 0, l) + w == BPow(l)
    decreases l
  {
    hide Seg, BPow;
    BPowSucc(l - 1);
    SegSnoc(s, 0, l - 1);
    if l == 1 {
      SegEmpty(s, 0);
    } else {
      AllOnes(s[..l - 1], l - 1, w);
      SegSame(s, s[..l - 1], 0, l - 1);
      Distribute(B, 1, BPow(l - 1));
    }
  }

  lemma NormalisedHalf(s: seq<Limb>, l: nat)
    requires 0 < l <= |s| && Normalised(s[l - 1])
    ensures BPow(l) <= 2 * Seg(s, 0, l) && Seg(s, 0, l) > 0
  {
    HalfFull(s, 0, l);
  }

  lemma SingleLimb(s: seq<Limb>)
    requires |s| == 1 && s[0] as int == B / 2
    ensures Seg(s, 0, 1) == B / 2 && Normalised(s[0]) && s[0] != 0
  {
    SegOne(s, 0);
  }

  /** With no bit left to keep, the number becomes one unit or zero. */
  lemma TinyIsCorrect(mode: Mode, negative: bool, m: nat, l: nat, e: int, prec: int, addOne: bool, inexact: bool, already: bool)
    requires 0 < l && prec <= 0 && 0 < m < BPow(l) && Decides(mode, negative, m, LIMB_BITS * l - prec, addOne, inexact)
    ensures var i, j := e - LIMB_BITS * l, e - prec;
            if addOne then Correct(mode, negative, m, i, j, B / 2, e + 1 - prec - LIMB_BITS, true, already)
            else forall i' :: Correct(mode, negative, m, i, j, 0, i', true, already)
  {
    hide IsRounding, Pow2, BPow;
    var bits := LIMB_BITS * l;
    var q := bits - prec;
    var i, j := e - bits, e - prec;
    MulMono(1, l, LIMB_BITS);
    BPowIsPow2(l);
    Pow2Mono(bits, q);
    DivModUnique(m, Pow2(q), 0, m);
    assert j - i == q;
    if addOne {
      BaseIsPow2();
      Doubled(LIMB_BITS);
      OneUnit(j);
    } else {
      forall i' ensures Correct(mode, negative, m, i, j, 0, i', true, already) {
        ZeroValue(i', j);
        assert IsRounding(Settled(mode), negative, m, Pow2(j - i), 0) && SameValue(0, i', 0, j);
      }
    }
  }

  lemma OneUnit(j: int)
    ensures B == 2 * Pow2(LIMB_BITS - 1) && SameValue(B / 2, j + 1 - LIMB_BITS, 1, j)
  {
    BaseIsPow2();
    Doubled(LIMB_BITS);
    assert j - (j + 1 - LIMB_BITS) == LIMB_BITS - 1;
  }

  lemma ZeroValue(i: int, j: int)
    ensures SameValue(0, i, 0, j)
  {
  }

  lemma NormalIsCorrect(mode: Mode, negative: bool, m: nat, l: nat, e: int, prec: int, addOne: bool, inexact: bool, already: bool,
                        m': nat, l': nat, e': int, u: nat)
    requires 0 < l' <= l && prec > 0 && Decides(mode, negative, m, LIMB_BITS * l - prec, addOne, inexact)
    requires m' * BPow(l - l') == u * Unit(LIMB_BITS * l - prec)
    requires e' == e || e' == e + 1
    requires var k := Div(m, Unit(LIMB_BITS * l - prec)) + One(addOne); if e' == e then u == k else k == 2 * u
    ensures Correct(mode, negative, m, e - LIMB_BITS * l, e - prec, m', e' - LIMB_BITS * l', already || inexact, already)
  {
    hide IsRounding, Pow2, BPow;
    var q := LIMB_BITS * l - prec;
    var i, j, d := e - LIMB_BITS * l, e - prec, LIMB_BITS * (l - l') + (e' - e);
    assert j - i == q && e' - LIMB_BITS * l' == i + d;
    var k := Div(m, Unit(q)) + One(addOne);
    ValueOfCut(m', l - l', e' - e, u, k, Unit(q));
    if q >= 1 {
      RoundedFrom(Settled(mode), negative, m, i, q, k, m', d);
    } else {
      assert Unit(q) == 1 by { PowersOfZero(); }
      PowersOfZero();
      SameProducts(m', d, m, 0);
      SameValueShift(m', d, m, 0, i);
    }
  }

  /** The number m * 2^i, rounded to a multiple of 2^j, is at least 2^e. */
  ghost predicate Reaches(mode: Mode, negative: bool, m: nat, i: int, j: int, e: int) {
    j <= e && if j <= i then AtLeastPower(m, i, e) else RoundsUpTo(Settled(mode), negative, m, Pow2(j - i), Pow2(e - j))
  }

  /** m * 2^i >= 2^e */
  ghost predicate AtLeastPower(m: nat, i: int, e: int) {
    if i >= e then m > 0 else m >= Pow2(e - i)
  }

  /** m rounds to c units or more. */
  ghost predicate RoundsUpTo(mode: Mode, negative: bool, m: nat, u: nat, c: nat)
    requires u > 0
  {
    exists n: nat :: IsRounding(mode, negative, m, u, n) && n >= c
  }

  lemma RoundsUpToSame(mode: Mode, negative: bool, a: nat, b: nat, a': nat, b': nat, c: nat)
    requires b > 0 && b' > 0 && forall n: nat :: IsRounding(mode, negative, a, b, n) <==> IsRounding(mode, negative, a', b', n)
    ensures RoundsUpTo(mode, negative, a, b, c) <==> RoundsUpTo(mode, negative, a', b', c)
  {
  }

  /** The addition of one unit runs over the top exactly when the rounded number reaches the next power of two. */
  lemma CarryReaches(mode: Mode, negative: bool, m: nat, s: seq<Limb>, l: nat, e: int, prec: int, addOne: bool, inexact: bool, e': int)
    requires 0 < l <= |s| && 0 < prec && m < BPow(l) && Decides(mode, negative, m, LIMB_BITS * l - prec, addOne, inexact)
    requires e' == e || e' == e + 1
    requires var q := LIMB_BITS * l - prec;
             var k := Div(m, Unit(q)) + One(addOne);
             if e' == e then k == Upper(s, l, q) else addOne && k * Unit(q) == BPow(l)
    ensures e' == e + 1 <==> Reaches(mode, negative, m, e - LIMB_BITS * l, e - prec, e)
  {
    hide IsRounding, Pow2, BPow, Seg;
    var q, i, j := LIMB_BITS * l - prec, e - LIMB_BITS * l, e - prec;
    assert j - i == q;
    BPowIsPow2(l);
    assert e - i == LIMB_BITS * l && e - j == prec;
    if q >= 1 {
      var k := Div(m, Unit(q)) + One(addOne);
      assert IsRounding(Settled(mode), negative, m, Pow2(q), k);
      Pow2Add(prec, q);
      SegBound(s, 0, l);
      Euclid(Seg(s, 0, l), Pow2(q));
      TopUnits(k, Pow2(prec), Pow2(q), BPow(l));
      forall n: nat | IsRounding(Settled(mode), negative, m, Pow2(q), n) ensures n == k {
        RoundingUnique(Settled(mode), negative, m, Pow2(q), n, k);
      }
    }
  }

  lemma TopUnits(k: nat, c: nat, w: nat, p: nat)
    requires w > 0 && p == c * w
    ensures k * w == p ==> k >= c
    ensures k * w < p ==> k < c
  {
    if k < c {
      MulStrict(k, c, w);
    } else {
      MulMono(c, k, w);
    }
  }

  lemma ValueOfCut(m: nat, c: nat, x: int, u: nat, k: nat, w: nat)
    requires m * BPow(c) == u * w && (x == 0 || x == 1) && if x == 0 then u == k else k == 2 * u
    ensures m * Pow2(LIMB_BITS * c + x) == k * w
  {
    hide BPow, Pow2;
    BPowIsPow2(c);
    if x == 1 {
      Doubled(LIMB_BITS * c + 1);
      MulAssoc(m, 2, Pow2(LIMB_BITS * c));
      MulAssoc(2, u, w);
      MulAssoc(2, m, Pow2(LIMB_BITS * c));
    }
  }

  lemma CarryValue(n: nat, pos: nat, bit: nat, l: nat, u: nat)
    requires pos < l && n * Pow2(bit) == BPow(l - pos) && u == BPow(pos) * Pow2(bit)
    ensures n * u == BPow(l)
  {
    hide BPow, Pow2;
    BPowAdd(pos, l - pos);
    MulAssoc(n, BPow(pos), Pow2(bit));
    MulAssoc(BPow(pos), n, Pow2(bit));
  }

  /** What one call of __bf_round does to the number m * 2^i when the unit is 2^j, short of overflow and flushing to zero. */
  ghost predicate Correct(mode: Mode, negative: bool, m: nat, i: int, j: int, m': nat, i': int, inexact: bool, already: bool) {
    && Rounded(Settled(mode), negative, m, i, j, m', i')
    && (inexact <==> already || mode == RNDF || (j > i && m % Pow2(j - i) != 0))
  }

  /** At least half of the largest number there is room for remains when units are counted. */
  lemma HalfRemains(m: nat, l: nat, q: int, n: nat)
    requires 0 < l && q < LIMB_BITS * l && BPow(l) <= 2 * m && n >= Div(m, Unit(q))
    ensures BPow(l) <= 2 * (n * Unit(q))
  {
    hide BPow, Pow2;
    var u, bits := Unit(q), LIMB_BITS * l;
    BPowIsPow2(l);
    Doubled(bits);
    if q >= 0 {
      Pow2Add(bits - 1 - q, q);
      AtLeast(m, Pow2(bits - 1 - q), u, n);
    } else {
      assert u == 1;
    }
  }

  lemma AtLeast(m: nat, c: nat, u: nat, n: nat)
    requires u > 0 && c * u <= m && n >= Div(m, u)
    ensures c * u <= n * u
  {
    Euclid(m, u);
    var k := m / u;
    if k < c {
      MulMono(k + 1, c, u);
      Distribute(k, 1, u);
    }
    MulMono(c, n, u);
  }

  /** The limb and the bit within it where the weight 2^q stands. */
  function LimbOf(q: int): nat {
    if q >= 0 then q / LIMB_BITS else 0
  }

  function BitOf(q: int): (b: nat)
    ensures b < LIMB_BITS
  {
    if q >= 0 then q % LIMB_BITS else 0
  }

  lemma UnitsPositive(n: nat, u: nat, p: nat)
    requires p > 0 && p <= 2 * (n * u)
    ensures n > 0
  {
  }

  lemma UpperParts(s: seq<Limb>, l: nat, q: int)
    requires 0 < l <= |s| && q < LIMB_BITS * l
    ensures var pos, bit := LimbOf(q), BitOf(q);
            pos < l && Unit(q) == BPow(pos) * Pow2(bit) && Upper(s, l, q) == Seg(s, pos, l - pos) / Pow2(bit)
  {
    hide BPow, Seg, Pow2;
    var pos, bit := LimbOf(q), BitOf(q);
    if q >= 0 {
      LimbIndex(q, l);
      BitPosition(q);
    } else {
      PowersOfZero();
    }
    SegSplit(s, 0, l, pos);
    SegBound(s, 0, pos);
    ModSplit(Seg(s, 0, pos), Seg(s, pos, l - pos), BPow(pos), 1);
    DivTwice(Seg(s, 0, l), BPow(pos), Pow2(bit));
  }

  lemma CutValue(m: nat, i: nat, pos: nat, n: nat, bit: nat, q: int)
    requires pos <= i && Unit(q) == BPow(pos) * Pow2(bit) && m * BPow(i - pos) == n * Pow2(bit)
    ensures m * BPow(i) == n * Unit(q)
  {
    hide BPow, Pow2, Unit;
    BPowAdd(i - pos, pos);
    MulAssoc(m, BPow(i - pos), BPow(pos));
    MulAssoc(n, BPow(pos), Pow2(bit));
    MulAssoc(BPow(pos), n, Pow2(bit));
  }

  lemma CutTop(s: seq<Limb>, i: nat, l: nat, v: nat)
    requires i < l <= |s| && Seg(s, i, l - i) * BPow(i) == v && BPow(l) <= 2 * v
    ensures Normalised(s[l - 1])
  {
    hide BPow, Seg;
    var m := Seg(s, i, l - i);
    BPowAdd(l - i, i);
    MulAssoc(2, m, BPow(i));
    if 2 * m < BPow(l - i) {
      MulStrict(2 * m, BPow(l - i), BPow(i));
    }
    TopNormalised(s, i, l - i);
  }

  /** The weight 2^q, where negative q stand for 1. */
  ghost function Unit(q: int): (u: nat)
    ensures u > 0
  {
    if q >= 0 then Pow2(q) else 1
  }

  /** The number of units 2^q in the first l limbs of s. */
  ghost function Upper(s: seq<Limb>, l: nat, q: int): nat
    requires l <= |s|
  {
    Div(Seg(s, 0, l), Unit(q))
  }

  lemma SegWhole(s: seq<Limb>, i: nat, l: nat)
    requires i <= l <= |s|
    ensures Seg(s[i..l], 0, l - i) == Seg(s, i, l - i)
  {
    assert s[i..l][0..l - i] == s[i..i + (l - i)];
  }

  // The contract of Round, written out.

  /** With subnormal numbers, what has not overflowed is the magnitude rounded to a multiple of 2^(max(e, eMin) - prec). */
  lemma SubnormalOutcome(r: Number, prec: nat, flags: Flags, m: nat, i: int, e: int, already: bool, st: Status)
    requires flags.Valid() && flags.subnormal && !flags.radPoint && !st.overflow && r.Outcome(prec, flags, m, i, e, already, st)
    ensures var j := (if e < flags.EMin() then flags.EMin() else e) - prec;
            var m', i' := r.Mantissa(r.tab.Length), r.expn - LIMB_BITS * r.tab.Length;
            && (if j <= i then SameValue(m', i', m, i)
                else exists n :: IsRounding(Settled(flags.mode), r.sign, m, Pow2(j - i), n) && SameValue(m', i', n, j))
            && (st.inexact <==> already || flags.mode == RNDF || (j > i && m % Pow2(j - i) != 0))
            && (st.underflow <==> e <= j || (st.inexact && r.expn < flags.EMin()))
  {
    hide Pow2, IsRounding, SameValue, Number.Normal, Number.Overflowed, Reaches;
  }

  /** An overflow is infinite exactly where the mode rounds up a magnitude three quarters of the way to the next number. */
  lemma OverflowFollowsMode(prec: nat, mode: Mode, negative: bool)
    requires mode != RNDF
    ensures ToInfinity(prec, mode, negative) <==> prec == PREC_INF || IsRounding(mode, negative, 3, 4, 1)
  {
  }

  /** The exponent ranges of the binary interchange formats of 32 and 64 bits, in section 3.6 of IEEE 754-2019: exponents
      here are one larger, since mantissas lie between a half and one. */
  lemma FormatRanges(flags: Flags)
    requires flags.expBits == 8 || flags.expBits == 11
    ensures flags.Range() - 1 == if flags.expBits == 8 then 127 else 1023
    ensures flags.EMin() - 1 == if flags.expBits == 8 then -126 else -1022
  {
    Pow2Add(4, 3);
    Pow2Add(7, 3);
    assert Pow2(3) == 8 && Pow2(4) == 16;
  }
}
