/** And, or and exclusive or of integers of any sign, as infinite two's complement bit strings. */
module BfLogic {
  import opened Arith
  import opened Limbs
  import opened RoundMath
  import opened BfBits
  import opened BfRound
  import opened BfNumber
  import opened BfNormalize
  import opened BfWindow
  import opened BfSum
  import opened BfAdd
  import opened BfAddition
  import opened BfExact

  datatype Op = Or | Xor | And

  function BitOp(op: Op, a: nat, b: nat): (r: nat)
    requires a <= 1 && b <= 1
    ensures r <= 1
  {
    match op
    case Or => if a + b > 0 then 1 else 0
    case Xor => if a != b then 1 else 0
    case And => if a + b == 2 then 1 else 0
  }

  /** Bit k of the two's complement of x, which goes on without end: the division rounds down. */
  ghost function SignedBit(x: int, k: nat): (b: nat)
    ensures b <= 1
  {
    x / Pow2(k) % 2
  }

  ghost predicate IsLogic(op: Op, x: int, y: int, z: int) {
    forall k: nat :: SignedBit(z, k) == BitOp(op, SignedBit(x, k), SignedBit(y, k))
  }

  /** The bits say which integer it is. */
  lemma {:induction false} BitsDetermine(x: int, y: int)
    requires forall k: nat :: SignedBit(x, k) == SignedBit(y, k)
    ensures x == y
    decreases Magnitude(x) + Magnitude(y)
  {
    assert SignedBit(x, 0) == x % 2 && SignedBit(y, 0) == y % 2;
    if x / 2 == x && y / 2 == y {
      assert x == 0 || x == -1;
      assert y == 0 || y == -1;
    } else {
      forall k: nat ensures SignedBit(x / 2, k) == SignedBit(y / 2, k) {
        HalfBit(x, k);
        HalfBit(y, k);
      }
      BitsDetermine(x / 2, y / 2);
    }
  }

  lemma HalfBit(x: int, k: nat)
    ensures SignedBit(x / 2, k) == SignedBit(x, k + 1)
  {
    FloorTwice(x, Pow2(k));
  }

  lemma FloorTwice(x: int, p: nat)
    requires p > 0
    ensures x / 2 / p == x / (2 * p)
  {
    var q, r := x / 2 / p, x / 2 % p;
    assert x / 2 == q * p + r;
    MulAssoc(2, q, p);
    MulAssoc(q, 2, p);
    DivModUnique(x, 2 * p, q, 2 * r + x % 2);
  }

  /** There is exactly one such integer. */
  lemma LogicUnique(op: Op, x: int, y: int, z: int, z': int)
    requires IsLogic(op, x, y, z) && IsLogic(op, x, y, z')
    ensures z == z'
  {
    hide SignedBit;
    BitsDetermine(z, z');
  }

  /** The three results make up the operands: x | y + x & y = x + y, and x ^ y = x | y - x & y. */
  lemma {:induction false} LogicSum(x: int, y: int, or: int, and: int, xor: int)
    requires IsLogic(Or, x, y, or) && IsLogic(And, x, y, and) && IsLogic(Xor, x, y, xor)
    ensures or + and == x + y && xor == or - and
    decreases Magnitude(x) + Magnitude(y) + Magnitude(or) + Magnitude(and) + Magnitude(xor)
  {
    hide Pow2, IsLogic, Magnitude, BitOp;
    LogicHalf(Or, x, y, or);
    LogicHalf(And, x, y, and);
    LogicHalf(Xor, x, y, xor);
    Halved(x);
    Halved(y);
    Halved(or);
    Halved(and);
    Halved(xor);
    BitSum(x % 2, y % 2);
    if x / 2 != x || y / 2 != y || or / 2 != or || and / 2 != and || xor / 2 != xor {
      LogicSum(x / 2, y / 2, or / 2, and / 2, xor / 2);
    }
  }

  lemma BitSum(a: nat, b: nat)
    requires a <= 1 && b <= 1
    ensures BitOp(Or, a, b) + BitOp(And, a, b) == a + b && BitOp(Xor, a, b) == BitOp(Or, a, b) - BitOp(And, a, b)
  {
  }

  lemma Halved(x: int)
    ensures x == 2 * (x / 2) + x % 2 && Magnitude(x / 2) <= Magnitude(x)
    ensures if x / 2 == x then x == -(x % 2) else Magnitude(x / 2) < Magnitude(x)
  {
  }

  lemma LogicHalf(op: Op, x: int, y: int, z: int)
    requires IsLogic(op, x, y, z)
    ensures z % 2 == BitOp(op, x % 2, y % 2) && IsLogic(op, x / 2, y / 2, z / 2)
  {
    hide BitOp;
    assert SignedBit(z, 0) == z % 2 && SignedBit(x, 0) == x % 2 && SignedBit(y, 0) == y % 2;
    forall k: nat ensures SignedBit(z / 2, k) == BitOp(op, SignedBit(x / 2, k), SignedBit(y / 2, k)) {
      HalfBit(x, k);
      HalfBit(y, k);
      HalfBit(z, k);
    }
  }

  /** An integer with itself. */
  lemma LogicSame(x: int)
    ensures IsLogic(Or, x, x, x) && IsLogic(And, x, x, x)
  {
    hide SignedBit;
    forall k: nat ensures SignedBit(x, k) == BitOp(Or, SignedBit(x, k), SignedBit(x, k)) == BitOp(And, SignedBit(x, k), SignedBit(x, k)) {
    }
  }

  // Bits of limbs.

  /** A negative number is the complement of what the code stores for it. */
  function Stored(x: int): (m: nat) {
    if x < 0 then -x - 1 else x
  }

  function Complemented(b: nat, sign: bool): (r: nat)
    requires b <= 1
    ensures r <= 1
  {
    if sign then 1 - b else b
  }

  lemma NegativeBit(m: nat, p: nat)
    requires p > 0
    ensures (-1 - m) / p % 2 == 1 - m / p % 2
  {
    Euclid(m, p);
    var q := m / p;
    Negated(q, p);
    Distribute(-q, -1, p);
    DivModUnique(-1 - m, p, -q - 1, p - 1 - m % p);
    Parity(0, q);
  }

  lemma Parity(c: int, q: nat)
    ensures (2 * c - q - 1) % 2 == 1 - q % 2
  {
  }

  lemma StoredBit(x: int, k: nat)
    ensures SignedBit(x, k) == Complemented(Bit(Stored(x), k), x < 0)
  {
    hide Pow2;
    if x < 0 {
      NegativeBit(-x - 1, Pow2(k));
    }
  }

  /** The bit of a number is a bit of one of its limbs. */
  lemma BitOfDigit(m: nat, k: nat)
    ensures k % LIMB_BITS < LIMB_BITS && Bit(m, k) == Bit(Digit(m, k / LIMB_BITS), k % LIMB_BITS)
  {
    hide BPow, Pow2;
    var i, t := k / LIMB_BITS, k % LIMB_BITS;
    BitPosition(k);
    DivTwice(m, BPow(i), Pow2(t));
    var u := Div(m, BPow(i));
    HigherLimbs(Rem(u, B), Div(u, B), t);
    SwapFactors(Div(u, B), B);
  }

  lemma TurnedBit(v: Limb, sign: bool, t: nat)
    requires t < LIMB_BITS
    ensures Bit(Turned(v, sign), t) == Complemented(Bit(v, t), sign)
  {
    hide Pow2;
    if sign {
      var p := Pow2(t);
      BaseIsPow2();
      Pow2Add(LIMB_BITS - t, t);
      Doubled(LIMB_BITS - t);
      ComplementBit(v, p, Pow2(LIMB_BITS - t - 1));
    }
  }

  lemma ComplementBit(v: nat, p: nat, c: nat)
    requires p > 0 && 2 * c * p == B && v < B
    ensures (B - 1 - v) / p % 2 == 1 - v / p % 2
  {
    Euclid(v, p);
    var q := v / p;
    Distribute(2 * c, q + 1, p);
    Distribute(q, 1, p);
    DivModUnique(B - 1 - v, p, 2 * c - q - 1, p - 1 - v % p);
    Parity(c, q);
  }

  /** The C operators on the lowest n bits. */
  function LogicBits(op: Op, a: nat, b: nat, n: nat): (r: nat)
    ensures r < Pow2(n)
    decreases n
  {
    if n == 0 then 0 else 2 * LogicBits(op, a / 2, b / 2, n - 1) + BitOp(op, a % 2, b % 2)
  }

  lemma NextBit(x: nat, t: nat)
    requires t > 0
    ensures Bit(x, t) == Bit(x / 2, t - 1)
  {
    FloorTwice(x, Pow2(t - 1));
  }

  lemma {:induction false} LogicBitsAre(op: Op, a: nat, b: nat, n: nat, t: nat)
    requires t < n
    ensures Bit(LogicBits(op, a, b, n), t) == BitOp(op, Bit(a, t), Bit(b, t))
    decreases n
  {
    hide Pow2, Bit, BitOp;
    var rest, low := LogicBits(op, a / 2, b / 2, n - 1), BitOp(op, a % 2, b % 2);
    if t > 0 {
      LogicBitsAre(op, a / 2, b / 2, n - 1, t - 1);
      NextBit(a, t);
      NextBit(b, t);
      NextBit(2 * rest + low, t);
      assert (2 * rest + low) / 2 == rest;
    } else {
      LowestBit(a);
      LowestBit(b);
      LowestBit(2 * rest + low);
    }
  }

  lemma LowestBit(x: nat)
    ensures Bit(x, 0) == x % 2
  {
    assert Pow2(0) == 1;
  }

  /** bf_logic_op1 */
  function LogicLimb(op: Op, a: Limb, b: Limb): Limb {
    BaseIsPow2();
    LogicBits(op, a, b, LIMB_BITS)
  }

  function LogicSign(op: Op, a: bool, b: bool): bool {
    BitOp(op, One(a), One(b)) == 1
  }

  /** One limb of the result, with the masks that stand for the signs. */
  function ResultLimb(op: Op, va: Limb, vb: Limb, sa: bool, sb: bool): Limb {
    Turned(LogicLimb(op, Turned(va, sa), Turned(vb, sb)), LogicSign(op, sa, sb))
  }

  lemma ResultBit(op: Op, va: Limb, vb: Limb, sa: bool, sb: bool, t: nat)
    requires t < LIMB_BITS
    ensures Complemented(Bit(ResultLimb(op, va, vb, sa, sb), t), LogicSign(op, sa, sb))
            == BitOp(op, Complemented(Bit(va, t), sa), Complemented(Bit(vb, t), sb))
  {
    hide Pow2, Bit, LogicBits;
    TurnedBit(va, sa, t);
    TurnedBit(vb, sb, t);
    LogicBitsAre(op, Turned(va, sa), Turned(vb, sb), LIMB_BITS, t);
    TurnedBit(LogicLimb(op, Turned(va, sa), Turned(vb, sb)), LogicSign(op, sa, sb), t);
  }

  /** How far the limbs of the result have to go for stored magnitudes below 2^ea and 2^eb. */
  function LogicBound(op: Op, sa: bool, sb: bool, ea: int, eb: int): int {
    if op == And && !LogicSign(op, sa, sb) then
      if !sa && !sb then Least(ea, eb) else if !sa then ea else eb
    else if ea >= eb then ea else eb
  }

  /** Above that bound, the result has the bits of its sign. */
  lemma BeyondBound(op: Op, x: int, y: int, ea: int, eb: int, l: nat, j: nat)
    requires ZeroAbove(Stored(x), ea) && ZeroAbove(Stored(y), eb)
    requires LogicBound(op, x < 0, y < 0, ea, eb) <= LIMB_BITS * l && l <= j
    ensures forall t :: 0 <= t < LIMB_BITS ==>
              BitOp(op, Complemented(Bit(Digit(Stored(x), j), t), x < 0), Complemented(Bit(Digit(Stored(y), j), t), y < 0))
              == One(LogicSign(op, x < 0, y < 0))
  {
    hide Pow2, BPow, Digit, ZeroAbove;
    if ea <= LIMB_BITS * l {
      DigitAbove(Stored(x), ea, l, j);
    }
    if eb <= LIMB_BITS * l {
      DigitAbove(Stored(y), eb, l, j);
    }
    forall t | 0 <= t < LIMB_BITS ensures Bit(0, t) == 0 {
      ZeroBit(t);
    }
  }

  lemma ZeroBit(t: nat)
    ensures Bit(0, t) == 0
  {
    DivModUnique(0, Pow2(t), 0, 0);
  }

  /** m has no bit from 2^e on. */
  ghost predicate ZeroAbove(m: nat, e: int) {
    m == 0 || (e >= 0 && m < Pow2(e))
  }

  lemma DigitAbove(m: nat, e: int, l: nat, j: nat)
    requires ZeroAbove(m, e) && e <= LIMB_BITS * l && l <= j
    ensures Digit(m, j) == 0
  {
    hide Pow2, BPow;
    BPowMono(l, j);
    BPowIsPow2(l);
    if m > 0 {
      Pow2Mono(e, LIMB_BITS * l);
    }
    DivModUnique(m, BPow(j), 0, m);
    DivModUnique(0, B, 0, 0);
  }

  /** The limbs of the result, and nothing above them, are what the operation asks for. */
  ghost predicate LimbsAre(op: Op, x: int, y: int, s: seq<Limb>, n: nat) {
    n <= |s| && forall j :: 0 <= j < n ==> s[j] == ResultLimb(op, Digit(Stored(x), j), Digit(Stored(y), j), x < 0, y < 0)
  }

  ghost function ResultValue(op: Op, x: int, y: int, m: nat): int {
    if LogicSign(op, x < 0, y < 0) then -1 - m else m
  }

  lemma LimbsMeanLogic(op: Op, x: int, y: int, ea: int, eb: int, s: seq<Limb>)
    requires ZeroAbove(Stored(x), ea) && ZeroAbove(Stored(y), eb) && LimbsAre(op, x, y, s, |s|)
    requires LogicBound(op, x < 0, y < 0, ea, eb) <= LIMB_BITS * |s|
    ensures IsLogic(op, x, y, ResultValue(op, x, y, Val(s)))
  {
    hide Digit, ZeroAbove, LogicBound, SignedBit, ResultLimb, LogicSign, Val;
    var z := ResultValue(op, x, y, Val(s));
    forall k: nat ensures SignedBit(z, k) == BitOp(op, SignedBit(x, k), SignedBit(y, k)) {
      LimbMeansLogic(op, x, y, ea, eb, s, k);
    }
  }

  lemma LimbMeansLogic(op: Op, x: int, y: int, ea: int, eb: int, s: seq<Limb>, k: nat)
    requires ZeroAbove(Stored(x), ea) && ZeroAbove(Stored(y), eb) && LimbsAre(op, x, y, s, |s|)
    requires LogicBound(op, x < 0, y < 0, ea, eb) <= LIMB_BITS * |s|
    ensures SignedBit(ResultValue(op, x, y, Val(s)), k) == BitOp(op, SignedBit(x, k), SignedBit(y, k))
  {
    hide Digit, ZeroAbove, LogicBound, SignedBit, ResultLimb, Bit, BitOp, Val, Seg;
    var j, t := k / LIMB_BITS, k % LIMB_BITS;
    StoredBit(x, k);
    StoredBit(y, k);
    StoredBit(ResultValue(op, x, y, Val(s)), k);
    BitOfDigit(Stored(x), k);
    BitOfDigit(Stored(y), k);
    BitOfDigit(Val(s), k);
    WholeVal(s);
    SegDigit(s, |s|, j);
    if j < |s| {
      ResultBit(op, Digit(Stored(x), j), Digit(Stored(y), j), x < 0, y < 0, t);
    } else {
      BeyondBound(op, x, y, ea, eb, |s|, j);
      ZeroBit(t);
    }
  }

  // Reading the limbs of an integer.

  lemma IntegerDigit(v: Value, m: nat, j: nat)
    requires Size(v, m)
    ensures GetBits(v.limbs, LIMB_BITS * j - v.Lowest()) == Digit(m, j)
  {
    hide Digit, GetBits, Pow2, BPow, Val, Seg;
    WholeVal(v.limbs);
    var low := v.Lowest();
    if low >= 0 {
      if low == 0 {
        PowerOfZero(Val(v.limbs));
      }
      GetBitsIsDigit(v.limbs, j, low);
    } else {
      var t := -low;
      var c := (t + LIMB_BITS - 1) / LIMB_BITS;
      LengthFits(0, t);
      var k := LIMB_BITS * c - t;
      GetBitsIsDigit(v.limbs, j + c, k);
      Distribute(j, c, LIMB_BITS);
      assert LIMB_BITS * (j + c) - k == LIMB_BITS * j - low;
      Pow2Add(t, k);
      BPowIsPow2(c);
      MulAssoc(m, Pow2(t), Pow2(k));
      ShiftedDigit(m, c, j + c);
    }
  }

  lemma SizeBelow(v: Value, m: nat)
    requires Size(v, m)
    ensures ZeroAbove(m, v.expn)
  {
    SizeTop(v, m);
  }

  /** The exponents of operands that leave room for the limbs of the result. */
  ghost predicate Moderate(x: int) {
    EXACT.Valid() && EXACT.Range() > 2 * LIMB_BITS && Magnitude(x) < Pow2(EXACT.Range() - 2 * LIMB_BITS)
  }

  lemma ModerateTop(v: Value, x: int, m: nat)
    requires Moderate(x) && Size(v, m) && m <= Magnitude(x)
    ensures v.expn <= EXACT.Range() - 2 * LIMB_BITS && InRange(m)
  {
    hide Pow2;
    SizeTop(v, m);
    var k := EXACT.Range() - 2 * LIMB_BITS;
    Pow2Mono(k, EXACT.Range() - 1);
    if m > 0 && v.expn > k {
      Pow2Mono(k, v.expn - 1);
    }
  }

  /** The sign that an integer has, and the number whose limbs stand for it. */
  method Prepare(a: Number, ghost x: int) returns (sign: bool, m: Number)
    requires Holds(a.Now(), x) && Moderate(x)
    ensures sign == (x < 0) && Size(m.Now(), Stored(x)) && m.expn <= EXACT.Range() - 2 * LIMB_BITS
    ensures m == a || (fresh(m) && fresh(m.tab))
  {
    hide Size, Moderate, InRange, TopBit;
    SizeTop(a.Now(), Magnitude(x));
    TopPositive(Magnitude(x), a.expn);
    sign := a.expn > 0 && a.sign;
    m := a;
    if sign {
      m := new Number();
      ModerateTop(a.Now(), x, Magnitude(x));
      InRangeLess(x, x + 1);
      var st := AddSi(m, a.Now(), 1, x);
    }
    ModerateTop(m.Now(), x, Stored(x));
  }

  lemma TopPositive(m: nat, e: int)
    ensures TopBit(m, 0, e) ==> e > 0
    ensures EXP_ZERO <= 0
  {
  }

  lemma InRangeLess(x: int, y: int)
    requires InRange(Magnitude(x)) && Magnitude(y) <= Magnitude(x)
    ensures InRange(y)
  {
  }

  /** bf_logic_op */
  method LogicOp(r: Number, a1: Number, b1: Number, op: Op, ghost x: int, ghost y: int) returns (ghost z: int)
    requires r != a1 && r != b1 && Holds(a1.Now(), x) && Holds(b1.Now(), y) && Moderate(x) && Moderate(y)
    modifies r, r.tab
    ensures IsLogic(op, x, y, z) && Holds(r.Now(), z)
  {
    hide Size, Moderate, InRange, IsLogic, LimbsAre, ZeroAbove, Holds, Digit, GetBits, ResultLimb, LogicSign, Val;
    var sa, a := Prepare(a1, x);
    var sb, b := Prepare(b1, y);
    var bound := LogicBound(op, sa, sb, a.expn, b.expn);
    var l := ((if bound >= 1 then bound else 1) + LIMB_BITS - 1) / LIMB_BITS;
    LengthOf(bound, l);
    ghost var va, vb := a.Now(), b.Now();
    var t := Combine(a, b, l, op, sa, sb, x, y);
    SizeBelow(va, Stored(x));
    SizeBelow(vb, Stored(y));
    LimbsMeanLogic(op, x, y, a.expn, b.expn, t[..]);
    z := ResultValue(op, x, y, Val(t[..]));
    Finish(r, t, LogicSign(op, sa, sb));
  }

  lemma SizeHolds(v: Value, m: nat)
    requires Size(v, m)
    ensures Holds(v, if v.sign then 0 - m else m)
  {
  }

  lemma LengthOf(bound: int, l: int)
    requires l == ((if bound >= 1 then bound else 1) + LIMB_BITS - 1) / LIMB_BITS
    ensures EXACT.Valid() && l >= 1 && bound <= LIMB_BITS * l
    ensures bound <= EXACT.Range() - 2 * LIMB_BITS ==> LIMB_BITS * l < EXACT.Range() - 1
  {
    ExactRange();
    var n := if bound >= 1 then bound else 1;
    Euclid(n + LIMB_BITS - 1, LIMB_BITS);
    KeptBits(n);
  }

  lemma ResultInRange(s: seq<Limb>, l: nat)
    requires |s| == l && EXACT.Valid() && LIMB_BITS * l < EXACT.Range() - 1
    ensures InRange(Val(s)) && InRange(-1 - Val(s))
  {
    hide Pow2, BPow, Val;
    ValBound(s);
    BPowIsPow2(l);
    Pow2Mono(LIMB_BITS * l + 1, EXACT.Range() - 1);
    Doubled(LIMB_BITS * l + 1);
  }

  method Combine(a: Number, b: Number, l: nat, op: Op, sa: bool, sb: bool, ghost x: int, ghost y: int) returns (t: array<Limb>)
    requires Size(a.Now(), Stored(x)) && Size(b.Now(), Stored(y)) && sa == (x < 0) && sb == (y < 0)
    ensures fresh(t) && t.Length == l && LimbsAre(op, x, y, t[..], l)
  {
    hide Size, Digit, GetBits, ResultLimb;
    t := new Limb[l](_ => 0);
    var ta, tb := a.tab[..], b.tab[..];
    var offA, offB := |ta| * LIMB_BITS - a.expn, |tb| * LIMB_BITS - b.expn;
    for i := 0 to l
      invariant LimbsAre(op, x, y, t[..], i)
    {
      IntegerDigit(a.Now(), Stored(x), i);
      IntegerDigit(b.Now(), Stored(y), i);
      var v1, v2 := GetBits(ta, offA + i * LIMB_BITS), GetBits(tb, offB + i * LIMB_BITS);
      t[i] := ResultLimb(op, v1, v2, sa, sb);
    }
  }

  /** The normalisation at the end, which is exact, and the step from the stored magnitude to a negative result. */
  method Finish(r: Number, t: array<Limb>, negative: bool)
    requires EXACT.Valid() && LIMB_BITS * t.Length < EXACT.Range() - 1
    modifies r, t
    ensures fresh(r.tab) && Holds(r.Now(), if negative then -1 - old(Val(t[..])) else old(Val(t[..])))
  {
    hide Size, InRange, Val, Seg, TopBit, Number.Outcome, Holds;
    ghost var m: int := Val(t[..]);
    r.tab, r.expn, r.sign := t, t.Length * LIMB_BITS, negative;
    ResultInRange(t[..], t.Length);
    WholeVal(t[..]);
    var st, e := NormalizeAndRound(r, PREC_INF, EXACT);
    if m == 0 {
      ZeroHolds(r.Now());
    } else {
      ExactOutcome(r, m, e, st);
      SizeHolds(r.Now(), m);
    }
    if negative {
      st := AddSi(r, r.Now(), -1, -m);
    }
  }
}
