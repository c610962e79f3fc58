/** bf_can_round: when an approximation rounds like everything close to it. */
module BfCanRound {
  import opened Arith
  import opened Limbs
  import opened RoundMath
  import opened BfBits
  import opened BfRound

  /** n units u */
  ghost function Units(n: int, u: real): real {
    n as real * u
  }

  /** The real x rounds to n units u. */
  ghost predicate RealRounding(mode: Mode, negative: bool, x: real, u: real, n: int) {
    RealRoundsTo(mode, negative, x, u, Units(n, u), n % 2 == 0)
  }

  ghost predicate RealRoundsTo(mode: Mode, negative: bool, x: real, u: real, y: real, even: bool) {
    var up, down := x <= y < x + u, x - u < y <= x;
    var near := -u <= 2.0 * (x - y) <= u;
    var tied := 2.0 * (x - y) == u || 2.0 * (x - y) == -u;
    match mode
    case RNDZ => down
    case RNDA => up
    case RNDD => if negative then up else down
    case RNDU => if negative then down else up
    case RNDN => near && (tied ==> even)
    case RNDNA => near && (tied ==> y > x)
    case RNDF => x - u < y < x + u
  }

  /** The unit in which x is rounded to a given precision, when numbers from half to top are rounded in units of u. */
  function UnitAt(x: real, u: real, half: real, top: real): real {
    if x < half then u / 2.0 else if x < top then u else 2.0 * u
  }

  /** Both a and x round to the same number, each in the unit of its own binade. */
  ghost predicate RoundAlike(mode: Mode, negative: bool, a: real, x: real, u: real, half: real, top: real) {
    exists n, n' :: RealRounding(mode, negative, a, u, n) && RealRounding(mode, negative, x, UnitAt(x, u, half, top), n')
                    && Units(n, u) == Units(n', UnitAt(x, u, half, top))
  }

  predicate ToNearest(mode: Mode) {
    mode == RNDN || mode == RNDNA
  }

  /** The mode rounds magnitudes up. */
  predicate Away(mode: Mode, negative: bool) {
    mode == RNDA || (mode == RNDD && negative) || (mode == RNDU && !negative)
  }

  /** Of the neighbouring multiples y and y + u of the unit, x rounds to y, which is k units. */
  ghost predicate Lower(mode: Mode, negative: bool, x: real, y: real, u: real, k: int) {
    if ToNearest(mode) then 2.0 * (x - y) < u || (2.0 * (x - y) == u && mode == RNDN && k % 2 == 0)
    else if Away(mode, negative) then x <= y
    else x < y + u
  }

  /** Where that question makes sense: between the two, or for rounding to nearest, a quarter of a unit around them. */
  ghost predicate Between(mode: Mode, x: real, y: real, u: real) {
    if ToNearest(mode) then y - u / 4.0 <= x <= y + u + u / 4.0 else y <= x <= y + u
  }

  /** A number a of the binade from half = c * u to top = 2 * c * u, between y = k * u and the next multiple of u. */
  ghost predicate Placed(a: int, k: nat, y: int, u: nat, c: nat, half: int, top: int) {
    u > 0 && y == k * u && half == c * u && top == 2 * c * u && c <= k < 2 * c && y <= a < y + u
  }

  lemma {:induction false} RealProduct(k: nat, u: nat)
    ensures (k * u) as real == k as real * u as real
  {
    if k > 0 {
      RealProduct(k - 1, u);
      Distribute(k - 1, 1, u);
      assert (k * u) as real == ((k - 1) * u) as real + u as real;
      assert k as real == (k - 1) as real + 1.0;
    }
  }

  lemma UnitBounds(a: int, k: nat, y: int, u: nat, c: nat, half: int, top: int)
    requires Placed(a, k, y, u, c, half, top)
    ensures u > 0 && half <= y <= a < y + u <= top
    ensures y > half ==> y >= half + u
    ensures y + u < top ==> y + 2 * u <= top
  {
    MulMono(c, k, u);
    MulMono(k + 1, 2 * c, u);
    Distribute(k, 1, u);
    Distribute(k, 2, u);
    Distribute(c, 1, u);
    if k > c {
      MulMono(c + 1, k, u);
    }
    if k + 1 < 2 * c {
      MulMono(k + 2, 2 * c, u);
    }
  }

  /** The multiples as reals, in the units of the three binades they can belong to. */
  lemma UnitValues(a: int, k: nat, y: int, u: nat, c: nat, half: int, top: int)
    requires Placed(a, k, y, u, c, half, top)
    ensures y as real == Units(k, u as real) && (y + u) as real == Units(k + 1, u as real)
    ensures half as real == Units(2 * c, u as real / 2.0) && top as real == Units(c, 2.0 * u as real)
  {
    RealProduct(k, u);
    RealProduct(k + 1, u);
    RealProduct(c, u);
    Distribute(k, 1, u);
    MulAssoc(2, c, u);
    RealHalf(c as real, u as real);
    assert (2 * c) as real == 2.0 * c as real;
  }

  lemma RealHalf(c: real, u: real)
    ensures 2.0 * c * (u / 2.0) == c * u && c * (2.0 * u) == 2.0 * (c * u)
  {
  }

  lemma ByValue(mode: Mode, negative: bool, x: real, u: real, n: int, y: real)
    requires y == Units(n, u) && RealRoundsTo(mode, negative, x, u, y, n % 2 == 0)
    ensures RealRounding(mode, negative, x, u, n)
  {
    hide RealRoundsTo;
  }

  /** Inside the binade. */
  lemma SideInside(mode: Mode, negative: bool, x: real, y: real, u: real, k: int)
    requires mode != RNDF && u > 0.0 && Between(mode, x, y, u)
    ensures if Lower(mode, negative, x, y, u, k) then RealRoundsTo(mode, negative, x, u, y, k % 2 == 0)
            else RealRoundsTo(mode, negative, x, u, y + u, (k + 1) % 2 == 0)
  {
  }

  /** Just below it, in units half as large. */
  lemma SideBelow(mode: Mode, negative: bool, x: real, y: real, u: real, k: int)
    requires mode != RNDF && u > 0.0 && Between(mode, x, y, u) && x < y
    ensures Lower(mode, negative, x, y, u, k) && RealRoundsTo(mode, negative, x, u / 2.0, y, true)
  {
  }

  /** Just above it, in units twice as large. */
  lemma SideAbove(mode: Mode, negative: bool, x: real, y: real, u: real, k: int, even: bool)
    requires mode != RNDF && u > 0.0 && Between(mode, x, y, u) && x >= y + u
    ensures !Lower(mode, negative, x, y, u, k) && RealRoundsTo(mode, negative, x, 2.0 * u, y + u, even)
  {
  }

  /** Every number in between rounds to the one or the other multiple, in the unit of its own binade. */
  lemma Side(mode: Mode, negative: bool, x: real, a: int, k: nat, y: int, u: nat, c: nat, half: int, top: int) returns (n: int)
    requires mode != RNDF && Placed(a, k, y, u, c, half, top) && Between(mode, x, y as real, u as real)
    ensures var v := UnitAt(x, u as real, half as real, top as real);
            && RealRounding(mode, negative, x, v, n)
            && Units(n, v) == if Lower(mode, negative, x, y as real, u as real, k) then y as real else (y + u) as real
  {
    hide RealRounding, RealRoundsTo, Lower, Between, Placed, Units;
    UnitBounds(a, k, y, u, c, half, top);
    UnitValues(a, k, y, u, c, half, top);
    BetweenBounds(mode, x, y as real, u as real);
    var Y, U, H, T := y as real, u as real, half as real, top as real;
    if x < H {
      SideBelow(mode, negative, x, Y, U, k);
      n := 2 * c;
      ByValue(mode, negative, x, U / 2.0, n, Y);
    } else if x < T {
      SideInside(mode, negative, x, Y, U, k);
      n := if Lower(mode, negative, x, Y, U, k) then k else k + 1;
      ByValue(mode, negative, x, U, n, if Lower(mode, negative, x, Y, U, k) then Y else Y + U);
    } else {
      SideAbove(mode, negative, x, Y, U, k, c % 2 == 0);
      n := c;
      ByValue(mode, negative, x, 2.0 * U, n, T);
    }
  }

  lemma BetweenBounds(mode: Mode, x: real, y: real, u: real)
    requires Between(mode, x, y, u) && u > 0.0
    ensures y - u < x < y + 2.0 * u
  {
  }

  lemma OwnBetween(mode: Mode, x: real, y: real, u: real)
    requires y <= x < y + u
    ensures Between(mode, x, y, u)
  {
  }

  lemma RealStep(n: int, n': int, u: real)
    requires n < n' && u > 0.0
    ensures Units(n, u) + u <= Units(n', u) && (n + 2 <= n' ==> Units(n, u) + 2.0 * u <= Units(n', u))
  {
    var d := n' as real - n as real;
    RealMono(1.0, d, u);
    if n + 2 <= n' {
      RealMono(2.0, d, u);
    }
  }

  lemma RealMono(x: real, y: real, u: real)
    requires x <= y && u > 0.0
    ensures x * u <= y * u
  {
  }

  /** A real has one rounding. */
  lemma RealUnique(mode: Mode, negative: bool, x: real, u: real, n: int, n': int)
    requires mode != RNDF && u > 0.0 && RealRounding(mode, negative, x, u, n) && RealRounding(mode, negative, x, u, n')
    ensures n == n'
  {
    if n < n' {
      NotTwo(mode, negative, x, u, n, n');
    } else if n' < n {
      NotTwo(mode, negative, x, u, n', n);
    }
  }

  lemma NotTwo(mode: Mode, negative: bool, x: real, u: real, n: int, n': int)
    requires mode != RNDF && u > 0.0 && n < n' && RealRounding(mode, negative, x, u, n)
    ensures !RealRounding(mode, negative, x, u, n')
  {
    hide RealRoundsTo, Units;
    RealStep(n, n', u);
    NotTwoValues(mode, negative, x, u, Units(n, u), Units(n', u), n % 2 == 0, n' % 2 == 0);
  }

  lemma NotTwoValues(mode: Mode, negative: bool, x: real, u: real, v: real, v': real, even: bool, even': bool)
    requires mode != RNDF && u > 0.0 && v + u <= v' && (even == even' ==> v + 2.0 * u <= v')
    requires RealRoundsTo(mode, negative, x, u, v, even)
    ensures !RealRoundsTo(mode, negative, x, u, v', even')
  {
  }

  /** Two numbers round alike exactly when they are on the same side. */
  lemma AlikeIsSameSide(mode: Mode, negative: bool, x: real, a: int, k: nat, y: int, u: nat, c: nat, half: int, top: int)
    requires mode != RNDF && Placed(a, k, y, u, c, half, top) && Between(mode, x, y as real, u as real)
    ensures RoundAlike(mode, negative, a as real, x, u as real, half as real, top as real)
            <==> (Lower(mode, negative, a as real, y as real, u as real, k) <==> Lower(mode, negative, x, y as real, u as real, k))
  {
    hide RealRounding, Lower, Placed, Between, Units;
    UnitBounds(a, k, y, u, c, half, top);
    OwnBetween(mode, a as real, y as real, u as real);
    var A, U, H, T := a as real, u as real, half as real, top as real;
    var n := Side(mode, negative, A, a, k, y, u, c, half, top);
    var n' := Side(mode, negative, x, a, k, y, u, c, half, top);
    var v := UnitAt(x, U, H, T);
    assert UnitAt(A, U, H, T) == U && v > 0.0;
    if Units(n, U) == Units(n', v) {
      assert RoundAlike(mode, negative, A, x, U, H, T);
    }
    if RoundAlike(mode, negative, A, x, U, H, T) {
      var p, q :| RealRounding(mode, negative, A, U, p) && RealRounding(mode, negative, x, v, q) && Units(p, U) == Units(q, v);
      RealUnique(mode, negative, A, U, n, p);
      RealUnique(mode, negative, x, v, n', q);
    }
  }

  // Error bounds.

  /** How far the fraction f of a is from a place where rounding changes. */
  ghost predicate ClearOf(mode: Mode, f: int, u: int, d: int) {
    if ToNearest(mode) then 2 * (f + d) <= u || 2 * (f - d) >= u else d <= f <= u - d
  }

  /** What the function finds out, which is a little less at one end. */
  ghost predicate Passes(mode: Mode, f: int, u: int, d: int) {
    if ToNearest(mode) then 2 * (f + d) < u || 2 * (f - d) >= u else d <= f < u - d
  }

  lemma ClearIsBetween(mode: Mode, a: int, y: int, u: int, d: int, x: real)
    requires 0 < 4 * d <= u && y <= a < y + u && ClearOf(mode, a - y, u, d) && (a - d) as real <= x <= (a + d) as real
    ensures Between(mode, x, y as real, u as real)
  {
  }

  /** Closer than d, everything rounds like a. */
  lemma ClearRoundsAlike(mode: Mode, negative: bool, a: int, k: nat, y: int, u: nat, d: int, c: nat, half: int, top: int, x: real)
    requires mode != RNDF && 0 < 4 * d <= u && Placed(a, k, y, u, c, half, top)
    requires ClearOf(mode, a - y, u, d) && (a - d) as real < x < (a + d) as real
    ensures RoundAlike(mode, negative, a as real, x, u as real, half as real, top as real)
  {
    hide RoundAlike, Placed;
    SamePlace(a, k, y, u, c, half, top);
    ClearIsBetween(mode, a, y, u, d, x);
    SameSideInside(mode, negative, a, y, u, d, x, k);
    AlikeIsSameSide(mode, negative, x, a, k, y, u, c, half, top);
  }

  lemma SamePlace(a: int, k: nat, y: int, u: nat, c: nat, half: int, top: int)
    requires Placed(a, k, y, u, c, half, top)
    ensures u > 0 && y <= a < y + u
  {
  }

  lemma SameSideInside(mode: Mode, negative: bool, a: int, y: int, u: int, d: int, x: real, k: int)
    requires mode != RNDF && 0 < 4 * d <= u && y <= a < y + u && ClearOf(mode, a - y, u, d) && (a - d) as real < x < (a + d) as real
    ensures Lower(mode, negative, a as real, y as real, u as real, k) <==> Lower(mode, negative, x, y as real, u as real, k)
  {
  }

  /** Which fractions f of the k-th unit are safe even when the error may be d. */
  ghost predicate ClosedHolds(mode: Mode, negative: bool, f: int, u: int, d: int, k: int) {
    if mode == RNDN then !(2 * (f + d) == u && k % 2 == 1) && !(2 * (f - d) == u && k % 2 == 0)
    else if mode == RNDNA then 2 * (f + d) != u
    else if Away(mode, negative) then f != d
    else f + d != u
  }

  /** Every real x with |x - a| <= d rounds like a. */
  ghost predicate RoundsLikeWithin(mode: Mode, negative: bool, a: real, d: real, u: real, half: real, top: real) {
    forall x :: a - d <= x <= a + d ==> RoundAlike(mode, negative, a, x, u, half, top)
  }

  lemma SameSideEnds(mode: Mode, negative: bool, a: int, y: int, u: int, d: int, k: int)
    requires mode != RNDF && 0 < 4 * d <= u && y <= a < y + u && ClearOf(mode, a - y, u, d)
    ensures var A, D, Y, U := a as real, d as real, y as real, u as real;
            ClosedHolds(mode, negative, a - y, u, d, k)
            <==> (Lower(mode, negative, A, Y, U, k) <==> Lower(mode, negative, A - D, Y, U, k))
                 && (Lower(mode, negative, A, Y, U, k) <==> Lower(mode, negative, A + D, Y, U, k))
  {
  }

  /** With an error bound that may be reached, that is exactly the condition. */
  lemma ClosedBound(mode: Mode, negative: bool, a: int, k: nat, y: int, u: nat, d: int, c: nat, half: int, top: int)
    requires mode != RNDF && 0 < 4 * d <= u && Placed(a, k, y, u, c, half, top) && ClearOf(mode, a - y, u, d)
    ensures RoundsLikeWithin(mode, negative, a as real, d as real, u as real, half as real, top as real)
            <==> ClosedHolds(mode, negative, a - y, u, d, k)
  {
    hide RoundAlike, Placed, ClearOf, ClosedHolds, Lower, Between;
    SamePlace(a, k, y, u, c, half, top);
    var A, D, U, H, T := a as real, d as real, u as real, half as real, top as real;
    SameSideEnds(mode, negative, a, y, u, d, k);
    ClearIsBetween(mode, a, y, u, d, A - D);
    ClearIsBetween(mode, a, y, u, d, A + D);
    AlikeIsSameSide(mode, negative, A - D, a, k, y, u, c, half, top);
    AlikeIsSameSide(mode, negative, A + D, a, k, y, u, c, half, top);
    forall x | A - D < x < A + D ensures RoundAlike(mode, negative, A, x, U, H, T) {
      ClearRoundsAlike(mode, negative, a, k, y, u, d, c, half, top, x);
    }
  }

  // The bits that the function looks at.

  /** m * 2^c */
  function Scaled(m: nat, c: nat): nat {
    MulNonNeg(m, Pow2(c));
    m * Pow2(c)
  }

  lemma ScaledBit(m: nat, c: nat, pos: int)
    requires pos + c >= 0
    ensures Bit(Scaled(m, c), pos + c) == if pos >= 0 then Bit(m, pos) else 0
  {
    hide Pow2;
    var p := Pow2(c);
    if pos >= 0 {
      Pow2Add(c, pos);
      assert c + pos == pos + c;
      DivTwice(m * p, p, Pow2(pos));
      DivModUnique(m * p, p, m, 0);
    } else {
      Pow2Add(pos + c, -pos);
      Doubled(-pos);
      var h, w := Pow2(-pos - 1), Pow2(pos + c);
      MulAssoc(m, w, 2 * h);
      MulAssoc(w, m, 2 * h);
      MulAssoc(2, m, h);
      assert m * p == (2 * (m * h)) * w;
      DivModUnique(m * p, w, 2 * (m * h), 0);
    }
  }

  /** The first j bits of the fraction of a below 2^q. */
  ghost function Leading(a: nat, q: nat, j: nat): nat
    requires j <= q
  {
    Div(Rem(a, Pow2(q)), Pow2(q - j))
  }

  /** One bit more. */
  lemma LeadingNext(a: nat, q: nat, j: nat)
    requires j < q
    ensures Leading(a, q, j + 1) == 2 * Leading(a, q, j) + Bit(a, q - j - 1)
  {
    hide Pow2;
    var s := q - j - 1;
    var u, w, f, k := Pow2(q), Pow2(s), a % Pow2(q), a / Pow2(q);
    Euclid(a, u);
    Pow2Add(s, q - s);
    Doubled(q - s);
    Doubled(s + 1);
    DivTwice(f, w, 2);
    FractionBit(a, f, k, w, Pow2(q - s - 1), u);
    assert q - j == s + 1 && q - (j + 1) == s;
  }

  lemma FractionBit(a: nat, f: nat, k: nat, w: nat, h: nat, u: nat)
    requires w > 0 && u == w * (2 * h) && a == k * u + f
    ensures a / w % 2 == f / w % 2
  {
    MoveFactor(k, w, h);
    SameParity(a, f, w, k * h, k * u);
  }

  lemma MoveFactor(k: nat, w: nat, h: nat)
    ensures k * (w * (2 * h)) == w * (2 * (k * h))
  {
    MulAssoc(k, w, 2 * h);
    MulAssoc(w, k, 2 * h);
    MulAssoc(2, k, h);
  }

  lemma SameParity(a: nat, f: nat, w: nat, y: nat, z: nat)
    requires w > 0 && z == w * (2 * y) && a == z + f
    ensures a / w % 2 == f / w % 2
  {
    AddMultiple(f, w, 2 * y);
  }

  /** What the leading bits are as long as they follow the pattern that starts with b. */
  ghost function Pattern(mode: Mode, b: nat, j: nat): int
    requires j >= 1
  {
    if ToNearest(mode) then Pow2(j - 1) - 1 + b else b * (Pow2(j) - 1)
  }

  /** A bit that breaks the pattern keeps the fraction clear of the places where rounding changes. */
  lemma BreakIsClear(mode: Mode, b: nat, j: nat, lead: nat, f: nat, s: nat, u: nat, d: nat, p: nat)
    requires b <= 1 && j >= 1 && p == Pow2(j) && u == 2 * p * s && 0 < d <= s
    requires lead == 2 * Pattern(mode, b, j) + (if ToNearest(mode) then b else 1 - b) && lead * s <= f < lead * s + s
    ensures Passes(mode, f, u, d)
  {
    var h := Pow2(j - 1);
    assert p == 2 * h;
    MulAssoc(2, p, s);
    var ps := p * s;
    MulMono(2, p, s);
    if ToNearest(mode) {
      assert lead == p - 2 + 3 * b;
      Distribute(p, 3 * b - 2, s);
      assert (p + (3 * b - 2)) * s == ps + (3 * b - 2) * s;
    } else if b == 0 {
      assert lead == 1;
    } else {
      assert lead == 2 * p - 2;
      Distribute(2 * p, 2, s);
    }
  }

  /** The pattern all the way down keeps it from passing. */
  lemma PatternFails(mode: Mode, b: nat, n: nat, lead: nat, f: nat, u: nat, d: nat)
    requires b <= 1 && n >= 1 && u == Pow2(n) * d && d > 0 && lead == Pattern(mode, b, n) && lead * d <= f < lead * d + d
    ensures !Passes(mode, f, u, d)
  {
    var h := Pow2(n - 1);
    MulAssoc(2, h, d);
    if ToNearest(mode) {
      Distribute(h, 1 - b, d);
      assert lead == h - (1 - b);
    } else if b == 0 {
      assert lead == 0;
    } else {
      Distribute(2 * h, 1, d);
    }
  }

  /** Bit t of the number, counted from 1 at the top. */
  function BitAt(tab: seq<Limb>, t: int): (b: nat)
    ensures b <= 1
  {
    GetBit(tab, |tab|, |tab| * LIMB_BITS - t)
  }

  /** The bit that the bits after the first one below the precision are compared with. */
  function Expected(tab: seq<Limb>, mode: Mode, prec: int): (b: nat)
    ensures b <= 1
  {
    if ToNearest(mode) then 1 - BitAt(tab, prec + 1) else BitAt(tab, prec + 1)
  }

  /** One of the bits prec + 2 to k breaks the pattern set by bit prec + 1. */
  ghost predicate Broken(tab: seq<Limb>, mode: Mode, prec: int, k: int) {
    exists t :: prec + 2 <= t <= k && BitAt(tab, t) != Expected(tab, mode, prec)
  }

  /** bf_can_round on the limbs of a number. */
  method CanRound(tab: seq<Limb>, finite: bool, isZero: bool, prec: int, mode: Mode, k: int) returns (ok: bool)
    requires finite && !isZero ==> |tab| > 0 && BPow(|tab|) <= 2 * Seg(tab, 0, |tab|)
    requires prec >= 1
    ensures ok <==> finite && if mode == RNDF then k >= prec + 1 else !isZero && k >= prec + 2 && Broken(tab, mode, prec, k)
    ensures ok && mode != RNDF ==> AllRoundAlike(mode, Seg(tab, 0, |tab|), LIMB_BITS * |tab|, prec, k)
  {
    hide Seg, BPow, AllRoundAlike, GetBit;
    if !finite {
      return false;
    }
    if mode == RNDF {
      return k >= prec + 1;
    }
    if isZero || k < prec + 2 {
      return false;
    }
    var len, isNear := |tab|, ToNearest(mode);
    var bitPos, n := len * LIMB_BITS - 1 - prec, k - prec;
    var first := GetBit(tab, len, bitPos);
    bitPos, n := bitPos - 1, n - 1;
    var bit := if isNear then 1 - first else first;
    while n != 0
      invariant 0 <= n <= k - prec - 1 && bitPos == len * LIMB_BITS - (k + 1 - n) && bit == Expected(tab, mode, prec)
      invariant forall t :: prec + 2 <= t < k + 1 - n ==> BitAt(tab, t) == bit
      decreases n
    {
      assert GetBit(tab, len, bitPos) == BitAt(tab, k + 1 - n);
      if GetBit(tab, len, bitPos) != bit {
        YesIsSound(tab, mode, prec, k);
        return true;
      }
      bitPos, n := bitPos - 1, n - 1;
    }
    return false;
  }

  // What the answer means.

  /** The number, scaled so that the error bound is whole, with its unit, the bound and its binade. */
  datatype Scene = Scene(a: nat, e: nat, prec: nat, k: nat) {
    ghost predicate Valid() {
      1 <= prec && prec + 2 <= k <= e && Pow2(e - 1) <= a < Pow2(e)
    }

    ghost function Unit(): (u: nat)
      requires Valid()
      ensures u > 0
    {
      Pow2(e - prec)
    }

    ghost function Error(): (d: nat)
      requires Valid()
      ensures d > 0
    {
      Pow2(e - k)
    }

    ghost function Fraction(): nat
      requires Valid()
    {
      Rem(a, Unit())
    }

    ghost function Count(): nat
      requires Valid()
    {
      Div(a, Unit())
    }
  }

  ghost function SceneOf(m: nat, bits: nat, prec: nat, k: nat): Scene {
    Scene(Scaled(m, Spare(bits, k)), bits + Spare(bits, k), prec, k)
  }

  lemma SceneValid(tab: seq<Limb>, prec: nat, k: nat)
    requires |tab| > 0 && BPow(|tab|) <= 2 * Seg(tab, 0, |tab|) && 1 <= prec && prec + 2 <= k
    ensures SceneOf(Seg(tab, 0, |tab|), LIMB_BITS * |tab|, prec, k).Valid()
  {
    hide Pow2, BPow, Seg, Scaled;
    var m, bits := Seg(tab, 0, |tab|), LIMB_BITS * |tab|;
    BPowIsPow2(|tab|);
    SegBound(tab, 0, |tab|);
    InBinade(m, bits, Spare(bits, k));
  }

  /** As long as the bits follow the pattern, so do the leading bits of the fraction. */
  lemma {:induction false} FollowsPattern(tab: seq<Limb>, mode: Mode, prec: nat, k: nat, j: nat)
    requires 1 <= prec && prec + 2 <= k && 1 <= j <= k - prec
    requires forall t :: prec + 2 <= t < prec + 1 + j ==> BitAt(tab, t) == Expected(tab, mode, prec)
    ensures var s := SceneOf(Seg(tab, 0, |tab|), LIMB_BITS * |tab|, prec, k);
            s.e >= k && Leading(s.a, s.e - prec, j) == Pattern(mode, BitAt(tab, prec + 1), j)
    decreases j
  {
    hide Seg, Pow2, Leading, Pattern, Scaled, GetBit, Bit;
    var m, bits := Seg(tab, 0, |tab|), LIMB_BITS * |tab|;
    var c, s := Spare(bits, k), SceneOf(m, bits, prec, k);
    var q := s.e - prec;
    if j == 1 {
      BitRead(tab, |tab|, bits, c, bits - 1 - prec, m);
      PatternStarts(mode, s.a, q, BitAt(tab, prec + 1));
    } else {
      FollowsPattern(tab, mode, prec, k, j - 1);
      LeadingNext(s.a, q, j - 1);
      BitRead(tab, |tab|, bits, c, bits - (prec + j), m);
      assert BitAt(tab, prec + j) == Expected(tab, mode, prec);
      PatternGoesOn(mode, BitAt(tab, prec + 1), j - 1, Expected(tab, mode, prec));
    }
  }

  lemma {:induction false} FirstBreak(tab: seq<Limb>, mode: Mode, prec: nat, t: nat) returns (t': nat)
    requires prec + 2 <= t && BitAt(tab, t) != Expected(tab, mode, prec)
    ensures prec + 2 <= t' <= t && BitAt(tab, t') != Expected(tab, mode, prec)
    ensures forall x :: prec + 2 <= x < t' ==> BitAt(tab, x) == Expected(tab, mode, prec)
    decreases t
  {
    hide BitAt, Expected;
    if x :| prec + 2 <= x < t && BitAt(tab, x) != Expected(tab, mode, prec) {
      t' := FirstBreak(tab, mode, prec, x);
    } else {
      t' := t;
    }
  }

  /** The answer in terms of the fraction below the unit. */
  lemma BrokenIsPassing(tab: seq<Limb>, mode: Mode, prec: nat, k: nat)
    requires |tab| > 0 && BPow(|tab|) <= 2 * Seg(tab, 0, |tab|) && 1 <= prec && prec + 2 <= k
    ensures var s := SceneOf(Seg(tab, 0, |tab|), LIMB_BITS * |tab|, prec, k);
            s.Valid() && (Broken(tab, mode, prec, k) <==> Passes(mode, s.Fraction(), s.Unit(), s.Error()))
  {
    hide Pow2, BPow, Seg, Leading, Pattern, Passes, Expected, BitAt, Scaled, Rem;
    var s := SceneOf(Seg(tab, 0, |tab|), LIMB_BITS * |tab|, prec, k);
    SceneValid(tab, prec, k);
    if Broken(tab, mode, prec, k) {
      var t :| prec + 2 <= t <= k && BitAt(tab, t) != Expected(tab, mode, prec);
      t := FirstBreak(tab, mode, prec, t);
      BreakPasses(tab, mode, prec, k, t);
    } else {
      FollowsPattern(tab, mode, prec, k, k - prec);
      NoBreakFails(mode, s, BitAt(tab, prec + 1));
    }
  }

  lemma BreakPasses(tab: seq<Limb>, mode: Mode, prec: nat, k: nat, t: nat)
    requires 1 <= prec && prec + 2 <= t <= k && BitAt(tab, t) != Expected(tab, mode, prec)
    requires forall x :: prec + 2 <= x < t ==> BitAt(tab, x) == Expected(tab, mode, prec)
    requires SceneOf(Seg(tab, 0, |tab|), LIMB_BITS * |tab|, prec, k).Valid()
    ensures var s := SceneOf(Seg(tab, 0, |tab|), LIMB_BITS * |tab|, prec, k); Passes(mode, s.Fraction(), s.Unit(), s.Error())
  {
    hide Pow2, Seg, Leading, Pattern, Passes, Scaled, GetBit, Bit;
    var m, bits := Seg(tab, 0, |tab|), LIMB_BITS * |tab|;
    var s, j := SceneOf(m, bits, prec, k), t - prec - 1;
    FollowsPattern(tab, mode, prec, k, j);
    LeadingNext(s.a, s.e - prec, j);
    BitRead(tab, |tab|, bits, Spare(bits, k), bits - t, m);
    FoundClear(mode, s.a, s.e - prec, BitAt(tab, prec + 1), j, BitAt(tab, t), k - prec);
    assert s.e - prec - (k - prec) == s.e - k;
  }

  lemma NoBreakFails(mode: Mode, s: Scene, first: nat)
    requires s.Valid() && first <= 1 && Leading(s.a, s.e - s.prec, s.k - s.prec) == Pattern(mode, first, s.k - s.prec)
    ensures !Passes(mode, s.Fraction(), s.Unit(), s.Error())
  {
    hide Pow2, Pattern, Passes;
    var n, q := s.k - s.prec, s.e - s.prec;
    Pow2Add(n, q - n);
    assert q - n == s.e - s.k;
    assert Rem(s.Fraction(), s.Error()) < s.Error();
    PatternFails(mode, first, n, Leading(s.a, q, n), s.Fraction(), s.Unit(), s.Error());
  }

  lemma PassingIsClear(mode: Mode, f: int, u: int, d: int)
    requires Passes(mode, f, u, d)
    ensures ClearOf(mode, f, u, d)
  {
  }

  lemma SceneUnits(s: Scene)
    requires s.Valid()
    ensures 0 < 4 * s.Error() <= s.Unit()
    ensures Placed(s.a, s.Count(), s.Count() * s.Unit(), s.Unit(), Pow2(s.prec - 1), Pow2(s.e - 1), Pow2(s.e))
    ensures s.a - s.Count() * s.Unit() == s.Fraction()
  {
    hide Pow2;
    QuarterUnit(s.e - s.prec, s.e - s.k);
    UnitsOfBinade(s.e, s.prec);
    IsPlaced(s.a, s.Unit(), Pow2(s.prec - 1), s.Count(), s.Fraction(), Pow2(s.e - 1), Pow2(s.e));
  }

  /** When the answer is yes, every real that is closer than the bound rounds like the number. */
  lemma YesIsSound(tab: seq<Limb>, mode: Mode, prec: nat, k: nat)
    requires |tab| > 0 && BPow(|tab|) <= 2 * Seg(tab, 0, |tab|) && 1 <= prec && prec + 2 <= k
    requires mode != RNDF && Broken(tab, mode, prec, k)
    ensures AllRoundAlike(mode, Seg(tab, 0, |tab|), LIMB_BITS * |tab|, prec, k)
  {
    hide Pow2, BPow, Seg, Passes, Broken, Scaled, ClearOf, RoundAlike, Placed, Div, Rem;
    var m, bits := Seg(tab, 0, |tab|), LIMB_BITS * |tab|;
    var s := SceneOf(m, bits, prec, k);
    BrokenIsPassing(tab, mode, prec, k);
    PassingIsClear(mode, s.Fraction(), s.Unit(), s.Error());
    SceneUnits(s);
    var A, D, U, H, T := s.a as real, s.Error() as real, s.Unit() as real, Pow2(s.e - 1) as real, Pow2(s.e) as real;
    forall negative, x: real | A - D < x < A + D ensures RoundAlike(mode, negative, A, x, U, H, T) {
      ClearRoundsAlike(mode, negative, s.a, s.Count(), s.Count() * s.Unit(), s.Unit(), s.Error(), Pow2(prec - 1), Pow2(s.e - 1), Pow2(s.e), x);
    }
    assert RoundsLike(mode, A, D, U, H, T);
  }

  /** Every real within the bound, which may be reached, rounds like the number. */
  ghost predicate AllRoundAlikeWithin(mode: Mode, negative: bool, s: Scene)
    requires s.Valid()
  {
    RoundsLikeWithin(mode, negative, s.a as real, s.Error() as real, s.Unit() as real, Pow2(s.e - 1) as real, Pow2(s.e) as real)
  }

  /** When the answer is yes, the bound may even be reached, unless the number is exactly the bound above a multiple of the unit
      and rounds away from it, or exactly the bound above a tie that rounds the other way. */
  lemma YesWithin(tab: seq<Limb>, mode: Mode, negative: bool, prec: nat, k: nat)
    requires |tab| > 0 && BPow(|tab|) <= 2 * Seg(tab, 0, |tab|) && 1 <= prec && prec + 2 <= k
    requires mode != RNDF && Broken(tab, mode, prec, k)
    ensures var s := SceneOf(Seg(tab, 0, |tab|), LIMB_BITS * |tab|, prec, k);
            s.Valid() && (AllRoundAlikeWithin(mode, negative, s)
                          <==> !(if ToNearest(mode) then mode == RNDN && 2 * (s.Fraction() - s.Error()) == s.Unit() && s.Count() % 2 == 0
                                 else Away(mode, negative) && s.Fraction() == s.Error()))
  {
    hide Pow2, BPow, Seg, Broken, Scaled, RoundsLikeWithin, Placed, Div, Rem;
    var s := SceneOf(Seg(tab, 0, |tab|), LIMB_BITS * |tab|, prec, k);
    BrokenIsPassing(tab, mode, prec, k);
    PassingIsClear(mode, s.Fraction(), s.Unit(), s.Error());
    SceneUnits(s);
    ClosedBound(mode, negative, s.a, s.Count(), s.Count() * s.Unit(), s.Unit(), s.Error(), Pow2(prec - 1), Pow2(s.e - 1), Pow2(s.e));
  }

  /** How far the number is scaled up so that the error bound is a whole number. */
  function Spare(bits: nat, k: int): nat {
    if k > bits then k - bits else 0
  }

  /** Every real that is closer than d to a rounds like it, in both signs. */
  ghost predicate RoundsLike(mode: Mode, a: real, d: real, u: real, half: real, top: real) {
    forall negative, x :: a - d < x < a + d ==> RoundAlike(mode, negative, a, x, u, half, top)
  }

  /** Every real that is closer than 2^-k to the number m / 2^bits rounds like it to prec bits; all scaled by 2^(bits + c). */
  ghost predicate AllRoundAlike(mode: Mode, m: nat, bits: nat, prec: nat, k: nat)
    requires prec + 2 <= k
  {
    var c := Spare(bits, k);
    var e := bits + c;
    RoundsLike(mode, (Scaled(m, c)) as real, Pow2(e - k) as real, Pow2(e - prec) as real, Pow2(e - 1) as real, Pow2(e) as real)
  }

  lemma BitRead(tab: seq<Limb>, len: nat, bits: nat, c: nat, pos: int, m: nat)
    requires len <= |tab| && m == Seg(tab, 0, len) && pos + c >= 0
    ensures GetBit(tab, len, pos) == Bit(Scaled(m, c), pos + c)
  {
    hide Seg, Pow2, Bit, Scaled;
    ScaledBit(m, c, pos);
    if pos >= 0 {
      GetBitIsBit(tab, len, pos);
    }
  }

  lemma PatternStarts(mode: Mode, a: nat, q: nat, first: nat)
    requires q >= 1 && first == Bit(a, q - 1)
    ensures Leading(a, q, 1) == Pattern(mode, first, 1)
  {
    LeadingNext(a, q, 0);
    Euclid(a, Pow2(q));
    DivModUnique(a % Pow2(q), Pow2(q), 0, a % Pow2(q));
    assert Leading(a, q, 0) == 0;
    assert Pow2(0) == 1 && Pow2(1) == 2;
  }

  lemma PatternGoesOn(mode: Mode, first: nat, j: nat, bit: nat)
    requires j >= 1 && first <= 1 && bit == if ToNearest(mode) then 1 - first else first
    ensures Pattern(mode, first, j + 1) == 2 * Pattern(mode, first, j) + bit
  {
    assert Pow2(j) == 2 * Pow2(j - 1) && Pow2(j + 1) == 2 * Pow2(j);
  }

  lemma IsPlaced(a: nat, u: nat, c: nat, k: nat, f: nat, half: nat, top: nat)
    requires u > 0 && a == k * u + f && f < u && half == c * u && top == 2 * c * u && half <= a < top
    ensures Placed(a, k, k * u, u, c, half, top)
  {
    Binade(a, u, c, k, k * u);
  }

  lemma Binade(a: nat, u: nat, c: nat, k: nat, y: int)
    requires y == k * u && y <= a < y + u && c * u <= a < 2 * c * u
    ensures c <= k < 2 * c
  {
    Distribute(k, 1, u);
    MulCancelLess(c, k + 1, u);
    MulCancelLess(k, 2 * c, u);
  }

  lemma UnitsOfBinade(e: nat, prec: nat)
    requires 1 <= prec <= e
    ensures Pow2(e - 1) == Pow2(prec - 1) * Pow2(e - prec) && Pow2(e) == 2 * Pow2(prec - 1) * Pow2(e - prec)
  {
    hide Pow2;
    Pow2Add(prec - 1, e - prec);
    assert prec - 1 + (e - prec) == e - 1;
    Doubled(e);
    MulAssoc(2, Pow2(prec - 1), Pow2(e - prec));
  }

  lemma FoundClear(mode: Mode, a: nat, q: nat, first: nat, j: nat, next: nat, n: nat)
    requires 1 <= j < n <= q && first <= 1 && next == (if ToNearest(mode) then first else 1 - first)
    requires Leading(a, q, j + 1) == 2 * Pattern(mode, first, j) + next
    ensures Passes(mode, Rem(a, Pow2(q)), Pow2(q), Pow2(q - n))
  {
    hide Pow2, Passes, Pattern;
    var u, s, p := Pow2(q), Pow2(q - j - 1), Pow2(j);
    Pow2Add(j + 1, q - j - 1);
    assert j + 1 + (q - j - 1) == q && q - (j + 1) == q - j - 1;
    Doubled(j + 1);
    Pow2Mono(q - n, q - j - 1);
    assert Rem(Rem(a, u), s) < s;
    BreakIsClear(mode, first, j, Leading(a, q, j + 1), Rem(a, u), s, u, Pow2(q - n), p);
  }

  lemma QuarterUnit(q: nat, i: nat)
    requires i + 2 <= q
    ensures 0 < 4 * Pow2(i) <= Pow2(q)
  {
    Pow2Mono(i + 2, q);
    assert Pow2(i + 2) == 2 * Pow2(i + 1) == 4 * Pow2(i);
  }

  lemma InBinade(m: nat, bits: nat, c: nat)
    requires 0 < bits + c && Pow2(bits) <= 2 * m && m < Pow2(bits)
    ensures Pow2(bits + c - 1) <= Scaled(m, c) < Pow2(bits + c)
  {
    hide Pow2;
    var w := Pow2(c);
    Doubled(bits + c);
    Pow2Add(bits, c);
    MulStrict(m, Pow2(bits), w);
    MulMono(Pow2(bits), 2 * m, w);
    MulAssoc(2, m, w);
  }

  /** The bound must be strict: for the number with the top bits 101, one bit of precision, rounding away and k = 3 the answer
      is yes, but a number at the distance of the bound rounds differently. */
  lemma StrictnessMatters(tab: seq<Limb>)
    requires tab == [5 * (B / 8)]
    ensures BPow(1) <= 2 * Seg(tab, 0, 1) && Broken(tab, RNDA, 1, 3)
    ensures var s := SceneOf(Seg(tab, 0, 1), LIMB_BITS, 1, 3); s.Valid() && !AllRoundAlikeWithin(RNDA, false, s)
  {
    hide Pow2, BPow, Seg, AllRoundAlikeWithin, Scaled;
    SegOne(tab, 0);
    BPowSucc(0);
    assert BPow(0) == 1 by { PowersOfZero(); }
    TopBits(tab);
    assert BitAt(tab, 3) != Expected(tab, RNDA, 1);
    YesWithin(tab, RNDA, false, 1, 3);
    var s := SceneOf(Seg(tab, 0, 1), LIMB_BITS, 1, 3);
    ExampleFraction(s);
  }

  lemma EighthOfBase()
    ensures Pow2(LIMB_BITS - 3) == B / 8 && Pow2(LIMB_BITS - 2) == B / 4 && Pow2(LIMB_BITS - 1) == B / 2
  {
    hide Pow2;
    BaseIsPow2();
    Doubled(LIMB_BITS);
    Doubled(LIMB_BITS - 1);
    Doubled(LIMB_BITS - 2);
  }

  lemma TopBits(tab: seq<Limb>)
    requires tab == [5 * (B / 8)]
    ensures BitAt(tab, 2) == 0 && BitAt(tab, 3) == 1
  {
    hide Pow2, Seg, GetBit;
    SegOne(tab, 0);
    GetBitIsBit(tab, 1, LIMB_BITS - 2);
    GetBitIsBit(tab, 1, LIMB_BITS - 3);
    EighthOfBase();
    var e := B / 8;
    assert B == 8 * e;
    DivModUnique(5 * e, 2 * e, 2, e);
    DivModUnique(5 * e, e, 5, 0);
  }

  lemma ExampleFraction(s: Scene)
    requires s == Scene(Scaled(5 * (B / 8), 0), LIMB_BITS, 1, 3) && s.Valid()
    ensures s.Fraction() == s.Error()
  {
    hide Pow2;
    PowersOfZero();
    EighthOfBase();
    DivModUnique(5 * (B / 8), B / 2, 1, B / 8);
  }
}
