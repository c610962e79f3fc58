/** Rounding a magnitude to a multiple of a unit, in each of the modes of section 4.3 of IEEE 754-2019. */
module RoundMath {
  import opened Arith

  datatype Mode = RNDN | RNDZ | RNDD | RNDU | RNDNA | RNDA | RNDF

  /** n units are what the magnitude m of a number of the given sign rounds to. RNDF only promises one of the two neighbours. */
  ghost predicate IsRounding(mode: Mode, negative: bool, m: nat, u: nat, n: nat)
    requires u > 0
  {
    RoundsTo(mode, negative, m, u, n * u, n % 2 == 0)
  }

  /** The same, with the rounded magnitude x and whether its last bit is zero. */
  ghost predicate RoundsTo(mode: Mode, negative: bool, m: nat, u: nat, x: int, even: bool) {
    match mode
    case RNDZ => Truncates(m, u, x)
    case RNDA => Raises(m, u, x)
    case RNDD => if negative then Raises(m, u, x) else Truncates(m, u, x)
    case RNDU => if negative then Truncates(m, u, x) else Raises(m, u, x)
    case RNDN => Nearest(m, u, x) && (Tied(m, u, x) ==> even)
    case RNDNA => Nearest(m, u, x) && (Tied(m, u, x) ==> x > m)
    case RNDF => x < m + u && m < x + u
  }

  ghost predicate Truncates(m: nat, u: nat, x: int) {
    x <= m < x + u
  }

  ghost predicate Raises(m: nat, u: nat, x: int) {
    x < m + u && m <= x
  }

  ghost predicate Nearest(m: nat, u: nat, x: int) {
    2 * m <= 2 * x + u && 2 * x <= 2 * m + u
  }

  ghost predicate Tied(m: nat, u: nat, x: int) {
    2 * m == 2 * x + u || 2 * x == 2 * m + u
  }

  /** bf_get_rnd_add: whether to add one, from the first dropped bit, the bits below it, and the last bit kept. */
  predicate AddOne(mode: Mode, negative: bool, half: bool, sticky: bool, odd: bool) {
    match mode
    case RNDZ => false
    case RNDN => half && (sticky || odd)
    case RNDD => negative && (half || sticky)
    case RNDU => !negative && (half || sticky)
    case RNDA => half || sticky
    case RNDNA => half
    case RNDF => half
  }

  /** The mode that the code follows: for the faithful mode, to nearest with ties away from zero. */
  function Settled(mode: Mode): (s: Mode)
    ensures s != RNDF
  {
    if mode == RNDF then RNDNA else mode
  }

  /** That is one of the two neighbours, as the faithful mode promises. */
  lemma SettledIsFaithful(negative: bool, m: nat, u: nat, n: nat)
    requires u > 0 && IsRounding(Settled(RNDF), negative, m, u, n)
    ensures IsRounding(RNDF, negative, m, u, n)
  {
  }

  function One(b: bool): nat {
    if b then 1 else 0
  }

  /** The decision is right: m is k units and f, and the unit is twice h. */
  lemma AddOneRounds(mode: Mode, negative: bool, m: nat, k: nat, f: nat, h: nat)
    requires h > 0 && m == k * (2 * h) + f && f < 2 * h
    ensures IsRounding(mode, negative, m, 2 * h, k + One(AddOne(mode, negative, f >= h, f % h != 0, k % 2 == 1)))
  {
    var u := 2 * h;
    Distribute(k, 1, u);
    Below(f, h);
  }

  lemma Below(f: nat, h: nat)
    requires h > 0 && f < 2 * h
    ensures f % h == if f >= h then f - h else f
  {
    if f >= h {
      DivModUnique(f, h, 1, f - h);
    } else {
      DivModUnique(f, h, 0, f);
    }
  }

  /** Nothing is dropped: the number stays. */
  lemma ExactRounds(mode: Mode, negative: bool, m: nat, u: nat, k: nat)
    requires u > 0 && m == k * u
    ensures IsRounding(mode, negative, m, u, k)
  {
  }

  /** Each mode but the faithful one has one answer. */
  lemma RoundingUnique(mode: Mode, negative: bool, m: nat, u: nat, n: nat, n': nat)
    requires u > 0 && mode != RNDF && IsRounding(mode, negative, m, u, n) && IsRounding(mode, negative, m, u, n')
    ensures n == n'
  {
    hide RoundsTo;
    if n < n' {
      Neighbours(n, n', u);
      NotBoth(mode, negative, m, u, n * u, n % 2 == 0, n' * u, n' % 2 == 0);
    } else if n' < n {
      Neighbours(n', n, u);
      NotBoth(mode, negative, m, u, n' * u, n' % 2 == 0, n * u, n % 2 == 0);
    }
  }

  lemma Neighbours(n: nat, n': nat, u: nat)
    requires n < n'
    ensures n' * u >= n * u + u && ((n % 2 == 0) == (n' % 2 == 0) ==> n' * u >= n * u + 2 * u)
  {
    MulMono(n + 1, n', u);
    Distribute(n, 1, u);
    if n' > n + 1 {
      MulMono(n + 2, n', u);
      Distribute(n, 2, u);
    }
  }

  lemma NotBoth(mode: Mode, negative: bool, m: nat, u: nat, x: int, even: bool, y: int, even': bool)
    requires u > 0 && mode != RNDF && x + u <= y && (even == even' ==> x + 2 * u <= y)
    ensures !(RoundsTo(mode, negative, m, u, x, even) && RoundsTo(mode, negative, m, u, y, even'))
  {
  }

  /** The value is not changed exactly when it is a multiple of the unit. */
  lemma RoundingExact(mode: Mode, negative: bool, m: nat, u: nat, n: nat)
    requires u > 0 && IsRounding(mode, negative, m, u, n) && mode != RNDF
    ensures n * u == m <==> m % u == 0
  {
    if m % u == 0 {
      ExactRounds(mode, negative, m, u, m / u);
      RoundingUnique(mode, negative, m, u, n, m / u);
    } else if n * u == m {
      DivModUnique(m, u, n, 0);
    }
  }

  // Keeping only whether the dropped part of a number is zero.

  /** r with its last bit set when something was dropped below it. */
  function Sticky(r: nat, dropped: nat): nat {
    if dropped != 0 && r % 2 == 0 then r + 1 else r
  }

  /** Comparing with an even number gives the same for the exact number r * w + f and for the short one. */
  lemma StickyCompares(r: nat, f: nat, w: nat, e: nat)
    requires f < w && e % 2 == 0
    ensures r * w + f < e * w <==> Sticky(r, f) < e
    ensures r * w + f == e * w <==> Sticky(r, f) == e
  {
    if r < e {
      MulMono(r + 1, e, w);
      Distribute(r, 1, w);
    } else {
      MulMono(e, r, w);
      if r > e {
        MulStrict(e, r, w);
      }
    }
  }

  /** e stands for the boundary E in the short scale: both numbers lie on the same side of it. */
  ghost predicate SameSide(m: int, s: int, e: int, E: int) {
    (m < E <==> s < e) && (m == E <==> s == e)
  }

  lemma StickySide(r: nat, f: nat, w: nat, m: int, e: int, E: int)
    requires f < w && e % 2 == 0 && m == r * w + f && E == e * w
    ensures SameSide(m, Sticky(r, f), e, E)
  {
    MulNonNeg(r, w);
    if e >= 0 {
      StickyCompares(r, f, w, e);
    } else {
      MulMono(e, -1, w);
    }
  }

  lemma SidesDecide(mode: Mode, negative: bool, m: nat, s: nat, u: nat, U: nat, h: nat, H: nat, x: int, X: int, even: bool)
    requires u == 2 * h && U == 2 * H
    requires SameSide(m, s, x, X) && SameSide(m, s, x + u, X + U) && SameSide(m, s, x - u, X - U)
    requires SameSide(m, s, x + h, X + H) && SameSide(m, s, x - h, X - H)
    ensures RoundsTo(mode, negative, m, U, X, even) <==> RoundsTo(mode, negative, s, u, x, even)
  {
  }

  lemma SideAt(r: nat, f: nat, w: nat, m: int, x: int, X: int, d: int, D: int)
    requires f < w && x % 2 == 0 && d % 2 == 0 && m == r * w + f && X == x * w && D == d * w
    ensures SameSide(m, Sticky(r, f), x + d, X + D)
  {
    hide SameSide, Sticky;
    Distribute(x, d, w);
    StickySide(r, f, w, m, x + d, X + D);
  }

  /** A number cut short with a sticky last bit rounds like the exact one, at any unit of at least two bits more. */
  lemma StickyRounds(mode: Mode, negative: bool, r: nat, f: nat, w: nat, u: nat, n: nat)
    requires f < w && u > 0 && u % 4 == 0 && 0 < u * w
    ensures IsRounding(mode, negative, r * w + f, u * w, n) <==> IsRounding(mode, negative, Sticky(r, f), u, n)
  {
    hide RoundsTo, SameSide, Sticky;
    var h, x := u / 2, n * u;
    var m: nat, X: int, U: nat, H: nat := r * w + f, x * w, u * w, h * w;
    EvenMultiple(n, u);
    MulAssoc(n, u, w);
    Distribute(h, h, w);
    FiveSides(r, f, w, m, x, X, u, U, h, H);
    SidesDecide(mode, negative, m, Sticky(r, f), u, U, h, H, x, X, n % 2 == 0);
  }

  lemma FiveSides(r: nat, f: nat, w: nat, m: int, x: int, X: int, u: int, U: int, h: int, H: int)
    requires f < w && m == r * w + f && X == x * w && U == u * w && H == h * w && x % 2 == 0 && u % 2 == 0 && h % 2 == 0
    ensures var s := Sticky(r, f);
            && SameSide(m, s, x, X) && SameSide(m, s, x + u, X + U) && SameSide(m, s, x - u, X - U)
            && SameSide(m, s, x + h, X + H) && SameSide(m, s, x - h, X - H)
  {
    hide SameSide, Sticky;
    SideAt(r, f, w, m, x, X, 0, 0);
    SideAt(r, f, w, m, x, X, u, U);
    SideAt(r, f, w, m, x, X, -u, -U);
    SideAt(r, f, w, m, x, X, h, H);
    SideAt(r, f, w, m, x, X, -h, -H);
  }

  lemma EvenMultiple(n: nat, u: nat)
    requires u % 4 == 0
    ensures n * u % 2 == 0 && (u / 2) % 2 == 0 && u == 2 * (u / 2)
  {
    var v := u / 4;
    assert u == 4 * v;
    MulAssoc(n, 4, v);
    assert n * u == 4 * (n * v);
  }
}
