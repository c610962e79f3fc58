/** Rounding does not depend on how a number is written: with other scales, or cut short with a sticky bit. */
module BfScale {
  import opened Arith
  import opened Limbs
  import opened RoundMath
  import opened BfRound
  import opened BfNumber

  // Equal values.

  /** Equality seen from any lower exponent. */
  lemma SameAt(x: nat, i: int, y: nat, j: int, b: int)
    requires b <= i && b <= j
    ensures SameValue(x, i, y, j) <==> x * Pow2(i - b) == y * Pow2(j - b)
  {
    hide Pow2;
    if i >= j {
      LowerExponent(x, i, y, j, b);
    } else {
      LowerExponent(y, j, x, i, b);
    }
  }

  lemma LowerExponent(x: nat, i: int, y: nat, j: int, b: int)
    requires b <= j <= i
    ensures x * Pow2(i - j) == y <==> x * Pow2(i - b) == y * Pow2(j - b)
  {
    hide Pow2;
    var p, q := Pow2(i - j), Pow2(j - b);
    Pow2Add(i - j, j - b);
    assert i - j + (j - b) == i - b;
    MulAssoc(x, p, q);
    if x * (p * q) == y * q {
      CancelPower(x, p, q, y);
    }
  }

  lemma SameTrans(x: nat, i: int, y: nat, j: int, z: nat, k: int)
    requires SameValue(x, i, y, j) && SameValue(y, j, z, k)
    ensures SameValue(x, i, z, k)
  {
    hide SameValue, Pow2;
    var b := Least(i, Least(j, k));
    SameAt(x, i, y, j, b);
    SameAt(y, j, z, k, b);
    SameAt(x, i, z, k, b);
  }

  lemma SameSym(x: nat, i: int, y: nat, j: int)
    requires SameValue(x, i, y, j)
    ensures SameValue(y, j, x, i)
  {
    hide SameValue, Pow2;
    var b := Least(i, j);
    SameAt(x, i, y, j, b);
    SameAt(y, j, x, i, b);
  }

  lemma SameScaled(m: nat, i: int, s: nat)
    ensures SameValue(m * Pow2(s), i - s, m, i)
  {
    assert i - (i - s) == s;
    if s == 0 {
      assert Pow2(0) == 1;
    }
  }

  // Rounding at another scale.

  lemma ScaledSide(m: int, e: int, w: nat)
    requires w > 0
    ensures (m * w < e * w <==> m < e) && (m * w == e * w <==> m == e)
  {
    if m < e {
      MulStrict(m, e, w);
    } else if e < m {
      MulStrict(e, m, w);
    }
  }

  lemma ScaledDecides(mode: Mode, negative: bool, m: nat, M: nat, u: nat, U: nat, x: int, X: int, even: bool)
    requires (M < X <==> m < x) && (M == X <==> m == x)
    requires (M < X + U <==> m < x + u) && (X < M + U <==> x < m + u)
    requires (2 * M < 2 * X + U <==> 2 * m < 2 * x + u) && (2 * M == 2 * X + U <==> 2 * m == 2 * x + u)
    requires (2 * X < 2 * M + U <==> 2 * x < 2 * m + u) && (2 * X == 2 * M + U <==> 2 * x == 2 * m + u)
    ensures RoundsTo(mode, negative, M, U, X, even) <==> RoundsTo(mode, negative, m, u, x, even)
  {
  }

  lemma ScaleRounding(mode: Mode, negative: bool, m: nat, u: nat, n: nat, w: nat)
    requires w > 0 && u > 0 && u * w > 0
    ensures IsRounding(mode, negative, m * w, u * w, n) <==> IsRounding(mode, negative, m, u, n)
  {
    hide RoundsTo;
    var x := n * u;
    MulNonNeg(m, w);
    MulAssoc(n, u, w);
    ScaledSides(m, m * w, u, u * w, x, x * w, w);
    ScaledDecides(mode, negative, m, m * w, u, u * w, x, x * w, n % 2 == 0);
  }

  lemma ScaledSides(m: nat, M: nat, u: nat, U: nat, x: int, X: int, w: nat)
    requires w > 0 && M == m * w && U == u * w && X == x * w
    ensures (M < X <==> m < x) && (M == X <==> m == x)
    ensures (M < X + U <==> m < x + u) && (X < M + U <==> x < m + u)
    ensures (2 * M < 2 * X + U <==> 2 * m < 2 * x + u) && (2 * M == 2 * X + U <==> 2 * m == 2 * x + u)
    ensures (2 * X < 2 * M + U <==> 2 * x < 2 * m + u) && (2 * X == 2 * M + U <==> 2 * x == 2 * m + u)
  {
    ScaledSide(m, x, w);
    Combined(m, M, x, X, u, U, w);
    Combined(x, X, m, M, u, U, w);
  }

  lemma Combined(m: int, M: int, x: int, X: int, u: int, U: int, w: nat)
    requires w > 0 && M == m * w && U == u * w && X == x * w
    ensures (M < X + U <==> m < x + u)
    ensures (2 * M < 2 * X + U <==> 2 * m < 2 * x + u) && (2 * M == 2 * X + U <==> 2 * m == 2 * x + u)
  {
    Distribute(x, u, w);
    ScaledSide(m, x + u, w);
    MulAssoc(2, x, w);
    MulAssoc(2, m, w);
    Distribute(2 * x, u, w);
    ScaledSide(2 * m, 2 * x + u, w);
  }

  lemma ScaleRemainder(m: nat, u: nat, w: nat)
    requires w > 0 && u > 0 && u * w > 0
    ensures m * w % (u * w) == 0 <==> m % u == 0
  {
    Euclid(m, u);
    var q, r := m / u, m % u;
    Distribute(q * u, r, w);
    MulAssoc(q, u, w);
    MulStrict(r, u, w);
    MulNonNeg(r, w);
    DivModUnique(m * w, u * w, q, r * w);
    if r > 0 {
      MulPos(r, w);
    }
  }

  /** A number that is a multiple of the unit is not changed, in any mode. */
  lemma MultipleStays(mode: Mode, negative: bool, k: nat, u: nat, n: nat)
    requires u > 0 && IsRounding(mode, negative, k * u, u, n)
    ensures n == k
  {
    if n < k {
      Neighbours(n, k, u);
    } else if k < n {
      Neighbours(k, n, u);
    }
  }

  /** The number m * 2^i and the number (m * 2^s) * 2^(i-s) are rounded alike. */
  lemma RoundedScale(mode: Mode, negative: bool, m: nat, i: int, j: int, s: nat, m': nat, i': int)
    ensures Rounded(mode, negative, m * Pow2(s), i - s, j, m', i') <==> Rounded(mode, negative, m, i, j, m', i')
  {
    hide Pow2, IsRounding, SameValue;
    SameScaled(m, i, s);
    var w := Pow2(s);
    if j <= i - s {
      if SameValue(m', i', m * w, i - s) {
        SameTrans(m', i', m * w, i - s, m, i);
      }
      if SameValue(m', i', m, i) {
        SameSym(m * w, i - s, m, i);
        SameTrans(m', i', m, i, m * w, i - s);
      }
    } else if j <= i {
      FinerUnit(mode, negative, m, i, j, s, m', i');
    } else {
      var u := Pow2(j - i);
      Pow2Add(j - i, s);
      assert j - (i - s) == j - i + s;
      forall n: nat ensures IsRounding(mode, negative, m * w, u * w, n) <==> IsRounding(mode, negative, m, u, n) {
        ScaleRounding(mode, negative, m, u, n, w);
      }
    }
  }

  /** The unit lies among the zero bits that the scale has added. */
  lemma FinerUnit(mode: Mode, negative: bool, m: nat, i: int, j: int, s: nat, m': nat, i': int)
    requires i - s < j <= i
    ensures Rounded(mode, negative, m * Pow2(s), i - s, j, m', i') <==> SameValue(m', i', m, i)
  {
    hide Pow2, IsRounding, SameValue;
    var q := j - (i - s);
    var k, u := m * Pow2(s - q), Pow2(q);
    Pow2Add(s - q, q);
    MulAssoc(m, Pow2(s - q), u);
    SameScaled(m, i, s - q);
    assert i - (s - q) == j;
    if Rounded(mode, negative, m * Pow2(s), i - s, j, m', i') {
      var n :| IsRounding(mode, negative, m * Pow2(s), u, n) && SameValue(m', i', n, j);
      MultipleStays(mode, negative, k, u, n);
      SameTrans(m', i', k, j, m, i);
    }
    if SameValue(m', i', m, i) {
      ExactRounds(mode, negative, k * u, u, k);
      SameSym(k, j, m, i);
      SameTrans(m', i', m, i, k, j);
      assert IsRounding(mode, negative, m * Pow2(s), u, k) && SameValue(m', i', k, j);
    }
  }

  lemma CorrectScale(mode: Mode, negative: bool, m: nat, i: int, j: int, s: nat, m': nat, i': int, inexact: bool, already: bool)
    ensures Correct(mode, negative, m * Pow2(s), i - s, j, m', i', inexact, already)
            <==> Correct(mode, negative, m, i, j, m', i', inexact, already)
  {
    hide Pow2, Rounded;
    RoundedScale(Settled(mode), negative, m, i, j, s, m', i');
    var w := Pow2(s);
    if j > i {
      Pow2Add(j - i, s);
      assert j - (i - s) == j - i + s;
      ScaleRemainder(m, Pow2(j - i), w);
    } else if j > i - s {
      var q := j - (i - s);
      Pow2Add(s - q, q);
      MulAssoc(m, Pow2(s - q), Pow2(q));
      DivModUnique(m * w, Pow2(q), m * Pow2(s - q), 0);
    }
  }

  /** A number cut short by t bits, with its last bit set when they were not zero, is rounded like the whole number. */
  lemma CorrectSticky(mode: Mode, negative: bool, r: nat, f: nat, t: nat, i: int, j: int, m': nat, i': int, inexact: bool, already: bool)
    requires f < Pow2(t) && (f == 0 || j >= i + 2)
    ensures Correct(mode, negative, Sticky(r, f), i, j, m', i', inexact, already)
            <==> Correct(mode, negative, r * Pow2(t) + f, i - t, j, m', i', inexact, already)
  {
    hide Pow2, Rounded, IsRounding;
    if f == 0 {
      CorrectScale(mode, negative, r, i, j, t, m', i', inexact, already);
    } else {
      StickyRounded(Settled(mode), negative, r, f, t, i, j, m', i');
      StickyInexact(r, f, Pow2(t), j - i);
      Pow2Add(j - i, t);
      assert j - (i - t) == j - i + t;
    }
  }

  lemma StickyRounded(mode: Mode, negative: bool, r: nat, f: nat, t: nat, i: int, j: int, m': nat, i': int)
    requires 0 < f < Pow2(t) && j >= i + 2
    ensures Rounded(mode, negative, Sticky(r, f), i, j, m', i') <==> Rounded(mode, negative, r * Pow2(t) + f, i - t, j, m', i')
  {
    hide Pow2, IsRounding, SameValue, Sticky;
    var u, w := Pow2(j - i), Pow2(t);
    Pow2Add(j - i, t);
    assert j - (i - t) == j - i + t;
    Pow2Four(j - i);
    forall n: nat ensures IsRounding(mode, negative, r * w + f, u * w, n) <==> IsRounding(mode, negative, Sticky(r, f), u, n) {
      StickyRounds(mode, negative, r, f, w, u, n);
    }
  }

  lemma Pow2Four(q: nat)
    requires q >= 2
    ensures Pow2(q) % 4 == 0
  {
    assert Pow2(q) == 2 * Pow2(q - 1) == 4 * Pow2(q - 2);
  }

  lemma StickyInexact(r: nat, f: nat, w: nat, q: nat)
    requires 0 < f < w && q >= 2
    ensures Sticky(r, f) % Pow2(q) != 0 && Pow2(q) * w > 0 && (r * w + f) % (Pow2(q) * w) != 0
  {
    var u, x := Pow2(q), Sticky(r, f);
    MulPos(u, w);
    Pow2Four(q);
    if x % u == 0 {
      Euclid(x, u);
      EvenMultiple(x / u, u);
      assert false;
    }
    MulNonNeg(r, w);
    var e := r * w + f;
    if e % (u * w) == 0 {
      Euclid(e, u * w);
      MulAssoc(e / (u * w), u, w);
      DivModUnique(e, w, r, f);
      DivModUnique(e, w, e / (u * w) * u, 0);
      assert false;
    }
  }

  // Reaching a power of two.

  lemma PowerScale(m: nat, i: int, s: nat, e: int)
    ensures AtLeastPower(m * Pow2(s), i - s, e) <==> AtLeastPower(m, i, e)
  {
    hide Pow2;
    var w := Pow2(s);
    if i >= e {
      if m > 0 {
        MulMono(1, m, w);
        if i - s < e {
          Pow2Mono(e - (i - s), s);
        }
      }
    } else {
      Pow2Add(e - i, s);
      assert e - i + s == e - (i - s);
      ScaledSide(m, Pow2(e - i), w);
    }
  }

  lemma ReachesScale(mode: Mode, negative: bool, m: nat, i: int, j: int, s: nat, e: int)
    ensures Reaches(mode, negative, m * Pow2(s), i - s, j, e) <==> Reaches(mode, negative, m, i, j, e)
  {
    hide Pow2, IsRounding, AtLeastPower;
    var w, mode' := Pow2(s), Settled(mode);
    PowerScale(m, i, s, e);
    if j > e || j <= i - s {
    } else if j <= i {
      var q := j - (i - s);
      var k, u := m * Pow2(s - q), Pow2(q);
      Pow2Add(s - q, q);
      MulAssoc(m, Pow2(s - q), u);
      PowerScale(m, i, s - q, e);
      assert i - (s - q) == j;
      ExactRounds(mode', negative, k * u, u, k);
      forall n: nat | IsRounding(mode', negative, k * u, u, n) ensures n == k {
        MultipleStays(mode', negative, k, u, n);
      }
      UnitsAtLeast(k, j, e);
    } else {
      var u := Pow2(j - i);
      Pow2Add(j - i, s);
      assert j - (i - s) == j - i + s;
      forall n: nat ensures IsRounding(mode', negative, m * w, u * w, n) <==> IsRounding(mode', negative, m, u, n) {
        ScaleRounding(mode', negative, m, u, n, w);
      }
    }
  }

  lemma UnitsAtLeast(k: nat, j: int, e: int)
    requires j <= e
    ensures AtLeastPower(k, j, e) <==> k >= Pow2(e - j)
  {
    if j == e {
      PowersOfZero();
    }
  }

  lemma ReachesSticky(mode: Mode, negative: bool, r: nat, f: nat, t: nat, i: int, j: int, e: int)
    requires f < Pow2(t) && (f == 0 || j >= i + 2)
    ensures Reaches(mode, negative, Sticky(r, f), i, j, e) <==> Reaches(mode, negative, r * Pow2(t) + f, i - t, j, e)
  {
    hide Pow2, IsRounding, AtLeastPower, Sticky;
    if f == 0 {
      StickyNone(r);
      ReachesScale(mode, negative, r, i, j, t, e);
    } else {
      var u, w, mode' := Pow2(j - i), Pow2(t), Settled(mode);
      Pow2Add(j - i, t);
      assert j - (i - t) == j - i + t;
      Pow2Four(j - i);
      forall n: nat ensures IsRounding(mode', negative, r * w + f, u * w, n) <==> IsRounding(mode', negative, Sticky(r, f), u, n) {
        StickyRounds(mode', negative, r, f, w, u, n);
      }
      if j <= e {
        RoundsUpToSame(mode', negative, r * w + f, u * w, Sticky(r, f), u, Pow2(e - j));
      }
    }
  }

  lemma StickyNone(q: nat)
    ensures Sticky(q, 0) == q
  {
  }

  lemma ZeroOnly(i: int, m: nat, j: int)
    requires SameValue(0, i, m, j)
    ensures m == 0
  {
    if i < j && m > 0 {
      MulPos(m, Pow2(j - i));
    }
  }
}
