/** The integer mathematics of the Newton reciprocal and of division by it. */
module RecipMath {
  import opened Arith

  /** x approximates p2 / a from below, by less than two units. */
  ghost predicate Approximates(a: nat, x: nat, p2: nat) {
    a * x < p2 < a * (x + 2)
  }

  /** Where the Newton step starts: the approximation xh of the high half, seen against the whole of a. */
  ghost predicate NewtonStart(a: nat, xh: nat, t: nat, pnh: nat) {
    a * xh + t == pnh && 0 < t < 2 * a
  }

  /** The high half's approximation is good for the whole number, up to the test against B^(n + h). */
  lemma HighHalfSuffices(a: nat, ah: nat, al: nat, xh: nat, pl: nat, p2h: nat, pnh: nat)
    requires a == al + pl * ah && pnh == p2h * pl && 0 < pl && p2h < ah * (xh + 2)
    ensures pnh < a * (xh + 2)
  {
    MulStrict(p2h, ah * (xh + 2), pl);
    MulAssoc(pl, ah, xh + 2);
    MulMono(pl * ah, a, xh + 2);
  }

  /** The Newton step does not overshoot. */
  lemma NewtonBelow(a: nat, xh: nat, xl: nat, x: nat, t: nat, tm: nat, tl: nat, u: nat,
                    pl: nat, pk: nat, pnh: nat, p2n: nat)
    requires NewtonStart(a, xh, t, pnh) && t == tl + pl * tm && tm * xh == u + pk * xl
    requires x == xl + pl * xh && pnh * pl == p2n && pnh == pk * (pl * pl) && 0 < pl && 0 < pk
    ensures a * x < p2n
  {
    assert a * x == a * xl + a * (pl * xh) by { Distribute(xl, pl * xh, a); }
    assert a * (pl * xh) == p2n - t * pl by {
      MulAssoc(a, pl, xh);
      Distribute(pnh, t, pl);
    }
    assert a * xl < t * pl by { NewtonGap(a, xh, xl, t, tm, tl, u, pl, pk, pnh); }
  }

  lemma NewtonGap(a: nat, xh: nat, xl: nat, t: nat, tm: nat, tl: nat, u: nat, pl: nat, pk: nat, pnh: nat)
    requires NewtonStart(a, xh, t, pnh) && t == tl + pl * tm && tm * xh == u + pk * xl
    requires pnh == pk * (pl * pl) && 0 < pl && 0 < pk
    ensures a * xl < t * pl
  {
    if tm == 0 {
      assert pk * xl == 0;
      if xl > 0 { MulPos(pk, xl); }
      MulPos(t, pl);
    } else {
      var axh := a * xh;
      MulMono(pk * xl, tm * xh, a);
      MulAssoc(a, pk, xl);
      MulAssoc(a, tm, xh);
      MulStrict(axh, pnh, tm);
      assert tm * pnh == pk * (tm * (pl * pl)) by { MulAssoc(tm, pk, pl * pl); }
      MulCancelLess(a * xl, tm * (pl * pl), pk);
      MulAssoc(tm, pl, pl);
      MulMono(pl * tm, t, pl);
    }
  }

  /** The Newton step lands within two units. */
  lemma NewtonAbove(a: nat, xh: nat, xl: nat, x: nat, t: nat, tm: nat, tl: nat, u: nat,
                    pl: nat, pk: nat, pnh: nat, p2n: nat)
    requires NewtonStart(a, xh, t, pnh) && t == tl + pl * tm && tm * xh == u + pk * xl && u < pk
    requires x == xl + pl * xh && pnh * pl == p2n && pnh == pk * (pl * pl) && 0 < pl && 0 < pk
    requires (pk * pl) * tl + t * tm <= a * pk
    ensures p2n < a * (x + 2)
  {
    var p2h := pk * pl;
    assert a * (x + 2) == a * xl + a * (pl * xh) + 2 * a by {
      Distribute(xl + pl * xh, 2, a);
      Distribute(xl, pl * xh, a);
    }
    assert a * (pl * xh) == p2n - t * pl by {
      MulAssoc(a, pl, xh);
      Distribute(pnh, t, pl);
    }
    assert t * p2h == pk * (a * xl) + p2h * tl + t * tm + a * u by {
      NewtonExact(a, xh, xl, t, tm, tl, u, pl, pk, pnh);
    }
    assert a * u <= a * pk - a by { MulMono(u, pk - 1, a); Distribute(pk, 1, a); }
    assert (t * pl) * pk < (a * xl + 2 * a) * pk by {
      MulAssoc(t, pk, pl);
      Distribute(a * xl, 2 * a, pk);
      MulPos(1, a);
    }
    MulCancelLess(t * pl, a * xl + 2 * a, pk);
  }

  /** The exact value of what the step leaves out. */
  lemma NewtonExact(a: nat, xh: nat, xl: nat, t: nat, tm: nat, tl: nat, u: nat, pl: nat, pk: nat, pnh: nat)
    requires a * xh + t == pnh && t == tl + pl * tm && tm * xh == u + pk * xl && pnh == pk * (pl * pl)
    ensures t * (pk * pl) == pk * (a * xl) + (pk * pl) * tl + t * tm + a * u
  {
    var p2h := pk * pl;
    Distribute(tl, pl * tm, p2h);
    assert (pl * tm) * p2h == tm * pnh by { PowerShuffle(pl, tm, pk); }
    assert tm * pnh == tm * (a * xh) + tm * t by { Distribute(a * xh, t, tm); }
    assert tm * (a * xh) == a * (tm * xh) by { MulAssoc(tm, a, xh); }
    assert a * (tm * xh) == a * u + a * (pk * xl) by { Distribute(u, pk * xl, a); }
    MulAssoc(a, pk, xl);
  }

  lemma PowerShuffle(pl: int, tm: int, pk: int)
    ensures (pl * tm) * (pk * pl) == tm * (pk * (pl * pl))
  {
  }

  /** The truncations are small against a: c is the ratio B^(h - l) of the two halves. */
  lemma TruncationSmall(a: nat, t: nat, tm: nat, tl: nat, pl: nat, c: nat, pk: nat, pn: nat)
    requires 0 < pl && 8 <= c && pk == c * (c * pl) && pn == c * (pl * pl)
    requires pn <= 2 * a && a < pn && t < 2 * a && pl * tm <= t && tl < pl
    ensures (pk * pl) * tl + t * tm <= a * pk
  {
    assert 4 * ((pk * pl) * tl) <= a * pk by { FirstTruncation(a, tl, pl, c, pk, pn); }
    assert 2 * (t * tm) <= a * pk by { SecondTruncation(a, t, tm, pl, c, pk, pn); }
    MulNonNeg(a, pk);
  }

  lemma FirstTruncation(a: nat, tl: nat, pl: nat, c: nat, pk: nat, pn: nat)
    requires 0 < pl && 8 <= c && pn == c * (pl * pl) && pn <= 2 * a && tl < pl
    ensures 4 * ((pk * pl) * tl) <= a * pk
  {
    var sq := pl * pl;
    MulBounds(pl, pl, tl, pl);
    MulMono(8, c, sq);
    MulMono(4 * (pl * tl), a, pk);
    MulAssoc(pk, pl, tl);
    MulAssoc(4, pk, pl * tl);
  }

  lemma SecondTruncation(a: nat, t: nat, tm: nat, pl: nat, c: nat, pk: nat, pn: nat)
    requires 0 < pl && 8 <= c && pk == c * (c * pl) && pn == c * (pl * pl) && a < pn && t < 2 * a && pl * tm <= t
    ensures 2 * (t * tm) <= a * pk
  {
    MulBounds(t, 2 * a, pl * tm, 2 * pn);
    assert pl * (t * tm) <= 4 * (a * pn) by {
      MulAssoc(pl, t, tm);
      MulAssoc(2 * a, 2, pn);
    }
    var m := c * pl;
    assert a * pn == pl * (a * m) by { MulAssoc(c, pl, pl); MulAssoc(a, pl, m); }
    assert t * tm <= 4 * (a * m) by {
      if t * tm > 4 * (a * m) { MulStrict(4 * (a * m), t * tm, pl); MulAssoc(4, pl, a * m); }
    }
    MulNonNeg(a, m);
    MulMono(8, c, a * m);
    MulAssoc(a, c, m);
  }

  /** What division needs of the inverse; it also covers t == B^n with inverse B^n, which is exact. */
  ghost predicate RoughInverse(t: nat, inv: nat, p2: nat) {
    t * inv <= p2 < t * (inv + 2)
  }

  /** The product with the top limbs of a, scaled back to the inverse's own unit. */
  lemma ProductGap(t: nat, inv: nat, top: nat, q: nat, w: nat, e: nat, p2: nat)
    requires RoughInverse(t, inv, p2) && inv * top == w + e * q && w < e
    ensures t * (e * q) <= top * p2 <= t * (e * q + w + 2 * top)
  {
    assert t * (inv * top) == top * (t * inv) by { MulAssoc(t, inv, top); }
    assert t * ((inv + 2) * top) == top * (t * (inv + 2)) by { MulAssoc(t, inv + 2, top); }
    MulMono(t * inv, p2, top);
    MulMono(p2, t * (inv + 2), top);
    MulMono(e * q, inv * top, t);
    Distribute(inv, 2, top);
  }

  /** A divisor padded with zero limbs: the estimate is not above the quotient and less than four below it. */
  lemma PaddedQuotient(a: nat, top: nat, rest: nat, d: nat, t: nat, inv: nat, q: nat, w: nat,
                       e: nat, f: nat, g: nat, p2: nat)
    requires RoughInverse(t, inv, p2) && inv * top == w + e * q && w < e
    requires t == d * f && a == rest + g * top && rest < g && p2 == (e * f) * g
    requires top <= e && p2 <= t * e && 0 < f
    ensures q * d <= a < (q + 4) * d
  {
    var ef := e * f;
    ProductGap(t, inv, top, q, w, e, p2);
    MulPos(e, f);
    assert t * (e * q) == (q * d) * ef by { PaddedShuffle(d, f, e, q); }
    assert top * p2 == (g * top) * ef by { MulAssoc(top, ef, g); MulAssoc(g, top, ef); }
    if q * d > g * top { MulStrict(g * top, q * d, ef); }
    assert a * ef < top * p2 + p2 by {
      MulMono(a + 1, g * top + g, ef);
      Distribute(a, 1, ef); Distribute(g * top, g, ef);
    }
    assert t * (e * q + w + 2 * top) + p2 <= (q + 4) * (t * e) by {
      MulMono(w + 2 * top, 3 * e, t);
      Distribute(e * q, w + 2 * top, t);
      MulAssoc(t, e, 3); MulAssoc(q, t, e); Distribute(q, 4, t * e);
    }
    assert (q + 4) * (t * e) == ((q + 4) * d) * ef by { PaddedShuffle(d, f, e, q + 4); MulAssoc(q + 4, t, e); }
    MulCancelLess(a, (q + 4) * d, ef);
  }

  lemma PaddedShuffle(d: int, f: int, e: int, q: int)
    ensures (d * f) * (e * q) == (q * d) * (e * f)
  {
  }

  /** A divisor cut to its top limbs and rounded up: the same bounds. */
  lemma TruncatedQuotient(a: nat, top: nat, rest: nat, d: nat, cut: nat, low: nat, t: nat, inv: nat, q: nat, w: nat,
                          e: nat, f: nat, g: nat, p2: nat)
    requires RoughInverse(t, inv, p2) && inv * top == w + e * q && w < e
    requires t == cut + 1 && d == low + f * cut && low < f && a == rest + g * top && rest < g && p2 * f == e * g
    requires 2 * top <= e && p2 <= t * e && q + 4 <= t
    ensures q * d <= a < (q + 4) * d
  {
    ProductGap(t, inv, top, q, w, e, p2);
    Distribute(cut, 1, f);
    assert f * (top * p2) == e * (g * top) by { MulAssoc(f, top, p2); MulAssoc(e, g, top); }
    TruncatedBelow(top, d, t, q, e, f, g, p2);
    TruncatedAbove(a, top, rest, d, cut, t, q, w, e, f, g, p2);
  }

  lemma TruncatedBelow(top: nat, d: nat, t: nat, q: nat, e: nat, f: nat, g: nat, p2: nat)
    requires 0 < e && d <= f * t && t * (e * q) <= top * p2 && f * (top * p2) == e * (g * top)
    ensures q * d <= g * top
  {
    var ft := f * t;
    MulMono(d, ft, q);
    MulMono(t * (e * q), top * p2, f);
    assert f * (t * (e * q)) == e * (q * ft) by { TruncatedShuffle(f, t, e, q); }
    if q * ft > g * top { MulStrict(g * top, q * ft, e); }
  }

  lemma TruncatedAbove(a: nat, top: nat, rest: nat, d: nat, cut: nat, t: nat, q: nat, w: nat, e: nat, f: nat, g: nat, p2: nat)
    requires t == cut + 1 && f * cut <= d && a == rest + g * top && rest < g && p2 * f == e * g && w < e
    requires 2 * top <= e && p2 <= t * e && q + 4 <= t && f * (top * p2) == e * (g * top)
    requires top * p2 <= t * (e * q + w + 2 * top)
    ensures a < (q + 4) * d
  {
    var bound := t * (e * q + w + 2 * top) + p2;
    assert a * e < f * bound by {
      MulMono(a + 1, g * top + g, e);
      Distribute(a, 1, e); Distribute(g * top, g, e);
      MulMono(top * p2 + p2, bound, f);
      Distribute(top * p2, p2, f);
    }
    assert bound <= (q + 4) * (cut * e) by { TruncatedSum(t, cut, e, q, w, top, p2); }
    assert f * bound <= ((q + 4) * d) * e by {
      MulMono(bound, (q + 4) * (cut * e), f);
      assert f * ((q + 4) * (cut * e)) == ((q + 4) * (f * cut)) * e by { TruncatedRegroup(f, q + 4, cut, e); }
      MulMono(f * cut, d, q + 4);
      MulMono((q + 4) * (f * cut), (q + 4) * d, e);
    }
    MulCancelLess(a, (q + 4) * d, e);
  }

  lemma TruncatedShuffle(f: int, t: int, e: int, q: int)
    ensures f * (t * (e * q)) == e * (q * (f * t))
  {
  }

  lemma TruncatedRegroup(f: int, k: int, cut: int, e: int)
    ensures f * (k * (cut * e)) == (k * (f * cut)) * e
  {
  }

  lemma TruncatedSum(t: nat, cut: nat, e: nat, q: nat, w: nat, top: nat, p2: nat)
    requires t == cut + 1 && w < e && 2 * top <= e && p2 <= t * e && q + 4 <= t
    ensures t * (e * q + w + 2 * top) + p2 <= (q + 4) * (cut * e)
  {
    MulMono(w + 2 * top, 2 * e, t);
    Distribute(e * q, w + 2 * top, t);
    MulAssoc(t, e, q); MulAssoc(t, 2, e);
    MulMono(q + 4, t, e);
    Distribute(q, 4, t * e);
    assert (q + 4) * (cut * e) == (q + 4) * (t * e) - (q + 4) * e by {
      Distribute(t, 1, e);
      Distribute(t * e, e, q + 4);
    }
  }

  /** An approximation of p^2 / a with p / 2 <= a < p lies in [p, 2 p): its top limb is 1. */
  lemma ApproximationRange(a: nat, x: nat, p: nat)
    requires Approximates(a, x, p * p) && a < p <= 2 * a
    ensures p <= x < 2 * p
  {
    assert (p - 1) * (p + 1) == p * p - 1;
    if x >= 2 * p {
      MulMono(2 * p, x, a);
      MulMono(p, 2 * a, p);
      MulAssoc(2, a, p);
    }
    if x < p {
      MulMono(x + 2, p + 1, a);
      MulMono(a, p - 1, p + 1);
    }
  }
}
