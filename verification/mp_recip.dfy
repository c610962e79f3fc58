/** Newton reciprocal and the subquadratic division built on it. */
module MpRecip {
  import opened Arith
  import opened Limbs
  import opened MpLinear
  import opened MpMul
  import opened MpUdiv
  import opened MpDivNorm
  import opened RecipMath

  const DIVNORM_LARGE_THRESHOLD := 50

  /** A number in [B^n, 2 B^n) has top limb 1, and conversely. */
  lemma TopLimbOne(s: seq<Limb>, lo: nat, n: nat)
    requires lo + n < |s|
    ensures s[lo + n] == 1 <==> BPow(n) <= Seg(s, lo, n + 1) < 2 * BPow(n)
    ensures s[lo + n] == 1 ==> Seg(s, lo, n + 1) == Seg(s, lo, n) + BPow(n)
  {
    hide Seg, BPow;
    SegSnoc(s, lo, n);
    SegBound(s, lo, n);
    var t: nat := s[lo + n];
    if t >= 2 {
      MulMono(2, t, BPow(n));
    }
  }

  lemma NormalisedRange(s: seq<Limb>, lo: nat, n: nat)
    requires 1 <= n && lo + n <= |s| && Normalised(s[lo + n - 1])
    ensures Seg(s, lo, n) < BPow(n) <= 2 * Seg(s, lo, n)
  {
    SegBound(s, lo, n);
    HalfFull(s, lo, n);
  }

  lemma BPowDouble(n: nat)
    ensures BPow(2 * n) == BPow(n) * BPow(n)
  {
    BPowAdd(n, n);
    assert n + n == 2 * n;
  }

  /** The limbs 0, ..., 0, 1 spell a power of B. */
  lemma PowerLimbs(s: seq<Limb>, m: nat)
    requires |s| == m + 1 && s[m] == 1 && forall j :: 0 <= j < m ==> s[j] == 0
    ensures Seg(s, 0, m + 1) == BPow(m)
  {
    hide Seg, BPow;
    SegZero(s, 0, m);
    SegSnoc(s, 0, m);
  }

  /** Subtracting a number of n limbs from one of n + m limbs that is at least as large. */
  method SubLow(t: array<Limb>, a: array<Limb>, ao: nat, n: nat, m: nat)
    requires t != a && t.Length == n + m && ao + n <= a.Length && 0 < m
    requires Seg(t[..], 0, n + m) >= Seg(a[..], ao, n)
    modifies t
    ensures Seg(t[..], 0, n + m) == Seg(old(t[..]), 0, n + m) - Seg(a[..], ao, n)
  {
    hide Seg, BPow;
    ghost var s, y := t[..], a[..];
    var c := Sub(t, 0, t, 0, a, ao, n, 0);
    ghost var s1 := t[..];
    var c' := SubUi(t, n, c, m);
    ghost var s2 := t[..];
    SegSplit(s, 0, n + m, n); SegSplit(s2, 0, n + m, n);
    SegSame(s, s1, n, m); SegSame(s1, s2, 0, n);
    SegBound(s2, n, m); SegBound(s2, 0, n); SegBound(s2, 0, n + m);
    BPowAdd(n, m);
    SubLowArith(Seg(s, 0, n), Seg(s, n, m), Seg(s1, 0, n), Seg(s2, n, m), Seg(y, ao, n), c, c', BPow(n), BPow(m));
  }

  lemma SubLowArith(lo: nat, hi: nat, lo': nat, hi': nat, a: nat, c: nat, c': nat, p: nat, pm: nat)
    requires lo + c * p == lo' + a && hi + c' * pm == hi' + c && c <= 1 && c' <= 1
    requires lo + p * hi >= a && lo' < p && hi' < pm && 0 < p
    ensures lo' + p * hi' == lo + p * hi - a
  {
    Distribute(hi', c, p);
  }

  /** The correction loop of mp_recip: lower xh until a * xh has no limb above n + h. */
  method LowerEstimate(r: array<Limb>, xo: nat, t: array<Limb>, a: array<Limb>, ao: nat, n: nat, h: nat)
    requires r != a && r != t && t != a && 1 <= h && 1 <= n
    requires xo + h + 1 <= r.Length && t.Length == n + (h + 1) && ao + n <= a.Length
    requires Seg(t[..], 0, n + (h + 1)) == Seg(a[..], ao, n) * Seg(r[..], xo, h + 1)
    requires BPow(n + h) < Seg(a[..], ao, n) * (Seg(r[..], xo, h + 1) + 2)
    requires BPow(h) <= Seg(r[..], xo, h + 1) && Normalised(a[ao + n - 1])
    modifies r, t
    ensures Seg(t[..], 0, n + (h + 1)) == Seg(a[..], ao, n) * Seg(r[..], xo, h + 1) && t[n + h] == 0
    ensures BPow(n + h) < Seg(a[..], ao, n) * (Seg(r[..], xo, h + 1) + 2)
    ensures BPow(h) <= Seg(r[..], xo, h + 1)
    ensures Within(old(r[..]), r[..], xo, h + 1)
  {
    hide Seg, BPow;
    ghost var y := a[..];
    ghost var av := Seg(y, ao, n);
    NormalisedRange(y, ao, n);
    while t[n + h] != 0
      invariant a[..] == y && Within(old(r[..]), r[..], xo, h + 1)
      invariant Tracks(Seg(t[..], 0, n + (h + 1)), av, Seg(r[..], xo, h + 1), BPow(h), BPow(n + h))
      decreases Seg(r[..], xo, h + 1)
    {
      ghost var x, tv := Seg(r[..], xo, h + 1), Seg(t[..], 0, n + (h + 1));
      SegSnoc(t[..], 0, n + h);
      MulMono(1, t[n + h], BPow(n + h));
      BPowAdd(n, h);
      TracksStep(tv, av, x, BPow(h), BPow(n), BPow(n + h));
      var k := SubUi(r, xo, 1, h + 1);
      SegBound(r[..], xo, h + 1);
      NoBorrow(x, 1, Seg(r[..], xo, h + 1), k, BPow(h + 1));
      SubLow(t, a, ao, n, h + 1);
    }
  }

  ghost predicate Tracks(t: nat, a: nat, x: nat, ph: nat, pnh: nat) {
    t == a * x && pnh < a * (x + 2) && ph <= x
  }

  lemma TracksStep(t: nat, a: nat, x: nat, ph: nat, pn: nat, pnh: nat)
    requires Tracks(t, a, x, ph, pnh) && pnh <= t && a < pn && pnh == pn * ph && 0 < ph
    ensures 0 < x && a <= t && Tracks(t - a, a, x - 1, ph, pnh)
  {
    MulMono(1, x, a);
    Distribute(x, 1, a);
    if x - 1 < ph {
      assert x == ph;
      MulStrict(a, pn, ph);
      assert false;
    }
  }

  /** mp_neg followed by an increment of the top limb: t becomes B^m - t. */
  method Complement(t: array<Limb>, m: nat)
    requires t.Length == m + 1 && t[m] == 0 && 0 < Seg(t[..], 0, m + 1)
    modifies t
    ensures Seg(t[..], 0, m + 1) == BPow(m) - Seg(old(t[..]), 0, m + 1)
  {
    hide Seg, BPow;
    ghost var s := t[..];
    var k := Neg(t, 0, t, 0, m + 1, 0);
    ghost var s1 := t[..];
    SegSnoc(s, 0, m); SegSnoc(s1, 0, m);
    SegBound(s, 0, m); SegBound(s1, 0, m); SegBound(s1, 0, m + 1);
    BPowSucc(m);
    ComplementArith(Seg(s, 0, m), Seg(s1, 0, m), s1[m], k, BPow(m));
    t[m] := AddW(t[m], 1);
    SegSnoc(t[..], 0, m);
    SegSame(s1, t[..], 0, m);
  }

  lemma ComplementArith(v: nat, low: nat, top: Limb, k: nat, p: nat)
    requires k * (B * p) == low + top * p + v && 0 < v < p && low < p && low + top * p < B * p
    ensures top == B - 1 && low == p - v
  {
    var t: nat, b: nat := top, B;
    if k == 0 {
      MulNonNeg(t, p);
      assert false;
    }
    if k >= 2 {
      MulMono(2, k, b * p);
      MulMono(1, b, p);
      assert false;
    }
    if t < b - 1 {
      MulMono(t, b - 2, p);
      Distribute(b, 2, p);
      assert false;
    }
    Distribute(b, 1, p);
  }

  /** mp_recip for one and two limbs: ceil(B^(2 n) / a) - 1. */
  method RecipSmall(r: array<Limb>, ro: nat, a: array<Limb>, ao: nat, n: nat)
    requires r != a && 1 <= n <= 2 && ro + n + 1 <= r.Length && ao + n <= a.Length && Normalised(a[ao + n - 1])
    modifies r
    ensures Approximates(Seg(a[..], ao, n), Seg(r[..], ro, n + 1), BPow(2 * n)) && r[ro + n] == 1
    ensures Within(old(r[..]), r[..], ro, n + 1)
    decreases n, 0
  {
    hide Seg, BPow;
    ghost var y := a[..];
    ghost var av := Seg(y, ao, n);
    var u := new Limb[2 * n + 1](i => if i == 2 * n then 1 else 0);
    var t := new Limb[n + 2];
    PowerLimbs(u[..], 2 * n);
    DivNorm(t, 0, u, 0, 2 * n + 1, a, ao, n);
    assert a[..] == y;
    ghost var q, rem := Seg(t[..], 0, n + 2), Seg(u[..], 0, n);
    Copy(r, ro, t, 0, n + 1);
    ghost var s := r[..];
    NormalisedRange(y, ao, n); BPowDouble(n); BPowSucc(n);
    SegSnoc(t[..], 0, n + 1);
    SmallQuotient(av, q, rem, BPow(n), Seg(t[..], 0, n + 1), t[n + 1]);
    var nz := ScanNz(u, 0, n);
    if !nz {
      var k := SubUi(r, ro, 1, n + 1);
      SegBound(r[..], ro, n + 1);
      NoBorrow(q, 1, Seg(r[..], ro, n + 1), k, BPow(n + 1));
    }
    ApproximationRange(av, Seg(r[..], ro, n + 1), BPow(n));
    TopLimbOne(r[..], ro, n);
  }

  lemma SmallQuotient(a: nat, q: nat, rem: nat, p: nat, low: nat, top: Limb)
    requires p * p == q * a + rem && rem < a < p <= 2 * a && q == low + top * (B * p)
    ensures top == 0 && low == q && 1 <= q
    ensures rem != 0 ==> Approximates(a, q, p * p)
    ensures rem == 0 ==> Approximates(a, q - 1, p * p)
  {
    var t: nat := top;
    assert q <= 2 * p by {
      if q > 2 * p {
        MulMono(2 * p + 1, q, a);
        MulMono(p, 2 * a, p);
        QuotientTooLarge(a, p);
      }
    }
    if t >= 1 {
      MulMono(1, t, B * p);
      assert false;
    }
    MulPos(p, p);
    Distribute(q, 2, a);
    Distribute(q, 1, a);
  }

  lemma QuotientTooLarge(a: nat, p: nat)
    requires 0 < a
    ensures (2 * a) * p < (2 * p + 1) * a
  {
  }

  /** The final addition of mp_recip: the two halves of the approximation, joined. */
  lemma JoinHalves(s: seq<Limb>, s1: seq<Limb>, s2: seq<Limb>, ro: nat, l: nat, h: nat, u: seq<Limb>, k: nat, c: nat, x: nat)
    requires ro + l + h + 1 <= |s| == |s1| == |s2| && k + l + h + 2 <= |u| && c <= 1
    requires Within(s, s1, ro, l) && Seg(s1, ro, l) == Seg(u, k, l)
    requires Within(s1, s2, ro + l, h) && Seg(s2, ro + l, h) + c * BPow(h) == Seg(s1, ro + l, h) + Seg(u, k + l, h)
    requires x == Seg(u, k, l + h + 2) + BPow(l) * Seg(s, ro + l, h + 1)
    requires BPow(h) <= Seg(s, ro + l, h + 1) && x < 2 * BPow(l + h)
    ensures Seg(s2, ro, l + h + 1) == x && s2[ro + l + h] == 1
  {
    hide Seg, BPow;
    var xh, pl, ph := Seg(s, ro + l, h + 1), BPow(l), BPow(h);
    var up := Seg(u, k + l, h + 2);
    SegSplit(u, k, l + h + 2, l);
    BPowAdd(l, h);
    assert up + xh < 2 * ph by {
      Distribute(up, xh, pl);
      MulAssoc(2, pl, ph);
      MulCancelLess(up + xh, 2 * ph, pl);
    }
    TopLimbOne(s, ro + l, h);
    SegSplit(u, k + l, h + 2, h);
    assert Seg(u, k + l, h) == up by { HighPartZero(Seg(u, k + l, h), Seg(u, k + l + h, 2), up, ph); }
    SegSame(s, s1, ro + l, h);
    SegBound(s2, ro + l, h);
    assert c == 0;
    assert s2[ro + l + h] == s[ro + l + h];
    SegSplit(s2, ro, l + h + 1, l);
    SegSame(s1, s2, ro, l);
    SegSnoc(s2, ro + l, h);
    Distribute(up, xh, pl);
  }

  lemma HighPartZero(low: nat, high: nat, v: nat, p: nat)
    requires v == low + p * high && v < p
    ensures low == v
  {
    if high >= 1 {
      MulMono(1, high, p);
    }
  }

  /** mp_recip: an approximation of B^(2 n) / a in n + 1 limbs, by Newton's iteration on the high half. */
  method Recip(r: array<Limb>, ro: nat, a: array<Limb>, ao: nat, n: nat)
    requires r != a && 1 <= n && ro + n + 1 <= r.Length && ao + n <= a.Length && Normalised(a[ao + n - 1])
    modifies r
    ensures Approximates(Seg(a[..], ao, n), Seg(r[..], ro, n + 1), BPow(2 * n)) && r[ro + n] == 1
    ensures Within(old(r[..]), r[..], ro, n + 1)
    decreases n, 1
  {
    hide Seg, BPow;
    if n <= 2 {
      RecipSmall(r, ro, a, ao, n);
      return;
    }
    ghost var y := a[..];
    var l := (n - 1) / 2;
    var h := n - l;
    Recip(r, ro + l, a, ao + l, h);
    assert a[..] == y;
    var t := new Limb[n + (h + 1)];
    Mul(t, 0, a, ao, n, r, ro + l, h + 1);
    StartNewton(y, ao, n, l, r[..], ro + l);
    LowerEstimate(r, ro + l, t, a, ao, n, h);
    assert a[..] == y;
    NewtonCorrection(r, ro, t, Seg(y, ao, n), n, l, h) by {
      NormalisedRange(y, ao, n);
    }
  }

  /** The second half of mp_recip: t holds a * xh; the rest of B^(n + h) - t goes into the low limbs of the result. */
  method NewtonCorrection(r: array<Limb>, ro: nat, t: array<Limb>, ghost av: nat, n: nat, l: nat, h: nat)
    requires r != t && n == l + h && l < h && ro + n + 1 <= r.Length && t.Length == n + (h + 1) && t[n + h] == 0
    requires Seg(t[..], 0, n + (h + 1)) == av * Seg(r[..], ro + l, h + 1) && av < BPow(n) <= 2 * av
    requires BPow(n + h) < av * (Seg(r[..], ro + l, h + 1) + 2) && BPow(h) <= Seg(r[..], ro + l, h + 1)
    modifies r, t
    ensures Approximates(av, Seg(r[..], ro, n + 1), BPow(2 * n)) && r[ro + n] == 1
    ensures Within(old(r[..]), r[..], ro, n + 1)
  {
    hide Seg, BPow;
    ghost var s := r[..];
    ghost var xh := Seg(s, ro + l, h + 1);
    SegSnoc(t[..], 0, n + h); SegBound(t[..], 0, n + h);
    assert 0 < av * xh by { MulPos(av, xh); }
    Complement(t, n + h);
    ghost var t' := t[..];
    assert r[..] == s;
    var u := new Limb[n + 2 * h - l + 2];
    Mul(u, 0, t, l, n + h + 1 - l, r, ro + l, h + 1);
    ghost var uv := u[..];
    ghost var x := Seg(uv, 2 * h - l, l + h + 2) + BPow(l) * xh;
    NewtonStep(av, xh, x, t', uv, n, l, h);
    NewtonRange(av, x, n);
    AddCorrection(r, ro, u, l, h, x);
  }

  method AddCorrection(r: array<Limb>, ro: nat, u: array<Limb>, l: nat, h: nat, ghost x: nat)
    requires r != u && l < h && ro + l + h + 1 <= r.Length && u.Length == 3 * h + 2
    requires x == Seg(u[..], 2 * h - l, l + h + 2) + BPow(l) * Seg(r[..], ro + l, h + 1)
    requires BPow(h) <= Seg(r[..], ro + l, h + 1) && x < 2 * BPow(l + h)
    modifies r
    ensures Seg(r[..], ro, l + h + 1) == x && r[ro + l + h] == 1
    ensures Within(old(r[..]), r[..], ro, l + h + 1)
  {
    hide Seg, BPow;
    ghost var s, uv := r[..], u[..];
    var k := 2 * h - l;
    Copy(r, ro, u, k, l);
    ghost var s1 := r[..];
    var c := Add(r, ro + l, r, ro + l, u, 2 * h, h, 0);
    assert k + l == 2 * h && u[..] == uv;
    JoinHalves(s, s1, r[..], ro, l, h, uv, k, c, x);
  }

  lemma StartNewton(y: seq<Limb>, ao: nat, n: nat, l: nat, s: seq<Limb>, xo: nat)
    requires l < n && ao + n <= |y| && xo + (n - l) + 1 <= |s| && Normalised(y[ao + n - 1])
    requires Approximates(Seg(y, ao + l, n - l), Seg(s, xo, n - l + 1), BPow(2 * (n - l)))
    ensures BPow(n + (n - l)) < Seg(y, ao, n) * (Seg(s, xo, n - l + 1) + 2)
    ensures BPow(n - l) <= Seg(s, xo, n - l + 1)
  {
    hide Seg, BPow;
    var h := n - l;
    NormalisedRange(y, ao + l, h);
    BPowDouble(h);
    ApproximationRange(Seg(y, ao + l, h), Seg(s, xo, h + 1), BPow(h));
    SegSplit(y, ao, n, l);
    BPowAdd(2 * h, l);
    assert 2 * h + l == n + h;
    HighHalfSuffices(Seg(y, ao, n), Seg(y, ao + l, h), Seg(y, ao, l), Seg(s, xo, h + 1), BPow(l), BPow(2 * h), BPow(n + h));
  }

  lemma NewtonStep(a: nat, xh: nat, x: nat, t: seq<Limb>, u: seq<Limb>, n: nat, l: nat, h: nat)
    requires n == l + h && l < h && |t| == n + (h + 1) && |u| == n + 2 * h - l + 2
    requires a < BPow(n) <= 2 * a && 0 < a * xh <= BPow(n + h) < a * (xh + 2)
    requires Seg(t, 0, n + (h + 1)) == BPow(n + h) - a * xh && 0 < Seg(t, 0, n + (h + 1))
    requires Seg(u, 0, n + 2 * h - l + 2) == Seg(t, l, n + h + 1 - l) * xh
    requires x == Seg(u, 2 * h - l, l + h + 2) + BPow(l) * xh
    ensures Approximates(a, x, BPow(2 * n))
  {
    hide Seg, BPow;
    var k := 2 * h - l;
    var tv, tm, tl := Seg(t, 0, n + (h + 1)), Seg(t, l, n + h + 1 - l), Seg(t, 0, l);
    var pl, pk, pnh, p2n, c := BPow(l), BPow(k), BPow(n + h), BPow(2 * n), BPow(h - l);
    SegSplit(t, 0, n + (h + 1), l); SegBound(t, 0, l);
    assert n + (h + 1) - l == n + h + 1 - l;
    SegSplit(u, 0, n + 2 * h - l + 2, k); SegBound(u, 0, k);
    assert n + 2 * h - l + 2 - k == l + h + 2;
    Distribute(xh, 2, a);
    PowerRelations(n, l, h);
    TruncationSmall(a, tv, tm, tl, pl, c, pk, BPow(n));
    NewtonBelow(a, xh, Seg(u, k, l + h + 2), x, tv, tm, tl, Seg(u, 0, k), pl, pk, pnh, p2n);
    NewtonAbove(a, xh, Seg(u, k, l + h + 2), x, tv, tm, tl, Seg(u, 0, k), pl, pk, pnh, p2n);
  }

  lemma PowerRelations(n: nat, l: nat, h: nat)
    requires n == l + h && l < h
    ensures BPow(n + h) * BPow(l) == BPow(2 * n)
    ensures BPow(n + h) == BPow(2 * h - l) * (BPow(l) * BPow(l))
    ensures BPow(2 * h - l) == BPow(h - l) * (BPow(h - l) * BPow(l))
    ensures BPow(n) == BPow(h - l) * (BPow(l) * BPow(l))
    ensures 8 <= BPow(h - l)
  {
    BPowAdd(n + h, l);
    assert n + h + l == 2 * n;
    BPowAdd(l, l);
    BPowAdd(2 * h - l, l + l);
    assert 2 * h - l + (l + l) == n + h;
    BPowAdd(h - l, l);
    BPowAdd(h - l, h - l + l);
    assert h - l + (h - l + l) == 2 * h - l;
    BPowAdd(h - l, l + l);
    assert h - l + (l + l) == n;
    MulMono(1, BPow(h - l - 1), B);
  }

  lemma NewtonRange(a: nat, x: nat, n: nat)
    requires Approximates(a, x, BPow(2 * n)) && a < BPow(n) <= 2 * a
    ensures BPow(n) <= x < 2 * BPow(n)
  {
    hide BPow;
    BPowDouble(n);
    ApproximationRange(a, x, BPow(n));
  }

  /** mp_divnorm: the dispatcher. A one-limb divisor, a long division on large operands, schoolbook otherwise. */
  method DivNorm(q: array<Limb>, qo: nat, a: array<Limb>, ao: nat, na: nat, b: array<Limb>, bo: nat, nb: nat)
    requires q != a && q != b && a != b && 1 <= nb <= na
    requires ao + na <= a.Length && bo + nb <= b.Length && qo + (na - nb + 1) <= q.Length
    requires Normalised(b[bo + nb - 1])
    modifies q, a
    ensures Seg(old(a[..]), ao, na) == Seg(q[..], qo, na - nb + 1) * Seg(b[..], bo, nb) + Seg(a[..], ao, nb)
    ensures Seg(a[..], ao, nb) < Seg(b[..], bo, nb) && q[qo + na - nb] <= 1
    ensures Within(old(a[..]), a[..], ao, na) && Within(old(q[..]), q[..], qo, na - nb + 1)
    decreases if na - nb >= DIVNORM_LARGE_THRESHOLD && nb >= DIVNORM_LARGE_THRESHOLD then na + 2 else 0, 2
  {
    hide Seg, BPow;
    ghost var x := a[..];
    if nb == 1 {
      var rem := Div1Norm(q, qo, a, ao, na, b[bo], 0);
      a[ao] := rem;
      SegOne(a[..], ao); SegOne(b[..], bo);
      SegBound(x, ao, na);
      assert na - nb + nb == na && na - nb + 1 == na;
      TopQuotientLimb(Seg(x, ao, na), q[..], qo, na - nb, b[..], bo, nb, rem);
    } else if na - nb >= DIVNORM_LARGE_THRESHOLD && nb >= DIVNORM_LARGE_THRESHOLD {
      DivNormLarge(q, qo, a, ao, na, b, bo, nb);
    } else {
      DivNormBase(q, qo, a, ao, na, b, bo, nb);
    }
  }

  /** The top limb of a quotient by a normalised divisor is 0 or 1. */
  lemma TopQuotientLimb(a: nat, s: seq<Limb>, qo: nat, n: nat, y: seq<Limb>, bo: nat, nb: nat, rem: nat)
    requires qo + n + 1 <= |s| && 1 <= nb && bo + nb <= |y| && Normalised(y[bo + nb - 1])
    requires a < BPow(n + nb) && a == Seg(s, qo, n + 1) * Seg(y, bo, nb) + rem
    ensures s[qo + n] <= 1
  {
    hide Seg, BPow;
    var t: nat, q, d := s[qo + n], Seg(s, qo, n + 1), Seg(y, bo, nb);
    HalfFull(y, bo, nb);
    SegSnoc(s, qo, n);
    BPowAdd(n, nb);
    if t >= 2 {
      MulMono(2, t, BPow(n));
      MulMono(2 * BPow(n), q, d);
      MulMono(BPow(nb), 2 * d, BPow(n));
      MulAssoc(2, BPow(n), d);
    }
  }

  /** A number of n limbs that is at least B^n / 2 has a normalised top limb. */
  lemma TopNormalised(s: seq<Limb>, lo: nat, n: nat)
    requires 1 <= n && lo + n <= |s| && BPow(n) <= 2 * Seg(s, lo, n)
    ensures Normalised(s[lo + n - 1])
  {
    hide Seg, BPow;
    SegSnoc(s, lo, n - 1);
    SegBound(s, lo, n - 1);
    BPowSucc(n - 1);
    var t: nat, p := s[lo + n - 1], BPow(n - 1);
    if 2 * t < B {
      MulMono(2 * t + 2, B, p);
      MulAssoc(2, t, p);
      Distribute(2 * t, 2, p);
    }
  }

  /** The inverse that mp_divnorm_large works with, and the n-limb number t that it inverts. */
  method InverseOfDivisor(b: array<Limb>, bo: nat, nb: nat, n: nat) returns (inv: array<Limb>, ghost t: nat)
    requires 1 <= n && 1 <= nb && bo + nb <= b.Length && Normalised(b[bo + nb - 1])
    ensures fresh(inv) && inv.Length == n + 1 && RoughInverse(t, Seg(inv[..], 0, n + 1), BPow(2 * n))
    ensures t <= BPow(n) <= 2 * t
    ensures n >= nb ==> t == Seg(b[..], bo, nb) * BPow(n - nb)
    ensures n < nb ==> t == Seg(b[..], bo + (nb - n), n) + 1
    decreases n, 2
  {
    hide Seg, BPow;
    inv := new Limb[n + 1](i => if i == n then 1 else 0);
    var tab := new Limb[n](_ => 0);
    if n >= nb {
      Copy(tab, n - nb, b, bo, nb);
      ghost var s := tab[..];
      SegSplit(s, 0, n, n - nb);
      SegZero(s, 0, n - nb);
      t := Seg(s, 0, n);
      PaddedRange(b[..], bo, nb, n);
      TopNormalised(s, 0, n);
      NormalisedRange(s, 0, n);
    } else {
      Copy(tab, 0, b, bo + (nb - n), n);
      NormalisedRange(b[..], bo + (nb - n), n);
      var k := AddUi(tab, 0, 1, n);
      t := Seg(b[..], bo + (nb - n), n) + 1;
      if k != 0 {
        PowerLimbs(inv[..], n);
        BPowDouble(n);
        ExactInverse(t, BPow(n), Seg(tab[..], 0, n), k);
        return;
      }
      TopNormalised(tab[..], 0, n);
      NormalisedRange(tab[..], 0, n);
    }
    Recip(inv, 0, tab, 0, n);
  }

  lemma ExactInverse(t: nat, p: nat, low: nat, k: nat)
    requires low + k * p == t && 1 <= k && t <= p && 0 < p
    ensures t == p && RoughInverse(t, p, p * p)
  {
    MulMono(1, k, p);
    Distribute(p, 2, p);
  }

  lemma PaddedRange(y: seq<Limb>, bo: nat, nb: nat, n: nat)
    requires 1 <= nb <= n && bo + nb <= |y| && Normalised(y[bo + nb - 1])
    ensures BPow(n) <= 2 * (BPow(n - nb) * Seg(y, bo, nb))
  {
    hide Seg, BPow;
    NormalisedRange(y, bo, nb);
    BPowAdd(n - nb, nb);
    MulMono(BPow(nb), 2 * Seg(y, bo, nb), BPow(n - nb));
    MulAssoc(2, BPow(n - nb), Seg(y, bo, nb));
  }

  /** Multiplying the top limbs of a by the inverse gives a quotient at most three short. */
  lemma EstimateFromInverse(x: seq<Limb>, ao: nat, na: nat, y: seq<Limb>, bo: nat, nb: nat, n: nat, nq: nat,
                            inv: nat, t: nat, z: seq<Limb>)
    requires 2 <= nb && 1 <= nq && na == nq + nb && n == (if nq < nb then nq + 1 else nq)
    requires ao + na <= |x| && bo + nb <= |y| && Normalised(y[bo + nb - 1]) && |z| == 2 * (n + 1)
    requires RoughInverse(t, inv, BPow(2 * n)) && t <= BPow(n) <= 2 * t
    requires n >= nb ==> t == Seg(y, bo, nb) * BPow(n - nb)
    requires n < nb ==> t == Seg(y, bo + (nb - n), n) + 1
    requires Seg(z, 0, 2 * (n + 1)) == inv * Seg(x, ao + (na - (n + 1)), n + 1)
    ensures var q := Seg(z, 2 * n + 1 - nq, nq + 1);
            q * Seg(y, bo, nb) <= Seg(x, ao, na) < (q + 4) * Seg(y, bo, nb)
  {
    hide Seg, BPow;
    var q, w, e := Seg(z, 2 * n + 1 - nq, nq + 1), Seg(z, 0, 2 * n + 1 - nq), BPow(2 * n + 1 - nq);
    SegSplit(z, 0, 2 * (n + 1), 2 * n + 1 - nq);
    SegBound(z, 0, 2 * n + 1 - nq);
    var top, rest, g := Seg(x, ao + (na - (n + 1)), n + 1), Seg(x, ao, na - (n + 1)), BPow(na - (n + 1));
    SegSplit(x, ao, na, na - (n + 1));
    SegBound(x, ao, na - (n + 1));
    SegBound(x, ao + (na - (n + 1)), n + 1);
    BPowMono(n + 1, 2 * n + 1 - nq);
    assert BPow(2 * n) <= t * e by { SquareBelow(t, e, n); }
    if n >= nb {
      BPowAdd(2 * n + 1 - nq, n - nb);
      BPowAdd(2 * n + 1 - nq + (n - nb), na - (n + 1));
      assert 2 * n + 1 - nq + (n - nb) + (na - (n + 1)) == 2 * n;
      PaddedQuotient(Seg(x, ao, na), top, rest, Seg(y, bo, nb), t, inv, q, w, e, BPow(n - nb), g, BPow(2 * n));
    } else {
      assert 2 * n + 1 - nq == n + 2;
      BPowSucc(n + 1);
      SegSplit(y, bo, nb, nb - n);
      SegBound(y, bo, nb - n);
      BPowAdd(2 * n, nb - n);
      BPowAdd(n + 2, na - (n + 1));
      assert 2 * n + (nb - n) == n + 2 + (na - (n + 1));
      assert q + 4 <= t by { QuotientBelow(t, inv, top, w, q, n); }
      TruncatedQuotient(Seg(x, ao, na), top, rest, Seg(y, bo, nb), t - 1, Seg(y, bo, nb - n), t, inv, q, w, e,
                        BPow(nb - n), g, BPow(2 * n));
    }
  }

  lemma SquareBelow(t: nat, e: nat, n: nat)
    requires BPow(n) <= 2 * t && BPow(n + 1) <= e
    ensures BPow(2 * n) <= t * e
  {
    hide BPow;
    var p := BPow(n);
    BPowDouble(n); BPowSucc(n);
    MulMono(2, B, p);
    MulMono(2 * p, e, t);
    MulMono(p, 2 * t, p);
    MulAssoc(2, t, p);
  }

  lemma QuotientBelow(t: nat, inv: nat, top: nat, w: nat, q: nat, n: nat)
    requires 2 <= n && RoughInverse(t, inv, BPow(2 * n)) && BPow(n) <= 2 * t
    requires top < BPow(n + 1) && inv * top == w + BPow(n + 2) * q
    ensures q + 4 <= t
  {
    hide BPow;
    var p := BPow(n);
    BPowDouble(n);
    assert inv <= 2 * p by {
      if inv > 2 * p {
        MulMono(2 * p + 1, inv, t);
        MulMono(p, 2 * t, p);
        QuotientTooLarge(t, p);
      }
    }
    BPowSucc(n); BPowSucc(n + 1);
    MulBounds(inv, 2 * p, top, B * p);
    assert B * q <= 2 * p by {
      LargeDigits(p, q, B, B * p);
    }
    BPowSucc(n - 1); BPowSucc(n - 2);
    MulMono(1, BPow(n - 2), B);
  }

  lemma LargeDigits(p: nat, q: nat, b: nat, bp: nat)
    requires bp == b * p && (b * bp) * q <= (2 * p) * bp && 0 < bp
    ensures b * q <= 2 * p
  {
    MulAssoc(b, bp, q);
    if b * q > 2 * p {
      MulStrict(2 * p, b * q, bp);
    }
  }

  /** The remainder needs only the low m limbs of a - p once it is known to fit in them. */
  lemma RemainderFits(a: nat, alow: nat, ahigh: nat, p: nat, plow: nat, phigh: nat, k: nat, r: nat, w: nat)
    requires a == alow + w * ahigh && p == plow + w * phigh && alow + k * w == r + plow
    requires 0 <= a - p < w && r < w
    ensures r == a - p
  {
    var m := ahigh - phigh - k;
    assert a - p == r + w * m by {
      Distribute(ahigh, phigh, w);
      Distribute(ahigh - phigh, k, w);
    }
    if m >= 1 {
      MulMono(1, m, w);
    } else if m <= -1 {
      MulMono(m, -1, w);
    }
  }

  /** mp_divnorm_large: quotient through the reciprocal, then raise it until the remainder is below the divisor. */
  method DivNormLarge(q: array<Limb>, qo: nat, a: array<Limb>, ao: nat, na: nat, b: array<Limb>, bo: nat, nb: nat)
    requires q != a && q != b && a != b && 2 <= nb < na
    requires ao + na <= a.Length && bo + nb <= b.Length && qo + (na - nb + 1) <= q.Length
    requires Normalised(b[bo + nb - 1])
    modifies q, a
    ensures Seg(old(a[..]), ao, na) == Seg(q[..], qo, na - nb + 1) * Seg(b[..], bo, nb) + Seg(a[..], ao, nb)
    ensures Seg(a[..], ao, nb) < Seg(b[..], bo, nb) && q[qo + na - nb] <= 1
    ensures Within(old(a[..]), a[..], ao, na) && Within(old(q[..]), q[..], qo, na - nb + 1)
    decreases na + 1, 2
  {
    hide Seg, BPow;
    ghost var x, y := a[..], b[..];
    ghost var av, d := Seg(x, ao, na), Seg(y, bo, nb);
    var nq := na - nb;
    var n := if nq < nb then nq + 1 else nq;
    var inv, t := InverseOfDivisor(b, bo, nb, n);
    var z := new Limb[2 * (n + 1)];
    Mul(z, 0, inv, 0, n + 1, a, ao + (na - (n + 1)), n + 1);
    assert a[..] == x && b[..] == y;
    assert n + 1 + (n + 1) == 2 * (n + 1);
    EstimateFromInverse(x, ao, na, y, bo, nb, n, nq, Seg(inv[..], 0, n + 1), t, z[..]);
    Copy(q, qo, z, 2 * n + 1 - nq, nq + 1);
    assert a[..] == x && b[..] == y;
    ghost var qv := Seg(q[..], qo, nq + 1);
    var p := new Limb[na + 1];
    Mul(p, 0, q, qo, nq + 1, b, bo, nb);
    assert a[..] == x && b[..] == y;
    var k := Sub(a, ao, a, ao, p, 0, nb + 1, 0);
    FirstRemainder(x, a[..], ao, na, nb, p[..], qv, d, k) by {
      NormalisedRange(y, bo, nb);
      assert nq + 1 + nb == na + 1;
    }
    SegBound(x, ao, na);
    RaiseQuotient(q, qo, a, ao, nq, b, bo, nb, av);
  }

  lemma FirstRemainder(x: seq<Limb>, s: seq<Limb>, ao: nat, na: nat, nb: nat, p: seq<Limb>, q: nat, d: nat, k: nat)
    requires 1 <= nb < na && ao + na <= |x| == |s| && |p| == na + 1 && d < BPow(nb)
    requires Seg(p, 0, na + 1) == q * d <= Seg(x, ao, na) < (q + 4) * d
    requires Seg(x, ao, nb + 1) + k * BPow(nb + 1) == Seg(s, ao, nb + 1) + Seg(p, 0, nb + 1)
    ensures Seg(x, ao, na) == q * d + Seg(s, ao, nb + 1)
  {
    hide Seg, BPow;
    SegSplit(x, ao, na, nb + 1);
    SegSplit(p, 0, na + 1, nb + 1);
    SegBound(s, ao, nb + 1);
    BPowSucc(nb);
    MulMono(4, B, BPow(nb));
    Distribute(q, 4, d);
    RemainderFits(Seg(x, ao, na), Seg(x, ao, nb + 1), Seg(x, ao + (nb + 1), na - (nb + 1)), Seg(p, 0, na + 1),
                  Seg(p, 0, nb + 1), Seg(p, nb + 1, na + 1 - (nb + 1)), k, Seg(s, ao, nb + 1), BPow(nb + 1));
  }

  /** The last loop of mp_divnorm_large. It ends because each round takes one divisor off the remainder. */
  method RaiseQuotient(q: array<Limb>, qo: nat, a: array<Limb>, ao: nat, nq: nat, b: array<Limb>, bo: nat, nb: nat, ghost av: nat)
    requires q != a && q != b && a != b && 1 <= nb && 1 <= nq
    requires ao + nb < a.Length && bo + nb <= b.Length && qo + nq + 1 <= q.Length && Normalised(b[bo + nb - 1])
    requires av == Seg(q[..], qo, nq + 1) * Seg(b[..], bo, nb) + Seg(a[..], ao, nb + 1) && av < BPow(nq + nb)
    modifies q, a
    ensures av == Seg(q[..], qo, nq + 1) * Seg(b[..], bo, nb) + Seg(a[..], ao, nb)
    ensures Seg(a[..], ao, nb) < Seg(b[..], bo, nb) && q[qo + nq] <= 1
    ensures Within(old(a[..]), a[..], ao, nb + 1) && Within(old(q[..]), q[..], qo, nq + 1)
  {
    hide Seg, BPow;
    ghost var y := b[..];
    ghost var d := Seg(y, bo, nb);
    while true
      invariant b[..] == y && Within(old(a[..]), a[..], ao, nb + 1) && Within(old(q[..]), q[..], qo, nq + 1)
      invariant av == Seg(q[..], qo, nq + 1) * d + Seg(a[..], ao, nb + 1)
      decreases Seg(a[..], ao, nb + 1)
    {
      WindowTop(a[..], ao, nb);
      if a[ao + nb] == 0 {
        var c := Cmp(a, ao, b, bo, nb);
        if c < 0 {
          TopQuotientLimb(av, q[..], qo, nq, y, bo, nb, Seg(a[..], ao, nb));
          return;
        }
      }
      ghost var qv, rv := Seg(q[..], qo, nq + 1), Seg(a[..], ao, nb + 1);
      assert d <= rv && 0 < d by { NotYetReduced(a[..], ao, y, bo, nb); }
      TakeDivisor(a, ao, b, bo, nb);
      assert Seg(q[..], qo, nq + 1) == qv;
      var k := AddUi(q, qo, 1, nq + 1);
      SegBound(q[..], qo, nq + 1);
      NoCarry(av, qv, rv, d, Seg(q[..], qo, nq + 1), k, nq, y, bo, nb);
      Distribute(qv, 1, d);
    }
  }

  lemma NotYetReduced(s: seq<Limb>, ao: nat, y: seq<Limb>, bo: nat, nb: nat)
    requires 1 <= nb && ao + nb < |s| && bo + nb <= |y| && Normalised(y[bo + nb - 1])
    requires s[ao + nb] != 0 || Seg(s, ao, nb) >= Seg(y, bo, nb)
    ensures 0 < Seg(y, bo, nb) <= Seg(s, ao, nb + 1)
  {
    hide Seg, BPow;
    NormalisedRange(y, bo, nb);
    SegSnoc(s, ao, nb);
    if s[ao + nb] != 0 {
      MulMono(1, s[ao + nb], BPow(nb));
    }
  }

  method TakeDivisor(a: array<Limb>, ao: nat, b: array<Limb>, bo: nat, nb: nat)
    requires a != b && ao + nb < a.Length && bo + nb <= b.Length
    requires Seg(b[..], bo, nb) <= Seg(a[..], ao, nb + 1)
    modifies a
    ensures Seg(a[..], ao, nb + 1) == Seg(old(a[..]), ao, nb + 1) - Seg(b[..], bo, nb)
    ensures Within(old(a[..]), a[..], ao, nb + 1)
  {
    hide Seg, BPow;
    ghost var s, y := a[..], b[..];
    var k := Sub(a, ao, a, ao, b, bo, nb, 0);
    ghost var s1 := a[..];
    a[ao + nb] := SubW(a[ao + nb], k);
    WindowTop(s, ao, nb); WindowTop(a[..], ao, nb);
    SegSame(s1, a[..], ao, nb);
    SegBound(s1, ao, nb);
    BorrowFromTop(Seg(s, ao, nb), s[ao + nb], Seg(y, bo, nb), Seg(s1, ao, nb), k, BPow(nb));
  }

  lemma BorrowFromTop(low: nat, top: Limb, d: nat, low': nat, k: Limb, p: nat)
    requires low + top * p >= d && low + k * p == low' + d && low' < p && k <= 1
    ensures low' + SubW(top, k) * p == low + top * p - d
  {
    var t: nat, c: nat := top, k;
    if t < c {
      assert false;
    }
    Distribute(t, c, p);
  }

  lemma NoCarry(av: nat, q: nat, r: nat, d: nat, q': nat, k: nat, nq: nat, y: seq<Limb>, bo: nat, nb: nat)
    requires 1 <= nb && bo + nb <= |y| && Normalised(y[bo + nb - 1]) && d == Seg(y, bo, nb) <= r
    requires av == q * d + r < BPow(nq + nb) && q' + k * BPow(nq + 1) == q + 1 && q' < BPow(nq + 1)
    ensures k == 0 && q' == q + 1
  {
    hide Seg, BPow;
    NormalisedRange(y, bo, nb);
    BPowAdd(nq, nb); BPowSucc(nq);
    var p := BPow(nq);
    if k >= 1 {
      MulMono(1, k, B * p);
      MulMono(2, B, p);
      MulMono(2 * p, q + 1, d);
      Distribute(q, 1, d);
      MulMono(BPow(nb), 2 * d, p);
      MulAssoc(2, p, d);
    }
  }

  /** The bound of the source's comment, B^(2n) < a x + 2, needs a divisor of B^(2n) - 1. */
  lemma CommentNeedsDivisor(a: nat, x: nat, p2: nat)
    requires 1 < a && Approximates(a, x, p2) && p2 < a * x + 2
    ensures p2 == a * x + 1 && p2 % a == 1
  {
    DivModUnique(p2, a, x, 1);
  }

  /** Already for one limb there are normalised numbers none of whose approximations meets it. */
  lemma CommentFails(a: Limb, x: nat)
    requires a as int == B / 2 + 1 && Approximates(a, x, BPow(2))
    ensures Normalised(a) && BPow(2) >= a * x + 2
  {
    hide BPow;
    BPowSucc(0); BPowSucc(1);
    assert BPow(0) == 1 by { PowersOfZero(); }
    var d: nat := a;
    if d * x + 2 > BPow(2) {
      CommentNeedsDivisor(d, x, BPow(2));
      DivModUnique(B * B, d, 2 * B - 4, 4);
      assert false;
    }
  }
}
