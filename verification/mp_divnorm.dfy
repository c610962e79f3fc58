/** Schoolbook division of limb arrays by a normalised divisor. */
module MpDivNorm {
  import opened Arith
  import opened Limbs
  import opened MpLinear
  import opened MpUdiv

  const UDIV1NORM_THRESHOLD := 3

  /** mp_div1norm: quotient limbs of a by b with r above them; the result is the remainder. */
  method Div1Norm(q: array<Limb>, qo: nat, a: array<Limb>, ao: nat, n: nat, b: Limb, r: Limb) returns (rem: Limb)
    requires q != a && qo + n <= q.Length && ao + n <= a.Length && Normalised(b) && r < b
    modifies q
    ensures rem < b
    ensures Seg(a[..], ao, n) + r * BPow(n) == Seg(q[..], qo, n) * b + rem
    ensures Within(old(q[..]), q[..], qo, n)
  {
    hide Seg, BPow;
    ghost var x, s := a[..], q[..];
    SegEmpty(x, ao + n); SegEmpty(s, qo + n);
    rem := r;
    var i := n;
    var byInverse := n >= UDIV1NORM_THRESHOLD;
    var v: Limb := if byInverse then Udiv1NormInit(b) else 0;
    while i > 0
      invariant 0 <= i <= n && rem < b
      invariant a[..] == x && q[..] == s && Within(old(q[..]), s, qo + i, n - i)
      invariant Divided(s, qo + i, x, ao + i, n - i, r, b, rem)
    {
      i := i - 1;
      var (t, rem') := Divide2(byInverse, rem, a[ao + i], b, v);
      DivideStep(s, qo + i + 1, x, ao + i + 1, n - i - 1, r, b, rem, t, rem');
      q[qo + i] := t;
      s := s[qo + i := t];
      rem := rem';
    }
  }

  /** Two limbs by one: through the reciprocal on long operands, by the double-limb operators otherwise. */
  function Divide2(byInverse: bool, a1: Limb, a0: Limb, b: Limb, v: Limb): (qr: (Limb, Limb))
    requires a1 < b && Normalised(b) && (byInverse ==> IsInverse(b, v))
    ensures qr.0 as int * b + qr.1 == a0 as int + a1 as int * B && qr.1 < b
  {
    if byInverse then Udiv1Norm(a1, a0, b, v) else PlainDivide(a1, a0, b)
  }

  function PlainDivide(a1: Limb, a0: Limb, b: Limb): (qr: (Limb, Limb))
    requires a1 < b
    ensures qr.0 as int * b + qr.1 == a0 as int + a1 as int * B && qr.1 < b
  {
    var a := a1 as int * B + a0;
    PlainQuotient(a1, a0, b, a);
    (a / b, a % b)
  }

  lemma PlainQuotient(a1: nat, a0: nat, b: nat, a: int)
    requires a1 < b < B && a0 < B && a == a1 * B + a0
    ensures 0 <= a / b < B && 0 <= a % b < b && a / b * b + a % b == a
  {
    MulNonNeg(a1, B);
    Euclid(a, b);
    QuotientLimb(a1, a0, b, a, a / b, a % b);
  }

  lemma QuotientLimb(a1: nat, a0: nat, b: nat, a: nat, q: nat, r: nat)
    requires a1 < b < B && a0 < B && a == a1 * B + a0 && a == q * b + r && r < b
    ensures q < B
  {
    MulMono(a1 + 1, b, B);
    Distribute(a1, 1, B);
    MulCancelLess(q, B, b);
  }

  /** The estimated quotient limb of mp_divnorm, from the two top limbs of the window and the top limb of the divisor. */
  function QuotientEstimate(byInverse: bool, top: Limb, next: Limb, b1: Limb, v: Limb): (q: Limb)
    requires Normalised(b1) && (byInverse ==> IsInverse(b1, v))
    ensures top < b1 ==> top as int * B + next < (q as int + 1) * b1
    ensures top >= b1 ==> q == B - 1
  {
    if top >= b1 then B - 1
    else
      var qr := Divide2(byInverse, top, next, b1, v);
      Distribute(qr.0, 1, b1);
      qr.0
  }

  /** The estimate is never below the true quotient of the window by the divisor. */
  lemma EstimateNotBelow(win: nat, d: nat, top: nat, next: nat, low: nat, b1: nat, dlow: nat, q: nat, p: nat)
    requires win == low + p * (next + B * top) && low < p
    requires d == dlow + p * b1
    requires win < d * B
    requires if top < b1 then top * B + next < (q + 1) * b1 else q == B - 1
    ensures win < (q + 1) * d
  {
    if top < b1 {
      var t := next + B * top;
      MulMono(t + 1, (q + 1) * b1, p);
      Distribute(t, 1, p);
      MulAssoc(q + 1, b1, p);
      MulMono(p * b1, d, q + 1);
    }
  }

  /** A window of nb + 1 limbs as its nb low limbs and its top one. */
  lemma WindowTop(s: seq<Limb>, off: nat, nb: nat)
    requires off + nb < |s|
    ensures Seg(s, off, nb + 1) == Seg(s, off, nb) + s[off + nb] * BPow(nb)
  {
    SegSnoc(s, off, nb);
  }

  /** The add-back loop of mp_divnorm: q is too large and the window holds w - q * d modulo B^(nb + 1). */
  method AddBack(a: array<Limb>, off: nat, b: array<Limb>, bo: nat, nb: nat, q0: Limb, ghost w: nat) returns (q: Limb)
    requires a != b && off + nb < a.Length && bo + nb <= b.Length
    requires w < q0 * Seg(b[..], bo, nb)
    requires Seg(a[..], off, nb + 1) == w - q0 * Seg(b[..], bo, nb) + BPow(nb + 1)
    modifies a
    ensures w == q * Seg(b[..], bo, nb) + Seg(a[..], off, nb)
    ensures Seg(a[..], off, nb) < Seg(b[..], bo, nb)
    ensures Within(old(a[..]), a[..], off, nb + 1)
  {
    hide Seg, BPow;
    BPowSucc(nb);
    ghost var y := b[..];
    ghost var d := Seg(y, bo, nb);
    q := q0;
    while true
      invariant b[..] == y && Within(old(a[..]), a[..], off, nb + 1)
      invariant Negative(Seg(a[..], off, nb + 1), w, q, d, BPow(nb + 1))
      decreases q
    {
      ghost var s := a[..];
      WindowTop(s, off, nb);
      assert 0 < q by { NegativeStep(w, q, d); }
      q := q - 1;
      var c := Add(a, off, a, off, b, bo, nb, 0);
      ghost var s' := a[..];
      var top := a[off + nb];
      assert top == s[off + nb];
      if c != 0 {
        a[off + nb] := AddW(top, 1);
        SegSame(s', a[..], off, nb);
      }
      WindowTop(a[..], off, nb);
      SegBound(a[..], off, nb);
      AddBackStep(w, q, d, Seg(s, off, nb + 1), Seg(s, off, nb), Seg(s', off, nb), top, c, BPow(nb), BPow(nb + 1),
                  Seg(a[..], off, nb + 1), a[off + nb]);
      if c != 0 && a[off + nb] == 0 {
        return;
      }
    }
  }

  ghost predicate Negative(win: nat, w: nat, q: nat, d: nat, p: nat) {
    w < q * d && win == w - q * d + p
  }

  lemma NegativeStep(w: nat, q: nat, d: nat)
    requires w < q * d
    ensures 0 < q
  {
  }

  lemma AddBackStep(w: nat, q: nat, d: nat, win: nat, low: nat, low': nat, top: Limb, c: nat, p: nat, pb: nat,
                    win': nat, top': Limb)
    requires Negative(win, w, q + 1, d, pb) && pb == B * p && c <= 1
    requires win == low + top * p && low' + c * p == low + d && low' < p
    requires top' == (if c == 0 then top else AddW(top, 1)) && win' == low' + top' * p
    ensures c != 0 && top' == 0 ==> w == q * d + low' && low' < d
    ensures !(c != 0 && top' == 0) ==> Negative(win', w, q, d, pb)
  {
    Distribute(q, 1, d);
    var t: nat := top;
    Distribute(t, 1, p);
    if c != 0 && top' == 0 {
      assert t + 1 == B;
    } else {
      assert top' as int == t + c;
      assert win' == win + d;
      MulMono(t + c, B - 1, p);
      Distribute(B, 1, p);
    }
  }

  /** One quotient limb of mp_divnorm: divides the window of nb + 1 limbs at off and leaves the remainder in it. */
  method DivideWindow(a: array<Limb>, off: nat, b: array<Limb>, bo: nat, nb: nat, byInverse: bool, v: Limb)
    returns (q: Limb)
    requires a != b && 2 <= nb && off + nb < a.Length && bo + nb <= b.Length
    requires Normalised(b[bo + nb - 1]) && (byInverse ==> IsInverse(b[bo + nb - 1], v))
    requires Seg(a[..], off + 1, nb) < Seg(b[..], bo, nb)
    modifies a
    ensures Seg(old(a[..]), off, nb + 1) == q * Seg(b[..], bo, nb) + Seg(a[..], off, nb)
    ensures Seg(a[..], off, nb) < Seg(b[..], bo, nb)
    ensures Within(old(a[..]), a[..], off, nb + 1)
  {
    hide Seg, BPow;
    ghost var s, y := a[..], b[..];
    ghost var w, d := Seg(s, off, nb + 1), Seg(y, bo, nb);
    q := QuotientEstimate(byInverse, a[off + nb], a[off + nb - 1], b[bo + nb - 1], v);
    EstimateCovers(s, off, y, bo, nb, q);
    var r := SubMul1(a, off, b, bo, nb, q);
    ghost var s' := a[..];
    var top := a[off + nb];
    assert top == s[off + nb];
    a[off + nb] := SubW(top, r);
    assert Within(s, a[..], off, nb + 1);
    SegSame(s', a[..], off, nb);
    WindowTop(s, off, nb); WindowTop(a[..], off, nb);
    BPowSucc(nb);
    SegBound(s', off, nb); SegBound(y, bo, nb);
    SubtractedWindow(w, d, q, Seg(s, off, nb), Seg(s', off, nb), top, r, SubW(top, r), BPow(nb),
                     Seg(a[..], off, nb + 1));
    if SubW(top, r) > top {
      q := AddBack(a, off, b, bo, nb, q, w);
    }
  }

  lemma EstimateCovers(s: seq<Limb>, off: nat, y: seq<Limb>, bo: nat, nb: nat, q: Limb)
    requires 2 <= nb && off + nb < |s| && bo + nb <= |y| && Seg(s, off + 1, nb) < Seg(y, bo, nb)
    requires var top, b1 := s[off + nb], y[bo + nb - 1];
             if top < b1 then top as int * B + s[off + nb - 1] < (q as int + 1) * b1 else q == B - 1
    ensures Seg(s, off, nb + 1) < (q as int + 1) * Seg(y, bo, nb)
  {
    hide Seg, BPow;
    var w, d, high := Seg(s, off, nb + 1), Seg(y, bo, nb), Seg(s, off + 1, nb);
    SegCons(s, off, nb + 1);
    MulMono(high + 1, d, B);
    Distribute(high, 1, B);
    assert w < d * B;
    SegSplit(s, off, nb + 1, nb - 1);
    SegCons(s, off + nb - 1, 2); SegOne(s, off + nb);
    SegSplit(y, bo, nb, nb - 1); SegOne(y, bo + nb - 1);
    SegBound(s, off, nb - 1);
    EstimateNotBelow(w, d, s[off + nb], s[off + nb - 1], Seg(s, off, nb - 1), y[bo + nb - 1], Seg(y, bo, nb - 1), q,
                     BPow(nb - 1));
  }

  /** After the multiply-and-subtract: exact when nothing was borrowed from above, otherwise short of zero. */
  lemma SubtractedWindow(w: nat, d: nat, q: Limb, low: nat, low': nat, top: Limb, r: Limb, top': Limb, p: nat, win': nat)
    requires w == low + top * p && low + r * p == low' + d * q && win' == low' + top' * p
    requires top' == SubW(top, r) && low' < p && d < p && w < (q as int + 1) * d
    ensures top' > top ==> w < q * d && win' == w - q * d + B * p
    ensures top' <= top ==> w == q * d + low' && low' < d
  {
    var t: nat, t': nat, r': nat, q': nat := top, top', r, q;
    Distribute(q', 1, d);
    Distribute(t, r', p);
    if top' > top {
      assert t' == t - r' + B;
      Distribute(t - r', B, p);
      MulMono(t', B - 1, p); Distribute(B, 1, p);
    } else {
      assert t' == t - r';
      assert win' == w - q' * d;
      if t' >= 1 { MulMono(1, t', p); }
    }
  }

  /** The quotient limbs from i upwards and what is left in the low limbs still add up to the dividend. */
  ghost predicate PartlyDivided(x: seq<Limb>, t: seq<Limb>, ao: nat, na: nat, s: seq<Limb>, qo: nat, d: nat, nb: nat, i: nat)
    requires 1 <= nb && nb + i <= na && ao + na <= |x| == |t| && qo + (na - nb + 1) <= |s| && i <= na - nb + 1
  {
    Seg(x, ao, na) == BPow(i) * (Seg(s, qo + i, na - nb + 1 - i) * d) + Seg(t, ao, nb + i)
  }

  lemma QuotientDigit(total: nat, lo: nat, p: nat, pb: nat, q: nat, d: nat, digit: nat, win: nat, rem: nat, q': nat,
                      rest: nat, rest': nat)
    requires total == pb * (q * d) + rest && pb == B * p
    requires rest == lo + p * win && rest' == lo + p * rem
    requires win == digit * d + rem && q' == digit + B * q
    ensures total == p * (q' * d) + rest'
  {
    Distribute(digit, B * q, d);
    Distribute(digit * d, (B * q) * d, p);
    Distribute(digit * d, rem, p);
    assert pb * (q * d) == p * ((B * q) * d) by {
      MulAssoc(B, p, q * d);
      MulAssoc(B, q, d);
    }
  }

  lemma NextDigit(x: seq<Limb>, t: seq<Limb>, t': seq<Limb>, ao: nat, na: nat, s: seq<Limb>, qo: nat, d: nat, nb: nat,
                  i: nat, digit: Limb)
    requires 1 <= nb && nb + i < na && ao + na <= |x| == |t| && qo + (na - nb + 1) <= |s|
    requires PartlyDivided(x, t, ao, na, s, qo, d, nb, i + 1)
    requires Within(t, t', ao + i, nb + 1) && Seg(t, ao + i, nb + 1) == digit * d + Seg(t', ao + i, nb)
    ensures PartlyDivided(x, t', ao, na, s[qo + i := digit], qo, d, nb, i)
  {
    hide Seg, BPow;
    var s' := s[qo + i := digit];
    SegCons(s', qo + i, na - nb + 1 - i);
    SegSame(s, s', qo + i + 1, na - nb - i);
    SegSplit(t, ao, nb + i + 1, i);
    SegSplit(t', ao, nb + i, i);
    SegSame(t, t', ao, i);
    BPowSucc(i);
    QuotientDigit(Seg(x, ao, na), Seg(t, ao, i), BPow(i), BPow(i + 1), Seg(s, qo + i + 1, na - nb - i), d, digit,
                  Seg(t, ao + i, nb + 1), Seg(t', ao + i, nb), Seg(s', qo + i, na - nb + 1 - i),
                  Seg(t, ao, nb + i + 1), Seg(t', ao, nb + i));
  }

  /** The quadratic part of mp_divnorm, for divisors of two limbs or more. */
  method DivNormBase(q: array<Limb>, qo: nat, a: array<Limb>, ao: nat, na: nat, b: array<Limb>, bo: nat, nb: nat)
    requires q != a && q != b && a != b && 2 <= nb <= na
    requires ao + na <= a.Length && bo + nb <= b.Length && qo + (na - nb + 1) <= q.Length
    requires Normalised(b[bo + nb - 1])
    modifies q, a
    ensures Seg(old(a[..]), ao, na) == Seg(q[..], qo, na - nb + 1) * Seg(b[..], bo, nb) + Seg(a[..], ao, nb)
    ensures Seg(a[..], ao, nb) < Seg(b[..], bo, nb) && q[qo + na - nb] <= 1
    ensures Within(old(a[..]), a[..], ao, na) && Within(old(q[..]), q[..], qo, na - nb + 1)
  {
    hide Seg, BPow;
    ghost var x, y := a[..], b[..];
    ghost var d := Seg(y, bo, nb);
    var n := na - nb;
    var byInverse := n >= UDIV1NORM_THRESHOLD;
    var v: Limb := if byInverse then Udiv1NormInit(b[bo + nb - 1]) else 0;
    FirstDigit(q, qo, a, ao, na, b, bo, nb);
    var i := n;
    while i > 0
      invariant 0 <= i <= n
      invariant b[..] == y && q[qo + n] <= 1
      invariant Within(x, a[..], ao, na) && Within(old(q[..]), q[..], qo, n + 1)
      invariant PartlyDivided(x, a[..], ao, na, q[..], qo, d, nb, i) && Seg(a[..], ao + i, nb) < d
    {
      i := i - 1;
      ghost var t, s := a[..], q[..];
      var digit := DivideWindow(a, ao + i, b, bo, nb, byInverse, v);
      NextDigit(x, t, a[..], ao, na, s, qo, d, nb, i, digit);
      q[qo + i] := digit;
    }
    SegEmpty(x, ao);
  }

  /** The first iteration of mp_divnorm, whose quotient limb can only be 0 or 1. */
  method FirstDigit(q: array<Limb>, qo: nat, a: array<Limb>, ao: nat, na: nat, b: array<Limb>, bo: nat, nb: nat)
    requires q != a && q != b && a != b && 2 <= nb <= na
    requires ao + na <= a.Length && bo + nb <= b.Length && qo + (na - nb + 1) <= q.Length
    requires Normalised(b[bo + nb - 1])
    modifies q, a
    ensures PartlyDivided(old(a[..]), a[..], ao, na, q[..], qo, Seg(b[..], bo, nb), nb, na - nb)
    ensures Seg(a[..], ao + (na - nb), nb) < Seg(b[..], bo, nb) && q[qo + na - nb] <= 1
    ensures Within(old(a[..]), a[..], ao, na) && Within(old(q[..]), q[..], qo, na - nb + 1)
  {
    hide Seg, BPow;
    ghost var x, y := a[..], b[..];
    ghost var d := Seg(y, bo, nb);
    var n := na - nb;
    var c := Cmp(a, ao + n, b, bo, nb);
    q[qo + n] := if c < 0 then 0 else 1;
    assert b[..] == y;
    if c >= 0 {
      var k := Sub(a, ao + n, a, ao + n, b, bo, nb, 0);
      ghost var t := a[..];
      SegBound(t, ao + n, nb);
      NoBorrow(Seg(x, ao + n, nb), d, Seg(t, ao + n, nb), k, BPow(nb));
    }
    FirstDigitValue(x, a[..], ao, na, q[..], qo, y, bo, nb, q[qo + n]);
  }

  lemma NoBorrow(x: nat, d: nat, t: nat, k: nat, p: nat)
    requires x >= d && x + k * p == t + d && t < p && k <= 1
    ensures k == 0 && t == x - d
  {
  }

  lemma FirstDigitValue(x: seq<Limb>, t: seq<Limb>, ao: nat, na: nat, s: seq<Limb>, qo: nat, y: seq<Limb>, bo: nat, nb: nat,
                        digit: Limb)
    requires 1 <= nb <= na && ao + na <= |x| == |t| && qo + (na - nb + 1) <= |s| && bo + nb <= |y|
    requires Normalised(y[bo + nb - 1]) && digit == s[qo + na - nb] <= 1 && Within(x, t, ao + (na - nb), nb)
    requires Seg(t, ao + (na - nb), nb) == Seg(x, ao + (na - nb), nb) - (if digit == 0 then 0 else Seg(y, bo, nb))
    requires digit == 0 ==> Seg(x, ao + (na - nb), nb) < Seg(y, bo, nb)
    ensures PartlyDivided(x, t, ao, na, s, qo, Seg(y, bo, nb), nb, na - nb)
    ensures Seg(t, ao + (na - nb), nb) < Seg(y, bo, nb)
  {
    hide Seg, BPow;
    var n, d := na - nb, Seg(y, bo, nb);
    SegOne(s, qo + n);
    SegSplit(x, ao, na, n); SegSplit(t, ao, na, n);
    SegSame(x, t, ao, n);
    Distribute(Seg(t, ao + n, nb), digit * d, BPow(n));
    SegBound(x, ao + n, nb);
    HalfFull(y, bo, nb);
  }

  /** A normalised divisor is at least half of B^nb, so a quotient by it of nb limbs is below 2. */
  lemma HalfFull(y: seq<Limb>, bo: nat, nb: nat)
    requires 1 <= nb && bo + nb <= |y| && Normalised(y[bo + nb - 1])
    ensures 2 * Seg(y, bo, nb) >= BPow(nb)
  {
    hide Seg, BPow;
    SegSnoc(y, bo, nb - 1);
    BPowSucc(nb - 1);
    var b1: nat, p := y[bo + nb - 1], BPow(nb - 1);
    MulMono(B, 2 * b1, p);
    MulAssoc(2, b1, p);
  }
}
