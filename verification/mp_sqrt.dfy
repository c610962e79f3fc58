/** Karatsuba square root of limb arrays. */
module MpSqrt {
  import opened Arith
  import opened Limbs
  import opened MpLinear
  import opened MpMul
  import opened MpRecip
  import opened SqrtLimb

  const HALF_BASE: nat := if B == 0x1_0000_0000 then 0x1_0000 else 0x1_0000_0000

  /** A limb read as signed. */
  function Signed(x: Limb): int {
    if 2 * (x as int) < B then x else x - B
  }

  /** The root and the remainder of mp_sqrtrem2, in wrapping limb arithmetic. */
  method TwoLimbRoot(a1: Limb, a0: Limb) returns (root: Limb, r: nat)
    requires 4 * (a1 as int) >= B
    ensures IsRoot(a1 as int * B + a0, root, r)
  {
    hide IsRoot;
    var s1, r1 := Sqrtrem1(a1);
    HighRoot(a1, s1, r1);
    MulNonNeg(r1, HALF_BASE);
    var q, u := Divide(r1 * HALF_BASE + a0 / HALF_BASE, 2 * s1);
    var s, t: int := s1 * HALF_BASE + q, u * HALF_BASE + a0 % HALF_BASE - q * q;
    TwoLimbStep(a1, a0, s1, r1, q, u, s, t);
    // q may reach HALF_BASE and s then wraps to 0; the decrement brings it back
    root := if s == B then 0 else s;
    if t < 0 {
      root := SubW(root, 1);
      t := t + (2 * (root as int) + 1);
    }
    r := t;
  }

  /** mp_sqrtrem2: the root of two limbs in one limb; the remainder keeps a second limb, which is returned. */
  method Sqrtrem2(s: array<Limb>, so: nat, a: array<Limb>, ao: nat) returns (rh: Limb)
    requires s != a && so < s.Length && ao + 2 <= a.Length && 4 * (a[ao + 1] as int) >= B
    modifies s, a
    ensures rh <= 1
    ensures IsRoot(Seg(old(a[..]), ao, 2), Seg(s[..], so, 1), Seg(a[..], ao, 1) + rh * BPow(1))
    ensures Within(old(a[..]), a[..], ao, 2) && Within(old(s[..]), s[..], so, 1)
  {
    hide Seg, BPow, IsRoot;
    SegCons(a[..], ao, 2); SegOne(a[..], ao + 1);
    var root, r := TwoLimbRoot(a[ao + 1], a[ao]);
    RemainderLimbs(Seg(a[..], ao, 2), root, r);
    s[so] := root;
    a[ao] := r % B;
    rh := r / B;
    SegOne(s[..], so); SegOne(a[..], ao);
    BPowSucc(0); SegEmpty(a[..], ao);
  }

  lemma HighRoot(a1: nat, s1: nat, r1: nat)
    requires a1 < B <= 4 * a1 && IsRoot(a1, s1, r1)
    ensures HALF_BASE <= 2 * s1 && s1 < HALF_BASE
  {
    RootHalf(a1, s1, r1, HALF_BASE / 2);
    if s1 >= HALF_BASE {
      MulBounds(HALF_BASE, s1, HALF_BASE, s1);
    }
  }

  lemma TwoLimbStep(a1: nat, a0: nat, s1: nat, r1: nat, q: nat, u: nat, s: int, r: int)
    requires a1 < B && a0 < B && IsRoot(a1, s1, r1) && HALF_BASE <= 2 * s1
    requires r1 * HALF_BASE + a0 / HALF_BASE == q * (2 * s1) + u && u < 2 * s1
    requires s == s1 * HALF_BASE + q && r == u * HALF_BASE + a0 % HALF_BASE - q * q
    ensures r < 0 ==> IsRoot(a1 * B + a0, s - 1, r + (2 * (s - 1) + 1)) && 0 < s <= B && 0 <= r + (2 * (s - 1) + 1)
    ensures r >= 0 ==> IsRoot(a1 * B + a0, s, r) && 0 <= s < B
  {
    var beta: nat := HALF_BASE;
    assert a0 == (a0 / beta) * beta + a0 % beta && a0 / beta < beta;
    Corrected(s1, r1, a0 / beta, a0 % beta, beta, q, u);
    assert Whole(s1, r1, a0 / beta, a0 % beta, beta) == a1 * B + a0;
    if r < 0 {
      RootFits(a1 * B + a0, s - 1, r + (2 * (s - 1) + 1), B);
    } else {
      RootFits(a1 * B + a0, s, r, B);
    }
  }

  lemma RootFits(a: int, s: int, r: int, p: nat)
    requires IsRoot(a, s, r) && a < p * p
    ensures s < p
  {
    if s >= p {
      MulBounds(p, s, p, s);
    }
  }

  lemma RemainderLimbs(a: int, s: nat, r: nat)
    requires IsRoot(a, s, r) && s < B
    ensures r / B <= 1 && r == r % B + (r / B) * B
  {
  }

  /** The dividend of the recursive step, less one root when the remainder of the high half has its extra bit. */
  method DropRoot(s: array<Limb>, so: nat, a: array<Limb>, ao: nat, h: nat, qh: Limb)
    requires s != a && so + h <= s.Length && ao + h <= a.Length && qh <= 1
    requires Seg(a[..], ao, h) + qh * BPow(h) <= 2 * Seg(s[..], so, h)
    modifies a
    ensures Seg(a[..], ao, h) == Seg(old(a[..]), ao, h) + qh * BPow(h) - qh * Seg(s[..], so, h)
    ensures Within(old(a[..]), a[..], ao, h)
  {
    hide Seg, BPow;
    if qh != 0 {
      ghost var x := a[..];
      var k := Sub(a, ao, a, ao, s, so, h, 0);
      SegBound(s[..], so, h); SegBound(a[..], ao, h);
      DropRootArith(Seg(x, ao, h), Seg(s[..], so, h), Seg(a[..], ao, h), k, BPow(h));
    }
  }

  lemma DropRootArith(low: nat, s1: nat, low': nat, k: nat, p: nat)
    requires low + k * p == low' + s1 && k <= 1 && low + p <= 2 * s1 && s1 < p && low' < p
    ensures low' == low + p - s1
  {
    if k == 0 {
      assert false;
    }
  }

  /** The quotient by twice the root: q in the low limbs of s with its extra bit qh, the remainder in a with its extra bit rh. */
  ghost predicate Quotient(r1: nat, mid: nat, pl: nat, q: nat, s1: nat, u: nat) {
    r1 * pl + mid == q * (2 * s1) + u && u < 2 * s1
  }

  method DivideByRoot(s: array<Limb>, so: nat, a: array<Limb>, ao: nat, n: nat, l: nat, h: nat, tmp: array<Limb>, qh0: Limb)
    returns (qh: Limb, rh: Limb)
    requires s != a && s != tmp && a != tmp && n == l + h && 1 <= l <= h && qh0 <= 1
    requires so + n <= s.Length && ao + l + n <= a.Length && l + 1 <= tmp.Length
    requires Seg(a[..], ao + 2 * l, h) + qh0 * BPow(h) <= 2 * Seg(s[..], so + l, h) && BPow(h) <= 2 * Seg(s[..], so + l, h)
    modifies s, a, tmp
    ensures qh <= 1 && rh <= 1
    ensures Quotient(Seg(old(a[..]), ao + 2 * l, h) + qh0 * BPow(h), Seg(old(a[..]), ao + l, l), BPow(l),
                     Seg(s[..], so, l) + qh * BPow(l), Seg(old(s[..]), so + l, h), Seg(a[..], ao + l, h) + rh * BPow(h))
    ensures Within(old(a[..]), a[..], ao + l, n) && Within(old(s[..]), s[..], so, l)
  {
    hide Seg, BPow, Quotient;
    ghost var x, y := a[..], s[..];
    ghost var s1, r1, mid := Seg(y, so + l, h), Seg(x, ao + 2 * l, h) + qh0 * BPow(h), Seg(x, ao + l, l);
    DropRoot(s, so + l, a, ao + 2 * l, h, qh0);
    ghost var x1 := a[..];
    SegSplit(x1, ao + l, n, l);
    SegSame(x, x1, ao + l, l);
    TopNormalised(y, so + l, h);
    DivNorm(tmp, 0, a, ao + l, n, s, so + l, h);
    ghost var rem := Seg(a[..], ao + l, h);
    SegSnoc(tmp[..], 0, l);
    assert n - h + 1 == l + 1 && s[..] == y;
    var qq := qh0 + tmp[l];
    Copy(s, so, tmp, 0, l);
    var ql := Shr(s, so, s, so, l, 1, qq % 2);
    assert Pow2(1) == 2;
    qh := qq / 2;
    ghost var z := s[..];
    SegSame(y, z, so + l, h);
    ghost var x2 := a[..];
    rh := 0;
    if ql != 0 {
      rh := Add(a, ao + l, a, ao + l, s, so + l, h, 0);
    }
    HalveQuotient(r1, mid, BPow(l), BPow(h), qh0, s1, Seg(tmp[..], 0, l), tmp[l], rem, Seg(z, so, l), ql, qq,
                  Seg(a[..], ao + l, h), rh);
  }

  /** Dividing by the normalised root and halving the quotient is dividing by twice the root. */
  lemma HalveQuotient(r1: nat, mid: nat, pl: nat, ph: nat, qh0: nat, s1: nat, t: nat, top: nat, rem: nat,
                      half: nat, ql: nat, qq: nat, low: nat, rh: nat)
    requires mid + pl * (r1 - qh0 * s1) == (t + top * pl) * s1 + rem && rem < s1 && qq == qh0 + top
    requires t + (qq % 2) * pl == half * 2 + ql && ql < 2
    requires low + rh * ph == (if ql == 0 then rem else rem + s1)
    ensures Quotient(r1, mid, pl, half + (qq / 2) * pl, s1, low + rh * ph)
  {
    var w := t + qq * pl;
    GatherQuotient(r1, mid, pl, qh0, s1, t, top, rem, qq, w);
    DoubleHalf(t, qq, qq / 2, qq % 2, pl, half, ql);
    HalveBoth(r1 * pl + mid, w, half + (qq / 2) * pl, ql, s1, rem, low + rh * ph);
  }

  lemma HalveBoth(total: nat, w: nat, q: nat, ql: nat, s1: nat, rem: nat, u: nat)
    requires total == w * s1 + rem && rem < s1 && w == 2 * q + ql && ql < 2 && u == (if ql == 0 then rem else rem + s1)
    ensures total == q * (2 * s1) + u && u < 2 * s1
  {
    Distribute(2 * q, ql, s1);
  }

  lemma DoubleHalf(t: nat, qq: nat, qb: nat, qr: nat, pl: nat, half: nat, ql: nat)
    requires qq == 2 * qb + qr && t + qr * pl == half * 2 + ql
    ensures 2 * (half + qb * pl) + ql == t + qq * pl
  {
    Distribute(2 * qb, qr, pl);
    MulAssoc(2, qb, pl);
  }

  lemma GatherQuotient(r1: nat, mid: nat, pl: nat, qh0: nat, s1: nat, t: nat, top: nat, rem: nat, qq: nat, w: nat)
    requires mid + pl * (r1 - qh0 * s1) == (t + top * pl) * s1 + rem && qq == qh0 + top && w == t + qq * pl
    ensures r1 * pl + mid == w * s1 + rem
  {
    Distribute(r1, qh0 * s1, pl);
    MulAssoc(pl, qh0, s1);
    Distribute(qh0, top, pl);
    Distribute(t + top * pl, qh0 * pl, s1);
  }

  /** Subtracting the square of q from the remainder; with qh set, q is B^l and its square a single limb higher up. */
  method SubtractSquare(s: array<Limb>, so: nat, a: array<Limb>, ao: nat, n: nat, l: nat, qh: Limb) returns (k: Limb)
    requires s != a && 1 <= l && 2 * l <= n && so + l <= s.Length && ao + 2 * n <= a.Length && qh <= 1
    requires qh == 1 ==> Seg(s[..], so, l) == 0
    modifies a
    ensures k <= 1
    ensures var q := Seg(s[..], so, l) + qh * BPow(l);
            Seg(old(a[..]), ao, n) + k * BPow(n) == Seg(a[..], ao, n) + q * q
    ensures Within(old(a[..]), a[..], ao, 2 * n)
  {
    hide Seg, BPow;
    ghost var x, q := a[..], Seg(s[..], so, l);
    var c: Limb;
    ghost var square: nat;
    if qh != 0 {
      c := qh;
      square := BPow(2 * l);
      BPowDouble(l);
    } else {
      Mul(a, ao + n, s, so, l, s, so, l);
      ghost var x1 := a[..];
      SegSame(x, x1, ao, 2 * l);
      c := Sub(a, ao, a, ao, a, ao + n, 2 * l, 0);
      square := Seg(x1, ao + n, 2 * l);
      assert l + l == 2 * l;
    }
    ghost var x2 := a[..];
    k := SubUi(a, ao + 2 * l, c, n - 2 * l);
    ghost var x3 := a[..];
    SegSplit(x, ao, n, 2 * l); SegSplit(x3, ao, n, 2 * l);
    SegSame(x2, x3, ao, 2 * l);
    SegSame(x, x2, ao + 2 * l, n - 2 * l);
    BPowAdd(2 * l, n - 2 * l);
    BorrowThrough(Seg(x, ao, 2 * l), Seg(x, ao + 2 * l, n - 2 * l), Seg(x2, ao, 2 * l), Seg(x3, ao + 2 * l, n - 2 * l),
                  c, k, square, BPow(2 * l), BPow(n - 2 * l));
    if n == 2 * l {
      SegEmpty(x, ao + 2 * l); SegEmpty(x3, ao + 2 * l);
    }
  }

  lemma BorrowThrough(x0: nat, x1: nat, y0: nat, y1: nat, c: nat, k: nat, square: nat, p: nat, pm: nat)
    requires x0 + c * p == y0 + square && x1 + k * pm == y1 + c
    ensures x0 + p * x1 + k * (p * pm) == y0 + p * y1 + square
  {
    MulAssoc(k, p, pm);
    Distribute(x1, k * pm, p);
    Distribute(y1, c, p);
  }

  /** The last correction of mp_sqrtrem_rec, taken when the remainder came out negative. */
  method Decrement(s: array<Limb>, so: nat, a: array<Limb>, ao: nat, n: nat, rh0: Limb, ghost root: nat, ghost r: int)
    returns (rh: Limb)
    requires Signed(rh0) == -1 && s != a && 1 <= n && so + n <= s.Length && ao + n <= a.Length
    requires (Seg(s[..], so, n) as int == root || Seg(s[..], so, n) + BPow(n) == root) && 0 < root <= BPow(n)
    requires r == Seg(a[..], ao, n) - BPow(n) && 0 <= r + (2 * (root - 1) + 1) <= 2 * (root - 1)
    modifies s, a
    ensures rh <= 1 && Seg(s[..], so, n) == root - 1 && Seg(a[..], ao, n) + rh * BPow(n) == r + (2 * (root - 1) + 1)
    ensures Within(old(a[..]), a[..], ao, n) && Within(old(s[..]), s[..], so, n)
  {
    hide Seg, BPow;
    ghost var x, y := a[..], s[..];
    var b := SubUi(s, so, 1, n);
    ghost var z := s[..];
    SegBound(z, so, n);
    assert Seg(z, so, n) == root - 1;
    var h := AddMul1(a, ao, s, so, n, 2);
    ghost var x1 := a[..];
    assert s[..] == z;
    var k := AddUi(a, ao, 1, n);
    SegBound(x, ao, n); SegBound(x1, ao, n); SegBound(a[..], ao, n);
    CarryBack(Seg(x, ao, n), Seg(x1, ao, n), Seg(a[..], ao, n), h, k, root - 1, BPow(n), r);
    rh := AddW(AddW(rh0, h), k);
  }

  lemma CarryBack(x: nat, x1: nat, x2: nat, h: nat, k: nat, s: nat, p: nat, r: int)
    requires x1 + h * p == x + s * 2 && x2 + k * p == x1 + 1 && k <= 1 && x < p && x1 < p && x2 < p && s < p
    requires r == x - p && 0 <= r + (2 * s + 1) <= 2 * s
    ensures 1 <= h + k <= 2 && x2 + (h + k - 1) * p == r + (2 * s + 1)
  {
    Distribute(h + k, 1, p);
    Distribute(h, k, p);
    if h + k >= 3 {
      MulMono(3, h + k, p);
    }
  }

  lemma {:induction false} BaseEven(n: nat)
    requires 1 <= n
    ensures BPow(n) % 2 == 0
  {
    BPowSucc(n - 1);
    MulAssoc(2, B / 2, BPow(n - 1));
  }

  /** A radicand whose top limb has one of its two high bits set has a normalised root. */
  lemma RootNormalised(x: seq<Limb>, ao: nat, h: nat, s: nat, r: nat)
    requires 1 <= h && ao + 2 * h <= |x| && 4 * (x[ao + 2 * h - 1] as int) >= B && IsRoot(Seg(x, ao, 2 * h), s, r)
    ensures BPow(h) <= 2 * s
  {
    hide Seg, BPow;
    var p, top: nat := BPow(h), x[ao + 2 * h - 1];
    BPowDouble(h);
    SegSnoc(x, ao, 2 * h - 1);
    BPowSucc(2 * h - 1);
    MulMono(B, 4 * top, BPow(2 * h - 1));
    MulAssoc(4, top, BPow(2 * h - 1));
    BaseEven(h);
    var half := p / 2;
    assert p * p == 4 * (half * half) by { MulAssoc(2, half, 2 * half); MulAssoc(half, 2, half); }
    RootHalf(Seg(x, ao, 2 * h), s, r, half);
  }

  /** The radicand seen as the high half's radicand followed by two digits in base B^l. */
  lemma SplitRadicand(x: seq<Limb>, ao: nat, n: nat, l: nat, h: nat, s1: nat, r1: nat)
    requires n == l + h && ao + 2 * n <= |x| && IsRoot(Seg(x, ao + 2 * l, 2 * h), s1, r1)
    ensures Seg(x, ao, 2 * n) == Whole(s1, r1, Seg(x, ao + l, l), Seg(x, ao, l), BPow(l))
  {
    hide Seg, BPow;
    var p := BPow(l);
    var hi, mid, lo := Seg(x, ao + 2 * l, 2 * h), Seg(x, ao + l, l), Seg(x, ao, l);
    SegSplit(x, ao, 2 * n, l);
    SegSplit(x, ao + l, 2 * n - l, l);
    assert ao + l + l == ao + 2 * l && 2 * n - l - l == 2 * h;
    Distribute(mid, p * hi, p);
    MulAssoc(p, p, hi);
  }

  /** mp_sqrtrem_rec: s becomes the root of the 2 n limbs at ao; their low n limbs become the remainder, topped by rh. */
  method SqrtremRec(s: array<Limb>, so: nat, a: array<Limb>, ao: nat, n: nat, tmp: array<Limb>) returns (rh: Limb)
    requires s != a && s != tmp && a != tmp && 1 <= n
    requires so + n <= s.Length && ao + 2 * n <= a.Length && n / 2 + 1 <= tmp.Length
    requires 4 * (a[ao + 2 * n - 1] as int) >= B
    modifies s, a, tmp
    ensures rh <= 1
    ensures IsRoot(Seg(old(a[..]), ao, 2 * n), Seg(s[..], so, n), Seg(a[..], ao, n) + rh * BPow(n))
    ensures Within(old(a[..]), a[..], ao, 2 * n) && Within(old(s[..]), s[..], so, n)
    decreases n
  {
    hide Seg, BPow, IsRoot, Quotient;
    if n == 1 {
      rh := Sqrtrem2(s, so, a, ao);
      return;
    }
    ghost var x := a[..];
    var l := n / 2;
    var h := n - l;
    var qh := SqrtremRec(s, so + l, a, ao + 2 * l, h, tmp);
    ghost var x1, y1 := a[..], s[..];
    ghost var s1, r1 := Seg(y1, so + l, h), Seg(x1, ao + 2 * l, h) + qh * BPow(h);
    RootNormalised(x, ao + 2 * l, h, s1, r1);
    RootRange(Seg(x, ao + 2 * l, 2 * h), s1, r1);
    qh, rh := DivideByRoot(s, so, a, ao, n, l, h, tmp, qh);
    rh := FinishRoot(s, so, a, ao, n, l, h, qh, rh, x, s1, r1) by {
      SegSame(x, x1, ao + l, l);
      SegSame(x, a[..], ao, l);
      SegSame(y1, s[..], so + l, h);
    }
  }

  lemma RootRange(a: int, s: int, r: int)
    requires IsRoot(a, s, r)
    ensures r <= 2 * s
  {
  }

  /** The part of mp_sqrtrem_rec after the division: square, subtract, correct. */
  method FinishRoot(s: array<Limb>, so: nat, a: array<Limb>, ao: nat, n: nat, l: nat, h: nat, qh: Limb, rh0: Limb,
                    ghost x: seq<Limb>, ghost s1: nat, ghost r1: nat)
    returns (rh: Limb)
    requires s != a && n == l + h && 1 <= l <= h <= l + 1 && so + n <= s.Length && ao + 2 * n <= a.Length == |x|
    requires qh <= 1 && rh0 <= 1 && IsRoot(Seg(x, ao + 2 * l, 2 * h), s1, r1) && BPow(h) <= 2 * s1
    requires Seg(s[..], so + l, h) == s1 && Seg(a[..], ao, l) == Seg(x, ao, l)
    requires Quotient(r1, Seg(x, ao + l, l), BPow(l), Seg(s[..], so, l) + qh * BPow(l), s1,
                      Seg(a[..], ao + l, h) + rh0 * BPow(h))
    modifies s, a
    ensures rh <= 1
    ensures IsRoot(Seg(x, ao, 2 * n), Seg(s[..], so, n), Seg(a[..], ao, n) + rh * BPow(n))
    ensures Within(old(a[..]), a[..], ao, 2 * n) && Within(old(s[..]), s[..], so, n)
  {
    hide Seg, BPow, IsRoot;
    ghost var x0, y0 := a[..], s[..];
    LowQuotient(x, ao, l, h, s1, r1, Seg(y0, so, l), qh, Seg(x0, ao + l, h) + rh0 * BPow(h));
    var carry := AddUi(s, so + l, qh, h);
    ghost var y := s[..];
    SegSame(y0, y, so, l);
    var k := SubtractSquare(s, so, a, ao, n, l, qh);
    rh := SubW(rh0, k);
    assert s[..] == y;
    ghost var q, u := Seg(y, so, l) + qh * BPow(l), Seg(x0, ao + l, h) + rh0 * BPow(h);
    ghost var root, r := s1 * BPow(l) + q, u * BPow(l) + Seg(x, ao, l) - q * q;
    BothValues(x0, a[..], ao, y, so, n, l, h, rh0, k, qh, carry, s1, q, rh);
    SignOfRemainder(x, a[..], ao, y, so, n, l, h, s1, r1, q, u, rh, carry, root, r);
    if Signed(rh) < 0 {
      rh := Decrement(s, so, a, ao, n, rh, root, r);
    }
  }

  lemma LowQuotient(x: seq<Limb>, ao: nat, l: nat, h: nat, s1: nat, r1: nat, low: nat, qh: nat, u: nat)
    requires ao + 2 * (l + h) <= |x| && l <= h && IsRoot(Seg(x, ao + 2 * l, 2 * h), s1, r1) && BPow(h) <= 2 * s1
    requires Quotient(r1, Seg(x, ao + l, l), BPow(l), low + qh * BPow(l), s1, u)
    ensures StepStart(s1, r1, Seg(x, ao + l, l), Seg(x, ao, l), BPow(l), low + qh * BPow(l), u)
    ensures qh == 1 ==> low == 0
  {
    hide Seg, BPow;
    SegBound(x, ao + l, l); SegBound(x, ao, l);
    BPowMono(l, h);
    StepQuotient(s1, r1, Seg(x, ao + l, l), Seg(x, ao, l), BPow(l), low + qh * BPow(l), u);
  }

  lemma BothValues(x0: seq<Limb>, x1: seq<Limb>, ao: nat, y: seq<Limb>, so: nat, n: nat, l: nat, h: nat,
                   rh0: Limb, k: Limb, qh: nat, carry: nat, s1: nat, q: nat, rh: Limb)
    requires n == l + h && ao + n <= |x0| == |x1| && so + n <= |y| && rh0 <= 1 && k <= 1 && rh == SubW(rh0, k)
    requires Seg(x0, ao, n) + k * BPow(n) == Seg(x1, ao, n) + q * q
    requires Seg(y, so + l, h) + carry * BPow(h) == s1 + qh && q == Seg(y, so, l) + qh * BPow(l)
    ensures Seg(x1, ao, n) + Signed(rh) * BPow(n)
         == (Seg(x0, ao + l, h) + rh0 * BPow(h)) * BPow(l) + Seg(x0, ao, l) - q * q
    ensures Seg(y, so, n) + carry * BPow(n) == s1 * BPow(l) + q
  {
    hide Seg, BPow;
    SegSplit(x0, ao, n, l);
    SegSplit(y, so, n, l);
    BPowAdd(l, h);
    RemainderValue(Seg(x0, ao, l), Seg(x0, ao + l, h), rh0, k, Seg(x0, ao, n), Seg(x1, ao, n), q, BPow(l), BPow(h), rh);
    RootValue(Seg(y, so, l), Seg(y, so + l, h), s1, qh, carry, q, Seg(y, so, n), BPow(l), BPow(h));
  }

  lemma SignOfRemainder(x: seq<Limb>, x1: seq<Limb>, ao: nat, y: seq<Limb>, so: nat, n: nat, l: nat, h: nat,
                        s1: nat, r1: nat, q: nat, u: nat, rh: Limb, carry: nat, root: nat, r: int)
    requires n == l + h && ao + 2 * n <= |x| == |x1| && so + n <= |y| && -1 <= Signed(rh) <= 1
    requires IsRoot(Seg(x, ao + 2 * l, 2 * h), s1, r1)
    requires StepStart(s1, r1, Seg(x, ao + l, l), Seg(x, ao, l), BPow(l), q, u)
    requires root == s1 * BPow(l) + q && r == u * BPow(l) + Seg(x, ao, l) - q * q
    requires Seg(x1, ao, n) + Signed(rh) * BPow(n) == r && Seg(y, so, n) + carry * BPow(n) == root
    ensures var a, low, s, p := Seg(x, ao, 2 * n), Seg(x1, ao, n), Seg(y, so, n), BPow(n);
            if Signed(rh) < 0 then
              && IsRoot(a, root - 1, r + (2 * (root - 1) + 1)) && Signed(rh) == -1 && r == low - p && 0 < root <= p
              && (s == root || s + p == root) && 0 <= r + (2 * (root - 1) + 1) <= 2 * (root - 1)
            else IsRoot(a, s, r) && rh <= 1
  {
    hide Seg, BPow, IsRoot;
    SplitRadicand(x, ao, n, l, h, s1, r1);
    Corrected(s1, r1, Seg(x, ao + l, l), Seg(x, ao, l), BPow(l), q, u);
    SegBound(x, ao, 2 * n); SegBound(y, so, n); SegBound(x1, ao, n);
    BPowDouble(n);
    SignDecides(Seg(x1, ao, n), rh, BPow(n), r, root, carry, Seg(y, so, n), Seg(x, ao, 2 * n));
  }

  lemma RemainderValue(lo: nat, mid: nat, rh0: Limb, k: Limb, x: nat, x': nat, q: nat, pl: nat, ph: nat, rh: Limb)
    requires x == lo + pl * mid && x + k * (pl * ph) == x' + q * q && rh0 <= 1 && k <= 1 && rh == SubW(rh0, k)
    ensures x' + Signed(rh) * (pl * ph) == (mid + rh0 * ph) * pl + lo - q * q
  {
    var c: nat, k': nat := rh0, k;
    assert Signed(rh) == c - k';
    Distribute(c, k', pl * ph);
    Distribute(mid, c * ph, pl);
    MulAssoc(c, ph, pl);
  }

  lemma RootValue(low: nat, high: nat, s1: nat, qh: nat, carry: nat, q: nat, s: nat, pl: nat, ph: nat)
    requires high + carry * ph == s1 + qh && q == low + qh * pl && s == low + pl * high
    ensures s + carry * (pl * ph) == s1 * pl + q
  {
    MulAssoc(carry, pl, ph);
    Distribute(high, carry * ph, pl);
    Distribute(s1, qh, pl);
  }

  /** A negative top limb is a negative remainder, and only then can the root have left its n limbs. */
  lemma SignDecides(low: nat, rh: Limb, p: nat, r: int, root: nat, carry: nat, s: nat, a: nat)
    requires low < p && low + Signed(rh) * p == r && -1 <= Signed(rh) <= 1
    requires s < p && s + carry * p == root && a < p * p
    requires if r < 0 then IsRoot(a, root - 1, r + (2 * (root - 1) + 1)) else IsRoot(a, root, r)
    ensures Signed(rh) < 0 <==> r < 0
    ensures Signed(rh) < 0 ==> Signed(rh) == -1 && r == low - p && 0 < root <= p && (s == root || s + p == root)
                               && 0 <= r + (2 * (root - 1) + 1) <= 2 * (root - 1)
    ensures Signed(rh) >= 0 ==> rh <= 1 && s == root
  {
    if r < 0 {
      RootFits(a, root - 1, r + (2 * (root - 1) + 1), p);
      if carry >= 2 { MulMono(2, carry, p); }
    } else {
      RootFits(a, root, r, p);
      if carry >= 1 { MulMono(1, carry, p); }
    }
  }

  /** mp_sqrtrem: the working buffer has n / 2 + 1 limbs and the remainder's top limb goes to position n. */
  method Sqrtrem(s: array<Limb>, a: array<Limb>, n: nat)
    requires s != a && 1 <= n && n <= s.Length && 2 * n <= a.Length && 4 * (a[2 * n - 1] as int) >= B
    modifies s, a
    ensures IsRoot(Seg(old(a[..]), 0, 2 * n), Seg(s[..], 0, n), Seg(a[..], 0, n + 1))
  {
    hide Seg, BPow, IsRoot;
    var tmp := new Limb[n / 2 + 1];
    var rh := SqrtremRec(s, 0, a, 0, n, tmp);
    ghost var x := a[..];
    a[n] := rh;
    SegSnoc(a[..], 0, n);
    SegSame(x, a[..], 0, n);
  }
}
