/** The linear-time limb loops of libbf: carries, borrows and single-limb products. */
module MpLinear {
  import opened Arith
  import opened Limbs

  /** After i limbs of mp_add: the sum so far, with the carry k out of it. */
  ghost predicate Added(s: seq<Limb>, ro: nat, x: seq<Limb>, ao: nat, y: seq<Limb>, bo: nat,
                        i: nat, k: nat, carry: nat)
    requires ro + i <= |s| && ao + i <= |x| && bo + i <= |y|
  {
    Seg(s, ro, i) + k * BPow(i) == Seg(x, ao, i) + Seg(y, bo, i) + carry
  }

  lemma AddStep(s: seq<Limb>, ro: nat, x: seq<Limb>, ao: nat, y: seq<Limb>, bo: nat,
                i: nat, k: nat, carry: nat, t: Limb, k': nat)
    requires ro + i < |s| && ao + i < |x| && bo + i < |y|
    requires Added(s, ro, x, ao, y, bo, i, k, carry)
    requires t as int + k' * B == x[ao + i] as int + y[bo + i] + k
    ensures Added(s[ro + i := t], ro, x, ao, y, bo, i + 1, k', carry)
  {
    SegSnoc(s[ro + i := t], ro, i); SegSnoc(x, ao, i); SegSnoc(y, bo, i);
    SegSame(s, s[ro + i := t], ro, i);
    var v: nat, w: nat, z: nat := x[ao + i], y[bo + i], t;
    CarryStep(Seg(s, ro, i), k, Seg(x, ao, i) + Seg(y, bo, i) + carry, z, k', v + w, BPow(i));
    Distribute(v, w, BPow(i));
  }

  /** mp_add: r = a + b + carry over n limbs; the result is the carry out. */
  method Add(r: array<Limb>, ro: nat, a: array<Limb>, ao: nat, b: array<Limb>, bo: nat, n: nat, carry: Limb)
    returns (k: Limb)
    requires ro + n <= r.Length && ao + n <= a.Length && bo + n <= b.Length && carry <= 1
    requires r != a || ro <= ao || ao + n <= ro
    requires r != b || ro <= bo || bo + n <= ro
    modifies r
    ensures k <= 1
    ensures Seg(r[..], ro, n) + k * BPow(n) == Seg(old(a[..]), ao, n) + Seg(old(b[..]), bo, n) + carry
    ensures Within(old(r[..]), r[..], ro, n)
  {
    hide Seg, BPow;
    ghost var x, y, s := a[..], b[..], r[..];
    SegEmpty(s, ro); SegEmpty(x, ao); SegEmpty(y, bo);
    k := carry;
    var i := 0;
    while i < n
      invariant 0 <= i <= n && k <= 1
      invariant r[..] == s && Within(old(r[..]), s, ro, i)
      invariant Added(s, ro, x, ao, y, bo, i, k, carry)
    {
      var v, w := a[ao + i], b[bo + i];
      assert v == x[ao + i] && w == y[bo + i];
      var t := AddW(v, w);
      var k1 := if t < v then 1 else 0;
      t := AddW(t, k);
      ghost var k0 := k;
      k := if t < k || k1 == 1 then 1 else 0;
      r[ro + i] := t;
      AddStep(s, ro, x, ao, y, bo, i, k0, carry, t, k);
      s := s[ro + i := t];
      i := i + 1;
    }
  }

  /** Subtraction keeps the same relation with the roles changed: difference + subtrahend + borrow = minuend. */
  lemma SubStep(s: seq<Limb>, ro: nat, x: seq<Limb>, ao: nat, y: seq<Limb>, bo: nat,
                i: nat, k: nat, borrow: nat, t: Limb, k': nat)
    requires ro + i < |s| && ao + i < |x| && bo + i < |y|
    requires Added(x, ao, s, ro, y, bo, i, k, borrow)
    requires x[ao + i] as int + k' * B == t as int + y[bo + i] + k
    ensures Added(x, ao, s[ro + i := t], ro, y, bo, i + 1, k', borrow)
  {
    SegSnoc(s[ro + i := t], ro, i); SegSnoc(x, ao, i); SegSnoc(y, bo, i);
    SegSame(s, s[ro + i := t], ro, i);
    var v: nat, w: nat, z: nat := x[ao + i], y[bo + i], t;
    CarryStep(Seg(x, ao, i), k, Seg(s, ro, i) + Seg(y, bo, i) + borrow, v, k', z + w, BPow(i));
    Distribute(z, w, BPow(i));
  }

  /** mp_sub: r = a - b - borrow over n limbs; the result is the borrow out. */
  method Sub(r: array<Limb>, ro: nat, a: array<Limb>, ao: nat, b: array<Limb>, bo: nat, n: nat, borrow: Limb)
    returns (k: Limb)
    requires ro + n <= r.Length && ao + n <= a.Length && bo + n <= b.Length && borrow <= 1
    requires r != a || ro <= ao || ao + n <= ro
    requires r != b || ro <= bo || bo + n <= ro
    modifies r
    ensures k <= 1
    ensures Seg(old(a[..]), ao, n) + k * BPow(n) == Seg(r[..], ro, n) + Seg(old(b[..]), bo, n) + borrow
    ensures Within(old(r[..]), r[..], ro, n)
  {
    hide Seg, BPow;
    ghost var x, y, s := a[..], b[..], r[..];
    SegEmpty(s, ro); SegEmpty(x, ao); SegEmpty(y, bo);
    k := borrow;
    var i := 0;
    while i < n
      invariant 0 <= i <= n && k <= 1
      invariant r[..] == s && Within(old(r[..]), s, ro, i)
      invariant Added(x, ao, s, ro, y, bo, i, k, borrow)
    {
      var v, w := a[ao + i], b[bo + i];
      assert v == x[ao + i] && w == y[bo + i];
      var t := SubW(v, w);
      var k1 := if t > v then 1 else 0;
      var u := SubW(t, k);
      ghost var k0 := k;
      k := if u > t || k1 == 1 then 1 else 0;
      r[ro + i] := u;
      SubStep(s, ro, x, ao, y, bo, i, k0, borrow, u, k);
      s := s[ro + i := u];
      i := i + 1;
    }
  }

  /** The window that starts at lo held v and now holds v + c, less what was carried out of its n limbs. */
  ghost predicate Bumped(s: seq<Limb>, s': seq<Limb>, lo: nat, n: nat, c: nat, k: nat)
    requires lo + n <= |s| == |s'|
  {
    Seg(s', lo, n) + k * BPow(n) == Seg(s, lo, n) + c
  }

  lemma BumpStep(s: seq<Limb>, s': seq<Limb>, lo: nat, i: nat, c: nat, k: nat, t: Limb, k': nat)
    requires lo + i < |s| == |s'| && Bumped(s, s', lo, i, c, k)
    requires t as int + k' * B == s[lo + i] as int + k
    ensures Bumped(s, s'[lo + i := t], lo, i + 1, c, k')
  {
    SegSnoc(s'[lo + i := t], lo, i); SegSnoc(s, lo, i);
    SegSame(s', s'[lo + i := t], lo, i);
    var v: nat, z: nat := s[lo + i], t;
    CarryStep(Seg(s', lo, i), k, Seg(s, lo, i) + c, z, k', v, BPow(i));
  }

  /** Limbs above position i that were left alone extend the relation with a zero carry. */
  lemma {:induction false} BumpRest(s: seq<Limb>, s': seq<Limb>, lo: nat, i: nat, n: nat, c: nat)
    requires i <= n && lo + n <= |s| == |s'| && Bumped(s, s', lo, i, c, 0)
    requires forall j :: lo + i <= j < lo + n ==> s'[j] == s[j]
    ensures Bumped(s, s', lo, n, c, 0)
  {
    SegSplit(s, lo, n, i);
    SegSplit(s', lo, n, i);
    SegSame(s, s', lo + i, n - i);
  }

  /** mp_add_ui: a += b over n limbs, stopping at the first limb that produces no carry. */
  method AddUi(a: array<Limb>, lo: nat, b: Limb, n: nat) returns (k: Limb)
    requires lo + n <= a.Length
    modifies a
    ensures n > 0 ==> k <= 1
    ensures Seg(a[..], lo, n) + k * BPow(n) == Seg(old(a[..]), lo, n) + b
    ensures Within(old(a[..]), a[..], lo, n)
  {
    hide Seg, BPow;
    ghost var x, s := a[..], a[..];
    SegEmpty(x, lo);
    k := b;
    var i := 0;
    while i < n && k != 0
      invariant 0 <= i <= n && (i > 0 ==> k <= 1)
      invariant a[..] == s && Within(x, s, lo, i)
      invariant Bumped(x, s, lo, i, b, k)
    {
      var v := a[lo + i];
      assert v == x[lo + i];
      var t := AddW(v, k);
      ghost var k0 := k;
      k := if t < k then 1 else 0;
      a[lo + i] := t;
      BumpStep(x, s, lo, i, b, k0, t, k);
      s := s[lo + i := t];
      i := i + 1;
    }
    if i < n {
      BumpRest(x, s, lo, i, n, b);
    }
  }

  /** mp_sub_ui: a -= b over n limbs, stopping at the first limb that needs no borrow. */
  method SubUi(a: array<Limb>, lo: nat, b: Limb, n: nat) returns (k: Limb)
    requires lo + n <= a.Length
    modifies a
    ensures n > 0 ==> k <= 1
    ensures Seg(old(a[..]), lo, n) + k * BPow(n) == Seg(a[..], lo, n) + b
    ensures Within(old(a[..]), a[..], lo, n)
  {
    hide Seg, BPow;
    ghost var x, s := a[..], a[..];
    SegEmpty(x, lo);
    k := b;
    var i := 0;
    while i < n
      invariant 0 <= i <= n && (i > 0 ==> k <= 1)
      invariant a[..] == s && Within(x, s, lo, i)
      invariant Bumped(s, x, lo, i, b, k)
    {
      var v := a[lo + i];
      assert v == x[lo + i];
      var t := SubW(v, k);
      ghost var k0 := k;
      k := if t > v then 1 else 0;
      a[lo + i] := t;
      DropStep(x, s, lo, i, b, k0, t, k);
      s := s[lo + i := t];
      i := i + 1;
      if k == 0 {
        BumpRest(s, x, lo, i, n, b);
        return;
      }
    }
  }

  lemma DropStep(s: seq<Limb>, s': seq<Limb>, lo: nat, i: nat, c: nat, k: nat, t: Limb, k': nat)
    requires lo + i < |s| == |s'| && Bumped(s', s, lo, i, c, k)
    requires s[lo + i] as int + k' * B == t as int + k
    ensures Bumped(s'[lo + i := t], s, lo, i + 1, c, k')
  {
    SegSnoc(s'[lo + i := t], lo, i); SegSnoc(s, lo, i);
    SegSame(s', s'[lo + i := t], lo, i);
    var v: nat, z: nat := s[lo + i], t;
    CarryStep(Seg(s, lo, i), k, Seg(s', lo, i) + c, v, k', z, BPow(i));
  }

  lemma MulCarryStep(z: int, l: int, c: int, x: int, b: int, v: int, t: int, l': int, u: int, p: int)
    requires z + l * p == c + x * b && t + l' * B == u + v * b + l
    ensures z + t * p + l' * (B * p) == (c + u * p) + (x + v * p) * b
  {
    CarryStep(z, l, c + x * b, t, l', u + v * b, p);
    Distribute(u, v * b, p);
    Distribute(x, v * p, b);
    MulAssoc(v, b, p);
  }

  /** Double-limb products fit: v * b + l + u never leaves 2 * LIMB_BITS bits. */
  lemma ProductFits(v: nat, b: nat)
    requires v < B && b < B
    ensures 0 <= v * b <= B * B - 2 * B + 1
  {
    var m: nat := B - 1;
    MulBounds(v, m, b, m);
    SquareNext(m);
  }

  lemma SquareNext(m: nat)
    ensures (m + 1) * (m + 1) == m * m + 2 * m + 1
  {
  }

  lemma HighLimb(t: nat)
    requires t < B * B
    ensures t / B < B && t == t % B + (t / B) * B
  {
    if t / B >= B {
      MulMono(B, t / B, B);
    }
  }

  /** One limb of mp_mul1 and mp_add_mul1: the low limb of u + v * b + l, and the carry. */
  function MulLimb(u: Limb, v: Limb, b: Limb, l: Limb): (r: (Limb, Limb))
    ensures r.0 as int + r.1 * B == u as int + v as int * b + l
  {
    ProductFits(v, b);
    var t: nat := v * b + l + u;
    HighLimb(t);
    (t % B, t / B)
  }

  ghost predicate Scaled(s: seq<Limb>, ro: nat, x: seq<Limb>, ao: nat, i: nat, b: nat, l0: nat, l: nat)
    requires ro + i <= |s| && ao + i <= |x|
  {
    Seg(s, ro, i) + l * BPow(i) == l0 + Seg(x, ao, i) * b
  }

  lemma ScaleStep(s: seq<Limb>, ro: nat, x: seq<Limb>, ao: nat, i: nat, b: nat, l0: nat, l: nat, t: Limb, l': nat)
    requires ro + i < |s| && ao + i < |x| && Scaled(s, ro, x, ao, i, b, l0, l)
    requires t as int + l' * B == x[ao + i] as int * b + l
    ensures Scaled(s[ro + i := t], ro, x, ao, i + 1, b, l0, l')
  {
    SegSnoc(s[ro + i := t], ro, i); SegSnoc(x, ao, i);
    SegSame(s, s[ro + i := t], ro, i);
    var v: nat, z: nat := x[ao + i], t;
    MulCarryStep(Seg(s, ro, i), l, l0, Seg(x, ao, i), b, v, z, l', 0, BPow(i));
  }

  /** mp_mul1: r = a * b + l over n limbs; the result is the high limb. */
  method Mul1(r: array<Limb>, ro: nat, a: array<Limb>, ao: nat, n: nat, b: Limb, l: Limb) returns (h: Limb)
    requires ro + n <= r.Length && ao + n <= a.Length
    requires r != a || ro <= ao || ao + n <= ro
    modifies r
    ensures Seg(r[..], ro, n) + h * BPow(n) == l + Seg(old(a[..]), ao, n) * b
    ensures Within(old(r[..]), r[..], ro, n)
  {
    hide Seg, BPow;
    ghost var x, s := a[..], r[..];
    SegEmpty(s, ro); SegEmpty(x, ao);
    h := l;
    var i := 0;
    while i < n
      invariant 0 <= i <= n
      invariant r[..] == s && Within(old(r[..]), s, ro, i)
      invariant Scaled(s, ro, x, ao, i, b, l, h)
    {
      var v := a[ao + i];
      assert v == x[ao + i];
      var (t, c) := MulLimb(0, v, b, h);
      r[ro + i] := t;
      ScaleStep(s, ro, x, ao, i, b, l, h, t, c);
      s := s[ro + i := t];
      h := c;
      i := i + 1;
    }
  }

  ghost predicate Accumulated(s: seq<Limb>, s0: seq<Limb>, ro: nat, x: seq<Limb>, ao: nat, i: nat, b: nat, l: nat)
    requires ro + i <= |s| == |s0| && ao + i <= |x|
  {
    Seg(s, ro, i) + l * BPow(i) == Seg(s0, ro, i) + Seg(x, ao, i) * b
  }

  lemma AccumulateStep(s: seq<Limb>, s0: seq<Limb>, ro: nat, x: seq<Limb>, ao: nat, i: nat, b: nat, l: nat,
                       t: Limb, l': nat)
    requires ro + i < |s| == |s0| && ao + i < |x| && Accumulated(s, s0, ro, x, ao, i, b, l)
    requires t as int + l' * B == s0[ro + i] as int + x[ao + i] as int * b + l
    ensures Accumulated(s[ro + i := t], s0, ro, x, ao, i + 1, b, l')
  {
    SegSnoc(s[ro + i := t], ro, i); SegSnoc(x, ao, i); SegSnoc(s0, ro, i);
    SegSame(s, s[ro + i := t], ro, i);
    var v: nat, z: nat, u: nat := x[ao + i], t, s0[ro + i];
    MulCarryStep(Seg(s, ro, i), l, Seg(s0, ro, i), Seg(x, ao, i), b, v, z, l', u, BPow(i));
  }

  /** mp_add_mul1: r += a * b over n limbs; the result is the high limb. */
  method AddMul1(r: array<Limb>, ro: nat, a: array<Limb>, ao: nat, n: nat, b: Limb) returns (h: Limb)
    requires r != a && ro + n <= r.Length && ao + n <= a.Length
    modifies r
    ensures Seg(r[..], ro, n) + h * BPow(n) == Seg(old(r[..]), ro, n) + Seg(a[..], ao, n) * b
    ensures Within(old(r[..]), r[..], ro, n)
  {
    hide Seg, BPow;
    ghost var x, s := a[..], r[..];
    SegEmpty(s, ro); SegEmpty(x, ao);
    h := 0;
    var i := 0;
    while i < n
      invariant 0 <= i <= n
      invariant a[..] == x && r[..] == s && Within(old(r[..]), s, ro, i)
      invariant Accumulated(s, old(r[..]), ro, x, ao, i, b, h)
    {
      var v, u := a[ao + i], r[ro + i];
      assert v == x[ao + i] && u == s[ro + i];
      var (t, c) := MulLimb(u, v, b, h);
      r[ro + i] := t;
      AccumulateStep(s, old(r[..]), ro, x, ao, i, b, h, t, c);
      s := s[ro + i := t];
      h := c;
      i := i + 1;
    }
  }

  lemma DecumulateStep(s: seq<Limb>, s0: seq<Limb>, ro: nat, x: seq<Limb>, ao: nat, i: nat, b: nat, l: nat,
                       t: Limb, l': nat)
    requires ro + i < |s| == |s0| && ao + i < |x| && Accumulated(s0, s, ro, x, ao, i, b, l)
    requires s0[ro + i] as int + l' * B == t as int + x[ao + i] as int * b + l
    ensures Accumulated(s0, s[ro + i := t], ro, x, ao, i + 1, b, l')
  {
    SegSnoc(s[ro + i := t], ro, i); SegSnoc(x, ao, i); SegSnoc(s0, ro, i);
    SegSame(s, s[ro + i := t], ro, i);
    var v: nat, z: nat, u: nat := x[ao + i], t, s0[ro + i];
    MulCarryStep(Seg(s0, ro, i), l, Seg(s, ro, i), Seg(x, ao, i), b, v, u, l', z, BPow(i));
  }

  /** One limb of mp_sub_mul1 in wrapping double-limb arithmetic: the new limb and the next borrow. */
  function SubMulLimb(u: Limb, v: Limb, b: Limb, l: Limb): (r: (Limb, Limb))
    ensures u as int + r.1 * B == r.0 as int + v as int * b + l
  {
    ProductFits(v, b);
    var d: int := u - v * b - l;
    var t: nat := if d < 0 then d + B * B else d;
    SubMulFacts(d, t);
    (t % B, if t / B == 0 then 0 else B - t / B)
  }

  lemma SubMulFacts(d: int, t: nat)
    requires B - B * B <= d < B && t == if d < 0 then d + B * B else d
    ensures t / B < B && d == t % B - (if t / B == 0 then 0 else B - t / B) * B
  {
    HighLimb(t);
    var h := t / B;
    if d < 0 {
      assert h != 0;
      Distribute(B, h, B);
    }
  }

  /** mp_sub_mul1: r -= a * b over n limbs; the result is to be taken from the next limb. */
  method SubMul1(r: array<Limb>, ro: nat, a: array<Limb>, ao: nat, n: nat, b: Limb) returns (h: Limb)
    requires r != a && ro + n <= r.Length && ao + n <= a.Length
    modifies r
    ensures Seg(old(r[..]), ro, n) + h * BPow(n) == Seg(r[..], ro, n) + Seg(a[..], ao, n) * b
    ensures Within(old(r[..]), r[..], ro, n)
  {
    hide Seg, BPow;
    ghost var x, s := a[..], r[..];
    SegEmpty(s, ro); SegEmpty(x, ao);
    h := 0;
    var i := 0;
    while i < n
      invariant 0 <= i <= n
      invariant a[..] == x && r[..] == s && Within(old(r[..]), s, ro, i)
      invariant Accumulated(old(r[..]), s, ro, x, ao, i, b, h)
    {
      var v, u := a[ao + i], r[ro + i];
      assert v == x[ao + i] && u == s[ro + i];
      var (t, l) := SubMulLimb(u, v, b, h);
      r[ro + i] := t;
      DecumulateStep(s, old(r[..]), ro, x, ao, i, b, h, t, l);
      s := s[ro + i := t];
      h := l;
      i := i + 1;
    }
  }

  /** mp_neg: r = 0 - a - borrow over n limbs; the result is the borrow out. */
  method Neg(r: array<Limb>, ro: nat, a: array<Limb>, ao: nat, n: nat, borrow: Limb) returns (k: Limb)
    requires ro + n <= r.Length && ao + n <= a.Length && borrow <= 1
    requires r != a || ro <= ao || ao + n <= ro
    modifies r
    ensures k <= 1
    ensures k * BPow(n) == Seg(r[..], ro, n) + Seg(old(a[..]), ao, n) + borrow
    ensures Within(old(r[..]), r[..], ro, n)
  {
    hide Seg, BPow;
    ghost var x, s := a[..], r[..];
    SegEmpty(s, ro); SegEmpty(x, ao);
    k := borrow;
    var i := 0;
    while i < n
      invariant 0 <= i <= n && k <= 1
      invariant r[..] == s && Within(old(r[..]), s, ro, i)
      invariant Negated(s, ro, x, ao, i, k, borrow)
    {
      var w := a[ao + i];
      assert w == x[ao + i];
      var t := SubW(0, w);
      var k1 := if t > 0 then 1 else 0;
      var u := SubW(t, k);
      ghost var k0 := k;
      k := if u > t || k1 == 1 then 1 else 0;
      r[ro + i] := u;
      NegStep(s, ro, x, ao, i, k0, borrow, u, k);
      s := s[ro + i := u];
      i := i + 1;
    }
  }

  ghost predicate Negated(s: seq<Limb>, so: nat, x: seq<Limb>, xo: nat, i: nat, k: nat, borrow: nat)
    requires so + i <= |s| && xo + i <= |x|
  {
    k * BPow(i) == Seg(s, so, i) + Seg(x, xo, i) + borrow
  }

  lemma NegStep(s: seq<Limb>, so: nat, x: seq<Limb>, xo: nat, i: nat, k: nat, borrow: nat, t: Limb, k': nat)
    requires so + i < |s| && xo + i < |x| && Negated(s, so, x, xo, i, k, borrow)
    requires k' * B == t as int + x[xo + i] + k
    ensures Negated(s[so + i := t], so, x, xo, i + 1, k', borrow)
  {
    SegSnoc(s[so + i := t], so, i); SegSnoc(x, xo, i);
    SegSame(s, s[so + i := t], so, i);
    var w: nat, z: nat := x[xo + i], t;
    CarryStep(0, k, Seg(s, so, i) + Seg(x, xo, i) + borrow, 0, k', z + w, BPow(i));
    Distribute(z, w, BPow(i));
  }

  /** The limb that mp_shr writes: v >> shift with the low bits of the limb above shifted in on top. */
  function ShrLimb(v: Limb, l: Limb, lowWeight: nat): (r: Limb)
    requires lowWeight > 0 && B % lowWeight == 0
    ensures r as int * lowWeight + v % lowWeight == v as int + (l % lowWeight) * B
  {
    var q := B / lowWeight;
    ShrFacts(v, l, lowWeight, q);
    v / lowWeight + (l % lowWeight) * q
  }

  lemma ShrFacts(v: nat, l: nat, w: nat, q: nat)
    requires w > 0 && q * w == B && v < B
    ensures 0 <= v / w + (l % w) * q < B
    ensures (v / w + (l % w) * q) * w + v % w == v + (l % w) * B
  {
    var c, d, m := l % w, v / w, v % w;
    assert v == d * w + m && 0 <= m < w;
    ShrArith(v, c, d, m, w, q);
  }

  lemma ShrArith(v: nat, c: nat, d: nat, m: nat, w: nat, q: nat)
    requires v == d * w + m && v < q * w && c < w
    ensures 0 <= d + c * q < q * w
    ensures (d + c * q) * w + m == v + c * (q * w)
  {
    Distribute(d, c * q, w);
    MulAssoc(c, q, w);
    MulNonNeg(c, q);
    MulCancelLess(d, q, w);
    MulMono(c, w - 1, q);
    Distribute(w, 1, q);
  }

  /** Long division by w of the n limbs of x, with h carried in from above: quotient s, remainder rem. */
  ghost predicate Divided(s: seq<Limb>, so: nat, x: seq<Limb>, xo: nat, n: nat, h: nat, w: nat, rem: nat)
    requires so + n <= |s| && xo + n <= |x|
  {
    Seg(x, xo, n) + h * BPow(n) == Seg(s, so, n) * w + rem
  }

  /** The next lower limb v of x gives the quotient limb t and the remainder rem'. */
  lemma DivideStep(s: seq<Limb>, so: nat, x: seq<Limb>, xo: nat, n: nat, h: nat, w: nat, rem: nat, t: Limb, rem': nat)
    requires 0 < so && 0 < xo && so + n <= |s| && xo + n <= |x| && Divided(s, so, x, xo, n, h, w, rem)
    requires t as int * w + rem' == x[xo - 1] as int + rem * B
    ensures Divided(s[so - 1 := t], so - 1, x, xo - 1, n + 1, h, w, rem')
  {
    var s' := s[so - 1 := t];
    SegCons(s', so - 1, n + 1); SegCons(x, xo - 1, n + 1);
    SegSame(s, s', so, n);
    DivideArith(x[xo - 1], t, Seg(x, xo, n), Seg(s, so, n), Seg(x, xo - 1, n + 1), Seg(s', so - 1, n + 1),
                h, BPow(n), w, rem, rem');
  }

  lemma DivideArith(v: nat, t: nat, x: nat, m: nat, x': nat, m': nat, h: nat, p: nat, w: nat, rem: nat, rem': nat)
    requires x + h * p == m * w + rem && t * w + rem' == v + rem * B
    requires x' == v + B * x && m' == t + B * m
    ensures x' + h * (B * p) == m' * w + rem'
  {
    MulAssoc(h, B, p);
    Distribute(x, h * p, B);
    Distribute(m * w, rem, B);
    MulAssoc(B, m, w);
    Distribute(t, B * m, w);
  }

  /** mp_shr: r = (a + high * B^n) >> shift, for the bits of high that reach the result; returns the bits lost. */
  method Shr(r: array<Limb>, ro: nat, a: array<Limb>, ao: nat, n: nat, shift: nat, high: Limb) returns (rem: nat)
    requires ro + n <= r.Length && ao + n <= a.Length && 1 <= shift < LIMB_BITS
    requires r != a || ao <= ro || ro + n <= ao
    modifies r
    ensures rem < Pow2(shift)
    ensures Seg(old(a[..]), ao, n) + (high % Pow2(shift)) * BPow(n) == Seg(r[..], ro, n) * Pow2(shift) + rem
    ensures Within(old(r[..]), r[..], ro, n)
  {
    hide Seg, BPow;
    ghost var x, s := a[..], r[..];
    SegEmpty(s, ro + n); SegEmpty(x, ao + n);
    var w := Pow2(shift);
    Pow2DividesBase(shift);
    var l := high;
    var i := n;
    while i > 0
      invariant 0 <= i <= n
      invariant r[..] == s && Within(old(r[..]), s, ro + i, n - i)
      invariant Divided(s, ro + i, x, ao + i, n - i, high % w, w, l % w)
    {
      i := i - 1;
      var v := a[ao + i];
      assert v == x[ao + i];
      var t := ShrLimb(v, l, w);
      DivideStep(s, ro + i + 1, x, ao + i + 1, n - i - 1, high % w, w, l % w, t, v % w);
      r[ro + i] := t;
      s := s[ro + i := t];
      l := v;
    }
    rem := l % w;
  }

  lemma Pow2DividesBase(shift: nat)
    requires shift <= LIMB_BITS
    ensures B == Pow2(LIMB_BITS) && B % Pow2(shift) == 0 && B == Pow2(LIMB_BITS - shift) * Pow2(shift)
  {
    BaseIsPow2();
    Pow2Add(LIMB_BITS - shift, shift);
    DivModUnique(B, Pow2(shift), Pow2(LIMB_BITS - shift), 0);
  }

  /** mp_cmp */
  method Cmp(a: array<Limb>, ao: nat, b: array<Limb>, bo: nat, n: nat) returns (c: int)
    requires ao + n <= a.Length && bo + n <= b.Length
    ensures c == if Seg(a[..], ao, n) < Seg(b[..], bo, n) then -1
                 else if Seg(a[..], ao, n) == Seg(b[..], bo, n) then 0 else 1
  {
    ghost var x, y := a[..], b[..];
    var i := n;
    while i > 0
      invariant 0 <= i <= n && Seg(x, ao + i, n - i) == Seg(y, bo + i, n - i)
    {
      i := i - 1;
      if a[ao + i] < b[bo + i] {
        SegLess(x, ao, y, bo, n, i);
        return -1;
      } else if b[bo + i] < a[ao + i] {
        SegLess(y, bo, x, ao, n, i);
        return 1;
      }
      SegCons(x, ao + i, n - i); SegCons(y, bo + i, n - i);
    }
    return 0;
  }

  /** mp_scan_nz */
  method ScanNz(a: array<Limb>, lo: nat, n: nat) returns (nz: bool)
    requires lo + n <= a.Length
    ensures nz <==> Seg(a[..], lo, n) != 0
  {
    SegZero(a[..], lo, n);
    var i := 0;
    while i < n
      invariant 0 <= i <= n && forall j :: lo <= j < lo + i ==> a[j] == 0
    {
      if a[lo + i] != 0 {
        return true;
      }
      i := i + 1;
    }
    return false;
  }

  /** The copy loops of mp_recip, mp_divnorm_large and mp_sqrtrem_rec. */
  method Copy(r: array<Limb>, ro: nat, a: array<Limb>, ao: nat, n: nat)
    requires r != a && ro + n <= r.Length && ao + n <= a.Length
    modifies r
    ensures Seg(r[..], ro, n) == Seg(a[..], ao, n)
    ensures Within(old(r[..]), r[..], ro, n)
  {
    hide BPow;
    var i := 0;
    while i < n
      invariant 0 <= i <= n && Within(old(r[..]), r[..], ro, i)
      invariant r[ro..ro + i] == a[ao..ao + i]
    {
      r[ro + i] := a[ao + i];
      assert r[ro..ro + i + 1] == r[ro..ro + i] + [r[ro + i]];
      assert a[ao..ao + i + 1] == a[ao..ao + i] + [a[ao + i]];
      i := i + 1;
    }
    assert r[..][ro..ro + n] == a[..][ao..ao + n];
  }
}
