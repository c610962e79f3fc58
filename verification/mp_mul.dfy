/** Schoolbook multiplication of limb arrays. */
module MpMul {
  import opened Arith
  import opened Limbs
  import opened MpLinear

  /** Adding row i of the product: the running value gains the next limb v of the second operand. */
  lemma RowStep(p: nat, p': nat, h: nat, low: nat, row: nat, row': nat, top: nat, x: nat, v: nat, y: nat, y': nat,
                w: nat, pn: nat)
    requires p == low + w * row && p == x * y
    requires row' + h * pn == row + x * v
    requires top == row' + h * pn && p' == low + w * top && y' == y + v * w
    ensures p' == x * y'
  {
    Distribute(row, x * v, w);
    Distribute(y, v * w, x);
    MulAssoc(w, x, v);
  }

  /** mp_mul_basecase: r = a * b, with n1 + n2 limbs. */
  method Mul(r: array<Limb>, ro: nat, a: array<Limb>, ao: nat, n1: nat, b: array<Limb>, bo: nat, n2: nat)
    requires r != a && r != b && 1 <= n2
    requires ro + n1 + n2 <= r.Length && ao + n1 <= a.Length && bo + n2 <= b.Length
    modifies r
    ensures Seg(r[..], ro, n1 + n2) == Seg(a[..], ao, n1) * Seg(b[..], bo, n2)
    ensures Within(old(r[..]), r[..], ro, n1 + n2)
  {
    var h := Mul1(r, ro, a, ao, n1, b[bo], 0);
    FirstRow(r[..], ro, n1, h, a[..], ao, b[..], bo);
    r[ro + n1] := h;
    var i := 1;
    while i < n2
      invariant 1 <= i <= n2
      invariant Within(old(r[..]), r[..], ro, n1 + i)
      invariant IsProduct(r[..], ro, a[..], ao, n1, b[..], bo, i)
    {
      AddRow(r, ro, a, ao, n1, b, bo, i);
      i := i + 1;
    }
  }

  ghost predicate IsProduct(s: seq<Limb>, ro: nat, x: seq<Limb>, ao: nat, n1: nat, y: seq<Limb>, bo: nat, n2: nat)
    requires ro + n1 + n2 <= |s| && ao + n1 <= |x| && bo + n2 <= |y|
  {
    Seg(s, ro, n1 + n2) == Seg(x, ao, n1) * Seg(y, bo, n2)
  }

  /** One pass of the outer loop: add a * b[i] at limb i. */
  method AddRow(r: array<Limb>, ro: nat, a: array<Limb>, ao: nat, n1: nat, b: array<Limb>, bo: nat, i: nat)
    requires r != a && r != b
    requires ro + n1 + i < r.Length && ao + n1 <= a.Length && bo + i < b.Length
    requires IsProduct(r[..], ro, a[..], ao, n1, b[..], bo, i)
    modifies r
    ensures IsProduct(r[..], ro, a[..], ao, n1, b[..], bo, i + 1)
    ensures Within(old(r[..]), r[..], ro, n1 + i + 1)
  {
    ghost var s0 := r[..];
    var h := AddMul1(r, ro + i, a, ao, n1, b[bo + i]);
    NextRow(s0, r[..], ro, n1, i, h, a[..], ao, b[..], bo);
    r[ro + i + n1] := h;
  }

  lemma FirstRow(s: seq<Limb>, ro: nat, n1: nat, h: Limb, x: seq<Limb>, ao: nat, y: seq<Limb>, bo: nat)
    requires ro + n1 < |s| && ao + n1 <= |x| && bo < |y|
    requires Seg(s, ro, n1) + h * BPow(n1) == Seg(x, ao, n1) * y[bo]
    ensures IsProduct(s[ro + n1 := h], ro, x, ao, n1, y, bo, 1)
  {
    SegSnoc(s[ro + n1 := h], ro, n1);
    SegSame(s, s[ro + n1 := h], ro, n1);
    SegOne(y, bo);
  }

  lemma NextRow(s0: seq<Limb>, s1: seq<Limb>, ro: nat, n1: nat, i: nat, h: Limb,
                x: seq<Limb>, ao: nat, y: seq<Limb>, bo: nat)
    requires ro + i + n1 < |s0| == |s1| && ao + n1 <= |x| && bo + i < |y|
    requires IsProduct(s0, ro, x, ao, n1, y, bo, i)
    requires Within(s0, s1, ro + i, n1)
    requires Seg(s1, ro + i, n1) + h * BPow(n1) == Seg(s0, ro + i, n1) + Seg(x, ao, n1) * y[bo + i]
    ensures IsProduct(s1[ro + i + n1 := h], ro, x, ao, n1, y, bo, i + 1)
  {
    hide BPow, Seg;
    var s2 := s1[ro + i + n1 := h];
    SegSame(s1, s2, ro + i, n1);
    SegSame(s0, s2, ro, i);
    SegSplit(s0, ro, n1 + i, i);
    SegSplit(s2, ro, n1 + i + 1, i);
    SegSnoc(s2, ro + i, n1);
    SegSnoc(y, bo, i);
    RowStep(Seg(s0, ro, n1 + i), Seg(s2, ro, n1 + i + 1), h, Seg(s0, ro, i),
            Seg(s0, ro + i, n1), Seg(s1, ro + i, n1), Seg(s2, ro + i, n1 + 1),
            Seg(x, ao, n1), y[bo + i], Seg(y, bo, i), Seg(y, bo, i + 1), BPow(i), BPow(n1));
  }
}
