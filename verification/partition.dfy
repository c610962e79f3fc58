/** The three-way partition step of rqsort. */
module Partition {
  import opened SortSpec

  /** med3: the position, among three, of the middle value. */
  method Med3<T(!new)>(a: array<T>, x: nat, y: nat, z: nat, cmp: (T, T) -> int) returns (m: nat)
    requires Preorder(cmp) && x < a.Length && y < a.Length && z < a.Length
    ensures m == x || m == y || m == z
    ensures m == x ==> (Le(cmp, a[y], a[x]) && Le(cmp, a[x], a[z])) || (Le(cmp, a[z], a[x]) && Le(cmp, a[x], a[y]))
    ensures m == y ==> (Le(cmp, a[x], a[y]) && Le(cmp, a[y], a[z])) || (Le(cmp, a[z], a[y]) && Le(cmp, a[y], a[x]))
    ensures m == z ==> (Le(cmp, a[x], a[z]) && Le(cmp, a[z], a[y])) || (Le(cmp, a[y], a[z]) && Le(cmp, a[z], a[x]))
  {
    if cmp(a[x], a[y]) < 0 {
      m := if cmp(a[y], a[z]) < 0 then y else if cmp(a[x], a[z]) < 0 then z else x;
    } else {
      m := if cmp(a[y], a[z]) > 0 then y else if cmp(a[x], a[z]) < 0 then x else z;
    }
  }

  /** How the elements of [lo, hi) compare with the pivot v: sign is that of cmp(v, element). */
  ghost predicate Equal<T>(cmp: (T, T) -> int, s: seq<T>, v: T, lo: nat, hi: nat)
    requires hi <= |s|
  {
    forall k :: lo <= k < hi ==> cmp(v, s[k]) == 0
  }

  ghost predicate Less<T>(cmp: (T, T) -> int, s: seq<T>, v: T, lo: nat, hi: nat)
    requires hi <= |s|
  {
    forall k :: lo <= k < hi ==> cmp(v, s[k]) > 0
  }

  ghost predicate Greater<T>(cmp: (T, T) -> int, s: seq<T>, v: T, lo: nat, hi: nat)
    requires hi <= |s|
  {
    forall k :: lo <= k < hi ==> cmp(v, s[k]) < 0
  }

  /** The scan: equal, smaller, unseen, greater, equal; all positions absolute. */
  ghost predicate Scanned<T>(cmp: (T, T) -> int, s: seq<T>, v: T, lo: nat, lt: nat, i: nat, j: nat, gt: nat, hi: nat) {
    && lo < lt <= i <= j <= gt <= hi <= |s| && s[lo] == v
    && Equal(cmp, s, v, lo, lt) && Less(cmp, s, v, lt, i) && Greater(cmp, s, v, j, gt) && Equal(cmp, s, v, gt, hi)
  }

  lemma ScanLess<T>(cmp: (T, T) -> int, s: seq<T>, v: T, lo: nat, lt: nat, i: nat, j: nat, gt: nat, hi: nat)
    requires Scanned(cmp, s, v, lo, lt, i, j, gt, hi) && i < j && cmp(v, s[i]) > 0
    ensures Scanned(cmp, s, v, lo, lt, i + 1, j, gt, hi)
  {
  }

  lemma ScanEqual<T>(cmp: (T, T) -> int, s: seq<T>, v: T, lo: nat, lt: nat, i: nat, j: nat, gt: nat, hi: nat)
    requires Scanned(cmp, s, v, lo, lt, i, j, gt, hi) && i < j && cmp(v, s[i]) == 0
    ensures Scanned(cmp, Swapped(s, lt, i), v, lo, lt + 1, i + 1, j, gt, hi)
  {
  }

  lemma ScanGreater<T>(cmp: (T, T) -> int, s: seq<T>, v: T, lo: nat, lt: nat, i: nat, j: nat, gt: nat, hi: nat)
    requires Scanned(cmp, s, v, lo, lt, i, j, gt, hi) && i < j && cmp(v, s[j - 1]) < 0
    ensures Scanned(cmp, s, v, lo, lt, i, j - 1, gt, hi)
  {
  }

  lemma ScanEqualAbove<T>(cmp: (T, T) -> int, s: seq<T>, v: T, lo: nat, lt: nat, i: nat, j: nat, gt: nat, hi: nat)
    requires Scanned(cmp, s, v, lo, lt, i, j, gt, hi) && i < j - 1 && cmp(v, s[j - 1]) == 0
    ensures Scanned(cmp, Swapped(s, gt - 1, j - 1), v, lo, lt, i, j - 1, gt - 1, hi) && Swapped(s, gt - 1, j - 1)[i] == s[i]
  {
  }

  lemma ScanExchange<T>(cmp: (T, T) -> int, s: seq<T>, v: T, lo: nat, lt: nat, i: nat, j: nat, gt: nat, hi: nat)
    requires Scanned(cmp, s, v, lo, lt, i, j, gt, hi) && i < j - 1 && cmp(v, s[i]) < 0 && cmp(v, s[j - 1]) > 0
    ensures Scanned(cmp, Swapped(s, i, j - 1), v, lo, lt, i + 1, j - 1, gt, hi)
  {
  }

  /** The two scanning loops and the exchanges between them; a[lo] is the pivot. */
  method Scan<T(!new)>(a: array<T>, lo: nat, hi: nat, cmp: (T, T) -> int) returns (lt: nat, i: nat, gt: nat)
    requires Preorder(cmp) && lo < hi <= a.Length
    modifies a
    ensures Rearranged(old(a[..]), a[..], lo, hi) && Scanned(cmp, a[..], a[lo], lo, lt, i, i, gt, hi)
  {
    hide Scanned, Rearranged, Swapped, Preorder;
    ghost var s, v := a[..], a[lo];
    var j := hi;
    i, lt, gt := lo + 1, lo + 1, hi;
    RearrangedRefl(s, lo, hi);
    ScanStarts(cmp, s, v, lo, hi);
    while true
      invariant lo < lt <= i <= j <= gt <= hi && a[lo] == v
      invariant a[..] == s && Rearranged(old(a[..]), s, lo, hi) && Scanned(cmp, s, v, lo, lt, i, j, gt, hi)
      decreases j - i
    {
      lt, i := ScanUp(a, lo, lt, i, j, gt, hi, cmp);
      RearrangedTrans(old(a[..]), s, a[..], lo, hi);
      s := a[..];
      j, gt := ScanDown(a, lo, lt, i, j, gt, hi, cmp);
      RearrangedTrans(old(a[..]), s, a[..], lo, hi);
      s := a[..];
      if i >= j - 1 {
        break;
      }
      ScanExchange(cmp, s, v, lo, lt, i, j, gt, hi);
      Swap(a, i, j - 1, lo, hi);
      RearrangedTrans(old(a[..]), s, a[..], lo, hi);
      s := a[..];
      i, j := i + 1, j - 1;
      ScannedBounds(cmp, s, v, lo, lt, i, j, gt, hi);
    }
    if i < j {
      ScanGreater(cmp, s, v, lo, lt, i, j, gt, hi);
    }
  }

  lemma ScanStarts<T(!new)>(cmp: (T, T) -> int, s: seq<T>, v: T, lo: nat, hi: nat)
    requires Preorder(cmp) && lo < hi <= |s| && s[lo] == v
    ensures Scanned(cmp, s, v, lo, lo + 1, lo + 1, hi, hi, hi)
  {
    assert cmp(v, v) == 0;
  }

  lemma ScannedBounds<T>(cmp: (T, T) -> int, s: seq<T>, v: T, lo: nat, lt: nat, i: nat, j: nat, gt: nat, hi: nat)
    requires Scanned(cmp, s, v, lo, lt, i, j, gt, hi)
    ensures lo < lt <= i <= j <= gt <= hi <= |s| && s[lo] == v
  {
  }

  /** Upwards, over elements that are not greater than the pivot. */
  method ScanUp<T(!new)>(a: array<T>, lo: nat, lt0: nat, i0: nat, j: nat, gt: nat, hi: nat, cmp: (T, T) -> int) returns (lt: nat, i: nat)
    requires lo < lt0 <= i0 <= j <= gt <= hi <= a.Length && Scanned(cmp, a[..], a[lo], lo, lt0, i0, j, gt, hi)
    modifies a
    ensures Rearranged(old(a[..]), a[..], lo, hi) && a[lo] == old(a[lo])
    ensures lo < lt <= i && i0 <= i <= j && Scanned(cmp, a[..], a[lo], lo, lt, i, j, gt, hi)
    ensures i < j ==> cmp(a[lo], a[i]) < 0
  {
    hide Scanned, Rearranged, Swapped;
    ghost var s, v := a[..], a[lo];
    lt, i := lt0, i0;
    RearrangedRefl(s, lo, hi);
    while i < j && cmp(a[lo], a[i]) >= 0
      invariant a[..] == s && Rearranged(old(a[..]), s, lo, hi) && Scanned(cmp, s, v, lo, lt, i, j, gt, hi)
      invariant lo < lt <= i && i0 <= i <= j && a[lo] == v
    {
      if cmp(a[lo], a[i]) == 0 {
        ScanEqual(cmp, s, v, lo, lt, i, j, gt, hi);
        Swap(a, lt, i, lo, hi);
        RearrangedTrans(old(a[..]), s, a[..], lo, hi);
        s := a[..];
        lt := lt + 1;
      } else {
        ScanLess(cmp, s, v, lo, lt, i, j, gt, hi);
      }
      i := i + 1;
      ScannedBounds(cmp, s, v, lo, lt, i, j, gt, hi);
    }
  }

  /** Downwards, over elements that are not smaller than the pivot, as far as the greater element at i. */
  method ScanDown<T(!new)>(a: array<T>, lo: nat, lt: nat, i: nat, j0: nat, gt0: nat, hi: nat, cmp: (T, T) -> int) returns (j: nat, gt: nat)
    requires lo < lt <= i <= j0 <= gt0 <= hi <= a.Length && Scanned(cmp, a[..], a[lo], lo, lt, i, j0, gt0, hi)
    requires i < j0 ==> cmp(a[lo], a[i]) < 0
    modifies a
    ensures Rearranged(old(a[..]), a[..], lo, hi) && a[lo] == old(a[lo])
    ensures i <= j <= gt <= hi && j <= j0 && Scanned(cmp, a[..], a[lo], lo, lt, i, j, gt, hi)
    ensures i < j ==> cmp(a[lo], a[i]) < 0
    ensures i < j - 1 ==> cmp(a[lo], a[j - 1]) > 0
  {
    hide Scanned, Rearranged, Swapped;
    ghost var s, v := a[..], a[lo];
    j, gt := j0, gt0;
    RearrangedRefl(s, lo, hi);
    while i < j - 1 && cmp(a[lo], a[j - 1]) <= 0
      invariant a[..] == s && Rearranged(old(a[..]), s, lo, hi) && Scanned(cmp, s, v, lo, lt, i, j, gt, hi)
      invariant i <= j <= gt <= hi && j <= j0 && a[lo] == v && (i < j ==> cmp(v, s[i]) < 0)
      decreases j
    {
      if cmp(a[lo], a[j - 1]) == 0 {
        ScanEqualAbove(cmp, s, v, lo, lt, i, j, gt, hi);
        gt := gt - 1;
        Swap(a, gt, j - 1, lo, hi);
        RearrangedTrans(old(a[..]), s, a[..], lo, hi);
        s := a[..];
      } else {
        ScanGreater(cmp, s, v, lo, lt, i, j, gt, hi);
      }
      j := j - 1;
      ScannedBounds(cmp, s, v, lo, lt, i, j, gt, hi);
    }
  }

  /** The blocks of n elements at x and y have changed places. */
  ghost predicate BlocksSwapped<T>(s: seq<T>, s': seq<T>, x: nat, y: nat, n: nat) {
    && |s| == |s'| && x + n <= y && y + n <= |s|
    && (forall k :: x <= k < x + n ==> s'[k] == s[k + (y - x)])
    && (forall k :: y <= k < y + n ==> s'[k] == s[k - (y - x)])
    && (forall k :: 0 <= k < |s| && !(x <= k < x + n) && !(y <= k < y + n) ==> s'[k] == s[k])
  }

  lemma BlockStep<T>(s: seq<T>, s': seq<T>, x: nat, y: nat, n: nat)
    requires BlocksSwapped(s, s', x, y, n) && x + n < y && y + n < |s|
    ensures BlocksSwapped(s, Swapped(s', x + n, y + n), x, y, n + 1)
  {
  }

  /** swap_block */
  method SwapBlock<T>(a: array<T>, x: nat, y: nat, n: nat, ghost lo: nat, ghost hi: nat)
    requires lo <= x && x + n <= y && y + n <= hi <= a.Length
    modifies a
    ensures BlocksSwapped(old(a[..]), a[..], x, y, n) && Rearranged(old(a[..]), a[..], lo, hi)
  {
    hide Rearranged, Swapped, BlocksSwapped;
    ghost var s := a[..];
    RearrangedRefl(s, lo, hi);
    NoBlocks(s, x, y);
    for k := 0 to n
      invariant a[..] == s && BlocksSwapped(old(a[..]), s, x, y, k) && Rearranged(old(a[..]), s, lo, hi)
    {
      BlockStep(old(a[..]), s, x, y, k);
      Swap(a, x + k, y + k, lo, hi);
      RearrangedTrans(old(a[..]), s, a[..], lo, hi);
      s := a[..];
    }
  }

  lemma NoBlocks<T>(s: seq<T>, x: nat, y: nat)
    requires x <= y <= |s|
    ensures BlocksSwapped(s, s, x, y, 0)
  {
  }

  /** The pivot's equals at the lower end move behind the smaller elements. */
  lemma GatherBelow<T>(cmp: (T, T) -> int, s: seq<T>, s': seq<T>, v: T, lo: nat, lt: nat, i: nat, gt: nat, hi: nat, span: nat)
    requires Scanned(cmp, s, v, lo, lt, i, i, gt, hi) && span == (if lt - lo > i - lt then i - lt else lt - lo)
    requires BlocksSwapped(s, s', lo, i - span, span)
    ensures var l := lo + (i - lt);
            Less(cmp, s', v, lo, l) && Equal(cmp, s', v, l, i) && Greater(cmp, s', v, i, gt) && Equal(cmp, s', v, gt, hi)
  {
    var l := lo + (i - lt);
    forall k | lo <= k < l ensures cmp(v, s'[k]) > 0 {
      if k < lo + span {
        assert s'[k] == s[k + (i - span - lo)];
      } else {
        assert s'[k] == s[k];
      }
    }
    forall k | l <= k < i ensures cmp(v, s'[k]) == 0 {
      if i - span <= k {
        assert s'[k] == s[k - (i - span - lo)];
      } else {
        assert s'[k] == s[k];
      }
    }
    assert forall k :: i <= k < hi ==> s'[k] == s[k];
  }

  /** The pivot's equals at the upper end move in front of the greater elements. */
  lemma GatherAbove<T>(cmp: (T, T) -> int, s: seq<T>, s': seq<T>, v: T, lo: nat, l: nat, i: nat, gt: nat, hi: nat, span: nat)
    requires lo <= l <= i <= gt <= hi <= |s| && span == (if hi - gt > gt - i then gt - i else hi - gt)
    requires Less(cmp, s, v, lo, l) && Equal(cmp, s, v, l, i) && Greater(cmp, s, v, i, gt) && Equal(cmp, s, v, gt, hi)
    requires BlocksSwapped(s, s', i, hi - span, span)
    ensures var g := hi - (gt - i);
            Less(cmp, s', v, lo, l) && Equal(cmp, s', v, l, g) && Greater(cmp, s', v, g, hi)
  {
    var g := hi - (gt - i);
    forall k | g <= k < hi ensures cmp(v, s'[k]) < 0 {
      if hi - span <= k {
        assert s'[k] == s[k - (hi - span - i)];
      } else {
        assert s'[k] == s[k];
      }
    }
    forall k | l <= k < g ensures cmp(v, s'[k]) == 0 {
      if i <= k < i + span {
        assert s'[k] == s[k + (hi - span - i)];
      } else {
        assert s'[k] == s[k];
      }
    }
    assert forall k :: lo <= k < l ==> s'[k] == s[k];
  }

  /** Smaller than the pivot before l, equal to it up to g, greater after that. */
  ghost predicate Parted<T(!new)>(cmp: (T, T) -> int, s: seq<T>, lo: nat, l: nat, g: nat, hi: nat) {
    && lo <= l < g <= hi <= |s|
    && exists v :: Less(cmp, s, v, lo, l) && Equal(cmp, s, v, l, g) && Greater(cmp, s, v, g, hi)
  }

  /** The middle one of the elements at one, two and three quarters becomes the first. */
  method ChoosePivot<T(!new)>(a: array<T>, lo: nat, hi: nat, cmp: (T, T) -> int)
    requires Preorder(cmp) && lo + 4 <= hi <= a.Length
    modifies a
    ensures Rearranged(old(a[..]), a[..], lo, hi)
  {
    hide Rearranged, Swapped, Preorder, Le;
    var m4 := (hi - lo) / 4;
    var m := Med3(a, lo + m4, lo + 2 * m4, lo + 3 * m4, cmp);
    Swap(a, lo, m, lo, hi);
  }

  /** Gathering the elements equal to the pivot in the middle. */
  method Gather<T(!new)>(a: array<T>, lo: nat, lt: nat, i: nat, gt: nat, hi: nat, ghost cmp: (T, T) -> int) returns (l: nat, g: nat)
    requires lo < lt <= i <= gt <= hi <= a.Length && Scanned(cmp, a[..], a[lo], lo, lt, i, i, gt, hi)
    modifies a
    ensures Rearranged(old(a[..]), a[..], lo, hi) && Parted(cmp, a[..], lo, l, g, hi)
  {
    hide Rearranged, BlocksSwapped, Less, Equal, Greater, Scanned;
    ghost var s, v := a[..], a[lo];
    var span := if lt - lo > i - lt then i - lt else lt - lo;
    SwapBlock(a, lo, i - span, span, lo, hi);
    GatherBelow(cmp, s, a[..], v, lo, lt, i, gt, hi, span);
    s := a[..];
    l := lo + (i - lt);
    span := if hi - gt > gt - i then gt - i else hi - gt;
    SwapBlock(a, i, hi - span, span, lo, hi);
    RearrangedTrans(old(a[..]), s, a[..], lo, hi);
    GatherAbove(cmp, s, a[..], v, lo, l, i, gt, hi, span);
    g := hi - (gt - i);
  }

  /** One turn of rqsort's inner loop. */
  method PartitionWindow<T(!new)>(a: array<T>, lo: nat, hi: nat, cmp: (T, T) -> int) returns (l: nat, g: nat)
    requires Preorder(cmp) && lo + 4 <= hi <= a.Length
    modifies a
    ensures Rearranged(old(a[..]), a[..], lo, hi) && Parted(cmp, a[..], lo, l, g, hi)
  {
    hide Rearranged, Parted, Preorder, Scanned;
    ChoosePivot(a, lo, hi, cmp);
    ghost var s := a[..];
    var lt, i, gt := Scan(a, lo, hi, cmp);
    RearrangedTrans(old(a[..]), s, a[..], lo, hi);
    s := a[..];
    ScannedBounds(cmp, s, a[lo], lo, lt, i, i, gt, hi);
    l, g := Gather(a, lo, lt, i, gt, hi, cmp);
    RearrangedTrans(old(a[..]), s, a[..], lo, hi);
  }
}
