/** rqsort: quicksort with a stack of 50 segments, heap sort below depth 50, insertion sort for short segments. */
module Rqsort {
  import opened SortSpec
  import opened HeapSort
  import opened Partition

  const STACK_DEPTH: nat := 50

  /** A pending segment: the window [base, base + count), found at the given depth. */
  datatype Segment = Segment(base: nat, count: nat, depth: nat) {
    predicate Holds(k: int) {
      base <= k < base + count
    }
  }

  /** Positions p and q lie in one pending segment. */
  ghost predicate Together(gs: seq<Segment>, p: nat, q: nat) {
    exists g :: g in gs && g.Holds(p) && g.Holds(q)
  }

  /** Any two elements that no pending segment holds together are in order. */
  ghost predicate Ordered<T>(cmp: (T, T) -> int, s: seq<T>, gs: seq<Segment>) {
    forall p, q :: 0 <= p < q < |s| ==> Together(gs, p, q) || Le(cmp, s[p], s[q])
  }

  ghost predicate Disjoint(gs: seq<Segment>) {
    forall i, j, k: nat :: 0 <= i < j < |gs| ==> !(gs[i].Holds(k) && gs[j].Holds(k))
  }

  ghost predicate Inside(gs: seq<Segment>, n: nat) {
    forall g :: g in gs ==> g.base + g.count <= n
  }

  /** Working on the last segment: its elements are rearranged, and the parts of it that are still pending take its place. */
  lemma Refine<T(!new)>(cmp: (T, T) -> int, s: seq<T>, s': seq<T>, rest: seq<Segment>, g: Segment, parts: seq<Segment>)
    requires Ordered(cmp, s, rest + [g]) && Disjoint(rest + [g]) && g.base + g.count <= |s|
    requires Rearranged(s, s', g.base, g.base + g.count)
    requires forall p, q :: g.base <= p < q < g.base + g.count ==> Together(parts, p, q) || Le(cmp, s'[p], s'[q])
    ensures Ordered(cmp, s', rest + parts)
  {
    hide Le;
    forall p, q | 0 <= p < q < |s'| ensures Together(rest + parts, p, q) || Le(cmp, s'[p], s'[q]) {
      if g.Holds(p) && g.Holds(q) {
        if Together(parts, p, q) {
          var h :| h in parts && h.Holds(p) && h.Holds(q);
          assert h in rest + parts;
        }
      } else if g.Holds(p) {
        var p' := CameFrom(s, s', g.base, g.base + g.count, p);
        NotTogether(rest, g, p', q);
      } else if g.Holds(q) {
        var q' := CameFrom(s, s', g.base, g.base + g.count, q);
        NotTogether(rest, g, q', p);
      } else if Together(rest + [g], p, q) {
        var h :| h in rest + [g] && h.Holds(p) && h.Holds(q);
        assert h in rest + parts;
      }
    }
  }

  lemma NotTogether(rest: seq<Segment>, g: Segment, p: nat, q: nat)
    requires Disjoint(rest + [g]) && g.Holds(p) && !g.Holds(q)
    ensures !Together(rest + [g], p, q) && !Together(rest + [g], q, p)
  {
    var gs := rest + [g];
    assert gs[|rest|] == g;
  }

  lemma {:induction false} NothingPending<T>(cmp: (T, T) -> int, s: seq<T>)
    requires Ordered(cmp, s, [])
    ensures SortedIn(cmp, s, 0, |s|)
  {
  }

  lemma AllPending<T>(cmp: (T, T) -> int, s: seq<T>)
    ensures Ordered(cmp, s, [Segment(0, |s|, 0)])
  {
    var g := Segment(0, |s|, 0);
    assert g in [g];
  }

  /** Replacing the last segment by two disjoint parts of it keeps the segments disjoint. */
  lemma SplitDisjoint(rest: seq<Segment>, g: Segment, x: Segment, y: Segment)
    requires Disjoint(rest + [g])
    requires forall k: nat :: (x.Holds(k) ==> g.Holds(k)) && (y.Holds(k) ==> g.Holds(k)) && !(x.Holds(k) && y.Holds(k))
    ensures Disjoint(rest + [x] + [y])
  {
    var gs, hs := rest + [g], rest + [x] + [y];
    forall i, j, k: nat | 0 <= i < j < |hs| ensures !(hs[i].Holds(k) && hs[j].Holds(k)) {
      assert gs[|rest|] == g;
      if j < |rest| {
        assert gs[i] == hs[i] && gs[j] == hs[j];
      } else if i < |rest| {
        assert gs[i] == hs[i];
      }
    }
  }

  lemma DropDisjoint(rest: seq<Segment>, g: Segment)
    requires Disjoint(rest + [g])
    ensures Disjoint(rest)
  {
    forall i, j, k: nat | 0 <= i < j < |rest| ensures !(rest[i].Holds(k) && rest[j].Holds(k)) {
      assert (rest + [g])[i] == rest[i] && (rest + [g])[j] == rest[j];
    }
  }

  /** After a partition, only elements on the same side of the pivot may be out of order. */
  lemma SidesOrdered<T(!new)>(cmp: (T, T) -> int, s: seq<T>, lo: nat, l: nat, g: nat, hi: nat, x: Segment, y: Segment)
    requires Preorder(cmp) && Parted(cmp, s, lo, l, g, hi)
    requires (x.base == lo && x.count == l - lo && y.base == g && y.count == hi - g)
             || (y.base == lo && y.count == l - lo && x.base == g && x.count == hi - g)
    ensures forall p, q :: lo <= p < q < hi ==> Together([x] + [y], p, q) || Le(cmp, s[p], s[q])
  {
    var v :| Less(cmp, s, v, lo, l) && Equal(cmp, s, v, l, g) && Greater(cmp, s, v, g, hi);
    var gs := [x] + [y];
    assert x in gs && y in gs;
    forall p, q | lo <= p < q < hi ensures Together(gs, p, q) || Le(cmp, s[p], s[q]) {
      if q >= l && p < g {
        BothSides(cmp, s[p], v, s[q]);
      } else if q < l {
        var b := if x.base == lo && x.count == l - lo then x else y;
        assert b.Holds(p) && b.Holds(q);
      } else {
        var b := if x.base == g && x.count == hi - g then x else y;
        assert b.Holds(p) && b.Holds(q);
      }
    }
  }

  lemma BothSides<T(!new)>(cmp: (T, T) -> int, x: T, v: T, y: T)
    requires Preorder(cmp) && cmp(v, x) >= 0 && cmp(v, y) <= 0
    ensures Le(cmp, x, y)
  {
    assert cmp(x, v) <= 0;
  }

  // The short segments.

  /** Sorted up to i, except for the element at j that is on its way down. */
  ghost predicate SortedBut<T>(cmp: (T, T) -> int, s: seq<T>, lo: nat, i: nat, j: nat)
    requires i <= |s|
  {
    && lo <= j < i
    && (forall p, q :: lo <= p < q < i && p != j && q != j ==> Le(cmp, s[p], s[q]))
    && (forall q :: j < q < i ==> Le(cmp, s[j], s[q]))
  }

  lemma Sink<T(!new)>(cmp: (T, T) -> int, s: seq<T>, lo: nat, i: nat, j: nat)
    requires Preorder(cmp) && i <= |s| && SortedBut(cmp, s, lo, i, j) && lo < j && !Le(cmp, s[j - 1], s[j])
    ensures SortedBut(cmp, Swapped(s, j, j - 1), lo, i, j - 1)
  {
    hide Le, Preorder;
    LeTotal(cmp, s[j - 1], s[j]);
  }

  lemma Settled<T(!new)>(cmp: (T, T) -> int, s: seq<T>, lo: nat, i: nat, j: nat)
    requires Preorder(cmp) && i <= |s| && SortedBut(cmp, s, lo, i, j) && (lo < j ==> Le(cmp, s[j - 1], s[j]))
    ensures SortedIn(cmp, s, lo, i)
  {
    hide Le, Preorder;
    forall p, q | lo <= p < q < i ensures Le(cmp, s[p], s[q]) {
      if q == j && p < j - 1 {
        LeTrans(cmp, s[p], s[j - 1], s[j]);
      }
    }
  }

  /** The inner loop: the element at i sinks to its place. */
  method Insert<T(!new)>(a: array<T>, lo: nat, i: nat, ghost hi: nat, cmp: (T, T) -> int)
    requires Preorder(cmp) && lo <= i < hi <= a.Length && SortedIn(cmp, a[..], lo, i)
    modifies a
    ensures Rearranged(old(a[..]), a[..], lo, hi) && SortedIn(cmp, a[..], lo, i + 1)
  {
    hide Rearranged, Swapped, Preorder, SortedBut, SortedIn;
    ghost var s := a[..];
    RearrangedRefl(s, lo, hi);
    NextUp(cmp, s, lo, i);
    var j := i;
    while j > lo && cmp(a[j - 1], a[j]) > 0
      invariant lo <= j <= i
      invariant a[..] == s && Rearranged(old(a[..]), s, lo, hi) && SortedBut(cmp, s, lo, i + 1, j)
    {
      Sink(cmp, s, lo, i + 1, j);
      Swap(a, j, j - 1, lo, hi);
      RearrangedTrans(old(a[..]), s, a[..], lo, hi);
      s := a[..];
      j := j - 1;
    }
    Settled(cmp, s, lo, i + 1, j);
  }

  method InsertionSort<T(!new)>(a: array<T>, lo: nat, n: nat, cmp: (T, T) -> int)
    requires Preorder(cmp) && lo + n <= a.Length
    modifies a
    ensures Rearranged(old(a[..]), a[..], lo, lo + n) && SortedIn(cmp, a[..], lo, lo + n)
  {
    hide Rearranged, Preorder, SortedIn;
    RearrangedRefl(a[..], lo, lo + n);
    var i := lo + 1;
    SortedShort(cmp, a[..], lo, if i <= lo + n then i else lo + n);
    while i < lo + n
      invariant Rearranged(old(a[..]), a[..], lo, lo + n)
      invariant lo < i && SortedIn(cmp, a[..], lo, if i <= lo + n then i else lo + n)
    {
      ghost var s := a[..];
      Insert(a, lo, i, lo + n, cmp);
      RearrangedTrans(old(a[..]), s, a[..], lo, lo + n);
      i := i + 1;
    }
  }

  lemma SortedShort<T>(cmp: (T, T) -> int, s: seq<T>, lo: nat, hi: nat)
    requires hi <= |s| && hi <= lo + 1
    ensures SortedIn(cmp, s, lo, hi)
  {
  }

  lemma NextUp<T>(cmp: (T, T) -> int, s: seq<T>, lo: nat, i: nat)
    requires lo <= i < |s| && SortedIn(cmp, s, lo, i)
    ensures SortedBut(cmp, s, lo, i + 1, i)
  {
  }

  // The stack.

  /** The depths of stacked segments rise strictly, from at least 1, and stay below d. */
  ghost predicate DepthsBelow(gs: seq<Segment>, d: int) {
    && (forall k :: 0 <= k < |gs| ==> k + 1 <= gs[k].depth < d)
    && (forall j, k :: 0 <= j < k < |gs| ==> gs[j].depth < gs[k].depth)
  }

  function Weight(gs: seq<Segment>): nat {
    if gs == [] then 0 else Weight(gs[..|gs| - 1]) + gs[|gs| - 1].count + 1
  }

  lemma WeightAppend(gs: seq<Segment>, g: Segment)
    ensures Weight(gs + [g]) == Weight(gs) + g.count + 1
  {
    assert (gs + [g])[..|gs|] == gs;
  }

  /** Everything the loops keep: the segments gs and the current one account for all disorder. */
  ghost predicate Pending<T>(cmp: (T, T) -> int, s: seq<T>, gs: seq<Segment>) {
    Ordered(cmp, s, gs) && Disjoint(gs) && Inside(gs, |s|)
  }

  lemma SplitPending<T(!new)>(cmp: (T, T) -> int, s: seq<T>, s': seq<T>, rest: seq<Segment>, g: Segment, l: nat, u: nat, x: Segment, y: Segment)
    requires Preorder(cmp) && Pending(cmp, s, rest + [g]) && Rearranged(s, s', g.base, g.base + g.count)
    requires Parted(cmp, s', g.base, l, u, g.base + g.count)
    requires (x.base == g.base && x.count == l - g.base && y.base == u && y.count == g.base + g.count - u)
             || (y.base == g.base && y.count == l - g.base && x.base == u && x.count == g.base + g.count - u)
    ensures Pending(cmp, s', rest + [x] + [y])
    ensures x.count + y.count < g.count
  {
    hide Ordered, Together, Preorder, Parted, Le;
    PartedBounds(cmp, s', g.base, l, u, g.base + g.count);
    SidesOrdered(cmp, s', g.base, l, u, g.base + g.count, x, y);
    assert g in rest + [g];
    Refine(cmp, s, s', rest, g, [x] + [y]);
    assert rest + ([x] + [y]) == rest + [x] + [y];
    SplitDisjoint(rest, g, x, y);
    forall h | h in rest + [x] + [y] ensures h.base + h.count <= |s'| {
      assert h in rest ==> h in rest + [g];
    }
  }

  lemma PartedBounds<T(!new)>(cmp: (T, T) -> int, s: seq<T>, lo: nat, l: nat, g: nat, hi: nat)
    requires Parted(cmp, s, lo, l, g, hi)
    ensures lo <= l < g <= hi <= |s|
  {
  }

  lemma SortedPending<T(!new)>(cmp: (T, T) -> int, s: seq<T>, s': seq<T>, rest: seq<Segment>, g: Segment)
    requires Pending(cmp, s, rest + [g]) && Rearranged(s, s', g.base, g.base + g.count)
    requires SortedIn(cmp, s', g.base, g.base + g.count)
    ensures Pending(cmp, s', rest)
  {
    hide Ordered, Together, Le;
    assert g in rest + [g];
    Refine(cmp, s, s', rest, g, []);
    assert rest + [] == rest;
    DropDisjoint(rest, g);
    forall h | h in rest ensures h.base + h.count <= |s'| {
      assert h in rest + [g];
    }
  }

  /** Partitioning the current segment into the part to be pushed and the one to go on with, which is not larger. */
  method SplitSegment<T(!new)>(a: array<T>, cur: Segment, depth: nat, cmp: (T, T) -> int, ghost rest: seq<Segment>)
    returns (big: Segment, small: Segment)
    requires Preorder(cmp) && Pending(cmp, a[..], rest + [cur]) && cur.base + cur.count <= a.Length && cur.count > 6
    modifies a
    ensures Rearranged(old(a[..]), a[..], 0, a.Length) && Pending(cmp, a[..], rest + [big] + [small])
    ensures small.count <= big.count && big.count + small.count < cur.count && big.depth == small.depth == depth
  {
    hide Preorder, Pending, Rearranged, Parted;
    ghost var s := a[..];
    var lo, hi := cur.base, cur.base + cur.count;
    var l, u := PartitionWindow(a, lo, hi, cmp);
    PartedBounds(cmp, a[..], lo, l, u, hi);
    RearrangedWiden(s, a[..], lo, hi, 0, a.Length);
    if l - lo > hi - u {
      big, small := Segment(lo, l - lo, depth), Segment(u, hi - u, depth);
    } else {
      big, small := Segment(u, hi - u, depth), Segment(lo, l - lo, depth);
    }
    SplitPending(cmp, s, a[..], rest, cur, l, u, big, small);
  }

  /** Sorting the current segment outright. */
  method FinishSegment<T(!new)>(a: array<T>, cur: Segment, heap: bool, cmp: (T, T) -> int, ghost rest: seq<Segment>)
    requires Preorder(cmp) && Pending(cmp, a[..], rest + [cur]) && cur.base + cur.count <= a.Length
    modifies a
    ensures Rearranged(old(a[..]), a[..], 0, a.Length) && Pending(cmp, a[..], rest)
  {
    hide Preorder, Pending, Rearranged;
    ghost var s := a[..];
    if heap {
      HeapSortWindow(a, cur.base, cur.count, cmp);
    } else {
      InsertionSort(a, cur.base, cur.count, cmp);
    }
    SortedPending(cmp, s, a[..], rest, cur);
    RearrangedWiden(s, a[..], cur.base, cur.base + cur.count, 0, a.Length);
  }

  /** The segment taken from the stack: partition it, push the larger part, go on with the smaller one. */
  method SortSegment<T(!new)>(a: array<T>, stack: array<Segment>, sp0: nat, g: Segment, cmp: (T, T) -> int) returns (sp: nat)
    requires Preorder(cmp) && stack as object != a as object && stack.Length == STACK_DEPTH && sp0 <= STACK_DEPTH
    requires Pending(cmp, a[..], stack[..sp0] + [g]) && g.depth <= STACK_DEPTH && DepthsBelow(stack[..sp0], g.depth)
    modifies a, stack
    ensures Rearranged(old(a[..]), a[..], 0, a.Length)
    ensures sp <= STACK_DEPTH && Pending(cmp, a[..], stack[..sp]) && DepthsBelow(stack[..sp], STACK_DEPTH + 1)
    ensures Weight(stack[..sp]) < Weight(old(stack[..sp0])) + g.count + 1
  {
    hide Preorder, Pending, Rearranged, DepthsBelow, Weight;
    var cur, depth := g, g.depth;
    sp := sp0;
    ghost var s, rest := a[..], stack[..sp0];
    RearrangedRefl(s, 0, a.Length);
    DepthsGrow(rest, depth, depth + 1);
    while cur.count > 6
      invariant 0 <= depth <= STACK_DEPTH && sp <= STACK_DEPTH
      invariant a[..] == s && stack[..sp] == rest && Rearranged(old(a[..]), s, 0, a.Length)
      invariant Pending(cmp, s, rest + [cur]) && DepthsBelow(rest, depth + 1)
      invariant Weight(rest) + cur.count <= Weight(old(stack[..sp0])) + g.count
      decreases cur.count
    {
      CurrentInside(cmp, s, rest, cur);
      depth := depth + 1;
      if depth > STACK_DEPTH {
        FinishSegment(a, cur, true, cmp, rest);
        RearrangedTrans(old(a[..]), s, a[..], 0, a.Length);
        return;
      }
      var big, small := SplitSegment(a, cur, depth, cmp, rest);
      RearrangedTrans(old(a[..]), s, a[..], 0, a.Length);
      PushDepth(rest, depth, big);
      WeightAppend(rest, big);
      s := a[..];
      stack[sp] := big;
      sp := sp + 1;
      rest, cur := rest + [big], small;
    }
    CurrentInside(cmp, s, rest, cur);
    FinishSegment(a, cur, false, cmp, rest);
    RearrangedTrans(old(a[..]), s, a[..], 0, a.Length);
    DepthsGrow(rest, depth + 1, STACK_DEPTH + 1);
  }

  lemma CurrentInside<T>(cmp: (T, T) -> int, s: seq<T>, rest: seq<Segment>, g: Segment)
    requires Pending(cmp, s, rest + [g])
    ensures g.base + g.count <= |s|
  {
    assert g in rest + [g];
  }

  /** There is room for a further segment. */
  lemma PushDepth(rest: seq<Segment>, d: nat, g: Segment)
    requires DepthsBelow(rest, d) && g.depth == d && 0 < d
    ensures |rest| < d && DepthsBelow(rest + [g], d + 1)
  {
    if rest != [] {
      assert |rest| <= rest[|rest| - 1].depth < d;
    }
  }

  lemma DepthsGrow(rest: seq<Segment>, d: int, e: int)
    requires DepthsBelow(rest, d) && d <= e
    ensures DepthsBelow(rest, e)
  {
  }

  /** rqsort: sorted, a permutation, and never more than 50 pending segments. */
  method RqSort<T(!new)>(a: array<T>, cmp: (T, T) -> int)
    requires Preorder(cmp)
    modifies a
    ensures SortedIn(cmp, a[..], 0, a.Length) && multiset(a[..]) == multiset(old(a[..]))
  {
    hide Preorder, Pending, DepthsBelow, Weight, Le;
    if a.Length < 2 {
      return;
    }
    ghost var s := a[..];
    var stack := new Segment[STACK_DEPTH](_ => Segment(0, 0, 0));
    stack[0] := Segment(0, a.Length, 0);
    var sp := 1;
    FirstPending(cmp, s);
    assert stack[..1] == [Segment(0, a.Length, 0)];
    RearrangedRefl(s, 0, a.Length);
    while sp > 0
      invariant 0 <= sp <= STACK_DEPTH && a[..] == s && Rearranged(old(a[..]), s, 0, a.Length) && Pending(cmp, s, stack[..sp])
      invariant (sp == 1 && stack[0].depth == 0) || DepthsBelow(stack[..sp], STACK_DEPTH + 1)
      decreases Weight(stack[..sp])
    {
      ghost var w := Weight(stack[..sp]);
      sp := sp - 1;
      var g := stack[sp];
      assert stack[..sp + 1] == stack[..sp] + [g];
      WeightAppend(stack[..sp], g);
      PopDepth(stack[..sp], g);
      sp := SortSegment(a, stack, sp, g, cmp);
      RearrangedTrans(old(a[..]), s, a[..], 0, a.Length);
      s := a[..];
    }
    NothingLeft(cmp, s);
    assert old(a[..])[0..a.Length] == old(a[..]) && s[0..a.Length] == s;
  }

  lemma FirstPending<T>(cmp: (T, T) -> int, s: seq<T>)
    ensures Pending(cmp, s, [Segment(0, |s|, 0)])
  {
    AllPending(cmp, s);
  }

  lemma NothingLeft<T>(cmp: (T, T) -> int, s: seq<T>)
    requires Pending(cmp, s, [])
    ensures SortedIn(cmp, s, 0, |s|)
  {
    NothingPending(cmp, s);
  }

  lemma PopDepth(rest: seq<Segment>, g: Segment)
    requires (rest == [] && g.depth == 0) || DepthsBelow(rest + [g], STACK_DEPTH + 1)
    ensures DepthsBelow(rest, g.depth) && g.depth <= STACK_DEPTH
  {
    var gs := rest + [g];
    assert gs[|rest|] == g;
    assert forall k :: 0 <= k < |rest| ==> gs[k] == rest[k];
  }
}
