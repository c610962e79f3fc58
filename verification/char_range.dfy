/** Sets of code points as sorted lists of boundary points. */
module CharRange {
  import opened SortSpec
  import opened Rqsort

  const UINT32_MAX: nat := 0xffff_ffff

  /** c is in the set when an odd number of points are at or below it. */
  predicate Member(ps: seq<nat>, c: nat) {
    ps != [] && ((ps[0] <= c) != Member(ps[1..], c))
  }

  /** Points in order, possibly repeated. */
  ghost predicate InOrder(ps: seq<nat>) {
    forall i, j :: 0 <= i < j < |ps| ==> ps[i] <= ps[j]
  }

  /** A strictly increasing list of start and end points. */
  ghost predicate Canonical(ps: seq<nat>) {
    |ps| % 2 == 0 && forall i, j :: 0 <= i < j < |ps| ==> ps[i] < ps[j]
  }

  ghost predicate AtMost(ps: seq<nat>, v: nat) {
    forall i :: 0 <= i < |ps| ==> ps[i] <= v
  }

  /** Two lists that stand for the same set. */
  ghost predicate SameSet(a: seq<nat>, b: seq<nat>) {
    forall c: nat :: Member(a, c) == Member(b, c)
  }

  lemma {:induction false} MemberAdd(a: seq<nat>, b: seq<nat>, c: nat)
    ensures Member(a + b, c) == (Member(a, c) != Member(b, c))
    decreases |a|
  {
    if a == [] {
      assert a + b == b;
    } else {
      MemberAdd(a[1..], b, c);
      assert (a + b)[1..] == a[1..] + b;
    }
  }

  lemma MemberOne(v: nat, c: nat)
    ensures Member([v], c) == (v <= c)
  {
    assert [v][1..] == [];
  }

  lemma MemberTwo(u: nat, v: nat, c: nat)
    ensures Member([u, v], c) == ((u <= c) != (v <= c))
  {
    MemberOne(u, c);
    MemberOne(v, c);
    MemberAdd([u], [v], c);
    assert [u] + [v] == [u, v];
  }

  /** Above all points, only the number of points matters. */
  lemma {:induction false} MemberAbove(ps: seq<nat>, c: nat)
    requires AtMost(ps, c)
    ensures Member(ps, c) == (|ps| % 2 == 1)
    decreases |ps|
  {
    if ps != [] {
      MemberAbove(ps[1..], c);
    }
  }

  /** Adding a point changes nothing below it. */
  lemma MemberBelow(ps: seq<nat>, v: nat, c: nat)
    requires c < v
    ensures Member(ps + [v], c) == Member(ps, c)
  {
    MemberAdd(ps, [v], c);
    MemberOne(v, c);
  }

  /** A canonical list is the only one for its set. */
  lemma {:induction false} CanonicalUnique(a: seq<nat>, b: seq<nat>)
    requires (forall i, j :: 0 <= i < j < |a| ==> a[i] < a[j]) && (forall i, j :: 0 <= i < j < |b| ==> b[i] < b[j])
    requires |a| % 2 == |b| % 2 && AtMost(a, UINT32_MAX) && AtMost(b, UINT32_MAX)
    requires forall c: nat :: c < UINT32_MAX ==> Member(a, c) == Member(b, c)
    ensures a == b
    decreases |a| + |b|
  {
    if a != [] && b != [] && a[0] == b[0] {
      forall c: nat | c < UINT32_MAX ensures Member(a[1..], c) == Member(b[1..], c) {
        assert Member(a, c) == Member(b, c);
      }
      CanonicalUnique(a[1..], b[1..]);
      assert a == [a[0]] + a[1..] && b == [b[0]] + b[1..];
    } else if a != [] && (b == [] || a[0] < b[0]) {
      FirstPoint(a, b);
    } else if b != [] {
      FirstPoint(b, a);
    }
  }

  /** Where only one of two lists has begun, they differ. */
  lemma FirstPoint(a: seq<nat>, b: seq<nat>)
    requires (forall i, j :: 0 <= i < j < |a| ==> a[i] < a[j]) && (forall i, j :: 0 <= i < j < |b| ==> b[i] < b[j])
    requires |a| % 2 == |b| % 2 && AtMost(a, UINT32_MAX) && AtMost(b, UINT32_MAX)
    requires a != [] && (b == [] || a[0] < b[0])
    ensures a[0] < UINT32_MAX && Member(a, a[0]) && !Member(b, a[0])
  {
    var c := a[0];
    assert c < UINT32_MAX by {
      if b == [] {
        assert a[0] < a[1] <= UINT32_MAX;
      } else {
        assert b[0] <= UINT32_MAX;
      }
    }
    NotYet(a[1..], c);
    NotYet(b, c);
  }

  lemma {:induction false} NotYet(ps: seq<nat>, c: nat)
    requires forall i :: 0 <= i < |ps| ==> c < ps[i]
    ensures !Member(ps, c)
    decreases |ps|
  {
    if ps != [] {
      NotYet(ps[1..], c);
    }
  }

  datatype Op = Union | Inter | Xor {
    predicate Apply(x: bool, y: bool) {
      match this
      case Union => x || y
      case Inter => x && y
      case Xor => x != y
    }
  }

  lemma ApplyMeans(op: Op, x: bool, y: bool)
    ensures op.Apply(x, y) <==> if op == Inter then x && y else (x || y) && !(op == Xor && x && y)
  {
  }

  /** What the merge has produced so far, from the parts x and y of the two lists, is the operation on them. */
  ghost predicate Merged(op: Op, r: seq<nat>, x: seq<nat>, y: seq<nat>) {
    && (forall c: nat :: Member(r, c) == op.Apply(Member(x, c), Member(y, c)))
    && (|r| % 2 == 1) == op.Apply(|x| % 2 == 1, |y| % 2 == 1)
    && InOrder(r)
  }

  /** The points up to v of r, x and y, and one step of the merge that takes v from x, from y or from both. */
  lemma MergeStep(op: Op, r: seq<nat>, x: seq<nat>, y: seq<nat>, v: nat, fromX: bool, fromY: bool)
    requires Merged(op, r, x, y) && AtMost(r, v) && AtMost(x, v) && AtMost(y, v) && (fromX || fromY)
    ensures var x', y' := if fromX then x + [v] else x, if fromY then y + [v] else y;
            var isIn := op.Apply(|x'| % 2 == 1, |y'| % 2 == 1);
            var r' := if isIn != (|r| % 2 == 1) then r + [v] else r;
            Merged(op, r', x', y') && AtMost(r', v) && AtMost(x', v) && AtMost(y', v)
  {
    var x', y' := if fromX then x + [v] else x, if fromY then y + [v] else y;
    var isIn := op.Apply(|x'| % 2 == 1, |y'| % 2 == 1);
    var r' := if isIn != (|r| % 2 == 1) then r + [v] else r;
    forall c: nat ensures Member(r', c) == op.Apply(Member(x', c), Member(y', c)) {
      if c < v {
        MemberBelow(r, v, c);
        MemberBelow(x, v, c);
        MemberBelow(y, v, c);
      } else {
        MemberAbove(r', c);
        MemberAbove(x', c);
        MemberAbove(y', c);
      }
    }
  }

  class Ranges {
    var points: seq<nat>

    constructor ()
      ensures points == []
    {
      points := [];
    }

    /** cr_add_point */
    method AddPoint(v: nat)
      modifies this
      ensures points == old(points) + [v]
    {
      points := points + [v];
    }

    /** cr_add_interval */
    method AddInterval(c1: nat, c2: nat)
      modifies this
      ensures points == old(points) + [c1, c2]
    {
      points := points + [c1, c2];
    }

    /** cr_compress: same set, canonical. */
    method Compress()
      requires InOrder(points) && |points| % 2 == 0
      modifies this
      ensures Canonical(points) && SameSet(points, old(points))
      ensures forall v :: AtMost(old(points), v) ==> AtMost(points, v)
    {
      hide Member, Canonical, CompressedTo, SameSet, InOrder, AtMost;
      ghost var ps := points;
      var pt, len := points, |points|;
      var i, k := 0, 0;
      NothingDone(ps);
      while i + 1 < len
        invariant 0 <= k <= i <= len == |pt| && i % 2 == 0
        invariant (forall m :: i <= m < len ==> pt[m] == ps[m]) && CompressedTo(ps, pt[..k], i)
      {
        if pt[i] == pt[i + 1] {
          SkipEmpty(ps, pt[..k], i);
          i := i + 2;
        } else {
          var j := i;
          OneInterval(ps, i);
          while j + 3 < len && pt[j + 1] == pt[j + 2]
            invariant i <= j && j + 2 <= len && j % 2 == 0
            invariant SameSet(ps[i..j + 2], [ps[i], ps[j + 1]])
          {
            JoinTouching(ps, i, j);
            j := j + 2;
          }
          CopyInterval(ps, pt[..k], i, j);
          CopyDown(pt, k, pt[i], pt[j + 1], j + 2);
          pt := pt[k := pt[i]];
          pt := pt[k + 1 := pt[j + 1]];
          k := k + 2;
          i := j + 2;
        }
      }
      FinishCompress(ps, pt[..k], i);
      points := pt[..k];
    }

    /** cr_op: the canonical list of the union, the intersection or the difference of the sets in exactly one of the lists. */
    method Operate(a: seq<nat>, b: seq<nat>, op: Op)
      requires points == [] && InOrder(a) && InOrder(b) && |a| % 2 == 0 && |b| % 2 == 0
      modifies this
      ensures Canonical(points)
      ensures forall c: nat :: Member(points, c) <==> if op == Inter then Member(a, c) && Member(b, c)
                                                      else (Member(a, c) || Member(b, c)) && !(op == Xor && Member(a, c) && Member(b, c))
      ensures forall v :: AtMost(a, v) && AtMost(b, v) ==> AtMost(points, v)
    {
      hide Member, Merged, AtMost, Op.Apply, Passed, InOrder;
      var i, j := 0, 0;
      StartMerge(op, a, b);
      while i < |a| || j < |b|
        invariant 0 <= i <= |a| && 0 <= j <= |b|
        invariant Merged(op, points, a[..i], b[..j]) && Passed(points, a, i, b, j)
        decreases |a| - i + |b| - j
      {
        MergeTurn(op, points, a, i, b, j);
        var fromA := i < |a| && (j >= |b| || a[i] <= b[j]);
        var fromB := j < |b| && (i >= |a| || b[j] <= a[i]);
        var v := if fromA then a[i] else b[j];
        if fromA {
          i := i + 1;
        }
        if fromB {
          j := j + 1;
        }
        var isIn := op.Apply(i % 2 == 1, j % 2 == 1);
        if isIn != (|points| % 2 == 1) {
          AddPoint(v);
        }
      }
      assert a[..i] == a && b[..j] == b;
      EndMerge(op, points, a, b);
      ghost var ps := points;
      Compress();
      EndOperate(op, points, ps, a, b);
      forall c: nat {
        ApplyMeans(op, Member(a, c), Member(b, c));
      }
    }

    /** cr_union1 */
    method Union1(b: seq<nat>)
      requires InOrder(points) && InOrder(b) && |points| % 2 == 0 && |b| % 2 == 0
      modifies this
      ensures Canonical(points) && (forall c: nat :: Member(points, c) == (Member(old(points), c) || Member(b, c)))
      ensures forall v :: AtMost(old(points), v) && AtMost(b, v) ==> AtMost(points, v)
    {
      var a := points;
      points := [];
      Operate(a, b, Union);
    }

    /** cr_union_interval, for ends that cr_op can take: at the top of the 32 bits c2 + 1 wraps, and nothing is added. */
    method UnionInterval(c1: nat, c2: nat)
      requires InOrder(points) && |points| % 2 == 0 && c2 <= UINT32_MAX && c1 <= (c2 + 1) % (UINT32_MAX + 1)
      modifies this
      ensures Canonical(points)
      ensures forall c: nat :: Member(points, c) == (Member(old(points), c) || (c1 <= c <= c2 && c2 < UINT32_MAX))
    {
      ghost var ps := points;
      var end := (c2 + 1) % (UINT32_MAX + 1);
      Union1([c1, end]);
      forall c: nat ensures Member(points, c) == (Member(ps, c) || (c1 <= c <= c2 && c2 < UINT32_MAX)) {
        MemberTwo(c1, end, c);
      }
    }

    /** cr_invert: the complement below UINT32_MAX. */
    method Invert()
      requires InOrder(points) && |points| % 2 == 0 && AtMost(points, UINT32_MAX)
      modifies this
      ensures IsComplement(old(points), points)
    {
      ghost var ps := points;
      points := [0] + points + [UINT32_MAX];
      ghost var qs := points;
      Compress();
      assert AtMost(qs, UINT32_MAX);
      forall c: nat | c < UINT32_MAX ensures Member(points, c) == !Member(ps, c) {
        MemberAdd([0] + ps, [UINT32_MAX], c);
        MemberAdd([0], ps, c);
        MemberOne(0, c);
        MemberOne(UINT32_MAX, c);
        assert Member(points, c) == Member(qs, c);
      }
    }

    /** cr_sort_and_remove_overlap: the same points are covered, by intervals in order that do not touch. */
    method SortAndRemoveOverlap()
      requires |points| % 2 == 0
      modifies this
      ensures |points| % 2 == 0 && Separated(Pairs(points))
      ensures forall c: nat :: Covers(Pairs(points), c) <==> Covers(Pairs(old(points)), c)
      ensures NoneEmpty(Pairs(old(points))) ==> NoneEmpty(Pairs(points)) && Canonical(points)
    {
      hide Covers, NoneEmpty, Pairs, Flatten, Preorder, SortedIn;
      var iv := Pairs(points);
      var arr := new (nat, nat)[|iv|](k requires 0 <= k < |iv| => iv[k]);
      assert arr[..] == iv;
      StartCmpIsPreorder();
      RqSort(arr, StartCmp);
      ghost var sorted := arr[..];
      SameCover(iv, sorted);
      var n := MergeOverlaps(arr);
      points := Flatten(arr[..n]);
      PairsOfFlatten(arr[..n]);
      if NoneEmpty(iv) {
        SeparatedIsCanonical(arr[..n]);
      }
    }
  }

  // The merge of two lists.

  /** Everything produced or read so far is at or below everything still to be read. */
  ghost predicate Passed(r: seq<nat>, a: seq<nat>, i: nat, b: seq<nat>, j: nat)
    requires i <= |a| && j <= |b|
  {
    forall v :: v in r || v in a[..i] || v in b[..j] ==>
      (forall k :: i <= k < |a| ==> v <= a[k]) && (forall k :: j <= k < |b| ==> v <= b[k]) && (v in r ==> v in a || v in b)
  }

  lemma StartMerge(op: Op, a: seq<nat>, b: seq<nat>)
    ensures Merged(op, [], a[..0], b[..0]) && Passed([], a, 0, b, 0)
  {
  }

  lemma NextPoint(r: seq<nat>, a: seq<nat>, i: nat, b: seq<nat>, j: nat, v: nat, fromA: bool, fromB: bool)
    requires i <= |a| && j <= |b| && (i < |a| || j < |b|) && Passed(r, a, i, b, j)
    requires fromA == (i < |a| && (j >= |b| || a[i] <= b[j])) && fromB == (j < |b| && (i >= |a| || b[j] <= a[i]))
    requires v == if fromA then a[i] else b[j]
    ensures AtMost(r, v) && AtMost(a[..i], v) && AtMost(b[..j], v) && (fromA || fromB)
    ensures (fromA ==> a[..i + 1] == a[..i] + [v]) && (fromB ==> b[..j + 1] == b[..j] + [v])
  {
    forall k | 0 <= k < |r| ensures r[k] <= v {
      assert r[k] in r;
    }
    forall k | 0 <= k < i ensures a[..i][k] <= v {
      assert a[..i][k] in a[..i];
    }
    forall k | 0 <= k < j ensures b[..j][k] <= v {
      assert b[..j][k] in b[..j];
    }
  }

  lemma PointPassed(r: seq<nat>, a: seq<nat>, i: nat, b: seq<nat>, j: nat, v: nat)
    requires i <= |a| && j <= |b| && AtMost(r, v) && AtMost(a[..i], v) && AtMost(b[..j], v)
    requires (forall k :: i <= k < |a| ==> v <= a[k]) && (forall k :: j <= k < |b| ==> v <= b[k])
    requires forall x :: x in r ==> x in a || x in b
    ensures Passed(r, a, i, b, j)
  {
  }

  /** One turn of the loop of cr_op. */
  lemma MergeTurn(op: Op, r: seq<nat>, a: seq<nat>, i: nat, b: seq<nat>, j: nat)
    requires i <= |a| && j <= |b| && (i < |a| || j < |b|) && InOrder(a) && InOrder(b)
    requires Merged(op, r, a[..i], b[..j]) && Passed(r, a, i, b, j)
    ensures var fromA, fromB := i < |a| && (j >= |b| || a[i] <= b[j]), j < |b| && (i >= |a| || b[j] <= a[i]);
            var v := if fromA then a[i] else b[j];
            var i', j' := if fromA then i + 1 else i, if fromB then j + 1 else j;
            var r' := if op.Apply(i' % 2 == 1, j' % 2 == 1) != (|r| % 2 == 1) then r + [v] else r;
            (fromA || fromB) && Merged(op, r', a[..i'], b[..j']) && Passed(r', a, i', b, j')
  {
    hide Merged, Op.Apply, AtMost;
    var fromA, fromB := i < |a| && (j >= |b| || a[i] <= b[j]), j < |b| && (i >= |a| || b[j] <= a[i]);
    var v := if fromA then a[i] else b[j];
    NextPoint(r, a, i, b, j, v, fromA, fromB);
    MergeStep(op, r, a[..i], b[..j], v, fromA, fromB);
    var i', j' := if fromA then i + 1 else i, if fromB then j + 1 else j;
    var r' := if op.Apply(i' % 2 == 1, j' % 2 == 1) != (|r| % 2 == 1) then r + [v] else r;
    PointPassed(r', a, i', b, j', v);
  }

  lemma EndMerge(op: Op, r: seq<nat>, a: seq<nat>, b: seq<nat>)
    requires Merged(op, r, a, b) && |a| % 2 == 0 && |b| % 2 == 0
    ensures InOrder(r) && |r| % 2 == 0
  {
  }

  lemma EndOperate(op: Op, out: seq<nat>, r: seq<nat>, a: seq<nat>, b: seq<nat>)
    requires Merged(op, r, a, b) && SameSet(out, r) && Passed(r, a, |a|, b, |b|)
    requires forall v :: AtMost(r, v) ==> AtMost(out, v)
    ensures forall c: nat :: Member(out, c) == op.Apply(Member(a, c), Member(b, c))
    ensures forall v :: AtMost(a, v) && AtMost(b, v) ==> AtMost(out, v)
  {
    hide Member;
    forall v | AtMost(a, v) && AtMost(b, v) ensures AtMost(r, v) {
      forall k | 0 <= k < |r| ensures r[k] <= v {
        assert r[k] in r;
      }
    }
  }

  // The complement.

  /** q is the canonical list of the complement of p below UINT32_MAX. */
  ghost predicate IsComplement(p: seq<nat>, q: seq<nat>) {
    Canonical(q) && AtMost(q, UINT32_MAX) && forall c: nat :: c < UINT32_MAX ==> Member(q, c) == !Member(p, c)
  }

  /** Inverting twice gives back a canonical list. */
  lemma InvertTwice(p: seq<nat>, q: seq<nat>, r: seq<nat>)
    requires Canonical(p) && AtMost(p, UINT32_MAX) && IsComplement(p, q) && IsComplement(q, r)
    ensures r == p
  {
    hide Member;
    forall c: nat | c < UINT32_MAX ensures Member(r, c) == Member(p, c) {
      assert Member(r, c) == !Member(q, c);
    }
    CanonicalUnique(r, p);
  }

  // Lists of intervals that may overlap.

  type Interval = (nat, nat)

  function Pairs(ps: seq<nat>): (iv: seq<Interval>)
    requires |ps| % 2 == 0
    ensures |iv| == |ps| / 2
  {
    if ps == [] then [] else [(ps[0], ps[1])] + Pairs(ps[2..])
  }

  function Flatten(iv: seq<Interval>): (ps: seq<nat>)
    ensures |ps| == 2 * |iv|
  {
    if iv == [] then [] else [iv[0].0, iv[0].1] + Flatten(iv[1..])
  }

  lemma {:induction false} PairsOfFlatten(iv: seq<Interval>)
    ensures Pairs(Flatten(iv)) == iv
    decreases |iv|
  {
    if iv != [] {
      PairsOfFlatten(iv[1..]);
      assert Flatten(iv)[2..] == Flatten(iv[1..]);
    }
  }

  ghost predicate Covers(iv: seq<Interval>, c: nat) {
    exists k :: 0 <= k < |iv| && iv[k].0 <= c < iv[k].1
  }

  ghost predicate Separated(iv: seq<Interval>) {
    forall j, k :: 0 <= j < k < |iv| ==> iv[j].1 < iv[k].0 && iv[j].0 <= iv[k].0
  }

  ghost predicate NoneEmpty(iv: seq<Interval>) {
    forall k :: 0 <= k < |iv| ==> iv[k].0 < iv[k].1
  }

  /** point_cmp */
  function StartCmp(x: Interval, y: Interval): int {
    if x.0 > y.0 then 1 else if x.0 < y.0 then -1 else 0
  }

  lemma StartCmpIsPreorder()
    ensures Preorder(StartCmp)
  {
  }

  lemma SameCover(iv: seq<Interval>, iv': seq<Interval>)
    requires multiset(iv) == multiset(iv')
    ensures |iv| == |iv'| && (NoneEmpty(iv) ==> NoneEmpty(iv')) && forall c: nat :: Covers(iv, c) <==> Covers(iv', c)
  {
    assert |multiset(iv)| == |iv| && |multiset(iv')| == |iv'|;
    CoverSub(iv, iv');
    CoverSub(iv', iv);
  }

  lemma CoverSub(iv: seq<Interval>, iv': seq<Interval>)
    requires multiset(iv) == multiset(iv')
    ensures (NoneEmpty(iv) ==> NoneEmpty(iv')) && forall c: nat :: Covers(iv', c) ==> Covers(iv, c)
  {
    forall k | 0 <= k < |iv'| ensures iv'[k] in iv {
      assert iv'[k] in multiset(iv');
    }
  }

  /** Sorted, separated and never empty: the points are canonical. */
  lemma {:induction false} SeparatedIsCanonical(iv: seq<Interval>)
    requires Separated(iv) && NoneEmpty(iv)
    ensures Canonical(Flatten(iv))
    decreases |iv|
  {
    if iv != [] {
      SeparatedIsCanonical(iv[1..]);
      var rest := Flatten(iv[1..]);
      forall i | 0 <= i < |rest| ensures iv[0].1 < rest[i] {
        FlattenAt(iv[1..], i);
      }
    }
  }

  lemma {:induction false} FlattenAt(iv: seq<Interval>, i: nat)
    requires i < 2 * |iv|
    ensures Flatten(iv)[i] == if i % 2 == 0 then iv[i / 2].0 else iv[i / 2].1
    decreases |iv|
  {
    if i >= 2 {
      FlattenAt(iv[1..], i - 2);
      assert Flatten(iv)[i] == Flatten(iv[1..])[i - 2];
    }
  }

  lemma {:induction false} PairsAt(ps: seq<nat>, k: nat)
    requires |ps| % 2 == 0 && 2 * k < |ps|
    ensures Pairs(ps)[k] == (ps[2 * k], ps[2 * k + 1])
    decreases |ps|
  {
    if k > 0 {
      PairsAt(ps[2..], k - 1);
    }
  }

  /** In a canonical list, membership is lying in one of its intervals, and these are apart. */
  lemma {:induction false} MemberIsCovered(ps: seq<nat>, c: nat)
    requires Canonical(ps)
    ensures Member(ps, c) <==> Covers(Pairs(ps), c)
    decreases |ps|
  {
    if ps != [] {
      var rest, iv := ps[2..], Pairs(ps);
      MemberIsCovered(rest, c);
      MemberAdd(ps[..2], rest, c);
      assert ps[..2] + rest == ps && ps[..2] == [ps[0], ps[1]];
      MemberTwo(ps[0], ps[1], c);
      if c < ps[1] {
        NotYet(rest, c);
      }
      CoversSplit(iv, 1, c);
      assert iv[..1] == [(ps[0], ps[1])] && iv[1..] == Pairs(rest);
      StartSpan(iv, 0);
    }
  }

  lemma CanonicalIsSeparated(ps: seq<nat>)
    requires Canonical(ps)
    ensures Separated(Pairs(ps)) && NoneEmpty(Pairs(ps))
  {
    var iv := Pairs(ps);
    forall k | 0 <= k < |iv| ensures iv[k].0 < iv[k].1 {
      PairsAt(ps, k);
    }
    forall j, k | 0 <= j < k < |iv| ensures iv[j].1 < iv[k].0 && iv[j].0 <= iv[k].0 {
      PairsAt(ps, j);
      PairsAt(ps, k);
    }
  }

  /** The first i intervals are those of out, which end before the others begin. */
  ghost predicate Joined(iv: seq<Interval>, out: seq<Interval>, i: nat) {
    && i <= |iv| && Separated(out)
    && (forall c: nat :: Covers(iv[..i], c) <==> Covers(out, c))
    && (forall j, k :: 0 <= j < |out| && i <= k < |iv| ==> out[j].1 < iv[k].0 && out[j].0 <= iv[k].0)
    && (NoneEmpty(iv) ==> NoneEmpty(out))
  }

  /** [start, end) covers what the intervals from i0 to i cover. */
  ghost predicate Spans(iv: seq<Interval>, i0: nat, i: nat, start: nat, end: nat) {
    && i0 < i <= |iv| && start == iv[i0].0 && iv[i0].1 <= end
    && forall c: nat :: Covers(iv[i0..i], c) <==> start <= c < end
  }

  /** The loop of cr_sort_and_remove_overlap on intervals sorted by their start. */
  method MergeOverlaps(arr: array<Interval>) returns (j: nat)
    requires SortedIn(StartCmp, arr[..], 0, arr.Length)
    modifies arr
    ensures j <= arr.Length && Separated(arr[..j])
    ensures forall c: nat :: Covers(arr[..j], c) <==> Covers(old(arr[..]), c)
    ensures NoneEmpty(old(arr[..])) ==> NoneEmpty(arr[..j])
  {
    hide Joined, Spans, Covers, NoneEmpty, Separated;
    ghost var iv := arr[..];
    var i := 0;
    j := 0;
    StartJoin(iv);
    while i < arr.Length
      invariant 0 <= j <= i <= arr.Length == |iv| && arr[i..] == iv[i..] && Joined(iv, arr[..j], i)
    {
      assert forall k :: i <= k < |iv| ==> arr[k] == arr[i..][k - i] == iv[k];
      var i0, start, end := i, arr[i].0, arr[i].1;
      i := i + 1;
      StartSpan(iv, i0);
      ghost var now := arr[..];
      while i < arr.Length && arr[i].0 <= end
        invariant i0 < i <= arr.Length && Spans(iv, i0, i, start, end) && arr[..] == now
      {
        ExtendSpan(iv, i0, i, start, end);
        if arr[i].1 > end {
          end := arr[i].1;
        }
        i := i + 1;
      }
      JoinSpan(iv, arr[..j], i0, i, start, end);
      ghost var out := arr[..j];
      arr[j] := (start, end);
      j := j + 1;
      assert arr[..j] == out + [(start, end)];
    }
    EndJoin(iv, arr[..j], i);
  }

  lemma StartJoin(iv: seq<Interval>)
    ensures Joined(iv, [], 0) && iv[..0] == []
  {
  }

  lemma StartSpan(iv: seq<Interval>, i: nat)
    requires i < |iv|
    ensures Spans(iv, i, i + 1, iv[i].0, iv[i].1)
  {
    var w := iv[i..i + 1];
    forall c: nat ensures Covers(w, c) <==> iv[i].0 <= c < iv[i].1 {
      assert w[0] == iv[i];
    }
  }

  lemma CoversAppend(iv: seq<Interval>, x: Interval, c: nat)
    ensures Covers(iv + [x], c) <==> Covers(iv, c) || x.0 <= c < x.1
  {
    var w := iv + [x];
    assert w[|iv|] == x;
    if Covers(iv, c) {
      var k :| 0 <= k < |iv| && iv[k].0 <= c < iv[k].1;
      assert w[k] == iv[k];
    }
  }

  lemma ExtendSpan(iv: seq<Interval>, i0: nat, i: nat, start: nat, end: nat)
    requires SortedIn(StartCmp, iv, 0, |iv|) && Spans(iv, i0, i, start, end) && i < |iv| && iv[i].0 <= end
    ensures Spans(iv, i0, i + 1, start, if iv[i].1 > end then iv[i].1 else end)
  {
    assert Le(StartCmp, iv[i0], iv[i]);
    var w, end' := iv[i0..i + 1], if iv[i].1 > end then iv[i].1 else end;
    forall c: nat ensures Covers(w, c) <==> start <= c < end' {
      assert w == iv[i0..i] + [iv[i]];
      CoversAppend(iv[i0..i], iv[i], c);
    }
  }

  lemma JoinSpan(iv: seq<Interval>, out: seq<Interval>, i0: nat, i: nat, start: nat, end: nat)
    requires SortedIn(StartCmp, iv, 0, |iv|) && Joined(iv, out, i0) && Spans(iv, i0, i, start, end)
    requires i < |iv| ==> end < iv[i].0
    ensures Joined(iv, out + [(start, end)], i)
  {
    var out' := out + [(start, end)];
    forall c: nat ensures Covers(iv[..i], c) <==> Covers(out', c) {
      CoversSplit(iv[..i], i0, c);
      assert iv[..i][..i0] == iv[..i0] && iv[..i][i0..] == iv[i0..i];
      CoversAppend(out, (start, end), c);
    }
    forall k | i <= k < |iv| ensures end < iv[k].0 && start <= iv[k].0 {
      assert k == i || Le(StartCmp, iv[i], iv[k]);
      assert Le(StartCmp, iv[i0], iv[k]);
    }
  }

  lemma CoversSplit(iv: seq<Interval>, m: nat, c: nat)
    requires m <= |iv|
    ensures Covers(iv, c) <==> Covers(iv[..m], c) || Covers(iv[m..], c)
  {
    if Covers(iv, c) {
      var k :| 0 <= k < |iv| && iv[k].0 <= c < iv[k].1;
      assert if k < m then iv[..m][k] == iv[k] else iv[m..][k - m] == iv[k];
    }
  }

  lemma EndJoin(iv: seq<Interval>, out: seq<Interval>, i: nat)
    requires Joined(iv, out, i) && i == |iv|
    ensures Separated(out) && (NoneEmpty(iv) ==> NoneEmpty(out)) && forall c: nat :: Covers(out, c) <==> Covers(iv, c)
  {
    assert iv[..i] == iv;
  }

  lemma CopyDown(pt: seq<nat>, k: nat, u: nat, w: nat, i: nat)
    requires k + 2 <= i <= |pt|
    ensures var pt' := pt[k := u][k + 1 := w];
            pt'[..k + 2] == pt[..k] + [u, w] && pt'[i..] == pt[i..] && pt[k := u][i - 1] == if k == i - 1 then u else pt[i - 1]
  {
  }

  lemma NothingDone(ps: seq<nat>)
    ensures CompressedTo(ps, ps[..0], 0)
  {
  }

  lemma OneInterval(ps: seq<nat>, i: nat)
    requires i + 1 < |ps|
    ensures SameSet(ps[i..i + 2], [ps[i], ps[i + 1]])
  {
    assert ps[i..i + 2] == [ps[i], ps[i + 1]];
  }

  /** out is canonical, stands for the first i points of ps, and ends below the others. */
  ghost predicate CompressedTo(ps: seq<nat>, out: seq<nat>, i: nat) {
    && i <= |ps| && Canonical(out)
    && SameSet(ps[..i], out)
    && (forall j, k :: 0 <= j < |out| && i <= k < |ps| ==> out[j] < ps[k])
    && (forall v :: AtMost(ps, v) ==> AtMost(out, v))
  }

  lemma SkipEmpty(ps: seq<nat>, out: seq<nat>, i: nat)
    requires InOrder(ps) && CompressedTo(ps, out, i) && i + 1 < |ps| && ps[i] == ps[i + 1]
    ensures CompressedTo(ps, out, i + 2)
  {
    forall c: nat ensures Member(ps[..i + 2], c) == Member(out, c) {
      assert ps[..i + 2] == ps[..i] + [ps[i], ps[i + 1]];
      MemberAdd(ps[..i], [ps[i], ps[i + 1]], c);
      MemberTwo(ps[i], ps[i + 1], c);
    }
  }

  /** Two intervals that touch make one. */
  lemma JoinTouching(ps: seq<nat>, i: nat, j: nat)
    requires i <= j && j + 3 < |ps| && ps[j + 1] == ps[j + 2]
    requires SameSet(ps[i..j + 2], [ps[i], ps[j + 1]])
    ensures SameSet(ps[i..j + 4], [ps[i], ps[j + 3]])
  {
    var x, y := ps[i..j + 4], [ps[i], ps[j + 3]];
    forall c: nat ensures Member(x, c) == Member(y, c) {
      assert x == ps[i..j + 2] + [ps[j + 2], ps[j + 3]];
      MemberAdd(ps[i..j + 2], [ps[j + 2], ps[j + 3]], c);
      MemberTwo(ps[j + 2], ps[j + 3], c);
      MemberTwo(ps[i], ps[j + 1], c);
      MemberTwo(ps[i], ps[j + 3], c);
    }
  }

  lemma CopyInterval(ps: seq<nat>, out: seq<nat>, i: nat, j: nat)
    requires InOrder(ps) && CompressedTo(ps, out, i) && i <= j && j + 2 <= |ps| && ps[i] != ps[i + 1]
    requires j + 3 < |ps| ==> ps[j + 1] != ps[j + 2]
    requires |ps| % 2 == 0 && j % 2 == 0
    requires SameSet(ps[i..j + 2], [ps[i], ps[j + 1]])
    ensures CompressedTo(ps, out + [ps[i], ps[j + 1]], j + 2)
  {
    hide Member;
    var out' := out + [ps[i], ps[j + 1]];
    forall c: nat ensures Member(ps[..j + 2], c) == Member(out', c) {
      assert ps[..j + 2] == ps[..i] + ps[i..j + 2];
      MemberAdd(ps[..i], ps[i..j + 2], c);
      MemberAdd(out, [ps[i], ps[j + 1]], c);
    }
    assert ps[i] < ps[i + 1] <= ps[j + 1];
  }

  lemma FinishCompress(ps: seq<nat>, out: seq<nat>, i: nat)
    requires CompressedTo(ps, out, i) && i % 2 == 0 && |ps| % 2 == 0 && i + 1 >= |ps|
    ensures Canonical(out) && SameSet(out, ps) && (forall v :: AtMost(ps, v) ==> AtMost(out, v))
  {
    assert ps[..i] == ps;
  }
}
