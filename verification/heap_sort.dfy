/** heapsortx: heap sort in place on a window of an array. */
module HeapSort {
  import opened SortSpec

  function Parent(c: nat): nat
    requires c > 0
  {
    (c - 1) / 2
  }

  /** Below position first, no child in the heap of n elements at lo is greater than its parent. */
  ghost predicate HeapFrom<T>(cmp: (T, T) -> int, s: seq<T>, lo: nat, n: nat, first: nat)
    requires lo + n <= |s|
  {
    forall c :: 0 < c < n && Parent(c) >= first ==> Le(cmp, s[lo + c], s[lo + Parent(c)])
  }

  /** The heap with an element at r that may be smaller than its children. */
  ghost predicate HeapBut<T>(cmp: (T, T) -> int, s: seq<T>, lo: nat, n: nat, first: nat, r: nat)
    requires lo + n <= |s|
  {
    && (forall c :: 0 < c < n && Parent(c) >= first && Parent(c) != r ==> Le(cmp, s[lo + c], s[lo + Parent(c)]))
    && (forall c :: 0 < c < n && 0 < r && Parent(c) == r && Parent(r) >= first ==> Le(cmp, s[lo + c], s[lo + Parent(r)]))
  }

  /** One level of sifting: the greater child c goes up to r. */
  lemma SiftStep<T(!new)>(cmp: (T, T) -> int, s: seq<T>, lo: nat, n: nat, first: nat, r: nat, c: nat)
    requires Preorder(cmp) && lo + n <= |s| && first <= r && 0 < c < n && Parent(c) == r && HeapBut(cmp, s, lo, n, first, r)
    requires Le(cmp, s[lo + r], s[lo + c])
    requires forall d :: 0 < d < n && Parent(d) == r ==> Le(cmp, s[lo + d], s[lo + c])
    ensures HeapBut(cmp, Swapped(s, lo + r, lo + c), lo, n, first, c)
  {
    hide Preorder, Le;
    var s' := Swapped(s, lo + r, lo + c);
    forall d | 0 < d < n && Parent(d) >= first && Parent(d) != c ensures Le(cmp, s'[lo + d], s'[lo + Parent(d)]) {
      if d == c {
      } else if Parent(d) == r {
      } else if d == r {
        assert Le(cmp, s[lo + c], s[lo + Parent(r)]);
      }
    }
    forall d | 0 < d < n && Parent(d) == c ensures Le(cmp, s'[lo + d], s'[lo + r]) {
      assert Le(cmp, s[lo + d], s[lo + Parent(d)]);
    }
  }

  /** At a leaf, or when no child is greater, the heap is whole. */
  lemma SiftDone<T(!new)>(cmp: (T, T) -> int, s: seq<T>, lo: nat, n: nat, first: nat, r: nat)
    requires lo + n <= |s| && HeapBut(cmp, s, lo, n, first, r)
    requires forall d :: 0 < d < n && Parent(d) == r ==> Le(cmp, s[lo + d], s[lo + r])
    ensures HeapFrom(cmp, s, lo, n, first)
  {
    hide Le;
  }

  /** The inner loop of both phases. */
  method SiftDown<T(!new)>(a: array<T>, lo: nat, n: nat, first: nat, cmp: (T, T) -> int)
    requires Preorder(cmp) && first < n && lo + n <= a.Length && HeapBut(cmp, a[..], lo, n, first, first)
    modifies a
    ensures Rearranged(old(a[..]), a[..], lo, lo + n) && HeapFrom(cmp, a[..], lo, n, first)
  {
    hide Preorder, HeapBut, HeapFrom, Rearranged, Parent, Swapped;
    var r := first;
    var c := r * 2 + 1;
    ghost var s := a[..];
    RearrangedRefl(s, lo, lo + n);
    while c < n
      invariant first <= r < n && c == r * 2 + 1 && a[..] == s
      invariant Rearranged(old(a[..]), s, lo, lo + n) && HeapBut(cmp, s, lo, n, first, r)
    {
      if c < n - 1 && cmp(a[lo + c], a[lo + c + 1]) <= 0 {
        c := c + 1;
      }
      GreaterChild(cmp, s, lo, n, r, c);
      if cmp(a[lo + r], a[lo + c]) > 0 {
        BelowRoot(cmp, s, lo, n, r, c);
        SiftDone(cmp, s, lo, n, first, r);
        return;
      }
      SiftStep(cmp, s, lo, n, first, r, c);
      Swap(a, lo + r, lo + c, lo, lo + n);
      RearrangedTrans(old(a[..]), s, a[..], lo, lo + n);
      s := a[..];
      r := c;
      c := r * 2 + 1;
    }
    NoChild(n, r);
    SiftDone(cmp, s, lo, n, first, r);
  }

  lemma NoChild(n: nat, r: nat)
    requires 2 * r + 1 >= n
    ensures forall d :: 0 < d < n ==> Parent(d) != r
  {
  }

  lemma GreaterChild<T(!new)>(cmp: (T, T) -> int, s: seq<T>, lo: nat, n: nat, r: nat, c: nat)
    requires Preorder(cmp) && lo + n <= |s| && c < n && (c == 2 * r + 1 || c == 2 * r + 2)
    requires c == 2 * r + 1 && c + 1 < n ==> !Le(cmp, s[lo + c], s[lo + c + 1])
    requires c == 2 * r + 2 ==> Le(cmp, s[lo + c - 1], s[lo + c])
    ensures Parent(c) == r && forall d :: 0 < d < n && Parent(d) == r ==> Le(cmp, s[lo + d], s[lo + c])
  {
    hide Le, Preorder;
    forall d | 0 < d < n && Parent(d) == r ensures Le(cmp, s[lo + d], s[lo + c]) {
      if d == c {
        LeRefl(cmp, s[lo + c]);
      } else if c == 2 * r + 1 {
        assert d == c + 1;
        LeTotal(cmp, s[lo + c], s[lo + d]);
      } else {
        assert d == c - 1;
      }
    }
  }

  lemma BelowRoot<T(!new)>(cmp: (T, T) -> int, s: seq<T>, lo: nat, n: nat, r: nat, c: nat)
    requires Preorder(cmp) && lo + n <= |s| && c < n && r < n && !Le(cmp, s[lo + r], s[lo + c])
    requires forall d :: 0 < d < n && Parent(d) == r ==> Le(cmp, s[lo + d], s[lo + c])
    ensures forall d :: 0 < d < n && Parent(d) == r ==> Le(cmp, s[lo + d], s[lo + r])
  {
    hide Le, Preorder;
    LeTotal(cmp, s[lo + r], s[lo + c]);
    forall d | 0 < d < n && Parent(d) == r ensures Le(cmp, s[lo + d], s[lo + r]) {
      LeTrans(cmp, s[lo + d], s[lo + c], s[lo + r]);
    }
  }

  /** The root of a heap is its greatest element. */
  lemma {:induction false} RootIsMax<T(!new)>(cmp: (T, T) -> int, s: seq<T>, lo: nat, n: nat, c: nat)
    requires Preorder(cmp) && lo + n <= |s| && c < n && HeapFrom(cmp, s, lo, n, 0)
    ensures Le(cmp, s[lo + c], s[lo])
    decreases c
  {
    hide Le, Preorder;
    if c == 0 {
      LeRefl(cmp, s[lo]);
    } else {
      RootIsMax(cmp, s, lo, n, Parent(c));
      LeTrans(cmp, s[lo + c], s[lo + Parent(c)], s[lo]);
    }
  }

  /** The tail [i, n) of the window is sorted, and nothing before it is greater. */
  ghost predicate TailSorted<T>(cmp: (T, T) -> int, s: seq<T>, lo: nat, n: nat, i: nat)
    requires lo + n <= |s|
  {
    forall j, k :: lo <= j < k < lo + n && lo + i <= k ==> Le(cmp, s[j], s[k])
  }

  /** The root goes to position i. */
  lemma TakeRoot<T(!new)>(cmp: (T, T) -> int, s: seq<T>, lo: nat, n: nat, i: nat)
    requires Preorder(cmp) && lo + n <= |s| && 0 < i < n && HeapFrom(cmp, s, lo, i + 1, 0) && TailSorted(cmp, s, lo, n, i + 1)
    ensures var s' := Swapped(s, lo, lo + i);
            TailSorted(cmp, s', lo, n, i) && HeapBut(cmp, s', lo, i, 0, 0)
  {
    hide Le, Preorder;
    var s' := Swapped(s, lo, lo + i);
    forall j, k | lo <= j < k < lo + n && lo + i <= k ensures Le(cmp, s'[j], s'[k]) {
      if k == lo + i {
        RootIsMax(cmp, s, lo, i + 1, if j == lo then i else j - lo);
      } else {
        assert Le(cmp, s[if j == lo then lo + i else if j == lo + i then lo else j], s[k]);
      }
    }
  }

  /** Rearranging the part before the sorted tail keeps the tail. */
  lemma TailKept<T(!new)>(cmp: (T, T) -> int, s: seq<T>, s': seq<T>, lo: nat, n: nat, i: nat)
    requires lo + n <= |s| && i <= n && Rearranged(s, s', lo, lo + i) && TailSorted(cmp, s, lo, n, i)
    ensures TailSorted(cmp, s', lo, n, i)
  {
    hide Le;
    forall j, k | lo <= j < k < lo + n && lo + i <= k ensures Le(cmp, s'[j], s'[k]) {
      if j < lo + i {
        var m := CameFrom(s, s', lo, lo + i, j);
        assert Le(cmp, s[m], s[k]);
      }
    }
  }

  /** The first phase: the whole window becomes a heap. */
  method Heapify<T(!new)>(a: array<T>, lo: nat, n: nat, cmp: (T, T) -> int)
    requires Preorder(cmp) && lo + n <= a.Length
    modifies a
    ensures Rearranged(old(a[..]), a[..], lo, lo + n) && HeapFrom(cmp, a[..], lo, n, 0)
  {
    hide Preorder, HeapBut, HeapFrom, Rearranged, Le;
    ghost var s := a[..];
    var i := n / 2;
    RearrangedRefl(s, lo, lo + n);
    EmptyHeap(cmp, s, lo, n);
    while i > 0
      invariant 0 <= i <= n / 2 && a[..] == s && Rearranged(old(a[..]), s, lo, lo + n) && HeapFrom(cmp, s, lo, n, i)
    {
      i := i - 1;
      HeapGrows(cmp, s, lo, n, i);
      SiftDown(a, lo, n, i, cmp);
      RearrangedTrans(old(a[..]), s, a[..], lo, lo + n);
      s := a[..];
    }
  }

  /** One turn of the second phase: the root goes to position i, and the rest becomes a heap again. */
  method TakeMax<T(!new)>(a: array<T>, lo: nat, n: nat, i: nat, cmp: (T, T) -> int)
    requires Preorder(cmp) && lo + n <= a.Length && 0 < i < n
    requires HeapFrom(cmp, a[..], lo, i + 1, 0) && TailSorted(cmp, a[..], lo, n, i + 1)
    modifies a
    ensures Rearranged(old(a[..]), a[..], lo, lo + n)
    ensures HeapFrom(cmp, a[..], lo, i, 0) && TailSorted(cmp, a[..], lo, n, i)
  {
    hide Preorder, HeapBut, HeapFrom, Rearranged, TailSorted, Le, Swapped;
    TakeRoot(cmp, a[..], lo, n, i);
    Swap(a, lo, lo + i, lo, lo + n);
    ghost var s := a[..];
    SiftDown(a, lo, i, 0, cmp);
    TailKept(cmp, s, a[..], lo, n, i);
    RearrangedWiden(s, a[..], lo, lo + i, lo, lo + n);
    RearrangedTrans(old(a[..]), s, a[..], lo, lo + n);
  }

  /** heapsortx */
  method HeapSortWindow<T(!new)>(a: array<T>, lo: nat, n: nat, cmp: (T, T) -> int)
    requires Preorder(cmp) && lo + n <= a.Length
    modifies a
    ensures Rearranged(old(a[..]), a[..], lo, lo + n) && SortedIn(cmp, a[..], lo, lo + n)
  {
    hide Preorder, HeapBut, HeapFrom, Rearranged, TailSorted, Le, Swapped;
    RearrangedRefl(a[..], lo, lo + n);
    if n > 1 {
      Heapify(a, lo, n, cmp);
      ghost var s := a[..];
      EmptyTail(cmp, s, lo, n);
      var i := n - 1;
      while i > 0
        invariant 0 <= i < n && a[..] == s && Rearranged(old(a[..]), s, lo, lo + n)
        invariant HeapFrom(cmp, s, lo, i + 1, 0) && TailSorted(cmp, s, lo, n, i + 1)
      {
        TakeMax(a, lo, n, i, cmp);
        RearrangedTrans(old(a[..]), s, a[..], lo, lo + n);
        s := a[..];
        i := i - 1;
      }
      TailIsAll(cmp, s, lo, n);
    }
  }

  lemma EmptyHeap<T>(cmp: (T, T) -> int, s: seq<T>, lo: nat, n: nat)
    requires lo + n <= |s|
    ensures HeapFrom(cmp, s, lo, n, n / 2)
  {
  }

  lemma HeapGrows<T>(cmp: (T, T) -> int, s: seq<T>, lo: nat, n: nat, i: nat)
    requires lo + n <= |s| && HeapFrom(cmp, s, lo, n, i + 1)
    ensures HeapBut(cmp, s, lo, n, i, i)
  {
  }

  lemma EmptyTail<T>(cmp: (T, T) -> int, s: seq<T>, lo: nat, n: nat)
    requires lo + n <= |s|
    ensures TailSorted(cmp, s, lo, n, n)
  {
  }

  lemma TailIsAll<T>(cmp: (T, T) -> int, s: seq<T>, lo: nat, n: nat)
    requires lo + n <= |s| && TailSorted(cmp, s, lo, n, 1)
    ensures SortedIn(cmp, s, lo, lo + n)
  {
  }
}
