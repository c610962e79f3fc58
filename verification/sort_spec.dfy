/** Orders, rearrangements and sorted windows. */
module SortSpec {

  /** The comparison functions that a sort may be given: a total preorder. */
  ghost predicate Preorder<T(!new)>(cmp: (T, T) -> int) {
    && (forall x, y :: cmp(x, y) < 0 <==> cmp(y, x) > 0)
    && (forall x, y, z :: cmp(x, y) <= 0 && cmp(y, z) <= 0 ==> cmp(x, z) <= 0)
  }

  predicate Le<T>(cmp: (T, T) -> int, x: T, y: T) {
    cmp(x, y) <= 0
  }

  lemma LeTrans<T(!new)>(cmp: (T, T) -> int, x: T, y: T, z: T)
    requires Preorder(cmp) && Le(cmp, x, y) && Le(cmp, y, z)
    ensures Le(cmp, x, z)
  {
  }

  lemma LeTotal<T(!new)>(cmp: (T, T) -> int, x: T, y: T)
    requires Preorder(cmp) && !Le(cmp, x, y)
    ensures Le(cmp, y, x)
  {
  }

  lemma LeRefl<T(!new)>(cmp: (T, T) -> int, x: T)
    requires Preorder(cmp)
    ensures Le(cmp, x, x)
  {
  }

  ghost predicate SortedIn<T>(cmp: (T, T) -> int, s: seq<T>, lo: nat, hi: nat)
    requires hi <= |s|
  {
    forall i, j :: lo <= i < j < hi ==> Le(cmp, s[i], s[j])
  }

  /** s' is s with the elements of the window [lo, hi) in another order. */
  ghost predicate Rearranged<T>(s: seq<T>, s': seq<T>, lo: nat, hi: nat) {
    && |s| == |s'| && lo <= hi <= |s|
    && (forall k :: (0 <= k < lo || hi <= k < |s|) ==> s'[k] == s[k])
    && multiset(s'[lo..hi]) == multiset(s[lo..hi])
  }

  lemma RearrangedRefl<T>(s: seq<T>, lo: nat, hi: nat)
    requires lo <= hi <= |s|
    ensures Rearranged(s, s, lo, hi)
  {
  }

  lemma RearrangedTrans<T>(s: seq<T>, s1: seq<T>, s2: seq<T>, lo: nat, hi: nat)
    requires Rearranged(s, s1, lo, hi) && Rearranged(s1, s2, lo, hi)
    ensures Rearranged(s, s2, lo, hi)
  {
  }

  lemma RearrangedWiden<T>(s: seq<T>, s': seq<T>, lo: nat, hi: nat, lo': nat, hi': nat)
    requires Rearranged(s, s', lo, hi) && lo' <= lo && hi <= hi' <= |s|
    ensures Rearranged(s, s', lo', hi')
  {
    var a, b, b', c := s[lo'..lo], s[lo..hi], s'[lo..hi], s[hi..hi'];
    assert s'[lo'..lo] == a && s'[hi..hi'] == c;
    assert s[lo'..hi'] == a + b + c;
    assert s'[lo'..hi'] == a + b' + c;
  }

  function Swapped<T>(s: seq<T>, i: nat, j: nat): (s': seq<T>)
    requires i < |s| && j < |s|
    ensures |s'| == |s|
  {
    s[i := s[j]][j := s[i]]
  }

  /** Exchanging two elements of the window. */
  lemma RearrangedSwap<T>(s: seq<T>, lo: nat, hi: nat, i: nat, j: nat)
    requires lo <= i < hi && lo <= j < hi <= |s|
    ensures Rearranged(s, Swapped(s, i, j), lo, hi)
  {
    hide Swapped;
    SwappedWindow(s, lo, hi, i, j);
    SwapMultiset(s[lo..hi], i - lo, j - lo);
  }

  lemma SwappedWindow<T>(s: seq<T>, lo: nat, hi: nat, i: nat, j: nat)
    requires lo <= i < hi && lo <= j < hi <= |s|
    ensures Swapped(s, i, j)[lo..hi] == Swapped(s[lo..hi], i - lo, j - lo)
    ensures forall k :: (0 <= k < lo || hi <= k < |s|) ==> Swapped(s, i, j)[k] == s[k]
  {
    var w, s' := s[lo..hi], Swapped(s, i, j);
    forall k | 0 <= k < hi - lo ensures s'[lo..hi][k] == Swapped(w, i - lo, j - lo)[k] {
      assert s'[lo..hi][k] == s'[lo + k];
    }
  }

  lemma SwapMultiset<T>(w: seq<T>, p: nat, q: nat)
    requires p < |w| && q < |w|
    ensures multiset(Swapped(w, p, q)) == multiset(w)
  {
  }

  /** Every element of the window was in the window before. */
  lemma CameFrom<T>(s: seq<T>, s': seq<T>, lo: nat, hi: nat, k: nat) returns (j: nat)
    requires Rearranged(s, s', lo, hi) && lo <= k < hi
    ensures lo <= j < hi && s[j] == s'[k]
  {
    var w, w' := s[lo..hi], s'[lo..hi];
    assert w'[k - lo] in multiset(w');
    assert s'[k] in w;
    var i :| 0 <= i < |w| && w[i] == s'[k];
    j := lo + i;
  }

  method Swap<T>(a: array<T>, i: nat, j: nat, ghost lo: nat, ghost hi: nat)
    requires lo <= i < hi && lo <= j < hi <= a.Length
    modifies a
    ensures a[..] == Swapped(old(a[..]), i, j)
    ensures Rearranged(old(a[..]), a[..], lo, hi)
  {
    RearrangedSwap(a[..], lo, hi, i, j);
    a[i], a[j] := a[j], a[i];
  }
}
