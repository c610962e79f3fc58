/** Character classes: the table that the compiler emits for a set, and the search of that table. */
module RegexClass {
  import opened RegexInstr
  import opened RegexVm
  import opened CharRange

  /** A table of inclusive ranges in order. */
  ghost predicate InOrderTable(pairs: seq<(nat, nat)>) {
    && (forall k :: 0 <= k < |pairs| ==> pairs[k].0 <= pairs[k].1)
    && (forall j, k :: 0 <= j < k < |pairs| ==> pairs[j].1 < pairs[k].0)
  }

  ghost predicate Listed(pairs: seq<(nat, nat)>, c: nat, lo: nat, hi: nat)
    requires hi <= |pairs|
  {
    exists k :: lo <= k < hi && pairs[k].0 <= c <= pairs[k].1
  }

  /** The binary search finds c exactly when some range of the table holds it. */
  lemma {:induction false} SearchFinds(pairs: seq<(nat, nat)>, c: nat, lo: nat, hi: nat)
    requires InOrderTable(pairs) && lo <= hi <= |pairs|
    ensures TableSearch(pairs, c, lo, hi) <==> Listed(pairs, c, lo, hi)
    decreases hi - lo
  {
    if lo < hi {
      var idx := (lo + hi - 1) / 2;
      if c < pairs[idx].0 {
        SearchFinds(pairs, c, lo, idx);
      } else if c > pairs[idx].1 {
        SearchFinds(pairs, c, idx + 1, hi);
      }
    }
  }

  /** What each single-character opcode accepts; the last bound 0xffff of a narrow table stands for infinity. */
  lemma AcceptsMeans(env: Env, i: Instr, c: nat)
    requires Consumes(i) && (i.Range? || i.Range32? ==> InOrderTable(i.pairs))
    ensures var d := if env.ignoreCase then env.canon(c) else c;
            Accepts(env, i, c) <==>
            match i
            case Char(v) => d == v
            case Char32(v) => d == v
            case Dot => c !in {0x0A, 0x0D, 0x2028, 0x2029}
            case Any => true
            case Range(pairs) => exists k :: 0 <= k < |pairs| && pairs[k].0 <= d && (d <= pairs[k].1 || (k == |pairs| - 1 && pairs[k].1 == 0xffff))
            case Range32(pairs) => exists k :: 0 <= k < |pairs| && pairs[k].0 <= d <= pairs[k].1
  {
    hide TableSearch;
    var d := env.Fold(c);
    if (i.Range? || i.Range32?) && |i.pairs| > 0 {
      var pairs, n := i.pairs, |i.pairs|;
      SearchFinds(pairs, d, 0, n);
      assert forall k :: 0 <= k < n ==> pairs[0].0 <= pairs[k].0 && pairs[k].1 <= pairs[n - 1].1;
    }
  }

  /** The loops of REOP_range and REOP_range32; no index goes below zero. */
  method SearchTable(pairs: seq<(nat, nat)>, c: nat, wide: bool) returns (found: bool)
    requires |pairs| > 0
    ensures found == if wide then Range32Has(pairs, c) else RangeHas(pairs, c)
  {
    var n := |pairs|;
    if c < pairs[0].0 {
      return false;
    }
    var idxMax: nat, idxMin: nat := n - 1, 0;
    if !wide && c >= 0xffff && pairs[idxMax].1 == 0xffff {
      return true;
    }
    if c > pairs[idxMax].1 {
      return false;
    }
    while idxMin <= idxMax
      invariant idxMin <= idxMax + 1 && idxMax < n
      invariant TableSearch(pairs, c, 0, n) == TableSearch(pairs, c, idxMin, idxMax + 1)
      decreases idxMax + 1 - idxMin
    {
      var idx := (idxMin + idxMax) / 2;
      if c < pairs[idx].0 {
        idxMax := idx - 1;
      } else if c > pairs[idx].1 {
        idxMin := idx + 1;
      } else {
        return true;
      }
    }
    found := false;
  }

  /** What the class opcodes accept. */
  ghost predicate ClassHas(i: Instr, c: nat)
    requires i.Range? || i.Range32? || i.Char32?
  {
    match i
    case Range(pairs) => RangeHas(pairs, c)
    case Range32(pairs) => Range32Has(pairs, c)
    case Char32(v) => c == v
  }

  /** The inclusive bound of an interval that ends before point p; 0xffff stands for infinity in the narrow table. */
  function Bound(p: nat, wide: bool): nat
    requires p > 0
  {
    if !wide && p == UINT32_MAX then 0xffff else p - 1
  }

  /** The table of the intervals iv. */
  ghost predicate TableOf(iv: seq<Interval>, pairs: seq<(nat, nat)>, wide: bool) {
    |iv| == |pairs| && forall k :: 0 <= k < |iv| ==> iv[k].1 > 0 && pairs[k] == (iv[k].0, Bound(iv[k].1, wide))
  }

  lemma TableInOrder(iv: seq<Interval>, pairs: seq<(nat, nat)>, wide: bool)
    requires Separated(iv) && NoneEmpty(iv) && TableOf(iv, pairs, wide)
    requires forall k :: 0 <= k < |iv| ==> iv[k].1 <= UINT32_MAX
    requires !wide ==> forall k :: 0 <= k < |iv| ==> iv[k].0 <= 0xffff
    ensures InOrderTable(pairs)
  {
    forall j, k | 0 <= j < k < |pairs| ensures pairs[j].1 < pairs[k].0 {
      assert iv[k].0 < iv[k].1 <= UINT32_MAX;
    }
  }

  /** A range of the table holds what its interval holds, when 0xffff as the last bound is read as infinity. */
  lemma TableHas(iv: seq<Interval>, pairs: seq<(nat, nat)>, wide: bool, c: nat)
    requires iv != [] && Separated(iv) && NoneEmpty(iv) && TableOf(iv, pairs, wide) && c < UINT32_MAX
    requires forall k :: 0 <= k < |iv| ==> iv[k].1 <= UINT32_MAX
    requires !wide ==> Narrow(iv)
    ensures (if wide then Range32Has(pairs, c) else RangeHas(pairs, c)) <==> Covers(iv, c)
  {
    hide TableSearch;
    var n := |pairs|;
    TableInOrder(iv, pairs, wide);
    SearchFinds(pairs, c, 0, n);
    var last := iv[n - 1];
    if !wide && c >= 0xffff && pairs[n - 1].1 == 0xffff {
      assert last.1 == UINT32_MAX;
      assert Covers(iv, c);
    } else {
      forall k | 0 <= k < n ensures pairs[k].0 <= c <= pairs[k].1 <==> iv[k].0 <= c < iv[k].1 {
        if !wide && iv[k].1 == UINT32_MAX {
          assert k == n - 1;
        }
      }
      assert Listed(pairs, c, 0, n) <==> Covers(iv, c);
      if c < pairs[0].0 || c > pairs[n - 1].1 {
        assert !Listed(pairs, c, 0, n);
      }
    }
  }

  /** All bounds fit 16 bits, except that the last one may be infinite. */
  ghost predicate Narrow(iv: seq<Interval>) {
    forall k :: 0 <= k < |iv| ==> iv[k].0 <= 0xffff && (iv[k].1 <= 0xffff || (k == |iv| - 1 && iv[k].1 == UINT32_MAX))
  }

  /** re_emit_range: the instruction accepts exactly the members of the set; there is none for 65535 intervals or more. */
  method EmitRange(points: seq<nat>) returns (r: Option<Instr>)
    requires Canonical(points) && AtMost(points, UINT32_MAX)
    ensures r.None? <==> |points| / 2 >= 65535
    ensures r.Some? ==> (r.value.Range? || r.value.Range32? || r.value.Char32?) && Encodable(r.value)
    ensures r.Some? ==> forall c: nat :: c < UINT32_MAX ==> (ClassHas(r.value, c) <==> Member(points, c))
  {
    hide Covers, Member, Pairs, RangeHas, Range32Has;
    var len := |points| / 2;
    if len >= 65535 {
      return None;
    }
    ghost var iv := Pairs(points);
    if len == 0 {
      EmptySet(points);
      return Some(Char32(UINT32_MAX));
    }
    var high := points[|points| - 1];
    if high == UINT32_MAX {
      high := points[|points| - 2];
    }
    var wide := high > 0xffff;
    var pairs: seq<(nat, nat)> := [];
    CanonicalBounds(points);
    for i := 0 to len
      invariant |pairs| == i && TableOf(iv[..i], pairs, wide)
    {
      PairsAt(points, i);
      pairs := pairs + [(points[2 * i], Bound(points[2 * i + 1], wide))];
      assert iv[..i + 1] == iv[..i] + [iv[i]];
    }
    assert iv[..len] == iv;
    CanonicalIsSeparated(points);
    forall c: nat | c < UINT32_MAX
      ensures (if wide then Range32Has(pairs, c) else RangeHas(pairs, c)) <==> Member(points, c) {
      TableHas(iv, pairs, wide, c);
      MemberIsCovered(points, c);
    }
    r := Some(if wide then Range32(pairs) else Range(pairs));
  }

  lemma EmptySet(points: seq<nat>)
    requires |points| == 0
    ensures forall c: nat :: !Member(points, c)
  {
  }

  /** What the choice of the table's width rests on. */
  lemma CanonicalBounds(points: seq<nat>)
    requires Canonical(points) && AtMost(points, UINT32_MAX) && points != []
    ensures var iv, n := Pairs(points), |points|;
            && (forall k :: 0 <= k < |iv| ==> 0 < iv[k].1 <= UINT32_MAX && iv[k].0 < UINT32_MAX)
            && ((if points[n - 1] == UINT32_MAX then points[n - 2] else points[n - 1]) <= 0xffff ==> Narrow(iv))
  {
    var iv, n := Pairs(points), |points|;
    forall k | 0 <= k < |iv| ensures iv[k] == (points[2 * k], points[2 * k + 1]) {
      PairsAt(points, k);
    }
  }
}
