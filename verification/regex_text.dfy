/** Back references: the captured text stands again where the engine goes on. */
module RegexText {
  import opened RegexInstr
  import opened RegexChars
  import opened RegexVm
  import opened RegexResults

  lemma SameHead(env: Env, from: nat, mid: nat, to: nat, from': nat, mid': nat, to': nat)
    requires from < to <= env.End() && from' < to' <= env.End() && mid == env.subject.Next(from, to) && mid' == env.subject.Next(from', to')
    ensures SameText(env, from, to, from', to') <==>
            env.Fold(env.subject.CharAt(from, to)) == env.Fold(env.subject.CharAt(from', to')) && SameText(env, mid, to, mid', to')
  {
    var s := env.subject;
    var cs, ds := Chars(s, mid, to), Chars(s, mid', to');
    var a, b := s.CharAt(from, to), s.CharAt(from', to');
    assert Chars(s, from, to) == [a] + cs && Chars(s, from', to') == [b] + ds;
    if SameText(env, from, to, from', to') {
      assert env.Fold(([a] + cs)[0]) == env.Fold(([b] + ds)[0]);
      forall k | 0 <= k < |cs| ensures env.Fold(cs[k]) == env.Fold(ds[k]) {
        assert ([a] + cs)[k + 1] == cs[k] && ([b] + ds)[k + 1] == ds[k];
      }
    }
  }

  /** At a boundary the next character is the same whether the text ends there or later. */
  lemma NextBounded(s: Subject, c: nat, q: nat)
    requires c < q <= |s.units| && s.Boundary(q)
    ensures s.Next(c, q) == s.Next(c, |s.units|) && s.CharAt(c, q) == s.CharAt(c, |s.units|)
  {
  }

  /** REOP_back_reference goes on at q if and only if the captured text stands again from here to q. */
  lemma {:induction false} ForwardText(env: Env, start: nat, stop: nat, c: nat, q: nat)
    requires stop <= env.End() && c <= env.End()
    ensures RefForward(env, start, stop, c) == Some(q) <==> StandsAgain(env, false, start, stop, c, q)
    decreases if start < stop then stop - start else 0
  {
    hide SameText;
    var s, end := env.subject, env.End();
    if start >= stop {
      if q <= end {
        EmptyText(env, start, stop, c, q);
      }
    } else if c >= end {
      EmptyText(env, c, c, start, stop);
      if q == c {
        TextSwap(env, start, stop, c, q);
      }
    } else {
      var start1, c1 := s.Next(start, stop), s.Next(c, end);
      ForwardText(env, start1, stop, c1, q);
      NextAlwaysBoundary(s, c);
      if c < q <= end && s.Boundary(q) {
        NextBounded(s, c, q);
        SameHead(env, start, start1, stop, c, c1, q);
      } else if q == c {
        EmptyText(env, c, c, start, stop);
        TextSwap(env, start, stop, c, q);
      }
    }
  }

  /** Only an empty stretch holds no characters. */
  lemma EmptyText(env: Env, from: nat, to: nat, from': nat, to': nat)
    requires from >= to && to <= env.End() && to' <= env.End()
    ensures SameText(env, from, to, from', to') <==> from' >= to'
  {
  }

  lemma TextSwap(env: Env, from: nat, to: nat, from': nat, to': nat)
    requires to <= env.End() && to' <= env.End()
    ensures SameText(env, from, to, from', to') <==> SameText(env, from', to', from, to)
  {
  }

  /** The characters read from the end. */
  lemma {:induction false} CharsLast(s: Subject, from: nat, to: nat)
    requires from < to <= |s.units|
    ensures Chars(s, from, to) == Chars(s, from, s.Back(to, from)) + [s.CharBefore(to, from)]
    decreases |s.units| - from
  {
    var mid, b := s.Next(from, to), s.Back(to, from);
    if mid < to {
      CharsLast(s, mid, to);
      LastSame(s, from, mid, to, b);
    } else {
      assert Chars(s, mid, to) == [];
      assert b == from;
    }
  }

  lemma LastSame(s: Subject, from: nat, mid: nat, to: nat, b: nat)
    requires from < to <= |s.units| && mid == s.Next(from, to) < to && b == s.Back(to, from)
    ensures s.Back(to, mid) == b && s.CharBefore(to, mid) == s.CharBefore(to, from)
    ensures from < b && s.Next(from, b) == mid && s.CharAt(from, b) == s.CharAt(from, to)
  {
  }

  lemma SameLast(env: Env, from: nat, mid: nat, to: nat, from': nat, mid': nat, to': nat)
    requires from < to <= env.End() && from' < to' <= env.End() && mid == env.subject.Back(to, from) && mid' == env.subject.Back(to', from')
    ensures SameText(env, from, to, from', to') <==>
            env.Fold(env.subject.CharBefore(to, from)) == env.Fold(env.subject.CharBefore(to', from')) && SameText(env, from, mid, from', mid')
  {
    var s := env.subject;
    CharsLast(s, from, to);
    CharsLast(s, from', to');
    var cs, ds := Chars(s, from, mid), Chars(s, from', mid');
    var a, b := s.CharBefore(to, from), s.CharBefore(to', from');
    assert Chars(s, from, to) == cs + [a] && Chars(s, from', to') == ds + [b];
    if SameText(env, from, to, from', to') {
      assert env.Fold((cs + [a])[|cs|]) == env.Fold((ds + [b])[|cs|]);
      forall k | 0 <= k < |cs| ensures env.Fold(cs[k]) == env.Fold(ds[k]) {
        assert (cs + [a])[k] == cs[k] && (ds + [b])[k] == ds[k];
      }
    }
  }

  lemma BackBounded(s: Subject, c: nat, q: nat)
    requires q < c <= |s.units| && s.Boundary(q)
    ensures s.Back(c, q) == s.Back(c, 0) && s.CharBefore(c, q) == s.CharBefore(c, 0)
  {
  }

  /** REOP_backward_back_reference goes on at q if and only if the captured text stands again from q to here. */
  lemma {:induction false} BackwardText(env: Env, start: nat, stop: nat, c: nat, q: nat)
    requires stop <= env.End() && c <= env.End()
    ensures RefBackward(env, start, stop, c) == Some(q) <==> StandsAgain(env, true, start, stop, c, q)
    decreases stop
  {
    hide SameText;
    var s := env.subject;
    if stop <= start {
      EmptyText(env, start, stop, q, c);
    } else if q == c || c == 0 {
      if q == c {
        EmptyText(env, c, c, start, stop);
        TextSwap(env, start, stop, c, c);
      }
      if c > 0 && RefBackward(env, start, stop, c) == Some(q) {
        RefBackwardMoves(env, start, stop, c);
      }
    } else {
      var stop1, c1 := s.Back(stop, start), s.Back(c, 0);
      BackwardText(env, start, stop1, c1, q);
      if q < c && s.Boundary(q) {
        BackBounded(s, c, q);
        SameLast(env, start, stop1, stop, q, c1, c);
      } else {
        BackAlwaysBoundary(s, c);
      }
    }
  }

  lemma {:induction false} RefBackwardMoves(env: Env, start: nat, stop: nat, c: nat)
    requires stop <= env.End() && c <= env.End()
    ensures var q := RefBackward(env, start, stop, c); q.Some? ==> q.value <= c && (start < stop ==> q.value < c)
    decreases stop
  {
    if start < stop && c > 0 {
      RefBackwardMoves(env, start, env.subject.Back(stop, start), env.subject.Back(c, 0));
    }
  }

  /** A back reference to a captured text goes on at q if and only if that text stands again up to q, and fails if and only
      if it stands again nowhere. */
  lemma BackReferenceMeans(env: Env, r: Regs, idx: nat, back: bool, q: nat)
    requires ValidRegs(env, r) && idx < env.captureCount && r.capture[2 * idx].Some? && r.capture[2 * idx + 1].Some?
    ensures var e, start, stop := Exec(env, BackRef(idx, back), r), r.capture[2 * idx].value, r.capture[2 * idx + 1].value;
            && (e == Go(r.(pc := r.pc + 2, cptr := q)) <==> StandsAgain(env, back, start, stop, r.cptr, q))
            && (e == Fail <==> forall p: nat :: !StandsAgain(env, back, start, stop, r.cptr, p))
  {
    hide StandsAgain, RefForward, RefBackward;
    var start, stop := r.capture[2 * idx].value, r.capture[2 * idx + 1].value;
    forall p: nat ensures (if back then RefBackward(env, start, stop, r.cptr) else RefForward(env, start, stop, r.cptr)) == Some(p)
                          <==> StandsAgain(env, back, start, stop, r.cptr, p) {
      ForwardText(env, start, stop, r.cptr, p);
      BackwardText(env, start, stop, r.cptr, p);
    }
  }
}
