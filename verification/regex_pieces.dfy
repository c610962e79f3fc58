/** What each piece of code that the compiler emits means. */
module RegexPieces {
  import opened RegexInstr
  import opened RegexChars
  import opened RegexVm
  import opened RegexSearch
  import opened RegexRefine
  import opened RegexEmit
  import opened RegexGreedy
  import opened RegexLayout
  import opened RegexResults
  import opened RegexText
  import opened RegexMeaning

  // Single instructions.

  /** The instruction goes on at the one spot in ys, or fails when there is none. */
  ghost predicate Does(env: Env, i: Instr, pc: nat, x: Spot, st: seq<int>, ys: seq<Spot>)
    requires ValidSpot(env, x) && Local(i)
  {
    var e := Exec(env, i, RegsAt(pc, x, st));
    (ys == [] && e == Fail) || (|ys| == 1 && e == Go(RegsAt(pc + Size(i), ys[0], st)))
  }

  lemma InstrStands(env: Env, back: bool, i: Instr, f: Spot -> seq<Spot>, strict: bool)
    requires Local(i) && Sound(env, back, f, strict)
    requires forall pc: nat, x, st :: ValidSpot(env, x) ==> Does(env, i, pc, x, st, f(x))
    ensures Stands(env, back, [i], f, strict)
  {
    hide Converges, ByteLength, CodeAt, Exec, Decode, First, Sound;
    forall r, o ensures MeansAt(env, [i], f, r, o) {
      if CodeAt(env.code, r.pc, [i]) && ValidRegs(env, r) {
        OneAt(env.code, r.pc, i);
        var x := Here(r);
        assert Does(env, i, r.pc, x, r.stack, f(x)) && RegsAt(r.pc, x, r.stack) == r;
        LocalStep(env, r, i, o);
        UseSound(env, back, f, strict, x);
        if |f(x)| == 1 {
          assert f(x) == [f(x)[0]] && f(x)[0] in f(x);
          FirstOne(env, r.pc + Size(i), r.stack, f(x)[0], o);
        } else {
          assert First(env, r.pc + Size(i), r.stack, [], o) <==> o == NoMatch by { NoneLeft(env, r.pc + Size(i), r.stack, o); }
        }
      }
    }
    MakeMeans(env, [i], f);
  }

  lemma NoneLeft(env: Env, pc: nat, st: seq<int>, o: Outcome)
    ensures First(env, pc, st, [], o) <==> o == NoMatch
  {
  }

  /** Zero-width tests. */
  ghost function TestFn(env: Env, test: Instr): Spot -> seq<Spot>
    requires Tests(test)
  {
    (x: Spot) => if ValidSpot(env, x) && TestHolds(env, test, x.at) then [x] else []
  }

  lemma TestIsHolds(env: Env, test: Instr, c: nat)
    requires Tests(test) && c <= env.End()
    ensures Holds(env, test, c) <==> TestHolds(env, test, c)
  {
    var s, end := env.subject, env.End();
    var l, r := CharsLeft(env, c), CharsRight(env, c);
    if c > 0 {
      assert s.CharBefore(c, 0) in l;
    }
    if c < end {
      assert s.CharAt(c, end) in r;
    }
  }

  lemma TestStands(env: Env, back: bool, test: Instr)
    requires Tests(test)
    ensures Stands(env, back, [test], TestFn(env, test), false)
  {
    hide Holds, TestHolds;
    forall pc: nat, x, st | ValidSpot(env, x) ensures Does(env, test, pc, x, st, TestFn(env, test)(x)) {
      TestIsHolds(env, test, x.at);
    }
    InstrStands(env, back, test, TestFn(env, test), false);
  }

  /** Characters, forward. */
  ghost function CharFn(env: Env, i: Instr, back: bool): Spot -> seq<Spot>
    requires Consumes(i)
  {
    (x: Spot) => if ValidSpot(env, x) then CharacterResults(env, i, back, x) else []
  }

  lemma CharStands(env: Env, i: Instr)
    requires Consumes(i)
    ensures Stands(env, false, [i], CharFn(env, i, false), true)
  {
    hide Accepts, Does, Sound;
    CharSound(env, i);
    forall pc: nat, x, st | ValidSpot(env, x) ensures Does(env, i, pc, x, st, CharFn(env, i, false)(x)) {
      CharDoes(env, i, pc, x, st);
    }
    InstrStands(env, false, i, CharFn(env, i, false), true);
  }

  lemma CharSound(env: Env, i: Instr)
    requires Consumes(i)
    ensures Sound(env, false, CharFn(env, i, false), true)
  {
    hide Accepts, Rank, Ahead;
    forall x | ValidSpot(env, x) ensures AllAhead(env, false, x.at, CharFn(env, i, false)(x), true) {
      if x.at < env.End() {
        NextAhead(env, x.at);
      }
    }
  }

  lemma NextAhead(env: Env, c: nat)
    requires c < env.End()
    ensures Ahead(env, false, c, env.subject.Next(c, env.End()), true)
  {
    NextAlwaysBoundary(env.subject, c);
  }

  lemma CharDoes(env: Env, i: Instr, pc: nat, x: Spot, st: seq<int>)
    requires Consumes(i) && ValidSpot(env, x)
    ensures Does(env, i, pc, x, st, CharFn(env, i, false)(x))
  {
    hide Accepts;
  }

  /** Characters, going back: back over one, forward over it to test it, and back again. */
  lemma BackCharStands(env: Env, i: Instr)
    requires Consumes(i)
    ensures Stands(env, true, [Prev, i, Prev], CharFn(env, i, true), true)
  {
    hide Accepts, Converges, ByteLength, CodeAt, First, LeadsTo, Decode, Sound;
    var f := CharFn(env, i, true);
    BackCharSound(env, i);
    forall r, o ensures MeansAt(env, [Prev, i, Prev], f, r, o) {
      if CodeAt(env.code, r.pc, [Prev, i, Prev]) && ValidRegs(env, r) {
        ThreeAt(env.code, r.pc, Prev, i, Prev);
        BackCharRun(env, i, r, o);
      }
    }
    MakeMeans(env, [Prev, i, Prev], f);
  }

  lemma BackCharSound(env: Env, i: Instr)
    requires Consumes(i)
    ensures Sound(env, true, CharFn(env, i, true), true)
  {
    hide Accepts;
    forall x | ValidSpot(env, x) ensures AllAhead(env, true, x.at, CharFn(env, i, true)(x), true) {
      if x.at > 0 {
        BackAlwaysBoundary(env.subject, x.at);
      }
    }
  }

  lemma BackCharRun(env: Env, i: Instr, r: Regs, o: Outcome)
    requires Consumes(i) && ValidRegs(env, r) && Decode(env.code, r.pc) == Some(Prev)
    requires Decode(env.code, r.pc + 1) == Some(i) && Decode(env.code, r.pc + 1 + Size(i)) == Some(Prev)
    ensures LeadsTo(env, r.pc, r.stack, Here(r), r.pc + Size(i) + 2, r.stack, CharFn(env, i, true)(Here(r)), o)
  {
    hide Accepts, Converges, Decode;
    var s, end, pc := env.subject, env.End(), r.pc + Size(i) + 2;
    LocalStep(env, r, Prev, o);
    if r.cptr > 0 {
      var q := s.Back(r.cptr, 0);
      var r1 := r.(pc := r.pc + 1, cptr := q);
      LocalStep(env, r1, i, o);
      BackAlwaysBoundary(s, r.cptr);
      BackUndoesNext(s, q);
      var r2 := r1.(pc := r1.pc + Size(i), cptr := s.Next(q, end));
      LocalStep(env, r2, Prev, o);
      FirstOne(env, pc, r.stack, Here(r).(at := q), o);
      assert r2.(pc := r2.pc + 1, cptr := q) == RegsAt(pc, Here(r).(at := q), r.stack);
    }
  }

  // Captures.

  ghost function SaveFn(env: Env, k: nat): Spot -> seq<Spot> {
    (x: Spot) => [x.(cap := Noted(x.cap, k, x.at))]
  }

  lemma SaveStands(env: Env, back: bool, idx: nat, end: bool)
    requires idx < env.captureCount
    ensures Stands(env, back, [Save(idx, end)], SaveFn(env, 2 * idx + Bit(end)), false)
  {
    hide Does;
    var f := SaveFn(env, 2 * idx + Bit(end));
    forall pc: nat, x, st | ValidSpot(env, x) ensures Does(env, Save(idx, end), pc, x, st, f(x)) {
      SaveDoes(env, idx, end, pc, x, st);
    }
    assert Sound(env, back, f, false) by {
      hide Rank;
    }
    InstrStands(env, back, Save(idx, end), f, false);
  }

  lemma SaveDoes(env: Env, idx: nat, end: bool, pc: nat, x: Spot, st: seq<int>)
    requires idx < env.captureCount && ValidSpot(env, x)
    ensures Does(env, Save(idx, end), pc, x, st, SaveFn(env, 2 * idx + Bit(end))(x))
  {
  }

  ghost function ForgetFn(lo: nat, hi: nat): Spot -> seq<Spot> {
    (x: Spot) => [x.(cap := Forgotten(x.cap, lo, hi))]
  }

  /** The opcode that forgets the captures of an atom, if it has any. */
  function ResetCode(lo: nat, hi: nat): seq<Instr>
    requires lo <= hi
  {
    if hi != lo then [SaveReset(lo, hi - 1)] else []
  }

  lemma ResetDoes(env: Env, lo: nat, hi: nat, pc: nat, x: Spot, st: seq<int>)
    requires lo < hi <= env.captureCount && ValidSpot(env, x)
    ensures Does(env, SaveReset(lo, hi - 1), pc, x, st, ForgetFn(lo, hi)(x))
  {
    assert Forgotten(x.cap, lo, hi) == ResetCaptures(x.cap, lo, hi - 1);
  }

  lemma ResetStands(env: Env, back: bool, lo: nat, hi: nat)
    requires lo <= hi <= env.captureCount
    ensures Stands(env, back, ResetCode(lo, hi), ForgetFn(lo, hi), false)
  {
    hide Stands;
    if hi != lo {
      hide Does;
      var i, f := SaveReset(lo, hi - 1), ForgetFn(lo, hi);
      forall pc: nat, x, st | ValidSpot(env, x) ensures Does(env, i, pc, x, st, f(x)) {
        ResetDoes(env, lo, hi, pc, x, st);
      }
      assert Sound(env, back, f, false) by {
        hide Rank;
      }
      InstrStands(env, back, i, f, false);
    } else {
      EmptyStands(env, back);
      forall x | ValidSpot(env, x) ensures One()(x) == ForgetFn(lo, hi)(x) {
        assert Forgotten(x.cap, lo, hi) == x.cap;
      }
      Renamed(env, back, [], One(), ForgetFn(lo, hi), false);
    }
  }

  // Back references.

  ghost function ReferenceFn(env: Env, idx: nat, back: bool): Spot -> seq<Spot> {
    (x: Spot) => if ValidSpot(env, x) then ReferenceResults(env, idx, back, x) else []
  }

  lemma ReferenceDoes(env: Env, idx: nat, back: bool, pc: nat, x: Spot, st: seq<int>)
    requires ValidSpot(env, x)
    ensures Does(env, BackRef(idx, back), pc, x, st, ReferenceFn(env, idx, back)(x))
  {
    hide StandsAgain, RefForward, RefBackward;
    if idx < env.captureCount && x.cap[2 * idx].Some? && x.cap[2 * idx + 1].Some? {
      var start, stop := x.cap[2 * idx].value, x.cap[2 * idx + 1].value;
      var ys := ReferenceFn(env, idx, back)(x);
      BackReferenceMeans(env, RegsAt(pc, x, st), idx, back, if |ys| == 1 then ys[0].at else 0);
    }
  }

  lemma {:induction false} TextAhead(env: Env, start: nat, stop: nat, c: nat)
    requires stop <= env.End() && c <= env.End()
    ensures RefForward(env, start, stop, c).Some? ==> Ahead(env, false, c, RefForward(env, start, stop, c).value, false)
    decreases if start < stop then stop - start else 0
  {
    if start < stop && c < env.End() {
      NextAhead(env, c);
      TextAhead(env, env.subject.Next(start, stop), stop, env.subject.Next(c, env.End()));
    }
  }

  lemma ReferenceSound(env: Env, idx: nat, back: bool)
    ensures Sound(env, back, ReferenceFn(env, idx, back), false)
  {
    hide SameText, RefForward, RefBackward;
    forall x | ValidSpot(env, x) ensures AllAhead(env, back, x.at, ReferenceFn(env, idx, back)(x), false) {
      var ys := ReferenceFn(env, idx, back)(x);
      if idx < env.captureCount && x.cap[2 * idx].Some? && x.cap[2 * idx + 1].Some? && ys != [] {
        var start, stop := x.cap[2 * idx].value, x.cap[2 * idx + 1].value;
        ForwardText(env, start, stop, x.at, ys[0].at);
        TextAhead(env, start, stop, x.at);
      }
    }
  }

  lemma ReferenceStands(env: Env, idx: nat, back: bool)
    ensures Stands(env, back, [BackRef(idx, back)], ReferenceFn(env, idx, back), false)
  {
    hide Does, ReferenceFn;
    var i, f := BackRef(idx, back), ReferenceFn(env, idx, back);
    ReferenceSound(env, idx, back);
    forall pc: nat, x, st | ValidSpot(env, x) ensures Does(env, i, pc, x, st, f(x)) {
      ReferenceDoes(env, idx, back, pc, x, st);
    }
    InstrStands(env, back, i, f, false);
  }

  // The check that an atom moved.

  lemma {:induction false} FirstMoved(env: Env, pc: nat, st: seq<int>, c: nat, xs: seq<Spot>, o: Outcome)
    requires AllValid(env, xs) && Decode(env.code, pc) == Some(CheckAdvance)
    ensures First(env, pc, st + [c], xs, o) <==> First(env, pc + 1, st, Moved(c, xs), o)
    decreases |xs|
  {
    hide Converges, Decode, ValidSpot;
    if xs != [] {
      var x, ys := xs[0], Moved(c, xs[1..]);
      assert x in xs;
      FirstMoved(env, pc, st, c, xs[1..], o);
      CheckStep(env, pc, st, c, x, o);
      CheckStep(env, pc, st, c, x, NoMatch);
      if x.at != c {
        assert ([x] + ys)[1..] == ys;
      } else {
        assert [] + ys == ys;
      }
    }
  }

  lemma CheckStep(env: Env, pc: nat, st: seq<int>, c: nat, x: Spot, o: Outcome)
    requires ValidSpot(env, x) && Decode(env.code, pc) == Some(CheckAdvance)
    ensures Converges(env, RegsAt(pc, x, st + [c]), o) <==> if x.at == c then o == NoMatch else Converges(env, RegsAt(pc + 1, x, st), o)
  {
    hide Converges, Decode;
    assert (st + [c])[..|st|] == st;
    LocalStep(env, RegsAt(pc, x, st + [c]), CheckAdvance, o);
  }

  lemma {:induction false} MovedAhead(env: Env, back: bool, c: nat, ys: seq<Spot>)
    requires AllAhead(env, back, c, ys, false)
    ensures AllAhead(env, back, c, Moved(c, ys), true) && AllValid(env, Moved(c, ys))
    decreases |ys|
  {
    hide ValidSpot, Rank;
    if ys != [] {
      assert ys[0] in ys;
      MovedAhead(env, back, c, ys[1..]);
    }
  }

  /** Nothing that is strictly ahead is taken away. */
  lemma {:induction false} AllMoved(env: Env, back: bool, c: nat, ys: seq<Spot>)
    requires AllAhead(env, back, c, ys, true)
    ensures Moved(c, ys) == ys
    decreases |ys|
  {
    hide ValidSpot, Rank;
    if ys != [] {
      assert ys[0] in ys && Ahead(env, back, c, ys[0].at, true);
      AllMoved(env, back, c, ys[1..]);
      assert [ys[0]] + ys[1..] == ys;
    }
  }

  lemma CheckedRun(env: Env, back: bool, a: seq<Instr>, f: Spot -> seq<Spot>, r: Regs, o: Outcome)
    requires Stands(env, back, a, f, false) && CodeAt(env.code, r.pc, Checked(a, true)) && ValidRegs(env, r)
    ensures LeadsTo(env, r.pc, r.stack, Here(r), r.pc + ByteLength(Checked(a, true)), r.stack, Moved(r.cptr, f(Here(r))), o)
  {
    hide Converges, Decode, CodeAt, ByteLength, First, Sound, Means, Checked;
    CheckedLayout(env.code, r.pc, a, true);
    var x, st := Here(r), r.stack + [r.cptr];
    LocalStep(env, r, PushCharPos, o);
    UseMeans(env, a, f, r.pc + 1, x, st, o);
    UseSound(env, back, f, false, x);
    FirstMoved(env, r.pc + 1 + ByteLength(a), r.stack, r.cptr, f(x), o);
  }

  /** Greedy repetitions are checked unless the atom is sure to move. */
  lemma CheckedStands(env: Env, back: bool, a: seq<Instr>, f: Spot -> seq<Spot>, greedy: bool, check: bool, strict: bool)
    requires Stands(env, back, a, f, strict) && (check ==> greedy) && (greedy && !check ==> strict)
    ensures Stands(env, back, Checked(a, check), Accepted(f, greedy), strict || check)
  {
    hide Converges, CodeAt, ByteLength, First, LeadsTo, ValidSpot, Ahead;
    var g := Accepted(f, greedy);
    Weaker(env, back, f, strict, false);
    if check {
      forall r, o ensures MeansAt(env, Checked(a, true), g, r, o) {
        if CodeAt(env.code, r.pc, Checked(a, true)) && ValidRegs(env, r) {
          CheckedRun(env, back, a, f, r, o);
        }
      }
      MakeMeans(env, Checked(a, true), g);
      forall x | ValidSpot(env, x) ensures AllAhead(env, back, x.at, g(x), true) {
        UseSound(env, back, f, false, x);
        MovedAhead(env, back, x.at, f(x));
      }
    } else if greedy {
      forall x | ValidSpot(env, x) ensures f(x) == g(x) {
        UseSound(env, back, f, true, x);
        AllMoved(env, back, x.at, f(x));
      }
      Renamed(env, back, a, f, g, strict);
    }
  }
}
