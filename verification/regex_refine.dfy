/** The state-stack machine computes exactly the recursive search. */
module RegexRefine {
  import opened RegexInstr
  import opened RegexVm
  import opened RegexSearch

  lemma {:induction false} StepsAdd(env: Env, j: nat, k: nat, m: Machine)
    requires Valid(env, m)
    ensures Steps(env, j + k, m) == Steps(env, k, Steps(env, j, m))
  {
    hide Step, Valid;
    if j > 0 {
      StepsAdd(env, j - 1, k, Step(env, m));
      assert j + k - 1 == j - 1 + k;
    }
  }

  predicate Stopped(m: Machine) {
    m.mode.Finished? || m.mode.Aborted?
  }

  lemma {:induction false} StoppedStays(env: Env, k: nat, m: Machine)
    requires Valid(env, m) && Stopped(m)
    ensures Steps(env, k, m) == m
  {
    if k > 0 {
      StoppedStays(env, k - 1, m);
    }
  }

  /** What it means that the machine has done the work of a search: same answer, and the state stack as on entry. */
  ghost predicate Answers(m: Machine, o: Outcome, s: seq<Entry>) {
    match o
    case OutOfFuel => false
    case Crashed => m.mode.Aborted?
    case NoMatch => m.mode.Unwinding? && !m.mode.matched && m.states == s
    case Matched(cap) => m.mode == Unwinding(true, cap) && m.states == s
  }

  /** The machine reaches an answer in k steps. */
  ghost predicate Reaches(env: Env, m: Machine, k: nat, o: Outcome, s: seq<Entry>) {
    Valid(env, m) && Answers(Steps(env, k, m), o, s)
  }

  /** A step before an answer is an answer one step later. */
  lemma AfterStep(env: Env, m: Machine, k: nat, o: Outcome, s: seq<Entry>)
    requires Valid(env, m) && Reaches(env, Step(env, m), k, o, s)
    ensures Reaches(env, m, k + 1, o, s)
  {
    hide Step, Valid, Answers;
  }

  lemma AfterSteps(env: Env, m: Machine, j: nat, k: nat, o: Outcome, s: seq<Entry>)
    requires Valid(env, m) && Reaches(env, Steps(env, j, m), k, o, s)
    ensures Reaches(env, m, j + k, o, s)
  {
    hide Step, Valid, Answers, Steps;
    StepsAdd(env, j, k, m);
  }

  lemma AbortStays(env: Env, m: Machine, k: nat, s: seq<Entry>, s': seq<Entry>)
    requires Reaches(env, m, k, Crashed, s)
    ensures Reaches(env, m, k, Crashed, s')
  {
  }

  /** Every search that comes to an answer is carried out by the machine, over any state stack. */
  lemma {:induction false} SearchRuns(env: Env, fuel: nat, r: Regs, s: seq<Entry>) returns (k: nat)
    requires Valid(env, Machine(Running(r), s)) && !Search(env, fuel, r).OutOfFuel?
    ensures Reaches(env, Machine(Running(r), s), k, Search(env, fuel, r), s)
    decreases fuel, 2
  {
    hide Decode, Exec, Repeat, ValidRegs, Steps;
    var m := Machine(Running(r), s);
    var i := Decode(env.code, r.pc);
    if i.None? || i.value.Match? {
      k := 1;
      OneStep(env, m);
    } else if i.value.Split? {
      k := SplitRuns(env, fuel, r, s, i.value);
    } else if i.value.Lookahead? {
      k := LookRuns(env, fuel, r, s, i.value);
    } else if i.value.SimpleGreedy? {
      k := StartGreedyRuns(env, fuel, r, s, i.value);
    } else {
      k := LocalRuns(env, fuel, r, s, i.value);
    }
  }

  lemma OneStep(env: Env, m: Machine)
    requires Valid(env, m)
    ensures Steps(env, 1, m) == Step(env, m)
  {
    hide Step, Valid;
    assert Steps(env, 1, m) == Steps(env, 0, Step(env, m));
  }

  lemma LocalRuns(env: Env, fuel: nat, r: Regs, s: seq<Entry>, i: Instr) returns (k: nat)
    requires Valid(env, Machine(Running(r), s)) && !Search(env, fuel, r).OutOfFuel?
    requires Decode(env.code, r.pc) == Some(i) && Local(i)
    ensures Reaches(env, Machine(Running(r), s), k, Search(env, fuel, r), s)
    decreases fuel, 1
  {
    hide Decode, Exec, Repeat, ValidRegs, Steps;
    var m := Machine(Running(r), s);
    var e := Exec(env, i, r);
    if e.Go? {
      k := SearchRuns(env, fuel - 1, e.regs, s);
      AfterStep(env, m, k, Search(env, fuel, r), s);
      k := k + 1;
    } else {
      k := 1;
      OneStep(env, m);
    }
  }

  /** Appending an entry and taking the last one off again. */
  lemma PushPop(s: seq<Entry>, e: Entry)
    ensures (s + [e])[|s + [e]| - 1] == e && (s + [e])[..|s + [e]| - 1] == s
  {
  }

  lemma SplitRuns(env: Env, fuel: nat, r: Regs, s: seq<Entry>, i: Instr) returns (k: nat)
    requires Valid(env, Machine(Running(r), s)) && !Search(env, fuel, r).OutOfFuel?
    requires Decode(env.code, r.pc) == Some(i) && i.Split?
    ensures Reaches(env, Machine(Running(r), s), k, Search(env, fuel, r), s)
    decreases fuel, 1
  {
    hide Decode, Exec, Repeat, Steps;
    var m, o, next := Machine(Running(r), s), Search(env, fuel, r), r.pc + Size(i);
    if next + i.off < 0 {
      k := 1;
      OneStep(env, m);
      return;
    }
    var first := r.(pc := if i.nextFirst then next else next + i.off);
    var second := r.(pc := if i.nextFirst then next + i.off else next);
    var e := Entry(SplitState, second, 0);
    assert Step(env, m) == Machine(Running(first), s + [e]);
    var o1 := Search(env, fuel - 1, first);
    k := SearchRuns(env, fuel - 1, first, s + [e]);
    if o1.Crashed? {
      AbortStays(env, Machine(Running(first), s + [e]), k, s + [e], s);
    } else {
      PushPop(s, e);
      var k2 := SearchPop(env, fuel - 1, Machine(Running(first), s + [e]), k, o1, s, e, second, o);
      k := k + k2;
    }
    AfterStep(env, m, k, o, s);
    k := k + 1;
  }

  /** After the first alternative has answered over a split entry: drop the entry, or take the second alternative. */
  lemma SearchPop(env: Env, fuel: nat, m: Machine, k: nat, o1: Outcome, s: seq<Entry>, e: Entry, second: Regs, o: Outcome)
    returns (k2: nat)
    requires Reaches(env, m, k, o1, s + [e]) && (o1.NoMatch? || o1.Matched?)
    requires e == Entry(SplitState, second, 0) && ValidRegs(env, second) && Valid(env, Machine(Running(second), s))
    requires o == (if o1.NoMatch? then Search(env, fuel, second) else o1) && !o.OutOfFuel?
    ensures Reaches(env, m, k + k2, o, s)
    decreases fuel, 3
  {
    hide Decode, Exec, Repeat, Steps;
    var m1 := Steps(env, k, m);
    PushPop(s, e);
    if o1.NoMatch? {
      assert Step(env, m1) == Machine(Running(second), s);
      k2 := SearchRuns(env, fuel, second, s);
      AfterStep(env, m1, k2, o, s);
      k2 := k2 + 1;
    } else {
      k2 := 1;
      OneStep(env, m1);
    }
    AfterSteps(env, m, k, k2, o, s);
  }

  lemma LookRuns(env: Env, fuel: nat, r: Regs, s: seq<Entry>, i: Instr) returns (k: nat)
    requires Valid(env, Machine(Running(r), s)) && !Search(env, fuel, r).OutOfFuel?
    requires Decode(env.code, r.pc) == Some(i) && i.Lookahead?
    ensures Reaches(env, Machine(Running(r), s), k, Search(env, fuel, r), s)
    decreases fuel, 1
  {
    hide Decode, Exec, Repeat, Steps;
    var m, o, next := Machine(Running(r), s), Search(env, fuel, r), r.pc + Size(i);
    if next + i.off < 0 {
      k := 1;
      OneStep(env, m);
      return;
    }
    var inside, after := r.(pc := next), r.(pc := next + i.off);
    var e := Entry(if i.negated then NegLookState else LookState, after, 0);
    assert Step(env, m) == Machine(Running(inside), s + [e]);
    var o1 := Search(env, fuel - 1, inside);
    k := SearchRuns(env, fuel - 1, inside, s + [e]);
    if o1.Crashed? {
      AbortStays(env, Machine(Running(inside), s + [e]), k, s + [e], s);
    } else {
      var k2 := LookPop(env, fuel - 1, Machine(Running(inside), s + [e]), k, o1, s, e, i.negated, after, o);
      k := k + k2;
    }
    AfterStep(env, m, k, o, s);
    k := k + 1;
  }

  /** After a lookahead's own match has answered: go on behind it, or fail; nothing inside it can be resumed. */
  lemma LookPop(env: Env, fuel: nat, m: Machine, k: nat, o1: Outcome, s: seq<Entry>, e: Entry, negated: bool, after: Regs, o: Outcome)
    returns (k2: nat)
    requires Reaches(env, m, k, o1, s + [e]) && (o1.NoMatch? || o1.Matched?)
    requires e == Entry(if negated then NegLookState else LookState, after, 0) && Valid(env, Machine(Running(after), s))
    requires o1.Matched? ==> ValidCaptures(env, o1.capture)
    requires o == (if negated then if o1.NoMatch? then Search(env, fuel, after) else NoMatch
                   else if o1.Matched? then Search(env, fuel, after.(capture := o1.capture)) else NoMatch)
    requires !o.OutOfFuel?
    ensures Reaches(env, m, k + k2, o, s)
    decreases fuel, 3
  {
    hide Decode, Exec, Repeat, Steps;
    var m1 := Steps(env, k, m);
    PushPop(s, e);
    if negated == o1.NoMatch? {
      var on := if negated then after else after.(capture := o1.capture);
      assert Step(env, m1) == Machine(Running(on), s);
      k2 := SearchRuns(env, fuel, on, s);
      AfterStep(env, m1, k2, o, s);
      k2 := k2 + 1;
    } else {
      k2 := 1;
      OneStep(env, m1);
    }
    AfterSteps(env, m, k, k2, o, s);
  }

  lemma StartGreedyRuns(env: Env, fuel: nat, r: Regs, s: seq<Entry>, i: Instr) returns (k: nat)
    requires Valid(env, Machine(Running(r), s)) && !Search(env, fuel, r).OutOfFuel?
    requires Decode(env.code, r.pc) == Some(i) && i.SimpleGreedy?
    ensures Reaches(env, Machine(Running(r), s), k, Search(env, fuel, r), s)
    decreases fuel, 1
  {
    hide Decode, Exec, Repeat, Steps;
    var m, o, next := Machine(Running(r), s), Search(env, fuel, r), r.pc + Size(i);
    var reps := Repeat(env, next, r.cptr, i.max, 0);
    if reps.RepeatAbort? || next + i.off < 0 || reps.count < i.min {
      k := 1;
      OneStep(env, m);
    } else {
      k := GreedyRuns(env, fuel - 1, r.(cptr := reps.cptr), reps.count - i.min, s);
      AfterStep(env, m, k, o, s);
      k := k + 1;
    }
  }

  /** The retries of a quantifier, each over the entry that counts the retries left. */
  lemma {:induction false} GreedyRuns(env: Env, fuel: nat, r: Regs, n: nat, s: seq<Entry>) returns (k: nat)
    requires ValidRegs(env, r) && GreedyAt(env, r.pc) && Valid(env, Machine(Running(r), s))
    requires !SearchGreedy(env, fuel, r, n).OutOfFuel?
    ensures Reaches(env, Machine(Running(r.(pc := GreedyTarget(env, r.pc))), s + GreedyEntry(env, r, r.cptr, n)), k,
                    SearchGreedy(env, fuel, r, n), s)
    decreases fuel, n + 3
  {
    hide Decode, Exec, Repeat, Steps, GreedyAt, GreedyTarget, GreedyBack;
    var on := r.(pc := GreedyTarget(env, r.pc));
    var o1, o := Search(env, fuel, on), SearchGreedy(env, fuel, r, n);
    var g := GreedyEntry(env, r, r.cptr, n);
    var m := Machine(Running(on), s + g);
    k := SearchRuns(env, fuel, on, s + g);
    if o1.Crashed? {
      AbortStays(env, m, k, s + g, s);
    } else if n == 0 {
      assert s + g == s;
    } else {
      var e := Entry(GreedyState, r, n);
      assert g == [e];
      PushPop(s, e);
      var m1 := Steps(env, k, m);
      var k2 := 1;
      if o1.NoMatch? {
        var r' := r.(cptr := GreedyBack(env, r.pc, r.cptr));
        k2 := GreedyRuns(env, fuel, r', n - 1, s);
        assert GreedyEntry(env, r', r'.cptr, n - 1) == GreedyEntry(env, r, r'.cptr, n - 1);
        AfterStep(env, m1, k2, o, s);
        k2 := k2 + 1;
      } else {
        OneStep(env, m1);
      }
      AfterSteps(env, m, k, k2, o, s);
      k := k + k2;
    }
  }

  /** More fuel does not change an answer. */
  lemma {:induction false} FuelEnough(env: Env, f: nat, g: nat, r: Regs)
    requires ValidRegs(env, r) && f <= g && !Search(env, f, r).OutOfFuel?
    ensures Search(env, g, r) == Search(env, f, r)
    decreases f, 1
  {
    hide Decode, Exec, Repeat;
    var i := Decode(env.code, r.pc);
    if i.None? || i.value.Match? {
    } else if i.value.Split? {
      FuelEnoughSplit(env, f, g, r, i.value);
    } else if i.value.Lookahead? {
      FuelEnoughLook(env, f, g, r, i.value);
    } else if i.value.SimpleGreedy? {
      var next, q := r.pc + 17, i.value;
      var reps := Repeat(env, next, r.cptr, q.max, 0);
      if reps.Repeats? && next + q.off >= 0 && reps.count >= q.min {
        FuelEnoughGreedy(env, f - 1, g - 1, r.(cptr := reps.cptr), reps.count - q.min);
      }
    } else {
      var e := Exec(env, i.value, r);
      if e.Go? {
        FuelEnough(env, f - 1, g - 1, e.regs);
      }
    }
  }

  lemma FuelEnoughSplit(env: Env, f: nat, g: nat, r: Regs, i: Instr)
    requires ValidRegs(env, r) && f <= g && !Search(env, f, r).OutOfFuel? && Decode(env.code, r.pc) == Some(i) && i.Split?
    ensures Search(env, g, r) == Search(env, f, r)
    decreases f, 0
  {
    hide Decode, Exec, Repeat;
    var next := r.pc + Size(i);
    if next + i.off >= 0 {
      var first := r.(pc := if i.nextFirst then next else next + i.off);
      FuelEnough(env, f - 1, g - 1, first);
      if Search(env, f - 1, first).NoMatch? {
        FuelEnough(env, f - 1, g - 1, r.(pc := if i.nextFirst then next + i.off else next));
      }
    }
  }

  lemma FuelEnoughLook(env: Env, f: nat, g: nat, r: Regs, i: Instr)
    requires ValidRegs(env, r) && f <= g && !Search(env, f, r).OutOfFuel? && Decode(env.code, r.pc) == Some(i) && i.Lookahead?
    ensures Search(env, g, r) == Search(env, f, r)
    decreases f, 0
  {
    hide Decode, Exec, Repeat;
    var next := r.pc + Size(i);
    if next + i.off >= 0 {
      FuelEnough(env, f - 1, g - 1, r.(pc := next));
      var o := Search(env, f - 1, r.(pc := next));
      if i.negated && o.NoMatch? {
        FuelEnough(env, f - 1, g - 1, r.(pc := next + i.off));
      } else if !i.negated && o.Matched? {
        FuelEnough(env, f - 1, g - 1, r.(pc := next + i.off, capture := o.capture));
      }
    }
  }

  lemma {:induction false} FuelEnoughGreedy(env: Env, f: nat, g: nat, r: Regs, n: nat)
    requires ValidRegs(env, r) && GreedyAt(env, r.pc) && f <= g && !SearchGreedy(env, f, r, n).OutOfFuel?
    ensures SearchGreedy(env, g, r, n) == SearchGreedy(env, f, r, n)
    decreases f, n + 2
  {
    hide Decode, Exec, Repeat, GreedyAt, GreedyTarget, GreedyBack;
    FuelEnough(env, f, g, r.(pc := GreedyTarget(env, r.pc)));
    if Search(env, f, r.(pc := GreedyTarget(env, r.pc))).NoMatch? && n > 0 {
      FuelEnoughGreedy(env, f, g, r.(cptr := GreedyBack(env, r.pc, r.cptr)), n - 1);
    }
  }

  /** A state that has not stopped comes before one that has. */
  lemma NotYet(env: Env, m: Machine, a: nat, b: nat)
    requires Valid(env, m) && !Stopped(Steps(env, a, m)) && Stopped(Steps(env, b, m))
    ensures a < b && Steps(env, b, m) == Steps(env, b - a, Steps(env, a, m))
  {
    hide Step, Valid;
    if b <= a {
      StepsAdd(env, b, a - b, m);
      StoppedStays(env, a - b, Steps(env, b, m));
      assert false;
    }
    StepsAdd(env, a, b - a, m);
  }

  /** When a run over m stops, and m answers on the way with a state that goes on as m2, then the run from m2 stops sooner. */
  lemma RestOfRun(env: Env, m: Machine, k: nat, k1: nat, m2: Machine) returns (k2: nat)
    requires Valid(env, m) && Stopped(Steps(env, k, m)) && !Stopped(Steps(env, k1, m))
    requires Step(env, Steps(env, k1, m)) == m2 && !Stopped(m2)
    ensures k2 < k && Valid(env, m2) && Stopped(Steps(env, k2, m2))
  {
    hide Step, Valid, Stopped;
    NotYet(env, m, k1, k);
    var m1 := Steps(env, k1, m);
    OneStep(env, m1);
    StepsAdd(env, k1, 1, m);
    NotYet(env, m, k1 + 1, k);
    k2 := k - (k1 + 1);
  }

  /** A run that stops gives a search that comes to an answer. */
  lemma {:induction false} RunsSearch(env: Env, k: nat, r: Regs, s: seq<Entry>)
    requires Valid(env, Machine(Running(r), s)) && Stopped(Steps(env, k, Machine(Running(r), s)))
    ensures !Search(env, k, r).OutOfFuel?
    decreases k, 2
  {
    hide Decode, Exec, Repeat, Step, Valid;
    assert k > 0;
    var m := Machine(Running(r), s);
    assert Steps(env, k, m) == Steps(env, k - 1, Step(env, m));
    var i := Decode(env.code, r.pc);
    if i.Some? && !i.value.Match? {
      if i.value.Split? {
        RunsSplit(env, k, r, s, i.value);
      } else if i.value.Lookahead? {
        RunsLook(env, k, r, s, i.value);
      } else {
        RunsOther(env, k, r, s, i.value);
      }
    }
  }

  lemma RunsSplit(env: Env, k: nat, r: Regs, s: seq<Entry>, i: Instr)
    requires k > 0 && Valid(env, Machine(Running(r), s)) && Stopped(Steps(env, k - 1, Step(env, Machine(Running(r), s))))
    requires Decode(env.code, r.pc) == Some(i) && i.Split?
    ensures !Search(env, k, r).OutOfFuel?
    decreases k, 1
  {
    hide Decode, Exec, Repeat, Steps;
    var next := r.pc + Size(i);
    if next + i.off >= 0 {
      var first := r.(pc := if i.nextFirst then next else next + i.off);
      var e := Entry(SplitState, r.(pc := if i.nextFirst then next + i.off else next), 0);
      assert Step(env, Machine(Running(r), s)) == Machine(Running(first), s + [e]);
      RunsAlternative(env, k - 1, first, s, e);
    }
  }

  lemma RunsLook(env: Env, k: nat, r: Regs, s: seq<Entry>, i: Instr)
    requires k > 0 && Valid(env, Machine(Running(r), s)) && Stopped(Steps(env, k - 1, Step(env, Machine(Running(r), s))))
    requires Decode(env.code, r.pc) == Some(i) && i.Lookahead?
    ensures !Search(env, k, r).OutOfFuel?
    decreases k, 1
  {
    hide Decode, Exec, Repeat, Steps;
    var next := r.pc + Size(i);
    if next + i.off >= 0 {
      var e := Entry(if i.negated then NegLookState else LookState, r.(pc := next + i.off), 0);
      assert Step(env, Machine(Running(r), s)) == Machine(Running(r.(pc := next)), s + [e]);
      RunsAlternative(env, k - 1, r.(pc := next), s, e);
    }
  }

  lemma RunsOther(env: Env, k: nat, r: Regs, s: seq<Entry>, i: Instr)
    requires k > 0 && Valid(env, Machine(Running(r), s)) && Stopped(Steps(env, k - 1, Step(env, Machine(Running(r), s))))
    requires Decode(env.code, r.pc) == Some(i) && (i.SimpleGreedy? || Local(i))
    ensures !Search(env, k, r).OutOfFuel?
    decreases k, 1
  {
    hide Decode, Exec, Repeat, Steps;
    if i.SimpleGreedy? {
      var next := r.pc + 17;
      var reps := Repeat(env, next, r.cptr, i.max, 0);
      if reps.Repeats? && next + i.off >= 0 && reps.count >= i.min {
        RunsGreedy(env, k - 1, r.(cptr := reps.cptr), reps.count - i.min, s);
      }
    } else {
      var e := Exec(env, i, r);
      if e.Go? {
        assert Step(env, Machine(Running(r), s)) == Machine(Running(e.regs), s);
        RunsSearch(env, k - 1, e.regs, s);
      }
    }
  }

  /** The part of a run over a split or lookahead entry, and what follows it. */
  lemma {:induction false} RunsAlternative(env: Env, k: nat, r: Regs, s: seq<Entry>, e: Entry)
    requires Valid(env, Machine(Running(r), s + [e])) && Stopped(Steps(env, k, Machine(Running(r), s + [e])))
    requires e.kind != GreedyState && ValidEntry(env, e)
    ensures !Search(env, k, r).OutOfFuel?
    ensures var o := Search(env, k, r);
            && ((e.kind == SplitState || e.kind == NegLookState) && o.NoMatch? ==> !Search(env, k, e.regs).OutOfFuel?)
            && (e.kind == LookState && o.Matched? ==> !Search(env, k, e.regs.(capture := o.capture)).OutOfFuel?)
    decreases k, 3
  {
    hide Decode, Exec, Repeat, Steps, ValidRegs;
    var m := Machine(Running(r), s + [e]);
    RunsSearch(env, k, r, s + [e]);
    var o := Search(env, k, r);
    assert e in s + [e];
    assert forall x :: x in s ==> x in s + [e];
    if o.NoMatch? || o.Matched? {
      var k1 := SearchRuns(env, k, r, s + [e]);
      PushPop(s, e);
      if (e.kind == SplitState || e.kind == NegLookState) && o.NoMatch? {
        var k2 := RestOfRun(env, m, k, k1, Machine(Running(e.regs), s));
        RunsSearch(env, k2, e.regs, s);
        FuelEnough(env, k2, k, e.regs);
      } else if e.kind == LookState && o.Matched? {
        var k2 := RestOfRun(env, m, k, k1, Machine(Running(e.regs.(capture := o.capture)), s));
        RunsSearch(env, k2, e.regs.(capture := o.capture), s);
        FuelEnough(env, k2, k, e.regs.(capture := o.capture));
      }
    }
  }

  lemma {:induction false} RunsGreedy(env: Env, k: nat, r: Regs, n: nat, s: seq<Entry>)
    requires ValidRegs(env, r) && GreedyAt(env, r.pc) && Valid(env, Machine(Running(r), s))
    requires Stopped(Steps(env, k, Machine(Running(r.(pc := GreedyTarget(env, r.pc))), s + GreedyEntry(env, r, r.cptr, n))))
    ensures !SearchGreedy(env, k, r, n).OutOfFuel?
    decreases k, 3
  {
    hide Decode, Exec, Repeat, Steps, GreedyAt, GreedyTarget, GreedyBack;
    var on, g := r.(pc := GreedyTarget(env, r.pc)), GreedyEntry(env, r, r.cptr, n);
    var m := Machine(Running(on), s + g);
    RunsSearch(env, k, on, s + g);
    var o := Search(env, k, on);
    if n > 0 && o.NoMatch? {
      var e := Entry(GreedyState, r, n);
      assert g == [e];
      PushPop(s, e);
      var k1 := SearchRuns(env, k, on, s + g);
      var r' := r.(cptr := GreedyBack(env, r.pc, r.cptr));
      assert GreedyEntry(env, r', r'.cptr, n - 1) == GreedyEntry(env, r, r'.cptr, n - 1);
      var m2 := Machine(Running(on.(cptr := r'.cptr)), s + GreedyEntry(env, r', r'.cptr, n - 1));
      var k2 := RestOfRun(env, m, k, k1, m2);
      RunsGreedy(env, k2, r', n - 1, s);
      FuelEnoughGreedy(env, k2, k, r', n - 1);
    }
  }

  /** Where a search from r ends up, whatever the fuel. */
  ghost predicate Converges(env: Env, r: Regs, o: Outcome)
    requires ValidRegs(env, r)
  {
    !o.OutOfFuel? && exists fuel :: Search(env, fuel, r) == o
  }

  /** Where the machine started at r with an empty state stack ends up. */
  ghost predicate Halts(env: Env, r: Regs, o: Outcome)
    requires ValidRegs(env, r)
  {
    exists k :: HaltsIn(env, r, o, k)
  }

  ghost predicate HaltsIn(env: Env, r: Regs, o: Outcome, k: nat)
    requires ValidRegs(env, r)
  {
    var m := Steps(env, k, Machine(Running(r), []));
    match o
    case OutOfFuel => false
    case Crashed => m.mode.Aborted?
    case NoMatch => m.mode.Finished? && !m.mode.matched
    case Matched(cap) => m.mode == Finished(true, cap)
  }

  /** lre_exec_backtrack refines the recursive search: same answer and same captures, and it halts exactly when the search does. */
  lemma MachineIsSearch(env: Env, r: Regs, o: Outcome)
    requires ValidRegs(env, r)
    ensures Halts(env, r, o) <==> Converges(env, r, o)
  {
    if Converges(env, r, o) {
      var fuel :| Search(env, fuel, r) == o;
      SearchHalts(env, fuel, r);
    }
    if Halts(env, r, o) {
      var k :| HaltsIn(env, r, o, k);
      HaltSearches(env, k, r, o);
    }
  }

  lemma SearchHalts(env: Env, fuel: nat, r: Regs)
    requires ValidRegs(env, r) && !Search(env, fuel, r).OutOfFuel?
    ensures Halts(env, r, Search(env, fuel, r))
  {
    hide Decode, Exec, Repeat, Search;
    var m, o := Machine(Running(r), []), Search(env, fuel, r);
    var k := SearchRuns(env, fuel, r, []);
    if o.Crashed? {
      assert HaltsIn(env, r, o, k);
    } else {
      StepsAdd(env, k, 1, m);
      OneStep(env, Steps(env, k, m));
      assert HaltsIn(env, r, o, k + 1);
    }
  }

  lemma HaltSearches(env: Env, k: nat, r: Regs, o: Outcome)
    requires ValidRegs(env, r) && HaltsIn(env, r, o, k)
    ensures Converges(env, r, o)
  {
    hide Decode, Exec, Repeat, Search, Step;
    var m := Machine(Running(r), []);
    RunsSearch(env, k, r, []);
    var o' := Search(env, k, r);
    SearchHalts(env, k, r);
    var k' :| HaltsIn(env, r, o', k');
    SameHalt(env, m, k, k');
    assert o == o';
  }

  lemma SameHalt(env: Env, m: Machine, a: nat, b: nat)
    requires Valid(env, m) && Stopped(Steps(env, a, m)) && Stopped(Steps(env, b, m))
    ensures Steps(env, a, m) == Steps(env, b, m)
  {
    hide Step, Valid;
    if a <= b {
      StepsAdd(env, a, b - a, m);
      StoppedStays(env, b - a, Steps(env, a, m));
    } else {
      StepsAdd(env, b, a - b, m);
      StoppedStays(env, a - b, Steps(env, b, m));
    }
  }
}
