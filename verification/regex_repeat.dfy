/** What quantifiers, alternatives and lookarounds mean. */
module RegexRepeat {
  import opened RegexInstr
  import opened RegexVm
  import opened RegexSearch
  import opened RegexRefine
  import opened RegexEmit
  import opened RegexGreedy
  import opened RegexLayout
  import opened RegexResults
  import opened RegexMeaning
  import opened RegexPieces

  /** A split tries the spots of its first branch, then those of its second. */
  lemma SplitLeads(env: Env, pc: nat, first: nat, second: nat, x: Spot, st: seq<int>, e: nat, st': seq<int>, xs: seq<Spot>, ys: seq<Spot>, o: Outcome)
    requires SplitsTo(env.code, pc, first, second) && AllValid(env, xs)
    requires LeadsTo(env, first, st, x, e, st', xs, o) && LeadsTo(env, first, st, x, e, st', xs, NoMatch) && LeadsTo(env, second, st, x, e, st', ys, o)
    ensures LeadsTo(env, pc, st, x, e, st', xs + ys, o)
  {
    hide Converges, Decode, First, AllValid;
    var i, r := Decode(env.code, pc).value, RegsAt(pc, x, st);
    assert r.(pc := first) == RegsAt(first, x, st) && r.(pc := second) == RegsAt(second, x, st);
    SplitStep(env, r, i.off, i.nextFirst, o);
    FirstAppend(env, e, st', xs, ys, o);
  }

  lemma OneLeads(env: Env, pc: nat, st: seq<int>, x: Spot, o: Outcome)
    requires ValidSpot(env, x)
    ensures LeadsTo(env, pc, st, x, pc, st, [x], o)
  {
    hide Converges, First;
    FirstOne(env, pc, st, x, o);
  }

  /** One step that changes only pc and stack. */
  lemma StepLeads(env: Env, pc: nat, st: seq<int>, i: Instr, pc1: nat, st1: seq<int>, x: Spot, e: nat, st': seq<int>, ys: seq<Spot>, o: Outcome)
    requires ValidSpot(env, x) && Decode(env.code, pc) == Some(i) && Local(i) && Exec(env, i, RegsAt(pc, x, st)) == Go(RegsAt(pc1, x, st1))
    requires LeadsTo(env, pc1, st1, x, e, st', ys, o)
    ensures LeadsTo(env, pc, st, x, e, st', ys, o)
  {
    hide Converges, First, Decode, Exec, ValidSpot;
    LocalStep(env, RegsAt(pc, x, st), i, o);
  }

  lemma GoLeads(env: Env, pc: nat, to: nat, st: seq<int>, x: Spot, e: nat, st': seq<int>, ys: seq<Spot>, o: Outcome)
    requires GoesTo(env.code, pc, to) && LeadsTo(env, to, st, x, e, st', ys, o)
    ensures LeadsTo(env, pc, st, x, e, st', ys, o)
  {
    hide Converges, First, Decode, LeadsTo;
    if pc != to {
      assert ValidSpot(env, x) by { LeadsValid(env, to, st, x, e, st', ys, o); }
      StepLeads(env, pc, st, Decode(env.code, pc).value, to, st, x, e, st', ys, o);
    }
  }

  lemma LeadsValid(env: Env, pc: nat, st: seq<int>, x: Spot, e: nat, st': seq<int>, ys: seq<Spot>, o: Outcome)
    requires LeadsTo(env, pc, st, x, e, st', ys, o)
    ensures ValidSpot(env, x)
  {
  }

  /** Code, and then from each of its spots what follows. */
  lemma BodyLeads(env: Env, back: bool, a: seq<Instr>, f: Spot -> seq<Spot>, strict: bool, pc: nat, st: seq<int>, x: Spot,
                  e: nat, st': seq<int>, h: Spot -> seq<Spot>, o: Outcome)
    requires Stands(env, back, a, f, strict) && CodeAt(env.code, pc, a) && ValidSpot(env, x)
    requires forall y :: y in f(x) ==> AllValid(env, h(y)) && LeadsTo(env, pc + ByteLength(a), st, y, e, st', h(y), o)
                                       && LeadsTo(env, pc + ByteLength(a), st, y, e, st', h(y), NoMatch)
    ensures LeadsTo(env, pc, st, x, e, st', Bind(f(x), h), o) && AllValid(env, Bind(f(x), h))
  {
    hide Converges, First, CodeAt, ByteLength, Means, Sound, ValidSpot, AllValid;
    UseMeans(env, a, f, pc, x, st, o);
    FirstBind(env, pc + ByteLength(a), st, f(x), e, st', h, o);
    BindValid(env, f(x), h);
  }

  // Any number of times.

  ghost function AnyFrom(env: Env, back: bool, f: Spot -> seq<Spot>, greedy: bool, c: nat): Spot -> seq<Spot> {
    (y: Spot) => if Rank(env, back, y.at) < Rank(env, back, c) then AnyNumber(env, back, f, greedy, y) else []
  }

  lemma {:induction false} BindSame(xs: seq<Spot>, f: Spot -> seq<Spot>, g: Spot -> seq<Spot>)
    requires forall x :: x in xs ==> f(x) == g(x)
    ensures Bind(xs, f) == Bind(xs, g)
    decreases |xs|
  {
    if xs != [] {
      assert xs[0] in xs;
      BindSame(xs[1..], f, g);
    }
  }

  lemma AnyUnfolds(env: Env, back: bool, f: Spot -> seq<Spot>, greedy: bool, x: Spot)
    ensures AnyNumber(env, back, f, greedy, x)
            == var more := Bind(f(x), AnyFrom(env, back, f, greedy, x.at)); if greedy then more + [x] else [x] + more
  {
    var h := (y: Spot) => if Rank(env, back, y.at) < Rank(env, back, x.at) then AnyNumber(env, back, f, greedy, y) else [];
    BindSame(f(x), h, AnyFrom(env, back, f, greedy, x.at));
  }

  lemma {:induction false} AnyAhead(env: Env, back: bool, f: Spot -> seq<Spot>, strict: bool, greedy: bool, x: Spot)
    requires Sound(env, back, f, strict) && ValidSpot(env, x)
    ensures AllAhead(env, back, x.at, AnyNumber(env, back, f, greedy, x), false) && AllValid(env, AnyNumber(env, back, f, greedy, x))
    decreases Rank(env, back, x.at)
  {
    hide ValidSpot, Rank, Sound, AnyNumber;
    var h := AnyFrom(env, back, f, greedy, x.at);
    UseSound(env, back, f, strict, x);
    forall y | y in f(x) ensures AllAhead(env, back, y.at, h(y), false) {
      if Rank(env, back, y.at) < Rank(env, back, x.at) {
        AnyAhead(env, back, f, strict, greedy, y);
      }
    }
    BindAhead(env, back, x.at, f(x), h, strict, false);
    AnyUnfolds(env, back, f, greedy, x);
  }

  lemma {:induction false} RingLeads(env: Env, back: bool, g: Ring, a: seq<Instr>, f: Spot -> seq<Spot>, greedy: bool, x: Spot, st: seq<int>, o: Outcome)
    requires RingAt(env.code, g, a, greedy) && Stands(env, back, a, f, true) && ValidSpot(env, x)
    ensures LeadsTo(env, g.head, st, x, g.exit, st, AnyNumber(env, back, f, greedy, x), o)
    decreases Rank(env, back, x.at)
  {
    hide ValidSpot, Rank, Sound, AnyNumber, Means, LeadsTo, CodeAt, ByteLength, AllValid, SplitsTo, GoesTo, AllAhead;
    var h, end := AnyFrom(env, back, f, greedy, x.at), g.body + ByteLength(a);
    UseSound(env, back, f, true, x);
    forall y | y in f(x) ensures AllValid(env, h(y)) && LeadsTo(env, end, st, y, g.exit, st, h(y), o) && LeadsTo(env, end, st, y, g.exit, st, h(y), NoMatch) {
      StrictlyAhead(env, back, x.at, f(x), y);
      AnyAhead(env, back, f, true, greedy, y);
      RingLeads(env, back, g, a, f, greedy, y, st, o);
      RingLeads(env, back, g, a, f, greedy, y, st, NoMatch);
      GoLeads(env, end, g.head, st, y, g.exit, st, h(y), o);
      GoLeads(env, end, g.head, st, y, g.exit, st, h(y), NoMatch);
    }
    BodyLeads(env, back, a, f, true, g.body, st, x, g.exit, st, h, o);
    BodyLeads(env, back, a, f, true, g.body, st, x, g.exit, st, h, NoMatch);
    TurnLeads(env, g.head, g.body, g.exit, greedy, x, st, g.exit, st, Bind(f(x), h), o);
    AnyUnfolds(env, back, f, greedy, x);
  }

  lemma StrictlyAhead(env: Env, back: bool, c: nat, ys: seq<Spot>, y: Spot)
    requires AllAhead(env, back, c, ys, true) && y in ys
    ensures ValidSpot(env, y) && Rank(env, back, y.at) < Rank(env, back, c)
  {
    hide ValidSpot, Rank;
  }

  /** The head of a loop: the body with what follows it, and the exit, in the order of the quantifier. */
  lemma TurnLeads(env: Env, head: nat, body: nat, exit: nat, greedy: bool, x: Spot, st: seq<int>, e: nat, st': seq<int>, more: seq<Spot>, o: Outcome)
    requires SplitsTo(env.code, head, if greedy then body else exit, if greedy then exit else body) && AllValid(env, more) && ValidSpot(env, x)
    requires LeadsTo(env, body, st, x, e, st', more, o) && LeadsTo(env, body, st, x, e, st', more, NoMatch)
    requires (exit == e && st == st') || (LeadsTo(env, exit, st, x, e, st', [x], o) && LeadsTo(env, exit, st, x, e, st', [x], NoMatch))
    ensures LeadsTo(env, head, st, x, e, st', if greedy then more + [x] else [x] + more, o)
  {
    hide LeadsTo, SplitsTo, ValidSpot;
    if exit == e && st == st' {
      OneLeads(env, exit, st, x, o);
      OneLeads(env, exit, st, x, NoMatch);
    }
    if greedy {
      SplitLeads(env, head, body, exit, x, st, e, st', more, [x], o);
    } else {
      SplitLeads(env, head, exit, body, x, st, e, st', [x], more, o);
    }
  }

  // A counted number of times.

  /** k repetitions, or up to k of them. */
  ghost function Rounds(exact: bool, f: Spot -> seq<Spot>, greedy: bool, k: nat): Spot -> seq<Spot> {
    (x: Spot) => if exact then Exactly(f, k, x) else UpTo(f, k, greedy, x)
  }

  lemma RoundsUnfold(exact: bool, f: Spot -> seq<Spot>, greedy: bool, k: nat, x: Spot)
    ensures Rounds(exact, f, greedy, 0)(x) == [x]
    ensures k > 0 ==> Rounds(exact, f, greedy, k)(x)
                      == var more := Bind(f(x), Rounds(exact, f, greedy, k - 1)); if exact then more else if greedy then more + [x] else [x] + more
  {
    if k > 0 {
      var h := if exact then (y: Spot) => Exactly(f, k - 1, y) else (y: Spot) => UpTo(f, k - 1, greedy, y);
      BindSame(f(x), h, Rounds(exact, f, greedy, k - 1));
    }
  }

  lemma {:induction false} RoundsAhead(env: Env, back: bool, f: Spot -> seq<Spot>, strict: bool, exact: bool, greedy: bool, k: nat, x: Spot)
    requires Sound(env, back, f, strict) && ValidSpot(env, x)
    ensures AllAhead(env, back, x.at, Rounds(exact, f, greedy, k)(x), exact && k > 0 && strict) && AllValid(env, Rounds(exact, f, greedy, k)(x))
    decreases k
  {
    hide ValidSpot, Rank, Sound, Rounds;
    RoundsUnfold(exact, f, greedy, k, x);
    if k > 0 {
      var h := Rounds(exact, f, greedy, k - 1);
      UseSound(env, back, f, strict, x);
      forall y | y in f(x) ensures AllAhead(env, back, y.at, h(y), false) {
        RoundsAhead(env, back, f, strict, exact, greedy, k - 1, y);
        Relax(env, back, y.at, h(y));
      }
      BindAhead(env, back, x.at, f(x), h, strict, false);
    }
  }

  lemma Relax(env: Env, back: bool, c: nat, ys: seq<Spot>)
    requires AllAhead(env, back, c, ys, true) || AllAhead(env, back, c, ys, false)
    ensures AllAhead(env, back, c, ys, false)
  {
    hide ValidSpot, Rank;
  }

  lemma DropLeads(env: Env, pc: nat, st: seq<int>, k: int, x: Spot, o: Outcome)
    requires ValidSpot(env, x) && Decode(env.code, pc) == Some(Drop)
    ensures LeadsTo(env, pc, st + [k], x, pc + 1, st, [x], o)
  {
    hide LeadsTo, Decode;
    assert (st + [k])[..|st|] == st;
    OneLeads(env, pc + 1, st, x, o);
    StepLeads(env, pc, st + [k], Drop, pc + 1, st, x, pc + 1, st, [x], o);
  }

  lemma LoopLeads(env: Env, pc: nat, head: nat, st: seq<int>, k: int, x: Spot, e: nat, st': seq<int>, ys: seq<Spot>, o: Outcome)
    requires ValidSpot(env, x) && Decode(env.code, pc) == Some(Loop(head - (pc + 5)))
    requires LeadsTo(env, if k == 1 then pc + 5 else head, st + [k - 1], x, e, st', ys, o)
    ensures LeadsTo(env, pc, st + [k], x, e, st', ys, o)
  {
    hide LeadsTo, Decode;
    assert (st + [k])[..|st|] == st;
    StepLeads(env, pc, st + [k], Loop(head - (pc + 5)), if k == 1 then pc + 5 else head, st + [k - 1], x, e, st', ys, o);
  }

  lemma {:induction false} CountLeads(env: Env, back: bool, g: Ring, a: seq<Instr>, f: Spot -> seq<Spot>, strict: bool, greedy: bool,
                                      x: Spot, st: seq<int>, k: nat, o: Outcome)
    requires CountAt(env.code, g, a, greedy) && Stands(env, back, a, f, strict) && ValidSpot(env, x) && k > 0
    ensures LeadsTo(env, g.head, st + [k], x, g.exit, st, Rounds(g.head == g.body, f, greedy, k)(x), o)
    decreases k
  {
    hide ValidSpot, Sound, Means, LeadsTo, CodeAt, ByteLength, AllValid, SplitsTo, AllAhead, Rounds, Decode;
    var exact, end := g.head == g.body, g.body + ByteLength(a);
    var h := Rounds(exact, f, greedy, k - 1);
    UseSound(env, back, f, strict, x);
    forall y | y in f(x)
      ensures AllValid(env, h(y)) && LeadsTo(env, end, st + [k], y, g.exit, st, h(y), o) && LeadsTo(env, end, st + [k], y, g.exit, st, h(y), NoMatch)
    {
      ValidIn(env, f(x), y);
      RoundsAhead(env, back, f, strict, exact, greedy, k - 1, y);
      RoundsUnfold(exact, f, greedy, k - 1, y);
      if k == 1 {
        DropLeads(env, end + 5, st, 0, y, o);
        DropLeads(env, end + 5, st, 0, y, NoMatch);
      } else {
        CountLeads(env, back, g, a, f, strict, greedy, y, st, k - 1, o);
        CountLeads(env, back, g, a, f, strict, greedy, y, st, k - 1, NoMatch);
      }
      LoopLeads(env, end, g.head, st, k, y, g.exit, st, h(y), o);
      LoopLeads(env, end, g.head, st, k, y, g.exit, st, h(y), NoMatch);
    }
    BodyLeads(env, back, a, f, strict, g.body, st + [k], x, g.exit, st, h, o);
    BodyLeads(env, back, a, f, strict, g.body, st + [k], x, g.exit, st, h, NoMatch);
    RoundsUnfold(exact, f, greedy, k, x);
    if !exact {
      DropLeads(env, end + 5, st, k, x, o);
      DropLeads(env, end + 5, st, k, x, NoMatch);
      TurnLeads(env, g.head, g.body, end + 5, greedy, x, st + [k], g.exit, st, Bind(f(x), h), o);
    }
  }

  lemma ValidIn(env: Env, ys: seq<Spot>, y: Spot)
    requires AllValid(env, ys) && y in ys
    ensures ValidSpot(env, y)
  {
  }

  // The pieces of a quantifier.

  ghost function AnyFn(env: Env, back: bool, f: Spot -> seq<Spot>, greedy: bool): Spot -> seq<Spot> {
    (x: Spot) => AnyNumber(env, back, f, greedy, x)
  }

  lemma AnySound(env: Env, back: bool, f: Spot -> seq<Spot>, strict: bool, greedy: bool)
    requires Sound(env, back, f, strict)
    ensures Sound(env, back, AnyFn(env, back, f, greedy), false)
  {
    hide ValidSpot, AnyNumber, AllAhead;
    forall x | ValidSpot(env, x) ensures AllAhead(env, back, x.at, AnyFn(env, back, f, greedy)(x), false) {
      AnyAhead(env, back, f, strict, greedy, x);
    }
  }

  lemma RoundsSound(env: Env, back: bool, f: Spot -> seq<Spot>, strict: bool, exact: bool, greedy: bool, k: nat)
    requires Sound(env, back, f, strict)
    ensures Sound(env, back, Rounds(exact, f, greedy, k), exact && k > 0 && strict)
  {
    hide ValidSpot, Rounds, AllAhead;
    forall x | ValidSpot(env, x) ensures AllAhead(env, back, x.at, Rounds(exact, f, greedy, k)(x), exact && k > 0 && strict) {
      RoundsAhead(env, back, f, strict, exact, greedy, k, x);
    }
  }

  lemma StarStands(env: Env, back: bool, a: seq<Instr>, check: bool, f: Spot -> seq<Spot>, greedy: bool)
    requires Stands(env, back, Checked(a, check), f, true)
    ensures Stands(env, back, Star(a, greedy, check), AnyFn(env, back, f, greedy), false)
  {
    hide ValidSpot, Sound, AnyNumber, Means, LeadsTo, CodeAt, ByteLength, Checked, Star, RingAt;
    var s, g := Star(a, greedy, check), AnyFn(env, back, f, greedy);
    forall r, o ensures MeansAt(env, s, g, r, o) {
      if CodeAt(env.code, r.pc, s) && ValidRegs(env, r) {
        StarRing(env.code, r.pc, a, greedy, check);
        ValidHere(env, r);
        RingLeads(env, back, Ring(r.pc, r.pc + 5, r.pc + ByteLength(Checked(a, check)) + 10), Checked(a, check), f, greedy, Here(r), r.stack, o);
      }
    }
    MakeMeans(env, s, g);
    AnySound(env, back, f, true, greedy);
  }

  lemma ValidHere(env: Env, r: Regs)
    requires ValidRegs(env, r)
    ensures ValidSpot(env, Here(r)) && RegsAt(r.pc, Here(r), r.stack) == r
  {
  }

  lemma CountedStands(env: Env, back: bool, a: seq<Instr>, check: bool, f: Spot -> seq<Spot>, strict: bool, greedy: bool, k: nat)
    requires Stands(env, back, Checked(a, check), f, strict) && k > 0
    ensures Stands(env, back, Counted(a, k, greedy, check), Rounds(false, f, greedy, k), false)
  {
    hide ValidSpot, Sound, Means, LeadsTo, CodeAt, ByteLength, Checked, Counted, CountAt, Rounds, Decode;
    var s, g := Counted(a, k, greedy, check), Rounds(false, f, greedy, k);
    forall r, o ensures MeansAt(env, s, g, r, o) {
      if CodeAt(env.code, r.pc, s) && ValidRegs(env, r) {
        CountedRing(env.code, r.pc, a, k, greedy, check);
        ValidHere(env, r);
        var x, exit := Here(r), r.pc + ByteLength(Checked(a, check)) + 16;
        CountLeads(env, back, Ring(r.pc + 5, r.pc + 10, exit), Checked(a, check), f, strict, greedy, x, r.stack, k, o);
        StepLeads(env, r.pc, r.stack, PushI32(k), r.pc + 5, r.stack + [k], x, exit, r.stack, g(x), o);
      }
    }
    MakeMeans(env, s, g);
    RoundsSound(env, back, f, strict, false, greedy, k);
  }

  lemma MandatoryStands(env: Env, back: bool, a: seq<Instr>, f: Spot -> seq<Spot>, strict: bool, min: nat)
    requires Stands(env, back, a, f, strict) && min > 0
    ensures Stands(env, back, Mandatory(a, min), Rounds(true, f, true, min), strict)
  {
    hide ValidSpot, Sound, Means, LeadsTo, CodeAt, ByteLength, CountAt, Rounds, Decode;
    var s, g := Mandatory(a, min), Rounds(true, f, true, min);
    RoundsSound(env, back, f, strict, true, true, min);
    if min == 1 {
      forall x | ValidSpot(env, x) ensures f(x) == g(x) {
        OnceIs(f, x);
      }
      Renamed(env, back, a, f, g, strict);
    } else {
      forall r, o ensures MeansAt(env, s, g, r, o) {
        if CodeAt(env.code, r.pc, s) && ValidRegs(env, r) {
          MandatoryRing(env.code, r.pc, a, min);
          ValidHere(env, r);
          var x, exit := Here(r), r.pc + ByteLength(a) + 11;
          CountLeads(env, back, Ring(r.pc + 5, r.pc + 5, exit), a, f, strict, true, x, r.stack, min, o);
          StepLeads(env, r.pc, r.stack, PushI32(min), r.pc + 5, r.stack + [min], x, exit, r.stack, g(x), o);
        }
      }
      MakeMeans(env, s, g);
    }
  }

  lemma {:induction false} BindOne(xs: seq<Spot>, f: Spot -> seq<Spot>)
    requires forall x :: f(x) == [x]
    ensures Bind(xs, f) == xs
    decreases |xs|
  {
    if xs != [] {
      BindOne(xs[1..], f);
    }
  }

  lemma OnceIs(f: Spot -> seq<Spot>, x: Spot)
    ensures Rounds(true, f, true, 1)(x) == f(x)
  {
    hide Rounds;
    var h := Rounds(true, f, true, 0);
    forall y ensures h(y) == [y] {
      RoundsUnfold(true, f, true, 0, y);
    }
    RoundsUnfold(true, f, true, 1, x);
    BindOne(f(x), h);
  }

  lemma OptionalStands(env: Env, back: bool, a: seq<Instr>, check: bool, f: Spot -> seq<Spot>, strict: bool, greedy: bool)
    requires Stands(env, back, Checked(a, check), f, strict)
    ensures Stands(env, back, Optional(a, greedy, check), Rounds(false, f, greedy, 1), false)
  {
    hide ValidSpot, Sound, Means, LeadsTo, CodeAt, ByteLength, Checked, Optional, SplitsTo, Rounds, AllValid;
    var s, g := Optional(a, greedy, check), Rounds(false, f, greedy, 1);
    forall r, o ensures MeansAt(env, s, g, r, o) {
      if CodeAt(env.code, r.pc, s) && ValidRegs(env, r) {
        OptionalLayout(env.code, r.pc, a, greedy, check);
        ValidHere(env, r);
        var x, b := Here(r), Checked(a, check);
        var e := r.pc + 5 + ByteLength(b);
        UseMeans(env, b, f, r.pc + 5, x, r.stack, o);
        UseMeans(env, b, f, r.pc + 5, x, r.stack, NoMatch);
        UseSound(env, back, f, strict, x);
        TurnLeads(env, r.pc, r.pc + 5, e, greedy, x, r.stack, e, r.stack, f(x), o);
        OptionalIs(f, greedy, x);
      }
    }
    MakeMeans(env, s, g);
    RoundsSound(env, back, f, strict, false, greedy, 1);
  }

  lemma OptionalIs(f: Spot -> seq<Spot>, greedy: bool, x: Spot)
    ensures Rounds(false, f, greedy, 1)(x) == if greedy then f(x) + [x] else [x] + f(x)
  {
    hide Rounds;
    var h := Rounds(false, f, greedy, 0);
    forall y ensures h(y) == [y] {
      RoundsUnfold(false, f, greedy, 0, y);
    }
    RoundsUnfold(false, f, greedy, 1, x);
    BindOne(f(x), h);
  }

  /** At least once: the atom, and then any number of accepted repetitions. */
  lemma OnceStands(env: Env, back: bool, a: seq<Instr>, f: Spot -> seq<Spot>, check: bool, g: Spot -> seq<Spot>, strict: bool, greedy: bool, reset: seq<Instr>)
    requires Stands(env, back, a, f, strict) && Stands(env, back, Checked(a, check), g, true)
    ensures Stands(env, back, Quantified(a, 1, INT32_MAX, greedy, check, reset), Joined(f, AnyFn(env, back, g, greedy)), strict)
  {
    hide ValidSpot, Sound, Means, LeadsTo, CodeAt, ByteLength, Checked, Quantified, OnceAt, OnceRing, AnyNumber, AllValid;
    var s, h := Quantified(a, 1, INT32_MAX, greedy, check, reset), AnyFn(env, back, g, greedy);
    forall r, o ensures MeansAt(env, s, Joined(f, h), r, o) {
      if CodeAt(env.code, r.pc, s) && ValidRegs(env, r) {
        OnceLayout(env.code, r.pc, a, greedy, check, reset);
        ValidHere(env, r);
        OnceLeads(env, back, a, f, strict, OnceRing(r.pc, a, check), Checked(a, check), g, greedy, Here(r), r.pc, r.stack, o);
      }
    }
    MakeMeans(env, s, Joined(f, h));
    AnySound(env, back, g, true, greedy);
    JoinedSound(env, back, f, h, strict, false);
  }

  lemma OnceLeads(env: Env, back: bool, a: seq<Instr>, f: Spot -> seq<Spot>, strict: bool, ring: Ring, b: seq<Instr>, g: Spot -> seq<Spot>,
                  greedy: bool, x: Spot, pc: nat, st: seq<int>, o: Outcome)
    requires Stands(env, back, a, f, strict) && Stands(env, back, b, g, true) && OnceAt(env.code, pc, a, ring, b, greedy) && ValidSpot(env, x)
    ensures LeadsTo(env, pc, st, x, ring.exit, st, Bind(f(x), AnyFn(env, back, g, greedy)), o)
  {
    hide ValidSpot, Sound, Means, LeadsTo, CodeAt, ByteLength, AnyNumber, AllValid, AllAhead, RingAt;
    var h := AnyFn(env, back, g, greedy);
    UseSound(env, back, f, strict, x);
    forall y | y in f(x) ensures AllValid(env, h(y)) && LeadsTo(env, ring.head, st, y, ring.exit, st, h(y), o) && LeadsTo(env, ring.head, st, y, ring.exit, st, h(y), NoMatch) {
      ValidIn(env, f(x), y);
      AnyAhead(env, back, g, true, greedy, y);
      RingLeads(env, back, ring, b, g, greedy, y, st, o);
      RingLeads(env, back, ring, b, g, greedy, y, st, NoMatch);
    }
    BodyLeads(env, back, a, f, strict, pc, st, x, ring.exit, st, h, o);
  }

  ghost function FurtherFn(env: Env, back: bool, f: Spot -> seq<Spot>, min: nat, max: nat, greedy: bool): Spot -> seq<Spot> {
    (x: Spot) => Further(env, back, f, min, max, greedy, x)
  }

  /** The repetitions beyond the mandatory ones. */
  lemma ExtraStands(env: Env, back: bool, a: seq<Instr>, f: Spot -> seq<Spot>, check: bool, strict: bool, min: nat, max: nat, greedy: bool)
    requires Stands(env, back, Checked(a, check), Accepted(f, greedy), strict) && (max == INT32_MAX ==> strict)
    ensures Stands(env, back, Extra(a, min, max, greedy, check), FurtherFn(env, back, f, min, max, greedy), false)
  {
    hide Stands, Star, Counted, Checked, AnyNumber, UpTo, ValidSpot;
    var g, h := Accepted(f, greedy), FurtherFn(env, back, f, min, max, greedy);
    if max == INT32_MAX {
      StarStands(env, back, a, check, g, greedy);
      Renamed(env, back, Star(a, greedy, check), AnyFn(env, back, g, greedy), h, false);
    } else if max > min {
      CountedStands(env, back, a, check, g, strict, greedy, max - min);
      Renamed(env, back, Counted(a, max - min, greedy, check), Rounds(false, g, greedy, max - min), h, false);
    } else {
      EmptyStands(env, back);
      Renamed(env, back, [], One(), h, false);
    }
  }

  /** What follows the reset of an atom that may be skipped. */
  function SkippableCode(a: seq<Instr>, max: nat, greedy: bool, check: bool): seq<Instr> {
    if max == 0 then [] else if max == 1 then Optional(a, greedy, check)
    else if max == INT32_MAX then Star(a, greedy, check) else Counted(a, max, greedy, check)
  }

  lemma SkippableStands(env: Env, back: bool, a: seq<Instr>, f: Spot -> seq<Spot>, check: bool, strict: bool, max: nat, greedy: bool)
    requires Stands(env, back, Checked(a, check), Accepted(f, greedy), strict) && (max == INT32_MAX ==> strict)
    ensures Stands(env, back, SkippableCode(a, max, greedy, check), FurtherFn(env, back, f, 0, max, greedy), false)
  {
    hide Stands, Star, Counted, Checked, AnyNumber, UpTo, ValidSpot, Optional;
    if max == 1 {
      OptionalStands(env, back, a, check, Accepted(f, greedy), strict, greedy);
      Renamed(env, back, Optional(a, greedy, check), Rounds(false, Accepted(f, greedy), greedy, 1), FurtherFn(env, back, f, 0, 1, greedy), false);
    } else {
      ExtraStands(env, back, a, f, check, strict, 0, max, greedy);
    }
  }

  ghost function RepeatedFn(env: Env, back: bool, f: Spot -> seq<Spot>, lo: nat, hi: nat, min: nat, max: nat, greedy: bool): Spot -> seq<Spot> {
    (x: Spot) => Repeated(env, back, f, lo, hi, min, max, greedy, x)
  }

  lemma RepeatedIs(env: Env, back: bool, f: Spot -> seq<Spot>, lo: nat, hi: nat, min: nat, max: nat, greedy: bool, x: Spot)
    ensures Repeated(env, back, f, lo, hi, min, max, greedy, x)
            == if min == 0 then Joined(ForgetFn(lo, hi), FurtherFn(env, back, f, 0, max, greedy))(x)
               else Joined(Rounds(true, f, true, min), FurtherFn(env, back, f, min, max, greedy))(x)
  {
    hide Further, Exactly;
    var h := FurtherFn(env, back, f, min, max, greedy);
    if min == 0 {
      var y := x.(cap := Forgotten(x.cap, lo, hi));
      assert [y][1..] == [];
      assert Bind([y], h) == h(y) + [];
    } else {
      BindSame(Exactly(f, min, x), (y: Spot) => Further(env, back, f, min, max, greedy, y), h);
    }
  }

  /** Every form of the general quantifier. */
  lemma QuantifiedStands(env: Env, back: bool, a: seq<Instr>, f: Spot -> seq<Spot>, strict: bool, check: bool, min: nat, max: nat, greedy: bool, lo: nat, hi: nat)
    requires Stands(env, back, a, f, strict) && (check ==> greedy) && (greedy && !check ==> strict) && (max == INT32_MAX && !greedy ==> strict)
    requires lo <= hi <= env.captureCount
    ensures Stands(env, back, Quantified(a, min, max, greedy, check, ResetCode(lo, hi)), RepeatedFn(env, back, f, lo, hi, min, max, greedy), min > 0 && strict)
  {
    hide Stands, Star, Counted, Checked, ValidSpot, Optional, Mandatory, Plus, Further, Repeated, ResetCode, Extra;
    var code, fn := Quantified(a, min, max, greedy, check, ResetCode(lo, hi)), RepeatedFn(env, back, f, lo, hi, min, max, greedy);
    var more := FurtherFn(env, back, f, min, max, greedy);
    CheckedStands(env, back, a, f, greedy, check, strict);
    forall x ensures fn(x) == (if min == 0 then Joined(ForgetFn(lo, hi), more) else Joined(Rounds(true, f, true, min), more))(x) {
      RepeatedIs(env, back, f, lo, hi, min, max, greedy, x);
    }
    if min == 0 {
      ResetStands(env, back, lo, hi);
      SkippableStands(env, back, a, f, check, strict || check, max, greedy);
      JoinedStands(env, back, ResetCode(lo, hi), ForgetFn(lo, hi), false, SkippableCode(a, max, greedy, check), more, false);
      Renamed(env, back, code, Joined(ForgetFn(lo, hi), more), fn, false);
    } else if min == 1 && max == INT32_MAX {
      PlusStands(env, back, a, f, strict, check, greedy, lo, hi);
    } else {
      MandatoryStands(env, back, a, f, strict, min);
      ExtraStands(env, back, a, f, check, strict || check, min, max, greedy);
      JoinedStands(env, back, Mandatory(a, min), Rounds(true, f, true, min), strict, Extra(a, min, max, greedy, check), more, false);
      Renamed(env, back, code, Joined(Rounds(true, f, true, min), more), fn, strict);
    }
  }

  lemma PlusStands(env: Env, back: bool, a: seq<Instr>, f: Spot -> seq<Spot>, strict: bool, check: bool, greedy: bool, lo: nat, hi: nat)
    requires Stands(env, back, a, f, strict) && (strict || check) && Stands(env, back, Checked(a, check), Accepted(f, greedy), strict || check)
    requires lo <= hi <= env.captureCount
    ensures Stands(env, back, Quantified(a, 1, INT32_MAX, greedy, check, ResetCode(lo, hi)),
                   RepeatedFn(env, back, f, lo, hi, 1, INT32_MAX, greedy), strict)
  {
    hide Stands, Checked, ValidSpot, Quantified, ResetCode, Exactly, AnyNumber, Repeated;
    var g := Accepted(f, greedy);
    var h, fn := AnyFn(env, back, g, greedy), RepeatedFn(env, back, f, lo, hi, 1, INT32_MAX, greedy);
    OnceStands(env, back, a, f, check, g, strict, greedy, ResetCode(lo, hi));
    forall x ensures Joined(f, h)(x) == fn(x) {
      RepeatedIs(env, back, f, lo, hi, 1, INT32_MAX, greedy, x);
      OnceIs(f, x);
      BindSame(f(x), h, FurtherFn(env, back, f, 1, INT32_MAX, greedy));
    }
    Renamed(env, back, Quantified(a, 1, INT32_MAX, greedy, check, ResetCode(lo, hi)), Joined(f, h), fn, strict);
  }

  // Alternatives and lookarounds.

  ghost function EitherFn(f: Spot -> seq<Spot>, g: Spot -> seq<Spot>): Spot -> seq<Spot> {
    (x: Spot) => f(x) + g(x)
  }

  lemma ChoiceStands(env: Env, back: bool, a: seq<Instr>, f: Spot -> seq<Spot>, s: bool, b: seq<Instr>, g: Spot -> seq<Spot>, t: bool)
    requires Stands(env, back, a, f, s) && Stands(env, back, b, g, t)
    ensures Stands(env, back, Choice(a, b), EitherFn(f, g), s && t)
  {
    hide ValidSpot, Sound, Means, LeadsTo, CodeAt, ByteLength, Choice, AllValid, SplitsTo, GoesTo;
    var code, fn := Choice(a, b), EitherFn(f, g);
    forall r, o ensures MeansAt(env, code, fn, r, o) {
      if CodeAt(env.code, r.pc, code) && ValidRegs(env, r) {
        ChoiceLayout(env.code, r.pc, a, b);
        ValidHere(env, r);
        var x, e := Here(r), r.pc + ByteLength(code);
        ChoiceLeads(env, back, a, f, s, r.pc + 5, x, r.stack, e, o);
        ChoiceLeads(env, back, a, f, s, r.pc + 5, x, r.stack, e, NoMatch);
        UseMeans(env, b, g, r.pc + ByteLength(a) + 10, x, r.stack, o);
        UseSound(env, back, f, s, x);
        SplitLeads(env, r.pc, r.pc + 5, r.pc + ByteLength(a) + 10, x, r.stack, e, r.stack, f(x), g(x), o);
      }
    }
    MakeMeans(env, code, fn);
    EitherSound(env, back, f, s, g, t);
  }

  lemma EitherSound(env: Env, back: bool, f: Spot -> seq<Spot>, s: bool, g: Spot -> seq<Spot>, t: bool)
    requires Sound(env, back, f, s) && Sound(env, back, g, t)
    ensures Sound(env, back, EitherFn(f, g), s && t)
  {
    hide ValidSpot, Rank;
    forall x | ValidSpot(env, x) ensures AllAhead(env, back, x.at, EitherFn(f, g)(x), s && t) {
      assert AllAhead(env, back, x.at, f(x), s) && AllAhead(env, back, x.at, g(x), t);
    }
  }

  /** The first alternative jumps over the second. */
  lemma ChoiceLeads(env: Env, back: bool, a: seq<Instr>, f: Spot -> seq<Spot>, strict: bool, pc: nat, x: Spot, st: seq<int>, e: nat, o: Outcome)
    requires Stands(env, back, a, f, strict) && CodeAt(env.code, pc, a) && GoesTo(env.code, pc + ByteLength(a), e) && ValidSpot(env, x)
    ensures LeadsTo(env, pc, st, x, e, st, f(x), o)
  {
    hide ValidSpot, Sound, Means, LeadsTo, CodeAt, ByteLength, AllValid, GoesTo;
    UseSound(env, back, f, strict, x);
    forall y | y in f(x)
      ensures AllValid(env, One()(y)) && LeadsTo(env, pc + ByteLength(a), st, y, e, st, One()(y), o) && LeadsTo(env, pc + ByteLength(a), st, y, e, st, One()(y), NoMatch)
    {
      ValidIn(env, f(x), y);
      OneLeads(env, e, st, y, o);
      OneLeads(env, e, st, y, NoMatch);
      GoLeads(env, pc + ByteLength(a), e, st, y, e, st, [y], o);
      GoLeads(env, pc + ByteLength(a), e, st, y, e, st, [y], NoMatch);
      assert AllValid(env, [y]) by { OneValid(env, y); }
    }
    BodyLeads(env, back, a, f, strict, pc, st, x, e, st, One(), o);
    BindOne(f(x), One());
  }

  lemma OneValid(env: Env, y: Spot)
    requires ValidSpot(env, y)
    ensures AllValid(env, [y])
  {
  }

  ghost function LookFn(f: Spot -> seq<Spot>, negated: bool): Spot -> seq<Spot> {
    (x: Spot) => var ys := f(x);
                 if negated then if ys == [] then [x] else []
                 else if ys == [] then [] else [x.(cap := ys[0].cap)]
  }

  /** At a Match, the first spot is the answer. */
  lemma FirstMatch(env: Env, pc: nat, st: seq<int>, ys: seq<Spot>, o: Outcome)
    requires Decode(env.code, pc) == Some(Match) && AllValid(env, ys)
    ensures First(env, pc, st, ys, o) <==> o == if ys == [] then NoMatch else Matched(ys[0].cap)
  {
    hide Decode, ValidSpot, Converges;
    if ys != [] {
      ValidIn(env, ys, ys[0]);
      MatchConverges(env, pc, st, ys[0], o);
      MatchConverges(env, pc, st, ys[0], NoMatch);
    }
  }

  lemma MatchConverges(env: Env, pc: nat, st: seq<int>, x: Spot, o: Outcome)
    requires ValidSpot(env, x) && Decode(env.code, pc) == Some(Match)
    ensures Converges(env, RegsAt(pc, x, st), o) <==> o == Matched(x.cap)
  {
    hide Decode;
    assert Search(env, 1, RegsAt(pc, x, st)) == Matched(x.cap);
  }

  lemma LookLeads(env: Env, behind: bool, a: seq<Instr>, f: Spot -> seq<Spot>, strict: bool, negated: bool, r: Regs, o: Outcome)
    requires Stands(env, behind, a, f, strict) && ValidRegs(env, r) && CodeAt(env.code, r.pc + 5, a)
    requires Decode(env.code, r.pc) == Some(Lookahead(ByteLength(a) + 1, negated)) && Decode(env.code, r.pc + 5 + ByteLength(a)) == Some(Match)
    ensures LeadsTo(env, r.pc, r.stack, Here(r), r.pc + ByteLength(a) + 6, r.stack, LookFn(f, negated)(Here(r)), o)
  {
    hide Decode, Converges, CodeAt, ByteLength, Means, Sound, First;
    var x, e := Here(r), r.pc + ByteLength(a) + 6;
    var ys := f(x);
    ValidHere(env, r);
    UseSound(env, behind, f, strict, x);
    var o1 := if ys == [] then NoMatch else Matched(ys[0].cap);
    UseMeans(env, a, f, r.pc + 5, x, r.stack, o1);
    FirstMatch(env, r.pc + 5 + ByteLength(a), r.stack, ys, o1);
    assert ys != [] ==> ValidSpot(env, ys[0]);
    LookStep(env, r, ByteLength(a) + 1, negated, o1, o);
    var zs := LookFn(f, negated)(x);
    if zs == [] {
      NoneLeft(env, e, r.stack, o);
    } else {
      FirstOne(env, e, r.stack, zs[0], o);
      assert RegsAt(e, zs[0], r.stack) == r.(pc := e, capture := zs[0].cap);
    }
  }

  lemma LookStands(env: Env, back: bool, behind: bool, a: seq<Instr>, f: Spot -> seq<Spot>, strict: bool, negated: bool)
    requires Stands(env, behind, a, f, strict)
    ensures Stands(env, back, LookCode(a, negated), LookFn(f, negated), false)
  {
    hide Sound, Means, LeadsTo, CodeAt, ByteLength, LookCode, Decode;
    var code, fn := LookCode(a, negated), LookFn(f, negated);
    forall r, o ensures MeansAt(env, code, fn, r, o) {
      if CodeAt(env.code, r.pc, code) && ValidRegs(env, r) {
        LookLayout(env.code, r.pc, a, negated);
        LookLeads(env, behind, a, f, strict, negated, r, o);
      }
    }
    MakeMeans(env, code, fn);
    LookSound(env, back, behind, f, strict, negated);
  }

  lemma LookSound(env: Env, back: bool, behind: bool, f: Spot -> seq<Spot>, strict: bool, negated: bool)
    requires Sound(env, behind, f, strict)
    ensures Sound(env, back, LookFn(f, negated), false)
  {
    hide ValidSpot, AllAhead, Sound;
    forall x | ValidSpot(env, x) ensures AllAhead(env, back, x.at, LookFn(f, negated)(x), false) {
      UseSound(env, behind, f, strict, x);
      StaysAhead(env, back, x, x);
      if f(x) != [] {
        ValidIn(env, f(x), f(x)[0]);
        StaysAhead(env, back, x, f(x)[0]);
      }
    }
    MakeSound(env, back, LookFn(f, negated), false);
  }

  lemma StaysAhead(env: Env, back: bool, x: Spot, y: Spot)
    requires ValidSpot(env, x) && ValidSpot(env, y)
    ensures AllAhead(env, back, x.at, [x.(cap := y.cap)], false) && AllAhead(env, back, x.at, [], false) && x.(cap := x.cap) == x
  {
    hide Rank;
  }
}
