/** Quantifiers over a simple atom: the general loops and the opcode try the same positions. */
module RegexLoops {
  import opened RegexInstr
  import opened RegexChars
  import opened RegexVm
  import opened RegexSearch
  import opened RegexRefine
  import opened RegexEmit
  import opened RegexSimple
  import opened RegexGreedy
  import opened RegexResults
  import opened RegexMeaning
  import opened RegexPieces
  import opened RegexRepeat

  /** Running the atom: it fails, or goes on behind itself from where it ends. */
  lemma {:induction false} AtomRuns(env: Env, r: Regs, a: seq<Instr>, o: Outcome)
    requires ValidRegs(env, r) && SimpleLength(a) >= 0 && CodeAt(env.code, r.pc, a)
    ensures Converges(env, r, o) <==>
            match AtomOn(env, a, r.cptr)
            case None => o == NoMatch
            case Some(e) => Converges(env, r.(pc := r.pc + ByteLength(a), cptr := e), o)
    decreases |a|
  {
    hide Decode, Converges, Accepts, Holds;
    if a == [] {
      assert r.(pc := r.pc + ByteLength(a), cptr := r.cptr) == r;
    } else {
      LocalStep(env, r, a[0], o);
      var e := Exec(env, a[0], r);
      if e.Go? {
        AtomRuns(env, e.regs, a[1..], o);
      }
    }
  }

  /** Where a simple atom ends: at one spot, or nowhere. */
  ghost function AtomFn(env: Env, a: seq<Instr>): Spot -> seq<Spot>
    requires SimpleLength(a) >= 0
  {
    (x: Spot) => if !ValidSpot(env, x) then []
                 else match AtomOn(env, a, x.at)
                   case Some(e) => [x.(at := e)]
                   case None => []
  }

  lemma AtomStands(env: Env, a: seq<Instr>)
    requires SimpleLength(a) > 0
    ensures Stands(env, false, a, AtomFn(env, a), true)
  {
    hide Converges, AtomOn, CodeAt, ByteLength, SimpleLength, First;
    var f := AtomFn(env, a);
    forall r, o ensures MeansAt(env, a, f, r, o) {
      if CodeAt(env.code, r.pc, a) && ValidRegs(env, r) {
        AtomRuns(env, r, a, o);
        ValidHere(env, r);
        var e, x := AtomOn(env, a, r.cptr), Here(r);
        if e.Some? {
          FirstOne(env, r.pc + ByteLength(a), r.stack, x.(at := e.value), o);
        } else {
          NoneLeft(env, r.pc + ByteLength(a), r.stack, o);
        }
      }
    }
    MakeMeans(env, a, f);
    forall x | ValidSpot(env, x) ensures AllAhead(env, false, x.at, f(x), true) {
      if AtomOn(env, a, x.at).Some? {
        BackOverAtom(env, a, x.at);
      }
    }
  }

  // The spots of a quantifier are the positions of Trials, from the most repetitions to the fewest or the other way round.

  function Reversed(ps: seq<nat>): (qs: seq<nat>)
    ensures |qs| == |ps| && forall k :: 0 <= k < |ps| ==> qs[k] == ps[|ps| - 1 - k]
  {
    if ps == [] then [] else Reversed(ps[1..]) + [ps[0]]
  }

  lemma {:induction false} ReversedLast(ps: seq<nat>, p: nat)
    ensures Reversed(ps + [p]) == [p] + Reversed(ps)
    decreases |ps|
  {
    if ps != [] {
      assert (ps + [p])[1..] == ps[1..] + [p];
      ReversedLast(ps[1..], p);
    } else {
      assert ps + [p] == [p];
    }
  }

  function InOrder(greedy: bool, ps: seq<nat>): (qs: seq<nat>)
    ensures |qs| == |ps| && forall k :: 0 <= k < |ps| ==> qs[k] == ps[if greedy then k else |ps| - 1 - k]
  {
    if greedy then ps else Reversed(ps)
  }

  function Spots(ps: seq<nat>, cap: Captures): (xs: seq<Spot>)
    ensures |xs| == |ps|
  {
    seq(|ps|, k requires 0 <= k < |ps| => Spot(ps[k], cap))
  }

  lemma SpotsAdd(ps: seq<nat>, qs: seq<nat>, cap: Captures)
    ensures Spots(ps + qs, cap) == Spots(ps, cap) + Spots(qs, cap)
  {
  }

  /** One more position, tried last or first. */
  lemma OneMore(greedy: bool, ps: seq<nat>, x: Spot)
    ensures Spots(InOrder(greedy, ps + [x.at]), x.cap)
            == var more := Spots(InOrder(greedy, ps), x.cap); if greedy then more + [x] else [x] + more
  {
    ReversedLast(ps, x.at);
    SpotsAdd(ps, [x.at], x.cap);
    SpotsAdd([x.at], Reversed(ps), x.cap);
    assert Spots([x.at], x.cap) == [x];
  }

  /** f behaves like the simple atom. */
  ghost predicate LikeAtom(env: Env, a: seq<Instr>, f: Spot -> seq<Spot>)
    requires SimpleLength(a) > 0
  {
    forall x :: ValidSpot(env, x) ==> f(x) == AtomFn(env, a)(x)
  }

  ghost function More(env: Env, f: Spot -> seq<Spot>, greedy: bool, rest: Option<nat>): Spot -> seq<Spot> {
    (x: Spot) => if rest.None? then AnyNumber(env, false, f, greedy, x) else UpTo(f, rest.value, greedy, x)
  }

  lemma MoreUnfolds(env: Env, a: seq<Instr>, f: Spot -> seq<Spot>, greedy: bool, rest: Option<nat>, x: Spot)
    requires SimpleLength(a) > 0 && LikeAtom(env, a, f) && ValidSpot(env, x)
    ensures var e := AtomOn(env, a, x.at);
            var more := if e.None? then [] else More(env, f, greedy, Fewer(if rest == Some(0) then None else rest))(x.(at := e.value));
            More(env, f, greedy, rest)(x) == if rest == Some(0) then [x] else if greedy then more + [x] else [x] + more
  {
    hide AtomOn, SimpleLength, AnyNumber, UpTo, Bind;
    if rest != Some(0) {
      var e, h := AtomOn(env, a, x.at), if rest.None? then AnyFrom(env, false, f, greedy, x.at) else Rounds(false, f, greedy, rest.value - 1);
      assert f(x) == if e.Some? then [x.(at := e.value)] else [];
      if e.Some? {
        BackOverAtom(env, a, x.at);
        BindSingle(x.(at := e.value), h);
      } else {
        BindNothing(h);
      }
      if rest.None? {
        AnyUnfolds(env, false, f, greedy, x);
      } else {
        RoundsUnfold(false, f, greedy, rest.value, x);
      }
    } else {
      RoundsUnfold(false, f, greedy, 0, x);
    }
  }

  lemma BindNothing(h: Spot -> seq<Spot>)
    ensures Bind([], h) == []
  {
  }

  lemma BindSingle(y: Spot, h: Spot -> seq<Spot>)
    ensures Bind([y], h) == h(y)
  {
    assert [y][1..] == [];
    assert Bind([y], h) == h(y) + [];
  }

  lemma {:induction false} MoreTrials(env: Env, a: seq<Instr>, f: Spot -> seq<Spot>, greedy: bool, rest: Option<nat>, x: Spot)
    requires SimpleLength(a) > 0 && LikeAtom(env, a, f) && ValidSpot(env, x)
    ensures More(env, f, greedy, rest)(x) == Spots(InOrder(greedy, Trials(env, a, x.at, 0, rest)), x.cap)
    decreases env.End() - x.at
  {
    hide AtomOn, SimpleLength, More, LikeAtom;
    MoreUnfolds(env, a, f, greedy, rest, x);
    var e := AtomOn(env, a, x.at);
    if rest != Some(0) && e.Some? {
      var y := x.(at := e.value);
      MoreTrials(env, a, f, greedy, Fewer(rest), y);
      OneMore(greedy, Trials(env, a, y.at, 0, Fewer(rest)), x);
    } else {
      OneMore(greedy, [], x);
      assert [] + [x.at] == [x.at] && Spots(InOrder(greedy, []), x.cap) == [];
    }
  }

  function Beyond(n: nat, rest: Option<nat>): Option<nat> {
    if rest.None? then None else Some(n + rest.value)
  }

  lemma {:induction false} ExactTrials(env: Env, a: seq<Instr>, f: Spot -> seq<Spot>, g: Spot -> seq<Spot>, greedy: bool, n: nat, rest: Option<nat>, x: Spot)
    requires SimpleLength(a) > 0 && LikeAtom(env, a, f) && LikeAtom(env, a, g) && ValidSpot(env, x)
    ensures Bind(Exactly(f, n, x), More(env, g, greedy, rest)) == Spots(InOrder(greedy, Trials(env, a, x.at, n, Beyond(n, rest))), x.cap)
    decreases n
  {
    hide AtomOn, SimpleLength, More, LikeAtom, Exactly, InOrder;
    var h := More(env, g, greedy, rest);
    RoundsUnfold(true, f, true, n, x);
    if n == 0 {
      assert Exactly(f, 0, x) == [x];
      BindSingle(x, h);
      MoreTrials(env, a, g, greedy, rest, x);
      assert Beyond(0, rest) == rest;
    } else {
      var e, k := AtomOn(env, a, x.at), Rounds(true, f, true, n - 1);
      assert f(x) == AtomFn(env, a)(x) by { UseLike(env, a, f, x); }
      if e.Some? {
        var y := x.(at := e.value);
        BindSingle(y, k);
        assert Exactly(f, n, x) == Exactly(f, n - 1, y);
        ExactTrials(env, a, f, g, greedy, n - 1, rest, y);
        TrialsAfter(env, a, x.at, n, rest, e.value);
      } else {
        assert Exactly(f, n, x) == [];
        assert Trials(env, a, x.at, n, Beyond(n, rest)) == [];
      }
    }
  }

  lemma TrialsAfter(env: Env, a: seq<Instr>, c: nat, n: nat, rest: Option<nat>, e: nat)
    requires SimpleLength(a) > 0 && c <= env.End() && n > 0 && AtomOn(env, a, c) == Some(e)
    ensures Trials(env, a, c, n, Beyond(n, rest)) == Trials(env, a, e, n - 1, Beyond(n - 1, rest))
  {
    hide AtomOn, SimpleLength;
    assert Fewer(Beyond(n, rest)) == Beyond(n - 1, rest);
  }

  lemma UseLike(env: Env, a: seq<Instr>, f: Spot -> seq<Spot>, x: Spot)
    requires SimpleLength(a) > 0 && LikeAtom(env, a, f) && ValidSpot(env, x)
    ensures f(x) == AtomFn(env, a)(x)
  {
  }

  /** All that a quantifier over a simple atom without captures tries. */
  lemma RepeatedTrials(env: Env, a: seq<Instr>, f: Spot -> seq<Spot>, n: nat, min: nat, max: nat, greedy: bool, x: Spot)
    requires SimpleLength(a) > 0 && LikeAtom(env, a, f) && ValidSpot(env, x) && min <= max
    ensures Repeated(env, false, f, n, n, min, max, greedy, x) == Spots(InOrder(greedy, Trials(env, a, x.at, min, Left(max, 0))), x.cap)
  {
    hide AtomOn, SimpleLength, AtomFn, Exactly, AnyNumber, UpTo, Trials, InOrder;
    var g, rest := Accepted(f, greedy), if max == INT32_MAX then None else Some(max - min);
    var h := More(env, g, greedy, rest);
    forall y | ValidSpot(env, y) ensures g(y) == AtomFn(env, a)(y) {
      if greedy {
        AtomStands(env, a);
        UseSound(env, false, AtomFn(env, a), true, y);
        AllMoved(env, false, y.at, f(y));
      }
    }
    assert LikeAtom(env, a, g);
    ExactTrials(env, a, f, g, greedy, min, rest, x);
    assert Beyond(min, rest) == Left(max, 0);
    forall y ensures Further(env, false, f, min, max, greedy, y) == h(y) {
      RoundsUnfold(false, g, greedy, 0, y);
    }
    RepeatedIs(env, false, f, n, n, min, max, greedy, x);
    if min == 0 {
      assert Forgotten(x.cap, n, n) == x.cap;
      RoundsUnfold(true, f, true, 0, x);
      BindSingle(x, h);
      BindSingle(x, FurtherFn(env, false, f, 0, max, greedy));
    } else {
      BindSame(Exactly(f, min, x), FurtherFn(env, false, f, min, max, greedy), h);
    }
  }

  lemma {:induction false} FirstIsFirstOf(env: Env, r: Regs, ps: seq<nat>, o: Outcome)
    requires ValidRegs(env, r) && forall k :: 0 <= k < |ps| ==> ps[k] <= env.End()
    ensures First(env, r.pc, r.stack, Spots(ps, r.capture), o) <==> FirstOf(env, r, ps, o)
    decreases |ps|
  {
    hide Converges;
    if ps != [] {
      FirstIsFirstOf(env, r, ps[1..], o);
      assert Spots(ps, r.capture)[1..] == Spots(ps[1..], r.capture);
      assert RegsAt(r.pc, Spot(ps[0], r.capture), r.stack) == r.(cptr := ps[0]);
    }
  }

  /** The general quantifier takes the first continuation that matches, over the positions Trials, in the order of its kind. */
  lemma GeneralMeaning(env: Env, r: Regs, a: seq<Instr>, min: nat, max: nat, greedy: bool, o: Outcome)
    requires ValidRegs(env, r) && SimpleLength(a) > 0 && min <= max
    requires CodeAt(env.code, r.pc, Quantified(a, min, max, greedy, false, []))
    ensures Converges(env, r, o) <==> FirstOf(env, r.(pc := r.pc + ByteLength(Quantified(a, min, max, greedy, false, []))),
                                              InOrder(greedy, Trials(env, a, r.cptr, min, Left(max, 0))), o)
  {
    hide Converges, CodeAt, ByteLength, Quantified, SimpleLength, AtomFn, Trials, FirstOf, First, Repeated, Means, Sound;
    var f, code := AtomFn(env, a), Quantified(a, min, max, greedy, false, []);
    var k, ps := r.(pc := r.pc + ByteLength(code)), InOrder(greedy, Trials(env, a, r.cptr, min, Left(max, 0)));
    AtomStands(env, a);
    QuantifiedStands(env, false, a, f, true, false, min, max, greedy, 0, 0);
    ValidHere(env, r);
    UseMeans(env, code, RepeatedFn(env, false, f, 0, 0, min, max, greedy), r.pc, Here(r), r.stack, o);
    RepeatedTrials(env, a, f, 0, min, max, greedy, Here(r));
    FirstIsFirstOf(env, k, ps, o);
  }

  // The rewrite: the same program text, once with the opcode and once with the general loop.

  lemma {:induction false} AtomOnSame(env: Env, env': Env, a: seq<Instr>, c: nat)
    requires SimpleLength(a) >= 0 && c <= env.End() && env' == env.(code := env'.code)
    ensures AtomOn(env, a, c) == AtomOn(env', a, c)
    decreases |a|
  {
    if a != [] {
      if Consumes(a[0]) {
        if c < env.End() {
          AtomOnSame(env, env', a[1..], env.subject.Next(c, env.End()));
        }
      } else {
        AtomOnSame(env, env', a[1..], c);
      }
    }
  }

  lemma {:induction false} TrialsSame(env: Env, env': Env, a: seq<Instr>, c: nat, min: nat, max: Option<nat>)
    requires SimpleLength(a) > 0 && c <= env.End() && env' == env.(code := env'.code)
    ensures Trials(env, a, c, min, max) == Trials(env', a, c, min, max)
    decreases env.End() - c
  {
    hide AtomOn;
    AtomOnSame(env, env', a, c);
    var e := AtomOn(env, a, c);
    if max != Some(0) && e.Some? {
      TrialsSame(env, env', a, e.value, if min == 0 then 0 else min - 1, Fewer(max));
    }
  }

  /** A position that a quantifier which started at c can try: c itself or a character boundary. */
  predicate Reached(env: Env, c: nat, p: nat) {
    p <= env.End() && (p == c || env.subject.Boundary(p))
  }

  lemma {:induction false} TrialsReached(env: Env, a: seq<Instr>, c: nat, min: nat, max: Option<nat>)
    requires SimpleLength(a) > 0 && c <= env.End()
    ensures forall p :: p in Trials(env, a, c, min, max) ==> Reached(env, c, p)
    decreases env.End() - c
  {
    hide AtomOn, SimpleLength;
    var e := AtomOn(env, a, c);
    if max != Some(0) && e.Some? {
      BackOverAtom(env, a, c);
      TrialsReached(env, a, e.value, if min == 0 then 0 else min - 1, Fewer(max));
    }
  }

  /** Two continuations that give the same answers from every position that can be tried. */
  ghost predicate SameAnswers(env: Env, k: Regs, env': Env, k': Regs)
    requires ValidRegs(env, k) && ValidRegs(env', k') && env' == env.(code := env'.code)
  {
    forall c: nat, o | Reached(env, k.cptr, c) :: Converges(env, k.(cptr := c), o) <==> Converges(env', k'.(cptr := c), o)
  }

  lemma {:induction false} FirstOfSame(env: Env, k: Regs, env': Env, k': Regs, ps: seq<nat>, o: Outcome)
    requires ValidRegs(env, k) && ValidRegs(env', k') && env' == env.(code := env'.code) && SameAnswers(env, k, env', k')
    requires (forall p :: p in ps ==> Reached(env, k.cptr, p)) && forall j :: 0 <= j < |ps| ==> ps[j] <= env.End()
    ensures FirstOf(env, k, ps, o) <==> FirstOf(env', k', ps, o)
    decreases |ps|
  {
    hide Converges;
    if ps != [] {
      assert ps[0] in ps;
      FirstOfSame(env, k, env', k', ps[1..], o);
      assert Converges(env, k.(cptr := ps[0]), o) <==> Converges(env', k'.(cptr := ps[0]), o);
      assert Converges(env, k.(cptr := ps[0]), NoMatch) <==> Converges(env', k'.(cptr := ps[0]), NoMatch);
    }
  }

  /** The opcode in env and the general loop in env' have the same answers, unless the run starts inside a surrogate pair
      with an atom that matches there and may also be skipped. */
  lemma RewritePreservesMeaning(env: Env, r: Regs, env': Env, r': Regs, a: seq<Instr>, min: nat, max: nat, o: Outcome)
    requires ValidRegs(env, r) && ValidRegs(env', r') && env' == env.(code := env'.code) && r.cptr == r'.cptr
    requires SimpleLength(a) > 0 && min <= max && max > 0
    requires CodeAt(env.code, r.pc, SimpleQuantified(a, min, max))
    requires CodeAt(env'.code, r'.pc, Quantified(a, min, max, true, NeedCheckAdvance(a, true), []))
    requires SameAnswers(env, r.(pc := r.pc + ByteLength(SimpleQuantified(a, min, max))),
                         env', r'.(pc := r'.pc + ByteLength(Quantified(a, min, max, true, NeedCheckAdvance(a, true), []))))
    requires env.subject.Boundary(r.cptr) || min > 0 || AtomOn(env, a, r.cptr).None?
    ensures Converges(env, r, o) <==> Converges(env', r', o)
  {
    hide Decode, Converges, FirstOf, AtomOn, CodeAt, Trials, OpcodeTrials, ByteLength, SameAnswers;
    hide SimpleQuantified, Quantified, NeedCheckAdvance, SimpleLength;
    SimpleAdvances(a, true);
    OpcodeMeaning(env, r, a, min, max, o);
    SameTrials(env, a, r.cptr, min, max);
    GeneralMeaning(env', r', a, min, max, true, o);
    TrialsSame(env, env', a, r.cptr, min, Left(max, 0));
    TrialsReached(env, a, r.cptr, min, Left(max, 0));
    FirstOfSame(env, r.(pc := r.pc + ByteLength(SimpleQuantified(a, min, max))),
                env', r'.(pc := r'.pc + ByteLength(Quantified(a, min, max, true, false, []))),
                Trials(env, a, r.cptr, min, Left(max, 0)), o);
  }

  // The opcode.

  lemma {:induction false} BackByBoundary(s: Subject, p: nat, n: nat)
    requires p <= |s.units| && s.Boundary(p)
    ensures s.Boundary(BackBy(s, p, n))
    decreases n
  {
    if n > 0 && p > 0 {
      BackAlwaysBoundary(s, p);
      BackByBoundary(s, s.Back(p, 0), n - 1);
    }
  }

  /** From inside a surrogate pair, stepping back over the atom ends at the start of the pair. */
  lemma {:induction false} BackIntoPair(env: Env, a: seq<Instr>, c: nat)
    requires SimpleLength(a) > 0 && c <= env.End() && AtomOn(env, a, c).Some? && !env.subject.Boundary(c)
    ensures BackBy(env.subject, AtomOn(env, a, c).value, SimpleLength(a)) == c - 1
    decreases |a|
  {
    hide Accepts, Holds;
    if Consumes(a[0]) {
      var s, end := env.subject, env.End();
      var d := s.Next(c, end);
      var n, e := SimpleLength(a[1..]), AtomOn(env, a[1..], d).value;
      NextAlwaysBoundary(s, c);
      if n > 0 {
        BackOverAtom(env, a[1..], d);
      } else {
        NothingConsumed(env, a[1..], d);
      }
      BackBySplit(s, e, n, 1);
      assert BackBy(s, d, 1) == BackBy(s, s.Back(d, 0), 0) == s.Back(d, 0);
    } else {
      BackIntoPair(env, a[1..], c);
    }
  }

  /** The positions that the opcode tries: those of the general loop, but from inside a pair it gives up one unit too far back. */
  lemma OpcodeTrialsAre(env: Env, a: seq<Instr>, c: nat, min: nat, max: nat)
    requires SimpleLength(a) > 0 && c <= env.End() && max > 0
    ensures var ps := Trials(env, a, c, min, Left(max, 0));
            if !env.subject.Boundary(c) && min == 0 && |ps| > 1 then
              c > 0 && OpcodeTrials(env, a, c, min, max) == ps[..|ps| - 1] + [c - 1]
            else OpcodeTrials(env, a, c, min, max) == ps
  {
    hide AtomOn, SimpleLength;
    var ps, e := Trials(env, a, c, min, Left(max, 0)), AtomOn(env, a, c);
    SameTrials(env, a, c, min, max);
    if !env.subject.Boundary(c) && min == 0 && e.Some? {
      OvershootTrials(env, a, c, max);
    }
  }

  lemma OvershootTrials(env: Env, a: seq<Instr>, c: nat, max: nat)
    requires SimpleLength(a) > 0 && c <= env.End() && max > 0 && !env.subject.Boundary(c) && AtomOn(env, a, c).Some?
    ensures var ps := Trials(env, a, c, 0, Left(max, 0)); |ps| > 1 && c > 0 && OpcodeTrials(env, a, c, 0, max) == ps[..|ps| - 1] + [c - 1]
  {
    hide AtomOn, SimpleLength;
    var s, chars, r, e := env.subject, SimpleLength(a), Count(env, a, c, max, 0), AtomOn(env, a, c).value;
    BackIntoPair(env, a, c);
    RetriesToAtom(env, a, c, max);
    var ts := Trials(env, a, e, 0, Fewer(Left(max, 0)));
    assert Trials(env, a, c, 0, Left(max, 0)) == ts + [c] by { hide Count; }
    assert OpcodeTrials(env, a, c, 0, max) == ts + [c - 1] by {
      hide Trials, Count;
      RetriesExtend(s, r.1, r.0 - 1, chars);
    }
  }

  /** After the first repetition the retries are those of the general loop. */
  lemma RetriesToAtom(env: Env, a: seq<Instr>, c: nat, max: nat)
    requires SimpleLength(a) > 0 && c <= env.End() && max > 0 && AtomOn(env, a, c).Some?
    ensures var r, e := Count(env, a, c, max, 0), AtomOn(env, a, c).value;
            var ts := Trials(env, a, e, 0, Fewer(Left(max, 0)));
            r.0 > 0 && ts == Retries(env.subject, r.1, r.0 - 1, SimpleLength(a)) && ts[r.0 - 1] == e
  {
    hide AtomOn, SimpleLength;
    BackOverAtom(env, a, c);
    if max > 1 {
      CountRetraces(env, a, AtomOn(env, a, c).value, 1, max, 1);
    }
  }

  /** All positions of the general loop lie ahead, and c itself is left out if the atom must be repeated. */
  lemma {:induction false} TrialsAhead(env: Env, a: seq<Instr>, c: nat, min: nat, max: Option<nat>)
    requires SimpleLength(a) > 0 && c <= env.End()
    ensures forall p :: p in Trials(env, a, c, min, max) ==> p <= env.End() && Ahead(env, false, c, p, min > 0)
    decreases env.End() - c
  {
    hide AtomOn, SimpleLength;
    var e := AtomOn(env, a, c);
    if max != Some(0) && e.Some? {
      BackOverAtom(env, a, c);
      TrialsAhead(env, a, e.value, if min == 0 then 0 else min - 1, Fewer(max));
      assert Ahead(env, false, c, e.value, true);
    }
  }

  ghost function OpcodeFn(env: Env, a: seq<Instr>, min: nat, max: nat): Spot -> seq<Spot>
    requires SimpleLength(a) > 0
  {
    (x: Spot) => if ValidSpot(env, x) then Spots(OpcodeTrials(env, a, x.at, min, max), x.cap) else []
  }

  lemma OpcodeAhead(env: Env, a: seq<Instr>, c: nat, min: nat, max: nat, p: nat)
    requires SimpleLength(a) > 0 && max > 0 && c <= env.End() && p in OpcodeTrials(env, a, c, min, max)
    ensures p <= env.End() && Ahead(env, false, c, p, false)
  {
    hide SimpleLength, Trials, OpcodeTrials, Rank;
    OpcodeTrialsAre(env, a, c, min, max);
    TrialsAhead(env, a, c, min, Left(max, 0));
    if p !in Trials(env, a, c, min, Left(max, 0)) {
      PairStart(env, c);
    }
  }

  lemma SpotsIn(ps: seq<nat>, cap: Captures, y: Spot)
    requires y in Spots(ps, cap)
    ensures y.at in ps && y.cap == cap
  {
  }

  lemma OpcodeSound(env: Env, a: seq<Instr>, min: nat, max: nat)
    requires SimpleLength(a) > 0 && max > 0
    ensures Sound(env, false, OpcodeFn(env, a, min, max), false)
  {
    hide SimpleLength, OpcodeTrials, Ahead, Spots;
    var f := OpcodeFn(env, a, min, max);
    forall x | ValidSpot(env, x) ensures AllAhead(env, false, x.at, f(x), false) {
      forall y | y in f(x) ensures ValidSpot(env, y) && Ahead(env, false, x.at, y.at, false) {
        SpotsIn(OpcodeTrials(env, a, x.at, min, max), x.cap, y);
        OpcodeAhead(env, a, x.at, min, max, y.at);
      }
    }
  }

  lemma PairStart(env: Env, c: nat)
    requires c > 0 && !env.subject.Boundary(c) && c <= env.End()
    ensures Ahead(env, false, c, c - 1, true)
  {
  }

  lemma OpcodeStands(env: Env, a: seq<Instr>, min: nat, max: nat)
    requires SimpleLength(a) > 0 && max > 0
    ensures Stands(env, false, SimpleQuantified(a, min, max), OpcodeFn(env, a, min, max), false)
  {
    hide Converges, CodeAt, ByteLength, SimpleLength, FirstOf, First, OpcodeTrials, SimpleQuantified;
    var code, f := SimpleQuantified(a, min, max), OpcodeFn(env, a, min, max);
    forall r, o ensures MeansAt(env, code, f, r, o) {
      if CodeAt(env.code, r.pc, code) && ValidRegs(env, r) {
        ValidHere(env, r);
        OpcodeMeaning(env, r, a, min, max, o);
        FirstIsFirstOf(env, r.(pc := r.pc + ByteLength(code)), OpcodeTrials(env, a, r.cptr, min, max), o);
      }
    }
    MakeMeans(env, code, f);
    OpcodeSound(env, a, min, max);
  }
}
