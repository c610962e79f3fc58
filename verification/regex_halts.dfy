/** Whole patterns: what a match answers, that it halts, and that it tries every start. */
module RegexHalts {
  import opened RegexInstr
  import opened RegexChars
  import opened RegexVm
  import opened RegexSearch
  import opened RegexRefine
  import opened RegexEmit
  import opened RegexGreedy
  import opened RegexSyntax
  import opened RegexCompile
  import opened RegexLayout
  import opened RegexResults
  import opened RegexMeaning
  import opened RegexPieces
  import opened RegexRepeat
  import opened RegexLoops
  import opened RegexPlain
  import opened RegexTerms
  import opened RegexOpcode

  // The loop over starting positions.

  /** c and all positions reached from it by stepping over characters. */
  function Starts(s: Subject, c: nat): (ps: seq<nat>)
    requires c <= |s.units|
    ensures |ps| > 0 && ps[0] == c && ps[|ps| - 1] == |s.units|
    ensures forall k :: 0 <= k < |ps| ==> ps[k] <= |s.units|
    decreases |s.units| - c
  {
    if c == |s.units| then [c]
    else [c] + Starts(s, s.Next(c, |s.units|))
  }

  lemma {:induction false} StartsStep(s: Subject, c: nat, k: nat)
    requires c <= |s.units| && k + 1 < |Starts(s, c)|
    ensures Starts(s, c)[k] < |s.units| && Starts(s, c)[k + 1] == s.Next(Starts(s, c)[k], |s.units|)
    decreases k
  {
    if k > 0 {
      StartsStep(s, s.Next(c, |s.units|), k - 1);
    }
  }

  ghost function StartsFn(env: Env, sticky: bool): Spot -> seq<Spot> {
    (x: Spot) => if sticky || x.at > env.End() then [x] else Spots(Starts(env.subject, x.at), x.cap)
  }

  lemma {:induction false} AnyStarts(env: Env, x: Spot)
    requires ValidSpot(env, x)
    ensures AnyNumber(env, false, CharFn(env, Any, false), false, x) == StartsFn(env, false)(x)
    decreases env.End() - x.at
  {
    hide AnyNumber, Starts, StartsFn, Rank;
    var f, h := CharFn(env, Any, false), AnyFrom(env, false, CharFn(env, Any, false), false, x.at);
    AnyUnfolds(env, false, f, false, x);
    StartsUnfold(env, x);
    if x.at < env.End() {
      var y := x.(at := env.subject.Next(x.at, env.End()));
      assert f(x) == [y];
      CharSound(env, Any);
      UseSound(env, false, f, true, x);
      assert y in f(x);
      BindSingle(y, h);
      AnyStarts(env, y);
    } else {
      assert f(x) == [];
    }
  }

  lemma StartsUnfold(env: Env, x: Spot)
    requires x.at <= env.End()
    ensures StartsFn(env, false)(x) == [x] + if x.at < env.End() then StartsFn(env, false)(x.(at := env.subject.Next(x.at, env.End()))) else []
  {
    var s, c := env.subject, x.at;
    assert Spots([c], x.cap) == [x];
    if c < env.End() {
      SpotsAdd([c], Starts(s, s.Next(c, env.End())), x.cap);
    }
  }

  lemma PreludeStands(env: Env, sticky: bool)
    ensures Stands(env, false, Prelude(sticky), StartsFn(env, sticky), false)
  {
    hide Stands, AnyNumber, Starts, ValidSpot;
    if sticky {
      EmptyStands(env, false);
      Renamed(env, false, [], One(), StartsFn(env, true), false);
    } else {
      var a, f := [Any], CharFn(env, Any, false);
      assert ByteLength(a) == 1;
      assert Star(a, false, false) == [Split(6, false)] + [Any] + [Goto(-11)] == Prelude(false);
      CharStands(env, Any);
      assert Checked(a, false) == a;
      StarStands(env, false, a, false, f, false);
      forall x | ValidSpot(env, x) ensures AnyFn(env, false, f, false)(x) == StartsFn(env, false)(x) {
        AnyStarts(env, x);
      }
      Renamed(env, false, Prelude(false), AnyFn(env, false, f, false), StartsFn(env, false), false);
    }
  }

  // What a match answers.

  /** The spots where a match can end: at each start in turn, the results of the pattern as capture group 0. */
  ghost function Matches(env: Env, opcode: bool, p: Disjunction, sticky: bool, x: Spot): seq<Spot> {
    Bind(StartsFn(env, sticky)(x), ResultsFn(env, opcode, Capture(p), false, 0))
  }

  /** The first of them. */
  ghost function Answer(env: Env, opcode: bool, p: Disjunction, sticky: bool, x: Spot): Outcome {
    var ys := Matches(env, opcode, p, sticky, x);
    if ys == [] then NoMatch else Matched(ys[0].cap)
  }

  function AnyPattern(opcode: bool, p: Disjunction, sticky: bool): seq<Instr> {
    if opcode then CompilePattern(p, sticky) else PlainPattern(p, sticky)
  }

  lemma PatternIsCapture(opcode: bool, p: Disjunction, sticky: bool)
    ensures AnyPattern(opcode, p, sticky) == Prelude(sticky) + AnyTerm(opcode, Capture(p), false, 0) + [Match]
  {
    hide CompileDisjunction, PlainDisjunction, Prelude;
    Regroup(Prelude(sticky), [Save(0, false)], AnyDisjunction(opcode, p, false, 1), [Save(0, true)], [Match]);
  }

  lemma Regroup(a: seq<Instr>, b: seq<Instr>, c: seq<Instr>, d: seq<Instr>, e: seq<Instr>)
    ensures a + b + c + d + e == a + (b + c + d + e) == a + (b + c + d) + e
  {
  }

  /** A compiled pattern answers what it means, from every position, with every captures and stack. */
  lemma PatternMeans(env: Env, opcode: bool, p: Disjunction, sticky: bool, r: Regs, o: Outcome)
    requires ParsedDisjunction(p) && LazyAdvances(p, false, 1) && CapturesDisjunction(p, 1) <= env.captureCount
    requires CodeAt(env.code, r.pc, AnyPattern(opcode, p, sticky)) && ValidRegs(env, r)
    ensures Converges(env, r, o) <==> o == Answer(env, opcode, p, sticky, Here(r))
  {
    hide Means, Sound, Converges, First, CodeAt, ByteLength, Prelude, AnyPattern, ValidSpot, Starts, Results, AnyTerm, Decode, NeedCheckAdvance, StartsFn;
    var a, b, f, g := Prelude(sticky), AnyTerm(opcode, Capture(p), false, 0), StartsFn(env, sticky), ResultsFn(env, opcode, Capture(p), false, 0);
    PatternIsCapture(opcode, p, sticky);
    CodeAtSplit(env.code, r.pc, a + b, [Match]);
    OneAt(env.code, r.pc + ByteLength(a + b), Match);
    PreludeStands(env, sticky);
    TermStands(env, opcode, Capture(p), false, 0);
    JoinedStands(env, false, a, f, false, b, g, Sure(b));
    ValidHere(env, r);
    UseMeans(env, a + b, Joined(f, g), r.pc, Here(r), r.stack, o);
    UseSound(env, false, Joined(f, g), Sure(b), Here(r));
    FirstMatch(env, r.pc + ByteLength(a + b), r.stack, Joined(f, g)(Here(r)), o);
  }

  /** Matching halts. */
  lemma PatternHalts(env: Env, p: Disjunction, sticky: bool, r: Regs) returns (o: Outcome)
    requires ParsedDisjunction(p) && LazyAdvances(p, false, 1) && CapturesDisjunction(p, 1) <= env.captureCount
    requires CodeAt(env.code, r.pc, CompilePattern(p, sticky)) && ValidRegs(env, r)
    ensures o == Answer(env, true, p, sticky, Here(r)) && Converges(env, r, o) && Halts(env, r, o)
  {
    hide Converges, Halts, CodeAt, CompilePattern, ValidRegs, Answer;
    o := Answer(env, true, p, sticky, Here(r));
    PatternMeans(env, true, p, sticky, r, o);
    MachineIsSearch(env, r, o);
  }

  /** The quantifier opcode changes no answer: from a character boundary, the compiled pattern and the pattern compiled
      with general loops match alike. */
  lemma OpcodePreservesMeaning(env: Env, env': Env, p: Disjunction, sticky: bool, r: Regs, r': Regs, o: Outcome)
    requires ParsedDisjunction(p) && LazyAdvances(p, false, 1) && CapturesDisjunction(p, 1) <= env.captureCount && env' == env.(code := env'.code)
    requires CodeAt(env.code, r.pc, CompilePattern(p, sticky)) && CodeAt(env'.code, r'.pc, PlainPattern(p, sticky))
    requires ValidRegs(env, r) && ValidRegs(env', r') && r'.cptr == r.cptr && r'.capture == r.capture && env.subject.Boundary(r.cptr)
    ensures Converges(env, r, o) <==> Converges(env', r', o)
  {
    hide Converges, CodeAt, CompilePattern, PlainPattern, Answer;
    PatternMeans(env, true, p, sticky, r, o);
    PatternMeans(env', false, p, sticky, r', o);
    ValidHere(env, r);
    AnswersAgree(env, env', p, sticky, Here(r));
  }

  lemma AnswersAgree(env: Env, env': Env, p: Disjunction, sticky: bool, x: Spot)
    requires ParsedDisjunction(p) && LazyAdvances(p, false, 1) && CapturesDisjunction(p, 1) <= env.captureCount
    requires Alike(env, env') && Fine(env, x)
    ensures Answer(env, true, p, sticky, x) == Answer(env', false, p, sticky, x)
  {
    hide Results, Starts, Fine, Sound, Means, Spots, Prelude;
    var f, g, xs := ResultsFn(env, true, Capture(p), false, 0), ResultsFn(env', false, Capture(p), false, 0), StartsFn(env, sticky)(x);
    PreludeStands(env, sticky);
    FineAhead(env, false, x, StartsFn(env, sticky), false);
    forall y | y in xs ensures f(y) == g(y) {
      TermAgrees(env, env', Capture(p), false, 0, y);
    }
    BindSame(xs, f, g);
  }

  // A pattern that is not sticky tries every start, whatever the pattern.

  /** The search comes to o from the k-th of the positions, and to no match from those before. */
  ghost predicate FoundAt(env: Env, s: Regs, ps: seq<nat>, k: nat, o: Outcome)
    requires ValidRegs(env, s) && forall j :: 0 <= j < |ps| ==> ps[j] <= env.End()
  {
    k < |ps| && Converges(env, s.(cptr := ps[k]), o) && forall j :: 0 <= j < k ==> Converges(env, s.(cptr := ps[j]), NoMatch)
  }

  /** It comes to no match from all of them. */
  ghost predicate FoundNowhere(env: Env, s: Regs, ps: seq<nat>)
    requires ValidRegs(env, s) && forall j :: 0 <= j < |ps| ==> ps[j] <= env.End()
  {
    forall k :: 0 <= k < |ps| ==> Converges(env, s.(cptr := ps[k]), NoMatch)
  }

  lemma {:induction false} FirstFound(env: Env, s: Regs, ps: seq<nat>, o: Outcome)
    requires ValidRegs(env, s) && forall j :: 0 <= j < |ps| ==> ps[j] <= env.End()
    ensures o != NoMatch ==> (FirstOf(env, s, ps, o) <==> exists k: nat :: FoundAt(env, s, ps, k, o))
    ensures FirstOf(env, s, ps, NoMatch) <==> FoundNowhere(env, s, ps)
    decreases |ps|
  {
    hide Converges;
    if ps != [] {
      FirstFound(env, s, ps[1..], o);
      if o != NoMatch {
        LaterFound(env, s, ps, o);
      }
    }
  }

  lemma LaterFound(env: Env, s: Regs, ps: seq<nat>, o: Outcome)
    requires ValidRegs(env, s) && (forall j :: 0 <= j < |ps| ==> ps[j] <= env.End()) && ps != []
    ensures (exists k: nat :: FoundAt(env, s, ps, k, o)) <==>
            Converges(env, s.(cptr := ps[0]), o)
            || (Converges(env, s.(cptr := ps[0]), NoMatch) && exists k: nat :: FoundAt(env, s, ps[1..], k, o))
  {
    hide Converges;
    if k: nat :| FoundAt(env, s, ps, k, o) {
      if k > 0 {
        assert FoundAt(env, s, ps[1..], k - 1, o);
      }
    }
    if Converges(env, s.(cptr := ps[0]), o) {
      assert FoundAt(env, s, ps, 0, o);
    }
    if Converges(env, s.(cptr := ps[0]), NoMatch) {
      if k: nat :| FoundAt(env, s, ps[1..], k, o) {
        assert FoundAt(env, s, ps, k + 1, o);
      }
    }
  }

  /** The sticky program s is the tail of the one that is not sticky. That one answers what s answers from the first start
      from which s does not fail, and fails if s fails from all of them. */
  lemma TriesEveryStart(env: Env, p: Disjunction, r: Regs, s: Regs, o: Outcome)
    requires ValidRegs(env, r) && CodeAt(env.code, r.pc, CompilePattern(p, false))
    requires s == r.(pc := s.pc) && s.pc + ByteLength(CompilePattern(p, true)) == r.pc + ByteLength(CompilePattern(p, false))
    ensures CodeAt(env.code, s.pc, CompilePattern(p, true))
    ensures o != NoMatch ==> (Converges(env, r, o) <==> exists k: nat :: FoundAt(env, s, Starts(env.subject, r.cptr), k, o))
    ensures Converges(env, r, NoMatch) <==> FoundNowhere(env, s, Starts(env.subject, r.cptr))
  {
    hide Converges, CodeAt, ByteLength, First, FirstOf, Means, Sound, CompileDisjunction, Prelude, Spots, FoundAt, FoundNowhere, Starts;
    var a, b, ps := Prelude(false), CompilePattern(p, true), Starts(env.subject, r.cptr);
    PreludeTail(p);
    CodeAtSplit(env.code, r.pc, a, b);
    ByteLengthAdd(a, b);
    PreludeStands(env, false);
    ValidHere(env, r);
    UseMeans(env, a, StartsFn(env, false), r.pc, Here(r), r.stack, o);
    UseMeans(env, a, StartsFn(env, false), r.pc, Here(r), r.stack, NoMatch);
    FirstIsFirstOf(env, s, ps, o);
    FirstIsFirstOf(env, s, ps, NoMatch);
    FirstFound(env, s, ps, o);
  }

  lemma PreludeTail(p: Disjunction)
    ensures CompilePattern(p, false) == Prelude(false) + CompilePattern(p, true)
  {
    hide CompileDisjunction;
    var s, d, e := [Save(0, false)], CompileDisjunction(p, false, 1), [Save(0, true)];
    assert Prelude(true) + s + d + e + [Match] == s + d + e + [Match];
    Regroup(Prelude(false), s, d, e, [Match]);
  }

  // Without that condition a match may run forever.

  /** A lazy loop over nothing goes on as what follows it, except that it never comes to fail. */
  lemma EmptyLazyLoop(env: Env, r: Regs, o: Outcome)
    requires ValidRegs(env, r) && CodeAt(env.code, r.pc, Star([], false, false))
    ensures Converges(env, r, o) <==> o != NoMatch && Converges(env, r.(pc := r.pc + 10), o)
  {
    hide Decode, CodeAt, Search;
    var done := r.(pc := r.pc + 10);
    StarRing(env.code, r.pc, [], false, false);
    if o != NoMatch && Converges(env, done, o) {
      SplitStep(env, r, 5, false, o);
    }
    if Converges(env, r, o) {
      var f: nat :| Search(env, f, r) == o;
      LoopsForever(env, r, f);
    }
  }

  lemma {:induction false} LoopsForever(env: Env, r: Regs, f: nat)
    requires ValidRegs(env, r) && RingAt(env.code, Ring(r.pc, r.pc + 5, r.pc + 10), [], false)
    ensures var o := Search(env, f, r); o.OutOfFuel? || (o != NoMatch && Converges(env, r.(pc := r.pc + 10), o))
  {
    hide Decode;
    if f > 0 {
      var back := r.(pc := r.pc + 5);
      if f > 1 {
        LoopsForever(env, r, f - 2);
        assert Search(env, f - 1, back) == Search(env, f - 2, r);
      }
      var o := Search(env, f - 1, r.(pc := r.pc + 10));
    }
  }

  /** The pattern (?:)*?b */
  const EMPTY_LAZY := Only(Then(Then(Empty, Quantifier(Group(Only(Empty)), 0, INT32_MAX, false)), Character(Char(98))))

  lemma EmptyLazyCode()
    ensures ParsedDisjunction(EMPTY_LAZY) && !LazyAdvances(EMPTY_LAZY, false, 1)
    ensures CompileDisjunction(EMPTY_LAZY, false, 1) == Star([], false, false) + [Char(98)]
  {
    var nothing := Group(Only(Empty));
    var q := Quantifier(nothing, 0, INT32_MAX, false);
    assert CompileTerm(nothing, false, 1) == [] && CapturesTerm(nothing, 1) == 1;
    assert CompileTerm(q, false, 1) == Star([], false, false);
    assert CompileAlternative(Then(Empty, q), false, 1) == Star([], false, false);
    assert !LazyTermAdvances(q, false, 1);
    assert !LazyAlternativeAdvances(Then(Empty, q), false, 1);
  }

  /** From r on: save the start, match (?:)*?b, save the end. */
  lemma EmptyLazyRun(env: Env, r: Regs, o: Outcome)
    requires ValidRegs(env, r) && env.captureCount > 0
    requires CodeAt(env.code, r.pc, LazyBody())
    ensures Converges(env, r, o) ==> o.Matched? && BeforeB(env, r.cptr)
    ensures BeforeB(env, r.cptr) ==> exists cap :: Converges(env, r, Matched(cap))
  {
    hide Decode, CodeAt, Converges, Star;
    EmptyLazyLayout(env.code, r.pc);
    var r1 := Exec(env, Save(0, false), r).regs;
    var r2 := r1.(pc := r1.pc + 10);
    LocalStep(env, r, Save(0, false), o);
    EmptyLazyLoop(env, r1, o);
    LocalStep(env, r2, Char(98), o);
    if BeforeB(env, r.cptr) {
      var r3 := Exec(env, Char(98), r2).regs;
      var r4 := Exec(env, Save(0, true), r3).regs;
      LocalStep(env, r3, Save(0, true), o);
      MatchConverges(env, r4.pc, r4.stack, Here(r4), o);
      var m := Matched(r4.capture);
      MatchConverges(env, r4.pc, r4.stack, Here(r4), m);
      LocalStep(env, r3, Save(0, true), m);
      LocalStep(env, r2, Char(98), m);
      EmptyLazyLoop(env, r1, m);
      LocalStep(env, r, Save(0, false), m);
    }
  }

  predicate BeforeB(env: Env, c: nat) {
    c < env.End() && env.Fold(env.subject.CharAt(c, env.End())) == 98
  }

  lemma EmptyLazyLayout(code: seq<Byte>, pc: nat)
    requires CodeAt(code, pc, LazyBody())
    ensures Decode(code, pc) == Some(Save(0, false)) && CodeAt(code, pc + 2, Star([], false, false))
    ensures Decode(code, pc + 12) == Some(Char(98)) && Decode(code, pc + 15) == Some(Save(0, true)) && Decode(code, pc + 17) == Some(Match)
  {
    hide Decode, CodeAt, ByteLength, Star;
    var s, l, b, e := [Save(0, false)], Star([], false, false), [Char(98)], [Save(0, true)];
    CodeAtSplit(code, pc, s + (l + b) + e, [Match]);
    CodeAtSplit(code, pc, s + (l + b), e);
    CodeAtSplit(code, pc, s, l + b);
    CodeAtSplit(code, pc + 2, l, b);
    ByteLengthAdd(s + (l + b), e);
    ByteLengthAdd(s, l + b);
    ByteLengthAdd(l, b);
    OneAt(code, pc, s[0]);
    OneAt(code, pc + 12, b[0]);
    OneAt(code, pc + 15, e[0]);
    OneAt(code, pc + 17, Match);
    EmptyStarLength();
  }

  lemma EmptyStarLength()
    ensures ByteLength(Star([], false, false)) == 10
  {
    var s, g := [Split(5, false)], [Goto(-10)];
    assert Star([], false, false) == s + [] + g == s + g;
    ByteLengthAdd(s, g);
  }

  function LazyBody(): seq<Instr> {
    [Save(0, false)] + (Star([], false, false) + [Char(98)]) + [Save(0, true)] + [Match]
  }

  lemma EmptyLazyPattern(sticky: bool)
    ensures CompilePattern(EMPTY_LAZY, sticky) == Prelude(sticky) + LazyBody()
  {
    hide CompileDisjunction, Prelude, Star;
    EmptyLazyCode();
    Regroup(Prelude(sticky), [Save(0, false)], Star([], false, false) + [Char(98)], [Save(0, true)], [Match]);
  }

  lemma StartsAlike(env: Env, sticky: bool, r: Regs, start: Regs, o: Outcome)
    requires ValidRegs(env, r) && CodeAt(env.code, r.pc, Prelude(sticky)) && start == r.(pc := r.pc + ByteLength(Prelude(sticky)))
    requires !Converges(env, start, NoMatch)
    ensures Converges(env, r, o) <==> Converges(env, start, o)
  {
    hide Converges, CodeAt, ValidRegs;
    if sticky {
      assert start == r;
    } else {
      PreludeFirst(env, r, start, o);
    }
  }

  /** Matching (?:)*?b halts if and only if b comes at once; elsewhere it neither matches nor fails, whatever the subject. */
  lemma EmptyLazyHalts(env: Env, sticky: bool, r: Regs)
    requires ValidRegs(env, r) && env.captureCount > 0 && CodeAt(env.code, r.pc, CompilePattern(EMPTY_LAZY, sticky))
    ensures (exists o :: Converges(env, r, o)) <==> BeforeB(env, r.cptr)
  {
    hide Decode, CodeAt, Converges, Star, BeforeB, Prelude, CompilePattern, ByteLength, ValidRegs;
    EmptyLazyPattern(sticky);
    CodeAtSplit(env.code, r.pc, Prelude(sticky), LazyBody());
    var start := r.(pc := r.pc + ByteLength(Prelude(sticky)));
    SameValid(env, r, start);
    EmptyLazyRun(env, start, NoMatch);
    if BeforeB(env, r.cptr) {
      var cap :| Converges(env, start, Matched(cap));
      StartsAlike(env, sticky, r, start, Matched(cap));
    }
    if o :| Converges(env, r, o) {
      StartsAlike(env, sticky, r, start, o);
      EmptyLazyRun(env, start, o);
    }
  }

  lemma SameValid(env: Env, r: Regs, r': Regs)
    requires ValidRegs(env, r) && r' == r.(pc := r'.pc)
    ensures ValidRegs(env, r')
  {
  }

  lemma PreludeFirst(env: Env, r: Regs, start: Regs, o: Outcome)
    requires ValidRegs(env, r) && CodeAt(env.code, r.pc, Prelude(false)) && start == r.(pc := r.pc + ByteLength(Prelude(false)))
    requires !Converges(env, start, NoMatch)
    ensures Converges(env, r, o) <==> Converges(env, start, o)
  {
    hide Decode, Converges;
    ThreeAt(env.code, r.pc, Split(6, false), Any, Goto(-11));
    SplitStep(env, r, 6, false, o);
  }
}
