/** The code compiled from a term means its results. */
module RegexTerms {
  import opened RegexInstr
  import opened RegexVm
  import opened RegexSearch
  import opened RegexRefine
  import opened RegexEmit
  import opened RegexSimple
  import opened RegexGreedy
  import opened RegexSyntax
  import opened RegexCompile
  import opened RegexLayout
  import opened RegexResults
  import opened RegexMeaning
  import opened RegexPieces
  import opened RegexRepeat
  import opened RegexLoops
  import opened RegexPlain

  ghost function ResultsFn(env: Env, opcode: bool, t: Term, back: bool, n: nat): Spot -> seq<Spot> {
    (x: Spot) => Results(env, opcode, t, back, n, x)
  }

  ghost function ResultsOfFn(env: Env, opcode: bool, a: Alternative, back: bool, n: nat): Spot -> seq<Spot> {
    (x: Spot) => ResultsOf(env, opcode, a, back, n, x)
  }

  ghost function ResultsInFn(env: Env, opcode: bool, d: Disjunction, back: bool, n: nat): Spot -> seq<Spot> {
    (x: Spot) => ResultsIn(env, opcode, d, back, n, x)
  }

  /** The code stands for the spots, and none of them is where it started if the code is sure to advance. */
  ghost predicate SureStands(env: Env, back: bool, a: seq<Instr>, f: Spot -> seq<Spot>) {
    Stands(env, back, a, f, Sure(a))
  }

  lemma MakeSure(env: Env, back: bool, a: seq<Instr>, f: Spot -> seq<Spot>, g: Spot -> seq<Spot>, strict: bool)
    requires Stands(env, back, a, f, strict) && (Sure(a) ==> strict) && forall x :: ValidSpot(env, x) ==> f(x) == g(x)
    ensures SureStands(env, back, a, g)
  {
    hide Means, Sound, NeedCheckAdvance, ValidSpot;
    Renamed(env, back, a, f, g, strict);
    Weaker(env, back, g, strict, Sure(a));
  }

  // Terms.

  lemma {:induction false} TermStands(env: Env, opcode: bool, t: Term, back: bool, n: nat)
    requires ParsedTerm(t) && LazyTermAdvances(t, back, n) && CapturesTerm(t, n) <= env.captureCount
    ensures SureStands(env, back, AnyTerm(opcode, t, back, n), ResultsFn(env, opcode, t, back, n))
    decreases t
  {
    hide Stands, NeedCheckAdvance, PlainDisjunction, CompileDisjunction, TestHolds, CharacterResults, ReferenceResults, ValidSpot, ResultsIn;
    var code, f := AnyTerm(opcode, t, back, n), ResultsFn(env, opcode, t, back, n);
    match t
    case Assertion(test) =>
      TestStands(env, back, test);
      PassiveNeeds(test);
      MakeSure(env, back, code, TestFn(env, test), f, false);
    case Character(accept) =>
      if back {
        BackCharStands(env, accept);
      } else {
        CharStands(env, accept);
      }
      MakeSure(env, back, code, CharFn(env, accept, back), f, true);
    case Reference(idx) =>
      ReferenceStands(env, idx, back);
      PassiveNeeds(BackRef(idx, back));
      MakeSure(env, back, code, ReferenceFn(env, idx, back), f, false);
    case Group(d) =>
      DisjunctionStands(env, opcode, d, back, n);
      MakeSure(env, back, code, ResultsInFn(env, opcode, d, back, n), f, Sure(code));
    case Capture(d) =>
      DisjunctionStands(env, opcode, d, back, n + 1);
      SavedStands(env, opcode, d, back, n);
    case Look(d, negated, behind) =>
      DisjunctionStands(env, opcode, d, behind, n);
      LookedStands(env, opcode, t, back, n);
    case Quantifier(atom, min, max, greedy) =>
      if opcode && greedy && max > 0 && SimpleLength(CompileTerm(atom, back, n)) > 0 {
        OpcodeTerm(env, t, back, n);
      } else {
        TermStands(env, opcode, atom, back, n);
        GeneralTerm(env, opcode, t, back, n);
      }
  }

  lemma SavedStands(env: Env, opcode: bool, d: Disjunction, back: bool, n: nat)
    requires SureStands(env, back, AnyDisjunction(opcode, d, back, n + 1), ResultsInFn(env, opcode, d, back, n + 1)) && n < env.captureCount
    ensures SureStands(env, back, AnyTerm(opcode, Capture(d), back, n), ResultsFn(env, opcode, Capture(d), back, n))
  {
    hide Stands, NeedCheckAdvance, PlainDisjunction, CompileDisjunction, ResultsIn, ValidSpot;
    var a, f := AnyDisjunction(opcode, d, back, n + 1), ResultsInFn(env, opcode, d, back, n + 1);
    var s, e := [Save(n, back)], [Save(n, !back)];
    var open, close := SaveFn(env, 2 * n + Bit(back)), SaveFn(env, 2 * n + Bit(!back));
    SaveStands(env, back, n, back);
    SaveStands(env, back, n, !back);
    JoinedStands(env, back, s, open, false, a, f, Sure(a));
    JoinedStands(env, back, s + a, Joined(open, f), Sure(a), e, close, false);
    PassiveNeeds(s[0]);
    PassiveNeeds(e[0]);
    SureSaved(s, a, e);
    forall x | ValidSpot(env, x) ensures Joined(Joined(open, f), close)(x) == Results(env, opcode, Capture(d), back, n, x) {
      CaptureResults(env, opcode, d, back, n, x);
    }
    MakeSure(env, back, s + a + e, Joined(Joined(open, f), close), ResultsFn(env, opcode, Capture(d), back, n), Sure(a));
  }

  lemma CaptureResults(env: Env, opcode: bool, d: Disjunction, back: bool, n: nat, x: Spot)
    requires ValidSpot(env, x)
    ensures var open, close := SaveFn(env, 2 * n + Bit(back)), SaveFn(env, 2 * n + Bit(!back));
            Results(env, opcode, Capture(d), back, n, x) == Joined(Joined(open, ResultsInFn(env, opcode, d, back, n + 1)), close)(x)
  {
    hide ResultsIn, ValidSpot, Noted, Bind, Bit;
    var f, close := ResultsInFn(env, opcode, d, back, n + 1), SaveFn(env, 2 * n + Bit(!back));
    var open := x.(cap := Noted(x.cap, 2 * n + Bit(back), x.at));
    BindSingle(open, f);
    BindSame(f(open), close, (y: Spot) => [y.(cap := Noted(y.cap, 2 * n + Bit(!back), y.at))]);
  }

  lemma LookedStands(env: Env, opcode: bool, t: Term, back: bool, n: nat)
    requires t.Look? && SureStands(env, t.behind, AnyDisjunction(opcode, t.body, t.behind, n), ResultsInFn(env, opcode, t.body, t.behind, n))
    ensures SureStands(env, back, AnyTerm(opcode, t, back, n), ResultsFn(env, opcode, t, back, n))
  {
    hide Stands, NeedCheckAdvance, PlainDisjunction, CompileDisjunction, ResultsIn, ValidSpot;
    var a, f := AnyDisjunction(opcode, t.body, t.behind, n), ResultsInFn(env, opcode, t.body, t.behind, n);
    LookStands(env, back, t.behind, a, f, Sure(a), t.negated);
    NeedActive(LookCode(a, t.negated), 0, true);
    MakeSure(env, back, LookCode(a, t.negated), LookFn(f, t.negated), ResultsFn(env, opcode, t, back, n), false);
  }

  // Quantifiers.

  lemma QuantifierResults(env: Env, opcode: bool, t: Term, back: bool, n: nat, x: Spot)
    requires t.Quantifier? && ValidSpot(env, x)
    ensures Results(env, opcode, t, back, n, x)
            == var ys := Repeated(env, back, ResultsFn(env, opcode, t.atom, back, n), n, n + Groups(t.atom), t.min, t.max, t.greedy, x);
               if opcode && Overshoots(env, t, back, n, x.at) && |ys| > 1 then ys[..|ys| - 1] + [x.(at := x.at - 1)] else ys
  {
    hide Repeated, Overshoots, Groups, ValidSpot;
    assert ResultsFn(env, opcode, t.atom, back, n) == ((y: Spot) => Results(env, opcode, t.atom, back, n, y));
  }

  /** The quantifier without the opcode. */
  lemma GeneralTerm(env: Env, opcode: bool, t: Term, back: bool, n: nat)
    requires t.Quantifier? && ParsedTerm(t) && LazyTermAdvances(t, back, n) && CapturesTerm(t, n) <= env.captureCount
    requires !(opcode && t.greedy && t.max > 0 && SimpleLength(CompileTerm(t.atom, back, n)) > 0)
    requires SureStands(env, back, AnyTerm(opcode, t.atom, back, n), ResultsFn(env, opcode, t.atom, back, n))
    ensures SureStands(env, back, AnyTerm(opcode, t, back, n), ResultsFn(env, opcode, t, back, n))
  {
    hide Stands, NeedCheckAdvance, Quantified, Results, Repeated, ValidSpot, SimpleLength;
    var a, f, hi := AnyTerm(opcode, t.atom, back, n), ResultsFn(env, opcode, t.atom, back, n), CapturesTerm(t.atom, n);
    var check, reset := t.greedy && NeedCheckAdvance(a, true), ResetCode(n, hi);
    var code := Quantified(a, t.min, t.max, t.greedy, check, reset);
    assert code == AnyTerm(opcode, t, back, n);
    if t.max == INT32_MAX && !t.greedy {
      SureIsInert(CompileTerm(t.atom, back, n));
      InertTerm(t.atom, back, n);
    }
    QuantifiedStands(env, back, a, f, Sure(a), check, t.min, t.max, t.greedy, n, hi);
    if Sure(code) {
      SureQuantified(a, t.min, t.max, t.greedy, check, reset);
    }
    CapturesAre(t.atom, n);
    forall x | ValidSpot(env, x) ensures RepeatedFn(env, back, f, n, hi, t.min, t.max, t.greedy)(x) == Results(env, opcode, t, back, n, x) {
      QuantifierResults(env, opcode, t, back, n, x);
    }
    MakeSure(env, back, code, RepeatedFn(env, back, f, n, hi, t.min, t.max, t.greedy), ResultsFn(env, opcode, t, back, n), t.min > 0 && Sure(a));
  }

  /** The quantifier opcode. */
  lemma OpcodeTerm(env: Env, t: Term, back: bool, n: nat)
    requires t.Quantifier? && ParsedTerm(t) && t.greedy && t.max > 0 && SimpleLength(CompileTerm(t.atom, back, n)) > 0
    ensures SureStands(env, back, CompileTerm(t, back, n), ResultsFn(env, true, t, back, n))
  {
    hide Stands, NeedCheckAdvance, Results, ValidSpot, SimpleLength, OpcodeTrials, OpcodeFn;
    var a := CompileTerm(t.atom, back, n);
    var code := SimpleQuantified(a, t.min, t.max);
    NoGroups(env, t.atom, back, n);
    OpcodeStands(env, a, t.min, t.max);
    NeedActive(code, 0, true);
    forall x | ValidSpot(env, x) ensures OpcodeFn(env, a, t.min, t.max)(x) == Results(env, true, t, back, n, x) {
      OpcodeResults(env, t, n, x);
    }
    MakeSure(env, back, code, OpcodeFn(env, a, t.min, t.max), ResultsFn(env, true, t, back, n), false);
  }

  /** A simple atom that takes characters holds no captures, and it stands outside lookbehinds. */
  lemma NoGroups(env: Env, t: Term, back: bool, n: nat)
    requires ParsedTerm(t) && SimpleLength(CompileTerm(t, back, n)) > 0
    ensures !back && Groups(t) == 0 && CapturesTerm(t, n) == n
  {
    hide SimpleLength, CompileTerm, AtomFn, Groups, CapturesTerm;
    SimpleTerm(env, true, t, back, n, Spot(0, seq(2 * env.captureCount, _ => None)));
    CapturesAre(t, n);
  }

  lemma ResultsLikeAtom(env: Env, opcode: bool, t: Term, n: nat)
    requires ParsedTerm(t) && SimpleLength(CompileTerm(t, false, n)) > 0
    ensures LikeAtom(env, CompileTerm(t, false, n), ResultsFn(env, opcode, t, false, n))
  {
    hide SimpleLength, CompileTerm, AtomFn, Results, ValidSpot;
    forall x | ValidSpot(env, x) ensures Results(env, opcode, t, false, n, x) == AtomFn(env, CompileTerm(t, false, n))(x) {
      SimpleTerm(env, opcode, t, false, n, x);
    }
  }

  lemma OpcodeResults(env: Env, t: Term, n: nat, x: Spot)
    requires t.Quantifier? && ParsedTerm(t) && t.greedy && t.max > 0 && SimpleLength(CompileTerm(t.atom, false, n)) > 0 && ValidSpot(env, x)
    ensures OpcodeFn(env, CompileTerm(t.atom, false, n), t.min, t.max)(x) == Results(env, true, t, false, n, x)
  {
    hide SimpleLength, CompileTerm, Results, Repeated, OpcodeTrials, Trials, LikeAtom;
    var a, f := CompileTerm(t.atom, false, n), ResultsFn(env, true, t.atom, false, n);
    NoGroups(env, t.atom, false, n);
    ResultsLikeAtom(env, true, t.atom, n);
    QuantifierResults(env, true, t, false, n, x);
    RepeatedTrials(env, a, f, n, t.min, t.max, true, x);
    OpcodeTrialsAre(env, a, x.at, t.min, t.max);
    var ps := Trials(env, a, x.at, t.min, Left(t.max, 0));
    if Overshoots(env, t, false, n, x.at) && |ps| > 1 {
      assert Spots(ps[..|ps| - 1] + [x.at - 1], x.cap) == Spots(ps, x.cap)[..|ps| - 1] + [x.(at := x.at - 1)];
    }
  }

  // Alternatives and disjunctions.

  lemma {:induction false} AlternativeStands(env: Env, opcode: bool, a: Alternative, back: bool, n: nat)
    requires ParsedAlternative(a) && LazyAlternativeAdvances(a, back, n) && CapturesAlternative(a, n) <= env.captureCount
    ensures SureStands(env, back, AnyAlternative(opcode, a, back, n), ResultsOfFn(env, opcode, a, back, n))
    decreases a
  {
    hide Stands, CompileTerm, PlainTerm, NeedCheckAdvance, Results, ValidSpot;
    if a.Empty? {
      EmptyStands(env, back);
      assert NeedCheckAdvance([], true) by { NothingNeeds(); }
      MakeSure(env, back, [], One(), ResultsOfFn(env, opcode, a, back, n), false);
    } else {
      var m := CapturesAlternative(a.before, n);
      CapturesOf(a.before, n);
      AlternativeStands(env, opcode, a.before, back, n);
      TermStands(env, opcode, a.term, back, m);
      var x, f := AnyAlternative(opcode, a.before, back, n), ResultsOfFn(env, opcode, a.before, back, n);
      var y, g := AnyTerm(opcode, a.term, back, m), ResultsFn(env, opcode, a.term, back, m);
      var h := ResultsOfFn(env, opcode, a, back, n);
      if back {
        forall z ensures Joined(g, f)(z) == h(z) {
          BindSame(g(z), f, (w: Spot) => ResultsOf(env, opcode, a.before, back, n, w));
        }
        SureJoined(env, back, y, g, x, f, h);
      } else {
        forall z ensures Joined(f, g)(z) == h(z) {
          BindSame(f(z), g, (w: Spot) => Results(env, opcode, a.term, back, m, w));
        }
        SureJoined(env, back, x, f, y, g, h);
      }
    }
  }

  lemma NothingNeeds()
    ensures NeedCheckAdvance([], true)
  {
  }

  lemma SureJoined(env: Env, back: bool, a: seq<Instr>, f: Spot -> seq<Spot>, b: seq<Instr>, g: Spot -> seq<Spot>, h: Spot -> seq<Spot>)
    requires SureStands(env, back, a, f) && SureStands(env, back, b, g) && forall x :: Joined(f, g)(x) == h(x)
    ensures SureStands(env, back, a + b, h)
  {
    hide Stands, NeedCheckAdvance, ValidSpot;
    JoinedStands(env, back, a, f, Sure(a), b, g, Sure(b));
    if Sure(a + b) {
      NeedParts(a, b, true);
    }
    MakeSure(env, back, a + b, Joined(f, g), h, Sure(a) || Sure(b));
  }

  lemma {:induction false} DisjunctionStands(env: Env, opcode: bool, d: Disjunction, back: bool, n: nat)
    requires ParsedDisjunction(d) && LazyAdvances(d, back, n) && CapturesDisjunction(d, n) <= env.captureCount
    ensures SureStands(env, back, AnyDisjunction(opcode, d, back, n), ResultsInFn(env, opcode, d, back, n))
    decreases d
  {
    hide Stands, CompileAlternative, PlainAlternative, ByteLength, NeedCheckAdvance, ResultsOf, ValidSpot;
    var h := ResultsInFn(env, opcode, d, back, n);
    if d.Only? {
      AlternativeStands(env, opcode, d.alt, back, n);
      var code := AnyAlternative(opcode, d.alt, back, n);
      MakeSure(env, back, code, ResultsOfFn(env, opcode, d.alt, back, n), h, Sure(code));
    } else {
      var m := CapturesDisjunction(d.before, n);
      CapturesIn(d.before, n);
      DisjunctionStands(env, opcode, d.before, back, n);
      AlternativeStands(env, opcode, d.alt, back, m);
      var x, f := AnyDisjunction(opcode, d.before, back, n), ResultsInFn(env, opcode, d.before, back, n);
      var y, g := AnyAlternative(opcode, d.alt, back, m), ResultsOfFn(env, opcode, d.alt, back, m);
      ChoiceStands(env, back, x, f, Sure(x), y, g, Sure(y));
      NeedActive(Choice(x, y), 0, true);
      MakeSure(env, back, Choice(x, y), EitherFn(f, g), h, Sure(x) && Sure(y));
    }
  }

  // Quantifiers over simple atoms, whatever the pattern around them.

  /** The positions that a quantifier over a simple atom tries, in its order. */
  ghost function Tries(env: Env, a: seq<Instr>, min: nat, max: nat, greedy: bool, c: nat): seq<nat>
    requires SimpleLength(a) > 0 && c <= env.End()
  {
    var ps := InOrder(greedy, Trials(env, a, c, min, Left(max, 0)));
    if greedy && min == 0 && !env.subject.Boundary(c) && c > 0 && |ps| > 1 then ps[..|ps| - 1] + [c - 1] else ps
  }

  /** A quantifier over a simple atom goes on at the first of the positions Trials from which the rest matches, if greedy,
      and at the last of them, if lazy; only from inside a surrogate pair does the opcode give up one unit too far back. */
  lemma QuantifierOrder(env: Env, r: Regs, atom: Term, min: nat, max: nat, greedy: bool, n: nat, o: Outcome)
    requires ValidRegs(env, r) && ParsedTerm(Quantifier(atom, min, max, greedy)) && SimpleLength(CompileTerm(atom, false, n)) > 0
    requires CodeAt(env.code, r.pc, CompileTerm(Quantifier(atom, min, max, greedy), false, n))
    ensures var code := CompileTerm(Quantifier(atom, min, max, greedy), false, n);
            Converges(env, r, o) <==>
            FirstOf(env, r.(pc := r.pc + ByteLength(code)), Tries(env, CompileTerm(atom, false, n), min, max, greedy, r.cptr), o)
  {
    hide Converges, CodeAt, ByteLength, SimpleLength, FirstOf, Trials, OpcodeTrials, SimpleQuantified, Quantified, NeedCheckAdvance;
    var a, t := CompileTerm(atom, false, n), Quantifier(atom, min, max, greedy);
    NoGroups(env, atom, false, n);
    if greedy && max > 0 {
      assert CompileTerm(t, false, n) == SimpleQuantified(a, min, max);
      OpcodeMeaning(env, r, a, min, max, o);
      OpcodeTrialsAre(env, a, r.cptr, min, max);
    } else {
      SimpleAdvances(a, true);
      assert CompileTerm(t, false, n) == Quantified(a, min, max, greedy, false, []);
      GeneralMeaning(env, r, a, min, max, greedy, o);
      NeverTwice(env, a, r.cptr, min, max);
    }
  }

  lemma NeverTwice(env: Env, a: seq<Instr>, c: nat, min: nat, max: nat)
    requires SimpleLength(a) > 0 && c <= env.End()
    ensures max == 0 ==> |Trials(env, a, c, min, Left(max, 0))| <= 1
  {
    hide SimpleLength, AtomOn;
  }
}
