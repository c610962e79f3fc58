/** From a character boundary, a term has the same results with the quantifier opcode and without it. */
module RegexOpcode {
  import opened RegexInstr
  import opened RegexVm
  import opened RegexEmit
  import opened RegexSyntax
  import opened RegexCompile
  import opened RegexResults
  import opened RegexText
  import opened RegexMeaning
  import opened RegexPieces
  import opened RegexRepeat
  import opened RegexPlain
  import opened RegexTerms

  /** A valid spot at a character boundary. */
  ghost predicate Fine(env: Env, x: Spot) {
    ValidSpot(env, x) && env.subject.Boundary(x.at)
  }

  /** Only the program text may differ. */
  ghost predicate Alike(env: Env, env': Env) {
    env' == env.(code := env'.code)
  }

  ghost predicate SameOnFine(env: Env, f: Spot -> seq<Spot>, g: Spot -> seq<Spot>) {
    forall x :: Fine(env, x) ==> f(x) == g(x)
  }

  lemma FineAhead(env: Env, back: bool, x: Spot, f: Spot -> seq<Spot>, strict: bool)
    requires Fine(env, x) && Sound(env, back, f, strict)
    ensures forall y :: y in f(x) ==> Fine(env, y)
  {
    hide ValidSpot, Rank;
    UseSound(env, back, f, strict, x);
    assert forall y :: y in f(x) ==> Ahead(env, back, x.at, y.at, strict);
  }

  /** One repetition and then what follows, on both sides. */
  lemma BindAgrees(env: Env, back: bool, x: Spot, f: Spot -> seq<Spot>, g: Spot -> seq<Spot>, strict: bool, h: Spot -> seq<Spot>, k: Spot -> seq<Spot>)
    requires Fine(env, x) && Sound(env, back, f, strict) && SameOnFine(env, f, g)
    requires forall y :: y in f(x) && Fine(env, y) ==> h(y) == k(y)
    ensures Bind(f(x), h) == Bind(g(x), k)
  {
    hide Fine, Sound;
    FineAhead(env, back, x, f, strict);
    BindSame(f(x), h, k);
  }

  lemma {:induction false} RoundsAgree(env: Env, back: bool, f: Spot -> seq<Spot>, g: Spot -> seq<Spot>, strict: bool, exact: bool, greedy: bool, k: nat, x: Spot)
    requires Fine(env, x) && Sound(env, back, f, strict) && SameOnFine(env, f, g)
    ensures Rounds(exact, f, greedy, k)(x) == Rounds(exact, g, greedy, k)(x)
    decreases k
  {
    hide Fine, Sound, Rounds, SameOnFine;
    RoundsUnfold(exact, f, greedy, k, x);
    RoundsUnfold(exact, g, greedy, k, x);
    if k > 0 {
      forall y | y in f(x) && Fine(env, y) ensures Rounds(exact, f, greedy, k - 1)(y) == Rounds(exact, g, greedy, k - 1)(y) {
        RoundsAgree(env, back, f, g, strict, exact, greedy, k - 1, y);
      }
      BindAgrees(env, back, x, f, g, strict, Rounds(exact, f, greedy, k - 1), Rounds(exact, g, greedy, k - 1));
    }
  }

  lemma {:induction false} AnyAgrees(env: Env, env': Env, back: bool, f: Spot -> seq<Spot>, g: Spot -> seq<Spot>, strict: bool, greedy: bool, x: Spot)
    requires Alike(env, env') && Fine(env, x) && Sound(env, back, f, strict) && SameOnFine(env, f, g)
    ensures AnyNumber(env, back, f, greedy, x) == AnyNumber(env', back, g, greedy, x)
    decreases Rank(env, back, x.at)
  {
    hide Fine, Sound, AnyNumber, SameOnFine;
    AnyUnfolds(env, back, f, greedy, x);
    AnyUnfolds(env', back, g, greedy, x);
    var h, k := AnyFrom(env, back, f, greedy, x.at), AnyFrom(env', back, g, greedy, x.at);
    forall y | y in f(x) && Fine(env, y) ensures h(y) == k(y) {
      if Rank(env, back, y.at) < Rank(env, back, x.at) {
        AnyAgrees(env, env', back, f, g, strict, greedy, y);
      }
    }
    BindAgrees(env, back, x, f, g, strict, h, k);
  }

  lemma AcceptedAgrees(env: Env, back: bool, f: Spot -> seq<Spot>, g: Spot -> seq<Spot>, strict: bool, greedy: bool)
    requires Sound(env, back, f, strict) && SameOnFine(env, f, g)
    ensures Sound(env, back, Accepted(f, greedy), false) && SameOnFine(env, Accepted(f, greedy), Accepted(g, greedy))
  {
    hide ValidSpot, Ahead;
    Weaker(env, back, f, strict, false);
    if greedy {
      forall x | ValidSpot(env, x) ensures AllAhead(env, back, x.at, Accepted(f, greedy)(x), false) {
        MovedAhead(env, back, x.at, f(x));
        Relax(env, back, x.at, Moved(x.at, f(x)));
      }
    }
  }

  lemma FurtherAgrees(env: Env, env': Env, back: bool, f: Spot -> seq<Spot>, g: Spot -> seq<Spot>, strict: bool, min: nat, max: nat, greedy: bool, x: Spot)
    requires Alike(env, env') && Fine(env, x) && Sound(env, back, f, strict) && SameOnFine(env, f, g)
    ensures Further(env, back, f, min, max, greedy, x) == Further(env', back, g, min, max, greedy, x)
  {
    hide Fine, Sound, AnyNumber, UpTo, SameOnFine, Accepted;
    var h, k := Accepted(f, greedy), Accepted(g, greedy);
    AcceptedAgrees(env, back, f, g, strict, greedy);
    if max == INT32_MAX {
      AnyAgrees(env, env', back, h, k, false, greedy, x);
    } else if max > min {
      RoundsAgree(env, back, h, k, false, false, greedy, max - min, x);
    }
  }

  lemma RepeatedAgrees(env: Env, env': Env, back: bool, f: Spot -> seq<Spot>, g: Spot -> seq<Spot>, strict: bool,
                       lo: nat, hi: nat, min: nat, max: nat, greedy: bool, x: Spot)
    requires Alike(env, env') && Fine(env, x) && Sound(env, back, f, strict) && SameOnFine(env, f, g)
    ensures Repeated(env, back, f, lo, hi, min, max, greedy, x) == Repeated(env', back, g, lo, hi, min, max, greedy, x)
  {
    hide Sound, Further, SameOnFine, Exactly;
    if min == 0 {
      FurtherAgrees(env, env', back, f, g, strict, 0, max, greedy, x.(cap := Forgotten(x.cap, lo, hi)));
    } else {
      hide Fine;
      var h, k := FurtherFn(env, back, f, min, max, greedy), FurtherFn(env', back, g, min, max, greedy);
      RepeatedIs(env, back, f, lo, hi, min, max, greedy, x);
      RepeatedIs(env', back, g, lo, hi, min, max, greedy, x);
      RoundsSound(env, back, f, strict, true, true, min);
      RoundsAgree(env, back, f, g, strict, true, true, min, x);
      var u := Rounds(true, f, true, min);
      FineAhead(env, back, x, u, strict);
      forall y | y in u(x) ensures h(y) == k(y) {
        FurtherAgrees(env, env', back, f, g, strict, min, max, greedy, y);
      }
      BindSame(u(x), h, k);
    }
  }

  lemma SameReference(env: Env, env': Env, idx: nat, back: bool, x: Spot)
    requires Alike(env, env') && ValidSpot(env, x)
    ensures ReferenceResults(env, idx, back, x) == ReferenceResults(env', idx, back, x)
  {
    hide StandsAgain, RefForward, RefBackward;
    if idx < env.captureCount && x.cap[2 * idx].Some? && x.cap[2 * idx + 1].Some? {
      var start, stop := x.cap[2 * idx].value, x.cap[2 * idx + 1].value;
      forall p: nat, q: nat | StandsAgain(env, back, start, stop, x.at, p) && StandsAgain(env, back, start, stop, x.at, q) ensures p == q {
        ForwardText(env, start, stop, x.at, p);
        ForwardText(env, start, stop, x.at, q);
        BackwardText(env, start, stop, x.at, p);
        BackwardText(env, start, stop, x.at, q);
      }
      forall q: nat ensures StandsAgain(env, back, start, stop, x.at, q) <==> StandsAgain(env', back, start, stop, x.at, q) {
        StandsAlike(env, env', back, start, stop, x.at, q);
      }
    }
  }

  lemma StandsAlike(env: Env, env': Env, back: bool, start: nat, stop: nat, c: nat, q: nat)
    requires Alike(env, env') && stop <= env.End() && c <= env.End()
    ensures StandsAgain(env, back, start, stop, c, q) <==> StandsAgain(env', back, start, stop, c, q)
  {
    hide Chars;
  }

  lemma SameLeaf(env: Env, env': Env, t: Term, back: bool, n: nat, x: Spot)
    requires Alike(env, env') && ValidSpot(env, x) && (t.Assertion? || t.Character? || t.Reference?)
    ensures Results(env, true, t, back, n, x) == Results(env', false, t, back, n, x)
  {
    hide ReferenceResults, TableSearch;
    if t.Reference? {
      SameReference(env, env', t.idx, back, x);
    }
  }

  lemma {:induction false} TermAgrees(env: Env, env': Env, t: Term, back: bool, n: nat, x: Spot)
    requires ParsedTerm(t) && LazyTermAdvances(t, back, n) && CapturesTerm(t, n) <= env.captureCount && Alike(env, env') && Fine(env, x)
    ensures Results(env, true, t, back, n, x) == Results(env', false, t, back, n, x)
    decreases t
  {
    hide ResultsIn, Repeated, CompileTerm, NeedCheckAdvance;
    match t
    case Group(d) => DisjunctionAgrees(env, env', d, back, n, x);
    case Capture(d) =>
      DisjunctionAgrees(env, env', d, back, n + 1, x.(cap := Noted(x.cap, 2 * n + Bit(back), x.at)));
    case Look(d, negated, behind) => DisjunctionAgrees(env, env', d, behind, n, x);
    case Quantifier(atom, min, max, greedy) =>
      var f, g := ResultsFn(env, true, atom, back, n), ResultsFn(env', false, atom, back, n);
      TermStands(env, true, atom, back, n);
      forall y | Fine(env, y) ensures f(y) == g(y) {
        TermAgrees(env, env', atom, back, n, y);
      }
      QuantifierAgrees(env, env', t, back, n, f, g, x);
    case _ => SameLeaf(env, env', t, back, n, x);
  }

  lemma QuantifierAgrees(env: Env, env': Env, t: Term, back: bool, n: nat, f: Spot -> seq<Spot>, g: Spot -> seq<Spot>, x: Spot)
    requires t.Quantifier? && Alike(env, env') && Fine(env, x)
    requires f == ResultsFn(env, true, t.atom, back, n) && g == ResultsFn(env', false, t.atom, back, n)
    requires SureStands(env, back, CompileTerm(t.atom, back, n), f) && SameOnFine(env, f, g)
    ensures Results(env, true, t, back, n, x) == Results(env', false, t, back, n, x)
  {
    hide Repeated, CompileTerm, NeedCheckAdvance, Means, Sound, Groups, Results, SameOnFine, SimpleLength;
    QuantifierResults(env, true, t, back, n, x);
    QuantifierResults(env', false, t, back, n, x);
    RepeatedAgrees(env, env', back, f, g, Sure(CompileTerm(t.atom, back, n)), n, n + Groups(t.atom), t.min, t.max, t.greedy, x);
  }

  lemma {:induction false} AlternativeAgrees(env: Env, env': Env, a: Alternative, back: bool, n: nat, x: Spot)
    requires ParsedAlternative(a) && LazyAlternativeAdvances(a, back, n) && CapturesAlternative(a, n) <= env.captureCount
    requires Alike(env, env') && Fine(env, x)
    ensures ResultsOf(env, true, a, back, n, x) == ResultsOf(env', false, a, back, n, x)
    decreases a
  {
    hide Results, Fine, CompileTerm, CompileAlternative, Means, Sound;
    if a.Then? {
      var m := CapturesAlternative(a.before, n);
      CapturesOf(a.before, n);
      var f, g := ResultsOfFn(env, true, a.before, back, n), ResultsFn(env, true, a.term, back, m);
      var f', g' := ResultsOfFn(env', false, a.before, back, n), ResultsFn(env', false, a.term, back, m);
      AlternativeStands(env, true, a.before, back, n);
      TermStands(env, true, a.term, back, m);
      forall y | Fine(env, y) ensures f(y) == f'(y) && g(y) == g'(y) {
        AlternativeAgrees(env, env', a.before, back, n, y);
        TermAgrees(env, env', a.term, back, m, y);
      }
      if back {
        BindAgrees(env, back, x, g, g', Sure(CompileTerm(a.term, back, m)), f, f');
        BindSame(g(x), f, (y: Spot) => ResultsOf(env, true, a.before, back, n, y));
        BindSame(g'(x), f', (y: Spot) => ResultsOf(env', false, a.before, back, n, y));
      } else {
        BindAgrees(env, back, x, f, f', Sure(CompileAlternative(a.before, back, n)), g, g');
        BindSame(f(x), g, (y: Spot) => Results(env, true, a.term, back, m, y));
        BindSame(f'(x), g', (y: Spot) => Results(env', false, a.term, back, m, y));
      }
    }
  }

  lemma {:induction false} DisjunctionAgrees(env: Env, env': Env, d: Disjunction, back: bool, n: nat, x: Spot)
    requires ParsedDisjunction(d) && LazyAdvances(d, back, n) && CapturesDisjunction(d, n) <= env.captureCount && Alike(env, env') && Fine(env, x)
    ensures ResultsIn(env, true, d, back, n, x) == ResultsIn(env', false, d, back, n, x)
    decreases d
  {
    hide ResultsOf, Fine;
    if d.Or? {
      CapturesIn(d.before, n);
      DisjunctionAgrees(env, env', d.before, back, n, x);
      AlternativeAgrees(env, env', d.alt, back, CapturesDisjunction(d.before, n), x);
    } else {
      AlternativeAgrees(env, env', d.alt, back, n, x);
    }
  }
}
