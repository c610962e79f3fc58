/** The reference compiler without the quantifier opcode, and code that is sure to advance. */
module RegexPlain {
  import opened RegexInstr
  import opened RegexVm
  import opened RegexEmit
  import opened RegexSimple
  import opened RegexSyntax
  import opened RegexCompile
  import opened RegexLayout
  import opened RegexResults
  import opened RegexPieces
  import opened RegexRepeat
  import opened RegexLoops

  // The same code, with general loops instead of the quantifier opcode.

  function PlainTerm(t: Term, back: bool, n: nat): seq<Instr> {
    match t
    case Group(d) => PlainDisjunction(d, back, n)
    case Capture(d) => [Save(n, back)] + PlainDisjunction(d, back, n + 1) + [Save(n, !back)]
    case Look(d, negated, behind) => LookCode(PlainDisjunction(d, behind, n), negated)
    case Quantifier(atom, min, max, greedy) => GeneralAtom(PlainTerm(atom, back, n), min, max, greedy, n, CapturesTerm(atom, n))
    case _ => CompileTerm(t, back, n)
  }

  function PlainAlternative(a: Alternative, back: bool, n: nat): seq<Instr> {
    if a.Empty? then []
    else
      var before := PlainAlternative(a.before, back, n);
      var term := PlainTerm(a.term, back, CapturesAlternative(a.before, n));
      if back then term + before else before + term
  }

  function PlainDisjunction(d: Disjunction, back: bool, n: nat): seq<Instr> {
    if d.Only? then PlainAlternative(d.alt, back, n)
    else Choice(PlainDisjunction(d.before, back, n), PlainAlternative(d.alt, back, CapturesDisjunction(d.before, n)))
  }

  function PlainPattern(d: Disjunction, sticky: bool): seq<Instr> {
    Prelude(sticky) + [Save(0, false)] + PlainDisjunction(d, false, 1) + [Save(0, true)] + [Match]
  }

  /** The code with the opcode or without it. */
  function AnyTerm(opcode: bool, t: Term, back: bool, n: nat): seq<Instr> {
    if opcode then CompileTerm(t, back, n) else PlainTerm(t, back, n)
  }

  function AnyAlternative(opcode: bool, a: Alternative, back: bool, n: nat): seq<Instr> {
    if opcode then CompileAlternative(a, back, n) else PlainAlternative(a, back, n)
  }

  function AnyDisjunction(opcode: bool, d: Disjunction, back: bool, n: nat): seq<Instr> {
    if opcode then CompileDisjunction(d, back, n) else PlainDisjunction(d, back, n)
  }

  // The condition: re_need_check_advance does not ask for a check on the atom of an unbounded lazy quantifier.

  predicate LazyTermAdvances(t: Term, back: bool, n: nat) {
    match t
    case Group(d) => LazyAdvances(d, back, n)
    case Capture(d) => LazyAdvances(d, back, n + 1)
    case Look(d, _, behind) => LazyAdvances(d, behind, n)
    case Quantifier(atom, _, max, greedy) =>
      LazyTermAdvances(atom, back, n) && (!greedy && max == INT32_MAX ==> Sure(CompileTerm(atom, back, n)))
    case _ => true
  }

  predicate LazyAlternativeAdvances(a: Alternative, back: bool, n: nat) {
    a.Then? ==> LazyAlternativeAdvances(a.before, back, n) && LazyTermAdvances(a.term, back, CapturesAlternative(a.before, n))
  }

  predicate LazyAdvances(d: Disjunction, back: bool, n: nat) {
    if d.Only? then LazyAlternativeAdvances(d.alt, back, n)
    else LazyAdvances(d.before, back, n) && LazyAlternativeAdvances(d.alt, back, CapturesDisjunction(d.before, n))
  }

  /** The code is sure to advance: every path through it takes a character. */
  predicate Sure(a: seq<Instr>) {
    !NeedCheckAdvance(a, true)
  }

  lemma {:induction false} NeedParts(a: seq<Instr>, b: seq<Instr>, sofar: bool)
    requires !NeedCheckAdvance(a + b, sofar)
    ensures !NeedCheckAdvance(a, sofar) || (sofar && !NeedCheckAdvance(b, true))
    decreases |a|
  {
    if a == [] {
      assert a + b == b;
    } else {
      assert (a + b)[1..] == a[1..] + b;
      NeedParts(a[1..], b, sofar && !Consumes(a[0]));
    }
  }

  lemma {:induction false} NeedActive(a: seq<Instr>, k: nat, sofar: bool)
    requires k < |a| && !Consumes(a[k]) && !Passive(a[k])
    ensures NeedCheckAdvance(a, sofar)
    decreases |a|
  {
    if k > 0 {
      NeedActive(a[1..], k - 1, sofar && !Consumes(a[0]));
    }
  }

  /** Of the general quantifiers, only the one that repeats exactly once is sure to advance. */
  lemma SureQuantified(a: seq<Instr>, min: nat, max: nat, greedy: bool, check: bool, reset: seq<Instr>)
    requires min <= max && |reset| <= 1 && (forall i :: i in reset ==> i.SaveReset?)
    requires Sure(Quantified(a, min, max, greedy, check, reset))
    ensures min == 1 && max == 1 && Sure(a)
  {
    hide NeedCheckAdvance, Checked, ByteLength;
    var code := Quantified(a, min, max, greedy, check, reset);
    var k := if min == 0 then |reset| + (if max > 1 && max != INT32_MAX then 1 else 0)
             else if min > 1 then 1 + |a|
             else |a| + (if max == INT32_MAX then 0 else 1);
    if min == 0 && max == 0 {
      assert code == reset;
      ResetNeeds(reset);
    } else if !(min == 1 && max == 1) {
      NeedActive(code, k, true);
    } else {
      assert code == a;
    }
  }

  lemma ResetNeeds(reset: seq<Instr>)
    requires |reset| <= 1 && (forall i :: i in reset ==> i.SaveReset?)
    ensures NeedCheckAdvance(reset, true)
  {
    if reset != [] {
      assert reset[0] in reset && reset[1..] == [];
    }
  }

  lemma PassiveNeeds(i: Instr)
    requires Passive(i)
    ensures !Consumes(i) && !Sure([i])
  {
    assert [i][1..] == [] && NeedCheckAdvance([], true);
  }

  lemma SureSaved(s: seq<Instr>, a: seq<Instr>, e: seq<Instr>)
    requires !Sure(s) && !Sure(e)
    ensures Sure(s + a + e) ==> Sure(a)
  {
    hide NeedCheckAdvance;
    if Sure(s + a + e) {
      NeedParts(s + a, e, true);
      NeedParts(s, a, true);
    }
  }

  // Code without jumps is the same with and without the opcode.

  ghost predicate Inert(a: seq<Instr>) {
    forall i :: i in a ==> Consumes(i) || Passive(i)
  }

  lemma SureIsInert(a: seq<Instr>)
    requires Sure(a)
    ensures Inert(a)
  {
    hide NeedCheckAdvance;
    forall i | i in a ensures Consumes(i) || Passive(i) {
      var k :| 0 <= k < |a| && a[k] == i;
      if !Consumes(i) && !Passive(i) {
        NeedActive(a, k, true);
      }
    }
  }

  lemma InertPart(a: seq<Instr>, b: seq<Instr>, c: seq<Instr>)
    requires Inert(a + b + c)
    ensures Inert(b)
  {
    assert forall i :: i in b ==> i in a + b + c;
  }

  lemma Active(a: seq<Instr>, k: nat)
    requires k < |a| && !Consumes(a[k]) && !Passive(a[k])
    ensures !Inert(a)
  {
    assert a[k] in a;
  }

  /** Of the general quantifiers, only those that repeat never or exactly once have no jumps. */
  lemma InertQuantified(a: seq<Instr>, min: nat, max: nat, greedy: bool, check: bool, reset: seq<Instr>)
    requires min <= max && |reset| <= 1 && (forall i :: i in reset ==> i.SaveReset?) && Inert(Quantified(a, min, max, greedy, check, reset))
    ensures max == 0 || (min == 1 && max == 1)
    ensures Quantified(a, min, max, greedy, check, reset) == if max == 0 then reset else a
  {
    hide Checked, ByteLength, Inert;
    var code := Quantified(a, min, max, greedy, check, reset);
    var k := if min == 0 then |reset| + (if max > 1 && max != INT32_MAX then 1 else 0)
             else if min > 1 then 1 + |a|
             else |a| + (if max == INT32_MAX then 0 else 1);
    if max > 0 && !(min == 1 && max == 1) {
      Active(code, k);
    }
  }

  lemma {:induction false} InertTerm(t: Term, back: bool, n: nat)
    requires ParsedTerm(t) && Inert(CompileTerm(t, back, n))
    ensures PlainTerm(t, back, n) == CompileTerm(t, back, n)
    decreases t
  {
    hide Quantified, SimpleQuantified, NeedCheckAdvance, SimpleLength, ByteLength, CapturesTerm, Inert;
    var code := CompileTerm(t, back, n);
    match t
    case Group(d) => InertDisjunction(d, back, n);
    case Capture(d) =>
      InertPart([code[0]], CompileDisjunction(d, back, n + 1), [code[|code| - 1]]);
      InertDisjunction(d, back, n + 1);
    case Look(d, negated, behind) =>
      Active(code, 0);
    case Quantifier(atom, min, max, greedy) =>
      InertQuantifier(t, back, n);
    case _ =>
  }

  lemma InertQuantifier(t: Term, back: bool, n: nat)
    requires ParsedTerm(t) && t.Quantifier? && Inert(CompileTerm(t, back, n))
    ensures PlainTerm(t, back, n) == CompileTerm(t, back, n)
    decreases t, 0
  {
    hide Quantified, NeedCheckAdvance, ByteLength, SimpleLength, Inert;
    var a, a', m := CompileTerm(t.atom, back, n), PlainTerm(t.atom, back, n), CapturesTerm(t.atom, n);
    if t.greedy && t.max > 0 && SimpleLength(a) > 0 {
      Active(SimpleQuantified(a, t.min, t.max), 0);
    } else {
      var reset := if m != n then [SaveReset(n, m - 1)] else [];
      InertQuantified(a, t.min, t.max, t.greedy, t.greedy && NeedCheckAdvance(a, true), reset);
      if t.max > 0 {
        InertTerm(t.atom, back, n);
      } else {
        NeverCode(a, a', t.greedy, reset);
      }
    }
  }

  lemma NeverCode(a: seq<Instr>, a': seq<Instr>, greedy: bool, reset: seq<Instr>)
    ensures Quantified(a, 0, 0, greedy, greedy && NeedCheckAdvance(a, true), reset) == reset + []
            == Quantified(a', 0, 0, greedy, greedy && NeedCheckAdvance(a', true), reset)
  {
  }

  lemma {:induction false} InertAlternative(a: Alternative, back: bool, n: nat)
    requires ParsedAlternative(a) && Inert(CompileAlternative(a, back, n))
    ensures PlainAlternative(a, back, n) == CompileAlternative(a, back, n)
    decreases a
  {
    hide CompileTerm, PlainTerm, Inert;
    if a.Then? {
      var m, code := CapturesAlternative(a.before, n), CompileAlternative(a, back, n);
      var before, term := CompileAlternative(a.before, back, n), CompileTerm(a.term, back, m);
      assert code == if back then [] + term + before else [] + before + term;
      assert code == if back then term + before + [] else before + term + [];
      if back {
        InertPart([], term, before);
        InertPart(term, before, []);
      } else {
        InertPart([], before, term);
        InertPart(before, term, []);
      }
      InertAlternative(a.before, back, n);
      InertTerm(a.term, back, m);
    }
  }

  lemma {:induction false} InertDisjunction(d: Disjunction, back: bool, n: nat)
    requires ParsedDisjunction(d) && Inert(CompileDisjunction(d, back, n))
    ensures PlainDisjunction(d, back, n) == CompileDisjunction(d, back, n)
    decreases d
  {
    hide CompileAlternative, PlainAlternative, ByteLength, Inert;
    if d.Only? {
      InertAlternative(d.alt, back, n);
    } else {
      Active(CompileDisjunction(d, back, n), 0);
    }
  }

  // Captures are numbered by their opening parentheses.

  lemma {:induction false} CapturesAre(t: Term, n: nat)
    ensures CapturesTerm(t, n) == n + Groups(t)
    decreases t
  {
    match t
    case Group(d) => CapturesIn(d, n);
    case Capture(d) => CapturesIn(d, n + 1);
    case Look(d, _, _) => CapturesIn(d, n);
    case Quantifier(atom, _, _, _) => CapturesAre(atom, n);
    case _ =>
  }

  lemma {:induction false} CapturesOf(a: Alternative, n: nat)
    ensures CapturesAlternative(a, n) == n + GroupsOf(a)
    decreases a
  {
    if a.Then? {
      CapturesOf(a.before, n);
      CapturesAre(a.term, CapturesAlternative(a.before, n));
    }
  }

  lemma {:induction false} CapturesIn(d: Disjunction, n: nat)
    ensures CapturesDisjunction(d, n) == n + GroupsIn(d)
    decreases d
  {
    if d.Or? {
      CapturesIn(d.before, n);
      CapturesOf(d.alt, CapturesDisjunction(d.before, n));
    } else {
      CapturesOf(d.alt, n);
    }
  }

  // A simple atom holds no captures, takes no character inside a lookbehind, and ends at one spot or nowhere.

  lemma {:induction false} SimpleLengthAdd(a: seq<Instr>, b: seq<Instr>)
    ensures SimpleLength(a + b) == if SimpleLength(a) < 0 || SimpleLength(b) < 0 then -1 else SimpleLength(a) + SimpleLength(b)
    decreases |a|
  {
    if a == [] {
      assert a + b == b;
    } else {
      assert (a + b)[1..] == a[1..] + b;
      SimpleLengthAdd(a[1..], b);
    }
  }

  lemma {:induction false} NotSimple(a: seq<Instr>, k: nat)
    requires k < |a| && !Consumes(a[k]) && !Tests(a[k])
    ensures SimpleLength(a) == -1
    decreases |a|
  {
    if k > 0 {
      NotSimple(a[1..], k - 1);
    }
  }

  lemma {:induction false} AtomOnAdd(env: Env, a: seq<Instr>, b: seq<Instr>, c: nat)
    requires SimpleLength(a) >= 0 && SimpleLength(b) >= 0 && c <= env.End() && SimpleLength(a + b) >= 0
    ensures AtomOn(env, a + b, c) == if AtomOn(env, a, c).None? then None else AtomOn(env, b, AtomOn(env, a, c).value)
    decreases |a|
  {
    hide Accepts, Holds;
    if a == [] {
      assert a + b == b;
    } else {
      assert (a + b)[1..] == a[1..] + b;
      SimpleLengthAdd(a[1..], b);
      if Consumes(a[0]) {
        if c < env.End() {
          AtomOnAdd(env, a[1..], b, env.subject.Next(c, env.End()));
        }
      } else {
        AtomOnAdd(env, a[1..], b, c);
      }
    }
  }

  /** One simple piece after the other. */
  lemma AtomFnAdd(env: Env, a: seq<Instr>, b: seq<Instr>, x: Spot, h: Spot -> seq<Spot>)
    requires SimpleLength(a) >= 0 && SimpleLength(b) >= 0 && ValidSpot(env, x) && SimpleLength(a + b) >= 0
    requires forall y :: y in AtomFn(env, a)(x) ==> h(y) == AtomFn(env, b)(y)
    ensures Bind(AtomFn(env, a)(x), h) == AtomFn(env, a + b)(x)
  {
    hide AtomOn, SimpleLength;
    AtomOnAdd(env, a, b, x.at);
    var e := AtomOn(env, a, x.at);
    if e.Some? {
      var y := x.(at := e.value);
      assert AtomFn(env, a)(x) == [y] && y in [y];
      BindSingle(y, h);
    }
  }

  lemma AtomFnValid(env: Env, a: seq<Instr>, x: Spot, y: Spot)
    requires SimpleLength(a) >= 0 && y in AtomFn(env, a)(x)
    ensures ValidSpot(env, y)
  {
    hide AtomOn, SimpleLength;
  }

  ghost predicate SimplyMeans(env: Env, code: seq<Instr>, x: Spot, ys: seq<Spot>, back: bool, groups: nat) {
    SimpleLength(code) >= 0 && ys == AtomFn(env, code)(x) && groups == 0 && (back ==> SimpleLength(code) == 0)
  }

  lemma {:induction false} SimpleTerm(env: Env, opcode: bool, t: Term, back: bool, n: nat, x: Spot)
    requires ParsedTerm(t) && SimpleLength(CompileTerm(t, back, n)) >= 0 && ValidSpot(env, x)
    ensures SimplyMeans(env, CompileTerm(t, back, n), x, Results(env, opcode, t, back, n, x), back, Groups(t))
    decreases t
  {
    hide Quantified, SimpleQuantified, NeedCheckAdvance, SimpleLength, ByteLength, Accepts, Holds, TestHolds;
    var code := CompileTerm(t, back, n);
    match t
    case Assertion(test) => SimpleTest(env, test, x);
    case Character(accept) =>
      if back {
        NotSimple(code, 0);
      } else {
        SimpleCharacter(env, accept, x);
      }
    case Reference(idx) => NotSimple(code, 0);
    case Group(d) => SimpleDisjunction(env, opcode, d, back, n, x);
    case Capture(d) => NotSimple(code, 0);
    case Look(d, negated, behind) => NotSimple(code, 0);
    case Quantifier(atom, min, max, greedy) => SimpleQuantifier(env, opcode, t, back, n, x);
  }

  lemma SimpleTest(env: Env, test: Instr, x: Spot)
    requires Tests(test) && ValidSpot(env, x)
    ensures SimpleLength([test]) == 0 && AtomFn(env, [test])(x) == if TestHolds(env, test, x.at) then [x] else []
  {
    hide Holds, TestHolds;
    assert [test][1..] == [];
    TestIsHolds(env, test, x.at);
    assert AtomOn(env, [test], x.at) == if Holds(env, test, x.at) then AtomOn(env, [], x.at) else None;
  }

  lemma SimpleCharacter(env: Env, i: Instr, x: Spot)
    requires Consumes(i) && ValidSpot(env, x)
    ensures SimpleLength([i]) == 1 && AtomFn(env, [i])(x) == CharacterResults(env, i, false, x)
  {
    hide Accepts;
    assert [i][1..] == [];
    if x.at < env.End() {
      assert AtomOn(env, [], env.subject.Next(x.at, env.End())) == Some(env.subject.Next(x.at, env.End()));
    }
  }

  lemma SimpleQuantifier(env: Env, opcode: bool, t: Term, back: bool, n: nat, x: Spot)
    requires ParsedTerm(t) && t.Quantifier? && SimpleLength(CompileTerm(t, back, n)) >= 0 && ValidSpot(env, x)
    ensures SimplyMeans(env, CompileTerm(t, back, n), x, Results(env, opcode, t, back, n, x), back, Groups(t))
    decreases t, 0
  {
    hide Quantified, NeedCheckAdvance, ByteLength, SimpleLength, Groups, Further, Exactly;
    var a, m := CompileTerm(t.atom, back, n), CapturesTerm(t.atom, n);
    assert Groups(t) == Groups(t.atom) by { GroupsOfQuantifier(t); }
    CapturesAre(t.atom, n);
    if t.greedy && t.max > 0 && SimpleLength(a) > 0 {
      NotSimple(SimpleQuantified(a, t.min, t.max), 0);
    } else {
      var reset, check := if m != n then [SaveReset(n, m - 1)] else [], t.greedy && NeedCheckAdvance(a, true);
      SimpleIsInert(Quantified(a, t.min, t.max, t.greedy, check, reset));
      InertQuantified(a, t.min, t.max, t.greedy, check, reset);
      var f := (y: Spot) => Results(env, opcode, t.atom, back, n, y);
      if t.max > 0 {
        SimpleTerm(env, opcode, t.atom, back, n, x);
        OnceRepeated(env, back, f, n, m, t.greedy, x);
      } else {
        if m != n {
          NotSimple(reset, 0);
        }
        NeverRepeated(env, back, f, n, t.greedy, x);
      }
    }
  }

  lemma GroupsOfQuantifier(t: Term)
    requires t.Quantifier?
    ensures Groups(t) == Groups(t.atom)
  {
  }

  lemma {:induction false} SimpleIsInert(a: seq<Instr>)
    requires SimpleLength(a) >= 0
    ensures Inert(a)
    decreases |a|
  {
    if a != [] {
      SimpleIsInert(a[1..]);
    }
  }

  lemma OnceRepeated(env: Env, back: bool, f: Spot -> seq<Spot>, lo: nat, hi: nat, greedy: bool, x: Spot)
    ensures Repeated(env, back, f, lo, hi, 1, 1, greedy, x) == f(x)
  {
    RepeatedIs(env, back, f, lo, hi, 1, 1, greedy, x);
    OnceIs(f, x);
    BindOne(f(x), FurtherFn(env, back, f, 1, 1, greedy));
  }

  lemma NeverRepeated(env: Env, back: bool, f: Spot -> seq<Spot>, n: nat, greedy: bool, x: Spot)
    requires ValidSpot(env, x)
    ensures Repeated(env, back, f, n, n, 0, 0, greedy, x) == [x] == AtomFn(env, [])(x) && SimpleLength([]) == 0
  {
    assert Forgotten(x.cap, n, n) == x.cap;
  }

  lemma {:induction false} SimpleAlternative(env: Env, opcode: bool, a: Alternative, back: bool, n: nat, x: Spot)
    requires ParsedAlternative(a) && SimpleLength(CompileAlternative(a, back, n)) >= 0 && ValidSpot(env, x)
    ensures SimplyMeans(env, CompileAlternative(a, back, n), x, ResultsOf(env, opcode, a, back, n, x), back, GroupsOf(a))
    decreases a
  {
    hide CompileTerm, SimpleLength, AtomOn, Results, AtomFn, Bind;
    if a.Empty? {
      NothingSimple(env, x);
    } else {
      CapturesOf(a.before, n);
      var m := n + GroupsOf(a.before);
      var before, term := CompileAlternative(a.before, back, n), CompileTerm(a.term, back, m);
      SimpleLengthAdd(before, term);
      SimpleLengthAdd(term, before);
      SimpleAlternative(env, opcode, a.before, back, n, x);
      SimpleTerm(env, opcode, a.term, back, m, x);
      if back {
        var h := (y: Spot) => ResultsOf(env, opcode, a.before, back, n, y);
        forall y | y in AtomFn(env, term)(x) ensures h(y) == AtomFn(env, before)(y) {
          AtomFnValid(env, term, x, y);
          SimpleAlternative(env, opcode, a.before, back, n, y);
        }
        AtomFnAdd(env, term, before, x, h);
      } else {
        var h := (y: Spot) => Results(env, opcode, a.term, back, m, y);
        forall y | y in AtomFn(env, before)(x) ensures h(y) == AtomFn(env, term)(y) {
          AtomFnValid(env, before, x, y);
          SimpleTerm(env, opcode, a.term, back, m, y);
        }
        AtomFnAdd(env, before, term, x, h);
      }
    }
  }

  lemma NothingSimple(env: Env, x: Spot)
    requires ValidSpot(env, x)
    ensures SimpleLength([]) == 0 && AtomFn(env, [])(x) == [x]
  {
  }

  lemma {:induction false} SimpleDisjunction(env: Env, opcode: bool, d: Disjunction, back: bool, n: nat, x: Spot)
    requires ParsedDisjunction(d) && SimpleLength(CompileDisjunction(d, back, n)) >= 0 && ValidSpot(env, x)
    ensures SimplyMeans(env, CompileDisjunction(d, back, n), x, ResultsIn(env, opcode, d, back, n, x), back, GroupsIn(d))
    decreases d
  {
    hide CompileAlternative, SimpleLength, ByteLength, ResultsOf;
    if d.Only? {
      SimpleAlternative(env, opcode, d.alt, back, n, x);
    } else {
      NotSimple(CompileDisjunction(d, back, n), 0);
    }
  }
}
