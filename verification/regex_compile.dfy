/** The compiler from parsed patterns to instructions. */
module RegexCompile {
  import opened RegexInstr
  import opened RegexEmit
  import opened RegexBlocks
  import opened RegexSyntax

  /** The number of captures after the term, when there were n before it. */
  function CapturesTerm(t: Term, n: nat): (m: nat)
    ensures m >= n
  {
    match t
    case Assertion(_) | Character(_) | Reference(_) => n
    case Group(d) => CapturesDisjunction(d, n)
    case Capture(d) => CapturesDisjunction(d, n + 1)
    case Look(d, _, _) => CapturesDisjunction(d, n)
    case Quantifier(atom, _, _, _) => CapturesTerm(atom, n)
  }

  function CapturesAlternative(a: Alternative, n: nat): (m: nat)
    ensures m >= n
  {
    if a.Empty? then n else CapturesTerm(a.term, CapturesAlternative(a.before, n))
  }

  function CapturesDisjunction(d: Disjunction, n: nat): (m: nat)
    ensures m >= n
  {
    if d.Only? then CapturesAlternative(d.alt, n) else CapturesAlternative(d.alt, CapturesDisjunction(d.before, n))
  }

  /** re_parse_term: n is the number of captures so far; back is set inside lookbehinds. */
  function CompileTerm(t: Term, back: bool, n: nat): seq<Instr> {
    match t
    case Assertion(test) => [test]
    case Character(accept) => if back then [Prev, accept, Prev] else [accept]
    case Reference(idx) => [BackRef(idx, back)]
    case Group(d) => CompileDisjunction(d, back, n)
    case Capture(d) => [Save(n, back)] + CompileDisjunction(d, back, n + 1) + [Save(n, !back)]
    case Look(d, negated, behind) =>
      var a := CompileDisjunction(d, behind, n);
      [Lookahead(ByteLength(a) + 1, negated)] + a + [Match]
    case Quantifier(atom, min, max, greedy) =>
      QuantifyAtom(CompileTerm(atom, back, n), min, max, greedy, n, CapturesTerm(atom, n))
  }

  /** The quantifier on an atom that holds the captures from n up to m. */
  function QuantifyAtom(a: seq<Instr>, min: nat, max: nat, greedy: bool, n: nat, m: nat): seq<Instr>
    requires n <= m
  {
    if greedy && max > 0 && SimpleLength(a) > 0 then SimpleQuantified(a, min, max) else GeneralAtom(a, min, max, greedy, n, m)
  }

  /** The same by the general loops, whatever the atom. */
  function GeneralAtom(a: seq<Instr>, min: nat, max: nat, greedy: bool, n: nat, m: nat): seq<Instr>
    requires n <= m
  {
    Quantified(a, min, max, greedy, greedy && NeedCheckAdvance(a, true), if m != n then [SaveReset(n, m - 1)] else [])
  }

  /** re_parse_alternative: inside lookbehinds each term goes in front of those before it. */
  function CompileAlternative(a: Alternative, back: bool, n: nat): seq<Instr> {
    if a.Empty? then []
    else
      var before := CompileAlternative(a.before, back, n);
      var term := CompileTerm(a.term, back, CapturesAlternative(a.before, n));
      if back then term + before else before + term
  }

  /** re_parse_disjunction */
  function CompileDisjunction(d: Disjunction, back: bool, n: nat): seq<Instr> {
    if d.Only? then CompileAlternative(d.alt, back, n)
    else
      var a := CompileDisjunction(d.before, back, n);
      var b := CompileAlternative(d.alt, back, CapturesDisjunction(d.before, n));
      [Split(ByteLength(a) + 5, true)] + a + [Goto(ByteLength(b))] + b
  }

  /** The loop over starting positions that comes before a pattern that is not sticky. */
  function Prelude(sticky: bool): seq<Instr> {
    if sticky then [] else [Split(6, false), Any, Goto(-11)]
  }

  /** lre_compile */
  function CompilePattern(d: Disjunction, sticky: bool): seq<Instr> {
    Prelude(sticky) + [Save(0, false)] + CompileDisjunction(d, false, 1) + [Save(0, true)] + [Match]
  }

  // Every emitted piece of code is a block.

  lemma {:induction false} TermBlock(t: Term, back: bool, n: nat)
    requires ParsedTerm(t)
    ensures Block(CompileTerm(t, back, n))
    decreases t
  {
    hide Block, Quantified, SimpleQuantified, SimpleLength, ByteLength, NeedCheckAdvance, CapturesTerm;
    match t
    case Assertion(test) => Single(test);
    case Character(accept) =>
      Single(accept);
      if back {
        Single(Prev);
        Append([Prev], [accept]);
        Append([Prev] + [accept], [Prev]);
        assert [Prev] + [accept] + [Prev] == [Prev, accept, Prev];
      }
    case Reference(idx) => Single(BackRef(idx, back));
    case Group(d) => DisjunctionBlock(d, back, n);
    case Capture(d) =>
      DisjunctionBlock(d, back, n + 1);
      var a := CompileDisjunction(d, back, n + 1);
      Single(Save(n, back));
      Single(Save(n, !back));
      Append([Save(n, back)], a);
      Append([Save(n, back)] + a, [Save(n, !back)]);
    case Look(d, negated, behind) =>
      DisjunctionBlock(d, behind, n);
      LookBlock(CompileDisjunction(d, behind, n), negated);
    case Quantifier(atom, min, max, greedy) =>
      TermBlock(atom, back, n);
      QuantifyBlock(CompileTerm(atom, back, n), min, max, greedy, n, CapturesTerm(atom, n));
  }

  lemma QuantifyBlock(a: seq<Instr>, min: nat, max: nat, greedy: bool, n: nat, m: nat)
    requires n <= m && Block(a)
    ensures Block(QuantifyAtom(a, min, max, greedy, n, m))
  {
    hide Block, Quantified, SimpleQuantified, SimpleLength, ByteLength, NeedCheckAdvance;
    if greedy && max > 0 && SimpleLength(a) > 0 {
      SimpleBlock(a, min, max);
    } else {
      var reset := if m != n then [SaveReset(n, m - 1)] else [];
      if m != n {
        Single(SaveReset(n, m - 1));
      } else {
        EmptyBlock();
      }
      QuantifiedBlock(a, min, max, greedy, greedy && NeedCheckAdvance(a, true), reset);
    }
  }

  lemma {:induction false} AlternativeBlock(a: Alternative, back: bool, n: nat)
    requires ParsedAlternative(a)
    ensures Block(CompileAlternative(a, back, n))
    decreases a
  {
    hide Block, CompileTerm;
    EmptyBlock();
    if a.Then? {
      AlternativeBlock(a.before, back, n);
      TermBlock(a.term, back, CapturesAlternative(a.before, n));
      var before, term := CompileAlternative(a.before, back, n), CompileTerm(a.term, back, CapturesAlternative(a.before, n));
      if back {
        Append(term, before);
      } else {
        Append(before, term);
      }
    }
  }

  lemma {:induction false} DisjunctionBlock(d: Disjunction, back: bool, n: nat)
    requires ParsedDisjunction(d)
    ensures Block(CompileDisjunction(d, back, n))
    decreases d
  {
    hide Block, CompileAlternative, ByteLength;
    if d.Only? {
      AlternativeBlock(d.alt, back, n);
    } else {
      DisjunctionBlock(d.before, back, n);
      AlternativeBlock(d.alt, back, CapturesDisjunction(d.before, n));
      ChoiceBlock(CompileDisjunction(d.before, back, n), CompileAlternative(d.alt, back, CapturesDisjunction(d.before, n)));
    }
  }

  lemma PreludeBlock(sticky: bool)
    ensures Block(Prelude(sticky))
  {
    hide Block;
    EmptyBlock();
    if !sticky {
      Single(Any);
      var a := [Any];
      assert ByteLength(a) == 1;
      assert Star(a, false, false) == [Split(6, false)] + [Any] + [Goto(-11)] == Prelude(false);
      StarBlock(a, false, false);
    }
  }

  /** A compiled pattern is a block and a final Match. */
  lemma PatternBlock(d: Disjunction, sticky: bool) returns (body: seq<Instr>)
    requires ParsedDisjunction(d)
    ensures CompilePattern(d, sticky) == body + [Match] && Block(body)
  {
    hide Block, CompileDisjunction, Prelude;
    body := Prelude(sticky) + [Save(0, false)] + CompileDisjunction(d, false, 1) + [Save(0, true)];
    PreludeBlock(sticky);
    DisjunctionBlock(d, false, 1);
    Single(Save(0, false));
    Single(Save(0, true));
    Append(Prelude(sticky), [Save(0, false)]);
    Append(Prelude(sticky) + [Save(0, false)], CompileDisjunction(d, false, 1));
    Append(Prelude(sticky) + [Save(0, false)] + CompileDisjunction(d, false, 1), [Save(0, true)]);
  }
}
