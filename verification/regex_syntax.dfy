/** Parsed patterns. */
module RegexSyntax {
  import opened RegexInstr
  import opened RegexVm

  /** A term of a pattern. Alternatives and disjunctions grow to the right, as they are parsed. */
  datatype Term =
    | Assertion(test: Instr)
    | Character(accept: Instr)
    | Reference(idx: nat)
    | Group(body: Disjunction)
    | Capture(body: Disjunction)
    | Look(body: Disjunction, negated: bool, behind: bool)
    | Quantifier(atom: Term, min: nat, max: nat, greedy: bool)
  datatype Alternative = Empty | Then(before: Alternative, term: Term)
  datatype Disjunction = Only(alt: Alternative) | Or(before: Disjunction, alt: Alternative)

  /** What the parser can produce: opcodes of the right kind, counts in range, and quantifiers on quantifiable atoms. */
  predicate ParsedTerm(t: Term) {
    match t
    case Assertion(test) => Tests(test)
    case Character(accept) => Consumes(accept) && Encodable(accept)
    case Reference(idx) => idx < 0x100
    case Group(d) => ParsedDisjunction(d)
    case Capture(d) => ParsedDisjunction(d)
    case Look(d, _, _) => ParsedDisjunction(d)
    case Quantifier(atom, min, max, _) =>
      ParsedTerm(atom) && !atom.Quantifier? && !atom.Assertion? && !(atom.Look? && atom.behind) && min <= max <= INT32_MAX
  }

  predicate ParsedAlternative(a: Alternative) {
    a.Then? ==> ParsedAlternative(a.before) && ParsedTerm(a.term)
  }

  predicate ParsedDisjunction(d: Disjunction) {
    ParsedAlternative(d.alt) && (d.Or? ==> ParsedDisjunction(d.before))
  }
}
