/** What patterns mean: the places where a term can end, in the order in which they are to be tried. */
module RegexResults {
  import opened RegexInstr
  import opened RegexChars
  import opened RegexVm
  import opened RegexSyntax
  import opened RegexEmit
  import opened RegexCompile

  /** A position in the subject, and what has been captured on the way to it. */
  datatype Spot = Spot(at: nat, cap: Captures)

  /** Everything that can follow from the spots, in order. */
  ghost function Bind(xs: seq<Spot>, f: Spot -> seq<Spot>): seq<Spot> {
    if xs == [] then [] else f(xs[0]) + Bind(xs[1..], f)
  }

  // Single characters and tests.

  const LINE_ENDS: set<nat> := {0x0A, 0x0D, 0x2028, 0x2029}

  predicate WordChar(c: nat) {
    c == '_' as nat || '0' as nat <= c <= '9' as nat || 'a' as nat <= c <= 'z' as nat || 'A' as nat <= c <= 'Z' as nat
  }

  function CharsLeft(env: Env, c: nat): set<nat>
    requires c <= env.End()
  {
    if c == 0 then {} else {env.subject.CharBefore(c, 0)}
  }

  function CharsRight(env: Env, c: nat): set<nat>
    requires c <= env.End()
  {
    if c == env.End() then {} else {env.subject.CharAt(c, env.End())}
  }

  /** ^, $, \b and \B: what has to stand to the left and to the right. */
  ghost predicate TestHolds(env: Env, test: Instr, c: nat)
    requires Tests(test) && c <= env.End()
  {
    var l, r := CharsLeft(env, c), CharsRight(env, c);
    match test
    case LineStart => l == {} || (env.multiLine && l <= LINE_ENDS)
    case LineEnd => r == {} || (env.multiLine && r <= LINE_ENDS)
    case WordBoundary(negated) => negated <==> ((exists x :: x in l && WordChar(x)) <==> (exists x :: x in r && WordChar(x)))
  }

  // Text that was captured.

  /** The characters between two positions. */
  function Chars(s: Subject, from: nat, to: nat): (cs: seq<nat>)
    requires to <= |s.units|
    decreases if from < to then to - from else 0
  {
    if from >= to then [] else [s.CharAt(from, to)] + Chars(s, s.Next(from, to), to)
  }

  /** The two stretches hold the same characters, up to case where that is ignored. */
  ghost predicate SameText(env: Env, from: nat, to: nat, from': nat, to': nat)
    requires to <= env.End() && to' <= env.End()
  {
    var cs, ds := Chars(env.subject, from, to), Chars(env.subject, from', to');
    |cs| == |ds| && forall k :: 0 <= k < |cs| ==> env.Fold(cs[k]) == env.Fold(ds[k])
  }

  /** The text [start, stop) stands again between c and q, where q lies behind c, or before it when going back. */
  ghost predicate StandsAgain(env: Env, back: bool, start: nat, stop: nat, c: nat, q: nat)
    requires stop <= env.End() && c <= env.End()
  {
    && (q == c || env.subject.Boundary(q))
    && if back then q <= c && SameText(env, start, stop, q, c) else c <= q <= env.End() && SameText(env, start, stop, c, q)
  }

  ghost function ReferenceResults(env: Env, idx: nat, back: bool, x: Spot): seq<Spot>
    requires x.at <= env.End() && |x.cap| == 2 * env.captureCount
    requires forall k :: 0 <= k < |x.cap| && x.cap[k].Some? ==> x.cap[k].value <= env.End()
  {
    if idx >= env.captureCount then []
    else
      var start, stop := x.cap[2 * idx], x.cap[2 * idx + 1];
      if start.None? || stop.None? then [x]
      else if q: nat :| StandsAgain(env, back, start.value, stop.value, x.at, q) then [x.(at := q)]
      else []
  }

  // Repetition.

  /** Positions in the order of a match: forward, a run from inside a surrogate pair may step back before its start, but it
      never enters a pair. */
  function Rank(env: Env, back: bool, c: nat): nat {
    if back then c else if env.subject.Boundary(c) && c <= env.End() then env.End() - c else env.End() + 1
  }

  ghost function Exactly(f: Spot -> seq<Spot>, n: nat, x: Spot): seq<Spot> {
    if n == 0 then [x] else Bind(f(x), (y: Spot) => Exactly(f, n - 1, y))
  }

  /** At most n times: greedy tries more repetitions first, lazy fewer. */
  ghost function UpTo(f: Spot -> seq<Spot>, n: nat, greedy: bool, x: Spot): seq<Spot> {
    if n == 0 then [x]
    else
      var more := Bind(f(x), (y: Spot) => UpTo(f, n - 1, greedy, y));
      if greedy then more + [x] else [x] + more
  }

  /** Any number of times, as long as each repetition gets further. */
  ghost function AnyNumber(env: Env, back: bool, f: Spot -> seq<Spot>, greedy: bool, x: Spot): seq<Spot>
    decreases Rank(env, back, x.at)
  {
    var more := Bind(f(x), (y: Spot) => if Rank(env, back, y.at) < Rank(env, back, x.at) then AnyNumber(env, back, f, greedy, y) else []);
    if greedy then more + [x] else [x] + more
  }

  /** The spots that are not at c. */
  ghost function Moved(c: nat, ys: seq<Spot>): seq<Spot> {
    if ys == [] then [] else (if ys[0].at == c then [] else [ys[0]]) + Moved(c, ys[1..])
  }

  /** A repetition that greedy quantifiers accept: one that moved. */
  ghost function Accepted(f: Spot -> seq<Spot>, greedy: bool): Spot -> seq<Spot> {
    if greedy then (x: Spot) => Moved(x.at, f(x)) else f
  }

  ghost function Further(env: Env, back: bool, f: Spot -> seq<Spot>, min: nat, max: nat, greedy: bool, x: Spot): seq<Spot> {
    if max == INT32_MAX then AnyNumber(env, back, Accepted(f, greedy), greedy, x)
    else if max > min then UpTo(Accepted(f, greedy), max - min, greedy, x)
    else [x]
  }

  /** From min to max times; INT32_MAX stands for no bound. An atom that may be skipped first forgets its captures lo to hi - 1. */
  ghost function Repeated(env: Env, back: bool, f: Spot -> seq<Spot>, lo: nat, hi: nat, min: nat, max: nat, greedy: bool, x: Spot): seq<Spot> {
    if min == 0 then Further(env, back, f, 0, max, greedy, x.(cap := Forgotten(x.cap, lo, hi)))
    else Bind(Exactly(f, min, x), (y: Spot) => Further(env, back, f, min, max, greedy, y))
  }

  function Forgotten(cap: Captures, lo: nat, hi: nat): (r: Captures)
    ensures |r| == |cap|
  {
    seq(|cap|, k requires 0 <= k < |cap| => if 2 * lo <= k < 2 * hi then None else cap[k])
  }

  function Noted(cap: Captures, k: nat, at: nat): Captures {
    if k < |cap| then cap[k := Some(at)] else cap
  }

  // Terms. n is the number of captures opened before the term; back is set inside lookbehinds.

  function Groups(t: Term): nat {
    match t
    case Group(d) => GroupsIn(d)
    case Capture(d) => 1 + GroupsIn(d)
    case Look(d, _, _) => GroupsIn(d)
    case Quantifier(atom, _, _, _) => Groups(atom)
    case _ => 0
  }

  function GroupsOf(a: Alternative): nat {
    if a.Empty? then 0 else GroupsOf(a.before) + Groups(a.term)
  }

  function GroupsIn(d: Disjunction): nat {
    GroupsOf(d.alt) + (if d.Or? then GroupsIn(d.before) else 0)
  }

  ghost predicate ValidSpot(env: Env, x: Spot) {
    x.at <= env.End() && |x.cap| == 2 * env.captureCount
    && forall k :: 0 <= k < |x.cap| && x.cap[k].Some? ==> x.cap[k].value <= env.End()
  }

  /** The spots where the term can end when it starts at x. */
  ghost function Results(env: Env, opcode: bool, t: Term, back: bool, n: nat, x: Spot): seq<Spot>
    decreases t
  {
    if !ValidSpot(env, x) then []
    else match t
      case Assertion(test) => if Tests(test) && TestHolds(env, test, x.at) then [x] else []
      case Character(accept) => if Consumes(accept) then CharacterResults(env, accept, back, x) else []
      case Reference(idx) => ReferenceResults(env, idx, back, x)
      case Group(d) => ResultsIn(env, opcode, d, back, n, x)
      case Capture(d) =>
        var open := x.(cap := Noted(x.cap, 2 * n + Bit(back), x.at));
        Bind(ResultsIn(env, opcode, d, back, n + 1, open), (y: Spot) => [y.(cap := Noted(y.cap, 2 * n + Bit(!back), y.at))])
      case Look(d, negated, behind) =>
        var ys := ResultsIn(env, opcode, d, behind, n, x);
        if negated then if ys == [] then [x] else []
        else if ys == [] then [] else [x.(cap := ys[0].cap)]
      case Quantifier(atom, min, max, greedy) =>
        var ys := Repeated(env, back, (y: Spot) => Results(env, opcode, atom, back, n, y), n, n + Groups(atom), min, max, greedy, x);
        if opcode && Overshoots(env, t, back, n, x.at) && |ys| > 1 then ys[..|ys| - 1] + [x.(at := x.at - 1)] else ys
  }

  /** The quantifier opcode gives up one unit too far back when it starts inside a surrogate pair and may match nothing. */
  predicate Overshoots(env: Env, t: Term, back: bool, n: nat, c: nat)
    requires t.Quantifier?
  {
    c > 0 && !env.subject.Boundary(c) && t.greedy && t.min == 0 && t.max > 0 && SimpleLength(CompileTerm(t.atom, back, n)) > 0
  }

  /** The next character is accepted; going back, the one before. */
  ghost function CharacterResults(env: Env, accept: Instr, back: bool, x: Spot): seq<Spot>
    requires Consumes(accept) && x.at <= env.End()
  {
    var s, end := env.subject, env.End();
    if back then
      if x.at > 0 && Accepts(env, accept, s.CharAt(s.Back(x.at, 0), end)) then [x.(at := s.Back(x.at, 0))] else []
    else
      if x.at < end && Accepts(env, accept, s.CharAt(x.at, end)) then [x.(at := s.Next(x.at, end))] else []
  }

  /** One term after the other; inside lookbehinds the last one comes first. */
  ghost function ResultsOf(env: Env, opcode: bool, a: Alternative, back: bool, n: nat, x: Spot): seq<Spot>
    decreases a
  {
    if a.Empty? then [x]
    else
      var m := n + GroupsOf(a.before);
      if back then Bind(Results(env, opcode, a.term, back, m, x), (y: Spot) => ResultsOf(env, opcode, a.before, back, n, y))
      else Bind(ResultsOf(env, opcode, a.before, back, n, x), (y: Spot) => Results(env, opcode, a.term, back, m, y))
  }

  /** One alternative, then the next. */
  ghost function ResultsIn(env: Env, opcode: bool, d: Disjunction, back: bool, n: nat, x: Spot): seq<Spot>
    decreases d
  {
    if d.Only? then ResultsOf(env, opcode, d.alt, back, n, x)
    else ResultsIn(env, opcode, d.before, back, n, x) + ResultsOf(env, opcode, d.alt, back, n + GroupsIn(d.before), x)
  }
}
