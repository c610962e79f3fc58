/** The backtracking engine: what each opcode does, the machine with its state stack, and the recursive search. */
module RegexVm {
  import opened RegexInstr
  import opened RegexChars

  /** Everything that stays fixed during a match. canon is lre_canonicalize, which rests on generated tables. */
  datatype Env = Env(code: seq<Byte>, subject: Subject, multiLine: bool, ignoreCase: bool, canon: nat -> nat, captureCount: nat) {
    function End(): nat {
      |subject.units|
    }

    function Fold(c: nat): nat {
      if ignoreCase then canon(c) else c
    }
  }

  type Captures = seq<Option<nat>>

  /** The registers of the engine. Stack cells hold loop counts and positions. */
  datatype Regs = Regs(pc: nat, cptr: nat, capture: Captures, stack: seq<int>)

  predicate ValidRegs(env: Env, r: Regs) {
    r.cptr <= env.End() && |r.capture| == 2 * env.captureCount
    && forall k :: 0 <= k < |r.capture| && r.capture[k].Some? ==> r.capture[k].value <= env.End()
  }

  /** The result of an opcode that neither branches nor ends the match. */
  datatype Effect = Go(regs: Regs) | Fail | Abort

  /** The binary search of REOP_range and REOP_range32 over [lo, hi). */
  function TableSearch(pairs: seq<(nat, nat)>, c: nat, lo: nat, hi: nat): bool
    requires lo <= hi <= |pairs|
    decreases hi - lo
  {
    if lo == hi then false
    else
      var idx := (lo + hi - 1) / 2;
      if c < pairs[idx].0 then TableSearch(pairs, c, lo, idx)
      else if c > pairs[idx].1 then TableSearch(pairs, c, idx + 1, hi)
      else true
  }

  /** REOP_range: 0xffff as the last bound stands for infinity. */
  predicate RangeHas(pairs: seq<(nat, nat)>, c: nat) {
    var n := |pairs|;
    if n == 0 || c < pairs[0].0 then false
    else if c >= 0xffff && pairs[n - 1].1 == 0xffff then true
    else if c > pairs[n - 1].1 then false
    else TableSearch(pairs, c, 0, n)
  }

  /** REOP_range32 */
  predicate Range32Has(pairs: seq<(nat, nat)>, c: nat) {
    var n := |pairs|;
    if n == 0 || c < pairs[0].0 || c > pairs[n - 1].1 then false else TableSearch(pairs, c, 0, n)
  }

  /** The single-character opcodes. */
  predicate Consumes(i: Instr) {
    i.Char? || i.Char32? || i.Dot? || i.Any? || i.Range? || i.Range32?
  }

  predicate Accepts(env: Env, i: Instr, c: nat)
    requires Consumes(i)
  {
    match i
    case Char(v) => env.Fold(c) == v
    case Char32(v) => env.Fold(c) == v
    case Dot => !IsLineTerminator(c)
    case Any => true
    case Range(pairs) => RangeHas(pairs, env.Fold(c))
    case Range32(pairs) => Range32Has(pairs, env.Fold(c))
  }

  /** The zero-width tests. */
  predicate Tests(i: Instr) {
    i.LineStart? || i.LineEnd? || i.WordBoundary?
  }

  predicate Holds(env: Env, i: Instr, cptr: nat)
    requires Tests(i) && cptr <= env.End()
  {
    var s, end := env.subject, env.End();
    match i
    case LineStart => cptr == 0 || (env.multiLine && IsLineTerminator(s.CharBefore(cptr, 0)))
    case LineEnd => cptr == end || (env.multiLine && IsLineTerminator(s.CharAt(cptr, end)))
    case WordBoundary(negated) =>
      var before := cptr > 0 && IsWordChar(s.CharBefore(cptr, 0));
      var after := cptr < end && IsWordChar(s.CharAt(cptr, end));
      (before != after) != negated
  }

  /** REOP_back_reference: match the captured text [start, stop) again at cptr. */
  function RefForward(env: Env, start: nat, stop: nat, cptr: nat): (r: Option<nat>)
    requires stop <= env.End() && cptr <= env.End()
    ensures r.Some? ==> r.value <= env.End()
    decreases if start < stop then stop - start else 0
  {
    if start >= stop then Some(cptr)
    else if cptr >= env.End() then None
    else
      var s := env.subject;
      if env.Fold(s.CharAt(start, stop)) != env.Fold(s.CharAt(cptr, env.End())) then None
      else RefForward(env, s.Next(start, stop), stop, s.Next(cptr, env.End()))
  }

  /** REOP_backward_back_reference: the same in the other direction. */
  function RefBackward(env: Env, start: nat, stop: nat, cptr: nat): (r: Option<nat>)
    requires stop <= env.End() && cptr <= env.End()
    ensures r.Some? ==> r.value <= env.End()
    decreases stop
  {
    if stop <= start then Some(cptr)
    else if cptr == 0 then None
    else
      var s := env.subject;
      if env.Fold(s.CharBefore(stop, start)) != env.Fold(s.CharBefore(cptr, 0)) then None
      else RefBackward(env, start, s.Back(stop, start), s.Back(cptr, 0))
  }

  /** Clearing the captures lo to hi of REOP_save_reset. */
  function ResetCaptures(c: Captures, lo: nat, hi: nat): (r: Captures)
    requires 2 * hi + 1 < |c|
    ensures |r| == |c|
    ensures forall k :: 0 <= k < |c| ==> r[k] == if 2 * lo <= k <= 2 * hi + 1 then None else c[k]
  {
    seq(|c|, k requires 0 <= k < |c| => if 2 * lo <= k <= 2 * hi + 1 then None else c[k])
  }

  /** Instructions that change only the registers. */
  predicate Local(i: Instr) {
    !(i.Match? || i.Split? || i.Lookahead? || i.SimpleGreedy?)
  }

  function Exec(env: Env, i: Instr, r: Regs): (e: Effect)
    requires ValidRegs(env, r) && Local(i)
    ensures e.Go? ==> ValidRegs(env, e.regs)
  {
    var next, top := r.pc + Size(i), |r.stack|;
    if Consumes(i) then
      if r.cptr >= env.End() || !Accepts(env, i, env.subject.CharAt(r.cptr, env.End())) then Fail
      else Go(r.(pc := next, cptr := env.subject.Next(r.cptr, env.End())))
    else if Tests(i) then
      if Holds(env, i, r.cptr) then Go(r.(pc := next)) else Fail
    else match i
      case Goto(off) => if next + off < 0 then Abort else Go(r.(pc := next + off))
      case Save(idx, end) =>
        if idx >= env.captureCount then Abort
        else Go(r.(pc := next, capture := r.capture[2 * idx + Bit(end) := Some(r.cptr)]))
      case SaveReset(lo, hi) =>
        if hi >= env.captureCount then Abort else Go(r.(pc := next, capture := ResetCaptures(r.capture, lo, hi)))
      case PushI32(v) => Go(r.(pc := next, stack := r.stack + [v]))
      case Drop => if top == 0 then Abort else Go(r.(pc := next, stack := r.stack[..top - 1]))
      case Loop(off) =>
        if top == 0 then Abort
        else
          var n := r.stack[top - 1] - 1;
          var r' := r.(stack := r.stack[..top - 1] + [n]);
          if n == 0 then Go(r'.(pc := next)) else if next + off < 0 then Abort else Go(r'.(pc := next + off))
      case PushCharPos => Go(r.(pc := next, stack := r.stack + [r.cptr]))
      case CheckAdvance =>
        if top == 0 then Abort
        else if r.stack[top - 1] == r.cptr then Fail
        else Go(r.(pc := next, stack := r.stack[..top - 1]))
      case BackRef(idx, backward) => ExecBackRef(env, r.(pc := next), idx, backward)
      case Prev => if r.cptr == 0 then Fail else Go(r.(pc := next, cptr := env.subject.Back(r.cptr, 0)))
  }

  function ExecBackRef(env: Env, r: Regs, idx: nat, backward: bool): (e: Effect)
    requires ValidRegs(env, r)
    ensures e.Go? ==> ValidRegs(env, e.regs)
  {
    if idx >= env.captureCount then Fail
    else
      var start, stop := r.capture[2 * idx], r.capture[2 * idx + 1];
      if start.None? || stop.None? then Go(r)
      else
        var at := if backward then RefBackward(env, start.value, stop.value, r.cptr) else RefForward(env, start.value, stop.value, r.cptr);
        if at.None? then Fail else Go(r.(cptr := at.value))
  }

  /** The atom of a simple quantifier, run without recursion from pc to its Match. */
  datatype AtomResult = AtomEnd(cptr: nat) | AtomFail | AtomAbort

  function RunAtom(env: Env, pc: nat, cptr: nat): (a: AtomResult)
    requires cptr <= env.End()
    ensures a.AtomEnd? ==> cptr <= a.cptr <= env.End()
    decreases |env.code| - pc
  {
    match Decode(env.code, pc)
    case None => AtomAbort
    case Some(i) =>
      if i.Match? then AtomEnd(cptr)
      else if Consumes(i) then
        if cptr >= env.End() || !Accepts(env, i, env.subject.CharAt(cptr, env.End())) then AtomFail
        else RunAtom(env, pc + Size(i), env.subject.Next(cptr, env.End()))
      else if Tests(i) then
        if Holds(env, i, cptr) then RunAtom(env, pc + Size(i), cptr) else AtomFail
      else AtomAbort
  }

  /** The counting loop of REOP_simple_greedy_quant: how often the atom matches, and where it ends. */
  datatype Repeats = Repeats(count: nat, cptr: nat) | RepeatAbort

  function Repeat(env: Env, pc: nat, cptr: nat, max: nat, q: nat): (r: Repeats)
    requires cptr <= env.End()
    ensures r.Repeats? ==> cptr <= r.cptr <= env.End() && q <= r.count
    decreases env.End() - cptr
  {
    match RunAtom(env, pc, cptr)
    case AtomAbort => RepeatAbort
    case AtomFail => Repeats(q, cptr)
    case AtomEnd(c) =>
      if q + 1 >= max && max != INT32_MAX then Repeats(q + 1, c)
      else if c == cptr then RepeatAbort  // an atom that consumes nothing would never stop
      else Repeat(env, pc, c, max, q + 1)
  }

  /** PREV_CHAR, n times. */
  function BackBy(s: Subject, p: nat, n: nat): (q: nat)
    requires p <= |s.units|
    ensures q <= p
    decreases n
  {
    if n == 0 || p == 0 then p else BackBy(s, s.Back(p, 0), n - 1)
  }
}
