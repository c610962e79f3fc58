/** The machine of lre_exec_backtrack and the recursive first-match search it implements. */
module RegexSearch {
  import opened RegexInstr
  import opened RegexVm

  datatype Kind = SplitState | LookState | NegLookState | GreedyState

  /** A saved state. For GreedyState, pc is that of the quantifier and count the number of retries left. */
  datatype Entry = Entry(kind: Kind, regs: Regs, count: nat)

  datatype Mode =
    | Running(regs: Regs)
    | Unwinding(matched: bool, capture: Captures)
    | Finished(matched: bool, capture: Captures)
    | Aborted

  datatype Machine = Machine(mode: Mode, states: seq<Entry>)

  predicate ValidCaptures(env: Env, c: Captures) {
    ValidRegs(env, Regs(0, 0, c, []))
  }

  predicate ValidEntry(env: Env, e: Entry) {
    ValidRegs(env, e.regs) && (e.kind == GreedyState ==> e.count > 0 && GreedyAt(env, e.regs.pc))
  }

  /** A quantifier instruction with a target inside the address space stands at pc. */
  predicate GreedyAt(env: Env, pc: nat) {
    var i := Decode(env.code, pc);
    i.Some? && i.value.SimpleGreedy? && 0 <= pc + 17 + i.value.off
  }

  predicate Valid(env: Env, m: Machine) {
    && (m.mode.Running? ==> ValidRegs(env, m.mode.regs))
    && (m.mode.Unwinding? ==> ValidCaptures(env, m.mode.capture))
    && forall e :: e in m.states ==> ValidEntry(env, e)
  }

  /** Where the engine continues after the quantifier at pc. */
  function GreedyTarget(env: Env, pc: nat): nat
    requires GreedyAt(env, pc)
  {
    pc + 17 + Decode(env.code, pc).value.off
  }

  /** The step back that one retry of the quantifier at pc takes. */
  function GreedyBack(env: Env, pc: nat, cptr: nat): (c: nat)
    requires GreedyAt(env, pc) && cptr <= env.End()
    ensures c <= env.End()
  {
    BackBy(env.subject, cptr, Decode(env.code, pc).value.chars)
  }

  /** One dispatched opcode, or one turn of the loop that unwinds the state stack. */
  function Step(env: Env, m: Machine): (m': Machine)
    requires Valid(env, m)
    ensures Valid(env, m')
  {
    match m.mode
    case Running(r) => StepRunning(env, r, m.states)
    case Unwinding(matched, cap) => Unwind(env, matched, cap, m.states)
    case _ => m
  }

  function StepRunning(env: Env, r: Regs, s: seq<Entry>): (m': Machine)
    requires Valid(env, Machine(Running(r), s))
    ensures Valid(env, m')
  {
    match Decode(env.code, r.pc)
    case None => Machine(Aborted, s)
    case Some(i) =>
      var next := r.pc + Size(i);
      match i
      case Match => Machine(Unwinding(true, r.capture), s)
      case Split(off, nextFirst) =>
        if next + off < 0 then Machine(Aborted, s)
        else
          var first, second := if nextFirst then next else next + off, if nextFirst then next + off else next;
          Machine(Running(r.(pc := first)), s + [Entry(SplitState, r.(pc := second), 0)])
      case Lookahead(off, negated) =>
        if next + off < 0 then Machine(Aborted, s)
        else Machine(Running(r.(pc := next)), s + [Entry(if negated then NegLookState else LookState, r.(pc := next + off), 0)])
      case SimpleGreedy(off, min, max, chars) => StartGreedy(env, r, s, i)
      case _ =>
        match Exec(env, i, r)
        case Go(r') => Machine(Running(r'), s)
        case Fail => Machine(Unwinding(false, r.capture), s)
        case Abort => Machine(Aborted, s)
  }

  function StartGreedy(env: Env, r: Regs, s: seq<Entry>, i: Instr): (m': Machine)
    requires Valid(env, Machine(Running(r), s)) && Decode(env.code, r.pc) == Some(i) && i.SimpleGreedy?
    ensures Valid(env, m')
  {
    match Repeat(env, r.pc + 17, r.cptr, i.max, 0)
    case RepeatAbort => Machine(Aborted, s)
    case Repeats(q, c) =>
      if r.pc + 17 + i.off < 0 then Machine(Aborted, s)
      else if q < i.min then Machine(Unwinding(false, r.capture), s)
      else Machine(Running(r.(pc := GreedyTarget(env, r.pc), cptr := c)), s + GreedyEntry(env, r, c, q - i.min))
  }

  /** The state that stands for n retries of the quantifier at r.pc, if there are any. */
  function GreedyEntry(env: Env, r: Regs, c: nat, n: nat): (s: seq<Entry>)
    requires ValidRegs(env, r) && GreedyAt(env, r.pc) && c <= env.End()
    ensures forall e :: e in s ==> ValidEntry(env, e)
  {
    if n == 0 then [] else [Entry(GreedyState, r.(cptr := c), n)]
  }

  function Unwind(env: Env, matched: bool, cap: Captures, s: seq<Entry>): (m': Machine)
    requires Valid(env, Machine(Unwinding(matched, cap), s))
    ensures Valid(env, m')
  {
    if s == [] then Machine(Finished(matched, cap), s)
    else
      var e, rest := s[|s| - 1], s[..|s| - 1];
      assert ValidEntry(env, e);
      match e.kind
      case SplitState => if matched then Machine(Unwinding(true, cap), rest) else Machine(Running(e.regs), rest)
      case GreedyState =>
        if matched then Machine(Unwinding(true, cap), rest)
        else
          var c := GreedyBack(env, e.regs.pc, e.regs.cptr);
          Machine(Running(e.regs.(pc := GreedyTarget(env, e.regs.pc), cptr := c)),
                  rest + GreedyEntry(env, e.regs, c, e.count - 1))
      case LookState =>
        if matched then Machine(Running(e.regs.(capture := cap)), rest) else Machine(Unwinding(false, cap), rest)
      case NegLookState =>
        if matched then Machine(Unwinding(false, cap), rest) else Machine(Running(e.regs), rest)
  }

  function Steps(env: Env, k: nat, m: Machine): (m': Machine)
    requires Valid(env, m)
    ensures Valid(env, m')
  {
    if k == 0 then m else Steps(env, k - 1, Step(env, m))
  }

  // The reference: try alternatives in order, recursively, with no state stack.

  datatype Outcome = OutOfFuel | NoMatch | Matched(capture: Captures) | Crashed

  /** The first match from r. Lookaheads are matched on their own and leave nothing to come back to. */
  function Search(env: Env, fuel: nat, r: Regs): (o: Outcome)
    requires ValidRegs(env, r)
    ensures o.Matched? ==> ValidCaptures(env, o.capture)
    decreases fuel, 0
  {
    if fuel == 0 then OutOfFuel
    else match Decode(env.code, r.pc)
      case None => Crashed
      case Some(i) =>
        var next := r.pc + Size(i);
        match i
        case Match => Matched(r.capture)
        case Split(off, nextFirst) =>
          if next + off < 0 then Crashed
          else
            var o := Search(env, fuel - 1, r.(pc := if nextFirst then next else next + off));
            if o.NoMatch? then Search(env, fuel - 1, r.(pc := if nextFirst then next + off else next)) else o
        case Lookahead(off, negated) =>
          if next + off < 0 then Crashed
          else
            var o := Search(env, fuel - 1, r.(pc := next));
            if negated then
              if o.NoMatch? then Search(env, fuel - 1, r.(pc := next + off)) else if o.Matched? then NoMatch else o
            else
              if o.Matched? then Search(env, fuel - 1, r.(pc := next + off, capture := o.capture)) else o
        case SimpleGreedy(off, min, max, chars) =>
          (match Repeat(env, next, r.cptr, max, 0)
           case RepeatAbort => Crashed
           case Repeats(q, c) =>
             if next + off < 0 then Crashed
             else if q < min then NoMatch
             else SearchGreedy(env, fuel - 1, r.(cptr := c), q - min))
        case _ =>
          match Exec(env, i, r)
          case Go(r') => Search(env, fuel - 1, r')
          case Fail => NoMatch
          case Abort => Crashed
  }

  /** The continuation of the quantifier at r.pc, tried from r.cptr and then n times from one repetition less. */
  function SearchGreedy(env: Env, fuel: nat, r: Regs, n: nat): (o: Outcome)
    requires ValidRegs(env, r) && GreedyAt(env, r.pc)
    ensures o.Matched? ==> ValidCaptures(env, o.capture)
    decreases fuel, n + 1
  {
    var o := Search(env, fuel, r.(pc := GreedyTarget(env, r.pc)));
    if o.NoMatch? && n > 0 then SearchGreedy(env, fuel, r.(cptr := GreedyBack(env, r.pc, r.cptr)), n - 1) else o
  }
}
