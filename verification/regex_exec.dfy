/** lre_exec_backtrack as a loop over mutable registers and a state stack. */
module RegexExec {
  import opened RegexInstr
  import opened RegexChars
  import opened RegexVm
  import opened RegexSearch
  import opened RegexRefine
  import opened RegexEmit
  import opened RegexSyntax
  import opened RegexCompile
  import opened RegexSafety
  import opened RegexResults
  import opened RegexText
  import opened RegexMeaning
  import opened RegexPlain
  import opened RegexHalts

  datatype Status = Run | Unwind(matched: bool) | Done(matched: bool) | Dead

  /** The machine after an opcode that changes only the registers. */
  ghost function Effected(e: Effect, capture: Captures, states: seq<Entry>): Machine {
    match e
    case Go(r) => Machine(Running(r), states)
    case Fail => Machine(Unwinding(false, capture), states)
    case Abort => Machine(Aborted, states)
  }

  /** How many turns a compiled pattern takes, and what it comes to. */
  lemma HaltingBound(env: Env, d: Disjunction, sticky: bool, cptr: nat) returns (k: nat)
    requires cptr <= env.End() && CodeAt(env.code, 0, CompilePattern(d, sticky))
    requires ParsedDisjunction(d) && CapturesDisjunction(d, 1) == env.captureCount && LazyAdvances(d, false, 1)
    ensures Valid(env, Start(env, cptr)) && ValidRegs(env, Start(env, cptr).mode.regs)
    ensures var m, r := Steps(env, k, Start(env, cptr)), Start(env, cptr).mode.regs;
            m.mode.Finished? && Converges(env, r, if m.mode.matched then Matched(m.mode.capture) else NoMatch)
            && Answer(env, true, d, sticky, Here(r)) == if m.mode.matched then Matched(m.mode.capture) else NoMatch
  {
    hide Converges, CodeAt, CompilePattern, Step, Steps, Answer;
    var r := Start(env, cptr).mode.regs;
    var o := PatternHalts(env, d, sticky, r);
    k :| HaltsIn(env, r, o, k);
    var body := CompiledStaysSafe(env, d, sticky, cptr, k);
  }

  class Backtracker {
    const env: Env
    var pc: nat
    var cptr: nat
    var capture: Captures
    var stack: seq<int>
    var states: seq<Entry>
    var status: Status

    function Now(): Regs
      reads this
    {
      Regs(pc, cptr, capture, stack)
    }

    /** The machine state that the fields hold. */
    ghost function State(): Machine
      reads this
    {
      match status
      case Run => Machine(Running(Now()), states)
      case Unwind(matched) => Machine(Unwinding(matched, capture), states)
      case Done(matched) => Machine(Finished(matched, capture), states)
      case Dead => Machine(Aborted, states)
    }

    /** lre_exec: all captures unset, both stacks empty. */
    constructor (e: Env, cindex: nat)
      requires cindex <= e.End()
      ensures env == e && Valid(env, State())
      ensures State() == Machine(Running(Regs(0, cindex, seq(2 * e.captureCount, _ => None), [])), [])
    {
      env := e;
      pc, cptr := 0, cindex;
      capture, stack := seq(2 * e.captureCount, _ => None), [];
      states, status := [], Run;
    }

    /** push_state: the registers, with the given pc, on top of the state stack. */
    method PushState(kind: Kind, at: nat, count: nat)
      modifies this`states
      ensures states == old(states) + [Entry(kind, Now().(pc := at), count)]
    {
      states := states + [Entry(kind, Regs(at, cptr, capture, stack), count)];
    }

    method Load(r: Regs)
      modifies this`pc, this`cptr, this`capture, this`stack
      ensures Now() == r
    {
      pc, cptr, capture, stack := r.pc, r.cptr, r.capture, r.stack;
    }

    /** One opcode of the dispatch loop. */
    method Dispatch()
      requires Valid(env, State()) && status.Run?
      modifies this
      ensures State() == Step(env, old(State()))
    {
      hide Decode, Exec, Repeat;
      var i := Decode(env.code, pc);
      if i.None? {
        status := Dead;
        return;
      }
      var next := pc + Size(i.value);
      match i.value
      case Match =>
        status := Unwind(true);
      case Split(off, nextFirst) =>
        if next + off < 0 {
          status := Dead;
        } else if nextFirst {
          PushState(SplitState, next + off, 0);
          pc := next;
        } else {
          PushState(SplitState, next, 0);
          pc := next + off;
        }
      case Lookahead(off, negated) =>
        if next + off < 0 {
          status := Dead;
        } else {
          PushState(if negated then NegLookState else LookState, next + off, 0);
          pc := next;
        }
      case SimpleGreedy(off, min, max, chars) =>
        Quantifier(i.value);
      case _ =>
        LocalOpcode(i.value);
    }

    /** An opcode that changes only the registers. */
    method LocalOpcode(i: Instr)
      requires Valid(env, State()) && status.Run? && Local(i)
      modifies this
      ensures State() == Effected(Exec(env, i, old(Now())), old(capture), old(states))
    {
      hide Accepts, Holds, ResetCaptures, RefForward, RefBackward;
      var next := pc + Size(i);
      if Consumes(i) {
        ReadChar(i);
      } else if Tests(i) {
        if Holds(env, i, cptr) {
          pc := next;
        } else {
          status := Unwind(false);
        }
      } else if i.Goto? {
        Jump(next + i.off);
      } else if i.Save? {
        if i.idx >= env.captureCount {
          status := Dead;
        } else {
          capture := capture[2 * i.idx + Bit(i.end) := Some(cptr)];
          pc := next;
        }
      } else if i.SaveReset? {
        if i.hi >= env.captureCount {
          status := Dead;
        } else {
          ClearCaptures(i.lo, i.hi);
          pc := next;
        }
      } else if i.BackRef? {
        BackReference(i.idx, i.backward, next);
      } else if i.Prev? {
        if cptr == 0 {
          status := Unwind(false);
        } else {
          cptr := env.subject.Back(cptr, 0);
          pc := next;
        }
      } else {
        StackOpcode(i);
      }
    }

    method Jump(target: int)
      modifies this
      ensures if target < 0 then status == Dead && pc == old(pc) else pc == target && status == old(status)
      ensures cptr == old(cptr) && capture == old(capture) && stack == old(stack) && states == old(states)
    {
      if target < 0 {
        status := Dead;
      } else {
        pc := target;
      }
    }

    /** The opcodes that work on the stack of counts and positions. */
    method StackOpcode(i: Instr)
      requires Valid(env, State()) && status.Run? && (i.PushI32? || i.Drop? || i.Loop? || i.PushCharPos? || i.CheckAdvance?)
      modifies this
      ensures State() == Effected(Exec(env, i, old(Now())), old(capture), old(states))
    {
      var next, top := pc + Size(i), |stack|;
      if top == 0 && !i.PushI32? && !i.PushCharPos? {
        status := Dead;
        return;
      }
      match i
      case PushI32(v) =>
        stack := stack + [v];
        pc := next;
      case PushCharPos =>
        stack := stack + [cptr];
        pc := next;
      case Drop =>
        stack := stack[..top - 1];
        pc := next;
      case Loop(off) =>
        stack := stack[..top - 1] + [stack[top - 1] - 1];
        Jump(if stack[top - 1] != 0 then next + off else next);
      case CheckAdvance =>
        if stack[top - 1] == cptr {
          status := Unwind(false);
        } else {
          stack := stack[..top - 1];
          pc := next;
        }
    }

    /** The single-character opcodes: take the character and test it. */
    method ReadChar(i: Instr)
      requires Valid(env, State()) && status.Run? && Consumes(i)
      modifies this
      ensures State() == Effected(Exec(env, i, old(Now())), old(capture), old(states))
    {
      hide Accepts;
      if cptr >= env.End() {
        status := Unwind(false);
        return;
      }
      var ok := TestChar(i, env.subject.CharAt(cptr, env.End()));
      if ok {
        pc, cptr := pc + Size(i), env.subject.Next(cptr, env.End());
      } else {
        status := Unwind(false);
      }
    }

    method TestChar(i: Instr, c: nat) returns (ok: bool)
      requires Consumes(i)
      ensures ok == Accepts(env, i, c)
    {
      match i
      case Char(v) => ok := env.Fold(c) == v;
      case Char32(v) => ok := env.Fold(c) == v;
      case Dot => ok := !IsLineTerminator(c);
      case Any => ok := true;
      case Range(pairs) =>
        var d, n := env.Fold(c), |pairs|;
        if n == 0 || d < pairs[0].0 {
          ok := false;
        } else if d >= 0xffff && pairs[n - 1].1 == 0xffff {
          ok := true;
        } else if d > pairs[n - 1].1 {
          ok := false;
        } else {
          ok := FindRange(pairs, d);
        }
      case Range32(pairs) =>
        var d, n := env.Fold(c), |pairs|;
        if n == 0 || d < pairs[0].0 || d > pairs[n - 1].1 {
          ok := false;
        } else {
          ok := FindRange(pairs, d);
        }
    }

    /** The binary search of the range opcodes. */
    method FindRange(pairs: seq<(nat, nat)>, c: nat) returns (found: bool)
      ensures found == TableSearch(pairs, c, 0, |pairs|)
    {
      var lo, hi := 0, |pairs|;
      while lo < hi
        invariant 0 <= lo <= hi <= |pairs|
        invariant TableSearch(pairs, c, 0, |pairs|) == TableSearch(pairs, c, lo, hi)
        decreases hi - lo
      {
        var idx := (lo + hi - 1) / 2;
        if c < pairs[idx].0 {
          hi := idx;
        } else if c > pairs[idx].1 {
          lo := idx + 1;
        } else {
          return true;
        }
      }
      return false;
    }

    /** The loop of REOP_save_reset. */
    method ClearCaptures(lo: nat, hi: nat)
      requires 2 * hi + 1 < |capture|
      modifies this`capture
      ensures capture == ResetCaptures(old(capture), lo, hi)
    {
      var v := lo;
      while v <= hi
        invariant |capture| == |old(capture)|
        invariant forall k :: 0 <= k < |capture| ==> capture[k] == if 2 * lo <= k < 2 * v && k <= 2 * hi + 1 then None else old(capture)[k]
        decreases hi - v
      {
        capture := capture[2 * v := None][2 * v + 1 := None];
        v := v + 1;
      }
    }

    /** REOP_back_reference and REOP_backward_back_reference. */
    method BackReference(idx: nat, backward: bool, next: nat)
      requires Valid(env, State()) && status.Run?
      modifies this
      ensures State() == Effected(ExecBackRef(env, old(Now()).(pc := next), idx, backward), old(capture), old(states))
      ensures idx >= env.captureCount ==> status == Unwind(false)
      ensures idx < env.captureCount ==>
                var start, stop, c := old(capture)[2 * idx], old(capture)[2 * idx + 1], old(cptr);
                if start.None? || stop.None? then status == Run && cptr == c
                else
                  && (forall q: nat :: status == Run && cptr == q <==> StandsAgain(env, backward, start.value, stop.value, c, q))
                  && (status == Unwind(false) <==> forall q: nat :: !StandsAgain(env, backward, start.value, stop.value, c, q))
    {
      hide RefForward, RefBackward, StandsAgain;
      if idx >= env.captureCount {
        status := Unwind(false);
        return;
      }
      var start, stop := capture[2 * idx], capture[2 * idx + 1];
      if start.Some? && stop.Some? {
        var at: Option<nat>;
        if backward {
          at := MatchBackward(start.value, stop.value);
        } else {
          at := MatchForward(start.value, stop.value);
        }
        forall q: nat ensures at == Some(q) <==> StandsAgain(env, backward, start.value, stop.value, cptr, q) {
          ForwardText(env, start.value, stop.value, cptr, q);
          BackwardText(env, start.value, stop.value, cptr, q);
        }
        if at.None? {
          status := Unwind(false);
          return;
        }
        cptr := at.value;
      }
      pc := next;
    }

    method MatchForward(start: nat, stop: nat) returns (at: Option<nat>)
      requires stop <= env.End() && cptr <= env.End()
      ensures at == RefForward(env, start, stop, cptr)
    {
      var s, p, c := env.subject, start, cptr;
      while p < stop
        invariant 0 <= c <= env.End() && RefForward(env, start, stop, cptr) == RefForward(env, p, stop, c)
        decreases if p < stop then stop - p else 0
      {
        if c >= env.End() || env.Fold(s.CharAt(p, stop)) != env.Fold(s.CharAt(c, env.End())) {
          return None;
        }
        p, c := s.Next(p, stop), s.Next(c, env.End());
      }
      return Some(c);
    }

    method MatchBackward(start: nat, stop: nat) returns (at: Option<nat>)
      requires stop <= env.End() && cptr <= env.End()
      ensures at == RefBackward(env, start, stop, cptr)
    {
      var s, p, c := env.subject, stop, cptr;
      while p > start
        invariant 0 <= p <= env.End() && 0 <= c <= env.End() && RefBackward(env, start, stop, cptr) == RefBackward(env, start, p, c)
        decreases p
      {
        if c == 0 || env.Fold(s.CharBefore(p, start)) != env.Fold(s.CharBefore(c, 0)) {
          return None;
        }
        p, c := s.Back(p, start), s.Back(c, 0);
      }
      return Some(c);
    }

    /** REOP_simple_greedy_quant: run the atom as often as it matches, then leave one state for all the retries. */
    method Quantifier(i: Instr)
      requires Valid(env, State()) && status.Run? && Decode(env.code, pc) == Some(i) && i.SimpleGreedy?
      modifies this
      ensures State() == Step(env, old(State()))
    {
      hide Decode;
      var q, c, abort := CountMatches(pc + 17, i.max);
      if abort || pc + 17 + i.off < 0 {
        status := Dead;
      } else if q < i.min {
        status := Unwind(false);
      } else {
        cptr := c;
        if q > i.min {
          PushState(GreedyState, pc, q - i.min);
        }
        pc := pc + 17 + i.off;
      }
    }

    /** The counting loop of the quantifier. */
    method CountMatches(atom: nat, max: nat) returns (q: nat, c: nat, abort: bool)
      requires Valid(env, State()) && status.Run?
      ensures Repeat(env, atom, cptr, max, 0) == if abort then RepeatAbort else Repeats(q, c)
    {
      hide Decode, RunAtom;
      q, c, abort := 0, cptr, false;
      while true
        invariant cptr <= c <= env.End()
        invariant Repeat(env, atom, cptr, max, 0) == Repeat(env, atom, c, max, q)
        decreases env.End() - c
      {
        var a := RunAtom(env, atom, c);
        if a.AtomAbort? {
          return q, c, true;
        } else if a.AtomFail? {
          return q, c, false;
        }
        if q + 1 >= max && max != INT32_MAX {
          return q + 1, a.cptr, false;
        } else if a.cptr == c {
          return q, c, true;
        }
        c := a.cptr;
        q := q + 1;
      }
    }

    /** One turn of the loop that takes states off the stack. */
    method UnwindOne()
      requires Valid(env, State()) && status.Unwind?
      modifies this
      ensures State() == Step(env, old(State()))
    {
      hide Decode;
      var matched := status.matched;
      if |states| == 0 {
        status := Done(matched);
        return;
      }
      var e := states[|states| - 1];
      assert ValidEntry(env, e);
      states := states[..|states| - 1];
      match e.kind
      case SplitState =>
        if !matched {
          Load(e.regs);
          status := Run;
        }
      case GreedyState =>
        if !matched {
          Load(e.regs);
          cptr := GreedyBack(env, pc, cptr);
          if e.count > 1 {
            PushState(GreedyState, pc, e.count - 1);
          }
          pc := GreedyTarget(env, pc);
          status := Run;
        }
      case LookState =>
        if matched {
          Load(e.regs.(capture := capture));  // the captures of a positive lookahead are kept
          status := Run;
        }
      case NegLookState =>
        if matched {
          status := Unwind(false);
        } else {
          Load(e.regs);
          status := Run;
        }
    }

    /** At most limit turns of the engine. */
    method Execute(limit: nat)
      requires Valid(env, State())
      modifies this
      ensures Valid(env, State()) && State() == Steps(env, limit, old(State()))
    {
      hide Step, Valid;
      var k := 0;
      while k < limit && !status.Done? && !status.Dead?
        invariant 0 <= k <= limit && Valid(env, State())
        invariant Steps(env, limit - k, State()) == Steps(env, limit, old(State()))
      {
        ghost var m := State();
        assert Steps(env, limit - k, m) == Steps(env, limit - k - 1, Step(env, m));
        if status.Run? {
          Dispatch();
        } else {
          UnwindOne();
        }
        k := k + 1;
      }
      if k < limit {
        StoppedStays(env, limit - k, State());
      }
    }

    /** The loop of lre_exec_backtrack, which has no limit. */
    method RunToEnd(ghost bound: nat)
      requires Valid(env, State()) && Stopped(Steps(env, bound, State()))
      modifies this
      ensures State() == Steps(env, bound, old(State())) && (status.Done? || status.Dead?)
    {
      hide Step, Valid;
      ghost var k := 0;
      while !status.Done? && !status.Dead?
        invariant 0 <= k <= bound && Valid(env, State())
        invariant Steps(env, bound - k, State()) == Steps(env, bound, old(State()))
        decreases bound - k
      {
        ghost var m := State();
        assert k < bound && Steps(env, bound - k, m) == Steps(env, bound - k - 1, Step(env, m));
        if status.Run? {
          Dispatch();
        } else {
          UnwindOne();
        }
        k := k + 1;
      }
      StoppedStays(env, bound - k, State());
    }

    /** lre_exec on a compiled pattern: it ends, without aborting, with the first of the results that the pattern means. */
    method Match(ghost d: Disjunction, ghost sticky: bool) returns (matched: bool)
      requires cptr <= env.End() && State() == Start(env, cptr) && CodeAt(env.code, 0, CompilePattern(d, sticky))
      requires ParsedDisjunction(d) && CapturesDisjunction(d, 1) == env.captureCount && LazyAdvances(d, false, 1)
      modifies this
      ensures status == Done(matched) && ValidRegs(env, old(Now()))
      ensures Converges(env, old(Now()), if matched then Matched(capture) else NoMatch)
      ensures Answer(env, true, d, sticky, Spot(old(cptr), old(capture))) == if matched then Matched(capture) else NoMatch
    {
      hide Converges, Halts, CodeAt, CompilePattern, Step, Steps, Safe, Answer;
      ghost var bound := HaltingBound(env, d, sticky, cptr);
      RunToEnd(bound);
      matched := status.matched;
    }
  }
}
