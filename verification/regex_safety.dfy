/** Running compiled patterns: no jump leaves the instruction starts, and the stack stays within the computed size. */
module RegexSafety {
  import opened RegexInstr
  import opened RegexVm
  import opened RegexSearch
  import opened RegexEmit
  import opened RegexSimple
  import opened RegexBlocks
  import opened RegexSyntax
  import opened RegexCompile

  const STACK_SIZE_MAX: nat := 255
  const CAPTURE_COUNT_MAX: nat := 255

  /** The operands of an instruction are in range when there are m captures; jump offsets are not looked at. */
  predicate Operands(i: Instr, m: nat) {
    match i
    case Char(_) | Char32(_) | Range(_) | Range32(_) => Encodable(i)
    case Save(idx, _) => idx < m
    case SaveReset(lo, hi) => lo < m && hi < m
    case PushI32(v) => v <= INT32_MAX
    case BackRef(idx, _) => idx < 0x100
    case SimpleGreedy(off, min, max, chars) => min <= INT32_MAX && max <= INT32_MAX && chars <= off
    case _ => true
  }

  ghost predicate AllOperands(code: seq<Instr>, m: nat) {
    forall i :: i in code ==> Operands(i, m)
  }

  lemma {:induction false} SimpleFits(a: seq<Instr>)
    ensures SimpleLength(a) <= ByteLength(a)
    decreases |a|
  {
    if a != [] {
      SimpleFits(a[1..]);
    }
  }

  lemma CheckedOperands(a: seq<Instr>, check: bool, max: nat, greedy: bool, m: nat)
    requires AllOperands(a, m) && max <= INT32_MAX
    ensures AllOperands(Optional(a, greedy, check), m) && AllOperands(Star(a, greedy, check), m)
    ensures AllOperands(Counted(a, max, greedy, check), m)
  {
    hide ByteLength, Operands;
    var n: int := ByteLength(a) + 2 * Bit(check);
    assert Operands(PushCharPos, m) && Operands(CheckAdvance, m) && Operands(Drop, m) && Operands(PushI32(max), m) by {
      OwnOperands(PushCharPos, m); OwnOperands(CheckAdvance, m); OwnOperands(Drop, m); OwnOperands(PushI32(max), m);
    }
    OwnOperands(Split(n, greedy), m); OwnOperands(Split(n + 5, greedy), m);
    OwnOperands(Goto(-(n + 10)), m); OwnOperands(Loop(-(n + 10)), m);
    assert AllOperands(Checked(a, check), m);
  }

  lemma OwnOperands(i: Instr, m: nat)
    requires i.Goto? || i.Split? || i.Loop? || i.Drop? || i.CheckAdvance? || i.PushCharPos? || (i.PushI32? && i.v <= INT32_MAX)
    ensures Operands(i, m)
  {
  }

  lemma QuantifiedOperands(a: seq<Instr>, min: nat, max: nat, greedy: bool, n: nat, m: nat, all: nat)
    requires n <= m <= all && AllOperands(a, all) && min <= max <= INT32_MAX
    ensures AllOperands(QuantifyAtom(a, min, max, greedy, n, m), all)
  {
    hide SimpleLength, ByteLength, NeedCheckAdvance, Optional, Star, Counted, Operands;
    var check := greedy && NeedCheckAdvance(a, true);
    CheckedOperands(a, check, max, greedy, all);
    CheckedOperands(a, check, max - min, greedy, all);
    var w: int := ByteLength(a);
    OwnOperands(Loop(-(w + 5)), all); OwnOperands(Drop, all); OwnOperands(PushI32(min), all);
    OwnOperands(Split(-(w + 5), !greedy), all);
    if greedy && max > 0 && SimpleLength(a) > 0 {
      SimpleOperands(a, min, max, all);
    }
    if m != n {
      ResetOperands(n, m, all);
    }
  }

  lemma SimpleOperands(a: seq<Instr>, min: nat, max: nat, m: nat)
    requires SimpleLength(a) > 0 && AllOperands(a, m) && min <= max <= INT32_MAX
    ensures AllOperands(SimpleQuantified(a, min, max), m)
  {
    hide SimpleLength, ByteLength;
    SimpleFits(a);
  }

  lemma ResetOperands(n: nat, m: nat, all: nat)
    requires n < m <= all
    ensures Operands(SaveReset(n, m - 1), all)
  {
  }

  lemma {:induction false} TermOperands(t: Term, back: bool, n: nat, m: nat)
    requires ParsedTerm(t) && CapturesTerm(t, n) <= m
    ensures AllOperands(CompileTerm(t, back, n), m)
    decreases t
  {
    hide QuantifyAtom;
    match t
    case Group(d) => DisjunctionOperands(d, back, n, m);
    case Capture(d) => DisjunctionOperands(d, back, n + 1, m);
    case Look(d, negated, behind) => DisjunctionOperands(d, behind, n, m);
    case Quantifier(atom, min, max, greedy) =>
      TermOperands(atom, back, n, m);
      QuantifiedOperands(CompileTerm(atom, back, n), min, max, greedy, n, CapturesTerm(atom, n), m);
    case _ =>
  }

  lemma {:induction false} AlternativeOperands(a: Alternative, back: bool, n: nat, m: nat)
    requires ParsedAlternative(a) && CapturesAlternative(a, n) <= m
    ensures AllOperands(CompileAlternative(a, back, n), m)
    decreases a
  {
    hide CompileTerm, CapturesTerm;
    if a.Then? {
      AlternativeOperands(a.before, back, n, m);
      TermOperands(a.term, back, CapturesAlternative(a.before, n), m);
    }
  }

  lemma {:induction false} DisjunctionOperands(d: Disjunction, back: bool, n: nat, m: nat)
    requires ParsedDisjunction(d) && CapturesDisjunction(d, n) <= m
    ensures AllOperands(CompileDisjunction(d, back, n), m)
    decreases d
  {
    hide CompileAlternative, CapturesAlternative;
    if d.Or? {
      DisjunctionOperands(d.before, back, n, m);
      AlternativeOperands(d.alt, back, CapturesDisjunction(d.before, n), m);
    } else {
      AlternativeOperands(d.alt, back, n, m);
    }
  }

  lemma PatternOperands(d: Disjunction, sticky: bool, m: nat)
    requires ParsedDisjunction(d) && CapturesDisjunction(d, 1) <= m
    ensures AllOperands(CompilePattern(d, sticky), m)
  {
    hide CompileDisjunction, CapturesDisjunction;
    DisjunctionOperands(d, false, 1, m);
  }

  // The bytes of a program.

  ghost predicate AllEncodable(code: seq<Instr>) {
    forall i :: i in code ==> Encodable(i)
  }

  function Assemble(code: seq<Instr>): (bytes: seq<Byte>)
    requires forall i :: i in code ==> Encodable(i)
    ensures |bytes| == ByteLength(code)
  {
    if code == [] then [] else Encode(code[0]) + Assemble(code[1..])
  }

  /** The assembled instructions are what the engine decodes, whatever bytes come before and after. */
  lemma {:induction false} AssembledCode(bytes: seq<Byte>, pc: nat, code: seq<Instr>)
    requires AllEncodable(code) && pc + ByteLength(code) <= |bytes| && bytes[pc..pc + ByteLength(code)] == Assemble(code)
    ensures CodeAt(bytes, pc, code)
    decreases |code|
  {
    hide Decode, Encode;
    if code != [] {
      var i, n, s := code[0], ByteLength(code), Size(code[0]);
      var w := bytes[pc..pc + n];
      assert w[0..s] == Encode(i) && w[s..n] == Assemble(code[1..]);
      SubSlice(bytes, pc, n, 0, s);
      SubSlice(bytes, pc, n, s, n);
      DecodeEncode(bytes, pc, i);
      AssembledCode(bytes, pc + s, code[1..]);
    }
  }

  lemma {:induction false} OffsetMonotone(code: seq<Instr>, j: nat, k: nat)
    requires j <= k <= |code|
    ensures PlaceOf(code, j).offset <= PlaceOf(code, k).offset
    decreases k
  {
    if j < k {
      OffsetMonotone(code, j, k - 1);
    }
  }

  // The stack size.

  lemma {:induction false} CodeAtIndex(bytes: seq<Byte>, pc: nat, code: seq<Instr>, k: nat)
    requires CodeAt(bytes, pc, code) && k <= |code|
    ensures PlaceOf(code, k).offset >= 0 && CodeAt(bytes, pc + PlaceOf(code, k).offset, code[k..])
    ensures k < |code| ==> Decode(bytes, pc + PlaceOf(code, k).offset) == Some(code[k])
    decreases k
  {
    hide Decode, PlaceOf, Size;
    PlaceZero(code);
    if k > 0 {
      CodeAtIndex(bytes, pc, code, k - 1);
      PlaceNext(code, k - 1);
      assert code[k - 1..][1..] == code[k..];
    } else {
      assert code[0..] == code;
    }
  }

  /** compute_stack_size: the largest linear depth, or -1 when it is over the limit. */
  method ComputeStackSize(bytes: seq<Byte>, ghost body: seq<Instr>) returns (size: int)
    requires Block(body) && CodeAt(bytes, 0, body + [Match]) && |bytes| == ByteLength(body + [Match])
    ensures size == -1 <==> exists k :: 0 <= k <= |body| && PlaceOf(body, k).depth > STACK_SIZE_MAX
    ensures size != -1 ==> (exists k :: 0 <= k <= |body| && PlaceOf(body, k).depth == size)
                           && forall k :: 0 <= k <= |body| ==> PlaceOf(body, k).depth <= size <= STACK_SIZE_MAX
  {
    hide PlaceOf, Decode, Size, CodeAt, ByteLength;
    ghost var code := body + [Match];
    ghost var k := 0;
    var depth, pos := 0, 0;
    size := 0;
    PlaceZero(code);
    PlaceZero(body);
    EndIsByteLength(code);
    while pos < |bytes|
      invariant 0 <= k <= |code| && PlaceOf(code, k) == Place(pos, depth)
      invariant 0 <= size <= STACK_SIZE_MAX
      invariant exists j :: 0 <= j <= |body| && PlaceOf(body, j).depth == size
      invariant forall j :: 0 <= j <= k && j <= |body| ==> PlaceOf(body, j).depth <= size
      decreases |code| - k
    {
      CodeAtIndex(bytes, 0, code, k);
      PlaceNext(code, k);
      PlacePrefix(body, [Match], k);
      var i := Decode(bytes, pos).value;
      if k < |body| {
        assert Fits(body, k);
        PlacePrefix(body, [Match], k + 1);
      }
      match i {
        case PushI32(_) =>
          depth := depth + 1;
        case PushCharPos =>
          depth := depth + 1;
        case Drop =>
          assert depth > 0;
          depth := depth - 1;
        case CheckAdvance =>
          assert depth > 0;
          depth := depth - 1;
        case _ =>
      }
      if depth > size {
        if depth > STACK_SIZE_MAX {
          return -1;
        }
        size := depth;
      }
      pos := pos + Size(i);
      k := k + 1;
    }
    if k < |code| {
      CodeAtIndex(bytes, 0, code, k);
    }
  }

  lemma PlaceNext(code: seq<Instr>, k: nat)
    requires k < |code|
    ensures PlaceOf(code, k + 1) == PlaceOf(code, k).Plus(Weight(code[k]))
  {
  }

  // The engine on a compiled pattern.

  /** The program in env is the block body, followed by Match. */
  ghost predicate Program(env: Env, body: seq<Instr>) {
    Block(body) && CodeAt(env.code, 0, body + [Match]) && AllOperands(body, env.captureCount)
  }

  /** The engine stands before instruction k, with as many stack cells as the linear count says. */
  ghost predicate StandsAt(body: seq<Instr>, r: Regs, k: nat) {
    k <= |body| && PlaceOf(body, k) == Place(r.pc, |r.stack|)
  }

  ghost predicate Stands(body: seq<Instr>, r: Regs) {
    exists k :: StandsAt(body, r, k)
  }

  /** A saved state stands at an instruction; a quantifier's state has room to step back for every retry. */
  ghost predicate SafeEntryAt(env: Env, body: seq<Instr>, e: Entry, k: nat) {
    && StandsAt(body, e.regs, k)
    && (e.kind == GreedyState ==>
          k < |body| && body[k].SimpleGreedy? && e.regs.cptr <= env.End()
          && e.count * body[k].chars <= Room(env.subject, e.regs.cptr))
  }

  ghost predicate SafeEntry(env: Env, body: seq<Instr>, e: Entry) {
    exists k :: SafeEntryAt(env, body, e, k)
  }

  /** What every reachable state satisfies. */
  ghost predicate Safe(env: Env, body: seq<Instr>, m: Machine) {
    && Valid(env, m)
    && !m.mode.Aborted?
    && (m.mode.Running? ==> Stands(body, m.mode.regs))
    && forall e :: e in m.states ==> SafeEntry(env, body, e)
  }

  lemma Fetch(env: Env, body: seq<Instr>, r: Regs, k: nat)
    requires Program(env, body) && StandsAt(body, r, k)
    ensures Decode(env.code, r.pc) == Some(if k < |body| then body[k] else Match)
    ensures k < |body| ==> Fits(body, k) && Operands(body[k], env.captureCount)
                           && PlaceOf(body, k + 1) == Place(r.pc, |r.stack|).Plus(Weight(body[k]))
  {
    hide Decode, Fits, Operands, CodeAt, PlaceOf;
    if k < |body| {
      PlaceNext(body, k);
    }
    CodeAtIndex(env.code, 0, body + [Match], k);
    PlacePrefix(body, [Match], k);
  }

  /** Where a jump of instruction k leads. */
  lemma JumpLands(body: seq<Instr>, r: Regs, k: nat, r': Regs)
    requires k < |body| && Fits(body, k) && Jumps(body[k])
    requires var q := PlaceOf(body, k + 1); r'.pc == q.offset + body[k].off && |r'.stack| == q.depth
    ensures Stands(body, r') && PlaceOf(body, k + 1).offset + body[k].off >= 0
  {
    hide PlaceOf;
    var q := PlaceOf(body, k + 1);
    var j :| 0 <= j <= |body| && PlaceOf(body, j) == Place(q.offset + body[k].off, q.depth);
    assert StandsAt(body, r', j);
  }

  lemma TargetNatural(body: seq<Instr>, k: nat)
    requires k < |body| && Fits(body, k) && Jumps(body[k])
    ensures PlaceOf(body, k + 1).offset + body[k].off >= 0
  {
    hide PlaceOf;
    var q := PlaceOf(body, k + 1);
    var j :| 0 <= j <= |body| && PlaceOf(body, j) == Place(q.offset + body[k].off, q.depth);
    OffsetMonotone(body, 0, j);
    PlaceZero(body);
  }

  /** An opcode that only changes registers leads from a stand to a stand. */
  lemma LocalSafe(env: Env, body: seq<Instr>, r: Regs, k: nat)
    requires Program(env, body) && ValidRegs(env, r) && StandsAt(body, r, k) && k < |body| && Local(body[k])
    ensures var e := Exec(env, body[k], r); !e.Abort? && (e.Go? ==> Stands(body, e.regs))
  {
    hide Decode, PlaceOf, CodeAt, Accepts, Holds, RefForward, RefBackward;
    Fetch(env, body, r, k);
    var i, e := body[k], Exec(env, body[k], r);
    if i.Goto? || i.Loop? {
      TargetNatural(body, k);
      if e.Go? && e.regs.pc != r.pc + Size(i) {
        JumpLands(body, r, k, e.regs);
      } else if e.Go? {
        assert StandsAt(body, e.regs, k + 1);
      }
    } else if e.Go? {
      assert StandsAt(body, e.regs, k + 1);
    }
  }

  lemma RunningSafe(env: Env, body: seq<Instr>, r: Regs, s: seq<Entry>)
    requires Program(env, body) && Safe(env, body, Machine(Running(r), s))
    ensures Safe(env, body, StepRunning(env, r, s))
  {
    hide Decode, PlaceOf, Exec, Repeat, Program, SafeEntry, ValidRegs, StartGreedy;
    var k: nat :| StandsAt(body, r, k);
    Fetch(env, body, r, k);
    if k < |body| {
      var i := body[k];
      if i.Split? || i.Lookahead? {
        BranchSafe(env, body, r, s, k);
      } else if i.SimpleGreedy? {
        GreedySafe(env, body, r, s, k);
      } else if !i.Match? {
        LocalSafe(env, body, r, k);
      }
    }
  }

  lemma BranchSafe(env: Env, body: seq<Instr>, r: Regs, s: seq<Entry>, k: nat)
    requires Program(env, body) && Safe(env, body, Machine(Running(r), s)) && StandsAt(body, r, k)
    requires k < |body| && (body[k].Split? || body[k].Lookahead?)
    ensures Safe(env, body, StepRunning(env, r, s))
  {
    hide Decode, PlaceOf, Exec, Repeat, Program, SafeEntry;
    Fetch(env, body, r, k);
    TargetNatural(body, k);
    var next, other := r.(pc := r.pc + 5), r.(pc := r.pc + 5 + body[k].off);
    assert StandsAt(body, next, k + 1);
    JumpLands(body, r, k, other);
    var s' := StepRunning(env, r, s).states;
    StandIsSafe(env, body, s'[|s|]);
    assert forall e :: e in s' ==> e in s || e == s'[|s|];
  }

  lemma StandIsSafe(env: Env, body: seq<Instr>, e: Entry)
    requires Stands(body, e.regs) && e.kind != GreedyState
    ensures SafeEntry(env, body, e)
  {
    var k :| StandsAt(body, e.regs, k);
    assert SafeEntryAt(env, body, e, k);
  }

  /** The quantifier's atom is in place, so its counting loop comes to an end. */
  lemma AtomReady(env: Env, body: seq<Instr>, r: Regs, k: nat)
    requires Program(env, body) && ValidRegs(env, r) && StandsAt(body, r, k) && k < |body| && body[k].SimpleGreedy?
    ensures var q := Repeat(env, r.pc + 17, r.cptr, body[k].max, 0);
            q.Repeats? && q.count * body[k].chars <= Room(env.subject, q.cptr)
  {
    hide Decode, PlaceOf, Repeat, Room;
    Fetch(env, body, r, k);
    var n: nat :| AtomFollows(body, k, n);
    var code, a := body + [Match], body[k + 1..k + 1 + n];
    PlacePrefix(body, [Match], k + 1);
    CodeAtIndex(env.code, 0, code, k + 1);
    assert code[k + 1..] == a + code[k + 1 + n..];
    CodeAtSplit(env.code, r.pc + 17, a, code[k + 1 + n..]);
    RepeatIsCount(env, r.pc + 17, a, r.cptr, body[k].max, 0);
    CountLeavesRoom(env, a, r.cptr, body[k].max, 0);
  }

  lemma GreedySafe(env: Env, body: seq<Instr>, r: Regs, s: seq<Entry>, k: nat)
    requires Program(env, body) && Safe(env, body, Machine(Running(r), s)) && StandsAt(body, r, k)
    requires k < |body| && body[k].SimpleGreedy?
    ensures Safe(env, body, StepRunning(env, r, s))
  {
    hide Decode, PlaceOf, Exec, Repeat, Program, Room;
    Fetch(env, body, r, k);
    TargetNatural(body, k);
    AtomReady(env, body, r, k);
    var q := Repeat(env, r.pc + 17, r.cptr, body[k].max, 0);
    JumpLands(body, r, k, r.(pc := r.pc + 17 + body[k].off, cptr := q.cptr));
    if q.count > body[k].min {
      MoreRoom(q.count - body[k].min, q.count, body[k].chars);
      assert SafeEntryAt(env, body, Entry(GreedyState, r.(cptr := q.cptr), q.count - body[k].min), k);
    }
  }

  lemma MoreRoom(n: nat, m: nat, chars: nat)
    requires n <= m
    ensures n * chars <= m * chars
  {
  }

  /** One retry of a saved quantifier. */
  lemma RetrySafe(env: Env, body: seq<Instr>, e: Entry, k: nat)
    requires Program(env, body) && SafeEntryAt(env, body, e, k) && ValidEntry(env, e) && e.kind == GreedyState
    ensures var c := GreedyBack(env, e.regs.pc, e.regs.cptr);
            && Stands(body, e.regs.(pc := GreedyTarget(env, e.regs.pc), cptr := c))
            && (e.count > 1 ==> SafeEntry(env, body, Entry(GreedyState, e.regs.(cptr := c), e.count - 1)))
  {
    hide Decode, PlaceOf, Program, Room;
    Fetch(env, body, e.regs, k);
    var c, chars := GreedyBack(env, e.regs.pc, e.regs.cptr), body[k].chars;
    JumpLands(body, e.regs, k, e.regs.(pc := GreedyTarget(env, e.regs.pc), cptr := c));
    MoreRoom(1, e.count, chars);
    RoomAfterBack(env.subject, e.regs.cptr, chars);
    assert (e.count - 1) * chars == e.count * chars - chars;
    if e.count > 1 {
      assert SafeEntryAt(env, body, Entry(GreedyState, e.regs.(cptr := c), e.count - 1), k);
    }
  }

  lemma UnwindingSafe(env: Env, body: seq<Instr>, matched: bool, cap: Captures, s: seq<Entry>)
    requires Program(env, body) && Safe(env, body, Machine(Unwinding(matched, cap), s))
    ensures Safe(env, body, Unwind(env, matched, cap, s))
  {
    hide Decode, PlaceOf, Exec, Repeat, Program, Room;
    if s != [] {
      var e := s[|s| - 1];
      assert SafeEntry(env, body, e) && ValidEntry(env, e);
      var k: nat :| SafeEntryAt(env, body, e, k);
      if e.kind == GreedyState {
        RetrySafe(env, body, e, k);
      } else {
        assert StandsAt(body, e.regs.(capture := cap), k);
      }
    }
  }

  lemma StepSafe(env: Env, body: seq<Instr>, m: Machine)
    requires Program(env, body) && Safe(env, body, m)
    ensures Safe(env, body, Step(env, m))
  {
    hide Program, StepRunning, Unwind;
    if m.mode.Running? {
      RunningSafe(env, body, m.mode.regs, m.states);
    } else if m.mode.Unwinding? {
      UnwindingSafe(env, body, m.mode.matched, m.mode.capture, m.states);
    }
  }

  lemma {:induction false} StepsSafe(env: Env, body: seq<Instr>, m: Machine, n: nat)
    requires Program(env, body) && Safe(env, body, m)
    ensures Safe(env, body, Steps(env, n, m))
    decreases n
  {
    hide Program, Step, Safe;
    if n > 0 {
      assert Valid(env, m) by { SafeIsValid(env, body, m); }
      StepSafe(env, body, m);
      StepsSafe(env, body, Step(env, m), n - 1);
    }
  }

  lemma SafeIsValid(env: Env, body: seq<Instr>, m: Machine)
    requires Safe(env, body, m)
    ensures Valid(env, m)
  {
  }

  /** The state that lre_exec starts the engine in. */
  function Start(env: Env, cptr: nat): Machine {
    Machine(Running(Regs(0, cptr, seq(2 * env.captureCount, _ => None), [])), [])
  }

  /** All retries of a saved quantifier can step back without leaving the subject. */
  ghost predicate RetryFits(env: Env, e: Entry) {
    var i := Decode(env.code, e.regs.pc);
    i.Some? && i.value.SimpleGreedy? && e.regs.cptr <= env.End() && e.count * i.value.chars <= Room(env.subject, e.regs.cptr)
  }

  /** Every state that a compiled pattern reaches satisfies the invariant. */
  lemma CompiledStaysSafe(env: Env, d: Disjunction, sticky: bool, cptr: nat, n: nat) returns (body: seq<Instr>)
    requires ParsedDisjunction(d) && CapturesDisjunction(d, 1) == env.captureCount && cptr <= env.End()
    requires CodeAt(env.code, 0, CompilePattern(d, sticky))
    ensures CompilePattern(d, sticky) == body + [Match] && Program(env, body)
    ensures Valid(env, Start(env, cptr)) && Safe(env, body, Steps(env, n, Start(env, cptr)))
  {
    hide CompilePattern, PlaceOf, Step, Steps, CodeAt, ParsedDisjunction, Room, Decode;
    body := PatternBlock(d, sticky);
    PatternOperands(d, sticky, env.captureCount);
    PlaceZero(body);
    assert StandsAt(body, Start(env, cptr).mode.regs, 0);
    StepsSafe(env, body, Start(env, cptr), n);
  }

  /** In every state that a compiled pattern reaches, from any start position and on any subject, the engine has not
      aborted, stands at an instruction with at most as many stack cells as compute_stack_size reserved, and steps back
      before the start of the subject in no retry. */
  lemma CompiledIsSafe(env: Env, d: Disjunction, sticky: bool, size: nat, cptr: nat, n: nat)
    requires ParsedDisjunction(d) && CapturesDisjunction(d, 1) == env.captureCount && cptr <= env.End()
    requires CodeAt(env.code, 0, CompilePattern(d, sticky))
    requires forall k :: 0 <= k <= |CompilePattern(d, sticky)| ==> PlaceOf(CompilePattern(d, sticky), k).depth <= size
    ensures Valid(env, Start(env, cptr))
    ensures var m := Steps(env, n, Start(env, cptr));
            && !m.mode.Aborted?
            && (m.mode.Running? ==> |m.mode.regs.stack| <= size
                                    && exists k: nat :: k < |CompilePattern(d, sticky)| && PlaceOf(CompilePattern(d, sticky), k).offset == m.mode.regs.pc)
            && forall e :: e in m.states ==> |e.regs.stack| <= size && (e.kind == GreedyState ==> RetryFits(env, e))
  {
    hide CompilePattern, PlaceOf, Step, Steps, CodeAt, ParsedDisjunction, Room, Decode;
    var body := CompiledStaysSafe(env, d, sticky, cptr, n);
    var code, m := CompilePattern(d, sticky), Steps(env, n, Start(env, cptr));
    forall k: nat | k <= |body| ensures PlaceOf(code, k) == PlaceOf(body, k) && PlaceOf(body, k).depth <= size {
      PlacePrefix(body, [Match], k);
    }
    if m.mode.Running? {
      var k: nat :| StandsAt(body, m.mode.regs, k);
      assert k < |code| && PlaceOf(code, k).offset == m.mode.regs.pc;
    }
    forall e | e in m.states ensures |e.regs.stack| <= size && (e.kind == GreedyState ==> RetryFits(env, e)) {
      assert SafeEntry(env, body, e);
      var k: nat :| SafeEntryAt(env, body, e, k);
      Fetch(env, body, e.regs, k);
    }
  }
}
