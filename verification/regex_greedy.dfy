/** Replacing a greedy quantifier over a simple atom by one opcode preserves the meaning of the program. */
module RegexGreedy {
  import opened RegexInstr
  import opened RegexVm
  import opened RegexSearch
  import opened RegexRefine
  import opened RegexEmit
  import opened RegexSimple

  // How searches come to their answers, one instruction at a time.

  lemma LocalStep(env: Env, r: Regs, i: Instr, o: Outcome)
    requires ValidRegs(env, r) && Decode(env.code, r.pc) == Some(i) && Local(i)
    ensures Converges(env, r, o) <==>
            match Exec(env, i, r)
            case Go(r') => Converges(env, r', o)
            case Fail => o == NoMatch
            case Abort => o == Crashed
  {
    hide Decode, Exec, ValidRegs;
    var e := Exec(env, i, r);
    if Converges(env, r, o) {
      var f: nat :| Search(env, f, r) == o;
      assert e.Go? ==> Search(env, f - 1, e.regs) == o;
    }
    if e.Go? && Converges(env, e.regs, o) {
      var f: nat :| Search(env, f, e.regs) == o;
      assert Search(env, f + 1, r) == o;
    }
    if !e.Go? {
      assert Search(env, 1, r) == if e.Fail? then NoMatch else Crashed;
    }
  }

  /** The first alternative has the answer, or it fails and the second one has it. */
  ghost predicate OrElse(env: Env, first: Regs, second: Regs, o: Outcome)
    requires ValidRegs(env, first) && ValidRegs(env, second)
  {
    (o != NoMatch && Converges(env, first, o)) || (Converges(env, first, NoMatch) && Converges(env, second, o))
  }

  lemma SplitStep(env: Env, r: Regs, off: int, nextFirst: bool, o: Outcome)
    requires ValidRegs(env, r) && Decode(env.code, r.pc) == Some(Split(off, nextFirst)) && r.pc + 5 + off >= 0
    ensures var next, other := r.(pc := r.pc + 5), r.(pc := r.pc + 5 + off);
            Converges(env, r, o) <==> if nextFirst then OrElse(env, next, other, o) else OrElse(env, other, next, o)
  {
    hide Decode, Search;
    var next, other := r.(pc := r.pc + 5), r.(pc := r.pc + 5 + off);
    var first, second := if nextFirst then next else other, if nextFirst then other else next;
    if Converges(env, r, o) {
      var f: nat :| Search(env, f, r) == o;
      SplitSearch(env, r, off, nextFirst, 0);
      SplitSearch(env, r, off, nextFirst, f - 1);
    }
    if o != NoMatch && Converges(env, first, o) {
      var f: nat :| Search(env, f, first) == o;
      SplitSearch(env, r, off, nextFirst, f);
    }
    if Converges(env, first, NoMatch) && Converges(env, second, o) {
      var f: nat :| Search(env, f, first) == NoMatch;
      var g: nat :| Search(env, g, second) == o;
      var n := if f < g then g else f;
      FuelEnough(env, f, n, first);
      FuelEnough(env, g, n, second);
      SplitSearch(env, r, off, nextFirst, n);
    }
  }

  lemma SplitSearch(env: Env, r: Regs, off: int, nextFirst: bool, f: nat)
    requires ValidRegs(env, r) && Decode(env.code, r.pc) == Some(Split(off, nextFirst)) && r.pc + 5 + off >= 0
    ensures var next, other := r.(pc := r.pc + 5), r.(pc := r.pc + 5 + off);
            var o1 := Search(env, f, if nextFirst then next else other);
            Search(env, f + 1, r) == if o1.NoMatch? then Search(env, f, if nextFirst then other else next) else o1
    ensures Search(env, 0, r).OutOfFuel?
  {
    hide Decode;
  }

  lemma ConvergesOnce(env: Env, r: Regs, o: Outcome, o': Outcome)
    requires ValidRegs(env, r) && Converges(env, r, o) && Converges(env, r, o')
    ensures o == o'
  {
    hide Search;
    var f: nat :| Search(env, f, r) == o;
    var g: nat :| Search(env, g, r) == o';
    if f <= g {
      FuelEnough(env, f, g, r);
    } else {
      FuelEnough(env, g, f, r);
    }
  }

  /** A lookaround whose inside comes to o1 goes on from where it stands, with the captures of a positive one, or fails. */
  lemma LookStep(env: Env, r: Regs, off: nat, negated: bool, o1: Outcome, o: Outcome)
    requires ValidRegs(env, r) && Decode(env.code, r.pc) == Some(Lookahead(off, negated))
    requires Converges(env, r.(pc := r.pc + 5), o1) && !o1.Crashed? && (o1.Matched? ==> ValidCaptures(env, o1.capture))
    ensures var on := r.(pc := r.pc + 5 + off);
            Converges(env, r, o) <==>
            if negated then if o1.NoMatch? then Converges(env, on, o) else o == NoMatch
            else if o1.Matched? then Converges(env, on.(capture := o1.capture), o) else o == NoMatch
  {
    hide Decode, Search;
    var inside, on := r.(pc := r.pc + 5), r.(pc := r.pc + 5 + off);
    var next := if !negated && o1.Matched? then on.(capture := o1.capture) else on;
    var f: nat :| Search(env, f, inside) == o1;
    if Converges(env, r, o) {
      var g: nat :| Search(env, g, r) == o;
      LookSearch(env, r, off, negated, 0);
      LookSearch(env, r, off, negated, g - 1);
      assert Converges(env, inside, Search(env, g - 1, inside));
      ConvergesOnce(env, inside, o1, Search(env, g - 1, inside));
    }
    if negated == o1.NoMatch? {
      if Converges(env, next, o) {
        var g: nat :| Search(env, g, next) == o;
        var m := if f < g then g else f;
        FuelEnough(env, f, m, inside);
        FuelEnough(env, g, m, next);
        LookSearch(env, r, off, negated, m);
      }
    } else {
      LookSearch(env, r, off, negated, f);
    }
  }

  lemma LookSearch(env: Env, r: Regs, off: nat, negated: bool, f: nat)
    requires ValidRegs(env, r) && Decode(env.code, r.pc) == Some(Lookahead(off, negated))
    ensures var o, on := Search(env, f, r.(pc := r.pc + 5)), r.(pc := r.pc + 5 + off);
            Search(env, f + 1, r) == if o.OutOfFuel? || o.Crashed? then o
                                     else if negated then if o.NoMatch? then Search(env, f, on) else NoMatch
                                     else if o.Matched? then Search(env, f, on.(capture := o.capture)) else NoMatch
    ensures Search(env, 0, r).OutOfFuel?
  {
    hide Decode;
  }

  /** The continuation r, tried at each of the positions in turn. */
  ghost predicate FirstOf(env: Env, r: Regs, ps: seq<nat>, o: Outcome)
    requires ValidRegs(env, r) && forall k :: 0 <= k < |ps| ==> ps[k] <= env.End()
  {
    if ps == [] then o == NoMatch
    else
      var h := r.(cptr := ps[0]);
      (o != NoMatch && Converges(env, h, o)) || (Converges(env, h, NoMatch) && FirstOf(env, r, ps[1..], o))
  }

  lemma {:induction false} FirstOfAppend(env: Env, r: Regs, ps: seq<nat>, c: nat, o: Outcome)
    requires ValidRegs(env, r) && c <= env.End() && forall k :: 0 <= k < |ps| ==> ps[k] <= env.End()
    ensures FirstOf(env, r, ps + [c], o) <==>
            (o != NoMatch && FirstOf(env, r, ps, o)) || (FirstOf(env, r, ps, NoMatch) && Converges(env, r.(cptr := c), o))
    decreases |ps|
  {
    hide Converges;
    if ps == [] {
      assert FirstOf(env, r, [c], o) <==> Converges(env, r.(cptr := c), o) by {
        assert [c][1..] == [];
      }
      assert ps + [c] == [c];
    } else {
      assert (ps + [c])[1..] == ps[1..] + [c];
      FirstOfAppend(env, r, ps[1..], c, o);
    }
  }

  lemma FirstOfOne(env: Env, r: Regs, c: nat, o: Outcome)
    requires ValidRegs(env, r) && c <= env.End()
    ensures FirstOf(env, r, [c], o) <==> Converges(env, r.(cptr := c), o)
  {
    hide Converges;
    assert [c][1..] == [];
  }

  // The opcode.

  ghost predicate GreedyConverges(env: Env, r: Regs, n: nat, o: Outcome)
    requires ValidRegs(env, r) && GreedyAt(env, r.pc)
  {
    !o.OutOfFuel? && exists fuel :: SearchGreedy(env, fuel, r, n) == o
  }

  lemma {:induction false} RetriesInTurn(env: Env, r: Regs, n: nat, chars: nat, o: Outcome)
    requires ValidRegs(env, r) && GreedyAt(env, r.pc) && chars == Decode(env.code, r.pc).value.chars
    ensures GreedyConverges(env, r, n, o) <==>
            FirstOf(env, r.(pc := GreedyTarget(env, r.pc)), Retries(env.subject, r.cptr, n, chars), o)
    decreases n
  {
    hide Decode, Search, GreedyTarget, BackBy;
    var on := r.(pc := GreedyTarget(env, r.pc));
    var ps := Retries(env.subject, r.cptr, n, chars);
    assert on.(cptr := r.cptr) == on;
    if n == 0 {
      FirstOfOne(env, on, r.cptr, o);
      forall fuel ensures SearchGreedy(env, fuel, r, 0) == Search(env, fuel, on) {
      }
      assert Converges(env, on, o) <==> GreedyConverges(env, r, n, o);
    } else {
      var r' := r.(cptr := BackBy(env.subject, r.cptr, chars));
      assert GreedyBack(env, r.pc, r.cptr) == r'.cptr;
      RetriesInTurn(env, r', n - 1, chars, o);
      assert ps[0] == r.cptr && ps[1..] == Retries(env.subject, r'.cptr, n - 1, chars);
      assert on.(cptr := r'.cptr) == r'.(pc := GreedyTarget(env, r'.pc));
      FirstOfBase(env, on, r'.(pc := GreedyTarget(env, r'.pc)), ps[1..], o);
      GreedyStep(env, r, r', n, o);
    }
  }

  /** FirstOf does not look at the position of the registers it is given. */
  lemma {:induction false} FirstOfBase(env: Env, r: Regs, r': Regs, ps: seq<nat>, o: Outcome)
    requires ValidRegs(env, r) && ValidRegs(env, r') && r' == r.(cptr := r'.cptr)
    requires forall k :: 0 <= k < |ps| ==> ps[k] <= env.End()
    ensures FirstOf(env, r, ps, o) <==> FirstOf(env, r', ps, o)
    decreases |ps|
  {
    hide Converges;
    if ps != [] {
      FirstOfBase(env, r, r', ps[1..], o);
      assert r.(cptr := ps[0]) == r'.(cptr := ps[0]);
    }
  }

  lemma GreedyStep(env: Env, r: Regs, r': Regs, n: nat, o: Outcome)
    requires ValidRegs(env, r) && GreedyAt(env, r.pc) && n > 0 && r' == r.(cptr := GreedyBack(env, r.pc, r.cptr))
    ensures var on := r.(pc := GreedyTarget(env, r.pc));
            GreedyConverges(env, r, n, o) <==>
            (o != NoMatch && Converges(env, on, o)) || (Converges(env, on, NoMatch) && GreedyConverges(env, r', n - 1, o))
  {
    hide Decode, Search, GreedyAt, GreedyTarget, GreedyBack;
    var on := r.(pc := GreedyTarget(env, r.pc));
    if GreedyConverges(env, r, n, o) {
      var f: nat :| SearchGreedy(env, f, r, n) == o;
      var o1 := Search(env, f, on);
      assert if o1.NoMatch? then SearchGreedy(env, f, r', n - 1) == o else o1 == o;
    }
    if o != NoMatch && Converges(env, on, o) {
      var f: nat :| Search(env, f, on) == o;
      assert SearchGreedy(env, f, r, n) == o;
    }
    if Converges(env, on, NoMatch) && GreedyConverges(env, r', n - 1, o) {
      var f: nat :| Search(env, f, on) == NoMatch;
      var g: nat :| SearchGreedy(env, g, r', n - 1) == o;
      var m := if f < g then g else f;
      FuelEnough(env, f, m, on);
      FuelEnoughGreedy(env, g, m, r', n - 1);
      assert SearchGreedy(env, m, r, n) == o;
    }
  }

  /** The quantifier opcode tries its continuation at the positions OpcodeTrials. */
  lemma OpcodeMeaning(env: Env, r: Regs, a: seq<Instr>, min: nat, max: nat, o: Outcome)
    requires ValidRegs(env, r) && SimpleLength(a) > 0 && CodeAt(env.code, r.pc, SimpleQuantified(a, min, max))
    ensures Converges(env, r, o) <==>
            FirstOf(env, r.(pc := r.pc + ByteLength(SimpleQuantified(a, min, max))), OpcodeTrials(env, a, r.cptr, min, max), o)
  {
    hide Decode, Search, Repeat, Retries, AtomOn, ByteLength, CodeAt, Count;
    var i := SimpleGreedy(ByteLength(a) + 1, min, max, SimpleLength(a));
    SimpleLayout(env.code, r.pc, a, min, max);
    RepeatIsCount(env, r.pc + 17, a, r.cptr, max, 0);
    var n := Count(env, a, r.cptr, max, 0);
    GreedyEnters(env, r, i, n.0, n.1, o);
    if n.0 >= min {
      var r' := r.(cptr := n.1);
      RetriesInTurn(env, r', n.0 - min, SimpleLength(a), o);
      FirstOfBase(env, r.(pc := GreedyTarget(env, r.pc)), r'.(pc := GreedyTarget(env, r.pc)),
                  Retries(env.subject, n.1, n.0 - min, SimpleLength(a)), o);
    }
  }

  lemma SimpleLayout(code: seq<Byte>, pc: nat, a: seq<Instr>, min: nat, max: nat)
    requires SimpleLength(a) > 0 && CodeAt(code, pc, SimpleQuantified(a, min, max))
    ensures Decode(code, pc) == Some(SimpleGreedy(ByteLength(a) + 1, min, max, SimpleLength(a)))
    ensures CodeAt(code, pc + 17, a) && Decode(code, pc + 17 + ByteLength(a)) == Some(Match)
    ensures ByteLength(SimpleQuantified(a, min, max)) == 18 + ByteLength(a)
  {
    hide Decode;
    var i := SimpleGreedy(ByteLength(a) + 1, min, max, SimpleLength(a));
    CodeAtSplit(code, pc, [i] + a, [Match]);
    CodeAtSplit(code, pc, [i], a);
    ByteLengthAdd([i] + a, [Match]);
    ByteLengthAdd([i], a);
  }

  lemma GreedyEnters(env: Env, r: Regs, i: Instr, q: nat, c: nat, o: Outcome)
    requires ValidRegs(env, r) && Decode(env.code, r.pc) == Some(i) && i.SimpleGreedy? && i.off >= 0 && c <= env.End()
    requires Repeat(env, r.pc + 17, r.cptr, i.max, 0) == Repeats(q, c)
    ensures GreedyAt(env, r.pc)
    ensures Converges(env, r, o) <==> if q < i.min then o == NoMatch else GreedyConverges(env, r.(cptr := c), q - i.min, o)
  {
    hide Decode, Repeat, SearchGreedy;
    if Converges(env, r, o) {
      var f: nat :| Search(env, f, r) == o;
      assert q >= i.min ==> SearchGreedy(env, f - 1, r.(cptr := c), q - i.min) == o;
    }
    if q < i.min {
      assert Search(env, 1, r) == NoMatch;
    } else if GreedyConverges(env, r.(cptr := c), q - i.min, o) {
      var f: nat :| SearchGreedy(env, f, r.(cptr := c), q - i.min) == o;
      assert Search(env, f + 1, r) == o;
    }
  }
}
