/** The order in which a quantifier over a simple atom tries its end positions. */
module RegexSimple {
  import opened RegexInstr
  import opened RegexChars
  import opened RegexVm
  import opened RegexEmit

  /** Where the atom ends when it matches at c. */
  function AtomOn(env: Env, a: seq<Instr>, c: nat): (e: Option<nat>)
    requires SimpleLength(a) >= 0 && c <= env.End()
    ensures e.Some? ==> c <= e.value <= env.End() && (SimpleLength(a) > 0 ==> c < e.value)
  {
    if a == [] then Some(c)
    else if Consumes(a[0]) then
      if c >= env.End() || !Accepts(env, a[0], env.subject.CharAt(c, env.End())) then None
      else AtomOn(env, a[1..], env.subject.Next(c, env.End()))
    else if Holds(env, a[0], c) then AtomOn(env, a[1..], c) else None
  }

  /** Inside the quantifier, the atom is followed by Match. */
  lemma {:induction false} RunAtomIsAtomOn(env: Env, pc: nat, a: seq<Instr>, c: nat)
    requires SimpleLength(a) >= 0 && c <= env.End() && CodeAt(env.code, pc, a)
    requires Decode(env.code, pc + ByteLength(a)) == Some(Match)
    ensures RunAtom(env, pc, c) == match AtomOn(env, a, c) case Some(e) => AtomEnd(e) case None => AtomFail
    decreases |a|
  {
    hide Decode, Accepts, Holds;
    if a != [] {
      if Consumes(a[0]) {
        if c < env.End() {
          RunAtomIsAtomOn(env, pc + Size(a[0]), a[1..], env.subject.Next(c, env.End()));
        }
      } else {
        RunAtomIsAtomOn(env, pc + Size(a[0]), a[1..], c);
      }
    }
  }

  lemma {:induction false} BackBySplit(s: Subject, p: nat, n: nat, m: nat)
    requires p <= |s.units|
    ensures BackBy(s, p, n + m) == BackBy(s, BackBy(s, p, n), m)
    decreases n
  {
    if n > 0 && p > 0 {
      BackBySplit(s, s.Back(p, 0), n - 1, m);
      assert n + m - 1 == n - 1 + m;
    }
  }

  /** The number of characters before p: how often PREV_CHAR can step back. */
  function Room(s: Subject, p: nat): nat
    requires p <= |s.units|
  {
    if p == 0 then 0 else 1 + Room(s, s.Back(p, 0))
  }

  /** With room for them, n steps back never run into the start of the subject. */
  lemma {:induction false} RoomAfterBack(s: Subject, p: nat, n: nat)
    requires p <= |s.units| && n <= Room(s, p)
    ensures Room(s, BackBy(s, p, n)) == Room(s, p) - n
    decreases n
  {
    if n > 0 {
      RoomAfterBack(s, s.Back(p, 0), n - 1);
    }
  }

  /** The atom leaves room for stepping back over it. */
  lemma {:induction false} AtomLeavesRoom(env: Env, a: seq<Instr>, c: nat)
    requires SimpleLength(a) >= 0 && c <= env.End() && AtomOn(env, a, c).Some?
    ensures Room(env.subject, AtomOn(env, a, c).value)
            >= SimpleLength(a) + (if env.subject.Boundary(c) then Room(env.subject, c) else 0)
    decreases |a|
  {
    hide Accepts, Holds;
    if a != [] {
      if Consumes(a[0]) {
        var s := env.subject;
        NextAlwaysBoundary(s, c);
        BackUndoesNext(s, c);
        AtomLeavesRoom(env, a[1..], s.Next(c, env.End()));
      } else {
        AtomLeavesRoom(env, a[1..], c);
      }
    }
  }

  /** Stepping back over as many characters as the atom consumed returns to where it began exactly from a boundary. */
  lemma {:induction false} BackOverAtom(env: Env, a: seq<Instr>, c: nat)
    requires SimpleLength(a) > 0 && c <= env.End() && AtomOn(env, a, c).Some?
    ensures var e := AtomOn(env, a, c).value;
            && env.subject.Boundary(e)
            && (BackBy(env.subject, e, SimpleLength(a)) == c <==> env.subject.Boundary(c))
    decreases |a|
  {
    hide Accepts, Holds;
    if Consumes(a[0]) {
      var s, end := env.subject, env.End();
      var d := s.Next(c, end);
      var n, e := SimpleLength(a[1..]), AtomOn(env, a[1..], d).value;
      NextAlwaysBoundary(s, c);
      if n > 0 {
        BackOverAtom(env, a[1..], d);
      } else {
        NothingConsumed(env, a[1..], d);
      }
      BackBySplit(s, e, n, 1);
      BackUndoesNext(s, c);
      assert BackBy(s, d, 1) == BackBy(s, s.Back(d, 0), 0) == s.Back(d, 0);
    } else {
      BackOverAtom(env, a[1..], c);
    }
  }

  lemma {:induction false} NothingConsumed(env: Env, a: seq<Instr>, c: nat)
    requires SimpleLength(a) == 0 && c <= env.End() && AtomOn(env, a, c).Some?
    ensures AtomOn(env, a, c).value == c
    decreases |a|
  {
    hide Accepts, Holds;
    if a != [] {
      NothingConsumed(env, a[1..], c);
    }
  }

  /** The end positions that a greedy quantifier tries from c on, in order. No max means any number of repetitions. */
  function Trials(env: Env, a: seq<Instr>, c: nat, min: nat, max: Option<nat>): (ps: seq<nat>)
    requires SimpleLength(a) > 0 && c <= env.End()
    ensures forall k :: 0 <= k < |ps| ==> ps[k] <= env.End()
    decreases env.End() - c
  {
    var here := if min == 0 then [c] else [];
    if max == Some(0) then here
    else match AtomOn(env, a, c)
      case None => here
      case Some(e) => Trials(env, a, e, if min == 0 then 0 else min - 1, Fewer(max)) + here
  }

  function Fewer(max: Option<nat>): Option<nat>
    requires max != Some(0)
  {
    if max.None? then None else Some(max.value - 1)
  }

  /** The number of repetitions that a quantifier with bound max still allows after q of them. */
  function Left(max: nat, q: nat): Option<nat>
    requires q <= max || max == INT32_MAX
  {
    if max == INT32_MAX then None else Some(max - q)
  }

  function Minus(min: nat, q: nat): nat {
    if q <= min then min - q else 0
  }

  /** The counting loop on the atom's own terms; the first repetition is tried whatever max is. */
  function Count(env: Env, a: seq<Instr>, c: nat, max: nat, q: nat): (r: (nat, nat))
    requires SimpleLength(a) > 0 && c <= env.End()
    ensures q <= r.0 && c <= r.1 <= env.End()
    ensures r.0 == q <==> AtomOn(env, a, c).None?
    decreases env.End() - c
  {
    match AtomOn(env, a, c)
    case None => (q, c)
    case Some(e) => if q + 1 >= max && max != INT32_MAX then (q + 1, e) else Count(env, a, e, max, q + 1)
  }

  lemma {:induction false} RepeatIsCount(env: Env, pc: nat, a: seq<Instr>, c: nat, max: nat, q: nat)
    requires SimpleLength(a) > 0 && c <= env.End() && CodeAt(env.code, pc, a)
    requires Decode(env.code, pc + ByteLength(a)) == Some(Match)
    ensures Repeat(env, pc, c, max, q) == Repeats(Count(env, a, c, max, q).0, Count(env, a, c, max, q).1)
    decreases env.End() - c
  {
    hide Decode, RunAtom;
    RunAtomIsAtomOn(env, pc, a, c);
    var e := AtomOn(env, a, c);
    if e.Some? && (q + 1 < max || max == INT32_MAX) {
      RepeatIsCount(env, pc, a, e.value, max, q + 1);
    }
  }

  /** The counting loop leaves room for stepping back over every repetition. */
  lemma {:induction false} CountLeavesRoom(env: Env, a: seq<Instr>, c: nat, max: nat, q: nat)
    requires SimpleLength(a) > 0 && c <= env.End()
    ensures var r := Count(env, a, c, max, q);
            Room(env.subject, r.1) >= (r.0 - q) * SimpleLength(a) + (if env.subject.Boundary(c) then Room(env.subject, c) else 0)
    decreases env.End() - c
  {
    hide AtomOn, SimpleLength, Room;
    var e, n, r := AtomOn(env, a, c), SimpleLength(a), Count(env, a, c, max, q);
    if e.Some? {
      AtomLeavesRoom(env, a, c);
      BackOverAtom(env, a, c);
      if q + 1 < max || max == INT32_MAX {
        CountLeavesRoom(env, a, e.value, max, q + 1);
        assert (r.0 - q) * n == (r.0 - (q + 1)) * n + n;
      }
    }
  }

  /** The end positions that the opcode tries: where the counting loop ended, then n times one atom back. */
  function Retries(s: Subject, c: nat, n: nat, chars: nat): (ps: seq<nat>)
    requires c <= |s.units|
    ensures |ps| == n + 1 && forall k :: 0 <= k < |ps| ==> ps[k] <= |s.units|
    decreases n
  {
    if n == 0 then [c] else [c] + Retries(s, BackBy(s, c, chars), n - 1, chars)
  }

  /** One more retry goes one atom further back. */
  lemma {:induction false} RetriesExtend(s: Subject, c: nat, n: nat, chars: nat)
    requires c <= |s.units|
    ensures var ps := Retries(s, c, n, chars); Retries(s, c, n + 1, chars) == ps + [BackBy(s, ps[n], chars)]
    decreases n
  {
    if n > 0 {
      RetriesExtend(s, BackBy(s, c, chars), n - 1, chars);
      assert Retries(s, c, n, chars) == [c] + Retries(s, BackBy(s, c, chars), n - 1, chars);
    }
  }

  /** The order in which REOP_simple_greedy_quant tries positions. */
  function OpcodeTrials(env: Env, a: seq<Instr>, c: nat, min: nat, max: nat): (ps: seq<nat>)
    requires SimpleLength(a) > 0 && c <= env.End()
    ensures forall k :: 0 <= k < |ps| ==> ps[k] <= env.End()
  {
    var r := Count(env, a, c, max, 0);
    if r.0 < min then [] else Retries(env.subject, r.1, r.0 - min, SimpleLength(a))
  }

  /** From c, after q repetitions, the positions ps are those of the retries from the end r of the counting loop. */
  ghost predicate Retraced(s: Subject, ps: seq<nat>, r: (nat, nat), min: nat, q: nat, chars: nat, c: nat)
    requires q <= r.0 && r.1 <= |s.units|
  {
    && (r.0 < min ==> ps == [])
    && (r.0 >= min ==> ps == Retries(s, r.1, r.0 - (if q > min then q else min), chars))
    && (r.0 >= min && q >= min ==> ps[r.0 - q] == c)
  }

  lemma RetraceStep(s: Subject, ps: seq<nat>, r: (nat, nat), min: nat, q: nat, chars: nat, e: nat, c: nat)
    requires q + 1 <= r.0 && r.1 <= |s.units| && e <= |s.units| && Retraced(s, ps, r, min, q + 1, chars, e)
    requires q >= min ==> BackBy(s, e, chars) == c
    ensures Retraced(s, ps + (if q >= min then [c] else []), r, min, q, chars, c)
  {
    hide BackBy, Retries;
    if q >= min {
      RetriesExtend(s, r.1, r.0 - (q + 1), chars);
    } else {
      assert ps + [] == ps;
    }
  }

  /** The retries walk down through the very positions the counting loop passed. */
  lemma {:induction false} CountRetraces(env: Env, a: seq<Instr>, c: nat, min: nat, max: nat, q: nat)
    requires SimpleLength(a) > 0 && c <= env.End() && (q < max || max == INT32_MAX)
    requires env.subject.Boundary(c) || q < min
    ensures Retraced(env.subject, Trials(env, a, c, Minus(min, q), Left(max, q)), Count(env, a, c, max, q), min, q, SimpleLength(a), c)
    decreases env.End() - c
  {
    hide AtomOn, BackBy, Retries, Trials, Count, Minus, Left, SimpleLength, Retraced;
    var s, chars, e := env.subject, SimpleLength(a), AtomOn(env, a, c);
    TrialsStep(env, a, c, min, max, q);
    if e.None? {
      NotRepeated(s, c, min, q, chars);
    } else {
      BackOverAtom(env, a, c);
      if q + 1 < max || max == INT32_MAX {
        CountRetraces(env, a, e.value, min, max, q + 1);
      } else {
        NotRepeated(s, e.value, min, q + 1, chars);
      }
      RetraceStep(s, Trials(env, a, e.value, Minus(min, q + 1), Left(max, q + 1)), Count(env, a, c, max, q), min, q, chars, e.value, c);
    }
  }

  lemma TrialsStep(env: Env, a: seq<Instr>, c: nat, min: nat, max: nat, q: nat)
    requires SimpleLength(a) > 0 && c <= env.End() && (q < max || max == INT32_MAX)
    ensures var here, e := if q >= min then [c] else [], AtomOn(env, a, c);
            && Trials(env, a, c, Minus(min, q), Left(max, q))
               == (if e.None? then here else Trials(env, a, e.value, Minus(min, q + 1), Left(max, q + 1)) + here)
            && Count(env, a, c, max, q)
               == (if e.None? then (q, c)
                   else if q + 1 >= max && max != INT32_MAX then (q + 1, e.value) else Count(env, a, e.value, max, q + 1))
            && (e.Some? && q + 1 == max != INT32_MAX ==>
                  Trials(env, a, e.value, Minus(min, q + 1), Left(max, q + 1)) == if q + 1 >= min then [e.value] else [])
  {
    hide AtomOn;
  }

  lemma NotRepeated(s: Subject, c: nat, min: nat, q: nat, chars: nat)
    requires c <= |s.units|
    ensures Retraced(s, if q >= min then [c] else [], (q, c), min, q, chars, c)
  {
  }

  /** The opcode tries the same positions in the same order as the general loop, except when it starts inside a
      surrogate pair, may stop after no repetition, and the atom matches there. */
  lemma SameTrials(env: Env, a: seq<Instr>, c: nat, min: nat, max: nat)
    requires SimpleLength(a) > 0 && c <= env.End() && max > 0
    ensures OpcodeTrials(env, a, c, min, max) == Trials(env, a, c, min, Left(max, 0))
            <==> (env.subject.Boundary(c) || min > 0 || AtomOn(env, a, c).None?)
  {
    hide AtomOn;
    if env.subject.Boundary(c) || min > 0 {
      CountRetraces(env, a, c, min, max, 0);
    } else if AtomOn(env, a, c).Some? {
      MidPairDiffers(env, a, c, max);
    }
  }

  /** Starting inside a surrogate pair, the last retry overshoots. */
  lemma MidPairDiffers(env: Env, a: seq<Instr>, c: nat, max: nat)
    requires SimpleLength(a) > 0 && c <= env.End() && max > 0
    requires !env.subject.Boundary(c) && AtomOn(env, a, c).Some?
    ensures OpcodeTrials(env, a, c, 0, max) != Trials(env, a, c, 0, Left(max, 0))
  {
    hide AtomOn;
    var s, chars, r, e := env.subject, SimpleLength(a), Count(env, a, c, max, 0), AtomOn(env, a, c).value;
    BackOverAtom(env, a, c);
    if max > 1 {
      CountRetraces(env, a, e, 1, max, 1);
    }
    var ps, ts := OpcodeTrials(env, a, c, 0, max), Trials(env, a, c, 0, Left(max, 0));
    RetriesExtend(s, r.1, r.0 - 1, chars);
    assert ps[|ps| - 1] == BackBy(s, e, chars);
    assert ts[|ts| - 1] == c;
  }

  /** Such a case: from inside the pair, the opcode for any number of any characters tries 2 and 0, the general loop 2 and 1. */
  lemma MidPairExample(env: Env)
    requires env.subject == Subject([0xd800, 0xdc00], true)
    ensures OpcodeTrials(env, [Any], 1, 0, INT32_MAX) == [2, 0] && Trials(env, [Any], 1, 0, None) == [2, 1]
  {
    assert [Any][1..] == [];
    assert AtomOn(env, [Any], 1) == AtomOn(env, [], 2) == Some(2) && AtomOn(env, [Any], 2) == None;
    assert Count(env, [Any], 1, INT32_MAX, 0) == Count(env, [Any], 2, INT32_MAX, 1) == (1, 2);
    assert BackBy(env.subject, 2, 1) == 0;
    assert Retries(env.subject, 2, 1, 1) == [2] + Retries(env.subject, 0, 0, 1);
    assert Trials(env, [Any], 2, 0, None) == [2];
  }
}
