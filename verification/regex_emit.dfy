/** The blocks of instructions that the compiler emits for a quantifier, and where they stand in the code. */
module RegexEmit {
  import opened RegexInstr
  import opened RegexVm

  function ByteLength(a: seq<Instr>): nat {
    if a == [] then 0 else Size(a[0]) + ByteLength(a[1..])
  }

  lemma {:induction false} ByteLengthAdd(a: seq<Instr>, b: seq<Instr>)
    ensures ByteLength(a + b) == ByteLength(a) + ByteLength(b)
    decreases |a|
  {
    if a == [] {
      assert a + b == b;
    } else {
      ByteLengthAdd(a[1..], b);
      assert (a + b)[1..] == a[1..] + b;
    }
  }

  /** The instructions a stand in the code from pc on. */
  ghost predicate CodeAt(code: seq<Byte>, pc: nat, a: seq<Instr>)
    decreases |a|
  {
    a == [] || (Decode(code, pc) == Some(a[0]) && CodeAt(code, pc + Size(a[0]), a[1..]))
  }

  lemma {:induction false} CodeAtSplit(code: seq<Byte>, pc: nat, a: seq<Instr>, b: seq<Instr>)
    ensures CodeAt(code, pc, a + b) <==> CodeAt(code, pc, a) && CodeAt(code, pc + ByteLength(a), b)
    decreases |a|
  {
    hide Decode;
    if a == [] {
      assert a + b == b;
    } else {
      CodeAtSplit(code, pc + Size(a[0]), a[1..], b);
      assert (a + b)[1..] == a[1..] + b;
    }
  }

  /** Two instructions in a row. */
  lemma TwoInstructions(code: seq<Byte>, pc: nat, x: Instr, y: Instr)
    ensures ByteLength([x, y]) == Size(x) + Size(y)
    ensures CodeAt(code, pc, [x, y]) <==> Decode(code, pc) == Some(x) && Decode(code, pc + Size(x)) == Some(y)
  {
    hide Decode, Size;
    var s := [x, y];
    assert s[1..] == [y] && [y][1..] == [];
    assert ByteLength([y]) == Size(y);
    assert CodeAt(code, pc + Size(x), [y]) <==> Decode(code, pc + Size(x)) == Some(y);
  }

  /** re_is_simple_quantifier: the number of characters in the atom, or -1. */
  function SimpleLength(a: seq<Instr>): (n: int)
    ensures n >= -1
  {
    if a == [] then 0
    else if !Consumes(a[0]) && !Tests(a[0]) then -1
    else
      var n := SimpleLength(a[1..]);
      if n < 0 then -1 else n + (if Consumes(a[0]) then 1 else 0)
  }

  /** Opcodes that re_need_check_advance passes over. */
  predicate Passive(i: Instr) {
    || Tests(i) || i.PushI32? || i.PushCharPos? || i.Drop? || i.Prev?
    || i.Save? || i.SaveReset? || i.BackRef?
  }

  /** re_need_check_advance, after a prefix for which it holds the value sofar. */
  predicate NeedCheckAdvance(a: seq<Instr>, sofar: bool) {
    if a == [] then sofar
    else if Consumes(a[0]) then NeedCheckAdvance(a[1..], false)
    else if Passive(a[0]) then NeedCheckAdvance(a[1..], sofar)
    else true
  }

  /** No check is needed exactly when a character is taken for sure: somewhere, and with nothing that branches or may end
      the atom early. */
  lemma {:induction false} NeedCheckMeans(a: seq<Instr>, sofar: bool)
    ensures !NeedCheckAdvance(a, sofar) <==>
            && (forall i :: i in a ==> !(i.Split? || i.Goto? || i.Loop? || i.Match? || i.Lookahead? || i.CheckAdvance? || i.SimpleGreedy?))
            && (!sofar || exists i :: i in a && (i.Char? || i.Char32? || i.Dot? || i.Any? || i.Range? || i.Range32?))
    decreases |a|
  {
    if a != [] {
      NeedCheckMeans(a[1..], sofar && !Consumes(a[0]));
      assert a[0] in a && forall i :: i in a <==> i == a[0] || i in a[1..];
    }
  }

  /** An atom that the simple quantifier takes needs no check that it advances. */
  lemma {:induction false} SimpleAdvances(a: seq<Instr>, sofar: bool)
    requires SimpleLength(a) >= 0
    ensures NeedCheckAdvance(a, sofar) == (sofar && SimpleLength(a) == 0)
    decreases |a|
  {
    if a != [] {
      SimpleAdvances(a[1..], sofar && !Consumes(a[0]));
    }
  }

  /** The atom between the opcodes that check that it advances. */
  function Checked(a: seq<Instr>, check: bool): seq<Instr> {
    if check then [PushCharPos] + a + [CheckAdvance] else a
  }

  lemma CheckedLength(a: seq<Instr>, check: bool)
    ensures ByteLength(Checked(a, check)) == ByteLength(a) + 2 * Bit(check)
  {
    if check {
      ByteLengthAdd([PushCharPos] + a, [CheckAdvance]);
      ByteLengthAdd([PushCharPos], a);
    }
  }

  /** Zero or one time. */
  function Optional(a: seq<Instr>, greedy: bool, check: bool): seq<Instr> {
    [Split(ByteLength(a) + 2 * Bit(check), greedy)] + Checked(a, check)
  }

  /** Any number of times. */
  function Star(a: seq<Instr>, greedy: bool, check: bool): seq<Instr> {
    var n := ByteLength(a) + 2 * Bit(check);
    [Split(n + 5, greedy)] + Checked(a, check) + [Goto(-(n + 10))]
  }

  /** Up to max times, counted on the stack. */
  function Counted(a: seq<Instr>, max: nat, greedy: bool, check: bool): seq<Instr> {
    var n := ByteLength(a) + 2 * Bit(check);
    [PushI32(max), Split(n + 5, greedy)] + Checked(a, check) + [Loop(-(n + 10)), Drop]
  }

  /** At least once. */
  function Plus(a: seq<Instr>, greedy: bool): seq<Instr> {
    a + [Split(-(ByteLength(a) + 5), !greedy)]
  }

  /** Exactly min times. */
  function Mandatory(a: seq<Instr>, min: nat): seq<Instr> {
    if min == 1 then a else [PushI32(min)] + a + [Loop(-(ByteLength(a) + 5)), Drop]
  }

  /** What follows the mandatory repetitions. */
  function Extra(a: seq<Instr>, min: nat, max: nat, greedy: bool, check: bool): seq<Instr> {
    if max == INT32_MAX then Star(a, greedy, check)
    else if max > min then Counted(a, max - min, greedy, check)
    else []
  }

  /** The general quantifier: reset holds the opcode that clears the captures of an atom that may be skipped. */
  function Quantified(a: seq<Instr>, min: nat, max: nat, greedy: bool, check: bool, reset: seq<Instr>): seq<Instr> {
    if min == 0 then
      reset + (if max == 0 then []
               else if max == 1 then Optional(a, greedy, check)
               else if max == INT32_MAX then Star(a, greedy, check)
               else Counted(a, max, greedy, check))
    else if min == 1 && max == INT32_MAX && !check then Plus(a, greedy)
    else Mandatory(a, min) + Extra(a, min, max, greedy, check)
  }

  /** The one instruction that replaces a greedy quantifier over a simple atom. */
  function SimpleQuantified(a: seq<Instr>, min: nat, max: nat): seq<Instr>
    requires SimpleLength(a) > 0
  {
    [SimpleGreedy(ByteLength(a) + 1, min, max, SimpleLength(a))] + a + [Match]
  }
}
