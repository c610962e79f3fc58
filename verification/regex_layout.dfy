/** Where the pieces of compiled code stand: splits, jumps and loops. */
module RegexLayout {
  import opened RegexInstr
  import opened RegexEmit

  lemma OneAt(code: seq<Byte>, pc: nat, i: Instr)
    ensures ByteLength([i]) == Size(i) && (CodeAt(code, pc, [i]) <==> Decode(code, pc) == Some(i))
  {
    hide Decode, Size;
    assert [i][1..] == [];
  }

  lemma ThreeAt(code: seq<Byte>, pc: nat, x: Instr, y: Instr, z: Instr)
    ensures ByteLength([x, y, z]) == Size(x) + Size(y) + Size(z)
    ensures CodeAt(code, pc, [x, y, z]) ==>
              Decode(code, pc) == Some(x) && Decode(code, pc + Size(x)) == Some(y) && Decode(code, pc + Size(x) + Size(y)) == Some(z)
  {
    hide Decode, Size;
    TwoInstructions(code, pc + Size(x), y, z);
    assert [x, y, z][1..] == [y, z];
  }

  /** A split that tries first, then second. */
  predicate SplitsTo(code: seq<Byte>, pc: nat, first: nat, second: nat) {
    var i := Decode(code, pc);
    && i.Some? && i.value.Split? && pc + 5 + i.value.off >= 0
    && first == (if i.value.nextFirst then pc + 5 else pc + 5 + i.value.off)
    && second == (if i.value.nextFirst then pc + 5 + i.value.off else pc + 5)
  }

  predicate GoesTo(code: seq<Byte>, pc: nat, to: nat) {
    pc == to || (Decode(code, pc).Some? && Decode(code, pc).value.Goto? && pc + 5 + Decode(code, pc).value.off == to)
  }

  /** A loop: at head a split to body or exit, and behind the body a way back to head. */
  datatype Ring = Ring(head: nat, body: nat, exit: nat)

  ghost predicate RingAt(code: seq<Byte>, g: Ring, a: seq<Instr>, greedy: bool) {
    && CodeAt(code, g.body, a)
    && SplitsTo(code, g.head, if greedy then g.body else g.exit, if greedy then g.exit else g.body)
    && GoesTo(code, g.body + ByteLength(a), g.head)
  }

  /** A counted loop: head is a split to the body or to the Drop at end - 1, or the body itself. */
  ghost predicate CountAt(code: seq<Byte>, g: Ring, a: seq<Instr>, greedy: bool) {
    var x := g.body + ByteLength(a);
    && CodeAt(code, g.body, a)
    && (g.head == g.body || SplitsTo(code, g.head, if greedy then g.body else x + 5, if greedy then x + 5 else g.body))
    && Decode(code, x) == Some(Loop(g.head - (x + 5))) && Decode(code, x + 5) == Some(Drop) && g.exit == x + 6
  }

  lemma CheckedLayout(code: seq<Byte>, pc: nat, a: seq<Instr>, check: bool)
    requires CodeAt(code, pc, Checked(a, check))
    ensures CodeAt(code, pc + Bit(check), a) && ByteLength(Checked(a, check)) == ByteLength(a) + 2 * Bit(check)
    ensures check ==> Decode(code, pc) == Some(PushCharPos) && Decode(code, pc + 1 + ByteLength(a)) == Some(CheckAdvance)
  {
    hide Decode;
    CheckedLength(a, check);
    if check {
      CodeAtSplit(code, pc, [PushCharPos] + a, [CheckAdvance]);
      CodeAtSplit(code, pc, [PushCharPos], a);
      ByteLengthAdd([PushCharPos], a);
    }
  }

  lemma OptionalLayout(code: seq<Byte>, pc: nat, a: seq<Instr>, greedy: bool, check: bool)
    requires CodeAt(code, pc, Optional(a, greedy, check))
    ensures var b := Checked(a, check);
            var e := pc + 5 + ByteLength(b);
            && ByteLength(Optional(a, greedy, check)) == 5 + ByteLength(b) && CodeAt(code, pc + 5, b)
            && SplitsTo(code, pc, if greedy then pc + 5 else e, if greedy then e else pc + 5)
  {
    hide Decode;
    CheckedLength(a, check);
    var b := Checked(a, check);
    var s := [Split(ByteLength(b), greedy)];
    CodeAtSplit(code, pc, s, b);
    ByteLengthAdd(s, b);
  }

  lemma StarRing(code: seq<Byte>, pc: nat, a: seq<Instr>, greedy: bool, check: bool)
    requires CodeAt(code, pc, Star(a, greedy, check))
    ensures var b := Checked(a, check);
            && ByteLength(Star(a, greedy, check)) == ByteLength(b) + 10
            && RingAt(code, Ring(pc, pc + 5, pc + ByteLength(b) + 10), b, greedy)
  {
    hide Decode, CodeAt, ByteLength, Checked;
    CheckedLength(a, check);
    var b := Checked(a, check);
    var n: int := ByteLength(b);
    var s, g := [Split(n + 5, greedy)], [Goto(-(n + 10))];
    assert Star(a, greedy, check) == s + b + g;
    OneAt(code, pc, s[0]);
    OneAt(code, pc + 5 + n, g[0]);
    CodeAtSplit(code, pc, s + b, g);
    CodeAtSplit(code, pc, s, b);
    ByteLengthAdd(s + b, g);
    ByteLengthAdd(s, b);
  }

  lemma CountedRing(code: seq<Byte>, pc: nat, a: seq<Instr>, max: nat, greedy: bool, check: bool)
    requires CodeAt(code, pc, Counted(a, max, greedy, check))
    ensures var b := Checked(a, check);
            && ByteLength(Counted(a, max, greedy, check)) == ByteLength(b) + 16 && Decode(code, pc) == Some(PushI32(max))
            && CountAt(code, Ring(pc + 5, pc + 10, pc + ByteLength(b) + 16), b, greedy)
  {
    hide Decode, CodeAt, ByteLength, Checked;
    CheckedLength(a, check);
    var b := Checked(a, check);
    var n: int := ByteLength(b);
    var s, g := [PushI32(max), Split(n + 5, greedy)], [Loop(-(n + 10)), Drop];
    assert Counted(a, max, greedy, check) == s + b + g;
    CodeAtSplit(code, pc, s + b, g);
    CodeAtSplit(code, pc, s, b);
    ByteLengthAdd(s + b, g);
    ByteLengthAdd(s, b);
    TwoInstructions(code, pc, s[0], s[1]);
    TwoInstructions(code, pc + 10 + n, g[0], g[1]);
  }

  lemma MandatoryRing(code: seq<Byte>, pc: nat, a: seq<Instr>, min: nat)
    requires CodeAt(code, pc, Mandatory(a, min)) && min != 1
    ensures ByteLength(Mandatory(a, min)) == ByteLength(a) + 11 && Decode(code, pc) == Some(PushI32(min))
    ensures CountAt(code, Ring(pc + 5, pc + 5, pc + ByteLength(a) + 11), a, true)
  {
    hide Decode, CodeAt, ByteLength;
    OneAt(code, pc, PushI32(min));
    var n: int := ByteLength(a);
    var s, g := [PushI32(min)], [Loop(-(n + 5)), Drop];
    assert Mandatory(a, min) == s + a + g;
    CodeAtSplit(code, pc, s + a, g);
    CodeAtSplit(code, pc, s, a);
    ByteLengthAdd(s + a, g);
    ByteLengthAdd(s, a);
    TwoInstructions(code, pc + 5 + n, g[0], g[1]);
  }

  /** At least once: the atom, then a loop over it, with or without a copy of its own. */
  ghost predicate OnceAt(code: seq<Byte>, pc: nat, a: seq<Instr>, g: Ring, b: seq<Instr>, greedy: bool) {
    CodeAt(code, pc, a) && g.head == pc + ByteLength(a) && RingAt(code, g, b, greedy)
  }

  function OnceRing(pc: nat, a: seq<Instr>, check: bool): Ring {
    var n := ByteLength(a);
    if check then Ring(pc + n, pc + n + 5, pc + n + ByteLength(Checked(a, true)) + 10) else Ring(pc + n, pc, pc + n + 5)
  }

  lemma OnceLayout(code: seq<Byte>, pc: nat, a: seq<Instr>, greedy: bool, check: bool, reset: seq<Instr>)
    requires CodeAt(code, pc, Quantified(a, 1, INT32_MAX, greedy, check, reset))
    ensures OnceAt(code, pc, a, OnceRing(pc, a, check), Checked(a, check), greedy)
    ensures OnceRing(pc, a, check).exit == pc + ByteLength(Quantified(a, 1, INT32_MAX, greedy, check, reset))
  {
    hide Decode;
    var n: int := ByteLength(a);
    if check {
      var x := Star(a, greedy, true);
      CodeAtSplit(code, pc, a, x);
      ByteLengthAdd(a, x);
      StarRing(code, pc + n, a, greedy, true);
    } else {
      var s := [Split(-(n + 5), !greedy)];
      CodeAtSplit(code, pc, a, s);
      ByteLengthAdd(a, s);
    }
  }

  function Choice(a: seq<Instr>, b: seq<Instr>): seq<Instr> {
    [Split(ByteLength(a) + 5, true)] + a + [Goto(ByteLength(b))] + b
  }

  lemma ChoiceLayout(code: seq<Byte>, pc: nat, a: seq<Instr>, b: seq<Instr>)
    requires CodeAt(code, pc, Choice(a, b))
    ensures var n, m := ByteLength(a), ByteLength(b);
            && ByteLength(Choice(a, b)) == n + m + 10
            && SplitsTo(code, pc, pc + 5, pc + n + 10) && CodeAt(code, pc + 5, a) && CodeAt(code, pc + n + 10, b)
            && GoesTo(code, pc + 5 + n, pc + n + m + 10)
  {
    hide Decode;
    var s, g := [Split(ByteLength(a) + 5, true)], [Goto(ByteLength(b))];
    CodeAtSplit(code, pc, s + a + g, b);
    CodeAtSplit(code, pc, s + a, g);
    CodeAtSplit(code, pc, s, a);
    ByteLengthAdd(s + a + g, b);
    ByteLengthAdd(s + a, g);
    ByteLengthAdd(s, a);
  }

  function LookCode(a: seq<Instr>, negated: bool): seq<Instr> {
    [Lookahead(ByteLength(a) + 1, negated)] + a + [Match]
  }

  lemma LookLayout(code: seq<Byte>, pc: nat, a: seq<Instr>, negated: bool)
    requires CodeAt(code, pc, LookCode(a, negated))
    ensures var n := ByteLength(a);
            && ByteLength(LookCode(a, negated)) == n + 6 && Decode(code, pc) == Some(Lookahead(n + 1, negated))
            && CodeAt(code, pc + 5, a) && Decode(code, pc + 5 + n) == Some(Match)
  {
    hide Decode;
    var s := [Lookahead(ByteLength(a) + 1, negated)];
    CodeAtSplit(code, pc, s + a, [Match]);
    CodeAtSplit(code, pc, s, a);
    ByteLengthAdd(s + a, [Match]);
    ByteLengthAdd(s, a);
  }
}
