/** The bytecode of the regular expression engine: instructions, their encoding and their decoding. */
module RegexInstr {

  type Byte = b: nat | b < 0x100 witness 0
  const U32_MAX: nat := 0xffff_ffff
  const INT32_MAX: nat := 0x7fff_ffff

  datatype Option<+T> = None | Some(value: T)

  /** Jump offsets are relative to the end of the instruction, in bytes. */
  datatype Instr =
    | Char(c: nat)
    | Char32(c: nat)
    | Dot
    | Any
    | LineStart
    | LineEnd
    | Goto(off: int)
    | Split(off: int, nextFirst: bool)
    | Match
    | Save(idx: nat, end: bool)
    | SaveReset(lo: nat, hi: nat)
    | Loop(off: int)
    | PushI32(v: nat)
    | Drop
    | WordBoundary(negated: bool)
    | BackRef(idx: nat, backward: bool)
    | Range(pairs: seq<(nat, nat)>)
    | Range32(pairs: seq<(nat, nat)>)
    | Lookahead(off: int, negated: bool)
    | PushCharPos
    | CheckAdvance
    | Prev
    | SimpleGreedy(off: int, min: nat, max: nat, chars: nat)

  /** The size of an encoded instruction, as reopcode_info and the two range opcodes give it. */
  function Size(i: Instr): (n: nat)
    ensures n >= 1
  {
    match i
    case Char(_) => 3
    case Char32(_) | Goto(_) | Split(_, _) | Loop(_) | PushI32(_) | Lookahead(_, _) => 5
    case Save(_, _) | BackRef(_, _) => 2
    case SaveReset(_, _) => 3
    case Range(pairs) => 3 + 4 * |pairs|
    case Range32(pairs) => 3 + 8 * |pairs|
    case SimpleGreedy(_, _, _, _) => 17
    case _ => 1
  }

  /** What the fields of an instruction can hold. */
  predicate Encodable(i: Instr) {
    match i
    case Char(c) => c < 0x1_0000
    case Char32(c) => c <= U32_MAX
    case Goto(off) => IsI32(off)
    case Split(off, _) => IsI32(off)
    case Save(idx, _) => idx < 0x100
    case SaveReset(lo, hi) => lo < 0x100 && hi < 0x100
    case Loop(off) => IsI32(off)
    case PushI32(v) => v <= U32_MAX
    case BackRef(idx, _) => idx < 0x100
    case Range(pairs) => 0 < |pairs| < 0x1_0000 && forall p :: p in pairs ==> p.0 < 0x1_0000 && p.1 < 0x1_0000
    case Range32(pairs) => 0 < |pairs| < 0x1_0000 && forall p :: p in pairs ==> p.0 <= U32_MAX && p.1 <= U32_MAX
    case Lookahead(off, _) => IsI32(off)
    case SimpleGreedy(off, min, max, chars) => IsI32(off) && min <= U32_MAX && max <= U32_MAX && chars <= U32_MAX
    case _ => true
  }

  predicate IsI32(x: int) {
    -0x8000_0000 <= x <= 0x7fff_ffff
  }

  function PutU16(v: nat): (s: seq<Byte>)
    requires v < 0x1_0000
    ensures |s| == 2
  {
    [v % 0x100, v / 0x100]
  }

  function PutU32(v: nat): (s: seq<Byte>)
    requires v <= U32_MAX
    ensures |s| == 4
  {
    [v % 0x100, (v / 0x100) % 0x100, (v / 0x1_0000) % 0x100, v / 0x100_0000]
  }

  /** A signed value in 32 bits. */
  function PutI32(v: int): (s: seq<Byte>)
    requires IsI32(v)
    ensures |s| == 4
  {
    PutU32(if v < 0 then v + 0x1_0000_0000 else v)
  }

  function GetU16(bc: seq<Byte>, pos: nat): (v: nat)
    requires pos + 2 <= |bc|
    ensures v < 0x1_0000
  {
    bc[pos] as int + bc[pos + 1] as int * 0x100
  }

  function GetU32(bc: seq<Byte>, pos: nat): (v: nat)
    requires pos + 4 <= |bc|
    ensures v <= U32_MAX
  {
    bc[pos] as int + bc[pos + 1] as int * 0x100 + bc[pos + 2] as int * 0x1_0000 + bc[pos + 3] as int * 0x100_0000
  }

  function GetI32(bc: seq<Byte>, pos: nat): (v: int)
    requires pos + 4 <= |bc|
    ensures IsI32(v)
  {
    var u := GetU32(bc, pos);
    if u >= 0x8000_0000 then u - 0x1_0000_0000 else u
  }

  function PutPairs(pairs: seq<(nat, nat)>, wide: bool): (s: seq<Byte>)
    requires forall p :: p in pairs ==> p.0 <= U32_MAX && p.1 <= U32_MAX && (!wide ==> p.0 < 0x1_0000 && p.1 < 0x1_0000)
    ensures |s| == (if wide then 8 else 4) * |pairs|
  {
    if pairs == [] then []
    else
      var p := pairs[0];
      (if wide then PutU32(p.0) + PutU32(p.1) else PutU16(p.0) + PutU16(p.1)) + PutPairs(pairs[1..], wide)
  }

  function GetPairs(bc: seq<Byte>, pos: nat, n: nat, wide: bool): (pairs: seq<(nat, nat)>)
    requires pos + (if wide then 8 else 4) * n <= |bc|
    ensures |pairs| == n
    decreases n
  {
    if n == 0 then []
    else if wide then [(GetU32(bc, pos), GetU32(bc, pos + 4))] + GetPairs(bc, pos + 8, n - 1, wide)
    else [(GetU16(bc, pos), GetU16(bc, pos + 2))] + GetPairs(bc, pos + 4, n - 1, wide)
  }

  function Bit(b: bool): (n: nat)
    ensures n <= 1
  {
    if b then 1 else 0
  }

  /** The bytes of one instruction; the opcodes are numbered in the order of libregexp-opcode.h. */
  function Encode(i: Instr): (s: seq<Byte>)
    requires Encodable(i)
    ensures |s| == Size(i)
  {
    match i
    case Char(c) => [1] + PutU16(c)
    case Char32(c) => [2] + PutU32(c)
    case Dot => [3]
    case Any => [4]
    case LineStart => [5]
    case LineEnd => [6]
    case Goto(off) => [7] + PutI32(off)
    case Split(off, nextFirst) => [8 + Bit(nextFirst)] + PutI32(off)
    case Match => [10]
    case Save(idx, end) => [11 + Bit(end), idx]
    case SaveReset(lo, hi) => [13, lo, hi]
    case Loop(off) => [14] + PutI32(off)
    case PushI32(v) => [15] + PutU32(v)
    case Drop => [16]
    case WordBoundary(negated) => [17 + Bit(negated)]
    case BackRef(idx, backward) => [19 + Bit(backward), idx]
    case Range(pairs) => [21] + PutU16(|pairs|) + PutPairs(pairs, false)
    case Range32(pairs) => [22] + PutU16(|pairs|) + PutPairs(pairs, true)
    case Lookahead(off, negated) => [23 + Bit(negated)] + PutI32(off)
    case PushCharPos => [25]
    case CheckAdvance => [26]
    case Prev => [27]
    case SimpleGreedy(off, min, max, chars) => [28] + PutI32(off) + PutU32(min) + PutU32(max) + PutU32(chars)
  }

  /** The instruction at byte pc, or None where the engine would run off the code or abort on the opcode. */
  function Decode(bc: seq<Byte>, pc: nat): (i: Option<Instr>)
    ensures i.Some? ==> pc + Size(i.value) <= |bc|
  {
    if pc >= |bc| then None
    else
      var op, n := bc[pc], |bc| - pc;
      if op == 3 then Some(Dot)
      else if op == 4 then Some(Any)
      else if op == 5 then Some(LineStart)
      else if op == 6 then Some(LineEnd)
      else if op == 10 then Some(Match)
      else if op == 16 then Some(Drop)
      else if op == 17 || op == 18 then Some(WordBoundary(op == 18))
      else if op == 25 then Some(PushCharPos)
      else if op == 26 then Some(CheckAdvance)
      else if op == 27 then Some(Prev)
      else DecodeOperands(bc, pc, op, n)
  }

  function DecodeOperands(bc: seq<Byte>, pc: nat, op: nat, n: nat): (i: Option<Instr>)
    requires pc < |bc| && n == |bc| - pc
    ensures i.Some? ==> pc + Size(i.value) <= |bc|
  {
    if op == 1 && n >= 3 then Some(Char(GetU16(bc, pc + 1)))
    else if op == 2 && n >= 5 then Some(Char32(GetU32(bc, pc + 1)))
    else if op == 7 && n >= 5 then Some(Goto(GetI32(bc, pc + 1)))
    else if (op == 8 || op == 9) && n >= 5 then Some(Split(GetI32(bc, pc + 1), op == 9))
    else if (op == 11 || op == 12) && n >= 2 then Some(Save(bc[pc + 1], op == 12))
    else if op == 13 && n >= 3 then Some(SaveReset(bc[pc + 1], bc[pc + 2]))
    else if op == 14 && n >= 5 then Some(Loop(GetI32(bc, pc + 1)))
    else if op == 15 && n >= 5 then Some(PushI32(GetU32(bc, pc + 1)))
    else if (op == 19 || op == 20) && n >= 2 then Some(BackRef(bc[pc + 1], op == 20))
    else if (op == 21 || op == 22) && n >= 3 then DecodeRange(bc, pc, op == 22)
    else if (op == 23 || op == 24) && n >= 5 then Some(Lookahead(GetI32(bc, pc + 1), op == 24))
    else if op == 28 && n >= 17 then
      Some(SimpleGreedy(GetI32(bc, pc + 1), GetU32(bc, pc + 5), GetU32(bc, pc + 9), GetU32(bc, pc + 13)))
    else None
  }

  function DecodeRange(bc: seq<Byte>, pc: nat, wide: bool): (i: Option<Instr>)
    requires pc + 3 <= |bc|
    ensures i.Some? ==> pc + Size(i.value) <= |bc|
  {
    var k := GetU16(bc, pc + 1);
    if k == 0 || pc + 3 + (if wide then 8 else 4) * k > |bc| then None
    else if wide then Some(Range32(GetPairs(bc, pc + 3, k, true)))
    else Some(Range(GetPairs(bc, pc + 3, k, false)))
  }

  // Decoding undoes encoding, wherever the instruction stands.

  lemma U16RoundTrip(bc: seq<Byte>, pos: nat, v: nat)
    requires v < 0x1_0000 && pos + 2 <= |bc| && bc[pos..pos + 2] == PutU16(v)
    ensures GetU16(bc, pos) == v
  {
    assert bc[pos] == bc[pos..pos + 2][0] && bc[pos + 1] == bc[pos..pos + 2][1];
  }

  /** The four bytes of a word. */
  lemma WordOfBytes(v: nat)
    ensures v % 0x100 + (v / 0x100) % 0x100 * 0x100 + (v / 0x1_0000) % 0x100 * 0x1_0000 + v / 0x100_0000 * 0x100_0000 == v
  {
    DivideAgain(v);
    DivideAgain(v / 0x100);
    SplitByte(v);
    SplitByte(v / 0x100);
    SplitByte(v / 0x1_0000);
  }

  lemma DivideAgain(v: nat)
    ensures v / 0x100 / 0x100 == v / 0x1_0000 && v / 0x100 / 0x1_0000 == v / 0x100_0000
  {
  }

  lemma SplitByte(v: nat)
    ensures v == v / 0x100 * 0x100 + v % 0x100
  {
  }

  lemma U32RoundTrip(bc: seq<Byte>, pos: nat, v: nat)
    requires v <= U32_MAX && pos + 4 <= |bc| && bc[pos..pos + 4] == PutU32(v)
    ensures GetU32(bc, pos) == v
  {
    WordOfBytes(v);
    var w := bc[pos..pos + 4];
    assert bc[pos] == w[0] && bc[pos + 1] == w[1] && bc[pos + 2] == w[2] && bc[pos + 3] == w[3];
  }

  lemma I32RoundTrip(bc: seq<Byte>, pos: nat, v: int)
    requires IsI32(v) && pos + 4 <= |bc| && bc[pos..pos + 4] == PutI32(v)
    ensures GetI32(bc, pos) == v
  {
    U32RoundTrip(bc, pos, if v < 0 then v + 0x1_0000_0000 else v);
  }

  lemma {:induction false} PairsRoundTrip(bc: seq<Byte>, pos: nat, pairs: seq<(nat, nat)>, wide: bool)
    requires forall p :: p in pairs ==> p.0 <= U32_MAX && p.1 <= U32_MAX && (!wide ==> p.0 < 0x1_0000 && p.1 < 0x1_0000)
    requires pos + (if wide then 8 else 4) * |pairs| <= |bc|
    requires bc[pos..pos + (if wide then 8 else 4) * |pairs|] == PutPairs(pairs, wide)
    ensures GetPairs(bc, pos, |pairs|, wide) == pairs
    decreases |pairs|
  {
    hide GetU16, GetU32, PutU16, PutU32;
    if pairs != [] {
      var w, p := if wide then 8 else 4, pairs[0];
      var n, h := w * |pairs|, w / 2;
      var first := if wide then PutU32(p.0) + PutU32(p.1) else PutU16(p.0) + PutU16(p.1);
      var whole := bc[pos..pos + n];
      assert whole == first + PutPairs(pairs[1..], wide);
      SubSlice(bc, pos, n, w, n); SubSlice(bc, pos, n, 0, h); SubSlice(bc, pos, n, h, w);
      assert whole[w..n] == PutPairs(pairs[1..], wide);
      PairsRoundTrip(bc, pos + w, pairs[1..], wide);
      if wide {
        assert whole[0..4] == PutU32(p.0) && whole[4..8] == PutU32(p.1);
        U32RoundTrip(bc, pos, p.0); U32RoundTrip(bc, pos + 4, p.1);
      } else {
        assert whole[0..2] == PutU16(p.0) && whole[2..4] == PutU16(p.1);
        U16RoundTrip(bc, pos, p.0); U16RoundTrip(bc, pos + 2, p.1);
      }
      assert pairs == [p] + pairs[1..];
    }
  }

  lemma SubSlice(bc: seq<Byte>, pc: nat, n: nat, a: nat, b: nat)
    requires pc + n <= |bc| && a <= b <= n
    ensures bc[pc..pc + n][a..b] == bc[pc + a..pc + b]
  {
    var u, v := bc[pc..pc + n][a..b], bc[pc + a..pc + b];
    assert forall k :: 0 <= k < |u| ==> u[k] == v[k];
    assert u == v;
  }

  /** Encoded instruction i stands at pc. */
  ghost predicate At(bc: seq<Byte>, pc: nat, i: Instr) {
    Encodable(i) && pc + Size(i) <= |bc| && bc[pc..pc + Size(i)] == Encode(i)
  }

  lemma OpcodeAt(bc: seq<Byte>, pc: nat, i: Instr, k: nat)
    requires At(bc, pc, i) && k < Size(i)
    ensures bc[pc + k] == Encode(i)[k]
  {
    assert bc[pc + k] == bc[pc..pc + Size(i)][k];
  }

  lemma JumpDecodes(bc: seq<Byte>, pc: nat, i: Instr, off: int)
    requires At(bc, pc, i) && (i == Goto(off) || i == Loop(off) || i == Split(off, i.Split? && i.nextFirst)
                               || i == Lookahead(off, i.Lookahead? && i.negated))
    ensures Decode(bc, pc) == Some(i)
  {
    hide GetU32, PutI32;
    OpcodeAt(bc, pc, i, 0);
    SubSlice(bc, pc, 5, 1, 5);
    assert Encode(i)[1..5] == PutI32(off);
    I32RoundTrip(bc, pc + 1, off);
  }

  lemma WordDecodes(bc: seq<Byte>, pc: nat, i: Instr)
    requires At(bc, pc, i) && (i.Char? || i.Char32? || i.PushI32?)
    ensures Decode(bc, pc) == Some(i)
  {
    hide GetU32, GetU16, PutU32, PutU16;
    OpcodeAt(bc, pc, i, 0);
    SubSlice(bc, pc, Size(i), 1, Size(i));
    if i.Char? {
      assert Encode(i)[1..3] == PutU16(i.c);
      U16RoundTrip(bc, pc + 1, i.c);
    } else {
      assert Encode(i)[1..5] == PutU32(if i.Char32? then i.c else i.v);
      U32RoundTrip(bc, pc + 1, if i.Char32? then i.c else i.v);
    }
  }

  lemma GreedyDecodes(bc: seq<Byte>, pc: nat, i: Instr)
    requires At(bc, pc, i) && i.SimpleGreedy?
    ensures Decode(bc, pc) == Some(i)
  {
    hide GetU32, PutU32, PutI32;
    OpcodeAt(bc, pc, i, 0);
    var w := Encode(i);
    assert w[1..5] == PutI32(i.off) && w[5..9] == PutU32(i.min) && w[9..13] == PutU32(i.max) && w[13..17] == PutU32(i.chars);
    SubSlice(bc, pc, 17, 1, 5); SubSlice(bc, pc, 17, 5, 9); SubSlice(bc, pc, 17, 9, 13); SubSlice(bc, pc, 17, 13, 17);
    I32RoundTrip(bc, pc + 1, i.off);
    U32RoundTrip(bc, pc + 5, i.min); U32RoundTrip(bc, pc + 9, i.max); U32RoundTrip(bc, pc + 13, i.chars);
  }

  lemma RangeDecodes(bc: seq<Byte>, pc: nat, i: Instr, pairs: seq<(nat, nat)>, wide: bool)
    requires At(bc, pc, i) && i == if wide then Range32(pairs) else Range(pairs)
    ensures Decode(bc, pc) == Some(i)
  {
    hide PutPairs, GetPairs, GetU16, PutU16;
    var n := Size(i);
    OpcodeAt(bc, pc, i, 0);
    SubSlice(bc, pc, n, 1, 3); SubSlice(bc, pc, n, 3, n);
    assert Encode(i)[1..3] == PutU16(|pairs|) && Encode(i)[3..n] == PutPairs(pairs, wide);
    U16RoundTrip(bc, pc + 1, |pairs|);
    PairsRoundTrip(bc, pc + 3, pairs, wide);
  }

  /** Decoding returns the instruction that was encoded, wherever it stands. */
  lemma DecodeEncode(bc: seq<Byte>, pc: nat, i: Instr)
    requires At(bc, pc, i)
    ensures Decode(bc, pc) == Some(i)
  {
    if i.Goto? || i.Loop? || i.Split? || i.Lookahead? {
      JumpDecodes(bc, pc, i, i.off);
    } else if i.Char? || i.Char32? || i.PushI32? {
      WordDecodes(bc, pc, i);
    } else if i.SimpleGreedy? {
      GreedyDecodes(bc, pc, i);
    } else if i.Range? || i.Range32? {
      RangeDecodes(bc, pc, i, i.pairs, i.Range32?);
    } else {
      ShortDecodes(bc, pc, i);
    }
  }

  lemma ShortDecodes(bc: seq<Byte>, pc: nat, i: Instr)
    requires At(bc, pc, i) && Size(i) <= 3 && !i.Char?
    ensures Decode(bc, pc) == Some(i)
  {
    OpcodeAt(bc, pc, i, 0);
    if Size(i) > 1 {
      OpcodeAt(bc, pc, i, 1);
    }
    if Size(i) > 2 {
      OpcodeAt(bc, pc, i, 2);
    }
  }
}
