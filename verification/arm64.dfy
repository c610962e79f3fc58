/** The few instructions of the ARM64 processor that the assembler's stubs are made of, read from their bit fields. */
module Arm64 {
  import opened CodeBuffers

  datatype Op = LdrLiteral(rt: nat, disp: int) | Br(rn: nat) | Blr(rn: nat) | MovReg(rd: nat, rm: nat) | Hint0 | Other

  /** LDR (literal, 64 bit), BR, BLR, MOV (register, an ORR with the zero register) and NOP. Bits 4-0 hold Rt or Rd, bits 9-5
      Rn, bits 20-16 Rm, bits 23-5 the distance in words. */
  function Decode(w: Word): Op {
    var rd, rn, rm, imm19 := w as int % 32, w as int / 32 % 32, w as int / 0x1_0000 % 32, w as int / 32 % 0x8_0000;
    if w as int / 0x100_0000 == 0x58 then LdrLiteral(rd, 4 * (if imm19 >= 0x4_0000 then imm19 - 0x8_0000 else imm19))
    else if w as int / 0x400 == 0x35_87C0 && rd == 0 then Br(rn)
    else if w as int / 0x400 == 0x35_8FC0 && rd == 0 then Blr(rn)
    else if w as int / 0x20_0000 == 0x550 && w as int / 0x400 % 64 == 0 && rn == 31 then MovReg(rd, rm)
    else if w as int / 0x1000 == 0xD_5032 && w as int / 32 % 128 == 0 && rd == 31 then Hint0
    else Other
  }

  /** The general registers X0 to X30 and the program counter. */
  datatype Cpu = Cpu(x: seq<Double>, pc: nat)

  const LINK: nat := 30

  function Read(s: Cpu, r: nat): Double
    requires |s.x| == 31
  {
    if r < 31 then s.x[r] else 0
  }

  function Write(s: Cpu, r: nat, v: Double): (s': Cpu)
    requires |s.x| == 31
    ensures |s'.x| == 31 && s'.pc == s.pc
  {
    if r < 31 then s.(x := s.x[r := v]) else s
  }

  datatype Option<+T> = None | Some(value: T)

  /** One instruction of the code that stands at address base, if it is one of those above and reads inside the code. */
  function Step(code: seq<Byte>, base: nat, s: Cpu): (r: Option<Cpu>)
    requires |s.x| == 31
    ensures r.Some? ==> |r.value.x| == 31
  {
    if s.pc < base || s.pc + 4 > base + |code| then None
    else
      var next := s.(pc := s.pc + 4);
      match Decode(WordAt(code, s.pc - base))
      case LdrLiteral(rt, disp) =>
        var from := s.pc - base + disp;
        if from < 0 || from + 8 > |code| then None else Some(Write(next, rt, DoubleAt(code, from)))
      case Br(rn) => Some(s.(pc := Read(s, rn)))
      case Blr(rn) =>
        if next.pc >= 0x1_0000_0000_0000_0000 then None else Some(Write(s, LINK, next.pc).(pc := Read(s, rn)))
      case MovReg(rd, rm) => Some(Write(next, rd, Read(s, rm)))
      case Hint0 => Some(next)
      case Other => None
  }

  function Run(code: seq<Byte>, base: nat, s: Cpu, k: nat): (r: Option<Cpu>)
    requires |s.x| == 31
    ensures r.Some? ==> |r.value.x| == 31
    decreases k
  {
    if k == 0 then Some(s)
    else
      var s' := Step(code, base, s);
      if s'.None? then None else Run(code, base, s'.value, k - 1)
  }
}
