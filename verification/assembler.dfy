/** The ARM64 assembler with its pool of 64 bit literals behind the code. */
module Assembler {
  import opened CodeBuffers
  import opened Arm64

  const NOP: Word := 0xD503201F
  const LDR_X17: Word := 0x58000011
  const BR: Word := 0xD61F0000
  const BLR: Word := 0xD63F0000
  const MOV_LR_X17: Word := 0xAA1103FE
  const X17: nat := 17
  const LR: nat := 30

  /** The word that EmitLdrReg builds. */
  function LdrReg(rt: bv32, rn: bv32): bv32 {
    0xF9400200 | (rn << 5) | rt
  }

  /** It loads into rt. Its constant has a bit of the base register set, so the base is rn exactly for the upper sixteen
      registers, X17 among them. */
  lemma LdrRegBase(rt: bv32, rn: bv32)
    requires rt < 32 && rn < 32
    ensures LdrReg(rt, rn) & 31 == rt && LdrReg(rt, rn) >> 10 == 0xF9400000 >> 10
    ensures (LdrReg(rt, rn) >> 5) & 31 == rn <==> rn >= 16
  {
    assert (rn << 5) & 31 == 0 && ((rn << 5) >> 5) == rn;
  }

  const FIELD: nat := 0x80000

  /** Bits 23 to 5 of an instruction. */
  function Imm19(inst: Word): (v: nat)
    ensures v < FIELD
  {
    inst as int / 32 % FIELD
  }

  /** The bits of an instruction outside bits 23 to 5. */
  function Rest(inst: Word): (nat, nat) {
    (inst as int / 0x100_0000, inst as int % 32)
  }

  function SetImm19(inst: Word, v: nat): (r: Word)
    requires v < FIELD
    ensures Imm19(r) == v && Rest(r) == Rest(inst)
  {
    inst as int / 0x100_0000 * 0x100_0000 + v * 32 + inst as int % 32
  }

  function SignExtend19(v: nat): int
    requires v < FIELD
  {
    if v >= FIELD / 2 then v - FIELD else v
  }

  /** DecodeLdrLitImm19: the distance from the instruction to what it loads. */
  function Displacement(inst: Word): int {
    SignExtend19(Imm19(inst)) * 4
  }

  /** EncodeLdrLitImm19 and Finalize compute the same field from a forward distance. */
  function Patched(inst: Word, disp: nat): Word {
    SetImm19(inst, disp / 4 % FIELD)
  }

  const REACH: nat := 0x10_0000

  /** Below 1 MiB, and only there, the load reads the distance it was given. */
  lemma PatchReaches(inst: Word, disp: nat)
    requires disp % 4 == 0
    ensures Displacement(Patched(inst, disp)) == disp <==> disp < REACH
    ensures Rest(Patched(inst, disp)) == Rest(inst)
  {
    hide Imm19, SetImm19, Rest;
    var v := disp / 4;
    assert disp == 4 * v;
    if disp < REACH {
      assert v % FIELD == v;
    }
  }

  datatype DataLabel = DataLabel(codeOffset: nat, value: Double)

  ghost predicate Placed(labels: seq<DataLabel>, n: nat) {
    forall j :: 0 <= j < |labels| ==> labels[j].codeOffset % 4 == 0 && labels[j].codeOffset + 4 <= n
  }

  /** No later label uses the same load. */
  ghost predicate OwnsLoad(labels: seq<DataLabel>, j: nat, n: nat)
    requires j < n <= |labels|
  {
    forall k :: j < k < n ==> labels[k].codeOffset != labels[j].codeOffset
  }

  /** The byte k lies in a load that a label refers to. */
  ghost predicate Labelled(labels: seq<DataLabel>, k: nat) {
    exists j :: 0 <= j < |labels| && labels[j].codeOffset <= k < labels[j].codeOffset + 4
  }

  /** The j-th label's value stands in its slot, and its load reads that slot whenever it can be reached. */
  ghost predicate Resolved(now: seq<Byte>, start: nat, labels: seq<DataLabel>, j: nat, n: nat)
    requires j < n <= |labels| && start + 8 * n <= |now| && Placed(labels, start)
  {
    var at, slot := labels[j].codeOffset, start + 8 * j;
    && DoubleAt(now, slot) == labels[j].value
    && (OwnsLoad(labels, j, n) ==> (at + Displacement(WordAt(now, at)) == slot <==> slot - at < REACH))
  }

  /** What Finalize has done after n labels: code is the code with its padding, and start its length. */
  ghost predicate Done(code: seq<Byte>, labels: seq<DataLabel>, n: nat, now: seq<Byte>)
    requires n <= |labels| && Placed(labels, |code|)
  {
    var start := |code|;
    && |now| == start + 8 * n
    && (forall j :: 0 <= j < n ==> Resolved(now, start, labels, j, n))
    && (forall k :: 0 <= k < start && !Labelled(labels, k) ==> now[k] == code[k])
    && (forall at :: 0 <= at && at + 4 <= start && at % 4 == 0 ==> Rest(WordAt(now, at)) == Rest(WordAt(code, at)))
  }

  function Put(s: seq<Byte>, at: nat, w: Word): (r: seq<Byte>)
    requires at + 4 <= |s|
    ensures |r| == |s|
  {
    s[..at] + Bytes4(w) + s[at + 4..]
  }

  lemma PutWord(s: seq<Byte>, at: nat, w: Word, p: nat)
    requires at + 4 <= |s| && p + 4 <= |s|
    ensures p == at ==> WordAt(Put(s, at, w), p) == w
    ensures p + 4 <= at || at + 4 <= p ==> WordAt(Put(s, at, w), p) == WordAt(s, p)
  {
    if p == at {
      ReadWord(s[..at], w, s[at + 4..]);
    }
  }

  lemma AppendWord(s: seq<Byte>, t: seq<Byte>, p: nat)
    requires p + 4 <= |s|
    ensures WordAt(s + t, p) == WordAt(s, p)
  {
  }

  /** One round of Finalize: the value is appended, then the load is patched. */
  function PlaceLabel(now: seq<Byte>, l: DataLabel): seq<Byte>
    requires l.codeOffset + 4 <= |now|
  {
    var grown := now + Bytes8(l.value);
    Put(grown, l.codeOffset, Patched(WordAt(grown, l.codeOffset), |now| - l.codeOffset))
  }

  /** Words of the code other than the patched one keep their value, and the new slot holds the label's value. */
  lemma PlaceWords(now: seq<Byte>, l: DataLabel, p: nat)
    requires l.codeOffset + 4 <= |now| && l.codeOffset % 4 == 0 && p % 4 == 0 && p + 4 <= |now|
    ensures var next := PlaceLabel(now, l);
            && |next| == |now| + 8 && DoubleAt(next, |now|) == l.value
            && (p != l.codeOffset ==> WordAt(next, p) == WordAt(now, p))
            && WordAt(next, l.codeOffset) == Patched(WordAt(now, l.codeOffset), |now| - l.codeOffset)
  {
    hide Patched, WordAt, Bytes4, Put;
    var grown, at := now + Bytes8(l.value), l.codeOffset;
    var w := Patched(WordAt(grown, at), |now| - at);
    ReadDouble(now, l.value);
    AppendWord(now, Bytes8(l.value), p);
    AppendWord(now, Bytes8(l.value), at);
    PutWord(grown, at, w, p);
    PutWord(grown, at, w, at);
    PutWord(grown, at, w, |now|);
    PutWord(grown, at, w, |now| + 4);
  }

  lemma Multiples(start: nat, j: nat)
    requires start % 8 == 0
    ensures (start + 8 * j) % 4 == 0 && (start + 8 * j + 4) % 4 == 0
  {
    var q := 2 * (start / 8) + 2 * j;
    assert start + 8 * j == 4 * q && start + 8 * j + 4 == 4 * (q + 1);
  }

  lemma Distance(x: nat, y: nat)
    requires x % 4 == 0 && y % 4 == 0
    ensures (x - y) % 4 == 0
  {
    assert x - y == 4 * (x / 4 - y / 4);
  }

  lemma Aligning(n: nat)
    requires n % 4 == 0
    ensures (n + 7) / 8 * 8 == if n % 8 == 0 then n else n + 4
  {
    var q, r := n / 8, n % 8;
    assert r == 0 || r == 4;
    assert n + 7 == 8 * q + (r + 7);
    assert (n + 7) / 8 == if r == 0 then q else q + 1;
  }

  lemma StepOld(start: nat, labels: seq<DataLabel>, n: nat, now: seq<Byte>, next: seq<Byte>, j: nat)
    requires j < n < |labels| && Placed(labels, start) && start % 8 == 0 && |now| == start + 8 * n
    requires Resolved(now, start, labels, j, n) && next == PlaceLabel(now, labels[n]) && |next| == |now| + 8
    ensures Resolved(next, start, labels, j, n + 1)
  {
    hide Patched, WordAt, Displacement, PlaceLabel;
    var l, slot, at := labels[n], start + 8 * j, labels[j].codeOffset;
    Multiples(start, j);
    assert DoubleAt(next, slot) == labels[j].value by {
      PlaceWords(now, l, slot);
      PlaceWords(now, l, slot + 4);
    }
    if OwnsLoad(labels, j, n + 1) {
      PlaceWords(now, l, at);
      assert OwnsLoad(labels, j, n);
    }
  }

  lemma StepNew(start: nat, labels: seq<DataLabel>, n: nat, now: seq<Byte>, next: seq<Byte>)
    requires n < |labels| && Placed(labels, start) && start % 8 == 0 && |now| == start + 8 * n
    requires next == PlaceLabel(now, labels[n]) && |next| == |now| + 8
    ensures Resolved(next, start, labels, n, n + 1)
  {
    hide Patched, WordAt, Displacement, PlaceLabel;
    var l, slot := labels[n], start + 8 * n;
    PlaceWords(now, l, l.codeOffset);
    Multiples(start, n);
    Distance(slot, l.codeOffset);
    PatchReaches(WordAt(now, l.codeOffset), slot - l.codeOffset);
  }

  lemma StepDone(code: seq<Byte>, labels: seq<DataLabel>, n: nat, now: seq<Byte>)
    requires n < |labels| && Placed(labels, |code|) && |code| % 8 == 0 && Done(code, labels, n, now)
    ensures Done(code, labels, n + 1, PlaceLabel(now, labels[n]))
  {
    hide Patched, WordAt, Displacement, Resolved, PlaceLabel, Rest;
    var l, next, m := labels[n], PlaceLabel(now, labels[n]), n + 1;
    PlaceWords(now, l, 0);
    forall j | 0 <= j < m ensures Resolved(next, |code|, labels, j, m) {
      if j < n {
        StepOld(|code|, labels, n, now, next, j);
      } else {
        StepNew(|code|, labels, n, now, next);
      }
    }
    forall k | 0 <= k < |code| && !Labelled(labels, k) ensures next[k] == code[k] {
      PlaceBytes(now, l, k);
    }
    forall at | 0 <= at && at + 4 <= |code| && at % 4 == 0 ensures Rest(WordAt(next, at)) == Rest(WordAt(code, at)) {
      PlaceWords(now, l, at);
      PatchReaches(WordAt(now, l.codeOffset), |now| - l.codeOffset);
    }
  }

  lemma PlaceBytes(now: seq<Byte>, l: DataLabel, k: nat)
    requires l.codeOffset + 4 <= |now| && k < |now| && !(l.codeOffset <= k < l.codeOffset + 4)
    ensures k < |PlaceLabel(now, l)| && PlaceLabel(now, l)[k] == now[k]
  {
    hide Patched, WordAt, Bytes4;
  }

  /** The code with a NOP behind it when it does not end at a multiple of 8. */
  function Padded(code: seq<Byte>): seq<Byte> {
    if |code| % 8 == 0 then code else code + Bytes4(NOP)
  }


  // What the processor does with the stubs.

  function OpAt(code: seq<Byte>, at: nat): Op
    requires at + 4 <= |code|
  {
    Decode(WordAt(code, at))
  }

  /** Padding fills up to a multiple of 8 with an instruction that does nothing. */
  lemma PaddedLength(code: seq<Byte>)
    requires |code| % 4 == 0
    ensures |Padded(code)| % 8 == 0 && |code| <= |Padded(code)| <= |code| + 4
    ensures |code| < |Padded(code)| ==> OpAt(Padded(code), |code|) == Hint0
  {
    hide WordAt, Bytes4;
    ReadWord(code, NOP, []);
    assert code + Bytes4(NOP) + [] == code + Bytes4(NOP);
  }

  /** A load from a literal into a register, and a branch to what that register holds. */
  predicate IsJump(code: seq<Byte>, at: nat) {
    && at + 8 <= |code| && OpAt(code, at).LdrLiteral? && OpAt(code, at).rt < 31
    && OpAt(code, at + 4) == Br(OpAt(code, at).rt)
  }

  /** A load from a literal into a register, its copy to another one, and a call of what that one holds. */
  predicate IsCall(code: seq<Byte>, at: nat) {
    && at + 12 <= |code| && OpAt(code, at).LdrLiteral? && OpAt(code, at).rt < 31
    && OpAt(code, at + 4).MovReg? && OpAt(code, at + 4).rm == OpAt(code, at).rt && OpAt(code, at + 4).rd < 31
    && OpAt(code, at + 8) == Blr(OpAt(code, at + 4).rd)
  }

  lemma StubsStay(code: seq<Byte>, more: seq<Byte>, at: nat)
    ensures IsJump(code, at) ==> IsJump(code + more, at)
    ensures IsCall(code, at) ==> IsCall(code + more, at)
  {
    hide WordAt, Decode;
    if at + 12 <= |code| {
      AppendWord(code, more, at + 8);
    }
    if at + 8 <= |code| {
      AppendWord(code, more, at);
      AppendWord(code, more, at + 4);
    }
  }

  /** The load of label j stands in finished code, with n words behind it that no label refers to, and reaches its slot. */
  ghost predicate Stub(code: seq<Byte>, labels: seq<DataLabel>, now: seq<Byte>, j: nat, n: nat) {
    && j < |labels| && Placed(labels, |code|) && Done(code, labels, |labels|, now) && OwnsLoad(labels, j, |labels|)
    && var at := labels[j].codeOffset;
       && at + 4 + 4 * n <= |code| && (forall k :: at + 4 <= k < at + 4 + 4 * n ==> !Labelled(labels, k))
       && |code| + 8 * j - at < REACH
  }

  lemma FinishedWord(code: seq<Byte>, labels: seq<DataLabel>, now: seq<Byte>, j: nat, n: nat, i: nat)
    requires Stub(code, labels, now, j, n) && i < n
    ensures var p := labels[j].codeOffset + 4 + 4 * i; p + 4 <= |code| && p + 4 <= |now| && WordAt(now, p) == WordAt(code, p)
  {
    var p := labels[j].codeOffset + 4 + 4 * i;
    assert forall k :: p <= k < p + 4 ==> now[k] == code[k];
  }

  /** The load still goes into its register, from where the value is. */
  lemma FinishedLoad(code: seq<Byte>, labels: seq<DataLabel>, now: seq<Byte>, j: nat, n: nat)
    requires Stub(code, labels, now, j, n) && OpAt(code, labels[j].codeOffset).LdrLiteral?
    ensures var at := labels[j].codeOffset;
            && at + 4 <= |now|
            && var slot := |code| + 8 * j;
               && slot + 8 <= |now| && DoubleAt(now, slot) == labels[j].value
               && OpAt(now, at) == LdrLiteral(OpAt(code, at).rt, slot - at)
  {
    hide WordAt;
    var at := labels[j].codeOffset;
    assert Resolved(now, |code|, labels, j, |labels|);
    LoadFields(WordAt(code, at), WordAt(now, at));
  }

  lemma LoadFields(w: Word, w': Word)
    requires Decode(w).LdrLiteral? && Rest(w') == Rest(w)
    ensures Decode(w') == LdrLiteral(Decode(w).rt, Displacement(w'))
  {
  }

  /** Run from its first word, a jump emitted before Finalize ends at the value of its label. */
  lemma BranchGoesToTarget(code: seq<Byte>, labels: seq<DataLabel>, now: seq<Byte>, j: nat, base: nat, s: Cpu)
    requires Stub(code, labels, now, j, 1) && IsJump(code, labels[j].codeOffset)
    requires |s.x| == 31 && s.pc == base + labels[j].codeOffset
    ensures var r := Run(now, base, s, 2);
            && r.Some? && r.value.pc == labels[j].value
            && forall k :: 0 <= k < 31 && k != OpAt(code, labels[j].codeOffset).rt ==> r.value.x[k] == s.x[k]
  {
    hide WordAt, Decode, DoubleAt;
    var at := labels[j].codeOffset;
    FinishedLoad(code, labels, now, j, 1);
    FinishedWord(code, labels, now, j, 1, 0);
    var s1 := Step(now, base, s).value;
    assert Step(now, base, s1) == Some(s1.(pc := labels[j].value));
    assert Run(now, base, s1, 1) == Run(now, base, s1.(pc := labels[j].value), 0);
  }

  /** Run from its first word, a call ends at the value of its label, with the link register behind the call. */
  lemma CallGoesToTarget(code: seq<Byte>, labels: seq<DataLabel>, now: seq<Byte>, j: nat, base: nat, s: Cpu)
    requires Stub(code, labels, now, j, 2) && IsCall(code, labels[j].codeOffset)
    requires |s.x| == 31 && s.pc == base + labels[j].codeOffset && base + |now| < 0x1_0000_0000_0000_0000
    ensures var at, r := labels[j].codeOffset, Run(now, base, s, 3);
            && r.Some? && r.value.pc == labels[j].value && r.value.x[LINK] == s.pc + 12
            && forall k :: 0 <= k < 31 && k != LINK && k != OpAt(code, at).rt && k != OpAt(code, at + 4).rd ==> r.value.x[k] == s.x[k]
  {
    hide WordAt, Decode, DoubleAt;
    var at := labels[j].codeOffset;
    FinishedLoad(code, labels, now, j, 2);
    FinishedWord(code, labels, now, j, 2, 0);
    FinishedWord(code, labels, now, j, 2, 1);
    var s1 := Step(now, base, s).value;
    var s2 := Step(now, base, s1).value;
    assert Read(s2, OpAt(code, at + 4).rd) == labels[j].value;
    assert Run(now, base, s2, 1) == Run(now, base, Step(now, base, s2).value, 0);
  }

  lemma JumpWords(was: seq<Byte>)
    ensures IsJump(was + Bytes4(LDR_X17) + Bytes4(BR + 32 * X17), |was|)
  {
    hide WordAt, Bytes4;
    var a, b := Bytes4(LDR_X17), Bytes4(BR + 32 * X17);
    ReadWord(was, LDR_X17, b);
    ReadWord(was + a, BR + 32 * X17, []);
    assert was + a + b + [] == was + a + b;
  }

  lemma CallWords(was: seq<Byte>)
    ensures IsCall(was + Bytes4(LDR_X17) + Bytes4(MOV_LR_X17) + Bytes4(BLR + 32 * LR), |was|)
  {
    hide WordAt, Bytes4;
    var a, b, c := Bytes4(LDR_X17), Bytes4(MOV_LR_X17), Bytes4(BLR + 32 * LR);
    ReadWord(was, LDR_X17, b + c);
    ReadWord(was + a, MOV_LR_X17, c);
    ReadWord(was + a + b, BLR + 32 * LR, []);
    assert was + a + (b + c) == was + a + b + c == was + a + b + c + [];
  }

  class Assembler {
    const buf: CodeBuffer
    var labels: seq<DataLabel>

    ghost predicate Valid()
      reads this, buf
    {
      buf.Valid() && buf.size % 4 == 0 && Placed(labels, buf.size)
    }

    ghost function Code(): seq<Byte>
      reads this, buf, buf.data
      requires Valid()
    {
      buf.Contents()
    }

    constructor ()
      ensures Valid() && fresh(buf) && fresh(buf.data) && Code() == [] && labels == []
    {
      buf := new CodeBuffer();
      labels := [];
    }

    method EmitInst(inst: Word)
      requires Valid() && buf.size + 4 <= LIMIT
      modifies buf, buf.data
      ensures Valid() && (buf.data == old(buf.data) || fresh(buf.data)) && Code() == old(Code()) + Bytes4(inst)
    {
      buf.EmitU32(inst);
    }

    method EmitBR(rn: nat)
      requires Valid() && buf.size + 4 <= LIMIT && rn < 32
      modifies buf, buf.data
      ensures Valid() && (buf.data == old(buf.data) || fresh(buf.data)) && Code() == old(Code()) + Bytes4(BR + 32 * rn)
    {
      EmitInst(BR + 32 * rn);
    }

    method EmitBLR(rn: nat)
      requires Valid() && buf.size + 4 <= LIMIT && rn < 32
      modifies buf, buf.data
      ensures Valid() && (buf.data == old(buf.data) || fresh(buf.data)) && Code() == old(Code()) + Bytes4(BLR + 32 * rn)
    {
      EmitInst(BLR + 32 * rn);
    }

    method EmitLdrX17Placeholder() returns (offset: nat)
      requires Valid() && buf.size + 4 <= LIMIT
      modifies buf, buf.data
      ensures Valid() && (buf.data == old(buf.data) || fresh(buf.data))
      ensures offset == |old(Code())| && Code() == old(Code()) + Bytes4(LDR_X17)
    {
      offset := buf.size;
      EmitInst(LDR_X17);
    }

    method PlaceDataLabel(value: Double, offset: nat)
      requires Valid() && offset % 4 == 0 && offset + 4 <= buf.size
      modifies this
      ensures Valid() && labels == old(labels) + [DataLabel(offset, value)]
    {
      labels := labels + [DataLabel(offset, value)];
    }

    method EmitLdrX17Branch(target: Double)
      requires Valid() && buf.size + 8 <= LIMIT
      modifies this, buf, buf.data
      ensures Valid() && (buf.data == old(buf.data) || fresh(buf.data))
      ensures Code() == old(Code()) + Bytes4(LDR_X17) + Bytes4(BR + 32 * X17)
      ensures labels == old(labels) + [DataLabel(|old(Code())|, target)] && IsJump(Code(), |old(Code())|)
    {
      ghost var was := Code();
      var ldr := EmitLdrX17Placeholder();
      EmitBR(X17);
      JumpWords(was);
      PlaceDataLabel(target, ldr);
    }

    method EmitLdrLRBranch(target: Double)
      requires Valid() && buf.size + 12 <= LIMIT
      modifies this, buf, buf.data
      ensures Valid() && (buf.data == old(buf.data) || fresh(buf.data))
      ensures Code() == old(Code()) + Bytes4(LDR_X17) + Bytes4(MOV_LR_X17) + Bytes4(BLR + 32 * LR)
      ensures labels == old(labels) + [DataLabel(|old(Code())|, target)] && IsCall(Code(), |old(Code())|)
    {
      ghost var was := Code();
      var ldr := EmitLdrX17Placeholder();
      EmitInst(MOV_LR_X17);
      EmitBLR(LR);
      CallWords(was);
      PlaceDataLabel(target, ldr);
    }

    method Align()
      requires Valid() && buf.size + 4 <= LIMIT
      modifies buf, buf.data
      ensures Valid() && (buf.data == old(buf.data) || fresh(buf.data)) && Code() == Padded(old(Code()))
    {
      ghost var was := Code();
      var aligned := (buf.size + 7) / 8 * 8;
      assert aligned == if |was| % 8 == 0 then |was| else |was| + 4 by {
        Aligning(buf.size);
      }
      while buf.size < aligned
        invariant Valid() && (buf.data == old(buf.data) || fresh(buf.data))
        invariant Code() == was || (buf.size == aligned && Code() == was + Bytes4(NOP))
      {
        buf.EmitU32(NOP);
      }
    }

    method Place(l: DataLabel)
      requires Valid() && buf.size + 8 <= LIMIT && l.codeOffset + 4 <= buf.size
      modifies buf, buf.data
      ensures Valid() && (buf.data == old(buf.data) || fresh(buf.data)) && Code() == PlaceLabel(old(Code()), l)
    {
      hide WordAt, Bytes4, Bytes8, Patched;
      var slot, at := buf.size, l.codeOffset;
      ghost var now := Code();
      buf.EmitU64(l.value);
      ghost var grown := now + Bytes8(l.value);
      var inst := WordAt(buf.data[..buf.size], at);
      buf.PutU32(at, Patched(inst, slot - at));
    }

    /** Every load that a label refers to gets its own aligned slot behind the code. */
    method Finalize()
      requires Valid() && buf.size + 4 + 8 * |labels| <= LIMIT
      modifies this, buf, buf.data
      ensures Valid() && (buf.data == old(buf.data) || fresh(buf.data)) && labels == []
      ensures var code := Padded(old(Code()));
              |code| % 8 == 0 && Placed(old(labels), |code|) && Done(code, old(labels), |old(labels)|, Code())
    {
      hide Done, PlaceLabel, Padded, Bytes4, Bytes8, WordAt;
      PaddedLength(Code());
      Align();
      ghost var code := Code();
      Nothing(code, labels);
      for i := 0 to |labels|
        invariant Valid() && (buf.data == old(buf.data) || fresh(buf.data)) && labels == old(labels)
        invariant Placed(labels, |code|) && Done(code, labels, i, Code()) && buf.size == |code| + 8 * i
      {
        ghost var now := Code();
        Place(labels[i]);
        StepDone(code, labels, i, now);
        LengthIs(code, labels, i + 1, Code());
      }
      labels := [];
    }
  }

  lemma Nothing(code: seq<Byte>, labels: seq<DataLabel>)
    requires Placed(labels, |code|)
    ensures Done(code, labels, 0, code)
  {
  }

  lemma LengthIs(code: seq<Byte>, labels: seq<DataLabel>, n: nat, now: seq<Byte>)
    requires n <= |labels| && Placed(labels, |code|) && Done(code, labels, n, now)
    ensures |now| == |code| + 8 * n
  {
  }
}
