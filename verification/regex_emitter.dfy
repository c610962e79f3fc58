/** The compiler as it works: a byte buffer that grows by appending, inserting in front of atoms, copying and reversing. */
module RegexEmitter {
  import opened RegexInstr
  import opened RegexVm
  import opened RegexEmit
  import opened RegexBlocks
  import opened RegexSyntax
  import opened RegexCompile
  import opened RegexSafety

  const CODE_SIZE_MAX: nat := 0x7fff_0000

  lemma {:induction false} AssembleAdd(a: seq<Instr>, b: seq<Instr>)
    requires AllEncodable(a) && AllEncodable(b)
    ensures AllEncodable(a + b) && Assemble(a + b) == Assemble(a) + Assemble(b)
    decreases |a|
  {
    hide Encode, Encodable;
    if a == [] {
      assert a + b == b;
    } else {
      AssembleAdd(a[1..], b);
      assert (a + b)[1..] == a[1..] + b && (a + b)[0] == a[0];
      var x, y, z := Encode(a[0]), Assemble(a[1..]), Assemble(b);
      assert x + (y + z) == x + y + z;
    }
  }

  lemma AssembleOne(i: Instr)
    requires Encodable(i)
    ensures AllEncodable([i]) && Assemble([i]) == Encode(i)
  {
    hide Encode, Encodable;
    assert [i][1..] == [];
  }

  /** Each part of a concatenation that can be encoded can be encoded. */
  lemma EncodableParts(a: seq<Instr>, b: seq<Instr>)
    requires AllEncodable(a + b)
    ensures AllEncodable(a) && AllEncodable(b)
  {
    hide Encodable;
    forall i | i in a ensures Encodable(i) {
      assert i in a + b;
    }
    forall i | i in b ensures Encodable(i) {
      assert i in a + b;
    }
  }

  /** re_is_simple_quantifier over the bytes of an atom. */
  method IsSimpleQuantifier(bytes: seq<Byte>, ghost a: seq<Instr>) returns (count: int)
    requires AllEncodable(a) && bytes == Assemble(a)
    ensures count == SimpleLength(a)
  {
    hide Decode, Encode, Encodable, PlaceOf, Size;
    count := 0;
    var pos := 0;
    ghost var k := 0;
    AssembledWhole(bytes, a);
    PlaceZero(a);
    EndIsByteLength(a);
    assert a[0..] == a;
    while pos < |bytes|
      invariant 0 <= k <= |a| && PlaceOf(a, k).offset == pos && count >= 0
      invariant SimpleLength(a) == if SimpleLength(a[k..]) < 0 then -1 else count + SimpleLength(a[k..])
      decreases |a| - k
    {
      CodeAtIndex(bytes, 0, a, k);
      PlaceNext(a, k);
      var i := Decode(bytes, pos).value;
      assert a[k..][1..] == a[k + 1..];
      if Consumes(i) {
        count := count + 1;
      } else if !Tests(i) {
        return -1;
      }
      pos := pos + Size(i);
      k := k + 1;
    }
    EndReached(bytes, a, k);
  }

  lemma AssembledWhole(bytes: seq<Byte>, a: seq<Instr>)
    requires AllEncodable(a) && bytes == Assemble(a)
    ensures CodeAt(bytes, 0, a) && |bytes| == ByteLength(a)
  {
    hide Encode, Encodable;
    assert bytes[0..0 + ByteLength(a)] == bytes;
    AssembledCode(bytes, 0, a);
  }

  lemma EndReached(bytes: seq<Byte>, a: seq<Instr>, k: nat)
    requires CodeAt(bytes, 0, a) && k <= |a| && PlaceOf(a, k).offset >= |bytes|
    ensures k == |a| && a[k..] == []
  {
    hide Decode, PlaceOf;
    CodeAtIndex(bytes, 0, a, k);
  }

  /** re_need_check_advance over the bytes of an atom. */
  method NeedsCheck(bytes: seq<Byte>, ghost a: seq<Instr>) returns (need: bool)
    requires AllEncodable(a) && bytes == Assemble(a)
    ensures need == NeedCheckAdvance(a, true)
  {
    hide Decode, Encode, Encodable, PlaceOf, Size;
    need := true;
    var pos := 0;
    ghost var k := 0;
    AssembledWhole(bytes, a);
    PlaceZero(a);
    EndIsByteLength(a);
    assert a[0..] == a;
    while pos < |bytes|
      invariant 0 <= k <= |a| && PlaceOf(a, k).offset == pos
      invariant NeedCheckAdvance(a, true) == NeedCheckAdvance(a[k..], need)
      decreases |a| - k
    {
      CodeAtIndex(bytes, 0, a, k);
      PlaceNext(a, k);
      var i := Decode(bytes, pos).value;
      assert a[k..][1..] == a[k + 1..];
      if Consumes(i) {
        need := false;
      } else if !Passive(i) {
        return true;
      }
      pos := pos + Size(i);
      k := k + 1;
    }
    EndReached(bytes, a, k);
  }

  /** The buffer after the bytes p holds the instructions a. */
  ghost predicate Follows(code: seq<Byte>, p: seq<Byte>, a: seq<Instr>) {
    AllEncodable(a) && code == p + Assemble(a)
  }

  lemma CountedPieces(a: seq<Instr>, n: int, max: nat, greedy: bool, check: bool)
    requires n == ByteLength(a) + 2 * Bit(check)
    ensures [PushI32(max)] + ([Split(n + 5, greedy)] + Checked(a, check)) + [Loop(-(n + 10))] + [Drop] == Counted(a, max, greedy, check)
  {
    hide Checked, ByteLength;
  }

  lemma FollowsAppend(code: seq<Byte>, p: seq<Byte>, a: seq<Instr>, b: seq<Instr>)
    requires Follows(code, p, a) && AllEncodable(b)
    ensures Follows(code + Assemble(b), p, a + b)
  {
    hide Encodable, Assemble;
    AssembleAdd(a, b);
  }

  lemma FollowsPrepend(code: seq<Byte>, p: seq<Byte>, a: seq<Instr>, b: seq<Instr>)
    requires Follows(code, p, a) && AllEncodable(b)
    ensures Follows(code[..|p|] + Assemble(b) + code[|p|..], p, b + a)
    ensures |code| == |p| + ByteLength(a) && code[|p|..] == Assemble(a)
  {
    hide Encodable, Assemble;
    AssembleAdd(b, a);
  }

  /** Moving the border between p and a. */
  lemma FollowsShift(code: seq<Byte>, p: seq<Byte>, a: seq<Instr>, b: seq<Instr>)
    requires AllEncodable(a) && AllEncodable(b)
    ensures Follows(code, p, a + b) <==> Follows(code, p + Assemble(a), b)
  {
    hide Encodable, Assemble;
    AssembleAdd(a, b);
    assert p + Assemble(a) + Assemble(b) == p + (Assemble(a) + Assemble(b));
  }

  lemma Rotated(code: seq<Byte>, p: seq<Byte>, x: seq<Byte>, y: seq<Byte>)
    requires code == p + (x + y)
    ensures var start, end, n := |p|, |code|, |y|;
            var moved := code[..start] + code[start..start + n] + code[start..end];
            moved[..start] + moved[end..end + n] + moved[start + n..end] == p + (y + x)
  {
    var start, end, n := |p|, |code|, |y|;
    var moved := code[..start] + code[start..start + n] + code[start..end];
    var g := code[start..start + n];
    assert code[..start] == p && code[start..end] == x + y;
    assert moved == p + g + (x + y);
    Middle(p, g, x, y);
  }

  lemma Middle(p: seq<Byte>, g: seq<Byte>, x: seq<Byte>, y: seq<Byte>)
    ensures var m, i, j := p + g + (x + y), |p| + |g|, |p| + |g| + |x|;
            m[..|p|] == p && m[i..j] == x && m[j..j + |y|] == y
  {
    var m, i := p + g + (x + y), |p| + |g|;
    assert m[i..] == x + y;
    assert m[i..i + |x|] == (x + y)[..|x|] == x;
    assert m[i + |x|..] == (x + y)[|x|..] == y;
  }

  class Emitter {
    var code: seq<Byte>
    var captureCount: nat

    constructor ()
      ensures code == [] && captureCount == 1
    {
      code, captureCount := [], 1;
    }

    /** The re_emit functions: one instruction at the end. */
    method Emit(i: Instr, ghost p: seq<Byte>, ghost a: seq<Instr>)
      requires Encodable(i) && Follows(code, p, a)
      modifies this`code
      ensures Follows(code, p, a + [i]) && old(code) <= code
    {
      hide Encodable, Encode, Assemble, Follows;
      AssembleOne(i);
      FollowsAppend(code, p, a, [i]);
      code := code + Encode(i);
    }

    method EmitFirst(i: Instr, ghost p: seq<Byte>)
      requires Encodable(i) && code == p
      modifies this`code
      ensures Follows(code, p, [i])
    {
      hide Encodable, Encode, Follows;
      FollowsStart(p);
      Emit(i, p, []);
      assert [] + [i] == [i];
    }

    /** dbuf_insert and the writes into the gap: one instruction in front. */
    method Insert(pos: nat, i: Instr, ghost p: seq<Byte>, ghost a: seq<Instr>)
      requires Encodable(i) && pos == |p| && Follows(code, p, a)
      modifies this`code
      ensures Follows(code, p, [i] + a)
    {
      hide Encodable, Encode, Assemble, Follows;
      AssembleOne(i);
      FollowsPrepend(code, p, a, [i]);
      code := code[..pos] + Encode(i) + code[pos..];
    }

    /** dbuf_put_self: a copy of earlier instructions at the end. */
    method CopySelf(pos: nat, n: nat, ghost p: seq<Byte>, ghost a: seq<Instr>, ghost b: seq<Instr>)
      requires pos + n <= |code| && Follows(code, p, a) && AllEncodable(b) && code[pos..pos + n] == Assemble(b)
      modifies this`code
      ensures Follows(code, p, a + b) && old(code) <= code
    {
      hide Encodable, Encode, Assemble, Follows;
      FollowsAppend(code, p, a, b);
      code := code + code[pos..pos + n];
    }

    /** The memmove and memcpy of re_parse_alternative: the last term moves in front of the ones before it. */
    method Reverse(start: nat, mid: nat, ghost p: seq<Byte>, ghost a: seq<Instr>, ghost b: seq<Instr>)
      requires start == |p| && AllEncodable(a) && AllEncodable(b) && Follows(code, p, a + b) && mid == |p| + ByteLength(a)
      modifies this`code
      ensures Follows(code, p, b + a)
    {
      hide Encodable, Encode, Assemble;
      AssembleAdd(a, b);
      AssembleAdd(b, a);
      Rotated(code, p, Assemble(a), Assemble(b));
      var end, n := |code|, |code| - mid;
      var moved := code[..start] + code[start..start + n] + code[start..end];
      code := moved[..start] + moved[end..end + n] + moved[start + n..end];
    }

    /** The atom at start, after a split and between the opcodes that check that it advances. */
    method EmitTurn(start: nat, off: int, greedy: bool, check: bool, ghost p: seq<Byte>, ghost a: seq<Instr>)
      requires start == |p| && Follows(code, p, a) && -0x8000_0000 <= off <= 0x7fff_ffff
      modifies this`code
      ensures Follows(code, p, [Split(off, greedy)] + Checked(a, check))
    {
      hide Follows;
      if check {
        Insert(start, PushCharPos, p, a);
        Emit(CheckAdvance, p, [PushCharPos] + a);
      }
      Insert(start, Split(off, greedy), p, Checked(a, check));
    }

    /** A quantifier with minimum 0 and maximum 1 or infinity. */
    method EmitOpen(start: nat, max: nat, greedy: bool, check: bool, ghost p: seq<Byte>, ghost a: seq<Instr>)
      requires start == |p| && Follows(code, p, a) && ByteLength(a) <= CODE_SIZE_MAX && (max == 1 || max == INT32_MAX)
      modifies this`code
      ensures Follows(code, p, if max == 1 then Optional(a, greedy, check) else Star(a, greedy, check))
    {
      hide Follows, ByteLength;
      FollowsLength(code, p, a);
      var n: int := |code| - start + 2 * Bit(check);
      EmitTurn(start, if max == 1 then n else n + 5, greedy, check, p, a);
      if max == INT32_MAX {
        ghost var turn := [Split(n + 5, greedy)] + Checked(a, check);
        TurnLength(a, n + 5, greedy, check);
        FollowsLength(code, p, turn);
        Emit(Goto(start - (|code| + 5)), p, turn);
      }
    }

    /** A quantifier with minimum 0 and another maximum. */
    method EmitCounted(start: nat, max: nat, greedy: bool, check: bool, ghost p: seq<Byte>, ghost a: seq<Instr>)
      requires start == |p| && Follows(code, p, a) && ByteLength(a) <= CODE_SIZE_MAX && max <= INT32_MAX
      modifies this`code
      ensures Follows(code, p, Counted(a, max, greedy, check))
    {
      hide Follows, ByteLength, Checked, Counted;
      FollowsLength(code, p, a);
      var n: int := |code| - start + 2 * Bit(check);
      EmitTurn(start, n + 5, greedy, check, p, a);
      ghost var turn := [Split(n + 5, greedy)] + Checked(a, check);
      TurnLength(a, n + 5, greedy, check);
      Insert(start, PushI32(max), p, turn);
      ghost var all := [PushI32(max)] + turn;
      ByteLengthAdd([PushI32(max)], turn);
      assert ByteLength([PushI32(max)]) == 5 by { OneLength(PushI32(max)); }
      FollowsLength(code, p, all);
      Emit(Loop(start + 5 - (|code| + 5)), p, all);
      Emit(Drop, p, all + [Loop(-(n + 10))]);
      CountedPieces(a, n, max, greedy, check);
    }

    /** Writing over an instruction of the same size. */
    method Patch(pos: nat, i: Instr, ghost p: seq<Byte>, ghost a: seq<Instr>, ghost was: Instr, ghost b: seq<Instr>)
      requires Encodable(i) && Size(i) == Size(was) && Follows(code, p, a + [was] + b) && pos == |p| + ByteLength(a)
      modifies this`code
      ensures Follows(code, p, a + [i] + b)
    {
      hide Encodable, Encode, Assemble;
      PatchParts(code, p, a, i, was, b);
      code := code[..pos] + Encode(i) + code[pos + Size(i)..];
    }

    /** The repetitions that must happen. */
    method EmitMandatory(start: nat, min: nat, ghost p: seq<Byte>, ghost a: seq<Instr>) returns (at: nat)
      requires start == |p| && Follows(code, p, a) && ByteLength(a) <= CODE_SIZE_MAX && 0 < min <= INT32_MAX
      modifies this`code
      ensures Follows(code, p, Mandatory(a, min))
      ensures at + ByteLength(a) <= |code| && code[at..at + ByteLength(a)] == Assemble(a)
    {
      hide Follows, ByteLength, Encodable;
      FollowsEncodable(code, p, a);
      FollowsLength(code, p, a);
      at := start;
      if min == 1 {
        FollowsTail(code, p, a);
      } else {
        IsEncodable(PushI32(min));
        IsEncodable(Loop(-(ByteLength(a) as int + 5)));
        IsEncodable(Drop);
        Insert(start, PushI32(min), p, a);
        at := start + 5;
        ghost var all := [PushI32(min)] + a;
        OneLength(PushI32(min));
        ByteLengthAdd([PushI32(min)], a);
        FollowsLength(code, p, all);
        AssembleOne(PushI32(min));
        FollowsMiddle(code, p, [PushI32(min)], a);
        ghost var c0 := code;
        Emit(Loop(at - (|code| + 5)), p, all);
        Emit(Drop, p, all + [Loop(-(ByteLength(a) as int + 5))]);
        PrefixSlice(c0, code, at, at + ByteLength(a));
        assert all + [Loop(-(ByteLength(a) as int + 5))] + [Drop] == Mandatory(a, min);
      }
    }

    /** A split, and a copy of the atom between the opcodes that check that it advances. */
    method EmitCopy(at: nat, off: int, greedy: bool, check: bool, ghost p: seq<Byte>, ghost m: seq<Instr>, ghost a: seq<Instr>, n: nat)
      requires Follows(code, p, m) && -0x8000_0000 <= off <= 0x7fff_ffff && n == ByteLength(a)
      requires AllEncodable(a) && at + n <= |code| && code[at..at + n] == Assemble(a)
      modifies this`code
      ensures Follows(code, p, m + ([Split(off, greedy)] + Checked(a, check)))
    {
      hide *;
      ghost var split, c0 := [Split(off, greedy)], code;
      IsEncodable(Split(off, greedy));
      IsEncodable(PushCharPos);
      IsEncodable(CheckAdvance);
      Emit(Split(off, greedy), p, m);
      if check {
        Emit(PushCharPos, p, m + split);
      }
      ghost var pre := if check then m + split + [PushCharPos] else m + split;
      PrefixSlice(c0, code, at, at + n);
      CopySelf(at, n, p, pre, a);
      if check {
        Emit(CheckAdvance, p, pre + a);
      }
      TurnList(m, split, a, check);
    }

    /** The repetitions that may follow the mandatory ones. */
    method EmitExtra(at: nat, n: nat, min: nat, max: nat, greedy: bool, check: bool, ghost p: seq<Byte>, ghost m: seq<Instr>, ghost a: seq<Instr>)
      requires Follows(code, p, m) && n == ByteLength(a) <= CODE_SIZE_MAX && min <= max <= INT32_MAX
      requires AllEncodable(a) && at + n <= |code| && code[at..at + n] == Assemble(a)
      modifies this`code
      ensures Follows(code, p, m + Extra(a, min, max, greedy, check))
    {
      hide Follows, ByteLength, AllEncodable, Encodable, Assemble, Checked, Extra, Size;
      var w: int := n + 2 * Bit(check);
      TurnLength(a, w + 5, greedy, check);
      var pos := |code|;
      FollowsLength(code, p, m);
      ExtraList(m, a, min, max, greedy, check);
      if max == INT32_MAX {
        EmitCopy(at, w + 5, greedy, check, p, m, a, n);
        ghost var all := m + ([Split(w + 5, greedy)] + Checked(a, check));
        ByteLengthAdd(m, [Split(w + 5, greedy)] + Checked(a, check));
        FollowsLength(code, p, all);
        IsEncodable(Goto(-(w + 10)));
        Emit(Goto(pos - (|code| + 5)), p, all);
      } else if max > min {
        ghost var c0, pushed := code, m + [PushI32(max - min)];
        IsEncodable(PushI32(max - min));
        Emit(PushI32(max - min), p, m);
        PrefixSlice(c0, code, at, at + n);
        EmitCopy(at, w + 5, greedy, check, p, pushed, a, n);
        ghost var all := pushed + ([Split(w + 5, greedy)] + Checked(a, check));
        ByteLengthAdd(m, [PushI32(max - min)]);
        OneLength(PushI32(max - min));
        ByteLengthAdd(pushed, [Split(w + 5, greedy)] + Checked(a, check));
        FollowsLength(code, p, all);
        IsEncodable(Loop(-(w + 10)));
        IsEncodable(Drop);
        Emit(Loop(pos + 5 - (|code| + 5)), p, all);
        Emit(Drop, p, all + [Loop(-(w + 10))]);
      }
    }

    /** The quantifier on the atom that starts at start, holding the captures from first on. */
    method Quantify(start: nat, min: nat, max: nat, greedy: bool, first: nat, ghost p: seq<Byte>, ghost a: seq<Instr>)
      requires start == |p| && Follows(code, p, a) && ByteLength(a) <= CODE_SIZE_MAX && min <= max <= INT32_MAX
      requires first <= captureCount <= CAPTURE_COUNT_MAX
      modifies this`code
      ensures Follows(code, p, QuantifyAtom(a, min, max, greedy, first, captureCount))
    {
      hide Follows, ByteLength, Encodable, Assemble, SimpleLength, NeedCheckAdvance, Optional, Star, Counted, Mandatory, Extra;
      FollowsEncodable(code, p, a);
      FollowsPrepend(code, p, a, []);
      if greedy && max > 0 {
        var count := IsSimpleQuantifier(code[start..], a);
        if count > 0 {
          EmitSimple(start, min, max, count, p, a);
          return;
        }
      }
      var check := false;
      if greedy {
        check := NeedsCheck(code[start..], a);
      }
      var n := |code| - start;
      if min == 0 {
        EmitFromZero(start, max, greedy, check, first, p, a);
      } else if min == 1 && max == INT32_MAX && !check {
        var off: int := start - (|code| + 5);
        IsEncodable(Split(off, !greedy));
        Emit(Split(off, !greedy), p, a);
      } else {
        var at := EmitMandatory(start, min, p, a);
        EmitExtra(at, n, min, max, greedy, check, p, Mandatory(a, min), a);
      }
    }

    method EmitSimple(start: nat, min: nat, max: nat, count: nat, ghost p: seq<Byte>, ghost a: seq<Instr>)
      requires start == |p| && Follows(code, p, a) && ByteLength(a) <= CODE_SIZE_MAX && min <= max <= INT32_MAX
      requires count == SimpleLength(a) > 0
      modifies this`code
      ensures Follows(code, p, SimpleQuantified(a, min, max))
    {
      hide Follows, ByteLength, Encodable, SimpleLength;
      SimpleFits(a);
      FollowsLength(code, p, a);
      IsEncodable(Match);
      Emit(Match, p, a);
      ByteLengthAdd(a, [Match]);
      OneLength(Match);
      FollowsLength(code, p, a + [Match]);
      var i := SimpleGreedy(|code| - start, min, max, count);
      IsEncodable(i);
      Insert(start, i, p, a + [Match]);
      Assoc([i], a, [Match]);
    }

    method EmitFromZero(start: nat, max: nat, greedy: bool, check: bool, first: nat, ghost p: seq<Byte>, ghost a: seq<Instr>)
      requires start == |p| && Follows(code, p, a) && ByteLength(a) <= CODE_SIZE_MAX && max <= INT32_MAX
      requires first <= captureCount <= CAPTURE_COUNT_MAX
      modifies this`code
      ensures Follows(code, p, Quantified(a, 0, max, greedy, check, if captureCount != first then [SaveReset(first, captureCount - 1)] else []))
    {
      hide Follows, ByteLength, Encodable, Optional, Star, Counted, Assemble;
      var at := start;
      ghost var reset := if captureCount != first then [SaveReset(first, captureCount - 1)] else [];
      FollowsEncodable(code, p, a);
      if first != captureCount {
        IsEncodable(SaveReset(first, captureCount - 1));
        AssembleOne(SaveReset(first, captureCount - 1));
        OneLength(SaveReset(first, captureCount - 1));
        Insert(start, SaveReset(first, captureCount - 1), p, a);
        at := start + 3;
      } else {
        assert [] + a == a;
      }
      ghost var q := p + Assemble(reset);
      EmptyAssembly();
      FollowsShift(code, p, reset, a);
      if max == 0 {
        FollowsLength(code, q, a);
        FollowsNothing(code, q, a);
        code := code[..at];
        FollowsShift(code, p, reset, []);
      } else if max == 1 || max == INT32_MAX {
        EmitOpen(at, max, greedy, check, q, a);
        FollowsEncodable(code, q, if max == 1 then Optional(a, greedy, check) else Star(a, greedy, check));
        FollowsShift(code, p, reset, if max == 1 then Optional(a, greedy, check) else Star(a, greedy, check));
      } else {
        EmitCounted(at, max, greedy, check, q, a);
        FollowsEncodable(code, q, Counted(a, max, greedy, check));
        FollowsShift(code, p, reset, Counted(a, max, greedy, check));
      }
    }

    /** re_parse_term on the parsed pattern; fails exactly on too many captures. */
    method EmitTerm(t: Term, back: bool) returns (ok: bool)
      requires ParsedTerm(t) && captureCount <= CAPTURE_COUNT_MAX && SmallTerm(t, back, captureCount)
      modifies this
      ensures ok <==> CapturesTerm(t, old(captureCount)) <= CAPTURE_COUNT_MAX
      ensures ok ==> captureCount == CapturesTerm(t, old(captureCount))
      ensures ok ==> Follows(code, old(code), CompileTerm(t, back, old(captureCount)))
      decreases t
    {
      hide Follows, ByteLength, Encodable, QuantifyAtom;
      ghost var p, n := code, captureCount;
      FollowsStart(p);
      ok := true;
      match t {
        case Assertion(test) =>
          IsEncodable(test);
          EmitFirst(test, p);
        case Character(accept) =>
          if back {
            IsEncodable(Prev);
            EmitFirst(Prev, p);
            Emit(accept, p, [Prev]);
            Emit(Prev, p, [Prev] + [accept]);
            assert [Prev] + [accept] + [Prev] == [Prev, accept, Prev];
          } else {
            EmitFirst(accept, p);
          }
        case Reference(idx) =>
          IsEncodable(BackRef(idx, back));
          EmitFirst(BackRef(idx, back), p);
        case Group(d) =>
          ok := EmitDisjunction(d, back);
        case Capture(d) =>
          ok := EmitCapture(d, back);
        case Look(d, negated, behind) =>
          ok := EmitLook(d, negated, behind);
        case Quantifier(atom, min, max, greedy) =>
          var start, first := |code|, captureCount;
          ok := EmitTerm(atom, back);
          if ok {
            Quantify(start, min, max, greedy, first, p, CompileTerm(atom, back, n));
          }
      }
    }

    method EmitCapture(d: Disjunction, back: bool) returns (ok: bool)
      requires ParsedDisjunction(d) && captureCount <= CAPTURE_COUNT_MAX && SmallDisjunction(d, back, captureCount + 1)
      modifies this
      ensures ok <==> CapturesDisjunction(d, old(captureCount) + 1) <= CAPTURE_COUNT_MAX
      ensures ok ==> captureCount == CapturesDisjunction(d, old(captureCount) + 1)
      ensures ok ==> var n := old(captureCount);
                     Follows(code, old(code), [Save(n, back)] + CompileDisjunction(d, back, n + 1) + [Save(n, !back)])
      decreases d, 1
    {
      hide Follows, ByteLength, Encodable;
      if captureCount >= CAPTURE_COUNT_MAX {
        return false;
      }
      ghost var p := code;
      var n := captureCount;
      captureCount := n + 1;
      IsEncodable(Save(n, back));
      IsEncodable(Save(n, !back));
      EmitFirst(Save(n, back), p);
      ghost var q := code;
      ok := EmitDisjunction(d, back);
      if ok {
        FollowsJoin(code, p, q, [Save(n, back)], CompileDisjunction(d, back, n + 1));
        Emit(Save(n, !back), p, [Save(n, back)] + CompileDisjunction(d, back, n + 1));
      }
    }

    method EmitLook(d: Disjunction, negated: bool, behind: bool) returns (ok: bool)
      requires ParsedDisjunction(d) && captureCount <= CAPTURE_COUNT_MAX && SmallDisjunction(d, behind, captureCount)
      modifies this
      ensures ok <==> CapturesDisjunction(d, old(captureCount)) <= CAPTURE_COUNT_MAX
      ensures ok ==> captureCount == CapturesDisjunction(d, old(captureCount))
      ensures ok ==> var a := CompileDisjunction(d, behind, old(captureCount));
                     Follows(code, old(code), [Lookahead(ByteLength(a) + 1, negated)] + a + [Match])
      decreases d, 1
    {
      hide Follows, ByteLength, Encodable;
      ghost var p, a := code, CompileDisjunction(d, behind, captureCount);
      var pos := |code|;
      var head := Lookahead(0, negated);
      IsEncodable(head);
      EmitFirst(head, p);
      ghost var q := code;
      ok := EmitDisjunction(d, behind);
      if ok {
        FollowsJoin(code, p, q, [head], a);
        IsEncodable(Match);
        Emit(Match, p, [head] + a);
        SmallIs(d, behind, old(captureCount));
        AroundLength(head, a, Match);
        FollowsLength(code, p, [head] + a + [Match]);
        var i := Lookahead(|code| - (pos + 5), negated);
        IsEncodable(i);
        Assoc([head], a, [Match]);
        Assoc([i], a, [Match]);
        EmptyAssembly();
        assert [] + [head] == [head] && [] + [i] == [i];
        Patch(pos, i, p, [], head, a + [Match]);
      }
    }

    /** re_parse_alternative */
    method EmitAlternative(a: Alternative, back: bool) returns (ok: bool)
      requires ParsedAlternative(a) && captureCount <= CAPTURE_COUNT_MAX && SmallAlternative(a, back, captureCount)
      modifies this
      ensures ok <==> CapturesAlternative(a, old(captureCount)) <= CAPTURE_COUNT_MAX
      ensures ok ==> captureCount == CapturesAlternative(a, old(captureCount))
      ensures ok ==> Follows(code, old(code), CompileAlternative(a, back, old(captureCount)))
      decreases a
    {
      hide Follows, ByteLength, Encodable, CompileTerm;
      ghost var p, n := code, captureCount;
      FollowsStart(p);
      ok := true;
      if a.Then? {
        var start := |code|;
        ok := EmitAlternative(a.before, back);
        if ok {
          ghost var q, before := code, CompileAlternative(a.before, back, n);
          ghost var term := CompileTerm(a.term, back, captureCount);
          var mid := |code|;
          FollowsLength(code, p, before);
          ok := EmitTerm(a.term, back);
          if ok {
            FollowsJoin(code, p, q, before, term);
            if back {
              Reverse(start, mid, p, before, term);
            }
          }
        }
      }
    }

    /** re_parse_disjunction */
    method EmitDisjunction(d: Disjunction, back: bool) returns (ok: bool)
      requires ParsedDisjunction(d) && captureCount <= CAPTURE_COUNT_MAX && SmallDisjunction(d, back, captureCount)
      modifies this
      ensures ok <==> CapturesDisjunction(d, old(captureCount)) <= CAPTURE_COUNT_MAX
      ensures ok ==> captureCount == CapturesDisjunction(d, old(captureCount))
      ensures ok ==> Follows(code, old(code), CompileDisjunction(d, back, old(captureCount)))
      decreases d, 0
    {
      hide Follows, ByteLength, Encodable, CompileAlternative;
      if d.Only? {
        ok := EmitAlternative(d.alt, back);
        return;
      }
      ghost var p, n := code, captureCount;
      var start := |code|;
      ok := EmitDisjunction(d.before, back);
      if ok {
        ghost var x := CompileDisjunction(d.before, back, n);
        SmallIs(d.before, back, n);
        FollowsLength(code, p, x);
        var split, goto := Split(|code| - start + 5, true), Goto(0);
        IsEncodable(split);
        IsEncodable(goto);
        Insert(start, split, p, x);
        ghost var front := [split] + x;
        ByteLengthAdd([split], x);
        OneLength(split);
        FollowsLength(code, p, front);
        var pos := |code|;
        Emit(goto, p, front);
        ghost var q, y := code, CompileAlternative(d.alt, back, captureCount);
        SmallAlternativeIs(d.alt, back, captureCount);
        FollowsLength(code, p, front + [goto]);
        ByteLengthAdd(front, [goto]);
        OneLength(goto);
        ok := EmitAlternative(d.alt, back);
        if ok {
          FollowsLength(code, q, y);
          FollowsJoin(code, p, q, front + [goto], y);
          var i := Goto(|code| - (pos + 5));
          IsEncodable(i);
          Patch(pos, i, p, front, goto, y);
        }
      }
    }
  }

  /** A compiled pattern: what lre_compile writes in the header, and the code. */
  datatype Compiled = Compiled(captures: nat, stackSize: nat, code: seq<Byte>)

  /** lre_compile: fails exactly on too many captures or too many nested counters. */
  method Compile(d: Disjunction, sticky: bool) returns (r: Option<Compiled>)
    requires ParsedDisjunction(d) && SmallDisjunction(d, false, 1)
    ensures r.Some? <==> CapturesDisjunction(d, 1) <= CAPTURE_COUNT_MAX && DepthWithin(CompilePattern(d, sticky), STACK_SIZE_MAX)
    ensures r.Some? ==> r.value.captures == CapturesDisjunction(d, 1) && DepthWithin(CompilePattern(d, sticky), r.value.stackSize)
    ensures r.Some? ==> AllEncodable(CompilePattern(d, sticky)) && r.value.code == Assemble(CompilePattern(d, sticky))
    ensures r.Some? ==> CodeAt(r.value.code, 0, CompilePattern(d, sticky))
  {
    hide Follows, ByteLength, Encodable, Assemble, CodeAt, PlaceOf;
    var e := new Emitter();
    if !sticky {
      IsEncodable(Split(6, false));
      IsEncodable(Goto(-11));
      e.EmitFirst(Split(6, false), []);
      AnyEncodable();
      e.Emit(Any, [], [Split(6, false)]);
      e.Emit(Goto(-11), [], [Split(6, false)] + [Any]);
      assert [Split(6, false)] + [Any] + [Goto(-11)] == Prelude(false);
    } else {
      FollowsStart([]);
    }
    IsEncodable(Save(0, false));
    e.Emit(Save(0, false), [], Prelude(sticky));
    ghost var q, front := e.code, Prelude(sticky) + [Save(0, false)];
    var ok := e.EmitDisjunction(d, false);
    if !ok {
      return None;
    }
    FollowsJoin(e.code, [], q, front, CompileDisjunction(d, false, 1));
    IsEncodable(Save(0, true));
    IsEncodable(Match);
    e.Emit(Save(0, true), [], front + CompileDisjunction(d, false, 1));
    e.Emit(Match, [], front + CompileDisjunction(d, false, 1) + [Save(0, true)]);
    ghost var code := CompilePattern(d, sticky);
    FollowsEncodable(e.code, [], code);
    FollowsIs(e.code, [], code);
    assert [] + Assemble(code) == Assemble(code);
    AssembledWhole(e.code, code);
    ghost var body := PatternBlock(d, sticky);
    var size := ComputeStackSize(e.code, body);
    MatchKeepsDepth(body);
    if size < 0 {
      return None;
    }
    return Some(Compiled(e.captureCount, size, e.code));
  }

  /** No place in the code is deeper than size. */
  ghost predicate DepthWithin(code: seq<Instr>, size: nat) {
    forall k :: 0 <= k <= |code| ==> PlaceOf(code, k).depth <= size
  }

  lemma MatchKeepsDepth(body: seq<Instr>)
    ensures forall size: nat :: DepthWithin(body + [Match], size) <==> DepthWithin(body, size)
  {
    hide PlaceOf;
    var code := body + [Match];
    PlaceNext(code, |body|);
    forall k: nat | k <= |body| ensures PlaceOf(code, k) == PlaceOf(body, k) {
      PlacePrefix(body, [Match], k);
    }
    forall size: nat ensures DepthWithin(code, size) <==> DepthWithin(body, size) {
      if DepthWithin(code, size) {
        forall k | 0 <= k <= |body| ensures PlaceOf(body, k).depth <= size {
          assert PlaceOf(code, k).depth <= size;
        }
      }
    }
  }

  lemma AnyEncodable()
    ensures Encodable(Any)
  {
  }

  /** The code of a pattern and of all its parts fits the int in which the compiler counts it. */
  predicate SmallTerm(t: Term, back: bool, n: nat) {
    match t
    case Assertion(_) | Character(_) | Reference(_) => true
    case Group(d) => SmallDisjunction(d, back, n)
    case Capture(d) => SmallDisjunction(d, back, n + 1)
    case Look(d, _, behind) => SmallDisjunction(d, behind, n)
    case Quantifier(atom, _, _, _) => SmallTerm(atom, back, n) && ByteLength(CompileTerm(atom, back, n)) <= CODE_SIZE_MAX
  }

  predicate SmallAlternative(a: Alternative, back: bool, n: nat) {
    && ByteLength(CompileAlternative(a, back, n)) <= CODE_SIZE_MAX
    && (a.Then? ==> SmallAlternative(a.before, back, n) && SmallTerm(a.term, back, CapturesAlternative(a.before, n)))
  }

  predicate SmallDisjunction(d: Disjunction, back: bool, n: nat) {
    && ByteLength(CompileDisjunction(d, back, n)) <= CODE_SIZE_MAX
    && (if d.Only? then SmallAlternative(d.alt, back, n)
        else SmallDisjunction(d.before, back, n) && SmallAlternative(d.alt, back, CapturesDisjunction(d.before, n)))
  }

  lemma SmallIs(d: Disjunction, back: bool, n: nat)
    requires SmallDisjunction(d, back, n)
    ensures ByteLength(CompileDisjunction(d, back, n)) <= CODE_SIZE_MAX
  {
  }

  lemma SmallAlternativeIs(a: Alternative, back: bool, n: nat)
    requires SmallAlternative(a, back, n)
    ensures ByteLength(CompileAlternative(a, back, n)) <= CODE_SIZE_MAX
  {
  }

  lemma FollowsStart(p: seq<Byte>)
    ensures Follows(p, p, [])
  {
    assert p + [] == p;
  }

  lemma FollowsJoin(code: seq<Byte>, p: seq<Byte>, q: seq<Byte>, a: seq<Instr>, b: seq<Instr>)
    requires Follows(q, p, a) && Follows(code, q, b)
    ensures Follows(code, p, a + b)
    ensures AllEncodable(a) && AllEncodable(b)
  {
    hide Encodable, Assemble;
    FollowsShift(code, p, a, b);
  }

  lemma AroundLength(i: Instr, a: seq<Instr>, j: Instr)
    ensures ByteLength([i] + a + [j]) == Size(i) + ByteLength(a) + Size(j)
  {
    hide ByteLength;
    ByteLengthAdd([i] + a, [j]);
    ByteLengthAdd([i], a);
    OneLength(i);
    OneLength(j);
  }

  lemma EmptyAssembly()
    ensures AllEncodable([]) && Assemble([]) == [] && ByteLength([]) == 0
  {
  }

  lemma FollowsNothing(code: seq<Byte>, p: seq<Byte>, a: seq<Instr>)
    requires Follows(code, p, a)
    ensures Follows(code[..|p|], p, [])
  {
  }

  lemma IsEncodable(i: Instr)
    requires i.PushCharPos? || i.CheckAdvance? || i.Drop? || i.Match? || i.Prev? || i.LineStart? || i.LineEnd? || i.WordBoundary?
             || (i.PushI32? && i.v <= INT32_MAX) || (i.Save? && i.idx < 0x100) || (i.BackRef? && i.idx < 0x100)
             || (i.SaveReset? && i.lo < 0x100 && i.hi < 0x100)
             || ((i.Goto? || i.Split? || i.Loop? || i.Lookahead?) && -0x8000_0000 <= i.off <= 0x7fff_ffff)
             || (i.SimpleGreedy? && 0 <= i.off <= 0x7fff_ffff && i.chars <= i.off && i.min <= INT32_MAX && i.max <= INT32_MAX)
    ensures Encodable(i) && Size(i) > 0 && (i.PushI32? || i.Goto? || i.Split? || i.Loop? || i.Lookahead? ==> Size(i) == 5)
  {
  }

  lemma TurnList(m: seq<Instr>, split: seq<Instr>, a: seq<Instr>, check: bool)
    ensures m + (split + Checked(a, check)) == if check then m + split + [PushCharPos] + a + [CheckAdvance] else m + split + a
  {
  }

  lemma ExtraList(m: seq<Instr>, a: seq<Instr>, min: nat, max: nat, greedy: bool, check: bool)
    ensures var w: int := ByteLength(a) + 2 * Bit(check);
            var turn := [Split(w + 5, greedy)] + Checked(a, check);
            m + Extra(a, min, max, greedy, check)
            == if max == INT32_MAX then m + turn + [Goto(-(w + 10))]
               else if max > min then m + [PushI32(max - min)] + turn + [Loop(-(w + 10))] + [Drop]
               else m
  {
    hide ByteLength, Checked, Counted;
    var w: int := ByteLength(a) + 2 * Bit(check);
    var turn := [Split(w + 5, greedy)] + Checked(a, check);
    if max == INT32_MAX {
      Assoc(m, turn, [Goto(-(w + 10))]);
    } else if max > min {
      var x, y, z := [PushI32(max - min)], [Loop(-(w + 10))], [Drop];
      CountedPieces(a, w, max - min, greedy, check);
      Assoc(m, x, turn);
      Assoc(m, x + turn, y);
      Assoc(m, x + turn + y, z);
    }
  }

  lemma Assoc(a: seq<Instr>, b: seq<Instr>, c: seq<Instr>)
    ensures a + b + c == a + (b + c)
  {
  }

  lemma FollowsEncodable(code: seq<Byte>, p: seq<Byte>, a: seq<Instr>)
    requires Follows(code, p, a)
    ensures AllEncodable(a)
  {
  }

  lemma PrefixSlice(c: seq<Byte>, d: seq<Byte>, i: nat, j: nat)
    requires c <= d && i <= j <= |c|
    ensures c[i..j] == d[i..j]
  {
  }

  lemma FollowsTail(code: seq<Byte>, p: seq<Byte>, a: seq<Instr>)
    requires Follows(code, p, a)
    ensures |code| == |p| + ByteLength(a) && code[|p|..|p| + ByteLength(a)] == Assemble(a)
  {
  }

  lemma FollowsMiddle(code: seq<Byte>, p: seq<Byte>, a: seq<Instr>, b: seq<Instr>)
    requires AllEncodable(a) && AllEncodable(b) && Follows(code, p, a + b)
    ensures var at := |p| + ByteLength(a); at + ByteLength(b) == |code| && code[at..at + ByteLength(b)] == Assemble(b)
  {
    hide Assemble, Encodable;
    AssembleAdd(a, b);
    ByteLengthAdd(a, b);
  }

  lemma PatchParts(code: seq<Byte>, p: seq<Byte>, a: seq<Instr>, i: Instr, was: Instr, b: seq<Instr>)
    requires Encodable(i) && Size(i) == Size(was) && Follows(code, p, a + [was] + b)
    ensures var pos := |p| + ByteLength(a);
            pos + Size(i) <= |code| && Follows(code[..pos] + Encode(i) + code[pos + Size(i)..], p, a + [i] + b)
  {
    hide *;
    FollowsEncodable(code, p, a + [was] + b);
    EncodableParts(a + [was], b);
    EncodableParts(a, [was]);
    AssembleAdd(a + [was], b);
    AssembleAdd(a, [was]);
    EncodableOne(was);
    AssembleOne(was);
    AssembleOne(i);
    AssembleAdd(a, [i]);
    AssembleAdd(a + [i], b);
    FollowsIs(code, p, a + [was] + b);
    Replace(code, p, Assemble(a), Encode(was), Assemble(b), Encode(i));
    FollowsIs(code[..|p| + ByteLength(a)] + Encode(i) + code[|p| + ByteLength(a) + Size(i)..], p, a + [i] + b);
  }

  lemma EncodableOne(i: Instr)
    requires AllEncodable([i])
    ensures Encodable(i)
  {
    assert i in [i];
  }

  lemma FollowsIs(code: seq<Byte>, p: seq<Byte>, a: seq<Instr>)
    requires AllEncodable(a)
    ensures Follows(code, p, a) <==> code == p + Assemble(a)
  {
  }

  lemma Replace(code: seq<Byte>, p: seq<Byte>, x: seq<Byte>, u: seq<Byte>, y: seq<Byte>, v: seq<Byte>)
    requires code == p + (x + u + y)
    ensures var pos := |p| + |x|; code[..pos] + v + code[pos + |u|..] == p + (x + v + y)
  {
    var pos := |p| + |x|;
    assert code == (p + x) + u + y;
    assert code[..pos] == p + x && code[pos + |u|..] == y;
  }

  lemma FollowsLength(code: seq<Byte>, p: seq<Byte>, a: seq<Instr>)
    requires Follows(code, p, a)
    ensures |code| == |p| + ByteLength(a)
  {
  }

  lemma OneLength(i: Instr)
    ensures ByteLength([i]) == Size(i)
  {
    assert [i][1..] == [];
  }

  lemma TurnLength(a: seq<Instr>, off: int, greedy: bool, check: bool)
    ensures ByteLength([Split(off, greedy)] + Checked(a, check)) == 5 + ByteLength(a) + 2 * Bit(check)
  {
    hide ByteLength;
    ByteLengthAdd([Split(off, greedy)], Checked(a, check));
    OneLength(Split(off, greedy));
    CheckedLength(a, check);
  }
}
