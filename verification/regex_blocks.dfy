/** Blocks of instructions: every jump lands on an instruction start of the block, at the stack depth it leaves with. */
module RegexBlocks {
  import opened RegexInstr
  import opened RegexEmit

  /** A point in the code: its byte offset, and the stack depth counted linearly from the start. */
  datatype Place = Place(offset: int, depth: int) {
    function Plus(p: Place): Place {
      Place(offset + p.offset, depth + p.depth)
    }
  }

  /** The effect of an opcode on the linear count of compute_stack_size. */
  function Weight(i: Instr): Place {
    Place(Size(i), if i.PushI32? || i.PushCharPos? then 1 else if i.Drop? || i.CheckAdvance? then -1 else 0)
  }

  /** The place before instruction k. */
  function PlaceOf(code: seq<Instr>, k: nat): Place
    requires k <= |code|
  {
    if k == 0 then Place(0, 0) else PlaceOf(code, k - 1).Plus(Weight(code[k - 1]))
  }

  function End(code: seq<Instr>): Place {
    PlaceOf(code, |code|)
  }

  lemma {:induction false} PlaceInside(pre: seq<Instr>, a: seq<Instr>, post: seq<Instr>, k: nat)
    requires k <= |a|
    ensures PlaceOf(pre + a + post, |pre| + k) == End(pre).Plus(PlaceOf(a, k))
  {
    if k == 0 {
      PlacePrefix(pre, a + post, |pre|);
      assert pre + a + post == pre + (a + post);
    } else {
      PlaceInside(pre, a, post, k - 1);
      assert (pre + a + post)[|pre| + k - 1] == a[k - 1];
    }
  }

  lemma {:induction false} PlacePrefix(pre: seq<Instr>, post: seq<Instr>, k: nat)
    requires k <= |pre|
    ensures PlaceOf(pre + post, k) == PlaceOf(pre, k)
  {
    if k > 0 {
      PlacePrefix(pre, post, k - 1);
    }
  }

  lemma EmptyEnd()
    ensures End([]) == Place(0, 0)
  {
  }

  lemma EndAdd(a: seq<Instr>, b: seq<Instr>)
    ensures End(a + b) == End(a).Plus(End(b))
  {
    PlaceInside(a, b, [], |b|);
    assert a + b + [] == a + b;
  }

  lemma {:induction false} EndIsByteLength(a: seq<Instr>)
    ensures End(a).offset == ByteLength(a)
    decreases |a|
  {
    if a != [] {
      EndIsByteLength(a[1..]);
      EndAdd([a[0]], a[1..]);
      assert [a[0]] + a[1..] == a;
      assert End([a[0]]) == PlaceOf([a[0]], 0).Plus(Weight(a[0]));
    }
  }

  predicate Jumps(i: Instr) {
    i.Goto? || i.Split? || i.Loop? || i.Lookahead? || i.SimpleGreedy?
  }

  ghost predicate Landing(code: seq<Instr>, p: Place) {
    exists j :: 0 <= j <= |code| && PlaceOf(code, j) == p
  }

  /** The atom of the quantifier at k follows it, up to a Match, and takes as many characters as the quantifier says. */
  ghost predicate AtomFollows(code: seq<Instr>, k: nat, n: nat) {
    k + 1 + n < |code| && code[k].SimpleGreedy? && code[k].chars == SimpleLength(code[k + 1..k + 1 + n]) > 0
    && code[k + 1 + n] == Match
  }

  /** Instruction k finds the stack cells it uses, and its jump lands at the depth it leaves with. */
  ghost predicate Fits(code: seq<Instr>, k: nat)
    requires k < |code|
  {
    var i, p, q := code[k], PlaceOf(code, k), PlaceOf(code, k + 1);
    && p.depth >= (if i.Drop? || i.CheckAdvance? || i.Loop? then 1 else 0)
    && (Jumps(i) ==> Landing(code, Place(q.offset + i.off, q.depth)))
    && (i.SimpleGreedy? ==> exists n :: AtomFollows(code, k, n))
  }

  ghost predicate Block(code: seq<Instr>) {
    End(code).depth == 0 && forall k :: 0 <= k < |code| ==> Fits(code, k)
  }

  lemma FitsInside(pre: seq<Instr>, a: seq<Instr>, post: seq<Instr>, k: nat)
    requires k < |a| && Fits(a, k) && End(pre).depth >= 0
    ensures Fits(pre + a + post, |pre| + k)
  {
    hide PlaceOf, End, SimpleLength;
    var code, i := pre + a + post, a[k];
    PlaceInside(pre, a, post, k);
    PlaceInside(pre, a, post, k + 1);
    if Jumps(i) {
      var q := PlaceOf(a, k + 1);
      var j :| 0 <= j <= |a| && PlaceOf(a, j) == Place(q.offset + i.off, q.depth);
      PlaceInside(pre, a, post, j);
      assert PlaceOf(code, |pre| + j) == End(pre).Plus(PlaceOf(a, j));
    }
    if i.SimpleGreedy? {
      var n :| AtomFollows(a, k, n);
      assert code[|pre| + k + 1..|pre| + k + 1 + n] == a[k + 1..k + 1 + n];
      assert AtomFollows(code, |pre| + k, n);
    }
  }

  /** A block inside other instructions makes a block with them, once those fit themselves. */
  lemma Embed(pre: seq<Instr>, a: seq<Instr>, post: seq<Instr>)
    requires Block(a) && End(pre).depth >= 0 && End(pre).depth + End(post).depth == 0
    requires forall k :: 0 <= k < |pre + a + post| && !(|pre| <= k < |pre| + |a|) ==> Fits(pre + a + post, k)
    ensures Block(pre + a + post)
  {
    hide PlaceOf, Fits;
    var code := pre + a + post;
    EndAdd(pre + a, post);
    EndAdd(pre, a);
    forall k | 0 <= k < |code| ensures Fits(code, k) {
      if |pre| <= k < |pre| + |a| {
        FitsInside(pre, a, post, k - |pre|);
      }
    }
  }

  lemma Append(a: seq<Instr>, b: seq<Instr>)
    requires Block(a) && Block(b)
    ensures Block(a + b)
  {
    hide PlaceOf, Fits;
    var code := a + b;
    EndAdd(a, b);
    EmptyEnd();
    forall k | 0 <= k < |code| ensures Fits(code, k) {
      if k < |a| {
        FitsInside([], a, b, k);
        assert [] + a + b == code;
      } else {
        FitsInside(a, b, [], k - |a|);
        assert a + b + [] == code;
      }
    }
  }

  lemma OneEnd(i: Instr)
    ensures End([i]) == Weight(i)
  {
    assert PlaceOf([i], 1) == PlaceOf([i], 0).Plus(Weight(i));
  }

  lemma TwoEnd(i: Instr, j: Instr)
    ensures End([i, j]) == Weight(i).Plus(Weight(j)) && PlaceOf([i, j], 1) == Weight(i)
  {
    hide Weight;
    var s := [i, j];
    assert PlaceOf(s, 1) == PlaceOf(s, 0).Plus(Weight(i));
    assert PlaceOf(s, 2) == PlaceOf(s, 1).Plus(Weight(j));
  }

  /** A single instruction that neither jumps nor touches the stack. */
  lemma Single(i: Instr)
    requires !Jumps(i) && Weight(i).depth == 0
    ensures Block([i])
  {
    hide PlaceOf;
    OneEnd(i);
    PlaceZero([i]);
  }

  lemma EmptyBlock()
    ensures Block([])
  {
  }

  /** The places of a block between other instructions. */
  lemma Layout(pre: seq<Instr>, a: seq<Instr>, post: seq<Instr>, k: nat)
    requires k <= |post|
    ensures PlaceOf(pre + a + post, |pre|) == End(pre)
    ensures PlaceOf(pre + a + post, |pre| + |a| + k) == End(pre).Plus(End(a)).Plus(PlaceOf(post, k))
  {
    PlaceInside(pre, a, post, 0);
    PlaceInside(pre + a, post, [], k);
    EndAdd(pre, a);
    assert pre + a + post + [] == pre + a + post;
    assert |pre + a| + k == |pre| + |a| + k;
  }

  lemma CheckedBlock(a: seq<Instr>, check: bool)
    requires Block(a)
    ensures Block(Checked(a, check)) && End(Checked(a, check)) == Place(ByteLength(a) + 2 * Bit(check), 0)
  {
    hide PlaceOf;
    EndIsByteLength(a);
    if check {
      var pre, post := [PushCharPos], [CheckAdvance];
      var code := pre + a + post;
      OneEnd(PushCharPos);
      OneEnd(CheckAdvance);
      Layout(pre, a, post, 0);
      EndAdd(pre + a, post);
      EndAdd(pre, a);
      PlaceZero(code);
      PlaceZero(post);
      assert Fits(code, 0) && Fits(code, 1 + |a|);
      Embed(pre, a, post);
    }
  }

  lemma PlaceZero(code: seq<Instr>)
    ensures PlaceOf(code, 0) == Place(0, 0)
  {
  }

  /** A split over a block, to its end. */
  lemma OptionalBlock(a: seq<Instr>, greedy: bool, check: bool)
    requires Block(a)
    ensures Block(Optional(a, greedy, check))
  {
    hide PlaceOf, Checked, ByteLength;
    var c := Checked(a, check);
    CheckedBlock(a, check);
    var pre := [Split(ByteLength(a) + 2 * Bit(check), greedy)];
    var code := pre + c;
    OneEnd(pre[0]);
    Layout(pre, c, [], 0);
    PlaceZero(code);
    PlaceZero([]);
    EmptyEnd();
    assert pre + c + [] == code;
    assert PlaceOf(code, |code|) == Place(5 + ByteLength(a) + 2 * Bit(check), 0);
    assert Fits(code, 0);
    Embed(pre, c, []);
  }

  lemma StarBlock(a: seq<Instr>, greedy: bool, check: bool)
    requires Block(a)
    ensures Block(Star(a, greedy, check))
  {
    hide PlaceOf, Checked, ByteLength;
    var c := Checked(a, check);
    var n: int := ByteLength(a) + 2 * Bit(check);
    CheckedBlock(a, check);
    var pre, post := [Split(n + 5, greedy)], [Goto(-(n + 10))];
    var code := pre + c + post;
    OneEnd(pre[0]);
    OneEnd(post[0]);
    Layout(pre, c, post, 0);
    Layout(pre, c, post, 1);
    PlaceZero(code);
    PlaceZero(post);
    assert PlaceOf(code, |code|) == Place(n + 10, 0);
    assert Fits(code, 0) && Fits(code, 1 + |c|);
    Embed(pre, c, post);
  }

  lemma CountedBlock(a: seq<Instr>, max: nat, greedy: bool, check: bool)
    requires Block(a)
    ensures Block(Counted(a, max, greedy, check))
  {
    hide PlaceOf, Checked, ByteLength;
    var c := Checked(a, check);
    var n: int := ByteLength(a) + 2 * Bit(check);
    CheckedBlock(a, check);
    var pre, post := [PushI32(max), Split(n + 5, greedy)], [Loop(-(n + 10)), Drop];
    CountedFits(pre, c, post, n);
    Embed(pre, c, post);
  }

  lemma CountedFits(pre: seq<Instr>, c: seq<Instr>, post: seq<Instr>, n: int)
    requires |pre| == |post| == 2 && pre[0].PushI32? && pre[1].Split? && pre[1].off == n + 5
    requires post == [Loop(-(n + 10)), Drop] && End(c) == Place(n, 0)
    ensures var code := pre + c + post;
            && End(pre) == Place(10, 1) && End(post) == Place(6, -1)
            && Fits(code, 0) && Fits(code, 1) && Fits(code, 2 + |c|) && Fits(code, 3 + |c|)
  {
    hide PlaceOf;
    var code := pre + c + post;
    TwoEnd(pre[0], pre[1]);
    TwoEnd(post[0], post[1]);
    assert pre == [pre[0], pre[1]];
    Layout(pre, c, post, 0);
    Layout(pre, c, post, 1);
    Layout(pre, c, post, 2);
    PlaceZero(code);
    PlaceZero(post);
    PlacePrefix(pre, c + post, 1);
    assert pre + (c + post) == code;
    assert PlaceOf(code, 1) == Place(5, 1) && PlaceOf(code, 2) == Place(10, 1);
    assert PlaceOf(code, 2 + |c|) == Place(10 + n, 1) && PlaceOf(code, 3 + |c|) == Place(15 + n, 1);
  }

  lemma PlusBlock(a: seq<Instr>, greedy: bool)
    requires Block(a)
    ensures Block(Plus(a, greedy))
  {
    hide PlaceOf, ByteLength;
    EndIsByteLength(a);
    var n: int := ByteLength(a);
    var post := [Split(-(n + 5), !greedy)];
    var code := a + post;
    OneEnd(post[0]);
    EmptyEnd();
    Layout([], a, post, 0);
    Layout([], a, post, 1);
    PlaceZero(code);
    PlaceZero(post);
    assert [] + a + post == code;
    assert Fits(code, |a|);
    Embed([], a, post);
  }

  lemma MandatoryBlock(a: seq<Instr>, min: nat)
    requires Block(a)
    ensures Block(Mandatory(a, min))
  {
    hide PlaceOf, ByteLength;
    if min != 1 {
      EndIsByteLength(a);
      var n: int := ByteLength(a);
      var pre, post := [PushI32(min)], [Loop(-(n + 5)), Drop];
      var code := pre + a + post;
      OneEnd(pre[0]);
      TwoEnd(post[0], post[1]);
      Layout(pre, a, post, 0);
      Layout(pre, a, post, 1);
      PlaceZero(code);
      PlaceZero(post);
      assert PlaceOf(code, 1) == Place(5, 1) && PlaceOf(code, 2 + |a|) == Place(10 + n, 1);
      assert Fits(code, 0) && Fits(code, 1 + |a|) && Fits(code, 2 + |a|);
      Embed(pre, a, post);
    }
  }

  /** Every form of quantifier keeps its atom's block a block. */
  lemma QuantifiedBlock(a: seq<Instr>, min: nat, max: nat, greedy: bool, check: bool, reset: seq<Instr>)
    requires Block(a) && Block(reset)
    ensures Block(Quantified(a, min, max, greedy, check, reset))
  {
    hide Block, Optional, Star, Counted, Plus, Mandatory;
    EmptyBlock();
    OptionalBlock(a, greedy, check);
    StarBlock(a, greedy, check);
    CountedBlock(a, max, greedy, check);
    PlusBlock(a, greedy);
    MandatoryBlock(a, min);
    if max > min {
      CountedBlock(a, max - min, greedy, check);
    }
    if min == 0 {
      Append(reset, if max == 0 then [] else if max == 1 then Optional(a, greedy, check)
                    else if max == INT32_MAX then Star(a, greedy, check) else Counted(a, max, greedy, check));
    } else if !(min == 1 && max == INT32_MAX && !check) {
      Append(Mandatory(a, min), Extra(a, min, max, greedy, check));
    }
  }

  lemma SimpleBlock(a: seq<Instr>, min: nat, max: nat)
    requires SimpleLength(a) > 0 && Block(a)
    ensures Block(SimpleQuantified(a, min, max))
  {
    hide PlaceOf, ByteLength, SimpleLength;
    EndIsByteLength(a);
    var i := SimpleGreedy(ByteLength(a) + 1, min, max, SimpleLength(a));
    var pre, post := [i], [Match];
    var code := pre + a + post;
    OneEnd(i);
    OneEnd(Match);
    Layout(pre, a, post, 0);
    Layout(pre, a, post, 1);
    PlaceZero(code);
    PlaceZero(post);
    assert PlaceOf(code, |code|) == Place(18 + ByteLength(a), 0);
    assert code[1..1 + |a|] == a;
    assert AtomFollows(code, 0, |a|);
    assert Fits(code, 0) && Fits(code, 1 + |a|);
    Embed(pre, a, post);
  }

  /** Two alternatives. */
  lemma ChoiceBlock(a: seq<Instr>, b: seq<Instr>)
    requires Block(a) && Block(b)
    ensures Block([Split(ByteLength(a) + 5, true)] + a + [Goto(ByteLength(b))] + b)
  {
    hide PlaceOf, ByteLength;
    EndIsByteLength(a);
    EndIsByteLength(b);
    var pre, post := [Split(ByteLength(a) + 5, true)], [Goto(ByteLength(b))] + b;
    var code := pre + a + post;
    OneEnd(pre[0]);
    OneEnd(post[0]);
    EndAdd([post[0]], b);
    Layout(pre, a, post, 0);
    Layout(pre, a, post, 1);
    Layout(pre, a, post, |post|);
    PlacePrefix([post[0]], b, 1);
    PlaceZero(code);
    PlaceZero(post);
    assert Fits(code, 0) && Fits(code, 1 + |a|);
    forall k | 0 <= k < |code| && !(|pre| <= k < |pre| + |a|) ensures Fits(code, k) {
      if k >= 2 + |a| {
        EndAdd(pre, a);
        EndAdd(pre + a, [post[0]]);
        FitsInside(pre + a + [post[0]], b, [], k - 2 - |a|);
        assert pre + a + [post[0]] + b + [] == code;
      }
    }
    Embed(pre, a, post);
    assert code == pre + a + [post[0]] + b;
  }

  lemma LookBlock(a: seq<Instr>, negated: bool)
    requires Block(a)
    ensures Block([Lookahead(ByteLength(a) + 1, negated)] + a + [Match])
  {
    hide PlaceOf, ByteLength;
    EndIsByteLength(a);
    var pre, post := [Lookahead(ByteLength(a) + 1, negated)], [Match];
    var code := pre + a + post;
    OneEnd(pre[0]);
    OneEnd(Match);
    Layout(pre, a, post, 0);
    Layout(pre, a, post, 1);
    PlaceZero(code);
    PlaceZero(post);
    assert PlaceOf(code, |code|) == Place(6 + ByteLength(a), 0);
    assert Fits(code, 0) && Fits(code, 1 + |a|);
    Embed(pre, a, post);
  }
}
