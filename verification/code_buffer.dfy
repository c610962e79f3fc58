/** Machine code as bytes, little endian, and the growable buffer that instructions are emitted into. */
module CodeBuffers {
  import opened Arith

  type Byte = x: int | 0 <= x < 256
  type Word = x: int | 0 <= x < 0x1_0000_0000
  type Double = x: int | 0 <= x < 0x1_0000_0000_0000_0000

  function Bytes4(w: Word): (s: seq<Byte>)
    ensures |s| == 4
  {
    [w % 256, w / 256 % 256, w / 65536 % 256, w / 16777216]
  }

  function Bytes8(v: Double): (s: seq<Byte>)
    ensures |s| == 8
  {
    Bytes4(v % 0x1_0000_0000) + Bytes4(v / 0x1_0000_0000)
  }

  /** The word that the processor reads at an offset. */
  function WordAt(s: seq<Byte>, at: nat): Word
    requires at + 4 <= |s|
  {
    s[at] as int + 256 * s[at + 1] as int + 65536 * s[at + 2] as int + 16777216 * s[at + 3] as int
  }

  function DoubleAt(s: seq<Byte>, at: nat): Double
    requires at + 8 <= |s|
  {
    WordAt(s, at) as int + 0x1_0000_0000 * WordAt(s, at + 4) as int
  }

  lemma BytesOfWord(w: Word)
    ensures var s := Bytes4(w); s[0] as int + 256 * s[1] as int + 65536 * s[2] as int + 16777216 * s[3] as int == w
  {
  }

  lemma ReadWord(s: seq<Byte>, w: Word, t: seq<Byte>)
    ensures WordAt(s + Bytes4(w) + t, |s|) == w
  {
    hide Bytes4;
    BytesOfWord(w);
  }

  lemma ReadDouble(s: seq<Byte>, v: Double)
    ensures DoubleAt(s + Bytes8(v), |s|) == v
  {
    hide Bytes4, WordAt;
    var lo, hi := v % 0x1_0000_0000, v / 0x1_0000_0000;
    ReadWord(s, lo, Bytes4(hi));
    ReadWord(s + Bytes4(lo), hi, []);
    assert s + Bytes8(v) == s + Bytes4(lo) + Bytes4(hi) == s + Bytes4(lo) + Bytes4(hi) + [];
  }

  /** The size and the capacity are 32 bit numbers. */
  const LIMIT: nat := 0x8000_0000

  // The capacity is doubled in 32 bits until it reaches size + needed, also in 32 bits.

  const WRAP: nat := 0x1_0000_0000

  /** The capacity after k doublings. */
  function Grown(capacity: nat, k: nat): nat {
    if k == 0 then capacity else Grown(capacity, k - 1) * 2 % WRAP
  }

  /** The loop that looks for w stops after k doublings. */
  ghost predicate StopsAfter(capacity: nat, w: nat, k: nat) {
    w <= Grown(capacity, k) && forall j :: 0 <= j < k ==> Grown(capacity, j) < w
  }

  lemma {:induction false} GrownIs(a: nat, k: nat)
    requires a <= 31
    ensures Grown(Pow2(a), k) == if a + k <= 31 then Pow2(a + k) else 0
  {
    hide Pow2;
    if k > 0 {
      GrownIs(a, k - 1);
      TopCapacity();
      if a + k - 1 <= 31 {
        Pow2Mono(a + k - 1, 31);
        Pow2Add(a + k - 1, 1);
        assert a + k - 1 + 1 == a + k;
        if a + k <= 31 {
          Pow2Mono(a + k, 31);
        } else {
          assert a + k - 1 == 31;
        }
      }
    }
  }

  lemma TopCapacity()
    ensures Pow2(31) == LIMIT && Pow2(1) == 2
  {
    assert Pow2(3) == 8 && Pow2(4) == 16;
    Pow2Add(4, 4);
    Pow2Add(8, 8);
    Pow2Add(8, 4);
    Pow2Add(12, 3);
    Pow2Add(16, 15);
  }

  /** From a power of two, the doubling ends with room for sum bytes if and only if sum is at most 2^31. Above that it never
      ends, or the sum has wrapped and it ends without room. */
  lemma CapacitySuffices(a: nat, sum: nat)
    requires a <= 31
    ensures (exists k :: StopsAfter(Pow2(a), sum % WRAP, k) && sum <= Grown(Pow2(a), k)) <==> sum <= LIMIT
  {
    hide Pow2, Grown;
    if k: nat :| StopsAfter(Pow2(a), sum % WRAP, k) && sum <= Grown(Pow2(a), k) {
      GrownBound(a, k);
    }
    if sum <= LIMIT {
      GrownBound(a, 31 - a);
      NotWrapped(sum);
      var k := FirstEnough(a, sum, 31 - a);
      assert StopsAfter(Pow2(a), sum % WRAP, k) && sum <= Grown(Pow2(a), k);
    }
  }

  lemma NotWrapped(sum: nat)
    requires sum <= LIMIT
    ensures sum % WRAP == sum
  {
  }

  lemma GrownBound(a: nat, k: nat)
    requires a <= 31
    ensures Grown(Pow2(a), k) <= LIMIT && (a + k == 31 ==> Grown(Pow2(a), k) == LIMIT)
  {
    hide Pow2;
    GrownIs(a, k);
    TopCapacity();
    if a + k <= 31 {
      Pow2Mono(a + k, 31);
    }
  }

  lemma FirstEnough(a: nat, w: nat, n: nat) returns (k: nat)
    requires w <= Grown(Pow2(a), n)
    ensures StopsAfter(Pow2(a), w, k)
  {
    hide Pow2, Grown;
    var j := 0;
    while j < n && Grown(Pow2(a), j) < w
      invariant 0 <= j <= n && forall i :: 0 <= i < j ==> Grown(Pow2(a), i) < w
    {
      j := j + 1;
    }
    k := j;
  }

  class CodeBuffer {
    var data: array<Byte>
    var size: nat

    ghost predicate Valid()
      reads this
    {
      size <= data.Length && 0 < data.Length
    }

    ghost function Contents(): seq<Byte>
      reads this, data
      requires Valid()
    {
      data[..size]
    }

    constructor ()
      ensures Valid() && fresh(data) && Contents() == []
    {
      data := new Byte[256];
      size := 0;
    }

    /** Doubling the capacity until there is room; nothing already emitted is lost. */
    method EnsureCapacity(needed: nat)
      requires Valid() && size + needed <= LIMIT
      modifies this
      ensures Valid() && size + needed <= data.Length && size == old(size) && Contents() == old(Contents())
      ensures data == old(data) || (fresh(data) && data.Length < 2 * LIMIT)
    {
      if size + needed <= data.Length {
        return;
      }
      var capacity := data.Length;
      while size + needed > capacity
        invariant 0 < capacity < 2 * LIMIT
        decreases size + needed - capacity
      {
        capacity := capacity * 2;
      }
      var src, n := data, size;
      data := new Byte[capacity](k reads src => if 0 <= k < src.Length then src[k] else 0);
      assert data[..n] == src[..n];
    }

    method EmitBytes(s: seq<Byte>)
      requires Valid() && size + |s| <= LIMIT
      modifies this, data
      ensures Valid() && (data == old(data) || fresh(data)) && Contents() == old(Contents()) + s
    {
      ghost var was := Contents();
      EnsureCapacity(|s|);
      var from, d := size, data;
      for k := 0 to |s|
        invariant data == d && size == from && d[..from] == was && d[from..from + k] == s[..k]
      {
        d[from + k] := s[k];
        assert d[from..from + k + 1] == d[from..from + k] + [s[k]];
      }
      size := size + |s|;
      assert s[..|s|] == s;
      assert data[..size] == d[..from] + d[from..from + |s|];
    }

    method EmitU32(w: Word)
      requires Valid() && size + 4 <= LIMIT
      modifies this, data
      ensures Valid() && (data == old(data) || fresh(data)) && Contents() == old(Contents()) + Bytes4(w)
    {
      EmitBytes(Bytes4(w));
    }

    method EmitU64(v: Double)
      requires Valid() && size + 8 <= LIMIT
      modifies this, data
      ensures Valid() && (data == old(data) || fresh(data)) && Contents() == old(Contents()) + Bytes8(v)
    {
      EmitBytes(Bytes8(v));
    }

    /** Overwriting the word at an offset. */
    method PutU32(at: nat, w: Word)
      requires Valid() && at + 4 <= size
      modifies data
      ensures Valid() && Contents() == old(Contents())[..at] + Bytes4(w) + old(Contents())[at + 4..]
    {
      ghost var was := Contents();
      var b := Bytes4(w);
      data[at], data[at + 1], data[at + 2], data[at + 3] := b[0], b[1], b[2], b[3];
      assert Contents() == was[..at] + b + was[at + 4..];
    }
  }
}
