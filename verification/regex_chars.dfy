/** Characters of the subject string: one unit each, or UTF-16 with surrogate pairs. */
module RegexChars {

  /** A subject string. Positions count units; utf16 is buffer type 2, the others take one unit per character. */
  datatype Subject = Subject(units: seq<nat>, utf16: bool) {

    predicate High(p: int) {
      0 <= p < |units| && 0xd800 <= units[p] < 0xdc00
    }

    predicate Low(p: int) {
      0 <= p < |units| && 0xdc00 <= units[p] < 0xe000
    }

    /** The unit at p and the next one form a surrogate pair. */
    predicate Pair(p: int) {
      utf16 && High(p) && Low(p + 1)
    }

    /** GET_CHAR with the buffer ending at end: the position after the character at p. */
    function Next(p: nat, end: nat): (q: nat)
      requires p < end <= |units|
      ensures p < q <= end && q <= p + 2
    {
      if utf16 && High(p) && p + 1 < end && Low(p + 1) then p + 2 else p + 1
    }

    /** GET_CHAR and PEEK_CHAR: the character at p. */
    function CharAt(p: nat, end: nat): nat
      requires p < end <= |units|
    {
      if Next(p, end) == p + 2 then (units[p] % 0x400) * 0x400 + units[p + 1] % 0x400 + 0x10000 else units[p]
    }

    /** PREV_CHAR with the buffer starting at start: the position of the character that ends at p. */
    function Back(p: nat, start: nat): (q: nat)
      requires start < p <= |units|
      ensures start <= q < p && p <= q + 2
    {
      if utf16 && Low(p - 1) && p - 1 > start && High(p - 2) then p - 2 else p - 1
    }

    /** GET_PREV_CHAR and PEEK_PREV_CHAR: the character that ends at p. */
    function CharBefore(p: nat, start: nat): nat
      requires start < p <= |units|
    {
      if Back(p, start) == p - 2 then (units[p - 2] % 0x400) * 0x400 + units[p - 1] % 0x400 + 0x10000 else units[p - 1]
    }

    /** p does not fall inside a surrogate pair. */
    predicate Boundary(p: int) {
      !Pair(p - 1)
    }
  }

  /** PREV_CHAR undoes GET_CHAR exactly at character boundaries. */
  lemma BackUndoesNext(s: Subject, p: nat)
    requires p < |s.units|
    ensures s.Back(s.Next(p, |s.units|), 0) == p <==> s.Boundary(p)
  {
  }

  /** Starting in the middle of a pair, one step forward and one step back does not return. */
  lemma MidPairCounterexample()
    ensures var s := Subject([0xd800, 0xdc00], true); !s.Boundary(1) && s.Next(1, 2) == 2 && s.Back(2, 0) == 0
  {
  }

  /** A step lands off a boundary in no case: even from inside a pair it leaves the pair. */
  lemma NextAlwaysBoundary(s: Subject, p: nat)
    requires p < |s.units|
    ensures s.Boundary(s.Next(p, |s.units|))
  {
  }

  /** A step back lands on a boundary, like a step forward. */
  lemma BackAlwaysBoundary(s: Subject, p: nat)
    requires 0 < p <= |s.units|
    ensures s.Boundary(s.Back(p, 0))
  {
  }

  /** A code point above 0xffff, written as its two UTF-16 units, is read back from both ends. */
  lemma ReadsUtf16(s: Subject, p: nat, c: nat)
    requires s.utf16 && p + 1 < |s.units| && 0x10000 <= c <= 0x10ffff
    requires s.units[p] == 0xd800 + (c - 0x10000) / 0x400 && s.units[p + 1] == 0xdc00 + (c - 0x10000) % 0x400
    ensures s.Next(p, |s.units|) == p + 2 && s.CharAt(p, |s.units|) == c
    ensures s.Back(p + 2, 0) == p && s.CharBefore(p + 2, 0) == c
  {
    var h, l := (c - 0x10000) / 0x400, (c - 0x10000) % 0x400;
    assert s.units[p] % 0x400 == h && s.units[p + 1] % 0x400 == l;
  }

  predicate IsLineTerminator(c: nat) {
    c == 10 || c == 13 || c == 0x2028 || c == 0x2029
  }

  predicate IsWordChar(c: nat) {
    || 0x30 <= c <= 0x39
    || 0x61 <= c <= 0x7a
    || 0x41 <= c <= 0x5a
    || c == 0x5f
  }
}
