/** How many threads are too many: a run that hands out a wrong slot, for every count of threads and failing mmaps that
    leaves fewer counter values than the worst interleaving uses up. */
module TrampolineExact {
  import opened Arith
  import opened Trampoline
  import opened TrampolineBound

  ghost predicate BadEnd(c: Config, run: seq<Action>, s: State, s': State, f: nat, already: nat)
    requires c.Valid()
  {
    Runs(c, s, run, s') && FewFailures(run, f, already) && !Safe(c, s')
  }

  /** Some run from s, with at most f failing mmaps between two stores, hands out a wrong slot. */
  ghost predicate Doomed(c: Config, s: State, f: nat, already: nat)
    requires c.Valid()
  {
    exists run, s' :: BadEnd(c, run, s, s', f, already)
  }

  lemma DoomedNow(c: Config, s: State, f: nat, already: nat)
    requires c.Valid() && !Safe(c, s) && already <= f
    ensures Doomed(c, s, f, already)
  {
    hide Safe, Config.Valid;
    assert BadEnd(c, [], s, s, f, already);
  }

  lemma DoomedBefore(c: Config, s: State, a: Action, f: nat, already: nat)
    requires c.Valid() && Enabled(c, s, a) && already <= f && Doomed(c, Step(c, s, a), f, FailuresAfter(a, already))
    ensures Doomed(c, s, f, already)
  {
    hide Safe, Config.Valid, Enabled, Step, FailuresAfter;
    var run, s' :| BadEnd(c, run, Step(c, s, a), s', f, FailuresAfter(a, already));
    assert ([a] + run)[1..] == run;
    assert BadEnd(c, [a] + run, s, s', f, already);
  }

  // One thread at a time: what it does between being idle and being idle or blocked again.

  lemma AfterCall(c: Config, s: State, t: nat, f: nat, already: nat)
    requires c.Valid() && t < |s.threads| && already <= f
    requires s.threads[t].Idle? || (s.threads[t].Waiting? && !s.lock)
    requires Doomed(c, s.(threads := s.threads[t := Ready]), f, already)
    ensures Doomed(c, s, f, already)
  {
    hide Doomed, Config.Valid;
    DoomedBefore(c, s, if s.threads[t].Idle? then Call(t) else Wake(t), f, already);
  }

  lemma AfterFetch(c: Config, s: State, t: nat, f: nat, already: nat, th: Thread)
    requires c.Valid() && t < |s.threads| && already <= f && s.threads[t].Ready? && Full(c, s.pool)
    requires th == if s.lock then Waiting else Locked
    requires Doomed(c, s.(pool := s.pool + 1, lock := true, threads := s.threads[t := th]), f, already)
    ensures Doomed(c, s, f, already)
  {
    hide Doomed, Config.Valid, Full;
    var s1 := Step(c, s, FetchAdd(t));
    assert s.threads[t := Got(s.pool)][t := th] == s.threads[t := th];
    DoomedBefore(c, s1, Decide(t), f, already);
    DoomedBefore(c, s, FetchAdd(t), f, already);
  }

  lemma AfterSlot(c: Config, s: State, t: nat, f: nat, already: nat)
    requires c.Valid() && t < |s.threads| && already <= f && s.threads[t].Ready? && !Full(c, s.pool)
    requires var x := Slot(PageOf(c, s.pool), CountOf(c, s.pool));
      Doomed(c, s.(pool := s.pool + 1, threads := s.threads[t := Idle], handed := s.handed + [x]), f, already)
    ensures Doomed(c, s, f, already)
  {
    hide Doomed, Config.Valid, Full, PageOf, CountOf;
    var s1 := Step(c, s, FetchAdd(t));
    assert s.threads[t := Got(s.pool)][t := Idle] == s.threads[t := Idle];
    DoomedBefore(c, s1, Decide(t), f, already);
    DoomedBefore(c, s, FetchAdd(t), f, already);
  }

  lemma AfterFailure(c: Config, s: State, t: nat, f: nat, already: nat)
    requires c.Valid() && t < |s.threads| && already < f && s.threads[t].Locked?
    requires Doomed(c, s.(lock := false, threads := s.threads[t := Idle]), f, already + 1)
    ensures Doomed(c, s, f, already)
  {
    hide Doomed, Config.Valid;
    var s1 := Step(c, s, MmapFails(t));
    assert s.threads[t := Failed][t := Idle] == s.threads[t := Idle];
    DoomedBefore(c, s1, Unlock(t), f, already + 1);
    DoomedBefore(c, s, MmapFails(t), f, already);
  }

  // The word that has carried.

  /** The first word past the top of a page's count names slot 0: of the page after it, or of the page itself. */
  lemma CarriedWord(c: Config, q: nat)
    requires c.Valid() && q == PageOf(c, c.pageSize + c.CountSpan())
    ensures CountOf(c, c.pageSize + c.CountSpan()) == 0 && q > 0 && !Full(c, c.pageSize + c.CountSpan())
    ensures q == if c.CountSpan() == c.pageSize then 2 * c.pageSize else c.pageSize
  {
    var p, m := c.pageSize, c.CountSpan();
    SpanFits(c);
    DivModUnique(p + m, p, if m == p then 2 else 1, if m == p then 0 else m);
    assert p == p / m * m;
    Distribute(p / m, 1, m);
    DivModUnique(p + m, m, p / m + 1, 0);
    SlotsInPage(c);
  }

  /** A thread that fetches it returns a slot that is not mapped, or one that was handed out before. */
  lemma TakesCarried(c: Config, s: State, t: nat, f: nat, already: nat)
    requires c.Valid() && t < |s.threads| && already <= f && s.threads[t].Ready?
    requires s.pool == c.pageSize + c.CountSpan() && s.pages == {c.pageSize} && Slot(c.pageSize, 0) in s.handed
    ensures Doomed(c, s, f, already)
  {
    hide Doomed, PageOf, CountOf, Full;
    var x := Slot(PageOf(c, s.pool), 0);
    CarriedWord(c, x.page);
    var s' := s.(pool := s.pool + 1, threads := s.threads[t := Idle], handed := s.handed + [x]);
    var i :| 0 <= i < |s.handed| && s.handed[i] == Slot(c.pageSize, 0);
    var j := |s.handed|;
    assert s'.handed[j] == x && s'.handed[i] == s.handed[i];
    assert !InMappedPage(c, s', s'.handed[j]) || !Apart(c, s'.handed[i], s'.handed[j]);
    DoomedNow(c, s', f, already);
    AfterSlot(c, s, t, f, already);
  }

  // The worst interleaving. Thread 0 stores a page; the others work in turn.

  /** n threads: thread 0, then k threads in state a, then the others in state b. */
  function Line(n: nat, first: Thread, k: nat, a: Thread, b: Thread): (ts: seq<Thread>)
    ensures |ts| == n
  {
    seq(n, i => if i == 0 then first else if i <= k then a else b)
  }

  lemma LineFirst(n: nat, first: Thread, k: nat, a: Thread, b: Thread, th: Thread)
    requires n > 0
    ensures Line(n, first, k, a, b)[0] == first && Line(n, first, k, a, b)[0 := th] == Line(n, th, k, a, b)
  {
  }

  lemma LineNext(n: nat, first: Thread, k: nat, a: Thread, b: Thread)
    requires k + 1 < n
    ensures Line(n, first, k, a, b)[k + 1] == b && Line(n, first, k, a, b)[k + 1 := a] == Line(n, first, k + 1, a, b)
  {
  }

  lemma LineAll(n: nat, first: Thread, a: Thread, b: Thread, d: Thread)
    requires n > 0
    ensures Line(n, first, n - 1, a, b) == Line(n, first, 0, d, a)
  {
  }

  /** The pool counts in the first page, and w is its word. */
  function Crew(c: Config, w: nat, lock: bool, threads: seq<Thread>, handed: seq<Slot>): State {
    State(w, lock, threads, {c.pageSize}, handed)
  }

  lemma FullWord(c: Config, w: nat)
    requires c.Valid() && c.pageSize + c.PerPage() <= w < c.pageSize + c.CountSpan()
    ensures Full(c, w)
  {
    hide PageOf, CountOf, Config.PerPage, Config.CountSpan;
    DivModUnique(c.pageSize, c.pageSize, 1, 0);
    WordSplit(c, c.pageSize, w - c.pageSize);
  }

  /** How many words the run still has to fetch: all up to the one that has carried. */
  function Left(c: Config, w: nat): int {
    c.pageSize + c.CountSpan() - w + 1
  }

  ghost predicate InPage(c: Config, w: nat)
    requires c.Valid()
  {
    c.pageSize + c.PerPage() <= w <= c.pageSize + c.CountSpan()
  }

  /** Thread 0 holds the lock and k of the others have fetched. When all have, mmap fails. */
  lemma {:induction false} WhileLocked(c: Config, n: nat, k: nat, w: nat, h: seq<Slot>, f: nat, already: nat)
    requires c.Valid() && 0 <= k < n && already <= f && InPage(c, w) && Slot(c.pageSize, 0) in h
    requires Left(c, w) <= n - 1 - k + n * (f - already)
    ensures Doomed(c, Crew(c, w, true, Line(n, Locked, k, Waiting, Ready), h), f, already)
    decreases f - already, 0, n - k
  {
    hide Config.Valid, Config.PerPage, Config.CountSpan, Doomed, Line, Full;
    var s := Crew(c, w, true, Line(n, Locked, k, Waiting, Ready), h);
    if k + 1 == n {
      LineFirst(n, Locked, k, Waiting, Ready, Idle);
      LineAll(n, Idle, Waiting, Ready, Ready);
      assert f > already by {
        if f == already {
          assert n * 0 == 0;
        }
      }
      Distribute(f - already - 1, 1, n);
      SwapFactors(f - already, n);
      SwapFactors(f - already - 1, n);
      AfterRelease(c, n, 0, w, h, f, already + 1);
      AfterFailure(c, s, 0, f, already);
    } else {
      LineNext(n, Locked, k, Waiting, Ready);
      if w == c.pageSize + c.CountSpan() {
        TakesCarried(c, s, k + 1, f, already);
      } else {
        FullWord(c, w);
        WhileLocked(c, n, k + 1, w + 1, h, f, already);
        AfterFetch(c, s, k + 1, f, already, Waiting);
      }
    }
  }

  /** The lock is free, thread 0 is idle and k of the others have woken. When all have, thread 0 takes the lock. */
  lemma {:induction false} AfterRelease(c: Config, n: nat, k: nat, w: nat, h: seq<Slot>, f: nat, already: nat)
    requires c.Valid() && 0 <= k < n && already <= f && InPage(c, w) && Slot(c.pageSize, 0) in h
    requires Left(c, w) <= n + n * (f - already)
    ensures Doomed(c, Crew(c, w, false, Line(n, Idle, k, Ready, Waiting), h), f, already)
    decreases f - already, 1, n - k
  {
    hide Config.Valid, Config.PerPage, Config.CountSpan, Doomed, Line, Full;
    var s := Crew(c, w, false, Line(n, Idle, k, Ready, Waiting), h);
    if k + 1 == n {
      LineFirst(n, Idle, k, Ready, Waiting, Ready);
      var s1 := s.(threads := Line(n, Ready, k, Ready, Waiting));
      LineFirst(n, Ready, k, Ready, Waiting, Locked);
      if w == c.pageSize + c.CountSpan() {
        TakesCarried(c, s1, 0, f, already);
      } else {
        LineAll(n, Locked, Ready, Waiting, Waiting);
        FullWord(c, w);
        WhileLocked(c, n, 0, w + 1, h, f, already);
        AfterFetch(c, s1, 0, f, already, Locked);
      }
      AfterCall(c, s, 0, f, already);
    } else {
      LineNext(n, Idle, k, Ready, Waiting);
      AfterRelease(c, n, k + 1, w, h, f, already);
      AfterCall(c, s, k + 1, f, already);
    }
  }

  /** Thread 0 has stored the page and k of the others have fetched a full word. When all have, it clears the lock. */
  lemma {:induction false} WhileStored(c: Config, n: nat, k: nat, w: nat, h: seq<Slot>, f: nat)
    requires c.Valid() && 0 <= k < n && InPage(c, w) && Left(c, w) <= n - 1 - k + n * (f + 1)
    ensures Doomed(c, Crew(c, w, true, Line(n, Stored(c.pageSize), k, Waiting, Idle), h), f, 0)
    decreases n - k
  {
    hide Config.Valid, Config.PerPage, Config.CountSpan, Doomed, Line, Full;
    var p := c.pageSize;
    var s := Crew(c, w, true, Line(n, Stored(p), k, Waiting, Idle), h);
    if k + 1 == n || w == p + c.CountSpan() {
      LineFirst(n, Stored(p), k, Waiting, Idle, Idle);
      var s1 := Crew(c, w, false, Line(n, Idle, k, Waiting, Idle), h + [Slot(p, 0)]);
      if w == p + c.CountSpan() {
        LineFirst(n, Idle, k, Waiting, Idle, Ready);
        TakesCarried(c, s1.(threads := Line(n, Ready, k, Waiting, Idle)), 0, f, 0);
        AfterCall(c, s1, 0, f, 0);
      } else {
        LineAll(n, Idle, Waiting, Idle, Ready);
        Distribute(f, 1, n);
        SwapFactors(f + 1, n);
        SwapFactors(f, n);
        AfterRelease(c, n, 0, w, h + [Slot(p, 0)], f, 0);
      }
      DoomedBefore(c, s, Unlock(0), f, 0);
    } else {
      LineNext(n, Stored(p), k, Waiting, Idle);
      FullWord(c, w);
      WhileStored(c, n, k + 1, w + 1, h, f);
      var s1 := s.(threads := s.threads[k + 1 := Ready]);
      assert s.threads[k + 1 := Ready][k + 1 := Waiting] == s.threads[k + 1 := Waiting];
      AfterFetch(c, s1, k + 1, f, 0, Waiting);
      AfterCall(c, s, k + 1, f, 0);
    }
  }

  // Before that, one thread uses up the slots of the page.

  function SlotsFrom(c: Config, m: nat): seq<Slot>
    requires c.Valid() && m <= c.PerPage()
  {
    seq(c.PerPage() - m, i requires i >= 0 => Slot(c.pageSize, m + i))
  }

  lemma {:induction false} UsesUp(c: Config, s: State, t: nat, m: nat, f: nat)
    requires c.Valid() && t < |s.threads| && s.threads[t].Idle? && s.pool == c.pageSize + m && 0 < m <= c.PerPage()
    requires Doomed(c, s.(pool := c.pageSize + c.PerPage(), handed := s.handed + SlotsFrom(c, m)), f, 0)
    ensures Doomed(c, s, f, 0)
    decreases c.PerPage() - m
  {
    hide Doomed, Full, PageOf, CountOf;
    if m == c.PerPage() {
      assert s.handed + SlotsFrom(c, m) == s.handed;
    } else {
      var x := Slot(c.pageSize, m);
      var s1 := s.(threads := s.threads[t := Ready]);
      var s2 := s.(pool := s.pool + 1, handed := s.handed + [x]);
      assert SlotsFrom(c, m) == [x] + SlotsFrom(c, m + 1);
      assert s2.handed + SlotsFrom(c, m + 1) == s.handed + SlotsFrom(c, m);
      UsesUp(c, s2, t, m + 1, f);
      SlotWord(c, m);
      assert s.threads[t := Ready][t := Idle] == s.threads;
      AfterSlot(c, s1, t, f, 0);
      AfterCall(c, s, t, f, 0);
    }
  }

  lemma SlotWord(c: Config, m: nat)
    requires c.Valid() && m < c.PerPage()
    ensures PageOf(c, c.pageSize + m) == c.pageSize && CountOf(c, c.pageSize + m) == m && !Full(c, c.pageSize + m)
  {
    hide PageOf, CountOf;
    DivModUnique(c.pageSize, c.pageSize, 1, 0);
    WordSplit(c, c.pageSize, m);
  }

  /** The page is stored and its slots are yet to be handed out. */
  lemma OnceStored(c: Config, n: nat, f: nat)
    requires c.Valid() && n > 0 && c.PerPage() + n * (f + 2) > c.CountSpan() + 1
    ensures Doomed(c, Crew(c, c.pageSize + 1, true, Line(n, Stored(c.pageSize), 0, Waiting, Idle), []), f, 0)
  {
    hide Config.PerPage, Config.CountSpan, Doomed, Full, SlotsFrom;
    var p := c.pageSize;
    SlotsInPage(c);
    Distribute(f + 1, 1, n);
    SwapFactors(f + 2, n);
    SwapFactors(f + 1, n);
    var s, end := Crew(c, p + 1, true, Line(n, Stored(p), 0, Waiting, Idle), []), p + c.PerPage();
    if n > 1 {
      WhileStored(c, n, 0, end, [] + SlotsFrom(c, 1), f);
      UsesUp(c, s, 1, 1, f);
    } else {
      var s1 := Crew(c, p + 1, false, Line(n, Idle, 0, Waiting, Idle), [] + [Slot(p, 0)]);
      LineFirst(n, Stored(p), 0, Waiting, Idle, Idle);
      LineAll(n, Idle, Waiting, Idle, Ready);
      AfterRelease(c, n, 0, end, s1.handed + SlotsFrom(c, 1), f, 0);
      UsesUp(c, s1, 0, 1, f);
      DoomedBefore(c, s, Unlock(0), f, 0);
    }
  }

  /** From the start, thread 0 maps the first page and stores it. */
  lemma FirstPage(c: Config, n: nat, f: nat)
    requires c.Valid() && n > 0
    requires Doomed(c, Crew(c, c.pageSize + 1, true, Line(n, Stored(c.pageSize), 0, Waiting, Idle), []), f, 0)
    ensures Doomed(c, Init(n), f, 0)
  {
    hide Config.PerPage, Doomed, Full, PageOf, CountOf, Config.CountSpan;
    var p, s := c.pageSize, Init(n);
    var idle := s.threads;
    var s1 := s.(threads := idle[0 := Ready]);
    var s2 := State(1, true, idle[0 := Locked], {}, []);
    var s3 := State(1, true, idle[0 := Mapped(p)], {p}, []);
    var s4 := Crew(c, p + 1, true, idle[0 := Stored(p)], []);
    assert idle[0 := Stored(p)] == Line(n, Stored(p), 0, Waiting, Idle);
    assert idle[0 := Mapped(p)][0 := Stored(p)] == idle[0 := Stored(p)];
    assert idle[0 := Locked][0 := Mapped(p)] == idle[0 := Mapped(p)];
    assert idle[0 := Ready][0 := Locked] == idle[0 := Locked];
    DoomedBefore(c, s3, Store(0), f, 0);
    DivModUnique(p, p, 1, 0);
    assert {} + {p} == {p};
    DoomedBefore(c, s2, Mmap(0, p), f, 0);
    BelowFirstPage(c, 0);
    AfterFetch(c, s1, 0, f, 0, Locked);
    AfterCall(c, s, 0, f, 0);
  }

  /** Every run of n threads with at most f failing mmaps between two stores is safe. */
  ghost predicate AlwaysSafe(c: Config, n: nat, f: nat)
    requires c.Valid()
  {
    forall run, s :: Runs(c, Init(n), run, s) && FewFailures(run, f, 0) ==> Safe(c, s)
  }

  /** The exact bound: n threads with at most f failing mmaps between two stores are safe in every interleaving if and
      only if a page's slots and f + 2 words for each thread are at most one more than the counter has values. */
  lemma SafeExactly(c: Config, n: nat, f: nat)
    requires c.Valid()
    ensures AlwaysSafe(c, n, f) <==> c.PerPage() + n * (f + 2) <= c.CountSpan() + 1
  {
    hide Config.PerPage, Config.CountSpan, Runs, Safe, FewFailures;
    if c.PerPage() + n * (f + 2) <= c.CountSpan() + 1 {
      forall run, s | Runs(c, Init(n), run, s) && FewFailures(run, f, 0) ensures Safe(c, s) {
        FewThreadsAreSafe(c, n, f, run, s);
      }
    } else {
      assert n > 0 by {
        assert 0 * (f + 2) == 0;
      }
      OnceStored(c, n, f);
      FirstPage(c, n, f);
      var run, s :| BadEnd(c, run, Init(n), s, f, 0);
    }
  }
}
