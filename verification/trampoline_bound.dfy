/** When fetched words cannot carry: few enough threads for the failing mmaps between two stores. And what failing mmaps do. */
module TrampolineBound {
  import opened Arith
  import opened Trampoline

  function Sum(xs: seq<nat>): nat {
    if xs == [] then 0 else xs[0] + Sum(xs[1..])
  }

  lemma {:induction false} SumUpdate(xs: seq<nat>, t: nat, v: nat)
    requires t < |xs|
    ensures Sum(xs[t := v]) == Sum(xs) - xs[t] + v
    decreases |xs|
  {
    if t > 0 {
      SumUpdate(xs[1..], t - 1, v);
      assert xs[t := v][1..] == xs[1..][t - 1 := v];
    } else {
      assert xs[t := v][1..] == xs[1..];
    }
  }

  lemma {:induction false} SumBound(xs: seq<nat>, v: nat)
    requires forall t :: 0 <= t < |xs| ==> xs[t] <= v
    ensures Sum(xs) <= |xs| * v
    decreases |xs|
  {
    if xs != [] {
      SumBound(xs[1..], v);
      Distribute(|xs| - 1, 1, v);
    }
  }

  lemma {:induction false} SumZero(n: nat)
    ensures Sum(seq(n, _ => 0)) == 0
  {
    if n > 0 {
      SumZero(n - 1);
      assert seq(n, _ => 0)[1..] == seq(n - 1, _ => 0);
    }
  }

  // Between two releases of the lock a thread fetches at most one full word. The thread that stores a page fetches none
  // before it releases the lock.

  /** What has happened since the last store: the full words each thread fetched, who stored, how often the lock was
      released, and how many mmaps failed. stored and failed say that the lock holder has still to release after one. */
  datatype Ledger = Ledger(spent: seq<nat>, storer: int, releases: nat, failures: nat, stored: bool, failed: bool) {
    /** How many full words thread t may have fetched. */
    function Limit(t: int): nat {
      releases + (if t == storer then 0 else 1)
    }

    predicate Balanced() {
      releases + (if failed then 1 else 0) <= failures + (if storer >= 0 && !stored then 1 else 0)
    }
  }

  /** Thread t keeps within its limit, and below it while it may fetch again. */
  ghost predicate Within(c: Config, s: State, l: Ledger, t: nat)
    requires c.Valid() && t < |s.threads| == |l.spent|
  {
    var th := s.threads[t];
    && l.spent[t] <= l.Limit(t)
    && (th.Idle? || th.Ready? || (th.Got? && !Full(c, th.word)) || (th.Waiting? && !s.lock) ==> l.spent[t] < l.Limit(t))
    && (th.Stored? ==> l.stored && l.storer == t)
    && (th.Failed? ==> l.failed)
  }

  ghost predicate Budget(c: Config, s: State, l: Ledger)
    requires c.Valid()
  {
    && Inv(c, s)
    && |l.spent| == |s.threads|
    && l.storer < |s.threads|
    && (l.storer < 0 ==> PoolPage(c, s) == 0)
    && PoolCount(c, s) <= (if l.storer < 0 then 0 else c.PerPage()) + Sum(l.spent)
    && (forall t :: 0 <= t < |l.spent| ==> Within(c, s, l, t))
    && l.Balanced()
  }

  function Next(c: Config, s: State, l: Ledger, a: Action): Ledger
    requires c.Valid() && a.t < |s.threads| == |l.spent|
  {
    match a
    case FetchAdd(t) => if Full(c, s.pool) then l.(spent := l.spent[t := l.spent[t] + 1]) else l
    case Store(t) => Ledger(seq(|l.spent|, _ => 0), t, 0, 0, true, false)
    case MmapFails(t) => l.(failures := l.failures + 1, failed := true)
    case Unlock(t) =>
      if s.threads[t].Stored? then l.(releases := l.releases + 1, stored := false)
      else l.(releases := l.releases + 1, failed := false)
    case _ => l
  }

  lemma SumOfLimits(l: Ledger)
    requires l.storer < |l.spent| && forall t :: 0 <= t < |l.spent| ==> l.spent[t] <= l.Limit(t)
    ensures Sum(l.spent) + (if l.storer < 0 then 0 else 1) <= |l.spent| * (l.releases + 1)
  {
    hide Sum;
    if l.storer < 0 {
      SumBound(l.spent, l.releases + 1);
    } else {
      SumUpdate(l.spent, l.storer, l.spent[l.storer] + 1);
      SumBound(l.spent[l.storer := l.spent[l.storer] + 1], l.releases + 1);
    }
  }

  /** A fetch finds a count below the top while few mmaps have failed. */
  lemma FetchFits(c: Config, s: State, l: Ledger, a: Action, f: nat)
    requires c.Valid() && Budget(c, s, l) && Enabled(c, s, a) && a.FetchAdd? && l.failures <= f
    requires c.PerPage() + |l.spent| * (f + 2) <= c.CountSpan() + 1
    ensures NoCarry(c, s, a)
  {
    hide PageOf, CountOf, PoolPage, PoolCount, Config.PerPage, Config.Valid, Config.CountSpan, Full, Inv, Sum;
    var more := l.(spent := l.spent[a.t := l.spent[a.t] + 1]);
    assert Within(c, s, l, a.t);
    SumUpdate(l.spent, a.t, l.spent[a.t] + 1);
    forall t | 0 <= t < |more.spent| ensures more.spent[t] <= more.Limit(t) {
      assert Within(c, s, l, t);
    }
    SumOfLimits(more);
    MulMono(l.releases + 1, f + 2, |l.spent|);
    SlotsInPage(c);
  }

  lemma FetchBudget(c: Config, s: State, l: Ledger, a: Action)
    requires c.Valid() && Budget(c, s, l) && Enabled(c, s, a) && a.FetchAdd? && NoCarry(c, s, a)
    ensures Budget(c, Step(c, s, a), Next(c, s, l, a))
  {
    hide PageOf, CountOf, PoolPage, PoolCount, Config.PerPage, Config.Valid, Config.CountSpan, Inv, Sum;
    var s', l' := Step(c, s, a), Next(c, s, l, a);
    StepKeepsInv(c, s, a);
    SumUpdate(l.spent, a.t, l.spent[a.t] + 1);
    CountsOne(c, s, s');
    forall t | 0 <= t < |l.spent| ensures Within(c, s', l', t) {
      assert Within(c, s, l, t);
    }
  }

  /** A fetched word that has not carried says what the pool's count was, and the count goes up by one. */
  lemma CountsOne(c: Config, s: State, s': State)
    requires c.Valid() && Inv(c, s) && PoolCount(c, s) < c.CountSpan() && s'.pool == s.pool + 1
    ensures PageOf(c, s.pool) == PoolPage(c, s) == PoolPage(c, s')
    ensures CountOf(c, s.pool) == PoolCount(c, s) && PoolCount(c, s') == PoolCount(c, s) + 1
  {
    hide PageOf, CountOf, PoolPage, PoolCount, Config.PerPage, Config.Valid, Config.CountSpan;
    PoolSplit(c, s);
    PoolWord(c, s', PoolPage(c, s), PoolCount(c, s) + 1);
  }

  lemma QuietBudget(c: Config, s: State, l: Ledger, a: Action)
    requires c.Valid() && Budget(c, s, l) && Enabled(c, s, a)
    requires a.Call? || a.Wake? || a.Decide? || a.Mmap? || a.MmapFails?
    ensures Budget(c, Step(c, s, a), Next(c, s, l, a))
  {
    hide PageOf, CountOf, Config.PerPage, Config.Valid, Config.CountSpan, Inv, Sum, Full;
    var s', l' := Step(c, s, a), Next(c, s, l, a);
    StepKeepsInv(c, s, a);
    forall t | 0 <= t < |l.spent| ensures Within(c, s', l', t) {
      assert Within(c, s, l, t);
    }
  }

  lemma StoreBudget(c: Config, s: State, l: Ledger, a: Action)
    requires c.Valid() && Budget(c, s, l) && Enabled(c, s, a) && a.Store?
    ensures Budget(c, Step(c, s, a), Next(c, s, l, a))
  {
    hide PageOf, CountOf, PoolPage, PoolCount, Config.Valid, Config.CountSpan, Inv, Sum, Full;
    var s', l' := Step(c, s, a), Next(c, s, l, a);
    StepKeepsInv(c, s, a);
    SumZero(|l.spent|);
    CountAfterStore(c, s, a.t, s');
    SlotsInPage(c);
    forall t | 0 <= t < |l.spent| ensures Within(c, s', l', t) {
      if t != a.t {
        OneHolder(c, s, a.t, t);
      }
    }
  }

  lemma CountAfterStore(c: Config, s: State, t: nat, s': State)
    requires c.Valid() && Inv(c, s) && t < |s.threads| && s.threads[t].Mapped? && s'.pool == s.threads[t].page + 1
    ensures PoolCount(c, s') == 1 && HoldsLock(s.threads[t])
  {
    hide PageOf, CountOf, PoolPage, PoolCount, Config.PerPage, Config.Valid, Config.CountSpan;
    SpanBig(c);
    PoolWord(c, s', s.threads[t].page, 1);
  }

  lemma OneHolder(c: Config, s: State, t: nat, u: nat)
    requires c.Valid() && Inv(c, s) && t < |s.threads| && u < |s.threads| && t != u && HoldsLock(s.threads[t])
    ensures !HoldsLock(s.threads[u])
  {
    hide PageOf, CountOf, Config.PerPage, Config.Valid, Config.CountSpan, Unique, PagesValid, Behind;
  }

  lemma UnlockBudget(c: Config, s: State, l: Ledger, a: Action)
    requires c.Valid() && Budget(c, s, l) && Enabled(c, s, a) && a.Unlock?
    ensures Budget(c, Step(c, s, a), Next(c, s, l, a))
  {
    hide PageOf, CountOf, Config.PerPage, Config.Valid, Config.CountSpan, Inv, Sum, Full;
    var s', l' := Step(c, s, a), Next(c, s, l, a);
    StepKeepsInv(c, s, a);
    assert Within(c, s, l, a.t);
    forall t | 0 <= t < |l.spent| ensures Within(c, s', l', t) {
      assert Within(c, s, l, t);
      if t != a.t {
        OneHolder(c, s, a.t, t);
      }
    }
  }

  /** At most f mmaps fail between two stores, so many having failed since the last one already. */
  predicate FewFailures(run: seq<Action>, f: nat, already: nat)
    decreases |run|
  {
    already <= f &&
    (run == [] || FewFailures(run[1..], f, FailuresAfter(run[0], already)))
  }

  function FailuresAfter(a: Action, already: nat): nat {
    if a.Store? then 0 else if a.MmapFails? then already + 1 else already
  }

  lemma {:induction false} RunStaysWithin(c: Config, s: State, l: Ledger, run: seq<Action>, s': State, f: nat)
    requires c.Valid() && Budget(c, s, l) && Runs(c, s, run, s') && FewFailures(run, f, l.failures)
    requires c.PerPage() + |l.spent| * (f + 2) <= c.CountSpan() + 1
    ensures NeverCarries(c, s, run)
    decreases |run|
  {
    hide Budget, Step, Config.Valid, Config.PerPage, Config.CountSpan, NoCarry, Next;
    if run != [] {
      var a := run[0];
      NextFits(c, s, l, a);
      if a.FetchAdd? {
        FetchFits(c, s, l, a, f);
        FetchBudget(c, s, l, a);
      } else if a.Store? {
        StoreBudget(c, s, l, a);
      } else if a.Unlock? {
        UnlockBudget(c, s, l, a);
      } else {
        QuietBudget(c, s, l, a);
      }
      NotAFetch(c, s, a);
      RunStaysWithin(c, Step(c, s, a), Next(c, s, l, a), run[1..], s', f);
    }
  }

  lemma NextFits(c: Config, s: State, l: Ledger, a: Action)
    requires c.Valid() && Budget(c, s, l) && Enabled(c, s, a)
    ensures a.t < |s.threads| == |l.spent| == |Next(c, s, l, a).spent|
    ensures Next(c, s, l, a).failures == FailuresAfter(a, l.failures)
  {
  }

  lemma NotAFetch(c: Config, s: State, a: Action)
    requires c.Valid()
    ensures !a.FetchAdd? ==> NoCarry(c, s, a)
  {
  }

  /** With n threads and at most f failing mmaps between two stores, a counter with n * (f + 2) - 1 more values than a page
      has slots is enough: no fetched word has carried, so the pool is safe in every interleaving. */
  lemma FewThreadsAreSafe(c: Config, n: nat, f: nat, run: seq<Action>, s: State)
    requires c.Valid() && c.PerPage() + n * (f + 2) <= c.CountSpan() + 1
    requires Runs(c, Init(n), run, s) && FewFailures(run, f, 0)
    ensures NeverCarries(c, Init(n), run) && Safe(c, s)
  {
    hide Inv, Safe, Runs, NeverCarries, Config.PerPage, Config.CountSpan, Config.Valid, Full, Sum, FewFailures;
    InvHoldsInitially(c, n);
    SumZero(n);
    RunStaysWithin(c, Init(n), Ledger(seq(n, _ => 0), -1, 0, 0, false, false), run, s, f);
    NoCarryNoOverlap(c, n, run, s);
  }

  // A failing mmap releases the lock without a store. As many failures as the counter has values run it over.

  function FailedCall(): seq<Action> {
    [Call(0), FetchAdd(0), Decide(0), MmapFails(0), Unlock(0)]
  }

  function Alone(pool: nat): State {
    State(pool, false, [Idle], {}, [])
  }

  lemma RunsJoin(c: Config, s: State, r: seq<Action>, s1: State, q: seq<Action>, s2: State)
    requires c.Valid() && Runs(c, s, r, s1) && Runs(c, s1, q, s2)
    ensures Runs(c, s, r + q, s2)
    decreases |r|
  {
    hide Step, Enabled, Config.Valid;
    if r == [] {
      assert r + q == q;
    } else {
      RunsJoin(c, Step(c, s, r[0]), r[1..], s1, q, s2);
      assert (r + q)[1..] == r[1..] + q;
    }
  }

  lemma OneRun(c: Config, s: State, a: Action)
    requires c.Valid() && Enabled(c, s, a)
    ensures Runs(c, s, [a], Step(c, s, a))
  {
    hide Step, Enabled, Config.Valid;
    assert [a][1..] == [];
  }

  lemma FailedCallRuns(c: Config, pool: nat)
    requires c.Valid() && Full(c, pool)
    ensures Runs(c, Alone(pool), FailedCall(), Alone(pool + 1))
  {
    hide Full, Config.Valid, Runs;
    var s0 := Alone(pool);
    var s1 := s0.(threads := [Ready]);
    var s2 := State(pool + 1, false, [Got(pool)], {}, []);
    var s3 := s2.(threads := [Locked], lock := true);
    var s4 := s3.(threads := [Failed]);
    assert [Idle][0 := Ready] == [Ready] && [Ready][0 := Got(pool)] == [Got(pool)] && [Got(pool)][0 := Locked] == [Locked];
    assert [Locked][0 := Failed] == [Failed] && [Failed][0 := Idle] == [Idle];
    OneRun(c, s0, Call(0)); OneRun(c, s1, FetchAdd(0)); OneRun(c, s2, Decide(0)); OneRun(c, s3, MmapFails(0)); OneRun(c, s4, Unlock(0));
    RunsJoin(c, s0, [Call(0)], s1, [FetchAdd(0)], s2);
    RunsJoin(c, s0, [Call(0)] + [FetchAdd(0)], s2, [Decide(0)], s3);
    RunsJoin(c, s0, [Call(0)] + [FetchAdd(0)] + [Decide(0)], s3, [MmapFails(0)], s4);
    RunsJoin(c, s0, [Call(0)] + [FetchAdd(0)] + [Decide(0)] + [MmapFails(0)], s4, [Unlock(0)], Alone(pool + 1));
    assert [Call(0)] + [FetchAdd(0)] + [Decide(0)] + [MmapFails(0)] + [Unlock(0)] == FailedCall();
  }

  function Repeated(k: nat): seq<Action> {
    if k == 0 then [] else Repeated(k - 1) + FailedCall()
  }

  lemma {:induction false} FailuresCount(c: Config, k: nat)
    requires c.Valid() && k <= c.pageSize
    ensures Runs(c, Alone(0), Repeated(k), Alone(k))
  {
    hide FailedCall, Config.Valid, Full, Step, Enabled, Alone;
    if k > 0 {
      FailuresCount(c, k - 1);
      BelowFirstPage(c, k - 1);
      FailedCallRuns(c, k - 1);
      RunsJoin(c, Alone(0), Repeated(k - 1), Alone(k - 1), FailedCall(), Alone(k));
    }
  }

  lemma BelowFirstPage(c: Config, w: nat)
    requires c.Valid() && w < c.pageSize
    ensures Full(c, w)
  {
    DivModUnique(w, c.pageSize, 0, w);
  }

  /** One page size of failing calls, and the next call returns a slot in a page that was never mapped. */
  lemma FailuresBreakThePool(c: Config) returns (run: seq<Action>, s: State)
    requires c.Valid()
    ensures Runs(c, Init(1), run, s) && s.handed == [Slot(c.pageSize, 0)] && s.pages == {} && !Safe(c, s)
  {
    hide FailedCall, Config.Valid, Repeated, Runs, Full;
    var p := c.pageSize;
    FailuresCount(c, p);
    FirstPageWord(c);
    var s0 := Alone(p);
    var s1 := s0.(threads := [Ready]);
    var s2 := State(p + 1, false, [Got(p)], {}, []);
    s := State(p + 1, false, [Idle], {}, [Slot(p, 0)]);
    assert [Idle][0 := Ready] == [Ready] && [Ready][0 := Got(p)] == [Got(p)] && [Got(p)][0 := Idle] == [Idle];
    assert [] + [Slot(p, 0)] == [Slot(p, 0)];
    OneRun(c, s0, Call(0)); OneRun(c, s1, FetchAdd(0)); OneRun(c, s2, Decide(0));
    run := Repeated(p);
    assert Init(1) == Alone(0);
    RunsJoin(c, Alone(0), run, s0, [Call(0)], s1);
    RunsJoin(c, Alone(0), run + [Call(0)], s1, [FetchAdd(0)], s2);
    RunsJoin(c, Alone(0), run + [Call(0)] + [FetchAdd(0)], s2, [Decide(0)], s);
    run := run + [Call(0)] + [FetchAdd(0)] + [Decide(0)];
    assert !InMappedPage(c, s, s.handed[0]);
  }

  lemma FirstPageWord(c: Config)
    requires c.Valid()
    ensures !Full(c, c.pageSize) && PageOf(c, c.pageSize) == c.pageSize && CountOf(c, c.pageSize) == 0
  {
    DivModUnique(c.pageSize, c.pageSize, 1, 0);
    SlotsInPage(c);
  }
}
