/** The pool of trampoline slots, as a state machine over the atomic steps of its threads. */
module Trampoline {
  import opened Arith

  /** The machine: page size, slot size, and the number of values of the counter bits (12 bits, or 14 for 16 KiB pages). */
  datatype Config = Config(pageSize: nat, slotSize: nat) {
    function CountSpan(): (n: nat)
      ensures n > 0
    {
      if pageSize == 16384 then 16384 else 4096
    }

    /** kTrampolineNumPerPage */
    function PerPage(): nat
      requires slotSize > 0
    {
      pageSize / slotSize
    }

    /** Pages are a multiple of the counter's span, hold at least one slot, and the counter can tell that a page is full. */
    predicate Valid() {
      0 < slotSize <= pageSize && pageSize % CountSpan() == 0 && PerPage() < CountSpan()
    }
  }

  /** What one thread is about to do. */
  datatype Thread =
    | Idle
    | Ready                    // before fetch_add
    | Got(word: nat)           // holding the word it fetched
    | Waiting                  // for the lock to become free
    | Locked                   // holding the lock, before mmap
    | Mapped(page: nat)        // before the store
    | Stored(page: nat)        // before the lock is cleared
    | Failed                   // mmap failed, before the lock is cleared

  /** A slot: page address and number within the page. */
  datatype Slot = Slot(page: nat, index: nat)

  datatype State = State(pool: nat, lock: bool, threads: seq<Thread>, pages: set<nat>, handed: seq<Slot>)

  datatype Action =
    | Call(t: nat) | FetchAdd(t: nat) | Decide(t: nat) | Wake(t: nat)
    | Mmap(t: nat, page: nat) | MmapFails(t: nat) | Store(t: nat) | Unlock(t: nat)

  /** Clearing the bits below the page size. */
  function RoundDown(word: nat, p: nat): nat
    requires p > 0
  {
    var q: nat := word / p;
    MulNonNeg(q, p);
    q * p
  }

  function PageOf(c: Config, word: nat): nat
    requires c.Valid()
  {
    RoundDown(word, c.pageSize)
  }

  function CountOf(c: Config, word: nat): nat
    requires c.Valid()
  {
    word % c.CountSpan()
  }

  // The pool word is read through the word before it, so that a count at its very top still belongs to its page.

  /** The page the pool word counts in; 0 before the first store. */
  function PoolPage(c: Config, s: State): nat
    requires c.Valid()
  {
    if s.pool == 0 then 0 else PageOf(c, s.pool - 1)
  }

  /** How many words of that page have been fetched or stored. */
  function PoolCount(c: Config, s: State): nat
    requires c.Valid()
  {
    if s.pool == 0 then 0 else CountOf(c, s.pool - 1) + 1
  }

  /** The word names no slot: a new page is needed. */
  predicate Full(c: Config, word: nat)
    requires c.Valid()
  {
    PageOf(c, word) == 0 || CountOf(c, word) >= c.PerPage()
  }

  /** What mmap may return: a page that is not in use. */
  predicate FreshPage(c: Config, s: State, page: nat)
    requires c.Valid()
  {
    page > 0 && page % c.pageSize == 0 && page !in s.pages
  }

  predicate Enabled(c: Config, s: State, a: Action)
    requires c.Valid()
  {
    a.t < |s.threads| &&
    var th := s.threads[a.t];
    match a
    case Call(_) => th.Idle?
    case FetchAdd(_) => th.Ready?
    case Decide(_) => th.Got?
    case Wake(_) => th.Waiting? && !s.lock
    case Mmap(_, page) => th.Locked? && FreshPage(c, s, page)
    case MmapFails(_) => th.Locked?
    case Store(_) => th.Mapped?
    case Unlock(_) => th.Stored? || th.Failed?
  }

  function Step(c: Config, s: State, a: Action): State
    requires c.Valid() && Enabled(c, s, a)
  {
    var th := s.threads[a.t];
    match a
    case Call(t) => s.(threads := s.threads[t := Ready])
    case FetchAdd(t) => s.(threads := s.threads[t := Got(s.pool)], pool := s.pool + 1)
    case Decide(t) =>
      if !Full(c, th.word) then
        s.(threads := s.threads[t := Idle], handed := s.handed + [Slot(PageOf(c, th.word), CountOf(c, th.word))])
      else if s.lock then s.(threads := s.threads[t := Waiting])
      else s.(threads := s.threads[t := Locked], lock := true)
    case Wake(t) => s.(threads := s.threads[t := Ready])
    case Mmap(t, page) => s.(threads := s.threads[t := Mapped(page)], pages := s.pages + {page})
    case MmapFails(t) => s.(threads := s.threads[t := Failed])
    case Store(t) => s.(threads := s.threads[t := Stored(th.page)], pool := th.page + 1)
    case Unlock(t) =>
      if th.Stored? then s.(threads := s.threads[t := Idle], lock := false, handed := s.handed + [Slot(th.page, 0)])
      else s.(threads := s.threads[t := Idle], lock := false)
  }

  function Init(n: nat): State {
    State(0, false, seq(n, _ => Idle), {}, [])
  }

  /** The state after a run, if every action is enabled when its turn comes. */
  ghost predicate Runs(c: Config, s: State, run: seq<Action>, s': State)
    requires c.Valid()
    decreases |run|
  {
    if run == [] then s' == s else Enabled(c, s, run[0]) && Runs(c, Step(c, s, run[0]), run[1..], s')
  }

  // What a slot is, and when two slots are apart.

  function AddressOf(c: Config, x: Slot): nat {
    x.page + x.index * c.slotSize
  }

  /** The slot lies wholly in a mapped page. */
  ghost predicate InMappedPage(c: Config, s: State, x: Slot) {
    x.page in s.pages && AddressOf(c, x) + c.slotSize <= x.page + c.pageSize
  }

  ghost predicate Apart(c: Config, x: Slot, y: Slot) {
    AddressOf(c, x) + c.slotSize <= AddressOf(c, y) || AddressOf(c, y) + c.slotSize <= AddressOf(c, x)
  }

  /** The promise: slots handed out lie in mapped pages and do not overlap. */
  ghost predicate Safe(c: Config, s: State) {
    && (forall i :: 0 <= i < |s.handed| ==> InMappedPage(c, s, s.handed[i]))
    && (forall i, j :: 0 <= i < j < |s.handed| ==> Apart(c, s.handed[i], s.handed[j]))
  }

  // The invariant.

  /** The slot that a thread has claimed but not yet returned. */
  function Claim(c: Config, th: Thread): (x: set<Slot>)
    requires c.Valid()
  {
    match th
    case Got(w) => if Full(c, w) then {} else {Slot(PageOf(c, w), CountOf(c, w))}
    case Mapped(page) => {Slot(page, 0)}
    case Stored(page) => {Slot(page, 0)}
    case _ => {}
  }

  predicate HoldsLock(th: Thread) {
    th.Locked? || th.Mapped? || th.Stored? || th.Failed?
  }

  /** Slot x has been claimed by someone. */
  ghost predicate Taken(c: Config, s: State, x: Slot)
    requires c.Valid()
  {
    x in s.handed || exists t :: 0 <= t < |s.threads| && x in Claim(c, s.threads[t])
  }

  /** A taken slot is a slot of a mapped page, and one that the pool word no longer offers. */
  ghost predicate Behind(c: Config, s: State, x: Slot)
    requires c.Valid()
  {
    && x.page in s.pages && x.index < c.PerPage()
    && (x.page == PoolPage(c, s) ==> x.index < PoolCount(c, s))
  }

  ghost predicate PagesValid(c: Config, s: State)
    requires c.Valid()
  {
    && (forall p :: p in s.pages ==> p > 0 && p % c.pageSize == 0)
    && (PoolPage(c, s) != 0 ==> PoolPage(c, s) in s.pages)
    && s.pool == PoolPage(c, s) + PoolCount(c, s)
  }

  /** Only the lock holder is past the lock, and the page it has mapped but not stored is its own. */
  ghost predicate LockValid(c: Config, s: State)
    requires c.Valid()
  {
    && (forall t :: 0 <= t < |s.threads| && HoldsLock(s.threads[t]) ==> s.lock)
    && (forall t, u :: 0 <= t < u < |s.threads| ==> !(HoldsLock(s.threads[t]) && HoldsLock(s.threads[u])))
    && (forall t :: 0 <= t < |s.threads| && s.threads[t].Mapped? ==>
          var p := s.threads[t].page;
          p in s.pages && p != PoolPage(c, s) && forall x :: Taken(c, s, x) && x.page == p ==> x.index == 0)
  }

  ghost predicate NoRepeats(xs: seq<Slot>) {
    forall i, j :: 0 <= i < j < |xs| ==> xs[i] != xs[j]
  }

  ghost predicate Unique(c: Config, s: State)
    requires c.Valid()
  {
    && NoRepeats(s.handed)
    && (forall t :: 0 <= t < |s.threads| ==> forall x :: x in Claim(c, s.threads[t]) ==> x !in s.handed)
    && (forall t, u :: 0 <= t < u < |s.threads| ==> Claim(c, s.threads[t]) !! Claim(c, s.threads[u]))
  }

  ghost predicate Inv(c: Config, s: State)
    requires c.Valid()
  {
    && PagesValid(c, s)
    && LockValid(c, s)
    && Unique(c, s)
    && forall x :: Taken(c, s, x) ==> Behind(c, s, x)
  }

  /** The word fetched has not carried out of the counter bits: it still names the page it counts in. */
  predicate NoCarry(c: Config, s: State, a: Action)
    requires c.Valid()
  {
    a.FetchAdd? ==> PoolCount(c, s) < c.CountSpan()
  }

  // Words: a page address with a count below it.

  lemma WordSplit(c: Config, page: nat, k: nat)
    requires c.Valid() && page % c.pageSize == 0 && k < c.CountSpan()
    ensures PageOf(c, page + k) == page && CountOf(c, page + k) == k
  {
    var p, m := c.pageSize, c.CountSpan();
    SpanFits(c);
    DivModUnique(page + k, p, page / p, k);
    Multiple(page, p, m);
    DivModUnique(page + k, m, page / m, k);
  }

  /** A page address with a count up to its top, as a pool word. */
  lemma PoolWord(c: Config, s: State, page: nat, k: nat)
    requires c.Valid() && page % c.pageSize == 0 && 0 < k <= c.CountSpan() && s.pool == page + k
    ensures PoolPage(c, s) == page && PoolCount(c, s) == k
  {
    hide PageOf, CountOf, Config.Valid, Config.CountSpan;
    WordSplit(c, page, k - 1);
  }

  /** A fetched word that has not carried is the pool's page and count. */
  lemma PoolSplit(c: Config, s: State)
    requires c.Valid() && PagesValid(c, s) && PoolCount(c, s) < c.CountSpan()
    ensures PageOf(c, s.pool) == PoolPage(c, s) && CountOf(c, s.pool) == PoolCount(c, s)
    ensures PoolPage(c, s) % c.pageSize == 0
  {
    hide PageOf, CountOf, Config.Valid, Config.CountSpan;
    ZeroAligned(c);
    if s.pool > 0 {
      PageAligned(c, s.pool - 1);
    }
    WordSplit(c, PoolPage(c, s), PoolCount(c, s));
  }

  lemma SpanFits(c: Config)
    requires c.Valid()
    ensures c.CountSpan() <= c.pageSize
  {
  }

  lemma Multiple(x: nat, p: nat, m: nat)
    requires p > 0 && m > 0 && x % p == 0 && p % m == 0
    ensures x % m == 0
  {
    var q, r := x / p, p / m;
    assert x == q * p && p == r * m;
    MulAssoc(q, r, m);
    assert x == (q * r) * m;
    DivModUnique(x, m, q * r, 0);
  }

  // Every step keeps the invariant.

  /** Replacing a thread that claims nothing new changes no claim but its own. */
  lemma TakenAfter(c: Config, s: State, s': State, t: nat, x: Slot)
    requires c.Valid() && t < |s.threads| == |s'.threads| && s'.threads == s.threads[t := s'.threads[t]]
    requires Taken(c, s', x)
    ensures x in s'.handed || x in Claim(c, s'.threads[t]) || Taken(c, s, x)
  {
    hide Claim;
    if x !in s'.handed {
      var u :| 0 <= u < |s'.threads| && x in Claim(c, s'.threads[u]);
      assert u != t ==> s.threads[u] == s'.threads[u];
    }
  }

  lemma QuietStep(c: Config, s: State, a: Action)
    requires c.Valid() && Enabled(c, s, a) && Inv(c, s)
    requires a.Call? || a.Wake? || a.MmapFails?
    ensures Inv(c, Step(c, s, a))
  {
    hide PageOf, CountOf, Config.PerPage, Config.Valid, Full;
    var s' := Step(c, s, a);
    forall x | Taken(c, s', x) ensures Taken(c, s, x) {
      TakenAfter(c, s, s', a.t, x);
    }
  }

  lemma FetchStep(c: Config, s: State, a: Action)
    requires c.Valid() && Enabled(c, s, a) && Inv(c, s) && NoCarry(c, s, a) && a.FetchAdd?
    ensures Inv(c, Step(c, s, a))
  {
    hide PageOf, CountOf, PoolPage, PoolCount, Config.PerPage, Config.Valid, Config.CountSpan;
    var s' := Step(c, s, a);
    var page, k := PoolPage(c, s), PoolCount(c, s);
    PoolSplit(c, s);
    PoolWord(c, s', page, k + 1);
    forall x | Taken(c, s', x) ensures Taken(c, s, x) || x == Slot(page, k) {
      TakenAfter(c, s, s', a.t, x);
    }
    assert Claim(c, s'.threads[a.t]) <= {Slot(page, k)};
    assert !Taken(c, s, Slot(page, k));
  }

  lemma PageAligned(c: Config, word: nat)
    requires c.Valid()
    ensures PageOf(c, word) % c.pageSize == 0
  {
    var p, q := c.pageSize, word / c.pageSize;
    DivModUnique(q * p, p, q, 0);
  }

  lemma ClaimsApart(c: Config, s: State, t: nat)
    requires c.Valid() && Unique(c, s) && t < |s.threads|
    ensures forall u, x :: 0 <= u < |s.threads| && u != t && x in Claim(c, s.threads[t]) ==> x !in Claim(c, s.threads[u])
  {
    hide Claim;
    forall u, x | 0 <= u < |s.threads| && u != t && x in Claim(c, s.threads[t]) ensures x !in Claim(c, s.threads[u]) {
      assert if u < t then Claim(c, s.threads[u]) !! Claim(c, s.threads[t]) else Claim(c, s.threads[t]) !! Claim(c, s.threads[u]);
    }
  }

  lemma HandOut(xs: seq<Slot>, x: Slot)
    requires NoRepeats(xs) && x !in xs
    ensures NoRepeats(xs + [x])
  {
  }

  lemma DecideStep(c: Config, s: State, a: Action)
    requires c.Valid() && Enabled(c, s, a) && Inv(c, s) && a.Decide?
    ensures Inv(c, Step(c, s, a))
  {
    hide PageOf, CountOf, Config.PerPage, Config.Valid, Config.CountSpan, Full, NoRepeats;
    var s' := Step(c, s, a);
    ClaimsApart(c, s, a.t);
    if |s'.handed| > |s.handed| {
      HandOut(s.handed, s'.handed[|s.handed|]);
    }
    forall x | Taken(c, s', x) ensures Taken(c, s, x) {
      TakenAfter(c, s, s', a.t, x);
      assert x in s'.handed && x !in s.handed ==> x in Claim(c, s.threads[a.t]);
    }
  }

  lemma MmapStep(c: Config, s: State, a: Action)
    requires c.Valid() && Enabled(c, s, a) && Inv(c, s) && a.Mmap?
    ensures Inv(c, Step(c, s, a))
  {
    hide PageOf, CountOf, Config.Valid, Config.CountSpan, Full;
    var s', x0 := Step(c, s, a), Slot(a.page, 0);
    forall x | Taken(c, s', x) ensures Taken(c, s, x) || x == x0 {
      TakenAfter(c, s, s', a.t, x);
    }
    assert forall x :: Taken(c, s, x) ==> x.page != a.page;
    SlotsInPage(c);
  }

  lemma SlotsInPage(c: Config)
    requires c.Valid()
    ensures 0 < c.PerPage()
  {
  }

  lemma StoreStep(c: Config, s: State, a: Action)
    requires c.Valid() && Enabled(c, s, a) && Inv(c, s) && a.Store?
    ensures Inv(c, Step(c, s, a))
  {
    hide PageOf, CountOf, Config.PerPage, Config.Valid, Config.CountSpan, Full;
    var s', page := Step(c, s, a), s.threads[a.t].page;
    assert HoldsLock(s.threads[a.t]);
    SpanBig(c);
    PoolWord(c, s', page, 1);
    forall x | Taken(c, s', x) ensures Taken(c, s, x) {
      TakenAfter(c, s, s', a.t, x);
      assert Claim(c, s'.threads[a.t]) == Claim(c, s.threads[a.t]);
    }
  }

  lemma SpanBig(c: Config)
    ensures 1 < c.CountSpan()
  {
  }

  lemma UnlockStep(c: Config, s: State, a: Action)
    requires c.Valid() && Enabled(c, s, a) && Inv(c, s) && a.Unlock?
    ensures Inv(c, Step(c, s, a))
  {
    hide PageOf, CountOf, Config.PerPage, Config.Valid, Config.CountSpan, Full, NoRepeats;
    var s' := Step(c, s, a);
    ClaimsApart(c, s, a.t);
    if |s'.handed| > |s.handed| {
      HandOut(s.handed, s'.handed[|s.handed|]);
    }
    assert HoldsLock(s.threads[a.t]);
    forall x | Taken(c, s', x) ensures Taken(c, s, x) {
      TakenAfter(c, s, s', a.t, x);
      assert x in s'.handed && x !in s.handed ==> x in Claim(c, s.threads[a.t]);
    }
  }

  lemma StepKeepsInv(c: Config, s: State, a: Action)
    requires c.Valid() && Enabled(c, s, a) && Inv(c, s) && NoCarry(c, s, a)
    ensures Inv(c, Step(c, s, a))
  {
    hide Inv, Step, Enabled, NoCarry, Config.Valid;
    match a
    case FetchAdd(_) => FetchStep(c, s, a);
    case Decide(_) => DecideStep(c, s, a);
    case Mmap(_, _) => MmapStep(c, s, a);
    case Store(_) => StoreStep(c, s, a);
    case Unlock(_) => UnlockStep(c, s, a);
    case _ => QuietStep(c, s, a);
  }

  lemma InvHoldsInitially(c: Config, n: nat)
    requires c.Valid()
    ensures Inv(c, Init(n))
  {
    hide Config.PerPage, Config.Valid, Config.CountSpan, PageOf, CountOf;
  }

  lemma ZeroAligned(c: Config)
    requires c.Valid()
    ensures 0 % c.pageSize == 0
  {
  }

  lemma InvIsSafe(c: Config, s: State)
    requires c.Valid() && Inv(c, s)
    ensures Safe(c, s)
  {
    hide PageOf, CountOf, Config.PerPage, Config.Valid, Config.CountSpan, Full;
    forall i | 0 <= i < |s.handed| ensures InMappedPage(c, s, s.handed[i]) {
      assert Taken(c, s, s.handed[i]);
      SlotFits(c, s.handed[i].index);
    }
    forall i, j | 0 <= i < j < |s.handed| ensures Apart(c, s.handed[i], s.handed[j]) {
      var x, y := s.handed[i], s.handed[j];
      assert Taken(c, s, x) && Taken(c, s, y);
      SlotsApart(c, x, y);
    }
  }

  lemma SlotFits(c: Config, k: nat)
    requires c.Valid() && k < c.PerPage()
    ensures k * c.slotSize + c.slotSize <= c.pageSize
  {
    var n, p := c.slotSize, c.pageSize;
    MulMono(k + 1, p / n, n);
    Distribute(k, 1, n);
  }

  lemma SlotsApart(c: Config, x: Slot, y: Slot)
    requires c.Valid() && x != y && x.index < c.PerPage() && y.index < c.PerPage()
    requires x.page % c.pageSize == 0 && y.page % c.pageSize == 0
    ensures Apart(c, x, y)
  {
    hide Config.PerPage;
    SlotFits(c, x.index);
    SlotFits(c, y.index);
    if x.page < y.page {
      PagesApart(x.page, y.page, c.pageSize);
    } else if y.page < x.page {
      PagesApart(y.page, x.page, c.pageSize);
    } else if x.index < y.index {
      MulMono(x.index + 1, y.index, c.slotSize);
      Distribute(x.index, 1, c.slotSize);
    } else {
      MulMono(y.index + 1, x.index, c.slotSize);
      Distribute(y.index, 1, c.slotSize);
    }
  }

  lemma PagesApart(x: nat, y: nat, p: nat)
    requires p > 0 && x % p == 0 && y % p == 0 && x < y
    ensures x + p <= y
  {
    var i, j := x / p, y / p;
    assert x == i * p && y == j * p;
    MulCancelLess(i, j, p);
    MulMono(i + 1, j, p);
    Distribute(i, 1, p);
  }

  /** No word fetched in the run has carried out of the counter bits. */
  ghost predicate NeverCarries(c: Config, s: State, run: seq<Action>)
    requires c.Valid()
    decreases |run|
  {
    run == [] || (NoCarry(c, s, run[0]) && (Enabled(c, s, run[0]) ==> NeverCarries(c, Step(c, s, run[0]), run[1..])))
  }

  lemma {:induction false} RunKeepsInv(c: Config, s: State, run: seq<Action>, s': State)
    requires c.Valid() && Inv(c, s) && Runs(c, s, run, s') && NeverCarries(c, s, run)
    ensures Inv(c, s')
    decreases |run|
  {
    hide Inv, Step, Enabled, NoCarry, Config.Valid;
    if run != [] {
      StepKeepsInv(c, s, run[0]);
      RunKeepsInv(c, Step(c, s, run[0]), run[1..], s');
    }
  }

  /** In every interleaving of any number of threads in which no fetched word has carried, the slots handed out lie in mapped pages
      and never overlap. */
  lemma NoCarryNoOverlap(c: Config, n: nat, run: seq<Action>, s: State)
    requires c.Valid() && Runs(c, Init(n), run, s) && NeverCarries(c, Init(n), run)
    ensures Safe(c, s)
  {
    hide Inv, Safe, Runs, NeverCarries;
    InvHoldsInitially(c, n);
    RunKeepsInv(c, Init(n), run, s);
    InvIsSafe(c, s);
  }
}
