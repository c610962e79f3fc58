/** What code means: it goes on at the first of a list of spots from which the rest matches. */
module RegexMeaning {
  import opened RegexInstr
  import opened RegexVm
  import opened RegexSearch
  import opened RegexRefine
  import opened RegexEmit
  import opened RegexResults

  /** The registers at a spot. */
  function RegsAt(pc: nat, x: Spot, st: seq<int>): Regs {
    Regs(pc, x.at, x.cap, st)
  }

  function Here(r: Regs): Spot {
    Spot(r.cptr, r.capture)
  }

  /** The search from pc, tried at each of the spots in turn, comes to o. */
  ghost predicate First(env: Env, pc: nat, st: seq<int>, xs: seq<Spot>, o: Outcome) {
    if xs == [] then o == NoMatch
    else
      var h := RegsAt(pc, xs[0], st);
      && ValidSpot(env, xs[0])
      && ((o != NoMatch && Converges(env, h, o)) || (Converges(env, h, NoMatch) && First(env, pc, st, xs[1..], o)))
  }

  ghost predicate AllValid(env: Env, xs: seq<Spot>) {
    forall x :: x in xs ==> ValidSpot(env, x)
  }

  lemma FirstOne(env: Env, pc: nat, st: seq<int>, x: Spot, o: Outcome)
    requires ValidSpot(env, x)
    ensures First(env, pc, st, [x], o) <==> Converges(env, RegsAt(pc, x, st), o)
  {
    hide Converges, ValidSpot;
    assert [x][1..] == [];
  }

  lemma {:induction false} FirstAppend(env: Env, pc: nat, st: seq<int>, xs: seq<Spot>, ys: seq<Spot>, o: Outcome)
    requires AllValid(env, xs)
    ensures First(env, pc, st, xs + ys, o) <==>
            (o != NoMatch && First(env, pc, st, xs, o)) || (First(env, pc, st, xs, NoMatch) && First(env, pc, st, ys, o))
    decreases |xs|
  {
    hide Converges, ValidSpot;
    if xs == [] {
      assert xs + ys == ys;
    } else {
      assert (xs + ys)[1..] == xs[1..] + ys;
      FirstAppend(env, pc, st, xs[1..], ys, o);
    }
  }

  /** From pc at x the search comes to what it comes to from pc' at the spots that follow. */
  ghost predicate LeadsTo(env: Env, pc: nat, st: seq<int>, x: Spot, pc': nat, st': seq<int>, ys: seq<Spot>, o: Outcome) {
    ValidSpot(env, x) && (Converges(env, RegsAt(pc, x, st), o) <==> First(env, pc', st', ys, o))
  }

  lemma {:induction false} FirstBind(env: Env, pc: nat, st: seq<int>, xs: seq<Spot>, pc': nat, st': seq<int>, f: Spot -> seq<Spot>, o: Outcome)
    requires forall x :: x in xs ==> AllValid(env, f(x)) && LeadsTo(env, pc, st, x, pc', st', f(x), o) && LeadsTo(env, pc, st, x, pc', st', f(x), NoMatch)
    ensures First(env, pc, st, xs, o) <==> First(env, pc', st', Bind(xs, f), o)
    decreases |xs|
  {
    hide Converges, ValidSpot, AllValid;
    if xs != [] {
      assert xs[0] in xs;
      FirstBind(env, pc, st, xs[1..], pc', st', f, o);
      FirstAppend(env, pc', st', f(xs[0]), Bind(xs[1..], f), o);
    }
  }

  lemma {:induction false} BindValid(env: Env, xs: seq<Spot>, f: Spot -> seq<Spot>)
    requires forall x :: x in xs ==> AllValid(env, f(x))
    ensures AllValid(env, Bind(xs, f))
    decreases |xs|
  {
    hide ValidSpot;
    if xs != [] {
      BindValid(env, xs[1..], f);
    }
  }

  // Pieces of code.

  ghost predicate MeansAt(env: Env, a: seq<Instr>, f: Spot -> seq<Spot>, r: Regs, o: Outcome) {
    CodeAt(env.code, r.pc, a) && ValidRegs(env, r) ==> LeadsTo(env, r.pc, r.stack, Here(r), r.pc + ByteLength(a), r.stack, f(Here(r)), o)
  }

  /** Wherever a stands, it goes on behind itself at the first of the spots f from which the rest matches. */
  ghost predicate Means(env: Env, a: seq<Instr>, f: Spot -> seq<Spot>) {
    forall r, o :: MeansAt(env, a, f, r, o)
  }

  /** All spots lie ahead of x. */
  predicate Ahead(env: Env, back: bool, c: nat, c': nat, strict: bool) {
    (c' == c && !strict) || (env.subject.Boundary(c') && Rank(env, back, c') < Rank(env, back, c))
  }

  ghost predicate AllAhead(env: Env, back: bool, c: nat, ys: seq<Spot>, strict: bool) {
    forall y :: y in ys ==> ValidSpot(env, y) && Ahead(env, back, c, y.at, strict)
  }

  /** The spots are valid and lie ahead; if strict, none is where it started. */
  ghost predicate Sound(env: Env, back: bool, f: Spot -> seq<Spot>, strict: bool) {
    forall x :: ValidSpot(env, x) ==> AllAhead(env, back, x.at, f(x), strict)
  }

  /** Code and the spots it stands for. */
  ghost predicate Stands(env: Env, back: bool, a: seq<Instr>, f: Spot -> seq<Spot>, strict: bool) {
    Means(env, a, f) && Sound(env, back, f, strict)
  }

  lemma UseMeans(env: Env, a: seq<Instr>, f: Spot -> seq<Spot>, pc: nat, x: Spot, st: seq<int>, o: Outcome)
    requires Means(env, a, f) && CodeAt(env.code, pc, a) && ValidSpot(env, x)
    ensures LeadsTo(env, pc, st, x, pc + ByteLength(a), st, f(x), o)
  {
    hide LeadsTo, CodeAt, ByteLength;
    assert MeansAt(env, a, f, RegsAt(pc, x, st), o);
  }

  lemma UseSound(env: Env, back: bool, f: Spot -> seq<Spot>, strict: bool, x: Spot)
    requires Sound(env, back, f, strict) && ValidSpot(env, x)
    ensures AllAhead(env, back, x.at, f(x), strict) && AllValid(env, f(x))
  {
    hide ValidSpot, Ahead;
  }

  lemma Weaker(env: Env, back: bool, f: Spot -> seq<Spot>, strict: bool, weaker: bool)
    requires Sound(env, back, f, strict) && (weaker ==> strict)
    ensures Sound(env, back, f, weaker)
  {
    hide ValidSpot, Rank;
    forall x | ValidSpot(env, x) ensures AllAhead(env, back, x.at, f(x), weaker) {
      assert AllAhead(env, back, x.at, f(x), strict);
    }
  }

  lemma {:induction false} BindAhead(env: Env, back: bool, c: nat, xs: seq<Spot>, f: Spot -> seq<Spot>, s: bool, t: bool)
    requires AllAhead(env, back, c, xs, s) && forall x :: x in xs ==> AllAhead(env, back, x.at, f(x), t)
    ensures AllAhead(env, back, c, Bind(xs, f), s || t)
    decreases |xs|
  {
    hide ValidSpot, Rank;
    if xs != [] {
      BindAhead(env, back, c, xs[1..], f, s, t);
      assert xs[0] in xs && AllAhead(env, back, xs[0].at, f(xs[0]), t);
    }
  }

  /** The same spots under another name. */
  lemma Renamed(env: Env, back: bool, a: seq<Instr>, f: Spot -> seq<Spot>, g: Spot -> seq<Spot>, strict: bool)
    requires Stands(env, back, a, f, strict) && forall x :: ValidSpot(env, x) ==> f(x) == g(x)
    ensures Stands(env, back, a, g, strict)
  {
    hide CodeAt, ByteLength, Converges, First;
    forall r, o ensures MeansAt(env, a, g, r, o) {
      assert MeansAt(env, a, f, r, o);
    }
    forall x | ValidSpot(env, x) ensures AllAhead(env, back, x.at, g(x), strict) {
      assert AllAhead(env, back, x.at, f(x), strict);
    }
  }

  ghost function One(): Spot -> seq<Spot> {
    (x: Spot) => [x]
  }

  ghost function Joined(f: Spot -> seq<Spot>, g: Spot -> seq<Spot>): Spot -> seq<Spot> {
    (x: Spot) => Bind(f(x), g)
  }

  lemma EmptyStands(env: Env, back: bool)
    ensures Stands(env, back, [], One(), false)
  {
    hide Converges;
    forall r, o ensures MeansAt(env, [], One(), r, o) {
      if ValidRegs(env, r) {
        FirstOne(env, r.pc, r.stack, Here(r), o);
      }
    }
  }

  lemma JoinedStands(env: Env, back: bool, a: seq<Instr>, f: Spot -> seq<Spot>, s: bool, b: seq<Instr>, g: Spot -> seq<Spot>, t: bool)
    requires Stands(env, back, a, f, s) && Stands(env, back, b, g, t)
    ensures Stands(env, back, a + b, Joined(f, g), s || t)
  {
    hide Converges, First, CodeAt, ByteLength, AllAhead, Means, Sound, AllValid;
    forall r, o ensures MeansAt(env, a + b, Joined(f, g), r, o) {
      if CodeAt(env.code, r.pc, a + b) && ValidRegs(env, r) {
        CodeAtSplit(env.code, r.pc, a, b);
        ByteLengthAdd(a, b);
        var x, m := Here(r), r.pc + ByteLength(a);
        UseMeans(env, a, f, r.pc, x, r.stack, o);
        UseSound(env, back, f, s, x);
        FollowedBy(env, back, f(x), b, g, t, m, r.stack, o);
      }
    }
    assert Sound(env, back, Joined(f, g), s || t) by {
      JoinedSound(env, back, f, g, s, t);
    }
    MakeMeans(env, a + b, Joined(f, g));
  }

  lemma MakeMeans(env: Env, a: seq<Instr>, f: Spot -> seq<Spot>)
    requires forall r, o :: MeansAt(env, a, f, r, o)
    ensures Means(env, a, f)
  {
  }

  lemma MakeSound(env: Env, back: bool, f: Spot -> seq<Spot>, strict: bool)
    requires forall x :: ValidSpot(env, x) ==> AllAhead(env, back, x.at, f(x), strict)
    ensures Sound(env, back, f, strict)
  {
    hide ValidSpot, AllAhead;
  }

  lemma JoinedSound(env: Env, back: bool, f: Spot -> seq<Spot>, g: Spot -> seq<Spot>, s: bool, t: bool)
    requires Sound(env, back, f, s) && Sound(env, back, g, t)
    ensures Sound(env, back, Joined(f, g), s || t)
  {
    hide ValidSpot, Ahead;
    forall x | ValidSpot(env, x) ensures AllAhead(env, back, x.at, Joined(f, g)(x), s || t) {
      UseSound(env, back, f, s, x);
      BindAhead(env, back, x.at, f(x), g, s, t);
    }
  }

  /** The spots xs, each followed by the code b. */
  lemma FollowedBy(env: Env, back: bool, xs: seq<Spot>, b: seq<Instr>, g: Spot -> seq<Spot>, t: bool, m: nat, st: seq<int>, o: Outcome)
    requires Stands(env, back, b, g, t) && CodeAt(env.code, m, b) && AllValid(env, xs)
    ensures First(env, m, st, xs, o) <==> First(env, m + ByteLength(b), st, Bind(xs, g), o)
  {
    hide Converges, First, CodeAt, ByteLength, Means, Sound, LeadsTo, ValidSpot;
    forall y | y in xs
      ensures AllValid(env, g(y)) && LeadsTo(env, m, st, y, m + ByteLength(b), st, g(y), o) && LeadsTo(env, m, st, y, m + ByteLength(b), st, g(y), NoMatch)
    {
      UseMeans(env, b, g, m, y, st, o);
      UseMeans(env, b, g, m, y, st, NoMatch);
      UseSound(env, back, g, t, y);
    }
    FirstBind(env, m, st, xs, m + ByteLength(b), st, g, o);
  }
}
