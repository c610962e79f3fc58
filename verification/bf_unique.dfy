/** The contracts of rounding leave no choice: the same exact number gives the same limbs, exponent and status. */
module BfUnique {
  import opened Arith
  import opened Limbs
  import opened RoundMath
  import opened BfBits
  import opened BfNumber
  import opened BfScale
  import opened BfNormalize
  import opened BfWindow
  import opened BfSum
  import opened BfAddition
  import opened BfExact
  import opened BfDiv

  lemma LimbsUnique(s: seq<Limb>, t: seq<Limb>)
    requires |s| == |t| && Val(s) == Val(t)
    ensures s == t
  {
    hide Val, Seg, Digit;
    WholeVal(s);
    WholeVal(t);
    forall j | 0 <= j < |s| ensures s[j] == t[j] {
      SegDigit(s, |s|, j);
      SegDigit(t, |t|, j);
    }
  }

  /** A number without a zero limb at the bottom cannot be another one moved up by whole limbs. */
  lemma NoLowZeros(s: seq<Limb>, t: seq<Limb>)
    requires |s| <= |t| && |t| > 0 && t[0] != 0 && Val(s) * BPow(|t| - |s|) == Val(t)
    ensures |s| == |t| && s == t
  {
    hide Val, Seg, Digit, BPow;
    WholeVal(t);
    SegDigit(t, |t|, 0);
    ShiftedDigit(Val(s), |t| - |s|, 0);
    PowersOfZero();
    LimbsUnique(s, t);
  }

  /** Normal numbers of the same value are the same. */
  lemma NormalUnique(r: Number, r': Number)
    requires r.Normal() && r'.Normal()
    requires SameValue(Val(r.tab[..]), r.Now().Lowest(), Val(r'.tab[..]), r'.Now().Lowest())
    ensures r.expn == r'.expn && r.tab[..] == r'.tab[..]
  {
    hide Val, Pow2, BPow, TopBit;
    var v, v' := r.Now(), r'.Now();
    NormalTop(v.limbs, v.expn);
    NormalTop(v'.limbs, v'.expn);
    TopBitSame(Val(v.limbs), v.Lowest(), Val(v'.limbs), v'.Lowest(), v.expn);
    TopBitUnique(Val(v'.limbs), v'.Lowest(), v.expn, v'.expn);
    if |v.limbs| <= |v'.limbs| {
      SameLimbs(v, v');
    } else {
      SameSym(Val(v.limbs), v.Lowest(), Val(v'.limbs), v'.Lowest());
      SameLimbs(v', v);
    }
  }

  lemma SameLimbs(v: Value, v': Value)
    requires v.expn == v'.expn && |v.limbs| <= |v'.limbs| && |v'.limbs| > 0 && v'.limbs[0] != 0
    requires SameValue(Val(v.limbs), v.Lowest(), Val(v'.limbs), v'.Lowest())
    ensures v.limbs == v'.limbs
  {
    hide Val, Pow2, BPow;
    var c := |v'.limbs| - |v.limbs|;
    Distribute(|v'.limbs|, |v.limbs|, LIMB_BITS);
    MulNonNeg(c, LIMB_BITS);
    BPowIsPow2(c);
    assert v.Lowest() - v'.Lowest() == LIMB_BITS * c;
    NoLowZeros(v.limbs, v'.limbs);
  }

  ghost predicate ZeroOrNormal(r: Number)
    reads r, r.tab
  {
    if r.tab.Length > 0 then r.Normal() else r.expn == EXP_ZERO
  }

  lemma KeptUnique(r: Number, r': Number)
    requires ZeroOrNormal(r) && ZeroOrNormal(r')
    requires SameValue(Val(r.tab[..]), r.Now().Lowest(), Val(r'.tab[..]), r'.Now().Lowest())
    ensures r.expn == r'.expn && r.tab[..] == r'.tab[..]
  {
    hide Val, SameValue, BPow, TopBit;
    var v, v' := r.Now(), r'.Now();
    if |v.limbs| > 0 && |v'.limbs| > 0 {
      NormalUnique(r, r');
    } else if |v.limbs| > 0 {
      NormalTop(v.limbs, v.expn);
      SameSym(Val(v.limbs), v.Lowest(), Val(v'.limbs), v'.Lowest());
      EmptyIsZero(v');
      ZeroOnly(v'.Lowest(), Val(v.limbs), v.Lowest());
    } else if |v'.limbs| > 0 {
      NormalTop(v'.limbs, v'.expn);
      EmptyIsZero(v);
      ZeroOnly(v.Lowest(), Val(v'.limbs), v'.Lowest());
    }
  }

  lemma EmptyIsZero(v: Value)
    requires |v.limbs| == 0
    ensures Val(v.limbs) == 0
  {
  }

  lemma OverflowUnique(r: Number, r': Number, prec: nat, flags: Flags)
    requires flags.Valid() && r.sign == r'.sign && r.Overflowed(prec, flags) && r'.Overflowed(prec, flags)
    ensures r.Now() == r'.Now()
  {
    hide Val, Seg, BPow, Pow2;
    if !ToInfinity(prec, flags.mode, r.sign) {
      WholeVal(r.tab[..]);
      WholeVal(r'.tab[..]);
      LimbsUnique(r.tab[..], r'.tab[..]);
    }
  }

  /** Whatever makes two results correct, they are the same if that determines their value and whether it changed. */
  lemma RangedUnique(r: Number, r': Number, prec: nat, flags: Flags, e: int, c: bool, c': bool, reaches: bool, st: Status, st': Status)
    requires flags.Valid() && r.sign == r'.sign
    requires r.Ranged(prec, flags, e, c, reaches, st) && r'.Ranged(prec, flags, e, c', reaches, st')
    requires c && c' ==> st.inexact == st'.inexact && SameValue(Val(r.tab[..]), r.Now().Lowest(), Val(r'.tab[..]), r'.Now().Lowest())
    ensures r.Now() == r'.Now() && st == st'
  {
    hide Number.Overflowed, Number.Normal, SameValue, Val, LastPlace;
    var k, eMin, eMax := e - LastPlace(prec, flags, e), flags.EMin(), flags.Range();
    if k > 0 && (e > eMax || (e == eMax && reaches)) {
      OverflowUnique(r, r', prec, flags);
    } else if k > 0 && !flags.subnormal && e < eMin && !(e == eMin - 1 && reaches) {
    } else {
      KeptUnique(r, r');
    }
  }

  /** Rounding the same number twice, in any mode. */
  lemma RoundedUnique(mode: Mode, negative: bool, m: nat, i: int, j: int, x: nat, p: int, x': nat, p': int)
    requires mode != RNDF && Rounded(mode, negative, m, i, j, x, p) && Rounded(mode, negative, m, i, j, x', p')
    ensures SameValue(x, p, x', p')
  {
    hide SameValue, IsRounding, Pow2;
    if j <= i {
      SameSym(x', p', m, i);
      SameTrans(x, p, m, i, x', p');
    } else {
      var n :| IsRounding(mode, negative, m, Pow2(j - i), n) && SameValue(x, p, n, j);
      var n' :| IsRounding(mode, negative, m, Pow2(j - i), n') && SameValue(x', p', n', j);
      RoundingUnique(mode, negative, m, Pow2(j - i), n, n');
      SameSym(x', p', n, j);
      SameTrans(x, p, n, j, x', p');
    }
  }

  /** One exact number has one outcome, in every mode. */
  lemma OutcomeUnique(r: Number, r': Number, prec: nat, flags: Flags, m: nat, i: int, e: int, already: bool, st: Status, st': Status)
    requires flags.Valid() && r.sign == r'.sign
    requires r.Outcome(prec, flags, m, i, e, already, st) && r'.Outcome(prec, flags, m, i, e, already, st')
    ensures r.Now() == r'.Now() && st == st'
  {
    hide Number.Ranged, SameValue, Val, LastPlace, Rounded, Reaches, Seg;
    WholeVal(r.tab[..]);
    WholeVal(r'.tab[..]);
    var j, v, v' := LastPlace(prec, flags, e), r.Now(), r'.Now();
    var c := Correct(flags.mode, r.sign, m, i, j, Val(v.limbs), v.Lowest(), st.inexact, already);
    var c' := Correct(flags.mode, r.sign, m, i, j, Val(v'.limbs), v'.Lowest(), st'.inexact, already);
    if c && c' {
      RoundedUnique(Settled(flags.mode), r.sign, m, i, j, Val(v.limbs), v.Lowest(), Val(v'.limbs), v'.Lowest());
    }
    RangedUnique(r, r', prec, flags, e, c, c', Reaches(flags.mode, r.sign, m, i, j, e), st, st');
  }

  /** One exact quotient has one outcome. */
  lemma QuotientUnique(r: Number, r': Number, prec: nat, flags: Flags, x: nat, p: int, d: nat, e: int, st: Status, st': Status)
    requires flags.Valid() && d > 0 && r.sign == r'.sign
    requires QuotientOutcome(r, prec, flags, x, p, d, e, st) && QuotientOutcome(r', prec, flags, x, p, d, e, st')
    ensures r.Now() == r'.Now() && st == st'
  {
    hide Number.Ranged, SameValue, Val, LastPlace, QuotientReaches, Seg, Over, Under, IsRounding;
    WholeVal(r.tab[..]);
    WholeVal(r'.tab[..]);
    var mode, j, v, v' := Settled(flags.mode), LastPlace(prec, flags, e), r.Now(), r'.Now();
    var c := CorrectQuotient(flags.mode, r.sign, x, p, d, j, Val(v.limbs), v.Lowest(), st.inexact);
    var c' := CorrectQuotient(flags.mode, r.sign, x, p, d, j, Val(v'.limbs), v'.Lowest(), st'.inexact);
    if c && c' {
      var a, u := Over(x, p, j), Under(d, p, j);
      var n: nat :| IsRounding(mode, r.sign, a, u, n) && SameValue(Val(v.limbs), v.Lowest(), n, j);
      var n': nat :| IsRounding(mode, r.sign, a, u, n') && SameValue(Val(v'.limbs), v'.Lowest(), n', j);
      RoundingUnique(mode, r.sign, a, u, n, n');
      SameSym(Val(v'.limbs), v'.Lowest(), n, j);
      SameTrans(Val(v.limbs), v.Lowest(), n, j, Val(v'.limbs), v'.Lowest());
    }
    RangedUnique(r, r', prec, flags, e, c, c', QuotientReaches(flags.mode, r.sign, x, p, d, j, e), st, st');
  }

  /** Adding the same numbers gives the same number, status and answer on validity. */
  lemma SumUnique(r: Number, r': Number, a: Value, b: Value, prec: nat, flags: Flags, e: int, e': int, st: Status, st': Status, x: bool, x': bool)
    requires flags.Valid() && IsSum(r, a, b, prec, flags, e, st, x) && IsSum(r', a, b, prec, flags, e', st', x')
    ensures r.expn == r'.expn && r.tab[..] == r'.tab[..] && st == st' && x == x' && (r.expn != EXP_NAN ==> r.sign == r'.sign)
  {
    hide Number.Outcome, TopBit, SignedSum;
    if a.expn == EXP_NAN || b.expn == EXP_NAN || a.expn == EXP_INF || b.expn == EXP_INF {
      return;
    }
    var i := Least(a.Lowest(), b.Lowest());
    var s := SignedSum(a, b, i);
    if s != 0 {
      TopBitUnique(Magnitude(s), i, e, e');
      OutcomeUnique(r, r', prec, flags, Magnitude(s), i, e, false, st, st');
    }
  }
}
