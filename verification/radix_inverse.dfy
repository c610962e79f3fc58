/** Dividing by a power of the radix with its rounded inverse, and putting the quotient right afterwards. */
module RadixInverse {
  import opened Arith
  import opened Limbs
  import opened RoundMath
  import opened BfRound
  import opened BfNumber
  import opened BfScale
  import opened BfNormalize
  import opened BfWindow
  import opened BfSum
  import opened BfAddition
  import opened BfExact
  import opened BfMul
  import opened BfDiv
  import opened BfRint

  /** The flags BF_RNDN, with the default number of exponent bits. */
  const NEAREST: Flags := Flags(RNDN, LIMB_BITS - 3, false, false)

  lemma NearestRange()
    ensures NEAREST.Valid() && Point(RNDZ).Valid() && EXACT.Valid() && NEAREST.Range() == EXACT.Range() == Point(RNDZ).Range()
    ensures 16 * EXACT.Range() == B
  {
    ExactRange();
  }

  // Quotients that are the same number.

  /** (x / d) * 2^p and (x' / d') * 2^p' in the same units. */
  lemma CrossUnits(x: nat, p: int, d: nat, x': nat, p': int, d': nat, j: int)
    requires d > 0 && d' > 0 && SameValue(Times(x, d'), p, Times(x', d), p')
    ensures Over(x, p, j) * Under(d', p', j) == Over(x', p', j) * Under(d, p, j)
  {
    hide Pow2, Over, Under;
    var i := Least(j, Least(p, p'));
    var w, w', c := Pow2(Least(p, j) - i), Pow2(Least(p', j) - i), Pow2(j - i);
    LowerUnits(x, p, d, j, i);
    LowerUnits(x', p', d', j, i);
    SameAt(Times(x, d'), p, Times(x', d), p', i);
    FourFactors(Over(x, p, j), w, Under(d', p', j), w');
    FourFactors(x, Pow2(p - i), d', c);
    FourFactors(Over(x', p', j), w', Under(d, p, j), w);
    FourFactors(x', Pow2(p' - i), d, c);
    MulAssoc(Times(x, d'), Pow2(p - i), c);
    MulAssoc(Times(x', d), Pow2(p' - i), c);
    SwapFactors(w, w');
    MulPos(w, w');
    ScaledSide(Over(x, p, j) * Under(d', p', j), Over(x', p', j) * Under(d, p, j), w * w');
  }

  lemma SameRounding(mode: Mode, negative: bool, a: nat, b: nat, a': nat, b': nat, n: nat)
    requires b > 0 && b' > 0 && a * b' == a' * b
    ensures IsRounding(mode, negative, a, b, n) <==> IsRounding(mode, negative, a', b', n)
  {
    hide IsRounding;
    MulPos(b, b');
    SwapFactors(b, b');
    ScaleRounding(mode, negative, a, b, n, b');
    ScaleRounding(mode, negative, a', b', n, b);
  }

  lemma SameComparison(a: nat, b: nat, a': nat, b': nat)
    requires b > 0 && b' > 0 && a * b' == a' * b
    ensures (a < b <==> a' < b')
  {
    ScaledSide(a, b, b');
    ScaledSide(a', b', b);
    SwapFactors(b, b');
  }

  /** The number 1, divided by an integer. */
  lemma UnitQuotient(one: Value, pw: Value, d: nat)
    requires Size(one, 1) && Size(pw, d)
    ensures SameValue(Times(Val(one.limbs), d), one.Lowest() - pw.Lowest(), Times(1, Val(pw.limbs)), 0)
  {
    hide SameValue, Val;
    var y, j := Val(pw.limbs), pw.Lowest();
    SameValueShift(y, j, d, 0, -j);
    SameSym(y, j + -j, d, 0 + -j);
    SameProduct(Val(one.limbs), one.Lowest(), 1, 0, d, -j, y, 0);
  }

  // The inverse.

  /** v is n / 2^g, and that is 1 / d with an error of half a unit 2^-g; the units are fine enough for prec bits. */
  ghost predicate InverseBy(v: Value, d: nat, prec: nat, n: nat, g: nat)
    requires prec > 0
  {
    && v.Proper() && EXP_ZERO < v.expn <= 1 && !v.sign && 0 < n
    && SameValue(Val(v.limbs), v.Lowest(), n, 0 - g)
    && 2 * Pow2(g) <= 2 * (n * d) + d && 2 * (n * d) <= 2 * Pow2(g) + d
    && d * Pow2(prec - 1) <= Pow2(g)
  }

  ghost predicate Inverse(v: Value, d: nat, prec: nat, limit: nat)
    requires prec > 0
  {
    exists n: nat, g: nat :: g <= limit && InverseBy(v, d, prec, n, g)
  }

  /** Where the top bit of 1 / d is. */
  lemma UnitTop(d: nat, e: int, l: nat)
    requires 0 < d <= Pow2(l) && TopOfQuotient(1, 0, d, e)
    ensures 0 <= e + l && e <= 1 && d <= Pow2(1 - e)
  {
    hide Pow2;
    if e > 1 {
      Pow2Mono(1, e - 1);
      Pow2One();
      MulMono(1, d, Pow2(e - 1));
      assert false;
    }
    if e == 1 {
      PowersOfZero();
    }
    if e + l < 0 {
      Pow2Mono(l, -e);
      assert false;
    }
  }

  lemma SameTop(x: nat, p: int, d: nat, x': nat, p': int, d': nat, e: int)
    requires d > 0 && d' > 0 && SameValue(Times(x, d'), p, Times(x', d), p') && TopOfQuotient(x, p, d, e)
    ensures TopOfQuotient(x', p', d', e)
  {
    hide Over, Under, SameValue;
    CrossUnits(x, p, d, x', p', d', e - 1);
    CrossUnits(x, p, d, x', p', d', e);
    SameComparison(Over(x, p, e - 1), Under(d, p, e - 1), Over(x', p', e - 1), Under(d', p', e - 1));
    SameComparison(Over(x, p, e), Under(d, p, e), Over(x', p', e), Under(d', p', e));
  }

  /** The nearest multiple n of 2^-g to 1 / d. */
  lemma UnitRounded(x: nat, p: int, d: nat, d': nat, g: nat, m': nat, i': int, inexact: bool) returns (n: nat)
    requires d > 0 && d' > 0 && SameValue(Times(x, d'), p, Times(1, d), 0)
    requires CorrectQuotient(RNDN, false, x, p, d, 0 - g, m', i', inexact)
    ensures SameValue(m', i', n, 0 - g) && 2 * Pow2(g) <= 2 * (n * d') + d' && 2 * (n * d') <= 2 * Pow2(g) + d'
  {
    hide Over, Under, SameValue, Pow2;
    var j := 0 - g;
    n :| IsRounding(RNDN, false, Over(x, p, j), Under(d, p, j), n) && SameValue(m', i', n, j);
    CrossUnits(x, p, d, 1, 0, d', j);
    SameRounding(RNDN, false, Over(x, p, j), Under(d, p, j), Over(1, 0, j), Under(d', 0, j), n);
    UnitParts(d', g);
  }

  lemma UnitParts(d: nat, g: nat)
    requires d > 0
    ensures Over(1, 0, 0 - g) == Pow2(g) && Under(d, 0, 0 - g) == d
  {
    if g == 0 {
      PowersOfZero();
    }
  }

  /** The quotient that bf_div leaves is such an inverse. */
  lemma InverseFrom(r: Number, one: Value, pw: Value, d: nat, prec: nat, e: int, st: Status, l: nat)
    requires NEAREST.Valid() && Size(one, 1) && !one.sign && Size(pw, d) && !pw.sign && 0 < d <= Pow2(l)
    requires 2 <= prec <= l + 2 && 2 * l + 2 < NEAREST.Range() && 16 * NEAREST.Range() == B
    requires IsQuotient(r, one, pw, prec, NEAREST, e, st, Normal)
    ensures Inverse(r.Now(), d, prec, 2 * l + 2)
  {
    hide TopOfQuotient, CorrectQuotient, SameValue, Pow2, Val, Seg, Number.Overflowed, BPow, TopBit, InverseBy;
    SizeTop(one, 1);
    SizeTop(pw, d);
    var x, p, y, j := Val(one.limbs), one.Lowest() - pw.Lowest(), Val(pw.limbs), e - prec;
    UnitQuotient(one, pw, d);
    SameTop(x, p, y, 1, 0, d, e);
    UnitTop(d, e, l);
    var g := -j;
    var n := UnitRounded(x, p, y, d, g, r.Mantissa(r.tab.Length), r.expn - LIMB_BITS * r.tab.Length, st.inexact);
    Pow2Add(1 - e, prec - 1);
    assert 1 - e + (prec - 1) == g;
    MulMono(d, Pow2(1 - e), Pow2(prec - 1));
    WholeVal(r.tab[..]);
    InverseInRange(r, d, prec, n, g, 2 * l + 2);
  }

  lemma InverseInRange(r: Number, d: nat, prec: nat, n: nat, g: nat, limit: nat)
    requires d > 0 && prec >= 2 && g <= limit && 2 * limit < B / 2 && !r.sign
    requires if r.tab.Length > 0 then r.Normal() else r.expn == EXP_ZERO
    requires SameValue(Val(r.tab[..]), r.Now().Lowest(), n, 0 - g)
    requires 2 * Pow2(g) <= 2 * (n * d) + d && 2 * (n * d) <= 2 * Pow2(g) + d && d * Pow2(prec - 1) <= Pow2(g)
    ensures Inverse(r.Now(), d, prec, limit)
  {
    hide SameValue, Pow2, Val, BPow, TopBit;
    var v := r.Now();
    Pow2Mono(1, prec - 1);
    Pow2One();
    MulMono(2, Pow2(prec - 1), d);
    AtMostPower(n, d, Pow2(g));
    if |v.limbs| == 0 {
      assert Val(v.limbs) == 0 by { ZeroUnits(v, v.Lowest()); }
      ZeroOnly(v.Lowest(), n, 0 - g);
      assert false;
    }
    NormalTop(v.limbs, v.expn);
    TopBitSame(Val(v.limbs), v.Lowest(), n, 0 - g, v.expn);
    TopOfUnits(n, g, v.expn);
    assert InverseBy(v, d, prec, n, g);
  }

  lemma AtMostPower(n: nat, d: nat, s: nat)
    requires d > 0 && 2 * d <= s && 2 * s <= 2 * (n * d) + d && 2 * (n * d) <= 2 * s + d
    ensures 0 < n <= s
  {
    if n > s {
      MulMono(s + 1, n, d);
      Distribute(s, 1, d);
      MulMono(1, d, s);
      assert false;
    }
  }

  lemma TopOfUnits(n: nat, g: nat, x: int)
    requires TopBit(n, 0 - g, x) && n <= Pow2(g)
    ensures 0 - g < x <= 1
  {
    hide Pow2;
    if x > 1 {
      Pow2Mono(g + 1, x + g - 1);
      Doubled(g + 1);
    }
  }

  /** bf_set_ui(&R, 1) and bf_div(B_inv, &R, B, prec, BF_RNDN) */
  method Invert(pw: Value, prec: nat, ghost d: nat, ghost l: nat) returns (inv: Value)
    requires Holds(pw, d) && 0 < d <= Pow2(l) && 2 <= prec <= l + 2 && EXACT.Valid() && 4 * l < EXACT.Range() && l > 4
    ensures Inverse(inv, d, prec, 2 * l + 2)
  {
    hide IsQuotient, Inverse, Size;
    NearestRange();
    var one := new Number();
    var r := new Number();
    SetUi(one, 1);
    var v := one.Now();
    Finite(v, pw, 1, d);
    var st, exn, e := DivInternal(r, v, pw, prec, NEAREST);
    NoException(r, v, pw, d, prec, e, st, exn);
    InverseFrom(r, v, pw, d, prec, e, st, l);
    inv := r.Now();
  }

  lemma NoException(r: Number, one: Value, pw: Value, d: nat, prec: nat, e: int, st: Status, exn: Exception)
    requires NEAREST.Valid() && Size(one, 1) && Size(pw, d) && d > 0 && IsQuotient(r, one, pw, prec, NEAREST, e, st, exn)
    ensures exn == Normal
  {
    hide TopOfQuotient, CorrectQuotient, Number.Ranged;
    SizeTop(one, 1);
    SizeTop(pw, d);
  }
}
