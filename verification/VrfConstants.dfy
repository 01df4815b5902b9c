/**
 What the searches behind the VRF threshold find for the base in use, and the polynomial with
 integer coefficients that the threshold therefore is. The source's own remark is that these
 parameters never change.
 */
module VrfConstants {
  import opened Series
  import opened Slopes
  import opened Thresholds
  import opened VrfBase

  ghost predicate BaseIn(b: real) {
    1.3862943611 < b < 1.3862943612
  }

  // ----- Powers of the base

  lemma NextPower(b: real, n: nat, lo: real, hi: real)
    requires BaseIn(b) && 0.0 <= lo <= Pow(b, n) <= hi
    ensures lo * 1.3862943611 <= Pow(b, n + 1) <= hi * 1.3862943612
  {
    var p := Pow(b, n);
    assert Pow(b, n + 1) == b * p;
    hide Pow;
    ProductMonotone(1.3862943611, b, lo, p);
    ProductMonotone(b, 1.3862943612, p, hi);
  }

  lemma LowPowers(b: real)
    requires BaseIn(b)
    ensures 1.3862943611 <= Pow(b, 1) <= 1.3862943612
    ensures 1.921812055 <= Pow(b, 2) <= 1.921812056
    ensures 2.664197214 <= Pow(b, 3) <= 2.664197217
    ensures 3.693361574 <= Pow(b, 4) <= 3.693361580
    ensures 5.120086323 <= Pow(b, 5) <= 5.120086333
    ensures 7.097946797 <= Pow(b, 6) <= 7.097946813
  {
    assert Pow(b, 1) == b;
    hide Pow;
    NextPower(b, 1, 1.3862943611, 1.3862943612);
    NextPower(b, 2, 1.921812055, 1.921812056);
    NextPower(b, 3, 2.664197214, 2.664197217);
    NextPower(b, 4, 3.693361574, 3.693361580);
    NextPower(b, 5, 5.120086323, 5.120086333);
  }

  lemma HighPowers(b: real)
    requires BaseIn(b)
    ensures 9.839843620 <= Pow(b, 7) <= 9.839843643
    ensures 13.640919724 <= Pow(b, 8) <= 13.640919758
    ensures 18.910330093 <= Pow(b, 9) <= 18.910330143
    ensures 26.215283974 <= Pow(b, 10) <= 26.215284046
    ensures 36.342100347 <= Pow(b, 11) <= 36.342100451
    ensures 50.380848781 <= Pow(b, 12) <= 50.380848930
  {
    hide Pow;
    LowPowers(b);
    NextPower(b, 6, 7.097946797, 7.097946813);
    NextPower(b, 7, 9.839843620, 9.839843643);
    NextPower(b, 8, 13.640919724, 13.640919758);
    NextPower(b, 9, 18.910330093, 18.910330143);
    NextPower(b, 10, 26.215283974, 26.215284046);
    NextPower(b, 11, 36.342100347, 36.342100451);
  }

  lemma Factorials()
    ensures Factorial(0) == 1 && Factorial(1) == 1 && Factorial(2) == 2 && Factorial(3) == 6 && Factorial(4) == 24
    ensures Factorial(5) == 120 && Factorial(6) == 720 && Factorial(7) == 5040 && Factorial(8) == 40320
    ensures Factorial(9) == 362880 && Factorial(10) == 3628800 && Factorial(11) == 39916800
  {
    assert Factorial(2) == 2;
    assert Factorial(4) == 24;
    assert Factorial(6) == 720;
    assert Factorial(8) == 40320;
    assert Factorial(10) == 3628800;
  }

  // ----- The search for the terms

  lemma QuotientBelow(f: real, p: real, hi: real)
    requires p > 0.0 && f < hi * p
    ensures f / p < hi
  {
    var q := f / p;
    assert q * p == f;
    if q >= hi { ScaleUp(hi, q, p); }
  }

  lemma QuotientAbove(f: real, p: real, lo: real)
    requires p > 0.0 && lo * p < f
    ensures lo < f / p
  {
    var q := f / p;
    assert q * p == f;
    if q <= lo { ScaleUp(q, lo, p); }
  }

  lemma SmallGrowth(b: real)
    requires BaseIn(b)
    ensures Growth(b, 0) < 1.0 && Growth(b, 1) < 1.0 && Growth(b, 2) < 1.0 && 1.0 < Growth(b, 3) < 2.0
    ensures 4.0 < Growth(b, 4) < 8.0 && 16.0 < Growth(b, 5) < 32.0
  {
    LowPowers(b);
    Factorials();
    hide Pow, Factorial;
    QuotientBelow(1.0, Pow(b, 1), 1.0);
    QuotientBelow(1.0, Pow(b, 2), 1.0);
    QuotientBelow(2.0, Pow(b, 3), 1.0);
    QuotientAbove(6.0, Pow(b, 4), 1.0);
    QuotientBelow(6.0, Pow(b, 4), 2.0);
    QuotientAbove(24.0, Pow(b, 5), 4.0);
    QuotientBelow(24.0, Pow(b, 5), 8.0);
    QuotientAbove(120.0, Pow(b, 6), 16.0);
    QuotientBelow(120.0, Pow(b, 6), 32.0);
  }

  lemma LargeGrowth(b: real)
    requires BaseIn(b)
    ensures 64.0 < Growth(b, 6) < 128.0 && 256.0 < Growth(b, 7) < 512.0 && 2048.0 < Growth(b, 8) < 4096.0
    ensures 8192.0 < Growth(b, 9) < 16384.0 && 65536.0 < Growth(b, 10) < 131072.0 && 131072.0 < Growth(b, 11)
  {
    HighPowers(b);
    Factorials();
    hide Pow, Factorial;
    QuotientAbove(720.0, Pow(b, 7), 64.0);
    QuotientBelow(720.0, Pow(b, 7), 128.0);
    QuotientAbove(5040.0, Pow(b, 8), 256.0);
    QuotientBelow(5040.0, Pow(b, 8), 512.0);
    QuotientAbove(40320.0, Pow(b, 9), 2048.0);
    QuotientBelow(40320.0, Pow(b, 9), 4096.0);
    QuotientAbove(362880.0, Pow(b, 10), 8192.0);
    QuotientBelow(362880.0, Pow(b, 10), 16384.0);
    QuotientAbove(3628800.0, Pow(b, 11), 65536.0);
    QuotientBelow(3628800.0, Pow(b, 11), 131072.0);
    QuotientAbove(39916800.0, Pow(b, 12), 131072.0);
  }

  lemma PowersOfTwo()
    ensures TwoTo(0) == 1.0 && TwoTo(1) == 2.0 && TwoTo(2) == 4.0 && TwoTo(3) == 8.0 && TwoTo(4) == 16.0
    ensures TwoTo(5) == 32.0 && TwoTo(6) == 64.0 && TwoTo(7) == 128.0 && TwoTo(8) == 256.0 && TwoTo(9) == 512.0
    ensures TwoTo(11) == 2048.0 && TwoTo(12) == 4096.0 && TwoTo(13) == 8192.0 && TwoTo(14) == 16384.0
    ensures TwoTo(16) == 65536.0 && TwoTo(17) == 131072.0 && TwoTo(20) == 1048576.0
  {
    assert TwoTo(2) == 4.0;
    assert TwoTo(4) == 16.0;
    assert TwoTo(6) == 64.0;
    assert TwoTo(8) == 256.0;
    assert TwoTo(10) == 1024.0;
    assert TwoTo(12) == 4096.0;
    assert TwoTo(14) == 16384.0;
    assert TwoTo(16) == 65536.0;
    assert TwoTo(18) == 262144.0;
  }

  /** The index of the first omitted term, by the bits that are asked for. */
  function TermsFor(k: nat): nat {
    if k == 0 then 3 else if k <= 2 then 4 else if k <= 4 then 5 else if k <= 6 then 6 else if k <= 8 then 7
    else if k <= 11 then 8 else if k <= 13 then 9 else if k <= 16 then 10 else 11
  }

  /** The least and the greatest number of bits for which that many are needed. */
  function LeastBitsFor(t: nat): nat {
    if t <= 3 then 0 else if t == 4 then 1 else if t == 5 then 3 else if t == 6 then 5 else if t == 7 then 7
    else if t == 8 then 9 else if t == 9 then 12 else if t == 10 then 14 else 17
  }

  function GreatestBitsFor(t: nat): nat {
    if t <= 3 then 0 else if t == 4 then 2 else if t == 5 then 4 else if t == 6 then 6 else if t == 7 then 8
    else if t == 8 then 11 else if t == 9 then 13 else if t == 10 then 16 else 17
  }

  lemma TermsAre(b: real, k: nat)
    requires BaseIn(b) && k <= 17
    ensures TermsFrom(b, k, 0) == TermsFor(k)
  {
    hide Growth, TwoTo;
    SmallGrowth(b);
    LargeGrowth(b);
    PowersOfTwo();
    var t := TermsFor(k);
    PowTwoOrdered(LeastBitsFor(t), k);
    PowTwoOrdered(k, GreatestBitsFor(t));
    assert Enough(b, k, t) && forall m: nat :: m < t ==> !Enough(b, k, m);
  }

  // ----- The parameters

  lemma LogIs(n: nat)
    requires 4 <= n <= 12
    ensures IsCeilLog2(n, if n <= 4 then 2 else if n <= 8 then 3 else 4)
  {
    hide TwoTo;
    PowersOfTwo();
  }

  ghost function ParamsFor(k: nat): Params {
    var n := TermsFor(k) + 1;
    Params(k + if n <= 4 then 2 else if n <= 8 then 3 else 4, n, k)
  }

  lemma AsksFor(b: real, k: nat)
    requires BaseIn(b) && k <= 17
    ensures Asks(b, k, ParamsFor(k))
    ensures Feasible(b, k) <==> k <= 16
  {
    hide TermsFrom, IsCeilLog2;
    TermsAre(b, k);
    LogIs(TermsFor(k) + 1);
    var r := ParamsFor(k);
    assert Fits(r) <==> k <= 16;
    if Feasible(b, k) {
      var s :| Asks(b, k, s) && Fits(s);
      AsksUnique(b, k, r, s);
    }
  }

  /** For the base in use the search answers 16 bits, for which it takes 11 terms of 20 bits each. */
  lemma ParametersAre(r: Params)
    ensures 1.0 < AbsLogBase() && (Chosen(AbsLogBase(), r) <==> r == Params(20, 11, 16))
  {
    hide AbsLogBase, Asks, Feasible;
    BaseBounds();
    var b := AbsLogBase();
    forall k: nat | k <= 17 ensures Feasible(b, k) <==> k <= 16 { AsksFor(b, k); }
    AsksFor(b, 16);
    AsksFor(b, 17);
    if Chosen(b, r) {
      AsksFor(b, if r.k < 17 then r.k + 1 else 0);
      AsksUnique(b, 16, r, Params(20, 11, 16));
    }
  }

  // ----- The coefficients

  /** In units of 2^-20; the linear coefficient without its integer part, which is 1. */
  const COEFFICIENTS: seq<int> := [405058, -1007582, 465602, -161365, 44739, -10337, 2047, -354, 54, -7]

  lemma FixedIs(c: real, n: int)
    requires n as real <= c * 1048576.0 < n as real + 1.0
    ensures FixedPoint(c, 20) == n
  {
    PowersOfTwo();
    hide TwoTo;
    assert c * TwoTo(20) == c * 1048576.0;
  }

  lemma WholeIs(b: real)
    requires BaseIn(b)
    ensures Term(b, 1) == b && Term(b, 1).Floor == 1
  {
    assert Pow(b, 1) == b && Factorial(1) == 1;
    hide Pow, Factorial;
    assert Term(b, 1) == b / 1.0;
  }

  lemma LowCoefficients(b: real)
    requires BaseIn(b)
    ensures forall x :: 1 <= x <= 6 ==> Coefficient(b, x, 20) == COEFFICIENTS[x - 1]
  {
    LowPowers(b);
    Factorials();
    WholeIs(b);
    hide Pow, Factorial, FixedPoint;
    FixedIs(b - 1.0, 405058);
    FixedIs(Term(b, 2), 1007582);
    FixedIs(Term(b, 3), 465602);
    FixedIs(Term(b, 4), 161365);
    FixedIs(Term(b, 5), 44739);
    FixedIs(Term(b, 6), 10337);
  }

  lemma HighCoefficients(b: real)
    requires BaseIn(b)
    ensures forall x :: 7 <= x <= 10 ==> Coefficient(b, x, 20) == COEFFICIENTS[x - 1]
  {
    HighPowers(b);
    Factorials();
    hide Pow, Factorial, FixedPoint;
    FixedIs(Term(b, 7), 2047);
    FixedIs(Term(b, 8), 354);
    FixedIs(Term(b, 9), 54);
    FixedIs(Term(b, 10), 7);
  }

  /** The threshold as a polynomial of the rounded share. */
  ghost function Curve(y: real, m: nat): real
    requires m <= 10
  {
    if m == 0 then y else Curve(y, m - 1) + Pow(y, m) * (COEFFICIENTS[m - 1] as real / 1048576.0)
  }

  lemma ReadIs(b: real, m: nat)
    requires BaseIn(b) && 1 <= m <= 10
    ensures Read(b, m, 20) == COEFFICIENTS[m - 1] as real / 1048576.0
  {
    hide Coefficient, TwoTo;
    LowCoefficients(b);
    HighCoefficients(b);
    PowersOfTwo();
  }

  lemma FixedSumStep(b: real, y: real, m: nat)
    requires m < 10
    ensures FixedSum(b, y, 20, m + 1) == FixedSum(b, y, 20, m) + Pow(y, m + 1) * Read(b, m + 1, 20)
    ensures Curve(y, m + 1) == Curve(y, m) + Pow(y, m + 1) * (COEFFICIENTS[m] as real / 1048576.0)
  {
    hide Read, Pow;
  }

  lemma {:induction false} FixedSumIs(b: real, y: real, m: nat)
    requires BaseIn(b) && m <= 10
    ensures FixedSum(b, y, 20, m) + y == Curve(y, m)
  {
    hide Pow, Read;
    if m > 0 {
      hide *;
      FixedSumIs(b, y, m - 1);
      ReadIs(b, m);
      FixedSumStep(b, y, m - 1);
    }
  }

  /** So the threshold is that polynomial, for every stake. */
  lemma ThresholdIsCurve(t: Threshold, r: Params)
    requires ComputedWith(t, AbsLogBase(), r)
    ensures t.thresholdRational == Curve(Input(t.delegatedStake, t.totalCurrency, 20), 10)
  {
    ParametersAre(r);
    BaseBounds();
    hide AbsLogBase, Chosen, FixedSum, Curve, Input;
    var b, y := AbsLogBase(), Input(t.delegatedStake, t.totalCurrency, 20);
    WholeIs(b);
    FixedSumIs(b, y, 10);
  }

  // ----- What the polynomial is like

  lemma {:induction false} OneToAny(n: nat)
    ensures Pow(1.0, n) == 1.0
  {
    if n > 0 { OneToAny(n - 1); }
  }

  lemma CurveAtOne()
    ensures Curve(1.0, 10) == 0.75 - Unit(20)
  {
    assert Unit(20) == 1.0 / 1048576.0 by { UnitIs(20); PowersOfTwo(); hide Pow; }
    forall n: nat | n <= 10 ensures Pow(1.0, n) == 1.0 { OneToAny(n); }
    hide Pow;
    var s := 1048576.0;
    assert Curve(1.0, 0) == 1.0;
    assert Curve(1.0, 1) == (1048576.0 + 405058.0) / s;
    assert Curve(1.0, 2) == 446052.0 / s;
    assert Curve(1.0, 3) == 911654.0 / s;
    assert Curve(1.0, 4) == 750289.0 / s;
    assert Curve(1.0, 5) == 795028.0 / s;
    assert Curve(1.0, 6) == 784691.0 / s;
    assert Curve(1.0, 7) == 786738.0 / s;
    assert Curve(1.0, 8) == 786384.0 / s;
    assert Curve(1.0, 9) == 786438.0 / s;
    assert Curve(1.0, 10) == 786431.0 / s;
  }

  lemma FullInput(total: nat)
    requires total > 0
    ensures Input(total, total, 20) == 1.0
  {
    PowersOfTwo();
    hide TwoTo;
    var a := total as real;
    assert 1048576.0 * a / a == 1048576.0;
    assert 1048576.0.Floor == 1048576;
  }

  /** Who holds all stake wins three slots in four, less a unit of precision: the threshold is exact. */
  lemma FullStake(t: Threshold, r: Params)
    requires ComputedWith(t, AbsLogBase(), r) && t.delegatedStake == t.totalCurrency
    ensures t.thresholdRational == 0.75 - Unit(20)
  {
    hide AbsLogBase, Chosen, Curve, Input, ThresholdOf;
    ThresholdIsCurve(t, r);
    FullInput(t.totalCurrency);
    CurveAtOne();
  }

  /** In terms of the VRF output, a number of 253 bits. */
  lemma FullStakeWins(t: Threshold, r: Params, vrfOut: nat)
    requires ComputedWith(t, AbsLogBase(), r) && t.delegatedStake == t.totalCurrency
    ensures ThresholdMet(t, vrfOut) <==> vrfOut as real <= 786431.0 * TwoTo(233)
  {
    hide AbsLogBase, Chosen, Curve, Input, ThresholdOf, ComputedWith, TwoTo, Unit;
    FullStake(t, r);
    UnitIs(20);
    PowersOfTwo();
    PowAdd(2.0, 20, 233);
    TwoToIs(20, 233);
    OutputBelow(vrfOut as real, TwoTo(253), TwoTo(233), Unit(20));
  }

  lemma TwoToIs(m: nat, n: nat)
    ensures TwoTo(m + n) == TwoTo(m) * TwoTo(n)
  {
    PowAdd(2.0, m, n);
    hide Pow;
  }

  lemma OutputBelow(out: real, s: real, p: real, u: real)
    requires p > 0.0 && s == 1048576.0 * p && u * 1048576.0 == 1.0
    ensures out / s <= 0.75 - u <==> out <= 786431.0 * p
  {
    var q, bound := out / s, 0.75 - u;
    assert q * s == out by { QuotientTimes(out, s); }
    assert bound * s == 786431.0 * p;
    ScaledOrder(q, bound, s, out, 786431.0 * p);
  }

  lemma ScaledOrder(x: real, y: real, s: real, xs: real, ys: real)
    requires s > 0.0 && xs == x * s && ys == y * s
    ensures x <= y <==> xs <= ys
  {
    if x <= y { ScaleUp(x, y, s); } else { StrictScale(y, x, s); }
  }
}
