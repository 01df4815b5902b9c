/** The VRF threshold: a fixed-point Taylor polynomial whose precision is searched for. */
module Thresholds {
  import opened Series
  import opened Slopes

  const SIZE_IN_BITS: nat := 255

  /** Terms of the logarithm series. */
  const LOG_TERMS: nat := 100

  function TwoTo(n: nat): (p: real)
    ensures p > 0.0
  {
    PowPositive(2.0, n);
    Pow(2.0, n)
  }

  // ----- The loops

  method ComputeFactorial(n: nat) returns (res: nat)
    ensures res == Factorial(n)
  {
    if n == 0 {
      return 1;
    }
    res := n;
    var i := n - 1;
    while i != 0
      invariant 0 <= i < n && res * Factorial(i) == Factorial(n)
    {
      res := res * i;
      i := i - 1;
    }
  }

  /** The partial sums of the series of `log(1 + a)`. */
  function LogSum(a: real, terms: nat): real {
    if terms == 0 then 0.0 else LogSum(a, terms - 1) + Sign(terms) * (Pow(a, terms) / terms as real)
  }

  method Log(terms: nat, x: real) returns (sum: real)
    ensures sum == LogSum(x - 1.0, terms)
  {
    var a := x - 1.0;
    var ai, i := a, 1;
    sum := 0.0;
    while i <= terms
      invariant 1 <= i <= terms + 1 && ai == Pow(a, i) && sum == LogSum(a, i - 1)
    {
      var t := ai / i as real;
      sum := sum + if i % 2 == 0 then -t else t;
      ai := ai * a;
      i := i + 1;
    }
  }

  /** `n` terms are enough for that many bits. */
  ghost predicate Enough(logBase: real, bits: nat, n: nat)
    requires logBase > 0.0
  {
    Growth(logBase, n) > TwoTo(bits)
  }

  /** The search always ends. */
  ghost function Sufficient(logBase: real, bits: nat): (n: nat)
    requires logBase > 0.0
    ensures Enough(logBase, bits, n)
  {
    GrowthUnbounded(logBase, TwoTo(bits));
    GrowthWitness(logBase, TwoTo(bits))
  }

  /** The least number from `n` on that is enough. */
  ghost function TermsFrom(logBase: real, bits: nat, n: nat): (r: nat)
    requires logBase > 0.0 && n <= Sufficient(logBase, bits)
    ensures n <= r && Enough(logBase, bits, r) && forall m :: n <= m < r ==> !Enough(logBase, bits, m)
    decreases Sufficient(logBase, bits) - n
  {
    if Enough(logBase, bits, n) then n else TermsFrom(logBase, bits, n + 1)
  }

  method TermsNeeded(logBase: real, bits: nat) returns (n: nat)
    requires logBase > 0.0
    ensures Enough(logBase, bits, n) && forall m :: 0 <= m < n ==> !Enough(logBase, bits, m)
    ensures n == TermsFrom(logBase, bits, 0)
  {
    hide Growth;
    n := 0;
    while true
      invariant n <= Sufficient(logBase, bits) && TermsFrom(logBase, bits, n) == TermsFrom(logBase, bits, 0)
      invariant forall m :: 0 <= m < n ==> !Enough(logBase, bits, m)
      decreases Sufficient(logBase, bits) - n
    {
      PowPositive(logBase, n + 1);
      var d := Pow(logBase, n + 1);
      var a := ComputeFactorial(n);
      GrowthIs(logBase, n);
      if a as real / d > TwoTo(bits) {
        return;
      }
      n := n + 1;
    }
  }

  lemma GrowthIs(b: real, n: nat)
    requires b > 0.0
    ensures Pow(b, n + 1) > 0.0 && Growth(b, n) == Factorial(n) as real / Pow(b, n + 1)
  {
    PowPositive(b, n + 1);
  }

  /** `2^i` is the least power of two that is at least `n`. */
  ghost predicate IsCeilLog2(n: nat, i: nat) {
    TwoTo(i) >= n as real && forall j :: 0 <= j < i ==> TwoTo(j) < n as real
  }

  method CeilLog2(n: nat) returns (i: nat)
    ensures IsCeilLog2(n, i)
  {
    PowTwoAbove(n);
    i := 0;
    while TwoTo(i) < n as real
      invariant i <= n && forall j :: 0 <= j < i ==> TwoTo(j) < n as real
    {
      i := i + 1;
    }
  }

  lemma CeilLog2Unique(n: nat, i: nat, j: nat)
    requires IsCeilLog2(n, i) && IsCeilLog2(n, j)
    ensures i == j
  {
  }

  // ----- The search for the precision

  datatype Params = Params(precision: nat, terms: nat, k: nat)

  /** What `k` bits of precision ask for. */
  ghost predicate Asks(logBase: real, k: nat, r: Params)
    requires logBase > 0.0
  {
    && r.k == k
    && r.terms == TermsFrom(logBase, k, 0) + 1
    && r.precision >= k && IsCeilLog2(r.terms, r.precision - k)
  }

  predicate Fits(r: Params) {
    r.terms * r.precision + r.precision < SIZE_IN_BITS
  }

  /** Some parameters for `k` fit. */
  ghost predicate Feasible(logBase: real, k: nat)
    requires logBase > 0.0
  {
    exists r :: Asks(logBase, k, r) && Fits(r)
  }

  lemma AsksUnique(logBase: real, k: nat, r: Params, s: Params)
    requires logBase > 0.0 && Asks(logBase, k, r) && Asks(logBase, k, s)
    ensures r == s
  {
    CeilLog2Unique(r.terms, r.precision - k, s.precision - k);
  }

  method GreatestFor(logBase: real, k: nat) returns (r: Params, fits: bool)
    requires logBase > 0.0
    ensures Asks(logBase, k, r) && fits == Fits(r) && (fits <==> Feasible(logBase, k))
  {
    hide Enough, IsCeilLog2, Growth;
    var n := TermsNeeded(logBase, k);
    n := n + 1;
    var log := CeilLog2(n);
    r := Params(log + k, n, k);
    fits := Fits(r);
    if Feasible(logBase, k) {
      ghost var s :| Asks(logBase, k, s) && Fits(s);
      AsksUnique(logBase, k, r, s);
    }
  }

  lemma FitsBoundsK(logBase: real, k: nat, r: Params)
    requires logBase > 0.0 && Asks(logBase, k, r) && Fits(r)
    ensures k < SIZE_IN_BITS
  {
    assert r.terms * r.precision >= 0;
  }

  /** What `bit_params` answers: the last of the initial run of feasible `k`, or zeros. */
  ghost predicate Chosen(logBase: real, r: Params)
    requires logBase > 0.0
  {
    if Feasible(logBase, 0) then
      && Asks(logBase, r.k, r) && Fits(r)
      && !Feasible(logBase, r.k + 1) && forall j :: 0 <= j <= r.k ==> Feasible(logBase, j)
    else
      r == Params(0, 0, 0)
  }

  method BitParams(logBase: real) returns (best: Params)
    requires logBase > 0.0
    ensures Chosen(logBase, best)
  {
    hide Asks, Feasible, Fits;
    var k := 0;
    best := Params(0, 0, 0);
    var better, fits := GreatestFor(logBase, k);
    while fits
      invariant Asks(logBase, k, better) && fits == Fits(better) && (fits <==> Feasible(logBase, k))
      invariant forall j :: 0 <= j < k ==> Feasible(logBase, j)
      invariant k == 0 ==> best == Params(0, 0, 0)
      invariant k > 0 ==> best.k == k - 1 && Asks(logBase, k - 1, best) && Fits(best)
      invariant k <= SIZE_IN_BITS
      decreases SIZE_IN_BITS - k
    {
      FitsBoundsK(logBase, k, better);
      best := better;
      k := k + 1;
      better, fits := GreatestFor(logBase, k);
      assert best.k == k - 1 by { AsksK(logBase, k - 1, best); }
    }
  }

  lemma AsksK(logBase: real, k: nat, r: Params)
    requires logBase > 0.0 && Asks(logBase, k, r)
    ensures r.k == k
  {
  }

  // ----- The base of the logarithm

  /** `sum of q^i / i` for `i` from 1 to `n`. */
  ghost function LogMagnitude(q: real, n: nat): real {
    if n == 0 then 0.0 else LogMagnitude(q, n - 1) + Pow(q, n) / n as real
  }

  lemma {:induction false} PowNegated(q: real, n: nat)
    ensures Pow(-q, n) == -Sign(n) * Pow(q, n)
  {
    if n > 0 { PowNegated(q, n - 1); }
  }

  lemma NegatedQuotient(s: real, x: real, y: real, d: real)
    requires (s == 1.0 || s == -1.0) && x == -s * y && d != 0.0
    ensures s * (x / d) == -(y / d)
  {
  }

  lemma {:induction false} LogIsNegative(q: real, n: nat)
    ensures LogSum(-q, n) == -LogMagnitude(q, n)
  {
    if n > 0 {
      LogIsNegative(q, n - 1);
      PowNegated(q, n);
      NegatedQuotient(Sign(n), Pow(-q, n), Pow(q, n), n as real);
    }
  }

  lemma QuarterOf(x: real, n: nat)
    requires x > 0.0 && n >= 4
    ensures 0.0 < x / n as real <= 0.25 * x
  {
    var y := x / n as real;
    QuotientPositive(x, n as real);
    assert y * n as real == x;
    ProductMonotone(4.0, n as real, y, y);
  }

  /** The series for a quarter stays between 1 and 3/2 from three terms on. */
  lemma {:induction false} LogMagnitudeBounds(n: nat)
    requires n >= 3
    ensures 1.0 < LogMagnitude(0.75, n) && LogMagnitude(0.75, n) + Pow(0.75, n + 1) < 1.49
  {
    if n == 3 {
      assert Pow(0.75, 1) == 0.75 && Pow(0.75, 2) == 0.5625 && Pow(0.75, 3) == 0.421875 && Pow(0.75, 4) == 0.31640625;
      assert LogMagnitude(0.75, 1) == 0.75;
      assert LogMagnitude(0.75, 2) == 1.03125;
      assert LogMagnitude(0.75, 3) == 1.171875;
    } else {
      LogMagnitudeBounds(n - 1);
      PowPositive(0.75, n);
      QuarterOf(Pow(0.75, n), n);
    }
  }

  /** The absolute logarithm of `1 - 3/4`, as summed up. */
  ghost function AbsLogBase(): real {
    -LogSum(-0.75, 100)
  }

  lemma AbsLogBaseBounds()
    ensures 1.0 < AbsLogBase() < 1.49
  {
    LogIsNegative(0.75, LOG_TERMS);
    LogMagnitudeBounds(LOG_TERMS);
    PowPositive(0.75, LOG_TERMS + 1);
  }

  lemma GrowthAt(b: real)
    requires 1.0 < b < 1.49
    ensures Growth(b, 0) <= 1.0 && Growth(b, 1) <= 1.0 && Growth(b, 4) > 1.0
  {
    assert Pow(b, 1) == b;
    var b2 := b * b;
    assert Pow(b, 2) == b2;
    ProductMonotone(1.0, b, 1.0, b);
    ProductMonotone(b, 1.49, b, 1.49);
    assert 1.0 <= b2 <= 2.2201;
    var b4 := b2 * b2;
    PowAdd(b, 2, 2);
    ProductMonotone(b2, 2.2201, b2, 2.2201);
    ProductMonotone(1.0, b2, 1.0, b2);
    assert Pow(b, 5) == b * b4;
    ProductMonotone(b, 1.49, b4, 5.0);
    ProductMonotone(1.0, b, 1.0, b4);
    assert Factorial(0) == 1 && Factorial(1) == 1 && Factorial(2) == 2 && Factorial(3) == 6 && Factorial(4) == 24;
    AtMostOne(1.0, b);
    AtMostOne(1.0, b2);
    AboveOne(24.0, Pow(b, 5));
  }

  lemma AtMostOne(x: real, d: real)
    requires 0.0 < x <= d
    ensures x / d <= 1.0
  {
    QuotientAtMostOne(x, d);
  }

  lemma AboveOne(x: real, d: real)
    requires 0.0 < d < x
    ensures x / d > 1.0
  {
    var q := x / d;
    assert q * d == x;
    if q <= 1.0 { ProductMonotone(if q >= 0.0 then q else 0.0, 1.0, d, d); }
  }

  lemma PowTwoOrdered(m: nat, n: nat)
    requires m <= n
    ensures TwoTo(m) <= TwoTo(n)
    decreases n
  {
    if m < n { PowTwoOrdered(m, n - 1); }
  }

  /** At least two terms are always asked for: fewer never outgrow a power of two. */
  lemma TermsAtLeastTwo(b: real, k: nat)
    requires 1.0 < b < 1.49
    ensures TermsFrom(b, k, 0) >= 2
  {
    hide Growth, Pow;
    GrowthAt(b);
    PowTwoOrdered(0, k);
    assert TwoTo(0) == 1.0 by { PowZero(2.0); }
    var t := TermsFrom(b, k, 0);
    assert Growth(b, t) > 1.0;
    assert t != 0 && t != 1;
  }

  lemma PowZero(b: real)
    ensures Pow(b, 0) == 1.0
  {
  }

  /** For the base in use the search does not fall back to zeros. */
  lemma FeasibleAtZero(b: real)
    requires 1.0 < b < 1.49
    ensures Feasible(b, 0)
  {
    GrowthAt(b);
    var t := TermsFrom(b, 0, 0);
    assert Enough(b, 0, 4) by { PowZero(2.0); }
    assert t <= 4;
    var log := SmallLog(t + 1);
    assert Asks(b, 0, Params(log, t + 1, 0)) && Fits(Params(log, t + 1, 0));
  }

  lemma SmallLog(n: nat) returns (i: nat)
    requires 1 <= n <= 5
    ensures IsCeilLog2(n, i) && i <= 3 && n * i + i <= 18
  {
    assert TwoTo(0) == 1.0 && TwoTo(1) == 2.0 && TwoTo(2) == 4.0 && TwoTo(3) == 8.0;
    i := if n == 1 then 0 else if n == 2 then 1 else if n <= 4 then 2 else 3;
  }

  /** What the chosen parameters promise, for the base in use. */
  lemma ChosenParams(b: real, r: Params)
    requires 1.0 < b < 1.49 && Chosen(b, r)
    ensures Asks(b, r.k, r) && (r.terms + 1) * r.precision < SIZE_IN_BITS
    ensures r.terms >= 3 && r.terms as real * TwoTo(r.k) <= TwoTo(r.precision)
  {
    hide Feasible, Pow, TermsFrom;
    FeasibleAtZero(b);
    TermsAtLeastTwo(b, r.k);
    PowAdd(2.0, r.precision - r.k, r.k);
    ProductMonotone(r.terms as real, TwoTo(r.precision - r.k), TwoTo(r.k), TwoTo(r.k));
  }

  // ----- Evaluation

  /** `bigrational_as_fixed_point`, of a number that is not negative. */
  function FixedPoint(c: real, precision: nat): int {
    (c * TwoTo(precision)).Floor
  }

  /** The linear coefficient enters without its integer part. */
  function Fraction(b: real, x: nat): real {
    if x == 1 then Term(b, 1) - Term(b, 1).Floor as real else Term(b, x)
  }

  function Coefficient(b: real, x: nat, precision: nat): int {
    if x % 2 == 0 then -FixedPoint(Fraction(b, x), precision) else FixedPoint(Fraction(b, x), precision)
  }

  /** A coefficient read back as a number. */
  function Read(b: real, x: nat, precision: nat): real {
    Coefficient(b, x, precision) as real / TwoTo(precision)
  }

  ghost function FixedSum(b: real, y: real, precision: nat, m: nat): real {
    if m == 0 then 0.0 else FixedSum(b, y, precision, m - 1) + Pow(y, m) * Read(b, m, precision)
  }

  ghost function Whole(b: real, m: nat): real {
    if m == 0 then 0.0 else Term(b, 1).Floor as real
  }

  /** `a / b` rounded down to a multiple of `1 / s`. */
  function RoundedQuotient(s: real, a: real, b: real): real
    requires s > 0.0 && b > 0.0
  {
    FloorOver(s * a / b, s)
  }

  function FloorOver(z: real, s: real): real
    requires s > 0.0
  {
    z.Floor as real / s
  }

  /** The stake as a share of the currency, rounded down to the precision. */
  function Input(stake: nat, total: nat, precision: nat): real
    requires total > 0
  {
    RoundedQuotient(TwoTo(precision), stake as real, total as real)
  }

  ghost function ThresholdOf(b: real, r: Params, stake: nat, total: nat): real
    requires total > 0 && r.terms >= 1
  {
    Evaluated(b, Input(stake, total, r.precision), r)
  }

  ghost function Evaluated(b: real, y: real, r: Params): real
    requires r.terms >= 1
  {
    FixedSum(b, y, r.precision, r.terms - 1) + y * Whole(b, r.terms - 1)
  }

  datatype Threshold = Threshold(totalCurrency: nat, delegatedStake: nat, thresholdRational: real)

  /** `Threshold::new`. */
  method NewThreshold(delegatedStake: nat, totalCurrency: nat) returns (t: Threshold)
    requires totalCurrency > 0
    ensures t.totalCurrency == totalCurrency && t.delegatedStake == delegatedStake
    ensures exists r :: ComputedWith(t, AbsLogBase(), r)
  {
    hide *;
    var log := Log(LOG_TERMS, 1.0 - 0.75);
    var absLogBase := if log < 0.0 then -log else log;
    LogIs(log);
    var params := BitParams(absLogBase);
    ChosenParams(absLogBase, params);
    var input := Input(delegatedStake, totalCurrency, params.precision);
    var res := Evaluate(absLogBase, input, params);
    ThresholdIs(absLogBase, params, delegatedStake, totalCurrency);
    t := Threshold(totalCurrency, delegatedStake, res);
    ComputedIs(t, absLogBase, params);
  }

  /** The threshold is what the parameters chosen for the base give. */
  ghost predicate ComputedWith(t: Threshold, b: real, r: Params) {
    && 1.0 < b < 1.49 && Chosen(b, r) && r.terms >= 1 && t.totalCurrency > 0
    && t.thresholdRational == ThresholdOf(b, r, t.delegatedStake, t.totalCurrency)
  }

  lemma ComputedIs(t: Threshold, b: real, r: Params)
    requires 1.0 < b < 1.49 && Chosen(b, r) && r.terms >= 1 && t.totalCurrency > 0
    requires t.thresholdRational == ThresholdOf(b, r, t.delegatedStake, t.totalCurrency)
    ensures ComputedWith(t, b, r)
  {
    hide Chosen, ThresholdOf;
  }

  lemma LogIs(log: real)
    requires log == LogSum((1.0 - 0.75) - 1.0, LOG_TERMS)
    ensures -log == AbsLogBase() && 1.0 < AbsLogBase() < 1.49
  {
    hide LogSum;
    AbsLogBaseBounds();
    assert (1.0 - 0.75) - 1.0 == -0.75;
  }

  lemma ThresholdIs(b: real, r: Params, stake: nat, total: nat)
    requires total > 0 && r.terms >= 1
    ensures ThresholdOf(b, r, stake, total) == Evaluated(b, Input(stake, total, r.precision), r)
  {
    hide Evaluated, Input;
  }

  /** The fold over the coefficients; the first one leaves its integer part behind. */
  method Evaluate(b: real, input: real, r: Params) returns (res: real)
    requires r.terms >= 1
    ensures res == Evaluated(b, input, r)
  {
    hide TwoTo, Pow, Coefficient, Term, Read;
    var whole, xi := 0, 1.0;
    var acc := 0.0;
    PowZero(input);
    for x := 1 to r.terms
      invariant xi == Pow(input, x - 1) && acc == FixedSum(b, input, r.precision, x - 1)
      invariant whole as real == Whole(b, x - 1)
    {
      var coef;
      coef, whole := NextCoefficient(b, x, r.precision, whole);
      PowStep(input, x - 1);
      ReadIs(b, x, r.precision);
      xi := input * xi;
      acc := acc + xi * (coef as real / TwoTo(r.precision));
    }
    res := acc + input * whole as real;
  }

  /** The closure of the map: it also notes the integer part of the linear coefficient. */
  method NextCoefficient(b: real, x: nat, precision: nat, linearPart: int) returns (coef: int, whole: int)
    requires x >= 1
    ensures coef == Coefficient(b, x, precision) && whole == if x == 1 then Term(b, 1).Floor else linearPart
  {
    hide TwoTo, Pow;
    var f := ComputeFactorial(x);
    var c := Pow(b, x) / f as real;
    whole := linearPart;
    if x == 1 {
      whole := c.Floor;
      c := c - whole as real;
    }
    coef := if x % 2 == 0 then -FixedPoint(c, precision) else FixedPoint(c, precision);
  }

  lemma PowStep(b: real, n: nat)
    ensures Pow(b, n + 1) == b * Pow(b, n)
  {
  }

  lemma ReadIs(b: real, x: nat, precision: nat)
    ensures TwoTo(precision) > 0.0 && Read(b, x, precision) == Coefficient(b, x, precision) as real / TwoTo(precision)
  {
  }

  // ----- Accuracy

  lemma FloorScaled(c: real, s: real)
    requires s > 0.0
    ensures -1.0 < s * ((c * s).Floor as real / s - c) <= 0.0
  {
    var f := (c * s).Floor as real;
    var q := f / s;
    assert q * s == f;
    assert s * (q - c) == f - c * s;
  }

  /** A coefficient is off by less than one unit of the precision. */
  lemma CoefficientError(b: real, x: nat, precision: nat)
    ensures -1.0 <= TwoTo(precision) * (Read(b, x, precision) - Sign(x) * Fraction(b, x)) <= 1.0
  {
    hide TwoTo, Pow, Fraction;
    var s, c := TwoTo(precision), Fraction(b, x);
    FloorScaled(c, s);
    var q := FixedPoint(c, precision) as real / s;
    if x % 2 == 0 {
      NegatedFraction(FixedPoint(c, precision) as real, s);
      assert s * (-q + c) == -(s * (q - c));
    }
  }

  lemma NegatedFraction(x: real, s: real)
    requires s != 0.0
    ensures (-x) / s == -(x / s)
  {
  }

  lemma ScaledDown(w: real, s: real, z: real)
    requires 0.0 <= w <= 1.0 && -1.0 <= s * z <= 1.0
    ensures -1.0 <= s * (w * z) <= 1.0
  {
    var v := s * z;
    assert s * (w * z) == w * v;
    if v >= 0.0 {
      ProductMonotone(w, 1.0, v, 1.0);
    } else {
      ProductMonotone(w, 1.0, -v, 1.0);
      assert w * (-v) == -(w * v);
    }
  }

  /** The error that one more term brings. */
  ghost function TermGap(b: real, y: real, x: nat, precision: nat): real {
    Pow(y, x) * Read(b, x, precision) + (if x == 1 then y * Whole(b, 1) else 0.0) - Sign(x) * Part(b, y, x)
  }

  /** It is at most one unit. */
  lemma TermError(b: real, y: real, x: nat, precision: nat)
    requires x >= 1 && 0.0 <= y <= 1.0
    ensures -1.0 <= TwoTo(precision) * TermGap(b, y, x, precision) <= 1.0
  {
    hide Read, Pow, Term;
    CoefficientError(b, x, precision);
    PowUnit(y, x);
    var w, z := Pow(y, x), Read(b, x, precision) - Sign(x) * Fraction(b, x);
    ScaledDown(w, TwoTo(precision), z);
    if x == 1 {
      PowZero(y);
      PowStep(y, 0);
      LinearSplit(y, Read(b, 1, precision), Term(b, 1), Term(b, 1).Floor as real);
    } else {
      SignedSplit(w, Read(b, x, precision), Sign(x), Term(b, x));
    }
  }

  lemma LinearSplit(y: real, read: real, c: real, whole: real)
    ensures y * read + y * whole - c * y == y * (read - (c - whole))
  {
  }

  lemma SignedSplit(w: real, read: real, sign: real, c: real)
    ensures w * read - sign * (c * w) == w * (read - sign * c)
  {
  }

  lemma SumOfErrors(s: real, e: real, d: real, m: real)
    requires -m <= s * e <= m && -1.0 <= s * d <= 1.0
    ensures -(m + 1.0) <= s * (e + d) <= m + 1.0
  {
    assert s * (e + d) == s * e + s * d;
  }

  /** How far the fixed-point sum is from the polynomial with exact coefficients. */
  ghost function FixedGap(b: real, y: real, precision: nat, m: nat): real {
    FixedSum(b, y, precision, m) + y * Whole(b, m) - Taylor(b, y, m)
  }

  lemma FixedGapIs(b: real, y: real, precision: nat, m: nat)
    ensures FixedGap(b, y, precision, m)
         == if m == 0 then 0.0 else FixedGap(b, y, precision, m - 1) + TermGap(b, y, m, precision)
  {
    hide Read, Pow, Term, Part, Sign;
  }

  /** `m` terms in fixed point are off by at most `m` units of the precision. */
  lemma {:induction false} FixedError(b: real, y: real, precision: nat, m: nat)
    requires 0.0 <= y <= 1.0
    ensures -(m as real) <= TwoTo(precision) * FixedGap(b, y, precision, m) <= m as real
  {
    hide *;
    FixedGapIs(b, y, precision, m);
    if m > 0 {
      FixedError(b, y, precision, m - 1);
      TermError(b, y, m, precision);
      SumOfErrors(TwoTo(precision), FixedGap(b, y, precision, m - 1), TermGap(b, y, m, precision), (m - 1) as real);
    }
  }

  lemma Reciprocals(f: real, p: real, n: real)
    requires f > 0.0 && p > 0.0 && n > 0.0
    ensures n * f > 0.0 && (n * (p / (n * f))) * (f / p) == 1.0
  {
    var x, y := p / (n * f), f / p;
    assert x * (n * f) == p && y * p == f;
    assert ((n * x) * y) * p == (n * x) * (y * p);
    assert (n * x) * f == x * (n * f);
  }

  /** The first term left out, `n` times. */
  ghost function TimesTerm(b: real, n: nat): real {
    n as real * Term(b, n)
  }

  /** It is small: that is what the number of terms was searched for. */
  lemma OmittedTerm(b: real, k: nat, t: nat)
    requires b > 0.0 && Enough(b, k, t)
    ensures BelowUnit(TimesTerm(b, t + 1), TwoTo(k))
  {
    hide Growth, TimesTerm, BelowUnit;
    TermTimesGrowth(b, t);
    BelowOne(TimesTerm(b, t + 1), TwoTo(k), Growth(b, t));
  }

  ghost predicate BelowUnit(x: real, scale: real) {
    x * scale < 1.0
  }

  lemma BelowOne(z: real, p: real, g: real)
    requires z > 0.0 && p < g && z * g == 1.0
    ensures BelowUnit(z, p)
  {
    var pz, gz := p * z, g * z;
    StrictScale(p, g, z);
    assert pz < gz == 1.0 && pz == z * p;
  }

  lemma TermIs(b: real, t: nat)
    ensures (t + 1) as real * Factorial(t) as real > 0.0
    ensures Term(b, t + 1) == Pow(b, t + 1) / ((t + 1) as real * Factorial(t) as real)
  {
    hide TwoTo, Pow;
    assert Factorial(t + 1) as real == (t + 1) as real * Factorial(t) as real;
  }

  lemma TermTimesGrowth(b: real, t: nat)
    requires b > 0.0
    ensures TimesTerm(b, t + 1) > 0.0 && TimesTerm(b, t + 1) * Growth(b, t) == 1.0
  {
    hide Growth, Term;
    GrowthIs(b, t);
    TermPositive(b, t + 1);
    ProductPositive((t + 1) as real, Term(b, t + 1));
    TermIs(b, t);
    Reciprocals(Factorial(t) as real, Pow(b, t + 1), (t + 1) as real);
  }

  /** `x` and `y` differ by less than `1 / scale`. */
  ghost predicate Close(x: real, y: real, scale: real) {
    -1.0 < (x - y) * scale < 1.0
  }

  /** Both errors together stay below `2^-k`. */
  lemma ErrorsCombine(fixedGap: real, omitted: real, term: real, timesTerm: real, n: real, s: real, p: real)
    requires n >= 1.0 && p > 0.0 && s >= n * p
    requires -(n - 1.0) <= s * fixedGap <= n - 1.0
    requires -term <= omitted <= term && timesTerm == n * term && BelowUnit(timesTerm, p)
    ensures Close(fixedGap, omitted, p)
  {
    var np := n * p;
    ProductPositive(n, p);
    SmallerScale(fixedGap, s, np, n - 1.0);
    ProductMonotoneSigned(np, omitted, term);
    ProductMonotoneSigned(np, -term, omitted);
    Regroup(n, term, p);
    Regroup(n, fixedGap - omitted, p);
    CloseToZero(np * fixedGap, np * omitted, timesTerm * p, n, (fixedGap - omitted) * p);
  }

  lemma Regroup(n: real, x: real, p: real)
    ensures (n * p) * x == (n * x) * p == n * (x * p)
  {
  }

  lemma CloseToZero(e: real, o: real, u: real, n: real, x: real)
    requires n >= 1.0 && u < 1.0 && -(n - 1.0) <= e <= n - 1.0 && -u <= o <= u && e - o == n * x
    ensures -1.0 < x < 1.0
  {
    if x >= 1.0 { ProductMonotone(n, n, 1.0, x); }
    if x <= -1.0 { ProductMonotone(n, n, 1.0, -x); }
  }

  lemma ProductMonotoneSigned(c: real, x: real, y: real)
    requires c >= 0.0 && x <= y
    ensures c * x <= c * y
  {
  }

  lemma SmallerScale(e: real, s: real, np: real, m: real)
    requires 0.0 < np <= s && m >= 0.0 && -m <= s * e <= m
    ensures -m <= np * e <= m
  {
    if e >= 0.0 { ProductMonotone(np, s, e, e); } else {
      ProductMonotone(np, s, -e, -e);
      assert np * (-e) == -(np * e) && s * (-e) == -(s * e);
    }
  }

  /** The input lies in the unit interval and within one unit of precision below the true share. */
  lemma InputIs(stake: nat, total: nat, precision: nat)
    requires 0 < total && stake <= total
    ensures 0.0 <= Input(stake, total, precision) <= 1.0
    ensures RoundedDown(Input(stake, total, precision), stake as real / total as real, TwoTo(precision))
  {
    RoundedShare(TwoTo(precision), stake as real, total as real);
    hide RoundedQuotient, RoundedDown, TwoTo;
  }

  /** `x` is at most `y`, and by less than `1 / scale`. */
  ghost predicate RoundedDown(x: real, y: real, scale: real) {
    0.0 <= (y - x) * scale < 1.0
  }

  lemma RoundedShare(s: real, a: real, b: real)
    requires 0.0 <= a <= b && b > 0.0 && s > 0.0
    ensures 0.0 <= RoundedQuotient(s, a, b) <= 1.0 && RoundedDown(RoundedQuotient(s, a, b), a / b, s)
  {
    hide RoundedDown, FloorOver;
    var share, z := a / b, s * a / b;
    assert RoundedQuotient(s, a, b) == FloorOver(z, s);
    hide RoundedQuotient;
    ShareInUnit(a, b);
    assert z == s * share;
    RoundedUnit(s, share, z);
  }

  lemma RoundedUnit(s: real, share: real, z: real)
    requires 0.0 <= share <= 1.0 && s > 0.0 && z == s * share
    ensures 0.0 <= FloorOver(z, s) <= 1.0 && RoundedDown(FloorOver(z, s), share, s)
  {
    ScaledShare(s, share, z);
    var f := z.Floor as real;
    ShareInUnit(f, s);
    QuotientTimes(f, s);
    ScaledDifference(share, FloorOver(z, s), s, z, f);
  }

  lemma ScaledShare(s: real, share: real, z: real)
    requires 0.0 <= share <= 1.0 && s > 0.0 && z == s * share
    ensures 0.0 <= z <= s && share * s == z
  {
    ProductMonotone(share, 1.0, s, s);
  }

  lemma QuotientTimes(f: real, s: real)
    requires s > 0.0
    ensures (f / s) * s == f
  {
  }

  lemma ScaledDifference(x: real, y: real, s: real, z: real, f: real)
    requires x * s == z && y * s == f
    ensures (x - y) * s == z - f
  {
    assert (x - y) * s == x * s - y * s;
  }

  lemma ShareInUnit(a: real, b: real)
    requires 0.0 <= a <= b && b > 0.0
    ensures 0.0 <= a / b <= 1.0
  {
    if a > 0.0 { QuotientAtMostOne(a, b); }
  }

  /**
   The threshold is within `2^-k` of every Taylor polynomial of `1 - exp(-b * input)` that has
   at least as many terms: rounding the coefficients and leaving out the higher terms together
   stay below the precision that was searched for.
   */
  lemma ThresholdIsAccurate(t: Threshold, b: real, r: Params, m: nat)
    requires ComputedWith(t, b, r) && t.delegatedStake <= t.totalCurrency && m + 1 >= r.terms
    ensures Close(t.thresholdRational, Taylor(b, Input(t.delegatedStake, t.totalCurrency, r.precision), m), TwoTo(r.k))
  {
    var stake, total := t.delegatedStake, t.totalCurrency;
    assert 1.0 < b < 1.49 && Chosen(b, r) && r.terms >= 1 && t.thresholdRational == ThresholdOf(b, r, stake, total);
    hide *;
    ChosenParams(b, r);
    InputIs(stake, total, r.precision);
    ThresholdIs(b, r, stake, total);
    AccurateAt(b, Input(stake, total, r.precision), r, m);
  }

  /** Less than `bound` apart. */
  ghost predicate Within(x: real, y: real, bound: real) {
    -bound < x - y < bound
  }

  /** `2^-n`. */
  ghost function Unit(n: nat): real {
    Pow(0.5, n)
  }

  lemma {:induction false} UnitIs(n: nat)
    ensures Unit(n) > 0.0 && Unit(n) * TwoTo(n) == 1.0
  {
    if n > 0 {
      UnitIs(n - 1);
      var u, p := Unit(n - 1), TwoTo(n - 1);
      assert Unit(n) == 0.5 * u && TwoTo(n) == 2.0 * p;
      assert (0.5 * u) * (2.0 * p) == u * p;
    }
  }

  /** `2^-k + b * 2^-precision`. */
  ghost function ShareBound(b: real, r: Params): real {
    Unit(r.k) + b * Unit(r.precision)
  }

  /**
   At the true share: rounding the share down adds at most `b` units of precision, and the precision
   is fine enough that both errors together stay below one and a half times `2^-k`.
   */
  lemma ThresholdAtShare(t: Threshold, b: real, r: Params, m: nat)
    requires ComputedWith(t, b, r) && t.delegatedStake <= t.totalCurrency && m + 1 >= r.terms
    ensures var share := t.delegatedStake as real / t.totalCurrency as real;
      Within(t.thresholdRational, Taylor(b, share, m), ShareBound(b, r))
    ensures ShareBound(b, r) < 1.5 * Unit(r.k)
  {
    var stake, total := t.delegatedStake, t.totalCurrency;
    assert 1.0 < b < 1.49 && Chosen(b, r) && total > 0;
    hide *;
    ThresholdIsAccurate(t, b, r, m);
    ChosenParams(b, r);
    FineEnough(b, r);
    InputIs(stake, total, r.precision);
    ShareInUnit(stake as real, total as real);
    var input, share, error := Input(stake, total, r.precision), stake as real / total as real, b * Unit(r.precision);
    MovedToShare(t.thresholdRational, b, input, share, r.k, r.precision, m, error);
    ShareBoundIs(b, r, error);
  }

  lemma MovedToShare(
      x: real, b: real, input: real, share: real, k: nat, precision: nat, m: nat, error: real)
    requires 1.0 < b < 1.49 && 0.0 <= input && share <= 1.0 && RoundedDown(input, share, TwoTo(precision))
    requires Close(x, Taylor(b, input, m), TwoTo(k)) && error == b * Unit(precision)
    ensures Within(x, Taylor(b, share, m), Unit(k) + error)
  {
    hide *;
    UnitIs(k);
    UnitIs(precision);
    RoundedDownIs(input, share, TwoTo(precision), Unit(precision));
    Unscaled(x, Taylor(b, input, m), TwoTo(k), Unit(k));
    ShareMoves(b, input, share, m, Unit(precision), error);
    WithinAdds(x, Taylor(b, input, m), Taylor(b, share, m), Unit(k), error);
  }

  lemma ShareBoundIs(b: real, r: Params, error: real)
    requires error == b * Unit(r.precision)
    ensures ShareBound(b, r) == Unit(r.k) + error
  {
    hide Unit;
  }

  lemma LessIfScaled(d: real, e: real, s: real)
    requires s > 0.0 && d * s < e * s
    ensures d < e
  {
    if d >= e { ScaleUp(e, d, s); }
  }

  lemma RoundedDownIs(x: real, y: real, s: real, u: real)
    requires RoundedDown(x, y, s) && s > 0.0 && u * s == 1.0
    ensures 0.0 <= y - x < u
  {
    LessIfScaled(y - x, u, s);
    if y - x < 0.0 { StrictScale(y - x, 0.0, s); }
  }

  lemma Unscaled(x: real, y: real, s: real, u: real)
    requires Close(x, y, s) && s > 0.0 && u * s == 1.0
    ensures Within(x, y, u)
  {
    var d := x - y;
    LessIfScaled(d, u, s);
    assert (-d) * s == -(d * s);
    LessIfScaled(-d, u, s);
  }

  lemma ShareMoves(b: real, x: real, y: real, m: nat, u: real, error: real)
    requires 1.0 < b < 1.49 && 0.0 <= x <= y <= 1.0 && y - x < u && error == b * u
    ensures Within(Taylor(b, x, m), Taylor(b, y, m), error)
  {
    hide Taylor;
    SlopeAtMost(b, x, y, m);
    var d := y - x;
    StrictScaleLeft(b, d, u);
    var most := b * d;
    assert -most <= Taylor(b, y, m) - Taylor(b, x, m) <= most < error;
  }

  lemma StrictScaleLeft(b: real, d: real, u: real)
    requires b > 0.0 && d < u
    ensures b * d < b * u
  {
  }

  lemma WithinAdds(x: real, y: real, z: real, e: real, f: real)
    requires Within(x, y, e) && Within(y, z, f)
    ensures Within(x, z, e + f)
  {
  }

  lemma FineEnough(b: real, r: Params)
    requires 1.0 < b < 1.49 && r.terms >= 3 && r.terms as real * TwoTo(r.k) <= TwoTo(r.precision)
    ensures ShareBound(b, r) < 1.5 * Unit(r.k)
  {
    var p, s, u, v := TwoTo(r.k), TwoTo(r.precision), Unit(r.k), Unit(r.precision);
    hide TwoTo, Unit;
    UnitIs(r.k);
    UnitIs(r.precision);
    var np, q := r.terms as real * p, 3.0 * p;
    assert q <= np <= s by { ProductMonotone(3.0, r.terms as real, p, p); }
    ThirdAtMost(p, s, u, v, q);
    var error := b * v;
    assert error < 1.49 * v by { StrictScale(b, 1.49, v); }
  }

  lemma ThirdAtMost(p: real, s: real, u: real, v: real, q: real)
    requires p > 0.0 && s >= q && q == 3.0 * p && u * p == 1.0 && v * s == 1.0 && v > 0.0
    ensures 3.0 * v <= u
  {
    var w, vq := 3.0 * v, v * q;
    assert vq <= 1.0 by { ProductMonotone(v, v, q, s); }
    var wp := w * p;
    assert wp == vq by { Threefold(v, p); }
    LessIfScaledWeak(w, u, p, wp, 1.0);
  }

  lemma LessIfScaledWeak(d: real, e: real, s: real, ds: real, es: real)
    requires s > 0.0 && ds == d * s && es == e * s && ds <= es
    ensures d <= e
  {
    if d > e { StrictScale(e, d, s); }
  }

  lemma Threefold(v: real, p: real)
    ensures (3.0 * v) * p == v * (3.0 * p)
  {
  }

  lemma AccurateAt(b: real, y: real, r: Params, m: nat)
    requires 1.0 < b < 1.49 && Asks(b, r.k, r) && r.terms >= 3 && 0.0 <= y <= 1.0 && m + 1 >= r.terms
    requires r.terms as real * TwoTo(r.k) <= TwoTo(r.precision)
    ensures Close(Evaluated(b, y, r), Taylor(b, y, m), TwoTo(r.k))
  {
    hide TwoTo, Pow, FixedSum, Taylor, Tail, Part, Term, Growth, IsCeilLog2, Whole, BelowUnit;
    var n := r.terms;
    var t := n - 1;
    FixedError(b, y, r.precision, t);
    TaylorTail(b, y, t, m - t);
    TailBound(b, y, t, m - t);
    PartAtMostTerm(b, y, n);
    OmittedTerm(b, r.k, t);
    var omitted := Tail(b, y, t, m - t);
    assert -Term(b, n) <= omitted <= Term(b, n);
    assert TimesTerm(b, n) == n as real * Term(b, n);
    var gap := FixedGap(b, y, r.precision, t);
    ErrorsCombine(gap, omitted, Term(b, n), TimesTerm(b, n), n as real, TwoTo(r.precision), TwoTo(r.k));
  }

  // ----- Winning a slot

  /** `get_fractional`: the output over `2^253`. */
  function Fractional(vrfOut: nat): real {
    vrfOut as real / TwoTo(253)
  }

  predicate ThresholdMet(t: Threshold, vrfOut: nat) {
    Fractional(vrfOut) <= t.thresholdRational
  }

  lemma {:induction false} NothingAtZero(b: real, precision: nat, m: nat)
    ensures FixedSum(b, 0.0, precision, m) == 0.0
  {
    hide Read;
    if m > 0 {
      NothingAtZero(b, precision, m - 1);
      PowStep(0.0, m - 1);
    }
  }

  lemma InputAtZero(total: nat, precision: nat)
    requires total > 0
    ensures Input(0, total, precision) == 0.0
  {
    hide TwoTo;
  }

  /** Without stake no slot is won, except on the output zero. */
  lemma NoStakeNoSlot(b: real, r: Params, total: nat, vrfOut: nat)
    requires total > 0 && r.terms >= 1
    ensures ThresholdMet(Threshold(total, 0, ThresholdOf(b, r, 0, total)), vrfOut) <==> vrfOut == 0
  {
    hide Input, FixedSum, TwoTo, Whole;
    InputAtZero(total, r.precision);
    NothingAtZero(b, r.precision, r.terms - 1);
    if vrfOut > 0 { QuotientPositive(vrfOut as real, TwoTo(253)); }
  }
}
