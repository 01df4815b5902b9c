/** Powers, factorials and the alternating series behind the VRF threshold, over the reals. */
module Series {

  function Pow(b: real, n: nat): real {
    if n == 0 then 1.0 else b * Pow(b, n - 1)
  }

  function Factorial(n: nat): (f: nat)
    ensures f >= 1
  {
    if n == 0 then 1 else n * Factorial(n - 1)
  }

  // ----- Products of reals

  lemma ProductPositive(a: real, b: real)
    requires a > 0.0 && b > 0.0
    ensures a * b > 0.0
  {
  }

  lemma ProductMonotone(a: real, b: real, c: real, d: real)
    requires 0.0 <= a <= b && 0.0 <= c <= d
    ensures 0.0 <= a * c <= b * d
  {
    assert a * c <= a * d;
    assert a * d <= b * d;
  }

  lemma QuotientPositive(a: real, b: real)
    requires a > 0.0 && b > 0.0
    ensures a / b > 0.0
  {
    assert (a / b) * b == a;
  }

  lemma {:induction false} PowPositive(b: real, n: nat)
    requires b > 0.0
    ensures Pow(b, n) > 0.0
  {
    if n > 0 { PowPositive(b, n - 1); }
  }

  lemma {:induction false} PowUnit(b: real, n: nat)
    requires 0.0 <= b <= 1.0
    ensures 0.0 <= Pow(b, n) <= 1.0
  {
    if n > 0 {
      PowUnit(b, n - 1);
      ProductMonotone(b, 1.0, Pow(b, n - 1), 1.0);
    }
  }

  lemma {:induction false} PowTwoAbove(n: nat)
    ensures Pow(2.0, n) >= n as real + 1.0
  {
    if n > 0 { PowTwoAbove(n - 1); }
  }

  lemma {:induction false} PowAdd(b: real, m: nat, n: nat)
    ensures Pow(b, m + n) == Pow(b, m) * Pow(b, n)
  {
    if m > 0 {
      PowAdd(b, m - 1, n);
      assert Pow(b, m + n) == b * Pow(b, m - 1 + n);
      ProductAssociates(b, Pow(b, m - 1), Pow(b, n));
    }
  }

  lemma ProductAssociates(a: real, b: real, c: real)
    ensures a * (b * c) == (a * b) * c
  {
  }

  // ----- Factorials outgrow powers

  /** `n! / b^(n+1)`. */
  ghost function Growth(b: real, n: nat): real
    requires b > 0.0
  {
    PowPositive(b, n + 1);
    Factorial(n) as real / Pow(b, n + 1)
  }

  lemma GrowthPositive(b: real, n: nat)
    requires b > 0.0
    ensures Growth(b, n) > 0.0
  {
    PowPositive(b, n + 1);
    QuotientPositive(Factorial(n) as real, Pow(b, n + 1));
  }

  lemma QuotientOfProducts(a: real, b: real, c: real, d: real)
    requires b != 0.0 && d != 0.0
    ensures b * d != 0.0 && (a * c) / (b * d) == (a / b) * (c / d)
  {
    var x, y := a / b, c / d;
    assert x * b == a && y * d == c;
    assert (x * y) * (b * d) == (x * b) * (y * d);
  }

  lemma GrowthStep(b: real, n: nat)
    requires b > 0.0
    ensures Growth(b, n + 1) == ((n + 1) as real / b) * Growth(b, n)
  {
    PowPositive(b, n + 1);
    assert Factorial(n + 1) as real == (n + 1) as real * Factorial(n) as real;
    QuotientOfProducts((n + 1) as real, b, Factorial(n) as real, Pow(b, n + 1));
    assert Pow(b, n + 2) == b * Pow(b, n + 1);
  }

  lemma QuotientAtLeast(a: real, b: real, c: real)
    requires b > 0.0 && a >= c * b
    ensures a / b >= c
  {
    var q := a / b;
    assert q * b == a;
    if q < c { StrictScale(q, c, b); }
  }

  /** From `n >= 2b` on, every step at least doubles. */
  lemma GrowthDoubles(b: real, n: nat)
    requires b > 0.0 && n as real >= 2.0 * b
    ensures Growth(b, n + 1) >= 2.0 * Growth(b, n)
  {
    GrowthStep(b, n);
    GrowthPositive(b, n);
    QuotientAtLeast((n + 1) as real, b, 2.0);
    ProductMonotone(2.0, (n + 1) as real / b, Growth(b, n), Growth(b, n));
  }

  lemma DoubleOf(x: real, y: real, p: real, g: real)
    requires x >= 2.0 * y && y >= p * g
    ensures x >= (2.0 * p) * g
  {
    ProductAssociates(2.0, p, g);
  }

  lemma {:induction false} GrowthAfter(b: real, n: nat, j: nat)
    requires b > 0.0 && n as real >= 2.0 * b
    ensures Growth(b, n + j) >= Pow(2.0, j) * Growth(b, n)
  {
    hide Growth;
    if j > 0 {
      GrowthAfter(b, n, j - 1);
      GrowthDoubles(b, n + j - 1);
      DoubleOf(Growth(b, n + j), Growth(b, n + j - 1), Pow(2.0, j - 1), Growth(b, n));
    }
  }

  /** A natural number that is at least `r`. */
  ghost function CeilingOf(r: real): (n: nat)
    requires r >= 0.0
    ensures n as real >= r
  {
    r.Floor + 1
  }

  /** An index by which the growth has passed `bound`. */
  ghost function GrowthWitness(b: real, bound: real): nat
    requires b > 0.0 && bound > 0.0
  {
    var n := CeilingOf(2.0 * b);
    GrowthPositive(b, n);
    QuotientPositive(bound, Growth(b, n));
    n + CeilingOf(bound / Growth(b, n))
  }

  lemma GrowthUnbounded(b: real, bound: real)
    requires b > 0.0 && bound > 0.0
    ensures Growth(b, GrowthWitness(b, bound)) > bound
  {
    hide Growth, Pow;
    var n := CeilingOf(2.0 * b);
    GrowthPositive(b, n);
    var q := bound / Growth(b, n);
    QuotientPositive(bound, Growth(b, n));
    var j := CeilingOf(q);
    PowTwoAbove(j);
    GrowthAfter(b, n, j);
    StrictScale(q, Pow(2.0, j), Growth(b, n));
    assert q * Growth(b, n) == bound;
  }

  lemma StrictScale(x: real, y: real, g: real)
    requires x < y && g > 0.0
    ensures x * g < y * g
  {
  }

  // ----- The Taylor polynomials of 1 - exp(-b*y)

  /** `b^n / n!`. */
  function Term(b: real, n: nat): real {
    Pow(b, n) / Factorial(n) as real
  }

  function Sign(n: nat): real {
    if n % 2 == 0 then -1.0 else 1.0
  }

  function Taylor(b: real, y: real, m: nat): real {
    if m == 0 then 0.0 else Taylor(b, y, m - 1) + Sign(m) * Part(b, y, m)
  }

  function Part(b: real, y: real, n: nat): real {
    Term(b, n) * Pow(y, n)
  }

  lemma TermStep(b: real, n: nat)
    ensures Term(b, n + 1) == (b / (n + 1) as real) * Term(b, n)
  {
    assert Factorial(n + 1) as real == (n + 1) as real * Factorial(n) as real;
    QuotientOfProducts(b, (n + 1) as real, Pow(b, n), Factorial(n) as real);
  }

  lemma {:induction false} TermPositive(b: real, n: nat)
    requires b > 0.0
    ensures Term(b, n) > 0.0
  {
    PowPositive(b, n);
    QuotientPositive(Pow(b, n), Factorial(n) as real);
  }

  lemma QuotientAtMostOne(a: real, b: real)
    requires 0.0 < a <= b
    ensures 0.0 < a / b <= 1.0
  {
    QuotientPositive(a, b);
    var q := a / b;
    assert q * b == a;
    if q > 1.0 { StrictScale(1.0, q, b); }
  }

  /** The parts shrink once the degree has passed the base. */
  lemma PartShrinks(b: real, y: real, n: nat)
    requires 0.0 < b <= (n + 1) as real && 0.0 <= y <= 1.0
    ensures 0.0 <= Part(b, y, n + 1) <= Part(b, y, n)
  {
    TermPositive(b, n);
    PowUnit(y, n);
    TermStep(b, n);
    QuotientAtMostOne(b, (n + 1) as real);
    var q := b / (n + 1) as real;
    ProductMonotone(q, 1.0, Term(b, n), Term(b, n));
    ProductMonotone(y, 1.0, Pow(y, n), Pow(y, n));
    ProductMonotone(Term(b, n + 1), Term(b, n), Pow(y, n + 1), Pow(y, n));
  }

  lemma PartAtMostTerm(b: real, y: real, n: nat)
    requires b > 0.0 && 0.0 <= y <= 1.0
    ensures 0.0 <= Part(b, y, n) <= Term(b, n)
  {
    TermPositive(b, n);
    PowUnit(y, n);
    ProductMonotone(Term(b, n), Term(b, n), Pow(y, n), 1.0);
  }

  /** The parts of degrees `m + 1` to `m + j`. */
  ghost function Tail(b: real, y: real, m: nat, j: nat): real
    decreases j
  {
    if j == 0 then 0.0 else Sign(m + 1) * Part(b, y, m + 1) + Tail(b, y, m + 1, j - 1)
  }

  lemma {:induction false} TaylorTail(b: real, y: real, m: nat, j: nat)
    ensures Taylor(b, y, m + j) == Taylor(b, y, m) + Tail(b, y, m, j)
    decreases j
  {
    if j > 0 { TaylorTail(b, y, m + 1, j - 1); }
  }

  /** An alternating tail of shrinking parts is at most its first part. */
  lemma {:induction false} TailBound(b: real, y: real, m: nat, j: nat)
    requires 0.0 < b <= (m + 2) as real && 0.0 <= y <= 1.0
    ensures 0.0 <= Sign(m + 1) * Tail(b, y, m, j) <= Part(b, y, m + 1)
    decreases j
  {
    PartAtMostTerm(b, y, m + 1);
    if j > 0 {
      TailBound(b, y, m + 1, j - 1);
      PartShrinks(b, y, m + 1);
      assert Sign(m + 2) == -Sign(m + 1);
    }
  }
}
