/** How much a Taylor polynomial of `1 - exp(-b*y)` can differ between two points of the unit interval. */
module Slopes {
  import opened Series

  /** `(y^n - x^n) / (y - x)`. */
  ghost function PowerSum(x: real, y: real, n: nat): real {
    if n == 0 then 0.0 else y * PowerSum(x, y, n - 1) + Pow(x, n - 1)
  }

  lemma PowerSumStep(x: real, y: real, n: nat)
    ensures PowerSum(x, y, n + 1) == y * PowerSum(x, y, n) + Pow(x, n)
    ensures Pow(x, n + 1) == x * Pow(x, n)
  {
  }

  lemma DifferenceStep(x: real, y: real, p: real, q: real, s: real)
    requires p - q == (y - x) * s
    ensures y * p - x * q == (y - x) * (y * s + q)
  {
    assert y * p - x * q == y * (p - q) + (y - x) * q;
    assert y * ((y - x) * s) == (y - x) * (y * s);
  }

  lemma {:induction false} PowerDifference(x: real, y: real, n: nat)
    ensures Pow(y, n) - Pow(x, n) == (y - x) * PowerSum(x, y, n)
  {
    if n > 0 {
      PowerDifference(x, y, n - 1);
      DifferenceStep(x, y, Pow(y, n - 1), Pow(x, n - 1), PowerSum(x, y, n - 1));
    }
  }

  ghost predicate AtLeastTimes(s: real, n: real, p: real) {
    s >= n * p && s >= 0.0
  }

  /** `s'` is at most `(n + 1) / n` times `s`. */
  ghost predicate GrowsAtMost(n: real, s: real, s': real) {
    n * s' <= (n + 1.0) * s
  }

  /** `r'` is at most `b / n` times `r`. */
  ghost predicate RatioAtMost(b: real, n: real, r: real, r': real) {
    n * r' <= b * r
  }

  lemma SumStep(x: real, y: real, n: real, p: real, p': real, s: real, s': real)
    requires 0.0 <= x <= y <= 1.0 && n >= 1.0 && p >= 0.0 && AtLeastTimes(s, n - 1.0, p)
    requires p' == x * p && s' == y * s + p
    ensures AtLeastTimes(s', n, p')
  {
    var t, tp, np := (n - 1.0) * p, (n - 1.0) * p', n * p';
    assert 0.0 <= t by { ProductMonotone(0.0, n - 1.0, 0.0, p); }
    var xt, ys := x * t, y * s;
    assert 0.0 <= xt <= ys by { ProductMonotone(x, y, t, s); }
    assert p' <= p by { ProductMonotone(x, 1.0, p, p); }
    assert xt == tp by { Reordered(x, n - 1.0, p); }
    assert np == tp + p' by { OneMore(n, p'); }
  }

  lemma Reordered(x: real, n: real, p: real)
    ensures x * (n * p) == n * (x * p)
  {
  }

  lemma OneMore(n: real, p: real)
    ensures n * p == (n - 1.0) * p + p
  {
  }

  lemma {:induction false} SumAtLeast(x: real, y: real, n: nat)
    requires 0.0 <= x <= y <= 1.0
    ensures AtLeastTimes(PowerSum(x, y, n), n as real, Pow(x, n))
  {
    hide Pow;
    if n == 0 {
      assert PowerSum(x, y, n) == 0.0;
    } else {
      hide AtLeastTimes, PowerSum;
      SumAtLeast(x, y, n - 1);
      PowUnit(x, n - 1);
      PowerSumStep(x, y, n - 1);
      SumStep(x, y, n as real, Pow(x, n - 1), Pow(x, n), PowerSum(x, y, n - 1), PowerSum(x, y, n));
    }
  }

  lemma GrowStep(y: real, k: real, p: real, s: real, s': real)
    requires 0.0 <= y <= 1.0 && k >= 0.0 && AtLeastTimes(s, k, p) && s' == y * s + p
    ensures GrowsAtMost(k, s, s')
  {
    var z := y * s;
    ProductMonotone(y, 1.0, s, s);
    ProductMonotone(k, k, z, s);
    assert k * (z + p) == k * z + k * p;
    assert (k + 1.0) * s == k * s + s;
  }

  lemma SumGrows(x: real, y: real, n: nat)
    requires 0.0 <= x <= y <= 1.0
    ensures GrowsAtMost(n as real, PowerSum(x, y, n), PowerSum(x, y, n + 1))
  {
    hide *;
    SumAtLeast(x, y, n);
    PowerSumStep(x, y, n);
    GrowStep(y, n as real, Pow(x, n), PowerSum(x, y, n), PowerSum(x, y, n + 1));
  }

  /** By how much the part of degree `n` grows from `x` to `y`. */
  ghost function Rise(b: real, x: real, y: real, n: nat): real {
    Part(b, y, n) - Part(b, x, n)
  }

  lemma RiseIs(b: real, x: real, y: real, n: nat)
    ensures Rise(b, x, y, n) == (Term(b, n) * (y - x)) * PowerSum(x, y, n)
  {
    PowerDifference(x, y, n);
    hide Term, Pow, PowerSum;
    var t, d, s := Term(b, n), y - x, PowerSum(x, y, n);
    assert t * Pow(y, n) - t * Pow(x, n) == t * (Pow(y, n) - Pow(x, n));
    ProductAssociates(t, d, s);
  }

  lemma RiseNonNegative(b: real, x: real, y: real, n: nat)
    requires b > 0.0 && 0.0 <= x <= y <= 1.0
    ensures Rise(b, x, y, n) >= 0.0
  {
    RiseIs(b, x, y, n);
    SumAtLeast(x, y, n);
    TermPositive(b, n);
    hide *;
    ProductMonotone(0.0, Term(b, n), 0.0, y - x);
    ProductMonotone(0.0, Term(b, n) * (y - x), 0.0, PowerSum(x, y, n));
  }

  lemma RatioStep(b: real, n: real, q: real, u: real, v: real, s: real, s': real, r: real, r': real)
    requires GrowsAtMost(n, s, s') && q * (n + 1.0) == b && q >= 0.0 && u >= 0.0
    requires v == q * u && r == u * s && r' == v * s'
    ensures RatioAtMost(b, n, r, r')
  {
    assert v >= 0.0 by { ProductMonotone(0.0, q, 0.0, u); }
    var ns, more := n * s', (n + 1.0) * s;
    assert v * ns <= v * more by { ScaleUp(ns, more, v); }
    assert v * ns == n * r' by { Reordered(v, n, s'); }
    assert v * more == b * r by { Regrouped(q, u, n + 1.0, s, b); }
  }

  lemma Regrouped(q: real, u: real, m: real, s: real, b: real)
    requires q * m == b
    ensures (q * u) * (m * s) == b * (u * s)
  {
    assert (q * u) * (m * s) == (q * m) * (u * s);
  }

  lemma ScaleUp(x: real, y: real, v: real)
    requires x <= y && v >= 0.0
    ensures v * x <= v * y
  {
  }

  lemma RiseRatio(b: real, x: real, y: real, n: nat)
    requires b > 0.0 && 0.0 <= x <= y <= 1.0
    ensures RatioAtMost(b, n as real, Rise(b, x, y, n), Rise(b, x, y, n + 1))
  {
    hide *;
    RiseIs(b, x, y, n);
    RiseIs(b, x, y, n + 1);
    SumGrows(x, y, n);
    TermStep(b, n);
    TermPositive(b, n);
    QuotientPositive(b, (n + 1) as real);
    var q, t, d := b / (n + 1) as real, Term(b, n), y - x;
    var u, v := t * d, Term(b, n + 1) * d;
    assert q * (n as real + 1.0) == b by { Undivided(b, n as real + 1.0, q); }
    assert u >= 0.0 by { ProductMonotone(0.0, t, 0.0, d); }
    assert v == q * u by { ProductAssociates(q, t, d); }
    RatioStep(b, n as real, q, u, v, PowerSum(x, y, n), PowerSum(x, y, n + 1), Rise(b, x, y, n), Rise(b, x, y, n + 1));
  }

  lemma Undivided(b: real, n: real, q: real)
    requires n > 0.0 && q == b / n
    ensures q * n == b
  {
  }

  lemma DivideOut(n: real, b: real, r': real, r: real)
    requires n > 0.0 && 0.0 <= b <= n && r >= 0.0 && RatioAtMost(b, n, r, r')
    ensures r' <= r
  {
    ProductMonotone(b, n, r, r);
    if r' > r { StrictScale(r, r', n); }
  }

  lemma RiseShrinks(b: real, x: real, y: real, n: nat)
    requires 0.0 < b <= n as real && 0.0 <= x <= y <= 1.0
    ensures Rise(b, x, y, n + 1) <= Rise(b, x, y, n)
  {
    RiseRatio(b, x, y, n);
    RiseNonNegative(b, x, y, n);
    hide *;
    DivideOut(n as real, b, Rise(b, x, y, n + 1), Rise(b, x, y, n));
  }

  ghost function TailRise(b: real, x: real, y: real, m: nat, j: nat): real {
    Tail(b, y, m, j) - Tail(b, x, m, j)
  }

  lemma TailRiseStep(b: real, x: real, y: real, m: nat, j: nat)
    requires j > 0
    ensures TailRise(b, x, y, m, j) == Sign(m + 1) * Rise(b, x, y, m + 1) + TailRise(b, x, y, m + 1, j - 1)
  {
    hide Part;
    var s := Sign(m + 1);
    assert s * Part(b, y, m + 1) - s * Part(b, x, m + 1) == s * Rise(b, x, y, m + 1);
  }

  /** The rises alternate and shrink, so a tail of them is at most its first. */
  lemma {:induction false} TailRiseBound(b: real, x: real, y: real, m: nat, j: nat)
    requires 0.0 < b <= (m + 1) as real && 0.0 <= x <= y <= 1.0
    ensures 0.0 <= Sign(m + 1) * TailRise(b, x, y, m, j) <= Rise(b, x, y, m + 1)
    decreases j
  {
    hide Rise, Tail;
    RiseNonNegative(b, x, y, m + 1);
    if j == 0 {
      assert Tail(b, x, m, 0) == 0.0 && Tail(b, y, m, 0) == 0.0 by { NoTail(b, x, m); NoTail(b, y, m); }
    } else {
      hide TailRise;
      TailRiseStep(b, x, y, m, j);
      TailRiseBound(b, x, y, m + 1, j - 1);
      RiseShrinks(b, x, y, m + 1);
      assert Sign(m + 2) == -Sign(m + 1);
      Alternate(Sign(m + 1), Rise(b, x, y, m + 1), Rise(b, x, y, m + 2), TailRise(b, x, y, m + 1, j - 1));
    }
  }

  lemma NoTail(b: real, y: real, m: nat)
    ensures Tail(b, y, m, 0) == 0.0
  {
  }

  lemma Alternate(sign: real, first: real, second: real, rest: real)
    requires (sign == 1.0 || sign == -1.0) && 0.0 <= -sign * rest <= second <= first
    ensures 0.0 <= sign * (sign * first + rest) <= first
  {
  }

  lemma FirstRise(b: real, x: real, y: real)
    ensures Rise(b, x, y, 1) == b * (y - x)
    ensures Taylor(b, y, 1) - Taylor(b, x, 1) == Rise(b, x, y, 1)
  {
    assert Factorial(1) == 1 && Pow(b, 1) == b && Pow(x, 1) == x && Pow(y, 1) == y;
    assert Taylor(b, y, 1) == Taylor(b, y, 0) + Sign(1) * Part(b, y, 1);
    assert Taylor(b, x, 1) == Taylor(b, x, 0) + Sign(1) * Part(b, x, 1);
  }

  /** The slope of every Taylor polynomial is at most `b`, up or down. */
  lemma SlopeAtMost(b: real, x: real, y: real, m: nat)
    requires 0.0 < b <= 2.0 && 0.0 <= x <= y <= 1.0
    ensures -(b * (y - x)) <= Taylor(b, y, m) - Taylor(b, x, m) <= b * (y - x)
  {
    ProductMonotone(0.0, b, 0.0, y - x);
    if m > 0 {
      TaylorTail(b, x, 1, m - 1);
      TaylorTail(b, y, 1, m - 1);
      FirstRise(b, x, y);
      TailRiseBound(b, x, y, 1, m - 1);
      RiseRatio(b, x, y, 1);
      RiseNonNegative(b, x, y, 1);
      assert Sign(2) == -1.0;
      hide Rise, Taylor, Tail, Sign, RatioAtMost;
      AtMostFirst(b, Rise(b, x, y, 1), Rise(b, x, y, 2), TailRise(b, x, y, 1, m - 1));
    }
  }

  lemma AtMostFirst(b: real, first: real, second: real, tail: real)
    requires 0.0 < b <= 2.0 && first >= 0.0 && RatioAtMost(b, 1.0, first, second) && 0.0 <= -1.0 * tail <= second
    ensures -first <= first + tail <= first
  {
    ProductMonotone(b, 2.0, first, first);
    var most := b * first;
    assert second <= most <= 2.0 * first;
  }
}
