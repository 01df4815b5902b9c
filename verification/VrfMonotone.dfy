/** More stake never lowers the VRF threshold. */
module VrfMonotone {
  import opened Series
  import opened Slopes
  import opened Thresholds
  import opened VrfConstants

  ghost function Share(m: nat): real
    requires 1 <= m <= 10
  {
    COEFFICIENTS[m - 1] as real / 1048576.0
  }

  /** The slope of the polynomial between two points, up to degree `m`. */
  ghost function Slope(x: real, y: real, m: nat): real
    requires m <= 10
  {
    if m == 0 then 1.0 else Slope(x, y, m - 1) + PowerSum(x, y, m) * Share(m)
  }

  lemma CurveStep(y: real, m: nat)
    requires m < 10
    ensures Curve(y, m + 1) == Curve(y, m) + Pow(y, m + 1) * Share(m + 1)
  {
    hide Pow;
  }

  lemma SlopeStep(x: real, y: real, m: nat)
    requires m < 10
    ensures Slope(x, y, m + 1) == Slope(x, y, m) + PowerSum(x, y, m + 1) * Share(m + 1)
  {
    hide PowerSum, Share;
  }

  /** From `c` to `c'` over a distance `d` with slope `s`. */
  ghost predicate RisesBy(c: real, c': real, d: real, s: real) {
    c' - c == d * s
  }

  lemma AddTerm(
      c: real, c': real, d: real, s: real, p: real, p': real, sum: real, a: real, e: real, e': real, t: real)
    requires RisesBy(c, c', d, s) && RisesBy(p, p', d, sum)
    requires e == c + p * a && e' == c' + p' * a && t == s + sum * a
    ensures RisesBy(e, e', d, t)
  {
    assert p' * a - p * a == (p' - p) * a;
    assert (p' - p) * a == (d * sum) * a;
    ProductAssociates(d, sum, a);
    var z := sum * a;
    assert d * (s + z) == d * s + d * z;
  }

  lemma PowerRises(x: real, y: real, n: nat)
    ensures RisesBy(Pow(x, n), Pow(y, n), y - x, PowerSum(x, y, n))
  {
    hide Pow, PowerSum;
    PowerDifference(x, y, n);
  }

  lemma StartRises(x: real, y: real)
    ensures RisesBy(Curve(x, 0), Curve(y, 0), y - x, Slope(x, y, 0))
  {
  }

  lemma {:induction false} CurveRises(x: real, y: real, m: nat)
    requires m <= 10
    ensures RisesBy(Curve(x, m), Curve(y, m), y - x, Slope(x, y, m))
  {
    hide *;
    if m == 0 {
      StartRises(x, y);
    } else {
      CurveRises(x, y, m - 1);
      CurveStep(x, m - 1);
      CurveStep(y, m - 1);
      SlopeStep(x, y, m - 1);
      PowerRises(x, y, m);
      AddTerm(Curve(x, m - 1), Curve(y, m - 1), y - x, Slope(x, y, m - 1), Pow(x, m), Pow(y, m), PowerSum(x, y, m),
        Share(m), Curve(x, m), Curve(y, m), Slope(x, y, m));
    }
  }

  // ----- The slope stays positive

  lemma FirstSums(x: real, y: real)
    ensures PowerSum(x, y, 1) == 1.0 && PowerSum(x, y, 2) == x + y
    ensures Pow(x, 2) == x * x
  {
    assert Pow(x, 0) == 1.0 && PowerSum(x, y, 0) == 0.0;
    assert Pow(x, 1) == x;
  }

  lemma LowSums(x: real, y: real, s: real, q: real)
    requires s == x + y && q == x * y
    ensures PowerSum(x, y, 1) == 1.0 && PowerSum(x, y, 2) == s
    ensures PowerSum(x, y, 3) == s * s - q && PowerSum(x, y, 4) == s * (s * s - 2.0 * q)
  {
    hide *;
    FirstSums(x, y);
    PowerSumStep(x, y, 2);
    PowerSumStep(x, y, 3);
    Squares(x, y, s, q);
    Cubes(x, y, s, q, x * x, y * y);
  }

  lemma Squares(x: real, y: real, s: real, q: real)
    requires s == x + y && q == x * y
    ensures y * s + x * x == s * s - q && s * s == x * x + 2.0 * q + y * y
  {
  }

  lemma Cubes(x: real, y: real, s: real, q: real, xx: real, yy: real)
    requires s == x + y && q == x * y && xx == x * x && yy == y * y && s * s == xx + 2.0 * q + yy
    ensures y * (s * s - q) + x * xx == s * (s * s - 2.0 * q)
  {
    assert s * s - q == xx + q + yy;
    assert y * (xx + q + yy) == y * xx + y * q + y * yy;
    assert s * (xx + yy) == x * xx + x * yy + y * xx + y * yy;
    assert y * q == x * yy;
  }

  /** The terms up to the fourth degree, from the sums of powers. */
  ghost function LowSlope(s2: real, s3: real, s4: real): real {
    1.0 + Share(1) + s2 * Share(2) + s3 * Share(3) + s4 * Share(4)
  }

  lemma LowSlopeIs(s2: real, s3: real, s4: real)
    ensures 1048576.0 * LowSlope(s2, s3, s4) == 1453634.0 - 1007582.0 * s2 + 465602.0 * s3 - 161365.0 * s4
  {
    assert 1048576.0 * Share(1) == 405058.0 && 1048576.0 * Share(2) == -1007582.0;
    assert 1048576.0 * Share(3) == 465602.0 && 1048576.0 * Share(4) == -161365.0;
    hide Share;
    Unscale(s2, Share(2), -1007582.0);
    Unscale(s3, Share(3), 465602.0);
    Unscale(s4, Share(4), -161365.0);
  }

  lemma Unscale(x: real, share: real, n: real)
    requires 1048576.0 * share == n
    ensures 1048576.0 * (x * share) == n * x
  {
  }

  lemma LowSlopeSmall(s: real, q: real, ss: real, sss: real, sq: real, s3: real, s4: real)
    requires s3 == ss - q && s4 == sss - 2.0 * sq
    requires 0.0 <= s <= 1.44 && ss == s * s && sss == s * ss && sq == s * q && 4.0 * q <= ss
    ensures LowSlope(s, s3, s4) >= 0.1
  {
    // The coefficient of the product is negative here, so the product may be taken as large as it can be.
    assert 1.44 * ss - 5.76 * q - sss + 4.0 * sq >= 0.0 by { Products(1.44, s, ss, 4.0 * q, ss * s, q * s); }
    TimesAtMost(s, 1.44, ss, sss, 1.44 * ss);
    assert ss - 4.0 * s + 4.0 >= 0.0 by { Square(s, 2.0, ss); }
    SmallIsLinear(s, q, ss, sss, sq, s3, s4);
  }

  lemma TimesAtMost(s: real, c: real, t: real, st: real, ct: real)
    requires 0.0 <= s <= c && st == s * t && ct == c * t && t == s * s
    ensures st <= ct
  {
    SquareNonNegative(s);
    ProductMonotone(s, c, t, t);
  }

  lemma SmallIsLinear(s: real, q: real, ss: real, sss: real, sq: real, s3: real, s4: real)
    requires s3 == ss - q && s4 == sss - 2.0 * sq
    requires 0.0 <= s <= 1.44 && 4.0 * q <= ss && sss <= 1.44 * ss
    requires 1.44 * ss - 5.76 * q - sss + 4.0 * sq >= 0.0 && ss - 4.0 * s + 4.0 >= 0.0
    ensures LowSlope(s, s3, s4) >= 0.1
  {
    hide LowSlope;
    LowSlopeIs(s, s3, s4);
  }

  lemma Products(a: real, s: real, c: real, d: real, cs: real, qs: real)
    requires s <= a && d <= c && cs == c * s && 4.0 * qs == d * s
    ensures a * c - a * d - cs + 4.0 * qs >= 0.0
  {
    var e, f := a - s, c - d;
    ProductMonotone(0.0, e, 0.0, f);
    Expand(a, s, c, d);
  }

  lemma Expand(a: real, b: real, c: real, d: real)
    ensures (a - b) * (c - d) == a * c - a * d - b * c + b * d
  {
    assert (a - b) * (c - d) == a * (c - d) - b * (c - d);
  }

  lemma Square(s: real, r: real, ss: real)
    requires ss == s * s
    ensures ss - 2.0 * r * s + r * r >= 0.0
  {
    Expand(s, r, s, r);
    SquareNonNegative(s - r);
  }

  lemma SquareNonNegative(x: real)
    ensures x * x >= 0.0
  {
    if x < 0.0 { ProductMonotone(0.0, -x, 0.0, -x); } else { ProductMonotone(0.0, x, 0.0, x); }
  }

  lemma LowSlopeLarge(s: real, q: real, ss: real, sss: real, sq: real, s3: real, s4: real)
    requires s3 == ss - q && s4 == sss - 2.0 * sq
    requires 1.44 <= s <= 2.0 && ss == s * s && sss == s * ss && sq == s * q
    requires s - 1.0 <= q && 4.0 * q <= ss
    ensures LowSlope(s, s3, s4) >= 0.1
  {
    // Here it is positive, so the product may be taken as small as it can be.
    LargeProduct(s, q, ss, sq, s - 1.0, s * (s - 1.0));
    TimesAtMost(s, 2.0, ss, sss, 2.0 * ss);
    assert ss - 3.86 * s + 3.7249 >= 0.0 by { Square(s, 1.93, ss); }
    LargeIsLinear(s, q, ss, sss, sq, s3, s4);
  }

  lemma LargeProduct(s: real, q: real, ss: real, sq: real, t: real, st: real)
    requires 1.44 <= s && t <= q && t == s - 1.0 && ss == s * s && sq == s * q && st == s * t
    ensures sq - (ss - s) - 1.44 * q + 1.44 * t >= 0.0
  {
    assert st == ss - s by { LessOne(s); }
    var e, f := s - 1.44, q - t;
    assert e * f >= 0.0 by { ProductMonotone(0.0, e, 0.0, f); }
    assert e * f == sq - st - 1.44 * q + 1.44 * t by { Expand(s, 1.44, q, t); }
  }

  lemma LessOne(s: real)
    ensures s * (s - 1.0) == s * s - s
  {
  }

  lemma LargeIsLinear(s: real, q: real, ss: real, sss: real, sq: real, s3: real, s4: real)
    requires s3 == ss - q && s4 == sss - 2.0 * sq
    requires 1.44 <= s <= 2.0 && s - 1.0 <= q && 4.0 * q <= ss
    requires sq >= ss - 2.44 * s + 1.44 * q + 1.44 && sss <= 2.0 * ss && ss >= 3.86 * s - 3.7249
    ensures LowSlope(s, s3, s4) >= 0.1
  {
    hide LowSlope;
    LowSlopeIs(s, s3, s4);
  }

  /** How small and how large the product of two shares can be, given their sum. */
  lemma SumAndProduct(x: real, y: real, s: real, q: real)
    requires 0.0 <= x <= y <= 1.0 && s == x + y && q == x * y
    ensures s - 1.0 <= q && 4.0 * q <= s * s
  {
    Expand(1.0, x, 1.0, y);
    ProductMonotone(0.0, 1.0 - x, 0.0, 1.0 - y);
    Squares(x, y, s, q);
    Square(y, x, y * y);
  }

  lemma SlopeIs(x: real, y: real)
    ensures Slope(x, y, 4) == LowSlope(PowerSum(x, y, 2), PowerSum(x, y, 3), PowerSum(x, y, 4))
  {
    assert PowerSum(x, y, 1) == 1.0 by { FirstSums(x, y); }
    hide PowerSum, Share;
    assert Slope(x, y, 0) == 1.0;
    SlopeStep(x, y, 0);
    SlopeStep(x, y, 1);
    SlopeStep(x, y, 2);
    SlopeStep(x, y, 3);
  }

  lemma LowSlopePositive(x: real, y: real)
    requires 0.0 <= x <= y <= 1.0
    ensures Slope(x, y, 4) >= 0.1
  {
    hide Slope, LowSlope, PowerSum;
    var s, q := x + y, x * y;
    SlopeIs(x, y);
    LowSums(x, y, s, q);
    SumAndProduct(x, y, s, q);
    var ss, sq := s * s, s * q;
    var sss := s * ss;
    Difference(s, ss, q);
    var s3, s4 := PowerSum(x, y, 3), PowerSum(x, y, 4);
    if s <= 1.44 { LowSlopeSmall(s, q, ss, sss, sq, s3, s4); } else { LowSlopeLarge(s, q, ss, sss, sq, s3, s4); }
  }

  lemma Difference(s: real, t: real, q: real)
    ensures s * (t - 2.0 * q) == s * t - 2.0 * (s * q)
  {
  }

  /** Of each later pair of terms the positive one prevails. */
  lemma LaterTermsAdd(x: real, y: real)
    requires 0.0 <= x <= y <= 1.0
    ensures Slope(x, y, 10) >= Slope(x, y, 4)
  {
    hide Slope, PowerSum, Pow;
    SlopeStep(x, y, 4);
    SlopeStep(x, y, 5);
    SlopeStep(x, y, 6);
    SlopeStep(x, y, 7);
    SlopeStep(x, y, 8);
    SlopeStep(x, y, 9);
    SumGrows(x, y, 5);
    SumGrows(x, y, 7);
    SumGrows(x, y, 9);
    SumAtLeast(x, y, 5);
    SumAtLeast(x, y, 7);
    SumAtLeast(x, y, 9);
  }

  /** Between any two shares the polynomial rises, by at least a tenth of their distance. */
  lemma CurveIncreases(x: real, y: real)
    requires 0.0 <= x <= y <= 1.0
    ensures Curve(y, 10) - Curve(x, 10) >= 0.1 * (y - x)
  {
    hide Slope, Curve;
    LowSlopePositive(x, y);
    LaterTermsAdd(x, y);
    CurveRises(x, y, 10);
    RiseAtLeast(Curve(x, 10), Curve(y, 10), y - x, Slope(x, y, 10));
  }

  lemma RiseAtLeast(c: real, c': real, d: real, s: real)
    requires RisesBy(c, c', d, s) && d >= 0.0 && s >= 0.1
    ensures c' - c >= 0.1 * d
  {
    ScaleUp(0.1, s, d);
  }

  // ----- The threshold

  lemma InputOrdered(a: nat, b: nat, total: nat)
    requires a <= b <= total && total > 0
    ensures 0.0 <= Input(a, total, 20) <= Input(b, total, 20) <= 1.0
  {
    PowersOfTwo();
    hide TwoTo;
    InputIs(a, total, 20);
    InputIs(b, total, 20);
    var x, y := 1048576.0 * a as real / total as real, 1048576.0 * b as real / total as real;
    assert x <= y by { QuotientOrdered(1048576.0 * a as real, 1048576.0 * b as real, total as real); }
    assert x.Floor <= y.Floor;
  }

  lemma QuotientOrdered(a: real, b: real, d: real)
    requires a <= b && d > 0.0
    ensures a / d <= b / d
  {
    var x, y := a / d, b / d;
    QuotientTimes(a, d);
    QuotientTimes(b, d);
    ScaledOrder(x, y, d, a, b);
  }

  /**
   With more stake of the same currency the threshold is not lower, and it is the same exactly if
   the shares are the same when rounded down to 20 bits.
   */
  lemma ThresholdIncreases(t: Threshold, r: Params, t': Threshold, r': Params)
    requires ComputedWith(t, AbsLogBase(), r) && ComputedWith(t', AbsLogBase(), r')
    requires t.totalCurrency == t'.totalCurrency && t.delegatedStake <= t'.delegatedStake <= t.totalCurrency
    ensures t.thresholdRational <= t'.thresholdRational
    ensures t.thresholdRational == t'.thresholdRational <==>
      Input(t.delegatedStake, t.totalCurrency, 20) == Input(t'.delegatedStake, t.totalCurrency, 20)
  {
    hide AbsLogBase, Chosen, Curve, Input, ThresholdOf;
    ThresholdIsCurve(t, r);
    ThresholdIsCurve(t', r');
    InputOrdered(t.delegatedStake, t'.delegatedStake, t.totalCurrency);
    CurveIncreases(Input(t.delegatedStake, t.totalCurrency, 20), Input(t'.delegatedStake, t.totalCurrency, 20));
  }

  lemma CurveAtZero()
    ensures Curve(0.0, 10) == 0.0
  {
    forall m: nat | 1 <= m <= 10 ensures Pow(0.0, m) == 0.0 {}
    hide Pow;
    assert Curve(0.0, 2) == 0.0;
    assert Curve(0.0, 4) == 0.0;
    assert Curve(0.0, 6) == 0.0;
    assert Curve(0.0, 8) == 0.0;
  }

  lemma InputPositiveIff(stake: nat, total: nat)
    requires stake <= total && total > 0
    ensures Input(stake, total, 20) > 0.0 <==> stake * 1048576 >= total
  {
    PowersOfTwo();
    hide TwoTo;
    var a, d := 1048576.0 * stake as real, total as real;
    var z := a / d;
    assert z * d == a by { QuotientTimes(a, d); }
    WholePart(a, d, z);
  }

  lemma WholePart(a: real, d: real, z: real)
    requires a >= 0.0 && d > 0.0 && z * d == a
    ensures z.Floor as real / 1048576.0 > 0.0 <==> a >= d
  {
    ScaledOrder(1.0, z, d, d, a);
    ScaledOrder(0.0, z, d, 0.0, a);
    FloorPositive(z);
  }

  lemma FloorPositive(z: real)
    requires z >= 0.0
    ensures z.Floor as real / 1048576.0 > 0.0 <==> z >= 1.0
  {
    assert z.Floor >= 1 <==> z >= 1.0;
  }

  /** The threshold is positive exactly from a share of one in 2^20 on, and zero below. */
  lemma ThresholdPositiveIff(t: Threshold, r: Params)
    requires ComputedWith(t, AbsLogBase(), r) && t.delegatedStake <= t.totalCurrency
    ensures t.thresholdRational >= 0.0
    ensures t.thresholdRational > 0.0 <==> t.delegatedStake * 1048576 >= t.totalCurrency
  {
    hide AbsLogBase, Chosen, Curve, Input, ThresholdOf;
    ThresholdIsCurve(t, r);
    InputOrdered(0, t.delegatedStake, t.totalCurrency);
    InputPositiveIff(t.delegatedStake, t.totalCurrency);
    CurveAtZero();
    CurveIncreases(0.0, Input(t.delegatedStake, t.totalCurrency, 20));
  }
}
