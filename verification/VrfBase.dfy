/** The base of the VRF threshold: what the sum of a hundred terms of the logarithm of 1/4 is, in numbers. */
module VrfBase {
  import opened Series
  import opened Slopes
  import opened Thresholds

  // ----- Ten terms at a time

  ghost function Over(x: real, n: nat): real
    requires n > 0
  {
    x / n as real
  }

  /** The terms of degree `n + 1` to `n + j` over `(3/4)^n`. */
  ghost function Block(n: nat, j: nat): real {
    if j == 0 then 0.0 else Block(n, j - 1) + Over(Pow(0.75, j), n + j)
  }

  lemma ScaledTerm(p: real, s: real, x: real, px: real, n: nat)
    requires n > 0 && px == p * x
    ensures p * s + Over(px, n) == p * (s + Over(x, n))
  {
    var d, q := n as real, Over(x, n);
    assert q * d == x;
    assert (p * q) * d == px;
    assert Over(px, n) == p * q;
  }

  lemma LogStep(n: nat)
    ensures LogMagnitude(0.75, n + 1) == LogMagnitude(0.75, n) + Over(Pow(0.75, n + 1), n + 1)
    ensures Pow(0.75, n + 1) == 0.75 * Pow(0.75, n)
  {
  }

  lemma BlockStep(n: nat, j: nat)
    ensures Block(n, j + 1) == Block(n, j) + Over(Pow(0.75, j + 1), n + j + 1)
  {
    hide Over, Pow;
  }

  lemma {:induction false} BlockIs(n: nat, j: nat)
    ensures LogMagnitude(0.75, n + j) == LogMagnitude(0.75, n) + Pow(0.75, n) * Block(n, j)
  {
    hide Pow, LogMagnitude, Over;
    if j == 0 {
      assert Block(n, j) == 0.0;
    } else {
      hide Block;
      BlockIs(n, j - 1);
      LogStep(n + j - 1);
      BlockStep(n, j - 1);
      PowAdd(0.75, n, j);
      ScaledTerm(Pow(0.75, n), Block(n, j - 1), Pow(0.75, j), Pow(0.75, n + j), n + j);
    }
  }

  lemma PowersOfThreeQuarters()
    ensures Pow(0.75, 1) == 0.75 && Pow(0.75, 2) == 0.5625 && Pow(0.75, 3) == 0.421875
    ensures Pow(0.75, 4) == 0.31640625 && Pow(0.75, 5) == 0.2373046875 && Pow(0.75, 6) == 0.177978515625
    ensures Pow(0.75, 7) == 0.13348388671875 && Pow(0.75, 8) == 0.1001129150390625
    ensures Pow(0.75, 9) == 0.075084686279296875 && Pow(0.75, 10) == 0.05631351470947265625
  {
    assert Pow(0.75, 2) == 0.5625;
    assert Pow(0.75, 4) == 0.31640625;
    assert Pow(0.75, 6) == 0.177978515625;
    assert Pow(0.75, 8) == 0.1001129150390625;
  }

  ghost function TenSum(n: nat): real {
    Over(0.75, n + 1) + Over(0.5625, n + 2) + Over(0.421875, n + 3) + Over(0.31640625, n + 4)
    + Over(0.2373046875, n + 5) + Over(0.177978515625, n + 6) + Over(0.13348388671875, n + 7)
    + Over(0.1001129150390625, n + 8) + Over(0.075084686279296875, n + 9) + Over(0.05631351470947265625, n + 10)
  }

  lemma TenSumIs(n: nat)
    ensures Block(n, 10) == TenSum(n)
  {
    PowersOfThreeQuarters();
    hide Pow, Over;
    assert Block(n, 0) == 0.0;
    assert Block(n, 1) == Block(n, 0) + Over(0.75, n + 1);
    assert Block(n, 2) == Block(n, 1) + Over(0.5625, n + 2);
    assert Block(n, 3) == Block(n, 2) + Over(0.421875, n + 3);
    assert Block(n, 4) == Block(n, 3) + Over(0.31640625, n + 4);
    assert Block(n, 5) == Block(n, 4) + Over(0.2373046875, n + 5);
    assert Block(n, 6) == Block(n, 5) + Over(0.177978515625, n + 6);
    assert Block(n, 7) == Block(n, 6) + Over(0.13348388671875, n + 7);
    assert Block(n, 8) == Block(n, 7) + Over(0.1001129150390625, n + 8);
    assert Block(n, 9) == Block(n, 8) + Over(0.075084686279296875, n + 9);
    assert Block(n, 10) == Block(n, 9) + Over(0.05631351470947265625, n + 10);
  }

  /** Where the power and the sum of degree `n` lie. */
  ghost predicate Located(n: nat, p: real, p': real, s: real, s': real) {
    0.0 <= p <= Pow(0.75, n) <= p' && s <= LogMagnitude(0.75, n) <= s'
  }

  lemma Advance(n: nat, p: real, p': real, s: real, s': real, t: real, t': real)
    requires Located(n, p, p', s, s') && 0.0 <= t <= TenSum(n) <= t'
    ensures Located(n + 10, p * 0.05631351470947265625, p' * 0.05631351470947265625, s + p * t, s' + p' * t')
  {
    hide Pow, LogMagnitude, Block, TenSum;
    BlockIs(n, 10);
    TenSumIs(n);
    PowAdd(0.75, n, 10);
    PowersOfThreeQuarters();
    ProductMonotone(p, Pow(0.75, n), t, TenSum(n));
    ProductMonotone(Pow(0.75, n), p', TenSum(n), t');
  }

  lemma Located10()
    ensures Located(10, 0.05631351470947265625, 0.05631351470947265625, 1.3736579213823500, 1.3736579213823600)
  {
    assert 1.37365792138235 <= TenSum(0) <= 1.37365792138236;
    Advance(0, 1.0, 1.0, 0.0, 0.0, 1.37365792138235, 1.37365792138236);
  }

  lemma Located20()
    ensures Located(20, 0.00317121193893399322, 0.00317121193893399323, 1.3858911585062413, 1.3858911585062519)
  {
    Located10();
    assert 0.21723448069267 <= TenSum(10) <= 0.21723448069268;
    hide TenSum;
    Advance(
      10, 0.05631351470947265625, 0.05631351470947265625, 1.3736579213823500, 1.3736579213823600,
      0.21723448069267, 0.21723448069268);
  }

  lemma Located30()
    ensures Located(30, 0.00017858209017001473, 0.00017858209017001474, 1.3862784634430861, 1.3862784634430968)
  {
    Located20();
    assert 0.12213152078856 <= TenSum(20) <= 0.12213152078857;
    hide TenSum;
    Advance(
      20, 0.00317121193893399322, 0.00317121193893399323, 1.3858911585062413, 1.3858911585062519,
      0.12213152078856, 0.12213152078857);
  }

  lemma Located40()
    ensures Located(40, 0.00001005658516163749, 0.00001005658516163750, 1.3862936716941292, 1.3862936716941400)
  {
    Located30();
    assert 0.08516112130113 <= TenSum(30) <= 0.08516112130114;
    hide TenSum;
    Advance(
      30, 0.00017858209017001473, 0.00017858209017001474, 1.3862784634430861, 1.3862784634430968,
      0.08516112130113, 0.08516112130114);
  }

  lemma Located50()
    ensures Located(50, 0.00000056632165642693, 0.00000056632165642694, 1.3862943295411486, 1.3862943295411595)
  {
    Located40();
    assert 0.06541455264006 <= TenSum(40) <= 0.06541455264007;
    hide TenSum;
    Advance(
      40, 0.00001005658516163749, 0.00001005658516163750, 1.3862936716941292, 1.3862936716941400,
      0.06541455264006, 0.06541455264007);
  }

  lemma Located60()
    ensures Located(60, 0.00000003189156292949, 0.00000003189156292950, 1.3862943596209704, 1.3862943596209814)
  {
    Located50();
    assert 0.05311437686236 <= TenSum(50) <= 0.05311437686237;
    hide TenSum;
    Advance(
      50, 0.00000056632165642693, 0.00000056632165642694, 1.3862943295411486, 1.3862943295411595,
      0.05311437686236, 0.05311437686237);
  }

  lemma Located70()
    ensures Located(70, 0.00000000179592599813, 0.00000000179592599814, 1.3862943610469261, 1.3862943610469372)
  {
    Located60();
    assert 0.04471263257029 <= TenSum(60) <= 0.04471263257030;
    hide TenSum;
    Advance(
      60, 0.00000003189156292949, 0.00000003189156292950, 1.3862943596209704, 1.3862943596209814,
      0.04471263257029, 0.04471263257030);
  }

  lemma Located80()
    ensures Located(80, 0.00000000010113490511, 0.00000000010113490512, 1.3862943611162632, 1.3862943611162744)
  {
    Located70();
    assert 0.03860804896170 <= TenSum(70) <= 0.03860804896171;
    hide TenSum;
    Advance(
      70, 0.00000000179592599813, 0.00000000179592599814, 1.3862943610469261, 1.3862943610469372,
      0.03860804896170, 0.03860804896171);
  }

  // ----- The tail of the series

  lemma OverAtMost(x: real, n: nat, unit: real, m: nat)
    requires x >= 0.0 && 0 < m <= n && unit * m as real == 1.0
    ensures 0.0 <= Over(x, n) <= x * unit
  {
    var q := Over(x, n);
    assert q * n as real == x;
    assert q >= 0.0 by { if q < 0.0 { StrictScale(q, 0.0, n as real); } }
    ProductMonotone(q, q, m as real, n as real);
    ScaleBack(q, x, unit, m as real);
  }

  lemma ScaleBack(q: real, x: real, unit: real, d: real)
    requires d > 0.0 && unit * d == 1.0 && q * d <= x
    ensures q <= x * unit
  {
    assert (x * unit) * d == x * (unit * d);
    if q > x * unit { StrictScale(x * unit, q, d); }
  }

  /** The sum `l'` is not below `l`, and above it by at most four times the power `p`, less four times `p'`. */
  ghost predicate TailBounded(l: real, p: real, l': real, p': real, unit: real) {
    l <= l' && l' + 4.0 * (p' * unit) <= l + 4.0 * (p * unit)
  }

  /** From degree `m` on the rest of the series is at most four times its first power, over `m + 1`. */
  lemma {:induction false} LogTail(m: nat, n: nat, unit: real)
    requires m <= n && unit * (m + 1) as real == 1.0
    ensures TailBounded(LogMagnitude(0.75, m), Pow(0.75, m + 1), LogMagnitude(0.75, n), Pow(0.75, n + 1), unit)
  {
    if n > m {
      hide Pow, LogMagnitude, Over, TailBounded;
      LogTail(m, n - 1, unit);
      LogStep(n - 1);
      LogStep(n);
      PowPositive(0.75, n);
      var p := Pow(0.75, n);
      var o := Over(p, n);
      OverAtMost(p, n, unit, m + 1);
      TailStep(LogMagnitude(0.75, m), Pow(0.75, m + 1), LogMagnitude(0.75, n - 1), p, o, unit);
    }
  }

  lemma TailStep(l: real, p: real, l': real, p': real, o: real, unit: real)
    requires TailBounded(l, p, l', p', unit) && 0.0 <= o <= p' * unit
    ensures TailBounded(l, p, l' + o, 0.75 * p', unit)
  {
    var q := p' * unit;
    assert (0.75 * p') * unit == 0.75 * q;
  }

  // ----- The base

  /** The base to ten digits. */
  lemma BaseBounds()
    ensures 1.3862943611 < AbsLogBase() < 1.3862943612
  {
    hide Pow, LogMagnitude, LogSum;
    LogIsNegative(0.75, 100);
    Located80();
    LogStep(80);
    PowPositive(0.75, 101);
    LogTail(80, 100, 1.0 / 81.0);
  }

  lemma TailIsSmall()
    ensures 4.0 * (Pow(0.75, 101) * (1.0 / 101.0)) < Unit(46)
  {
    hide Pow, LogMagnitude;
    Located80();
    PowAdd(0.75, 80, 10);
    PowAdd(0.75, 90, 10);
    PowersOfThreeQuarters();
    LogStep(100);
    SmallUnit();
  }

  lemma SmallUnit()
    ensures Unit(46) > 0.0000000000000142
  {
    assert Pow(0.5, 6) == 0.015625 && Pow(0.5, 8) == 0.00390625 && Pow(0.5, 10) == 0.0009765625 by {
      assert Pow(0.5, 2) == 0.25;
      assert Pow(0.5, 4) == 0.0625;
    }
    hide Pow;
    PowAdd(0.5, 10, 10);
    PowAdd(0.5, 20, 20);
    PowAdd(0.5, 40, 6);
  }

  /** The hundred terms are the logarithm of 1/4 to 46 bits: any longer sum is above the base by less than 2^-46. */
  lemma BaseIsLogarithm(n: nat)
    requires n >= 100
    ensures 0.0 <= LogMagnitude(0.75, n) - AbsLogBase() < Unit(46)
  {
    hide Pow, LogMagnitude, LogSum, Unit;
    LogIsNegative(0.75, 100);
    LogTail(100, n, 1.0 / 101.0);
    PowPositive(0.75, n + 1);
    TailIsSmall();
  }
}
