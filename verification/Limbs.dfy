/** Numbers in four limbs of 64 bits, shifted in place. */
module Limbs {
  import opened Powers

  const LIMB_BITS: nat := 64
  const LIMBS: nat := 4

  /** The size of a limb. */
  function W(): (w: nat)
    ensures w >= 1
  {
    Pow2(LIMB_BITS)
  }

  /** The value of limbs, the least significant first. */
  function Value(limbs: seq<nat>): nat {
    if limbs == [] then 0 else limbs[0] + W() * Value(limbs[1..])
  }

  ghost predicate AreLimbs(limbs: seq<nat>) {
    forall i :: 0 <= i < |limbs| ==> limbs[i] < W()
  }

  lemma DivisionIs(a: nat, d: nat)
    requires d > 0
    ensures a == Quotient(a, d) * d + Remainder(a, d) && Remainder(a, d) < d
  {
  }

  lemma ProductBelow(a: nat, b: nat, w: nat, p: nat)
    requires a < w && b < p
    ensures a + w * b < w * p
  {
    assert w * b <= w * (p - 1);
  }

  lemma {:induction false} ValueBound(limbs: seq<nat>)
    requires AreLimbs(limbs)
    ensures Value(limbs) < Pow2(LIMB_BITS * |limbs|)
  {
    hide W, Pow2;
    if limbs != [] {
      ValueBound(limbs[1..]);
      WIs();
      Pow2Add(LIMB_BITS, LIMB_BITS * (|limbs| - 1));
      ProductBelow(limbs[0], Value(limbs[1..]), W(), Pow2(LIMB_BITS * (|limbs| - 1)));
    }
  }

  lemma WIs()
    ensures W() == Pow2(LIMB_BITS)
  {
  }

  // ----- Bitwise or

  function BitOr(a: nat, b: nat): nat
    decreases a + b
  {
    if a == 0 then b else if b == 0 then a
    else 2 * BitOr(a / 2, b / 2) + if a % 2 == 1 || b % 2 == 1 then 1 else 0
  }

  /** On disjoint bits it is addition. */
  lemma {:induction false} OrAdds(a: nat, b: nat, n: nat)
    requires b < Pow2(n)
    ensures BitOr(a * Pow2(n), b) == a * Pow2(n) + b
  {
    if a > 0 && b > 0 {
      assert n > 0;
      OrAdds(a, b / 2, n - 1);
      OrEven(a * Pow2(n - 1), b);
      Twice(a, Pow2(n - 1));
    }
  }

  function BitAnd(a: nat, b: nat): nat
    decreases a + b
  {
    if a == 0 || b == 0 then 0
    else 2 * BitAnd(a / 2, b / 2) + if a % 2 == 1 && b % 2 == 1 then 1 else 0
  }

  /** What `or` falls short of the sum by are the common bits. */
  lemma {:induction false} OrIsSumLessCommon(a: nat, b: nat)
    ensures BitOr(a, b) + BitAnd(a, b) == a + b
    decreases a + b
  {
    if a > 0 && b > 0 { OrIsSumLessCommon(a / 2, b / 2); }
  }

  lemma {:induction false} OrSelf(a: nat)
    ensures BitOr(a, a) == a
  {
    if a > 0 { OrSelf(a / 2); }
  }

  lemma {:induction false} OrCommutes(a: nat, b: nat)
    ensures BitOr(a, b) == BitOr(b, a)
    decreases a + b
  {
    if a > 0 && b > 0 { OrCommutes(a / 2, b / 2); }
  }

  lemma OrEven(x: nat, b: nat)
    ensures BitOr(2 * x, b) == 2 * BitOr(x, b / 2) + b % 2
  {
  }

  lemma Twice(a: nat, p: nat)
    ensures a * (2 * p) == 2 * (a * p)
  {
  }

  lemma {:induction false} OrBound(a: nat, b: nat, n: nat)
    requires a < Pow2(n) && b < Pow2(n)
    ensures BitOr(a, b) < Pow2(n)
    decreases n
  {
    if a > 0 && b > 0 { OrBound(a / 2, b / 2, n - 1); }
  }

  // ----- Shifting

  /** One limb shifted left by fewer than 64 bits, or-ed with what the limb below carried over. */
  function ShlLimb(limb: nat, n: nat, carry: nat): nat {
    BitOr((limb * Pow2(n)) % W(), carry)
  }

  function CarryOf(limb: nat, n: nat): nat
    requires n <= LIMB_BITS
  {
    Quotient(limb, Pow2(LIMB_BITS - n))
  }

  function Quotient(a: nat, d: nat): nat
    requires d > 0
  {
    a / d
  }

  function ShlBits(limbs: seq<nat>, n: nat, carry: nat): (r: seq<nat>)
    requires n <= LIMB_BITS
    ensures |r| == |limbs|
  {
    if limbs == [] then [] else [ShlLimb(limbs[0], n, carry)] + ShlBits(limbs[1..], n, CarryOf(limbs[0], n))
  }

  function Remainder(a: nat, d: nat): nat
    requires d > 0
  {
    a % d
  }

  function Product(a: nat, b: nat): nat {
    a * b
  }

  /** What leaves the top. */
  ghost function Overflow(limbs: seq<nat>, n: nat, carry: nat): nat
    requires n <= LIMB_BITS
  {
    if limbs == [] then carry else Overflow(limbs[1..], n, CarryOf(limbs[0], n))
  }

  /** A limb times `2^n` is what stays in the limb, a multiple of `2^n`, and what is carried. */
  lemma LimbSplits(limb: nat, n: nat) returns (high: nat)
    requires n <= LIMB_BITS && limb < W()
    ensures (limb * Pow2(n)) % W() == high * Pow2(n) && high * Pow2(n) + Pow2(n) <= W()
    ensures limb * Pow2(n) == CarryOf(limb, n) * W() + high * Pow2(n) && CarryOf(limb, n) < Pow2(n)
  {
    hide W, Pow2;
    WIs();
    var p, d := Pow2(n), Pow2(LIMB_BITS - n);
    Pow2Add(LIMB_BITS - n, n);
    high := limb % d;
    DivisionIs(limb, d);
    SplitProduct(limb, CarryOf(limb, n), high, p, d, W());
  }

  lemma SplitProduct(x: nat, q: nat, r: nat, p: nat, d: nat, w: nat)
    requires p > 0 && r < d && w == d * p && x < w && x == q * d + r
    ensures x * p == q * w + r * p && r * p + p <= w && q < p && (x * p) % w == r * p
  {
    Distribute(q, d, r, p);
    ScaleOrdered(r + 1, d, p);
    QuotientBelow(q, d, p);
    DivModUnique(x * p, w, q, r * p);
  }

  lemma Distribute(q: nat, d: nat, r: nat, p: nat)
    ensures (q * d + r) * p == q * (d * p) + r * p && (r + 1) * p == r * p + p
  {
    assert (q * d) * p == q * (d * p);
  }

  lemma QuotientBelow(q: nat, d: nat, p: nat)
    requires q * d < d * p
    ensures q < p
  {
    if q >= p { ScaleOrdered(p, q, d); }
  }

  lemma ShlLimbIs(limb: nat, n: nat, carry: nat)
    requires n <= LIMB_BITS && limb < W() && carry < Pow2(n)
    ensures ShlLimb(limb, n, carry) < W() && CarryOf(limb, n) < Pow2(n)
    ensures ShlLimb(limb, n, carry) + W() * CarryOf(limb, n) == limb * Pow2(n) + carry
  {
    hide W, Pow2, BitOr, CarryOf;
    var high := LimbSplits(limb, n);
    OrAdds(high, carry, n);
  }

  lemma {:induction false} ShlBitsLimbs(limbs: seq<nat>, n: nat, carry: nat)
    requires n <= LIMB_BITS && AreLimbs(limbs) && carry < Pow2(n)
    ensures AreLimbs(ShlBits(limbs, n, carry))
  {
    hide W, Pow2, ShlLimb, CarryOf;
    if limbs != [] {
      ShlLimbIs(limbs[0], n, carry);
      ShlBitsLimbs(limbs[1..], n, CarryOf(limbs[0], n));
    }
  }

  lemma ShlAlgebra(x: nat, rest: nat, p: nat, c: nat, w: nat, low: nat, carry: nat, shifted: nat, over: nat, m: nat)
    requires low + w * carry == x * p + c && shifted + over * m == rest * p + carry
    ensures low + w * shifted + over * (w * m) == (x + w * rest) * p + c
  {
    assert w * (shifted + over * m) == w * (rest * p + carry);
    assert w * (over * m) == over * (w * m);
    assert w * (rest * p) == (w * rest) * p;
    assert (x + w * rest) * p == x * p + (w * rest) * p;
  }

  /** The limbs shifted, together with what leaves the top, are the value times `2^n`. */
  lemma {:induction false} ShlBitsValue(limbs: seq<nat>, n: nat, carry: nat)
    requires n <= LIMB_BITS && AreLimbs(limbs) && carry < Pow2(n)
    ensures Value(ShlBits(limbs, n, carry)) + Overflow(limbs, n, carry) * Pow2(LIMB_BITS * |limbs|)
         == Value(limbs) * Pow2(n) + carry
  {
    hide W, Pow2, ShlLimb, CarryOf;
    if limbs == [] {
      Pow2Zero();
    } else {
      var low, c := ShlLimb(limbs[0], n, carry), CarryOf(limbs[0], n);
      var shifted := ShlBits(limbs[1..], n, c);
      ShlLimbIs(limbs[0], n, carry);
      ShlBitsValue(limbs[1..], n, c);
      WIs();
      Pow2Add(LIMB_BITS, LIMB_BITS * (|limbs| - 1));
      assert ([low] + shifted)[1..] == shifted;
      ShlAlgebra(limbs[0], Value(limbs[1..]), Pow2(n), carry, W(), low, c, Value(shifted),
        Overflow(limbs[1..], n, c), Pow2(LIMB_BITS * (|limbs| - 1)));
    }
  }

  lemma Pow2Zero()
    ensures Pow2(0) == 1
  {
  }

  lemma {:induction false} ValueSnoc(limbs: seq<nat>, x: nat)
    ensures Value(limbs + [x]) == Value(limbs) + x * Pow2(LIMB_BITS * |limbs|)
  {
    hide W, Pow2;
    if limbs == [] {
      Pow2Zero();
      assert [] + [x] == [x];
    } else {
      assert (limbs + [x])[1..] == limbs[1..] + [x];
      ValueSnoc(limbs[1..], x);
      WIs();
      Pow2Add(LIMB_BITS, LIMB_BITS * (|limbs| - 1));
      SnocAlgebra(W(), Value(limbs[1..]), x, Pow2(LIMB_BITS * (|limbs| - 1)));
    }
  }

  lemma SnocAlgebra(w: nat, v: nat, x: nat, m: nat)
    ensures w * (v + x * m) == w * v + x * (w * m)
  {
  }

  /** One limb up: the top limb is lost. */
  lemma ShlWordValue(limbs: seq<nat>)
    requires limbs != [] && AreLimbs(limbs)
    ensures var n := |limbs| - 1;
      && AreLimbs([0] + limbs[..n])
      && Value([0] + limbs[..n]) + limbs[n] * Pow2(LIMB_BITS * |limbs|) == Value(limbs) * Pow2(LIMB_BITS)
  {
    hide Pow2, W;
    WIs();
    var n := |limbs| - 1;
    var up := [0] + limbs[..n];
    ValueSnoc(up, limbs[n]);
    assert up + [limbs[n]] == [0] + limbs && ([0] + limbs)[1..] == limbs;
  }

  /** `after` is `before * 2^n` without the bits that leave the top, which are worth `over`. */
  ghost predicate ShiftedBy(before: seq<nat>, n: nat, after: seq<nat>, over: nat) {
    && |after| == |before| && AreLimbs(after)
    && Value(after) + over * Pow2(LIMB_BITS * |before|) == Value(before) * Pow2(n)
  }

  lemma ShiftedCompose(a: seq<nat>, m: nat, b: seq<nat>, over: nat, n: nat, c: seq<nat>, over': nat)
    requires ShiftedBy(a, m, b, over) && ShiftedBy(b, n, c, over')
    ensures ShiftedBy(a, m + n, c, over' + over * Pow2(n))
  {
    hide Pow2, Value, AreLimbs;
    Pow2Add(m, n);
    ComposeAlgebra(Value(a), Pow2(m), Value(b), over, Pow2(n), Value(c), over', Pow2(LIMB_BITS * |a|));
  }

  lemma ComposeAlgebra(a: nat, p: nat, b: nat, o: nat, q: nat, c: nat, o': nat, m: nat)
    requires b + o * m == a * p && c + o' * m == b * q
    ensures c + (o' + o * q) * m == a * (p * q)
  {
    assert (o * q) * m == (o * m) * q;
    assert (b + o * m) * q == b * q + (o * m) * q;
    assert (a * p) * q == a * (p * q);
  }

  lemma ShiftedIsModulo(before: seq<nat>, n: nat, after: seq<nat>, over: nat)
    requires ShiftedBy(before, n, after, over)
    ensures AreLimbs(after) && Value(after) == (Value(before) * Pow2(n)) % Pow2(LIMB_BITS * |before|)
  {
    hide Pow2, Value;
    ValueBound(after);
    DivModUnique(Value(before) * Pow2(n), Pow2(LIMB_BITS * |before|), over, Value(after));
  }

  lemma ShiftedOut(before: seq<nat>, n: nat, after: seq<nat>)
    requires n >= LIMB_BITS * |before| && |after| == |before| && AreLimbs(after) && Value(after) == 0
    ensures ShiftedBy(before, n, after, Value(before) * Pow2(n - LIMB_BITS * |before|))
  {
    hide Pow2, Value;
    Pow2Add(n - LIMB_BITS * |before|, LIMB_BITS * |before|);
    Associates(Value(before), Pow2(n - LIMB_BITS * |before|), Pow2(LIMB_BITS * |before|));
  }

  lemma Associates(a: nat, b: nat, c: nat)
    ensures (a * b) * c == a * (b * c)
  {
  }

  lemma {:induction false} ZeroValue(limbs: seq<nat>)
    requires forall i :: 0 <= i < |limbs| ==> limbs[i] == 0
    ensures Value(limbs) == 0 && AreLimbs(limbs)
  {
    if limbs != [] { ZeroValue(limbs[1..]); }
  }

  method ShlWordInPlace(a: array<nat>) returns (ghost over: nat)
    requires a.Length == LIMBS && AreLimbs(a[..])
    modifies a
    ensures ShiftedBy(old(a[..]), LIMB_BITS, a[..], over)
  {
    hide Value, AreLimbs, Pow2;
    ShlWordValue(a[..]);
    ghost var up := [0] + a[..LIMBS - 1];
    over := a[LIMBS - 1];
    var t := 0;
    for i := 0 to LIMBS
      invariant a[i..] == old(a[i..]) && a[..i] == up[..i] && t == if i == 0 then 0 else old(a[i - 1])
    {
      t, a[i] := a[i], t;
    }
    assert a[..] == up;
  }

  method ShlBitsInPlace(a: array<nat>, n: nat) returns (ghost over: nat)
    requires a.Length == LIMBS && AreLimbs(a[..]) && n < LIMB_BITS
    modifies a
    ensures ShiftedBy(old(a[..]), n, a[..], over)
  {
    hide Value, AreLimbs, Pow2, ShlLimb, CarryOf, Overflow;
    ShlBitsLimbs(a[..], n, 0);
    ShlBitsValue(a[..], n, 0);
    over := Overflow(a[..], n, 0);
    ghost var shifted := ShlBits(a[..], n, 0);
    var t := 0;
    for i := 0 to LIMBS
      invariant a[i..] == old(a[i..]) && |shifted| == LIMBS
      invariant a[..i] == shifted[..i] && shifted[i..] == ShlBits(a[i..], n, t)
    {
      var t2 := CarryOf(a[i], n);
      ghost var rest := a[i..];
      assert rest[1..] == a[i + 1..] && shifted[i..][1..] == shifted[i + 1..];
      a[i] := ShlLimb(a[i], n, t);
      t := t2;
    }
    assert a[..] == shifted;
  }

  /** `shl`: the value times `2^n`, cut to 256 bits. */
  method Shl(a: array<nat>, n: nat)
    requires a.Length == LIMBS && AreLimbs(a[..])
    modifies a
    ensures AreLimbs(a[..]) && Value(a[..]) == (Value(old(a[..])) * Pow2(n)) % Pow2(LIMB_BITS * LIMBS)
  {
    hide Value, Pow2, AreLimbs;
    ghost var before := a[..];
    if n >= LIMB_BITS * LIMBS {
      a[0], a[1], a[2], a[3] := 0, 0, 0, 0;
      ZeroValue(a[..]);
      ShiftedOut(before, n, a[..]);
      ShiftedIsModulo(before, n, a[..], Value(before) * Pow2(n - LIMB_BITS * |before|));
      return;
    }
    var left: nat := n;
    ghost var over: nat := 0;
    Pow2Zero();
    assert ShiftedBy(before, n - left, a[..], over);
    hide ShiftedBy;
    while left >= LIMB_BITS
      invariant left <= n && ShiftedBy(before, n - left, a[..], over)
    {
      ghost var mid := a[..];
      ghost var o := ShlWordInPlace(a);
      ShiftedCompose(before, n - left, mid, over, LIMB_BITS, a[..], o);
      over := o + over * Pow2(LIMB_BITS);
      left := left - LIMB_BITS;
    }
    if left > 0 {
      ghost var mid := a[..];
      ghost var o := ShlBitsInPlace(a, left);
      ShiftedCompose(before, n - left, mid, over, left, a[..], o);
      over := o + over * Pow2(left);
    }
    ShiftedIsModulo(before, n, a[..], over);
  }
}
