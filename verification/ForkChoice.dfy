/** Which of two blocks a node prefers, and the ring-shifted window density that long-range forks are decided by. */
module ForkChoice {
  import opened Commands

  const GRACE_PERIOD_END: u32 := 1440
  const SUB_WINDOWS_PER_WINDOW: u32 := 11
  const SLOTS_PER_SUB_WINDOW: u32 := 7

  /** The parts of a consensus state that fork choice reads; the VRF output as its digest, compared as a number. */
  datatype ConsensusState = ConsensusState(
    epochCount: u32,
    slotsPerEpoch: u32,
    globalSlot: u32,
    stakingLock: Hash,
    nextLock: Hash,
    blockchainLength: u32,
    minWindowDensity: u32,
    subWindowDensities: seq<u32>,
    vrf: Hash)

  datatype Candidate = Candidate(cs: ConsensusState, hash: Hash)

  /** What the source relies on: it divides by the epoch length and indexes eleven sub-windows. */
  predicate Usable(cs: ConsensusState) {
    cs.slotsPerEpoch > 0 && |cs.subWindowDensities| >= SUB_WINDOWS_PER_WINDOW
  }

  function Wrap(n: nat): u32 {
    n % U32_MODULUS
  }

  function Max(a: nat, b: nat): nat {
    if a < b then b else a
  }

  function Min(a: nat, b: nat): nat {
    if a < b then a else b
  }

  // ----- Short-range forks

  predicate OneEpochBehind(s1: ConsensusState, s2: ConsensusState)
    requires s2.slotsPerEpoch > 0
  {
    && s1.epochCount == Wrap(s2.epochCount + 1)
    && s2.globalSlot % s2.slotsPerEpoch >= Wrap(s2.slotsPerEpoch * 2) / 3
    && s1.stakingLock == s2.nextLock
  }

  predicate IsShortRangeFork(a: ConsensusState, b: ConsensusState)
    requires Usable(a) && Usable(b)
  {
    if a.epochCount == b.epochCount then a.stakingLock == b.stakingLock
    else OneEpochBehind(a, b) || OneEpochBehind(b, a)
  }

  // ----- Relative minimum window density

  function Sum(window: seq<u32>): nat {
    if window == [] then 0 else window[0] + Sum(window[1..])
  }

  function SubWindowOf(slot: u32): (i: nat)
    ensures i < SUB_WINDOWS_PER_WINDOW
  {
    (slot / SLOTS_PER_SUB_WINDOW) % SUB_WINDOWS_PER_WINDOW
  }

  /** How many steps after the sub-window `i0` the ring reaches `j`, counted from zero. */
  function RingDistance(i0: nat, j: nat): (d: nat)
    requires i0 < SUB_WINDOWS_PER_WINDOW && j < SUB_WINDOWS_PER_WINDOW
    ensures d < SUB_WINDOWS_PER_WINDOW
    ensures (i0 + 1 + d) % SUB_WINDOWS_PER_WINDOW == j
  {
    if i0 < j then j - i0 - 1 else j + SUB_WINDOWS_PER_WINDOW - 1 - i0
  }

  /** The window with the `n` sub-windows that follow `i0` on the ring emptied, and all others kept. */
  ghost function Emptied(window: seq<u32>, i0: nat, n: nat): (w: seq<u32>)
    requires i0 < SUB_WINDOWS_PER_WINDOW
    ensures |w| == |window|
  {
    seq(|window|, j requires 0 <= j < |window| =>
      if j < SUB_WINDOWS_PER_WINDOW && RingDistance(i0, j) < n then 0 else window[j])
  }

  ghost function ShiftCount(slot: u32, maxSlot: u32): nat {
    Min(if maxSlot < Wrap(slot + 1) then 0 else maxSlot - Wrap(slot + 1), SUB_WINDOWS_PER_WINDOW)
  }

  ghost function RelativeDensity(b1: ConsensusState, b2: ConsensusState): nat {
    var maxSlot := Max(b1.globalSlot, b2.globalSlot);
    if maxSlot < GRACE_PERIOD_END then b1.minWindowDensity
    else
      var shift := ShiftCount(b1.globalSlot, maxSlot);
      var projected := Emptied(b1.subWindowDensities, SubWindowOf(b1.globalSlot), shift + 1);
      Min(b1.minWindowDensity, Wrap(Sum(projected)))
  }

  method Density(window: seq<u32>) returns (d: u32)
    ensures d == Wrap(Sum(window))
  {
    d := 0;
    assert window[..|window|] == window;
    for i := 0 to |window|
      invariant d == Wrap(Sum(window[..i]))
    {
      SumStep(window, i);
      WrapAdd(Sum(window[..i]), window[i]);
      d := Wrap(d + window[i]);
    }
  }

  lemma WrapAdd(a: nat, b: nat)
    ensures Wrap(Wrap(a) + b) == Wrap(a + b)
  {}

  lemma {:induction false} SumStep(window: seq<u32>, i: nat)
    requires i < |window|
    ensures Sum(window[..i + 1]) == Sum(window[..i]) + window[i]
  {
    if i > 0 {
      SumStep(window[1..], i - 1);
      assert window[..i + 1][1..] == window[1..][..i] && window[..i][1..] == window[1..][..i - 1];
    } else {
      assert window[..1][1..] == [];
    }
  }

  /** The ring-shift loop empties exactly the sub-windows after the block's own one. */
  method RingShift(window: seq<u32>, i0: nat, shiftCount: nat) returns (projected: seq<u32>)
    requires i0 < SUB_WINDOWS_PER_WINDOW <= |window| && shiftCount <= SUB_WINDOWS_PER_WINDOW
    ensures projected == Emptied(window, i0, shiftCount + 1)
  {
    projected := window;
    var i := i0;
    assert projected == Emptied(window, i0, 0);
    hide Emptied;
    for t := 0 to shiftCount + 1
      invariant i == (i0 + t) % SUB_WINDOWS_PER_WINDOW
      invariant projected == Emptied(window, i0, t)
    {
      i := (i + 1) % SUB_WINDOWS_PER_WINDOW;
      assert i == (i0 + t + 1) % SUB_WINDOWS_PER_WINDOW by { RingStep(i0, t); }
      EmptiedStep(window, i0, t);
      projected := projected[i := 0];
    }
  }

  method RelativeMinWindowDensity(b1: ConsensusState, b2: ConsensusState) returns (d: u32)
    requires Usable(b1)
    ensures d == RelativeDensity(b1, b2)
  {
    hide Wrap, Emptied, Sum, SubWindowOf;
    var maxSlot := Max(b1.globalSlot, b2.globalSlot);
    if maxSlot < GRACE_PERIOD_END {
      return b1.minWindowDensity;
    }
    var next := Wrap(b1.globalSlot + 1);
    var shiftCount := Min(if maxSlot < next then 0 else maxSlot - next, SUB_WINDOWS_PER_WINDOW);
    var projected := RingShift(b1.subWindowDensities, SubWindowOf(b1.globalSlot), shiftCount);
    var density := Density(projected);
    d := Min(b1.minWindowDensity, density);
  }

  lemma RingStep(i0: nat, t: nat)
    ensures ((i0 + t) % SUB_WINDOWS_PER_WINDOW + 1) % SUB_WINDOWS_PER_WINDOW == (i0 + t + 1) % SUB_WINDOWS_PER_WINDOW
  {}

  lemma EmptiedStep(window: seq<u32>, i0: nat, t: nat)
    requires i0 < SUB_WINDOWS_PER_WINDOW <= |window| && t <= SUB_WINDOWS_PER_WINDOW
    ensures Emptied(window, i0, t)[(i0 + t + 1) % SUB_WINDOWS_PER_WINDOW := 0] == Emptied(window, i0, t + 1)
  {
    var i := (i0 + t + 1) % SUB_WINDOWS_PER_WINDOW;
    assert RingDistance(i0, i) == if t < SUB_WINDOWS_PER_WINDOW then t else 0;
    var before, after := Emptied(window, i0, t), Emptied(window, i0, t + 1);
    forall j | 0 <= j < |window| ensures before[i := 0][j] == after[j] {
      if j < SUB_WINDOWS_PER_WINDOW && j != i { assert RingDistance(i0, j) != t; }
    }
  }

  lemma {:induction false} SumMonotone(a: seq<u32>, b: seq<u32>)
    requires |a| == |b| && forall j :: 0 <= j < |a| ==> a[j] <= b[j]
    ensures Sum(a) <= Sum(b)
  {
    if a != [] { SumMonotone(a[1..], b[1..]); }
  }

  /**
   The later the other block, the lower the density of this one, also across the end of
   the grace period. The densities of a window are small numbers; only if they added up
   to 2^32 would the sum wrap around.
   */
  lemma DensityNonIncreasing(b1: ConsensusState, b2: ConsensusState, later: ConsensusState)
    requires Sum(b1.subWindowDensities) < U32_MODULUS
    requires b2.globalSlot <= later.globalSlot
    ensures RelativeDensity(b1, later) <= RelativeDensity(b1, b2) <= b1.minWindowDensity
  {
    var i0, w := SubWindowOf(b1.globalSlot), b1.subWindowDensities;
    var n := ShiftCount(b1.globalSlot, Max(b1.globalSlot, b2.globalSlot)) + 1;
    var n' := ShiftCount(b1.globalSlot, Max(b1.globalSlot, later.globalSlot)) + 1;
    assert n <= n' by { hide Wrap; }
    EmptiedSum(w, i0, n, n');
    WrapIdentity(Sum(Emptied(w, i0, n)));
    WrapIdentity(Sum(Emptied(w, i0, n')));
    hide Wrap, Emptied, Sum, ShiftCount, SubWindowOf;
  }

  lemma WrapIdentity(n: nat)
    requires n < U32_MODULUS
    ensures Wrap(n) == n
  {}

  lemma EmptiedSum(window: seq<u32>, i0: nat, n: nat, n': nat)
    requires i0 < SUB_WINDOWS_PER_WINDOW && n <= n'
    ensures Sum(Emptied(window, i0, n')) <= Sum(Emptied(window, i0, n)) <= Sum(window)
  {
    hide RingDistance;
    SumMonotone(Emptied(window, i0, n'), Emptied(window, i0, n));
    SumMonotone(Emptied(window, i0, n), window);
  }

  lemma {:induction false} SumUpdate(window: seq<u32>, i: nat)
    requires i < |window|
    ensures Sum(window[i := 0]) == Sum(window) - window[i]
  {
    if i == 0 {
      assert window[0 := 0][1..] == window[1..];
    } else {
      SumUpdate(window[1..], i - 1);
      assert window[i := 0][1..] == window[1..][i - 1 := 0];
    }
  }

  lemma WrapLess(n: nat, e: u32)
    requires e <= n
    ensures Wrap(n - e) == if e <= Wrap(n) then Wrap(n) - e else Wrap(n) - e + U32_MODULUS
  {
  }

  /**
   For any densities, also such that their sum wraps around, and for every slot: one slot later the
   density is not higher exactly when the block itself is later, or the slot is still in the grace
   period, or it is beyond the ring, or the sub-window that drops out is covered by the wrapped sum
   of what is left, or that sum has reached the minimum density.
   */
  lemma NextSlotDensityIff(b1: ConsensusState, b2: ConsensusState, next: ConsensusState)
    requires Usable(b1) && next.globalSlot == b2.globalSlot + 1
    ensures RelativeDensity(b1, next) <= RelativeDensity(b1, b2) <==>
      || b2.globalSlot <= b1.globalSlot
      || b2.globalSlot < 1440
      || b2.globalSlot - b1.globalSlot > 11
      || DropIsCovered(b1, b2.globalSlot - b1.globalSlot)
  {
    hide Emptied, Sum, SubWindowOf, Wrap;
    if b2.globalSlot <= b1.globalSlot {
      NotAfterOwnSlot(b1, b2, next);
    } else if b2.globalSlot >= GRACE_PERIOD_END {
      hide RelativeDensity;
      DensityAfter(b1, b2);
      DensityAfter(b1, next);
      var n := b2.globalSlot - b1.globalSlot;
      if n <= SUB_WINDOWS_PER_WINDOW { DensityStep(b1, n); }
    }
  }

  /** From a slot not after the block's own the density is not higher one slot later. */
  lemma NotAfterOwnSlot(b1: ConsensusState, b2: ConsensusState, next: ConsensusState)
    requires b2.globalSlot <= b1.globalSlot && next.globalSlot == b2.globalSlot + 1
    ensures RelativeDensity(b1, next) <= RelativeDensity(b1, b2)
  {
    if next.globalSlot > b1.globalSlot { WrapIdentity(b1.globalSlot + 1); }
    hide Emptied, Sum, SubWindowOf, Wrap;
  }

  /** After `n` slots: what drops out next does not exceed the wrapped sum of what is left, or that sum suffices. */
  ghost predicate DropIsCovered(b1: ConsensusState, n: nat)
    requires Usable(b1)
  {
    var i0 := SubWindowOf(b1.globalSlot);
    var left := Emptied(b1.subWindowDensities, i0, n);
    left[(i0 + n + 1) % SUB_WINDOWS_PER_WINDOW] <= Wrap(Sum(left)) || b1.minWindowDensity <= Wrap(Sum(left))
  }

  /** The density once `n` sub-windows are emptied. */
  ghost function DensityAt(b1: ConsensusState, n: nat): nat {
    Min(b1.minWindowDensity, Wrap(Sum(Emptied(b1.subWindowDensities, SubWindowOf(b1.globalSlot), n))))
  }

  lemma DensityAfter(b1: ConsensusState, b2: ConsensusState)
    requires GRACE_PERIOD_END <= b2.globalSlot && b1.globalSlot < b2.globalSlot
    ensures RelativeDensity(b1, b2) == DensityAt(b1, Min(b2.globalSlot - b1.globalSlot, SUB_WINDOWS_PER_WINDOW + 1))
  {
    WrapIdentity(b1.globalSlot + 1);
    hide Wrap, Emptied, Sum, SubWindowOf;
  }

  lemma DensityStep(b1: ConsensusState, n: nat)
    requires Usable(b1) && n <= SUB_WINDOWS_PER_WINDOW
    ensures DensityAt(b1, n + 1) <= DensityAt(b1, n) <==> DropIsCovered(b1, n)
  {
    hide Wrap, Emptied, Sum, SubWindowOf;
    var i0 := SubWindowOf(b1.globalSlot);
    var left := Emptied(b1.subWindowDensities, i0, n);
    var i := (i0 + n + 1) % SUB_WINDOWS_PER_WINDOW;
    EmptiedStep(b1.subWindowDensities, i0, n);
    SumUpdate(left, i);
    WrapLess(Sum(left), left[i]);
  }

  lemma {:induction false} SumZero(window: seq<u32>)
    requires forall j :: 0 <= j < |window| ==> window[j] == 0
    ensures Sum(window) == 0
  {
    if window != [] { SumZero(window[1..]); }
  }

  lemma SumCons(d: u32, window: seq<u32>)
    ensures Sum([d] + window) == d + Sum(window)
  {
    assert ([d] + window)[1..] == window;
  }

  /** A window whose densities add up to 2^32 and whose relative density grows with the slot. */
  lemma WrappedDensityCanGrow()
    ensures exists b1: ConsensusState, b2: ConsensusState, next: ConsensusState ::
      Usable(b1) && b2.globalSlot < next.globalSlot && RelativeDensity(b1, b2) < RelativeDensity(b1, next)
  {
    var w := [0, 1, U32_MODULUS - 1, 0, 0, 0, 0, 0, 0, 0, 0];
    var b1 := ConsensusState(0, 3, 2000, 0, 0, 0, 5, w, 0);
    var b2, next := b1.(globalSlot := 2001), b1.(globalSlot := 2002);
    assert SubWindowOf(2000) == 10;
    assert Emptied(w, 10, 1) == w;
    var zeros: seq<u32> := [0, 0, 0, 0, 0, 0, 0, 0];
    assert w == [0, 1, U32_MODULUS - 1] + zeros;
    hide Sum, Emptied, RelativeDensity;
    ThreeThenZeros(0, 1, U32_MODULUS - 1, zeros);
    NextSlotDensityIff(b1, b2, next);
  }

  lemma ThreeThenZeros(a: u32, b: u32, c: u32, zeros: seq<u32>)
    requires forall j :: 0 <= j < |zeros| ==> zeros[j] == 0
    ensures Sum([a, b, c] + zeros) == a + b + c
  {
    SumZero(zeros);
    SumCons(c, zeros);
    SumCons(b, [c] + zeros);
    SumCons(a, [b] + ([c] + zeros));
    assert [a, b, c] + zeros == [a] + ([b] + ([c] + zeros));
  }

  // ----- Fork choice

  datatype Reason = ByDensity | ByChainLength | ByVrf | ByStateHash

  function TieBreak(tip: Candidate, candidate: Candidate): (bool, Reason) {
    if candidate.cs.blockchainLength != tip.cs.blockchainLength then
      (candidate.cs.blockchainLength > tip.cs.blockchainLength, ByChainLength)
    else if candidate.cs.vrf != tip.cs.vrf then (candidate.cs.vrf > tip.cs.vrf, ByVrf)
    else (candidate.hash > tip.hash, ByStateHash)
  }

  ghost function LongRangeForkTake(tip: Candidate, candidate: Candidate): (bool, Reason) {
    var tipDensity := RelativeDensity(tip.cs, candidate.cs);
    var candidateDensity := RelativeDensity(candidate.cs, tip.cs);
    if candidateDensity != tipDensity then (candidateDensity > tipDensity, ByDensity)
    else TieBreak(tip, candidate)
  }

  ghost predicate Takes(tip: Candidate, candidate: Candidate)
    requires Usable(tip.cs) && Usable(candidate.cs)
  {
    if IsShortRangeFork(tip.cs, candidate.cs) then TieBreak(tip, candidate).0
    else LongRangeForkTake(tip, candidate).0
  }

  /** `consensus_take`. */
  method ConsensusTake(tip: Candidate, candidate: Candidate) returns (take: bool)
    requires Usable(tip.cs) && Usable(candidate.cs)
    ensures take == Takes(tip, candidate)
    ensures IsShortRangeFork(tip.cs, candidate.cs) ==> (take <==> Outranks(candidate, tip))
  {
    if IsShortRangeFork(tip.cs, candidate.cs) { ShortRangeTakesIff(tip, candidate); }
    if IsShortRangeFork(tip.cs, candidate.cs) {
      return TieBreak(tip, candidate).0;
    }
    var tipDensity := RelativeMinWindowDensity(tip.cs, candidate.cs);
    var candidateDensity := RelativeMinWindowDensity(candidate.cs, tip.cs);
    if candidateDensity > tipDensity {
      return true;
    } else if candidateDensity < tipDensity {
      return false;
    }
    take := TieBreak(tip, candidate).0;
  }

  /** The longer chain; between chains of one length the greater VRF output; between equal ones the greater hash. */
  ghost predicate Outranks(a: Candidate, b: Candidate) {
    || a.cs.blockchainLength > b.cs.blockchainLength
    || (&& a.cs.blockchainLength == b.cs.blockchainLength
        && (a.cs.vrf > b.cs.vrf || (a.cs.vrf == b.cs.vrf && a.hash > b.hash)))
  }

  /** In a short-range fork the candidate is taken exactly if it outranks the tip. */
  lemma ShortRangeTakesIff(tip: Candidate, candidate: Candidate)
    requires ShortRange(tip, candidate)
    ensures Takes(tip, candidate) <==> Outranks(candidate, tip)
  {
  }

  /** In a long-range fork exactly if it is denser, or as dense and outranks the tip. */
  lemma LongRangeTakesIff(tip: Candidate, candidate: Candidate)
    requires Usable(tip.cs) && Usable(candidate.cs) && !IsShortRangeFork(tip.cs, candidate.cs)
    ensures Takes(tip, candidate) <==>
      || RelativeDensity(candidate.cs, tip.cs) > RelativeDensity(tip.cs, candidate.cs)
      || (RelativeDensity(candidate.cs, tip.cs) == RelativeDensity(tip.cs, candidate.cs) && Outranks(candidate, tip))
  {
    hide RelativeDensity;
  }

  /**
   The later of two blocks in neighbouring epochs makes a short-range fork with the earlier one
   exactly if the earlier one is in the last third of its epoch and the later one stakes on the
   ledger that the earlier one had locked for it. The third is rounded down.
   */
  lemma NeighbouringEpochsIff(a: ConsensusState, b: ConsensusState)
    requires Usable(a) && Usable(b) && a.epochCount == b.epochCount + 1 && 2 * b.slotsPerEpoch < U32_MODULUS
    ensures IsShortRangeFork(a, b) == IsShortRangeFork(b, a)
    ensures IsShortRangeFork(a, b) <==>
      a.stakingLock == b.nextLock && 2 * b.slotsPerEpoch <= 3 * (b.globalSlot % b.slotsPerEpoch) + 2
  {
    WrapIdentity(b.epochCount + 1);
    WrapIdentity(2 * b.slotsPerEpoch);
    assert a.epochCount + 1 < U32_MODULUS ==> Wrap(a.epochCount + 1) == a.epochCount + 1;
    hide Wrap;
  }

  /** Blocks of epochs further apart never do. */
  lemma DistantEpochs(a: ConsensusState, b: ConsensusState)
    requires Usable(a) && Usable(b) && b.epochCount + 1 < a.epochCount < U32_MODULUS - 1
    ensures !IsShortRangeFork(a, b) && !IsShortRangeFork(b, a)
  {
    WrapIdentity(b.epochCount + 1);
    WrapIdentity(a.epochCount + 1);
  }

  /** The sub-windows are seven slots each, and eleven of them make a round. */
  lemma SubWindowIs(n: nat, offset: nat)
    requires offset < 7 && 7 * n + offset < U32_MODULUS
    ensures SubWindowOf(7 * n + offset) == n % 11
  {
    assert (7 * n + offset) / 7 == n;
  }

  /** Until slot 1440 the minimum density is not projected. */
  lemma GracePeriod(b1: ConsensusState, b2: ConsensusState)
    requires b1.globalSlot < 1440 && b2.globalSlot < 1440
    ensures RelativeDensity(b1, b2) == b1.minWindowDensity
  {
  }

  /** Two nodes that hold different blocks never both switch and never both stay. */
  lemma TakeIsAntisymmetricAndTotal(a: Candidate, b: Candidate)
    requires Usable(a.cs) && Usable(b.cs) && a.hash != b.hash
    ensures Takes(a, b) <==> !Takes(b, a)
  {
    assert IsShortRangeFork(a.cs, b.cs) == IsShortRangeFork(b.cs, a.cs);
  }

  // ----- Transitivity

  /** The long-range rule overturns the tie break: the block that the tie break ranks lower is denser. */
  ghost predicate Flips(lower: Candidate, higher: Candidate)
    requires Usable(lower.cs) && Usable(higher.cs)
  {
    && !IsShortRangeFork(lower.cs, higher.cs)
    && RelativeDensity(higher.cs, lower.cs) < RelativeDensity(lower.cs, higher.cs)
  }

  lemma TakesUnlessFlipped(a: Candidate, b: Candidate)
    requires Usable(a.cs) && Usable(b.cs) && TieBreak(a, b).0
    ensures Takes(a, b) <==> !Flips(a, b)
    ensures Takes(b, a) <==> Flips(a, b)
  {
    hide RelativeDensity;
    assert IsShortRangeFork(a.cs, b.cs) == IsShortRangeFork(b.cs, a.cs);
  }

  /** The tie break alone ranks any candidates with different hashes. */
  lemma TieBreakOrders(a: Candidate, b: Candidate, c: Candidate)
    ensures a.hash != b.hash ==> (TieBreak(a, b).0 <==> !TieBreak(b, a).0)
    ensures TieBreak(a, b).0 && TieBreak(b, c).0 ==> TieBreak(a, c).0
    ensures TieBreak(a, b).0 ==> a != b
  {
  }

  ghost predicate Circular(a: Candidate, b: Candidate, c: Candidate)
    requires Usable(a.cs) && Usable(b.cs) && Usable(c.cs)
  {
    (Takes(a, b) && Takes(b, c) && Takes(c, a)) || (Takes(b, a) && Takes(c, b) && Takes(a, c))
  }

  /**
   Three blocks, named in the order of the tie break, are preferred in a circle exactly when
   density overturns the outer pair but neither inner pair, or both inner pairs but not the outer.
   */
  lemma CircularIff(a: Candidate, b: Candidate, c: Candidate)
    requires Usable(a.cs) && Usable(b.cs) && Usable(c.cs) && TieBreak(a, b).0 && TieBreak(b, c).0
    ensures Circular(a, b, c) <==> Flips(a, b) == Flips(b, c) != Flips(a, c)
  {
    TieBreakOrders(a, b, c);
    TakesUnlessFlipped(a, b);
    TakesUnlessFlipped(b, c);
    TakesUnlessFlipped(a, c);
  }

  /** Two candidates that the short-range rule compares, of one epoch or of neighbouring ones. */
  ghost predicate ShortRange(a: Candidate, b: Candidate) {
    Usable(a.cs) && Usable(b.cs) && IsShortRangeFork(a.cs, b.cs)
  }

  /** One epoch and one staking ledger make a short-range fork. */
  lemma SameEpochLedgerIsShortRange(a: Candidate, b: Candidate)
    requires Usable(a.cs) && Usable(b.cs) && a.cs.epochCount == b.cs.epochCount
    ensures ShortRange(a, b) <==> a.cs.stakingLock == b.cs.stakingLock
  {
  }

  /** Where only the short-range rule is at work, preference is transitive. */
  lemma TakeIsTransitive(a: Candidate, b: Candidate, c: Candidate)
    requires ShortRange(a, b) && ShortRange(b, c) && ShortRange(a, c)
    requires Takes(a, b) && Takes(b, c)
    ensures Takes(a, c)
  {
    TieBreakOrders(a, b, c);
  }

  // ----- Following arrivals

  /** What a node ends up with that starts from `tip` and sees `arrivals` in this order. */
  ghost function Follow(tip: Candidate, arrivals: seq<Candidate>): (best: Candidate)
    requires Usable(tip.cs) && forall c :: c in arrivals ==> Usable(c.cs)
    ensures best == tip || best in arrivals
    decreases |arrivals|
  {
    if arrivals == [] then tip
    else Follow(if Takes(tip, arrivals[0]) then arrivals[0] else tip, arrivals[1..])
  }

  ghost function Seen(tip: Candidate, arrivals: seq<Candidate>): set<Candidate> {
    {tip} + set c | c in arrivals
  }

  /** Candidates that fork choice can compare, told apart by their hashes. */
  ghost predicate Comparable(cands: set<Candidate>) {
    && (forall c :: c in cands ==> Usable(c.cs))
    && (forall c, d :: c in cands && d in cands && c.hash == d.hash ==> c == d)
  }

  /** The block that is preferred to each other one. */
  ghost predicate IsWinner(w: Candidate, cands: set<Candidate>)
    requires Comparable(cands)
  {
    w in cands && forall c :: c in cands && c != w ==> Takes(c, w)
  }

  lemma SeenUsable(tip: Candidate, arrivals: seq<Candidate>)
    requires Comparable(Seen(tip, arrivals))
    ensures Usable(tip.cs) && forall d :: d in arrivals ==> Usable(d.cs)
  {
    assert tip in Seen(tip, arrivals);
    forall d | d in arrivals ensures Usable(d.cs) {
      assert d in Seen(tip, arrivals);
    }
  }

  /** A node that sees the winner ends up with it, whenever it sees it. */
  lemma {:induction false} FollowReachesWinner(tip: Candidate, arrivals: seq<Candidate>, w: Candidate)
    requires Comparable(Seen(tip, arrivals)) && IsWinner(w, Seen(tip, arrivals))
    ensures Usable(tip.cs) && forall d :: d in arrivals ==> Usable(d.cs)
    ensures Follow(tip, arrivals) == w
    decreases |arrivals|
  {
    hide Takes;
    SeenUsable(tip, arrivals);
    if arrivals != [] {
      var first := arrivals[0];
      assert first in Seen(tip, arrivals) && tip in Seen(tip, arrivals);
      var next := if Takes(tip, first) then first else tip;
      if tip == w && first != w { TakeIsAntisymmetricAndTotal(tip, first); }
      assert Seen(next, arrivals[1..]) <= Seen(tip, arrivals);
      assert w in Seen(next, arrivals[1..]);
      FollowReachesWinner(next, arrivals[1..], w);
    }
  }

  lemma {:induction false} FollowSnoc(tip: Candidate, arrivals: seq<Candidate>, last: Candidate)
    requires Usable(tip.cs) && Usable(last.cs) && forall d :: d in arrivals ==> Usable(d.cs)
    ensures var best := Follow(tip, arrivals);
      Follow(tip, arrivals + [last]) == if Takes(best, last) then last else best
    decreases |arrivals|
  {
    hide Takes;
    if arrivals == [] {
      assert arrivals + [last] == [last];
    } else {
      assert (arrivals + [last])[1..] == arrivals[1..] + [last];
      FollowSnoc(if Takes(tip, arrivals[0]) then arrivals[0] else tip, arrivals[1..], last);
    }
  }

  /** The same blocks, each as often, in any order. */
  ghost predicate SameArrivals(tip: Candidate, arrivals: seq<Candidate>, tip': Candidate, arrivals': seq<Candidate>) {
    multiset([tip'] + arrivals') == multiset([tip] + arrivals)
  }

  lemma SameArrivalsSeen(tip: Candidate, arrivals: seq<Candidate>, tip': Candidate, arrivals': seq<Candidate>)
    requires SameArrivals(tip, arrivals, tip', arrivals')
    ensures Seen(tip', arrivals') == Seen(tip, arrivals)
  {
    forall c: Candidate ensures c in Seen(tip', arrivals') <==> c in Seen(tip, arrivals) {
      assert c in Seen(tip, arrivals) <==> c in multiset([tip] + arrivals);
      assert c in Seen(tip', arrivals') <==> c in multiset([tip'] + arrivals');
    }
  }

  /** Another order: one of the arrivals last, the others as they came. */
  lemma PutLast(tip: Candidate, arrivals: seq<Candidate>, y: Candidate, z: Candidate)
    returns (tip': Candidate, rest: seq<Candidate>)
    requires y in Seen(tip, arrivals) && z in Seen(tip, arrivals) && y != z
    ensures SameArrivals(tip, arrivals, tip', rest + [y])
  {
    var all := [tip] + arrivals;
    assert y in all;
    var i :| 0 <= i < |all| && all[i] == y;
    var others := all[..i] + all[i + 1..];
    MovedLast(all, i);
    assert z in others by { assert z in all; }
    tip', rest := others[0], others[1..];
    assert [tip'] + (rest + [y]) == others + [y];
  }

  lemma MovedLast<T>(all: seq<T>, i: nat)
    requires i < |all|
    ensures multiset(all[..i] + all[i + 1..] + [all[i]]) == multiset(all)
    ensures forall z :: z in all && z != all[i] ==> z in all[..i] + all[i + 1..]
  {
    assert all == all[..i] + [all[i]] + all[i + 1..];
  }

  /** Without a winner another order of the same blocks ends elsewhere. */
  lemma OrderMattersWithoutWinner(tip: Candidate, arrivals: seq<Candidate>)
    returns (tip': Candidate, arrivals': seq<Candidate>)
    requires Comparable(Seen(tip, arrivals)) && forall w :: !IsWinner(w, Seen(tip, arrivals))
    ensures SameArrivals(tip, arrivals, tip', arrivals')
    ensures Usable(tip.cs) && forall d :: d in arrivals ==> Usable(d.cs)
    ensures Usable(tip'.cs) && forall d :: d in arrivals' ==> Usable(d.cs)
    ensures Follow(tip', arrivals') != Follow(tip, arrivals)
  {
    hide Takes;
    var cands := Seen(tip, arrivals);
    SeenUsable(tip, arrivals);
    var best := Follow(tip, arrivals);
    assert best in cands && !IsWinner(best, cands);
    var y :| y in cands && y != best && !Takes(y, best);
    TakeIsAntisymmetricAndTotal(best, y);
    var rest;
    tip', rest := PutLast(tip, arrivals, y, best);
    arrivals' := rest + [y];
    SameArrivalsSeen(tip, arrivals, tip', arrivals');
    SeenUsable(tip', arrivals');
    assert forall d :: d in rest ==> d in arrivals';
    FollowSnoc(tip', rest, y);
  }

  /** Every order of the same blocks ends at the same one. */
  ghost predicate OrderIrrelevant(tip: Candidate, arrivals: seq<Candidate>)
    requires Comparable(Seen(tip, arrivals))
  {
    SeenUsable(tip, arrivals);
    forall tip': Candidate, arrivals': seq<Candidate> | SameArrivals(tip, arrivals, tip', arrivals') ::
      SameArrivalsSeen(tip, arrivals, tip', arrivals');
      SeenUsable(tip', arrivals'); Follow(tip', arrivals') == Follow(tip, arrivals)
  }

  /** The outcome is independent of the order of arrival exactly when one block is preferred to each other one. */
  lemma OrderIrrelevantIff(tip: Candidate, arrivals: seq<Candidate>)
    requires Comparable(Seen(tip, arrivals))
    ensures OrderIrrelevant(tip, arrivals) <==> exists w :: IsWinner(w, Seen(tip, arrivals))
  {
    hide Takes, Follow, SameArrivals;
    SeenUsable(tip, arrivals);
    if w :| IsWinner(w, Seen(tip, arrivals)) {
      FollowReachesWinner(tip, arrivals, w);
      forall tip': Candidate, arrivals': seq<Candidate> | SameArrivals(tip, arrivals, tip', arrivals')
        ensures Usable(tip'.cs) && forall d :: d in arrivals' ==> Usable(d.cs)
        ensures Follow(tip', arrivals') == Follow(tip, arrivals)
      {
        SameArrivalsSeen(tip, arrivals, tip', arrivals');
        FollowReachesWinner(tip', arrivals', w);
      }
    } else {
      var tip', arrivals' := OrderMattersWithoutWinner(tip, arrivals);
      SameArrivalsSeen(tip, arrivals, tip', arrivals');
      SeenUsable(tip', arrivals');
    }
  }

  /** Candidates any two of which make a short-range fork. */
  ghost predicate AllShortRange(cands: set<Candidate>) {
    Comparable(cands) && forall c, d :: c in cands && d in cands ==> ShortRange(c, d)
  }

  /** No candidate that was seen is preferred to the final one. */
  lemma {:induction false} FollowEndsAtBest(tip: Candidate, arrivals: seq<Candidate>, c: Candidate)
    requires AllShortRange(Seen(tip, arrivals)) && c in Seen(tip, arrivals)
    ensures Usable(tip.cs) && forall d :: d in arrivals ==> Usable(d.cs)
    ensures c == Follow(tip, arrivals) || Takes(c, Follow(tip, arrivals))
    decreases |arrivals|
  {
    hide Takes, ShortRange;
    SeenUsable(tip, arrivals);
    if arrivals != [] {
      var first := arrivals[0];
      assert first in Seen(tip, arrivals) && tip in Seen(tip, arrivals);
      var next := if Takes(tip, first) then first else tip;
      var best := Follow(next, arrivals[1..]);
      assert Seen(next, arrivals[1..]) <= Seen(tip, arrivals);
      assert best in Seen(next, arrivals[1..]) && next in Seen(tip, arrivals);
      FollowEndsAtBest(next, arrivals[1..], next);
      if c in Seen(next, arrivals[1..]) {
        FollowEndsAtBest(next, arrivals[1..], c);
      } else {
        Overtaken(tip, first, best);
        assert c == if Takes(tip, first) then tip else first;
      }
    }
  }

  /**
   Among short-range forks the outcome is the longest chain that was seen, of those the one with
   the greatest VRF output, and of those the one with the greatest hash.
   */
  lemma FollowEndsAtLongest(tip: Candidate, arrivals: seq<Candidate>, c: Candidate)
    requires AllShortRange(Seen(tip, arrivals)) && c in Seen(tip, arrivals)
    ensures Usable(tip.cs) && forall d :: d in arrivals ==> Usable(d.cs)
    ensures var best := Follow(tip, arrivals);
      && best in Seen(tip, arrivals)
      && c.cs.blockchainLength <= best.cs.blockchainLength
      && (c.cs.blockchainLength == best.cs.blockchainLength ==> c.cs.vrf <= best.cs.vrf)
      && (c.cs.blockchainLength == best.cs.blockchainLength && c.cs.vrf == best.cs.vrf ==> c.hash <= best.hash)
  {
    FollowEndsAtBest(tip, arrivals, c);
    hide Follow;
    var best := Follow(tip, arrivals);
    if c != best { ShortRangeTakesIff(c, best); }
  }

  /** A candidate that lost once against `next` also loses against whatever `next` loses against. */
  lemma Overtaken(tip: Candidate, first: Candidate, best: Candidate)
    requires ShortRange(tip, first) && ShortRange(first, tip) && ShortRange(tip, best) && ShortRange(first, best)
    requires tip.hash == first.hash ==> tip == first
    requires var next := if Takes(tip, first) then first else tip; next == best || Takes(next, best)
    ensures var loser := if Takes(tip, first) then tip else first; loser == best || Takes(loser, best)
  {
    if tip != first {
      TakeIsAntisymmetricAndTotal(tip, first);
      hide Takes, IsShortRangeFork;
      if Takes(tip, first) {
        if first != best { TakeIsTransitive(tip, first, best); }
      } else if tip != best {
        TakeIsTransitive(first, tip, best);
      }
    }
  }

  /** So among those the outcome does not depend on the order in which the blocks arrive. */
  lemma OrderDoesNotMatter(tip: Candidate, arrivals: seq<Candidate>)
    requires AllShortRange(Seen(tip, arrivals))
    ensures OrderIrrelevant(tip, arrivals)
  {
    hide Takes, OrderIrrelevant;
    SeenUsable(tip, arrivals);
    var best := Follow(tip, arrivals);
    forall c | c in Seen(tip, arrivals) && c != best ensures Takes(c, best) {
      FollowEndsAtBest(tip, arrivals, c);
    }
    assert IsWinner(best, Seen(tip, arrivals));
    OrderIrrelevantIff(tip, arrivals);
  }

  /** Three blocks of one epoch on two staking ledgers that are preferred in a circle. */
  lemma PreferenceCanCycle()
    ensures exists a: Candidate, b: Candidate, c: Candidate ::
      Usable(a.cs) && Usable(b.cs) && Usable(c.cs) && Takes(a, b) && Takes(b, c) && Takes(c, a)
  {
    var w := [0, 0, 0, 0, 0, 0, 0, 0, 0, 0, 0];
    var a := Candidate(ConsensusState(0, 3, 0, 0, 0, 9, 3, w, 0), 0);
    var b := Candidate(ConsensusState(0, 3, 0, 0, 0, 10, 1, w, 0), 1);
    var c := Candidate(ConsensusState(0, 3, 0, 1, 0, 10, 2, w, 0), 2);
    assert Takes(a, b) && Takes(b, c) && Takes(c, a);
  }
}
