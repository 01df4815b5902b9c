/** What expiry and size eviction take out of the pool. */
module Eviction {
  import opened Commands
  import opened Senders
  import opened QueueSteps
  import Buckets

  // ----- Expiry

  /** How many commands come before the first expired one. */
  ghost function LiveCount(cmds: seq<Command>, slot: Slot): (n: nat)
    ensures n <= |cmds|
    ensures forall i :: 0 <= i < n ==> cmds[i].validUntil >= slot
    ensures n < |cmds| ==> cmds[n].validUntil < slot
  {
    if cmds == [] || cmds[0].validUntil < slot then 0 else 1 + LiveCount(cmds[1..], slot)
  }

  ghost function ExpiredCommands(cmds: set<Command>, slot: Slot): set<Command> {
    set c | c in cmds && c.validUntil < slot
  }

  ghost predicate CutLive(cmds0: seq<Command>, cmds: seq<Command>, slot: Slot) {
    |cmds| <= |cmds0| && cmds == cmds0[..|cmds|] && LiveCount(cmds0, slot) <= |cmds|
  }

  /** On the way from `m0` to the expired pool: every queue is cut, but not before its first expired command. */
  ghost predicate PartlyExpired(m0: Queues, m: Queues, slot: Slot) {
    && (forall s :: s in m ==> s in m0 && CutLive(m0[s].cmds, m[s].cmds, slot))
    && (forall s :: s in m0 && LiveCount(m0[s].cmds, slot) > 0 ==> s in m)
  }

  /** The pool that expiry must leave: every queue ends before its first expired command. */
  ghost predicate FullyExpired(m0: Queues, m: Queues, slot: Slot) {
    && (forall s :: s in m <==> s in m0 && LiveCount(m0[s].cmds, slot) > 0)
    && (forall s :: s in m ==> m[s].cmds == m0[s].cmds[..LiveCount(m0[s].cmds, slot)])
  }

  lemma PartlyExpiredStep(m0: Queues, m: Queues, slot: Slot, s: AccountId, k: nat)
    requires QueuesOk(m) && PartlyExpired(m0, m, slot)
    requires s in m && k < |m[s].cmds| && m[s].cmds[k].validUntil < slot
    ensures PartlyExpired(m0, Put(m, s, Cut(m[s], k)), slot)
  {
    CutLiveStep(m0[s].cmds, m[s].cmds, slot, k);
    CutOk(s, m[s], k);
    hide QueueOk, Cut, CutLive;
  }

  lemma CutLiveStep(cmds0: seq<Command>, cmds: seq<Command>, slot: Slot, k: nat)
    requires CutLive(cmds0, cmds, slot) && k < |cmds| && cmds[k].validUntil < slot
    ensures CutLive(cmds0, cmds[..k], slot) && LiveCount(cmds0, slot) <= k
  {
    assert cmds0[k] == cmds[k];
  }

  lemma PartlyExpiredDone(m0: Queues, m: Queues, slot: Slot)
    requires QueuesOk(m) && PartlyExpired(m0, m, slot)
    requires ExpiredCommands(All(m), slot) == {}
    ensures FullyExpired(m0, m, slot)
  {
    forall s | s in m ensures |m[s].cmds| == LiveCount(m0[s].cmds, slot) {
      forall i | 0 <= i < |m[s].cmds| ensures m0[s].cmds[i].validUntil >= slot {
        assert m[s].cmds[i] in m[s].cmds;
        assert m[s].cmds[i] in All(m) && m[s].cmds[i] !in ExpiredCommands(All(m), slot);
      }
    }
  }

  /**
   Seen from the commands: what expiry removed is exactly the expired commands and
   those of the same sender that come after an expired one.
   */
  lemma ExpiredRemovesExactly(m0: Queues, m: Queues, slot: Slot, s: AccountId, i: nat)
    requires QueuesOk(m0) && QueuesOk(m) && FullyExpired(m0, m, slot) && s in m0 && i < |m0[s].cmds|
    ensures m0[s].cmds[i] !in All(m) <==> exists j :: 0 <= j <= i && m0[s].cmds[j].validUntil < slot
  {
    var cmds, n := m0[s].cmds, LiveCount(m0[s].cmds, slot);
    var c := cmds[i];
    assert c in cmds;
    AllMember(m, c);
    if i < n {
      assert c == m[s].cmds[i];
    } else {
      assert cmds[n].validUntil < slot;
      NotBefore(cmds, n, i);
      assert s in m ==> m[s].cmds == cmds[..n];
    }
  }

  lemma NotBefore(cmds: seq<Command>, n: nat, i: nat)
    requires Chained(cmds) && n <= i < |cmds|
    ensures cmds[i] !in cmds[..n]
  {
    forall j | 0 <= j < n ensures cmds[..n][j] != cmds[i] {
      ChainedDistinct(cmds, i, j);
    }
  }

  /** `expired_by_global_slot`. */
  function BeforeSlot(index: map<Slot, set<Command>>, slot: Slot): set<Command> {
    set s, c | s in index && s < slot && c in index[s] :: c
  }

  lemma BeforeSlotExact(all: set<Command>, slot: Slot)
    ensures BeforeSlot(Buckets.GroupBy(Expiring(all), Expiry), slot) == ExpiredCommands(all, slot)
  {
    var index := Buckets.GroupBy(Expiring(all), Expiry);
    forall c ensures c in BeforeSlot(index, slot) <==> c in ExpiredCommands(all, slot) {
      if c in ExpiredCommands(all, slot) {
        assert c in Expiring(all);
        assert Expiry(c) in index && c in index[Expiry(c)];
      }
    }
  }

  /** The state of the loop that removes expired commands one by one. */
  ghost predicate ExpiryProgress(m0: Queues, m: Queues, slot: Slot, pending: set<Command>, dropped: seq<Command>) {
    && PartlyExpired(m0, m, slot)
    && All(m) <= All(m0)
    && ExpiredCommands(All(m), slot) <= pending <= ExpiredCommands(All(m0), slot)
    && Elements(dropped) == All(m0) - All(m)
  }

  lemma ExpiryStart(m: Queues, slot: Slot)
    ensures ExpiryProgress(m, m, slot, ExpiredCommands(All(m), slot), [])
  {}

  lemma ExpirySkip(m0: Queues, m: Queues, slot: Slot, pending: set<Command>, dropped: seq<Command>, c: Command)
    requires ExpiryProgress(m0, m, slot, pending, dropped) && c !in All(m)
    ensures ExpiryProgress(m0, m, slot, pending - {c}, dropped)
  {
    hide PartlyExpired, All, Elements;
  }

  lemma ExpiryStep(m0: Queues, m: Queues, slot: Slot, pending: set<Command>, dropped: seq<Command>, c: Command, k: nat)
    requires QueuesOk(m) && ExpiryProgress(m0, m, slot, pending, dropped) && c in pending
    requires c.feePayer in m && k < |m[c.feePayer].cmds| && m[c.feePayer].cmds[k] == c
    ensures var q := m[c.feePayer];
      ExpiryProgress(m0, Put(m, c.feePayer, Cut(q, k)), slot, pending - {c}, dropped + q.cmds[k..])
  {
    var s, q := c.feePayer, m[c.feePayer];
    var gone := q.cmds[k..];
    assert gone[0] == c;
    assert c in Elements(gone) && Elements(gone) <= Elements(q.cmds);
    PartlyExpiredStep(m0, m, slot, s, k);
    hide PartlyExpired, All, Elements, QueuesOk, QueueOk, Put, Cut, ExpiredCommands;
    CutSets(m, s, k);
    SplitQueue(m, s);
    ElementsConcat(dropped, gone);
    ExpirySets(All(m0), All(m), Elements(gone), slot, pending, c);
  }

  lemma ExpirySets(
      all0: set<Command>, all: set<Command>, gone: set<Command>, slot: Slot, pending: set<Command>, c: Command)
    requires all <= all0 && gone <= all && c in gone
    requires ExpiredCommands(all, slot) <= pending <= ExpiredCommands(all0, slot)
    ensures ExpiredCommands(all - gone, slot) <= pending - {c} <= ExpiredCommands(all0, slot)
    ensures all0 - all + gone == all0 - (all - gone)
  {}

  // ----- The cheapest command

  /** The least fee rate, and among those the least hash. */
  ghost predicate IsCheapest(c: Command, cmds: set<Command>) {
    c in cmds && forall d :: d in cmds ==> Cheaper(c, d)
  }

  ghost predicate Cheaper(c: Command, d: Command) {
    Rate(c) < Rate(d) || (Rate(c) == Rate(d) && c.hash <= d.hash)
  }

  lemma {:induction false} CheapestExists(cmds: set<Command>)
    requires cmds != {}
    ensures exists c :: IsCheapest(c, cmds)
    decreases |cmds|
  {
    hide Rate;
    var c :| c in cmds;
    var rest := cmds - {c};
    assert cmds == rest + {c};
    if rest == {} {
      assert IsCheapest(c, cmds);
    } else {
      CheapestExists(rest);
      var e :| IsCheapest(e, rest);
      assert IsCheapest(if Cheaper(c, e) then c else e, cmds);
    }
  }

  predicate LeastKey(index: map<FeeRate, set<Command>>, fee: FeeRate) {
    forall f :: f in index ==> fee <= f
  }

  /** A non-empty fee index has a least rate, and its bucket a least hash. */
  lemma CheapestInIndex(all: set<Command>)
    requires all != {}
    ensures var index := Buckets.GroupBy(all, Rate);
      && (exists fee :: fee in index && LeastKey(index, fee))
      && (forall fee :: fee in index && LeastKey(index, fee) ==>
            exists c :: c in index[fee] && LeastHash(index[fee], c))
  {
    CheapestExists(all);
    var c :| IsCheapest(c, all);
    var index := Buckets.GroupBy(all, Rate);
    hide Rate;
    forall f | f in index ensures Rate(c) <= f {
      var d :| d in all && Rate(d) == f;
      assert Cheaper(c, d);
    }
    assert Rate(c) in index && c in index[Rate(c)];
    forall d: Command | d in index[Rate(c)] ensures c.hash <= d.hash {
      assert Cheaper(c, d);
    }
  }

  lemma LeastOfIndex(all: set<Command>, fee: FeeRate, c: Command)
    requires var index := Buckets.GroupBy(all, Rate);
      && fee in index && LeastKey(index, fee) && c in index[fee] && LeastHash(index[fee], c)
    ensures IsCheapest(c, all)
  {
    hide Rate;
    forall d | d in all ensures Cheaper(c, d) {
      assert Rate(d) in Buckets.GroupBy(all, Rate);
    }
  }

  /** The minimum of the keys of a fee index, and the first element of its bucket. */
  method CheapestOf(index: map<FeeRate, set<Command>>, ghost all: set<Command>) returns (min: Option<Command>)
    requires index == Buckets.GroupBy(all, Rate)
    ensures min.None? <==> all == {}
    ensures min.Some? ==> IsCheapest(min.value, all)
  {
    hide *;
    Buckets.EmptyGroups(all, Rate);
    if index == map[] {
      return None;
    }
    CheapestInIndex(all);
    var fee :| fee in index && LeastKey(index, fee);
    var c: Command :| c in index[fee] && LeastHash(index[fee], c);
    LeastOfIndex(all, fee, c);
    min := Some(c);
  }

  // ----- Eviction down to a size

  /** One pass of the eviction loop: the pool it starts from, the cheapest command, and what leaves with it. */
  datatype Round = Round(pool: Queues, victim: Command, dropped: seq<Command>)

  ghost predicate CutAt(m: Queues, c: Command, dropped: seq<Command>, m': Queues, k: nat) {
    && c.feePayer in m
    && var q := m[c.feePayer];
    && q.reserved == TotalConsumed(q.cmds) && k < |q.cmds| && q.cmds[k] == c && dropped == q.cmds[k..]
    && m' == Put(m, c.feePayer, Cut(q, k))
  }

  /** A round starts only above the limit and cuts one queue at a cheapest command of the whole pool. */
  ghost predicate RoundOk(r: Round, maxSize: nat, next: Queues) {
    && QueuesOk(r.pool) && |All(r.pool)| > maxSize && IsCheapest(r.victim, All(r.pool))
    && exists k :: CutAt(r.pool, r.victim, r.dropped, next, k)
  }

  ghost function PoolAfter(rounds: seq<Round>, i: nat, m: Queues): Queues
    requires i < |rounds|
  {
    if i + 1 < |rounds| then rounds[i + 1].pool else m
  }

  ghost function DroppedIn(rounds: seq<Round>): seq<Command> {
    if rounds == [] then [] else DroppedIn(rounds[..|rounds| - 1]) + rounds[|rounds| - 1].dropped
  }

  /** The rounds lead from the one pool to the other, and `list` is what they drop, in order. */
  ghost predicate Evicts(m0: Queues, m: Queues, maxSize: nat, rounds: seq<Round>, list: seq<Command>) {
    && m0 == (if rounds == [] then m else rounds[0].pool)
    && (forall i :: 0 <= i < |rounds| ==> RoundOk(rounds[i], maxSize, PoolAfter(rounds, i, m)))
    && list == DroppedIn(rounds)
  }

  lemma NoRounds(m: Queues, maxSize: nat)
    ensures Evicts(m, m, maxSize, [], [])
  {
  }

  lemma RoundIs(r: Round, maxSize: nat, next: Queues, k: nat)
    requires QueuesOk(r.pool) && |All(r.pool)| > maxSize && IsCheapest(r.victim, All(r.pool))
    requires CutAt(r.pool, r.victim, r.dropped, next, k)
    ensures RoundOk(r, maxSize, next)
  {
    hide IsCheapest, CutAt, All, QueuesOk;
  }

  lemma EvictsStep(m0: Queues, m: Queues, maxSize: nat, rounds: seq<Round>, list: seq<Command>, r: Round, m': Queues)
    requires Evicts(m0, m, maxSize, rounds, list) && r.pool == m && RoundOk(r, maxSize, m')
    ensures Evicts(m0, m', maxSize, rounds + [r], list + r.dropped)
  {
    hide RoundOk;
    var rounds' := rounds + [r];
    assert rounds'[..|rounds|] == rounds;
    forall i | 0 <= i < |rounds'| ensures RoundOk(rounds'[i], maxSize, PoolAfter(rounds', i, m')) {
      if i < |rounds| {
        assert PoolAfter(rounds', i, m') == PoolAfter(rounds, i, m);
      }
    }
  }

  lemma RoundShrinks(r: Round, maxSize: nat, next: Queues)
    requires RoundOk(r, maxSize, next)
    ensures QueuesOk(next) && All(next) <= All(r.pool)
  {
    var k :| CutAt(r.pool, r.victim, r.dropped, next, k);
    hide All, QueueOk, IsCheapest;
    CutOk(r.victim.feePayer, r.pool[r.victim.feePayer], k);
    CutSets(r.pool, r.victim.feePayer, k);
  }

  lemma {:induction false} LaterPoolsSmaller(
      m0: Queues, m: Queues, maxSize: nat, rounds: seq<Round>, list: seq<Command>, i: nat)
    requires Evicts(m0, m, maxSize, rounds, list) && i < |rounds|
    ensures All(m) <= All(rounds[i].pool)
    decreases |rounds| - i
  {
    hide RoundOk, All;
    RoundShrinks(rounds[i], maxSize, PoolAfter(rounds, i, m));
    if i + 1 < |rounds| { LaterPoolsSmaller(m0, m, maxSize, rounds, list, i + 1); }
  }

  /** Eviction takes the cheap ones: no command that stays is cheaper than one that a round picked. */
  lemma SurvivorsAreDearer(
      m0: Queues, m: Queues, maxSize: nat, rounds: seq<Round>, list: seq<Command>, i: nat, c: Command)
    requires Evicts(m0, m, maxSize, rounds, list) && i < |rounds| && c in All(m)
    ensures Rate(rounds[i].victim) <= Rate(c)
    ensures Rate(rounds[i].victim) == Rate(c) ==> rounds[i].victim.hash <= c.hash
  {
    LaterPoolsSmaller(m0, m, maxSize, rounds, list, i);
    assert RoundOk(rounds[i], maxSize, PoolAfter(rounds, i, m));
    assert Cheaper(rounds[i].victim, c);
  }
}
