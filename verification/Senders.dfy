/**
 The primary structure of the mempool, the per-sender queues, and its secondary
 indexes as functions of those queues. The lemmas of this module say that one
 planned index update does to the indexes what appending, prepending or cutting a
 queue does to the queues.
 */
module Senders {
  import opened Commands
  import Buckets

  datatype SenderQueue = SenderQueue(cmds: seq<Command>, reserved: Amount)

  type SenderState = Option<SenderQueue>

  type Queues = map<AccountId, SenderQueue>

  // ----- Well-formed queues

  /** Consecutive commands of a queue carry consecutive nonces. */
  ghost predicate Chained(cmds: seq<Command>) {
    |cmds| <= U32_MODULUS && forall i :: 0 <= i < |cmds| ==> cmds[i].nonce == NonceAfter(cmds[0].nonce, i)
  }

  ghost predicate QueueOk(sender: AccountId, q: SenderQueue) {
    && q.cmds != []
    && (forall c :: c in q.cmds ==> c.feePayer == sender)
    && Chained(q.cmds)
    && q.reserved == TotalConsumed(q.cmds)
  }

  ghost predicate StateOk(sender: AccountId, st: SenderState) {
    st.Some? ==> QueueOk(sender, st.value)
  }

  predicate SameHash(c: Command, d: Command) {
    c.hash == d.hash
  }

  /** Transaction hashes identify commands. */
  ghost predicate HashInjective(cmds: set<Command>) {
    forall c, d {:trigger SameHash(c, d)} :: c in cmds && d in cmds && SameHash(c, d) ==> c == d
  }

  lemma HashInjectiveSubset(part: set<Command>, whole: set<Command>)
    requires part <= whole && HashInjective(whole)
    ensures HashInjective(part)
  {}

  ghost predicate QueuesOk(m: Queues) {
    forall s :: s in m ==> QueueOk(s, m[s])
  }

  ghost predicate WellFormed(m: Queues) {
    QueuesOk(m) && HashInjective(All(m))
  }

  // ----- What the queues hold

  ghost function Elements(cmds: seq<Command>): set<Command> {
    set c | c in cmds
  }

  lemma NoElements()
    ensures Elements([]) == {}
  {}

  lemma ElementsConcat(a: seq<Command>, b: seq<Command>)
    ensures Elements(a + b) == Elements(a) + Elements(b)
  {}

  ghost function All(m: Queues): set<Command> {
    set s, c | s in m && c in m[s].cmds :: c
  }

  ghost function Heads(m: Queues): set<Command> {
    set s | s in m && m[s].cmds != [] :: m[s].cmds[0]
  }

  function StateOf(m: Queues, s: AccountId): SenderState {
    if s in m then Some(m[s]) else None
  }

  function CmdsOf(st: SenderState): seq<Command> {
    if st.Some? then st.value.cmds else []
  }

  /** `set_sender`. */
  function Put(m: Queues, s: AccountId, st: SenderState): Queues {
    if st.Some? then m[s := st.value] else m - {s}
  }

  ghost function Without(cmds: set<Command>, s: AccountId): set<Command> {
    set c | c in cmds && c.feePayer != s
  }

  lemma AllMember(m: Queues, c: Command)
    requires QueuesOk(m)
    ensures c in All(m) <==> c.feePayer in m && c in m[c.feePayer].cmds
  {}

  lemma PutAll(m: Queues, s: AccountId, st: SenderState)
    requires QueuesOk(m) && StateOk(s, st)
    ensures QueuesOk(Put(m, s, st))
    ensures All(Put(m, s, st)) == Without(All(m), s) + Elements(CmdsOf(st))
    ensures Heads(Put(m, s, st)) == Without(Heads(m), s) + Elements(CmdsOf(st)[..if st.Some? then 1 else 0])
  {
    var m' := Put(m, s, st);
    forall c ensures c in All(m') <==> c in Without(All(m), s) + Elements(CmdsOf(st)) {
      AllMember(m, c);
      AllMember(m', c);
    }
    forall c ensures c in Heads(m') <==> c in Without(Heads(m), s) + Elements(CmdsOf(st)[..if st.Some? then 1 else 0]) {
      HeadsMember(m, c);
      HeadsMember(m', c);
    }
  }

  lemma HeadsMember(m: Queues, c: Command)
    requires QueuesOk(m)
    ensures c in Heads(m) <==> c.feePayer in m && c == m[c.feePayer].cmds[0]
  {
    if c in Heads(m) {
      var s :| s in m && m[s].cmds != [] && m[s].cmds[0] == c;
      assert c in m[s].cmds;
    }
  }

  /** The commands one sender has queued, seen from the whole pool. */
  lemma SplitAll(m: Queues, s: AccountId)
    requires QueuesOk(m)
    ensures All(m) == Without(All(m), s) + Elements(CmdsOf(StateOf(m, s)))
    ensures Heads(m) == Without(Heads(m), s) + Elements(CmdsOf(StateOf(m, s))[..if s in m then 1 else 0])
  {
    assert Put(m, s, StateOf(m, s)) == m;
    PutAll(m, s, StateOf(m, s));
  }

  lemma HeadElements(cmds: seq<Command>)
    requires cmds != []
    ensures Elements(cmds[..1]) == {cmds[0]}
  {}

  /** The pool seen from one sender that has a queue. */
  lemma SplitQueue(m: Queues, s: AccountId)
    requires QueuesOk(m) && s in m
    ensures All(m) == Without(All(m), s) + Elements(m[s].cmds)
    ensures Without(All(m), s) !! Elements(m[s].cmds)
    ensures Heads(m) == Without(Heads(m), s) + {m[s].cmds[0]}
    ensures m[s].cmds[0] !in Without(Heads(m), s)
  {
    assert m[s].cmds[0] in m[s].cmds;
    HeadElements(m[s].cmds);
    SplitAll(m, s);
  }

  lemma PutQueue(m: Queues, s: AccountId, q: SenderQueue)
    requires QueuesOk(m) && QueueOk(s, q)
    ensures QueuesOk(m[s := q])
    ensures All(m[s := q]) == Without(All(m), s) + Elements(q.cmds)
    ensures Heads(m[s := q]) == Without(Heads(m), s) + {q.cmds[0]}
  {
    HeadElements(q.cmds);
    PutAll(m, s, Some(q));
  }

  lemma RemoveQueue(m: Queues, s: AccountId)
    requires QueuesOk(m)
    ensures QueuesOk(m - {s})
    ensures All(m - {s}) == Without(All(m), s)
    ensures Heads(m - {s}) == Without(Heads(m), s)
  {
    PutAll(m, s, None);
  }

  /** What a queued command consumes is known and within its sender's reserve, so taking it back cannot fail. */
  lemma QueuedConsumptionFits(s: AccountId, q: SenderQueue, c: Command)
    requires QueueOk(s, q) && c in q.cmds
    ensures CurrencyConsumed(c).Ok? && CurrencyConsumed(c).value <= q.reserved
  {
    TotalConsumedMember(q.cmds, c);
  }

  /** No command is queued twice. */
  lemma ChainedDistinct(cmds: seq<Command>, i: nat, j: nat)
    requires Chained(cmds) && i < |cmds| && j < |cmds|
    ensures cmds[i].nonce == cmds[j].nonce ==> i == j
  {
    NonceAfterInjective(cmds[0].nonce, i, j);
  }

  // ----- The indexes

  datatype Indexes = Indexes(
    applicableByFee: map<FeeRate, set<Command>>,
    allByFee: map<FeeRate, set<Command>>,
    allByHash: map<Hash, Command>,
    withExpiration: map<Slot, set<Command>>,
    size: int)

  ghost function Hashes(cmds: set<Command>): set<Hash> {
    set c | c in cmds :: c.hash
  }

  ghost function ByHash(cmds: set<Command>): map<Hash, Command> {
    map h | h in Hashes(cmds) :: var c :| c in cmds && c.hash == h; c
  }

  lemma ByHashExact(cmds: set<Command>, c: Command)
    requires HashInjective(cmds) && c in cmds
    ensures c.hash in ByHash(cmds) && ByHash(cmds)[c.hash] == c
  {
    assert SameHash(ByHash(cmds)[c.hash], c);
  }

  ghost function Expiring(cmds: set<Command>): set<Command> {
    set c | c in cmds && c.validUntil != MAX_SLOT
  }

  /** The indexes of a pool with these queue heads and these commands. */
  ghost function IndexesOf(heads: set<Command>, all: set<Command>): Indexes {
    Indexes(
      Buckets.GroupBy(heads, Rate),
      Buckets.GroupBy(all, Rate),
      ByHash(all),
      Buckets.GroupBy(Expiring(all), Expiry),
      |all|)
  }

  ghost function PoolIndexes(m: Queues): Indexes {
    IndexesOf(Heads(m), All(m))
  }

  /** The first element of a bucket, by hash. */
  predicate LeastHash(bucket: set<Command>, c: Command) {
    forall d :: d in bucket ==> c.hash <= d.hash
  }

  // ----- Updates of the indexes

  datatype Update =
    | Add(command: Command, feeRate: FeeRate, toApplicable: bool)
    | RemoveAll(commands: seq<Command>)
    | RemoveFromApplicable(feeRate: FeeRate, command: Command)

  function AddToExpiration(index: map<Slot, set<Command>>, c: Command): map<Slot, set<Command>> {
    if c.validUntil == MAX_SLOT then index else Buckets.Insert(index, Expiry(c), c)
  }

  function RemoveFromExpiration(index: map<Slot, set<Command>>, c: Command): map<Slot, set<Command>> {
    if c.validUntil == MAX_SLOT then index else Buckets.Remove(index, Expiry(c), c)
  }

  function AddOne(ix: Indexes, c: Command, feeRate: FeeRate, toApplicable: bool): Indexes {
    Indexes(
      if toApplicable then Buckets.Insert(ix.applicableByFee, feeRate, c) else ix.applicableByFee,
      Buckets.Insert(ix.allByFee, feeRate, c),
      ix.allByHash[c.hash := c],
      AddToExpiration(ix.withExpiration, c),
      ix.size + 1)
  }

  function RemoveOne(ix: Indexes, c: Command): Indexes {
    ix.(
      allByFee := Buckets.Remove(ix.allByFee, Rate(c), c),
      allByHash := ix.allByHash - {c.hash},
      withExpiration := RemoveFromExpiration(ix.withExpiration, c),
      size := ix.size - 1)
  }

  function RemoveEach(ix: Indexes, cmds: seq<Command>): Indexes {
    if cmds == [] then ix
    else RemoveOne(RemoveEach(ix, cmds[..|cmds| - 1]), cmds[|cmds| - 1])
  }

  function ApplyOne(ix: Indexes, u: Update): Indexes {
    match u
    case Add(c, feeRate, toApplicable) => AddOne(ix, c, feeRate, toApplicable)
    case RemoveAll(cmds) => RemoveEach(ix, cmds)
    case RemoveFromApplicable(feeRate, c) =>
      ix.(applicableByFee := Buckets.Remove(ix.applicableByFee, feeRate, c))
  }

  function ApplyAll(ix: Indexes, us: seq<Update>): Indexes {
    if us == [] then ix
    else ApplyOne(ApplyAll(ix, us[..|us| - 1]), us[|us| - 1])
  }

  lemma ApplyAllSnoc(ix: Indexes, us: seq<Update>, u: Update)
    ensures ApplyAll(ix, us + [u]) == ApplyOne(ApplyAll(ix, us), u)
  {
    assert (us + [u])[..|us|] == us;
  }

  /** The size counter never has to go below zero while these updates are applied. */
  ghost predicate Safe(ix: Indexes, us: seq<Update>) {
    us == [] ||
    var init, last := us[..|us| - 1], us[|us| - 1];
    Safe(ix, init) && (last.RemoveAll? ==> |last.commands| <= ApplyAll(ix, init).size)
  }

  /** A plan removes commands at most once, and then first. */
  lemma {:induction false} SafeIfRemovesFirst(ix: Indexes, us: seq<Update>)
    requires us != [] ==> us[0].RemoveAll? ==> |us[0].commands| <= ix.size
    requires forall i :: 0 < i < |us| ==> !us[i].RemoveAll?
    ensures Safe(ix, us)
  {
    if us != [] {
      var init := us[..|us| - 1];
      assert forall i :: 0 <= i < |init| ==> init[i] == us[i];
      SafeIfRemovesFirst(ix, init);
    }
  }

  // ----- Updates on sets of commands

  lemma AddExpiring(all: set<Command>, c: Command)
    ensures AddToExpiration(Buckets.GroupBy(Expiring(all), Expiry), c) == Buckets.GroupBy(Expiring(all + {c}), Expiry)
  {
    Buckets.InsertGroups(Expiring(all), Expiry, c);
    assert Expiring(all + {c}) == if c.validUntil == MAX_SLOT then Expiring(all) else Expiring(all) + {c};
  }

  lemma RemoveExpiring(all: set<Command>, c: Command)
    ensures RemoveFromExpiration(Buckets.GroupBy(Expiring(all), Expiry), c)
         == Buckets.GroupBy(Expiring(all - {c}), Expiry)
  {
    Buckets.RemoveGroups(Expiring(all), Expiry, c);
    assert Expiring(all - {c}) == if c.validUntil == MAX_SLOT then Expiring(all) else Expiring(all) - {c};
  }

  lemma AddByHash(all: set<Command>, c: Command)
    requires HashInjective(all + {c})
    ensures ByHash(all)[c.hash := c] == ByHash(all + {c})
  {
    HashInjectiveSubset(all, all + {c});
    forall h | h in Hashes(all + {c})
      ensures h in ByHash(all)[c.hash := c] && ByHash(all)[c.hash := c][h] == ByHash(all + {c})[h]
    {
      ByHashExact(all + {c}, c);
      if h != c.hash {
        var d :| d in all && d.hash == h;
        ByHashExact(all + {c}, d);
        ByHashExact(all, d);
      }
    }
  }

  lemma RemoveByHash(all: set<Command>, c: Command)
    requires HashInjective(all) && c in all
    ensures ByHash(all) - {c.hash} == ByHash(all - {c})
  {
    HashInjectiveSubset(all - {c}, all);
    forall d | d in all - {c} ensures ByHash(all)[d.hash] == ByHash(all - {c})[d.hash] && d.hash != c.hash {
      ByHashExact(all, d);
      ByHashExact(all, c);
      ByHashExact(all - {c}, d);
    }
  }

  lemma AddIndexes(heads: set<Command>, all: set<Command>, c: Command, toApplicable: bool)
    requires c !in all && HashInjective(all + {c})
    ensures AddOne(IndexesOf(heads, all), c, Rate(c), toApplicable)
         == IndexesOf(if toApplicable then heads + {c} else heads, all + {c})
  {
    Buckets.InsertGroups(heads, Rate, c);
    Buckets.InsertGroups(all, Rate, c);
    AddByHash(all, c);
    AddExpiring(all, c);
  }

  lemma RemoveOneIndexes(heads: set<Command>, all: set<Command>, c: Command)
    requires c in all && HashInjective(all)
    ensures RemoveOne(IndexesOf(heads, all), c) == IndexesOf(heads, all - {c})
  {
    Buckets.RemoveGroups(all, Rate, c);
    RemoveByHash(all, c);
    RemoveExpiring(all, c);
  }

  lemma RemoveHeadIndexes(heads: set<Command>, all: set<Command>, c: Command)
    ensures ApplyOne(IndexesOf(heads, all), RemoveFromApplicable(Rate(c), c)) == IndexesOf(heads - {c}, all)
  {
    Buckets.RemoveGroups(heads, Rate, c);
  }

  lemma {:induction false} RemoveEachIndexes(heads: set<Command>, all: set<Command>, cmds: seq<Command>)
    requires HashInjective(all)
    requires forall i :: 0 <= i < |cmds| ==> cmds[i] in all
    requires forall i, j :: 0 <= i < j < |cmds| ==> cmds[i] != cmds[j]
    ensures RemoveEach(IndexesOf(heads, all), cmds) == IndexesOf(heads, all - Elements(cmds))
    ensures |all - Elements(cmds)| == |all| - |cmds|
  {
    if cmds == [] {
      assert all - Elements(cmds) == all;
    } else {
      var init, last := cmds[..|cmds| - 1], cmds[|cmds| - 1];
      RemoveEachIndexes(heads, all, init);
      HashInjectiveSubset(all - Elements(init), all);
      assert all - Elements(cmds) == all - Elements(init) - {last};
      assert last !in Elements(init);
      RemoveOneIndexes(heads, all - Elements(init), last);
    }
  }
}
