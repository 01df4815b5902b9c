/** The transaction mempool. */
module IndexedPools {
  import opened Commands
  import opened Senders
  import opened QueueSteps
  import opened Gossip
  import opened GossipPlan
  import opened GossipProperties
  import opened Backtrack
  import opened Eviction
  import opened Revalidation
  import opened Selection
  import Buckets

  class IndexedPool {
    /** The heads of the queues by fee rate. */
    var applicableByFee: map<FeeRate, set<Command>>
    /** All pending commands, in nonce order per sender, with the currency they take. */
    var allBySender: Queues
    var allByFee: map<FeeRate, set<Command>>
    var allByHash: map<Hash, Command>
    /** Only commands that have an expiry. */
    var withExpiration: map<Slot, set<Command>>
    var size: nat
    const slotTxEnd: Option<Slot>

    ghost function Ix(): Indexes
      reads this
    {
      Indexes(applicableByFee, allByFee, allByHash, withExpiration, size)
    }

    /** Every index is the function of the queues that it should be. */
    ghost predicate Valid()
      reads this
    {
      WellFormed(allBySender) && Ix() == PoolIndexes(allBySender)
    }

    constructor (slotTxEnd: Option<Slot>)
      ensures Valid() && allBySender == map[] && this.slotTxEnd == slotTxEnd
    {
      applicableByFee, allBySender, allByFee := map[], map[], map[];
      allByHash, withExpiration, size := map[], map[], 0;
      this.slotTxEnd := slotTxEnd;
      new;
      assert All(allBySender) == {} && Heads(allBySender) == {};
      assert Expiring({}) == {} && Hashes({}) == {};
      assert Buckets.Keys<FeeRate, Command>({}, Rate) == {} && Buckets.Keys<Slot, Command>({}, Expiry) == {};
    }

    // ----- Index updates

    method UpdateAdd(cmd: Command, feeRate: FeeRate, toApplicable: bool)
      modifies this`applicableByFee, this`allByFee, this`allByHash, this`withExpiration, this`size
      ensures Ix() == AddOne(old(Ix()), cmd, feeRate, toApplicable)
    {
      if toApplicable {
        applicableByFee := Buckets.Insert(applicableByFee, feeRate, cmd);
      }
      allByFee := Buckets.Insert(allByFee, feeRate, cmd);
      allByHash := allByHash[cmd.hash := cmd];
      withExpiration := AddToExpiration(withExpiration, cmd);
      size := size + 1;
    }

    method UpdateRemoveAll(cmds: seq<Command>)
      requires |cmds| <= size
      modifies this`allByFee, this`allByHash, this`withExpiration, this`size
      ensures Ix() == RemoveEach(old(Ix()), cmds)
    {
      ghost var before := Ix();
      assert cmds[..|cmds|] == cmds;
      for i := 0 to |cmds|
        invariant Ix() == RemoveEach(before, cmds[..i])
        invariant |cmds| - i <= size
      {
        var cmd := cmds[i];
        assert cmds[..i + 1][..i] == cmds[..i];
        allByFee := Buckets.Remove(allByFee, Rate(cmd), cmd);
        allByHash := allByHash - {cmd.hash};
        withExpiration := RemoveFromExpiration(withExpiration, cmd);
        size := size - 1;
      }
    }

    method ApplyUpdates(updates: seq<Update>)
      requires Safe(Ix(), updates)
      modifies this`applicableByFee, this`allByFee, this`allByHash, this`withExpiration, this`size
      ensures Ix() == ApplyAll(old(Ix()), updates)
    {
      ghost var before := Ix();
      assert updates[..|updates|] == updates;
      for i := 0 to |updates|
        invariant Ix() == ApplyAll(before, updates[..i])
      {
        SafePrefix(before, updates, i + 1);
        assert updates[..i + 1][..i] == updates[..i];
        match updates[i]
        case Add(command, feeRate, toApplicable) =>
          UpdateAdd(command, feeRate, toApplicable);
        case RemoveAll(commands) =>
          UpdateRemoveAll(commands);
        case RemoveFromApplicable(feeRate, command) =>
          applicableByFee := Buckets.Remove(applicableByFee, feeRate, command);
      }
    }

    // ----- Adding

    /**
     A rejected command leaves the whole pool as it was. An accepted one gives the
     sender the queue that module Gossip decides on, and touches no other sender.
     */
    method AddFromGossip(slot: Slot, currentSlot: Slot, cmd: Command, currentNonce: Nonce, balance: Amount)
      returns (r: Result<(Command, seq<Command>)>)
      requires Valid() && HashInjective(All(allBySender) + {cmd})
      requires |CmdsOf(StateOf(allBySender, cmd.feePayer))| < U32_MODULUS
      modifies this
      ensures Valid()
      ensures r.Err? ==> unchanged(this)
      ensures
        var env := Env(slotTxEnd, slot, currentSlot, balance);
        var d := Decide(env, cmd, currentNonce, StateOf(old(allBySender), cmd.feePayer));
        && (r.Ok? <==> d.Ok?)
        && (r.Err? ==> r.error == d.error)
        && (r.Ok? ==> r.value == (cmd, d.value.dropped))
        && (r.Ok? ==> allBySender == old(allBySender)[cmd.feePayer := d.value.queue])
        && (r.Ok? ==> cmd !in All(old(allBySender)))
      ensures
        var env := Env(slotTxEnd, slot, currentSlot, balance);
        var st := StateOf(old(allBySender), cmd.feePayer);
        && (r.Ok? <==> Acceptable(env, cmd, currentNonce, st))
        && (r.Err? ==> Justified(r.error, env, cmd, currentNonce, st))
      ensures r.Ok? ==>
        && slot <= cmd.validUntil && cmd.feeToken == 1
        && (slotTxEnd.Some? ==> currentSlot < slotTxEnd.value)
      ensures r.Ok? ==> allBySender[cmd.feePayer].reserved <= balance
      ensures r.Ok? ==> exists left :: PaidFor(cmd, All(old(allBySender)), All(allBySender), left)
    {
      hide Decide, All, Heads, PoolIndexes, HashInjective, QueueOk, ApplyAll, Safe, PaidFor, Justified;
      var env := Env(slotTxEnd, slot, currentSlot, balance);
      var st, updates;
      AcceptedIff(env, cmd, currentNonce, StateOf(allBySender, cmd.feePayer));
      r, st, updates := PlanAddition(env, cmd, currentNonce, StateOf(allBySender, cmd.feePayer), []);
      if r.Ok? {
        assert updates == Decide(env, cmd, currentNonce, StateOf(allBySender, cmd.feePayer)).value.updates;
        PlanSimulates(env, cmd, currentNonce, allBySender);
        PlanSafe(env, cmd, currentNonce, allBySender);
        GossipQueueOk(env, cmd, currentNonce, StateOf(allBySender, cmd.feePayer));
        ghost var left := GossipPays(env, cmd, currentNonce, allBySender);
        allBySender := Put(allBySender, cmd.feePayer, st);
        ApplyUpdates(updates);
      } else {
        RejectionIsJustified(env, cmd, currentNonce, StateOf(allBySender, cmd.feePayer));
      }
    }

    /** Accepted exactly if it has not expired, transactions have not ended, and it fits in front of the queue. */
    method AddFromBacktrack(slot: Slot, currentSlot: Slot, cmd: Command) returns (r: Result<()>)
      requires Valid() && HashInjective(All(allBySender) + {cmd})
      requires |CmdsOf(StateOf(allBySender, cmd.feePayer))| < U32_MODULUS
      requires SumFits(Env(slotTxEnd, slot, currentSlot, 0), cmd, StateOf(allBySender, cmd.feePayer))
      modifies this
      ensures Valid()
      ensures r.Err? ==> unchanged(this)
      ensures
        var d := old(Restore(Env(slotTxEnd, slot, currentSlot, 0), cmd, StateOf(allBySender, cmd.feePayer)));
        && (r.Ok? <==> d.Ok?)
        && (r.Err? ==> r.error == d.error)
        && (r.Ok? ==> allBySender == old(allBySender)[cmd.feePayer := d.value])
        && (r.Ok? ==> cmd !in All(old(allBySender)))
      ensures r.Ok? <==>
        MayRestore(Env(slotTxEnd, slot, currentSlot, 0), cmd, StateOf(old(allBySender), cmd.feePayer))
    {
      hide All, Heads, PoolIndexes, HashInjective, Chained, TotalConsumed;
      RestoredIff(Env(slotTxEnd, slot, currentSlot, 0), cmd, StateOf(allBySender, cmd.feePayer));
      if slotTxEnd.Some? && !(currentSlot < slotTxEnd.value) {
        return Err(AfterSlotTxEnd);
      }
      if cmd.validUntil < slot {
        return Err(Expired(cmd.validUntil, slot));
      }
      var consumed := CurrencyConsumed(cmd);
      if consumed.Err? {
        return Err(consumed.error);
      }
      if cmd.feePayer !in allBySender {
        assert [cmd] + [] == [cmd];
        RestoreSimulates(Env(slotTxEnd, slot, currentSlot, 0), cmd, allBySender);
        allBySender := allBySender[cmd.feePayer := SenderQueue([cmd], consumed.value)];
      } else {
        var q := allBySender[cmd.feePayer];
        var first := q.cmds[0];
        if TargetNonce(cmd) != first.nonce {
          return Err(BacktrackNonceMismatch(TargetNonce(cmd), first.nonce));
        }
        RestoreSimulates(Env(slotTxEnd, slot, currentSlot, 0), cmd, allBySender);
        allBySender := allBySender[cmd.feePayer := SenderQueue([cmd] + q.cmds, q.reserved + consumed.value)];
        applicableByFee := Buckets.Remove(applicableByFee, Rate(first), first);
      }
      UpdateAdd(cmd, Rate(cmd), true);
      r := Ok(());
    }

    // ----- Removing

    /** The command leaves with every later command of its sender, and nothing else changes. */
    method RemoveWithDependents(cmd: Command) returns (dropped: seq<Command>, ghost k: nat)
      requires Valid() && cmd in All(allBySender)
      modifies this
      ensures Valid()
      ensures cmd.feePayer in old(allBySender)
      ensures var q := old(allBySender)[cmd.feePayer];
        && k < |q.cmds| && q.cmds[k] == cmd && dropped == q.cmds[k..]
        && q.reserved == TotalConsumed(q.cmds)
        && allBySender == Put(old(allBySender), cmd.feePayer, Cut(q, k))
      ensures All(allBySender) == All(old(allBySender)) - Elements(dropped)
      ensures Elements(dropped) <= All(old(allBySender))
      ensures size == old(size) - |dropped|
    {
      AllMember(allBySender, cmd);
      hide All, Heads, HashInjective, Chained, TotalConsumed, ApplyAll, Safe, PoolIndexes, CutUpdates;
      var st, updates;
      k :| 0 <= k < |allBySender[cmd.feePayer].cmds| && allBySender[cmd.feePayer].cmds[k] == cmd;
      dropped, st, updates := PlanRemoval(cmd, allBySender[cmd.feePayer], [], k);
      assert updates == CutUpdates(allBySender[cmd.feePayer].cmds, k);
      RemovalSimulates(allBySender, cmd.feePayer, k);
      allBySender := Put(allBySender, cmd.feePayer, st);
      ApplyUpdates(updates);
    }

    function Member(cmd: Command): bool
      reads this
    {
      cmd.hash in allByHash
    }

    function ExpiredByGlobalSlot(slot: Slot): (cmds: set<Command>)
      reads this
      requires Valid()
      ensures cmds == ExpiredCommands(All(allBySender), slot)
    {
      BeforeSlotExact(All(allBySender), slot);
      BeforeSlot(withExpiration, slot)
    }

    /**
     Every queue ends before its first expired command, and the returned list names
     every command that left, once.
     */
    method RemoveExpired(slot: Slot) returns (dropped: seq<Command>)
      requires Valid()
      modifies this
      ensures Valid()
      ensures FullyExpired(old(allBySender), allBySender, slot)
      ensures forall c :: c in All(allBySender) ==> slot <= c.validUntil
      ensures Elements(dropped) == All(old(allBySender)) - All(allBySender)
      ensures |dropped| == old(size) - size
    {
      hide Heads, Chained, TotalConsumed, IndexesOf, All, HashInjective, QueueOk, ExpiryProgress;
      ghost var m0 := allBySender;
      var pending := ExpiredByGlobalSlot(slot);
      dropped := [];
      ExpiryStart(m0, slot);
      while pending != {}
        invariant Valid()
        invariant ExpiryProgress(m0, allBySender, slot, pending, dropped)
        invariant |dropped| + size == old(size)
        decreases pending
      {
        var cmd :| cmd in pending;
        ExpiryMember(m0, allBySender, slot, pending, dropped, cmd);
        if Member(cmd) {
          ghost var m := allBySender;
          var removed, k := RemoveWithDependents(cmd);
          ExpiryStep(m0, m, slot, pending, dropped, cmd, k);
          dropped := dropped + removed;
        } else {
          ExpirySkip(m0, allBySender, slot, pending, dropped, cmd);
        }
        pending := pending - {cmd};
      }
      ExpiryDone(m0, allBySender, slot, dropped);
    }

    /** Drops a command of least fee rate, then least hash, with its dependents; nothing from an empty pool. */
    method RemoveLowestFee() returns (dropped: seq<Command>, ghost victim: Command, ghost k: nat)
      requires Valid()
      modifies this
      ensures Valid()
      ensures old(size) == 0 ==> dropped == [] && unchanged(this)
      ensures old(size) > 0 ==>
        && IsCheapest(victim, All(old(allBySender)))
        && CutAt(old(allBySender), victim, dropped, allBySender, k)
      ensures All(allBySender) == All(old(allBySender)) - Elements(dropped)
      ensures Elements(dropped) <= All(old(allBySender))
      ensures |dropped| == old(size) - size
      ensures old(size) > 0 ==> size < old(size)
    {
      var min := CheapestOf(allByFee, All(allBySender));
      hide All, Heads, QueueOk, HashInjective, TotalConsumed;
      if min.None? {
        dropped, victim, k := [], *, *;
      } else {
        victim := min.value;
        dropped, k := RemoveWithDependents(min.value);
      }
    }

    /**
     Evicts round by round, each time only while the pool is above `maxSize`, and each time the
     cheapest command with its dependents; so before the last round the pool was too large.
     */
    method DropUntilBelowMaxSize(maxSize: nat) returns (list: seq<Command>, ghost rounds: seq<Round>)
      requires Valid()
      modifies this
      ensures Valid() && size <= maxSize
      ensures Evicts(old(allBySender), allBySender, maxSize, rounds, list)
      ensures old(size) <= maxSize ==> list == [] && unchanged(this)
      ensures Elements(list) == All(old(allBySender)) - All(allBySender)
      ensures All(allBySender) <= All(old(allBySender))
      ensures |list| == old(size) - size
    {
      hide Heads, All, HashInjective, QueuesOk, Evicts, RoundOk, IsCheapest, CutAt, Elements, PoolIndexes;
      list, rounds := [], [];
      NoRounds(allBySender, maxSize);
      NoElements();
      while size > maxSize
        invariant Valid()
        invariant Evicts(old(allBySender), allBySender, maxSize, rounds, list)
        invariant list == [] ==> unchanged(this)
        invariant list != [] ==> old(size) > maxSize
        invariant Elements(list) == All(old(allBySender)) - All(allBySender)
        invariant All(allBySender) <= All(old(allBySender))
        invariant |list| + size == old(size)
        decreases size
      {
        ghost var m := allBySender;
        SizeIs(m);
        var dropped, victim, k := RemoveLowestFee();
        assert dropped != [];
        RoundIs(Round(m, victim, dropped), maxSize, allBySender, k);
        EvictsStep(old(allBySender), m, maxSize, rounds, list, Round(m, victim, dropped), allBySender);
        ElementsConcat(list, dropped);
        list, rounds := list + dropped, rounds + [Round(m, victim, dropped)];
      }
    }

    // ----- Revalidation

    /** One pass of the loop of `revalidate`: one sender's queue is brought in line with its account. */
    method RevalidateSender(s: AccountId, account: AccountView) returns (dropped: seq<Command>)
      requires Valid() && s in allBySender
      modifies this
      ensures Valid()
      ensures QueueOk(s, old(allBySender)[s])
      ensures allBySender == Put(old(allBySender), s, Revalidated(account, old(allBySender)[s]))
      ensures dropped == DroppedFrom(account, old(allBySender)[s].cmds)
      ensures All(allBySender) == All(old(allBySender)) - Elements(dropped)
      ensures Elements(dropped) <= All(old(allBySender))
      ensures size == old(size) - |dropped|
    {
      hide All, Heads, PoolIndexes, HashInjective, TotalConsumed, Elements;
      var q := allBySender[s];
      var first := q.cmds[0];
      if !(account.maySend && account.mayIncrementNonce) || account.nonce < first.nonce {
        FirstIsHead(allBySender, s);
        ghost var k;
        dropped, k := RemoveWithDependents(first);
        ChainedDistinct(q.cmds, 0, k);
      } else {
        dropped := RetainFromNonce(s, account);
      }
    }

    /** The account nonce has reached the queue: keep what starts at it and can be paid. */
    method RetainFromNonce(s: AccountId, account: AccountView) returns (dropped: seq<Command>)
      requires Valid() && s in allBySender && QueueOk(s, allBySender[s]) && !Rejects(account, allBySender[s].cmds)
      modifies this
      ensures Valid()
      ensures allBySender == Put(old(allBySender), s, Revalidated(account, old(allBySender)[s]))
      ensures dropped == DroppedFrom(account, old(allBySender)[s].cmds)
      ensures All(allBySender) == All(old(allBySender)) - Elements(dropped)
      ensures Elements(dropped) <= All(old(allBySender))
      ensures size == old(size) - |dropped|
    {
      hide All, Heads, PoolIndexes, IndexesOf, Elements, RemoveEach, TotalConsumed, Chained, HashInjective;
      hide RevalidatedHeads, DroppedFrom, KeepFrom, KeepTo, Revalidated, Buckets.GroupBy, Put, QueuesOk;
      RevalidateSimulates(allBySender, s, account);
      ghost var st := Revalidated(account, allBySender[s]);
      IndexesAreGroups(allBySender, RevalidatedHeads(Heads(allBySender), allBySender[s].cmds[0], st));
      var q := allBySender[s];
      var i, keep, reserved, keepingSuffix;
      i, keep, reserved, dropped, keepingSuffix := SplitForAccount(account, q);
      SetRevalidated(s, account, q, i, keep, reserved, keepingSuffix);
      UpdateRemoveAll(dropped);
    }

    /** The part of `revalidate` that stores the kept queue and moves the queue head. */
    method SetRevalidated(
        s: AccountId, account: AccountView, q: SenderQueue, i: nat, keep: seq<Command>, reserved: Amount,
        keepingSuffix: bool)
      requires QueueOk(s, q) && s in allBySender && allBySender[s] == q
      requires applicableByFee == Buckets.GroupBy(Heads(allBySender), Rate)
      requires !Rejects(account, q.cmds) && i == KeepFrom(account, q.cmds)
      requires keep == q.cmds[i..KeepTo(account, q.cmds)] && reserved == TotalConsumed(keep)
      requires keepingSuffix <==> KeepTo(account, q.cmds) == |q.cmds|
      modifies this`allBySender, this`applicableByFee
      ensures allBySender == Put(old(allBySender), s, Revalidated(account, q))
      ensures var heads := RevalidatedHeads(Heads(old(allBySender)), q.cmds[0], Revalidated(account, q));
        applicableByFee == Buckets.GroupBy(heads, Rate)
    {
      hide Heads, TotalConsumed, Buckets.GroupBy;
      var keepingPrefix, first := i == 0, q.cmds[0];
      if keepingPrefix && keepingSuffix {
        // Nothing dropped, nothing needs to be updated.
        assert keep == q.cmds;
        assert allBySender == Put(allBySender, s, Some(q));
      } else if keep == [] {
        Buckets.RemoveGroups(Heads(allBySender), Rate, first);
        applicableByFee := Buckets.Remove(applicableByFee, Rate(first), first);
        allBySender := allBySender - {s};
      } else if keepingPrefix {
        allBySender := allBySender[s := SenderQueue(keep, reserved)];
      } else {
        ChainedDistinct(q.cmds, 0, i);
        Buckets.RemoveGroups(Heads(allBySender), Rate, first);
        Buckets.InsertGroups(Heads(allBySender) - {first}, Rate, keep[0]);
        allBySender := allBySender[s := SenderQueue(keep, reserved)];
        applicableByFee := Buckets.Remove(applicableByFee, Rate(first), first);
        applicableByFee := Buckets.Insert(applicableByFee, Rate(keep[0]), keep[0]);
      }
    }

    /**
     Succeeds exactly when every sender to revalidate has an account; then these senders'
     queues are revalidated, all others are as before, and the returned list names every
     command that left, once. A failure leaves a valid pool with some senders revalidated.
     */
    method Revalidate(kind: RevalidateKind, accounts: map<AccountId, AccountView>) returns (r: Result<seq<Command>>)
      requires Valid()
      modifies this
      ensures Valid() && QueuesOk(old(allBySender))
      ensures r.Ok? <==> forall s :: s in old(allBySender) && RequiresRevalidation(kind, s) ==> s in accounts
      ensures r.Err? ==> r.error == AccountNotFound
      ensures r.Ok? ==> forall s :: StateOf(allBySender, s) == RevalidatedState(kind, accounts, old(allBySender), s)
      ensures r.Err? ==> exists done :: RevalidatedFor(kind, accounts, old(allBySender), allBySender, done)
      ensures kind.Subset? ==>
        forall s :: s !in kind.accounts ==> StateOf(allBySender, s) == StateOf(old(allBySender), s)
      ensures r.Ok? ==> forall s :: s in old(allBySender) && (kind.Subset? ==> s in kind.accounts) ==>
        s in accounts && StateOf(allBySender, s) == Revalidated(accounts[s], old(allBySender)[s])
      ensures r.Ok? ==>
        && Elements(r.value) == All(old(allBySender)) - All(allBySender)
        && All(allBySender) <= All(old(allBySender))
        && |r.value| == old(size) - size
    {
      hide All, Heads, PoolIndexes, HashInjective, QueueOk, Elements;
      ghost var m0, done: set<AccountId> := allBySender, {};
      var pending, dropped := allBySender.Keys, [];
      NoElements();
      while pending != {}
        invariant Valid() && pending == m0.Keys - done
        invariant RevalidatedFor(kind, accounts, m0, allBySender, done)
        invariant forall s :: s in done && RequiresRevalidation(kind, s) ==> s in accounts
        invariant Elements(dropped) == All(m0) - All(allBySender) && All(allBySender) <= All(m0)
        invariant |dropped| + size == old(size)
        decreases pending
      {
        var s :| s in pending;
        RevalidatedForStep(kind, accounts, m0, allBySender, done, s);
        if RequiresRevalidation(kind, s) {
          if s !in accounts {
            return Err(AccountNotFound);
          }
          var gone := RevalidateSender(s, accounts[s]);
          ElementsConcat(dropped, gone);
          dropped := dropped + gone;
        }
        pending, done := pending - {s}, done + {s};
      }
      r := Ok(dropped);
    }

    // ----- Selection

    /** Lists what `Transactions` would take, on copies of the two maps. */
    method ListIncludableTransactions(limit: nat) returns (txns: seq<Command>)
      requires Valid()
      ensures Selectable(allBySender) && exists left :: Selected(allBySender, limit, txns, left)
    {
      WellFormedSelectable(allBySender);
      hide Selectable, IsBest, Pop, Heads, All, Buckets.GroupBy;
      var index, senders := applicableByFee, allBySender;
      txns := [];
      while index != map[] && |txns| < limit
        invariant Selectable(senders) && index == Buckets.GroupBy(Heads(senders), Rate)
        invariant Picks(allBySender, txns, senders) && |txns| <= limit
        decreases limit - |txns|
      {
        ghost var before := senders;
        var txn;
        txn, index, senders := TakeBest(index, senders);
        PicksSnoc(allBySender, txns, before, txn);
        txns := txns + [txn];
      }
      Buckets.EmptyGroups(Heads(senders), Rate);
      NoHeadsNoQueues(senders);
      assert Selected(allBySender, limit, txns, senders);
    }

    /**
     Takes the best commands out of the queues. The other indexes are left as they are,
     so afterwards only the heads index agrees with the queues.
     */
    method Transactions(limit: nat) returns (txns: seq<Command>)
      requires Valid()
      modifies this`applicableByFee, this`allBySender
      ensures Selectable(old(allBySender)) && Selected(old(allBySender), limit, txns, allBySender)
      ensures Selectable(allBySender) && applicableByFee == Buckets.GroupBy(Heads(allBySender), Rate)
    {
      WellFormedSelectable(allBySender);
      hide Selectable, IsBest, Pop, Heads, All, Buckets.GroupBy;
      ghost var m0 := allBySender;
      txns := [];
      while true
        invariant Selectable(allBySender) && applicableByFee == Buckets.GroupBy(Heads(allBySender), Rate)
        invariant Picks(m0, txns, allBySender) && |txns| <= limit
        decreases limit - |txns|
      {
        if applicableByFee == map[] {
          Buckets.EmptyGroups(Heads(allBySender), Rate);
          NoHeadsNoQueues(allBySender);
          assert allBySender == map[];
          return;
        }
        if |txns| >= limit {
          return;
        }
        ghost var before := allBySender;
        var txn;
        txn, applicableByFee, allBySender := TakeBest(applicableByFee, allBySender);
        PicksSnoc(m0, txns, before, txn);
        txns := txns + [txn];
      }
    }
  }

  /** How the indexes of a pool change when only the queue heads do. */
  lemma IndexesAreGroups(m: Queues, heads: set<Command>)
    ensures PoolIndexes(m).applicableByFee == Buckets.GroupBy(Heads(m), Rate)
    ensures PoolIndexes(m).(applicableByFee := Buckets.GroupBy(heads, Rate)) == IndexesOf(heads, All(m))
  {}

  lemma SizeIs(m: Queues)
    ensures PoolIndexes(m).size == |All(m)|
  {}

  lemma FirstIsHead(m: Queues, s: AccountId)
    requires QueuesOk(m) && s in m
    ensures m[s].cmds[0] in All(m) && m[s].cmds[0].feePayer == s
  {
    assert m[s].cmds[0] in m[s].cmds;
  }

  lemma ExpiryMember(m0: Queues, m: Queues, slot: Slot, pending: set<Command>, dropped: seq<Command>, c: Command)
    requires WellFormed(m0) && ExpiryProgress(m0, m, slot, pending, dropped) && c in pending
    ensures c.hash in PoolIndexes(m).allByHash <==> c in All(m)
  {
    MemberIff(m, m0, c);
  }

  lemma ExpiryDone(m0: Queues, m: Queues, slot: Slot, dropped: seq<Command>)
    requires QueuesOk(m) && ExpiryProgress(m0, m, slot, {}, dropped)
    ensures FullyExpired(m0, m, slot) && forall c :: c in All(m) ==> slot <= c.validUntil
    ensures Elements(dropped) == All(m0) - All(m)
  {
    PartlyExpiredDone(m0, m, slot);
    forall c | c in All(m) ensures slot <= c.validUntil {
      assert c !in ExpiredCommands(All(m), slot);
    }
  }

  /** Membership by hash is membership, for every command that was in the pool at some point of the run. */
  lemma MemberIff(m: Queues, m0: Queues, c: Command)
    requires WellFormed(m0) && All(m) <= All(m0) && c in All(m0)
    ensures c.hash in PoolIndexes(m).allByHash <==> c in All(m)
  {
    if c.hash in Hashes(All(m)) {
      var d :| d in All(m) && d.hash == c.hash;
      assert SameHash(c, d);
    }
  }

  lemma {:induction false} SafePrefix(ix: Indexes, us: seq<Update>, i: nat)
    requires Safe(ix, us) && 0 < i <= |us|
    ensures us[i - 1].RemoveAll? ==> |us[i - 1].commands| <= ApplyAll(ix, us[..i - 1]).size
  {
    if i < |us| {
      var init := us[..|us| - 1];
      SafePrefix(ix, init, i);
      assert init[..i - 1] == us[..i - 1];
    }
  }

  /** A gossip plan never removes more commands than the pool holds. */
  lemma PlanSafe(env: Env, c: Command, currentNonce: Nonce, m: Queues)
    requires WellFormed(m)
    requires Decide(env, c, currentNonce, StateOf(m, c.feePayer)).Ok?
    ensures Safe(PoolIndexes(m), Decide(env, c, currentNonce, StateOf(m, c.feePayer)).value.updates)
  {
    hide Screen, ReplaceAt, TotalConsumed, Chained, HashInjective, All, PoolIndexes, Safe;
    var st := StateOf(m, c.feePayer);
    if Replaces(c, currentNonce, st) {
      ReplacementIndex(c.feePayer, st.value, c);
      ReplacePlanSafe(env, c, m, c.nonce - st.value.cmds[0].nonce);
    } else {
      SafeIfRemovesFirst(PoolIndexes(m), Decide(env, c, currentNonce, st).value.updates);
    }
  }

  lemma ReplacePlanSafe(env: Env, c: Command, m: Queues, i: nat)
    requires WellFormed(m) && c.feePayer in m && i < |m[c.feePayer].cmds| && Screen(env, c).None?
    requires ReplaceAt(env, c, m[c.feePayer].cmds, i).Ok?
    ensures Safe(PoolIndexes(m), ReplaceAt(env, c, m[c.feePayer].cmds, i).value.updates)
  {
    var cmds := m[c.feePayer].cmds;
    CutWithinSize(m, c.feePayer, i);
    hide *;
    var readded := cmds[i + 1..][..Readded(env, c, cmds, i)];
    AddUpdatesAdd(readded);
    ReplaceUpdates(env, c, cmds, i);
    SafeIfRemovesFirst(PoolIndexes(m), ReplaceAt(env, c, cmds, i).value.updates);
  }

  lemma ReplaceUpdates(env: Env, c: Command, cmds: seq<Command>, i: nat)
    requires i < |cmds| && Screen(env, c).None? && ReplaceAt(env, c, cmds, i).Ok?
    ensures var us := ReplaceAt(env, c, cmds, i).value.updates;
      && us != [] && us[0] == RemoveAll(cmds[i..])
      && var readded := cmds[i + 1..][..Readded(env, c, cmds, i)];
      forall j :: 0 < j < |us| ==> us[j].RemoveFromApplicable? || us[j].Add? || us[j] in AddUpdates(readded)
  {
    hide FitCount, Charge, TotalConsumed, AddUpdates, Rate, Lost;
  }

  lemma RemovalSimulates(m: Queues, s: AccountId, k: nat)
    requires WellFormed(m) && s in m && k < |m[s].cmds|
    ensures var m' := Put(m, s, Cut(m[s], k));
      && WellFormed(m')
      && All(m') == All(m) - Elements(m[s].cmds[k..])
      && Elements(m[s].cmds[k..]) <= All(m)
      && PoolIndexes(m').size == PoolIndexes(m).size - |m[s].cmds[k..]|
      && Safe(PoolIndexes(m), CutUpdates(m[s].cmds, k))
      && ApplyAll(PoolIndexes(m), CutUpdates(m[s].cmds, k)) == PoolIndexes(m')
  {
    CutSimulates(m, s, k);
    CutWithinSize(m, s, k);
    TailInAll(m, s, k);
    hide All, Heads, QueueOk, HashInjective, Safe, ApplyAll;
    SafeIfRemovesFirst(PoolIndexes(m), CutUpdates(m[s].cmds, k));
  }

  lemma TailInAll(m: Queues, s: AccountId, k: nat)
    requires s in m && k <= |m[s].cmds|
    ensures Elements(m[s].cmds[k..]) <= All(m)
  {
    assert forall c :: c in m[s].cmds[k..] ==> c in m[s].cmds;
  }

  lemma CutWithinSize(m: Queues, s: AccountId, i: nat)
    requires WellFormed(m) && s in m && i < |m[s].cmds|
    ensures |m[s].cmds[i..]| <= PoolIndexes(m).size
  {
    CutSimulates(m, s, i);
  }

  lemma {:induction false} AddUpdatesAdd(cmds: seq<Command>)
    ensures forall u :: u in AddUpdates(cmds) ==> u.Add?
  {
    if cmds != [] { AddUpdatesAdd(cmds[..|cmds| - 1]); }
  }
}
