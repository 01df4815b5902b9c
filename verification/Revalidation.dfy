/** What `revalidate` keeps of a queue when the ledger has moved on. */
module Revalidation {
  import opened Commands
  import opened Senders
  import opened QueueSteps
  import opened GossipPlan

  /** What revalidation asks of a ledger account; the balance is the liquid one at the slot in question. */
  datatype AccountView = AccountView(nonce: Nonce, liquidBalance: Amount, maySend: bool, mayIncrementNonce: bool)

  datatype RevalidateKind = EntirePool | Subset(accounts: set<AccountId>)

  predicate RequiresRevalidation(kind: RevalidateKind, s: AccountId) {
    kind.EntirePool? || s in kind.accounts
  }

  /** The position of the command with this nonce, or the length of the queue. */
  ghost function NonceIndex(cmds: seq<Command>, nonce: Nonce): (i: nat)
    ensures i <= |cmds|
    ensures i < |cmds| ==> cmds[i].nonce == nonce
    ensures forall j :: 0 <= j < i ==> cmds[j].nonce != nonce
  {
    if cmds == [] || cmds[0].nonce == nonce then 0 else 1 + NonceIndex(cmds[1..], nonce)
  }

  /** How many commands are left when commands are dropped from the end until the balance suffices. */
  ghost function AffordableCount(cmds: seq<Command>, balance: Amount): (k: nat)
    ensures k <= |cmds|
  {
    if TotalConsumed(cmds) <= balance then |cmds|
    else AffordableCount(cmds[..|cmds| - 1], balance)
  }

  /** That is the longest prefix the balance can pay for. */
  lemma {:induction false} AffordableCountLongest(cmds: seq<Command>, balance: Amount, j: nat)
    requires j <= |cmds|
    ensures TotalConsumed(cmds[..AffordableCount(cmds, balance)]) <= balance
    ensures TotalConsumed(cmds[..j]) <= balance ==> j <= AffordableCount(cmds, balance)
  {
    assert cmds[..|cmds|] == cmds;
    if TotalConsumed(cmds) > balance {
      var init := cmds[..|cmds| - 1];
      var i := if j < |cmds| then j else 0;
      AffordableCountLongest(init, balance, i);
      assert init[..i] == cmds[..i];
      assert init[..AffordableCount(init, balance)] == cmds[..AffordableCount(init, balance)];
    }
  }

  ghost predicate Rejects(account: AccountView, cmds: seq<Command>)
    requires cmds != []
  {
    !(account.maySend && account.mayIncrementNonce) || account.nonce < cmds[0].nonce
  }

  /** The kept commands are `cmds[KeepFrom..KeepTo]`. */
  ghost function KeepFrom(account: AccountView, cmds: seq<Command>): (i: nat)
    requires cmds != []
    ensures i <= |cmds|
  {
    if Rejects(account, cmds) then |cmds| else NonceIndex(cmds, account.nonce)
  }

  ghost function KeepTo(account: AccountView, cmds: seq<Command>): (j: nat)
    requires cmds != []
    ensures KeepFrom(account, cmds) <= j <= |cmds|
  {
    KeepFrom(account, cmds) + AffordableCount(cmds[KeepFrom(account, cmds)..], account.liquidBalance)
  }

  ghost function Slice(cmds: seq<Command>, i: nat, j: nat): SenderState
    requires i <= j <= |cmds| && TotalConsumed(cmds) < U64_MODULUS
  {
    SliceConsumed(cmds, i, j);
    if i == j then None else Some(SenderQueue(cmds[i..j], TotalConsumed(cmds[i..j])))
  }

  lemma SliceConsumed(cmds: seq<Command>, i: nat, j: nat)
    requires i <= j <= |cmds|
    ensures TotalConsumed(cmds) == TotalConsumed(cmds[..i]) + TotalConsumed(cmds[i..j]) + TotalConsumed(cmds[j..])
  {
    TotalConsumedSplit(cmds, i);
    TotalConsumedSplit(cmds[i..], j - i);
    assert cmds[i..][..j - i] == cmds[i..j] && cmds[i..][j - i..] == cmds[j..];
  }

  ghost function Revalidated(account: AccountView, q: SenderQueue): SenderState
    requires q.cmds != [] && q.reserved == TotalConsumed(q.cmds)
  {
    Slice(q.cmds, KeepFrom(account, q.cmds), KeepTo(account, q.cmds))
  }

  ghost function Reverse(cmds: seq<Command>): (r: seq<Command>)
    ensures |r| == |cmds|
    ensures forall i :: 0 <= i < |cmds| ==> r[i] == cmds[|cmds| - 1 - i]
  {
    if cmds == [] then [] else [cmds[|cmds| - 1]] + Reverse(cmds[..|cmds| - 1])
  }

  /** Commands dropped for their nonce in queue order, those dropped for the balance last one first. */
  ghost function DroppedFrom(account: AccountView, cmds: seq<Command>): seq<Command>
    requires cmds != []
  {
    if Rejects(account, cmds) then cmds
    else cmds[..KeepFrom(account, cmds)] + Reverse(cmds[KeepTo(account, cmds)..])
  }

  // ----- What survives

  /**
   A surviving queue starts at the account's nonce, its total is within the liquid balance,
   and it is the longest such prefix of the commands from that nonce on.
   */
  lemma SurvivorMatchesAccount(account: AccountView, s: AccountId, q: SenderQueue, j: nat)
    requires QueueOk(s, q) && Revalidated(account, q).Some? && j <= |q.cmds|
    ensures var kept := Revalidated(account, q).value;
      && QueueOk(s, kept)
      && kept.cmds[0].nonce == account.nonce
      && kept.reserved <= account.liquidBalance
      && var i := KeepFrom(account, q.cmds);
      && kept.cmds == q.cmds[i..i + |kept.cmds|]
      && (i <= j && TotalConsumed(q.cmds[i..j]) <= account.liquidBalance ==> j <= i + |kept.cmds|)
  {
    var i := KeepFrom(account, q.cmds);
    SliceOk(s, q, i, KeepTo(account, q.cmds));
    AffordableCountLongest(q.cmds[i..], account.liquidBalance, if i <= j then j - i else 0);
    assert forall k :: i <= k <= |q.cmds| ==> q.cmds[i..][..k - i] == q.cmds[i..k];
  }

  /**
   A queue survives exactly when its account may send and increment its nonce, that nonce has
   reached the queue and belongs to a queued command, and the balance pays for that command.
   */
  lemma SurvivesIff(account: AccountView, s: AccountId, q: SenderQueue)
    requires QueueOk(s, q)
    ensures Revalidated(account, q).Some? <==>
      && account.maySend && account.mayIncrementNonce && q.cmds[0].nonce <= account.nonce
      && exists i :: 0 <= i < |q.cmds| && q.cmds[i].nonce == account.nonce
           && Consumed(q.cmds[i]) <= account.liquidBalance
  {
    hide Chained, AffordableCount;
    if !Rejects(account, q.cmds) {
      var n := NonceIndex(q.cmds, account.nonce);
      forall i | 0 <= i < |q.cmds| && q.cmds[i].nonce == account.nonce ensures i == n {
        ChainedDistinct(q.cmds, i, n);
      }
      if n < |q.cmds| { FirstAffordable(q.cmds[n..], account.liquidBalance); }
    }
  }

  lemma FirstAffordable(cmds: seq<Command>, balance: Amount)
    requires cmds != []
    ensures AffordableCount(cmds, balance) > 0 <==> Consumed(cmds[0]) <= balance
  {
    assert TotalConsumed(cmds[..1]) == Consumed(cmds[0]);
    AffordableCountLongest(cmds, balance, 1);
    var k := AffordableCount(cmds, balance);
    if k > 0 { assert cmds[..k][0] in cmds[..k]; TotalConsumedMember(cmds[..k], cmds[0]); }
  }

  lemma SliceOk(s: AccountId, q: SenderQueue, i: nat, j: nat)
    requires QueueOk(s, q) && i <= j <= |q.cmds|
    ensures StateOk(s, Slice(q.cmds, i, j))
  {
    if i < j {
      var cmds := q.cmds[i..j];
      forall k | 0 <= k < |cmds| ensures cmds[k].nonce == NonceAfter(cmds[0].nonce, k) {
        assert cmds[k] == q.cmds[i + k] && cmds[0] == q.cmds[i];
      }
    }
  }

  // ----- The indexes

  lemma DroppedFromExact(account: AccountView, s: AccountId, q: SenderQueue)
    requires QueueOk(s, q)
    ensures Distinct(DroppedFrom(account, q.cmds))
    ensures Elements(DroppedFrom(account, q.cmds)) == Elements(q.cmds) - Elements(CmdsOf(Revalidated(account, q)))
    ensures Elements(DroppedFrom(account, q.cmds)) <= Elements(q.cmds)
  {
    QueueDistinct(s, q);
    SliceComplement(q.cmds, KeepFrom(account, q.cmds), KeepTo(account, q.cmds));
    if Rejects(account, q.cmds) {
      assert q.cmds[..|q.cmds|] == q.cmds;
    }
  }

  /** What goes for its nonce is listed in queue order, then what goes for the balance, the last command first. */
  lemma DroppedOrder(account: AccountView, cmds: seq<Command>, i: nat)
    requires cmds != [] && !Rejects(account, cmds) && i < |DroppedFrom(account, cmds)|
    ensures var from := KeepFrom(account, cmds);
      DroppedFrom(account, cmds)[i] == if i < from then cmds[i] else cmds[|cmds| - 1 - (i - from)]
  {
    hide KeepFrom, KeepTo, Rejects;
  }

  lemma SliceComplement(cmds: seq<Command>, i: nat, j: nat)
    requires Distinct(cmds) && i <= j <= |cmds|
    ensures var dropped := cmds[..i] + Reverse(cmds[j..]);
      && Distinct(dropped)
      && Elements(dropped) == Elements(cmds) - Elements(cmds[i..j])
  {
    var a, b, c := cmds[..i], cmds[i..j], cmds[j..];
    var dropped := a + Reverse(c);
    forall x, y | 0 <= x < y < |dropped| ensures dropped[x] != dropped[y] {
      var x' := if x < i then x else |cmds| - 1 - (x - i);
      var y' := if y < i then y else |cmds| - 1 - (y - i);
      assert dropped[x] == cmds[x'] && dropped[y] == cmds[y'] && x' != y';
    }
    assert Elements(b) !! Elements(a) && Elements(b) !! Elements(c);
    ReverseElements(c);
    hide Elements, Distinct, Reverse;
    ElementsConcat(a, Reverse(c));
    ElementsConcat(a + b, c);
    ElementsConcat(a, b);
    assert cmds == a + b + c;
  }

  lemma ReverseElements(cmds: seq<Command>)
    ensures Elements(Reverse(cmds)) == Elements(cmds)
  {
    forall c | c in cmds ensures c in Reverse(cmds) {
      var k :| 0 <= k < |cmds| && cmds[k] == c;
      assert Reverse(cmds)[|cmds| - 1 - k] == c;
    }
  }

  /** The queue heads once this sender's queue starts with the kept commands. */
  ghost function RevalidatedHeads(heads: set<Command>, first: Command, st: SenderState): set<Command> {
    if CmdsOf(st) == [] then heads - {first}
    else if st.value.cmds[0] == first then heads
    else heads - {first} + {st.value.cmds[0]}
  }

  lemma RevalidatedSets(m: Queues, s: AccountId, account: AccountView)
    requires QueuesOk(m) && s in m
    ensures var st := Revalidated(account, m[s]);
      var dropped := DroppedFrom(account, m[s].cmds);
      && QueuesOk(Put(m, s, st))
      && Elements(dropped) <= All(m)
      && All(Put(m, s, st)) == All(m) - Elements(dropped)
      && Heads(Put(m, s, st)) == RevalidatedHeads(Heads(m), m[s].cmds[0], st)
  {
    var q, st := m[s], Revalidated(account, m[s]);
    var dropped := DroppedFrom(account, q.cmds);
    SliceOk(s, q, KeepFrom(account, q.cmds), KeepTo(account, q.cmds));
    DroppedFromExact(account, s, q);
    assert Elements(CmdsOf(st)) <= Elements(q.cmds);
    hide All, Heads, Elements, QueueOk, Revalidated, DroppedFrom;
    SplitQueue(m, s);
    if st.None? {
      RemoveQueue(m, s);
      assert Elements([]) == {} by { NoElements(); }
    } else {
      PutQueue(m, s, st.value);
    }
  }

  /** Moving the queue head and removing the dropped commands gives the indexes of the new queues. */
  lemma RevalidateSimulates(m: Queues, s: AccountId, account: AccountView)
    requires WellFormed(m) && s in m
    ensures var st := Revalidated(account, m[s]);
      var dropped := DroppedFrom(account, m[s].cmds);
      var m' := Put(m, s, st);
      && WellFormed(m')
      && All(m') == All(m) - Elements(dropped) && Elements(dropped) <= All(m)
      && PoolIndexes(m').size == PoolIndexes(m).size - |dropped| && |dropped| <= PoolIndexes(m).size
      && RemoveEach(IndexesOf(RevalidatedHeads(Heads(m), m[s].cmds[0], st), All(m)), dropped) == PoolIndexes(m')
  {
    var st := Revalidated(account, m[s]);
    var dropped := DroppedFrom(account, m[s].cmds);
    RevalidatedSets(m, s, account);
    DroppedFromExact(account, s, m[s]);
    assert forall i :: 0 <= i < |dropped| ==> dropped[i] in Elements(dropped);
    hide All, Heads, Elements, QueuesOk, Revalidated, DroppedFrom, RevalidatedHeads, Put, RemoveEach;
    RemoveEachIndexes(RevalidatedHeads(Heads(m), m[s].cmds[0], st), All(m), dropped);
    HashInjectiveSubset(All(m) - Elements(dropped), All(m));
  }

  // ----- The loops

  /** `drop_until_sufficient_balance`. Popping from the back never finds the queue empty. */
  method DropUntilSufficientBalance(queue: seq<Command>, reserved: Amount, balance: Amount)
    returns (kept: seq<Command>, reserved': Amount, dropped: seq<Command>)
    requires reserved == TotalConsumed(queue)
    ensures var k := AffordableCount(queue, balance);
      kept == queue[..k] && reserved' == TotalConsumed(queue[..k]) && dropped == Reverse(queue[k..])
  {
    kept, reserved', dropped := queue, reserved, [];
    assert queue[..|queue|] == queue;
    while reserved' > balance
      invariant |kept| <= |queue| && kept == queue[..|kept|]
      invariant reserved' == TotalConsumed(kept)
      invariant dropped == Reverse(queue[|kept|..])
      invariant AffordableCount(kept, balance) == AffordableCount(queue, balance)
      decreases |kept|
    {
      var n := |kept| - 1;
      var last := kept[n];
      TotalConsumedStep(kept, n);
      assert kept[..n + 1] == kept;
      assert queue[n..][..|queue| - n] == queue[n..];
      ReverseCons(queue, n);
      kept := kept[..n];
      dropped := dropped + [last];
      reserved' := reserved' - Consumed(last);
    }
  }

  lemma ReverseCons(cmds: seq<Command>, n: nat)
    requires n < |cmds|
    ensures Reverse(cmds[n..]) == Reverse(cmds[n + 1..]) + [cmds[n]]
  {}

  /** Taking the currency of the commands dropped for their nonce out of the reserve. */
  method ReleaseReserved(cmds: seq<Command>, i: nat, reserved: Amount) returns (reserved': Amount)
    requires i <= |cmds| && reserved == TotalConsumed(cmds)
    ensures reserved' == TotalConsumed(cmds[i..])
  {
    reserved' := reserved;
    for k := 0 to i
      invariant reserved' == TotalConsumed(cmds[k..])
    {
      assert cmds[k..][1..] == cmds[k + 1..];
      reserved' := reserved' - Consumed(cmds[k]);
    }
  }

  /** The split that revalidation makes when the account nonce has reached the queue. */
  method SplitForAccount(account: AccountView, q: SenderQueue)
    returns (i: nat, keep: seq<Command>, reserved: Amount, dropped: seq<Command>, keepingSuffix: bool)
    requires q.cmds != [] && q.reserved == TotalConsumed(q.cmds) && !Rejects(account, q.cmds)
    ensures i == KeepFrom(account, q.cmds)
    ensures keep == q.cmds[i..KeepTo(account, q.cmds)] && reserved == TotalConsumed(keep)
    ensures dropped == DroppedFrom(account, q.cmds)
    ensures keepingSuffix <==> KeepTo(account, q.cmds) == |q.cmds|
  {
    i := PositionOf(q.cmds, account.nonce);
    assert i == NonceIndex(q.cmds, account.nonce);
    var retained := q.cmds[i..];
    reserved := ReleaseReserved(q.cmds, i, q.reserved);
    var droppedForBalance;
    keep, reserved, droppedForBalance := DropUntilSufficientBalance(retained, reserved, account.liquidBalance);
    assert q.cmds[i..KeepTo(account, q.cmds)] == retained[..AffordableCount(retained, account.liquidBalance)];
    assert q.cmds[KeepTo(account, q.cmds)..] == retained[AffordableCount(retained, account.liquidBalance)..];
    keepingSuffix := droppedForBalance == [];
    dropped := q.cmds[..i] + droppedForBalance;
  }

  // ----- Many senders

  ghost function RevalidatedState(
      kind: RevalidateKind, accounts: map<AccountId, AccountView>, m: Queues, s: AccountId): SenderState
    requires QueuesOk(m)
  {
    if s in m && s in accounts && RequiresRevalidation(kind, s) then Revalidated(accounts[s], m[s])
    else StateOf(m, s)
  }

  /** The senders in `done` are revalidated, all others are as in `m0`. */
  ghost predicate RevalidatedFor(
      kind: RevalidateKind, accounts: map<AccountId, AccountView>, m0: Queues, m: Queues, done: set<AccountId>)
    requires QueuesOk(m0)
  {
    && (forall s :: s in done ==> StateOf(m, s) == RevalidatedState(kind, accounts, m0, s))
    && (forall s :: s !in done ==> StateOf(m, s) == StateOf(m0, s))
  }

  lemma RevalidatedForStep(
      kind: RevalidateKind, accounts: map<AccountId, AccountView>, m0: Queues, m: Queues, done: set<AccountId>,
      s: AccountId)
    requires QueuesOk(m0) && RevalidatedFor(kind, accounts, m0, m, done) && s in m0 && s !in done
    ensures s in m && m[s] == m0[s]
    ensures RequiresRevalidation(kind, s) && s in accounts ==>
      RevalidatedFor(kind, accounts, m0, Put(m, s, Revalidated(accounts[s], m0[s])), done + {s})
    ensures !RequiresRevalidation(kind, s) ==> RevalidatedFor(kind, accounts, m0, m, done + {s})
  {
    hide Revalidated;
    assert StateOf(m, s) == StateOf(m0, s);
    if RequiresRevalidation(kind, s) && s in accounts {
      var m' := Put(m, s, Revalidated(accounts[s], m0[s]));
      forall t ensures t != s ==> StateOf(m', t) == StateOf(m, t) {}
      assert StateOf(m', s) == Revalidated(accounts[s], m0[s]);
    }
  }
}
