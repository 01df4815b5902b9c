/**
 The three ways a queue changes, and the index updates that follow each of them.
 In every lemma the right-hand side is the full set of indexes of the new queues,
 so an update that misses one index, or touches it twice, does not satisfy it.
 */
module QueueSteps {
  import opened Commands
  import opened Senders

  /** The nonce the next command of this queue must carry. */
  function QueueTarget(q: SenderQueue): Nonce
    requires q.cmds != []
  {
    TargetNonce(q.cmds[|q.cmds| - 1])
  }

  lemma QueueTargetClosed(s: AccountId, q: SenderQueue)
    requires QueueOk(s, q)
    ensures QueueTarget(q) == NonceAfter(q.cmds[0].nonce, |q.cmds|)
  {}

  /** What is left of a queue when the command at `k` goes with everything after it. */
  ghost function Cut(q: SenderQueue, k: nat): SenderState
    requires k < |q.cmds| && q.reserved == TotalConsumed(q.cmds)
  {
    TotalConsumedSplit(q.cmds, k);
    if k == 0 then None else Some(SenderQueue(q.cmds[..k], TotalConsumed(q.cmds[..k])))
  }

  lemma CutOk(s: AccountId, q: SenderQueue, k: nat)
    requires QueueOk(s, q) && k < |q.cmds|
    ensures StateOk(s, Cut(q, k))
    ensures CmdsOf(Cut(q, k)) == q.cmds[..k]
    ensures Cut(q, k).Some? ==> QueueTarget(Cut(q, k).value) == q.cmds[k].nonce
  {}

  ghost function CutUpdates(cmds: seq<Command>, k: nat): seq<Update>
    requires k < |cmds|
  {
    if k == 0 then [RemoveAll(cmds[k..]), RemoveFromApplicable(Rate(cmds[0]), cmds[0])]
    else [RemoveAll(cmds[k..])]
  }

  /** A command that continues a chain, or starts one, cannot be in the pool already. */
  lemma ContinuationIsNew(m: Queues, c: Command)
    requires WellFormed(m)
    requires c.feePayer in m ==> |m[c.feePayer].cmds| < U32_MODULUS
    requires c.feePayer in m ==> c.nonce == QueueTarget(m[c.feePayer]) || TargetNonce(c) == m[c.feePayer].cmds[0].nonce
    ensures c !in All(m)
  {
    AllMember(m, c);
    if c in All(m) {
      var cmds := m[c.feePayer].cmds;
      var i :| 0 <= i < |cmds| && cmds[i] == c;
      QueueTargetClosed(c.feePayer, m[c.feePayer]);
      assert false;
    }
  }

  lemma AppendSets(m: Queues, c: Command, q: SenderQueue)
    requires QueuesOk(m)
    requires QueueOk(c.feePayer, q) && q.cmds == CmdsOf(StateOf(m, c.feePayer)) + [c]
    ensures QueuesOk(m[c.feePayer := q])
    ensures All(m[c.feePayer := q]) == All(m) + {c}
    ensures Heads(m[c.feePayer := q]) == if c.feePayer in m then Heads(m) else Heads(m) + {c}
  {
    var s := c.feePayer;
    SplitAll(m, s);
    PutAll(m, s, Some(q));
    assert Elements(q.cmds) == Elements(CmdsOf(StateOf(m, s))) + {c};
    if s in m { assert q.cmds[..1] == m[s].cmds[..1]; }
  }

  lemma AppendSimulates(m: Queues, c: Command, q: SenderQueue)
    requires WellFormed(m) && c !in All(m) && HashInjective(All(m) + {c})
    requires QueueOk(c.feePayer, q) && q.cmds == CmdsOf(StateOf(m, c.feePayer)) + [c]
    ensures WellFormed(m[c.feePayer := q])
    ensures All(m[c.feePayer := q]) == All(m) + {c}
    ensures AddOne(PoolIndexes(m), c, Rate(c), c.feePayer !in m) == PoolIndexes(m[c.feePayer := q])
  {
    AppendSets(m, c, q);
    AddIndexes(Heads(m), All(m), c, c.feePayer !in m);
  }

  lemma PrependSets(m: Queues, c: Command, q: SenderQueue)
    requires QueuesOk(m) && c.feePayer in m
    requires QueueOk(c.feePayer, q) && q.cmds == [c] + m[c.feePayer].cmds
    ensures QueuesOk(m[c.feePayer := q])
    ensures All(m[c.feePayer := q]) == All(m) + {c}
    ensures Heads(m[c.feePayer := q]) == Heads(m) - {m[c.feePayer].cmds[0]} + {c}
  {
    var s := c.feePayer;
    ElementsConcat([c], m[s].cmds);
    assert Elements([c]) == {c};
    hide *;
    SplitQueue(m, s);
    PutQueue(m, s, q);
  }

  lemma PrependSimulates(m: Queues, c: Command, q: SenderQueue)
    requires WellFormed(m) && c !in All(m) && HashInjective(All(m) + {c}) && c.feePayer in m
    requires QueueOk(c.feePayer, q) && q.cmds == [c] + m[c.feePayer].cmds
    ensures WellFormed(m[c.feePayer := q])
    ensures All(m[c.feePayer := q]) == All(m) + {c}
    ensures var first := m[c.feePayer].cmds[0];
      AddOne(ApplyOne(PoolIndexes(m), RemoveFromApplicable(Rate(first), first)), c, Rate(c), true)
      == PoolIndexes(m[c.feePayer := q])
  {
    var first := m[c.feePayer].cmds[0];
    PrependSets(m, c, q);
    RemoveHeadIndexes(Heads(m), All(m), first);
    AddIndexes(Heads(m) - {first}, All(m), c, true);
  }

  lemma CutSets(m: Queues, s: AccountId, k: nat)
    requires QueuesOk(m) && s in m && k < |m[s].cmds|
    ensures var m' := Put(m, s, Cut(m[s], k));
      && QueuesOk(m')
      && All(m') == All(m) - Elements(m[s].cmds[k..])
      && Heads(m') == if k == 0 then Heads(m) - {m[s].cmds[0]} else Heads(m)
  {
    var q := m[s];
    CutOk(s, q, k);
    hide All, Heads, Elements, QueuesOk, QueueOk;
    SplitQueue(m, s);
    CutElements(s, q, k);
    if k == 0 {
      assert q.cmds[k..] == q.cmds;
      RemoveQueue(m, s);
    } else {
      PutQueue(m, s, Cut(q, k).value);
    }
  }

  lemma CutSimulates(m: Queues, s: AccountId, k: nat)
    requires WellFormed(m) && s in m && k < |m[s].cmds|
    ensures var m' := Put(m, s, Cut(m[s], k));
      && WellFormed(m')
      && All(m') == All(m) - Elements(m[s].cmds[k..])
      && |All(m')| == |All(m)| - |m[s].cmds[k..]|
      && ApplyAll(PoolIndexes(m), CutUpdates(m[s].cmds, k)) == PoolIndexes(m')
  {
    var q, tail := m[s], m[s].cmds[k..];
    CutSets(m, s, k);
    CutElements(s, q, k);
    assert Elements(q.cmds) <= All(m) by { SplitAll(m, s); }
    QueueDistinct(s, q);
    CutIndexes(Heads(m), All(m), q.cmds, k);
    HashInjectiveSubset(All(m) - Elements(tail), All(m));
  }

  lemma CutIndexes(heads: set<Command>, all: set<Command>, cmds: seq<Command>, k: nat)
    requires HashInjective(all) && k < |cmds|
    requires Elements(cmds) <= all && Distinct(cmds)
    ensures |all - Elements(cmds[k..])| == |all| - |cmds[k..]|
    ensures ApplyAll(IndexesOf(heads, all), CutUpdates(cmds, k))
         == IndexesOf(if k == 0 then heads - {cmds[0]} else heads, all - Elements(cmds[k..]))
  {
    var tail, first := cmds[k..], cmds[0];
    RemoveEachIndexes(heads, all, tail);
    ApplyAllTwo(IndexesOf(heads, all), RemoveAll(tail), RemoveFromApplicable(Rate(first), first));
    RemoveHeadIndexes(heads, all - Elements(tail), first);
  }

  lemma ApplyAllTwo(ix: Indexes, u: Update, v: Update)
    ensures ApplyAll(ix, [u]) == ApplyOne(ix, u)
    ensures ApplyAll(ix, [u, v]) == ApplyOne(ApplyOne(ix, u), v)
  {
    assert [u, v][..1] == [u];
  }

  ghost predicate Distinct(cmds: seq<Command>) {
    forall i, j :: 0 <= i < j < |cmds| ==> cmds[i] != cmds[j]
  }

  lemma QueueDistinct(s: AccountId, q: SenderQueue)
    requires QueueOk(s, q)
    ensures Distinct(q.cmds)
  {
    forall i, j | 0 <= i < j < |q.cmds| ensures q.cmds[i] != q.cmds[j] {
      ChainedDistinct(q.cmds, i, j);
    }
  }

  lemma CutElements(s: AccountId, q: SenderQueue, k: nat)
    requires QueueOk(s, q) && k <= |q.cmds|
    ensures Elements(q.cmds) - Elements(q.cmds[k..]) == Elements(q.cmds[..k])
    ensures Distinct(q.cmds[k..])
  {
    QueueDistinct(s, q);
    assert q.cmds == q.cmds[..k] + q.cmds[k..];
  }
}
