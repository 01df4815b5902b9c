/** The size counter against the queues. */
module PoolSizes {
  import opened Commands
  import opened Senders
  import opened QueueSteps

  ghost function SomeSender(m: Queues): (s: AccountId)
    requires m.Keys != {}
    ensures s in m
  {
    var s :| s in m.Keys; s
  }

  /** The lengths of all queues, added up. */
  ghost function TotalLength(m: Queues): nat
    decreases |m.Keys|
  {
    if m.Keys == {} then 0
    else
      var s := SomeSender(m);
      assert (m - {s}).Keys == m.Keys - {s};
      |m[s].cmds| + TotalLength(m - {s})
  }

  lemma {:induction false} DistinctCount(cmds: seq<Command>)
    requires Distinct(cmds)
    ensures |Elements(cmds)| == |cmds|
  {
    if cmds == [] {
      NoElements();
    } else {
      var n := |cmds| - 1;
      DistinctCount(cmds[..n]);
      assert cmds == cmds[..n] + [cmds[n]];
      ElementsConcat(cmds[..n], [cmds[n]]);
      assert Elements([cmds[n]]) == {cmds[n]};
      assert cmds[n] !in Elements(cmds[..n]);
    }
  }

  /** `size` counts every queued command once. */
  lemma {:induction false} SizeIsTotalLength(m: Queues)
    requires QueuesOk(m)
    ensures PoolIndexes(m).size == TotalLength(m)
    decreases |m.Keys|
  {
    hide QueueOk, Elements, Distinct;
    if m.Keys == {} {
      NothingQueued(m);
    } else {
      var s := SomeSender(m);
      SplitQueue(m, s);
      RemoveQueue(m, s);
      assert (m - {s}).Keys == m.Keys - {s};
      SizeIsTotalLength(m - {s});
      QueueDistinct(s, m[s]);
      DistinctCount(m[s].cmds);
    }
  }

  lemma NothingQueued(m: Queues)
    requires m.Keys == {}
    ensures All(m) == {}
  {
  }
}
