/**
 The planning half of `add_from_gossip_exn`: it works on a private copy of the sender's
 state and on a list of index updates, and calls itself to put the new command and the
 commands behind it back after a cut. Each method is proved to compute what module
 Gossip decides. A check that the source guards with an assertion or an unwrap, and
 that can never fail, is a Dafny assertion here.
 */
module GossipPlan {
  import opened Commands
  import opened Senders
  import opened QueueSteps
  import opened Gossip

  /** The first position whose nonce is not below `nonce`. */
  method FirstNotBelow(cmds: seq<Command>, nonce: Nonce) returns (i: nat)
    ensures i <= |cmds|
    ensures forall j :: 0 <= j < i ==> cmds[j].nonce < nonce
    ensures i < |cmds| ==> nonce <= cmds[i].nonce
  {
    i := 0;
    while i < |cmds| && cmds[i].nonce < nonce
      invariant i <= |cmds|
      invariant forall j :: 0 <= j < i ==> cmds[j].nonce < nonce
    {
      i := i + 1;
    }
  }

  /** The first position with this nonce. */
  method PositionOf(cmds: seq<Command>, nonce: Nonce) returns (i: nat)
    ensures i <= |cmds|
    ensures forall j :: 0 <= j < i ==> cmds[j].nonce != nonce
    ensures i < |cmds| ==> cmds[i].nonce == nonce
  {
    i := 0;
    while i < |cmds| && cmds[i].nonce != nonce
      invariant i <= |cmds|
      invariant forall j :: 0 <= j < i ==> cmds[j].nonce != nonce
    {
      i := i + 1;
    }
  }

  method SumConsumed(cmds: seq<Command>) returns (total: Amount)
    requires TotalConsumed(cmds) < U64_MODULUS
    ensures total == TotalConsumed(cmds)
  {
    total := 0;
    assert cmds[..|cmds|] == cmds;
    for i := 0 to |cmds|
      invariant total == TotalConsumed(cmds[..i])
    {
      TotalConsumedStep(cmds, i);
      TotalConsumedSplit(cmds, i + 1);
      total := total + Consumed(cmds[i]);
    }
  }

  /** `remove_with_dependents_exn_impl`: cut the queue at `cmd`, which is queued at `k`. */
  method PlanRemoval(cmd: Command, q: SenderQueue, updates: seq<Update>, ghost k: nat)
    returns (dropped: seq<Command>, st: SenderState, updates': seq<Update>)
    requires QueueOk(cmd.feePayer, q) && k < |q.cmds| && q.cmds[k] == cmd
    ensures dropped == q.cmds[k..] && st == Cut(q, k)
    ensures updates' == updates + CutUpdates(q.cmds, k)
  {
    var i := PositionOf(q.cmds, cmd.nonce);
    assert i == k by {
      ChainedDistinct(q.cmds, i, k);
    }
    dropped := q.cmds[i..];
    var keep := q.cmds[..i];
    TotalConsumedSplit(q.cmds, i);
    var toRemove := SumConsumed(dropped);
    var reserved := q.reserved - toRemove;
    updates' := updates + [RemoveAll(dropped)];
    if i == 0 {
      updates' := updates' + [RemoveFromApplicable(Rate(cmd), cmd)];
    }
    if keep != [] {
      st := Some(SenderQueue(keep, reserved));
    } else {
      assert reserved == 0;
      st := None;
    }
  }

  /** `add_from_gossip_exn_impl`. */
  method PlanAddition(env: Env, cmd: Command, currentNonce: Nonce, st: SenderState, updates: seq<Update>)
    returns (r: Result<(Command, seq<Command>)>, st': SenderState, updates': seq<Update>)
    requires StateOk(cmd.feePayer, st)
    ensures r.Ok? <==> Decide(env, cmd, currentNonce, st).Ok?
    ensures r.Err? ==> r.error == Decide(env, cmd, currentNonce, st).error
    ensures r.Ok? ==> var plan := Decide(env, cmd, currentNonce, st).value;
      && r.value == (cmd, plan.dropped)
      && st' == Some(plan.queue)
      && updates' == updates + plan.updates
    decreases if Replaces(cmd, currentNonce, st) then 2 else 0
  {
    st', updates' := st, updates;
    if env.slotTxEnd.Some? && !(env.currentSlot < env.slotTxEnd.value) {
      return Err(AfterSlotTxEnd), st', updates';
    }
    if cmd.validUntil < env.slot {
      return Err(Expired(cmd.validUntil, env.slot)), st', updates';
    }
    var c := CurrencyConsumed(cmd);
    if c.Err? {
      return Err(Overflow), st', updates';
    }
    if cmd.feeToken != DEFAULT_TOKEN {
      return Err(UnwantedFeeToken(cmd.feeToken)), st', updates';
    }
    var consumed := c.value;
    match st
    case None =>
      if currentNonce != cmd.nonce {
        return Err(InvalidNonce(currentNonce, cmd.nonce)), st', updates';
      }
      if consumed > env.balance {
        return Err(InsufficientFunds(env.balance, consumed)), st', updates';
      }
      assert CmdsOf(st) + [cmd] == [cmd];
      st' := Some(SenderQueue([cmd], consumed));
      updates' := updates + [Add(cmd, Rate(cmd), true)];
      r := Ok((cmd, []));
    case Some(q) =>
      if QueueTarget(q) == cmd.nonce {
        var reserved := CheckedAdd(consumed, q.reserved);
        if reserved.None? {
          return Err(Overflow), st', updates';
        }
        if reserved.value > env.balance {
          return Err(InsufficientFunds(env.balance, reserved.value)), st', updates';
        }
        st' := Some(SenderQueue(q.cmds + [cmd], reserved.value));
        updates' := updates + [Add(cmd, Rate(cmd), false)];
        r := Ok((cmd, []));
      } else if q.cmds[0].nonce == currentNonce {
        r, st', updates' := PlanReplacement(env, cmd, currentNonce, q, updates);
      } else {
        r := Err(InvalidNonce(cmd.nonce, QueueTarget(q)));
      }
  }

  /** The branch of `add_from_gossip_exn_impl` that replaces a queued command. */
  method PlanReplacement(env: Env, cmd: Command, currentNonce: Nonce, q: SenderQueue, updates: seq<Update>)
    returns (r: Result<(Command, seq<Command>)>, st': SenderState, updates': seq<Update>)
    requires QueueOk(cmd.feePayer, q) && Screen(env, cmd).None?
    requires QueueTarget(q) != cmd.nonce && q.cmds[0].nonce == currentNonce
    ensures r.Ok? <==> Replace(env, cmd, q).Ok?
    ensures r.Err? ==> r.error == Replace(env, cmd, q).error
    ensures r.Ok? ==> var plan := Replace(env, cmd, q).value;
      && r.value == (cmd, plan.dropped)
      && st' == Some(plan.queue)
      && updates' == updates + plan.updates
    decreases 1, 2
  {
    st', updates' := Some(q), updates;
    if !(q.cmds[0].nonce <= cmd.nonce <= QueueTarget(q)) {
      return Err(InvalidNonce(cmd.nonce, q.cmds[0].nonce)), st', updates';
    }
    var i := FirstNotBelow(q.cmds, cmd.nonce);
    assert i == cmd.nonce - q.cmds[0].nonce && q.cmds[i].nonce == cmd.nonce by {
      ReplacementIndex(cmd.feePayer, q, cmd);
    }
    r, st', updates' := PlanReplacementAt(env, cmd, currentNonce, q, i, updates);
  }

  method PlanReplacementAt(env: Env, cmd: Command, currentNonce: Nonce, q: SenderQueue, i: nat, updates: seq<Update>)
    returns (r: Result<(Command, seq<Command>)>, st': SenderState, updates': seq<Update>)
    requires QueueOk(cmd.feePayer, q) && Screen(env, cmd).None? && q.cmds[0].nonce == currentNonce
    requires i < |q.cmds| && q.cmds[i].nonce == cmd.nonce
    ensures r.Ok? <==> ReplaceAt(env, cmd, q.cmds, i).Ok?
    ensures r.Err? ==> r.error == ReplaceAt(env, cmd, q.cmds, i).error
    ensures r.Ok? ==> var plan := ReplaceAt(env, cmd, q.cmds, i).value;
      && r.value == (cmd, plan.dropped)
      && st' == Some(plan.queue)
      && updates' == updates + plan.updates
    decreases 1, 1
  {
    st', updates' := Some(q), updates;
    var dropQueue := q.cmds[i..];
    var toDrop := dropQueue[0];
    if cmd.fee < toDrop.fee {
      return Err(InsufficientReplaceFee(toDrop.fee, cmd.fee)), st', updates';
    }
    var dropped, cut, updates1 := PlanRemoval(toDrop, q, updates, i);
    assert dropQueue == dropped;
    CutThenDecide(env, cmd, currentNonce, q, i);
    hide Decide, Cut, QueueOk, Chained, FitCount, TotalConsumed, Charge, AddUpdates, Rate;

    var added, st1, updates2 := PlanAddition(env, cmd, currentNonce, cut, updates1);
    if added.Err? {
      return Err(added.error), st', updates';
    }
    assert added.value.1 == [];
    r, st', updates' := FinishReplacement(env, cmd, currentNonce, q, i, st1.value, updates, updates2);
  }

  /** The rest of a replacement, once the new command stands in its place. */
  method FinishReplacement(
      env: Env, cmd: Command, currentNonce: Nonce, q: SenderQueue, i: nat, placed: SenderQueue,
      ghost updates: seq<Update>, updates2: seq<Update>)
    returns (r: Result<(Command, seq<Command>)>, st': SenderState, updates': seq<Update>)
    requires QueueOk(cmd.feePayer, q) && Screen(env, cmd).None?
    requires i < |q.cmds| && q.cmds[i].nonce == cmd.nonce && q.cmds[i].fee <= cmd.fee
    requires Base(cmd, q.cmds, i) <= env.balance
    requires placed == SenderQueue(q.cmds[..i] + [cmd], Base(cmd, q.cmds, i))
    requires updates2 == updates + CutUpdates(q.cmds, i) + [Add(cmd, Rate(cmd), i == 0)]
    ensures r.Ok? <==> ReplaceAt(env, cmd, q.cmds, i).Ok?
    ensures r.Err? ==> r.error == ReplaceAt(env, cmd, q.cmds, i).error
    ensures r.Ok? ==> var plan := ReplaceAt(env, cmd, q.cmds, i).value;
      && r.value == (cmd, plan.dropped)
      && st' == Some(plan.queue)
      && updates' == updates + plan.updates
    decreases 1, 0, 1
  {
    hide QueueOk, Chained, FitCount, TotalConsumed, Charge, AddUpdates, CutUpdates, Rate, Requeued, ReplacePlan;
    hide Screen, Base, Lost;
    var dropped, increment := q.cmds[i..], cmd.fee - q.cmds[i].fee;
    PlacedQueue(cmd, q, i);
    assert dropped[1..] == q.cmds[i + 1..];
    LostIs(env, cmd, q.cmds, i);
    var rest, st2, updates3 := ReaddTail(env, dropped[1..], currentNonce, placed, updates2, increment);
    st', updates' := st2, updates3;
    if rest.Err? {
      return Err(rest.error), st', updates';
    }
    if rest.value.0 < REPLACE_FEE {
      return Err(InsufficientReplaceFee(REPLACE_FEE, rest.value.0)), st', updates';
    }
    r := Ok((cmd, [q.cmds[i]] + if rest.value.1.Some? then rest.value.1.value else []));
    RequeuedIsPlan(env, cmd, q.cmds, i, placed, updates, updates2, st', updates');
  }

  lemma LostIs(env: Env, c: Command, cmds: seq<Command>, i: nat)
    requires i < |cmds|
    ensures cmds[i + 1..][FitCount(env, Base(c, cmds, i), cmds[i + 1..])..] == Lost(env, c, cmds, i)
  {
    hide FitCount;
  }

  lemma RequeuedIsPlan(
      env: Env, c: Command, cmds: seq<Command>, i: nat, placed: SenderQueue, updates: seq<Update>,
      updates2: seq<Update>, st: SenderState, updates': seq<Update>)
    requires i < |cmds| && Base(c, cmds, i) <= env.balance
    requires placed == SenderQueue(cmds[..i] + [c], Base(c, cmds, i))
    requires updates2 == updates + CutUpdates(cmds, i) + [Add(c, Rate(c), i == 0)]
    requires Requeued(env, placed, cmds[i + 1..], updates2, Readded(env, c, cmds, i), st, updates')
    ensures var plan := ReplacePlan(env, c, cmds, i);
      && st == Some(plan.queue) && updates' == updates + plan.updates
      && plan.dropped == [cmds[i]] +
           if Readded(env, c, cmds, i) == |cmds[i + 1..]| then [] else cmds[i + 1..][Readded(env, c, cmds, i) + 1..]
  {
    hide FitCount, TotalConsumed, AddUpdates, CutUpdates, Rate;
  }

  /** After the cut the new command continues what is left, so it is not a replacement again. */
  lemma CutThenDecide(env: Env, c: Command, currentNonce: Nonce, q: SenderQueue, i: nat)
    requires QueueOk(c.feePayer, q) && Screen(env, c).None? && q.cmds[0].nonce == currentNonce
    requires i < |q.cmds| && q.cmds[i].nonce == c.nonce
    ensures StateOk(c.feePayer, Cut(q, i)) && !Replaces(c, currentNonce, Cut(q, i))
    ensures var d := Decide(env, c, currentNonce, Cut(q, i));
      && (d.Ok? <==> Base(c, q.cmds, i) <= env.balance)
      && (d.Err? ==> d.error == if Base(c, q.cmds, i) >= U64_MODULUS then Overflow
                               else InsufficientFunds(env.balance, Base(c, q.cmds, i)))
      && (d.Ok? ==> d.value == Plan(SenderQueue(q.cmds[..i] + [c], Base(c, q.cmds, i)), [], [Add(c, Rate(c), i == 0)]))
  {
    CutOk(c.feePayer, q, i);
  }

  lemma PlacedQueue(c: Command, q: SenderQueue, i: nat)
    requires QueueOk(c.feePayer, q) && i < |q.cmds| && q.cmds[i].nonce == c.nonce
    ensures var placed := q.cmds[..i] + [c];
      && Chained(placed + q.cmds[i + 1..]) && TotalConsumed(placed) == Base(c, q.cmds, i)
      && forall d :: d in placed + q.cmds[i + 1..] ==> d.feePayer == placed[0].feePayer
  {
    TotalConsumedConcat(q.cmds[..i], [c]);
    ReplacedChained(c, q, i, |q.cmds| - i - 1);
    assert q.cmds[i + 1..][..|q.cmds| - i - 1] == q.cmds[i + 1..];
  }

  /**
   The loop that adds the cut-off commands again until one fails, and from then on
   charges their fees. The list it collects starts behind the failing command.
   */
  method ReaddTail(
      env: Env, tail: seq<Command>, currentNonce: Nonce, q: SenderQueue, updates: seq<Update>, offered: Amount)
    returns (r: Result<(Amount, Option<seq<Command>>)>, st: SenderState, updates': seq<Update>)
    requires q.cmds != [] && q.reserved == TotalConsumed(q.cmds) && q.reserved <= env.balance
    requires Chained(q.cmds + tail)
    requires forall c :: c in q.cmds + tail ==> c.feePayer == q.cmds[0].feePayer
    ensures var k := FitCount(env, q.reserved, tail);
      && (r.Ok? <==> Charge(offered, tail[k..]).Ok?)
      && (r.Err? ==> r.error == Charge(offered, tail[k..]).error)
      && (r.Ok? ==>
           && r.value == (Charge(offered, tail[k..]).value, if k == |tail| then None else Some(tail[k + 1..]))
           && Requeued(env, q, tail, updates, k, st, updates'))
    decreases 1, 0, 0
  {
    hide Decide, Screen, Requeued, TotalConsumed, AddUpdates, Chained, Charge;
    ghost var k := FitCount(env, q.reserved, tail);
    hide FitCount;
    var dropped: Option<seq<Command>> := None;
    var increment: Amount := offered;
    var nonce, j := currentNonce, 0;
    st, updates' := Some(q), updates;
    RequeuedNone(env, q, tail, updates);
    while j < |tail|
      invariant 0 <= j <= |tail|
      invariant Requeued(env, q, tail, updates, if dropped.None? then j else k, st, updates')
      invariant dropped.None? ==> j <= k && increment == offered
      invariant dropped.Some? ==> k < |tail| && k <= j && dropped.value == tail[k + 1..]
      invariant dropped.Some? ==> Charge(offered, tail[k..]) == Charge(increment, tail[j..])
      decreases |tail| - j, if dropped.None? then 1 else 0
    {
      var cmd := tail[j];
      ChargeStep(increment, tail, j);
      if dropped.Some? {
        if increment < cmd.fee {
          return Err(InsufficientReplaceFee(cmd.fee, increment)), st, updates';
        }
        increment := increment - cmd.fee;
      } else {
        nonce := Succ(nonce);
        RequeuedContinues(env, q, tail, updates, j, st, updates');
        var again, st1, thisUpdates := PlanAddition(env, cmd, nonce, st, []);
        RequeueStep(env, q, tail, updates, j, nonce, st, updates');
        if again.Err? {
          dropped := Some(tail[j + 1..]);
          continue;
        }
        assert again.value.1 == [] && thisUpdates == Decide(env, cmd, nonce, st).value.updates;
        st, updates' := st1, updates' + thisUpdates;
      }
      j := j + 1;
    }
    ChargeNone(increment, tail);
    r := Ok((increment, dropped));
  }

  lemma ChargeStep(increment: Amount, tail: seq<Command>, j: nat)
    requires j < |tail|
    ensures Charge(increment, tail[j..]) ==
      if increment < tail[j].fee then Err(InsufficientReplaceFee(tail[j].fee, increment))
      else Charge(increment - tail[j].fee, tail[j + 1..])
  {
    assert tail[j..][1..] == tail[j + 1..];
  }

  lemma ChargeNone(increment: Amount, tail: seq<Command>)
    ensures Charge(increment, tail[|tail|..]) == Ok(increment)
  {
  }

  lemma RequeuedNone(env: Env, q: SenderQueue, tail: seq<Command>, updates: seq<Update>)
    requires q.reserved <= env.balance
    ensures Requeued(env, q, tail, updates, 0, Some(q), updates)
  {
    assert q.cmds + tail[..0] == q.cmds;
  }

  /** After `j` commands of the tail were added again. */
  ghost predicate Requeued(
      env: Env, q: SenderQueue, tail: seq<Command>, updates: seq<Update>, j: nat, st: SenderState,
      updates': seq<Update>)
  {
    && j <= |tail| && q.reserved + TotalConsumed(tail[..j]) <= env.balance
    && st == Some(SenderQueue(q.cmds + tail[..j], q.reserved + TotalConsumed(tail[..j])))
    && updates' == updates + AddUpdates(tail[..j])
  }

  /** The next command of the tail continues the queue, so adding it is never a replacement. */
  lemma RequeuedContinues(
      env: Env, q: SenderQueue, tail: seq<Command>, updates: seq<Update>, j: nat, st: SenderState,
      updates': seq<Update>)
    requires q.cmds != [] && q.reserved == TotalConsumed(q.cmds) && Chained(q.cmds + tail) && j < |tail|
    requires forall c :: c in q.cmds + tail ==> c.feePayer == q.cmds[0].feePayer
    requires Requeued(env, q, tail, updates, j, st, updates')
    ensures StateOk(tail[j].feePayer, st) && st.Some?
    ensures QueueTarget(st.value) == tail[j].nonce
  {
    var all, cmds := q.cmds + tail, q.cmds + tail[..j];
    TotalConsumedConcat(q.cmds, tail[..j]);
    assert tail[j] == all[|q.cmds| + j];
    forall x | 0 <= x < |cmds| ensures cmds[x] == all[x] {}
    assert tail[j] in all && q.cmds[0] == all[0];
  }

  lemma RequeueStep(
      env: Env, q: SenderQueue, tail: seq<Command>, updates: seq<Update>, j: nat, nonce: Nonce, st: SenderState,
      updates': seq<Update>)
    requires j < |tail| && j <= FitCount(env, q.reserved, tail)
    requires Requeued(env, q, tail, updates, j, st, updates')
    requires StateOk(tail[j].feePayer, st) && QueueTarget(st.value) == tail[j].nonce
    ensures Decide(env, tail[j], nonce, st).Ok? <==> j < FitCount(env, q.reserved, tail)
    ensures Decide(env, tail[j], nonce, st).Ok? ==>
      var plan := Decide(env, tail[j], nonce, st).value;
      && plan.dropped == []
      && Requeued(env, q, tail, updates, j + 1, Some(plan.queue), updates' + plan.updates)
  {
    FitCountStep(env, q.reserved, tail, j);
    TotalConsumedStep(tail, j);
    assert tail[..j + 1][..j] == tail[..j];
    assert q.cmds + tail[..j] + [tail[j]] == q.cmds + tail[..j + 1];
    assert updates + AddUpdates(tail[..j]) + [Add(tail[j], Rate(tail[j]), false)]
        == updates + AddUpdates(tail[..j + 1]);
  }

  lemma {:induction false} FitCountStep(env: Env, base: nat, tail: seq<Command>, j: nat)
    requires j < |tail| && j <= FitCount(env, base, tail)
    ensures j < FitCount(env, base, tail) <==>
      Screen(env, tail[j]).None? && base + TotalConsumed(tail[..j + 1]) <= env.balance
    decreases j
  {
    assert tail[..j + 1][1..] == tail[1..][..j];
    if j > 0 {
      FitCountStep(env, base + Consumed(tail[0]), tail[1..], j - 1);
    }
  }
}
