/** What `add_from_backtrack` decides: a command of an abandoned block goes in front of its sender's queue. */
module Backtrack {
  import opened Commands
  import opened Senders
  import opened QueueSteps
  import opened Gossip

  /** The checks that come before the reserve is added up. */
  ghost function Rejection(env: Env, c: Command, st: SenderState): Option<CommandError>
    requires st.Some? ==> st.value.cmds != []
  {
    if env.slotTxEnd.Some? && !(env.currentSlot < env.slotTxEnd.value) then Some(AfterSlotTxEnd)
    else if c.validUntil < env.slot then Some(Expired(c.validUntil, env.slot))
    else if Consumed(c) >= U64_MODULUS then Some(InvalidCurrencyConsumed)
    else if st.Some? && TargetNonce(c) != st.value.cmds[0].nonce then
      Some(BacktrackNonceMismatch(TargetNonce(c), st.value.cmds[0].nonce))
    else None
  }

  /** A command that passes them does not overflow the reserve: the source unwraps this sum. */
  ghost predicate SumFits(env: Env, c: Command, st: SenderState)
    requires st.Some? ==> st.value.cmds != []
  {
    st.Some? && Rejection(env, c, st).None? ==> st.value.reserved + Consumed(c) < U64_MODULUS
  }

  ghost function Restore(env: Env, c: Command, st: SenderState): Result<SenderQueue>
    requires (st.Some? ==> st.value.cmds != []) && SumFits(env, c, st)
  {
    if Rejection(env, c, st).Some? then Err(Rejection(env, c, st).value)
    else Ok(SenderQueue([c] + CmdsOf(st), Consumed(c) + if st.Some? then st.value.reserved else 0))
  }

  /** Transactions have not ended, the command has not expired, its amount fits, and the queue goes on after it. */
  ghost predicate MayRestore(env: Env, c: Command, st: SenderState) {
    && (env.slotTxEnd.Some? ==> env.currentSlot < env.slotTxEnd.value)
    && env.slot <= c.validUntil
    && Consumed(c) < U64_MODULUS
    && (st.Some? && st.value.cmds != [] ==> st.value.cmds[0].nonce == NonceAfter(c.nonce, 1))
  }

  /** A command is put back exactly then, and a rejection names the check that failed with its numbers. */
  lemma RestoredIff(env: Env, c: Command, st: SenderState)
    requires (st.Some? ==> st.value.cmds != []) && SumFits(env, c, st)
    ensures Restore(env, c, st).Ok? <==> MayRestore(env, c, st)
    ensures Restore(env, c, st).Err? ==>
      match Restore(env, c, st).error
      case AfterSlotTxEnd => env.slotTxEnd.Some? && env.slotTxEnd.value <= env.currentSlot
      case Expired(until, slot) => until == c.validUntil && slot == env.slot && until < slot
      case InvalidCurrencyConsumed => Consumed(c) >= U64_MODULUS
      case BacktrackNonceMismatch(next, first) =>
        st.Some? && next == NonceAfter(c.nonce, 1) && first == st.value.cmds[0].nonce && next != first
      case _ => false
  {
  }

  lemma RestoredQueueOk(env: Env, c: Command, st: SenderState)
    requires StateOk(c.feePayer, st) && |CmdsOf(st)| < U32_MODULUS
    requires SumFits(env, c, st) && Restore(env, c, st).Ok?
    ensures QueueOk(c.feePayer, Restore(env, c, st).value)
  {
    TotalConsumedConcat([c], CmdsOf(st));
    var cmds := Restore(env, c, st).value.cmds;
    forall i | 0 <= i < |cmds| ensures cmds[i].nonce == NonceAfter(cmds[0].nonce, i) {
      if i > 0 { assert cmds[i] == st.value.cmds[i - 1]; }
    }
  }

  /** The index updates of `add_from_backtrack` give the indexes of the new queues. */
  lemma RestoreSimulates(env: Env, c: Command, m: Queues)
    requires WellFormed(m) && HashInjective(All(m) + {c}) && |CmdsOf(StateOf(m, c.feePayer))| < U32_MODULUS
    requires SumFits(env, c, StateOf(m, c.feePayer)) && Restore(env, c, StateOf(m, c.feePayer)).Ok?
    ensures var q := Restore(env, c, StateOf(m, c.feePayer)).value;
      var ix := if c.feePayer in m then
          var first := m[c.feePayer].cmds[0];
          ApplyOne(PoolIndexes(m), RemoveFromApplicable(Rate(first), first))
        else PoolIndexes(m);
      && c !in All(m)
      && WellFormed(m[c.feePayer := q])
      && AddOne(ix, c, Rate(c), true) == PoolIndexes(m[c.feePayer := q])
  {
    hide All, Heads, PoolIndexes, AddOne;
    var q := Restore(env, c, StateOf(m, c.feePayer)).value;
    RestoredQueueOk(env, c, StateOf(m, c.feePayer));
    ContinuationIsNew(m, c);
    if c.feePayer in m {
      PrependSimulates(m, c, q);
    } else {
      AppendSimulates(m, c, q);
    }
  }
}
