/** What an accepted gossip command guarantees about the sender's queue and the pool. */
module GossipProperties {
  import opened Commands
  import opened Senders
  import opened QueueSteps
  import opened Gossip

  // ----- The new queue

  /** The new queue is well formed and its total is within the balance. */
  lemma GossipQueueOk(env: Env, c: Command, currentNonce: Nonce, st: SenderState)
    requires StateOk(c.feePayer, st) && |CmdsOf(st)| < U32_MODULUS
    requires Decide(env, c, currentNonce, st).Ok?
    ensures QueueOk(c.feePayer, Decide(env, c, currentNonce, st).value.queue)
    ensures Decide(env, c, currentNonce, st).value.queue.reserved <= env.balance
  {
    if Replaces(c, currentNonce, st) {
      ReplaceQueueOk(env, c, st.value);
    } else {
      ExtendedQueueOk(env, c, currentNonce, st);
    }
  }

  lemma ExtendedQueueOk(env: Env, c: Command, currentNonce: Nonce, st: SenderState)
    requires StateOk(c.feePayer, st) && |CmdsOf(st)| < U32_MODULUS && Screen(env, c).None?
    requires Extend(env, c, currentNonce, st).Ok?
    ensures QueueOk(c.feePayer, Extend(env, c, currentNonce, st).value.queue)
    ensures Extend(env, c, currentNonce, st).value.queue.reserved <= env.balance
  {
    TotalConsumedConcat(CmdsOf(st), [c]);
    if st.Some? { QueueTargetClosed(c.feePayer, st.value); }
  }

  lemma ReplaceQueueOk(env: Env, c: Command, q: SenderQueue)
    requires QueueOk(c.feePayer, q) && Screen(env, c).None? && QueueTarget(q) != c.nonce
    requires Replace(env, c, q).Ok?
    ensures QueueOk(c.feePayer, Replace(env, c, q).value.queue)
    ensures Replace(env, c, q).value.queue.reserved <= env.balance
  {
    ReplacementIndex(c.feePayer, q, c);
    ReplacedQueueOk(env, c, q, c.nonce - q.cmds[0].nonce);
  }

  lemma ReplacedQueueOk(env: Env, c: Command, q: SenderQueue, i: nat)
    requires QueueOk(c.feePayer, q) && i < |q.cmds| && q.cmds[i].nonce == c.nonce
    requires Base(c, q.cmds, i) <= env.balance
    ensures QueueOk(c.feePayer, ReplacePlan(env, c, q.cmds, i).queue)
    ensures ReplacePlan(env, c, q.cmds, i).queue.reserved <= env.balance
  {
    var k := Readded(env, c, q.cmds, i);
    ReplacedChained(c, q, i, k);
    hide Chained;
    FitCountFits(env, Base(c, q.cmds, i), q.cmds[i + 1..]);
    TotalConsumedConcat(q.cmds[..i] + [c], q.cmds[i + 1..][..k]);
    TotalConsumedConcat(q.cmds[..i], [c]);
  }

  /**
   A successful replacement keeps everything before the replaced command, puts the new
   one in its place, and follows it with the longest prefix of the rest that still
   passes the checks.
   */
  lemma ReplacementKeepsLongestPrefix(env: Env, c: Command, cmds: seq<Command>, i: nat)
    requires i < |cmds| && Screen(env, c).None? && ReplaceAt(env, c, cmds, i).Ok?
    ensures var rest := cmds[i + 1..];
      exists k :: 0 <= k <= |rest|
        && ReplaceAt(env, c, cmds, i).value.queue.cmds == cmds[..i] + [c] + rest[..k]
        && Fits(env, Base(c, cmds, i), rest[..k])
        && forall j :: 0 <= j <= |rest| && Fits(env, Base(c, cmds, i), rest[..j]) ==> j <= k
  {
    var rest, base := cmds[i + 1..], Base(c, cmds, i);
    FitCountFits(env, base, rest);
    forall j | 0 <= j <= |rest| && Fits(env, base, rest[..j]) ensures j <= FitCount(env, base, rest) {
      FitCountLongest(env, base, rest, j);
    }
  }

  // ----- Which commands are accepted

  /** The command replaces the one at `i`: same nonce, its sender can pay, and it pays for all that leave. */
  ghost predicate MayReplace(env: Env, c: Command, cmds: seq<Command>, i: nat) {
    && i < |cmds| && cmds[i].nonce == c.nonce
    && Base(c, cmds, i) <= env.balance
    && c.fee > TotalFee(Departed(env, c, cmds, i))
  }

  /** The command continues the queue: its nonce is the next one and its sender can pay for all of them. */
  ghost predicate MayContinue(env: Env, c: Command, q: SenderQueue)
    requires 0 < |q.cmds| <= U32_MODULUS
  {
    c.nonce == NonceAfter(q.cmds[0].nonce, |q.cmds|) && q.reserved + Consumed(c) <= env.balance
  }

  /**
   Exactly when a command is accepted, from its fields. A sender without a queue must use the
   account's nonce; a queue is continued at its end; and a command of a queue that starts at the
   account's nonce and does not wrap around can be replaced.
   */
  ghost predicate Acceptable(env: Env, c: Command, currentNonce: Nonce, st: SenderState)
    requires StateOk(c.feePayer, st)
  {
    && Eligible(env, c)
    && match st
       case None => c.nonce == currentNonce && Consumed(c) <= env.balance
       case Some(q) =>
         || MayContinue(env, c, q)
         || (&& q.cmds[0].nonce == currentNonce && !WrapsAround(st)
             && exists i :: MayReplace(env, c, q.cmds, i))
  }

  lemma AcceptedIff(env: Env, c: Command, currentNonce: Nonce, st: SenderState)
    requires StateOk(c.feePayer, st) && |CmdsOf(st)| < U32_MODULUS
    ensures Decide(env, c, currentNonce, st).Ok? <==> Acceptable(env, c, currentNonce, st)
  {
    hide Screen, Eligible, Replace, Chained, TotalConsumed;
    ScreenedIff(env, c);
    if Eligible(env, c) && st.Some? {
      QueueTargetClosed(c.feePayer, st.value);
      if QueueTarget(st.value) == c.nonce {
        NoReplacementAtEnd(env, c, st.value);
      } else {
        ReplacedIff(env, c, st.value);
      }
    }
  }

  /** No queued command carries the nonce that comes after the queue. */
  lemma NoReplacementAtEnd(env: Env, c: Command, q: SenderQueue)
    requires QueueOk(c.feePayer, q) && |q.cmds| < U32_MODULUS && QueueTarget(q) == c.nonce
    ensures forall i :: !MayReplace(env, c, q.cmds, i)
  {
    QueueTargetClosed(c.feePayer, q);
    forall i: nat | i < |q.cmds| ensures q.cmds[i].nonce != c.nonce {
      NonceAfterInjective(q.cmds[0].nonce, i, |q.cmds|);
    }
  }

  lemma ReplacedIff(env: Env, c: Command, q: SenderQueue)
    requires QueueOk(c.feePayer, q) && Screen(env, c).None? && QueueTarget(q) != c.nonce && |q.cmds| < U32_MODULUS
    ensures Replace(env, c, q).Ok? <==>
      q.cmds[0].nonce + |q.cmds| < U32_MODULUS && exists i :: MayReplace(env, c, q.cmds, i)
  {
    hide Screen, TotalConsumed, TotalFee, ReplaceAt, Departed;
    QueueTargetClosed(c.feePayer, q);
    if InReplaceRange(c, q) {
      var k := c.nonce - q.cmds[0].nonce;
      ReplacementIndex(c.feePayer, q, c);
      ReplacementAcceptedIff(env, c, q.cmds, k);
      assert Replace(env, c, q).Ok? <==> MayReplace(env, c, q.cmds, k);
      forall i: nat | MayReplace(env, c, q.cmds, i) ensures i == k {
        ChainedDistinct(q.cmds, i, k);
      }
    } else if q.cmds[0].nonce + |q.cmds| < U32_MODULUS {
      forall i: nat | i < |q.cmds| ensures q.cmds[i].nonce != c.nonce {
        assert q.cmds[i].nonce == q.cmds[0].nonce + i;
      }
    }
  }

  /** The nonces of the queue, with the one after it, do not fit below 2^32. */
  ghost predicate WrapsAround(st: SenderState) {
    st.Some? && st.value.cmds != [] && st.value.cmds[0].nonce + |st.value.cmds| >= U32_MODULUS
  }

  /** A rejection tells the truth: the numbers it carries are those of the check that failed. */
  ghost predicate Justified(e: CommandError, env: Env, c: Command, currentNonce: Nonce, st: SenderState) {
    match e
    case AfterSlotTxEnd => env.slotTxEnd.Some? && env.slotTxEnd.value <= env.currentSlot
    case Expired(until, slot) => until == c.validUntil && slot == env.slot && until < slot
    case UnwantedFeeToken(token) => token == c.feeToken && token != DEFAULT_TOKEN
    case Overflow => TotalConsumed(CmdsOf(st)) + Consumed(c) >= U64_MODULUS
    case InsufficientFunds(balance, needed) => balance == env.balance < needed
    case InsufficientReplaceFee(needed, offered) => offered < needed && offered <= c.fee
    case InvalidNonce(one, other) => c.nonce in {one, other} && (one != other || WrapsAround(st))
    case _ => false
  }

  lemma RejectionIsJustified(env: Env, c: Command, currentNonce: Nonce, st: SenderState)
    requires StateOk(c.feePayer, st) && |CmdsOf(st)| < U32_MODULUS && Decide(env, c, currentNonce, st).Err?
    ensures Justified(Decide(env, c, currentNonce, st).error, env, c, currentNonce, st)
  {
    if Screen(env, c).Some? {
      hide Extend, Replace;
      ScreenJustified(env, c, currentNonce, st);
    } else if Replaces(c, currentNonce, st) {
      hide Extend, Justified;
      ReplaceJustified(env, c, currentNonce, st);
    } else {
      hide Replace, Screen;
    }
  }

  lemma ScreenJustified(env: Env, c: Command, currentNonce: Nonce, st: SenderState)
    requires Screen(env, c).Some?
    ensures Justified(Screen(env, c).value, env, c, currentNonce, st)
  {
  }

  lemma ReplaceJustified(env: Env, c: Command, currentNonce: Nonce, st: SenderState)
    requires st.Some? && QueueOk(c.feePayer, st.value) && |st.value.cmds| < U32_MODULUS && Screen(env, c).None?
    requires QueueTarget(st.value) != c.nonce && Replace(env, c, st.value).Err?
    ensures Justified(Replace(env, c, st.value).error, env, c, currentNonce, st)
  {
    hide Screen, ReplaceAt;
    var q := st.value;
    QueueTargetClosed(c.feePayer, q);
    if InReplaceRange(c, q) {
      ReplacementIndex(c.feePayer, q, c);
      hide Justified;
      ReplaceAtJustified(env, c, currentNonce, st, c.nonce - q.cmds[0].nonce);
    }
  }

  lemma ReplaceAtJustified(env: Env, c: Command, currentNonce: Nonce, st: SenderState, i: nat)
    requires st.Some? && i < |st.value.cmds| && Screen(env, c).None? && ReplaceAt(env, c, st.value.cmds, i).Err?
    ensures Justified(ReplaceAt(env, c, st.value.cmds, i).error, env, c, currentNonce, st)
  {
    var cmds := st.value.cmds;
    hide Screen, Charge, Lost, TotalConsumed;
    TotalConsumedSplit(cmds, i);
    if c.fee >= cmds[i].fee { ChargeFails(c.fee - cmds[i].fee, Lost(env, c, cmds, i)); }
  }

  lemma {:induction false} ChargeFails(increment: Amount, cmds: seq<Command>)
    ensures var r := Charge(increment, cmds);
      && (r.Ok? ==> r.value <= increment)
      && (r.Err? ==> r.error.InsufficientReplaceFee? && r.error.fee < r.error.replaceFee && r.error.fee <= increment)
  {
    if cmds != [] && increment >= cmds[0].fee { ChargeFails(increment - cmds[0].fee, cmds[1..]); }
  }

  // ----- Replacement pays its way

  /** The commands of the old queue that the new queue no longer holds. */
  ghost function Departed(env: Env, c: Command, cmds: seq<Command>, i: nat): seq<Command>
    requires i < |cmds|
  {
    [cmds[i]] + Lost(env, c, cmds, i)
  }

  /** The new fee covers the fee of every command that leaves the pool, and `REPLACE_FEE` more. */
  lemma ReplacementPays(env: Env, c: Command, cmds: seq<Command>, i: nat)
    requires i < |cmds| && Screen(env, c).None? && ReplaceAt(env, c, cmds, i).Ok?
    ensures c.fee >= TotalFee(Departed(env, c, cmds, i)) + REPLACE_FEE
  {
    ChargeIsTotalFee(c.fee - cmds[i].fee, Lost(env, c, cmds, i));
    assert Departed(env, c, cmds, i)[1..] == Lost(env, c, cmds, i);
  }

  /** `Departed` is what its name says: the old queue minus the new one. */
  lemma DepartedIsDifference(env: Env, c: Command, q: SenderQueue, i: nat)
    requires QueueOk(c.feePayer, q) && i < |q.cmds| && q.cmds[i].nonce == c.nonce
    requires Screen(env, c).None? && ReplaceAt(env, c, q.cmds, i).Ok?
    ensures c !in q.cmds
    ensures Elements(Departed(env, c, q.cmds, i))
         == Elements(q.cmds) - Elements(ReplaceAt(env, c, q.cmds, i).value.queue.cmds)
  {
    ReplacementPays(env, c, q.cmds, i);
    NotQueued(c, q, i);
    QueueDistinct(c.feePayer, q);
    SplitElements(c, q.cmds, i, Readded(env, c, q.cmds, i));
  }

  lemma SplitElements(c: Command, cmds: seq<Command>, i: nat, k: nat)
    requires Distinct(cmds) && i < |cmds| && k <= |cmds| - i - 1 && c !in cmds
    ensures Elements([cmds[i]] + cmds[i + 1 + k..])
         == Elements(cmds) - Elements(cmds[..i] + [c] + cmds[i + 1..][..k])
  {
    var before, again, lost := cmds[..i], cmds[i + 1..][..k], cmds[i + 1 + k..];
    assert cmds == before + [cmds[i]] + again + lost;
    assert Elements(before + [c] + again) == Elements(before) + {c} + Elements(again);
    assert Elements([cmds[i]] + lost) == {cmds[i]} + Elements(lost);
    assert forall d :: d in before ==> d !in lost && d != cmds[i];
    assert forall d :: d in again ==> d !in lost && d != cmds[i];
  }

  /** A command that carries the nonce of a queued command, but another fee, is not queued. */
  lemma NotQueued(c: Command, q: SenderQueue, i: nat)
    requires QueueOk(c.feePayer, q) && i < |q.cmds| && q.cmds[i].nonce == c.nonce && q.cmds[i].fee != c.fee
    ensures c !in q.cmds
  {
    if c in q.cmds {
      var j :| 0 <= j < |q.cmds| && q.cmds[j] == c;
      ChainedDistinct(q.cmds, i, j);
      assert false;
    }
  }

  /**
   Exactly when a replacement is accepted: the two fee checks and the subtraction loop
   come down to one inequality over everything that leaves.
   */
  lemma ReplacementAcceptedIff(env: Env, c: Command, cmds: seq<Command>, i: nat)
    requires i < |cmds| && Screen(env, c).None?
    ensures ReplaceAt(env, c, cmds, i).Ok? <==>
      Base(c, cmds, i) <= env.balance && c.fee >= TotalFee(Departed(env, c, cmds, i)) + REPLACE_FEE
  {
    if c.fee >= cmds[i].fee { ChargeIsTotalFee(c.fee - cmds[i].fee, Lost(env, c, cmds, i)); }
    assert Departed(env, c, cmds, i)[1..] == Lost(env, c, cmds, i);
  }

  /**
   The list of dropped commands that a replacement returns names all commands that left
   the pool exactly when the whole rest of the queue could be added again; otherwise the
   first command that could not is missing from it.
   */
  lemma DroppedListCompleteIff(env: Env, c: Command, cmds: seq<Command>, i: nat)
    requires i < |cmds| && Screen(env, c).None? && ReplaceAt(env, c, cmds, i).Ok?
    ensures ReplaceAt(env, c, cmds, i).value.dropped == Departed(env, c, cmds, i) <==>
            Fits(env, Base(c, cmds, i), cmds[i + 1..])
  {
    var rest, base := cmds[i + 1..], Base(c, cmds, i);
    FitCountFits(env, base, rest);
    assert rest[..|rest|] == rest;
    if Fits(env, base, rest) {
      FitCountLongest(env, base, rest, |rest|);
    } else {
      assert |Departed(env, c, cmds, i)| == |ReplaceAt(env, c, cmds, i).value.dropped| + 1;
    }
  }

  /** These commands left, each once; the new one came; and if any left, the new fee covers theirs and more. */
  ghost predicate PaidFor(c: Command, before: set<Command>, after: set<Command>, left: seq<Command>) {
    && Distinct(left) && Elements(left) == before - after && after == before - Elements(left) + {c}
    && (left != [] ==> c.fee >= TotalFee(left) + REPLACE_FEE)
  }

  /** Seen from the whole pool: an accepted command pays for everything that leaves. */
  lemma GossipPays(env: Env, c: Command, currentNonce: Nonce, m: Queues) returns (left: seq<Command>)
    requires WellFormed(m) && HashInjective(All(m) + {c})
    requires |CmdsOf(StateOf(m, c.feePayer))| < U32_MODULUS
    requires Decide(env, c, currentNonce, StateOf(m, c.feePayer)).Ok?
    ensures var plan := Decide(env, c, currentNonce, StateOf(m, c.feePayer)).value;
      PaidFor(c, All(m), All(m[c.feePayer := plan.queue]), left)
  {
    hide *;
    var st := StateOf(m, c.feePayer);
    assert StateOk(c.feePayer, st) by { QueuedStateOk(m, c.feePayer); }
    GossipQueueOk(env, c, currentNonce, st);
    PlanSimulates(env, c, currentNonce, m);
    if Replaces(c, currentNonce, st) {
      left := ReplacementPaysIn(env, c, currentNonce, m);
    } else {
      left := [];
      ExtensionPays(env, c, currentNonce, m);
    }
  }

  lemma QueuedStateOk(m: Queues, s: AccountId)
    requires WellFormed(m)
    ensures StateOk(s, StateOf(m, s)) && QueuesOk(m)
  {
    hide QueueOk, HashInjective;
  }

  lemma ExtensionPays(env: Env, c: Command, currentNonce: Nonce, m: Queues)
    requires WellFormed(m) && c !in All(m) && !Replaces(c, currentNonce, StateOf(m, c.feePayer))
    requires Decide(env, c, currentNonce, StateOf(m, c.feePayer)).Ok?
    requires QueueOk(c.feePayer, Decide(env, c, currentNonce, StateOf(m, c.feePayer)).value.queue)
    ensures var plan := Decide(env, c, currentNonce, StateOf(m, c.feePayer)).value;
      PaidFor(c, All(m), All(m[c.feePayer := plan.queue]), [])
  {
    hide All, Heads, QueueOk, HashInjective, Screen, TotalConsumed;
    AppendSets(m, c, Decide(env, c, currentNonce, StateOf(m, c.feePayer)).value.queue);
    NoElements();
  }

  lemma ReplacementPaysIn(env: Env, c: Command, currentNonce: Nonce, m: Queues) returns (left: seq<Command>)
    requires WellFormed(m) && c !in All(m) && Replaces(c, currentNonce, StateOf(m, c.feePayer))
    requires Decide(env, c, currentNonce, StateOf(m, c.feePayer)).Ok?
    ensures var plan := Decide(env, c, currentNonce, StateOf(m, c.feePayer)).value;
      PaidFor(c, All(m), All(m[c.feePayer := plan.queue]), left)
  {
    hide All, ReplaceAt, HashInjective, Screen, PaidFor, Chained, TotalConsumed;
    var q := m[c.feePayer];
    ReplacementIndex(c.feePayer, q, c);
    left := ReplacementPaysFor(env, c, m, c.nonce - q.cmds[0].nonce);
  }

  lemma ReplacementPaysFor(env: Env, c: Command, m: Queues, i: nat) returns (left: seq<Command>)
    requires WellFormed(m) && c.feePayer in m && c !in All(m) && Screen(env, c).None?
    requires i < |m[c.feePayer].cmds| && m[c.feePayer].cmds[i].nonce == c.nonce
    requires ReplaceAt(env, c, m[c.feePayer].cmds, i).Ok?
    ensures var plan := ReplaceAt(env, c, m[c.feePayer].cmds, i).value;
      PaidFor(c, All(m), All(m[c.feePayer := plan.queue]), left)
  {
    var q := m[c.feePayer];
    var plan := ReplaceAt(env, c, q.cmds, i).value;
    left := Departed(env, c, q.cmds, i);
    ReplacementPays(env, c, q.cmds, i);
    DepartedIsDifference(env, c, q, i);
    ReplacedQueueOk(env, c, q, i);
    QueueDistinct(c.feePayer, q);
    SplitQueue(m, c.feePayer);
    PutQueue(m, c.feePayer, plan.queue);
    DepartedDistinct(env, c, q.cmds, i);
    NewQueueElements(c, q.cmds, i, Readded(env, c, q.cmds, i));
    LeftBySets(Without(All(m), c.feePayer), Elements(q.cmds), Elements(plan.queue.cmds), c);
  }

  lemma DepartedDistinct(env: Env, c: Command, cmds: seq<Command>, i: nat)
    requires i < |cmds| && Distinct(cmds)
    ensures Distinct(Departed(env, c, cmds, i))
  {
    var k := Readded(env, c, cmds, i);
    var left := Departed(env, c, cmds, i);
    forall x, y | 0 <= x < y < |left| ensures left[x] != left[y] {
      assert left[y] == cmds[i + k + y];
      if x > 0 { assert left[x] == cmds[i + k + x]; }
    }
  }

  lemma NewQueueElements(c: Command, cmds: seq<Command>, i: nat, k: nat)
    requires i < |cmds| && k <= |cmds| - i - 1
    ensures c in Elements(cmds[..i] + [c] + cmds[i + 1..][..k])
    ensures Elements(cmds[..i] + [c] + cmds[i + 1..][..k]) <= Elements(cmds) + {c}
  {
    RebuiltElements(c, cmds, i, k);
  }

  lemma LeftBySets(others: set<Command>, own: set<Command>, added: set<Command>, c: Command)
    requires others !! own && c !in others + own && c in added && added <= own + {c}
    ensures own - added == others + own - (others + added)
    ensures others + added == others + own - (own - added) + {c}
  {
  }

  /** Two queued commands and a replacement of the first after which the second no longer fits. */
  lemma DroppedListCanMiss()
    ensures var env := Env(None, 0, 0, 10);
      var first := Command(1, 0, 0, 1, DEFAULT_TOKEN, MAX_SLOT, StakeDelegation);
      var second := Command(2, 0, 1, 1, DEFAULT_TOKEN, MAX_SLOT, Payment(8));
      var c := Command(3, 0, 0, 5, DEFAULT_TOKEN, MAX_SLOT, StakeDelegation);
      && QueueOk(0, SenderQueue([first, second], 10))
      && Screen(env, c).None? && ReplaceAt(env, c, [first, second], 0).Ok?
      && ReplaceAt(env, c, [first, second], 0).value.dropped == [first]
      && Departed(env, c, [first, second], 0) == [first, second]
  {
    var env := Env(None, 0, 0, 10);
    var first := Command(1, 0, 0, 1, DEFAULT_TOKEN, MAX_SLOT, StakeDelegation);
    var second := Command(2, 0, 1, 1, DEFAULT_TOKEN, MAX_SLOT, Payment(8));
    var c := Command(3, 0, 0, 5, DEFAULT_TOKEN, MAX_SLOT, StakeDelegation);
    var cmds := [first, second];
    assert cmds[1..] == [second] && cmds[..0] == [];
    assert TotalConsumed(cmds) == 10 by {
      assert cmds == [first] + [second];
      TotalConsumedConcat([first], [second]);
    }
    assert Base(c, cmds, 0) == 5;
    assert Readded(env, c, cmds, 0) == 0;
    assert Lost(env, c, cmds, 0) == [second];
    ChargeIsTotalFee(4, [second]);
    assert [second][1..] == [];
  }

  // ----- The planned updates

  /** Applying the planned updates gives exactly the indexes of the new queues. */
  lemma PlanSimulates(env: Env, c: Command, currentNonce: Nonce, m: Queues)
    requires WellFormed(m) && HashInjective(All(m) + {c})
    requires |CmdsOf(StateOf(m, c.feePayer))| < U32_MODULUS
    requires Decide(env, c, currentNonce, StateOf(m, c.feePayer)).Ok?
    ensures var plan := Decide(env, c, currentNonce, StateOf(m, c.feePayer)).value;
      && c !in All(m)
      && WellFormed(m[c.feePayer := plan.queue])
      && ApplyAll(PoolIndexes(m), plan.updates) == PoolIndexes(m[c.feePayer := plan.queue])
  {
    var st := StateOf(m, c.feePayer);
    if Replaces(c, currentNonce, st) {
      ReplaceSimulates(env, c, m);
    } else {
      ExtendSimulates(env, c, currentNonce, m);
    }
  }

  lemma ExtendSimulates(env: Env, c: Command, currentNonce: Nonce, m: Queues)
    requires WellFormed(m) && HashInjective(All(m) + {c}) && Screen(env, c).None?
    requires |CmdsOf(StateOf(m, c.feePayer))| < U32_MODULUS
    requires Extend(env, c, currentNonce, StateOf(m, c.feePayer)).Ok?
    ensures var plan := Extend(env, c, currentNonce, StateOf(m, c.feePayer)).value;
      && c !in All(m)
      && WellFormed(m[c.feePayer := plan.queue])
      && ApplyAll(PoolIndexes(m), plan.updates) == PoolIndexes(m[c.feePayer := plan.queue])
  {
    hide All, Heads, IndexesOf;
    var st := StateOf(m, c.feePayer);
    ExtendedQueueOk(env, c, currentNonce, st);
    ContinuationIsNew(m, c);
    AppendSimulates(m, c, Extend(env, c, currentNonce, st).value.queue);
    ApplyAllTwo(PoolIndexes(m), Add(c, Rate(c), st.None?), Add(c, Rate(c), st.None?));
  }

  lemma ReplaceSimulates(env: Env, c: Command, m: Queues)
    requires WellFormed(m) && HashInjective(All(m) + {c}) && Screen(env, c).None?
    requires c.feePayer in m && QueueTarget(m[c.feePayer]) != c.nonce
    requires Replace(env, c, m[c.feePayer]).Ok?
    ensures var plan := Replace(env, c, m[c.feePayer]).value;
      && c !in All(m)
      && WellFormed(m[c.feePayer := plan.queue])
      && ApplyAll(PoolIndexes(m), plan.updates) == PoolIndexes(m[c.feePayer := plan.queue])
  {
    hide All, Heads, IndexesOf, ReplaceAt;
    var q := m[c.feePayer];
    ReplacementIndex(c.feePayer, q, c);
    ReplacePlanSimulates(env, c, m, c.nonce - q.cmds[0].nonce);
  }

  lemma ReplacePlanSimulates(env: Env, c: Command, m: Queues, i: nat)
    requires WellFormed(m) && HashInjective(All(m) + {c}) && c.feePayer in m && Screen(env, c).None?
    requires var cmds := m[c.feePayer].cmds; i < |cmds| && cmds[i].nonce == c.nonce && ReplaceAt(env, c, cmds, i).Ok?
    ensures var plan := ReplaceAt(env, c, m[c.feePayer].cmds, i).value;
      && c !in All(m)
      && WellFormed(m[c.feePayer := plan.queue])
      && ApplyAll(PoolIndexes(m), plan.updates) == PoolIndexes(m[c.feePayer := plan.queue])
  {
    hide IndexesOf, ApplyAll, All, Heads;
    var q := m[c.feePayer];
    var k := Readded(env, c, q.cmds, i);
    ReplacementPays(env, c, q.cmds, i);
    NotQueued(c, q, i);
    AllMember(m, c);
    ReplacedQueueOk(env, c, q, i);
    QueueDistinct(c.feePayer, q);
    RebuiltSets(m, c, i, k, ReplaceAt(env, c, q.cmds, i).value.queue);
    RebuildIndexes(Heads(m), All(m), c, q.cmds, i, k);
    HashInjectiveSubset(RebuiltAll(All(m), c, q.cmds, i, k), All(m) + {c});
  }

  // ----- Replacement on sets of commands

  /** All commands after `cmds[i]` gave way to `c` and `k` commands behind it came back. */
  ghost function RebuiltAll(all: set<Command>, c: Command, cmds: seq<Command>, i: nat, k: nat): set<Command>
    requires i < |cmds| && k <= |cmds| - i - 1
  {
    all - Elements(cmds[i..]) + {c} + Elements(cmds[i + 1..i + 1 + k])
  }

  ghost function RebuiltHeads(heads: set<Command>, c: Command, cmds: seq<Command>, i: nat): set<Command>
    requires i < |cmds|
  {
    if i == 0 then heads - {cmds[0]} + {c} else heads
  }

  ghost function RebuildUpdates(c: Command, cmds: seq<Command>, i: nat, k: nat): seq<Update>
    requires i < |cmds| && k <= |cmds| - i - 1
  {
    CutUpdates(cmds, i) + [Add(c, Rate(c), i == 0)] + AddUpdates(cmds[i + 1..][..k])
  }

  lemma {:induction false} RebuildIndexes(
      heads: set<Command>, all: set<Command>, c: Command, cmds: seq<Command>, i: nat, k: nat)
    requires HashInjective(all + {c}) && c !in all && i < |cmds| && k <= |cmds| - i - 1
    requires Elements(cmds) <= all && Distinct(cmds)
    ensures ApplyAll(IndexesOf(heads, all), RebuildUpdates(c, cmds, i, k))
         == IndexesOf(RebuiltHeads(heads, c, cmds, i), RebuiltAll(all, c, cmds, i, k))
  {
    hide IndexesOf, AddOne, RebuiltAll, Elements, Distinct, HashInjective, ApplyAll;
    if k == 0 {
      RebuildFirst(heads, all, c, cmds, i);
    } else {
      var next, before := cmds[i + k], RebuiltAll(all, c, cmds, i, k - 1);
      RebuildIndexes(heads, all, c, cmds, i, k - 1);
      RebuiltAllStep(all, c, cmds, i, k);
      assert before + {next} <= all + {c};
      HashInjectiveSubset(before + {next}, all + {c});
      AddIndexes(RebuiltHeads(heads, c, cmds, i), before, next, false);
      RebuildUpdatesStep(c, cmds, i, k);
      ApplyAllSnoc(IndexesOf(heads, all), RebuildUpdates(c, cmds, i, k - 1), Add(next, Rate(next), false));
    }
  }

  lemma RebuiltAllStep(all: set<Command>, c: Command, cmds: seq<Command>, i: nat, k: nat)
    requires c !in all && i < |cmds| && 0 < k <= |cmds| - i - 1
    requires Elements(cmds) <= all && Distinct(cmds)
    ensures cmds[i + k] !in RebuiltAll(all, c, cmds, i, k - 1)
    ensures RebuiltAll(all, c, cmds, i, k) == RebuiltAll(all, c, cmds, i, k - 1) + {cmds[i + k]}
    ensures RebuiltAll(all, c, cmds, i, k) <= all + {c}
  {
    var next := cmds[i + k];
    assert cmds[i + 1..i + 1 + k] == cmds[i + 1..i + k] + [next];
    assert next in cmds && next == cmds[i..][k];
    assert forall d :: d in cmds[i + 1..i + k] ==> d in cmds;
  }

  lemma RebuildFirst(heads: set<Command>, all: set<Command>, c: Command, cmds: seq<Command>, i: nat)
    requires HashInjective(all + {c}) && c !in all && i < |cmds|
    requires Elements(cmds) <= all && Distinct(cmds)
    ensures ApplyAll(IndexesOf(heads, all), RebuildUpdates(c, cmds, i, 0))
         == IndexesOf(RebuiltHeads(heads, c, cmds, i), RebuiltAll(all, c, cmds, i, 0))
  {
    hide IndexesOf, ApplyAll, AddOne;
    var left := all - Elements(cmds[i..]);
    var heads' := if i == 0 then heads - {cmds[0]} else heads;
    HashInjectiveSubset(all, all + {c});
    HashInjectiveSubset(left + {c}, all + {c});
    CutIndexes(heads, all, cmds, i);
    AddIndexes(heads', left, c, i == 0);
    RebuildUpdatesFirst(c, cmds, i);
    ApplyAllSnoc(IndexesOf(heads, all), CutUpdates(cmds, i), Add(c, Rate(c), i == 0));
    assert RebuiltAll(all, c, cmds, i, 0) == left + {c};
  }

  lemma RebuildUpdatesFirst(c: Command, cmds: seq<Command>, i: nat)
    requires i < |cmds|
    ensures RebuildUpdates(c, cmds, i, 0) == CutUpdates(cmds, i) + [Add(c, Rate(c), i == 0)]
  {}

  lemma RebuildUpdatesStep(c: Command, cmds: seq<Command>, i: nat, k: nat)
    requires i < |cmds| && 0 < k <= |cmds| - i - 1
    ensures RebuildUpdates(c, cmds, i, k)
         == RebuildUpdates(c, cmds, i, k - 1) + [Add(cmds[i + k], Rate(cmds[i + k]), false)]
  {
    assert cmds[i + 1..][..k][..k - 1] == cmds[i + 1..][..k - 1];
  }

  lemma RebuiltSets(m: Queues, c: Command, i: nat, k: nat, q: SenderQueue)
    requires QueuesOk(m) && c.feePayer in m && c !in All(m) && QueueOk(c.feePayer, q)
    requires i < |m[c.feePayer].cmds| && k <= |m[c.feePayer].cmds| - i - 1
    requires q.cmds == m[c.feePayer].cmds[..i] + [c] + m[c.feePayer].cmds[i + 1..][..k]
    ensures QueuesOk(m[c.feePayer := q])
    ensures Elements(m[c.feePayer].cmds) <= All(m)
    ensures All(m[c.feePayer := q]) == RebuiltAll(All(m), c, m[c.feePayer].cmds, i, k)
    ensures Heads(m[c.feePayer := q]) == RebuiltHeads(Heads(m), c, m[c.feePayer].cmds, i)
  {
    var s, cmds := c.feePayer, m[c.feePayer].cmds;
    assert q.cmds[0] == if i == 0 then c else cmds[0];
    hide *;
    SplitQueue(m, s);
    PutQueue(m, s, q);
    CutElements(s, m[s], i);
    RebuiltElements(c, cmds, i, k);
    Substitute(Without(All(m), s), Elements(cmds), Elements(cmds[i..]), {c} + Elements(cmds[i + 1..i + 1 + k]));
    Substitute(Without(Heads(m), s), {cmds[0]}, {cmds[0]}, {c});
    RebuiltSetsByDefinition(m, c, i, k);
  }

  lemma RebuiltSetsByDefinition(m: Queues, c: Command, i: nat, k: nat)
    requires c.feePayer in m && i < |m[c.feePayer].cmds| && k <= |m[c.feePayer].cmds| - i - 1
    ensures var cmds := m[c.feePayer].cmds;
      && RebuiltAll(All(m), c, cmds, i, k) == All(m) - Elements(cmds[i..]) + ({c} + Elements(cmds[i + 1..i + 1 + k]))
      && RebuiltHeads(Heads(m), c, cmds, i) == if i == 0 then Heads(m) - {cmds[0]} + {c} else Heads(m)
  {}

  lemma Substitute(others: set<Command>, own: set<Command>, gone: set<Command>, added: set<Command>)
    requires others !! own && gone <= own
    ensures others + (own - gone + added) == others + own - gone + added
  {}

  lemma RebuiltElements(c: Command, cmds: seq<Command>, i: nat, k: nat)
    requires i < |cmds| && k <= |cmds| - i - 1
    ensures Elements(cmds[..i] + [c] + cmds[i + 1..][..k])
         == Elements(cmds[..i]) + {c} + Elements(cmds[i + 1..i + 1 + k])
    ensures Elements(cmds[i..]) <= Elements(cmds)
  {
    ElementsConcat(cmds[..i] + [c], cmds[i + 1..][..k]);
    ElementsConcat(cmds[..i], [c]);
    assert cmds[i + 1..][..k] == cmds[i + 1..i + 1 + k];
  }
}
