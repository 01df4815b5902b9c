/**
 What `add_from_gossip_exn` decides about a command, as a function of the sender's
 queue, and what follows from a decision: the shape of the new queue, the fee paid
 for every command that leaves the pool, and the agreement of the planned index
 updates with the new queue.
 */
module Gossip {
  import opened Commands
  import opened Senders
  import opened QueueSteps

  /** What a check depends on besides the command and the queue. */
  datatype Env = Env(slotTxEnd: Option<Slot>, slot: Slot, currentSlot: Slot, balance: Amount)

  datatype Plan = Plan(queue: SenderQueue, dropped: seq<Command>, updates: seq<Update>)

  /** The checks that look at the command alone. */
  function Screen(env: Env, c: Command): Option<CommandError> {
    if env.slotTxEnd.Some? && !(env.currentSlot < env.slotTxEnd.value) then Some(AfterSlotTxEnd)
    else if c.validUntil < env.slot then Some(Expired(c.validUntil, env.slot))
    else if CurrencyConsumed(c).Err? then Some(Overflow)
    else if c.feeToken != DEFAULT_TOKEN then Some(UnwantedFeeToken(c.feeToken))
    else None
  }

  /**
   What every pooled command must satisfy on its own: transactions have not ended, it has not
   expired, what it consumes is a 64-bit amount, and it pays its fee in the default token.
   */
  ghost predicate Eligible(env: Env, c: Command) {
    && (env.slotTxEnd.Some? ==> env.currentSlot < env.slotTxEnd.value)
    && env.slot <= c.validUntil
    && Consumed(c) < U64_MODULUS
    && c.feeToken == DEFAULT_TOKEN
  }

  lemma ScreenedIff(env: Env, c: Command)
    ensures Screen(env, c).None? <==> Eligible(env, c)
  {
  }

  /** All of `cmds` pass the checks on top of `base` reserved currency. */
  ghost predicate Fits(env: Env, base: nat, cmds: seq<Command>) {
    && (forall c :: c in cmds ==> Eligible(env, c))
    && base + TotalConsumed(cmds) <= env.balance
  }

  /** How many commands of `tail` pass the checks one after the other. */
  ghost function FitCount(env: Env, base: nat, tail: seq<Command>): (k: nat)
    ensures k <= |tail|
    decreases |tail|
  {
    if tail == [] || Screen(env, tail[0]).Some? || base + Consumed(tail[0]) > env.balance then 0
    else 1 + FitCount(env, base + Consumed(tail[0]), tail[1..])
  }

  /** Subtracting the fees of `cmds` one by one from what the new command still offers. */
  ghost function Charge(increment: Amount, cmds: seq<Command>): Result<Amount> {
    if cmds == [] then Ok(increment)
    else if increment < cmds[0].fee then Err(InsufficientReplaceFee(cmds[0].fee, increment))
    else Charge(increment - cmds[0].fee, cmds[1..])
  }

  ghost function AddUpdates(cmds: seq<Command>): seq<Update> {
    if cmds == [] then []
    else
      var last := cmds[|cmds| - 1];
      AddUpdates(cmds[..|cmds| - 1]) + [Add(last, Rate(last), false)]
  }

  ghost predicate Replaces(c: Command, currentNonce: Nonce, st: SenderState) {
    && st.Some? && st.value.cmds != []
    && QueueTarget(st.value) != c.nonce
    && st.value.cmds[0].nonce == currentNonce
  }

  ghost predicate InReplaceRange(c: Command, q: SenderQueue)
    requires q.cmds != []
  {
    q.cmds[0].nonce <= c.nonce <= QueueTarget(q)
  }

  /** In a replacement the nonce names exactly one queued command, the one to replace. */
  lemma ReplacementIndex(s: AccountId, q: SenderQueue, c: Command)
    requires QueueOk(s, q) && QueueTarget(q) != c.nonce && InReplaceRange(c, q)
    ensures c.nonce - q.cmds[0].nonce < |q.cmds|
    ensures q.cmds[c.nonce - q.cmds[0].nonce].nonce == c.nonce
    ensures forall j :: 0 <= j < c.nonce - q.cmds[0].nonce ==> q.cmds[j].nonce < c.nonce
  {
    QueueTargetClosed(s, q);
  }

  ghost function Decide(env: Env, c: Command, currentNonce: Nonce, st: SenderState): Result<Plan>
    requires StateOk(c.feePayer, st)
  {
    if Screen(env, c).Some? then Err(Screen(env, c).value)
    else if Replaces(c, currentNonce, st) then Replace(env, c, st.value)
    else Extend(env, c, currentNonce, st)
  }

  /** The command starts a queue or continues one. */
  ghost function Extend(env: Env, c: Command, currentNonce: Nonce, st: SenderState): Result<Plan>
    requires StateOk(c.feePayer, st) && Screen(env, c).None?
  {
    var reserved := Consumed(c) + if st.Some? then st.value.reserved else 0;
    if st.None? && currentNonce != c.nonce then Err(InvalidNonce(currentNonce, c.nonce))
    else if st.Some? && QueueTarget(st.value) != c.nonce then Err(InvalidNonce(c.nonce, QueueTarget(st.value)))
    else if reserved >= U64_MODULUS then Err(Overflow)
    else if reserved > env.balance then Err(InsufficientFunds(env.balance, reserved))
    else Ok(Plan(SenderQueue(CmdsOf(st) + [c], reserved), [], [Add(c, Rate(c), st.None?)]))
  }

  /** The command takes the place of a queued one. */
  ghost function Replace(env: Env, c: Command, q: SenderQueue): Result<Plan>
    requires QueueOk(c.feePayer, q) && Screen(env, c).None? && QueueTarget(q) != c.nonce
  {
    if !InReplaceRange(c, q) then Err(InvalidNonce(c.nonce, q.cmds[0].nonce))
    else
      ReplacementIndex(c.feePayer, q, c);
      ReplaceAt(env, c, q.cmds, c.nonce - q.cmds[0].nonce)
  }

  /** The currency reserved once the new command stands at `i`. */
  ghost function Base(c: Command, cmds: seq<Command>, i: nat): nat
    requires i < |cmds|
  {
    TotalConsumed(cmds[..i]) + Consumed(c)
  }

  /** How many of the commands behind the replaced one are added again. */
  ghost function Readded(env: Env, c: Command, cmds: seq<Command>, i: nat): (k: nat)
    requires i < |cmds|
    ensures k <= |cmds| - i - 1
  {
    FitCount(env, Base(c, cmds, i), cmds[i + 1..])
  }

  /** The commands behind the replaced one that are not. */
  ghost function Lost(env: Env, c: Command, cmds: seq<Command>, i: nat): seq<Command>
    requires i < |cmds|
  {
    cmds[i + 1 + Readded(env, c, cmds, i)..]
  }

  ghost function ReplaceAt(env: Env, c: Command, cmds: seq<Command>, i: nat): Result<Plan>
    requires i < |cmds| && Screen(env, c).None?
  {
    var replaced := cmds[i];
    var base := Base(c, cmds, i);
    if c.fee < replaced.fee then Err(InsufficientReplaceFee(replaced.fee, c.fee))
    else if base >= U64_MODULUS then Err(Overflow)
    else if base > env.balance then Err(InsufficientFunds(env.balance, base))
    else
      var increment := Charge(c.fee - replaced.fee, Lost(env, c, cmds, i));
      if increment.Err? then Err(increment.error)
      else if increment.value < REPLACE_FEE then Err(InsufficientReplaceFee(REPLACE_FEE, increment.value))
      else Ok(ReplacePlan(env, c, cmds, i))
  }

  ghost function ReplacePlan(env: Env, c: Command, cmds: seq<Command>, i: nat): Plan
    requires i < |cmds| && Base(c, cmds, i) <= env.balance
  {
    var readded := cmds[i + 1..][..Readded(env, c, cmds, i)];
    var lost := Lost(env, c, cmds, i);
    FitCountFits(env, Base(c, cmds, i), cmds[i + 1..]);
    Plan(
      SenderQueue(cmds[..i] + [c] + readded, Base(c, cmds, i) + TotalConsumed(readded)),
      [cmds[i]] + if lost == [] then [] else lost[1..],
      CutUpdates(cmds, i) + [Add(c, Rate(c), i == 0)] + AddUpdates(readded))
  }

  /** A queue in which a command takes the place of one with its nonce is still chained. */
  lemma ReplacedChained(c: Command, q: SenderQueue, i: nat, k: nat)
    requires QueueOk(c.feePayer, q) && i < |q.cmds| && k <= |q.cmds| - i - 1 && q.cmds[i].nonce == c.nonce
    ensures Chained(q.cmds[..i] + [c] + q.cmds[i + 1..][..k])
    ensures forall d :: d in q.cmds[..i] + [c] + q.cmds[i + 1..][..k] ==> d.feePayer == c.feePayer
  {}

  // ----- The re-added prefix is the longest one that fits

  lemma {:induction false} FitCountFits(env: Env, base: nat, tail: seq<Command>)
    requires base <= env.balance
    ensures Fits(env, base, tail[..FitCount(env, base, tail)])
    decreases |tail|
  {
    var k := FitCount(env, base, tail);
    if k > 0 {
      FitCountFits(env, base + Consumed(tail[0]), tail[1..]);
      assert tail[..k][1..] == tail[1..][..k - 1];
    }
  }

  lemma {:induction false} FitCountLongest(env: Env, base: nat, tail: seq<Command>, j: nat)
    requires j <= |tail| && Fits(env, base, tail[..j])
    ensures j <= FitCount(env, base, tail)
    decreases |tail|
  {
    if j > 0 {
      assert tail[..j][1..] == tail[1..][..j - 1];
      assert tail[..j][0] in tail[..j];
      FitCountLongest(env, base + Consumed(tail[0]), tail[1..], j - 1);
    }
  }

  // ----- Fees

  lemma {:induction false} ChargeIsTotalFee(increment: Amount, cmds: seq<Command>)
    ensures Charge(increment, cmds).Ok? <==> TotalFee(cmds) <= increment
    ensures Charge(increment, cmds).Ok? ==> Charge(increment, cmds).value == increment - TotalFee(cmds)
  {
    if cmds != [] && increment >= cmds[0].fee {
      ChargeIsTotalFee(increment - cmds[0].fee, cmds[1..]);
    }
  }
}
