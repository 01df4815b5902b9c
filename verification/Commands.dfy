/** User commands as the mempool sees them, and the errors its checks produce. */
module Commands {

  const U32_MODULUS: nat := 0x1_0000_0000
  const U64_MODULUS: nat := 0x1_0000_0000_0000_0000

  type u32 = n: nat | n < U32_MODULUS
  type u64 = n: nat | n < U64_MODULUS

  type Nonce = u32
  type Slot = u32
  type Amount = u64
  type AccountId = nat
  type TokenId = nat
  /** The 32 bytes of a transaction hash, compared as one big-endian number. */
  type Hash = nat
  /** Fee per weight unit. The source keeps an exact fraction, so does the model. */
  type FeeRate = real

  /** `Slot::max()`: the expiry of a command that never expires. */
  const MAX_SLOT: Slot := U32_MODULUS - 1
  const DEFAULT_TOKEN: TokenId := 1
  /** Fee increase required to replace a command, in nanomina. */
  const REPLACE_FEE: Amount := 1

  datatype Option<+T> = None | Some(value: T)

  datatype Result<+T> = Ok(value: T) | Err(error: CommandError)

  datatype CommandError =
    | InvalidNonce(accountNonce: Nonce, expected: Nonce)
    | InsufficientFunds(balance: Amount, consumed: Amount)
    | InsufficientReplaceFee(replaceFee: Amount, fee: Amount)
    | Overflow
    | Expired(validUntil: Slot, slot: Slot)
    | UnwantedFeeToken(token: TokenId)
    | AfterSlotTxEnd
    | BacktrackNonceMismatch(expectedNonce: Nonce, firstNonce: Nonce)
    | InvalidCurrencyConsumed
    | AccountNotFound

  datatype Body = Payment(amount: Amount) | StakeDelegation | ZkApp(accountUpdates: nat)

  datatype Command = Command(
    hash: Hash,
    feePayer: AccountId,
    nonce: Nonce,
    fee: Amount,
    feeToken: TokenId,
    validUntil: Slot,
    body: Body)

  /** A signed command weighs 1, a zkApp command 1 for its fee payer and 1 per account update. */
  function Weight(c: Command): (w: nat)
    ensures w >= 1
  {
    if c.body.ZkApp? then 1 + c.body.accountUpdates else 1
  }

  function Rate(c: Command): FeeRate {
    c.fee as real / Weight(c) as real
  }

  function Expiry(c: Command): Slot {
    c.validUntil
  }

  /** What a command takes from its fee payer, before the 64-bit check. */
  function Consumed(c: Command): nat {
    c.fee + if c.body.Payment? then c.body.amount else 0
  }

  function CurrencyConsumed(c: Command): (r: Result<Amount>)
    ensures r.Ok? <==> Consumed(c) < U64_MODULUS
    ensures r.Ok? ==> r.value == Consumed(c)
    ensures r.Err? ==> r.error == InvalidCurrencyConsumed
  {
    if Consumed(c) < U64_MODULUS then Ok(Consumed(c)) else Err(InvalidCurrencyConsumed)
  }

  /** A payment takes its amount and its fee; a delegation or a zkApp command only the fee. */
  lemma ConsumedByKind(c: Command)
    ensures c.body.Payment? ==> Consumed(c) == c.fee + c.body.amount
    ensures c.body.StakeDelegation? || c.body.ZkApp? ==> Consumed(c) == c.fee
  {
  }

  function CheckedAdd(a: Amount, b: Amount): Option<Amount> {
    if a + b < U64_MODULUS then Some(a + b) else None
  }

  /** The nonce `steps` after `nonce`; a nonce is a 32-bit number that wraps around. */
  function NonceAfter(nonce: Nonce, steps: nat): Nonce
    requires steps <= U32_MODULUS
  {
    if nonce + steps < U32_MODULUS then nonce + steps else nonce + steps - U32_MODULUS
  }

  function Succ(nonce: Nonce): Nonce {
    NonceAfter(nonce, 1)
  }

  /** `expected_target_nonce`. */
  function TargetNonce(c: Command): Nonce {
    Succ(c.nonce)
  }

  function TotalConsumed(cmds: seq<Command>): nat {
    if cmds == [] then 0 else Consumed(cmds[0]) + TotalConsumed(cmds[1..])
  }

  function TotalFee(cmds: seq<Command>): nat {
    if cmds == [] then 0 else cmds[0].fee + TotalFee(cmds[1..])
  }

  lemma {:induction false} TotalConsumedConcat(a: seq<Command>, b: seq<Command>)
    ensures TotalConsumed(a + b) == TotalConsumed(a) + TotalConsumed(b)
  {
    if a == [] {
      assert a + b == b;
    } else {
      assert (a + b)[1..] == a[1..] + b;
      TotalConsumedConcat(a[1..], b);
    }
  }

  /** Taking one more command of a queue adds what that command consumes. */
  lemma TotalConsumedStep(cmds: seq<Command>, k: nat)
    requires k < |cmds|
    ensures TotalConsumed(cmds[..k + 1]) == TotalConsumed(cmds[..k]) + Consumed(cmds[k])
  {
    assert cmds[..k + 1] == cmds[..k] + [cmds[k]];
    TotalConsumedConcat(cmds[..k], [cmds[k]]);
  }

  lemma TotalConsumedSplit(cmds: seq<Command>, k: nat)
    requires k <= |cmds|
    ensures TotalConsumed(cmds) == TotalConsumed(cmds[..k]) + TotalConsumed(cmds[k..])
  {
    assert cmds == cmds[..k] + cmds[k..];
    TotalConsumedConcat(cmds[..k], cmds[k..]);
  }

  lemma {:induction false} TotalConsumedMember(cmds: seq<Command>, c: Command)
    requires c in cmds
    ensures Consumed(c) <= TotalConsumed(cmds)
  {
    if c != cmds[0] { TotalConsumedMember(cmds[1..], c); }
  }

  /** Counting up from a nonce does not come back to it within 2^32 steps. */
  lemma NonceAfterInjective(nonce: Nonce, i: nat, j: nat)
    requires i < U32_MODULUS && j < U32_MODULUS
    ensures NonceAfter(nonce, i) == NonceAfter(nonce, j) ==> i == j
  {}

  /** A nonce counts modulo 2^32. */
  lemma NonceWraps(nonce: Nonce, steps: nat)
    requires steps <= U32_MODULUS
    ensures NonceAfter(nonce, steps) == (nonce + steps) % U32_MODULUS
  {
    if nonce + steps >= U32_MODULUS { assert (nonce + steps - U32_MODULUS) < U32_MODULUS; }
  }

  /** What a fee is divided by: the fee payer and each account update of a zkApp command, or the one signed command. */
  function Units(body: Body): nat {
    match body
    case Payment(_) => 1
    case StakeDelegation => 1
    case ZkApp(n) => n + 1
  }

  /** Fee rates compare as fees do, each weighed by the size of the other command. */
  lemma RateOrder(c: Command, d: Command)
    ensures Rate(c) <= Rate(d) <==> c.fee * Units(d.body) <= d.fee * Units(c.body)
  {
    FractionOrder(c.fee as real, Units(c.body) as real, d.fee as real, Units(d.body) as real);
    assert (c.fee * Units(d.body)) as real == c.fee as real * Units(d.body) as real;
    assert (d.fee * Units(c.body)) as real == d.fee as real * Units(c.body) as real;
  }

  lemma FractionOrder(a: real, b: real, c: real, d: real)
    requires b > 0.0 && d > 0.0
    ensures a / b <= c / d <==> a * d <= c * b
  {
    var x, y, bd := a / b, c / d, b * d;
    assert x * b == a && y * d == c;
    assert x * bd == a * d && y * bd == c * b;
    assert bd > 0.0;
    if x <= y { assert x * bd <= y * bd; } else { assert x * bd > y * bd; }
  }
}
