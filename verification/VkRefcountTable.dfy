/**
 The table that counts which verification keys the pooled zkApp commands carry. A run
 of the table is a history of increments and decrements; what the table says is
 compared with what the history says.
 */
module VkRefcountTables {
  import opened Commands

  type VkHash = nat

  datatype VerificationKey = VerificationKey(hash: VkHash, data: nat)

  datatype Counted = Counted(count: nat, vk: VerificationKey)

  datatype Event = Inc(account: AccountId, vk: VerificationKey) | Dec(account: AccountId, hash: VkHash)

  datatype Table = Table(
    keys: map<VkHash, Counted>,
    byAccount: map<AccountId, map<VkHash, nat>>,
    byKey: map<VkHash, map<AccountId, nat>>)

  // ----- The table

  /** `or_default` twice, then add one. */
  function IncrementIn<K, L>(table: map<K, map<L, nat>>, k: K, l: L): map<K, map<L, nat>> {
    var inner := if k in table then table[k] else map[];
    table[k := inner[l := 1 + if l in inner then inner[l] else 0]]
  }

  /** The helper of `dec`: when an inner count is 1, the whole outer entry goes. Vacant keys change nothing. */
  function DecrementIn<K, L>(table: map<K, map<L, nat>>, k: K, l: L): map<K, map<L, nat>> {
    if k !in table || l !in table[k] || table[k][l] == 0 then table
    else if table[k][l] == 1 then table - {k}
    else table[k := table[k][l := table[k][l] - 1]]
  }

  function CountIn<K, L>(table: map<K, map<L, nat>>, k: K, l: L): nat {
    if k in table && l in table[k] then table[k][l] else 0
  }

  function IncrementKey(keys: map<VkHash, Counted>, vk: VerificationKey): map<VkHash, Counted> {
    keys[vk.hash := if vk.hash in keys then keys[vk.hash].(count := keys[vk.hash].count + 1) else Counted(1, vk)]
  }

  function DecrementKey(keys: map<VkHash, Counted>, hash: VkHash): map<VkHash, Counted> {
    if hash !in keys || keys[hash].count == 0 then keys
    else if keys[hash].count == 1 then keys - {hash}
    else keys[hash := keys[hash].(count := keys[hash].count - 1)]
  }

  function Step(t: Table, e: Event): Table {
    match e
    case Inc(a, vk) =>
      Table(IncrementKey(t.keys, vk), IncrementIn(t.byAccount, a, vk.hash), IncrementIn(t.byKey, vk.hash, a))
    case Dec(a, h) => Table(DecrementKey(t.keys, h), DecrementIn(t.byAccount, a, h), DecrementIn(t.byKey, h, a))
  }

  /** The table after a run from the empty one. */
  function Run(history: seq<Event>): Table {
    if history == [] then Table(map[], map[], map[])
    else Step(Run(history[..|history| - 1]), history[|history| - 1])
  }

  class VkRefcountTable {
    var verificationKeys: map<VkHash, Counted>
    var accountIdToVks: map<AccountId, map<VkHash, nat>>
    var vkToAccountIds: map<VkHash, map<AccountId, nat>>

    ghost function View(): Table
      reads this
    {
      Table(verificationKeys, accountIdToVks, vkToAccountIds)
    }

    constructor ()
      ensures View() == Run([])
    {
      verificationKeys, accountIdToVks, vkToAccountIds := map[], map[], map[];
    }

    function FindVk(hash: VkHash): Option<Counted>
      reads this
    {
      if hash in verificationKeys then Some(verificationKeys[hash]) else None
    }

    /**
     The keys of an account. In a run with matched decrements every listed key is found,
     where the source would panic, and every returned key is one the account still holds.
     */
    method FindVksByAccountId(account: AccountId, ghost history: seq<Event>) returns (vks: set<VerificationKey>)
      requires Matched(history) && View() == Run(history)
      ensures forall vk :: vk in vks ==> account in Holders(history, vk.hash) && Given(history, vk)
      ensures forall h :: CountIn(accountIdToVks, account, h) > 0 ==> exists vk :: vk in vks && vk.hash == h
      ensures AccountExact(View(), history, account) ==>
        forall h :: Held(history, account, h) > 0 ==> exists vk :: vk in vks && vk.hash == h
    {
      if account !in accountIdToVks {
        return {};
      }
      LookupNeverDangles(history, account);
      RunCounts(history);
      forall h | h in accountIdToVks[account]
        ensures account in Holders(history, h) && h in verificationKeys && verificationKeys[h].vk.hash == h
      {
        assert KeyExact(verificationKeys, h, |Holders(history, h)|);
        assert EntryBounded(accountIdToVks, account, h, Held(history, account, h));
      }
      forall h | h in verificationKeys ensures Given(history, verificationKeys[h].vk) {
        StoredKeysWereGiven(history, h);
      }
      vks := set h | h in accountIdToVks[account] :: FindVk(h).value.vk;
      forall h | CountIn(accountIdToVks, account, h) > 0 ensures exists vk :: vk in vks && vk.hash == h {
        assert FindVk(h).value.vk in vks;
      }
    }

    method Inc(account: AccountId, vk: VerificationKey)
      modifies this
      ensures View() == Step(old(View()), Event.Inc(account, vk))
    {
      if vk.hash in verificationKeys {
        var entry := verificationKeys[vk.hash];
        verificationKeys := verificationKeys[vk.hash := entry.(count := entry.count + 1)];
      } else {
        verificationKeys := verificationKeys[vk.hash := Counted(1, vk)];
      }
      accountIdToVks := IncrementIn(accountIdToVks, account, vk.hash);
      vkToAccountIds := IncrementIn(vkToAccountIds, vk.hash, account);
    }

    method Dec(account: AccountId, hash: VkHash)
      // The source unwraps this subtraction; a stored count is never zero.
      requires hash in verificationKeys ==> verificationKeys[hash].count > 0
      modifies this
      ensures View() == Step(old(View()), Event.Dec(account, hash))
    {
      if hash in verificationKeys {
        var entry := verificationKeys[hash];
        if entry.count == 1 {
          verificationKeys := verificationKeys - {hash};
        } else {
          verificationKeys := verificationKeys[hash := entry.(count := entry.count - 1)];
        }
      }
      accountIdToVks := DecrementIn(accountIdToVks, account, hash);
      vkToAccountIds := DecrementIn(vkToAccountIds, hash, account);
    }
  }

  /** The table lists a key for this account that it does not hold. */
  ghost predicate Dangles(t: Table, account: AccountId) {
    account in t.byAccount && exists h :: h in t.byAccount[account] && h !in t.keys
  }

  // ----- The history

  ghost function StepHeld(n: nat, e: Event, a: AccountId, hash: VkHash): nat {
    match e
    case Inc(b, vk) => if b == a && vk.hash == hash then n + 1 else n
    case Dec(b, h) => if b == a && h == hash && n > 0 then n - 1 else n
  }

  ghost function StepHolders(holders: multiset<AccountId>, e: Event, hash: VkHash): (r: multiset<AccountId>)
    ensures forall a :: r[a] == StepHeld(holders[a], e, a, hash)
    ensures |r| ==
      if e.Inc? && e.vk.hash == hash then |holders| + 1
      else if e.Dec? && e.hash == hash && e.account in holders then |holders| - 1
      else |holders|
  {
    match e
    case Inc(a, vk) => if vk.hash == hash then holders + multiset{a} else holders
    case Dec(a, h) => if h == hash then holders - multiset{a} else holders
  }

  /** The accounts that hold a key with this hash, as often as they do. */
  ghost function Holders(history: seq<Event>, hash: VkHash): multiset<AccountId> {
    if history == [] then multiset{}
    else StepHolders(Holders(history[..|history| - 1], hash), history[|history| - 1], hash)
  }

  /** How often `a` holds a key with this hash. */
  ghost function Held(history: seq<Event>, a: AccountId, hash: VkHash): nat {
    Holders(history, hash)[a]
  }

  lemma HeldStep(history: seq<Event>, a: AccountId, hash: VkHash)
    requires history != []
    ensures Held(history, a, hash) == StepHeld(Held(history[..|history| - 1], a, hash), history[|history| - 1], a, hash)
  {}

  /** Every decrement has an earlier increment that no other decrement used up. */
  ghost predicate Matched(history: seq<Event>) {
    history == [] ||
    var before, last := history[..|history| - 1], history[|history| - 1];
    Matched(before) && (last.Dec? ==> last.account in Holders(before, last.hash))
  }

  /** This entry, if there is one, counts at least one and at most `n`. */
  ghost predicate EntryBounded<K, L>(table: map<K, map<L, nat>>, k: K, l: L, n: nat) {
    k in table && l in table[k] ==> 1 <= table[k][l] <= n
  }

  lemma IncrementBounded<K, L>(table: map<K, map<L, nat>>, k: K, l: L, k': K, l': L, n: nat)
    requires EntryBounded(table, k', l', n)
    ensures EntryBounded(IncrementIn(table, k, l), k', l', if k == k' && l == l' then n + 1 else n)
  {}

  /** An increment counts one more for its pair, and nothing else changes. */
  lemma IncrementCounts<K, L>(table: map<K, map<L, nat>>, k: K, l: L, k': K, l': L)
    ensures CountIn(IncrementIn(table, k, l), k', l') == CountIn(table, k', l') + if k == k' && l == l' then 1 else 0
  {}

  /** A decrement counts one less for its pair; if that was the last, it forgets all pairs with the same outer key. */
  lemma DecrementCounts<K, L>(table: map<K, map<L, nat>>, k: K, l: L, k': K, l': L)
    ensures CountIn(DecrementIn(table, k, l), k', l') ==
      if k != k' then CountIn(table, k', l')
      else if CountIn(table, k, l) == 1 then 0
      else if l == l' && CountIn(table, k, l) > 0 then CountIn(table, k, l) - 1
      else CountIn(table, k', l')
  {}

  lemma DecrementBounded<K, L>(table: map<K, map<L, nat>>, k: K, l: L, k': K, l': L, n: nat)
    requires EntryBounded(table, k', l', n)
    ensures EntryBounded(DecrementIn(table, k, l), k', l', if k == k' && l == l' && n > 0 then n - 1 else n)
  {}

  /** No entry of either map counts more than is outstanding. */
  ghost predicate EntriesBounded(t: Table, history: seq<Event>) {
    forall a, h ::
      EntryBounded(t.byAccount, a, h, Held(history, a, h)) && EntryBounded(t.byKey, h, a, Held(history, a, h))
  }

  ghost predicate KeyExact(keys: map<VkHash, Counted>, h: VkHash, total: nat) {
    && (h in keys <==> total > 0)
    && (h in keys ==> keys[h].count == total && keys[h].vk.hash == h)
  }

  /** The key counts are exact. */
  ghost predicate KeysExact(keys: map<VkHash, Counted>, history: seq<Event>) {
    forall h :: KeyExact(keys, h, |Holders(history, h)|)
  }

  /**
   In every run whose decrements are matched, the key counts are the true totals, and no
   entry of the other two maps counts more than is outstanding, although a decrement may
   erase entries it should keep.
   */
  lemma {:induction false} RunCounts(history: seq<Event>)
    requires Matched(history)
    ensures KeysExact(Run(history).keys, history)
    ensures EntriesBounded(Run(history), history)
  {
    if history != [] {
      var before, e := history[..|history| - 1], history[|history| - 1];
      RunCounts(before);
      KeysStep(Run(before).keys, before, history);
      EntriesStep(Run(before), before, history);
    }
  }

  lemma EntriesStep(t: Table, before: seq<Event>, history: seq<Event>)
    requires history != [] && before == history[..|history| - 1] && EntriesBounded(t, before)
    ensures EntriesBounded(Step(t, history[|history| - 1]), history)
  {
    var e := history[|history| - 1];
    var t' := Step(t, e);
    forall a, h
      ensures EntryBounded(t'.byAccount, a, h, Held(history, a, h))
      ensures EntryBounded(t'.byKey, h, a, Held(history, a, h))
    {
      var n := Held(before, a, h);
      assert EntryBounded(t.byAccount, a, h, n);
      HeldStep(history, a, h);
      match e
      case Inc(b, vk) =>
        IncrementBounded(t.byAccount, b, vk.hash, a, h, n);
        IncrementBounded(t.byKey, vk.hash, b, h, a, n);
      case Dec(b, g) =>
        DecrementBounded(t.byAccount, b, g, a, h, n);
        DecrementBounded(t.byKey, g, b, h, a, n);
    }
  }

  lemma KeysStep(keys: map<VkHash, Counted>, before: seq<Event>, history: seq<Event>)
    requires history != [] && before == history[..|history| - 1] && KeysExact(keys, before)
    requires var e := history[|history| - 1]; e.Dec? ==> e.account in Holders(before, e.hash)
    ensures var e := history[|history| - 1];
      KeysExact(if e.Inc? then IncrementKey(keys, e.vk) else DecrementKey(keys, e.hash), history)
  {
    var e := history[|history| - 1];
    forall h
      ensures var keys' := if e.Inc? then IncrementKey(keys, e.vk) else DecrementKey(keys, e.hash);
        KeyExact(keys', h, |Holders(history, h)|)
    {
      assert KeyExact(keys, h, |Holders(before, h)|);
      KeyStep(keys, e, h, |Holders(before, h)|, |Holders(history, h)|);
    }
  }

  lemma KeyStep(keys: map<VkHash, Counted>, e: Event, h: VkHash, total: nat, total': nat)
    requires KeyExact(keys, h, total)
    requires total' == if e.Inc? && e.vk.hash == h then total + 1
                       else if e.Dec? && e.hash == h then total - 1 else total
    ensures KeyExact(if e.Inc? then IncrementKey(keys, e.vk) else DecrementKey(keys, e.hash), h, total')
  {}

  /** The key was given to an increment. */
  ghost predicate Given(history: seq<Event>, vk: VerificationKey) {
    exists i :: 0 <= i < |history| && history[i].Inc? && history[i].vk == vk
  }

  /** What is stored under a hash is a key that was given, not just one with that hash. */
  lemma {:induction false} StoredKeysWereGiven(history: seq<Event>, h: VkHash)
    requires h in Run(history).keys
    ensures Given(history, Run(history).keys[h].vk)
  {
    var before, last := history[..|history| - 1], history[|history| - 1];
    if h in Run(before).keys {
      StoredKeysWereGiven(before, h);
      var i :| 0 <= i < |before| && before[i].Inc? && before[i].vk == Run(before).keys[h].vk;
      assert history[i] == before[i];
    } else {
      assert last.Inc? && last.vk == Run(history).keys[h].vk;
    }
  }

  /** So looking up the keys of an account never meets a key the table does not hold. */
  lemma LookupNeverDangles(history: seq<Event>, account: AccountId)
    requires Matched(history)
    ensures !Dangles(Run(history), account)
  {
    RunCounts(history);
    var t := Run(history);
    if account in t.byAccount {
      forall h | h in t.byAccount[account] ensures h in t.keys {
        assert EntryBounded(t.byAccount, account, h, Held(history, account, h));
        assert KeyExact(t.keys, h, |Holders(history, h)|);
        MultiplicityBound(Holders(history, h), account);
      }
    }
  }

  lemma MultiplicityBound(m: multiset<AccountId>, a: AccountId)
    ensures m[a] <= |m|
  {
    assert |m[a := 0]| == |m| - m[a];
  }

  // ----- What a decrement forgets

  /** The counts of this account are exact. */
  ghost predicate AccountExact(t: Table, history: seq<Event>, a: AccountId) {
    forall h :: CountIn(t.byAccount, a, h) == Held(history, a, h)
  }

  /**
   A matched decrement keeps the exact counts of its account exactly when it is not the
   last one for its key, or when the account holds no other key.
   */
  lemma DecrementExactIff(history: seq<Event>, a: AccountId, hash: VkHash)
    requires Matched(history + [Dec(a, hash)]) && AccountExact(Run(history), history, a)
    ensures AccountExact(Run(history + [Dec(a, hash)]), history + [Dec(a, hash)], a) <==>
      Held(history, a, hash) > 1 || forall g :: g != hash ==> Held(history, a, g) == 0
  {
    var history' := history + [Dec(a, hash)];
    assert history'[..|history|] == history;
    var t, t' := Run(history), Run(history');
    assert t' == Step(t, Dec(a, hash));
    var last := Held(history, a, hash) == 1;
    assert CountIn(t.byAccount, a, hash) == Held(history, a, hash) >= 1;
    hide Holders, Run, Held;
    forall g
      ensures CountIn(t'.byAccount, a, g) == Held(history', a, g) <==> !last || g == hash || Held(history, a, g) == 0
    {
      HeldStep(history', a, g);
      assert CountIn(t.byAccount, a, g) == Held(history, a, g);
    }
  }

  /** The accounts of a key are counted exactly. */
  ghost predicate KeyExactFor(t: Table, history: seq<Event>, hash: VkHash) {
    forall a :: CountIn(t.byKey, hash, a) == Held(history, a, hash)
  }

  /**
   The same for the accounts of a key: they stay exact if and only if the decrement is not the
   last one of its account, or no other account holds the key.
   */
  lemma DecrementKeyExactIff(history: seq<Event>, a: AccountId, hash: VkHash)
    requires Matched(history + [Dec(a, hash)]) && KeyExactFor(Run(history), history, hash)
    ensures KeyExactFor(Run(history + [Dec(a, hash)]), history + [Dec(a, hash)], hash) <==>
      Held(history, a, hash) > 1 || forall b :: b != a ==> Held(history, b, hash) == 0
  {
    var history' := history + [Dec(a, hash)];
    assert history'[..|history|] == history;
    var t, t' := Run(history), Run(history');
    assert t' == Step(t, Dec(a, hash));
    var last := Held(history, a, hash) == 1;
    assert CountIn(t.byKey, hash, a) == Held(history, a, hash) >= 1;
    hide Holders, Run, Held;
    forall b
      ensures CountIn(t'.byKey, hash, b) == Held(history', b, hash) <==> !last || b == a || Held(history, b, hash) == 0
    {
      HeldStep(history', b, hash);
      assert CountIn(t.byKey, hash, b) == Held(history, b, hash);
    }
  }

  /** An increment leaves counts exact where they are, and wrong where they are not. */
  lemma IncrementExactIff(history: seq<Event>, a: AccountId, vk: VerificationKey, b: AccountId, hash: VkHash)
    ensures var history' := history + [Inc(a, vk)];
      && (AccountExact(Run(history'), history', b) <==> AccountExact(Run(history), history, b))
      && (KeyExactFor(Run(history'), history', hash) <==> KeyExactFor(Run(history), history, hash))
  {
    var history' := history + [Inc(a, vk)];
    assert history'[..|history|] == history;
    var t, t' := Run(history), Run(history');
    assert t' == Step(t, Inc(a, vk));
    hide Holders, Run, Held, IncrementIn, CountIn, IncrementKey;
    forall c, g
      ensures CountIn(t'.byAccount, c, g) == Held(history', c, g) <==> CountIn(t.byAccount, c, g) == Held(history, c, g)
      ensures CountIn(t'.byKey, g, c) == Held(history', c, g) <==> CountIn(t.byKey, g, c) == Held(history, c, g)
    {
      HeldStep(history', c, g);
      IncrementCounts(t.byAccount, a, vk.hash, c, g);
      IncrementCounts(t.byKey, vk.hash, a, g, c);
    }
  }

  /** Nothing is ever miscounted while nothing is decremented. */
  lemma {:induction false} IncrementsAloneAreExact(history: seq<Event>, a: AccountId, hash: VkHash)
    requires forall i :: 0 <= i < |history| ==> history[i].Inc?
    ensures AccountExact(Run(history), history, a) && KeyExactFor(Run(history), history, hash)
  {
    if history != [] {
      var before, last := history[..|history| - 1], history[|history| - 1];
      assert history == before + [last];
      IncrementsAloneAreExact(before, a, hash);
      IncrementExactIff(before, last.account, last.vk, a, hash);
    }
  }

  /** Without the matching condition a lookup can dangle: one account's decrement takes another account's key. */
  lemma UnmatchedDecrementDangles(vk: VerificationKey)
    ensures Dangles(Run([Inc(0, vk), Dec(1, vk.hash)]), 0)
  {
    var history := [Inc(0, vk), Dec(1, vk.hash)];
    assert history[..1] == [Inc(0, vk)] && [Inc(0, vk)][..0] == [];
    var t := Run([Inc(0, vk)]);
    assert t == Step(Run([]), Inc(0, vk));
    assert vk.hash in Run(history).byAccount[0] && vk.hash !in Run(history).keys;
  }

  /** A matched decrement can forget another key of its account: the two-key run. */
  lemma SiblingKeyForgotten(v: VerificationKey, w: VerificationKey)
    requires v.hash != w.hash
    ensures var history := [Inc(0, v), Inc(0, w), Dec(0, v.hash)];
      Held(history, 0, w.hash) == 1 && CountIn(Run(history).byAccount, 0, w.hash) == 0
  {
    var one, two := [Inc(0, v)], [Inc(0, v), Inc(0, w)];
    var history := [Inc(0, v), Inc(0, w), Dec(0, v.hash)];
    assert one[..0] == [] && two[..1] == one && history[..2] == two;
    HeldStep(one, 0, w.hash);
    HeldStep(two, 0, w.hash);
    HeldStep(history, 0, w.hash);
    assert Run(one) == Step(Run([]), Inc(0, v));
    assert Run(two) == Step(Run(one), Inc(0, w));
    assert Run(history) == Step(Run(two), Dec(0, v.hash));
  }

  /** Or another account of its key: the two-account run. */
  lemma SiblingAccountForgotten(v: VerificationKey)
    ensures var history := [Inc(0, v), Inc(1, v), Dec(0, v.hash)];
      Held(history, 1, v.hash) == 1 && CountIn(Run(history).byKey, v.hash, 1) == 0
  {
    var one, two := [Inc(0, v)], [Inc(0, v), Inc(1, v)];
    var history := [Inc(0, v), Inc(1, v), Dec(0, v.hash)];
    assert one[..0] == [] && two[..1] == one && history[..2] == two;
    HeldStep(one, 1, v.hash);
    HeldStep(two, 1, v.hash);
    HeldStep(history, 1, v.hash);
    assert Run(one) == Step(Run([]), Inc(0, v));
    assert Run(two) == Step(Run(one), Inc(1, v));
    assert Run(history) == Step(Run(two), Dec(0, v.hash));
  }
}
