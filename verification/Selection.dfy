/**
 Choosing commands for a block: again and again the best queue head is taken, where
 best means the highest fee rate and, among those, the least hash.
 */
module Selection {
  import opened Commands
  import opened Senders
  import opened QueueSteps
  import Buckets

  ghost predicate Better(c: Command, d: Command) {
    Rate(d) < Rate(c) || (Rate(d) == Rate(c) && c.hash <= d.hash)
  }

  ghost predicate IsBest(c: Command, heads: set<Command>) {
    c in heads && forall d :: d in heads ==> Better(c, d)
  }

  /** What selection needs of the queues; it leaves the reserved amounts alone, so they need not be exact. */
  ghost predicate Selectable(m: Queues) {
    && (forall s :: s in m ==> m[s].cmds != [] && Distinct(m[s].cmds) && forall c :: c in m[s].cmds ==> c.feePayer == s)
    && HashInjective(All(m))
  }

  lemma WellFormedSelectable(m: Queues)
    requires WellFormed(m)
    ensures Selectable(m)
  {
    forall s | s in m ensures Distinct(m[s].cmds) {
      QueueDistinct(s, m[s]);
    }
  }

  function Pop(m: Queues, s: AccountId): Queues
    requires s in m && m[s].cmds != []
  {
    var rest := m[s].cmds[1..];
    if rest == [] then m - {s} else m[s := SenderQueue(rest, m[s].reserved)]
  }

  /** Taking `picks` in this order, always the best head, leads from `m` to `m'`. */
  ghost predicate Picks(m: Queues, picks: seq<Command>, m': Queues)
    decreases |picks|
  {
    if picks == [] then m == m'
    else
      var c := picks[0];
      && IsBest(c, Heads(m)) && c.feePayer in m && m[c.feePayer].cmds != []
      && Picks(Pop(m, c.feePayer), picks[1..], m')
  }

  ghost predicate Selected(m: Queues, limit: nat, picks: seq<Command>, m': Queues) {
    Picks(m, picks, m') && |picks| <= limit && (|picks| == limit || m' == map[])
  }

  lemma PicksFirst(m: Queues, picks: seq<Command>, m': Queues)
    requires Selectable(m) && Picks(m, picks, m') && picks != []
    ensures var c := picks[0];
      && c.feePayer in m && m[c.feePayer].cmds != [] && c == m[c.feePayer].cmds[0]
      && IsBest(c, Heads(m)) && c in Heads(m) && c in All(m)
      && Selectable(Pop(m, c.feePayer))
      && All(Pop(m, c.feePayer)) == All(m) - {c}
      && Picks(Pop(m, c.feePayer), picks[1..], m')
  {
    SelectableHead(m, picks[0]);
    PopSelectable(m, picks[0].feePayer);
  }

  // ----- One step

  lemma SelectableHead(m: Queues, c: Command)
    requires Selectable(m)
    ensures c in Heads(m) <==> c.feePayer in m && c == m[c.feePayer].cmds[0]
    ensures c in Heads(m) ==> c in All(m)
  {
    if c in Heads(m) {
      var s :| s in m && m[s].cmds != [] && m[s].cmds[0] == c;
      assert c in m[s].cmds;
    }
  }

  lemma PopSelectable(m: Queues, s: AccountId)
    requires Selectable(m) && s in m
    ensures Selectable(Pop(m, s))
    ensures All(Pop(m, s)) == All(m) - {m[s].cmds[0]} && m[s].cmds[0] in All(m)
  {
    var m', c, rest := Pop(m, s), m[s].cmds[0], m[s].cmds[1..];
    assert m[s].cmds == [c] + rest && c in m[s].cmds;
    forall d ensures d in All(m') <==> d in All(m) && d != c {
      assert d in All(m) <==> d.feePayer in m && d in m[d.feePayer].cmds;
      assert d in All(m') <==> d.feePayer in m' && d in m'[d.feePayer].cmds;
    }
    HashInjectiveSubset(All(m'), All(m));
  }

  /** The head that comes up, if any. */
  ghost function NextHead(m: Queues, s: AccountId): set<Command>
    requires s in m && m[s].cmds != []
  {
    if |m[s].cmds| == 1 then {} else {m[s].cmds[1]}
  }

  lemma PopHeads(m: Queues, s: AccountId)
    requires Selectable(m) && s in m
    ensures Heads(Pop(m, s)) == Heads(m) - {m[s].cmds[0]} + NextHead(m, s)
  {
    PopSelectable(m, s);
    var m' := Pop(m, s);
    forall d ensures d in Heads(m') <==> d in Heads(m) - {m[s].cmds[0]} + NextHead(m, s) {
      SelectableHead(m, d);
      SelectableHead(m', d);
      if d in NextHead(m, s) { assert d in m[s].cmds && d != m[s].cmds[0]; }
    }
  }

  lemma NoHeadsNoQueues(m: Queues)
    requires Selectable(m)
    ensures Heads(m) == {} <==> m == map[]
  {
    if m != map[] {
      var s :| s in m;
      assert m[s].cmds[0] in Heads(m);
    }
  }

  lemma {:induction false} BestExists(heads: set<Command>)
    requires heads != {}
    ensures exists c :: IsBest(c, heads)
    decreases |heads|
  {
    hide Rate;
    var c :| c in heads;
    var rest := heads - {c};
    assert heads == rest + {c};
    if rest == {} {
      assert IsBest(c, heads);
    } else {
      BestExists(rest);
      var e :| IsBest(e, rest);
      assert IsBest(if Better(c, e) then c else e, heads);
    }
  }

  lemma BestUnique(m: Queues, c: Command, d: Command)
    requires Selectable(m) && IsBest(c, Heads(m)) && IsBest(d, Heads(m))
    ensures c == d
  {
    SelectableHead(m, c);
    SelectableHead(m, d);
    assert Better(c, d) && Better(d, c);
    assert SameHash(c, d);
  }

  // ----- Whole selections

  /** A command that is picked without an earlier one of its sender was a queue head all along. */
  lemma {:induction false} HeadWaits(m: Queues, picks: seq<Command>, m': Queues, j: nat)
    requires Selectable(m) && Picks(m, picks, m') && j < |picks|
    requires forall i :: 0 <= i < j ==> picks[i].feePayer != picks[j].feePayer
    ensures picks[j] in Heads(m)
    decreases j
  {
    hide Heads, Selectable, IsBest;
    PicksFirst(m, picks, m');
    if j > 0 {
      var s := picks[0].feePayer;
      HeadWaits(Pop(m, s), picks[1..], m', j - 1);
      SelectableHead(Pop(m, s), picks[j]);
      SelectableHead(m, picks[j]);
    }
  }

  /**
   Of two picks the earlier one has the higher fee rate, or the same and the lower hash, unless the
   later one had to wait for another command of its own sender in between.
   */
  lemma {:induction false} EarlierIsBetter(m: Queues, picks: seq<Command>, m': Queues, i: nat, j: nat)
    requires Selectable(m) && Picks(m, picks, m') && i < j < |picks|
    requires forall k :: i <= k < j ==> picks[k].feePayer != picks[j].feePayer
    ensures Rate(picks[j]) <= Rate(picks[i])
    ensures Rate(picks[j]) == Rate(picks[i]) ==> picks[i].hash <= picks[j].hash
    decreases i
  {
    hide Heads, Selectable;
    PicksFirst(m, picks, m');
    if i == 0 {
      HeadWaits(m, picks, m', j);
      assert Better(picks[0], picks[j]);
    } else {
      hide IsBest;
      EarlierIsBetter(Pop(m, picks[0].feePayer), picks[1..], m', i - 1, j - 1);
    }
  }

  lemma {:induction false} PicksSnoc(m: Queues, picks: seq<Command>, m1: Queues, c: Command)
    requires Picks(m, picks, m1) && IsBest(c, Heads(m1)) && c.feePayer in m1 && m1[c.feePayer].cmds != []
    ensures Picks(m, picks + [c], Pop(m1, c.feePayer))
    decreases |picks|
  {
    if picks == [] {
      assert picks + [c] == [c];
    } else {
      assert (picks + [c])[1..] == picks[1..] + [c];
      PicksSnoc(Pop(m, picks[0].feePayer), picks[1..], m1, c);
    }
  }

  /** There is only one possible selection, so both operations return the same one. */
  lemma {:induction false} SelectionUnique(
      m: Queues, limit: nat, p: seq<Command>, mp: Queues, q: seq<Command>, mq: Queues)
    requires Selectable(m) && Selected(m, limit, p, mp) && Selected(m, limit, q, mq)
    ensures p == q && mp == mq
    decreases |p|
  {
    NoHeadsNoQueues(m);
    if p != [] && q != [] {
      BestUnique(m, p[0], q[0]);
      PopSelectable(m, p[0].feePayer);
      SelectionUnique(Pop(m, p[0].feePayer), limit - 1, p[1..], mp, q[1..], mq);
    }
  }

  /** The currency reserved for a queue is not touched while its commands are taken. */
  lemma {:induction false} SelectionKeepsReserves(m: Queues, picks: seq<Command>, m': Queues, s: AccountId)
    requires Picks(m, picks, m') && s in m'
    ensures s in m && m'[s].reserved == m[s].reserved
    decreases |picks|
  {
    hide IsBest, Heads;
    if picks != [] { SelectionKeepsReserves(Pop(m, picks[0].feePayer), picks[1..], m', s); }
  }

  /** Nothing is picked twice, nothing is lost, and as many commands are picked as the limit and the pool allow. */
  lemma {:induction false} SelectionConserves(m: Queues, picks: seq<Command>, m': Queues)
    requires Selectable(m) && Picks(m, picks, m')
    ensures Selectable(m') && Distinct(picks)
    ensures Elements(picks) <= All(m) && All(m') == All(m) - Elements(picks)
    ensures |All(m')| == |All(m)| - |picks|
    decreases |picks|
  {
    if picks == [] {
      NoElements();
    } else {
      hide *;
      PicksFirst(m, picks, m');
      var m1 := Pop(m, picks[0].feePayer);
      SelectionConserves(m1, picks[1..], m');
      ElementsCons(picks);
      ConserveSets(All(m), picks[0], Elements(picks[1..]));
    }
  }

  lemma ConserveSets(all: set<Command>, c: Command, later: set<Command>)
    requires c in all && later <= all - {c}
    ensures {c} + later <= all
    ensures all - {c} - later == all - ({c} + later)
    ensures |all - {c}| == |all| - 1
  {}

  lemma ElementsCons(cmds: seq<Command>)
    requires cmds != []
    ensures Elements(cmds) == {cmds[0]} + Elements(cmds[1..])
    ensures Distinct(cmds[1..]) && cmds[0] !in Elements(cmds[1..]) ==> Distinct(cmds)
  {
    assert cmds == [cmds[0]] + cmds[1..];
  }

  lemma SelectionLength(m: Queues, limit: nat, picks: seq<Command>, m': Queues)
    requires Selectable(m) && Selected(m, limit, picks, m')
    ensures |picks| == if limit <= |All(m)| then limit else |All(m)|
  {
    SelectionConserves(m, picks, m');
    if m' == map[] { assert All(m') == {}; }
  }

  /** The picks of one sender, in the order they were picked. */
  ghost function PicksOf(picks: seq<Command>, s: AccountId): seq<Command> {
    if picks == [] then []
    else (if picks[0].feePayer == s then [picks[0]] else []) + PicksOf(picks[1..], s)
  }

  /** The picks of a sender are a prefix of its queue, and what was not picked is still queued. */
  lemma {:induction false} PicksArePrefix(m: Queues, picks: seq<Command>, m': Queues, s: AccountId)
    requires Selectable(m) && Picks(m, picks, m')
    ensures PicksOf(picks, s) + CmdsOf(StateOf(m', s)) == CmdsOf(StateOf(m, s))
    decreases |picks|
  {
    if picks == [] {
      assert m == m';
      assert PicksOf(picks, s) == [];
    } else {
      var first := if picks[0].feePayer == s then [picks[0]] else [];
      assert PicksOf(picks, s) == first + PicksOf(picks[1..], s);
      hide *;
      PicksFirst(m, picks, m');
      var m1 := Pop(m, picks[0].feePayer);
      PopCmds(m, picks[0], s);
      PicksArePrefix(m1, picks[1..], m', s);
      Associative(first, PicksOf(picks[1..], s), CmdsOf(StateOf(m', s)));
    }
  }

  lemma Associative(a: seq<Command>, b: seq<Command>, c: seq<Command>)
    ensures (a + b) + c == a + (b + c)
  {}

  lemma PopCmds(m: Queues, c: Command, s: AccountId)
    requires Selectable(m) && c in Heads(m)
    ensures c.feePayer in m && Selectable(Pop(m, c.feePayer))
    ensures CmdsOf(StateOf(m, s)) == (if c.feePayer == s then [c] else []) + CmdsOf(StateOf(Pop(m, c.feePayer), s))
  {
    SelectableHead(m, c);
    PopSelectable(m, c.feePayer);
    if s == c.feePayer {
      assert m[s].cmds == [c] + m[s].cmds[1..];
    }
  }

  // ----- The order of the result

  ghost predicate Descending(cmds: seq<Command>) {
    forall i, j :: 0 <= i < j < |cmds| ==> Rate(cmds[i]) >= Rate(cmds[j])
  }

  /** Each sender's picks are in descending fee order. */
  ghost predicate EachDescends(picks: seq<Command>) {
    forall s :: Descending(PicksOf(picks, s))
  }

  lemma PicksOfCons(picks: seq<Command>, s: AccountId)
    requires picks != [] && Descending(PicksOf(picks, s))
    ensures Descending(PicksOf(picks[1..], s))
  {
    hide Rate;
    var all, rest := PicksOf(picks, s), PicksOf(picks[1..], s);
    if picks[0].feePayer == s { assert all[1..] == rest; }
    var n := |all| - |rest|;
    forall i, j | 0 <= i < j < |rest| ensures Rate(rest[i]) >= Rate(rest[j]) {
      assert rest[i] == all[n + i] && rest[j] == all[n + j];
    }
  }

  /** The second pick was a head before, or follows the first in its queue. */
  lemma SecondPick(m: Queues, picks: seq<Command>, m': Queues)
    requires Selectable(m) && Picks(m, picks, m') && |picks| >= 2
    ensures picks[1] in Heads(m) || picks[1].feePayer == picks[0].feePayer
  {
    var c := picks[0];
    PicksFirst(m, picks, m');
    PicksFirst(Pop(m, c.feePayer), picks[1..], m');
    PopHeads(m, c.feePayer);
    SelectableHead(Pop(m, c.feePayer), picks[1]);
    SelectableHead(m, picks[1]);
  }

  lemma FirstTwoDescend(m: Queues, picks: seq<Command>, m': Queues)
    requires Selectable(m) && Picks(m, picks, m') && |picks| >= 2
    requires Descending(PicksOf(picks, picks[0].feePayer))
    ensures Rate(picks[0]) >= Rate(picks[1])
  {
    SecondPick(m, picks, m');
    PicksFirst(m, picks, m');
    hide Rate;
    var own := PicksOf(picks, picks[0].feePayer);
    if picks[1].feePayer == picks[0].feePayer {
      assert picks[1] == picks[1..][0];
      assert own[0] == picks[0] && own[1] == picks[1];
    } else {
      assert Better(picks[0], picks[1]);
    }
  }

  /** If each sender's picks are in descending fee order, so is the selection. */
  lemma {:induction false} DescendingIfEach(m: Queues, picks: seq<Command>, m': Queues)
    requires Selectable(m) && Picks(m, picks, m')
    requires EachDescends(picks)
    ensures Descending(picks)
    decreases |picks|
  {
    if picks != [] {
      var c, rest := picks[0], picks[1..];
      PicksFirst(m, picks, m');
      forall s ensures Descending(PicksOf(rest, s)) { PicksOfCons(picks, s); }
      if rest != [] { FirstTwoDescend(m, picks, m'); }
      DescendingIfEach(Pop(m, c.feePayer), rest, m');
      hide Rate, IsBest, Heads, Picks;
      forall d | d in Elements(rest) ensures Rate(c) >= Rate(d) {
        var j :| 0 <= j < |rest| && rest[j] == d;
        assert j == 0 || Rate(rest[0]) >= Rate(rest[j]);
      }
      DescendingCons(picks);
    }
  }

  lemma DescendingCons(picks: seq<Command>)
    requires picks != [] && Descending(picks[1..])
    requires forall d :: d in Elements(picks[1..]) ==> Rate(picks[0]) >= Rate(d)
    ensures Descending(picks)
  {
    hide Rate;
    forall i, j | 0 <= i < j < |picks| ensures Rate(picks[i]) >= Rate(picks[j]) {
      assert picks[j] == picks[1..][j - 1] && picks[1..][j - 1] in Elements(picks[1..]);
      if i > 0 { assert picks[i] == picks[1..][i - 1]; }
    }
  }

  lemma {:induction false} DescendingPicksOf(picks: seq<Command>, s: AccountId)
    requires Descending(picks)
    ensures Descending(PicksOf(picks, s))
    ensures forall c :: c in PicksOf(picks, s) ==> c in picks
  {
    hide Rate;
    if picks != [] {
      DescendingPicksOf(picks[1..], s);
      forall c | c in picks[1..] ensures Rate(picks[0]) >= Rate(c) {
        var j :| 0 <= j < |picks[1..]| && picks[1..][j] == c;
        assert c == picks[j + 1];
      }
    }
  }

  /** For every limit: the listing is in descending fee order exactly when each sender's part of it is. */
  lemma DescendingPicksIff(m: Queues, picks: seq<Command>, m': Queues)
    requires Selectable(m) && Picks(m, picks, m')
    ensures Descending(picks) <==> EachDescends(picks)
  {
    hide Descending;
    if Descending(picks) {
      forall s ensures Descending(PicksOf(picks, s)) { DescendingPicksOf(picks, s); }
    } else if EachDescends(picks) {
      DescendingIfEach(m, picks, m');
    }
  }

  /** So the whole pool is listed in descending fee order exactly when every queue is in that order. */
  lemma DescendingIff(m: Queues, limit: nat, picks: seq<Command>, m': Queues)
    requires Selectable(m) && Selected(m, limit, picks, m') && |All(m)| <= limit
    ensures Descending(picks) <==> forall s :: s in m ==> Descending(m[s].cmds)
  {
    hide *;
    assert Picks(m, picks, m') by { SelectedPicks(m, limit, picks, m'); }
    DescendingPicksIff(m, picks, m');
    forall s ensures PicksOf(picks, s) == CmdsOf(StateOf(m, s)) { AllPicked(m, limit, picks, m', s); }
    EachIsQueue(m, picks);
  }

  lemma SelectedPicks(m: Queues, limit: nat, picks: seq<Command>, m': Queues)
    requires Selected(m, limit, picks, m')
    ensures Picks(m, picks, m')
  {
    hide Picks;
  }

  lemma EachIsQueue(m: Queues, picks: seq<Command>)
    requires forall s :: PicksOf(picks, s) == CmdsOf(StateOf(m, s))
    ensures EachDescends(picks) <==> forall s :: s in m ==> Descending(m[s].cmds)
  {
    assert Descending([]);
    hide Descending;
    if EachDescends(picks) {
      forall s | s in m ensures Descending(m[s].cmds) { assert Descending(PicksOf(picks, s)); }
    } else {
      var s :| !Descending(PicksOf(picks, s));
      assert s in m && !Descending(m[s].cmds);
    }
  }

  lemma AllPicked(m: Queues, limit: nat, picks: seq<Command>, m': Queues, s: AccountId)
    requires Selectable(m) && Selected(m, limit, picks, m') && |All(m)| <= limit
    ensures PicksOf(picks, s) == CmdsOf(StateOf(m, s))
  {
    SelectionLength(m, limit, picks, m');
    SelectionConserves(m, picks, m');
    PicksArePrefix(m, picks, m', s);
    assert StateOf(m', s).None? by {
      if s in m' { SelectableHead(m', m'[s].cmds[0]); }
    }
  }

  /** One sender, the cheap command first. */
  function CheapFirst(): (q: SenderQueue)
    ensures |q.cmds| == 2
  {
    SenderQueue([
      Command(1, 0, 0, 1, DEFAULT_TOKEN, MAX_SLOT, StakeDelegation),
      Command(2, 0, 1, 2, DEFAULT_TOKEN, MAX_SLOT, StakeDelegation)], 3)
  }

  lemma CheapFirstOk()
    ensures WellFormed(map[0 := CheapFirst()])
  {
    var q := CheapFirst();
    assert TotalConsumed(q.cmds[..1]) == 1 && TotalConsumed(q.cmds) == 3 by {
      assert q.cmds[..1][..0] == [] && TotalConsumed([]) == 0;
    }
    assert QueueOk(0, q);
  }

  /** The listing of a valid pool need not be in descending fee order. */
  lemma NotAlwaysDescending()
    ensures var m: Queues := map[0 := CheapFirst()];
      WellFormed(m) && Selected(m, 2, CheapFirst().cmds, map[]) && !Descending(CheapFirst().cmds)
  {
    hide WellFormed;
    var q := CheapFirst();
    var m: Queues := map[0 := q];
    CheapFirstOk();
    var m1 := Pop(m, 0);
    assert Heads(m) == {q.cmds[0]};
    assert m1[0].cmds == [q.cmds[1]];
    assert Heads(m1) == {q.cmds[1]};
    assert m1[0].cmds[1..] == [];
    assert Pop(m1, 0) == map[];
    assert q.cmds[1..][1..] == [];
    assert Picks(map[], [], map[]);
    assert Picks(m1, q.cmds[1..], map[]);
    assert Rate(q.cmds[0]) == 1.0 && Rate(q.cmds[1]) == 2.0;
  }

  // ----- The loop body

  predicate GreatestKey(index: map<FeeRate, set<Command>>, fee: FeeRate) {
    forall f :: f in index ==> f <= fee
  }

  lemma BestInIndex(heads: set<Command>)
    requires heads != {}
    ensures var index := Buckets.GroupBy(heads, Rate);
      && (exists fee :: fee in index && GreatestKey(index, fee))
      && (forall fee :: fee in index && GreatestKey(index, fee) ==>
            exists c :: c in index[fee] && LeastHash(index[fee], c))
  {
    BestExists(heads);
    var c :| IsBest(c, heads);
    var index := Buckets.GroupBy(heads, Rate);
    hide Rate;
    forall f | f in index ensures f <= Rate(c) {
      var d :| d in heads && Rate(d) == f;
      assert Better(c, d);
    }
    assert Rate(c) in index && c in index[Rate(c)];
    forall d: Command | d in index[Rate(c)] ensures c.hash <= d.hash {
      assert Better(c, d);
    }
  }

  lemma BestOfIndex(heads: set<Command>, fee: FeeRate, c: Command)
    requires var index := Buckets.GroupBy(heads, Rate);
      && fee in index && GreatestKey(index, fee) && c in index[fee] && LeastHash(index[fee], c)
    ensures IsBest(c, heads) && Rate(c) == fee
  {
    hide Rate;
    forall d | d in heads ensures Better(c, d) {
      assert Rate(d) in Buckets.GroupBy(heads, Rate);
    }
  }

  /** The bucket of the highest rate, and its command of least hash. */
  method PickBest(index: map<FeeRate, set<Command>>, ghost heads: set<Command>) returns (fee: FeeRate, txn: Command)
    requires index == Buckets.GroupBy(heads, Rate) && index != map[]
    ensures IsBest(txn, heads) && fee == Rate(txn)
  {
    hide *;
    Buckets.EmptyGroups(heads, Rate);
    BestInIndex(heads);
    fee :| fee in index && GreatestKey(index, fee);
    txn :| txn in index[fee] && LeastHash(index[fee], txn);
    BestOfIndex(heads, fee, txn);
  }

  /** One pass of the loop. The picked command always is the head of its sender's queue. */
  method TakeBest(index: map<FeeRate, set<Command>>, m: Queues)
    returns (txn: Command, index': map<FeeRate, set<Command>>, m': Queues)
    requires Selectable(m) && index == Buckets.GroupBy(Heads(m), Rate) && index != map[]
    ensures IsBest(txn, Heads(m)) && txn.feePayer in m && m[txn.feePayer].cmds != []
    ensures m' == Pop(m, txn.feePayer) && Selectable(m')
    ensures index' == Buckets.GroupBy(Heads(m'), Rate)
  {
    hide Selectable, All, Heads, IsBest, Buckets.GroupBy, Buckets.Remove, Buckets.Insert;
    var fee;
    fee, txn := PickBest(index, Heads(m));
    index' := Buckets.Remove(index, fee, txn);
    Buckets.RemoveGroups(Heads(m), Rate, txn);
    BestIsHead(m, txn);
    var s := txn.feePayer;
    var head, rest := m[s].cmds[0], m[s].cmds[1..];
    if txn.hash == head.hash {
      if rest == [] {
        m' := m - {s};
        assert Heads(m) - {txn} + {} == Heads(m) - {txn};
      } else {
        m' := m[s := SenderQueue(rest, m[s].reserved)];
        Buckets.InsertGroups(Heads(m) - {txn}, Rate, rest[0]);
        index' := Buckets.Insert(index', Rate(rest[0]), rest[0]);
      }
    } else {
      // The source logs a malformed queue here.
      assert false;
    }
  }

  lemma BestIsHead(m: Queues, c: Command)
    requires Selectable(m) && IsBest(c, Heads(m))
    ensures var s := c.feePayer;
      && s in m && m[s].cmds != [] && c == m[s].cmds[0]
      && Selectable(Pop(m, s))
      && Heads(Pop(m, s)) == Heads(m) - {c} + NextHead(m, s)
  {
    SelectableHead(m, c);
    PopSelectable(m, c.feePayer);
    PopHeads(m, c.feePayer);
  }
}
