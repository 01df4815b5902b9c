/** A pool that keeps changing while one peer is sent its pages: what the peer has been sent at any time. */
module Propagation {
  import opened Commands
  import opened DistributedPools

  /** The pool, the index the peer is to be sent next, and what it has been sent, with the indexes. */
  datatype World<+D, +T> = World(pool: Pool<D>, cursor: nat, sent: seq<(nat, T)>)

  datatype Op<!D> =
    | Insert(entry: Entry<D>)
    | Update(entry: Entry<D>)
    | Remove(key: Key)
    | Retain(keep: Entry<D> -> Option<Entry<D>>)
    | Send(limit: nat)

  /** A kept entry below the cursor yields no message, or the one it yielded; if it yielded none, one that was sent. */
  ghost predicate Quiet<D, T>(w: World<D, T>, keep: Entry<D> -> Option<Entry<D>>, extract: Entry<D> -> Option<T>) {
    forall i :: i in w.pool.list && i < w.cursor && keep(w.pool.list[i]).Some? ==>
      var message := extract(keep(w.pool.list[i]).value);
      message.Some? ==>
        if extract(w.pool.list[i]).Some? then message == extract(w.pool.list[i]) else (i, message.value) in w.sent
  }

  /**
   Keys are inserted only when absent, a page is asked for only with a positive limit, and a
   change in place does not touch keys or what has been sent.
   */
  ghost predicate Enabled<D, T>(w: World<D, T>, op: Op<D>, extract: Entry<D> -> Option<T>) {
    match op
    case Insert(e) => e.key !in w.pool.byKey && w.pool.counter < MAX_INDEX
    case Update(e) => e.key in w.pool.byKey && w.pool.counter < MAX_INDEX
    case Remove(_) => true
    case Retain(keep) => Consistent(w.pool) && KeepsKeys(w.pool, keep) && Quiet(w, keep, extract)
    case Send(limit) => limit > 0
  }

  ghost function Pairs<D, T>(
      list: map<nat, Entry<D>>, indexes: seq<nat>, extract: Entry<D> -> Option<T>): (r: seq<(nat, T)>)
    requires AllYield(list, indexes, extract)
    ensures |r| == |indexes|
    ensures forall x :: 0 <= x < |r| ==> r[x].0 == indexes[x] && extract(list[indexes[x]]) == Some(r[x].1)
  {
    if indexes == [] then []
    else
      var init, last := indexes[..|indexes| - 1], indexes[|indexes| - 1];
      assert Yields(list, extract, last);
      Pairs(list, init, extract) + [(last, extract(list[last]).value)]
  }

  /** A page that is not empty moves the cursor behind it; the source does not send empty ones. */
  ghost function Next<D, T>(w: World<D, T>, op: Op<D>, extract: Entry<D> -> Option<T>): World<D, T>
    requires Enabled(w, op, extract)
  {
    match op
    case Insert(e) => w.(pool := Inserted(w.pool, e))
    case Update(e) => w.(pool := Inserted(Removed(w.pool, e.key), e))
    case Remove(k) => w.(pool := Removed(w.pool, k))
    case Retain(keep) => w.(pool := RetainedPool(w.pool, keep))
    case Send(limit) =>
      var page := PageAt(w.pool, w.cursor, limit, extract);
      if page.indexes == [] then w
      else w.(cursor := page.last + 1, sent := w.sent + Pairs(w.pool.list, page.indexes, extract))
  }

  /**
   The extraction itself changes, since it looks entries up elsewhere: an entry below the cursor then
   yields no message, or the one it yielded; if it yielded none, one that was sent.
   */
  ghost predicate QuietChange<D, T>(w: World<D, T>, extract: Entry<D> -> Option<T>, extract': Entry<D> -> Option<T>) {
    forall i :: i in w.pool.list && i < w.cursor && extract'(w.pool.list[i]).Some? ==>
      if extract(w.pool.list[i]).Some? then extract'(w.pool.list[i]) == extract(w.pool.list[i])
      else (i, extract'(w.pool.list[i]).value) in w.sent
  }

  /** Each operation is carried out with the extraction of its moment; then the extraction may change. */
  ghost predicate IsRun<D, T>(ws: seq<World<D, T>>, ops: seq<Op<D>>, extracts: seq<Entry<D> -> Option<T>>) {
    && |ws| == |extracts| == |ops| + 1
    && ws[0] == World(Pool(0, map[], map[]), 0, [])
    && forall i :: 0 <= i < |ops| ==>
      && Enabled(ws[i], ops[i], extracts[i]) && ws[i + 1] == Next(ws[i], ops[i], extracts[i])
      && QuietChange(ws[i + 1], extracts[i], extracts[i + 1])
  }

  /** Everything in the pool before the cursor has been sent as it is now. */
  ghost predicate Delivered<D, T>(w: World<D, T>, extract: Entry<D> -> Option<T>) {
    forall i :: i in w.pool.list && i < w.cursor && extract(w.pool.list[i]).Some? ==>
      (i, extract(w.pool.list[i]).value) in w.sent
  }

  /** The indexes go up, from `lo` to below `hi`. */
  ghost predicate GoesUp<T>(sent: seq<(nat, T)>, lo: nat, hi: nat) {
    && (forall x :: 0 <= x < |sent| ==> lo <= sent[x].0 < hi)
    && (forall x, y :: 0 <= x < y < |sent| ==> sent[x].0 < sent[y].0)
  }

  lemma GoesUpConcat<T>(a: seq<(nat, T)>, b: seq<(nat, T)>, lo: nat, mid: nat, hi: nat)
    requires GoesUp(a, lo, mid) && GoesUp(b, mid, hi) && lo <= mid <= hi
    ensures GoesUp(a + b, lo, hi)
  {
    var ab := a + b;
    forall x, y | 0 <= x < y < |ab| ensures ab[x].0 < ab[y].0 {
      if x < |a| <= y { assert ab[x].0 < mid <= ab[y].0; }
    }
  }

  /** No index was sent twice, and none at or after the cursor. */
  ghost predicate SentOnce<D, T>(w: World<D, T>) {
    GoesUp(w.sent, 0, w.cursor)
  }

  ghost predicate Good<D, T>(w: World<D, T>, extract: Entry<D> -> Option<T>) {
    Consistent(w.pool) && w.cursor <= w.pool.counter && Delivered(w, extract) && SentOnce(w)
  }

  lemma StepKeepsGood<D, T>(w: World<D, T>, op: Op<D>, extract: Entry<D> -> Option<T>)
    requires Good(w, extract) && Enabled(w, op, extract)
    ensures Good(Next(w, op, extract), extract)
  {
    match op
    case Insert(e) =>
      InsertConsistentIff(w.pool, e);
    case Update(e) =>
      RemoveConsistent(w.pool, e.key);
      InsertConsistentIff(Removed(w.pool, e.key), e);
    case Remove(k) =>
      RemoveConsistent(w.pool, k);
    case Retain(keep) =>
      RetainConsistentIff(w.pool, keep);
    case Send(limit) =>
      if PageAt(w.pool, w.cursor, limit, extract).indexes != [] {
        SendKeepsGood(w, limit, extract);
      }
  }

  /**
   A change in place leaves every entry below the cursor sent in its present form exactly when no
   message there becomes another one, or appears without having been sent. Messages may disappear.
   */
  lemma RetainDeliversIff<D, T>(w: World<D, T>, keep: Entry<D> -> Option<Entry<D>>, extract: Entry<D> -> Option<T>)
    requires Good(w, extract)
    ensures Delivered(w.(pool := RetainedPool(w.pool, keep)), extract) <==> Quiet(w, keep, extract)
  {
    var list, after := w.pool.list, RetainedPool(w.pool, keep).list;
    if Delivered(w.(pool := RetainedPool(w.pool, keep)), extract) {
      forall i | i in list && i < w.cursor && keep(list[i]).Some? && extract(keep(list[i]).value).Some?
        ensures (i, extract(after[i]).value) in w.sent
        ensures extract(list[i]).Some? ==> extract(after[i]) == extract(list[i])
      {
        assert i in after;
        if extract(list[i]).Some? { SentOnly(w, i, extract(after[i]).value, extract(list[i]).value); }
      }
    }
  }

  /** The same for a change of the extraction. */
  lemma ChangeDeliversIff<D, T>(w: World<D, T>, extract: Entry<D> -> Option<T>, extract': Entry<D> -> Option<T>)
    requires Good(w, extract)
    ensures Delivered(w, extract') <==> QuietChange(w, extract, extract')
  {
    var list := w.pool.list;
    if Delivered(w, extract') {
      forall i | i in list && i < w.cursor && extract'(list[i]).Some? && extract(list[i]).Some?
        ensures extract'(list[i]) == extract(list[i])
      {
        SentOnly(w, i, extract'(list[i]).value, extract(list[i]).value);
      }
    }
  }

  lemma SentOnly<D, T>(w: World<D, T>, i: nat, x: T, y: T)
    requires SentOnce(w) && (i, x) in w.sent && (i, y) in w.sent
    ensures x == y
  {
    var a :| 0 <= a < |w.sent| && w.sent[a] == (i, x);
    var b :| 0 <= b < |w.sent| && w.sent[b] == (i, y);
    OnePlace(w.sent, w.cursor, a, b);
  }

  lemma OnePlace<T>(sent: seq<(nat, T)>, hi: nat, a: nat, b: nat)
    requires GoesUp(sent, 0, hi) && a < |sent| && b < |sent| && sent[a].0 == sent[b].0
    ensures a == b
  {
  }

  lemma SendKeepsGood<D, T>(w: World<D, T>, limit: nat, extract: Entry<D> -> Option<T>)
    requires Good(w, extract) && limit > 0 && PageAt(w.pool, w.cursor, limit, extract).indexes != []
    ensures Good(Next(w, Send(limit), extract), extract)
  {
    var page := PageAt(w.pool, w.cursor, limit, extract);
    hide PageAt, Sendable, Consistent, Delivered, SentOnce, Pairs, AllYield, Next;
    PageIsComplete(w.pool, w.cursor, limit, extract);
    PageDelivers(w, page.indexes, page.last, extract);
    PageSendsOnce(w, page.indexes, page.last, extract);
    SendIs(w, limit, extract);
  }

  lemma SendIs<D, T>(w: World<D, T>, limit: nat, extract: Entry<D> -> Option<T>)
    requires limit > 0 && PageAt(w.pool, w.cursor, limit, extract).indexes != []
    ensures var page := PageAt(w.pool, w.cursor, limit, extract);
      var sent := w.sent + Pairs(w.pool.list, page.indexes, extract);
      Next(w, Send(limit), extract) == w.(cursor := page.last + 1, sent := sent)
  {
    hide PageAt, Pairs, AllYield;
  }

  lemma PageDelivers<D, T>(w: World<D, T>, indexes: seq<nat>, last: nat, extract: Entry<D> -> Option<T>)
    requires Delivered(w, extract) && AllYield(w.pool.list, indexes, extract)
    requires indexes == Sendable(w.pool.list, w.cursor, last + 1, extract)
    ensures Delivered(w.(cursor := last + 1, sent := w.sent + Pairs(w.pool.list, indexes, extract)), extract)
  {
    var list, pairs := w.pool.list, Pairs(w.pool.list, indexes, extract);
    forall i | i in list && i < last + 1 && extract(list[i]).Some?
      ensures (i, extract(list[i]).value) in w.sent + pairs
    {
      if i >= w.cursor {
        SendableComplete(list, w.cursor, last + 1, extract, i);
        var x :| 0 <= x < |indexes| && indexes[x] == i;
        assert pairs[x] == (i, extract(list[i]).value);
        assert pairs[x] in pairs;
      }
    }
  }

  lemma PageSendsOnce<D, T>(w: World<D, T>, indexes: seq<nat>, last: nat, extract: Entry<D> -> Option<T>)
    requires SentOnce(w) && AllYield(w.pool.list, indexes, extract) && w.cursor <= last
    requires indexes == Sendable(w.pool.list, w.cursor, last + 1, extract)
    ensures SentOnce(w.(cursor := last + 1, sent := w.sent + Pairs(w.pool.list, indexes, extract)))
  {
    hide *;
    SendableSound(w.pool.list, w.cursor, last + 1, extract);
    PairsGoUp(w.pool.list, indexes, w.cursor, last + 1, extract);
    SentOnceIs(w);
    GoesUpConcat(w.sent, Pairs(w.pool.list, indexes, extract), 0, w.cursor, last + 1);
    SentOnceIs(w.(cursor := last + 1, sent := w.sent + Pairs(w.pool.list, indexes, extract)));
  }

  lemma SentOnceIs<D, T>(w: World<D, T>)
    ensures SentOnce(w) <==> GoesUp(w.sent, 0, w.cursor)
  {
    hide GoesUp;
  }

  lemma PairsGoUp<D, T>(list: map<nat, Entry<D>>, indexes: seq<nat>, lo: nat, hi: nat, extract: Entry<D> -> Option<T>)
    requires AllYield(list, indexes, extract) && Listing(list, lo, hi, extract, indexes)
    ensures GoesUp(Pairs(list, indexes, extract), lo, hi)
  {
    var pairs := Pairs(list, indexes, extract);
    hide Pairs, AllYield;
    assert forall x :: 0 <= x < |pairs| ==> pairs[x].0 == indexes[x];
  }

  /**
   At every point of every run, whatever is inserted, updated, removed and sent in between and
   however the extraction changes: each entry below the cursor has been sent in its present form,
   and nothing was sent twice.
   */
  lemma {:induction false} EveryRunIsGood<D, T>(
      ws: seq<World<D, T>>, ops: seq<Op<D>>, extracts: seq<Entry<D> -> Option<T>>, n: nat)
    requires IsRun(ws, ops, extracts) && n < |ws|
    ensures Good(ws[n], extracts[n])
  {
    if n > 0 {
      EveryRunIsGood(ws, ops, extracts, n - 1);
      hide Next, Enabled;
      StepKeepsGood(ws[n - 1], ops[n - 1], extracts[n - 1]);
      ChangeDeliversIff(ws[n], extracts[n - 1], extracts[n]);
    }
  }

  /** A peer for whom there is nothing left to send has every entry of the pool. */
  lemma CaughtUp<D, T>(w: World<D, T>, limit: nat, extract: Entry<D> -> Option<T>, i: nat)
    requires Good(w, extract) && limit > 0 && PageAt(w.pool, w.cursor, limit, extract).indexes == []
    requires i in w.pool.list && extract(w.pool.list[i]).Some?
    ensures (i, extract(w.pool.list[i]).value) in w.sent
  {
    if i >= w.cursor {
      SendableComplete(w.pool.list, w.cursor, w.pool.counter, extract, i);
    }
  }
}
