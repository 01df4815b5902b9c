/**
 A pool whose entries carry ever-growing indexes, so that a peer can be sent the pool
 page by page and later only what is new.
 */
module DistributedPools {
  import opened Commands

  const MAX_INDEX: nat := U64_MODULUS - 1

  type Key = nat

  /** A pool state together with the key it is found by. */
  datatype Entry<+D> = Entry(key: Key, data: D)

  datatype Pool<+D> = Pool(counter: nat, list: map<nat, Entry<D>>, byKey: map<Key, nat>)

  /** The two maps are inverse to each other and every index is below the counter. */
  ghost predicate Consistent<D>(p: Pool<D>) {
    && p.counter <= MAX_INDEX
    && (forall i :: i in p.list ==> i < p.counter && p.list[i].key in p.byKey && p.byKey[p.list[i].key] == i)
    && (forall k :: k in p.byKey ==> p.byKey[k] in p.list && p.list[p.byKey[k]].key == k)
  }

  // ----- The operations on values

  function Inserted<D>(p: Pool<D>, e: Entry<D>): Pool<D> {
    Pool(
      if p.counter == MAX_INDEX then MAX_INDEX else p.counter + 1,
      p.list[p.counter := e],
      p.byKey[e.key := p.counter])
  }

  function Removed<D>(p: Pool<D>, k: Key): Pool<D> {
    if k !in p.byKey then p else p.(list := p.list - {p.byKey[k]}, byKey := p.byKey - {k})
  }

  /** Inserting keeps the pool consistent exactly when the key is new; a pool keeps the old entry of a key otherwise. */
  lemma InsertConsistentIff<D>(p: Pool<D>, e: Entry<D>)
    requires Consistent(p) && p.counter < MAX_INDEX
    ensures Consistent(Inserted(p, e)) <==> e.key !in p.byKey
  {
    var q := Inserted(p, e);
    if e.key in p.byKey {
      var i := p.byKey[e.key];
      assert i in q.list && q.list[i].key == e.key && q.byKey[e.key] != i;
    }
  }

  lemma RemoveConsistent<D>(p: Pool<D>, k: Key)
    requires Consistent(p)
    ensures Consistent(Removed(p, k))
  {}

  function EntryOf<D>(p: Pool<D>, k: Key): Option<Entry<D>> {
    if k in p.byKey && p.byKey[k] in p.list then Some(p.list[p.byKey[k]]) else None
  }

  /** An insertion is found under its key, at an index above all others, and every other key is found as before. */
  lemma InsertedIsFound<D>(p: Pool<D>, e: Entry<D>, k: Key)
    requires Consistent(p) && p.counter < MAX_INDEX
    ensures EntryOf(Inserted(p, e), k) == if k == e.key then Some(e) else EntryOf(p, k)
    ensures forall i :: i in p.list ==> i < Inserted(p, e).byKey[e.key]
  {
  }

  /** A removed key is found no longer, and every other key as before, at its old index. */
  lemma RemovedIsGone<D>(p: Pool<D>, gone: Key, k: Key)
    requires Consistent(p)
    ensures EntryOf(Removed(p, gone), k) == if k == gone then None else EntryOf(p, k)
    ensures k != gone && k in p.byKey ==> k in Removed(p, gone).byKey && Removed(p, gone).byKey[k] == p.byKey[k]
    ensures Removed(p, gone).counter == p.counter
  {
  }

  // ----- Serialization

  /** The key index that inserting the entries below `n` in index order builds. */
  function KeysUpTo<D>(list: map<nat, Entry<D>>, n: nat): map<Key, nat> {
    if n == 0 then map[]
    else if n - 1 in list then KeysUpTo(list, n - 1)[list[n - 1].key := n - 1]
    else KeysUpTo(list, n - 1)
  }

  lemma {:induction false} KeysUpToExact<D>(p: Pool<D>, n: nat, k: Key)
    requires Consistent(p) && n <= p.counter
    ensures k in KeysUpTo(p.list, n) <==> k in p.byKey && p.byKey[k] < n
    ensures k in KeysUpTo(p.list, n) ==> KeysUpTo(p.list, n)[k] == p.byKey[k]
  {
    if n > 0 { KeysUpToExact(p, n - 1, k); }
  }

  /** Writing out the counter and the list and reading them back gives the same pool, keys included. */
  lemma SerializationRoundTrip<D>(p: Pool<D>)
    requires Consistent(p)
    ensures Pool(p.counter, p.list, KeysUpTo(p.list, p.counter)) == p
  {
    forall k ensures k in KeysUpTo(p.list, p.counter) <==> k in p.byKey {
      KeysUpToExact(p, p.counter, k);
    }
    forall k | k in p.byKey ensures KeysUpTo(p.list, p.counter)[k] == p.byKey[k] {
      KeysUpToExact(p, p.counter, k);
    }
  }

  ghost predicate AllBelow<D>(list: map<nat, Entry<D>>, n: nat) {
    forall i :: i in list ==> i < n
  }

  /** Above the last index nothing is added. */
  lemma {:induction false} KeysBeyond<D>(list: map<nat, Entry<D>>, m: nat, n: nat)
    requires m <= n && AllBelow(list, m)
    ensures KeysUpTo(list, m) == KeysUpTo(list, n)
  {
    if m < n { KeysBeyond(list, m, n - 1); }
  }

  /** One more than the last index. */
  method EndOfKeys<D>(list: map<nat, Entry<D>>) returns (end: nat)
    ensures AllBelow(list, end)
  {
    end := 0;
    var rest := list.Keys;
    while rest != {}
      invariant rest <= list.Keys && forall i :: i in list && i !in rest ==> i < end
    {
      var i :| i in rest;
      rest := rest - {i};
      if i >= end {
        end := i + 1;
      }
    }
  }

  // ----- Pages

  /** There is an entry at `i` and it yields a message. */
  ghost predicate Yields<D, T>(list: map<nat, Entry<D>>, extract: Entry<D> -> Option<T>, i: nat) {
    i in list && extract(list[i]).Some?
  }

  /** The indexes from `from` up to, not including, `to` whose entries yield a message, in order. */
  ghost function Sendable<D, T>(
      list: map<nat, Entry<D>>, from: nat, to: nat, extract: Entry<D> -> Option<T>): seq<nat>
  {
    if to <= from then []
    else Sendable(list, from, to - 1, extract) + if Yields(list, extract, to - 1) then [to - 1] else []
  }

  /** Every index of `s` is in range and yields a message, and they ascend. */
  ghost predicate Listing<D, T>(
      list: map<nat, Entry<D>>, from: nat, to: nat, extract: Entry<D> -> Option<T>, s: seq<nat>)
  {
    && (forall x :: 0 <= x < |s| ==> from <= s[x] < to && Yields(list, extract, s[x]))
    && (forall x, y :: 0 <= x < y < |s| ==> s[x] < s[y])
  }

  lemma {:induction false} SendableSound<D, T>(
      list: map<nat, Entry<D>>, from: nat, to: nat, extract: Entry<D> -> Option<T>)
    ensures Listing(list, from, to, extract, Sendable(list, from, to, extract))
  {
    if from < to { SendableSound(list, from, to - 1, extract); }
  }

  /** And none is missing. */
  lemma {:induction false} SendableComplete<D, T>(
      list: map<nat, Entry<D>>, from: nat, to: nat, extract: Entry<D> -> Option<T>, i: nat)
    requires from <= i < to && Yields(list, extract, i)
    ensures i in Sendable(list, from, to, extract)
  {
    if i < to - 1 { SendableComplete(list, from, to - 1, extract, i); }
  }

  lemma {:induction false} SendableSplit<D, T>(
      list: map<nat, Entry<D>>, from: nat, mid: nat, to: nat, extract: Entry<D> -> Option<T>)
    requires from <= mid <= to
    ensures Sendable(list, from, to, extract) == Sendable(list, from, mid, extract) + Sendable(list, mid, to, extract)
  {
    if mid < to { SendableSplit(list, from, mid, to - 1, extract); }
  }

  ghost function Messages<D, T>(
      list: map<nat, Entry<D>>, indexes: seq<nat>, extract: Entry<D> -> Option<T>): (r: seq<T>)
    requires AllYield(list, indexes, extract)
    ensures |r| == |indexes|
  {
    if indexes == [] then []
    else
      var init, last := indexes[..|indexes| - 1], indexes[|indexes| - 1];
      assert Yields(list, extract, last);
      Messages(list, init, extract) + [extract(list[last]).value]
  }

  ghost predicate AllYield<D, T>(list: map<nat, Entry<D>>, indexes: seq<nat>, extract: Entry<D> -> Option<T>) {
    forall x :: 0 <= x < |indexes| ==> Yields(list, extract, indexes[x])
  }

  /** The greatest index below `n`, or zero. */
  function GreatestIndex<D>(list: map<nat, Entry<D>>, n: nat): (r: nat)
    ensures (forall i :: i in list ==> i >= n) ==> r == 0
    ensures (exists i :: i in list && i < n) ==> r in list && r < n && forall i :: i in list && i < n ==> i <= r
  {
    if n == 0 then 0 else if n - 1 in list then n - 1 else GreatestIndex(list, n - 1)
  }

  datatype Page = Page(indexes: seq<nat>, first: nat, last: nat)

  ghost function PageAt<D, T>(p: Pool<D>, index: nat, limit: nat, extract: Entry<D> -> Option<T>): (page: Page)
    ensures AllYield(p.list, page.indexes, extract)
  {
    SendableSound(p.list, index, p.counter, extract);
    var all := Sendable(p.list, index, p.counter, extract);
    if limit == 0 then
      var i := if index == 0 then 0 else index - 1;
      Page([], i, i)
    else if |all| >= limit then Page(all[..limit], all[0], all[limit - 1])
    else Page(all, if all == [] then index else all[0], GreatestIndex(p.list, p.counter))
  }

  /** A page that is not empty holds everything to be sent from the cursor up to its last index. */
  lemma PageIsComplete<D, T>(p: Pool<D>, index: nat, limit: nat, extract: Entry<D> -> Option<T>)
    requires Consistent(p) && PageAt(p, index, limit, extract).indexes != []
    ensures var page := PageAt(p, index, limit, extract);
      && index <= page.first <= page.last < p.counter
      && page.indexes == Sendable(p.list, index, page.last + 1, extract)
      && Sendable(p.list, index, p.counter, extract)
         == page.indexes + Sendable(p.list, page.last + 1, p.counter, extract)
  {
    var all, page := Sendable(p.list, index, p.counter, extract), PageAt(p, index, limit, extract);
    SendableSound(p.list, index, p.counter, extract);
    if |all| >= limit {
      FullPage(p.list, index, p.counter, limit, extract);
    } else {
      assert Yields(p.list, extract, all[0]);
      assert all[0] <= page.last < p.counter;
      hide Sendable;
      SendableSplit(p.list, index, page.last + 1, p.counter, extract);
      NothingAbove(p.list, page.last + 1, p.counter, extract);
    }
  }

  /** A page is as large as the limit allows, and reports the first index it holds. */
  lemma PageSizeIs<D, T>(p: Pool<D>, index: nat, limit: nat, extract: Entry<D> -> Option<T>)
    ensures var page, all := PageAt(p, index, limit, extract), Sendable(p.list, index, p.counter, extract);
      && |page.indexes| == (if limit < |all| then limit else |all|)
      && (page.indexes != [] ==> page.first == page.indexes[0])
  {
    hide Sendable;
  }

  lemma FullPage<D, T>(list: map<nat, Entry<D>>, from: nat, to: nat, n: nat, extract: Entry<D> -> Option<T>)
    requires 0 < n <= |Sendable(list, from, to, extract)|
    ensures var all := Sendable(list, from, to, extract);
      var last := all[n - 1];
      && from <= all[0] <= last < to
      && all[..n] == Sendable(list, from, last + 1, extract)
      && all == all[..n] + Sendable(list, last + 1, to, extract)
  {
    hide Sendable;
    var all := Sendable(list, from, to, extract);
    SendableSound(list, from, to, extract);
    var last := all[n - 1];
    SendableSplit(list, from, last + 1, to, extract);
    var a, b := Sendable(list, from, last + 1, extract), Sendable(list, last + 1, to, extract);
    SendableSound(list, from, last + 1, extract);
    SendableSound(list, last + 1, to, extract);
    assert Listing(list, from, last + 1, extract, a) && Listing(list, last + 1, to, extract, b);
    CutBetween(a, b, n);
  }

  lemma CutBetween(a: seq<nat>, b: seq<nat>, n: nat)
    requires 0 < n <= |a + b|
    requires forall x :: 0 <= x < |a| ==> a[x] <= (a + b)[n - 1]
    requires forall x :: 0 <= x < |b| ==> b[x] > (a + b)[n - 1]
    requires forall x, y :: 0 <= x < y < |a| ==> a[x] < a[y]
    ensures a == (a + b)[..n]
  {
    ConcatAt(a, b, n - 1);
    if n < |a| { ConcatAt(a, b, n); }
  }

  lemma ConcatAt(a: seq<nat>, b: seq<nat>, i: nat)
    requires i < |a + b|
    ensures if i < |a| then (a + b)[i] == a[i] else (a + b)[i] == b[i - |a|]
  {}

  lemma {:induction false} NothingAbove<D, T>(
      list: map<nat, Entry<D>>, from: nat, to: nat, extract: Entry<D> -> Option<T>)
    requires forall i :: i in list ==> i < from
    ensures Sendable(list, from, to, extract) == []
  {
    if from < to { NothingAbove(list, from, to - 1, extract); }
  }

  /**
   Moving the cursor behind the reported last index skips nothing, except after a page with
   limit zero from the very start: that one reports index zero as sent.
   */
  lemma NextCursorSkipsNothingIff<D, T>(p: Pool<D>, index: nat, limit: nat, extract: Entry<D> -> Option<T>)
    requires Consistent(p)
    ensures var page := PageAt(p, index, limit, extract);
      Sendable(p.list, index, p.counter, extract) == page.indexes + Sendable(p.list, page.last + 1, p.counter, extract)
      <==> limit > 0 || index > 0 || !Yields(p.list, extract, 0)
  {
    var page := PageAt(p, index, limit, extract);
    if page.indexes != [] {
      PageIsComplete(p, index, limit, extract);
    } else if limit > 0 {
      NothingAbove(p.list, page.last + 1, p.counter, extract);
    } else if index == 0 && p.counter > 0 {
      SendableSplit(p.list, 0, 1, p.counter, extract);
      assert Sendable(p.list, 0, 1, extract) == if Yields(p.list, extract, 0) then [0] else [];
    }
  }

  /** What a peer gets that asks for page after page, each from behind the last one, until a page is empty. */
  ghost function AllPages<D, T>(p: Pool<D>, index: nat, limit: nat, extract: Entry<D> -> Option<T>): seq<nat>
    requires Consistent(p)
    decreases p.counter - index
  {
    var page := PageAt(p, index, limit, extract);
    if page.indexes == [] then []
    else
      PageIsComplete(p, index, limit, extract);
      page.indexes + AllPages(p, page.last + 1, limit, extract)
  }

  /** Paging loses and repeats nothing: it yields exactly the entries to be sent, in index order. */
  lemma {:induction false} PagingIsExact<D, T>(p: Pool<D>, index: nat, limit: nat, extract: Entry<D> -> Option<T>)
    requires Consistent(p) && limit > 0
    ensures AllPages(p, index, limit, extract) == Sendable(p.list, index, p.counter, extract)
    decreases p.counter - index
  {
    var page := PageAt(p, index, limit, extract);
    if page.indexes != [] {
      PageIsComplete(p, index, limit, extract);
      hide Consistent, Sendable, PageAt;
      PagingIsExact(p, page.last + 1, limit, extract);
    }
  }

  // ----- Filtering

  /** The pool with the entries that `keep` accepts, in the form it gives them, at their old index and key. */
  ghost function RetainedPool<D>(p: Pool<D>, keep: Entry<D> -> Option<Entry<D>>): Pool<D>
    requires Consistent(p)
  {
    Pool(
      p.counter,
      map i | i in p.list && keep(p.list[i]).Some? :: keep(p.list[i]).value,
      map k | k in p.byKey && keep(p.list[p.byKey[k]]).Some? :: p.byKey[k])
  }

  /** Every kept entry has the key it had. */
  ghost predicate KeepsKeys<D>(p: Pool<D>, keep: Entry<D> -> Option<Entry<D>>) {
    forall i :: i in p.list && keep(p.list[i]).Some? ==> keep(p.list[i]).value.key == p.list[i].key
  }

  /** Retaining keeps the pool consistent exactly when no kept entry changes its key. */
  lemma RetainConsistentIff<D>(p: Pool<D>, keep: Entry<D> -> Option<Entry<D>>)
    requires Consistent(p)
    ensures Consistent(RetainedPool(p, keep)) <==> KeepsKeys(p, keep)
  {
    var q := RetainedPool(p, keep);
    if Consistent(q) {
      forall i | i in p.list && keep(p.list[i]).Some? ensures keep(p.list[i]).value.key == p.list[i].key {
        var k := p.list[i].key;
        assert p.byKey[k] == i && k in q.byKey;
      }
    }
  }

  /** The two maps while the keys in `pending` are still to be looked at. */
  ghost predicate PartlyRetained<D>(p: Pool<D>, q: Pool<D>, pending: set<Key>, keep: Entry<D> -> Option<Entry<D>>)
    requires Consistent(p)
  {
    && q.counter == p.counter
    && (forall i :: RetainedAt(p.list, q.list, pending, keep, i))
    && (forall k :: k in q.byKey <==> k in p.byKey && (k in pending || keep(p.list[p.byKey[k]]).Some?))
    && (forall k :: k in q.byKey ==> q.byKey[k] == p.byKey[k])
  }

  ghost predicate RetainedAt<D>(
    list0: map<nat, Entry<D>>, list: map<nat, Entry<D>>, pending: set<Key>, keep: Entry<D> -> Option<Entry<D>>, i: nat)
  {
    if i !in list0 then i !in list
    else if list0[i].key in pending then i in list && list[i] == list0[i]
    else if keep(list0[i]).Some? then i in list && list[i] == keep(list0[i]).value
    else i !in list
  }

  lemma RetainStep<D>(p: Pool<D>, q: Pool<D>, pending: set<Key>, keep: Entry<D> -> Option<Entry<D>>, k: Key)
    requires Consistent(p) && PartlyRetained(p, q, pending, keep) && k in pending && k in p.byKey
    ensures k in q.byKey && q.byKey[k] == p.byKey[k] && q.byKey[k] in q.list && q.list[q.byKey[k]] == p.list[p.byKey[k]]
    ensures var index, v := q.byKey[k], keep(q.list[q.byKey[k]]);
      var q' := if v.Some? then q.(list := q.list[index := v.value])
                else q.(list := q.list - {index}, byKey := q.byKey - {k});
      PartlyRetained(p, q', pending - {k}, keep)
  {
    var index := p.byKey[k];
    assert RetainedAt(p.list, q.list, pending, keep, index);
    var v := keep(q.list[index]);
    var q' := if v.Some? then q.(list := q.list[index := v.value])
              else q.(list := q.list - {index}, byKey := q.byKey - {k});
    forall i ensures RetainedAt(p.list, q'.list, pending - {k}, keep, i) {
      assert RetainedAt(p.list, q.list, pending, keep, i);
      if i != index && i in p.list { assert p.byKey[p.list[i].key] == i; }
    }
  }

  lemma RetainDone<D>(p: Pool<D>, q: Pool<D>, keep: Entry<D> -> Option<Entry<D>>)
    requires Consistent(p) && PartlyRetained(p, q, {}, keep)
    ensures q == RetainedPool(p, keep)
  {
    var r := RetainedPool(p, keep);
    forall i ensures i in q.list <==> i in r.list { assert RetainedAt(p.list, q.list, {}, keep, i); }
    forall i | i in q.list ensures q.list[i] == r.list[i] { assert RetainedAt(p.list, q.list, {}, keep, i); }
    assert q.list == r.list && q.byKey == r.byKey;
  }

  class DistributedPool<D(==)> {
    var counter: nat
    var list: map<nat, Entry<D>>
    var byKey: map<Key, nat>

    function View(): Pool<D>
      reads this
    {
      Pool(counter, list, byKey)
    }

    constructor ()
      ensures View() == Pool(0, map[], map[])
    {
      counter, list, byKey := 0, map[], map[];
    }

    /** Deserialization: the key index is rebuilt from the list, in index order, whatever the list holds. */
    constructor FromSerialized(counter: nat, list: map<nat, Entry<D>>)
      requires counter <= MAX_INDEX
      ensures this.counter == counter && this.list == list
      ensures forall n: nat :: AllBelow(list, n) ==> byKey == KeysUpTo(list, n)
    {
      this.counter, this.list := counter, list;
      var index: map<Key, nat> := map[];
      var end := EndOfKeys(list);
      for i := 0 to end
        invariant index == KeysUpTo(list, i)
      {
        if i in list {
          index := index[list[i].key := i];
        }
      }
      byKey := index;
      forall n: nat | AllBelow(list, n) ensures index == KeysUpTo(list, n) {
        if n <= end { KeysBeyond(list, n, end); } else { KeysBeyond(list, end, n); }
      }
    }

    function Get(k: Key): Option<Entry<D>>
      reads this
    {
      if k in byKey && byKey[k] in list then Some(list[byKey[k]]) else None
    }

    method Insert(e: Entry<D>)
      modifies this
      ensures View() == Inserted(old(View()), e)
    {
      list := list[counter := e];
      byKey := byKey[e.key := counter];
      counter := if counter == MAX_INDEX then MAX_INDEX else counter + 1;
    }

    method Remove(k: Key) returns (r: Option<Entry<D>>)
      modifies this
      ensures View() == Removed(old(View()), k)
      ensures r == old(Get(k))
    {
      if k !in byKey {
        return None;
      }
      var index := byKey[k];
      byKey := byKey - {k};
      r := if index in list then Some(list[index]) else None;
      list := list - {index};
    }

    /**
     The entry of the key is taken out, changed and inserted again, so that it moves past every
     other entry. The pool stays consistent exactly when the change does not give the entry the
     key of another one.
     */
    method Update(k: Key, f: Entry<D> -> Entry<D>) returns (updated: bool)
      requires Consistent(View())
      modifies this
      ensures updated <==> k in old(byKey)
      ensures !updated ==> View() == old(View())
      ensures updated ==> View() == Inserted(Removed(old(View()), k), f(old(list[byKey[k]])))
      ensures updated && old(counter) < MAX_INDEX ==>
        && (forall i :: i in list && i != old(counter) ==> i < old(counter))
        && var key := f(old(list[byKey[k]])).key; (Consistent(View()) <==> key == k || key !in old(byKey))
    {
      RemoveConsistent(View(), k);
      var e := Remove(k);
      if e.None? {
        return false;
      }
      if counter < MAX_INDEX { InsertConsistentIff(View(), f(e.value)); }
      Insert(f(e.value));
      updated := true;
    }

    /** Keeps the entries `keep` accepts, in the form it gives them; indexes do not move. */
    method RetainAndUpdate(keep: Entry<D> -> Option<Entry<D>>)
      requires Consistent(View())
      modifies this
      ensures View() == RetainedPool(old(View()), keep)
      ensures Consistent(View()) <==> KeepsKeys(old(View()), keep)
    {
      RetainConsistentIff(View(), keep);
      hide KeepsKeys, RetainedPool;
      var pending := byKey.Keys;
      while pending != {}
        invariant pending <= old(byKey).Keys && PartlyRetained(old(View()), View(), pending, keep)
        decreases pending
      {
        hide Consistent, PartlyRetained;
        var k :| k in pending;
        RetainStep(old(View()), View(), pending, keep, k);
        var index := byKey[k];
        var v := keep(list[index]);
        if v.Some? {
          list := list[index := v.value];
        } else {
          list := list - {index};
          byKey := byKey - {k};
        }
        pending := pending - {k};
      }
      RetainDone(old(View()), View(), keep);
    }

    function LastIndex(): (n: nat)
      reads this
      requires Consistent(View())
      ensures list == map[] ==> n == 0
      ensures list != map[] ==> n in list && forall i :: i in list ==> i <= n
    {
      GreatestIndex(list, counter)
    }

    /**
     One page for a peer that has seen everything before `index`: the first `limit`
     entries from there that yield a message, and the indexes of the first and last.
     */
    method NextMessagesToSend<T>(index: nat, limit: nat, extract: Entry<D> -> Option<T>)
      returns (messages: seq<T>, first: nat, last: nat)
      requires Consistent(View())
      ensures var p := PageAt(View(), index, limit, extract);
        && messages == Messages(list, p.indexes, extract)
        && first == p.first && last == p.last
    {
      messages := [];
      if limit == 0 {
        var i := if index == 0 then 0 else index - 1;
        return [], i, i;
      }
      hide Consistent, PageAt;
      var firstIndex: Option<nat> := None;
      ghost var sent := [];
      var i := index;
      while i < counter
        invariant index <= i && (i <= counter || i == index)
        invariant sent == Sendable(list, index, i, extract) && |sent| < limit
        invariant AllYield(list, sent, extract)
        invariant messages == Messages(list, sent, extract)
        invariant firstIndex == if sent == [] then None else Some(sent[0])
        decreases counter - i
      {
        if i in list {
          var data := extract(list[i]);
          if data.Some? {
            if firstIndex.None? { firstIndex := Some(i); }
            MessagesSnoc(list, sent, i, extract);
            messages := messages + [data.value];
            sent := sent + [i];
            if |messages| >= limit {
              PageFull(View(), index, limit, i, sent, extract);
              return messages, firstIndex.value, i;
            }
          }
        }
        i := i + 1;
      }
      first := if firstIndex.Some? then firstIndex.value else index;
      last := LastIndex();
      PageShort(View(), index, limit, i, sent, extract);
    }
  }

  lemma MessagesSnoc<D, T>(list: map<nat, Entry<D>>, indexes: seq<nat>, i: nat, extract: Entry<D> -> Option<T>)
    requires AllYield(list, indexes, extract) && Yields(list, extract, i)
    ensures AllYield(list, indexes + [i], extract)
    ensures Messages(list, indexes + [i], extract) == Messages(list, indexes, extract) + [extract(list[i]).value]
  {
    assert (indexes + [i])[..|indexes|] == indexes;
  }

  /** The whole rest of the pool was listed and the page is not full. */
  lemma PageShort<D, T>(p: Pool<D>, index: nat, limit: nat, i: nat, sent: seq<nat>, extract: Entry<D> -> Option<T>)
    requires i >= p.counter && (i <= p.counter || i == index) && index <= i
    requires sent == Sendable(p.list, index, i, extract) && |sent| < limit
    ensures PageAt(p, index, limit, extract) ==
      Page(sent, if sent == [] then index else sent[0], GreatestIndex(p.list, p.counter))
  {}

  /** The loop may stop as soon as the page is full. */
  lemma PageFull<D, T>(p: Pool<D>, index: nat, limit: nat, i: nat, sent: seq<nat>, extract: Entry<D> -> Option<T>)
    requires index <= i < p.counter && sent == Sendable(p.list, index, i + 1, extract) && |sent| == limit > 0
    requires sent[limit - 1] == i
    ensures PageAt(p, index, limit, extract) == Page(sent, sent[0], i)
  {
    SendableSplit(p.list, index, i + 1, p.counter, extract);
    hide Sendable;
    assert Sendable(p.list, index, p.counter, extract)[..limit] == sent;
  }
}
