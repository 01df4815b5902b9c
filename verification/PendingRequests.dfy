/** Requests waiting for an answer, kept in a slab whose slots are reused; the ids tell the uses of a slot apart. */
module PendingRequests {
  import opened Commands

  // ----- The slab

  datatype Slot<+V> = Vacant(next: nat) | Occupied(value: V)

  /** `next` is the head of the list of vacant slots, or the length when there is none. */
  datatype Slab<+V> = Slab(slots: seq<Slot<V>>, next: nat)

  /** Following the vacant slots from `start` visits `free` and ends at `end`. */
  ghost predicate Chain<V>(slots: seq<Slot<V>>, start: nat, free: seq<nat>, end: nat)
    decreases |free|
  {
    if free == [] then start == end
    else start == free[0] && start < |slots| && slots[start].Vacant? && Chain(slots, slots[start].next, free[1..], end)
  }

  /** The vacant slots form one list without repetition that starts at `next`. */
  ghost predicate FreeList<V>(s: Slab<V>, free: seq<nat>) {
    && Chain(s.slots, s.next, free, |s.slots|)
    && (forall i, j :: 0 <= i < j < |free| ==> free[i] != free[j])
    && (forall k :: 0 <= k < |s.slots| ==> (s.slots[k].Vacant? <==> k in free))
  }

  /** Slots that are not on the list do not matter to it. */
  lemma {:induction false} ChainFrame<V>(
      slots: seq<Slot<V>>, slots': seq<Slot<V>>, start: nat, free: seq<nat>, end: nat)
    requires Chain(slots, start, free, end) && |slots| == |slots'|
    requires forall k :: k in free && k < |slots| ==> slots'[k] == slots[k]
    ensures Chain(slots', start, free, end)
    decreases |free|
  {
    if free != [] {
      assert free[0] in free;
      ChainFrame(slots, slots', slots[start].next, free[1..], end);
    }
  }

  function Lookup<V>(s: Slab<V>, key: nat): Option<V> {
    if key < |s.slots| && s.slots[key].Occupied? then Some(s.slots[key].value) else None
  }

  /** The slab with `v` in the slot that `next` names. */
  function InsertNext<V>(s: Slab<V>, v: V): Slab<V>
    requires s.next <= |s.slots| && (s.next < |s.slots| ==> s.slots[s.next].Vacant?)
  {
    if s.next == |s.slots| then Slab(s.slots + [Occupied(v)], s.next + 1)
    else Slab(s.slots[s.next := Occupied(v)], s.slots[s.next].next)
  }

  function RemoveAt<V>(s: Slab<V>, key: nat): Slab<V>
    requires Lookup(s, key).Some?
  {
    Slab(s.slots[key := Vacant(s.next)], key)
  }

  lemma InsertKeepsFreeList<V>(s: Slab<V>, free: seq<nat>, v: V)
    requires FreeList(s, free)
    ensures s.next <= |s.slots| && (s.next < |s.slots| ==> s.slots[s.next].Vacant?)
    ensures FreeList(InsertNext(s, v), if free == [] then [] else free[1..])
    ensures forall k :: Lookup(InsertNext(s, v), k) == if k == s.next then Some(v) else Lookup(s, k)
  {
    if free != [] {
      var s', rest := InsertNext(s, v), free[1..];
      assert free == [s.next] + rest;
      assert s.next !in rest;
      ChainFrame(s.slots, s'.slots, s.slots[s.next].next, rest, |s.slots|);
    }
  }

  lemma RemoveKeepsFreeList<V>(s: Slab<V>, free: seq<nat>, key: nat)
    requires FreeList(s, free) && Lookup(s, key).Some?
    ensures FreeList(RemoveAt(s, key), [key] + free)
    ensures forall k :: Lookup(RemoveAt(s, key), k) == if k == key then None else Lookup(s, k)
  {
    var s', free' := RemoveAt(s, key), [key] + free;
    assert key !in free && free'[1..] == free;
    ChainFrame(s.slots, s'.slots, s.next, free, |s.slots|);
  }

  lemma NextIsVacant<V>(s: Slab<V>, free: seq<nat>)
    requires FreeList(s, free)
    ensures Lookup(s, s.next).None?
  {}

  // ----- The requests

  datatype RequestId = RequestId(locator: nat, counter: nat)

  datatype Pending<+R> = Pending(counter: nat, request: R)

  /** What the slab says about an id. */
  function Resolve<R>(list: Slab<Pending<R>>, id: RequestId): Option<R> {
    var slot := Lookup(list, id.locator);
    if slot.Some? && slot.value.counter == id.counter then Some(slot.value.request) else None
  }

  /** Every id resolves to its own request while that is waiting, and to nothing otherwise. */
  ghost predicate Agrees<R>(list: Slab<Pending<R>>, live: map<RequestId, R>) {
    forall id :: Resolve(list, id) == if id in live then Some(live[id]) else None
  }

  lemma AddAgrees<R>(list: Slab<Pending<R>>, free: seq<nat>, live: map<RequestId, R>, counter: nat, request: R)
    requires FreeList(list, free) && Agrees(list, live)
    ensures list.next <= |list.slots| && (list.next < |list.slots| ==> list.slots[list.next].Vacant?)
    ensures Agrees(InsertNext(list, Pending(counter, request)), live[RequestId(list.next, counter) := request])
  {
    InsertKeepsFreeList(list, free, Pending(counter, request));
    NextIsVacant(list, free);
    var list' := InsertNext(list, Pending(counter, request));
    hide FreeList, InsertNext, Lookup;
    forall id ensures Resolve(list', id) ==
      if id == RequestId(list.next, counter) then Some(request) else if id in live then Some(live[id]) else None
    {
      assert Resolve(list, id) == if id in live then Some(live[id]) else None;
      assert Lookup(list', id.locator)
          == if id.locator == list.next then Some(Pending(counter, request)) else Lookup(list, id.locator);
    }
  }

  lemma RemoveAgrees<R>(list: Slab<Pending<R>>, free: seq<nat>, live: map<RequestId, R>, id: RequestId)
    requires FreeList(list, free) && Agrees(list, live) && Resolve(list, id).Some?
    ensures Agrees(RemoveAt(list, id.locator), live - {id})
  {
    RemoveKeepsFreeList(list, free, id.locator);
    var list' := RemoveAt(list, id.locator);
    hide FreeList, RemoveAt, Lookup;
    forall other ensures Resolve(list', other) == if other in live && other != id then Some(live[other]) else None {
      assert Resolve(list, other) == if other in live then Some(live[other]) else None;
      assert Lookup(list', other.locator) == if other.locator == id.locator then None else Lookup(list, other.locator);
    }
  }

  /** Taking a request out and putting it back at once: it comes back to the slot it left. */
  lemma PutBackAgrees<R>(list: Slab<Pending<R>>, free: seq<nat>, live: map<RequestId, R>, id: RequestId, request: R)
    requires FreeList(list, free) && Agrees(list, live) && Resolve(list, id).Some?
    ensures var removed := RemoveAt(list, id.locator);
      && removed.next == id.locator < |removed.slots| && removed.slots[removed.next].Vacant?
      && var list' := InsertNext(removed, Pending(id.counter, request));
      && FreeList(list', free) && Agrees(list', live[id := request])
  {
    var removed := RemoveAt(list, id.locator);
    RemoveKeepsFreeList(list, free, id.locator);
    RemoveAgrees(list, free, live, id);
    hide FreeList, Agrees, InsertNext;
    InsertKeepsFreeList(removed, [id.locator] + free, Pending(id.counter, request));
    AddAgrees(removed, [id.locator] + free, live - {id}, id.counter, request);
    assert ([id.locator] + free)[1..] == free;
    assert (live - {id})[id := request] == live[id := request];
  }

  ghost predicate NotNewer(ids: set<RequestId>, counter: nat) {
    forall id :: id in ids ==> id.counter <= counter
  }

  /** A new id is not among those handed out, and does not revive any of them. */
  lemma IssueNew<R>(issued: set<RequestId>, live: map<RequestId, R>, counter: nat, id: RequestId, request: R)
    requires live.Keys <= issued && NotNewer(issued, counter) && id.counter == counter + 1
    ensures id !in issued && NotNewer(issued + {id}, counter + 1)
    ensures live[id := request].Keys <= issued + {id}
    ensures issued - live.Keys <= issued + {id} - live[id := request].Keys
  {
  }

  // ----- One operation on the table

  datatype Table<+R> = Table(list: Slab<Pending<R>>, counter: nat)

  datatype Op<+R> = Add(request: R) | Remove(id: RequestId) | Update(id: RequestId, request: R)

  function NewId<R>(t: Table<R>): RequestId {
    RequestId(t.list.next, t.counter + 1)
  }

  function Resolved<R>(t: Table<R>, id: RequestId): Option<R> {
    Resolve(t.list, id)
  }

  /** The slot that `next` names can be filled: the slab itself does not check this. */
  ghost predicate Insertable<V>(s: Slab<V>) {
    s.next <= |s.slots| && (s.next < |s.slots| ==> s.slots[s.next].Vacant?)
  }

  /** One operation; the counter must not wrap around. */
  ghost predicate Step<R>(t: Table<R>, op: Op<R>, t': Table<R>) {
    match op
    case Add(request) =>
      && t.counter + 1 < U64_MODULUS && Insertable(t.list)
      && t' == Table(InsertNext(t.list, Pending(t.counter + 1, request)), t.counter + 1)
    case Remove(id) =>
      if Resolved(t, id).None? then t' == t else t' == t.(list := RemoveAt(t.list, id.locator))
    case Update(id, request) =>
      if Resolved(t, id).None? then t' == t
      else
        var removed := RemoveAt(t.list, id.locator);
        Insertable(removed) && t' == t.(list := InsertNext(removed, Pending(id.counter, request)))
  }

  class PendingRequests<R> {
    var list: Slab<Pending<R>>
    var counter: nat
    var lastAddedReqId: RequestId
    ghost var free: seq<nat>
    /** All ids ever handed out, and the requests of those that are still waiting. */
    ghost var issued: set<RequestId>
    ghost var live: map<RequestId, R>

    ghost predicate Valid()
      reads this
    {
      && FreeList(list, free)
      && Agrees(list, live)
      && counter < U64_MODULUS
      && live.Keys <= issued
      && NotNewer(issued, counter)
    }

    /** The ids that were handed out and whose requests are gone. */
    ghost function Dead(): set<RequestId>
      reads this
    {
      issued - live.Keys
    }

    function Viewed(): Table<R>
      reads this
    {
      Table(list, counter)
    }

    constructor ()
      ensures Viewed() == Table(Slab([], 0), 0)
      ensures Valid() && issued == {} && live == map[]
    {
      list, counter, lastAddedReqId := Slab([], 0), 0, RequestId(0, 0);
      free, issued, live := [], {}, map[];
    }

    function Get(id: RequestId): (r: Option<R>)
      reads this
      requires Valid()
      ensures r == if id in live then Some(live[id]) else None
    {
      Resolve(list, id)
    }

    function NextReqId(): RequestId
      reads this
    {
      RequestId(list.next, if counter + 1 == U64_MODULUS then 0 else counter + 1)
    }

    /** The new id was never handed out before, even if its slot was. */
    method Add(request: R) returns (id: RequestId)
      requires Valid() && counter + 1 < U64_MODULUS
      modifies this
      ensures Valid() && Step(old(Viewed()), Op.Add(request), Viewed())
      ensures id == old(NextReqId()) && lastAddedReqId == id
      ensures id !in old(issued) && issued == old(issued) + {id}
      ensures live == old(live)[id := request]
      ensures old(Dead()) <= Dead()
    {
      InsertKeepsFreeList(list, free, Pending(counter + 1, request));
      AddAgrees(list, free, live, counter + 1, request);
      IssueNew(issued, live, counter, RequestId(list.next, counter + 1), request);
      hide FreeList, Agrees, InsertNext, Lookup, NotNewer;
      counter := counter + 1;
      id := RequestId(list.next, counter);
      free := if free == [] then [] else free[1..];
      list := InsertNext(list, Pending(counter, request));
      lastAddedReqId := id;
      issued, live := issued + {id}, live[id := request];
    }

    method Remove(id: RequestId) returns (r: Option<R>)
      requires Valid()
      modifies this
      ensures Valid() && Step(old(Viewed()), Op.Remove(id), Viewed()) && issued == old(issued)
      ensures r == if id in old(live) then Some(old(live)[id]) else None
      ensures live == old(live) - {id}
      ensures old(Dead()) <= Dead()
    {
      r := Get(id);
      hide FreeList, Agrees, Lookup;
      if r.Some? {
        RemoveKeepsFreeList(list, free, id.locator);
        RemoveAgrees(list, free, live, id);
        free := [id.locator] + free;
        list := RemoveAt(list, id.locator);
        live := live - {id};
      }
    }

    /** Changes the request of an id and keeps the id; the slot it comes back to is the one it left. */
    method Update(id: RequestId, update: R -> R) returns (updated: bool)
      requires Valid()
      modifies this
      ensures Valid() && issued == old(issued)
      ensures id in old(live) ==> Step(old(Viewed()), Op.Update(id, update(old(live)[id])), Viewed())
      ensures updated <==> id in old(live)
      ensures live == if updated then old(live)[id := update(old(live)[id])] else old(live)
      ensures !updated ==> unchanged(this)
      ensures old(Dead()) <= Dead()
    {
      var r := Get(id);
      hide FreeList, Agrees, Lookup, InsertNext;
      if r.None? {
        return false;
      }
      var req := Lookup(list, id.locator).value;
      PutBackAgrees(list, free, live, id, update(req.request));
      var removed := RemoveAt(list, id.locator);
      var newLocator := removed.next;
      list := InsertNext(removed, req.(request := update(req.request)));
      assert id.locator == newLocator;
      live := live[id := update(req.request)];
      updated := true;
    }
  }
}
