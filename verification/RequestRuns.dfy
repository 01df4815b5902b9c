/** Request ids over whole runs of the request table. */
module RequestRuns {
  import opened Commands
  import opened PendingRequests

  /** The vacant slots are linked up, and no waiting request is newer than the counter. */
  ghost predicate Sound<R>(t: Table<R>, free: seq<nat>) {
    FreeList(t.list, free) && forall k :: Lookup(t.list, k).Some? ==> Lookup(t.list, k).value.counter <= t.counter
  }

  /** What an operation does to what an id stands for. */
  function Effect<R>(op: Op<R>, newId: RequestId, id: RequestId, before: Option<R>): Option<R> {
    match op
    case Add(request) => if id == newId then Some(request) else before
    case Remove(removed) => if id == removed then None else before
    case Update(updated, request) => if id == updated && before.Some? then Some(request) else before
  }

  lemma AddStep<R>(t: Table<R>, free: seq<nat>, op: Op<R>, t': Table<R>) returns (free': seq<nat>)
    requires op.Add? && Sound(t, free) && Step(t, op, t')
    ensures Sound(t', free') && forall id :: Resolved(t', id) == Effect(op, NewId(t), id, Resolved(t, id))
  {
    InsertKeepsFreeList(t.list, free, Pending(t.counter + 1, op.request));
    NextIsVacant(t.list, free);
    free' := if free == [] then [] else free[1..];
    hide FreeList, InsertNext, Lookup;
  }

  lemma RemoveStep<R>(t: Table<R>, free: seq<nat>, op: Op<R>, t': Table<R>) returns (free': seq<nat>)
    requires op.Remove? && Sound(t, free) && Step(t, op, t')
    ensures Sound(t', free') && forall id :: Resolved(t', id) == Effect(op, NewId(t), id, Resolved(t, id))
  {
    free' := free;
    if Resolved(t, op.id).Some? {
      RemoveKeepsFreeList(t.list, free, op.id.locator);
      free' := [op.id.locator] + free;
      hide FreeList, RemoveAt, Lookup;
    }
  }

  lemma UpdateStep<R>(t: Table<R>, free: seq<nat>, op: Op<R>, t': Table<R>)
    requires op.Update? && Sound(t, free) && Step(t, op, t')
    ensures Sound(t', free) && forall id :: Resolved(t', id) == Effect(op, NewId(t), id, Resolved(t, id))
  {
    if Resolved(t, op.id).Some? {
      var key := op.id.locator;
      var removed := RemoveAt(t.list, key);
      RemoveKeepsFreeList(t.list, free, key);
      InsertKeepsFreeList(removed, [key] + free, Pending(op.id.counter, op.request));
      assert ([key] + free)[1..] == free && removed.next == key;
      assert Lookup(t.list, key).value.counter == op.id.counter;
      hide FreeList, RemoveAt, Lookup, InsertNext;
    }
  }

  lemma AnyStep<R>(t: Table<R>, free: seq<nat>, op: Op<R>, t': Table<R>) returns (free': seq<nat>)
    requires Sound(t, free) && Step(t, op, t')
    ensures Sound(t', free') && t.counter <= t'.counter
    ensures forall id :: Resolved(t', id) == Effect(op, NewId(t), id, Resolved(t, id))
  {
    hide Sound, Resolved, Effect;
    match op
    case Add(_) => free' := AddStep(t, free, op, t');
    case Remove(_) => free' := RemoveStep(t, free, op, t');
    case Update(_, _) => UpdateStep(t, free, op, t'); free' := free;
  }

  /** No operation ever meets an occupied slot, and an update finds the slot it emptied again. */
  lemma SlotsNeverClash<R>(ts: seq<Table<R>>, ops: seq<Op<R>>, k: nat, id: RequestId)
    requires IsRun(ts, ops) && k < |ts|
    ensures Insertable(ts[k].list)
    ensures Resolved(ts[k], id).Some? ==>
      var removed := RemoveAt(ts[k].list, id.locator);
      Insertable(removed) && removed.next == id.locator
  {
    hide IsRun;
    var free := SoundAt(ts, ops, k);
    assert free == [] || free[0] == ts[k].list.next;
  }

  // ----- Runs

  ghost predicate IsRun<R>(ts: seq<Table<R>>, ops: seq<Op<R>>) {
    && |ts| == |ops| + 1 && ts[0] == Table(Slab([], 0), 0)
    && forall i :: 0 <= i < |ops| ==> Step(ts[i], ops[i], ts[i + 1])
  }

  /** The invariant holds at every moment of every run. */
  lemma {:induction false} SoundAt<R>(ts: seq<Table<R>>, ops: seq<Op<R>>, k: nat) returns (free: seq<nat>)
    requires IsRun(ts, ops) && k < |ts|
    ensures Sound(ts[k], free)
  {
    if k == 0 {
      free := [];
    } else {
      hide Sound, Step;
      free := SoundAt(ts, ops, k - 1);
      free := AnyStep(ts[k - 1], free, ops[k - 1], ts[k]);
    }
  }

  lemma StepAt<R>(ts: seq<Table<R>>, ops: seq<Op<R>>, k: nat, id: RequestId)
    requires IsRun(ts, ops) && k < |ops|
    ensures ts[k].counter <= ts[k + 1].counter
    ensures Resolved(ts[k + 1], id) == Effect(ops[k], NewId(ts[k]), id, Resolved(ts[k], id))
  {
    hide Sound, Step, Effect, Resolved;
    var free := SoundAt(ts, ops, k);
    var free' := AnyStep(ts[k], free, ops[k], ts[k + 1]);
  }

  /** An id that is not newer than the counter and stands for nothing never stands for anything again. */
  lemma {:induction false} StaleForever<R>(ts: seq<Table<R>>, ops: seq<Op<R>>, i: nat, j: nat, id: RequestId)
    requires IsRun(ts, ops) && i <= j < |ts| && id.counter <= ts[i].counter && Resolved(ts[i], id).None?
    ensures Resolved(ts[j], id).None? && id.counter <= ts[j].counter
  {
    hide IsRun, Resolved;
    if i < j {
      StaleForever(ts, ops, i, j - 1, id);
      RunLength(ts, ops);
      StepAt(ts, ops, j - 1, id);
    }
  }

  lemma RunLength<R>(ts: seq<Table<R>>, ops: seq<Op<R>>)
    requires IsRun(ts, ops)
    ensures |ts| == |ops| + 1
  {
  }

  lemma AddCounts<R>(ts: seq<Table<R>>, ops: seq<Op<R>>, k: nat)
    requires IsRun(ts, ops) && k < |ops| && ops[k].Add?
    ensures ts[k + 1].counter == NewId(ts[k]).counter
  {
    assert Step(ts[k], ops[k], ts[k + 1]);
  }

  /** A removed id is dead for the rest of the run, even when its slot is reused. */
  lemma RemovedForever<R>(ts: seq<Table<R>>, ops: seq<Op<R>>, i: nat, k: nat, j: nat)
    requires IsRun(ts, ops) && i < k < j < |ts| && ops[i].Add? && ops[k] == Remove(NewId(ts[i]))
    ensures Resolved(ts[j], NewId(ts[i])).None?
  {
    hide IsRun, Resolved;
    var id := NewId(ts[i]);
    RunLength(ts, ops);
    StepAt(ts, ops, k, id);
    CounterGrows(ts, ops, i + 1, k + 1);
    AddCounts(ts, ops, i);
    StaleForever(ts, ops, k + 1, j, id);
  }

  lemma {:induction false} CounterGrows<R>(ts: seq<Table<R>>, ops: seq<Op<R>>, i: nat, j: nat)
    requires IsRun(ts, ops) && i <= j < |ts|
    ensures ts[i].counter <= ts[j].counter
  {
    hide IsRun;
    if i < j {
      CounterGrows(ts, ops, i, j - 1);
      RunLength(ts, ops);
      StepAt(ts, ops, j - 1, NewId(ts[i]));
    }
  }

  /** The request last given for an id by the operations `i` to `j`. */
  ghost function LastGiven<R>(ops: seq<Op<R>>, id: RequestId, given: R, i: nat, j: nat): R
    requires i <= j <= |ops|
    decreases j
  {
    if i == j then given
    else if ops[j - 1].Update? && ops[j - 1].id == id then ops[j - 1].request
    else LastGiven(ops, id, given, i, j - 1)
  }

  /** Until it is removed, an id stands for its own request, in the form last given to it. */
  lemma {:induction false} ResolvesUntilRemoved<R>(ts: seq<Table<R>>, ops: seq<Op<R>>, i: nat, j: nat)
    requires IsRun(ts, ops) && i < j < |ts| && ops[i].Add?
    requires forall k :: i < k < j ==> ops[k] != Remove(NewId(ts[i]))
    ensures Resolved(ts[j], NewId(ts[i])) == Some(LastGiven(ops, NewId(ts[i]), ops[i].request, i + 1, j))
    decreases j
  {
    hide IsRun, Resolved;
    var id := NewId(ts[i]);
    RunLength(ts, ops);
    StepAt(ts, ops, j - 1, id);
    if j > i + 1 {
      ResolvesUntilRemoved(ts, ops, i, j - 1);
      CounterGrows(ts, ops, i + 1, j - 1);
      AddCounts(ts, ops, i);
    }
  }

  /** No id is handed out twice. */
  lemma IdsAreFresh<R>(ts: seq<Table<R>>, ops: seq<Op<R>>, i: nat, j: nat)
    requires IsRun(ts, ops) && i < j < |ops| && ops[i].Add? && ops[j].Add?
    ensures NewId(ts[i]) != NewId(ts[j])
  {
    AddCounts(ts, ops, i);
    CounterGrows(ts, ops, i + 1, j);
  }
}
