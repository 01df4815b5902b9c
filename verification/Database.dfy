/** The account database: accounts by leaf, an index by account id, and the cached Merkle hashes. */
module Databases {
  import opened Commands
  import opened Powers
  import opened MerkleTree
  import opened HashesMatrices
  import opened AddressBytes
  import opened TreeWalks

  // ----- Accounts by leaf

  function Resized<A>(accounts: Accounts<A>, length: nat): Accounts<A> {
    if |accounts| < length then accounts + seq(length - |accounts|, _ => None) else accounts
  }

  function PutAt<A>(accounts: Accounts<A>, index: nat, value: Option<A>): Accounts<A> {
    Resized(accounts, index + 1)[index := value]
  }

  lemma PutAtAt<A>(accounts: Accounts<A>, index: nat, value: Option<A>)
    ensures At(PutAt(accounts, index, value), index) == value
    ensures SameExcept(accounts, PutAt(accounts, index, value), index)
  {
  }

  /** How many leaves hold an account. */
  ghost function Filled<A>(accounts: Accounts<A>): nat {
    if accounts == [] then 0
    else Filled(accounts[..|accounts| - 1]) + if accounts[|accounts| - 1].Some? then 1 else 0
  }

  lemma {:induction false} FilledUpdate<A>(accounts: Accounts<A>, index: nat, value: Option<A>)
    requires index < |accounts|
    ensures Filled(accounts[index := value])
         == Filled(accounts) - (if accounts[index].Some? then 1 else 0) + if value.Some? then 1 else 0
  {
    var n := |accounts| - 1;
    var init := accounts[..n];
    if index < n {
      FilledUpdate(init, index, value);
      assert accounts[index := value][..n] == init[index := value];
    } else {
      assert accounts[index := value][..n] == init;
    }
  }

  lemma {:induction false} FilledResized<A>(accounts: Accounts<A>, length: nat)
    ensures Filled(Resized(accounts, length)) == Filled(accounts)
    decreases length
  {
    if |accounts| < length {
      var longer := Resized(accounts, length);
      FilledResized(accounts, length - 1);
      assert longer[..|longer| - 1] == Resized(accounts, length - 1);
    }
  }

  // ----- The index by account id

  /** Every indexed id is that of the account at its address. */
  ghost predicate Located<A, I>(accounts: Accounts<A>, idToAddr: map<I, Address>, depth: nat, idOf: A -> I) {
    forall id :: id in idToAddr ==>
      var addr := idToAddr[id];
      |addr| == depth && At(accounts, ToIndex(addr)).Some? && idOf(At(accounts, ToIndex(addr)).value) == id
  }

  /** Every account is indexed at its own leaf. */
  ghost predicate Indexed<A, I>(accounts: Accounts<A>, idToAddr: map<I, Address>, idOf: A -> I) {
    forall i :: 0 <= i < |accounts| && accounts[i].Some? ==> IndexedAt(idToAddr, idOf(accounts[i].value), i)
  }

  ghost predicate IndexedAt<I>(idToAddr: map<I, Address>, id: I, index: nat) {
    id in idToAddr && ToIndex(idToAddr[id]) == index
  }

  /** The index after `set`: the replaced account's id goes, the new one comes. */
  function Reindexed<A, I(==)>(
      accounts: Accounts<A>, idToAddr: map<I, Address>, idOf: A -> I, addr: Address, account: A): map<I, Address>
  {
    var kept := match At(accounts, ToIndex(addr))
      case Some(replaced) => idToAddr - {idOf(replaced)}
      case None => idToAddr;
    kept[idOf(account) := addr]
  }

  lemma SetKeepsLocated<A, I>(
      accounts: Accounts<A>, idToAddr: map<I, Address>, depth: nat, idOf: A -> I, addr: Address, account: A)
    requires Located(accounts, idToAddr, depth, idOf) && |addr| == depth
    ensures var put := PutAt(accounts, ToIndex(addr), Some(account));
      Located(put, Reindexed(accounts, idToAddr, idOf, addr, account), depth, idOf)
  {
    PutAtAt(accounts, ToIndex(addr), Some(account));
    var after := Reindexed(accounts, idToAddr, idOf, addr, account);
    forall id | id in after && id != idOf(account) ensures ToIndex(after[id]) != ToIndex(addr) {
      assert id in idToAddr;
    }
  }

  /** `set` keeps every account indexed exactly when the new id is not already at another leaf. */
  lemma SetKeepsIndexedIff<A, I>(
      accounts: Accounts<A>, idToAddr: map<I, Address>, depth: nat, idOf: A -> I, addr: Address, account: A)
    requires Located(accounts, idToAddr, depth, idOf) && Indexed(accounts, idToAddr, idOf) && |addr| == depth
    ensures var put := PutAt(accounts, ToIndex(addr), Some(account));
      Indexed(put, Reindexed(accounts, idToAddr, idOf, addr, account), idOf) <==>
        (idOf(account) in idToAddr ==> idToAddr[idOf(account)] == addr)
  {
    var index := ToIndex(addr);
    var put := PutAt(accounts, index, Some(account));
    var after := Reindexed(accounts, idToAddr, idOf, addr, account);
    PutAtAt(accounts, index, Some(account));
    if idOf(account) in idToAddr && idToAddr[idOf(account)] != addr {
      var other := idToAddr[idOf(account)];
      if ToIndex(other) == index { SameIndex(other, addr); }
      assert At(put, ToIndex(other)) == At(accounts, ToIndex(other));
      assert !IndexedAt(after, idOf(account), ToIndex(other));
    } else {
      forall i | 0 <= i < |put| && put[i].Some? ensures IndexedAt(after, idOf(put[i].value), i) {
        if i != index {
          assert At(put, i) == At(accounts, i);
          assert IndexedAt(idToAddr, idOf(accounts[i].value), i);
        }
      }
    }
  }

  /** Setting an account of the same id at a second leaf loses the index of the first. */
  lemma SecondLeafLosesIndex<A, I>(account: A, idOf: A -> I)
    ensures var accounts: Accounts<A> := [Some(account)];
      var idToAddr := map[idOf(account) := [false]];
      && Located(accounts, idToAddr, 1, idOf) && Indexed(accounts, idToAddr, idOf)
      && !Indexed(PutAt(accounts, 1, Some(account)), Reindexed(accounts, idToAddr, idOf, [true], account), idOf)
  {
    var accounts: Accounts<A> := [Some(account)];
    var idToAddr := map[idOf(account) := [false]];
    SnocIndex([], false);
    SnocIndex([], true);
    assert [] + [false] == [false] && [] + [true] == [true];
    SetKeepsIndexedIff(accounts, idToAddr, 1, idOf, [true], account);
  }

  // ----- New locations

  /** Where the next account goes, counted in leaves. */
  function EndOf(last: Option<Address>): nat {
    if last.Some? then ToIndex(last.value) + 1 else 0
  }

  function FreeLocation(last: Option<Address>, depth: nat): Option<Address> {
    if last.Some? then Next(last.value) else Some(FromIndex(0, depth))
  }

  lemma FreeLocationIs(last: Option<Address>, depth: nat)
    requires last.Some? ==> |last.value| == depth
    ensures FreeLocation(last, depth)
         == if EndOf(last) < Pow2(depth) then Some(FromIndex(EndOf(last), depth)) else None
    ensures FreeLocation(last, depth).Some? ==> ToIndex(FreeLocation(last, depth).value) == EndOf(last)
  {
    ToFromIndex(0, depth);
    if last.Some? {
      NextIndex(last.value);
      if Next(last.value).Some? { FromToIndex(Next(last.value).value); }
    }
  }

  // ----- The length of the accounts against the last location

  datatype Layout = Layout(length: nat, last: Option<Address>)

  /** The accounts end at the last location: what the source asserts before it appends one. */
  ghost predicate IsCompact(l: Layout) {
    l.length == EndOf(l.last)
  }

  function AfterSet(l: Layout, addr: Address): Layout {
    var end := ToIndex(addr) + 1;
    Layout(if l.length < end then end else l.length, if EndOf(l.last) < end then Some(addr) else l.last)
  }

  function AfterPush(l: Layout, location: Address): Layout {
    Layout(l.length + 1, Some(location))
  }

  ghost function AfterRemove(l: Layout, gone: set<Address>): Layout {
    Layout(l.length, LastKept(l.last, gone))
  }

  /** `set` makes the accounts end at the last location exactly when they did or it reaches their end. */
  lemma SetCompactIff(l: Layout, addr: Address)
    requires EndOf(l.last) <= l.length
    ensures EndOf(AfterSet(l, addr).last) <= AfterSet(l, addr).length
    ensures IsCompact(AfterSet(l, addr)) <==> IsCompact(l) || ToIndex(addr) + 1 >= l.length
  {
  }

  /** What `set` does to the accounts, in terms of the layout and the count. */
  lemma SetLaysOut<A>(accounts: Accounts<A>, last: Option<Address>, addr: Address, account: A)
    requires UsedUpTo(accounts, last)
    ensures var l, put := AfterSet(Layout(|accounts|, last), addr), PutAt(accounts, ToIndex(addr), Some(account));
      && |put| == l.length && UsedUpTo(put, l.last)
      && Filled(put) == Filled(accounts) + if At(accounts, ToIndex(addr)).Some? then 0 else 1
  {
    hide Filled;
    var index := ToIndex(addr);
    FilledResized(accounts, index + 1);
    FilledUpdate(Resized(accounts, index + 1), index, Some(account));
  }

  /** A removal leaves them ending there exactly when they did and the last location is not removed. */
  lemma RemoveCompactIff(l: Layout, gone: set<Address>)
    requires EndOf(l.last) <= l.length
    ensures EndOf(AfterRemove(l, gone).last) <= l.length
    ensures IsCompact(AfterRemove(l, gone)) <==> IsCompact(l) && !(l.last.Some? && l.last.value in gone)
  {
    if l.last.Some? && l.last.value in gone {
      PrevIndex(l.last.value);
      LastKeptBelow(Prev(l.last.value), gone);
    }
  }

  // ----- Removal

  /** What is still to be removed: accounts that are no longer indexed. */
  ghost predicate Pending<A, I>(
      accounts: Accounts<A>, idToAddr: map<I, Address>, depth: nat, idOf: A -> I, pending: set<Address>)
  {
    forall addr :: addr in pending ==>
      && |addr| == depth && ToIndex(addr) < |accounts| && accounts[ToIndex(addr)].Some?
      && idOf(accounts[ToIndex(addr)].value) !in idToAddr
  }

  lemma PendingTake<A, I>(
      accounts: Accounts<A>, idToAddr: map<I, Address>, depth: nat, idOf: A -> I, pending: set<Address>, id: I)
    requires Located(accounts, idToAddr, depth, idOf) && Pending(accounts, idToAddr, depth, idOf, pending)
    requires id in idToAddr
    ensures Located(accounts, idToAddr - {id}, depth, idOf)
    ensures Pending(accounts, idToAddr - {id}, depth, idOf, pending + {idToAddr[id]})
  {
  }

  lemma PendingRemove<A, I>(
      accounts: Accounts<A>, idToAddr: map<I, Address>, depth: nat, idOf: A -> I, pending: set<Address>,
      addr: Address)
    requires Pending(accounts, idToAddr, depth, idOf, pending) && addr in pending
    ensures Pending(accounts[ToIndex(addr) := None], idToAddr, depth, idOf, pending - {addr})
  {
    forall a | a in pending - {addr} ensures ToIndex(a) != ToIndex(addr) {
      if ToIndex(a) == ToIndex(addr) { SameIndex(a, addr); }
    }
  }

  /** The first `n` ids, and where they are. */
  ghost function IdsOf<I>(ids: seq<I>): set<I> {
    set i | 0 <= i < |ids| :: ids[i]
  }

  ghost function PlacesOf<I>(ids: seq<I>, idToAddr: map<I, Address>): set<Address>
    requires forall i :: 0 <= i < |ids| ==> ids[i] in idToAddr
  {
    set i | 0 <= i < |ids| :: idToAddr[ids[i]]
  }

  lemma IdsStep<I>(ids: seq<I>, idToAddr: map<I, Address>, k: nat)
    requires k < |ids| && (forall i :: 0 <= i < |ids| ==> ids[i] in idToAddr)
    requires forall i, j :: 0 <= i < j < |ids| ==> ids[i] != ids[j]
    ensures ids[k] in idToAddr - IdsOf(ids[..k])
    ensures idToAddr - IdsOf(ids[..k + 1]) == idToAddr - IdsOf(ids[..k]) - {ids[k]}
    ensures PlacesOf(ids[..k + 1], idToAddr) == PlacesOf(ids[..k], idToAddr) + {idToAddr[ids[k]]}
  {
    assert ids[..k + 1] == ids[..k] + [ids[k]];
    assert IdsOf(ids[..k + 1]) == IdsOf(ids[..k]) + {ids[k]};
    PlacesSnoc(ids[..k], ids[k], idToAddr);
  }

  lemma PlacesSnoc<I>(ids: seq<I>, id: I, idToAddr: map<I, Address>)
    requires id in idToAddr && (forall i :: 0 <= i < |ids| ==> ids[i] in idToAddr)
    ensures PlacesOf(ids + [id], idToAddr) == PlacesOf(ids, idToAddr) + {idToAddr[id]}
  {
    var longer := ids + [id];
    forall a | a in PlacesOf(ids, idToAddr) + {idToAddr[id]} ensures a in PlacesOf(longer, idToAddr) {
      if a == idToAddr[id] {
        assert longer[|ids|] == id;
      } else {
        var i :| 0 <= i < |ids| && idToAddr[ids[i]] == a;
        assert longer[i] == ids[i];
      }
    }
  }

  /** The last location once some leaves are gone: the nearest one below that stays. */
  ghost function LastKept(last: Option<Address>, gone: set<Address>): Option<Address>
    decreases if last.None? then 0 else ToIndex(last.value) + 1
  {
    if last.None? || last.value !in gone then last
    else
      PrevIndex(last.value);
      LastKept(Prev(last.value), gone)
  }

  /** Taking the leaves away from the highest down, one step back at a time is enough. */
  lemma {:induction false} LastKeptStep(last: Option<Address>, gone: set<Address>, addr: Address)
    requires addr !in gone && forall g :: g in gone ==> ToIndex(g) > ToIndex(addr)
    ensures LastKept(last, gone + {addr})
         == if LastKept(last, gone) == Some(addr) then Prev(addr) else LastKept(last, gone)
    decreases if last.None? then 0 else ToIndex(last.value) + 1
  {
    if last.Some? {
      PrevIndex(last.value);
      if last.value in gone {
        LastKeptStep(Prev(last.value), gone, addr);
      }
    }
  }

  lemma {:induction false} LastKeptBelow(last: Option<Address>, gone: set<Address>)
    ensures LastKept(last, gone) == last || (last.Some? &&
      (LastKept(last, gone).None? || ToIndex(LastKept(last, gone).value) < ToIndex(last.value)))
    decreases if last.None? then 0 else ToIndex(last.value) + 1
  {
    if last.Some? && last.value in gone {
      PrevIndex(last.value);
      LastKeptBelow(Prev(last.value), gone);
    }
  }

  /** It is a leaf that stays, or none, and every leaf above it up to the old last location is gone. */
  lemma {:induction false} LastKeptIs(last: Option<Address>, gone: set<Address>, depth: nat, leaf: Address)
    requires (last.Some? ==> |last.value| == depth) && |leaf| == depth
    ensures var kept := LastKept(last, gone);
      && (kept.Some? ==> kept.value !in gone && |kept.value| == depth)
      && (EndOf(kept) <= ToIndex(leaf) < EndOf(last) ==> leaf in gone)
    decreases if last.None? then 0 else ToIndex(last.value) + 1
  {
    if last.Some? && last.value in gone {
      PrevIndex(last.value);
      LastKeptIs(Prev(last.value), gone, depth, leaf);
      if ToIndex(leaf) == ToIndex(last.value) { SameIndex(leaf, last.value); }
    }
  }

  /** What is left of the accounts when leaves are emptied. */
  ghost predicate Emptied<A>(before: Accounts<A>, after: Accounts<A>, gone: set<Address>) {
    |after| == |before| && forall i :: 0 <= i < |after| ==> after[i] == if Gone(gone, i) then None else before[i]
  }

  ghost predicate Gone(gone: set<Address>, index: nat) {
    exists addr :: addr in gone && ToIndex(addr) == index
  }

  lemma EmptiedStep<A>(before: Accounts<A>, now: Accounts<A>, gone: set<Address>, addr: Address)
    requires Emptied(before, now, gone) && ToIndex(addr) < |now|
    ensures Emptied(before, now[ToIndex(addr) := None], gone + {addr})
  {
    var after := now[ToIndex(addr) := None];
    forall i | 0 <= i < |after| ensures after[i] == if Gone(gone + {addr}, i) then None else before[i] {
      if i == ToIndex(addr) { assert addr in gone + {addr}; }
      if Gone(gone, i) {
        var g :| g in gone && ToIndex(g) == i;
        assert g in gone + {addr};
      }
    }
  }

  /** Removing accounts by id keeps the others indexed. */
  lemma RemovalKeepsIndexed<A, I>(
      before: Accounts<A>, after: Accounts<A>, idToAddr: map<I, Address>, depth: nat, idOf: A -> I, ids: seq<I>)
    requires Located(before, idToAddr, depth, idOf) && Indexed(before, idToAddr, idOf)
    requires forall i :: 0 <= i < |ids| ==> ids[i] in idToAddr
    requires Emptied(before, after, PlacesOf(ids, idToAddr))
    ensures Indexed(after, idToAddr - IdsOf(ids), idOf)
  {
    forall i | 0 <= i < |after| && after[i].Some? ensures IndexedAt(idToAddr - IdsOf(ids), idOf(after[i].value), i) {
      var id := idOf(after[i].value);
      assert IndexedAt(idToAddr, id, i);
      assert idToAddr[id] !in PlacesOf(ids, idToAddr);
    }
  }

  lemma EmptiedNone<A>(accounts: Accounts<A>, last: Option<Address>)
    ensures Emptied(accounts, accounts, {}) && LastKept(last, {}) == last
  {
  }

  lemma NoIds<I>(ids: seq<I>, idToAddr: map<I, Address>)
    requires ids == []
    ensures IdsOf(ids) == {} && PlacesOf(ids, idToAddr) == {}
  {
  }

  lemma NonePending<A, I>(accounts: Accounts<A>, idToAddr: map<I, Address>, depth: nat, idOf: A -> I)
    ensures Pending(accounts, idToAddr, depth, idOf, {})
  {
  }

  lemma GreatestIsStrict(pending: set<Address>, addr: Address, depth: nat)
    requires addr in pending && forall a :: a in pending ==> |a| == depth && ToIndex(a) <= ToIndex(addr)
    ensures forall a :: a in pending - {addr} ==> ToIndex(a) < ToIndex(addr)
  {
    forall a | a in pending - {addr} ensures ToIndex(a) < ToIndex(addr) {
      if ToIndex(a) == ToIndex(addr) { SameIndex(a, addr); }
    }
  }

  /** `sort_by_key` and `rev`, one element at a time. */
  method Greatest(pending: set<Address>) returns (addr: Address)
    requires pending != {}
    ensures addr in pending && forall a :: a in pending ==> ToIndex(a) <= ToIndex(addr)
  {
    addr :| addr in pending;
    var rest := pending - {addr};
    while rest != {}
      invariant rest <= pending && addr in pending && forall a :: a in pending - rest ==> ToIndex(a) <= ToIndex(addr)
    {
      var a :| a in rest;
      rest := rest - {a};
      if ToIndex(a) > ToIndex(addr) {
        addr := a;
      }
    }
  }

  lemma EmptyKeepsLocated<A, I>(
      accounts: Accounts<A>, idToAddr: map<I, Address>, depth: nat, idOf: A -> I, index: nat)
    requires Located(accounts, idToAddr, depth, idOf) && index < |accounts| && accounts[index].Some?
    requires idOf(accounts[index].value) !in idToAddr
    ensures Located(accounts[index := None], idToAddr, depth, idOf)
  {
    hide ToIndex;
  }

  lemma EmptyKeepsUsed<A>(accounts: Accounts<A>, last: Option<Address>, addr: Address)
    requires UsedUpTo(accounts, last) && EndOf(last) <= |accounts| && ToIndex(addr) < |accounts|
    ensures var last' := if last == Some(addr) then Prev(addr) else last;
      && UsedUpTo(accounts[ToIndex(addr) := None], last') && EndOf(last') <= |accounts|
      && (last'.Some? && last == Some(addr) ==> |last'.value| == |addr|)
  {
    hide ToIndex, Prev;
    PrevIndex(addr);
  }

  datatype GetOrCreated = Added(addr: Address) | Existed(addr: Address)

  class Database<A, I(==)> {
    var accounts: Accounts<A>
    const hashes: HashesMatrix<A>
    var idToAddr: map<I, Address>
    const depth: nat
    var lastLocation: Option<Address>
    var naccounts: nat
    const idOf: A -> I

    /** The cache is made for this depth; what it holds may be wrong. */
    ghost predicate Sized()
      reads this, hashes
    {
      hashes.Valid() && hashes.ledgerDepth == depth
    }

    /** The cached hashes are those of the accounts. */
    ghost predicate HashesOk()
      reads this, hashes
    {
      && Sized()
      && CacheOk(hashes.matrix, hashes.hasher, accounts, depth) && LeavesFilled(hashes.matrix, accounts, depth)
    }

    ghost predicate Valid()
      reads this, hashes
    {
      HashesOk() && AccountsOk()
    }

    /** Everything but the cached hashes. */
    ghost predicate AccountsOk()
      reads this
    {
      && 1 <= depth
      && (lastLocation.Some? ==> |lastLocation.value| == depth)
      && UsedUpTo(accounts, lastLocation) && EndOf(lastLocation) <= |accounts|
      && naccounts == Filled(accounts)
      && Located(accounts, idToAddr, depth, idOf)
    }

    ghost function Laid(): Layout
      reads this
    {
      Layout(|accounts|, lastLocation)
    }

    ghost predicate Compact()
      reads this
    {
      IsCompact(Laid())
    }

    constructor (depth: nat, hasher: Hasher<A>, idOf: A -> I)
      requires 1 <= depth < 0xfe
      ensures Valid() && fresh(hashes) && hashes.matrix == map[]
      ensures accounts == [] && idToAddr == map[] && lastLocation == None
      ensures this.depth == depth && this.idOf == idOf && hashes.hasher == hasher
    {
      accounts, idToAddr, lastLocation, naccounts := [], map[], None, 0;
      this.depth, this.idOf := depth, idOf;
      hashes := new HashesMatrix(depth, hasher);
    }

    // ----- Changing accounts

    /** Invalidates a leaf's path for a change of that leaf. */
    method InvalidateFor(addr: Address, ghost before: Accounts<A>, ghost after: Accounts<A>)
      requires hashes.Valid() && hashes.ledgerDepth == depth && CacheOk(hashes.matrix, hashes.hasher, before, depth)
      requires LeavesFilled(hashes.matrix, before, depth) && |addr| == depth && SameExcept(before, after, ToIndex(addr))
      modifies hashes
      ensures hashes.Valid() && CacheOk(hashes.matrix, hashes.hasher, after, depth)
      ensures LeavesFilled(hashes.matrix, after, depth) && hashes.matrix.Keys <= old(hashes.matrix.Keys)
    {
      hide CacheOk, SameExcept, LeavesFilled;
      FromToIndex(addr);
      InvalidationKeepsLeaves(hashes.matrix, before, after, depth, addr);
      InvalidationSuffices(hashes.matrix, hashes.hasher, before, after, depth, addr);
      hashes.InvalidateHashes(ToIndex(addr));
    }

    method Set(addr: Address, account: A)
      requires Valid() && |addr| == depth
      modifies this, hashes
      ensures Valid() && accounts == PutAt(old(accounts), ToIndex(addr), Some(account))
      ensures idToAddr == Reindexed(old(accounts), old(idToAddr), idOf, addr, account)
      ensures Laid() == AfterSet(old(Laid()), addr)
      ensures Compact() <==> old(Compact()) || ToIndex(addr) + 1 >= |old(accounts)|
    {
      hide CacheOk, Located, Filled, TrueHash, ToIndex, LeavesFilled, UsedUpTo, SameExcept, EmptyHash, ToLinearIndex;
      hide PutAt, Reindexed;
      var index := ToIndex(addr);
      PutAtAt(accounts, index, Some(account));
      SetKeepsLocated(accounts, idToAddr, depth, idOf, addr, account);
      SetLaysOut(accounts, lastLocation, addr, account);
      SetCompactIff(Laid(), addr);
      InvalidateFor(addr, accounts, PutAt(accounts, index, Some(account)));
      PutAccount(addr, account);
    }

    /** What `set` does to the fields besides the hashes. */
    method PutAccount(addr: Address, account: A)
      modifies this
      ensures accounts == PutAt(old(accounts), ToIndex(addr), Some(account))
      ensures idToAddr == Reindexed(old(accounts), old(idToAddr), idOf, addr, account)
      ensures Laid() == AfterSet(old(Laid()), addr)
      ensures naccounts == old(naccounts) + if At(old(accounts), ToIndex(addr)).Some? then 0 else 1
    {
      hide ToIndex;
      var index := ToIndex(addr);
      var replaced := At(accounts, index);
      accounts := Resized(accounts, index + 1);
      if replaced.Some? {
        idToAddr := idToAddr - {idOf(replaced.value)};
      } else {
        naccounts := naccounts + 1;
      }
      idToAddr := idToAddr[idOf(account) := addr];
      accounts := accounts[index := Some(account)];
      if lastLocation.None? || ToIndex(lastLocation.value) < index {
        lastLocation := Some(addr);
      }
    }

    /** The source asserts, before it pushes an account, that the accounts end at the last location. */
    method GetOrCreateAccount(accountId: I, account: A) returns (r: Option<GetOrCreated>)
      requires Valid() && idOf(account) == accountId
      requires accountId !in idToAddr && EndOf(lastLocation) < Pow2(depth) ==> Compact()
      modifies this, hashes
      ensures Valid() && (Compact() <==> old(Compact()))
      ensures r == if accountId in old(idToAddr) then Some(Existed(old(idToAddr)[accountId]))
                   else if EndOf(old(lastLocation)) < Pow2(depth) then Some(Added(FromIndex(|old(accounts)|, depth)))
                   else None
      ensures r.Some? && r.value.Added? ==>
        && accounts == old(accounts) + [Some(account)] && idToAddr == old(idToAddr)[accountId := r.value.addr]
        && Laid() == AfterPush(old(Laid()), r.value.addr) && hashes.matrix.Keys <= old(hashes.matrix.Keys)
      ensures !(r.Some? && r.value.Added?) ==> unchanged(this) && unchanged(hashes)
    {
      hide CacheOk, Filled, TrueHash, ToIndex, Located, Pow2, LeavesFilled;
      if accountId in idToAddr {
        return Some(Existed(idToAddr[accountId]));
      }
      FreeLocationIs(lastLocation, depth);
      var location := FreeLocation(lastLocation, depth);
      if location.None? {
        return None;
      }
      Push(accountId, account, location.value);
      r := Some(Added(location.value));
    }

    method Push(accountId: I, account: A, location: Address)
      requires Valid() && |location| == depth && ToIndex(location) == |accounts| && idOf(account) == accountId
      requires accountId !in idToAddr && UsedUpTo(accounts, Some(location))
      modifies this, hashes
      ensures Valid() && accounts == old(accounts) + [Some(account)] && idToAddr == old(idToAddr)[accountId := location]
      ensures lastLocation == Some(location) && hashes.matrix.Keys <= old(hashes.matrix.Keys)
    {
      hide CacheOk, Filled, TrueHash, ToIndex, LeavesFilled;
      ghost var put := PutAt(accounts, |accounts|, Some(account));
      PutAtAt(accounts, |accounts|, Some(account));
      assert put == accounts + [Some(account)];
      SetKeepsLocated(accounts, idToAddr, depth, idOf, location, account);
      FilledResized(accounts, |accounts| + 1);
      FilledUpdate(Resized(accounts, |accounts| + 1), |accounts|, Some(account));
      accounts := accounts + [Some(account)];
      lastLocation := Some(location);
      naccounts := naccounts + 1;
      idToAddr := idToAddr[accountId := location];
      InvalidateFor(location, old(accounts), put);
    }

    /** One turn of the loop in `remove_accounts`. */
    method RemoveAt(addr: Address)
      requires Valid() && |addr| == depth && ToIndex(addr) < |accounts| && accounts[ToIndex(addr)].Some?
      requires idOf(accounts[ToIndex(addr)].value) !in idToAddr
      modifies this, hashes
      ensures Valid() && accounts == old(accounts)[ToIndex(addr) := None] && idToAddr == old(idToAddr)
      ensures lastLocation == if old(lastLocation) == Some(addr) then Prev(addr) else old(lastLocation)
    {
      hide CacheOk, Filled, TrueHash, ToIndex, LeavesFilled, Located, UsedUpTo, Prev;
      var index := ToIndex(addr);
      FilledUpdate(accounts, index, None);
      EmptyKeepsLocated(accounts, idToAddr, depth, idOf, index);
      EmptyKeepsUsed(accounts, lastLocation, addr);
      InvalidateFor(addr, accounts, accounts[index := None]);
      var account := accounts[index].value;
      accounts := accounts[index := None];
      idToAddr := idToAddr - {idOf(account)};
      assert idToAddr == old(idToAddr);
      naccounts := naccounts - 1;
      if lastLocation == Some(addr) {
        lastLocation := Prev(addr);
      }
    }

    /** The ids must be indexed and distinct: the source unwraps each lookup. */
    method RemoveAccounts(ids: seq<I>)
      requires Valid() && (forall i :: 0 <= i < |ids| ==> ids[i] in idToAddr)
      requires forall i, j :: 0 <= i < j < |ids| ==> ids[i] != ids[j]
      modifies this, hashes
      ensures Valid() && idToAddr == old(idToAddr) - IdsOf(ids)
      ensures Emptied(old(accounts), accounts, PlacesOf(ids, old(idToAddr)))
      ensures Laid() == AfterRemove(old(Laid()), PlacesOf(ids, old(idToAddr)))
      ensures Compact() <==>
        old(Compact()) && !(old(lastLocation).Some? && old(lastLocation).value in PlacesOf(ids, old(idToAddr)))
    {
      hide CacheOk, Filled, TrueHash, ToIndex, Located, IdsOf, PlacesOf, LastKept, LeavesFilled;
      var addrs := TakeLocations(ids);
      RemoveCompactIff(Laid(), addrs);
      RemoveAll(addrs);
    }

    method TakeLocations(ids: seq<I>) returns (addrs: set<Address>)
      requires Valid() && (forall i :: 0 <= i < |ids| ==> ids[i] in idToAddr)
      requires forall i, j :: 0 <= i < j < |ids| ==> ids[i] != ids[j]
      modifies this`idToAddr
      ensures Valid() && Pending(accounts, idToAddr, depth, idOf, addrs)
      ensures idToAddr == old(idToAddr) - IdsOf(ids) && addrs == PlacesOf(ids, old(idToAddr))
    {
      hide CacheOk, Filled, TrueHash, ToIndex, Located, Pending, IdsOf, PlacesOf, UsedUpTo, LeavesFilled;
      assert IdsOf(ids[..0]) == {} && PlacesOf(ids[..0], idToAddr) == {} by { NoIds(ids[..0], idToAddr); }
      addrs := {};
      assert Pending(accounts, idToAddr, depth, idOf, addrs) by { NonePending(accounts, idToAddr, depth, idOf); }
      for k := 0 to |ids|
        invariant Valid() && Pending(accounts, idToAddr, depth, idOf, addrs)
        invariant idToAddr == old(idToAddr) - IdsOf(ids[..k]) && addrs == PlacesOf(ids[..k], old(idToAddr))
      {
        IdsStep(ids, old(idToAddr), k);
        PendingTake(accounts, idToAddr, depth, idOf, addrs, ids[k]);
        addrs := addrs + {idToAddr[ids[k]]};
        idToAddr := idToAddr - {ids[k]};
      }
      assert ids[..|ids|] == ids;
    }

    method RemoveAll(addrs: set<Address>)
      requires Valid() && Pending(accounts, idToAddr, depth, idOf, addrs)
      modifies this, hashes
      ensures Valid() && idToAddr == old(idToAddr) && Emptied(old(accounts), accounts, addrs)
      ensures lastLocation == LastKept(old(lastLocation), addrs)
    {
      hide CacheOk, Filled, TrueHash, ToIndex, Located, Emptied, LastKept, UsedUpTo, HashesOk;
      var pending, done := addrs, {};
      EmptiedNone(accounts, lastLocation);
      while pending != {}
        invariant done + pending == addrs && done !! pending && Valid() && idToAddr == old(idToAddr)
        invariant Pending(accounts, idToAddr, depth, idOf, pending) && Emptied(old(accounts), accounts, done)
        invariant lastLocation == LastKept(old(lastLocation), done)
        invariant forall g, p :: g in done && p in pending ==> ToIndex(g) > ToIndex(p)
      {
        var addr := Greatest(pending);
        EmptiedStep(old(accounts), accounts, done, addr);
        LastKeptStep(old(lastLocation), done, addr);
        PendingRemove(accounts, idToAddr, depth, idOf, pending, addr);
        GreatestIsStrict(pending, addr, depth);
        RemoveAt(addr);
        pending, done := pending - {addr}, done + {addr};
      }
      assert done == addrs;
    }

    // ----- Hashes

    /** The account's hash, cached from now on; None exactly for an empty leaf whose hash is not cached. */
    method GetAccountHash(addr: Address) returns (r: Option<Fp>)
      requires Sized() && |addr| == depth
      modifies hashes
      ensures Sized()
      ensures ToLinearIndex(addr) in old(hashes.matrix) ==> r == Some(old(hashes.matrix)[ToLinearIndex(addr)])
      ensures ToLinearIndex(addr) !in old(hashes.matrix) ==> r.Some? == At(accounts, ToIndex(addr)).Some?
      ensures ToLinearIndex(addr) !in old(hashes.matrix) && r.Some? ==>
        r.value == LeafHashAt(hashes.hasher, accounts, addr)
      ensures hashes.matrix ==
        if r.Some? then old(hashes.matrix)[ToLinearIndex(addr) := r.value] else old(hashes.matrix)
      ensures old(HashesOk()) ==> HashesOk() && (r.None? <==> At(accounts, ToIndex(addr)).None?)
      ensures old(HashesOk()) && r.Some? ==> r.value == TrueHash(hashes.hasher, accounts, depth, addr)
    {
      hide ToIndex, ToLinearIndex, EmptyHash;
      var cached := hashes.Get(addr);
      if cached.Some? {
        return cached;
      }
      var account := At(accounts, ToIndex(addr));
      if account.None? {
        return None;
      }
      r := Some(hashes.hasher.leaf(account.value));
      if HashesOk() {
        SetKeepsCacheOk(hashes.matrix, hashes.hasher, accounts, depth, addr);
        SetKeepsLeaves(hashes.matrix, accounts, depth, addr, r.value);
      }
      hashes.Set(addr, r.value);
    }

    /** The hash of a leaf on a walk. */
    method LeafHash(addr: Address, ghost w: Walk<A>) returns (hash: Fp)
      requires Sized() && |addr| == depth && 1 <= depth && IsWalk(w)
      modifies hashes
      ensures Sized() && hash == Walked(w, old(hashes.matrix), addr)
      ensures Grown(w, old(hashes.matrix), hashes.matrix, depth, {addr})
      ensures old(HashesOk()) ==> HashesOk() && hash == TrueHash(hashes.hasher, accounts, depth, addr)
    {
      hide ToIndex, ToLinearIndex, CacheOk, LeavesFilled, Before;
      ghost var m := hashes.matrix;
      GrownNot(w, m, depth, {addr});
      if ToLinearIndex(addr) !in m && At(accounts, ToIndex(addr)).Some? {
        GrownNot(w, m, depth, {});
        GrownBy(w, m, m, addr);
      }
      var r := GetAccountHash(addr);
      if r.Some? {
        return r.value;
      }
      hash := hashes.EmptyHashAtHeight(0);
    }

    /** What a subtree hashes to from its children's hashes, unless it is cached already. */
    method NodeHash(addr: Address, left: Fp, right: Fp) returns (hash: Fp)
      requires Sized() && |addr| < depth
      modifies hashes
      ensures Sized() && hashes.matrix == old(hashes.matrix)[ToLinearIndex(addr) := hash]
      ensures hash == if ToLinearIndex(addr) in old(hashes.matrix) then old(hashes.matrix)[ToLinearIndex(addr)]
        else hashes.hasher.node(depth - |addr| - 1, left, right)
      ensures old(HashesOk())
        && left == TrueHash(hashes.hasher, accounts, depth, addr + [false])
        && right == TrueHash(hashes.hasher, accounts, depth, addr + [true])
        ==> HashesOk() && hash == TrueHash(hashes.hasher, accounts, depth, addr)
    {
      hide ToIndex, ToLinearIndex, EmptyHash;
      var cached := hashes.Get(addr);
      if cached.Some? {
        return cached.value;
      }
      hash := hashes.hasher.node(depth - |addr| - 1, left, right);
      if HashesOk() {
        SetKeepsCacheOk(hashes.matrix, hashes.hasher, accounts, depth, addr);
        SetKeepsLeaves(hashes.matrix, accounts, depth, addr, hash);
      }
      hashes.Set(addr, hash);
    }

    /** The last filled leaf, or the first one. */
    function LastAccount(): (last: Address)
      requires AccountsOk()
      reads this
      ensures |last| == depth && UsedUpTo(accounts, Some(last))
    {
      if lastLocation.Some? then lastLocation.value else FromIndex(0, depth)
    }

    ghost predicate IsWalk(w: Walk<A>)
      reads this
    {
      WalkOk(w) && w.h == hashes.hasher && w.accounts == accounts && w.depth == depth <= EMPTY_HEIGHTS
    }

    /**
     Whatever is cached and stored behind the address, the result is the hash that the walk gives and
     the cache grows by hashes of the walk.
     */
    method EmulateTreeRecursive(r: Raw, last: Address, ghost w: Walk<A>) returns (hash: Fp)
      requires Sized() && 1 <= depth && IsWalk(w) && OnWalk(w, r) && w.last == last
      modifies hashes
      ensures Sized() && hash == Walked(w, old(hashes.matrix), Bits(r))
      ensures Grown(w, old(hashes.matrix), hashes.matrix, r.length, {Bits(r)})
      ensures r.length < depth ==> hashes.Get(Bits(r)) == Some(hash)
      decreases depth - r.length, 1
    {
      hide ToIndex, ToLinearIndex, Walked, ChildWalked, Grown, NodeAt, CacheOk, LeavesFilled, TrueHash;
      if r.length == depth {
        hash := LeafHash(Bits(r), w);
        return;
      }
      ghost var m := hashes.matrix;
      ChildrenOnWalk(w, r);
      var left := ChildHash(ChildLeftRaw(r), last, w);
      ghost var m' := hashes.matrix;
      var right := ChildHash(ChildRightRaw(r), last, w);
      ghost var m'' := hashes.matrix;
      hash := NodeHash(Bits(r), left, right);
      NodeWalked(w, m, m', m'', Bits(r), left, right, hash);
    }

    method ChildHash(r: Raw, last: Address, ghost w: Walk<A>) returns (hash: Fp)
      requires Sized() && IsWalk(w) && OnWalk(w, r) && w.last == last && 0 < r.length
      modifies hashes
      ensures Sized() && hash == ChildWalked(w, old(hashes.matrix), Bits(r))
      ensures Grown(w, old(hashes.matrix), hashes.matrix, r.length, {})
      decreases depth - r.length, 2
    {
      hide ToIndex, ToLinearIndex, Walked, Grown, Before, NodeAt;
      ghost var m := hashes.matrix;
      var cached := hashes.Get(Bits(r));
      GrownNot(w, m, r.length, {});
      if cached.Some? {
        hash := cached.value;
      } else if Before(Bits(r), last) {
        hash := EmulateTreeRecursive(r, last, w);
        GrownShorter(w, m, hashes.matrix, r.length, r.length, {Bits(r)});
      } else {
        hash := hashes.EmptyHashAtHeight(depth - r.length);
      }
    }

    ghost function WalkFrom(r: Raw): Walk<A>
      requires AccountsOk()
      reads this
    {
      Walk(hashes.hasher, accounts, depth, LastAccount(), r.inner)
    }

    /**
     `emulate_tree_to_get_hash_at`: the true hash of the subtree if the bits stored behind the address
     are clear, and a wrong hash always spoils the cache.
     */
    method GetInnerHashAtAddr(r: Raw) returns (hash: Fp)
      requires AccountsOk() && Sized() && depth <= EMPTY_HEIGHTS && Fits(r, depth)
      modifies hashes
      ensures Sized() && hash == Walked(WalkFrom(r), old(hashes.matrix), Bits(r))
      ensures Grown(WalkFrom(r), old(hashes.matrix), hashes.matrix, r.length, {Bits(r)})
      ensures old(HashesOk()) && ClearFrom(r.inner, r.length, depth) ==>
        Valid() && hash == TrueHash(hashes.hasher, accounts, depth, Bits(r))
      ensures r.length < depth ==> hashes.Get(Bits(r)) == Some(hash)
      ensures r.length < depth && hash != TrueHash(hashes.hasher, accounts, depth, Bits(r)) ==>
        !CacheOk(hashes.matrix, hashes.hasher, accounts, depth)
    {
      hide ToIndex, ToLinearIndex, UsedUpTo, TrueHash, Located, Filled;
      var cached := hashes.Get(Bits(r));
      if cached.Some? {
        return cached.value;
      }
      var last := LastAccount();
      ghost var w, m := WalkFrom(r), hashes.matrix;
      assert r.inner == Bits(r) + r.inner[r.length..];
      hash := EmulateTreeRecursive(r, last, w);
      if LeavesFilled(m, accounts, depth) {
        WalkKeepsLeaves(w, m, hashes.matrix, r.length, {Bits(r)});
      }
      if CacheOk(m, w.h, accounts, depth) && ClearFrom(r.inner, r.length, depth) {
        WalkedIsTrue(w, m, Bits(r));
        ClearWalkKeepsCache(w, m, hashes.matrix, r.length, {Bits(r)});
      }
    }

    /** The root's address has nothing set behind it, so with a right cache the root hash is the true one. */
    method MerkleRoot() returns (hash: Fp)
      requires AccountsOk() && Sized() && depth <= EMPTY_HEIGHTS
      modifies hashes
      ensures Sized()
      ensures hash == Walked(WalkFrom(Raw(Fill(ADDRESS_BITS, false), 0)), old(hashes.matrix), [])
      ensures old(HashesOk()) ==> Valid() && hash == TrueHash(hashes.hasher, accounts, depth, [])
      ensures hash != TrueHash(hashes.hasher, accounts, depth, []) ==>
        !CacheOk(hashes.matrix, hashes.hasher, accounts, depth)
    {
      hide CacheOk, Walked, Grown, TrueHash, Located, Filled, UsedUpTo, LeavesFilled, ToIndex;
      hash := GetInnerHashAtAddr(Raw(Fill(ADDRESS_BITS, false), 0));
    }

    // ----- Merkle paths

    /** Nothing is used from here on, so the hash is that of an empty subtree. */
    method EmptySubtree(addr: Address, last: Address) returns (hash: Fp)
      requires HashesOk() && 0 < |addr| <= depth == |last| && depth <= EMPTY_HEIGHTS
      requires UsedUpTo(accounts, Some(last)) && !Before(addr, last)
      modifies hashes
      ensures HashesOk() && hash == TrueHash(hashes.hasher, accounts, depth, addr)
    {
      hide CacheOk, ToIndex, UsedUpTo;
      NothingRightOf(accounts, depth, addr, last);
      EmptySubtreeHash(hashes.hasher, accounts, depth, addr);
      hash := hashes.EmptyHashAtHeight(depth - |addr|);
    }

    /**
     Goes down the path to its end, then collects the siblings on the way back up. It starts at the
     root's address of zeros, so by `ChildrenClean` all addresses on the way are what their bits say.
     */
    method EmulateTreeToGetPath(addr: Address, last: Address, path: Address, merklePath: seq<PathStep>)
      returns (hash: Fp, rest: Address, steps: seq<PathStep>)
      requires HashesOk() && 1 <= depth <= EMPTY_HEIGHTS && |addr| + |path| <= depth == |last|
      requires UsedUpTo(accounts, Some(last))
      modifies hashes
      ensures HashesOk() && hash == TrueHash(hashes.hasher, accounts, depth, addr)
      ensures rest == [] && steps == merklePath + Siblings(hashes.hasher, accounts, depth, addr, path)
      decreases depth - |addr|, 1
    {
      hide CacheOk, LeavesFilled, ToIndex, UsedUpTo, TrueHash, Walked, Grown;
      rest, steps := path, merklePath;
      if |addr| == depth {
        hash := LeafHash(addr, Walk(hashes.hasher, accounts, depth, last, Fill(ADDRESS_BITS, false)));
        return;
      }
      if path != [] {
        var below;
        below, rest, steps := EmulateTreeToGetPath(addr + [path[0]], last, path[1..], steps);
      }
      var left, right;
      left, rest, steps := PathChildHash(addr + [false], last, rest, steps);
      right, rest, steps := PathChildHash(addr + [true], last, rest, steps);
      if path != [] {
        steps := steps + [if path[0] then PathStep.Right(left) else PathStep.Left(right)];
      }
      hash := NodeHash(addr, left, right);
    }

    method PathChildHash(addr: Address, last: Address, path: Address, merklePath: seq<PathStep>)
      returns (hash: Fp, rest: Address, steps: seq<PathStep>)
      requires HashesOk() && 0 < |addr| <= depth == |last| && depth <= EMPTY_HEIGHTS && path == []
      requires UsedUpTo(accounts, Some(last))
      modifies hashes
      ensures HashesOk() && hash == TrueHash(hashes.hasher, accounts, depth, addr)
      ensures rest == path && steps == merklePath
      decreases depth - |addr|, 2
    {
      hide ToIndex, ToLinearIndex, UsedUpTo, TrueHash;
      rest, steps := path, merklePath;
      var cached := hashes.Get(addr);
      if cached.Some? {
        hash := cached.value;
      } else if Before(addr, last) {
        hash, rest, steps := EmulateTreeToGetPath(addr, last, rest, steps);
      } else {
        hash := EmptySubtree(addr, last);
      }
    }

    /** The path of a leaf carries its hash to the Merkle root. */
    method MerklePath(addr: Address) returns (steps: seq<PathStep>)
      requires Valid() && |addr| <= depth <= EMPTY_HEIGHTS
      modifies hashes
      ensures Valid() && steps == Siblings(hashes.hasher, accounts, depth, [], addr)
      ensures |addr| == depth ==>
        ImpliedRoot(hashes.hasher, TrueHash(hashes.hasher, accounts, depth, addr), steps)
        == TrueHash(hashes.hasher, accounts, depth, [])
    {
      hide ToIndex, TrueHash, Located, Filled, HashesOk, Siblings, ImpliedRoot;
      var last := LastAccount();
      var hash, rest;
      hash, rest, steps := EmulateTreeToGetPath([], last, addr, []);
      ghost var siblings := Siblings(hashes.hasher, accounts, depth, [], addr);
      assert [] + siblings == siblings;
      if |addr| == depth {
        PathLeadsToRoot(hashes.hasher, accounts, depth, [], addr);
        assert [] + addr == addr;
      }
    }
  }

  /** Creating one account and removing it: the leaf is free and no id is known, yet the assertion would fail. */
  method RemovalBlocksCreation<A, I(==)>(depth: nat, hasher: Hasher<A>, idOf: A -> I, account: A)
    returns (db: Database<A, I>)
    requires 1 <= depth < 0xfe
    ensures db.Valid() && db.idToAddr == map[] && EndOf(db.lastLocation) == 0 < Pow2(db.depth) && !db.Compact()
  {
    hide CacheOk, TrueHash, Filled, Located, LeavesFilled, UsedUpTo, ToIndex;
    db := new Database(depth, hasher, idOf);
    var id, first := idOf(account), FromIndex(0, depth);
    var r := db.GetOrCreateAccount(id, account);
    assert db.idToAddr == map[id := first];
    RemoveOnly(id, first);
    ToFromIndex(0, depth);
    db.RemoveAccounts([id]);
  }

  method TwoAccounts<A, I(==)>(hasher: Hasher<A>, idOf: A -> I, x: A, y: A) returns (db: Database<A, I>)
    requires idOf(x) != idOf(y)
    ensures fresh(db) && fresh(db.hashes) && db.Valid() && db.depth == 1 && db.hashes.hasher == hasher
    ensures db.accounts == [Some(x), Some(y)] && db.hashes.matrix == map[]
  {
    hide CacheOk, Filled, Located, LeavesFilled, UsedUpTo, ToIndex, TrueHash;
    db := new Database(1, hasher, idOf);
    assert Pow2(1) == 2 * Pow2(0) == 2;
    var first := db.GetOrCreateAccount(idOf(x), x);
    ToFromIndex(0, 1);
    var second := db.GetOrCreateAccount(idOf(y), y);
  }

  lemma DirtyRootWalk<A(!new)>(w: Walk<A>, x: A, y: A)
    requires NodeInjective(w.h) && w.h.leaf(x) != w.h.leaf(y) && w.accounts == [Some(x), Some(y)] && w.depth == 1
    requires |w.last| == 1 && w.buffer == [true] + Fill(7, false) && UsedUpTo(w.accounts, Some(w.last))
    ensures Walked(w, map[], []) != TrueHash(w.h, w.accounts, 1, [])
  {
    hide RawHash, TrueHash, Walked, ChildWalked, UsedUpTo, NodeInjective;
    var dirty := Raw(w.buffer, 0);
    WalkedIsRaw(w, dirty);
    DirtyRootHash(w.h, x, y, dirty);
  }

  /**
   Two accounts at depth one. Asked for the root by an address with its first bit set, the database
   answers a wrong hash, and gives that hash as its root from then on.
   */
  method DirtyAddressSpoilsRoot<A(!new), I(==)>(hasher: Hasher<A>, idOf: A -> I, x: A, y: A)
    returns (db: Database<A, I>, asked: Fp, root: Fp)
    requires NodeInjective(hasher) && hasher.leaf(x) != hasher.leaf(y) && idOf(x) != idOf(y)
    ensures db.AccountsOk() && db.depth == 1 && db.hashes.hasher == hasher && db.accounts == [Some(x), Some(y)]
    ensures asked == root != TrueHash(hasher, db.accounts, 1, []) && !CacheOk(db.hashes.matrix, hasher, db.accounts, 1)
  {
    hide CacheOk, Filled, Located, LeavesFilled, UsedUpTo, ToIndex, TrueHash, Walked, Grown, NodeInjective;
    db := TwoAccounts(hasher, idOf, x, y);
    var dirty := Raw([true] + Fill(7, false), 0);
    DirtyRootWalk(db.WalkFrom(dirty), x, y);
    asked := db.GetInnerHashAtAddr(dirty);
    WalkedCached(db.WalkFrom(Raw(Fill(ADDRESS_BITS, false), 0)), db.hashes.matrix, []);
    root := db.MerkleRoot();
  }

  lemma RemoveOnly<I>(id: I, first: Address)
    ensures map[id := first] - IdsOf([id]) == map[] && PlacesOf([id], map[id := first]) == {first}
    ensures ToIndex(first) == 0 ==> LastKept(Some(first), {first}) == None
  {
    PrevIndex(first);
    assert [id][0] == id;
  }
}
