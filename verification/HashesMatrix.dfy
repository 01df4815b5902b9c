/** The cache of Merkle hashes. */
module HashesMatrices {
  import opened Commands
  import opened MerkleTree

  /** The precomputed empty hashes reach up to this height, exclusive. */
  const EMPTY_HEIGHTS: nat := 36

  /** Every cached hash is the true one of its subtree. */
  ghost predicate CacheOk<A>(matrix: map<nat, Fp>, h: Hasher<A>, accounts: Accounts<A>, depth: nat) {
    forall addr: Address :: |addr| <= depth && ToLinearIndex(addr) in matrix ==>
      matrix[ToLinearIndex(addr)] == TrueHash(h, accounts, depth, addr)
  }

  /** The slots of the path from a leaf to the root. */
  ghost function PathSlots(leaf: Address): set<nat> {
    {ToLinearIndex(leaf)} + if leaf == [] then {} else PathSlots(leaf[..|leaf| - 1])
  }

  lemma {:induction false} OnPathIff(leaf: Address, addr: Address)
    ensures ToLinearIndex(addr) in PathSlots(leaf) <==> addr <= leaf
  {
    if ToLinearIndex(addr) == ToLinearIndex(leaf) {
      LinearIndexInjective(addr, leaf);
    } else if leaf != [] {
      var parent := leaf[..|leaf| - 1];
      OnPathIff(parent, addr);
      assert addr <= leaf && |addr| == |leaf| ==> addr == leaf;
      assert addr <= leaf && |addr| < |leaf| ==> addr <= parent;
    }
  }

  /** Dropping the path of a changed leaf makes the cache right for the new ledger. */
  lemma InvalidationSuffices<A>(
      matrix: map<nat, Fp>, h: Hasher<A>, a: Accounts<A>, b: Accounts<A>, depth: nat, leaf: Address)
    requires |leaf| == depth && CacheOk(matrix, h, a, depth) && SameExcept(a, b, ToIndex(leaf))
    ensures CacheOk(matrix - PathSlots(leaf), h, b, depth)
  {
    var kept := matrix - PathSlots(leaf);
    forall addr: Address | |addr| <= depth && ToLinearIndex(addr) in kept
      ensures kept[ToLinearIndex(addr)] == TrueHash(h, b, depth, addr)
    {
      OnPathIff(leaf, addr);
      HashOffPath(h, a, b, depth, addr, leaf);
    }
  }

  /** Of the leaves only those with an account are cached. */
  ghost predicate LeavesFilled<A>(matrix: map<nat, Fp>, accounts: Accounts<A>, depth: nat) {
    forall addr: Address :: |addr| == depth && ToLinearIndex(addr) in matrix ==> At(accounts, ToIndex(addr)).Some?
  }

  lemma InvalidationKeepsLeaves<A>(matrix: map<nat, Fp>, a: Accounts<A>, b: Accounts<A>, depth: nat, leaf: Address)
    requires |leaf| == depth && LeavesFilled(matrix, a, depth) && SameExcept(a, b, ToIndex(leaf))
    ensures LeavesFilled(matrix - PathSlots(leaf), b, depth)
  {
    forall addr: Address | |addr| == depth && ToLinearIndex(addr) in matrix - PathSlots(leaf)
      ensures At(b, ToIndex(addr)).Some?
    {
      OnPathIff(leaf, addr);
      if ToIndex(addr) == ToIndex(leaf) { SameIndex(addr, leaf); }
    }
  }

  lemma SetKeepsLeaves<A>(matrix: map<nat, Fp>, accounts: Accounts<A>, depth: nat, addr: Address, hash: Fp)
    requires |addr| <= depth && LeavesFilled(matrix, accounts, depth)
    requires |addr| == depth ==> At(accounts, ToIndex(addr)).Some?
    ensures LeavesFilled(matrix[ToLinearIndex(addr) := hash], accounts, depth)
  {
    var larger := matrix[ToLinearIndex(addr) := hash];
    forall other: Address | |other| == depth && ToLinearIndex(other) in larger
      ensures At(accounts, ToIndex(other)).Some?
    {
      if ToLinearIndex(other) == ToLinearIndex(addr) { LinearIndexInjective(other, addr); }
    }
  }

  lemma SetKeepsCacheOk<A>(matrix: map<nat, Fp>, h: Hasher<A>, accounts: Accounts<A>, depth: nat, addr: Address)
    requires |addr| <= depth && CacheOk(matrix, h, accounts, depth)
    ensures CacheOk(matrix[ToLinearIndex(addr) := TrueHash(h, accounts, depth, addr)], h, accounts, depth)
  {
    var larger := matrix[ToLinearIndex(addr) := TrueHash(h, accounts, depth, addr)];
    forall other: Address | |other| <= depth && ToLinearIndex(other) in larger
      ensures larger[ToLinearIndex(other)] == TrueHash(h, accounts, depth, other)
    {
      if ToLinearIndex(other) == ToLinearIndex(addr) { LinearIndexInjective(other, addr); }
    }
  }

  /** Two caches that are right for the same ledger can be merged. */
  lemma TransferKeepsCacheOk<A>(m: map<nat, Fp>, n: map<nat, Fp>, h: Hasher<A>, accounts: Accounts<A>, depth: nat)
    requires CacheOk(m, h, accounts, depth) && CacheOk(n, h, accounts, depth)
    ensures CacheOk(m + n, h, accounts, depth)
  {
  }

  lemma InsertSize<K, V>(m: map<K, V>, k: K, v: V)
    ensures |m[k := v]| == |m| + if k in m then 0 else 1
  {
    assert m[k := v].Keys == m.Keys + {k};
  }

  lemma RemoveSize<K, V>(m: map<K, V>, k: K)
    ensures |m - {k}| == |m| - if k in m then 1 else 0
  {
    assert (m - {k}).Keys == m.Keys - {k};
  }

  lemma MoveEntry<V>(m: map<nat, V>, rest: map<nat, V>, k: nat)
    requires k in rest
    ensures m[k := rest[k]] + (rest - {k}) == m + rest
  {
  }

  lemma DropPath<V>(m: map<nat, V>, addr: Address)
    ensures addr == [] ==> m - PathSlots(addr) == m - {ToLinearIndex(addr)}
    ensures addr != [] ==> m - PathSlots(addr) == m - {ToLinearIndex(addr)} - PathSlots(addr[..|addr| - 1])
  {
  }

  class HashesMatrix<A> {
    var matrix: map<nat, Fp>
    var emptyHashes: seq<Option<Fp>>
    const ledgerDepth: nat
    var nhashes: nat
    const hasher: Hasher<A>

    /** The counter is exact, and a remembered empty hash is the true one. */
    ghost predicate Valid()
      reads this
    {
      && nhashes == |matrix|
      && |emptyHashes| == ledgerDepth
      && forall i :: 0 <= i < |emptyHashes| && emptyHashes[i].Some? ==> emptyHashes[i].value == EmptyHash(hasher, i)
    }

    constructor (ledgerDepth: nat, hasher: Hasher<A>)
      ensures Valid() && matrix == map[] && this.ledgerDepth == ledgerDepth && this.hasher == hasher
    {
      matrix, emptyHashes, nhashes := map[], seq(ledgerDepth, _ => None), 0;
      this.ledgerDepth, this.hasher := ledgerDepth, hasher;
    }

    function Get(addr: Address): (r: Option<Fp>)
      reads this
      ensures r.Some? <==> ToLinearIndex(addr) in matrix
    {
      if ToLinearIndex(addr) in matrix then Some(matrix[ToLinearIndex(addr)]) else None
    }

    /** The source asserts that the slot is free. */
    method Set(addr: Address, hash: Fp)
      requires Valid() && ToLinearIndex(addr) !in matrix
      modifies this
      ensures Valid() && matrix == old(matrix)[ToLinearIndex(addr) := hash]
    {
      InsertSize(matrix, ToLinearIndex(addr), hash);
      matrix := matrix[ToLinearIndex(addr) := hash];
      nhashes := nhashes + 1;
    }

    method RemoveAtIndex(linear: nat)
      requires Valid()
      modifies this
      ensures Valid() && matrix == old(matrix) - {linear}
    {
      RemoveSize(matrix, linear);
      if linear in matrix {
        nhashes := nhashes - 1;
      }
      matrix := matrix - {linear};
    }

    method Remove(addr: Address)
      requires Valid()
      modifies this
      ensures Valid() && matrix == old(matrix) - {ToLinearIndex(addr)}
    {
      RemoveAtIndex(ToLinearIndex(addr));
    }

    method TransferHashes(hashes: map<nat, Fp>)
      requires Valid()
      modifies this
      ensures Valid() && matrix == old(matrix) + hashes
    {
      var rest := hashes;
      while rest.Keys != {}
        invariant Valid() && matrix + rest == old(matrix) + hashes
        decreases |rest|
      {
        hide EmptyHash;
        var index: nat :| index in rest.Keys;
        InsertSize(matrix, index, rest[index]);
        RemoveSize(rest, index);
        MoveEntry(matrix, rest, index);
        if index !in matrix {
          nhashes := nhashes + 1;
        }
        matrix, rest := matrix[index := rest[index]], rest - {index};
      }
      assert matrix + rest == matrix;
    }

    /** Removes exactly the slots from the leaf up to the root. */
    method InvalidateHashes(accountIndex: nat)
      requires Valid()
      modifies this
      ensures Valid() && matrix == old(matrix) - PathSlots(FromIndex(accountIndex, ledgerDepth))
    {
      hide *;
      ghost var target := matrix - PathSlots(FromIndex(accountIndex, ledgerDepth));
      var addr := FromIndex(accountIndex, ledgerDepth);
      while true
        invariant Valid() && matrix - PathSlots(addr) == target
        decreases |addr|
      {
        var index := ToLinearIndex(addr);
        DropPath(matrix, addr);
        RemoveAtIndex(index);
        if addr == [] {
          break;
        }
        addr := addr[..|addr| - 1];
      }
    }

    /** The hash of an empty subtree, remembered after the first time. */
    method EmptyHashAtHeight(height: nat) returns (hash: Fp)
      requires Valid() && height < ledgerDepth && height < EMPTY_HEIGHTS
      modifies this`emptyHashes
      ensures Valid() && hash == EmptyHash(hasher, height)
    {
      if emptyHashes[height].Some? {
        return emptyHashes[height].value;
      }
      hash := EmptyHash(hasher, height);
      emptyHashes := emptyHashes[height := Some(hash)];
    }

    method Clear()
      requires Valid()
      modifies this
      ensures Valid() && matrix == map[]
    {
      matrix, emptyHashes, nhashes := map[], seq(ledgerDepth, _ => None), 0;
    }
  }
}
