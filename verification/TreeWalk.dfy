/**
 Hashing the tree by stored addresses. Going down to the left keeps whatever bit is stored behind the
 address, so the tree that is walked is the one below the address only where these bits are clear.
 */
module TreeWalks {
  import opened Commands
  import opened MerkleTree
  import opened HashesMatrices
  import opened AddressBytes

  // ----- With nothing cached

  ghost predicate Fits(r: Raw, depth: nat) {
    AddressBytes.Ok(r) && r.length <= depth <= |r.inner|
  }

  /** No bit is set from `n` on, down to the leaves. */
  ghost predicate ClearFrom(inner: seq<bool>, n: nat, depth: nat)
    requires depth <= |inner|
  {
    forall i :: n <= i < depth ==> !inner[i]
  }

  ghost function LeafHashAt<A>(h: Hasher<A>, accounts: Accounts<A>, leaf: Address): Fp {
    h.leaf(match At(accounts, ToIndex(leaf)) case Some(a) => a case None => h.emptyAccount)
  }

  ghost function RawHash<A>(h: Hasher<A>, accounts: Accounts<A>, depth: nat, r: Raw): Fp
    requires Fits(r, depth)
    decreases depth - r.length
  {
    if r.length == depth then LeafHashAt(h, accounts, Bits(r))
    else
      var left := RawHash(h, accounts, depth, ChildLeftRaw(r));
      var right := RawHash(h, accounts, depth, ChildRightRaw(r));
      h.node(depth - r.length - 1, left, right)
  }

  lemma {:induction false} ClearHash<A>(h: Hasher<A>, accounts: Accounts<A>, depth: nat, r: Raw)
    requires Fits(r, depth) && ClearFrom(r.inner, r.length, depth)
    ensures RawHash(h, accounts, depth, r) == TrueHash(h, accounts, depth, Bits(r))
    decreases depth - r.length
  {
    hide ToIndex;
    if r.length < depth {
      ChildrenAre(r);
      ClearHash(h, accounts, depth, ChildLeftRaw(r));
      ClearHash(h, accounts, depth, ChildRightRaw(r));
    }
  }

  /** At depth one with a set bit behind the root the right leaf is hashed twice. */
  lemma DirtyRootHash<A(!new)>(h: Hasher<A>, x: A, y: A, r: Raw)
    requires NodeInjective(h) && h.leaf(x) != h.leaf(y) && r == Raw([true] + Fill(7, false), 0)
    ensures RawHash(h, [Some(x), Some(y)], 1, r) == h.node(0, h.leaf(y), h.leaf(y))
    ensures RawHash(h, [Some(x), Some(y)], 1, r) != TrueHash(h, [Some(x), Some(y)], 1, Bits(r))
  {
    ChildrenAre(r);
    assert Bits(ChildLeftRaw(r)) == Bits(ChildRightRaw(r)) == [true] == [] + [true];
    assert [false] == [] + [false];
    assert ToIndex([true]) == 1 && ToIndex([false]) == 0 by {
      assert [true][..0] == [] && [false][..0] == [];
    }
  }

  ghost function OnlyAt<A>(index: nat, v: A): Accounts<A> {
    seq(index, _ => None) + [Some(v)]
  }

  lemma EmptyBeside<A>(depth: nat, addr: Address, leaf: Address, v: A)
    requires |leaf| == depth && !(addr <= leaf)
    ensures EmptyBelow(OnlyAt(ToIndex(leaf), v), depth, addr)
  {
    forall other: Address | |other| == depth && addr <= other
      ensures At(OnlyAt(ToIndex(leaf), v), ToIndex(other)).None?
    {
      if ToIndex(other) == ToIndex(leaf) { SameIndex(other, leaf); }
    }
  }

  lemma {:induction false} OneAccountShows<A(!new)>(h: Hasher<A>, depth: nat, addr: Address, leaf: Address, v: A)
    requires NodeInjective(h) && h.leaf(v) != h.leaf(h.emptyAccount) && addr <= leaf && |leaf| == depth
    ensures TrueHash(h, OnlyAt(ToIndex(leaf), v), depth, addr) != EmptyHash(h, depth - |addr|)
    decreases depth - |addr|
  {
    hide ToIndex;
    if |addr| == depth {
      assert addr == leaf;
    } else {
      if leaf[|addr|] {
        OneAccountShows(h, depth, addr + [true], leaf, v);
      } else {
        OneAccountShows(h, depth, addr + [false], leaf, v);
      }
      var height := depth - |addr| - 1;
      assert EmptyHash(h, height + 1) == h.node(height, EmptyHash(h, height), EmptyHash(h, height));
    }
  }

  /** With the next bit set both children are the right one, so an account below the left one does not show. */
  lemma DirtyNode<A(!new)>(h: Hasher<A>, depth: nat, r: Raw, v: A) returns (accounts: Accounts<A>)
    requires NodeInjective(h) && h.leaf(v) != h.leaf(h.emptyAccount)
    requires Fits(r, depth) && r.length < depth && r.inner[r.length]
    ensures RawHash(h, accounts, depth, r) != TrueHash(h, accounts, depth, Bits(r))
  {
    var addr := Bits(r);
    var left, right := addr + [false], addr + [true];
    var leaf := left + Fill(depth - r.length - 1, false);
    accounts := OnlyAt(ToIndex(leaf), v);
    assert ChildLeftRaw(r) == ChildRightRaw(r);
    hide ToIndex, EmptyBelow, OnlyAt, EmptyHash, Fill;
    OneAccountShows(h, depth, left, leaf, v);
    assert leaf[r.length] != right[r.length];
    EmptyBeside(depth, right, leaf, v);
    EmptySubtreeHash(h, accounts, depth, right);
    assert TrueHash(h, accounts, depth, left) != TrueHash(h, accounts, depth, right);
  }

  /** A set bit behind the address gives some ledger a wrong hash. */
  lemma {:induction false} DirtyHash<A(!new)>(h: Hasher<A>, depth: nat, r: Raw, v: A) returns (accounts: Accounts<A>)
    requires NodeInjective(h) && h.leaf(v) != h.leaf(h.emptyAccount)
    requires Fits(r, depth) && !ClearFrom(r.inner, r.length, depth)
    ensures RawHash(h, accounts, depth, r) != TrueHash(h, accounts, depth, Bits(r))
    decreases depth - r.length
  {
    hide ToIndex;
    if r.inner[r.length] {
      accounts := DirtyNode(h, depth, r, v);
    } else {
      ChildrenAre(r);
      accounts := DirtyHash(h, depth, ChildLeftRaw(r), v);
    }
  }

  /** Nothing cached, the hash is right for every ledger exactly if nothing is set behind the address. */
  lemma RawHashRightIff<A(!new)>(h: Hasher<A>, depth: nat, r: Raw, x: A, y: A)
    requires NodeInjective(h) && h.leaf(x) != h.leaf(y) && Fits(r, depth)
    ensures (forall accounts: Accounts<A> ::
        RawHash(h, accounts, depth, r) == TrueHash(h, accounts, depth, Bits(r)))
      <==> forall i :: r.length <= i < depth ==> !r.inner[i]
  {
    hide RawHash, TrueHash;
    if ClearFrom(r.inner, r.length, depth) {
      forall accounts: Accounts<A> ensures RawHash(h, accounts, depth, r) == TrueHash(h, accounts, depth, Bits(r)) {
        ClearHash(h, accounts, depth, r);
      }
    } else {
      var spoiled := DirtyHash(h, depth, r, if h.leaf(x) == h.leaf(h.emptyAccount) then y else x);
    }
  }

  lemma {:induction false} EmptyRawHash<A>(h: Hasher<A>, accounts: Accounts<A>, depth: nat, r: Raw)
    requires Fits(r, depth) && EmptyBelow(accounts, depth, Bits(r))
    ensures RawHash(h, accounts, depth, r) == EmptyHash(h, depth - r.length)
    decreases depth - r.length
  {
    if r.length == depth {
      assert Bits(r) <= Bits(r);
    } else {
      hide ToIndex, EmptyBelow;
      var left, right := ChildLeftRaw(r), ChildRightRaw(r);
      ChildrenAre(r);
      EmptyBelowLonger(accounts, depth, Bits(r), Bits(left));
      EmptyBelowLonger(accounts, depth, Bits(r), Bits(right));
      EmptyRawHash(h, accounts, depth, left);
      EmptyRawHash(h, accounts, depth, right);
    }
  }

  lemma EmptyBelowLonger<A>(accounts: Accounts<A>, depth: nat, addr: Address, longer: Address)
    requires addr <= longer && EmptyBelow(accounts, depth, addr)
    ensures EmptyBelow(accounts, depth, longer)
  {
    forall leaf: Address | |leaf| == depth && longer <= leaf ensures At(accounts, ToIndex(leaf)).None? {
      assert addr <= leaf;
    }
  }

  // ----- With a cache

  /** What a walk does not change: `last` is the last account, `buffer` what the first address stored. */
  datatype Walk<!A> = Walk(h: Hasher<A>, accounts: Accounts<A>, depth: nat, last: Address, buffer: seq<bool>)

  ghost predicate WalkOk<A>(w: Walk<A>) {
    |w.last| == w.depth <= |w.buffer| && |w.buffer| % 8 == 0 && |w.buffer| > 0
  }

  /** `is_before` for the last account. */
  predicate Before(addr: Address, last: Address)
    requires |addr| <= |last|
  {
    ToIndex(addr) <= ToIndex(last[..|addr|])
  }

  /** The hash that the walk gives to a subtree, if the cache is `m` when the walk starts. */
  ghost function Walked<A>(w: Walk<A>, m: map<nat, Fp>, a: Address): Fp
    requires WalkOk(w) && |a| <= w.depth
    decreases w.depth - |a|, 0
  {
    if ToLinearIndex(a) in m then m[ToLinearIndex(a)]
    else if |a| == w.depth then LeafHashAt(w.h, w.accounts, a)
    else
      var left, right := ChildWalked(w, m, a + [w.buffer[|a|]]), ChildWalked(w, m, a + [true]);
      w.h.node(w.depth - |a| - 1, left, right)
  }

  ghost function ChildWalked<A>(w: Walk<A>, m: map<nat, Fp>, a: Address): Fp
    requires WalkOk(w) && |a| <= w.depth
    decreases w.depth - |a|, 1
  {
    if ToLinearIndex(a) in m then m[ToLinearIndex(a)]
    else if Before(a, w.last) then Walked(w, m, a)
    else EmptyHash(w.h, w.depth - |a|)
  }

  lemma WalkedCached<A>(w: Walk<A>, m: map<nat, Fp>, a: Address)
    requires WalkOk(w) && |a| <= w.depth && ToLinearIndex(a) in m
    ensures Walked(w, m, a) == m[ToLinearIndex(a)]
  {
  }

  /** What a walk may add to the cache: its own hashes of subtrees of length `n` or more. */
  ghost predicate Grown<A>(w: Walk<A>, m: map<nat, Fp>, m': map<nat, Fp>, n: nat, top: set<Address>)
    requires WalkOk(w)
  {
    && (forall k :: k in m ==> k in m' && m'[k] == m[k])
    && forall a: Address :: |a| <= w.depth && ToLinearIndex(a) in m' && ToLinearIndex(a) !in m ==>
      Added(w, m, m', n, top, a)
  }

  ghost predicate Added<A>(w: Walk<A>, m: map<nat, Fp>, m': map<nat, Fp>, n: nat, top: set<Address>, a: Address)
    requires WalkOk(w) && |a| <= w.depth && ToLinearIndex(a) in m'
  {
    && n <= |a| && (a in top || Before(a, w.last))
    && (|a| == w.depth ==> At(w.accounts, ToIndex(a)).Some?)
    && m'[ToLinearIndex(a)] == Walked(w, m, a)
  }

  /** What a walk has cached does not change what the rest of the walk computes. */
  lemma {:induction false} WalkedStable<A>(
      w: Walk<A>, m: map<nat, Fp>, m': map<nat, Fp>, n: nat, top: set<Address>, a: Address)
    requires WalkOk(w) && Grown(w, m, m', n, top) && |a| <= w.depth
    requires forall t :: t in top ==> |t| <= w.depth && Before(t, w.last)
    ensures Walked(w, m', a) == Walked(w, m, a) && ChildWalked(w, m', a) == ChildWalked(w, m, a)
    decreases w.depth - |a|
  {
    hide ToLinearIndex, ToIndex, Before, LeafHashAt, EmptyHash;
    if ToLinearIndex(a) in m {
    } else if ToLinearIndex(a) in m' {
      assert Added(w, m, m', n, top, a);
    } else if |a| < w.depth {
      WalkedStable(w, m, m', n, top, a + [w.buffer[|a|]]);
      WalkedStable(w, m, m', n, top, a + [true]);
    }
  }

  lemma GrownTwice<A>(
      w: Walk<A>, m: map<nat, Fp>, m': map<nat, Fp>, m'': map<nat, Fp>, n: nat)
    requires WalkOk(w) && Grown(w, m, m', n, {}) && Grown(w, m', m'', n, {})
    ensures Grown(w, m, m'', n, {})
  {
    hide ToLinearIndex, ToIndex, Before, Walked;
    forall a: Address | |a| <= w.depth && ToLinearIndex(a) in m'' && ToLinearIndex(a) !in m
      ensures Added(w, m, m'', n, {}, a)
    {
      if ToLinearIndex(a) in m' {
        assert Added(w, m, m', n, {}, a);
      } else {
        assert Added(w, m', m'', n, {}, a);
        WalkedStable(w, m, m', n, {}, a);
      }
    }
  }

  /** A hash stored for one subtree more. */
  lemma GrownBy<A>(w: Walk<A>, m: map<nat, Fp>, m': map<nat, Fp>, a: Address)
    requires WalkOk(w) && |a| <= w.depth && Grown(w, m, m', |a|, {}) && ToLinearIndex(a) !in m
    requires |a| == w.depth ==> At(w.accounts, ToIndex(a)).Some?
    ensures Grown(w, m, m'[ToLinearIndex(a) := Walked(w, m, a)], |a|, {a})
  {
    hide ToLinearIndex, ToIndex, Before, Walked;
    var larger := m'[ToLinearIndex(a) := Walked(w, m, a)];
    forall b: Address | |b| <= w.depth && ToLinearIndex(b) in larger && ToLinearIndex(b) !in m
      ensures Added(w, m, larger, |a|, {a}, b)
    {
      if ToLinearIndex(b) == ToLinearIndex(a) {
        LinearIndexInjective(b, a);
      } else {
        assert Added(w, m, m', |a|, {}, b);
      }
    }
  }

  lemma GrownShorter<A>(w: Walk<A>, m: map<nat, Fp>, m': map<nat, Fp>, n: nat, k: nat, top: set<Address>)
    requires WalkOk(w) && Grown(w, m, m', n, top) && k <= n
    requires forall t :: t in top ==> |t| <= w.depth && Before(t, w.last)
    ensures Grown(w, m, m', k, {})
  {
    hide ToLinearIndex, ToIndex, Before, Walked;
    forall a: Address | |a| <= w.depth && ToLinearIndex(a) in m' && ToLinearIndex(a) !in m
      ensures Added(w, m, m', k, {}, a)
    {
      assert Added(w, m, m', n, top, a);
    }
  }

  /** Only longer addresses were added, so this one is cached only if it was before. */
  lemma NotAddedAbove<A>(w: Walk<A>, m: map<nat, Fp>, m': map<nat, Fp>, n: nat, a: Address)
    requires WalkOk(w) && Grown(w, m, m', n, {}) && |a| < n && |a| <= w.depth
    ensures ToLinearIndex(a) in m' <==> ToLinearIndex(a) in m
  {
    hide ToLinearIndex, ToIndex, Before, Walked;
  }

  lemma GrownNot<A>(w: Walk<A>, m: map<nat, Fp>, n: nat, top: set<Address>)
    requires WalkOk(w)
    ensures Grown(w, m, m, n, top)
  {
  }

  /** One node: both children first, then the hash of the two unless the node is cached. */
  lemma NodeWalked<A>(
      w: Walk<A>, m: map<nat, Fp>, m': map<nat, Fp>, m'': map<nat, Fp>, a: Address, left: Fp, right: Fp, hash: Fp)
    requires WalkOk(w) && |a| < w.depth
    requires left == ChildWalked(w, m, a + [w.buffer[|a|]]) && Grown(w, m, m', |a| + 1, {})
    requires right == ChildWalked(w, m', a + [true]) && Grown(w, m', m'', |a| + 1, {})
    requires hash ==
      if ToLinearIndex(a) in m'' then m''[ToLinearIndex(a)] else w.h.node(w.depth - |a| - 1, left, right)
    ensures hash == Walked(w, m, a) && Grown(w, m, m''[ToLinearIndex(a) := hash], |a|, {a})
  {
    hide ToLinearIndex, ToIndex, Before, EmptyHash, LeafHashAt;
    GrownTwice(w, m, m', m'', |a| + 1);
    NotAddedAbove(w, m, m'', |a| + 1, a);
    WalkedStable(w, m, m', |a| + 1, {}, a + [true]);
    GrownShorter(w, m, m'', |a| + 1, |a|, {});
    if ToLinearIndex(a) in m {
      assert m''[ToLinearIndex(a) := hash] == m'';
      GrownTop(w, m, m'', |a|, a);
    } else {
      GrownBy(w, m, m'', a);
    }
  }

  lemma GrownTop<A>(w: Walk<A>, m: map<nat, Fp>, m': map<nat, Fp>, n: nat, a: Address)
    requires WalkOk(w) && Grown(w, m, m', n, {})
    ensures Grown(w, m, m', n, {a})
  {
    hide ToLinearIndex, ToIndex, Before, Walked;
    forall b: Address | |b| <= w.depth && ToLinearIndex(b) in m' && ToLinearIndex(b) !in m
      ensures Added(w, m, m', n, {a}, b)
    {
      assert Added(w, m, m', n, {}, b);
    }
  }

  /** With a right cache and clear bits the walk gives the true hash. */
  lemma {:induction false} WalkedIsTrue<A>(w: Walk<A>, m: map<nat, Fp>, a: Address)
    requires WalkOk(w) && |a| <= w.depth && UsedUpTo(w.accounts, Some(w.last))
    requires CacheOk(m, w.h, w.accounts, w.depth) && ClearFrom(w.buffer, |a|, w.depth)
    ensures Walked(w, m, a) == ChildWalked(w, m, a) == TrueHash(w.h, w.accounts, w.depth, a)
    decreases w.depth - |a|
  {
    hide ToLinearIndex, ToIndex, UsedUpTo, EmptyHash;
    if ToLinearIndex(a) !in m && |a| < w.depth {
      WalkedIsTrue(w, m, a + [false]);
      WalkedIsTrue(w, m, a + [true]);
    }
    if !Before(a, w.last) {
      NothingRightOf(w.accounts, w.depth, a, w.last);
      EmptySubtreeHash(w.h, w.accounts, w.depth, a);
    }
  }

  lemma ClearWalkKeepsCache<A>(w: Walk<A>, m: map<nat, Fp>, m': map<nat, Fp>, n: nat, top: set<Address>)
    requires WalkOk(w) && Grown(w, m, m', n, top) && UsedUpTo(w.accounts, Some(w.last))
    requires CacheOk(m, w.h, w.accounts, w.depth) && ClearFrom(w.buffer, n, w.depth)
    ensures CacheOk(m', w.h, w.accounts, w.depth)
  {
    hide ToLinearIndex, ToIndex, Before, Walked, TrueHash, UsedUpTo;
    forall a: Address | |a| <= w.depth && ToLinearIndex(a) in m'
      ensures m'[ToLinearIndex(a)] == TrueHash(w.h, w.accounts, w.depth, a)
    {
      if ToLinearIndex(a) !in m {
        assert Added(w, m, m', n, top, a);
        WalkedIsTrue(w, m, a);
      }
    }
  }

  lemma WalkKeepsLeaves<A>(w: Walk<A>, m: map<nat, Fp>, m': map<nat, Fp>, n: nat, top: set<Address>)
    requires WalkOk(w) && Grown(w, m, m', n, top) && LeavesFilled(m, w.accounts, w.depth)
    ensures LeavesFilled(m', w.accounts, w.depth)
  {
    hide ToLinearIndex, ToIndex, Before, Walked;
    forall a: Address | |a| == w.depth && ToLinearIndex(a) in m' ensures At(w.accounts, ToIndex(a)).Some? {
      if ToLinearIndex(a) !in m { assert Added(w, m, m', n, top, a); }
    }
  }

  /** The stored address of a subtree on the walk. */
  ghost function NodeAt<A>(w: Walk<A>, a: Address): Raw
    requires |a| <= |w.buffer|
  {
    Raw(a + w.buffer[|a|..], |a|)
  }

  ghost predicate OnWalk<A>(w: Walk<A>, r: Raw) {
    WalkOk(w) && Fits(r, w.depth) && r == NodeAt(w, Bits(r))
  }

  lemma ChildrenOnWalk<A>(w: Walk<A>, r: Raw)
    requires OnWalk(w, r) && r.length < w.depth
    ensures OnWalk(w, ChildLeftRaw(r)) && Bits(ChildLeftRaw(r)) == Bits(r) + [w.buffer[r.length]]
    ensures OnWalk(w, ChildRightRaw(r)) && Bits(ChildRightRaw(r)) == Bits(r) + [true]
  {
    var n := r.length;
    assert |r.inner| == |w.buffer| && r.inner[n] == w.buffer[n] && r.inner[n..] == w.buffer[n..];
    assert r.inner[n + 1..] == r.inner[n..][1..] == w.buffer[n..][1..] == w.buffer[n + 1..];
    assert r.inner == r.inner[..n + 1] + r.inner[n + 1..];
    var right := ChildRightRaw(r);
    assert right.inner == right.inner[..n + 1] + right.inner[n + 1..];
    assert right.inner[n + 1..] == r.inner[n + 1..];
    ChildrenAre(r);
  }

  /** With nothing cached the walk computes the hash by stored addresses. */
  lemma {:induction false} WalkedIsRaw<A>(w: Walk<A>, r: Raw)
    requires OnWalk(w, r) && UsedUpTo(w.accounts, Some(w.last))
    ensures Walked(w, map[], Bits(r)) == ChildWalked(w, map[], Bits(r)) == RawHash(w.h, w.accounts, w.depth, r)
    decreases w.depth - r.length
  {
    hide ToLinearIndex, ToIndex, UsedUpTo, EmptyHash, AddressBytes.Ok, NodeAt, LeafHashAt;
    if r.length < w.depth {
      ChildrenOnWalk(w, r);
      WalkedIsRaw(w, ChildLeftRaw(r));
      WalkedIsRaw(w, ChildRightRaw(r));
    }
    if !Before(Bits(r), w.last) {
      NothingRightOf(w.accounts, w.depth, Bits(r), w.last);
      EmptyRawHash(w.h, w.accounts, w.depth, r);
    }
  }
}
