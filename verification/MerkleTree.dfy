/** Addresses in the ledger tree, the true Merkle hash of the tree, and Merkle paths. */
module MerkleTree {
  import opened Commands
  import opened Powers

  /** A path from the root, `false` to the left. */
  type Address = seq<bool>

  type Fp = nat

  /** Hashing is a parameter: of an account, of two children at a height, and the account an empty leaf stands for. */
  datatype Hasher<!A> = Hasher(leaf: A -> Fp, node: (nat, Fp, Fp) -> Fp, emptyAccount: A)

  // ----- Addresses

  /** `to_index`: the bits as a number, the first bit highest. */
  function ToIndex(addr: Address): nat {
    if addr == [] then 0 else 2 * ToIndex(addr[..|addr| - 1]) + if addr[|addr| - 1] then 1 else 0
  }

  function ToLinearIndex(addr: Address): nat {
    Pow2(|addr|) + ToIndex(addr) - 1
  }

  /** `from_index`: the low `length` bits of the index. */
  function FromIndex(index: nat, length: nat): (addr: Address)
    ensures |addr| == length
  {
    if length == 0 then [] else FromIndex(index / 2, length - 1) + [index % 2 == 1]
  }

  /** `next`: sets the rightmost clear bit and clears what follows it. */
  function Next(addr: Address): (r: Option<Address>)
    ensures r.Some? ==> |r.value| == |addr|
  {
    if addr == [] then None
    else
      var init := addr[..|addr| - 1];
      if !addr[|addr| - 1] then Some(init + [true])
      else match Next(init)
        case None => None
        case Some(n) => Some(n + [false])
  }

  /** `prev`: clears the rightmost set bit and sets what follows it. */
  function Prev(addr: Address): (r: Option<Address>)
    ensures r.Some? ==> |r.value| == |addr|
  {
    if addr == [] then None
    else
      var init := addr[..|addr| - 1];
      if addr[|addr| - 1] then Some(init + [false])
      else match Prev(init)
        case None => None
        case Some(n) => Some(n + [true])
  }

  lemma {:induction false} IndexBound(addr: Address)
    ensures ToIndex(addr) < Pow2(|addr|)
  {
    if addr != [] { IndexBound(addr[..|addr| - 1]); }
  }

  lemma {:induction false} FromToIndex(addr: Address)
    ensures FromIndex(ToIndex(addr), |addr|) == addr
  {
    if addr != [] {
      var init := addr[..|addr| - 1];
      FromToIndex(init);
      assert ToIndex(addr) / 2 == ToIndex(init);
      assert addr == init + [addr[|addr| - 1]];
    }
  }

  lemma {:induction false} ToFromIndex(index: nat, length: nat)
    requires index < Pow2(length)
    ensures ToIndex(FromIndex(index, length)) == index
  {
    if length > 0 {
      ToFromIndex(index / 2, length - 1);
      SnocIndex(FromIndex(index / 2, length - 1), index % 2 == 1);
    }
  }

  lemma SnocIndex(addr: Address, bit: bool)
    ensures ToIndex(addr + [bit]) == 2 * ToIndex(addr) + if bit then 1 else 0
  {
    assert (addr + [bit])[..|addr|] == addr;
  }

  /** Slots number the tree level by level: the children of slot `n` have slots `2n + 1` and `2n + 2`. */
  lemma LinearIndexOfChildren(addr: Address)
    ensures ToLinearIndex([]) == 0
    ensures ToLinearIndex(addr + [false]) == 2 * ToLinearIndex(addr) + 1
    ensures ToLinearIndex(addr + [true]) == 2 * ToLinearIndex(addr) + 2
  {
    SnocIndex(addr, false);
    SnocIndex(addr, true);
  }

  /** Walking forward visits the next leaf, until the last one of the level. */
  lemma {:induction false} NextIndex(addr: Address)
    ensures Next(addr).Some? <==> ToIndex(addr) + 1 < Pow2(|addr|)
    ensures Next(addr).Some? ==> ToIndex(Next(addr).value) == ToIndex(addr) + 1
  {
    if addr != [] {
      var init := addr[..|addr| - 1];
      NextIndex(init);
      IndexBound(init);
      SnocIndex(init, true);
      if Next(init).Some? { SnocIndex(Next(init).value, false); }
    }
  }

  lemma {:induction false} PrevIndex(addr: Address)
    ensures Prev(addr).Some? <==> ToIndex(addr) > 0
    ensures Prev(addr).Some? ==> ToIndex(Prev(addr).value) == ToIndex(addr) - 1
  {
    if addr != [] {
      var init := addr[..|addr| - 1];
      PrevIndex(init);
      SnocIndex(init, false);
      if Prev(init).Some? { SnocIndex(Prev(init).value, true); }
    }
  }

  lemma SameIndex(a: Address, b: Address)
    requires |a| == |b| && ToIndex(a) == ToIndex(b)
    ensures a == b
  {
    FromToIndex(a);
    FromToIndex(b);
  }

  /** Different addresses, of whatever lengths, have different slots in the matrix. */
  lemma LinearIndexInjective(a: Address, b: Address)
    requires ToLinearIndex(a) == ToLinearIndex(b)
    ensures a == b
  {
    IndexBound(a);
    IndexBound(b);
    if |a| < |b| { Pow2Monotone(|a| + 1, |b|); }
    if |b| < |a| { Pow2Monotone(|b| + 1, |a|); }
    SameIndex(a, b);
  }

  /** An address that is to the right of another on some level stays so below. */
  lemma {:induction false} RightOfStays(a: Address, b: Address, k: nat)
    requires |a| == |b| && k <= |a| && ToIndex(a[..k]) > ToIndex(b[..k])
    ensures ToIndex(a) > ToIndex(b)
    decreases |a| - k
  {
    if k == |a| {
      assert a[..k] == a && b[..k] == b;
    } else {
      assert a[..k + 1][..k] == a[..k] && b[..k + 1][..k] == b[..k];
      RightOfStays(a, b, k + 1);
    }
  }

  // ----- The true hashes

  /** The accounts by leaf index; leaves beyond the end are empty. */
  type Accounts<A> = seq<Option<A>>

  function At<A>(accounts: Accounts<A>, index: nat): Option<A> {
    if index < |accounts| then accounts[index] else None
  }

  ghost function TrueHash<A>(h: Hasher<A>, accounts: Accounts<A>, depth: nat, addr: Address): Fp
    requires |addr| <= depth
    decreases depth - |addr|
  {
    if |addr| == depth then
      h.leaf(match At(accounts, ToIndex(addr)) case Some(a) => a case None => h.emptyAccount)
    else
      var left, right := TrueHash(h, accounts, depth, addr + [false]), TrueHash(h, accounts, depth, addr + [true]);
      h.node(depth - |addr| - 1, left, right)
  }

  /** `V2::empty_hash_at_height`. */
  function EmptyHash<A>(h: Hasher<A>, height: nat): Fp {
    if height == 0 then h.leaf(h.emptyAccount)
    else h.node(height - 1, EmptyHash(h, height - 1), EmptyHash(h, height - 1))
  }

  /** No account lies below `addr`. */
  ghost predicate EmptyBelow<A>(accounts: Accounts<A>, depth: nat, addr: Address) {
    forall leaf: Address :: |leaf| == depth && addr <= leaf ==> At(accounts, ToIndex(leaf)).None?
  }

  lemma {:induction false} EmptySubtreeHash<A>(h: Hasher<A>, accounts: Accounts<A>, depth: nat, addr: Address)
    requires |addr| <= depth && EmptyBelow(accounts, depth, addr)
    ensures TrueHash(h, accounts, depth, addr) == EmptyHash(h, depth - |addr|)
    decreases depth - |addr|
  {
    if |addr| < depth {
      EmptySubtreeHash(h, accounts, depth, addr + [false]);
      EmptySubtreeHash(h, accounts, depth, addr + [true]);
    } else {
      assert addr <= addr;
    }
  }

  /** The two ledgers differ at most in one leaf. */
  ghost predicate SameExcept<A>(a: Accounts<A>, b: Accounts<A>, index: nat) {
    forall i: nat :: i != index ==> At(a, i) == At(b, i)
  }

  /** Changing a leaf changes no hash outside the path from that leaf to the root. */
  lemma {:induction false} HashOffPath<A>(
      h: Hasher<A>, a: Accounts<A>, b: Accounts<A>, depth: nat, addr: Address, leaf: Address)
    requires |addr| <= depth == |leaf| && SameExcept(a, b, ToIndex(leaf)) && !(addr <= leaf)
    ensures TrueHash(h, a, depth, addr) == TrueHash(h, b, depth, addr)
    decreases depth - |addr|
  {
    if |addr| < depth {
      HashOffPath(h, a, b, depth, addr + [false], leaf);
      HashOffPath(h, a, b, depth, addr + [true], leaf);
    } else if ToIndex(addr) == ToIndex(leaf) {
      SameIndex(addr, leaf);
    }
  }

  /** Leaves up to the last location may be in use, none after it. */
  ghost predicate UsedUpTo<A>(accounts: Accounts<A>, last: Option<Address>) {
    forall i :: 0 <= i < |accounts| && accounts[i].Some? ==> last.Some? && i <= ToIndex(last.value)
  }

  lemma NothingRightOf<A>(accounts: Accounts<A>, depth: nat, addr: Address, last: Address)
    requires |addr| <= depth == |last| && UsedUpTo(accounts, Some(last)) && ToIndex(addr) > ToIndex(last[..|addr|])
    ensures EmptyBelow(accounts, depth, addr)
  {
    forall leaf: Address | |leaf| == depth && addr <= leaf ensures At(accounts, ToIndex(leaf)).None? {
      assert leaf[..|addr|] == addr;
      RightOfStays(leaf, last, |addr|);
    }
  }

  // ----- Merkle paths

  /** The sibling hash of one level: of the right child when going left, of the left child when going right. */
  datatype PathStep = Left(hash: Fp) | Right(hash: Fp)

  /** The siblings met going down from `addr`, the deepest first. */
  ghost function Siblings<A>(
      h: Hasher<A>, accounts: Accounts<A>, depth: nat, addr: Address, path: Address): (r: seq<PathStep>)
    requires |addr| + |path| <= depth
    ensures |r| == |path|
    decreases path
  {
    if path == [] then []
    else Siblings(h, accounts, depth, addr + [path[0]], path[1..]) + [SiblingAt(h, accounts, depth, addr, path[0])]
  }

  ghost function SiblingAt<A>(h: Hasher<A>, accounts: Accounts<A>, depth: nat, addr: Address, right: bool): PathStep
    requires |addr| < depth
  {
    if right then PathStep.Right(TrueHash(h, accounts, depth, addr + [false]))
    else PathStep.Left(TrueHash(h, accounts, depth, addr + [true]))
  }

  function StepUp<A>(h: Hasher<A>, height: nat, hash: Fp, step: PathStep): Fp {
    match step
    case Left(right) => h.node(height, hash, right)
    case Right(left) => h.node(height, left, hash)
  }

  /** `verify_merkle_path` from the hash of the account on: the root that the path implies. */
  function ImpliedRoot<A>(h: Hasher<A>, hash: Fp, path: seq<PathStep>): Fp {
    if path == [] then hash
    else StepUp(h, |path| - 1, ImpliedRoot(h, hash, path[..|path| - 1]), path[|path| - 1])
  }

  /** The path of a leaf leads from its hash to the root. */
  lemma {:induction false} PathLeadsToRoot<A>(
      h: Hasher<A>, accounts: Accounts<A>, depth: nat, addr: Address, path: Address)
    requires |addr| + |path| == depth
    ensures ImpliedRoot(h, TrueHash(h, accounts, depth, addr + path), Siblings(h, accounts, depth, addr, path))
         == TrueHash(h, accounts, depth, addr)
    decreases path
  {
    if path == [] {
      assert addr + path == addr;
    } else {
      var below := Siblings(h, accounts, depth, addr + [path[0]], path[1..]);
      PathLeadsToRoot(h, accounts, depth, addr + [path[0]], path[1..]);
      assert addr + [path[0]] + path[1..] == addr + path;
      var p := Siblings(h, accounts, depth, addr, path);
      assert p[..|p| - 1] == below;
    }
  }

  /** A change of a leaf does not touch the leaf's own path. */
  lemma {:induction false} PathIgnoresLeaf<A>(
      h: Hasher<A>, a: Accounts<A>, b: Accounts<A>, depth: nat, addr: Address, path: Address)
    requires |addr| + |path| == depth && SameExcept(a, b, ToIndex(addr + path))
    ensures Siblings(h, a, depth, addr, path) == Siblings(h, b, depth, addr, path)
    decreases path
  {
    if path != [] {
      assert addr + [path[0]] + path[1..] == addr + path;
      PathIgnoresLeaf(h, a, b, depth, addr + [path[0]], path[1..]);
      var other := addr + [!path[0]];
      assert other[|addr|] != (addr + path)[|addr|];
      HashOffPath(h, a, b, depth, other, addr + path);
    }
  }

  /** A path taken before an account changes implies, for the new account, the root after the change. */
  lemma OldPathGivesNewRoot<A>(h: Hasher<A>, a: Accounts<A>, b: Accounts<A>, depth: nat, leaf: Address, account: A)
    requires |leaf| == depth && SameExcept(a, b, ToIndex(leaf)) && At(b, ToIndex(leaf)) == Some(account)
    ensures ImpliedRoot(h, h.leaf(account), Siblings(h, a, depth, [], leaf)) == TrueHash(h, b, depth, [])
  {
    assert [] + leaf == leaf;
    PathIgnoresLeaf(h, a, b, depth, [], leaf);
    PathLeadsToRoot(h, b, depth, [], leaf);
  }

  /** Node hashes collide for no two pairs of children. */
  ghost predicate NodeInjective<A(!new)>(h: Hasher<A>) {
    forall height: nat, l: Fp, r: Fp, l': Fp, r': Fp ::
      h.node(height, l, r) == h.node(height, l', r') ==> l == l' && r == r'
  }

  ghost predicate SameSides(p: seq<PathStep>, q: seq<PathStep>) {
    |p| == |q| && forall i :: 0 <= i < |p| ==> p[i].Left? == q[i].Left?
  }

  /** Without collisions only one hash and one list of siblings lead to a given root along given sides. */
  lemma {:induction false} PathBinds<A(!new)>(h: Hasher<A>, x: Fp, p: seq<PathStep>, y: Fp, q: seq<PathStep>)
    requires NodeInjective(h) && SameSides(p, q) && ImpliedRoot(h, x, p) == ImpliedRoot(h, y, q)
    ensures x == y && p == q
  {
    if p != [] {
      var n := |p| - 1;
      assert p[n].Left? == q[n].Left?;
      PathBinds(h, x, p[..n], y, q[..n]);
      assert p == p[..n] + [p[n]] && q == q[..n] + [q[n]];
    }
  }

  lemma {:induction false} SiblingSides<A>(
      h: Hasher<A>, accounts: Accounts<A>, depth: nat, addr: Address, path: Address, i: nat)
    requires |addr| + |path| <= depth && i < |path|
    ensures Siblings(h, accounts, depth, addr, path)[i].Left? == !path[|path| - 1 - i]
    decreases path
  {
    if i < |path| - 1 { SiblingSides(h, accounts, depth, addr + [path[0]], path[1..], i); }
  }

  /** Whatever proves inclusion at a leaf under the true root carries the leaf's own hash and the true siblings. */
  lemma InclusionIsSound<A(!new)>(h: Hasher<A>, accounts: Accounts<A>, leaf: Address, hash: Fp, path: seq<PathStep>)
    requires NodeInjective(h) && |path| == |leaf|
    requires forall i :: 0 <= i < |path| ==> path[i].Left? == !leaf[|leaf| - 1 - i]
    requires ImpliedRoot(h, hash, path) == TrueHash(h, accounts, |leaf|, [])
    ensures hash == TrueHash(h, accounts, |leaf|, leaf) && path == Siblings(h, accounts, |leaf|, [], leaf)
  {
    var trueSteps := Siblings(h, accounts, |leaf|, [], leaf);
    forall i | 0 <= i < |path| ensures path[i].Left? == trueSteps[i].Left? {
      SiblingSides(h, accounts, |leaf|, [], leaf, i);
    }
    assert [] + leaf == leaf;
    PathLeadsToRoot(h, accounts, |leaf|, [], leaf);
    PathBinds(h, hash, path, TrueHash(h, accounts, |leaf|, leaf), trueSteps);
  }
}
