/** When an account can be created, over whole runs of setting, creating and removing accounts. */
module DatabaseRuns {
  import opened Commands
  import opened Powers
  import opened MerkleTree
  import opened Databases

  datatype Op = Set(addr: Address) | Create | Remove(gone: set<Address>)

  /** A new account is appended only if the assertion holds and a leaf is free. */
  ghost predicate Step(l: Layout, op: Op, l': Layout, depth: nat) {
    match op
    case Set(addr) => |addr| == depth && l' == AfterSet(l, addr)
    case Create =>
      IsCompact(l) && EndOf(l.last) < Pow2(depth) && l' == AfterPush(l, FromIndex(EndOf(l.last), depth))
    case Remove(gone) => l' == AfterRemove(l, gone)
  }

  ghost predicate IsRun(ls: seq<Layout>, ops: seq<Op>, depth: nat) {
    && |ls| == |ops| + 1 && ls[0] == Layout(0, None)
    && forall i :: 0 <= i < |ops| ==> Step(ls[i], ops[i], ls[i + 1], depth)
  }

  /** The leaves that an operation fills. */
  function FilledBy(l: Layout, op: Op): set<nat> {
    match op
    case Set(addr) => {ToIndex(addr)}
    case Create => {EndOf(l.last)}
    case Remove(_) => {}
  }

  /** The leaves filled at any time before moment `k`. */
  ghost function EverFilled(ls: seq<Layout>, ops: seq<Op>, k: nat): set<nat>
    requires |ls| == |ops| + 1 && k <= |ops|
  {
    if k == 0 then {} else EverFilled(ls, ops, k - 1) + FilledBy(ls[k - 1], ops[k - 1])
  }

  /** `n` is one more than the greatest of the indexes, or zero if there are none. */
  ghost predicate HighWater(n: nat, filled: set<nat>) {
    (forall i :: i in filled ==> i < n) && (n > 0 ==> n - 1 in filled)
  }

  lemma StepKeepsHighWater(l: Layout, op: Op, l': Layout, depth: nat, filled: set<nat>)
    requires Step(l, op, l', depth) && EndOf(l.last) <= l.length && HighWater(l.length, filled)
    ensures EndOf(l'.last) <= l'.length && HighWater(l'.length, filled + FilledBy(l, op))
  {
    hide ToIndex, LastKept;
    match op
    case Set(addr) => SetCompactIff(l, addr);
    case Create => ToFromIndex(EndOf(l.last), depth);
    case Remove(gone) => RemoveCompactIff(l, gone);
  }

  /** In every run the length of the accounts is one more than the highest leaf ever filled. */
  lemma {:induction false} LengthIsHighWater(ls: seq<Layout>, ops: seq<Op>, depth: nat, k: nat)
    requires IsRun(ls, ops, depth) && k <= |ops|
    ensures EndOf(ls[k].last) <= ls[k].length && HighWater(ls[k].length, EverFilled(ls, ops, k))
  {
    if k > 0 {
      LengthIsHighWater(ls, ops, depth, k - 1);
      hide HighWater, Step, FilledBy;
      StepKeepsHighWater(ls[k - 1], ops[k - 1], ls[k], depth, EverFilled(ls, ops, k - 1));
    }
  }

  /** The last location is the highest of these leaves. */
  ghost predicate LastIsHighest(last: Option<Address>, filled: set<nat>) {
    if last.None? then filled == {}
    else ToIndex(last.value) in filled && forall i :: i in filled ==> i <= ToIndex(last.value)
  }

  /** The assertion holds exactly while the last location is the highest leaf ever filled. */
  lemma CreationAllowedIff(ls: seq<Layout>, ops: seq<Op>, depth: nat, k: nat)
    requires IsRun(ls, ops, depth) && k <= |ops|
    ensures IsCompact(ls[k]) <==> LastIsHighest(ls[k].last, EverFilled(ls, ops, k))
  {
    LengthIsHighWater(ls, ops, depth, k);
    hide IsRun, ToIndex, EverFilled;
  }

  /** Once it fails it fails until an account is set at or beyond the end of the accounts. */
  lemma {:induction false} BlockedUntilSet(ls: seq<Layout>, ops: seq<Op>, depth: nat, i: nat, j: nat)
    requires IsRun(ls, ops, depth) && i <= j <= |ops| && !IsCompact(ls[i])
    requires forall k :: i <= k < j && ops[k].Set? ==> ToIndex(ops[k].addr) + 1 < ls[i].length
    ensures !IsCompact(ls[j]) && ls[j].length == ls[i].length
    decreases j
  {
    if i < j {
      BlockedUntilSet(ls, ops, depth, i, j - 1);
      LengthIsHighWater(ls, ops, depth, j - 1);
      var l, op := ls[j - 1], ops[j - 1];
      assert Step(l, op, ls[j], depth);
      hide ToIndex, LastKept, IsRun;
      match op
      case Set(addr) => SetCompactIff(l, addr);
      case Create => assert false;
      case Remove(gone) => RemoveCompactIff(l, gone);
    }
  }
}
