/** The Poseidon sponge over an uninterpreted permutation, and the stream of limbs squeezed from it. */
module Sponges {

  const RATE: nat := 2

  datatype State<F> = State(s0: F, s1: F, s2: F)

  datatype Mode = Absorbed(n: nat) | Squeezed(n: nat)

  /** The field and the permutation. */
  datatype Cipher<!F> = Cipher(zero: F, add: (F, F) -> F, permute: State<F> -> State<F>)

  /** Adding zero changes nothing. */
  ghost predicate ZeroAdds<F(!new)>(c: Cipher<F>) {
    forall x: F :: c.add(x, c.zero) == x
  }

  datatype View<F> = View(mode: Mode, state: State<F>)

  ghost predicate Ok<F>(v: View<F>) {
    v.mode.n <= RATE
  }

  // ----- One step

  function AddAt<F>(c: Cipher<F>, s: State<F>, n: nat, x: F): State<F>
    requires n < RATE
  {
    if n == 0 then s.(s0 := c.add(s.s0, x)) else s.(s1 := c.add(s.s1, x))
  }

  ghost function AbsorbOne<F>(c: Cipher<F>, v: View<F>, x: F): (r: View<F>)
    requires Ok(v)
    ensures Ok(r) && r.mode.Absorbed? && r.mode.n > 0
  {
    if v.mode.Squeezed? then View(Absorbed(1), AddAt(c, v.state, 0, x))
    else if v.mode.n == RATE then View(Absorbed(1), AddAt(c, c.permute(v.state), 0, x))
    else View(Absorbed(v.mode.n + 1), AddAt(c, v.state, v.mode.n, x))
  }

  ghost function AbsorbAll<F>(c: Cipher<F>, v: View<F>, xs: seq<F>): (r: View<F>)
    requires Ok(v)
    ensures Ok(r)
    decreases xs
  {
    if xs == [] then v else AbsorbAll(c, AbsorbOne(c, v, xs[0]), xs[1..])
  }

  /** `absorb`: an empty input takes up a place too. */
  ghost function AbsorbSeq<F>(c: Cipher<F>, v: View<F>, xs: seq<F>): View<F>
    requires Ok(v)
  {
    if xs == [] then AbsorbNothing(c, v) else AbsorbAll(c, v, xs)
  }

  ghost function AbsorbNothing<F>(c: Cipher<F>, v: View<F>): View<F>
    requires Ok(v)
  {
    if v.mode.Squeezed? then v.(mode := Absorbed(1))
    else if v.mode.n == RATE then View(Absorbed(1), c.permute(v.state))
    else v.(mode := Absorbed(v.mode.n + 1))
  }

  function Component<F>(s: State<F>, n: nat): F {
    if n == 0 then s.s0 else if n == 1 then s.s1 else s.s2
  }

  ghost function SqueezeOne<F>(c: Cipher<F>, v: View<F>): (r: (View<F>, F))
    requires Ok(v)
    ensures Ok(r.0)
  {
    if v.mode.Absorbed? || v.mode.n == RATE then
      var s := c.permute(v.state);
      (View(Squeezed(1), s), s.s0)
    else
      (v.(mode := Squeezed(v.mode.n + 1)), Component(v.state, v.mode.n))
  }

  // ----- Absorbing

  /** Absorbing in pieces is absorbing at once. */
  lemma {:induction false} AbsorbStreams<F>(c: Cipher<F>, v: View<F>, xs: seq<F>, ys: seq<F>)
    requires Ok(v)
    ensures AbsorbAll(c, AbsorbAll(c, v, xs), ys) == AbsorbAll(c, v, xs + ys)
    decreases xs
  {
    if xs == [] {
      assert [] + ys == ys;
    } else {
      AbsorbStreams(c, AbsorbOne(c, v, xs[0]), xs[1..], ys);
      assert (xs + ys)[1..] == xs[1..] + ys;
    }
  }

  /** The same for `absorb` itself, which must not be called on nothing. */
  lemma CallsCompose<F>(c: Cipher<F>, v: View<F>, xs: seq<F>, ys: seq<F>)
    requires Ok(v) && xs != [] && ys != []
    ensures AbsorbSeq(c, AbsorbAll(c, v, xs), ys) == AbsorbSeq(c, v, xs + ys)
  {
    AbsorbStreams(c, v, xs, ys);
  }

  /** Absorbing nothing is absorbing a zero. */
  lemma EmptyIsZero<F(!new)>(c: Cipher<F>, v: View<F>)
    requires Ok(v) && ZeroAdds(c)
    ensures AbsorbSeq(c, v, []) == AbsorbSeq(c, v, [c.zero])
  {
    assert [c.zero][1..] == [];
    assert AbsorbAll(c, AbsorbOne(c, v, c.zero), []) == AbsorbOne(c, v, c.zero);
  }

  /** How often absorbing `k` elements permutes the state. */
  function Permutations(mode: Mode, k: nat): nat
    requires mode.n <= RATE
    decreases k
  {
    if k == 0 then 0
    else if mode.Squeezed? then Permutations(Absorbed(1), k - 1)
    else if mode.n == RATE then 1 + Permutations(Absorbed(1), k - 1)
    else Permutations(Absorbed(mode.n + 1), k - 1)
  }

  /** The capacity element is touched by the permutation only. */
  lemma {:induction false} CapacityUntouched<F>(c: Cipher<F>, v: View<F>, xs: seq<F>)
    requires Ok(v) && Permutations(v.mode, |xs|) == 0
    ensures AbsorbAll(c, v, xs).state.s2 == v.state.s2
    decreases xs
  {
    if xs != [] { CapacityUntouched(c, AbsorbOne(c, v, xs[0]), xs[1..]); }
  }

  /** A step that changes the capacity element leaves it as the permutation made it. */
  lemma CapacityFromPermutation<F>(c: Cipher<F>, v: View<F>, x: F)
    requires Ok(v) && AbsorbOne(c, v, x).state.s2 != v.state.s2
    ensures v.mode == Absorbed(RATE) && AbsorbOne(c, v, x).state.s2 == c.permute(v.state).s2
  {
  }

  // ----- Hashing

  /** The state after a block of two. */
  ghost function AbsorbBlock<F>(c: Cipher<F>, s: State<F>, x: F, y: F): State<F> {
    c.permute(State(c.add(s.s0, x), c.add(s.s1, y), s.s2))
  }

  /** The fold over blocks of two, the last one filled up with zeros; there is always one block. */
  ghost function BlockHash<F>(c: Cipher<F>, s: State<F>, xs: seq<F>): F
    decreases |xs|
  {
    if |xs| == 0 then AbsorbBlock(c, s, c.zero, c.zero).s0
    else if |xs| == 1 then AbsorbBlock(c, s, xs[0], c.zero).s0
    else if |xs| == 2 then AbsorbBlock(c, s, xs[0], xs[1]).s0
    else BlockHash(c, AbsorbBlock(c, s, xs[0], xs[1]), xs[2..])
  }

  /** A view from which the next element starts a block on state `s`. */
  ghost predicate AtBlock<F>(c: Cipher<F>, v: View<F>, s: State<F>) {
    match v.mode
    case Squeezed(n) => n <= RATE && s == v.state
    case Absorbed(n) => (n == 0 && s == v.state) || (n == RATE && s == c.permute(v.state))
  }

  lemma AbsorbTwo<F>(c: Cipher<F>, v: View<F>, s: State<F>, x: F, y: F)
    requires AtBlock(c, v, s)
    ensures AbsorbOne(c, AbsorbOne(c, v, x), y) == View(Absorbed(RATE), State(c.add(s.s0, x), c.add(s.s1, y), s.s2))
  {
  }

  lemma UnrollTwo<F>(c: Cipher<F>, v: View<F>, xs: seq<F>)
    requires Ok(v) && |xs| >= 2
    ensures AbsorbAll(c, v, xs) == AbsorbAll(c, AbsorbOne(c, AbsorbOne(c, v, xs[0]), xs[1]), xs[2..])
  {
    assert xs[1..][1..] == xs[2..];
  }

  /** Absorbing and squeezing once is the fold over the blocks. */
  lemma {:induction false} HashIsBlockFold<F(!new)>(c: Cipher<F>, v: View<F>, s: State<F>, xs: seq<F>)
    requires AtBlock(c, v, s) && ZeroAdds(c) && xs != []
    ensures SqueezeOne(c, AbsorbAll(c, v, xs)).1 == BlockHash(c, s, xs)
    decreases |xs|
  {
    if |xs| == 1 {
      assert xs[1..] == [];
      assert AbsorbAll(c, AbsorbOne(c, v, xs[0]), []) == AbsorbOne(c, v, xs[0]);
    } else {
      hide AbsorbAll, AbsorbOne;
      UnrollTwo(c, v, xs);
      AbsorbTwo(c, v, s, xs[0], xs[1]);
      var next := View(Absorbed(RATE), State(c.add(s.s0, xs[0]), c.add(s.s1, xs[1]), s.s2));
      if |xs| == 2 {
        AbsorbNone(c, next, xs[2..]);
      } else {
        HashIsBlockFold(c, next, AbsorbBlock(c, s, xs[0], xs[1]), xs[2..]);
      }
    }
  }

  lemma AbsorbNone<F>(c: Cipher<F>, v: View<F>, xs: seq<F>)
    requires Ok(v) && xs == []
    ensures AbsorbAll(c, v, xs) == v
  {
  }

  /** `hash_with_kimchi` from a saved state, which is always one that was squeezed. */
  ghost function HashWithKimchi<F>(c: Cipher<F>, param: View<F>, fields: seq<F>): F
    requires Ok(param)
  {
    SqueezeOne(c, AbsorbSeq(c, param, fields)).1
  }

  lemma HashWithKimchiIs<F(!new)>(c: Cipher<F>, param: View<F>, fields: seq<F>)
    requires Ok(param) && param.mode.Squeezed? && ZeroAdds(c)
    ensures HashWithKimchi(c, param, fields) == BlockHash(c, param.state, fields)
  {
    hide AbsorbAll, AbsorbOne, BlockHash;
    if fields == [] {
      EmptyIsZero(c, param);
      HashIsBlockFold(c, param, param.state, [c.zero]);
      BlockOfZero(c, param.state);
    } else {
      HashIsBlockFold(c, param, param.state, fields);
    }
  }

  lemma BlockOfZero<F>(c: Cipher<F>, s: State<F>)
    ensures BlockHash(c, s, [c.zero]) == BlockHash(c, s, [])
  {
  }

  /** The length is not part of the hash: a zero that fills the last block changes nothing. */
  lemma {:induction false} TrailingZero<F>(c: Cipher<F>, s: State<F>, xs: seq<F>)
    requires |xs| % 2 == 1
    ensures BlockHash(c, s, xs + [c.zero]) == BlockHash(c, s, xs)
    decreases |xs|
  {
    if |xs| > 1 {
      TrailingZero(c, AbsorbBlock(c, s, xs[0], xs[1]), xs[2..]);
      assert (xs + [c.zero])[2..] == xs[2..] + [c.zero];
    }
  }

  // ----- Squeezing

  ghost function AfterSqueezes<F>(c: Cipher<F>, v: View<F>, k: nat): (r: View<F>)
    requires Ok(v)
    ensures Ok(r)
  {
    if k == 0 then v else SqueezeOne(c, AfterSqueezes(c, v, k - 1)).0
  }

  /** The element that squeeze number `k` gives. */
  ghost function SqueezedAt<F>(c: Cipher<F>, v: View<F>, k: nat): F
    requires Ok(v)
  {
    SqueezeOne(c, AfterSqueezes(c, v, k)).1
  }

  ghost function Permuted<F>(c: Cipher<F>, s: State<F>, times: nat): State<F> {
    if times == 0 then s else c.permute(Permuted(c, s, times - 1))
  }

  /** After absorbing, the squeezes read the first two elements of one permuted state after the other. */
  lemma {:induction false} SqueezesReadPermutations<F>(c: Cipher<F>, v: View<F>, k: nat)
    requires Ok(v) && v.mode.Absorbed?
    ensures AfterSqueezes(c, v, k + 1) == View(Squeezed(k % 2 + 1), Permuted(c, v.state, k / 2 + 1))
    ensures SqueezedAt(c, v, k) == Component(Permuted(c, v.state, k / 2 + 1), k % 2)
  {
    if k == 0 {
      assert Permuted(c, v.state, 1) == c.permute(Permuted(c, v.state, 0));
    } else {
      SqueezesReadPermutations(c, v, k - 1);
    }
  }

  /** The limbs of all squeezes, two from each. */
  ghost function LimbAt<F>(c: Cipher<F>, limbs: F -> (nat, nat), v: View<F>, i: nat): nat
    requires Ok(v)
  {
    var pair := limbs(SqueezedAt(c, v, i / 2));
    if i % 2 == 0 then pair.0 else pair.1
  }

  /** Each squeeze gives its lower limb first. */
  lemma LimbsOfSqueeze<F>(c: Cipher<F>, limbs: F -> (nat, nat), v: View<F>, k: nat)
    requires Ok(v)
    ensures LimbAt(c, limbs, v, 2 * k) == limbs(SqueezedAt(c, v, k)).0
    ensures LimbAt(c, limbs, v, 2 * k + 1) == limbs(SqueezedAt(c, v, k)).1
  {
    assert (2 * k) / 2 == k && (2 * k + 1) / 2 == k;
  }

  /** These are limbs of the stream, from number `from` on. */
  ghost predicate FromStream<F>(c: Cipher<F>, limbs: F -> (nat, nat), v: View<F>, from: nat, piece: seq<nat>)
    requires Ok(v)
  {
    forall i :: 0 <= i < |piece| ==> piece[i] == LimbAt(c, limbs, v, from + i)
  }

  lemma StreamGrows<F>(c: Cipher<F>, limbs: F -> (nat, nat), v: View<F>, from: nat, piece: seq<nat>, k: nat)
    requires Ok(v) && FromStream(c, limbs, v, from, piece) && from + |piece| == 2 * k
    ensures var pair := limbs(SqueezedAt(c, v, k));
      FromStream(c, limbs, v, from, piece + [pair.0, pair.1])
  {
    hide SqueezedAt;
    assert (2 * k) / 2 == k && (2 * k + 1) / 2 == k;
  }

  lemma StreamSplits<F>(c: Cipher<F>, limbs: F -> (nat, nat), v: View<F>, from: nat, piece: seq<nat>, n: nat)
    requires Ok(v) && FromStream(c, limbs, v, from, piece) && n <= |piece|
    ensures FromStream(c, limbs, v, from, piece[..n]) && FromStream(c, limbs, v, from + n, piece[n..])
  {
    hide LimbAt;
    forall i | 0 <= i < |piece| - n ensures piece[n..][i] == LimbAt(c, limbs, v, from + n + i) {
      assert piece[n + i] == LimbAt(c, limbs, v, from + (n + i));
    }
  }

  // ----- The objects

  class Sponge<F> {
    var spongeState: Mode
    var state: State<F>
    const cipher: Cipher<F>

    ghost predicate Valid()
      reads this
    {
      Ok(Viewed())
    }

    function Viewed(): View<F>
      reads this
    {
      View(spongeState, state)
    }

    constructor (cipher: Cipher<F>)
      ensures Valid() && this.cipher == cipher
      ensures Viewed() == View(Absorbed(0), State(cipher.zero, cipher.zero, cipher.zero))
    {
      this.cipher := cipher;
      spongeState, state := Absorbed(0), State(cipher.zero, cipher.zero, cipher.zero);
    }

    method Absorb(xs: seq<F>)
      requires Valid()
      modifies this
      ensures Valid() && Viewed() == AbsorbSeq(cipher, old(Viewed()), xs)
    {
      if xs == [] {
        match spongeState {
          case Absorbed(n) =>
            if n == RATE {
              state := cipher.permute(state);
              spongeState := Absorbed(1);
            } else {
              spongeState := Absorbed(n + 1);
            }
          case Squeezed(_) =>
            spongeState := Absorbed(1);
        }
        return;
      }
      for i := 0 to |xs|
        invariant Valid() && AbsorbAll(cipher, Viewed(), xs[i..]) == AbsorbAll(cipher, old(Viewed()), xs)
      {
        assert xs[i..][1..] == xs[i + 1..];
        match spongeState {
          case Absorbed(n) =>
            if n == RATE {
              state := cipher.permute(state);
              spongeState := Absorbed(1);
              state := AddAt(cipher, state, 0, xs[i]);
            } else {
              spongeState := Absorbed(n + 1);
              state := AddAt(cipher, state, n, xs[i]);
            }
          case Squeezed(_) =>
            state := AddAt(cipher, state, 0, xs[i]);
            spongeState := Absorbed(1);
        }
      }
    }

    method Squeeze() returns (x: F)
      requires Valid()
      modifies this
      ensures Valid() && (Viewed(), x) == SqueezeOne(cipher, old(Viewed()))
    {
      match spongeState {
        case Squeezed(n) =>
          if n == RATE {
            state := cipher.permute(state);
            spongeState := Squeezed(1);
            x := state.s0;
          } else {
            spongeState := Squeezed(n + 1);
            x := Component(state, n);
          }
        case Absorbed(_) =>
          state := cipher.permute(state);
          spongeState := Squeezed(1);
          x := state.s0;
      }
    }
  }

  class FqSponge<F> {
    const sponge: Sponge<F>
    var lastSqueezed: seq<nat>
    const limbs: F -> (nat, nat)

    /** Where the current stream of limbs began, how often it was squeezed, and how many limbs were taken. */
    ghost var origin: View<F>
    ghost var squeezes: nat
    ghost var taken: nat

    /** What waits are the limbs not yet taken of all squeezes so far, and there is at most one. */
    ghost predicate Valid()
      reads this, sponge
    {
      && Ok(origin) && sponge.Viewed() == AfterSqueezes(sponge.cipher, origin, squeezes)
      && |lastSqueezed| <= 1 && taken + |lastSqueezed| == 2 * squeezes
      && FromStream(sponge.cipher, limbs, origin, taken, lastSqueezed)
    }

    constructor (cipher: Cipher<F>, limbs: F -> (nat, nat))
      ensures Valid() && fresh(sponge) && taken == 0 && sponge.cipher == cipher && this.limbs == limbs
      ensures origin == View(Absorbed(0), State(cipher.zero, cipher.zero, cipher.zero))
    {
      this.limbs, lastSqueezed := limbs, [];
      sponge := new Sponge(cipher);
      squeezes, taken := 0, 0;
      origin := View(Absorbed(0), State(cipher.zero, cipher.zero, cipher.zero));
    }

    /** Forgets what waits and starts a new stream; nothing is absorbed from nothing. */
    method AbsorbFq(xs: seq<F>)
      requires Valid()
      modifies this, sponge
      ensures Valid() && taken == 0
      ensures origin == AbsorbAll(sponge.cipher, old(sponge.Viewed()), xs)
    {
      lastSqueezed := [];
      for i := 0 to |xs|
        invariant sponge.Valid() && lastSqueezed == []
        invariant AbsorbAll(sponge.cipher, sponge.Viewed(), xs[i..])
               == AbsorbAll(sponge.cipher, old(sponge.Viewed()), xs)
      {
        assert xs[i..][1..] == xs[i + 1..];
        AbsorbSingle(sponge.cipher, sponge.Viewed(), xs[i]);
        sponge.Absorb([xs[i]]);
      }
      origin, squeezes, taken := sponge.Viewed(), 0, 0;
    }

    /** The next limbs of the stream, whatever sizes were asked for before. */
    method SqueezeLimbs(count: nat) returns (r: seq<nat>)
      requires Valid()
      modifies this, sponge
      ensures Valid() && origin == old(origin) && taken == old(taken) + count
      ensures |r| == count && FromStream(sponge.cipher, limbs, origin, old(taken), r)
    {
      hide SqueezeOne, FromStream, LimbAt;
      while |lastSqueezed| < count
        invariant Ok(origin) && sponge.Viewed() == AfterSqueezes(sponge.cipher, origin, squeezes)
        invariant origin == old(origin) && taken == old(taken) && taken + |lastSqueezed| == 2 * squeezes
        invariant |lastSqueezed| <= count + 1 && FromStream(sponge.cipher, limbs, origin, taken, lastSqueezed)
        decreases count - |lastSqueezed|
      {
        StreamGrows(sponge.cipher, limbs, origin, taken, lastSqueezed, squeezes);
        var x := sponge.Squeeze();
        var pair := limbs(x);
        lastSqueezed := lastSqueezed + [pair.0, pair.1];
        squeezes := squeezes + 1;
      }
      StreamSplits(sponge.cipher, limbs, origin, taken, lastSqueezed, count);
      r := lastSqueezed[..count];
      lastSqueezed := lastSqueezed[count..];
      taken := taken + count;
    }
  }

  lemma AbsorbSingle<F>(c: Cipher<F>, v: View<F>, x: F)
    requires Ok(v)
    ensures AbsorbSeq(c, v, [x]) == AbsorbOne(c, v, x)
  {
    assert [x][1..] == [];
    AbsorbNone(c, AbsorbOne(c, v, x), [x][1..]);
  }
}
