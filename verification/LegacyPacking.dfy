/** The legacy packing: bits in chunks of 254, the first bit of a chunk lowest. */
module LegacyPacking {
  import opened Powers
  import opened Limbs

  const NBITS: nat := 254

  function BitsValue(bits: seq<bool>): nat {
    if bits == [] then 0 else (if bits[0] then 1 else 0) + 2 * BitsValue(bits[1..])
  }

  lemma {:induction false} BitsBound(bits: seq<bool>)
    ensures BitsValue(bits) < Pow2(|bits|)
  {
    if bits != [] { BitsBound(bits[1..]); }
  }

  lemma {:induction false} BitsConcat(a: seq<bool>, b: seq<bool>)
    ensures BitsValue(a + b) == BitsValue(a) + Pow2(|a|) * BitsValue(b)
  {
    if a == [] {
      assert a + b == b;
    } else {
      assert (a + b)[1..] == a[1..] + b;
      BitsConcat(a[1..], b);
      Associates(2, Pow2(|a| - 1), BitsValue(b));
    }
  }

  lemma {:induction false} BitsInjective(a: seq<bool>, b: seq<bool>)
    requires |a| == |b| && BitsValue(a) == BitsValue(b)
    ensures a == b
  {
    if a != [] {
      BitsInjective(a[1..], b[1..]);
      assert a == [a[0]] + a[1..] && b == [b[0]] + b[1..];
    }
  }

  // ----- The chunks

  function Min(a: nat, b: nat): nat {
    if a < b then a else b
  }

  /** The elements the bits are packed into. */
  ghost function ChunkValues(bits: seq<bool>): seq<nat>
    decreases |bits|
  {
    if bits == [] then []
    else
      var n := Min(NBITS, |bits|);
      [BitsValue(bits[..n])] + ChunkValues(bits[n..])
  }

  lemma {:induction false} ChunksFit(bits: seq<bool>)
    ensures forall i :: 0 <= i < |ChunkValues(bits)| ==> ChunkValues(bits)[i] < Pow2(NBITS)
    decreases |bits|
  {
    hide Pow2, BitsValue;
    if bits != [] {
      var n := Min(NBITS, |bits|);
      BitsBound(bits[..n]);
      Pow2Monotone(n, NBITS);
      ChunksFit(bits[n..]);
    }
  }

  lemma SliceBehind(bits: seq<bool>, n: nat, lo: nat, hi: nat)
    requires n <= |bits| && lo <= hi <= |bits| - n
    ensures bits[n..][lo..hi] == bits[n + lo..n + hi]
  {
  }

  /** One element for each group of 254 bits, the last one possibly shorter, and its value. */
  lemma {:induction false} ChunksAre(bits: seq<bool>)
    ensures |ChunkValues(bits)| == (|bits| + 253) / 254
    ensures forall i :: 0 <= i < |ChunkValues(bits)| ==>
      ChunkValues(bits)[i] == BitsValue(bits[254 * i..Min(254 * i + 254, |bits|)])
    decreases |bits|
  {
    hide BitsValue;
    if bits != [] {
      var n := Min(NBITS, |bits|);
      var rest := bits[n..];
      ChunksAre(rest);
      forall i | 0 < i < |ChunkValues(bits)|
        ensures ChunkValues(bits)[i] == BitsValue(bits[254 * i..Min(254 * i + 254, |bits|)])
      {
        assert ChunkValues(bits)[i] == ChunkValues(rest)[i - 1];
        var lo, hi := 254 * (i - 1), Min(254 * (i - 1) + 254, |rest|);
        SliceBehind(bits, n, lo, hi);
      }
    }
  }

  /** Bit strings of one length that pack to the same elements are the same. */
  lemma {:induction false} LegacyPackingIsInjective(a: seq<bool>, b: seq<bool>)
    requires |a| == |b| && ChunkValues(a) == ChunkValues(b)
    ensures a == b
    decreases |a|
  {
    hide BitsValue;
    if a != [] {
      var n := Min(NBITS, |a|);
      var ca, cb := ChunkValues(a), ChunkValues(b);
      assert ca[0] == BitsValue(a[..n]) && cb[0] == BitsValue(b[..n]);
      assert ca[1..] == ChunkValues(a[n..]) && cb[1..] == ChunkValues(b[n..]);
      BitsInjective(a[..n], b[..n]);
      LegacyPackingIsInjective(a[n..], b[n..]);
      assert a == a[..n] + a[n..] && b == b[..n] + b[n..];
    }
  }

  // ----- The limbs of a chunk

  /** The bits that belong to limb `j`. */
  ghost function Slice(bits: seq<bool>, j: nat): seq<bool> {
    bits[Min(64 * j, |bits|)..Min(64 * j + 64, |bits|)]
  }

  lemma SliceSnoc(bits: seq<bool>, bit: bool, i: nat)
    ensures Slice(bits + [bit], i) == if i == |bits| / 64 then Slice(bits, i) + [bit] else Slice(bits, i)
    ensures |Slice(bits, |bits| / 64)| == |bits| % 64
  {
    var longer, n := bits + [bit], |bits|;
    if i < n / 64 {
      assert longer[64 * i..64 * i + 64] == bits[64 * i..64 * i + 64];
    } else if i == n / 64 {
      assert longer[64 * i..n + 1] == bits[64 * i..n] + [bit];
    }
  }

  lemma SliceRest(bits: seq<bool>, j: nat)
    ensures Slice(bits[Min(64, |bits|)..], j) == Slice(bits, j + 1)
  {
    if |bits| >= 64 {
      var rest := bits[64..];
      var lo, hi := Min(64 * j, |rest|), Min(64 * j + 64, |rest|);
      assert Min(64 * (j + 1), |bits|) == 64 + lo && Min(64 * (j + 1) + 64, |bits|) == 64 + hi;
      assert rest[lo..hi] == bits[64 + lo..64 + hi];
    }
  }

  /** What limb `j` holds once `bits` have been written. */
  ghost function LimbOf(bits: seq<bool>, j: nat): nat {
    BitsValue(Slice(bits, j))
  }

  ghost predicate Holds(limbs: seq<nat>, bits: seq<bool>) {
    |limbs| == 4 && forall j :: 0 <= j < 4 ==> limbs[j] == LimbOf(bits, j)
  }

  lemma OrBit(part: seq<bool>, bit: bool)
    ensures BitOr(BitsValue(part), (if bit then 1 else 0) * Pow2(|part|)) == BitsValue(part + [bit])
  {
    hide Pow2, BitOr, BitsValue;
    var b := if bit then 1 else 0;
    BitsConcat(part, [bit]);
    OneBit(bit);
    BitsBound(part);
    OrCommutes(BitsValue(part), b * Pow2(|part|));
    OrAdds(b, BitsValue(part), |part|);
  }

  /** Writing the next bit. */
  lemma WriteBit(limbs: seq<nat>, bits: seq<bool>, bit: bool)
    requires Holds(limbs, bits) && |bits| < 256
    ensures var j := |bits| / 64;
      Holds(limbs[j := BitOr(limbs[j], (if bit then 1 else 0) * Pow2(|bits| % 64))], bits + [bit])
  {
    hide Pow2, BitOr, BitsValue, Slice;
    var j := |bits| / 64;
    var limb := BitOr(limbs[j], (if bit then 1 else 0) * Pow2(|bits| % 64));
    OrBit(Slice(bits, j), bit);
    forall i | 0 <= i < 4 ensures limbs[j := limb][i] == LimbOf(bits + [bit], i) {
      SliceSnoc(bits, bit, i);
      assert limbs[i] == LimbOf(bits, i);
    }
    SliceSnoc(bits, bit, j);
  }

  lemma OneBit(bit: bool)
    ensures BitsValue([bit]) == if bit then 1 else 0
  {
  }

  /** The limbs together are the value of the bits. */
  lemma {:induction false} HoldsValue(limbs: seq<nat>, bits: seq<bool>)
    requires |bits| <= 64 * |limbs| && forall j :: 0 <= j < |limbs| ==> limbs[j] == LimbOf(bits, j)
    ensures Value(limbs) == BitsValue(bits)
    decreases |limbs|
  {
    hide Pow2, BitsValue, Slice;
    if limbs == [] {
      assert bits == [];
      NoBits();
    } else {
      var n := Min(64, |bits|);
      var rest := bits[n..];
      assert bits == bits[..n] + rest;
      FirstSlice(bits);
      forall j | 0 <= j < |limbs| - 1 ensures limbs[1..][j] == LimbOf(rest, j) {
        assert limbs[j + 1] == LimbOf(bits, j + 1);
        SliceRest(bits, j);
      }
      HoldsValue(limbs[1..], rest);
      BitsConcat(bits[..n], rest);
      WIs();
      if n < 64 {
        assert rest == [];
        NoBits();
      }
    }
  }

  lemma FirstSlice(bits: seq<bool>)
    ensures Slice(bits, 0) == bits[..Min(64, |bits|)]
  {
  }

  lemma NoBits()
    ensures BitsValue([]) == 0
  {
  }

  method ChunkToField(bits: seq<bool>) returns (field: nat)
    requires |bits| <= NBITS
    ensures field == BitsValue(bits)
  {
    hide Value, Pow2, BitOr, Holds, BitsValue;
    var limbs := new nat[4](_ => 0);
    NothingHeld(limbs[..]);
    for index := 0 to |bits|
      invariant Holds(limbs[..], bits[..index])
    {
      var limbIndex, bitIndex := index / 64, index % 64;
      WriteBit(limbs[..], bits[..index], bits[index]);
      assert bits[..index] + [bits[index]] == bits[..index + 1];
      limbs[limbIndex] := BitOr(limbs[limbIndex], (if bits[index] then 1 else 0) * Pow2(bitIndex));
    }
    assert bits[..|bits|] == bits;
    FieldIs(limbs[..], bits);
    field := Value(limbs[..]);
  }

  lemma NothingHeld(limbs: seq<nat>)
    requires limbs == [0, 0, 0, 0]
    ensures Holds(limbs, [])
  {
    NoBits();
  }

  lemma FieldIs(limbs: seq<nat>, bits: seq<bool>)
    requires Holds(limbs, bits) && |bits| <= NBITS
    ensures Value(limbs) == BitsValue(bits)
  {
    HoldsValue(limbs, bits);
  }

  method LegacyToFields(fields: seq<nat>, bits: seq<bool>) returns (r: seq<nat>)
    ensures r == fields + ChunkValues(bits)
  {
    hide BitsValue;
    r := fields;
    var rest := bits;
    while rest != []
      invariant r + ChunkValues(rest) == fields + ChunkValues(bits)
      decreases |rest|
    {
      var n := Min(NBITS, |rest|);
      var field := ChunkToField(rest[..n]);
      r, rest := r + [field], rest[n..];
    }
  }
}
