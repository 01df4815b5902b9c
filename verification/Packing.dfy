/** Packing small items into field elements before hashing. */
module Packing {
  import opened Powers
  import opened Limbs

  type Byte = x: nat | x < 256

  datatype Item =
    | Bool(flag: bool)
    | U2(small: Byte)
    | U8(byte: Byte)
    | U32(word: nat)
    | U48(bytes: seq<Byte>)
    | U64(long: nat)

  /** What the types of the fields say. */
  predicate WellTyped(item: Item) {
    (item.U32? ==> item.word < Pow2(32)) && (item.U48? ==> |item.bytes| == 6) && (item.U64? ==> item.long < Pow2(64))
  }

  function NBits(item: Item): (w: nat)
    ensures 1 <= w <= 64
  {
    match item
    case Bool(_) => 1
    case U2(_) => 2
    case U8(_) => 8
    case U32(_) => 32
    case U48(_) => 48
    case U64(_) => 64
  }

  /** Bytes as a number, the first one lowest. */
  function LittleEndian(bytes: seq<Byte>): nat {
    if bytes == [] then 0 else bytes[0] + 256 * LittleEndian(bytes[1..])
  }

  function AsBigint(item: Item): nat {
    match item
    case Bool(flag) => if flag then 1 else 0
    case U2(small) => small
    case U8(byte) => byte
    case U32(word) => word
    case U48(bytes) => LittleEndian(bytes)
    case U64(long) => long
  }

  /** The item fits its width; only a `U2` may not. */
  predicate InRange(item: Item) {
    AsBigint(item) < Pow2(NBits(item))
  }

  /** The lowest `n` bytes of a number, the lowest first. */
  function BytesOf(v: nat, n: nat): (bytes: seq<Byte>)
    ensures |bytes| == n
  {
    if n == 0 then [] else [v % 256] + BytesOf(v / 256, n - 1)
  }

  lemma {:induction false} BytesRoundTrip(v: nat, n: nat)
    requires v < Pow2(8 * n)
    ensures LittleEndian(BytesOf(v, n)) == v
  {
    hide Pow2;
    if n == 0 {
      Pow2Zero();
    } else {
      Pow2Small();
      Pow2Add(8, 8 * (n - 1));
      BytesRoundTrip(v / 256, n - 1);
      assert BytesOf(v, n)[1..] == BytesOf(v / 256, n - 1);
    }
  }

  ghost predicate SameKind(a: Item, b: Item) {
    && a.Bool? == b.Bool? && a.U2? == b.U2? && a.U8? == b.U8?
    && a.U32? == b.U32? && a.U48? == b.U48? && a.U64? == b.U64?
  }

  /** No width is larger than it need be: every value below it is the value of some item of that kind. */
  lemma WidthIsUsed(kind: Item, v: nat) returns (item: Item)
    requires v < Pow2(NBits(kind))
    ensures WellTyped(item) && SameKind(item, kind) && AsBigint(item) == v
  {
    Pow2Small();
    hide Pow2;
    match kind
    case Bool(_) => item := Bool(v == 1);
    case U2(_) => item := U2(v);
    case U8(_) => item := U8(v);
    case U32(_) => item := U32(v);
    case U48(_) =>
      BytesRoundTrip(v, 6);
      item := U48(BytesOf(v, 6));
    case U64(_) => item := U64(v);
  }

  lemma Pow2Small()
    ensures Pow2(1) == 2 && Pow2(2) == 4 && Pow2(8) == 256
  {
    assert Pow2(3) == 8 && Pow2(4) == 16 && Pow2(5) == 32 && Pow2(6) == 64 && Pow2(7) == 128;
  }

  lemma {:induction false} LittleEndianBound(bytes: seq<Byte>)
    ensures LittleEndian(bytes) < Pow2(8 * |bytes|)
  {
    hide Pow2;
    if bytes == [] {
      Pow2Zero();
    } else {
      LittleEndianBound(bytes[1..]);
      Pow2Small();
      Pow2Add(8, 8 * (|bytes| - 1));
    }
  }

  lemma {:induction false} LittleEndianInjective(a: seq<Byte>, b: seq<Byte>)
    requires |a| == |b| && LittleEndian(a) == LittleEndian(b)
    ensures a == b
  {
    if a != [] {
      assert a[0] == b[0];
      LittleEndianInjective(a[1..], b[1..]);
      assert a == [a[0]] + a[1..] && b == [b[0]] + b[1..];
    }
  }

  lemma InRangeIff(item: Item)
    requires WellTyped(item)
    ensures InRange(item) <==> (item.U2? ==> item.small < 4)
    ensures AsBigint(item) < Pow2(64)
  {
    hide Pow2, LittleEndian;
    Pow2Small();
    Pow2Monotone(8, 64);
    Pow2Monotone(32, 64);
    Pow2Monotone(48, 64);
    if item.U48? { LittleEndianBound(item.bytes); }
  }

  /** Width and value determine the item. */
  lemma ItemDetermined(a: Item, b: Item)
    requires WellTyped(a) && WellTyped(b) && NBits(a) == NBits(b) && AsBigint(a) == AsBigint(b)
    ensures a == b
  {
    hide Pow2, LittleEndian;
    if a.U48? { LittleEndianInjective(a.bytes, b.bytes); }
  }

  // ----- What to_fields computes

  /** A packed element must stay below this many bits. */
  const MAX_BITS: nat := 255

  /** `current[0] |= item` after the shift, on values of 256 bits. */
  function Joined(current: nat, width: nat, item: nat): nat {
    OrLow((current * Pow2(width)) % Pow2(256), item)
  }

  /** The lowest limb or-ed with a limb. */
  function OrLow(value: nat, item: nat): nat {
    OrBelow(value, item, W())
  }

  function OrBelow(value: nat, item: nat, w: nat): nat
    requires w > 0
  {
    Product(Quotient(value, w), w) + BitOr(Remainder(value, w), item)
  }

  /** The elements pushed from here on, with `nbits` bits already in `current`. */
  function Packed(items: seq<Item>, nbits: nat, current: nat): seq<nat> {
    if items == [] then if nbits > 0 then [current] else []
    else
      var width, value := NBits(items[0]), AsBigint(items[0]);
      if nbits + width < MAX_BITS then Packed(items[1..], nbits + width, Joined(current, width, value))
      else [current] + Packed(items[1..], width, value)
  }

  /** The same with the items appended arithmetically. */
  ghost function Appended(items: seq<Item>, nbits: nat, current: nat): seq<nat> {
    if items == [] then if nbits > 0 then [current] else []
    else
      var width, value := NBits(items[0]), AsBigint(items[0]);
      if nbits + width < MAX_BITS then Appended(items[1..], nbits + width, current * Pow2(width) + value)
      else [current] + Appended(items[1..], width, value)
  }

  function TotalBits(items: seq<Item>): nat {
    if items == [] then 0 else NBits(items[0]) + TotalBits(items[1..])
  }

  /** Packing is greedy: items share one element exactly if together they have at most 254 bits. */
  lemma {:induction false} OneElementIff(items: seq<Item>, nbits: nat, current: nat)
    requires 0 < nbits <= 254
    ensures |Packed(items, nbits, current)| >= 1
    ensures |Packed(items, nbits, current)| == 1 <==> nbits + TotalBits(items) <= 254
    decreases |items|
  {
    hide Joined, AsBigint;
    if items != [] {
      var width, value := NBits(items[0]), AsBigint(items[0]);
      if nbits + width <= 254 {
        OneElementIff(items[1..], nbits + width, Joined(current, width, value));
      } else {
        OneElementIff(items[1..], width, value);
      }
    }
  }

  ghost predicate AllInRange(items: seq<Item>) {
    forall i :: 0 <= i < |items| ==> WellTyped(items[i]) && InRange(items[i])
  }

  lemma OrLowAdds(current: nat, width: nat, item: nat)
    requires 1 <= width <= 64 && item < Pow2(width) && current * Pow2(width) < Pow2(256)
    ensures Joined(current, width, item) == current * Pow2(width) + item
  {
    hide Pow2, W, OrBelow;
    WIs();
    Pow2Add(64 - width, width);
    SmallModulo(current * Pow2(width), Pow2(256));
    OrBelowAdds(current, width, item, Pow2(64 - width), W());
  }

  lemma OrBelowAdds(current: nat, width: nat, item: nat, q: nat, w: nat)
    requires q > 0 && w > 0 && w == q * Pow2(width) && item < Pow2(width)
    ensures OrBelow(current * Pow2(width), item, w) == current * Pow2(width) + item
  {
    hide Pow2, BitOr, Quotient, Remainder;
    var p := Pow2(width);
    DivisionIs(current, q);
    MultipleSplits(current, Quotient(current, q), Remainder(current, q), q, p, w);
    OrAdds(Remainder(current, q), item, width);
  }

  lemma SmallModulo(v: nat, m: nat)
    requires v < m
    ensures v % m == v
  {
  }

  /** A multiple of `p` cut at `w = q * p`: both parts are multiples of `p`. */
  lemma MultipleSplits(x: nat, k: nat, r: nat, q: nat, p: nat, w: nat)
    requires q > 0 && p > 0 && w == q * p && x == k * q + r && r < q
    ensures Quotient(x * p, w) == k && Remainder(x * p, w) == r * p && x * p == k * w + r * p
  {
    Distribute(k, q, r, p);
    ScaleOrdered(r + 1, q, p);
    DivModUnique(x * p, w, k, r * p);
  }

  lemma AppendBound(current: nat, nbits: nat, value: nat, width: nat)
    requires current < Pow2(nbits) && value < Pow2(width)
    ensures current * Pow2(width) + value < Pow2(nbits + width)
  {
    hide Pow2;
    Pow2Add(nbits, width);
    ProductBelow(value, current, Pow2(width), Pow2(nbits));
  }

  /** For items in range the bitwise form is the arithmetic one, and every element stays below `2^254`. */
  lemma {:induction false} PackedIsAppended(items: seq<Item>, nbits: nat, current: nat)
    requires AllInRange(items) && nbits < MAX_BITS && current < Pow2(nbits)
    ensures Packed(items, nbits, current) == Appended(items, nbits, current)
    ensures forall i :: 0 <= i < |Packed(items, nbits, current)| ==> Packed(items, nbits, current)[i] < Pow2(254)
  {
    hide Pow2, Joined, AsBigint, NBits;
    Pow2Monotone(nbits, 254);
    if items != [] {
      var width, value := NBits(items[0]), AsBigint(items[0]);
      if nbits + width < MAX_BITS {
        AppendBound(current, nbits, value, width);
        Pow2Monotone(nbits + width, 256);
        OrLowAdds(current, width, value);
        PackedIsAppended(items[1..], nbits + width, current * Pow2(width) + value);
      } else {
        PackedIsAppended(items[1..], width, value);
      }
    }
  }

  // ----- Unpacking

  function Widths(items: seq<Item>): seq<nat> {
    seq(|items|, i requires 0 <= i < |items| => NBits(items[i]))
  }

  function Values(items: seq<Item>): seq<nat> {
    seq(|items|, i requires 0 <= i < |items| => AsBigint(items[i]))
  }

  function First(fields: seq<nat>): nat {
    if fields == [] then 0 else fields[0]
  }

  function Rest(fields: seq<nat>): seq<nat> {
    if fields == [] then [] else fields[1..]
  }

  /** From the widths alone: what was in `current`, and the values of the items. */
  function Unpacked(widths: seq<nat>, nbits: nat, fields: seq<nat>): (nat, seq<nat>) {
    if widths == [] then (if nbits > 0 then First(fields) else 0, [])
    else
      var width := widths[0];
      if nbits + width < MAX_BITS then
        var (v, values) := Unpacked(widths[1..], nbits + width, fields);
        (Quotient(v, Pow2(width)), [v % Pow2(width)] + values)
      else
        var (v, values) := Unpacked(widths[1..], width, Rest(fields));
        (First(fields), [v] + values)
  }

  lemma AppendSplits(current: nat, value: nat, p: nat)
    requires value < p
    ensures Quotient(current * p + value, p) == current && (current * p + value) % p == value
  {
    DivModUnique(current * p + value, p, current, value);
  }

  /** Unpacking by the widths gives the items back. */
  lemma {:induction false} UnpackedIs(items: seq<Item>, nbits: nat, current: nat)
    requires AllInRange(items) && (nbits == 0 ==> current == 0)
    ensures Unpacked(Widths(items), nbits, Appended(items, nbits, current)) == (current, Values(items))
  {
    hide Pow2, AsBigint, NBits, Quotient;
    if items == [] {
      assert Widths(items) == [] && Values(items) == [];
    } else {
      var width, value := NBits(items[0]), AsBigint(items[0]);
      assert Widths(items)[1..] == Widths(items[1..]);
      assert Values(items) == [value] + Values(items[1..]);
      if nbits + width < MAX_BITS {
        UnpackedIs(items[1..], nbits + width, current * Pow2(width) + value);
        AppendSplits(current, value, Pow2(width));
      } else {
        UnpackedIs(items[1..], width, value);
      }
    }
  }

  lemma RoundTrip(items: seq<Item>)
    requires AllInRange(items)
    ensures Unpacked(Widths(items), 0, Packed(items, 0, 0)).1 == Values(items)
  {
    hide Packed, Appended, Unpacked;
    Pow2Zero();
    PackedIsAppended(items, 0, 0);
    UnpackedIs(items, 0, 0);
  }

  /** Two inputs of the same shape with the same packed elements are the same. */
  lemma PackingIsInjective(a: seq<Item>, b: seq<Item>)
    requires AllInRange(a) && AllInRange(b) && Widths(a) == Widths(b) && Packed(a, 0, 0) == Packed(b, 0, 0)
    ensures a == b
  {
    hide Packed, Unpacked, Pow2;
    RoundTrip(a);
    RoundTrip(b);
    assert |Values(a)| == |a| == |Widths(a)| && |Values(b)| == |b| == |Widths(b)|;
    forall i | 0 <= i < |a| ensures a[i] == b[i] {
      assert Widths(a)[i] == Widths(b)[i] && Values(a)[i] == Values(b)[i];
      ItemDetermined(a[i], b[i]);
    }
  }

  lemma {:induction false} OrZero(a: nat)
    ensures BitOr(0, a) == a && BitOr(a, 0) == a
  {
  }

  lemma JoinSmall(current: nat, item: nat)
    requires current < 64 && item < 256 && (current == 0 || item < 4)
    ensures Joined(current, 2, item) == 4 * current + item
  {
    hide Pow2, W, BitOr;
    Pow2Small();
    Pow2Monotone(8, 256);
    WIs();
    Pow2Monotone(8, 64);
    SmallModulo(4 * current, Pow2(256));
    assert Joined(current, 2, item) == OrBelow(4 * current, item, W());
    JoinBelow(current, item, W());
  }

  lemma JoinBelow(current: nat, item: nat, w: nat)
    requires current < 64 && (current == 0 || item < 4) && w >= 256
    ensures OrBelow(4 * current, item, w) == 4 * current + item
  {
    DivModUnique(4 * current, w, 0, 4 * current);
    Pow2Small();
    if current == 0 { OrZero(item); } else { OrAdds(current, item, 2); }
  }

  /** A `U2` out of range always has another input of the same shape that packs to the same element. */
  lemma OutOfRangeCollides(v: Byte)
    requires !InRange(U2(v))
    ensures Widths([U2(0), U2(v)]) == Widths([U2(v / 4), U2(v % 4)]) && [U2(0), U2(v)] != [U2(v / 4), U2(v % 4)]
    ensures Packed([U2(0), U2(v)], 0, 0) == Packed([U2(v / 4), U2(v % 4)], 0, 0) == [v]
  {
    hide Pow2, Joined;
    Pow2Small();
    JoinSmall(0, 0);
    JoinSmall(0, v);
    JoinSmall(0, v / 4);
    JoinSmall(v / 4, v % 4);
    PackedPair(U2(0), U2(v));
    PackedPair(U2(v / 4), U2(v % 4));
  }

  lemma PackedPair(a: Item, b: Item)
    requires a.U2? && b.U2?
    ensures Packed([a, b], 0, 0) == [Joined(Joined(0, 2, a.small), 2, b.small)]
  {
    hide Joined, Packed;
    PackedStep([a, b], 0, 0);
    PackedStep([b], 2, Joined(0, 2, a.small));
    PackedDone(4, Joined(Joined(0, 2, a.small), 2, b.small));
    assert [a, b][1..] == [b] && [b][1..] == [];
  }

  // ----- When `or` is addition

  /** The common bits of the shifted limb and the item. */
  function Overlap(current: nat, width: nat, item: nat): nat {
    BitAnd(Remainder(current * Pow2(width), W()), item)
  }

  /** For any item of one limb: joining is appending, less the bits that are in the way. */
  lemma JoinedLessOverlap(current: nat, width: nat, item: nat)
    requires current * Pow2(width) < Pow2(256)
    ensures Joined(current, width, item) + Overlap(current, width, item) == current * Pow2(width) + item
  {
    hide Pow2, W, BitOr, BitAnd;
    var v, w := current * Pow2(width), W();
    SmallModulo(v, Pow2(256));
    DivisionIs(v, w);
    OrIsSumLessCommon(Remainder(v, w), item);
  }

  lemma TwoBitsOver(q: nat, v: nat)
    requires q == v / 4
    ensures BitOr(4 * q, v) == v
  {
    hide BitOr;
    OrEven(2 * q, v);
    OrEven(q, v / 2);
    OrSelf(q);
    assert (v / 2) / 2 == q && 2 * (2 * q) == 4 * q;
  }

  /** The comment on the `or` holds for all contents of the limbs exactly when the item is in range. */
  lemma JoinAddsIff(item: Item)
    requires WellTyped(item)
    ensures InRange(item) <==>
      forall current: nat | current * Pow2(NBits(item)) < Pow2(256) ::
        Joined(current, NBits(item), AsBigint(item)) == current * Pow2(NBits(item)) + AsBigint(item)
  {
    hide Pow2, Joined, AsBigint;
    var width, value := NBits(item), AsBigint(item);
    if InRange(item) {
      forall current: nat | current * Pow2(width) < Pow2(256)
        ensures Joined(current, width, value) == current * Pow2(width) + value
      {
        OrLowAdds(current, width, value);
      }
    } else {
      InRangeIff(item);
      JoinOverlaps(item.small);
    }
  }

  lemma JoinOverlaps(v: Byte)
    requires v >= 4
    ensures AsBigint(U2(v)) == v && NBits(U2(v)) == 2
    ensures (v / 4) * Pow2(2) < Pow2(256) && Joined(v / 4, 2, v) == v < (v / 4) * Pow2(2) + v
  {
    hide Pow2, W, BitOr;
    Pow2Small();
    Pow2Monotone(8, 256);
    WIs();
    Pow2Monotone(8, 64);
    var q := v / 4;
    SmallModulo(4 * q, Pow2(256));
    assert Joined(q, 2, v) == OrBelow(4 * q, v, W());
    DivModUnique(4 * q, W(), 0, 4 * q);
    TwoBitsOver(q, v);
  }

  // ----- When the conversion succeeds

  /** The order of the field. */
  const PASTA_FP: nat := 0x40000000000000000000000000000000224698fc094cf91b992d30ed00000001

  lemma BelowFieldOrder()
    ensures Pow2(254) < PASTA_FP
  {
    hide Pow2;
    Pow2Doubles(8, 16);
    Pow2Doubles(16, 32);
    Pow2Doubles(32, 64);
    Pow2Doubles(64, 128);
    Pow2Small();
    Pow2Add(64, 62);
    Pow2Add(2, 62);
    Pow2Add(128, 126);
    assert Pow2(16) == 0x1_0000;
    assert Pow2(32) == 0x1_0000_0000;
    assert Pow2(64) == 0x1_0000_0000_0000_0000;
    assert Pow2(62) == 0x4000_0000_0000_0000;
    assert Pow2(126) == 0x4000_0000_0000_0000_0000_0000_0000_0000;
  }

  lemma Pow2Doubles(n: nat, m: nat)
    requires m == 2 * n
    ensures Pow2(m) == Pow2(n) * Pow2(n)
  {
    Pow2Add(n, n);
  }

  /** Some element does not fit the field: converting it panics. */
  ghost predicate ConversionFails(items: seq<Item>) {
    exists i :: 0 <= i < |Packed(items, 0, 0)| && Packed(items, 0, 0)[i] >= PASTA_FP
  }

  function Flags(n: nat): (r: seq<Item>)
    ensures |r| == n && forall i :: 0 <= i < n ==> r[i] == Bool(false)
  {
    if n == 0 then [] else [Bool(false)] + Flags(n - 1)
  }

  /** Flags that are not set only shift. */
  lemma {:induction false} FlagsShift(n: nat, nbits: nat, current: nat)
    requires 0 < nbits && nbits + n < MAX_BITS && current * Pow2(n) < Pow2(256)
    ensures Packed(Flags(n), nbits, current) == [current * Pow2(n)]
    decreases n
  {
    hide Pow2, Joined, Packed;
    if n == 0 {
      Pow2Zero();
      PackedDone(nbits, current);
    } else {
      ShiftSplits(current, n);
      FlagStep(n, nbits, current);
      FlagsShift(n - 1, nbits + 1, 2 * current);
    }
  }

  lemma ShiftSplits(current: nat, n: nat)
    requires n > 0
    ensures current * Pow2(n) == (2 * current) * Pow2(n - 1) >= current * Pow2(1) == 2 * current
  {
    Pow2One(n);
    hide Pow2;
    Associates(2, current, Pow2(n - 1));
    ScaleOrdered(1, Pow2(n - 1), 2 * current);
  }

  lemma FlagStep(n: nat, nbits: nat, current: nat)
    requires n > 0 && nbits + n < MAX_BITS && current * Pow2(1) == 2 * current < Pow2(256)
    ensures Packed(Flags(n), nbits, current) == Packed(Flags(n - 1), nbits + 1, 2 * current)
  {
    hide Pow2, Joined, Packed;
    var flags := Flags(n);
    assert flags[1..] == Flags(n - 1);
    PackedStep(flags, nbits, current);
    assert Joined(current, 1, 0) == 2 * current by { OrLowAdds(current, 1, 0); }
  }

  lemma Pow2One(n: nat)
    requires n > 0
    ensures Pow2(1) == 2 && Pow2(n) == 2 * Pow2(n - 1)
  {
  }

  /** How many flags push a byte out of range to the top. */
  function Push(v: Byte): nat {
    if v < 16 then 251 else if v < 32 then 250 else if v < 64 then 249 else if v < 128 then 248 else 247
  }

  lemma PushedBounds(v: Byte)
    requires v >= 4
    ensures PASTA_FP <= (2 * v + 1) * Pow2(Push(v)) < Pow2(256)
  {
    hide Pow2;
    var k, p := Push(v) - 247, Pow2(247);
    Pow2Add(k, 247);
    Pow2Small();
    Pow2One(3);
    Pow2One(4);
    Associates(2 * v + 1, Pow2(k), p);
    var top := (2 * v + 1) * Pow2(k);
    assert 144 <= top <= 511;
    ScaleOrdered(144, top, p);
    ScaleOrdered(top, 511, p);
    FieldOrderBelow();
    Pow2Add(9, 247);
    Pow2One(9);
  }

  lemma FieldOrderBelow()
    ensures PASTA_FP <= 144 * Pow2(247)
  {
    hide Pow2;
    Pow2Doubles(8, 16);
    Pow2Doubles(16, 32);
    Pow2Doubles(32, 64);
    Pow2Doubles(64, 128);
    Pow2Small();
    Pow2Add(64, 55);
    Pow2Add(9, 55);
    Pow2One(9);
    Pow2Add(128, 119);
    assert Pow2(16) == 0x1_0000;
    assert Pow2(32) == 0x1_0000_0000;
    assert Pow2(64) == 0x1_0000_0000_0000_0000;
    assert Pow2(55) == 0x80_0000_0000_0000;
    assert Pow2(119) == 0x80_0000_0000_0000_0000_0000_0000_0000;
  }

  /** The input on which the conversion fails: the item, a set flag, and flags that push both to the top. */
  lemma PushedElement(v: Byte)
    requires v >= 4
    ensures Packed([U2(v), Bool(true)] + Flags(Push(v)), 0, 0) == [(2 * v + 1) * Pow2(Push(v))]
  {
    hide Pow2, Joined, Packed;
    var n := Push(v);
    var items, rest := [U2(v), Bool(true)] + Flags(n), [Bool(true)] + Flags(n);
    PushedBounds(v);
    PackedStep(items, 0, 0);
    assert items[1..] == rest && rest[1..] == Flags(n);
    JoinSmall(0, v);
    PackedStep(rest, 2, v);
    Pow2Small();
    Pow2Monotone(8, 256);
    Pow2Add(1, 8);
    Pow2Monotone(9, 256);
    OrLowAdds(v, 1, 1);
    FlagsShift(n, 3, 2 * v + 1);
  }

  /** Followed by some items in range an item makes the conversion fail exactly when it is out of range itself. */
  lemma ConversionCanFailIff(item: Item)
    requires WellTyped(item)
    ensures (exists tail :: AllInRange(tail) && ConversionFails([item] + tail)) <==> !InRange(item)
  {
    hide Pow2, Packed;
    BelowFieldOrder();
    InRangeIff(item);
    if InRange(item) {
      forall tail | AllInRange(tail) ensures !ConversionFails([item] + tail) {
        Pow2Zero();
        PackedIsAppended([item] + tail, 0, 0);
      }
    } else {
      var v := item.small;
      var tail := [Bool(true)] + Flags(Push(v));
      Pow2Small();
      PushedElement(v);
      PushedBounds(v);
      assert [item] + tail == [U2(v), Bool(true)] + Flags(Push(v));
      assert AllInRange(tail);
      assert Packed([item] + tail, 0, 0)[0] >= PASTA_FP;
    }
  }

  // ----- The inputs of a hash

  /** The bits of a byte, the lowest first. */
  function BitsOf(byte: Byte): seq<Item> {
    seq(8, i requires 0 <= i < 8 => Bool(byte / Pow2(i) % 2 == 1))
  }

  function BytesAsItems(bytes: seq<Byte>): seq<Item> {
    if bytes == [] then [] else BytesAsItems(bytes[..|bytes| - 1]) + BitsOf(bytes[|bytes| - 1])
  }

  /** Flags as a number, the first one lowest. */
  ghost function FlagsValue(items: seq<Item>): nat
    requires forall i :: 0 <= i < |items| ==> items[i].Bool?
  {
    if items == [] then 0 else AsBigint(items[0]) + 2 * FlagsValue(items[1..])
  }

  /** The flags of a byte are its binary digits. */
  lemma BitsAddUp(byte: Byte)
    ensures FlagsValue(BitsOf(byte)) == byte
  {
    DigitsAddUp(byte, 0);
    assert BitsOf(byte)[0..] == BitsOf(byte);
    assert Pow2(0) == 1;
  }

  lemma {:induction false} DigitsAddUp(byte: Byte, i: nat)
    requires i <= 8
    ensures FlagsValue(BitsOf(byte)[i..]) == byte / Pow2(i)
    decreases 8 - i
  {
    var rest := BitsOf(byte)[i..];
    if i == 8 {
      Pow2Small();
    } else {
      DigitsAddUp(byte, i + 1);
      assert rest[1..] == BitsOf(byte)[i + 1..];
      HalfOf(byte, Pow2(i));
    }
  }

  lemma HalfOf(n: nat, d: nat)
    requires d > 0
    ensures n / (2 * d) == n / d / 2
  {
    var q, r := n / d / 2, n / d % 2;
    assert n == (2 * q + r) * d + n % d;
    DivModUnique(n, 2 * d, q, r * d + n % d);
  }

  class Inputs {
    var fields: seq<nat>
    var packeds: seq<Item>

    constructor ()
      ensures fields == [] && packeds == []
    {
      fields, packeds := [], [];
    }

    method Append(item: Item)
      modifies this`packeds
      ensures packeds == old(packeds) + [item]
    {
      packeds := packeds + [item];
    }

    method AppendField(value: nat)
      modifies this`fields
      ensures fields == old(fields) + [value]
    {
      fields := fields + [value];
    }

    method AppendBytes(value: seq<Byte>)
      modifies this`packeds
      ensures packeds == old(packeds) + BytesAsItems(value)
    {
      for k := 0 to |value|
        invariant packeds == old(packeds) + BytesAsItems(value[..k])
      {
        hide BytesAsItems, Pow2;
        ghost var before := packeds;
        for i := 0 to 8
          invariant packeds == before + BitsOf(value[k])[..i]
        {
          Append(Bool(value[k] / Pow2(i) % 2 == 1));
        }
        BytesStep(value, k);
      }
      assert value[..|value|] == value;
    }

    /** For any items: what the limbs hold whenever they are pushed. */
    method ToFields() returns (r: seq<nat>)
      requires forall i :: 0 <= i < |packeds| ==> WellTyped(packeds[i])
      ensures r == fields + Packed(packeds, 0, 0)
    {
      hide Packed, Value, Pow2, AreLimbs, OrLow, AsBigint, NBits, WellTyped;
      r := fields;
      var nbits := 0;
      var current := new nat[4](_ => 0);
      ZeroValue(current[..]);
      for k := 0 to |packeds|
        invariant fresh(current) && current.Length == 4 && AreLimbs(current[..]) && nbits >= 0
        invariant r + Packed(packeds[k..], nbits, Value(current[..])) == fields + Packed(packeds, 0, 0)
      {
        var item := packeds[k];
        PackedStep(packeds[k..], nbits, Value(current[..]));
        assert packeds[k..][1..] == packeds[k + 1..];
        nbits := nbits + NBits(item);
        if nbits < MAX_BITS {
          Shl(current, NBits(item));
          OrFirst(current[..], item);
          current[0] := BitOr(current[0], AsBigint(item));
        } else {
          r := r + [Value(current[..])];
          SetFirst(item);
          current[0], current[1], current[2], current[3] := AsBigint(item), 0, 0, 0;
          assert current[..] == [AsBigint(item), 0, 0, 0];
          nbits := NBits(item);
        }
      }
      PackedDone(nbits, Value(current[..]));
      if nbits > 0 {
        r := r + [Value(current[..])];
      }
    }
  }

  lemma BytesStep(value: seq<Byte>, k: nat)
    requires k < |value|
    ensures BytesAsItems(value[..k + 1]) == BytesAsItems(value[..k]) + BitsOf(value[k])
  {
    assert value[..k + 1][..k] == value[..k];
  }

  lemma PackedStep(items: seq<Item>, nbits: nat, current: nat)
    requires items != []
    ensures Packed(items, nbits, current)
         == var width, value := NBits(items[0]), AsBigint(items[0]);
            if nbits + width < MAX_BITS then Packed(items[1..], nbits + width, Joined(current, width, value))
            else [current] + Packed(items[1..], width, value)
  {
  }

  lemma PackedDone(nbits: nat, current: nat)
    ensures Packed([], nbits, current) == if nbits > 0 then [current] else []
  {
  }

  lemma OrFirst(limbs: seq<nat>, item: Item)
    requires |limbs| == 4 && AreLimbs(limbs) && WellTyped(item)
    ensures var joined := limbs[0 := BitOr(limbs[0], AsBigint(item))];
      AreLimbs(joined) && Value(joined) == OrLow(Value(limbs), AsBigint(item))
  {
    hide Pow2, W, AsBigint, WellTyped, BitOr;
    WIs();
    InRangeIff(item);
    OrBound(limbs[0], AsBigint(item), 64);
    var rest := Value(limbs[1..]);
    DivModUnique(Value(limbs), W(), rest, limbs[0]);
    assert limbs[0 := BitOr(limbs[0], AsBigint(item))][1..] == limbs[1..];
  }

  lemma SetFirst(item: Item)
    requires WellTyped(item)
    ensures AreLimbs([AsBigint(item), 0, 0, 0]) && Value([AsBigint(item), 0, 0, 0]) == AsBigint(item)
  {
    hide Pow2, W, AsBigint, WellTyped;
    WIs();
    InRangeIff(item);
    ZeroValue([0, 0, 0]);
    assert [AsBigint(item), 0, 0, 0][1..] == [0, 0, 0];
  }
}
