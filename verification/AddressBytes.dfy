/**
 Addresses as they are stored: a fixed number of bytes, of which the first `length` bits, the
 highest of each byte first, are the address. What follows them in the buffer can be anything.
 */
module AddressBytes {
  import opened Commands
  import opened Powers
  import opened Limbs
  import opened MerkleTree

  /** An address has five bytes. */
  const ADDRESS_BITS: nat := 40

  /** The bytes as their bits, eight by eight. */
  datatype Raw = Raw(inner: seq<bool>, length: nat)

  ghost predicate Ok(r: Raw) {
    |r.inner| % 8 == 0 && |r.inner| > 0 && r.length <= |r.inner|
  }

  /** The address that is meant. */
  function Bits(r: Raw): Address
    requires r.length <= |r.inner|
  {
    r.inner[..r.length]
  }

  /** `nused_bytes`, in bits. */
  function UsedBits(length: nat): (n: nat)
    ensures n % 8 == 0 && n >= length && n >= 8
    ensures length > 0 ==> n < length + 8
  {
    8 * ((if length == 0 then 0 else (length - 1) / 8) + 1)
  }

  lemma UsedWithin(r: Raw)
    requires Ok(r)
    ensures UsedBits(r.length) <= |r.inner|
  {
  }

  function Fill(n: nat, bit: bool): (s: seq<bool>)
    ensures |s| == n && forall i :: 0 <= i < n ==> s[i] == bit
  {
    seq(n, _ => bit)
  }

  // ----- Next and previous

  /** The last bit that differs from `bit` is at `k`. */
  ghost predicate LastOther(s: seq<bool>, bit: bool, k: nat) {
    k < |s| && s[k] != bit && forall i :: k < i < |s| ==> s[i] == bit
  }

  ghost predicate AllAre(s: seq<bool>, bit: bool) {
    forall i :: 0 <= i < |s| ==> s[i] == bit
  }

  /** Counting up flips the last clear bit and all bits behind it. */
  lemma {:induction false} NextFlips(s: Address, k: nat)
    requires LastOther(s, true, k)
    ensures Next(s) == Some(s[..k] + [true] + Fill(|s| - k - 1, false))
  {
    var n := |s| - 1;
    var init := s[..n];
    if k == n {
      assert s[..k] + [true] + Fill(0, false) == init + [true];
    } else {
      NextFlips(init, k);
      assert init[..k] == s[..k];
      assert s[..k] + [true] + Fill(n - k - 1, false) + [false] == s[..k] + [true] + Fill(n - k, false);
    }
  }

  lemma {:induction false} NextEnds(s: Address)
    requires AllAre(s, true)
    ensures Next(s) == None
  {
    if s != [] { NextEnds(s[..|s| - 1]); }
  }

  lemma {:induction false} PrevFlips(s: Address, k: nat)
    requires LastOther(s, false, k)
    ensures Prev(s) == Some(s[..k] + [false] + Fill(|s| - k - 1, true))
  {
    var n := |s| - 1;
    var init := s[..n];
    if k == n {
      assert s[..k] + [false] + Fill(0, true) == init + [false];
    } else {
      PrevFlips(init, k);
      assert init[..k] == s[..k];
      assert s[..k] + [false] + Fill(n - k - 1, true) + [true] == s[..k] + [false] + Fill(n - k, true);
    }
  }

  lemma {:induction false} PrevEnds(s: Address)
    requires AllAre(s, false)
    ensures Prev(s) == None
  {
    if s != [] { PrevEnds(s[..|s| - 1]); }
  }

  /** `trailing_ones` and `trailing_zeros`. */
  method TrailingRun(byte: seq<bool>, bit: bool) returns (n: nat)
    ensures n <= |byte| && forall i :: |byte| - n <= i < |byte| ==> byte[i] == bit
    ensures n < |byte| ==> byte[|byte| - n - 1] != bit
  {
    n := 0;
    while n < |byte| && byte[|byte| - n - 1] == bit
      invariant n <= |byte| && forall i :: |byte| - n <= i < |byte| ==> byte[i] == bit
    {
      n := n + 1;
    }
  }

  /** A run at the end of a byte continues the run behind the byte. */
  lemma RunContinues(s: seq<bool>, bit: bool, start: nat, end: nat, x: nat)
    requires start <= end <= |s| && x <= end - start && AllAre(s[end..], bit)
    requires forall i :: end - start - x <= i < end - start ==> s[start..end][i] == bit
    ensures AllAre(s[end - x..], bit)
    ensures x < end - start && s[end - x - 1] != bit ==> LastOther(s, bit, end - x - 1)
  {
    forall i | end - x <= i < |s| ensures s[i] == bit {
      if i < end { assert s[start..end][i - start] == s[i]; } else { assert s[end..][i - end] == s[i]; }
    }
  }

  /** Searches the used bytes from the last one on for the last bit that differs. */
  method FindLastOther(s: seq<bool>, bit: bool) returns (r: Option<nat>)
    requires |s| % 8 == 0
    ensures r.None? ==> AllAre(s, bit)
    ensures r.Some? ==> LastOther(s, bit, r.value)
  {
    hide LastOther;
    var end := |s|;
    while end > 0
      invariant 0 <= end <= |s| && end % 8 == 0 && AllAre(s[end..], bit)
    {
      hide AllAre;
      var x := TrailingRun(s[end - 8..end], bit);
      RunContinues(s, bit, end - 8, end, x);
      if x < 8 {
        assert s[end - 8..end][8 - x - 1] == s[end - x - 1];
        return Some(end - x - 1);
      }
      end := end - 8;
    }
    assert s[0..] == s;
    r := None;
  }

  /** `next`: the bits behind the address are set first, so that they do not stop the search. */
  method NextRaw(r: Raw) returns (n: Option<Raw>)
    requires Ok(r)
    ensures n.Some? <==> Next(Bits(r)).Some?
    ensures n.Some? ==> Ok(n.value) && n.value.length == r.length && Bits(n.value) == Next(Bits(r)).value
  {
    if r.length == 0 {
      return None;
    }
    UsedWithin(r);
    var used := UsedBits(r.length);
    var masked := Bits(r) + Fill(used - r.length, true);
    var k := FindLastOther(masked, true);
    if k.None? {
      assert forall i :: 0 <= i < r.length ==> Bits(r)[i] == masked[i];
      NextEnds(Bits(r));
      return None;
    }
    assert k.value < r.length && forall i :: k.value < i < r.length ==> Bits(r)[i] == masked[i];
    NextFlips(Bits(r), k.value);
    var inner := masked[..k.value] + [true] + Fill(used - k.value - 1, false) + r.inner[used..];
    n := Some(Raw(inner, r.length));
    assert inner[..r.length] == Bits(r)[..k.value] + [true] + Fill(r.length - k.value - 1, false);
  }

  /**
   `prev`: the bits behind the address are cleared before the search, and set after it. For the root
   nothing is cleared: if its first byte is not zero a bit is found, and the assertion that the
   address has changed fails, since two addresses of length zero are equal.
   */
  method PrevRaw(r: Raw) returns (n: Option<Raw>, fails: bool)
    requires Ok(r)
    ensures fails <==> r.length == 0 && !AllAre(r.inner[..8], false)
    ensures !fails ==> (n.Some? <==> Prev(Bits(r)).Some?)
    ensures !fails && n.Some? ==>
      Ok(n.value) && n.value.length == r.length && Bits(n.value) == Prev(Bits(r)).value
  {
    UsedWithin(r);
    var used := UsedBits(r.length);
    fails := false;
    if r.length == 0 {
      var one := FindLastOther(r.inner[..used], false);
      PrevEnds([]);
      return None, one.Some?;
    }
    var masked := Bits(r) + Fill(used - r.length, false);
    var k := FindLastOther(masked, false);
    if k.None? {
      assert forall i :: 0 <= i < r.length ==> Bits(r)[i] == masked[i];
      PrevEnds(Bits(r));
      return None, false;
    }
    assert k.value < r.length && forall i :: k.value < i < r.length ==> Bits(r)[i] == masked[i];
    PrevFlips(Bits(r), k.value);
    var inner := masked[..k.value] + [false] + Fill(used - k.value - 1, true) + r.inner[used..];
    n := Some(Raw(inner, r.length));
    assert inner[..r.length] == Bits(r)[..k.value] + [false] + Fill(r.length - k.value - 1, true);
  }

  // ----- Indexes

  lemma {:induction false} IndexConcat(a: Address, b: Address)
    ensures ToIndex(a + b) == ToIndex(a) * Pow2(|b|) + ToIndex(b)
    decreases |b|
  {
    if b == [] {
      assert a + b == a;
    } else {
      var n := |b| - 1;
      IndexConcat(a, b[..n]);
      assert (a + b)[..|a| + n] == a + b[..n];
      assert ToIndex(a + b) == 2 * ToIndex(a + b[..n]) + (if b[n] then 1 else 0);
      assert ToIndex(b) == 2 * ToIndex(b[..n]) + (if b[n] then 1 else 0);
      assert Pow2(|b|) == 2 * Pow2(n);
      hide ToIndex, Pow2;
      Twice(ToIndex(a), Pow2(n));
    }
  }

  /** Shifting a byte right drops its last bits. */
  lemma ShiftedRight(byte: Address, n: nat)
    requires n <= |byte|
    ensures Quotient(ToIndex(byte), Pow2(|byte| - n)) == ToIndex(byte[..n])
  {
    hide Pow2, ToIndex;
    assert byte == byte[..n] + byte[n..];
    IndexConcat(byte[..n], byte[n..]);
    IndexBound(byte[n..]);
    DivModUnique(ToIndex(byte), Pow2(|byte| - n), ToIndex(byte[..n]), ToIndex(byte[n..]));
  }

  /** Or-ing a byte above what is there prepends its bits. */
  lemma OrPrepends(byte: Address, low: Address)
    ensures BitOr(ToIndex(low), ToIndex(byte) * Pow2(|low|)) == ToIndex(byte + low)
  {
    hide Pow2, ToIndex, BitOr;
    IndexBound(low);
    OrCommutes(ToIndex(low), ToIndex(byte) * Pow2(|low|));
    OrAdds(ToIndex(byte), ToIndex(low), |low|);
    IndexConcat(byte, low);
  }

  /** `to_index`: the used bytes from the last one on, the last one without its unused bits. More than 64 do not fit. */
  method ToIndexRaw(r: Raw) returns (index: nat)
    requires Ok(r) && r.length <= 64
    ensures index == ToIndex(Bits(r))
  {
    hide ToIndex, Pow2, BitOr, Quotient;
    EmptyIndex();
    if r.length == 0 {
      return 0;
    }
    UsedWithin(r);
    LastByteIs(r.length);
    ghost var bits := Bits(r);
    assert bits[r.length..] == [];
    var used, unused := UsedBits(r.length), r.length % 8;
    hide UsedBits;
    var n, shift := used / 8, 0;
    index := 0;
    while n > 0
      invariant 0 <= n && 8 * n <= used
      invariant 8 * n == used ==> shift == 0 && index == 0
      invariant 8 * n < used ==> 8 * n < r.length && shift == r.length - 8 * n && index == ToIndex(bits[8 * n..])
    {
      if 8 * n == used && unused != 0 {
        index := LastByte(r, 8 * n);
        shift := shift + unused;
      } else {
        index := PrependByte(r, 8 * n, shift, index);
        shift := shift + 8;
      }
      n := n - 1;
    }
    assert bits[0..] == bits;
  }

  /** The last used byte ends at the end of the address, or holds what is over of it. */
  lemma LastByteIs(length: nat)
    requires length > 0
    ensures var used := UsedBits(length);
      && 8 * (used / 8) == used
      && if length % 8 == 0 then used == length else used - 8 < length < used && length % 8 == length - (used - 8)
  {
  }

  method LastByte(r: Raw, end: nat) returns (index: nat)
    requires Ok(r) && 8 <= end <= |r.inner| && end - 8 < r.length < end && r.length % 8 == r.length - (end - 8)
    ensures index == ToIndex(Bits(r)[end - 8..])
  {
    hide ToIndex, Pow2, BitOr, Quotient;
    var byte, unused := r.inner[end - 8..end], r.length % 8;
    ShiftedRight(byte, unused);
    assert byte[..unused] == Bits(r)[end - 8..];
    OrZeroLeft(Quotient(ToIndex(byte), Pow2(8 - unused)));
    index := BitOr(0, Quotient(ToIndex(byte), Pow2(8 - unused)));
  }

  method PrependByte(r: Raw, end: nat, shift: nat, low: nat) returns (index: nat)
    requires Ok(r) && 8 <= end <= r.length && shift == r.length - end && low == ToIndex(Bits(r)[end..])
    ensures index == ToIndex(Bits(r)[end - 8..])
  {
    hide ToIndex, Pow2, BitOr;
    var byte := r.inner[end - 8..end];
    assert byte + Bits(r)[end..] == Bits(r)[end - 8..];
    OrPrepends(byte, Bits(r)[end..]);
    index := BitOr(low, ToIndex(byte) * Pow2(shift));
  }

  lemma EmptyIndex()
    ensures ToIndex([]) == 0
  {
  }

  lemma OrZeroLeft(a: nat)
    ensures BitOr(0, a) == a
  {
  }

  lemma {:induction false} FromIndexAt(index: nat, length: nat, i: nat)
    requires i < length
    ensures FromIndex(index, length)[i] == (Quotient(index, Pow2(length - 1 - i)) % 2 == 1)
    decreases length
  {
    if i < length - 1 {
      FromIndexAt(index / 2, length - 1, i);
      HalfQuotient(index, Pow2(length - 2 - i));
    }
  }

  lemma HalfQuotient(index: nat, p: nat)
    requires p > 0
    ensures Quotient(index / 2, p) == Quotient(index, 2 * p)
  {
    var q, r := index / 2 / p, index / 2 % p;
    Twice(q, p);
    DivModUnique(index, 2 * p, q, 2 * r + index % 2);
  }

  /** `from_index`: sets the bits that the index has. */
  method FromIndexRaw(index: nat, length: nat, size: nat) returns (r: Raw)
    requires size > 0 && size % 8 == 0 && length <= size
    ensures Ok(r) && r.length == length && Bits(r) == FromIndex(index, length)
  {
    hide FromIndex, Pow2;
    var inner := Fill(size, false);
    for i := 0 to length
      invariant |inner| == size && inner[..i] == FromIndex(index, length)[..i]
      invariant forall j :: i <= j < size ==> !inner[j]
    {
      FromIndexAt(index, length, i);
      ghost var before := inner;
      if Quotient(index, Pow2(length - 1 - i)) % 2 == 1 {
        inner := inner[i := true];
      }
      assert inner[..i + 1] == before[..i] + [FromIndex(index, length)[i]];
      assert FromIndex(index, length)[..i + 1] == FromIndex(index, length)[..i] + [FromIndex(index, length)[i]];
    }
    r := Raw(inner, length);
  }

  // ----- Equality, parents and children

  /** `eq`: whole bytes, then the last used one under a mask. */
  method SameRaw(a: Raw, b: Raw) returns (same: bool)
    requires Ok(a) && Ok(b)
    ensures same <==> Bits(a) == Bits(b)
  {
    if a.length != b.length {
      return false;
    }
    if a.length == 0 {
      return true;
    }
    UsedWithin(a);
    UsedWithin(b);
    var n, last := a.length, UsedBits(a.length) - 8;
    assert Bits(a) == a.inner[..last] + a.inner[last..n] && Bits(b) == b.inner[..last] + b.inner[last..n];
    if a.inner[..last] != b.inner[..last] {
      assert Bits(a)[..last] == a.inner[..last] && Bits(b)[..last] == b.inner[..last];
      return false;
    }
    same := a.inner[last..n] == b.inner[last..n];
    assert Bits(a)[last..] == a.inner[last..n] && Bits(b)[last..] == b.inner[last..n];
  }

  function ParentRaw(r: Raw): Option<Raw> {
    if r.length == 0 then None else Some(Raw(r.inner, r.length - 1))
  }

  function ChildLeftRaw(r: Raw): Raw {
    Raw(r.inner, r.length + 1)
  }

  function ChildRightRaw(r: Raw): Raw
    requires r.length < |r.inner|
  {
    Raw(r.inner[r.length := true], r.length + 1)
  }

  /** The right child always is one; the left child only if the bit behind the address is clear. */
  lemma ChildrenAre(r: Raw)
    requires Ok(r) && r.length < |r.inner|
    ensures Bits(ChildRightRaw(r)) == Bits(r) + [true]
    ensures Bits(ChildLeftRaw(r)) == Bits(r) + [false] <==> !r.inner[r.length]
  {
    assert r.inner[..r.length + 1] == r.inner[..r.length] + [r.inner[r.length]];
  }

  lemma ParentIs(r: Raw)
    requires Ok(r) && r.length > 0
    ensures Bits(ParentRaw(r).value) == Bits(r)[..r.length - 1]
  {
  }

  /** Going up from a right child and down to the left comes back to the right child. */
  lemma LeftOfParent(r: Raw)
    requires Ok(r) && r.length > 0
    ensures ChildLeftRaw(ParentRaw(r).value) == r
  {
  }

  /** The parent of the root's right child is a root whose first byte is not zero, where `prev` fails. */
  lemma ParentOfRightKeepsBit(r: Raw)
    requires Ok(r) && r.length == 0
    ensures var up := ParentRaw(ChildRightRaw(r));
      up.Some? && Ok(up.value) && up.value.length == 0 && !AllAre(up.value.inner[..8], false)
  {
    assert ChildRightRaw(r).inner[..8][0];
  }

  /** Nothing is set behind the address. */
  ghost predicate Clean(r: Raw) {
    forall i :: r.length <= i < |r.inner| ==> !r.inner[i]
  }

  /** Whatever is reached from the root by going down is clean, so there both children are right. */
  lemma ChildrenClean(r: Raw)
    requires Ok(r) && r.length < |r.inner| && Clean(r)
    ensures Clean(ChildLeftRaw(r)) && Clean(ChildRightRaw(r))
    ensures Bits(ChildLeftRaw(r)) == Bits(r) + [false] && Bits(ChildRightRaw(r)) == Bits(r) + [true]
  {
    ChildrenAre(r);
  }
}
