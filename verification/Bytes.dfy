/** Bytes and the bit numbering used by every tree:
    bit 0 is the most significant bit of byte 0. */
module Bytes {
  import opened Lpm

  type Byte = bv8

  predicate BitOf(x: Byte, i: nat)
    requires i < 8
  {
    (x >> (7 - i)) & 1 == 1
  }

  /** The bit at `pos`, or 0 past the end. */
  predicate GetBit(b: seq<Byte>, pos: nat) {
    if pos / 8 >= |b| then false else BitOf(b[pos / 8], pos % 8)
  }

  /** The `len` bits that start at `start`. */
  function Slice(b: seq<Byte>, start: nat, len: nat): (r: Bits)
    ensures |r| == len
  {
    seq(len, i requires 0 <= i < len => GetBit(b, start + i))
  }

  function OrBit(x: Byte, i: nat): (r: Byte)
    requires i < 8
    ensures BitOf(r, i)
    ensures forall j :: 0 <= j < 8 && j != i ==> BitOf(r, j) == BitOf(x, j)
  {
    x | (1 << (7 - i))
  }

  /** Packs `length` bits taken from position `start` of `b` into a fresh
      left-aligned buffer, one bit at a time. */
  method ExtractBits(b: seq<Byte>, start: nat, length: nat) returns (packed: seq<Byte>)
    ensures |packed| == (length + 7) / 8
    ensures Slice(packed, 0, length) == Slice(b, start, length)
  {
    hide BitOf;
    NoBits();
    var out := new Byte[(length + 7) / 8](_ => 0);
    assert forall j :: 0 <= j < out.Length ==> out[j] == 0;
    var i := 0;
    while i < length
      invariant 0 <= i <= length
      invariant forall k :: 0 <= k < i ==> GetBit(out[..], k) == GetBit(b, start + k)
      invariant forall k :: i <= k ==> !GetBit(out[..], k)
    {
      ghost var before := out[..];
      if GetBit(b, start + i) {
        out[i / 8] := OrBit(out[i / 8], i % 8);
        SetOneBit(before, out[..], i);
      }
      i := i + 1;
    }
    packed := out[..];
  }

  lemma NoBits()
    ensures forall i :: 0 <= i < 8 ==> !BitOf(0, i)
  {
  }

  lemma SetOneBit(before: seq<Byte>, after: seq<Byte>, i: nat)
    requires i / 8 < |before|
    requires after == before[i / 8 := OrBit(before[i / 8], i % 8)]
    ensures forall k: nat :: GetBit(after, k) == (k == i || GetBit(before, k))
  {
  }

  // ---- Bits and values ----

  lemma ByteValue(x: Byte)
    ensures x as nat ==
      (if BitOf(x, 0) then 128 else 0) + (if BitOf(x, 1) then 64 else 0) + (if BitOf(x, 2) then 32 else 0) +
      (if BitOf(x, 3) then 16 else 0) + (if BitOf(x, 4) then 8 else 0) + (if BitOf(x, 5) then 4 else 0) +
      (if BitOf(x, 6) then 2 else 0) + (if BitOf(x, 7) then 1 else 0)
  {
  }

  /** A byte string as a big-endian number. */
  function BigEndian(b: seq<Byte>): (n: nat) {
    if b == [] then 0 else 256 * BigEndian(b[..|b| - 1]) + b[|b| - 1] as nat
  }

  lemma BitsOnto(b: Bits, s: Bits, n: nat)
    requires n < |s|
    ensures Number(b + s[..n + 1]) == 2 * Number(b + s[..n]) + if s[n] then 1 else 0
  {
    hide Number;
    assert b + s[..n + 1] == b + s[..n] + [s[n]];
    NumberSnoc(b + s[..n], s[n]);
  }

  lemma HalfByteOnto(b: Bits, s: Bits, n: nat)
    requires n + 4 <= |s|
    ensures Number(b + s[..n + 4]) == 16 * Number(b + s[..n]) + (if s[n] then 8 else 0) +
      (if s[n + 1] then 4 else 0) + (if s[n + 2] then 2 else 0) + (if s[n + 3] then 1 else 0)
  {
    hide Number;
    BitsOnto(b, s, n);
    BitsOnto(b, s, n + 1);
    BitsOnto(b, s, n + 2);
    BitsOnto(b, s, n + 3);
  }

  lemma ByteOnto(b: Bits, s: Bits)
    requires |s| == 8
    ensures Number(b + s) == 256 * Number(b) +
      (if s[0] then 128 else 0) + (if s[1] then 64 else 0) + (if s[2] then 32 else 0) + (if s[3] then 16 else 0) +
      (if s[4] then 8 else 0) + (if s[5] then 4 else 0) + (if s[6] then 2 else 0) + (if s[7] then 1 else 0)
  {
    hide Number;
    assert b + s[..0] == b && s[..8] == s;
    HalfByteOnto(b, s, 0);
    HalfByteOnto(b, s, 4);
  }

  lemma EightBits(b: Bits, x: Byte)
    ensures Number(b + Slice([x], 0, 8)) == 256 * Number(b) + x as nat
  {
    hide Number, BitOf;
    var s := Slice([x], 0, 8);
    assert forall i :: 0 <= i < 8 ==> s[i] == BitOf(x, i);
    ByteOnto(b, s);
    ByteValue(x);
  }

  /** The bits of a byte string, first bit first, are its big-endian number. */
  lemma {:induction false} BitsAreBigEndian(b: seq<Byte>)
    ensures Number(Slice(b, 0, 8 * |b|)) == BigEndian(b)
  {
    hide BitOf, Number;
    if b == [] {
      assert Slice(b, 0, 0) == [];
      assert Number([]) == 0 by { NoNumber(); }
    } else {
      var init, x := b[..|b| - 1], b[|b| - 1];
      BitsAreBigEndian(init);
      EightBits(Slice(init, 0, 8 * |init|), x);
      forall i | 0 <= i < 8 * |init| ensures GetBit(b, i) == GetBit(init, i) {}
      forall i | 0 <= i < 8 ensures GetBit(b, 8 * |init| + i) == GetBit([x], i) {
        assert (8 * |init| + i) / 8 == |init| && (8 * |init| + i) % 8 == i;
      }
      assert Slice(b, 0, 8 * |b|) == Slice(init, 0, 8 * |init|) + Slice([x], 0, 8);
    }
  }

  lemma NoNumber()
    ensures Number([]) == 0
  {
  }

  /** Addresses with the same number above their `host` low bits. */
  predicate SameNetwork(a: seq<Byte>, b: seq<Byte>, host: nat) {
    BigEndian(a) / Pow2(host) == BigEndian(b) / Pow2(host)
  }

  /** Membership in a network, by value: the numbers agree once the host bits are divided away. */
  lemma MembershipByValue(net: seq<Byte>, len: nat, addr: seq<Byte>)
    requires len <= 8 * |net| && len <= 8 * |addr|
    ensures Slice(net, 0, len) <= Slice(addr, 0, 8 * |addr|) <==>
      BigEndian(net) / Pow2(8 * |net| - len) == BigEndian(addr) / Pow2(8 * |addr| - len)
  {
    hide Number, GetBit, BitOf;
    var n, a := Slice(net, 0, 8 * |net|), Slice(addr, 0, 8 * |addr|);
    BitsAreBigEndian(net);
    BitsAreBigEndian(addr);
    assert Slice(net, 0, len) == n[..len];
    LeadingBits(n, len);
    PrefixByValue(n[..len], a);
  }

  // ---- Common prefixes ----

  /** Length of the longest common prefix of two bit strings. */
  function CommonLen(a: Bits, b: Bits): (n: nat)
    ensures n <= |a| && n <= |b|
    ensures a[..n] == b[..n]
    ensures n < |a| && n < |b| ==> a[n] != b[n]
  {
    if a == [] || b == [] || a[0] != b[0] then 0
    else
      var n := 1 + CommonLen(a[1..], b[1..]);
      assert a[..n] == [a[0]] + a[1..][..n - 1];
      n
  }

  lemma CommonLenUnique(a: Bits, b: Bits, n: nat)
    requires n <= |a| && n <= |b|
    requires forall i :: 0 <= i < n ==> a[i] == b[i]
    requires n < |a| && n < |b| ==> a[n] != b[n]
    ensures CommonLen(a, b) == n
  {
    var c := CommonLen(a, b);
    assert forall i :: 0 <= i < c ==> a[..c][i] == b[..c][i];
    assert !(n < c) && !(c < n);
  }

  /** Bits shared by `aLen` bits of `a` from `aOffset` and `bLen` bits of `b` from `bOffset`. */
  method CommonPrefixLenOffset(a: seq<Byte>, aOffset: nat, aLen: nat, b: seq<Byte>, bOffset: nat, bLen: nat)
      returns (n: nat)
    ensures n == CommonLen(Slice(a, aOffset, aLen), Slice(b, bOffset, bLen))
  {
    var max := if bLen < aLen then bLen else aLen;
    ghost var x, y := Slice(a, aOffset, aLen), Slice(b, bOffset, bLen);
    n := 0;
    while n < max
      invariant n <= max
      invariant forall i :: 0 <= i < n ==> x[i] == y[i]
    {
      if GetBit(a, aOffset + n) != GetBit(b, bOffset + n) {
        break;
      }
      n := n + 1;
    }
    CommonLenUnique(x, y, n);
  }
}
