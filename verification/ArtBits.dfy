/** What the byte masks of the adaptive radix tree mean, bit by bit and without the masks. */
module ArtBits {
  import opened Lpm
  import opened ArtNodes
  import opened ArtTree

  /** Bit `i` of a byte, the most significant one first. */
  predicate OctetBit(x: Octet, i: nat)
    requires i < 8
  {
    x / Pow2(7 - i) % 2 == 1
  }

  /** The first `n` bits are the same. */
  ghost predicate Agree(a: seq<Octet>, b: seq<Octet>, n: nat)
    requires n <= 8 * |a| && n <= 8 * |b|
  {
    forall j :: 0 <= j < n ==> OctetBit(a[j / 8], j % 8) == OctetBit(b[j / 8], j % 8)
  }

  // ---- One byte ----

  lemma {:induction false} KeepHighIs(x: nat, width: nat, r: nat)
    requires r <= width
    ensures KeepHigh(x, width, r) == x / Pow2(width - r) * Pow2(width - r)
  {
    if r < width {
      var p := Pow2(width - 1 - r);
      KeepHighIs(x / 2, width - 1, r);
      HalveBoth(x / 2, x % 2, p);
      assert x == 2 * (x / 2) + x % 2;
      var q := x / (2 * p);
      assert q * (2 * p) == 2 * (q * p);
    } else {
      assert Pow2(0) == 1;
    }
  }

  /** The mask keeps the `r` high bits: it divides the others away and multiplies back. */
  lemma MaskIs(x: Octet, r: nat)
    requires r <= 8
    ensures Mask(x, r) == x / Pow2(8 - r) * Pow2(8 - r)
  {
    KeepHighIs(x, 8, r);
  }

  lemma SameProduct(a: nat, b: nat, p: nat)
    requires p > 0
    ensures a * p == b * p <==> a == b
  {
    assert a > b ==> (a - b) * p > 0;
    assert b > a ==> (b - a) * p > 0;
    assert (a - b) * p == a * p - b * p;
  }

  lemma HalfQuotient(x: nat, p: nat)
    requires p > 0
    ensures x / (2 * p) == x / p / 2
  {
    var y, z := x / p, x % p;
    var h := y / 2;
    assert x == y * p + z;
    assert h * (2 * p) == 2 * h * p;
    if y == 2 * h {
      QuotientIs(x, h, 2 * p, z);
    } else {
      assert (2 * h + 1) * p == 2 * h * p + p;
      QuotientIs(x, h, 2 * p, p + z);
    }
  }

  lemma OneMoreBit(x: Octet, r: nat)
    requires r < 8
    ensures x / Pow2(7 - r) == 2 * (x / Pow2(8 - r)) + if OctetBit(x, r) then 1 else 0
  {
    HalfQuotient(x, Pow2(7 - r));
  }

  lemma {:induction false} QuotientsByBits(x: Octet, y: Octet, r: nat)
    requires r <= 8
    ensures x / Pow2(8 - r) == y / Pow2(8 - r) <==> forall i :: 0 <= i < r ==> OctetBit(x, i) == OctetBit(y, i)
  {
    hide OctetBit;
    if r == 0 {
      assert Pow2(8) == 256;
    } else {
      hide Pow2;
      QuotientsByBits(x, y, r - 1);
      OneMoreBit(x, r - 1);
      OneMoreBit(y, r - 1);
    }
  }

  /** Two bytes have the same mask of `r` bits exactly when these bits are the same. */
  lemma MasksByBits(x: Octet, y: Octet, r: nat)
    requires r <= 8
    ensures Mask(x, r) == Mask(y, r) <==> forall i :: 0 <= i < r ==> OctetBit(x, i) == OctetBit(y, i)
  {
    hide OctetBit, Mask, Pow2;
    MaskIs(x, r);
    MaskIs(y, r);
    SameProduct(x / Pow2(8 - r), y / Pow2(8 - r), Pow2(8 - r));
    QuotientsByBits(x, y, r);
  }

  // ---- Networks ----

  lemma BitPosition(i: nat, k: nat)
    requires k < 8
    ensures (8 * i + k) / 8 == i && (8 * i + k) % 8 == k
  {
  }

  lemma AgreeAt(a: seq<Octet>, b: seq<Octet>, n: nat, i: nat, r: nat)
    requires n <= 8 * |a| && n <= 8 * |b| && r <= 8 && 8 * i + r <= n && Agree(a, b, n)
    ensures r > 0 ==> forall k :: 0 <= k < r ==> OctetBit(a[i], k) == OctetBit(b[i], k)
  {
    hide OctetBit;
    forall k | 0 <= k < r ensures r > 0 && OctetBit(a[i], k) == OctetBit(b[i], k) {
      BitPosition(i, k);
      assert OctetBit(a[(8 * i + k) / 8], (8 * i + k) % 8) == OctetBit(b[(8 * i + k) / 8], (8 * i + k) % 8);
    }
  }

  /** Keys have the same routing bytes exactly when their network bits are the same. */
  lemma RoutesByBits(a: seq<Octet>, b: seq<Octet>, len: nat)
    requires RouteLen(len) <= |a| && RouteLen(len) <= |b|
    ensures Route(a, len) == Route(b, len) <==> Agree(a, b, len)
  {
    hide OctetBit, Mask;
    if Agree(a, b, len) {
      forall i | 0 <= i < RouteLen(len) ensures Route(a, len)[i] == Route(b, len)[i] {
        AgreeAt(a, b, len, i, BitsAt(len, i));
        MasksByBits(a[i], b[i], BitsAt(len, i));
      }
    }
    if Route(a, len) == Route(b, len) {
      forall j | 0 <= j < len ensures OctetBit(a[j / 8], j % 8) == OctetBit(b[j / 8], j % 8) {
        var i := j / 8;
        assert Route(a, len)[i] == Route(b, len)[i];
        MasksByBits(a[i], b[i], BitsAt(len, i));
      }
    }
  }

  /** An address is in a network exactly when it has its first `len` bits. */
  lemma CoversByBits(key: seq<Octet>, len: nat, addr: seq<Octet>)
    requires len <= 8 * KEY_BYTES && len <= 8 * |key|
    ensures Covers(CidrOf(key, len), addr) <==> len <= 8 * |addr| && Agree(key, addr, len)
  {
    hide Route, Agree;
    if RouteLen(len) <= |addr| { RoutesByBits(key, addr, len); }
  }

  /** The leaf test is agreement on the network bits, as far as the address goes. */
  lemma TakesByBits(key: seq<Octet>, len: nat, addr: seq<Octet>)
    requires len <= 8 * KEY_BYTES && len <= 8 * |key|
    ensures Takes(CidrOf(key, len), addr) <==> Agree(key, addr, if len <= 8 * |addr| then len else 8 * |addr|)
  {
    hide Agree;
    if len <= 8 * |addr| {
      CoversByBits(key, len, addr);
    } else {
      RoutesByBits(key, addr, 8 * |addr|);
      var c := CidrOf(key, len);
      forall i | 0 <= i < |addr| ensures c.route[i] == key[i] && Route(key, 8 * |addr|)[i] == key[i] {
        WholeByte(key[i]);
      }
      forall i | 0 <= i < |addr| ensures Route(addr, 8 * |addr|)[i] == addr[i] { WholeByte(addr[i]); }
      assert Route(key, 8 * |addr|) == key[..|addr|] == c.route[..|addr|] && Route(addr, 8 * |addr|) == addr;
    }
  }

  lemma WholeByte(x: Octet)
    ensures Mask(x, 8) == x
  {
  }

  /** A network is part of another exactly when it is no shorter and has its bits. */
  lemma ContainsByBits(a: seq<Octet>, len: nat, b: seq<Octet>, len': nat)
    requires len <= 8 * KEY_BYTES && len <= 8 * |a| && len' <= 8 * KEY_BYTES && len' <= 8 * |b|
    ensures Contains(CidrOf(a, len), CidrOf(b, len')) <==> len <= len' && Agree(a, b, len)
  {
    hide Route, Agree;
    if len <= len' {
      RouteTwice(b, len, len');
      RoutesByBits(a, b, len);
    }
  }

  /** What an empty tree answers after one insert: the entry, exactly to the addresses that have its bits
      and whose first byte is the routing byte, with zeros below a length of less than 8. */
  lemma OneEntry<V>(key: seq<Octet>, len: nat, v: V, addr: seq<Octet>)
    requires len <= 8 * KEY_BYTES && len <= 8 * |key|
    ensures Search(Insert(Inner(map[]), key, 0, len, v).0, addr, 0) ==
      if && Agree(key, addr, if len <= 8 * |addr| then len else 8 * |addr|)
         && (len == 0 || (addr != [] && (len < 8 ==> addr[0] % Pow2(8 - len) == 0)))
      then Some(v) else None
  {
    hide Agree;
    var leaf := MakeLeaf(key, len, v);
    TakesByBits(key, len, addr);
    MatchesIsTakes(leaf, addr);
    if len > 0 {
      IndexByteIsRoute(key, 0, len);
      if addr != [] && Takes(CidrOf(key, len), addr) { FirstByte(key, len, addr); }
    }
  }

  /** An address with the network's bits has the routing byte exactly when nothing is set below them. */
  lemma FirstByte(key: seq<Octet>, len: nat, addr: seq<Octet>)
    requires 0 < len <= 8 * |key| && addr != []
    requires Agree(key, addr, if len <= 8 * |addr| then len else 8 * |addr|)
    ensures addr[0] == Route(key, len)[0] <==> (len < 8 ==> addr[0] % Pow2(8 - len) == 0)
  {
    hide OctetBit, Mask, Agree;
    var r := if len < 8 then len else 8;
    AgreeAt(key, addr, if len <= 8 * |addr| then len else 8 * |addr|, 0, r);
    MasksByBits(key[0], addr[0], r);
    assert Route(key, len)[0] == Mask(addr[0], r);
    if len < 8 {
      MaskIs(addr[0], r);
      hide Pow2;
      assert addr[0] == addr[0] / Pow2(8 - r) * Pow2(8 - r) + addr[0] % Pow2(8 - r);
    } else {
      WholeByte(addr[0]);
    }
  }
}
