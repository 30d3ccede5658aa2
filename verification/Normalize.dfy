/** CIDR prefixes as the two XDP loaders see them, and the two normalisers. */
module Normalize {
  import opened Lpm

  /** An address prefix as received: `addr` may carry host bits below `len`. */
  datatype Net = Net(v6: bool, addr: Bits, len: nat)

  function Width(v6: bool): (w: nat) { if v6 then 128 else 32 }

  predicate ValidNet(n: Net) { |n.addr| == Width(n.v6) && n.len <= |n.addr| }

  function Fill(n: nat, b: bool): (r: Bits)
    ensures |r| == n && forall i :: 0 <= i < n ==> r[i] == b
  {
    if n == 0 then [] else [b] + Fill(n - 1, b)
  }

  /** The network bits. */
  function Key(n: Net): (k: Bits) {
    if n.len <= |n.addr| then n.addr[..n.len] else n.addr
  }

  /** Host bits zeroed. */
  function Masked(n: Net): (r: Net)
    requires ValidNet(n)
    ensures ValidNet(r) && Key(r) == Key(n) && r.v6 == n.v6 && r.len == n.len
  {
    n.(addr := n.addr[..n.len] + Fill(|n.addr| - n.len, false))
  }

  /** The IPv4-mapped range ::ffff:0:0/96 (section 2.5.5.2 of RFC 4291). */
  const MAPPED: Bits := Fill(80, false) + Fill(16, true)

  lemma MappedWidth()
    ensures |MAPPED| == 96
  {
  }

  predicate IsMapped(n: Net) {
    n.v6 && MAPPED <= n.addr
  }

  predicate InNet(n: Net, v6: bool, addr: Bits) {
    n.v6 == v6 && Key(n) <= addr
  }

  datatype Config = Config(minV4: nat, minV6: nat, neverBlock: seq<Net>)

  ghost predicate ValidConfig(c: Config) {
    forall i :: 0 <= i < |c.neverBlock| ==> ValidNet(c.neverBlock[i])
  }

  datatype Rejection = MappedTooShort | TooShort | Protected(range: Net)

  datatype Result = Accept(net: Net) | Reject(why: Rejection)

  function Minimum(c: Config, v6: bool): (m: nat) { if v6 then c.minV6 else c.minV4 }

  // ---- Rust ----

  /** Range containment by first and last address. */
  predicate RangeContains(a: Net, b: Net)
    requires ValidNet(a) && ValidNet(b)
  {
    && Number(Key(a) + Fill(|a.addr| - a.len, false)) <= Number(Key(b) + Fill(|b.addr| - b.len, false))
    && Number(Key(b) + Fill(|b.addr| - b.len, true)) <= Number(Key(a) + Fill(|a.addr| - a.len, true))
  }

  predicate RustOverlaps(a: Net, b: Net)
    requires ValidNet(a) && ValidNet(b)
  {
    a.v6 == b.v6 && (RangeContains(a, b) || RangeContains(b, a))
  }

  function FirstProtected(nets: seq<Net>, n: Net): (r: Option<Net>)
    requires ValidNet(n) && forall i :: 0 <= i < |nets| ==> ValidNet(nets[i])
  {
    if nets == [] then None
    else if RustOverlaps(n, nets[0]) then Some(nets[0])
    else FirstProtected(nets[1..], n)
  }

  function Unmapped(n: Net): (r: Net)
    requires ValidNet(n) && IsMapped(n) && n.len >= 96
    ensures ValidNet(r) && !r.v6
  {
    Net(false, n.addr[96..], n.len - 96)
  }

  /** Truncated, and IPv4 if it is a mapped one: the prefix the tests are made on. */
  function Tested(n: Net): (t: Net)
    requires ValidNet(n)
    ensures ValidNet(t)
  {
    var m := Masked(n);
    if m.v6 && m.len >= 96 && IsMapped(m) then Unmapped(m) else m
  }

  function RustNormalize(c: Config, n: Net): (r: Result)
    requires ValidConfig(c) && ValidNet(n)
  {
    var t := Tested(n);
    if t.len < Minimum(c, t.v6) then Reject(TooShort)
    else
      var p := FirstProtected(c.neverBlock, t);
      if p.Some? then Reject(Protected(p.value)) else Accept(t)
  }

  // ---- Go ----

  /** Overlap by comparing the shorter length's bits. */
  predicate GoOverlaps(a: Net, b: Net)
    requires ValidNet(a) && ValidNet(b)
  {
    && a.v6 == b.v6
    && var k := if a.len < b.len then a.len else b.len;
       a.addr[..k] == b.addr[..k]
  }

  /** The Go normaliser, step by step: the same verdict and the same prefix as the Rust one. */
  method GoNormalize(c: Config, n: Net) returns (r: Result)
    requires ValidConfig(c) && ValidNet(n)
    ensures r == RustNormalize(c, n)
  {
    var p := Masked(n);
    MaskedMappedIsLong(n);
    if IsMapped(p) {
      if p.len < 96 {
        return Reject(MappedTooShort);
      }
      p := Net(false, p.addr[96..], p.len - 96);
    }
    var min := if p.v6 then c.minV6 else c.minV4;
    if p.len < min {
      return Reject(TooShort);
    }
    var i := 0;
    assert c.neverBlock[0..] == c.neverBlock;
    while i < |c.neverBlock|
      invariant i <= |c.neverBlock|
      invariant FirstProtected(c.neverBlock, p) == FirstProtected(c.neverBlock[i..], p)
    {
      OverlapsAgree(p, c.neverBlock[i]);
      if GoOverlaps(p, c.neverBlock[i]) {
        return Reject(Protected(c.neverBlock[i]));
      }
      assert c.neverBlock[i..][1..] == c.neverBlock[i + 1..];
      i := i + 1;
    }
    r := Accept(p);
  }

  /** A masked prefix inside the mapped range is at least /96, so the "shorter than /96" error cannot occur. */
  lemma MaskedMappedIsLong(n: Net)
    requires ValidNet(n)
    ensures IsMapped(Masked(n)) ==> n.len >= 96
  {
    var m := Masked(n);
    assert IsMapped(m) ==> m.addr[95] == MAPPED[95] == true;
    assert n.v6 && n.len < 96 ==> !m.addr[95];
  }

  lemma {:induction false} FillNumber(n: nat)
    ensures Number(Fill(n, false)) == 0 && Number(Fill(n, true)) == Pow2(n) - 1
  {
    if n > 0 {
      assert Fill(n, false)[1..] == Fill(n - 1, false) && Fill(n, true)[1..] == Fill(n - 1, true);
      FillNumber(n - 1);
    }
  }

  /** The range of the addresses that start with `k`, `w` bits long. */
  function Low(k: Bits, w: nat): (n: nat)
    requires |k| <= w
  {
    Number(k + Fill(w - |k|, false))
  }

  function High(k: Bits, w: nat): (n: nat)
    requires |k| <= w
  {
    Number(k + Fill(w - |k|, true))
  }

  lemma RangeStep(k: Bits, w: nat)
    requires 0 < |k| <= w
    ensures Low(k, w) == (if k[0] then Pow2(w - 1) else 0) + Low(k[1..], w - 1)
    ensures High(k, w) == (if k[0] then Pow2(w - 1) else 0) + High(k[1..], w - 1)
  {
    assert (k + Fill(w - |k|, false))[1..] == k[1..] + Fill(w - |k|, false);
    assert (k + Fill(w - |k|, true))[1..] == k[1..] + Fill(w - |k|, true);
  }

  lemma WholeRange(w: nat)
    ensures Low([], w) == 0 && High([], w) == Pow2(w) - 1
  {
    assert [] + Fill(w, false) == Fill(w, false) && [] + Fill(w, true) == Fill(w, true);
    FillNumber(w);
  }

  /** One address range contains another exactly when its network bits are a prefix. */
  lemma {:induction false} RangeIsPrefix(a: Bits, b: Bits, w: nat)
    requires |a| <= w && |b| <= w
    ensures Low(a, w) <= Low(b, w) && High(b, w) <= High(a, w) <==> a <= b
    decreases w
  {
    hide Low, High, Number, Fill;
    RangeBounds(a, w);
    RangeBounds(b, w);
    if a == [] {
      WholeRange(w);
    } else if b == [] {
      WholeRange(w);
      RangeStep(a, w);
      RangeBounds(a[1..], w - 1);
    } else {
      RangeStep(a, w);
      RangeStep(b, w);
      RangeBounds(a[1..], w - 1);
      RangeBounds(b[1..], w - 1);
      RangeIsPrefix(a[1..], b[1..], w - 1);
      assert a == [a[0]] + a[1..] && b == [b[0]] + b[1..];
    }
  }

  lemma RangeBounds(k: Bits, w: nat)
    requires |k| <= w
    ensures 0 <= Low(k, w) <= High(k, w) < Pow2(w)
    decreases k
  {
    if k == [] {
      WholeRange(w);
    } else {
      RangeStep(k, w);
      RangeBounds(k[1..], w - 1);
    }
  }

  /** The two overlap tests agree. */
  lemma OverlapsAgree(a: Net, b: Net)
    requires ValidNet(a) && ValidNet(b)
    ensures GoOverlaps(a, b) <==> RustOverlaps(a, b)
    ensures GoOverlaps(a, b) <==> a.v6 == b.v6 && (Key(a) <= Key(b) || Key(b) <= Key(a))
  {
    hide Number, Fill, Pow2;
    if a.v6 == b.v6 {
      RangeIsPrefix(Key(a), Key(b), |a.addr|);
      RangeIsPrefix(Key(b), Key(a), |a.addr|);
      if a.len < b.len {
        assert b.addr[..a.len] == Key(b)[..a.len];
      } else {
        assert a.addr[..b.len] == Key(a)[..b.len];
      }
    }
  }

  /** Overlap means a shared address. */
  lemma OverlapIsSharedAddress(a: Net, b: Net)
    requires ValidNet(a) && ValidNet(b)
    ensures RustOverlaps(a, b) <==> a.v6 == b.v6 && exists addr :: InNet(a, a.v6, addr) && InNet(b, b.v6, addr)
  {
    OverlapsAgree(a, b);
    if a.v6 == b.v6 {
      if Key(a) <= Key(b) {
        assert InNet(a, a.v6, Key(b)) && InNet(b, b.v6, Key(b));
      } else if Key(b) <= Key(a) {
        assert InNet(a, a.v6, Key(a)) && InNet(b, b.v6, Key(a));
      }
      forall addr | InNet(a, a.v6, addr) && InNet(b, b.v6, addr) ensures Key(a) <= Key(b) || Key(b) <= Key(a) {
        PrefixesNest(Key(a), Key(b), addr);
      }
    }
  }

  lemma PrefixesNest(a: Bits, b: Bits, addr: Bits)
    requires a <= addr && b <= addr
    ensures a <= b || b <= a
  {
  }

  lemma {:induction false} FirstProtectedIs(nets: seq<Net>, n: Net)
    requires ValidNet(n) && forall i :: 0 <= i < |nets| ==> ValidNet(nets[i])
    ensures FirstProtected(nets, n).None? <==> forall i :: 0 <= i < |nets| ==> !RustOverlaps(n, nets[i])
  {
    hide RustOverlaps;
    if nets != [] {
      FirstProtectedIs(nets[1..], n);
      assert forall i :: 1 <= i < |nets| ==> nets[i] == nets[1..][i - 1];
    }
  }

  /** What acceptance guarantees: masked, long enough, and sharing no address with a protected range. */
  ghost predicate Acceptable(c: Config, n: Net)
    requires ValidConfig(c)
  {
    && ValidNet(n) && Masked(n) == n && n.len >= Minimum(c, n.v6)
    && forall i :: 0 <= i < |c.neverBlock| ==> !RustOverlaps(n, c.neverBlock[i])
  }

  lemma AcceptedIsAcceptable(c: Config, n: Net)
    requires ValidConfig(c) && ValidNet(n)
    ensures var r := RustNormalize(c, n); r.Accept? ==> Acceptable(c, r.net)
  {
    hide RustOverlaps;
    MaskedTwice(n);
    FirstProtectedIs(c.neverBlock, Tested(n));
  }

  lemma MaskedTwice(n: Net)
    requires ValidNet(n)
    ensures Masked(Masked(n)) == Masked(n)
    ensures var m := Masked(n); IsMapped(m) && m.len >= 96 ==> Masked(Unmapped(m)) == Unmapped(m)
  {
    var m := Masked(n);
    if IsMapped(m) && m.len >= 96 {
      var u := Unmapped(m);
      assert forall i :: u.len <= i < 32 ==> u.addr[i] == m.addr[96 + i] == false;
    }
  }

  /** Normalising twice changes nothing more. */
  lemma NormalizeIdempotent(c: Config, n: Net)
    requires ValidConfig(c) && ValidNet(n)
    ensures var r := RustNormalize(c, n);
      r.Accept? ==> ValidNet(r.net) && RustNormalize(c, r.net) == r
  {
    hide RustOverlaps, FirstProtected;
    MaskedTwice(n);
  }

  lemma UnmappedKey(n: Net)
    requires ValidNet(n) && IsMapped(Masked(n)) && n.len >= 96
    ensures Tested(n) == Unmapped(Masked(n)) && Key(n) == MAPPED + Key(Tested(n))
  {
    hide Fill, MAPPED;
    MappedWidth();
    var m := Masked(n);
    assert MAPPED == m.addr[..96];
    assert Key(m) == m.addr[..96] + m.addr[96..n.len];
  }

  /** An IPv4 address is in the result exactly when its mapped IPv6 form was in the input. */
  lemma MappedMembership(c: Config, n: Net, addr: Bits)
    requires ValidConfig(c) && ValidNet(n) && |addr| == 32 && IsMapped(Masked(n))
    ensures n.len >= 96
    ensures var r := RustNormalize(c, n);
      r.Accept? ==> ValidNet(r.net) && (InNet(r.net, false, addr) <==> InNet(n, true, MAPPED + addr))
  {
    MaskedMappedIsLong(n);
    UnmappedKey(n);
    hide Fill, MAPPED, FirstProtected, Masked, Key, Tested;
    CommonPrefixDrops(MAPPED, Key(Tested(n)), addr);
  }

  lemma CommonPrefixDrops(p: Bits, a: Bits, b: Bits)
    ensures p + a <= p + b <==> a <= b
  {
    if p + a <= p + b {
      assert forall i :: 0 <= i < |a| ==> a[i] == (p + a)[|p| + i] == (p + b)[|p| + i] == b[i];
    }
  }

  // ---- Exactly what is accepted, by addresses and lengths alone ----

  /** An address of the range, as it is written. */
  predicate InRange(n: Net, v6: bool, addr: Bits)
    requires ValidNet(n)
  {
    n.v6 == v6 && |addr| == |n.addr| && addr[..n.len] == n.addr[..n.len]
  }

  /** An IPv6 prefix of IPv4-mapped addresses: 80 zero bits, then 16 ones. */
  predicate InMapped(n: Net)
    requires ValidNet(n)
  {
    n.v6 && n.len >= 96 && Number(n.addr[..96]) == 0xFFFF
  }

  /** An address the prefix stands for: a mapped one stands for IPv4 addresses. */
  predicate StandsFor(n: Net, v6: bool, addr: Bits)
    requires ValidNet(n)
  {
    if InMapped(n) then !v6 && |addr| == 32 && addr[..n.len - 96] == n.addr[96..n.len] else InRange(n, v6, addr)
  }

  predicate LongEnough(c: Config, n: Net)
    requires ValidNet(n)
  {
    if InMapped(n) then n.len - 96 >= c.minV4 else if n.v6 then n.len >= c.minV6 else n.len >= c.minV4
  }

  /** The range shares an address with what the prefix stands for. */
  ghost predicate Shares(n: Net, range: Net)
    requires ValidNet(n) && ValidNet(range)
  {
    exists v6, addr :: InRange(range, v6, addr) && StandsFor(n, v6, addr)
  }

  ghost predicate HitsProtected(c: Config, n: Net)
    requires ValidConfig(c) && ValidNet(n)
  {
    exists i :: 0 <= i < |c.neverBlock| && Shares(n, c.neverBlock[i])
  }

  lemma {:induction false} LeadingZeros(n: nat, b: Bits)
    ensures Number(Fill(n, false) + b) == Number(b)
  {
    if n == 0 {
      assert Fill(0, false) + b == b;
    } else {
      LeadingZeros(n - 1, b);
      assert (Fill(n, false) + b)[1..] == Fill(n - 1, false) + b;
    }
  }

  lemma SixteenOnes()
    ensures Number(Fill(16, true)) == 0xFFFF
  {
    hide Number, Fill;
    FillNumber(16);
    TwoToThe16();
  }

  lemma TwoToThe16()
    ensures Pow2(16) == 0x1_0000
  {
    assert Pow2(4) == 16 && Pow2(8) == 256 && Pow2(12) == 4096;
  }

  lemma MappedNumber(b: Bits)
    requires |b| == 96
    ensures Number(b) == 0xFFFF <==> b == MAPPED
  {
    hide Number, Fill;
    MappedWidth();
    SixteenOnes();
    LeadingZeros(80, Fill(16, true));
    assert Number(MAPPED) == 0xFFFF;
    if Number(b) == 0xFFFF { NumberDetermines(b, MAPPED); }
  }

  /** The two ways to say that the prefix is a mapped one. */
  lemma MappedEitherWay(n: Net)
    requires ValidNet(n)
    ensures InMapped(n) <==> n.len >= 96 && IsMapped(Masked(n))
  {
    hide Number, Fill, MAPPED;
    MappedWidth();
    if n.v6 && n.len >= 96 {
      MappedNumber(n.addr[..96]);
      assert Masked(n).addr[..96] == n.addr[..96];
      assert MAPPED <= Masked(n).addr <==> Masked(n).addr[..96] == MAPPED;
    }
  }

  lemma TestedIs(n: Net)
    requires ValidNet(n)
    ensures var t := Tested(n);
      && t.v6 == (n.v6 && !InMapped(n)) && t.len == (if InMapped(n) then n.len - 96 else n.len)
      && (forall j :: t.len <= j < |t.addr| ==> !t.addr[j])
      && (forall v6, addr :: InRange(t, v6, addr) <==> StandsFor(n, v6, addr))
  {
    MappedEitherWay(n);
    hide InMapped, IsMapped;
    var m, t := Masked(n), Tested(n);
    assert m.addr[..n.len] == n.addr[..n.len];
    if InMapped(n) {
      assert t.addr[..t.len] == m.addr[96..n.len] == m.addr[..n.len][96..] == n.addr[96..n.len];
      assert forall j :: t.len <= j < 32 ==> t.addr[j] == m.addr[96 + j];
    }
  }

  /** Overlap is an address in both ranges. */
  lemma OverlapIsInBoth(a: Net, b: Net)
    requires ValidNet(a) && ValidNet(b)
    ensures RustOverlaps(a, b) <==> exists v6, addr :: InRange(a, v6, addr) && InRange(b, v6, addr)
  {
    hide RustOverlaps;
    OverlapsAgree(a, b);
    if a.v6 == b.v6 && Key(a) <= Key(b) {
      assert b.addr[..a.len] == Key(b)[..a.len] == a.addr[..a.len];
      assert InRange(a, a.v6, b.addr) && InRange(b, a.v6, b.addr);
    }
    if a.v6 == b.v6 && Key(b) <= Key(a) {
      assert a.addr[..b.len] == Key(a)[..b.len] == b.addr[..b.len];
      assert InRange(a, a.v6, a.addr) && InRange(b, a.v6, a.addr);
    }
    forall v6, addr | InRange(a, v6, addr) && InRange(b, v6, addr) ensures Key(a) <= Key(b) || Key(b) <= Key(a) {
      PrefixesNest(Key(a), Key(b), addr);
    }
  }

  lemma SharesIsOverlap(n: Net, range: Net)
    requires ValidNet(n) && ValidNet(range)
    ensures RustOverlaps(Tested(n), range) <==> Shares(n, range)
  {
    hide RustOverlaps, InRange, StandsFor;
    TestedIs(n);
    hide Tested;
    OverlapIsInBoth(Tested(n), range);
  }

  lemma ProtectedIff(c: Config, n: Net)
    requires ValidConfig(c) && ValidNet(n)
    ensures FirstProtected(c.neverBlock, Tested(n)).Some? <==> HitsProtected(c, n)
  {
    hide RustOverlaps, Shares, Tested, FirstProtected;
    FirstProtectedIs(c.neverBlock, Tested(n));
    forall i | 0 <= i < |c.neverBlock|
      ensures RustOverlaps(Tested(n), c.neverBlock[i]) <==> Shares(n, c.neverBlock[i])
    {
      SharesIsOverlap(n, c.neverBlock[i]);
    }
  }

  lemma {:induction false} FirstProtectedAt(nets: seq<Net>, n: Net) returns (i: nat)
    requires ValidNet(n) && forall j :: 0 <= j < |nets| ==> ValidNet(nets[j])
    requires FirstProtected(nets, n).Some?
    ensures i < |nets| && FirstProtected(nets, n) == Some(nets[i]) && RustOverlaps(n, nets[i])
    ensures forall j :: 0 <= j < i ==> !RustOverlaps(n, nets[j])
  {
    hide RustOverlaps;
    if RustOverlaps(n, nets[0]) {
      i := 0;
    } else {
      i := FirstProtectedAt(nets[1..], n);
      assert forall j :: 1 <= j < |nets| ==> nets[j] == nets[1..][j - 1];
      i := i + 1;
    }
  }

  /** A rejection for a protected range names the first one that shares an address with the prefix. */
  lemma RejectionNamesFirst(c: Config, n: Net) returns (i: nat)
    requires ValidConfig(c) && ValidNet(n)
    requires RustNormalize(c, n).Reject? && RustNormalize(c, n).why.Protected?
    ensures i < |c.neverBlock| && RustNormalize(c, n) == Reject(Protected(c.neverBlock[i]))
    ensures Shares(n, c.neverBlock[i]) && forall j :: 0 <= j < i ==> !Shares(n, c.neverBlock[j])
  {
    hide RustOverlaps, Shares, Tested, FirstProtected;
    i := FirstProtectedAt(c.neverBlock, Tested(n));
    forall j | 0 <= j < |c.neverBlock|
      ensures RustOverlaps(Tested(n), c.neverBlock[j]) <==> Shares(n, c.neverBlock[j])
    {
      SharesIsOverlap(n, c.neverBlock[j]);
    }
  }

  /** A prefix is accepted if and only if it is long enough for the family of the addresses it stands for, and
      none of these addresses is protected. What is accepted has the same addresses, and no host bits. */
  lemma AcceptedIff(c: Config, n: Net)
    requires ValidConfig(c) && ValidNet(n)
    ensures var r := RustNormalize(c, n);
      && (r.Accept? <==> LongEnough(c, n) && !HitsProtected(c, n))
      && (r == Reject(TooShort) <==> !LongEnough(c, n))
      && (r.Accept? ==> ValidNet(r.net) && forall v6, addr :: InRange(r.net, v6, addr) <==> StandsFor(n, v6, addr))
      && (r.Accept? ==> forall j :: r.net.len <= j < |r.net.addr| ==> !r.net.addr[j])
  {
    ProtectedIff(c, n);
    TestedIs(n);
    hide InRange, StandsFor, FirstProtected, HitsProtected, InMapped, Tested;
  }
}
