/** The specification shared by every engine: a finite map from bit strings
    (CIDR prefixes, section 3.1 of RFC 4632) to values, and the value of the
    longest stored prefix of an address (section 5.2.4.3 of RFC 1812). */
module Lpm {

  datatype Option<+T> = None | Some(value: T)

  type Bits = seq<bool>

  /** The longest stored prefix of `addr` among those of length at most `n`. */
  function LongestUpTo<V>(m: map<Bits, V>, addr: Bits, n: nat): (r: Option<V>)
    requires n <= |addr|
  {
    if addr[..n] in m then Some(m[addr[..n]])
    else if n == 0 then None
    else LongestUpTo(m, addr, n - 1)
  }

  function Longest<V>(m: map<Bits, V>, addr: Bits): (r: Option<V>) {
    LongestUpTo(m, addr, |addr|)
  }

  /** Stored prefix of length `n` with no longer stored prefix of `addr`. */
  ghost predicate IsLongestAt<V>(m: map<Bits, V>, addr: Bits, n: nat) {
    && n <= |addr|
    && addr[..n] in m
    && forall k :: n < k <= |addr| ==> addr[..k] !in m
  }

  ghost predicate NoPrefix<V>(m: map<Bits, V>, addr: Bits) {
    forall k :: 0 <= k <= |addr| ==> addr[..k] !in m
  }

  /** `r` is what longest-prefix match must answer, stated without recursion. */
  ghost predicate IsLongest<V>(m: map<Bits, V>, addr: Bits, r: Option<V>) {
    match r
    case None => NoPrefix(m, addr)
    case Some(v) => exists n: nat :: IsLongestAt(m, addr, n) && m[addr[..n]] == v
  }

  lemma {:induction false} LongestUpToIs<V>(m: map<Bits, V>, addr: Bits, n: nat)
    requires n <= |addr|
    requires forall k :: n < k <= |addr| ==> addr[..k] !in m
    ensures IsLongest(m, addr, LongestUpTo(m, addr, n))
  {
    if addr[..n] in m {
      assert IsLongestAt(m, addr, n);
    } else if n > 0 {
      LongestUpToIs(m, addr, n - 1);
    }
  }

  /** `Longest` meets the declarative statement, and is the only answer that does. */
  lemma LongestIsExact<V>(m: map<Bits, V>, addr: Bits, r: Option<V>)
    ensures IsLongest(m, addr, r) <==> r == Longest(m, addr)
  {
    LongestUpToIs(m, addr, |addr|);
    if IsLongest(m, addr, r) {
      IsLongestUnique(m, addr, r, Longest(m, addr));
    }
  }

  lemma IsLongestUnique<V>(m: map<Bits, V>, addr: Bits, r: Option<V>, s: Option<V>)
    requires IsLongest(m, addr, r) && IsLongest(m, addr, s)
    ensures r == s
  {
    if r.Some? {
      var i: nat :| IsLongestAt(m, addr, i) && m[addr[..i]] == r.value;
      assert s.Some?;
      var j: nat :| IsLongestAt(m, addr, j) && m[addr[..j]] == s.value;
      assert i == j;
    }
  }

  lemma {:induction false} AgreeingMapsUpTo<V>(m: map<Bits, V>, m': map<Bits, V>, addr: Bits, n: nat)
    requires n <= |addr|
    requires forall k {:trigger addr[..k]} :: 0 <= k <= n ==>
      (addr[..k] in m <==> addr[..k] in m') && (addr[..k] in m ==> m[addr[..k]] == m'[addr[..k]])
    ensures LongestUpTo(m, addr, n) == LongestUpTo(m', addr, n)
  {
    assert addr[..n] in m <==> addr[..n] in m';
    if addr[..n] !in m && n > 0 {
      AgreeingMapsUpTo(m, m', addr, n - 1);
    }
  }

  /** A change to prefix `p` affects only the addresses `p` covers. */
  lemma ChangeIsLocal<V>(m: map<Bits, V>, m': map<Bits, V>, p: Bits, addr: Bits)
    requires m - {p} == m' - {p}
    requires !(p <= addr)
    ensures Longest(m, addr) == Longest(m', addr)
  {
    forall k | 0 <= k <= |addr|
      ensures addr[..k] in m <==> addr[..k] in m'
      ensures addr[..k] in m ==> m[addr[..k]] == m'[addr[..k]]
    {
      assert addr[..k] != p;
      assert addr[..k] in m ==> addr[..k] in m - {p};
      assert addr[..k] in m' ==> addr[..k] in m' - {p};
    }
    AgreeingMapsUpTo(m, m', addr, |addr|);
  }

  /** An address notices that `p` is gone exactly when `p` was its longest match; it then
      falls back to its next shorter one. */
  lemma RemovalFallsBack<V>(m: map<Bits, V>, p: Bits, addr: Bits)
    ensures Longest(m - {p}, addr) ==
      if p <= addr && IsLongestAt(m, addr, |p|) then (if p == [] then None else LongestUpTo(m, addr, |p| - 1))
      else Longest(m, addr)
  {
    if !(p <= addr) {
      assert (m - {p}) - {p} == m - {p};
      ChangeIsLocal(m, m - {p}, p, addr);
    } else {
      assert addr[..|p|] == p;
      forall k | 0 <= k <= |addr| && k != |p| ensures addr[..k] in m - {p} <==> addr[..k] in m {
        assert |addr[..k]| != |p|;
      }
      SkipTo(m - {p}, addr, |addr|, |p|);
      SkipTo(m, addr, |addr|, |p|);
      if p != [] { AgreeingMapsUpTo(m - {p}, m, addr, |p| - 1); }
      SameAbove(m, p, addr, |addr|);
    }
  }

  /** With nothing stored above length `lo`, the search starts there. */
  lemma {:induction false} SkipTo<V>(m: map<Bits, V>, addr: Bits, hi: nat, lo: nat)
    requires lo <= hi <= |addr|
    ensures (forall k :: lo < k <= hi ==> addr[..k] !in m) ==> LongestUpTo(m, addr, hi) == LongestUpTo(m, addr, lo)
  {
    if lo < hi { SkipTo(m, addr, hi - 1, lo); }
  }

  lemma {:induction false} SameAbove<V>(m: map<Bits, V>, p: Bits, addr: Bits, n: nat)
    requires p <= addr && |p| <= n <= |addr|
    ensures (exists k :: |p| < k <= n && addr[..k] in m) || p !in m ==>
      LongestUpTo(m - {p}, addr, n) == LongestUpTo(m, addr, n)
  {
    assert |addr[..n]| == n;
    if p !in m {
      assert m - {p} == m;
    } else if n > |p| && addr[..n] !in m {
      SameAbove(m, p, addr, n - 1);
    }
  }

  // ---- Bits as numbers ----

  function Pow2(n: nat): (p: nat)
    ensures p > 0
  {
    if n == 0 then 1 else 2 * Pow2(n - 1)
  }

  /** A bit string as a number, most significant bit first. */
  function Number(b: Bits): (n: nat)
    ensures n < Pow2(|b|)
  {
    if b == [] then 0 else (if b[0] then Pow2(|b| - 1) else 0) + Number(b[1..])
  }

  lemma {:induction false} NumberSnoc(b: Bits, x: bool)
    ensures Number(b + [x]) == 2 * Number(b) + if x then 1 else 0
  {
    if b == [] {
      assert [] + [x] == [x] && [x][1..] == [];
    } else {
      NumberSnoc(b[1..], x);
      assert (b + [x])[1..] == b[1..] + [x];
    }
  }

  lemma {:induction false} NumberDetermines(a: Bits, b: Bits)
    requires |a| == |b| && Number(a) == Number(b)
    ensures a == b
  {
    if a != [] {
      NumberDetermines(a[1..], b[1..]);
      assert a == [a[0]] + a[1..] && b == [b[0]] + b[1..];
    }
  }

  lemma QuotientIs(n: nat, q: nat, d: nat, r: nat)
    requires r < d && n == q * d + r
    ensures n / d == q
  {
    var k := n / d - q;
    assert k * d == r - n % d by { assert n == n / d * d + n % d; }
    assert k >= 1 ==> k * d >= d;
    assert k <= -1 ==> k * d + d <= 0;
  }

  lemma HalveBoth(n: nat, bit: nat, d: nat)
    requires bit < 2 && d > 0
    ensures (2 * n + bit) / (2 * d) == n / d
  {
    var q, r := n / d, n % d;
    assert q * (2 * d) == 2 * (q * d);
    assert n == q * d + r;
    QuotientIs(2 * n + bit, q, 2 * d, 2 * r + bit);
  }

  /** The leading bits of a number are its quotient. */
  lemma {:induction false} LeadingBits(b: Bits, n: nat)
    requires n <= |b|
    ensures Number(b[..n]) == Number(b) / Pow2(|b| - n)
    decreases |b|
  {
    hide Number;
    if n == |b| {
      assert b[..n] == b && Pow2(0) == 1;
    } else {
      var init, x := b[..|b| - 1], b[|b| - 1];
      assert b == init + [x] && b[..n] == init[..n];
      NumberSnoc(init, x);
      LeadingBits(init, n);
      HalveBoth(Number(init), if x then 1 else 0, Pow2(|init| - n));
    }
  }

  /** A bit string begins another exactly when it is the quotient of their numbers. */
  lemma PrefixByValue(k: Bits, b: Bits)
    requires |k| <= |b|
    ensures k <= b <==> Number(k) == Number(b) / Pow2(|b| - |k|)
  {
    hide Number;
    LeadingBits(b, |k|);
    if Number(k) == Number(b[..|k|]) { NumberDetermines(k, b[..|k|]); }
    assert k <= b <==> k == b[..|k|];
  }

  /** What a write changes: the addresses its prefix covers see it unless they have a longer match. */
  lemma UpdateShows<V>(m: map<Bits, V>, p: Bits, v: V, addr: Bits)
    ensures Longest(m[p := v], addr) ==
      if p <= addr && (forall k :: |p| < k <= |addr| ==> addr[..k] !in m) then Some(v) else Longest(m, addr)
  {
    var m' := m[p := v];
    if p <= addr {
      assert addr[..|p|] == p;
      forall k | 0 <= k <= |addr| && k != |p| ensures addr[..k] in m' <==> addr[..k] in m {
        assert |addr[..k]| != |p|;
      }
      SkipTo(m', addr, |addr|, |p|);
      UpdateAbove(m, p, v, addr, |addr|);
    } else {
      assert m - {p} == m' - {p};
      ChangeIsLocal(m, m', p, addr);
    }
  }

  lemma {:induction false} UpdateAbove<V>(m: map<Bits, V>, p: Bits, v: V, addr: Bits, n: nat)
    requires p <= addr && |p| <= n <= |addr|
    ensures (exists k :: |p| < k <= n && addr[..k] in m) ==>
      LongestUpTo(m[p := v], addr, n) == LongestUpTo(m, addr, n)
  {
    assert |addr[..n]| == n;
    if n > |p| && addr[..n] !in m { UpdateAbove(m, p, v, addr, n - 1); }
  }

  // ---- Sizes of finite maps ----

  lemma UpdateSize<K, V>(m: map<K, V>, k: K, v: V)
    ensures |m[k := v]| == if k in m then |m| else |m| + 1
  {
    if k in m {
      assert m[k := v].Keys == m.Keys;
      assert |m[k := v].Keys| == |m.Keys|;
    }
  }

  lemma RemoveSize<K, V>(m: map<K, V>, k: K)
    ensures |m - {k}| == if k in m then |m| - 1 else |m|
    ensures k !in m ==> m - {k} == m
  {
    if k !in m { assert m - {k} == m; }
  }
}
