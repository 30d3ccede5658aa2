/** The result cache in front of an engine, with prefix invalidation. */
module Cache {
  import opened Lpm
  import opened Bytes
  import T = BitTrie

  /** Every cached answer, hit or miss, is the engine's. */
  ghost predicate Coherent<M>(cache: map<T.Ip, Option<M>>, m: map<Bits, T.Entry<M>>) {
    forall ip :: ip in cache ==> cache[ip] == T.Best(m, ip)
  }

  /** The answers kept after a write to `net`. */
  function Retained<M>(cache: map<T.Ip, Option<M>>, net: T.Net): (r: map<T.Ip, Option<M>>) {
    map ip | ip in cache && !T.NetContains(net, ip) :: cache[ip]
  }

  /** Exactly the answers outside the network stay: those of the other family, and those whose address
      has another number above the host bits. */
  lemma RetainedByValue<M>(cache: map<T.Ip, Option<M>>, net: T.Net, ip: T.Ip)
    requires T.ValidNet(net) && T.ValidIp(ip) && ip in cache
    ensures ip in Retained(cache, net) <==>
      net.ip.v6 != ip.v6 || !SameNetwork(net.ip.bytes, ip.bytes, (if ip.v6 then 128 else 32) - net.len)
    ensures ip in Retained(cache, net) ==> Retained(cache, net)[ip] == cache[ip]
  {
    hide SameNetwork, T.NetContains, T.ValidNet;
    T.ContainsByValue(net, ip);
  }

  /** No entry of the other address family is stored under the same bits. */
  ghost predicate KeyIsOwn<M>(m: map<Bits, T.Entry<M>>, net: T.Net) {
    T.NetBits(net) in m ==> m[T.NetBits(net)].v6 == net.ip.v6
  }

  /** A write under `net` changes only what addresses inside `net` see. */
  lemma WriteIsLocal<M>(m: map<Bits, T.Entry<M>>, m': map<Bits, T.Entry<M>>, net: T.Net, ip: T.Ip)
    requires m - {T.NetBits(net)} == m' - {T.NetBits(net)} && KeyIsOwn(m, net) && KeyIsOwn(m', net)
    requires !T.NetContains(net, ip)
    ensures T.Best(m, ip) == T.Best(m', ip)
  {
    hide T.NetBits, T.IpBits;
    var p := T.NetBits(net);
    var f, f' := T.Family(m, ip.v6), T.Family(m', ip.v6);
    assert forall q :: q != p ==> (q in m <==> q in m - {p}) && (q in m' <==> q in m' - {p});
    assert forall q :: q != p && q in m ==> m[q] == (m - {p})[q] == m'[q];
    if ip.v6 == net.ip.v6 {
      assert f - {p} == f' - {p};
      ChangeIsLocal(f, f', p, T.IpBits(ip));
    } else {
      assert f == f';
    }
  }

  /** Dropping the answers inside the written network keeps the rest coherent. */
  lemma InvalidationKeepsCoherent<M>(cache: map<T.Ip, Option<M>>, m: map<Bits, T.Entry<M>>,
                                     m': map<Bits, T.Entry<M>>, net: T.Net)
    requires Coherent(cache, m)
    requires m - {T.NetBits(net)} == m' - {T.NetBits(net)} && KeyIsOwn(m, net) && KeyIsOwn(m', net)
    ensures Coherent(Retained(cache, net), m')
  {
    forall ip | ip in Retained(cache, net) ensures cache[ip] == T.Best(m', ip) {
      WriteIsLocal(m, m', net, ip);
    }
  }

  /** When the other family does hold the bits, the write replaces its entry while its cached
      answers stay: for any two networks of different families with the same bits (10.0.0.0/8
      and 0a00::/8, or the two default routes), an answer cached under the first goes stale
      when the second is stored. */
  lemma SharedBitsGoStale<M>(a: T.Net, b: T.Net, ip: T.Ip, x: M, y: M)
    requires a.ip.v6 != b.ip.v6 && T.NetBits(a) == T.NetBits(b) && T.NetContains(a, ip)
    ensures var m := map[T.NetBits(a) := T.Entry(a.ip.v6, x)];
      var m' := m[T.NetBits(b) := T.Entry(b.ip.v6, y)];
      var cache := map[ip := Some(x)];
      !KeyIsOwn(m, b) && Coherent(cache, m) && !Coherent(Retained(cache, b), m')
  {
    hide T.NetBits, T.IpBits;
    var p, bits := T.NetBits(a), T.IpBits(ip);
    var m := map[p := T.Entry(a.ip.v6, x)];
    var m' := m[p := T.Entry(b.ip.v6, y)];
    var f := T.Family(m, ip.v6);
    assert f == map[p := x] && bits[..|p|] == p;
    forall k | |p| < k <= |bits| ensures bits[..k] !in f { assert |bits[..k]| != |p|; }
    assert IsLongestAt(f, bits, |p|);
    LongestIsExact(f, bits, Some(x));
    assert T.Family(m', ip.v6) == map[];
    LongestIsExact(T.Family(m', ip.v6), bits, None);
    assert ip in Retained(map[ip := Some(x)], b);
  }

  lemma RememberKeepsCoherent<M>(cache: map<T.Ip, Option<M>>, m: map<Bits, T.Entry<M>>, evicted: set<T.Ip>, ip: T.Ip)
    requires Coherent(cache, m)
    ensures Coherent((cache - evicted)[ip := T.Best(m, ip)], m)
  {
  }

  // ---- Whole runs ----

  /** `evicted`: whatever the cache drops to make room for a new answer. */
  datatype Call<M> = Store(net: T.Net, meta: M) | Delete(net: T.Net) | Ask(ip: T.Ip, evicted: set<T.Ip>) | ClearAll

  datatype State<M> = State(engine: map<Bits, T.Entry<M>>, cache: map<T.Ip, Option<M>>)

  ghost function Step<M>(s: State<M>, call: Call<M>): (r: State<M>) {
    match call
    case Store(net, meta) => State(s.engine[T.NetBits(net) := T.Entry(net.ip.v6, meta)], Retained(s.cache, net))
    case Delete(net) => State(s.engine - {T.NetBits(net)}, Retained(s.cache, net))
    case Ask(ip, evicted) =>
      if ip in s.cache then s else State(s.engine, (s.cache - evicted)[ip := T.Best(s.engine, ip)])
    case ClearAll => State(T.RootOnly(s.engine), map[])
  }

  ghost function Run<M>(calls: seq<Call<M>>): (s: State<M>) {
    if calls == [] then State(map[], map[]) else Step(Run(calls[..|calls| - 1]), calls[|calls| - 1])
  }

  /** Every network written is one of `nets`. */
  ghost predicate Writes<M>(nets: iset<T.Net>, calls: seq<Call<M>>) {
    forall i :: 0 <= i < |calls| && (calls[i].Store? || calls[i].Delete?) ==> calls[i].net in nets
  }

  /** No two of the networks have the same bits in different families. */
  ghost predicate FamiliesApart(nets: iset<T.Net>) {
    forall a, b :: a in nets && b in nets && T.NetBits(a) == T.NetBits(b) ==> a.ip.v6 == b.ip.v6
  }

  ghost predicate AlwaysCoherent<M(!new)>(nets: iset<T.Net>) {
    forall calls: seq<Call<M>> :: Writes(nets, calls) ==> Coherent(Run(calls).cache, Run(calls).engine)
  }

  /** Every entry was stored by one of the networks, in that network's family. */
  ghost predicate StoredFrom<M>(nets: iset<T.Net>, m: map<Bits, T.Entry<M>>) {
    forall p :: p in m ==> exists a :: a in nets && T.NetBits(a) == p && a.ip.v6 == m[p].v6
  }

  lemma OwnKey<M>(nets: iset<T.Net>, m: map<Bits, T.Entry<M>>, net: T.Net)
    requires FamiliesApart(nets) && StoredFrom(nets, m) && net in nets
    ensures KeyIsOwn(m, net)
  {
  }

  lemma StepKeepsCoherent<M>(nets: iset<T.Net>, s: State<M>, call: Call<M>)
    requires FamiliesApart(nets) && StoredFrom(nets, s.engine) && Coherent(s.cache, s.engine)
    requires call.Store? || call.Delete? ==> call.net in nets
    ensures StoredFrom(nets, Step(s, call).engine) && Coherent(Step(s, call).cache, Step(s, call).engine)
  {
    hide T.NetBits, T.Best;
    match call {
      case Store(net, _) =>
        OwnKey(nets, s.engine, net);
        assert s.engine - {T.NetBits(net)} == Step(s, call).engine - {T.NetBits(net)};
        InvalidationKeepsCoherent(s.cache, s.engine, Step(s, call).engine, net);
      case Delete(net) =>
        OwnKey(nets, s.engine, net);
        InvalidationKeepsCoherent(s.cache, s.engine, Step(s, call).engine, net);
      case Ask(ip, evicted) => RememberKeepsCoherent(s.cache, s.engine, evicted, ip);
      case ClearAll =>
    }
  }

  lemma {:induction false} RunKeepsCoherent<M>(nets: iset<T.Net>, calls: seq<Call<M>>)
    requires FamiliesApart(nets) && Writes(nets, calls)
    ensures StoredFrom(nets, Run(calls).engine) && Coherent(Run(calls).cache, Run(calls).engine)
  {
    if calls != [] {
      var init := calls[..|calls| - 1];
      assert Writes(nets, init);
      RunKeepsCoherent(nets, init);
      StepKeepsCoherent(nets, Run(init), calls[|calls| - 1]);
    }
  }

  lemma RunThree<M>(a: T.Net, b: T.Net, ip: T.Ip, x: M)
    ensures var m := map[T.NetBits(a) := T.Entry(a.ip.v6, x)];
      Run([Store(a, x), Ask(ip, {}), Store(b, x)]) ==
      State(m[T.NetBits(b) := T.Entry(b.ip.v6, x)], Retained(map[ip := T.Best(m, ip)], b))
  {
    hide T.NetBits, T.Best, Retained;
    var one, two, three := [Store(a, x)], [Store(a, x), Ask(ip, {})], [Store(a, x), Ask(ip, {}), Store(b, x)];
    assert three[..2] == two && two[..1] == one && one[..0] == [];
    NothingRetained<M>(a);
    var m := map[T.NetBits(a) := T.Entry(a.ip.v6, x)];
    assert Run(one) == State(m, map[]) by { assert Run<M>([]) == State(map[], map[]); }
    var cache: map<T.Ip, Option<M>> := map[];
    assert (cache - {})[ip := T.Best(m, ip)] == map[ip := T.Best(m, ip)];
    assert Run(two) == State(m, map[ip := T.Best(m, ip)]);
  }

  lemma NothingRetained<M>(net: T.Net)
    ensures Retained<M>(map[], net) == map[]
  {
  }

  /** A network contains its own address. */
  lemma ContainsOwn(a: T.Net)
    requires T.ValidNet(a)
    ensures T.NetContains(a, a.ip)
  {
  }

  /** Over every run of writes, deletions, lookups with any evictions and clears, each cached
      answer is the engine's, if and only if no two of the networks written share their bits
      across the families. */
  lemma AlwaysCoherentIff<M(!new)>(nets: iset<T.Net>, x: M)
    requires forall n :: n in nets ==> T.ValidNet(n)
    ensures AlwaysCoherent<M>(nets) <==> FamiliesApart(nets)
  {
    if FamiliesApart(nets) {
      forall calls: seq<Call<M>> | Writes(nets, calls) ensures Coherent(Run(calls).cache, Run(calls).engine) {
        RunKeepsCoherent(nets, calls);
      }
    } else {
      var a, b :| a in nets && b in nets && T.NetBits(a) == T.NetBits(b) && a.ip.v6 != b.ip.v6;
      StaleRun(nets, a, b, x);
    }
  }

  lemma StaleRun<M(!new)>(nets: iset<T.Net>, a: T.Net, b: T.Net, x: M)
    requires T.ValidNet(a) && a in nets && b in nets && T.NetBits(a) == T.NetBits(b) && a.ip.v6 != b.ip.v6
    ensures !AlwaysCoherent<M>(nets)
  {
    hide T.NetBits, T.Best, Retained, T.NetContains;
    ContainsOwn(a);
    SharedBitsGoStale(a, b, a.ip, x, x);
    RunThree(a, b, a.ip, x);
    var calls: seq<Call<M>> := [Store(a, x), Ask(a.ip, {}), Store(b, x)];
    assert Writes(nets, calls);
    assert !Coherent(Run(calls).cache, Run(calls).engine);
  }

  class CachedEngine<M> {
    const inner: T.BitTrie<M>
    const maxEntries: nat
    var cache: map<T.Ip, Option<M>>

    /** The cache is coherent and within its bound. */
    ghost predicate Valid()
      reads this, inner, inner.nodes.Values
    {
      && inner.Valid()
      && Coherent(cache, inner.Contents())
      && |cache| <= if maxEntries == 0 then 1 else maxEntries
    }

    constructor (inner: T.BitTrie<M>, maxEntries: nat)
      requires inner.Valid()
      ensures Valid() && cache == map[] && this.inner == inner && this.maxEntries == maxEntries
    {
      this.inner, this.maxEntries, cache := inner, maxEntries, map[];
    }

    /** Answers from the cache, or asks the engine and remembers, evicting any one entry when full. */
    method Lookup(ip: T.Ip) returns (r: Option<M>)
      requires Valid() && T.ValidIp(ip)
      modifies this
      ensures Valid() && inner.Contents() == old(inner.Contents())
      ensures r == T.Best(inner.Contents(), ip)
      ensures if ip in old(cache) then cache == old(cache) else Remembered(old(cache), ip, r, cache)
    {
      hide T.Live, T.Paths, T.Linked, T.Labelled, T.ValidIp, T.Best;
      if ip in cache {
        return cache[ip];
      }
      r := inner.Lookup(ip);
      Remember(ip, r);
    }

    /** The answer is added, at the cost of one other exactly when the cache was full. */
    ghost predicate Remembered(before: map<T.Ip, Option<M>>, ip: T.Ip, r: Option<M>, after: map<T.Ip, Option<M>>) {
      if |before| < maxEntries || before == map[] then after == before[ip := r]
      else exists key :: key in before && after == (before - {key})[ip := r]
    }

    method Remember(ip: T.Ip, r: Option<M>)
      requires Valid() && ip !in cache && r == T.Best(inner.Contents(), ip)
      modifies this`cache
      ensures Valid() && Remembered(old(cache), ip, r, cache)
    {
      hide T.Live, T.Paths, T.Linked, T.Labelled, T.Best, Coherent;
      ghost var before, evicted: set<T.Ip> := cache, {};
      if |cache| >= maxEntries && |cache| > 0 {
        NonEmpty(cache);
        var key :| key in cache.Keys;
        cache := cache - {key};
        evicted := {key};
      }
      assert cache == before - evicted;
      RememberKeepsCoherent(before, inner.Contents(), evicted, ip);
      cache := cache[ip := r];
    }

    /** The engine is written first, then the answers inside the network are dropped. */
    method Insert(net: T.Net, v: M)
      requires Valid() && T.ValidNet(net)
      modifies this, inner, inner.nodes.Values
      ensures inner.Valid() && fresh(inner.nodes.Values - old(inner.nodes.Values))
      ensures inner.Contents() == old(inner.Contents())[T.NetBits(net) := T.Entry(net.ip.v6, v)]
      ensures cache == Retained(old(cache), net)
      ensures old(KeyIsOwn(inner.Contents(), net)) ==> Valid()
    {
      hide T.NetBits, T.Live, T.Paths, T.Linked, T.Labelled, T.ValidNet, Coherent;
      ghost var m, p := inner.Contents(), T.NetBits(net);
      var _ := inner.Insert(net, v);
      assert m - {p} == inner.Contents() - {p};
      if KeyIsOwn(m, net) {
        InvalidationKeepsCoherent(cache, m, inner.Contents(), net);
      }
      SmallerCache(cache, net);
      cache := Retained(cache, net);
    }

    method Remove(net: T.Net) returns (removed: Option<M>)
      requires Valid() && T.ValidNet(net)
      modifies this, inner.nodes.Values
      ensures inner.Valid() && inner.nodes == old(inner.nodes)
      ensures inner.Contents() == old(inner.Contents()) - {T.NetBits(net)}
      ensures removed ==
        if T.NetBits(net) in old(inner.Contents()) then Some(old(inner.Contents())[T.NetBits(net)].meta) else None
      ensures cache == Retained(old(cache), net)
      ensures old(KeyIsOwn(inner.Contents(), net)) ==> Valid()
    {
      hide T.NetBits, T.Live, T.Paths, T.Linked, T.Labelled, T.ValidNet, Coherent;
      ghost var m, p := inner.Contents(), T.NetBits(net);
      removed := inner.Remove(net);
      assert m - {p} == inner.Contents() - {p};
      if KeyIsOwn(m, net) {
        InvalidationKeepsCoherent(cache, m, inner.Contents(), net);
      }
      SmallerCache(cache, net);
      cache := Retained(cache, net);
    }

    /** The whole cache goes with the engine's entries, whichever of them the engine keeps. */
    method Clear()
      requires Valid()
      modifies this, inner, inner.root
      ensures Valid() && cache == map[]
      ensures inner.Contents() == T.RootOnly(old(inner.Contents()))
    {
      inner.Clear();
      cache := map[];
    }
  }

  lemma NonEmpty<K, V>(m: map<K, V>)
    requires |m| > 0
    ensures m.Keys != {}
  {
    assert |m.Keys| == |m|;
  }

  lemma SmallerCache<M>(cache: map<T.Ip, Option<M>>, net: T.Net)
    ensures |Retained(cache, net)| <= |cache|
  {
    var kept := Retained(cache, net).Keys;
    assert kept <= cache.Keys;
    assert cache.Keys == kept + (cache.Keys - kept);
    assert |kept| == |Retained(cache, net)| && |cache.Keys| == |cache|;
  }
}
