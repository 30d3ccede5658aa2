/** Engines over the trees: size and statistics counters, shards that own separate
    Patricia trees (Go) and shards that alias one bit trie (Rust). */
module Engines {
  import opened Lpm
  import opened Bytes
  import P = PatriciaSpec
  import T = BitTrie
  import PatriciaTree

  // ---- Go: every shard owns a tree ----

  datatype Stats = Stats(inserts: nat, lookups: nat, hits: nat, misses: nat, removals: nat)

  /** A standard engine: a tree, its entry counter and its statistics. */
  datatype Shard<M> = Shard(tree: P.Tree<M>, size: int, stats: Stats)

  function NewShard<M>(): (s: Shard<M>)
    ensures Holds(s, map[])
  {
    assert P.Contents(P.BlankRoot<M>()) == map[];
    Shard(P.BlankRoot(), 0, Stats(0, 0, 0, 0, 0))
  }

  /** The shard stores exactly `m`, counts it, and every lookup was a hit or a miss. */
  ghost predicate Holds<M>(s: Shard<M>, m: map<Bits, M>) {
    && s.tree.Node? && P.Contents(s.tree) == m && s.size == |m|
    && s.stats.lookups == s.stats.hits + s.stats.misses
  }

  function InsertInto<M>(s: Shard<M>, key: Bits, v: M): (r: Shard<M>)
    requires s.tree.Node?
  {
    var isNew := P.Get(s.tree, key).None?;
    Shard(P.Insert(s.tree, key, v), if isNew then s.size + 1 else s.size, s.stats.(inserts := s.stats.inserts + 1))
  }

  function RemoveFrom<M>(s: Shard<M>, key: Bits): (r: (Shard<M>, Option<M>))
    requires s.tree.Node?
  {
    var removed := P.Get(s.tree, key);
    (Shard(P.Remove(s.tree, key), if removed.Some? then s.size - 1 else s.size,
           if removed.Some? then s.stats.(removals := s.stats.removals + 1) else s.stats), removed)
  }

  function LookupIn<M>(s: Shard<M>, addr: Bits): (r: (Shard<M>, Option<M>)) {
    var found := P.Lookup(s.tree, addr);
    var st := s.stats.(lookups := s.stats.lookups + 1);
    (s.(stats := if found.Some? then st.(hits := st.hits + 1) else st.(misses := st.misses + 1)), found)
  }

  lemma InsertHolds<M>(s: Shard<M>, m: map<Bits, M>, key: Bits, v: M)
    requires Holds(s, m)
    ensures Holds(InsertInto(s, key, v), m[key := v])
  {
    hide P.Insert, P.Contents, P.Get;
    P.InsertIsUpdate(s.tree, key, v);
    UpdateSize(m, key, v);
  }

  lemma RemoveHolds<M>(s: Shard<M>, m: map<Bits, M>, key: Bits)
    requires Holds(s, m)
    ensures Holds(RemoveFrom(s, key).0, m - {key})
    ensures RemoveFrom(s, key).1 == if key in m then Some(m[key]) else None
  {
    hide P.Remove, P.Contents, P.Get, P.Below, P.Keys;
    P.RemoveIsDeletion(s.tree, key);
    RemoveSize(m, key);
  }

  lemma LookupHolds<M>(s: Shard<M>, m: map<Bits, M>, addr: Bits)
    requires Holds(s, m)
    ensures Holds(LookupIn(s, addr).0, m) && LookupIn(s, addr).1 == Longest(m, addr)
    ensures LookupIn(s, addr).0.stats.hits == s.stats.hits + if Longest(m, addr).Some? then 1 else 0
  {
    P.LookupIsLongest(s.tree, addr);
  }

  /** Sum of one statistic over the shards. */
  function TotalLookups<M>(shards: seq<Shard<M>>): (n: nat) {
    if shards == [] then 0 else shards[0].stats.lookups + TotalLookups(shards[1..])
  }

  lemma {:induction false} TotalLookupsUpdate<M>(shards: seq<Shard<M>>, i: nat, s: Shard<M>)
    requires i < |shards|
    ensures TotalLookups(shards[i := s]) == TotalLookups(shards) - shards[i].stats.lookups + s.stats.lookups
  {
    if i == 0 {
      assert shards[0 := s][1..] == shards[1..];
    } else {
      assert shards[i := s][1..] == shards[1..][i - 1 := s];
      TotalLookupsUpdate(shards[1..], i - 1, s);
    }
  }

  /** The hash of an address: the 32 (IPv4) or first 64 (IPv6) bits masked to 24, modulo the shard count. */
  function GetShard(addr: Bits, n: nat): (i: nat)
    requires n > 0
    ensures i < n
  {
    var masked := Number(if |addr| <= 24 then addr else addr[..24]);
    (if |addr| == 32 then masked * 0x100 else masked * 0x100_0000_0000) % n
  }

  /** By value: an IPv4 address less its last byte, or the first 64 bits of an IPv6 one less their last 40,
      modulo the shard count. Addresses of one /24 are always served by one shard. */
  lemma ShardByValue(addr: Bits, n: nat)
    requires n > 0 && (|addr| == 32 || |addr| == 128)
    ensures |addr| == 32 ==> GetShard(addr, n) == Number(addr) / 0x100 * 0x100 % n
    ensures |addr| == 128 ==> GetShard(addr, n) == Number(addr[..64]) / 0x100_0000_0000 * 0x100_0000_0000 % n
  {
    hide Number;
    if |addr| == 32 {
      LeadingBits(addr, 24);
      assert Pow2(8) == 0x100;
    } else {
      LeadingBits(addr[..64], 24);
      assert addr[..64][..24] == addr[..24];
      TwoToThe40();
    }
  }

  lemma TwoToThe40()
    ensures Pow2(40) == 0x100_0000_0000
  {
    assert Pow2(8) == 0x100;
    assert Pow2(16) == 0x1_0000;
    assert Pow2(24) == 0x100_0000;
    assert Pow2(32) == 0x1_0000_0000;
  }

  class ShardedEngine<M> {
    var shards: seq<Shard<M>>
    ghost var m: map<Bits, M>
    ghost var calls: Stats

    /** All shards store the same map; the reported totals count the calls made. */
    ghost predicate Valid()
      reads this
    {
      && |shards| > 0
      && (forall i :: 0 <= i < |shards| ==> Holds(shards[i], m))
      && TotalLookups(shards) == calls.lookups
      && shards[0].stats.inserts == calls.inserts && shards[0].stats.removals == calls.removals
    }

    constructor (n: nat)
      requires n > 0
      ensures Valid() && m == map[] && |shards| == n && calls == Stats(0, 0, 0, 0, 0)
    {
      hide Holds;
      var blank: Shard<M> := NewShard();
      var all: seq<Shard<M>> := [];
      var i := 0;
      while i < n
        invariant |all| == i <= n
        invariant forall j :: 0 <= j < i ==> Holds(all[j], map[]) && all[j].stats == Stats(0, 0, 0, 0, 0)
        invariant TotalLookups(all) == 0
      {
        SumSnoc(all, blank);
        all := all + [blank];
        i := i + 1;
      }
      shards, m, calls := all, map[], Stats(0, 0, 0, 0, 0);
    }

    /** Written to every shard. */
    method Insert(key: Bits, v: M)
      requires Valid()
      modifies this
      ensures Valid() && m == old(m)[key := v] && |shards| == old(|shards|)
      ensures calls == old(calls).(inserts := old(calls).inserts + 1)
    {
      hide Holds, InsertInto;
      var i := 0;
      while i < |shards|
        invariant i <= |shards| == old(|shards|) && m == old(m) && calls == old(calls)
        invariant forall j :: 0 <= j < i ==> Holds(shards[j], m[key := v])
        invariant forall j :: i <= j < |shards| ==> shards[j] == old(shards)[j] && Holds(shards[j], m)
        invariant TotalLookups(shards) == calls.lookups
        invariant i > 0 ==> shards[0].stats.inserts == calls.inserts + 1 && shards[0].stats.removals == calls.removals
      {
        HasTree(shards[i], m);
        InsertHolds(shards[i], m, key, v);
        InsertStats(shards[i], key, v);
        TotalLookupsUpdate(shards, i, InsertInto(shards[i], key, v));
        shards := shards[i := InsertInto(shards[i], key, v)];
        i := i + 1;
      }
      m := m[key := v];
      calls := calls.(inserts := calls.inserts + 1);
    }

    /** Read from the one shard the address hashes to. */
    method Lookup(addr: Bits) returns (r: Option<M>)
      requires Valid()
      modifies this
      ensures Valid() && m == old(m) && |shards| == old(|shards|)
      ensures r == Longest(m, addr)
      ensures calls == old(calls).(lookups := old(calls).lookups + 1)
    {
      var i := GetShard(addr, |shards|);
      LookupHolds(shards[i], m, addr);
      var (s, found) := LookupIn(shards[i], addr);
      TotalLookupsUpdate(shards, i, s);
      shards := shards[i := s];
      calls := calls.(lookups := calls.lookups + 1);
      r := found;
    }

    /** Removed from every shard; the first shard that had it answers. */
    method Remove(key: Bits) returns (removed: Option<M>)
      requires Valid()
      modifies this
      ensures Valid() && m == old(m) - {key} && |shards| == old(|shards|)
      ensures removed == if key in old(m) then Some(old(m)[key]) else None
      ensures calls == if removed.Some? then old(calls).(removals := old(calls).removals + 1) else old(calls)
    {
      hide Holds, RemoveFrom;
      removed := None;
      ghost var expected := if key in m then Some(m[key]) else None;
      var i := 0;
      while i < |shards|
        invariant i <= |shards| == old(|shards|) && m == old(m) && calls == old(calls)
        invariant forall j :: 0 <= j < i ==> Holds(shards[j], m - {key})
        invariant forall j :: i <= j < |shards| ==> shards[j] == old(shards)[j] && Holds(shards[j], m)
        invariant removed == if i > 0 then expected else None
        invariant TotalLookups(shards) == calls.lookups
        invariant i > 0 ==> shards[0].stats.inserts == calls.inserts
        invariant i > 0 ==> shards[0].stats.removals == calls.removals + if expected.Some? then 1 else 0
      {
        HasTree(shards[i], m);
        RemoveHolds(shards[i], m, key);
        RemoveStats(shards[i], key);
        var (s, answer) := RemoveFrom(shards[i], key);
        TotalLookupsUpdate(shards, i, s);
        shards := shards[i := s];
        if removed.None? {
          removed := answer;
        }
        i := i + 1;
      }
      m := m - {key};
      calls := if removed.Some? then calls.(removals := calls.removals + 1) else calls;
    }

    method Contains(key: Bits) returns (found: bool)
      requires Valid()
      ensures found <==> key in m
    {
      found := P.Get(shards[0].tree, key).Some?;
    }

    method Size() returns (n: int)
      requires Valid()
      ensures n == |m|
    {
      n := shards[0].size;
    }
  }

  lemma HasTree<M>(s: Shard<M>, m: map<Bits, M>)
    requires Holds(s, m)
    ensures s.tree.Node?
  {
  }

  lemma InsertStats<M>(s: Shard<M>, key: Bits, v: M)
    requires s.tree.Node?
    ensures InsertInto(s, key, v).stats == s.stats.(inserts := s.stats.inserts + 1)
  {
  }

  lemma RemoveStats<M>(s: Shard<M>, key: Bits)
    requires s.tree.Node?
    ensures var (r, answer) := RemoveFrom(s, key);
      r.stats == if answer.Some? then s.stats.(removals := s.stats.removals + 1) else s.stats
  {
  }

  lemma {:induction false} SumSnoc<M>(shards: seq<Shard<M>>, s: Shard<M>)
    ensures TotalLookups(shards + [s]) == TotalLookups(shards) + s.stats.lookups
  {
    if shards == [] {
      assert [] + [s] == [s];
    } else {
      assert (shards + [s])[1..] == shards[1..] + [s];
      SumSnoc(shards[1..], s);
    }
  }

  // ---- Rust: every shard holds the same tree root ----

  /** Counters are unsigned words and wrap. */
  const WORD := 0x1_0000_0000_0000_0000

  function Wrapped(x: int): (n: nat)
    ensures n < WORD && (0 <= x < WORD ==> n == x)
  {
    x % WORD
  }

  lemma WrapsOn(x: int)
    ensures Wrapped(Wrapped(x) + 1) == Wrapped(x + 1) && Wrapped(Wrapped(x) - 1) == Wrapped(x - 1)
  {
  }

  lemma WrapsRight(k: nat, u: nat)
    requires k < WORD && u < WORD
    ensures Wrapped(k - u) == k <==> u == 0
  {
  }

  /** The multiplicative hash, which four bytes never make wrap. */
  function Hash(b: seq<Byte>): (h: nat) {
    if b == [] then 0 else 31 * Hash(b[..|b| - 1]) + b[|b| - 1] as nat
  }

  lemma HashBound(b: seq<Byte>)
    requires |b| <= 4
    ensures Hash(b) < 0x100_0000
  {
    if |b| > 0 { HashStep(b, 1); }
    if |b| > 1 { HashStep(b, 2); }
    if |b| > 2 { HashStep(b, 3); }
    if |b| > 3 { HashStep(b, 4); }
    assert b[..|b|] == b && b[..0] == [];
  }

  lemma HashStep(b: seq<Byte>, k: nat)
    requires 0 < k <= |b|
    ensures Hash(b[..k]) == 31 * Hash(b[..k - 1]) + b[k - 1] as nat
  {
    assert b[..k][..k - 1] == b[..k - 1];
  }

  lemma NoBytes(b: seq<Byte>)
    ensures Hash(b[..0]) == 0
  {
  }

  lemma NoWrap(h: nat, x: nat, word: nat)
    requires h < 0x100_0000 && x < 256 && word >= 0x1_0000_0000
    ensures (h * 31 % word + x) % word == 31 * h + x
  {
    SmallModulo(h * 31, word);
    SmallModulo(h * 31 + x, word);
  }

  lemma SmallModulo(x: nat, word: nat)
    requires x < word
    ensures x % word == x
  {
  }

  lemma FourBytes(b: seq<Byte>)
    requires |b| >= 4
    ensures Hash(b[..4]) == 29791 * (b[0] as nat) + 961 * (b[1] as nat) + 31 * (b[2] as nat) + b[3] as nat
  {
    HashStep(b, 1);
    HashStep(b, 2);
    HashStep(b, 3);
    HashStep(b, 4);
    assert b[..0] == [];
  }

  class AliasedEngine<M> {
    const trees: seq<T.BitTrie<M>>
    var sizes: seq<nat>
    ghost const tree: T.BitTrie<M>
    ghost var uncounted: nat

    /** Every shard's tree is the one tree; only the first shard's counter counts, and it misses the
        entries that clears have left. */
    ghost predicate Valid()
      reads this, tree, tree.nodes.Values
    {
      && Shared() && tree.Valid()
      && sizes[0] == Wrapped(|tree.Contents()| - uncounted)
      && forall i :: 1 <= i < |sizes| ==> sizes[i] == 0
    }

    ghost predicate Shared()
      reads this
    {
      |trees| == |sizes| > 0 && forall i :: 0 <= i < |trees| ==> trees[i] == tree
    }

    constructor (n: nat)
      requires n > 0
      ensures Valid() && tree.Contents() == map[] && |sizes| == n && uncounted == 0
      ensures fresh(tree) && fresh(tree.nodes.Values)
    {
      hide T.Live, T.Paths, T.Linked, T.Labelled, Wrapped;
      var t := new T.BitTrie<M>();
      trees := seq(n, _ => t);
      sizes := seq(n, _ => 0);
      tree, uncounted := t, 0;
    }

    /** Each of the n writes reaches the one tree; only the first finds the key absent. */
    method Insert(net: T.Net, v: M)
      requires Valid() && T.ValidNet(net)
      modifies this, tree, tree.nodes.Values
      ensures Valid() && fresh(tree.nodes.Values - old(tree.nodes.Values)) && |sizes| == old(|sizes|)
      ensures tree.Contents() == old(tree.Contents())[T.NetBits(net) := T.Entry(net.ip.v6, v)]
      ensures uncounted == old(uncounted)
    {
      hide T.NetBits, T.Live, T.Paths, T.Linked, T.Labelled, T.ValidNet, Wrapped;
      ghost var key, e, before := T.NetBits(net), T.Entry(net.ip.v6, v), tree.Contents();
      UpdateSize(before, key, e);
      assert before[key := e][key := e] == before[key := e];
      var i := 0;
      while i < |trees|
        invariant i <= |trees| && |sizes| == old(|sizes|) && Shared()
        invariant tree.Valid() && fresh(tree.nodes.Values - old(tree.nodes.Values))
        invariant tree.Contents() == if i == 0 then before else before[key := e]
        invariant sizes[0] == Wrapped(|tree.Contents()| - uncounted) && uncounted == old(uncounted)
        invariant forall j :: 1 <= j < |sizes| ==> sizes[j] == 0
      {
        WrapsOn(|before| - uncounted);
        InsertAt(i, net, v);
        i := i + 1;
      }
    }

    /** One shard's insert: its tree, then its counter. */
    method InsertAt(i: nat, net: T.Net, v: M)
      requires Shared() && tree.Valid() && T.ValidNet(net) && i < |trees|
      modifies this`sizes, tree, tree.nodes.Values
      ensures Shared() && tree.Valid() && fresh(tree.nodes.Values - old(tree.nodes.Values))
      ensures tree.Contents() == old(tree.Contents())[T.NetBits(net) := T.Entry(net.ip.v6, v)]
      ensures sizes == if T.NetBits(net) in old(tree.Contents()) then old(sizes)
                       else old(sizes)[i := Wrapped(old(sizes)[i] + 1)]
    {
      hide T.NetBits, T.Live, T.Paths, T.Linked, T.Labelled, T.ValidNet, Wrapped;
      var isNew := trees[i].Insert(net, v);
      if isNew {
        sizes := sizes[i := Wrapped(sizes[i] + 1)];
      }
    }

    /** One shard's removal. */
    method RemoveAt(i: nat, net: T.Net) returns (answer: Option<M>)
      requires Shared() && tree.Valid() && T.ValidNet(net) && i < |trees|
      modifies this`sizes, tree.nodes.Values
      ensures Shared() && tree.Valid() && tree.nodes == old(tree.nodes)
      ensures tree.Contents() == old(tree.Contents()) - {T.NetBits(net)}
      ensures answer ==
        if T.NetBits(net) in old(tree.Contents()) then Some(old(tree.Contents())[T.NetBits(net)].meta) else None
      ensures sizes == old(sizes)[i := if answer.Some? then Wrapped((old(sizes)[i] as int) - 1) else old(sizes)[i]]
    {
      hide T.NetBits, T.Live, T.Paths, T.Linked, T.Labelled, T.ValidNet, Wrapped;
      answer := trees[i].Remove(net);
      if answer.Some? {
        sizes := sizes[i := Wrapped((sizes[i] as int) - 1)];
      }
    }

    method Remove(net: T.Net) returns (removed: Option<M>)
      requires Valid() && T.ValidNet(net)
      modifies this, tree.nodes.Values
      ensures Valid() && tree.nodes == old(tree.nodes) && |sizes| == old(|sizes|) && uncounted == old(uncounted)
      ensures tree.Contents() == old(tree.Contents()) - {T.NetBits(net)}
      ensures removed ==
        if T.NetBits(net) in old(tree.Contents()) then Some(old(tree.Contents())[T.NetBits(net)].meta) else None
    {
      hide T.NetBits, T.Live, T.Paths, T.Linked, T.Labelled, T.ValidNet, Wrapped;
      ghost var key, before := T.NetBits(net), tree.Contents();
      RemoveSize(before, key);
      assert (before - {key}) - {key} == before - {key};
      removed := None;
      var i := 0;
      while i < |trees|
        invariant i <= |trees| && |sizes| == old(|sizes|) && Shared()
        invariant tree.Valid() && tree.nodes == old(tree.nodes)
        invariant tree.Contents() == if i == 0 then before else before - {key}
        invariant removed == if i > 0 && key in before then Some(before[key].meta) else None
        invariant sizes[0] == Wrapped(|tree.Contents()| - uncounted) && uncounted == old(uncounted)
        invariant forall j :: 1 <= j < |sizes| ==> sizes[j] == 0
      {
        WrapsOn(|before| - uncounted);
        var answer := RemoveAt(i, net);
        if removed.None? {
          removed := answer;
        }
        i := i + 1;
      }
    }

    /** Zeroes every counter, but the tree keeps its root's own /0 entry, which is then not counted. */
    method Clear()
      requires Valid()
      modifies this, tree, tree.root
      ensures Valid() && |sizes| == old(|sizes|) && tree.nodes == map[[] := tree.root]
      ensures tree.Contents() == T.RootOnly(old(tree.Contents()))
      ensures uncounted == if [] in old(tree.Contents()) then 1 else 0
    {
      hide T.NetBits, T.Live, T.Paths, T.Linked, T.Labelled, T.ValidNet, Wrapped;
      ghost var before := tree.Contents();
      var i := 0;
      while i < |trees|
        invariant i <= |trees| && |sizes| == old(|sizes|) && Shared()
        invariant tree.Valid()
        invariant tree.Contents() == if i > 0 then T.RootOnly(before) else before
        invariant i > 0 ==> tree.nodes == map[[] := tree.root]
        invariant forall j :: 0 <= j < i ==> sizes[j] == 0
      {
        trees[i].Clear();
        sizes := sizes[i := 0];
        i := i + 1;
      }
      ghost var after := tree.Contents();
      if [] in before {
        assert after.Keys == {[]};
        assert |after.Keys| == 1;
        uncounted := 1;
      } else {
        assert after == map[];
        uncounted := 0;
      }
    }

    /** The multiplicative hash of the first four bytes, in 32 bits (IPv4) or 64 (IPv6). */
    method GetShard(ip: T.Ip) returns (i: nat)
      requires Valid() && T.ValidIp(ip)
      ensures i < |trees|
      ensures var b := ip.bytes;
        i == (29791 * (b[0] as nat) + 961 * (b[1] as nat) + 31 * (b[2] as nat) + b[3] as nat) % |trees|
    {
      hide T.Live, T.Paths, T.Linked, T.Labelled, Wrapped, Hash;
      var word, hash := if ip.v6 then 0x1_0000_0000_0000_0000 else 0x1_0000_0000, 0;
      var k := 0;
      NoBytes(ip.bytes);
      while k < 4
        invariant 0 <= k <= 4 && hash == Hash(ip.bytes[..k]) < 0x100_0000
      {
        HashStep(ip.bytes, k + 1);
        HashBound(ip.bytes[..k + 1]);
        NoWrap(hash, ip.bytes[k] as nat, word);
        hash := (hash * 31 % word + ip.bytes[k] as nat) % word;
        k := k + 1;
      }
      FourBytes(ip.bytes);
      i := hash % |trees|;
    }

    /** Asked of the shard the address hashes to. */
    method Lookup(ip: T.Ip) returns (r: Option<M>)
      requires Valid() && T.ValidIp(ip)
      ensures r == T.Best(tree.Contents(), ip)
    {
      var i := GetShard(ip);
      r := trees[i].Lookup(ip);
    }

    method Contains(net: T.Net) returns (found: bool)
      requires Valid() && T.ValidNet(net)
      ensures found <==> T.NetBits(net) in tree.Contents()
    {
      found := trees[0].Contains(net);
    }

    /** Right exactly as long as no entry is left uncounted. */
    method Size() returns (n: nat)
      requires Valid()
      ensures n == Wrapped(|tree.Contents()| - uncounted)
      ensures |tree.Contents()| < WORD && uncounted < WORD ==> (n == |tree.Contents()| <==> uncounted == 0)
    {
      hide T.Live, T.Paths, T.Linked, T.Labelled, Wrapped;
      n := sizes[0];
      if |tree.Contents()| < WORD && uncounted < WORD { WrapsRight(|tree.Contents()|, uncounted); }
    }
  }

  /** Removing the /0 that a clear has left takes the counter below zero. */
  method CounterWraps<M>(e: AliasedEngine<M>, net: T.Net) returns (n: nat)
    requires e.Valid() && T.ValidNet(net) && net.len == 0 && [] in e.tree.Contents()
    modifies e, e.tree, e.tree.root, e.tree.nodes.Values
    ensures e.Valid() && e.tree.Contents() == map[] && n == WORD - 1
  {
    MinusOne();
    hide T.Live, T.Linked, T.Labelled, T.Paths, T.ValidNet, Wrapped, T.NetBits;
    e.Clear();
    assert e.tree.nodes.Values == {e.tree.root};
    var _ := e.Remove(net);
    assert T.NetBits(net) == [];
    assert e.tree.Contents() == map[];
    n := e.Size();
  }

  lemma MinusOne()
    ensures Wrapped(-1) == WORD - 1
  {
  }

  // ---- The Go Patricia tree and the Rust bit trie on the same calls ----

  datatype Call<M> = Store(net: T.Net, meta: M) | Drop(net: T.Net) | Wipe

  /** The call as an operation on network bits. */
  function OnBits<M>(c: Call<M>): (op: P.Op<M>) {
    match c
    case Store(net, v) => P.InsertOp(T.NetBits(net), v)
    case Drop(net) => P.RemoveOp(T.NetBits(net))
    case Wipe => P.ClearOp
  }

  ghost predicate OfFamily<M>(c: Call<M>, v6: bool) {
    !c.Wipe? ==> T.ValidNet(c.net) && c.net.ip.v6 == v6
  }

  function TrieStep<M>(m: map<Bits, T.Entry<M>>, op: P.Op<M>, v6: bool): (r: map<Bits, T.Entry<M>>) {
    match op
    case InsertOp(k, v) => m[k := T.Entry(v6, v)]
    case RemoveOp(k) => m - {k}
    case ClearOp => T.RootOnly(m)
  }

  /** What the calls make of the map the bit trie stores: a clear keeps the root's entry. */
  function TrieMap<M>(ops: seq<P.Op<M>>, v6: bool): (m: map<Bits, T.Entry<M>>) {
    if ops == [] then map[] else TrieStep(TrieMap(ops[..|ops| - 1], v6), ops[|ops| - 1], v6)
  }

  /** A clear leaves the default route it finds; writing the default route ends that. */
  function LeftStep<M>(left: Option<M>, m: map<Bits, M>, op: P.Op<M>): (r: Option<M>) {
    match op
    case InsertOp(k, _) => if k == [] then None else left
    case RemoveOp(k) => if k == [] then None else left
    case ClearOp => if [] in m then Some(m[[]]) else left
  }

  /** A /0 value the bit trie still has from before a clear, with no write to /0 since. */
  function Leftover<M>(ops: seq<P.Op<M>>): (r: Option<M>) {
    if ops == [] then None else
      var init := ops[..|ops| - 1];
      LeftStep(Leftover(init), P.RunMap(init), ops[|ops| - 1])
  }

  function DefaultOf<M>(v: Option<M>): (m: map<Bits, M>) {
    match v
    case None => map[]
    case Some(x) => map[[] := x]
  }

  /** The trie's map is `m` in one family, plus a leftover that `m` does not have. */
  ghost predicate OffByLeftover<M>(t: map<Bits, T.Entry<M>>, m: map<Bits, M>, left: Option<M>, v6: bool) {
    && T.Family(t, v6) == m + DefaultOf(left) && (left.Some? ==> [] !in m)
    && forall k :: k in t ==> t[k].v6 == v6
  }

  lemma StepLeftover<M>(t: map<Bits, T.Entry<M>>, m: map<Bits, M>, left: Option<M>, op: P.Op<M>, v6: bool)
    requires OffByLeftover(t, m, left, v6)
    ensures OffByLeftover(TrieStep(t, op, v6), P.StepMap(m, op), LeftStep(left, m, op), v6)
  {
    hide T.Family, DefaultOf, P.StepMap, LeftStep;
    var t', m', left' := TrieStep(t, op, v6), P.StepMap(m, op), LeftStep(left, m, op);
    FamilyOfAll(t, v6);
    FamilyOfAll(t', v6);
    forall k
      ensures (k in t' <==> k in m' + DefaultOf(left')) && (k in t' ==> t'[k].meta == (m' + DefaultOf(left'))[k])
    {
      assert k in t ==> T.Family(t, v6)[k] == t[k].meta;
      StepAt(t, m, left, op, v6, k);
    }
    StepDefault(m, left, op);
    assert T.Family(t', v6) == m' + DefaultOf(left');
  }

  /** One key after one call. */
  lemma StepAt<M>(t: map<Bits, T.Entry<M>>, m: map<Bits, M>, left: Option<M>, op: P.Op<M>, v6: bool, k: Bits)
    requires left.Some? ==> [] !in m
    requires (k in t <==> k in m + DefaultOf(left)) && (k in t ==> t[k].meta == (m + DefaultOf(left))[k])
    ensures var t', g := TrieStep(t, op, v6), P.StepMap(m, op) + DefaultOf(LeftStep(left, m, op));
      (k in t' <==> k in g) && (k in t' ==> t'[k].meta == g[k])
  {
    DefaultOnly(left);
    DefaultOnly(LeftStep(left, m, op));
    hide DefaultOf;
  }

  lemma StepDefault<M>(m: map<Bits, M>, left: Option<M>, op: P.Op<M>)
    requires left.Some? ==> [] !in m
    ensures LeftStep(left, m, op).Some? ==> [] !in P.StepMap(m, op)
  {
  }

  lemma FamilyOfAll<M>(t: map<Bits, T.Entry<M>>, v6: bool)
    requires forall k :: k in t ==> t[k].v6 == v6
    ensures T.Family(t, v6).Keys == t.Keys && forall k :: k in t ==> T.Family(t, v6)[k] == t[k].meta
  {
  }

  lemma DefaultOnly<M>(v: Option<M>)
    ensures forall k :: k in DefaultOf(v) <==> k == [] && v.Some?
    ensures v.Some? ==> DefaultOf(v)[[]] == v.value
  {
  }

  /** The bit trie stores what the Patricia tree does, and a leftover default route if there is one. */
  lemma {:induction false} TrieHasLeftover<M>(ops: seq<P.Op<M>>, v6: bool)
    ensures OffByLeftover(TrieMap(ops, v6), P.RunMap(ops), Leftover(ops), v6)
  {
    hide OffByLeftover, TrieStep, LeftStep, P.StepMap;
    if ops == [] {
      assert OffByLeftover<M>(map[], map[], None, v6) by { NothingLeft<M>(v6); }
    } else {
      TrieHasLeftover(ops[..|ops| - 1], v6);
      var init := ops[..|ops| - 1];
      StepLeftover(TrieMap(init, v6), P.RunMap(init), Leftover(init), ops[|ops| - 1], v6);
    }
  }

  lemma NothingLeft<M>(v6: bool)
    ensures OffByLeftover<M>(map[], map[], None, v6)
  {
  }

  lemma {:induction false} DefaultIsLast<M>(m: map<Bits, M>, v: Option<M>, addr: Bits, n: nat)
    requires (v.Some? ==> [] !in m) && n <= |addr|
    ensures LongestUpTo(m + DefaultOf(v), addr, n) ==
      if LongestUpTo(m, addr, n).Some? then LongestUpTo(m, addr, n) else v
  {
    if n > 0 { DefaultIsLast(m, v, addr, n - 1); }
  }

  /** Every address gets the Patricia tree's answer from the bit trie too, or the leftover if there is none. */
  lemma LookupsDifferByLeftover<M>(ops: seq<P.Op<M>>, ip: T.Ip)
    ensures var go := P.Lookup(P.Run(ops), T.IpBits(ip));
      T.Best(TrieMap(ops, ip.v6), ip) == if go.Some? then go else Leftover(ops)
  {
    TrieHasLeftover(ops, ip.v6);
    P.RunRefinesMap(ops, T.IpBits(ip));
    DefaultIsLast(P.RunMap(ops), Leftover(ops), T.IpBits(ip), |T.IpBits(ip)|);
  }

  /** No clear finds a default route stored. */
  ghost predicate ClearsNoDefault<M>(ops: seq<P.Op<M>>) {
    forall i :: 0 <= i < |ops| && ops[i].ClearOp? ==> [] !in P.RunMap(ops[..i])
  }

  /** The trees store the same all along a run if and only if no clear finds a default route. */
  lemma TreesAgreeIff<M>(ops: seq<P.Op<M>>, v6: bool)
    ensures (forall i :: 0 <= i <= |ops| ==> T.Family(TrieMap(ops[..i], v6), v6) == P.RunMap(ops[..i]))
      <==> ClearsNoDefault(ops)
  {
    hide P.RunMap, T.Family, TrieMap;
    if ClearsNoDefault(ops) {
      forall i | 0 <= i <= |ops| ensures T.Family(TrieMap(ops[..i], v6), v6) == P.RunMap(ops[..i]) {
        NoLeftover(ops, i);
        TrieHasLeftover(ops[..i], v6);
        assert P.RunMap(ops[..i]) + map[] == P.RunMap(ops[..i]);
      }
    } else {
      var i :| 0 <= i < |ops| && ops[i].ClearOp? && [] in P.RunMap(ops[..i]);
      var upTo := ops[..i + 1];
      assert upTo[..i] == ops[..i];
      TrieHasLeftover(upTo, v6);
      assert [] in T.Family(TrieMap(upTo, v6), v6) && [] !in P.RunMap(upTo);
    }
  }

  lemma {:induction false} NoLeftover<M>(ops: seq<P.Op<M>>, i: nat)
    requires ClearsNoDefault(ops) && i <= |ops|
    ensures Leftover(ops[..i]).None?
  {
    if i > 0 {
      NoLeftover(ops, i - 1);
      assert ops[..i][..i - 1] == ops[..i - 1];
    }
  }

  /** Storing a default route and clearing leaves every address that route in the bit trie and nothing in the other. */
  lemma ClearedDefaultStays<M>(v: M, ip: T.Ip)
    ensures var ops := [P.InsertOp([], v), P.ClearOp];
      P.Lookup(P.Run(ops), T.IpBits(ip)).None? && T.Best(TrieMap(ops, ip.v6), ip) == Some(v)
  {
    var ops := [P.InsertOp([], v), P.ClearOp];
    assert ops[..1] == [P.InsertOp([], v)] && ops[..1][..0] == [];
    LookupsDifferByLeftover(ops, ip);
    P.RunRefinesMap(ops, T.IpBits(ip));
    assert P.RunMap(ops) == map[];
    LongestIsExact(P.RunMap(ops), T.IpBits(ip), None);
  }

  function AllOnBits<M>(calls: seq<Call<M>>): (ops: seq<P.Op<M>>) {
    seq(|calls|, i requires 0 <= i < |calls| => OnBits(calls[i]))
  }

  /** A Patricia tree and a bit trie driven through the same calls, and both asked for one address. */
  method DriveBoth<M>(calls: seq<Call<M>>, ip: T.Ip) returns (go: Option<M>, rust: Option<M>)
    requires T.ValidIp(ip) && forall i :: 0 <= i < |calls| ==> OfFamily(calls[i], ip.v6)
    ensures go == Longest(P.RunMap(AllOnBits(calls)), T.IpBits(ip))
    ensures rust == if go.Some? then go else Leftover(AllOnBits(calls))
    ensures ClearsNoDefault(AllOnBits(calls)) ==> go == rust
  {
    hide T.IpBits, T.Best, T.ValidIp, P.RunMap, Longest, TrieMap, AllOnBits, Leftover, ClearsNoDefault;
    ghost var ops := AllOnBits(calls);
    var tree := DriveTree(calls);
    var trie := DriveTrie(calls, ip.v6);
    go := tree.Lookup(ip.bytes);
    rust := trie.Lookup(ip);
    LookupsDifferByLeftover(ops, ip);
    P.RunRefinesMap(ops, T.IpBits(ip));
    assert T.IpBits(ip) == Slice(ip.bytes, 0, |ip.bytes| * 8) by { WholeAddress(ip); }
    if ClearsNoDefault(ops) { NoLeftover(ops, |ops|); }
    assert ops[..|ops|] == ops;
  }

  lemma WholeAddress(ip: T.Ip)
    ensures T.IpBits(ip) == Slice(ip.bytes, 0, |ip.bytes| * 8)
  {
  }

  method DriveTree<M>(calls: seq<Call<M>>) returns (tree: PatriciaTree.CompressedTree<M>)
    ensures fresh(tree) && tree.Valid() && tree.Contents() == P.RunMap(AllOnBits(calls))
  {
    hide P.Contents, P.StepMap, OnBits;
    tree := new PatriciaTree.CompressedTree<M>();
    ghost var ops := AllOnBits(calls);
    var i := 0;
    while i < |calls|
      invariant i <= |calls| && tree.Valid() && fresh(tree) && fresh(tree.root.Repr)
      invariant tree.Contents() == P.RunMap(ops[..i])
    {
      assert ops[..i + 1][..i] == ops[..i];
      OnTree(tree, calls[i]);
      i := i + 1;
    }
    assert ops[..i] == ops;
  }

  lemma NoOps<M>(v6: bool)
    ensures TrieMap<M>([], v6) == map[]
  {
  }

  lemma NextOp<M>(calls: seq<Call<M>>, i: nat, v6: bool)
    requires i < |calls|
    ensures |AllOnBits(calls)| == |calls|
    ensures var ops := AllOnBits(calls);
      TrieMap(ops[..i + 1], v6) == TrieStep(TrieMap(ops[..i], v6), OnBits(calls[i]), v6)
  {
    hide TrieStep, OnBits;
    var ops := AllOnBits(calls);
    assert ops[..i + 1][..i] == ops[..i];
  }

  method DriveTrie<M>(calls: seq<Call<M>>, v6: bool) returns (trie: T.BitTrie<M>)
    requires forall i :: 0 <= i < |calls| ==> OfFamily(calls[i], v6)
    ensures fresh(trie) && trie.Valid() && trie.Contents() == TrieMap(AllOnBits(calls), v6)
  {
    hide T.Live, T.Paths, T.Linked, T.Labelled, TrieStep, TrieMap, OnBits, OfFamily;
    NoOps<M>(v6);
    trie := new T.BitTrie<M>();
    ghost var ops := AllOnBits(calls);
    var i := 0;
    while i < |calls|
      invariant i <= |calls| && trie.Valid() && fresh(trie) && fresh(trie.nodes.Values)
      invariant trie.Contents() == TrieMap(ops[..i], v6)
    {
      NextOp(calls, i, v6);
      OnTrie(trie, calls[i], v6);
      i := i + 1;
    }
    assert ops[..i] == ops;
  }

  method OnTree<M>(tree: PatriciaTree.CompressedTree<M>, call: Call<M>)
    requires tree.Valid()
    modifies tree, tree.root.Repr
    ensures tree.Valid() && fresh(tree.root.Repr - old(tree.root.Repr))
    ensures tree.Contents() == P.StepMap(old(tree.Contents()), OnBits(call))
  {
    hide P.Contents;
    match call {
      case Store(net, v) => var _ := tree.Insert(net.ip.bytes, net.len, v);
      case Drop(net) => var _ := tree.Remove(net.ip.bytes, net.len);
      case Wipe => tree.Clear();
    }
  }

  method OnTrie<M>(trie: T.BitTrie<M>, call: Call<M>, v6: bool)
    requires trie.Valid() && OfFamily(call, v6)
    modifies trie, trie.nodes.Values
    ensures trie.Valid() && fresh(trie.nodes.Values - old(trie.nodes.Values))
    ensures trie.Contents() == TrieStep(old(trie.Contents()), OnBits(call), v6)
  {
    hide T.Live, T.Linked, T.Labelled, T.ValidNet;
    match call {
      case Store(net, v) => var _ := trie.Insert(net, v);
      case Drop(net) => var _ := trie.Remove(net);
      case Wipe => trie.Clear();
    }
  }
}
