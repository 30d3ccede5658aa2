/** The uncompressed binary trie: one bit per edge, walked by loops over shared
    mutable nodes, with both address families in one tree. */
module BitTrie {
  import opened Lpm
  import opened Bytes

  const MAX_BITS := 128

  datatype Ip = Ip(v6: bool, bytes: seq<Byte>)

  ghost predicate ValidIp(ip: Ip) { |ip.bytes| == if ip.v6 then 16 else 4 }

  function IpBits(ip: Ip): (b: Bits) { Slice(ip.bytes, 0, 8 * |ip.bytes|) }

  datatype Net = Net(ip: Ip, len: nat)

  ghost predicate ValidNet(n: Net) { ValidIp(n.ip) && n.len <= 8 * |n.ip.bytes| }

  function NetBits(n: Net): (b: Bits)
    ensures |b| == n.len
  {
    Slice(n.ip.bytes, 0, n.len)
  }

  /** Same family, and the address starts with the network bits. */
  predicate NetContains(n: Net, ip: Ip) {
    n.ip.v6 == ip.v6 && NetBits(n) <= IpBits(ip)
  }

  datatype Entry<M> = Entry(v6: bool, meta: M)

  /** The entries of one address family. */
  ghost function Family<M>(m: map<Bits, Entry<M>>, v6: bool): (r: map<Bits, M>) {
    map p | p in m && m[p].v6 == v6 :: m[p].meta
  }

  /** What a lookup must answer. */
  ghost function Best<M>(m: map<Bits, Entry<M>>, ip: Ip): (r: Option<M>) {
    Longest(Family(m, ip.v6), IpBits(ip))
  }

  /** What a cleared trie keeps: its root, with the root's own entry, is never replaced. */
  function RootOnly<M>(m: map<Bits, Entry<M>>): (r: map<Bits, Entry<M>>) {
    map p | p in m && p == [] :: m[p]
  }

  class Node<M> {
    var left: Node?<M>
    var right: Node?<M>
    var meta: Option<M>
    var prefix: Option<Net>

    constructor ()
      ensures left == null && right == null && meta == None && prefix == None
    {
      left, right, meta, prefix := null, null, None, None;
    }
  }

  ghost function Kid<M>(nodes: map<Bits, Node<M>>, p: Bits, bit: bool): (n: Node?<M>) {
    if p + [bit] in nodes then nodes[p + [bit]] else null
  }

  /** `nodes` gives every node of the tree by its path: a prefix-closed set of distinct nodes. */
  ghost predicate Paths<M>(nodes: map<Bits, Node<M>>) {
    && [] in nodes
    && (forall p :: p in nodes ==> |p| <= MAX_BITS)
    && (forall p :: p in nodes && p != [] ==> p[..|p| - 1] in nodes)
    && (forall p, q :: p in nodes && q in nodes && p != q ==> nodes[p] != nodes[q])
  }

  ghost predicate Linked<M>(nodes: map<Bits, Node<M>>)
    reads nodes.Values
  {
    && (forall p {:trigger nodes[p].left} :: p in nodes ==> nodes[p].left == Kid(nodes, p, false))
    && (forall p {:trigger nodes[p].right} :: p in nodes ==> nodes[p].right == Kid(nodes, p, true))
  }

  /** A node with metadata carries the network it was stored under; a removed one may keep a stale network. */
  ghost predicate Labelled<M>(nodes: map<Bits, Node<M>>)
    reads nodes.Values
  {
    forall p {:trigger nodes[p].meta} :: p in nodes ==> LabelFits(p, nodes[p].prefix, nodes[p].meta)
  }

  ghost predicate LabelFits<M>(p: Bits, prefix: Option<Net>, meta: Option<M>) {
    meta.Some? ==> prefix.Some? && ValidNet(prefix.value) && NetBits(prefix.value) == p
  }

  ghost function WithDatum<M>(m: map<Bits, Entry<M>>, p: Bits, prefix: Option<Net>, meta: Option<M>)
      : (r: map<Bits, Entry<M>>)
    requires LabelFits(p, prefix, meta)
  {
    if meta.Some? then m[p := Entry(prefix.value.ip.v6, meta.value)] else m - {p}
  }

  ghost function Live<M>(nodes: map<Bits, Node<M>>): (m: map<Bits, Entry<M>>)
    requires Labelled(nodes)
    reads nodes.Values
  {
    map p | p in nodes && nodes[p].meta.Some? :: Entry(nodes[p].prefix.value.ip.v6, nodes[p].meta.value)
  }

  class BitTrie<M> {
    const root: Node<M>
    ghost var nodes: map<Bits, Node<M>>

    ghost predicate Valid()
      reads this, nodes.Values
    {
      Paths(nodes) && nodes[[]] == root && Linked(nodes) && Labelled(nodes)
    }

    ghost function Contents(): (m: map<Bits, Entry<M>>)
      requires Valid()
      reads this, nodes.Values
    {
      Live(nodes)
    }

    constructor ()
      ensures Valid() && Contents() == map[] && fresh(root) && fresh(nodes.Values)
    {
      hide Paths, Linked, Labelled, Live;
      root := new Node<M>();
      new;
      nodes := map[[] := root];
      LoneNode(root);
    }

    /** Creates the missing nodes of a path, one bit at a time. */
    method Reach(net: Net) returns (current: Node<M>)
      requires Valid() && ValidNet(net)
      modifies this, nodes.Values
      ensures Valid() && fresh(nodes.Values - old(nodes.Values))
      ensures Contents() == old(Contents())
      ensures NetBits(net) in nodes && current == nodes[NetBits(net)]
    {
      hide Slice, GetBit, Paths, Linked, Labelled, Live;
      ghost var bits := NetBits(net);
      RootPath(nodes);
      current := root;
      assert bits[..0] == [];
      var depth := 0;
      while depth < net.len
        invariant depth <= net.len
        invariant Valid() && fresh(nodes.Values - old(nodes.Values))
        invariant Contents() == old(Contents())
        invariant bits[..depth] in nodes && current == nodes[bits[..depth]]
      {
        var bit := GetBit(net.ip.bytes, depth);
        BitAt(net, depth);
        KidOf(nodes, bits[..depth]);
        var next := if bit then current.right else current.left;
        if next == null {
          next := AddKid(current, bits[..depth], bit);
        }
        current := next;
        depth := depth + 1;
      }
      assert bits[..net.len] == bits;
    }

    method AddKid(n: Node<M>, ghost p: Bits, bit: bool) returns (kid: Node<M>)
      requires Valid() && p in nodes && n == nodes[p] && |p| < MAX_BITS && p + [bit] !in nodes
      modifies this, nodes.Values
      ensures Valid() && fresh(nodes.Values - old(nodes.Values))
      ensures Contents() == old(Contents())
      ensures p + [bit] in nodes && kid == nodes[p + [bit]]
    {
      hide Paths, Labelled, Live, NetBits, Kid, Linked;
      ghost var before := nodes;
      LinkedIs(before);
      kid := new Node<M>();
      PathsExtend(before, p, bit, kid);
      Distinct(before, p);
      if bit {
        n.right := kid;
      } else {
        n.left := kid;
      }
      SameData(before);
      LiveExtend(before, p + [bit], kid);
      nodes := nodes[p + [bit] := kid];
      forall q | q in nodes ensures LinksAt(nodes[q], nodes, q) {
        if q != p + [bit] {
          KidExtend(before, p, bit, kid, q, false);
          KidExtend(before, p, bit, kid, q, true);
          assert nodes[q] == before[q] != kid by { assert before[q] in old(nodes.Values); }
          assert old(LinksAt(before[q], before, q));
        }
      }
      LinkedIs(nodes);
    }

    /** Writes the two data fields of the node at `p`. */
    method SetData(n: Node<M>, ghost p: Bits, prefix: Option<Net>, meta: Option<M>)
      requires Valid() && p in nodes && n == nodes[p] && LabelFits(p, prefix, meta)
      modifies n`meta, n`prefix
      ensures Valid()
      ensures Contents() == WithDatum(old(Contents()), p, prefix, meta)
    {
      hide Paths, NetBits, ValidNet, Linked, Live;
      Distinct(nodes, p);
      LiveAt(nodes);
      ghost var before := Contents();
      n.prefix := prefix;
      n.meta := meta;
      SameLinks(nodes);
      assert forall q {:trigger nodes[q].meta} :: q in nodes && q != p ==>
        nodes[q].meta == old(nodes[q].meta) && nodes[q].prefix == old(nodes[q].prefix);
      ghost var after := WithDatum(before, p, prefix, meta);
      assert Agrees(n, p, after);
      forall q | q in nodes && q != p ensures Agrees(nodes[q], q, after) { assert old(Agrees(nodes[q], q, before)); }
      LiveIs(nodes, after);
    }

    /** Stores `m` under a network: is map update, and answers whether the key was free. */
    method Insert(net: Net, m: M) returns (isNew: bool)
      requires Valid() && ValidNet(net)
      modifies this, nodes.Values
      ensures Valid() && fresh(nodes.Values - old(nodes.Values))
      ensures Contents() == old(Contents())[NetBits(net) := Entry(net.ip.v6, m)]
      ensures isNew <==> NetBits(net) !in old(Contents())
    {
      hide Paths, Linked, Labelled, NetBits, ValidNet;
      var current := Reach(net);
      isNew := current.meta.None?;
      SetData(current, NetBits(net), Some(net), Some(m));
    }

    /** The node of a network, or null when the path is missing. */
    method Walk(net: Net) returns (current: Node?<M>)
      requires Valid() && ValidNet(net)
      ensures current == if NetBits(net) in nodes then nodes[NetBits(net)] else null
    {
      hide Slice, GetBit, Paths, Linked, Labelled;
      ghost var bits := NetBits(net);
      RootPath(nodes);
      current := root;
      assert bits[..0] == [];
      var depth := 0;
      while depth < net.len
        invariant depth <= net.len
        invariant bits[..depth] in nodes && current == nodes[bits[..depth]]
      {
        BitAt(net, depth);
        KidOf(nodes, bits[..depth]);
        var next := if GetBit(net.ip.bytes, depth) then current.right else current.left;
        if next == null {
          MissingPath(nodes, bits, depth + 1);
          return null;
        }
        current := next;
        depth := depth + 1;
      }
      assert bits[..net.len] == bits;
    }

    /** Deletes one key, leaving its node and stale network in place. */
    method Remove(net: Net) returns (removed: Option<M>)
      requires Valid() && ValidNet(net)
      modifies nodes.Values
      ensures Valid() && nodes == old(nodes)
      ensures Contents() == old(Contents()) - {NetBits(net)}
      ensures removed == if NetBits(net) in old(Contents()) then Some(old(Contents())[NetBits(net)].meta) else None
    {
      hide Paths, Linked, Labelled, NetBits, ValidNet;
      ghost var p := NetBits(net);
      var current := Walk(net);
      removed := None;
      if current != null && current.meta.Some? {
        removed := current.meta;
        SetData(current, p, current.prefix, None);
      }
      assert p !in old(Contents()) ==> old(Contents()) - {p} == old(Contents());
    }

    method Contains(net: Net) returns (found: bool)
      requires Valid() && ValidNet(net)
      ensures found <==> NetBits(net) in Contents()
    {
      var current := Walk(net);
      found := current != null && current.meta.Some?;
    }

    /** The walk that keeps the last matching node: is longest-prefix match within the address's family. */
    method Lookup(ip: Ip) returns (best: Option<M>)
      requires Valid() && ValidIp(ip)
      ensures best == Best(Contents(), ip)
    {
      hide Slice, GetBit, Paths, Linked, Labelled, Live, IpBits;
      ghost var bits, m := IpBits(ip), Family(Contents(), ip.v6);
      RootPath(nodes);
      best := None;
      var current: Node?<M> := root;
      var depth := 0;
      while current != null
        invariant Walked(ip, depth) in nodes || current == null
        invariant current != null ==> current == nodes[Walked(ip, depth)]
        invariant current == null ==> depth > 0 && Walked(ip, depth) !in nodes
        invariant best == Seen(m, bits, depth)
        invariant depth <= MAX_BITS + 1
        decreases MAX_BITS + 1 - depth, current != null
      {
        ghost var p := Walked(ip, depth);
        ShortPath(nodes, p);
        VisitIs(nodes, ip, depth);
        if current.prefix.Some? && NetContains(current.prefix.value, ip) && current.meta.Some? {
          best := current.meta;
        }
        KidOf(nodes, p);
        WalkedNext(ip, depth);
        current := if GetBit(ip.bytes, depth) then current.right else current.left;
        depth := depth + 1;
      }
      LiveKeys(nodes, ip.v6);
      SeenAll(nodes, m, ip, depth);
    }

    /** Unlinks both subtrees; the root's own entry stays. */
    method Clear()
      requires Valid()
      modifies this, root
      ensures Valid() && nodes == map[[] := root]
      ensures Contents() == RootOnly(old(Contents()))
    {
      hide NetBits, ValidNet;
      RootPath(nodes);
      root.left := null;
      root.right := null;
      nodes := map[[] := root];
    }
  }

  lemma RootPath<M>(nodes: map<Bits, Node<M>>)
    requires Paths(nodes)
    ensures [] in nodes
  {
  }

  lemma BitAt(net: Net, depth: nat)
    requires depth < net.len
    ensures GetBit(net.ip.bytes, depth) == NetBits(net)[depth]
    ensures NetBits(net)[..depth + 1] == NetBits(net)[..depth] + [NetBits(net)[depth]]
  {
  }

  lemma KidOf<M>(nodes: map<Bits, Node<M>>, p: Bits)
    requires Linked(nodes) && p in nodes
    ensures nodes[p].left == Kid(nodes, p, false) && nodes[p].right == Kid(nodes, p, true)
  {
  }

  lemma LoneNode<M>(n: Node<M>)
    requires n.left == null && n.right == null && n.meta == None
    ensures var nodes := map[[] := n]; Paths(nodes) && Linked(nodes) && Labelled(nodes) && Live(nodes) == map[]
  {
    hide Linked, Labelled, Live, Paths;
    var nodes: map<Bits, Node<M>> := map[[] := n];
    LonePath(n);
    assert LinksAt(n, nodes, []) by { NoKid(n, false); NoKid(n, true); }
    LinkedIs(nodes);
    LoneLabel(n);
    LiveIs(nodes, map[]);
  }

  lemma LonePath<M>(n: Node<M>)
    ensures Paths(map[[] := n])
  {
  }

  lemma NoKid<M>(n: Node<M>, bit: bool)
    ensures Kid(map[[] := n], [], bit) == null
  {
    assert |[] + [bit]| == 1;
  }

  lemma LoneLabel<M>(n: Node<M>)
    requires n.meta == None
    ensures Labelled(map[[] := n])
  {
    hide NetBits, ValidNet;
  }

  /** The node at `p` is linked to its children and to nothing else. */
  ghost predicate LinksAt<M>(n: Node<M>, nodes: map<Bits, Node<M>>, p: Bits)
    reads n
  {
    n.left == Kid(nodes, p, false) && n.right == Kid(nodes, p, true)
  }

  lemma LinkedIs<M>(nodes: map<Bits, Node<M>>)
    ensures Linked(nodes) <==> forall q :: q in nodes ==> LinksAt(nodes[q], nodes, q)
  {
    hide Kid;
    if forall q :: q in nodes ==> LinksAt(nodes[q], nodes, q) {
      assert forall p {:trigger nodes[p].left} :: p in nodes ==> LinksAt(nodes[p], nodes, p);
      assert forall p {:trigger nodes[p].right} :: p in nodes ==> LinksAt(nodes[p], nodes, p);
    }
  }

  /** The map says of the node what the node says. */
  ghost predicate Agrees<M>(n: Node<M>, p: Bits, m: map<Bits, Entry<M>>)
    reads n
  {
    && (p in m <==> n.meta.Some?)
    && (n.meta.Some? ==> n.prefix.Some? && m[p] == Entry(n.prefix.value.ip.v6, n.meta.value))
  }

  lemma LiveAt<M>(nodes: map<Bits, Node<M>>)
    requires Labelled(nodes)
    ensures Live(nodes).Keys <= nodes.Keys && forall q :: q in nodes ==> Agrees(nodes[q], q, Live(nodes))
  {
    hide NetBits, ValidNet;
  }

  lemma LiveIs<M>(nodes: map<Bits, Node<M>>, m: map<Bits, Entry<M>>)
    requires Labelled(nodes) && m.Keys <= nodes.Keys && forall q :: q in nodes ==> Agrees(nodes[q], q, m)
    ensures Live(nodes) == m
  {
    hide NetBits, ValidNet;
    assert forall q :: q in m ==> Agrees(nodes[q], q, m);
  }

  lemma Distinct<M>(nodes: map<Bits, Node<M>>, p: Bits)
    requires Paths(nodes) && p in nodes
    ensures forall q {:trigger nodes[q]} :: q in nodes && q != p ==> nodes[q] != nodes[p]
  {
  }

  twostate lemma SameData<M>(nodes: map<Bits, Node<M>>)
    requires old(Labelled(nodes))
    requires forall q :: q in nodes ==> nodes[q].meta == old(nodes[q].meta) && nodes[q].prefix == old(nodes[q].prefix)
    ensures Labelled(nodes) && Live(nodes) == old(Live(nodes))
  {
    hide NetBits, ValidNet;
  }

  twostate lemma SameLinks<M>(nodes: map<Bits, Node<M>>)
    requires old(Linked(nodes))
    requires forall q :: q in nodes ==> nodes[q].left == old(nodes[q].left) && nodes[q].right == old(nodes[q].right)
    ensures Linked(nodes)
  {
    hide Kid;
  }

  lemma PathsExtend<M>(nodes: map<Bits, Node<M>>, p: Bits, bit: bool, kid: Node<M>)
    requires Paths(nodes) && p in nodes && |p| < MAX_BITS && p + [bit] !in nodes && kid !in nodes.Values
    ensures Paths(nodes[p + [bit] := kid])
    ensures Kid(nodes[p + [bit] := kid], p + [bit], false) == null
    ensures Kid(nodes[p + [bit] := kid], p + [bit], true) == null
  {
    assert (p + [bit])[..|p|] == p;
    var kidPath := p + [bit];
    forall b: bool ensures kidPath + [b] !in nodes[kidPath := kid] {
      var q := kidPath + [b];
      assert q[..|q| - 1] == kidPath;
      assert |q| != |kidPath|;
    }
    forall q | q in nodes ensures nodes[q] != kid { assert nodes[q] in nodes.Values; }
  }

  lemma KidExtend<M>(nodes: map<Bits, Node<M>>, p: Bits, bit: bool, kid: Node<M>, q: Bits, b: bool)
    ensures Kid(nodes[p + [bit] := kid], q, b) == if q == p && b == bit then kid else Kid(nodes, q, b)
  {
    if q + [b] == p + [bit] {
      assert (q + [b])[..|q|] == q && (p + [bit])[..|p|] == p && (q + [b])[|q|] == b;
    }
  }

  lemma LiveExtend<M>(nodes: map<Bits, Node<M>>, p: Bits, kid: Node<M>)
    requires Labelled(nodes) && p !in nodes && kid.meta == None
    ensures Labelled(nodes[p := kid]) && Live(nodes[p := kid]) == Live(nodes)
  {
  }

  /** Once a path is missing every extension of it is. */
  lemma {:induction false} MissingPath<M>(nodes: map<Bits, Node<M>>, bits: Bits, k: nat)
    requires Paths(nodes) && k <= |bits| && bits[..k] !in nodes
    ensures forall j :: k <= j <= |bits| ==> bits[..j] !in nodes
    ensures bits !in nodes
    decreases |bits| - k
  {
    hide Paths;
    if k < |bits| {
      ParentPath(nodes, bits, k);
      MissingPath(nodes, bits, k + 1);
    } else {
      assert bits[..k] == bits;
    }
  }

  lemma ParentPath<M>(nodes: map<Bits, Node<M>>, bits: Bits, k: nat)
    requires Paths(nodes) && k < |bits|
    ensures bits[..k + 1] in nodes ==> bits[..k] in nodes
  {
    assert bits[..k + 1][..|bits[..k + 1]| - 1] == bits[..k];
  }

  // ---- Lookup ----

  /** The path of `depth` steps that an address takes; bits past its end read as zero. */
  function Walked(ip: Ip, depth: nat): (p: Bits)
    ensures |p| == depth
  {
    Slice(ip.bytes, 0, depth)
  }

  /** The best match among the first `depth` nodes of the walk. */
  ghost function Seen<M>(m: map<Bits, M>, bits: Bits, depth: nat): (r: Option<M>) {
    if depth == 0 then None
    else LongestUpTo(m, bits, if depth - 1 <= |bits| then depth - 1 else |bits|)
  }

  lemma ShortPath<M>(nodes: map<Bits, Node<M>>, p: Bits)
    requires Paths(nodes) && p in nodes
    ensures |p| <= MAX_BITS
  {
  }

  lemma WalkedNext(ip: Ip, depth: nat)
    ensures Walked(ip, depth + 1) == Walked(ip, depth) + [GetBit(ip.bytes, depth)]
    ensures Walked(ip, 0) == []
  {
  }

  lemma WalkedIsPrefix(ip: Ip, depth: nat)
    requires depth <= |IpBits(ip)|
    ensures Walked(ip, depth) == IpBits(ip)[..depth]
  {
  }

  /** Visiting the node at `depth` extends what has been seen by exactly that prefix. */
  lemma VisitIs<M>(nodes: map<Bits, Node<M>>, ip: Ip, depth: nat)
    requires Paths(nodes) && Labelled(nodes) && ValidIp(ip) && Walked(ip, depth) in nodes
    ensures var m, bits, n := Family(Live(nodes), ip.v6), IpBits(ip), nodes[Walked(ip, depth)];
      Seen(m, bits, depth + 1) ==
        if n.prefix.Some? && NetContains(n.prefix.value, ip) && n.meta.Some? then n.meta else Seen(m, bits, depth)
  {
    hide Slice, GetBit, Paths;
    var m, bits, p := Family(Live(nodes), ip.v6), IpBits(ip), Walked(ip, depth);
    var n := nodes[p];
    if depth <= |bits| {
      WalkedIsPrefix(ip, depth);
      assert bits[..depth] == p;
      assert n.meta.Some? ==>
        NetBits(n.prefix.value) == p && (NetContains(n.prefix.value, ip) <==> n.prefix.value.ip.v6 == ip.v6);
      assert p in m <==> n.meta.Some? && n.prefix.value.ip.v6 == ip.v6;
    } else {
      TooLong(ip, n.prefix, p, n.meta);
    }
  }

  lemma TooLong<M>(ip: Ip, prefix: Option<Net>, p: Bits, meta: Option<M>)
    requires ValidIp(ip) && LabelFits(p, prefix, meta) && |p| > |IpBits(ip)|
    ensures !(prefix.Some? && NetContains(prefix.value, ip) && meta.Some?)
  {
  }

  lemma LiveKeys<M>(nodes: map<Bits, Node<M>>, v6: bool)
    requires Labelled(nodes)
    ensures forall p :: p in Family(Live(nodes), v6) ==> p in nodes
  {
  }

  /** After the walk falls off the tree nothing longer can match. */
  lemma SeenAll<M>(nodes: map<Bits, Node<M>>, m: map<Bits, M>, ip: Ip, depth: nat)
    requires Paths(nodes) && depth > 0 && Walked(ip, depth) !in nodes
    requires forall p :: p in m ==> p in nodes
    ensures Seen(m, IpBits(ip), depth) == Longest(m, IpBits(ip))
  {
    hide Slice, GetBit, Paths;
    var bits := IpBits(ip);
    if depth <= |bits| {
      WalkedIsPrefix(ip, depth);
      MissingPath(nodes, bits, depth);
      SkipMissing(m, bits, depth - 1, |bits|);
    }
  }

  lemma {:induction false} SkipMissing<M>(m: map<Bits, M>, bits: Bits, k: nat, n: nat)
    requires k <= n <= |bits| && forall j :: k < j <= n ==> bits[..j] !in m
    ensures LongestUpTo(m, bits, n) == LongestUpTo(m, bits, k)
    decreases n - k
  {
    if k < n {
      SkipMissing(m, bits, k, n - 1);
    }
  }

  // ---- The linear scan over live entries ----

  /** The scan the trie is a fast form of: keep the longest network that contains the address. */
  method ScanEntries<M>(entries: seq<(Net, M)>, ip: Ip) returns (best: Option<M>)
    ensures IsScanResult(entries, ip, best)
  {
    hide NetContains;
    best := None;
    var bestLen := 0;
    var i := 0;
    ghost var at := 0;
    while i < |entries|
      invariant i <= |entries|
      invariant best.None? ==> forall j :: 0 <= j < i ==> !NetContains(entries[j].0, ip)
      invariant best.Some? ==>
        at < i && NetContains(entries[at].0, ip) && best == Some(entries[at].1) && bestLen == entries[at].0.len
      invariant best.Some? ==> forall j :: 0 <= j < i && NetContains(entries[j].0, ip) ==> entries[j].0.len <= bestLen
    {
      if NetContains(entries[i].0, ip) {
        if best.None? || bestLen < entries[i].0.len {
          best, bestLen, at := Some(entries[i].1), entries[i].0.len, i;
        }
      }
      i := i + 1;
    }
  }

  ghost predicate LongestAt<M>(entries: seq<(Net, M)>, ip: Ip, i: nat) {
    && i < |entries| && NetContains(entries[i].0, ip)
    && forall j :: 0 <= j < |entries| && NetContains(entries[j].0, ip) ==> entries[j].0.len <= entries[i].0.len
  }

  ghost predicate IsScanResult<M>(entries: seq<(Net, M)>, ip: Ip, r: Option<M>) {
    match r
    case None => forall j :: 0 <= j < |entries| ==> !NetContains(entries[j].0, ip)
    case Some(v) => exists i: nat :: LongestAt(entries, ip, i) && entries[i].1 == v
  }

  /** `entries` lists the live entries of `m`, each under its network. */
  ghost predicate Lists<M>(entries: seq<(Net, M)>, m: map<Bits, Entry<M>>) {
    && (forall i :: 0 <= i < |entries| ==>
          && ValidNet(entries[i].0) && NetBits(entries[i].0) in m
          && m[NetBits(entries[i].0)] == Entry(entries[i].0.ip.v6, entries[i].1))
    && (forall p :: p in m ==> exists i :: 0 <= i < |entries| && NetBits(entries[i].0) == p)
  }

  /** The bit-by-bit walk and the linear scan give the same answer for every address. */
  lemma ScanIsLookup<M>(entries: seq<(Net, M)>, m: map<Bits, Entry<M>>, ip: Ip, r: Option<M>)
    requires Lists(entries, m) && IsScanResult(entries, ip, r)
    ensures r == Best(m, ip)
  {
    hide NetBits, IpBits, ValidNet;
    var f, bits := Family(m, ip.v6), IpBits(ip);
    if r.Some? {
      var i: nat :| LongestAt(entries, ip, i) && entries[i].1 == r.value;
      var p := NetBits(entries[i].0);
      assert bits[..|p|] == p;
      forall k | |p| < k <= |bits| ensures bits[..k] !in f {
        if bits[..k] in f { Listed(entries, m, ip, bits[..k], i); }
      }
      assert IsLongestAt(f, bits, |p|) && f[bits[..|p|]] == r.value;
    } else {
      forall k | 0 <= k <= |bits| ensures bits[..k] !in f {
        ListedContains(entries, m, ip, bits[..k]);
      }
    }
    LongestIsExact(f, bits, r);
  }

  lemma ListedContains<M>(entries: seq<(Net, M)>, m: map<Bits, Entry<M>>, ip: Ip, p: Bits)
    requires Lists(entries, m) && p <= IpBits(ip)
    ensures p in Family(m, ip.v6) ==> exists j :: 0 <= j < |entries| && NetContains(entries[j].0, ip)
  {
    hide IpBits, ValidNet;
    if p in Family(m, ip.v6) {
      var j :| 0 <= j < |entries| && NetBits(entries[j].0) == p;
      assert NetContains(entries[j].0, ip);
    }
  }

  lemma Listed<M>(entries: seq<(Net, M)>, m: map<Bits, Entry<M>>, ip: Ip, p: Bits, i: nat)
    requires Lists(entries, m) && LongestAt(entries, ip, i) && p in Family(m, ip.v6) && p <= IpBits(ip)
    ensures |p| <= entries[i].0.len
  {
    hide IpBits, ValidNet;
    var j :| 0 <= j < |entries| && NetBits(entries[j].0) == p;
    assert NetContains(entries[j].0, ip);
  }

  /** Storing a network leaves the other family's view alone exactly when that family does not hold the same bits. */
  lemma FamiliesShareBits<M>(m: map<Bits, Entry<M>>, net: Net, meta: M)
    ensures Family(m[NetBits(net) := Entry(net.ip.v6, meta)], !net.ip.v6) == Family(m, !net.ip.v6)
      <==> NetBits(net) !in Family(m, !net.ip.v6)
    ensures Family(m[NetBits(net) := Entry(net.ip.v6, meta)], net.ip.v6) == Family(m, net.ip.v6)[NetBits(net) := meta]
  {
    var f, f' := Family(m, !net.ip.v6), Family(m[NetBits(net) := Entry(net.ip.v6, meta)], !net.ip.v6);
    assert NetBits(net) !in f';
    if NetBits(net) !in f { assert f == f'; }
  }

  // ---- By the values of the addresses ----

  /** A network contains an address exactly when they are of one family and their numbers agree once the
      host bits, 32 or 128 less the length, are divided away. */
  lemma ContainsByValue(n: Net, ip: Ip)
    requires ValidNet(n) && ValidIp(ip)
    ensures NetContains(n, ip) <==>
      n.ip.v6 == ip.v6 && SameNetwork(n.ip.bytes, ip.bytes, (if ip.v6 then 128 else 32) - n.len)
  {
    hide Slice, BigEndian, Pow2;
    if n.ip.v6 == ip.v6 { MembershipByValue(n.ip.bytes, n.len, ip.bytes); }
  }

  /** An insert and then a lookup in the same family: the address sees the new entry exactly when it is in
      the network by value and no longer stored prefix covers it. */
  method InsertThenLookup<M>(t: BitTrie<M>, net: Net, m: M, ip: Ip) returns (best: Option<M>)
    requires t.Valid() && ValidNet(net) && ValidIp(ip) && net.ip.v6 == ip.v6
    modifies t, t.nodes.Values
    ensures t.Valid()
    ensures best ==
      if && SameNetwork(net.ip.bytes, ip.bytes, (if ip.v6 then 128 else 32) - net.len)
         && forall k :: net.len < k <= |IpBits(ip)| ==> IpBits(ip)[..k] !in Family(old(t.Contents()), ip.v6)
      then Some(m) else Best(old(t.Contents()), ip)
  {
    hide Paths, Linked, Labelled, Live, NetBits, IpBits, ValidNet, ValidIp, BigEndian, Pow2;
    ghost var before := t.Contents();
    var _ := t.Insert(net, m);
    best := t.Lookup(ip);
    FamiliesShareBits(before, net, m);
    UpdateShows(Family(before, ip.v6), NetBits(net), m, IpBits(ip));
    ContainsByValue(net, ip);
  }
}
