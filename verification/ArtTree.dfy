/** The adaptive radix tree over child tables. A table is the finite map that
    the four layouts of `ArtNodes` refine, with their byte-wide emptiness test. */
module ArtTree {
  import opened Lpm
  import opened ArtNodes

  // ---- CIDR prefixes as routing bytes ----

  const KEY_BYTES := 16

  /** Keeps the `r` high bits of a `width`-bit number: the low bits are shifted out and back in as zeros. */
  function KeepHigh(x: nat, width: nat, r: nat): (m: nat)
    requires r <= width
    ensures m <= x && (r == width ==> m == x)
  {
    if r == width then x else 2 * KeepHigh(x / 2, width - 1, r)
  }

  /** x & (0xFF << (8 - r)) */
  function Mask(x: Octet, r: nat): (m: Octet)
    requires r <= 8
  {
    KeepHigh(x, 8, r)
  }

  lemma {:induction false} KeepHighNested(x: nat, width: nat, r: nat, s: nat)
    requires r <= s <= width
    ensures KeepHigh(KeepHigh(x, width, s), width, r) == KeepHigh(x, width, r)
  {
    if s < width {
      KeepHighNested(x / 2, width - 1, r, s);
    }
  }

  /** Number of bytes a prefix of `len` bits is routed on. */
  function RouteLen(len: nat): (n: nat) { (len + 7) / 8 }

  /** Bits of byte `i` that belong to a prefix of `len` bits. */
  function BitsAt(len: nat, i: nat): (r: nat)
    ensures r <= 8
  {
    if i < len / 8 then 8 else if i == len / 8 then len % 8 else 0
  }

  /** The network bits of `key`: what a prefix of `len` bits is stored under. */
  function Route(key: seq<Octet>, len: nat): (r: seq<Octet>)
    requires RouteLen(len) <= |key|
    ensures |r| == RouteLen(len)
  {
    seq(RouteLen(len), i requires 0 <= i < RouteLen(len) => Mask(key[i], BitsAt(len, i)))
  }

  datatype Cidr = Cidr(route: seq<Octet>, len: nat)

  /** The 16-byte key of a network: its routing bytes and zeros. */
  function Pad(c: Cidr): (k: seq<Octet>)
    ensures |k| == KEY_BYTES
    ensures |c.route| <= KEY_BYTES ==> c.route <= k
  {
    seq(KEY_BYTES, i requires 0 <= i < KEY_BYTES => if i < |c.route| then c.route[i] else 0)
  }

  ghost predicate Canonical(c: Cidr) {
    && c.len <= 8 * KEY_BYTES
    && |c.route| == RouteLen(c.len)
    && Route(c.route, c.len) == c.route
  }

  function CidrOf(key: seq<Octet>, len: nat): (c: Cidr)
    requires len <= 8 * KEY_BYTES && RouteLen(len) <= |key|
    ensures Canonical(c)
  {
    var c := Cidr(Route(key, len), len);
    RouteTwice(key, len, len);
    c
  }

  lemma RouteTwice(key: seq<Octet>, len: nat, len': nat)
    requires len <= len' && RouteLen(len') <= |key|
    ensures RouteLen(len) <= RouteLen(len')
    ensures Route(Route(key, len'), len) == Route(key, len)
  {
    forall i | 0 <= i < RouteLen(len) ensures Route(Route(key, len'), len)[i] == Route(key, len)[i] {
      KeepHighNested(key[i], 8, BitsAt(len, i), BitsAt(len', i));
    }
  }

  /** `addr` lies in the network `c`. */
  predicate Covers(c: Cidr, addr: seq<Octet>) {
    RouteLen(c.len) <= |addr| && Route(addr, c.len) == c.route
  }

  /** The network `d` is part of the network `c`. */
  predicate Contains(c: Cidr, d: Cidr) {
    c.len <= d.len && Covers(c, d.route)
  }

  /** One routing key is a byte prefix of the other. */
  predicate Comparable(c: Cidr, d: Cidr) {
    c.route <= d.route || d.route <= c.route
  }

  /** Networks that do not contain one another are routed apart. */
  lemma DisjointRoutes(c: Cidr, d: Cidr)
    requires Canonical(c) && Canonical(d)
    requires !Contains(c, d) && !Contains(d, c)
    ensures !Comparable(c, d)
  {
    if c.route <= d.route { PrefixContains(c, d); }
    if d.route <= c.route { PrefixContains(d, c); }
  }

  lemma PrefixContains(c: Cidr, d: Cidr)
    requires Canonical(c) && Canonical(d) && c.route <= d.route
    ensures Contains(c, d) || Contains(d, c)
  {
    if c.len <= d.len {
      RoutePrefix(c.route, d.route, c.len);
    } else {
      assert c.route == d.route;
    }
  }

  lemma RoutePrefix(a: seq<Octet>, b: seq<Octet>, len: nat)
    requires RouteLen(len) <= |a| && a <= b
    ensures Route(a, len) == Route(b, len)
  {
  }

  // ---- The tree ----

  datatype Ptr<V> =
    | Null
    | Leaf(masked: seq<Octet>, len: nat, value: V)
    | Inner(kids: map<Octet, Ptr<V>>)

  /** The stored network of a leaf. */
  function LeafCidr<V>(p: Ptr<V>): (c: Cidr)
    requires p.Leaf? && RouteLen(p.len) <= |p.masked|
  {
    Cidr(p.masked[..RouteLen(p.len)], p.len)
  }

  /** A leaf with its host bits zeroed, padded to 16 bytes. */
  function MakeLeaf<V>(key: seq<Octet>, len: nat, v: V): (p: Ptr<V>)
    requires len <= 8 * KEY_BYTES && RouteLen(len) <= |key|
    ensures p.Leaf? && p.len == len && p.value == v && |p.masked| == KEY_BYTES
    ensures LeafCidr(p) == CidrOf(key, len) && p.masked == Pad(CidrOf(key, len))
  {
    var masked := seq(KEY_BYTES, i requires 0 <= i < KEY_BYTES =>
      if i < RouteLen(len) then Mask(key[i], BitsAt(len, i)) else 0);
    assert masked[..RouteLen(len)] == Route(key, len);
    Leaf(masked, len, v)
  }

  /** The routing byte at `depth`, masked at the boundary byte of an unaligned prefix. */
  function IndexByte(key: seq<Octet>, depth: nat, len: nat): (b: Octet)
    requires depth < |key|
  {
    if depth == len / 8 && len % 8 > 0 then Mask(key[depth], len % 8) else key[depth]
  }

  lemma IndexByteIsRoute(key: seq<Octet>, depth: nat, len: nat)
    requires depth < RouteLen(len) <= |key|
    ensures IndexByte(key, depth, len) == Route(key, len)[depth]
  {
  }

  /** Whether the counter test drops a node: no children, or all 256 of them. */
  predicate CounterIsZero<C>(kids: map<Octet, C>) {
    |kids| % 256 == 0
  }

  /** It is the test the node layouts make. */
  lemma LayoutTest<C>(n: Node<C>)
    requires ValidNode(n)
    ensures IsEmpty(n) <==> CounterIsZero(Children(n))
  {
    EmptyTest(n);
    AtMost256(Children(n));
  }

  function Insert<V>(p: Ptr<V>, key: seq<Octet>, depth: nat, len: nat, v: V): (r: (Ptr<V>, bool))
    requires len <= 8 * KEY_BYTES && RouteLen(len) <= |key|
    requires depth <= RouteLen(len)
    requires Shaped(p)
    ensures r.0 != Null && Shaped(r.0)
    decreases if p.Null? then 0 else 1, RouteLen(len) - depth
  {
    if depth >= RouteLen(len) then
      (MakeLeaf(key, len, v), !p.Leaf?)
    else if p.Leaf? then
      var b := IndexByte(p.masked, depth, p.len);
      var old' := if depth >= RouteLen(p.len) then p else Insert(Null, p.masked, depth + 1, p.len, p.value).0;
      var newB := IndexByte(key, depth, len);
      if newB == b then
        var combined := Insert(old', key, depth + 1, len, v);
        (Inner(map[b := combined.0]), combined.1)
      else
        var fresh' := Insert(Null, key, depth + 1, len, v);
        (Inner(map[b := old'][newB := fresh'.0]), fresh'.1)
    else
      var kids := if p.Inner? then p.kids else map[];
      var b := IndexByte(key, depth, len);
      if b in kids then
        var sub := Insert(kids[b], key, depth + 1, len, v);
        (Inner(kids[b := sub.0]), sub.1)
      else
        (Inner(kids[b := MakeLeaf(key, len, v)]), true)
  }

  /** Every leaf holds a 16-byte key and a length that fits it. */
  ghost predicate Shaped<V>(p: Ptr<V>) {
    match p
    case Null => true
    case Leaf(masked, len, _) => |masked| == KEY_BYTES && len <= 8 * KEY_BYTES
    case Inner(kids) => forall b :: b in kids ==> Shaped(kids[b])
  }

  /** Descends by the address bytes as they are, and stops at the first leaf. */
  function Search<V>(p: Ptr<V>, addr: seq<Octet>, depth: nat): (r: Option<V>)
    requires Shaped(p)
    decreases p
  {
    match p
    case Null => None
    case Leaf(masked, len, v) => if Matches(p, addr) then Some(v) else None
    case Inner(kids) =>
      if depth < |addr| && addr[depth] in kids then Search(kids[addr[depth]], addr, depth + 1) else None
  }

  /** The leaf's own test: full bytes equal, boundary byte equal under its mask. */
  predicate Matches<V>(p: Ptr<V>, addr: seq<Octet>)
    requires p.Leaf? && |p.masked| == KEY_BYTES && p.len <= 8 * KEY_BYTES
  {
    var full, rest := p.len / 8, p.len % 8;
    && (forall i :: 0 <= i < full && i < |addr| ==> addr[i] == p.masked[i])
    && (rest > 0 && full < |addr| ==> Mask(addr[full], rest) == Mask(p.masked[full], rest))
  }

  function Delete<V>(p: Ptr<V>, key: seq<Octet>, depth: nat, len: nat): (r: (Ptr<V>, bool))
    requires len <= 8 * KEY_BYTES && RouteLen(len) <= |key|
    requires Shaped(p)
    ensures Shaped(r.0)
    ensures r.0.Inner? ==> p.Inner? && (p.kids != map[] ==> r.0.kids != map[])
    decreases p
  {
    match p
    case Null => (Null, false)
    case Leaf(masked, l, v) => if l == len && Matches(p, key) then (Null, true) else (p, false)
    case Inner(kids) =>
      if depth >= RouteLen(len) || IndexByte(key, depth, len) !in kids then (p, false)
      else
        var b := IndexByte(key, depth, len);
        var sub := Delete(kids[b], key, depth + 1, len);
        if !sub.1 then (p, false)
        else
          var kids' := if sub.0.Null? then kids - {b} else kids[b := sub.0];
          (if CounterIsZero(kids') then Null else Inner(kids'), true)
  }

  // ---- Where a tree stores what ----

  /** A value and the depth of its leaf. */
  datatype Place<V> = Place(value: V, at: nat)

  /** The leaf of a network, which lies on the path of its 16-byte key, at or below its routing key. */
  function Spot<V>(p: Ptr<V>, c: Cidr, depth: nat): (s: Option<Place<V>>)
    requires Shaped(p)
    decreases p
  {
    match p
    case Null => None
    case Leaf(_, _, v) => if LeafCidr(p) == c then Some(Place(v, depth)) else None
    case Inner(kids) =>
      if depth < KEY_BYTES && Pad(c)[depth] in kids then Spot(kids[Pad(c)[depth]], c, depth + 1) else None
  }

  /** What every run keeps: leaves lie on the paths of their own keys, in canonical form, and inner
      nodes below the root are not empty. */
  ghost predicate Sound<V>(p: Ptr<V>, path: seq<Octet>)
    requires Shaped(p)
    decreases p
  {
    match p
    case Null => true
    case Leaf(masked, len, _) => Canonical(LeafCidr(p)) && masked == Pad(LeafCidr(p)) && path <= masked
    case Inner(kids) =>
      && |path| < KEY_BYTES
      && forall b :: b in kids ==> kids[b] != Null && kids[b] != Inner(map[]) && Sound(kids[b], path + [b])
  }

  lemma {:induction false} SpotOnPath<V>(p: Ptr<V>, path: seq<Octet>, c: Cidr)
    requires Shaped(p) && Sound(p, path) && Spot(p, c, |path|).Some?
    ensures Canonical(c) && path <= Pad(c) && |path| <= Spot(p, c, |path|).value.at <= KEY_BYTES
    ensures p.Inner? ==> |path| < Spot(p, c, |path|).value.at
    decreases p
  {
    hide KeepHigh, Route, Canonical, Sound, Pad, Spot;
    if p.Null? {
      SpotNull<V>(c, |path|);
    } else if p.Leaf? {
      LeafNetwork(p, path);
      SpotLeaf(p, c, |path|);
    } else {
      SpotBelow(p, c, |path|);
      var b := Pad(c)[|path|];
      KidSound(p, path, b);
      SpotOnPath(p.kids[b], path + [b], c);
      assert path == (path + [b])[..|path|];
    }
  }

  lemma SpotLeaf<V>(p: Ptr<V>, c: Cidr, depth: nat)
    requires Shaped(p) && p.Leaf?
    ensures Spot(p, c, depth) == if LeafCidr(p) == c then Some(Place(p.value, depth)) else None
  {
  }

  lemma SpotBelow<V>(p: Ptr<V>, c: Cidr, depth: nat)
    requires Shaped(p) && p.Inner?
    ensures Spot(p, c, depth) ==
      if depth < KEY_BYTES && Pad(c)[depth] in p.kids then Spot(p.kids[Pad(c)[depth]], c, depth + 1) else None
  {
  }

  lemma SpotNull<V>(c: Cidr, depth: nat)
    ensures Spot<V>(Null, c, depth).None?
  {
  }

  lemma KidSound<V>(p: Ptr<V>, path: seq<Octet>, b: Octet)
    requires Shaped(p) && p.Inner? && Sound(p, path)
    ensures |path| < KEY_BYTES
    ensures b in p.kids ==> Sound(p.kids[b], path + [b]) && p.kids[b] != Null && p.kids[b] != Inner(map[])
  {
  }

  /** What is below a branch has the branch's byte. */
  lemma SpotAbove<V>(p: Ptr<V>, path: seq<Octet>, b: Octet, c: Cidr)
    requires Shaped(p) && p.Inner? && Sound(p, path) && b in p.kids && Spot(p.kids[b], c, |path| + 1).Some?
    ensures |path| < KEY_BYTES && Pad(c)[|path|] == b && Spot(p, c, |path|) == Spot(p.kids[b], c, |path| + 1)
  {
    hide KeepHigh, Route, Canonical;
    KidSound(p, path, b);
    SpotOnPath(p.kids[b], path + [b], c);
    assert (path + [b])[|path|] == b;
  }

  lemma SomeBranch<V>(kids: map<Octet, Ptr<V>>) returns (b: Octet)
    requires kids != map[]
    ensures b in kids
  {
    assert kids.Keys != {};
    b :| b in kids.Keys;
  }

  /** A node that is neither null nor an empty table stores something. */
  lemma {:induction false} StoresSomething<V>(p: Ptr<V>, path: seq<Octet>) returns (c: Cidr)
    requires Shaped(p) && Sound(p, path) && p != Null && p != Inner(map[])
    ensures Spot(p, c, |path|).Some?
    decreases p
  {
    hide KeepHigh, Route, Canonical, Sound, Spot, Pad;
    if p.Leaf? {
      c := LeafCidr(p);
      SpotLeaf(p, c, |path|);
    } else {
      var b := SomeBranch(p.kids);
      KidSound(p, path, b);
      c := StoresSomething(p.kids[b], path + [b]);
      SpotAbove(p, path, b, c);
    }
  }

  lemma TableSound<V>(p: Ptr<V>, path: seq<Octet>, b: Octet, sub: Ptr<V>)
    requires Shaped(p) && p.Inner? && Sound(p, path)
    requires Shaped(sub) && Sound(sub, path + [b]) && sub != Null && sub != Inner(map[])
    ensures Shaped(Inner(p.kids[b := sub])) && Sound(Inner(p.kids[b := sub]), path)
  {
  }

  lemma TableWithout<V>(p: Ptr<V>, path: seq<Octet>, b: Octet)
    requires Shaped(p) && p.Inner? && Sound(p, path)
    ensures Shaped(Inner(p.kids - {b})) && Sound(Inner(p.kids - {b}), path)
  {
  }

  lemma NullSound<V>(path: seq<Octet>)
    ensures Sound<V>(Null, path)
  {
  }

  // ---- Insert ----

  /** Length of the common prefix. */
  function Fork(a: seq<Octet>, b: seq<Octet>): (k: nat)
    ensures k <= |a| && k <= |b| && a[..k] == b[..k]
    ensures k < |a| && k < |b| ==> a[k] != b[k]
  {
    if a == [] || b == [] || a[0] != b[0] then 0
    else
      var k := 1 + Fork(a[1..], b[1..]);
      assert a[..k] == [a[0]] + a[1..][..k - 1] && b[..k] == [b[0]] + b[1..][..k - 1];
      k
  }

  lemma ForkAt(a: seq<Octet>, b: seq<Octet>, k: nat)
    requires k <= |a| && k <= |b| && a[..k] == b[..k]
    ensures Fork(a, b) >= k
    ensures k < |a| && k < |b| && a[k] != b[k] ==> Fork(a, b) == k
    ensures Fork(a, b) == |a| <==> a <= b
  {
    hide Fork;
    SameBytes(a, b, k);
    SameBytes(a, b, Fork(a, b));
  }

  lemma SameBytes(a: seq<Octet>, b: seq<Octet>, k: nat)
    requires k <= |a| && k <= |b| && a[..k] == b[..k]
    ensures forall i :: 0 <= i < k ==> a[i] == b[i]
  {
    assert forall i :: 0 <= i < k ==> a[..k][i] == b[..k][i];
  }

  /** Where a leaf at depth `q`, of a network routed on `r` bytes, ends up when an insert follows its
      key down to the fork `k`: it is pushed two levels at a time as long as its routing key goes on,
      and one level at a time below that. */
  function PushedTo(q: nat, r: nat, k: nat): (q': nat) {
    if q > k then q
    else if k + 1 < r && (k - q) % 2 == 0 then k + 2
    else k + 1
  }

  /** What becomes of the leaf of another network when `c` is inserted: replaced if the routing key of
      `c` leads along its 16-byte key to the end, and otherwise pushed out of the way. */
  function Shifted<V>(c: Cidr, d: Cidr, s: Option<Place<V>>): (s': Option<Place<V>>) {
    if s.None? || c.route <= Pad(d) then None
    else Some(Place(s.value.value, PushedTo(s.value.at, |d.route|, Fork(c.route, Pad(d)))))
  }

  /** Everything an insert does to what is stored. */
  ghost predicate Inserted<V>(p: Ptr<V>, p': Ptr<V>, c: Cidr, v: V, depth: nat)
    requires Shaped(p) && Shaped(p')
  {
    && (var s := Spot(p', c, depth); s.Some? && s.value.value == v && depth <= s.value.at <= |c.route|)
    && forall d :: d != c ==> Spot(p', d, depth) == Shifted(c, d, Spot(p, d, depth))
  }

  /** The walk of `c` ends on the leaf of `d`, as it is after the pushing. */
  ghost predicate EndsOn<V>(p: Ptr<V>, c: Cidr, d: Cidr, depth: nat)
    requires Shaped(p)
  {
    var s := Spot(p, d, depth);
    && s.Some? && c.route <= Pad(d) && s.value.at <= |c.route|
    && (|d.route| <= |c.route| || (|c.route| - s.value.at) % 2 == 0)
  }

  ghost predicate EndsOnLeaf<V>(p: Ptr<V>, c: Cidr, depth: nat)
    requires Shaped(p)
  {
    exists d :: EndsOn(p, c, d, depth)
  }

  ghost predicate InsertLaw<V>(p: Ptr<V>, path: seq<Octet>, c: Cidr, v: V, p': Ptr<V>, added: bool)
    requires Shaped(p) && Shaped(p')
  {
    && Sound(p', path) && p' != Null && p' != Inner(map[])
    && Inserted(p, p', c, v, |path|)
    && added == !EndsOnLeaf(p, c, |path|)
  }

  /** Exactly one entry is stored. */
  ghost predicate Only<V>(p: Ptr<V>, c: Cidr, v: V, depth: nat, at: nat)
    requires Shaped(p)
  {
    forall d :: Spot(p, d, depth) == if d == c then Some(Place(v, at)) else None
  }

  lemma LeafAlone<V>(key: seq<Octet>, len: nat, v: V, depth: nat)
    requires len <= 8 * KEY_BYTES && RouteLen(len) <= |key| && depth <= RouteLen(len)
    ensures Sound(MakeLeaf(key, len, v), Route(key, len)[..depth])
    ensures Only(MakeLeaf(key, len, v), CidrOf(key, len), v, depth, depth)
  {
    hide KeepHigh, Route;
    var c := CidrOf(key, len);
    assert c.route[..depth] <= c.route <= Pad(c);
  }

  /** An entry inserted where there is nothing: a leaf, or a node with a leaf. */
  lemma FreshAlone<V>(key: seq<Octet>, depth: nat, len: nat, v: V)
    requires len <= 8 * KEY_BYTES && RouteLen(len) <= |key| && depth <= RouteLen(len)
    ensures var r := Insert(Null, key, depth, len, v);
      && Sound(r.0, Route(key, len)[..depth]) && r.0 != Inner(map[]) && r.1
      && Only(r.0, CidrOf(key, len), v, depth, if depth < RouteLen(len) then depth + 1 else depth)
  {
    hide KeepHigh, Route, MakeLeaf, Canonical;
    LeafAlone(key, len, v, depth);
    if depth < RouteLen(len) {
      LeafAlone(key, len, v, depth + 1);
      IndexByteIsRoute(key, depth, len);
      var c := CidrOf(key, len);
      assert Route(key, len)[..depth] + [c.route[depth]] == c.route[..depth + 1];
      OneBranch(MakeLeaf(key, len, v), c, v, depth);
    }
  }

  lemma OneBranch<V>(sub: Ptr<V>, c: Cidr, v: V, depth: nat)
    requires Shaped(sub) && depth < |c.route| <= KEY_BYTES && Only(sub, c, v, depth + 1, depth + 1)
    ensures var r := Inner(map[c.route[depth] := sub]); Shaped(r) && Only(r, c, v, depth, depth + 1)
  {
    assert Pad(c)[depth] == c.route[depth];
  }

  /** Every insert, clash or not, in every tree a run can build. */
  lemma {:induction false} InsertOutcome<V>(p: Ptr<V>, key: seq<Octet>, depth: nat, len: nat, v: V)
    requires Shaped(p) && len <= 8 * KEY_BYTES && RouteLen(len) <= |key| && depth <= RouteLen(len)
    requires Sound(p, Route(key, len)[..depth])
    ensures var r := Insert(p, key, depth, len, v);
      InsertLaw(p, Route(key, len)[..depth], CidrOf(key, len), v, r.0, r.1)
    decreases if p.Null? then 0 else 1, RouteLen(len) - depth
  {
    hide KeepHigh, Canonical, Sound, Route, Spot, MakeLeaf, InsertLaw, Insert, Only;
    var c, path := CidrOf(key, len), Route(key, len)[..depth];
    if p.Null? {
      FreshAlone(key, depth, len, v);
      FreshLaw(path, c, v, Insert(p, key, depth, len, v).0, if depth < RouteLen(len) then depth + 1 else depth);
    } else if depth == RouteLen(len) {
      TerminalOutcome(p, key, len, v);
    } else if p.Inner? {
      InnerOutcome(p, key, depth, len, v);
    } else {
      LeafOutcome(p, key, depth, len, v);
    }
  }

  lemma FreshLaw<V>(path: seq<Octet>, c: Cidr, v: V, p': Ptr<V>, at: nat)
    requires Shaped(p') && Sound(p', path) && p' != Null && p' != Inner(map[]) && Only(p', c, v, |path|, at)
    requires |path| <= at <= |c.route|
    ensures InsertLaw(Null, path, c, v, p', true)
  {
    hide Sound;
  }

  /** The slot at the end of the routing key is replaced with everything in it. */
  lemma TerminalOutcome<V>(p: Ptr<V>, key: seq<Octet>, len: nat, v: V)
    requires Shaped(p) && len <= 8 * KEY_BYTES && RouteLen(len) <= |key| && p != Null
    requires Sound(p, Route(key, len)[..RouteLen(len)])
    ensures var r := Insert(p, key, RouteLen(len), len, v);
      InsertLaw(p, Route(key, len)[..RouteLen(len)], CidrOf(key, len), v, r.0, r.1)
  {
    hide KeepHigh, Canonical, Sound, Route, MakeLeaf;
    var c, path := CidrOf(key, len), Route(key, len)[..RouteLen(len)];
    assert path == c.route;
    LeafAlone(key, len, v, RouteLen(len));
    forall d | Spot(p, d, |path|).Some? ensures c.route <= Pad(d) && (p.Inner? ==> !EndsOn(p, c, d, |path|)) {
      SpotOnPath(p, path, d);
    }
    if p.Leaf? { assert EndsOn(p, c, LeafCidr(p), |path|); }
  }

  lemma {:induction false} InnerOutcome<V>(p: Ptr<V>, key: seq<Octet>, depth: nat, len: nat, v: V)
    requires Shaped(p) && len <= 8 * KEY_BYTES && RouteLen(len) <= |key| && depth < RouteLen(len)
    requires p.Inner? && Sound(p, Route(key, len)[..depth])
    ensures var r := Insert(p, key, depth, len, v);
      InsertLaw(p, Route(key, len)[..depth], CidrOf(key, len), v, r.0, r.1)
    decreases 1, RouteLen(len) - depth, 0
  {
    hide KeepHigh, Canonical, Sound, Route, Spot, MakeLeaf, InsertLaw, Only;
    var c, path := CidrOf(key, len), Route(key, len)[..depth];
    IndexByteIsRoute(key, depth, len);
    var b := c.route[depth];
    assert path + [b] == c.route[..depth + 1];
    KidSound(p, path, b);
    var r := Insert(p, key, depth, len, v);
    if b in p.kids {
      InsertOutcome(p.kids[b], key, depth + 1, len, v);
      LawAbove(p, path, c, v, p.kids[b], r.0.kids[b], r.1);
    } else {
      LeafAlone(key, len, v, depth + 1);
      FreshLaw(path + [b], c, v, MakeLeaf(key, len, v), depth + 1);
      LawAbove(p, path, c, v, Null, MakeLeaf(key, len, v), true);
    }
  }

  /** Inserting below a branch changes only what is below it. */
  lemma LawAbove<V>(p: Ptr<V>, path: seq<Octet>, c: Cidr, v: V, sub: Ptr<V>, sub': Ptr<V>, added: bool)
    requires Shaped(p) && Shaped(sub) && Shaped(sub') && p.Inner? && Sound(p, path)
    requires |path| < |c.route| <= KEY_BYTES && path <= c.route
    requires sub == (if c.route[|path|] in p.kids then p.kids[c.route[|path|]] else Null)
    requires InsertLaw(sub, path + [c.route[|path|]], c, v, sub', added)
    ensures Shaped(Inner(p.kids[c.route[|path|] := sub']))
    ensures InsertLaw(p, path, c, v, Inner(p.kids[c.route[|path|] := sub']), added)
  {
    hide KeepHigh, Canonical, Sound, Route, Spot, Inserted, EndsOnLeaf;
    var b := c.route[|path|];
    TableSound(p, path, b, sub');
    InsertedAbove(p, path, c, v, sub, sub');
    EndsAbove(p, path, c, sub);
  }

  lemma InsertedAbove<V>(p: Ptr<V>, path: seq<Octet>, c: Cidr, v: V, sub: Ptr<V>, sub': Ptr<V>)
    requires Shaped(p) && Shaped(sub) && Shaped(sub') && p.Inner? && Sound(p, path)
    requires |path| < |c.route| <= KEY_BYTES && path <= c.route
    requires sub == (if c.route[|path|] in p.kids then p.kids[c.route[|path|]] else Null)
    requires Shaped(Inner(p.kids[c.route[|path|] := sub']))
    requires Inserted(sub, sub', c, v, |path| + 1)
    ensures Inserted(p, Inner(p.kids[c.route[|path|] := sub']), c, v, |path|)
  {
    hide KeepHigh, Canonical, Sound, Route, Spot, Shifted, Pad;
    var b := c.route[|path|];
    var p' := Inner(p.kids[b := sub']);
    assert Pad(c)[|path|] == b;
    SpotBelow(p', c, |path|);
    forall d | d != c ensures Spot(p', d, |path|) == Shifted(c, d, Spot(p, d, |path|)) {
      SpotBelow(p, d, |path|);
      SpotBelow(p', d, |path|);
      SpotNull<V>(d, |path| + 1);
      if Pad(d)[|path|] == b {
        ShiftedNone<V>(c, d);
      } else {
        OtherBranch(p, path, c, d);
      }
    }
  }

  lemma ShiftedNone<V>(c: Cidr, d: Cidr)
    ensures Shifted<V>(c, d, None).None?
  {
  }

  /** An entry below another branch stays where it is. */
  lemma OtherBranch<V>(p: Ptr<V>, path: seq<Octet>, c: Cidr, d: Cidr)
    requires Shaped(p) && p.Inner? && Sound(p, path)
    requires |path| < |c.route| <= KEY_BYTES && path <= c.route && Pad(d)[|path|] != c.route[|path|]
    ensures Shifted(c, d, Spot(p, d, |path|)) == Spot(p, d, |path|)
    ensures !EndsOn(p, c, d, |path|)
  {
    hide KeepHigh, Canonical, Sound, Route, Spot;
    assert !(c.route <= Pad(d));
    if Spot(p, d, |path|).Some? {
      SpotOnPath(p, path, d);
      assert c.route[..|path|] == path == Pad(d)[..|path|];
      ForkAt(c.route, Pad(d), |path|);
    }
  }

  lemma EndsAbove<V>(p: Ptr<V>, path: seq<Octet>, c: Cidr, sub: Ptr<V>)
    requires Shaped(p) && Shaped(sub) && p.Inner? && Sound(p, path)
    requires |path| < |c.route| <= KEY_BYTES && path <= c.route
    requires sub == (if c.route[|path|] in p.kids then p.kids[c.route[|path|]] else Null)
    ensures EndsOnLeaf(p, c, |path|) <==> EndsOnLeaf(sub, c, |path| + 1)
  {
    hide KeepHigh, Canonical, Sound, Route, Spot, Pad;
    forall d ensures EndsOn(p, c, d, |path|) <==> EndsOn(sub, c, d, |path| + 1) {
      SpotBelow(p, d, |path|);
      SpotNull<V>(d, |path|);
      SpotNull<V>(d, |path| + 1);
      if Pad(d)[|path|] != c.route[|path|] {
        OtherBranch(p, path, c, d);
        assert !(c.route <= Pad(d));
      }
    }
    SameEnds(p, |path|, sub, |path| + 1, c);
  }

  lemma SameEnds<V>(p: Ptr<V>, depth: nat, q: Ptr<V>, depth': nat, c: Cidr)
    requires Shaped(p) && Shaped(q) && forall d :: EndsOn(p, c, d, depth) <==> EndsOn(q, c, d, depth')
    ensures EndsOnLeaf(p, c, depth) <==> EndsOnLeaf(q, c, depth')
  {
    hide EndsOn;
  }

  /** What a leaf met at `depth` becomes one level further down. */
  function PushedLeaf<V>(p: Ptr<V>, depth: nat): (q: Ptr<V>)
    requires Shaped(p) && p.Leaf? && RouteLen(p.len) <= |p.masked|
    ensures Shaped(q)
  {
    if depth >= RouteLen(p.len) then p else Insert(Null, p.masked, depth + 1, p.len, p.value).0
  }

  /** A leaf on the way is pushed down its own key, beside or below which the new entry goes on. */
  lemma {:induction false} LeafOutcome<V>(p: Ptr<V>, key: seq<Octet>, depth: nat, len: nat, v: V)
    requires Shaped(p) && len <= 8 * KEY_BYTES && RouteLen(len) <= |key| && depth < RouteLen(len)
    requires p.Leaf? && Sound(p, Route(key, len)[..depth])
    ensures var r := Insert(p, key, depth, len, v);
      InsertLaw(p, Route(key, len)[..depth], CidrOf(key, len), v, r.0, r.1)
    decreases 1, RouteLen(len) - depth, 0
  {
    hide KeepHigh, Canonical, Sound, Route, Spot, MakeLeaf, InsertLaw, Only;
    var c, e, path := CidrOf(key, len), LeafCidr(p), Route(key, len)[..depth];
    PushedAlone(p, path);
    IndexByteIsRoute(key, depth, len);
    IndexByteIsPad(p, path, depth);
    var pushed := PushedLeaf(p, depth);
    if p.masked[depth] == c.route[depth] {
      assert path + [c.route[depth]] == c.route[..depth + 1];
      InsertOutcome(pushed, key, depth + 1, len, v);
      var sub := Insert(pushed, key, depth + 1, len, v);
      TogetherLaw(p, path, c, v, pushed, sub.0, sub.1);
    } else {
      FreshAlone(key, depth + 1, len, v);
      assert path + [c.route[depth]] == c.route[..depth + 1];
      ApartLaw(p, path, c, v, pushed, Insert(Null, key, depth + 1, len, v).0,
               if depth + 1 < RouteLen(len) then depth + 2 else depth + 1);
    }
  }

  lemma IndexByteIsPad<V>(p: Ptr<V>, path: seq<Octet>, depth: nat)
    requires Shaped(p) && p.Leaf? && Sound(p, path) && depth < KEY_BYTES
    ensures IndexByte(p.masked, depth, p.len) == p.masked[depth]
  {
    var c := LeafCidr(p);
    if depth == p.len / 8 && p.len % 8 > 0 {
      assert Route(c.route, c.len)[depth] == Mask(c.route[depth], c.len % 8);
    }
  }

  lemma LeafNetwork<V>(p: Ptr<V>, path: seq<Octet>)
    requires Shaped(p) && p.Leaf? && Sound(p, path)
    ensures path <= p.masked && p.masked == Pad(LeafCidr(p)) && Canonical(LeafCidr(p))
    ensures |LeafCidr(p).route| == RouteLen(p.len) <= KEY_BYTES
    ensures Route(p.masked, p.len) == LeafCidr(p).route && CidrOf(p.masked, p.len) == LeafCidr(p)
  {
    RoutePrefix(LeafCidr(p).route, p.masked, p.len);
  }

  function PushDepth(c: Cidr, depth: nat): (q: nat) { if depth + 1 < |c.route| then depth + 2 else depth + 1 }

  lemma PushedAlone<V>(p: Ptr<V>, path: seq<Octet>)
    requires Shaped(p) && p.Leaf? && Sound(p, path) && |path| < KEY_BYTES
    ensures var q, e := PushedLeaf(p, |path|), LeafCidr(p);
      && Sound(q, path + [p.masked[|path|]]) && q != Null && q != Inner(map[])
      && Only(q, e, p.value, |path| + 1, PushDepth(e, |path|))
  {
    hide KeepHigh, Canonical, Route, MakeLeaf, Insert, Sound, Only, Pad;
    LeafNetwork(p, path);
    NextByte(path, p.masked);
    if |path| < RouteLen(p.len) {
      RaisedLeaf(p, path);
    } else {
      LowerLeaf(p, path);
    }
  }

  lemma NextByte(path: seq<Octet>, key: seq<Octet>)
    requires |path| < |key| && path <= key
    ensures path + [key[|path|]] == key[..|path| + 1]
  {
  }

  lemma RaisedLeaf<V>(p: Ptr<V>, path: seq<Octet>)
    requires Shaped(p) && p.Leaf? && Sound(p, path) && |path| < RouteLen(p.len)
    ensures var q := Insert(Null, p.masked, |path| + 1, p.len, p.value).0;
      && Sound(q, p.masked[..|path| + 1]) && q != Inner(map[])
      && Only(q, LeafCidr(p), p.value, |path| + 1, PushDepth(LeafCidr(p), |path|))
  {
    hide KeepHigh, Canonical, Route, MakeLeaf, Insert, Sound, Only, Pad;
    LeafNetwork(p, path);
    FreshAlone(p.masked, |path| + 1, p.len, p.value);
    TakeTake(p.masked, |path| + 1, RouteLen(p.len));
  }

  lemma TakeTake(key: seq<Octet>, i: nat, j: nat)
    requires i <= j <= |key|
    ensures key[..j][..i] == key[..i]
  {
  }

  lemma LowerLeaf<V>(p: Ptr<V>, path: seq<Octet>)
    requires Shaped(p) && p.Leaf? && Sound(p, path) && |path| < KEY_BYTES
    ensures Sound(p, p.masked[..|path| + 1]) && Only(p, LeafCidr(p), p.value, |path| + 1, |path| + 1)
  {
    hide KeepHigh, Canonical, Route, Pad;
  }

  /** Leaf and new entry share the next byte. */
  lemma TogetherLaw<V>(p: Ptr<V>, path: seq<Octet>, c: Cidr, v: V, pushed: Ptr<V>, sub: Ptr<V>, added: bool)
    requires Shaped(p) && p.Leaf? && Sound(p, path) && Shaped(pushed) && Shaped(sub)
    requires |path| < |c.route| <= KEY_BYTES && path <= c.route && p.masked[|path|] == c.route[|path|]
    requires Only(pushed, LeafCidr(p), p.value, |path| + 1, PushDepth(LeafCidr(p), |path|))
    requires InsertLaw(pushed, path + [c.route[|path|]], c, v, sub, added)
    ensures Shaped(Inner(map[c.route[|path|] := sub]))
    ensures InsertLaw(p, path, c, v, Inner(map[c.route[|path|] := sub]), added)
  {
    hide KeepHigh, Canonical, Route, Sound, EndsOnLeaf, Inserted;
    var b, e := c.route[|path|], LeafCidr(p);
    var p' := Inner(map[b := sub]);
    LeafNetwork(p, path);
    SoundBranch(path, b, sub);
    assert Inserted(p, p', c, v, |path|) by { TogetherInserted(p, path, c, v, pushed, sub); }
    assert EndsOnLeaf(p, c, |path|) <==> EndsOnLeaf(pushed, c, |path| + 1) by { TogetherEnds(p, path, c, pushed); }
  }

  lemma SoundBranch<V>(path: seq<Octet>, b: Octet, sub: Ptr<V>)
    requires Shaped(sub) && Sound(sub, path + [b]) && sub != Null && sub != Inner(map[]) && |path| < KEY_BYTES
    ensures Shaped(Inner(map[b := sub])) && Sound(Inner(map[b := sub]), path)
  {
  }

  lemma TogetherInserted<V>(p: Ptr<V>, path: seq<Octet>, c: Cidr, v: V, pushed: Ptr<V>, sub: Ptr<V>)
    requires Shaped(p) && p.Leaf? && p.masked == Pad(LeafCidr(p)) && path <= p.masked && Shaped(pushed) && Shaped(sub)
    requires |path| < |c.route| <= KEY_BYTES && path <= c.route && p.masked[|path|] == c.route[|path|]
    requires Only(pushed, LeafCidr(p), p.value, |path| + 1, PushDepth(LeafCidr(p), |path|))
    requires Inserted(pushed, sub, c, v, |path| + 1)
    ensures Shaped(Inner(map[c.route[|path|] := sub]))
    ensures Inserted(p, Inner(map[c.route[|path|] := sub]), c, v, |path|)
  {
    hide KeepHigh, Canonical, Route, Shifted, Pad;
    var b, e, depth := c.route[|path|], LeafCidr(p), |path|;
    var p' := Inner(map[b := sub]);
    assert Pad(c)[depth] == b;
    forall d | d != c ensures Spot(p', d, depth) == Shifted(c, d, Spot(p, d, depth)) {
      ShiftedNone<V>(c, d);
      if d == e { PushTwice(path, c, e, p.value); }
    }
  }

  /** Pushing once and then as far as the fork is pushing as far as the fork. */
  lemma PushTwice<V>(path: seq<Octet>, c: Cidr, e: Cidr, x: V)
    requires |path| < |c.route| <= KEY_BYTES && path <= c.route && path <= Pad(e) && Pad(e)[|path|] == c.route[|path|]
    ensures Shifted(c, e, Some(Place(x, PushDepth(e, |path|)))) == Shifted(c, e, Some(Place(x, |path|)))
  {
    hide Pad, PushedTo, PushDepth;
    assert c.route[..|path| + 1] == path + [c.route[|path|]] == Pad(e)[..|path| + 1];
    ForkAt(c.route, Pad(e), |path| + 1);
    PushArithmetic(|path|, e, Fork(c.route, Pad(e)));
  }

  lemma PushArithmetic(q: nat, e: Cidr, k: nat)
    requires q < k
    ensures PushedTo(PushDepth(e, q), |e.route|, k) == PushedTo(q, |e.route|, k)
    ensures var q' := PushDepth(e, q);
      (q' <= k && (|e.route| <= k || (k - q') % 2 == 0)) <==> (|e.route| <= k || (k - q) % 2 == 0)
  {
  }

  lemma TogetherEnds<V>(p: Ptr<V>, path: seq<Octet>, c: Cidr, pushed: Ptr<V>)
    requires Shaped(p) && p.Leaf? && p.masked == Pad(LeafCidr(p)) && path <= p.masked && Shaped(pushed)
    requires |path| < |c.route| <= KEY_BYTES && path <= c.route && p.masked[|path|] == c.route[|path|]
    requires Only(pushed, LeafCidr(p), p.value, |path| + 1, PushDepth(LeafCidr(p), |path|))
    ensures EndsOnLeaf(p, c, |path|) <==> EndsOnLeaf(pushed, c, |path| + 1)
  {
    hide KeepHigh, Canonical, Route, Pad, PushDepth;
    var e := LeafCidr(p);
    PushArithmetic(|path|, e, |c.route|);
    forall d ensures EndsOn(p, c, d, |path|) <==> EndsOn(pushed, c, d, |path| + 1) {
      if d != e { assert Spot(p, d, |path|).None? && Spot(pushed, d, |path| + 1).None?; }
    }
    SameEnds(p, |path|, pushed, |path| + 1, c);
  }

  /** Leaf and new entry part here. */
  lemma ApartLaw<V>(p: Ptr<V>, path: seq<Octet>, c: Cidr, v: V, pushed: Ptr<V>, y: Ptr<V>, at: nat)
    requires Shaped(p) && p.Leaf? && Sound(p, path) && Shaped(pushed) && Shaped(y)
    requires |path| < |c.route| <= KEY_BYTES && path <= c.route && p.masked[|path|] != c.route[|path|]
    requires Sound(pushed, path + [p.masked[|path|]]) && pushed != Null && pushed != Inner(map[])
    requires Only(pushed, LeafCidr(p), p.value, |path| + 1, PushDepth(LeafCidr(p), |path|))
    requires Sound(y, path + [c.route[|path|]]) && y != Null && y != Inner(map[])
    requires Only(y, c, v, |path| + 1, at) && |path| < at <= |c.route|
    ensures var r := Inner(map[p.masked[|path|] := pushed][c.route[|path|] := y]);
      Shaped(r) && InsertLaw(p, path, c, v, r, true)
  {
    hide KeepHigh, Canonical, Route, Sound, EndsOnLeaf, Inserted, Only;
    LeafNetwork(p, path);
    SoundBranch(path, p.masked[|path|], pushed);
    TableSound(Inner(map[p.masked[|path|] := pushed]), path, c.route[|path|], y);
    ApartInserted(p, path, c, v, pushed, y, at);
    ApartEnds(p, path, c);
  }

  lemma ApartInserted<V>(p: Ptr<V>, path: seq<Octet>, c: Cidr, v: V, pushed: Ptr<V>, y: Ptr<V>, at: nat)
    requires Shaped(p) && p.Leaf? && p.masked == Pad(LeafCidr(p)) && path <= p.masked && Shaped(pushed) && Shaped(y)
    requires |path| < |c.route| <= KEY_BYTES && path <= c.route && p.masked[|path|] != c.route[|path|]
    requires Only(pushed, LeafCidr(p), p.value, |path| + 1, PushDepth(LeafCidr(p), |path|))
    requires Only(y, c, v, |path| + 1, at) && |path| < at <= |c.route|
    ensures var r := Inner(map[p.masked[|path|] := pushed][c.route[|path|] := y]);
      Shaped(r) && Inserted(p, r, c, v, |path|)
  {
    hide KeepHigh, Canonical, Route, Shifted, Pad;
    var e, depth := LeafCidr(p), |path|;
    var r := Inner(map[p.masked[depth] := pushed][c.route[depth] := y]);
    assert Pad(c)[depth] == c.route[depth];
    SpotBelow(r, c, depth);
    forall d | d != c ensures Spot(r, d, depth) == Shifted(c, d, Spot(p, d, depth)) {
      ShiftedNone<V>(c, d);
      SpotBelow(r, d, depth);
      if d == e { PushHere(path, c, e, p.value); }
    }
  }

  lemma PushHere<V>(path: seq<Octet>, c: Cidr, e: Cidr, x: V)
    requires |path| < |c.route| <= KEY_BYTES && path <= c.route && path <= Pad(e) && Pad(e)[|path|] != c.route[|path|]
    ensures Shifted(c, e, Some(Place(x, |path|))) == Some(Place(x, PushDepth(e, |path|))) && !(c.route <= Pad(e))
  {
    assert c.route[..|path|] == path == Pad(e)[..|path|];
    ForkAt(c.route, Pad(e), |path|);
  }

  lemma ApartEnds<V>(p: Ptr<V>, path: seq<Octet>, c: Cidr)
    requires Shaped(p) && p.Leaf? && p.masked == Pad(LeafCidr(p)) && path <= p.masked
    requires |path| < |c.route| <= KEY_BYTES && path <= c.route && p.masked[|path|] != c.route[|path|]
    ensures !EndsOnLeaf(p, c, |path|)
  {
    hide Pad;
    PushHere(path, c, LeafCidr(p), p.value);
  }

  // ---- Delete ----

  /** The entry can be deleted: its leaf is on its routing key, not pushed below it. */
  ghost predicate Deletable<V>(p: Ptr<V>, c: Cidr, depth: nat)
    requires Shaped(p)
  {
    var s := Spot(p, c, depth); s.Some? && s.value.at <= |c.route|
  }

  /** The depth of the topmost node on the path of `c` that has all 256 children and keeps its child
      there when `c` is deleted: its counter reads zero, and it is dropped. */
  ghost function DropDepth<V>(p: Ptr<V>, c: Cidr, depth: nat): (t: Option<nat>)
    requires Shaped(p)
    ensures t.Some? ==> depth <= t.value < |c.route|
    decreases p
  {
    if p.Inner? && depth < |c.route| && c.route[depth] in p.kids then
      var kid := p.kids[c.route[depth]];
      var below := DropDepth(kid, c, depth + 1);
      if |p.kids| == 256 && SomeRemains(kid, c, depth + 1, below) then Some(depth) else below
    else None
  }

  /** What goes when `c` is deleted: itself, and everything routed through a dropped node. */
  ghost predicate Goes(c: Cidr, t: Option<nat>, d: Cidr) {
    d == c || (t.Some? && t.value <= |c.route| && c.route[..t.value] <= Pad(d))
  }

  ghost predicate Remains<V>(p: Ptr<V>, c: Cidr, d: Cidr, depth: nat, t: Option<nat>)
    requires Shaped(p)
  {
    Spot(p, d, depth).Some? && !Goes(c, t, d)
  }

  ghost predicate SomeRemains<V>(p: Ptr<V>, c: Cidr, depth: nat, t: Option<nat>)
    requires Shaped(p)
  {
    exists d :: Remains(p, c, d, depth, t)
  }

  /** What is left after a delete, all of it where it was. */
  ghost predicate Deleted<V>(p: Ptr<V>, p': Ptr<V>, c: Cidr, t: Option<nat>, depth: nat)
    requires Shaped(p) && Shaped(p')
  {
    forall d :: Spot(p', d, depth) == if Goes(c, t, d) then None else Spot(p, d, depth)
  }

  ghost predicate DeleteLaw<V>(p: Ptr<V>, path: seq<Octet>, c: Cidr, p': Ptr<V>)
    requires Shaped(p) && Shaped(p')
  {
    Sound(p', path) && p' != Inner(map[]) && Deleted(p, p', c, DropDepth(p, c, |path|), |path|)
  }

  /** The leaf test: membership of the address in the network, or for an address shorter than the
      routing key, its bytes being those of the key. */
  predicate Takes(c: Cidr, addr: seq<Octet>) {
    if RouteLen(c.len) <= |addr| then Covers(c, addr) else addr <= c.route
  }

  lemma MatchesIsTakes<V>(p: Ptr<V>, addr: seq<Octet>)
    requires Shaped(p) && p.Leaf? && Canonical(LeafCidr(p))
    ensures Matches(p, addr) <==> Takes(LeafCidr(p), addr)
  {
    hide KeepHigh;
    var c := LeafCidr(p);
    assert forall i :: 0 <= i < |c.route| ==> Route(c.route, c.len)[i] == c.route[i] == p.masked[i];
    if RouteLen(c.len) <= |addr| {
      if Covers(c, addr) {
        assert forall i :: 0 <= i < |c.route| ==> Route(addr, c.len)[i] == c.route[i];
      }
      if Matches(p, addr) {
        assert forall i :: 0 <= i < |c.route| ==> Route(addr, c.len)[i] == c.route[i];
      }
    } else {
      assert |addr| <= p.len / 8;
    }
  }

  /** Every delete, full nodes or not, in every tree a run can build. */
  lemma {:induction false} DeleteOutcome<V>(p: Ptr<V>, key: seq<Octet>, depth: nat, len: nat)
    requires Shaped(p) && len <= 8 * KEY_BYTES && RouteLen(len) <= |key| && depth <= RouteLen(len)
    requires Sound(p, Route(key, len)[..depth])
    ensures var r, c := Delete(p, key, depth, len), CidrOf(key, len);
      && r.1 == Deletable(p, c, depth)
      && (if r.1 then DeleteLaw(p, Route(key, len)[..depth], c, r.0) else r.0 == p)
    decreases p
  {
    hide KeepHigh, Route, Canonical, Sound, DeleteLaw, Spot, DropDepth;
    var c, path := CidrOf(key, len), Route(key, len)[..depth];
    if p.Null? {
      SpotNull<V>(c, depth);
    } else if p.Leaf? {
      DeleteLeaf(p, key, depth, len);
    } else {
      SpotBelow(p, c, depth);
      if depth == RouteLen(len) {
        if Spot(p, c, depth).Some? { SpotOnPath(p, path, c); }
      } else {
        IndexByteIsRoute(key, depth, len);
        var b := c.route[depth];
        assert path + [b] == c.route[..depth + 1] && Pad(c)[depth] == b;
        KidSound(p, path, b);
        if b in p.kids {
          DeleteOutcome(p.kids[b], key, depth + 1, len);
          var sub := Delete(p.kids[b], key, depth + 1, len);
          if sub.1 { DeleteAbove(p, path, c, sub.0); }
        }
      }
    }
  }

  lemma DeleteLeaf<V>(p: Ptr<V>, key: seq<Octet>, depth: nat, len: nat)
    requires Shaped(p) && p.Leaf? && len <= 8 * KEY_BYTES && RouteLen(len) <= |key| && depth <= RouteLen(len)
    requires Sound(p, Route(key, len)[..depth])
    ensures var deleted, c := p.len == len && Matches(p, key), CidrOf(key, len);
      deleted == Deletable(p, c, depth) && (deleted ==> DeleteLaw(p, Route(key, len)[..depth], c, Null))
  {
    hide KeepHigh, Route;
    MatchesIsTakes(p, key);
  }

  function AfterDelete<V>(kids: map<Octet, Ptr<V>>, b: Octet, sub: Ptr<V>): (r: Ptr<V>) {
    var kids' := if sub.Null? then kids - {b} else kids[b := sub];
    if CounterIsZero(kids') then Null else Inner(kids')
  }

  /** When the counter test drops a table: it was left empty, or it was full and kept its child. */
  lemma DroppedWhen<V>(kids: map<Octet, Ptr<V>>, b: Octet, sub: Ptr<V>)
    requires b in kids
    ensures var r := AfterDelete(kids, b, sub);
      && (r.Null? <==> if sub.Null? then kids.Keys == {b} else |kids| == 256)
      && (!r.Null? ==> r.Inner? && r.kids == (if sub.Null? then kids - {b} else kids[b := sub]) && r.kids != map[])
  {
    AtMost256(kids);
    if sub.Null? {
      var left := kids - {b};
      assert |left| == |kids| - 1;
      assert left.Keys == kids.Keys - {b};
      assert |left| == 0 <==> left.Keys == {};
    } else {
      assert kids[b := sub].Keys == kids.Keys;
      assert |kids[b := sub].Keys| == |kids.Keys|;
    }
  }

  lemma AfterDeleteSound<V>(p: Ptr<V>, path: seq<Octet>, b: Octet, sub: Ptr<V>)
    requires Shaped(p) && Shaped(sub) && p.Inner? && Sound(p, path) && b in p.kids
    requires Sound(sub, path + [b]) && sub != Inner(map[])
    ensures var r := AfterDelete(p.kids, b, sub);
      Shaped(r) && Sound(r, path) && r != Inner(map[])
  {
    hide AfterDelete, Sound;
    DroppedWhen(p.kids, b, sub);
    if sub != Null { TableSound(p, path, b, sub); } else { TableWithout(p, path, b); }
    NullSound<V>(path);
  }

  lemma DeleteAbove<V>(p: Ptr<V>, path: seq<Octet>, c: Cidr, sub: Ptr<V>)
    requires Shaped(p) && Shaped(sub) && p.Inner? && Sound(p, path)
    requires |path| < |c.route| <= KEY_BYTES && path <= c.route && c.route[|path|] in p.kids
    requires DeleteLaw(p.kids[c.route[|path|]], path + [c.route[|path|]], c, sub)
    ensures var r := AfterDelete(p.kids, c.route[|path|], sub); Shaped(r) && DeleteLaw(p, path, c, r)
  {
    hide Sound, Spot, AfterDelete, Goes, KeepHigh, Route, Canonical;
    var b := c.route[|path|];
    var kid, r, below := p.kids[b], AfterDelete(p.kids, b, sub), DropDepth(p.kids[b], c, |path| + 1);
    AfterDeleteSound(p, path, b, sub);
    DroppedWhen(p.kids, b, sub);
    RemainsIff(kid, path + [b], c, sub, below);
    if |p.kids| == 256 && !sub.Null? {
      AllGo(p, path, c, r);
    } else {
      assert BranchReplaced(p, b, sub, r);
      OneBranchGoes(p, path, c, sub, r, below);
    }
  }

  lemma RemainsIff<V>(kid: Ptr<V>, path: seq<Octet>, c: Cidr, sub: Ptr<V>, t: Option<nat>)
    requires Shaped(kid) && Shaped(sub) && Sound(sub, path) && sub != Inner(map[]) && Deleted(kid, sub, c, t, |path|)
    ensures !sub.Null? <==> SomeRemains(kid, c, |path|, t)
  {
    hide Sound, Spot, Goes, KeepHigh, Route, Canonical;
    if sub.Null? {
      forall d ensures !Remains(kid, c, d, |path|, t) { SpotNull<V>(d, |path|); }
    } else {
      var d := StoresSomething(sub, path);
      assert Remains(kid, c, d, |path|, t);
    }
  }

  lemma AllGo<V>(p: Ptr<V>, path: seq<Octet>, c: Cidr, r: Ptr<V>)
    requires Shaped(p) && Sound(p, path) && r == Null && |path| <= |c.route| && path <= c.route
    ensures Deleted(p, r, c, Some(|path|), |path|)
  {
    hide Sound, Spot, KeepHigh, Route, Canonical;
    forall d ensures Spot(r, d, |path|) == if Goes(c, Some(|path|), d) then None else Spot(p, d, |path|) {
      SpotNull<V>(d, |path|);
      if Spot(p, d, |path|).Some? {
        SpotOnPath(p, path, d);
        assert c.route[..|path|] == path;
      }
    }
  }

  /** The table after the delete: without the branch, or with the branch replaced. */
  ghost predicate BranchReplaced<V>(p: Ptr<V>, b: Octet, sub: Ptr<V>, r: Ptr<V>) {
    && p.Inner? && b in p.kids
    && if r.Null? then sub.Null? && p.kids.Keys == {b}
       else r.Inner? && r.kids == if sub.Null? then p.kids - {b} else p.kids[b := sub]
  }

  lemma OneBranchGoes<V>(p: Ptr<V>, path: seq<Octet>, c: Cidr, sub: Ptr<V>, r: Ptr<V>, t: Option<nat>)
    requires Shaped(p) && Shaped(sub) && Shaped(r) && p.Inner?
    requires |path| < |c.route| <= KEY_BYTES && c.route[|path|] in p.kids
    requires Deleted(p.kids[c.route[|path|]], sub, c, t, |path| + 1)
    requires t.Some? ==> |path| < t.value < |c.route|
    requires BranchReplaced(p, c.route[|path|], sub, r)
    ensures Deleted(p, r, c, t, |path|)
  {
    hide Sound, Spot, KeepHigh, Route, Canonical, Goes, Pad, BranchReplaced;
    var b := c.route[|path|];
    forall d ensures Spot(r, d, |path|) == if Goes(c, t, d) then None else Spot(p, d, |path|) {
      SpotReplaced(p, b, sub, r, d, |path|);
      SpotBelow(p, d, |path|);
      if Pad(d)[|path|] != b { StaysAside(c, t, d, |path|); }
    }
  }

  lemma SpotReplaced<V>(p: Ptr<V>, b: Octet, sub: Ptr<V>, r: Ptr<V>, d: Cidr, depth: nat)
    requires Shaped(p) && Shaped(sub) && Shaped(r) && BranchReplaced(p, b, sub, r) && depth < KEY_BYTES
    ensures Spot(r, d, depth) == if Pad(d)[depth] == b then Spot(sub, d, depth + 1) else Spot(p, d, depth)
  {
    hide Spot, Pad;
    SpotBelow(p, d, depth);
    SpotNull<V>(d, depth);
    SpotNull<V>(d, depth + 1);
    if r.Inner? { SpotBelow(r, d, depth); }
  }

  /** What has another byte is not routed through a node further down. */
  lemma StaysAside(c: Cidr, t: Option<nat>, d: Cidr, depth: nat)
    requires depth < |c.route| <= KEY_BYTES && Pad(d)[depth] != c.route[depth] && (t.Some? ==> depth < t.value)
    ensures !Goes(c, t, d)
  {
    assert Pad(c)[depth] == c.route[depth];
  }

  /** Some node on the path of `c` has all 256 children, and its child on that path holds more than `c`. */
  ghost predicate FullOnPath<V>(p: Ptr<V>, c: Cidr, depth: nat)
    requires Shaped(p)
    decreases p
  {
    && p.Inner? && depth < |c.route| && c.route[depth] in p.kids
    && var kid := p.kids[c.route[depth]];
       (|p.kids| == 256 && HoldsOther(kid, c, depth + 1)) || FullOnPath(kid, c, depth + 1)
  }

  ghost predicate HoldsOther<V>(p: Ptr<V>, c: Cidr, depth: nat)
    requires Shaped(p)
  {
    exists d :: d != c && Spot(p, d, depth).Some?
  }

  lemma {:induction false} DropsIffFull<V>(p: Ptr<V>, c: Cidr, depth: nat)
    requires Shaped(p)
    ensures DropDepth(p, c, depth).Some? <==> FullOnPath(p, c, depth)
    decreases p
  {
    hide Spot;
    if p.Inner? && depth < |c.route| && c.route[depth] in p.kids {
      var kid := p.kids[c.route[depth]];
      DropsIffFull(kid, c, depth + 1);
      var below := DropDepth(kid, c, depth + 1);
      if below.None? && HoldsOther(kid, c, depth + 1) {
        var d :| d != c && Spot(kid, d, depth + 1).Some?;
        assert Remains(kid, c, d, depth + 1, below);
      }
      if SomeRemains(kid, c, depth + 1, below) {
        var d :| Remains(kid, c, d, depth + 1, below);
        assert d != c && Spot(kid, d, depth + 1).Some?;
      }
    }
  }

  /** A dropped node takes another entry with it. */
  lemma {:induction false} DropTakes<V>(p: Ptr<V>, path: seq<Octet>, c: Cidr) returns (d: Cidr)
    requires Shaped(p) && Sound(p, path) && path <= c.route && DropDepth(p, c, |path|).Some? && |c.route| <= KEY_BYTES
    ensures d != c && Spot(p, d, |path|).Some? && Goes(c, DropDepth(p, c, |path|), d)
    decreases p
  {
    hide Spot, Sound, KeepHigh, Route, Canonical;
    var b := c.route[|path|];
    var kid := p.kids[b];
    var below := DropDepth(kid, c, |path| + 1);
    KidSound(p, path, b);
    assert path + [b] == c.route[..|path| + 1];
    if |p.kids| == 256 && SomeRemains(kid, c, |path| + 1, below) {
      d :| Remains(kid, c, d, |path| + 1, below);
      SpotAbove(p, path, b, d);
      SpotOnPath(p, path, d);
      assert c.route[..|path|] == path;
    } else {
      d := DropTakes(kid, path + [b], c);
      SpotAbove(p, path, b, d);
    }
  }

  /** DeletePrefix of a deletable entry removes exactly it unless a full node on its path is dropped. */
  lemma DeleteExactIff<V>(p: Ptr<V>, key: seq<Octet>, len: nat)
    requires Shaped(p) && len <= 8 * KEY_BYTES && RouteLen(len) <= |key| && Sound(p, [])
    ensures var r, c := Delete(p, key, 0, len), CidrOf(key, len);
      && (r.1 <==> Deletable(p, c, 0))
      && (r.1 ==> (Deleted(p, r.0, c, None, 0) <==> !FullOnPath(p, c, 0)))
  {
    hide KeepHigh, Route, Canonical, Sound, Spot, DropDepth, Delete;
    var c := CidrOf(key, len);
    assert Route(key, len)[..0] == [];
    DeleteOutcome(p, key, 0, len);
    DropsIffFull(p, c, 0);
    if Deletable(p, c, 0) && FullOnPath(p, c, 0) {
      var d := DropTakes(p, [], c);
      assert !Goes(c, None, d);
    }
  }

  // ---- Match ----

  /** The network of the leaf a search ends on, if the leaf accepts the address. */
  ghost function Hit<V>(p: Ptr<V>, addr: seq<Octet>, depth: nat): (h: Option<Cidr>)
    requires Shaped(p)
    decreases p
  {
    match p
    case Null => None
    case Leaf(_, _, _) => if Matches(p, addr) then Some(LeafCidr(p)) else None
    case Inner(kids) =>
      if depth < |addr| && addr[depth] in kids then Hit(kids[addr[depth]], addr, depth + 1) else None
  }

  /** The address leads to the leaf at depth `at` on the path of the network's key. */
  predicate Leads(c: Cidr, at: nat, addr: seq<Octet>) {
    at <= |addr| && addr[..at] <= Pad(c)
  }

  /** Exactly which entry answers an address, in every tree a run can build: the one whose leaf the
      address leads to, if its network takes the address. */
  lemma {:induction false} HitIff<V>(p: Ptr<V>, addr: seq<Octet>, depth: nat, c: Cidr)
    requires Shaped(p) && depth <= |addr| && Sound(p, addr[..depth])
    ensures Hit(p, addr, depth) == Some(c) <==>
      var s := Spot(p, c, depth); s.Some? && Takes(c, addr) && Leads(c, s.value.at, addr)
    decreases p
  {
    hide KeepHigh, Route, Canonical, Takes, Matches, Pad, Sound, Spot;
    if p.Null? {
      SpotNull<V>(c, depth);
    } else if p.Leaf? {
      LeafNetwork(p, addr[..depth]);
      SpotLeaf(p, c, depth);
      MatchesIsTakes(p, addr);
    } else {
      SpotBelow(p, c, depth);
      if depth < |addr| && addr[depth] in p.kids {
        KidSound(p, addr[..depth], addr[depth]);
        assert addr[..depth] + [addr[depth]] == addr[..depth + 1];
        HitIff(p.kids[addr[depth]], addr, depth + 1, c);
      }
      OnTheWay(p, addr, depth, c);
    }
  }

  /** An address that leads to a leaf takes the leaf's branch, and what is below a branch has its byte. */
  lemma OnTheWay<V>(p: Ptr<V>, addr: seq<Octet>, depth: nat, c: Cidr)
    requires Shaped(p) && p.Inner? && depth <= |addr| && Sound(p, addr[..depth])
    ensures Spot(p, c, depth).Some? && Leads(c, Spot(p, c, depth).value.at, addr) ==>
      depth < |addr| && depth < KEY_BYTES && addr[depth] == Pad(c)[depth] && addr[depth] in p.kids
    ensures depth < |addr| && addr[depth] in p.kids && Spot(p.kids[addr[depth]], c, depth + 1).Some? ==>
      depth < KEY_BYTES && Pad(c)[depth] == addr[depth]
  {
    hide KeepHigh, Route, Canonical, Pad, Sound, Spot;
    SpotBelow(p, c, depth);
    if Spot(p, c, depth).Some? {
      SpotOnPath(p, addr[..depth], c);
      var at := Spot(p, c, depth).value.at;
      if Leads(c, at, addr) { assert addr[..at][depth] == Pad(c)[depth]; }
    }
    if depth < |addr| && addr[depth] in p.kids && Spot(p.kids[addr[depth]], c, depth + 1).Some? {
      SpotAbove(p, addr[..depth], addr[depth], c);
    }
  }

  /** The search returns the value of that entry. */
  lemma {:induction false} SearchIsHit<V>(p: Ptr<V>, addr: seq<Octet>, depth: nat)
    requires Shaped(p) && depth <= |addr| && Sound(p, addr[..depth])
    ensures var h := Hit(p, addr, depth);
      && (h.None? ==> Search(p, addr, depth).None?)
      && (h.Some? ==> Spot(p, h.value, depth).Some?)
      && (h.Some? ==> Search(p, addr, depth) == Some(Spot(p, h.value, depth).value.value))
    decreases p
  {
    hide KeepHigh, Route, Canonical, Matches, Sound, Pad;
    if p.Inner? && depth < |addr| && addr[depth] in p.kids {
      var b := addr[depth];
      assert addr[..depth] + [b] == addr[..depth + 1];
      KidSound(p, addr[..depth], b);
      SearchIsHit(p.kids[b], addr, depth + 1);
      var h := Hit(p.kids[b], addr, depth + 1);
      if h.Some? { SpotAbove(p, addr[..depth], b, h.value); }
    }
  }

  // ---- Longest match ----

  /** All stored networks are short enough for addresses of `bytes` bytes. */
  ghost predicate FitsAddresses<V>(p: Ptr<V>, bytes: nat)
    requires Shaped(p)
  {
    forall c :: Spot(p, c, 0).Some? ==> c.len <= 8 * bytes
  }

  /** The address is in the stored network `c`, and leads past its leaf. */
  ghost predicate Beside<V>(p: Ptr<V>, c: Cidr, addr: seq<Octet>)
    requires Shaped(p)
  {
    var s := Spot(p, c, 0); s.Some? && Covers(c, addr) && !Leads(c, s.value.at, addr)
  }

  /** No stored network that covers the address is longer than `c`. */
  ghost predicate LongestCover<V>(p: Ptr<V>, addr: seq<Octet>, c: Cidr)
    requires Shaped(p)
  {
    && Spot(p, c, 0).Some? && Covers(c, addr)
    && forall d :: Spot(p, d, 0).Some? && Covers(d, addr) ==> d.len <= c.len
  }

  /** The search is longest-prefix match: it ends on the longest stored network that covers the address. */
  ghost predicate FindsLongest<V>(p: Ptr<V>, bytes: nat)
    requires Shaped(p)
  {
    forall addr, c :: |addr| == bytes && LongestCover(p, addr, c) ==> Hit(p, addr, 0) == Some(c)
  }

  /** Addresses that lead past the leaf of a network they are in are in a longer one. */
  ghost predicate LongerBeside<V>(p: Ptr<V>, bytes: nat)
    requires Shaped(p)
  {
    forall c, addr :: |addr| == bytes && Beside(p, c, addr) ==>
      exists d :: Spot(p, d, 0).Some? && Covers(d, addr) && d.len > c.len
  }

  /** An address in a stored network is answered by it unless it leads past its leaf. */
  lemma ReachedIff<V>(p: Ptr<V>, c: Cidr, addr: seq<Octet>)
    requires Shaped(p) && Sound(p, []) && Spot(p, c, 0).Some? && Covers(c, addr)
    ensures Hit(p, addr, 0) == Some(c) <==> !Beside(p, c, addr)
  {
    hide KeepHigh, Route, Canonical, Sound, Spot, Hit, Leads;
    assert addr[..0] == [];
    HitIff(p, addr, 0, c);
  }

  /** Match is longest-prefix match if and only if every address that leads past the leaf of a
      network it is in lies in a longer stored network too. */
  lemma FindsLongestIff<V>(p: Ptr<V>, bytes: nat)
    requires Shaped(p) && Sound(p, [])
    ensures FindsLongest(p, bytes) <==> LongerBeside(p, bytes)
  {
    hide KeepHigh, Route, Canonical, Sound, Spot, Hit, Covers, Leads;
    if LongerBeside(p, bytes) {
      forall addr, c | |addr| == bytes && LongestCover(p, addr, c) ensures Hit(p, addr, 0) == Some(c) {
        ReachedIff(p, c, addr);
      }
    }
    if FindsLongest(p, bytes) {
      forall c, addr | |addr| == bytes && Beside(p, c, addr)
        ensures exists d :: Spot(p, d, 0).Some? && Covers(d, addr) && d.len > c.len
      {
        ReachedIff(p, c, addr);
        assert !LongestCover(p, addr, c);
      }
    }
  }

  ghost predicate Disjoint<V>(p: Ptr<V>)
    requires Shaped(p)
  {
    forall c, d :: Spot(p, c, 0).Some? && Spot(p, d, 0).Some? && c != d ==> !Contains(c, d)
  }

  /** Every stored network answers for every address in it. */
  ghost predicate MatchExact<V>(p: Ptr<V>, bytes: nat)
    requires Shaped(p)
  {
    forall c, addr :: |addr| == bytes && Spot(p, c, 0).Some? && Covers(c, addr) ==>
      Search(p, addr, 0) == Some(Spot(p, c, 0).value.value)
  }

  /** No leaf has been pushed below its own boundary byte. */
  ghost predicate WellPlaced<V>(p: Ptr<V>)
    requires Shaped(p)
  {
    forall c :: Spot(p, c, 0).Some? ==> Spot(p, c, 0).value.at <= c.len / 8
  }

  lemma FullBytesLead(c: Cidr, at: nat, addr: seq<Octet>)
    requires Canonical(c) && Covers(c, addr) && at <= c.len / 8
    ensures Leads(c, at, addr)
  {
    hide KeepHigh;
    forall i | 0 <= i < at ensures addr[i] == Pad(c)[i] {
      assert Route(addr, c.len)[i] == Mask(addr[i], 8) == addr[i];
    }
  }

  lemma BothCover(c: Cidr, d: Cidr, addr: seq<Octet>)
    requires Covers(c, addr) && Covers(d, addr) && c.len <= d.len
    ensures Contains(c, d)
  {
    RouteTwice(addr, c.len, d.len);
  }

  /** An address of the network that leads past a leaf below its last full byte. */
  lemma OtherAddress(c: Cidr, at: nat, bytes: nat) returns (addr: seq<Octet>)
    requires Canonical(c) && c.len <= 8 * bytes && c.len / 8 < at <= KEY_BYTES
    ensures |addr| == bytes && Covers(c, addr) && !Leads(c, at, addr)
  {
    var k := c.len / 8;
    if k == bytes {
      addr := c.route;
    } else {
      var x := Pad(c)[k];
      EvenByte(c);
      addr := c.route[..k] + [x + 1] + seq(bytes - k - 1, _ => 0);
      forall i | 0 <= i < |c.route| ensures Route(addr, c.len)[i] == c.route[i] {
        assert Route(c.route, c.len)[i] == c.route[i];
      }
      assert Route(addr, c.len) == c.route;
      if at <= |addr| { assert addr[..at][k] == x + 1; }
    }
  }

  /** The byte after the last full one has its last bit free. */
  lemma EvenByte(c: Cidr)
    requires Canonical(c) && c.len / 8 < KEY_BYTES
    ensures var x := Pad(c)[c.len / 8];
      && x < 255
      && (c.len % 8 > 0 ==> |c.route| > c.len / 8 && Mask(x + 1, c.len % 8) == Mask(x, c.len % 8) == x)
      && (c.len % 8 == 0 ==> |c.route| == c.len / 8)
  {
    var k := c.len / 8;
    if c.len % 8 > 0 {
      var x := c.route[k];
      assert Route(c.route, c.len)[k] == Mask(x, c.len % 8) == x;
      assert x % 2 == 0;
      assert (x + 1) / 2 == x / 2;
    }
  }

  /** Among networks none of which is inside another, Match answers every covered address
      exactly when no leaf sits below its boundary byte. */
  lemma MatchExactIff<V>(p: Ptr<V>, bytes: nat)
    requires Shaped(p) && Sound(p, []) && FitsAddresses(p, bytes) && Disjoint(p)
    ensures MatchExact(p, bytes) <==> WellPlaced(p)
  {
    hide KeepHigh, Route, Canonical, Sound, Spot, Hit, Covers, Search, Leads, Contains;
    if WellPlaced(p) {
      forall c, addr | |addr| == bytes && Spot(p, c, 0).Some? && Covers(c, addr)
        ensures Search(p, addr, 0) == Some(Spot(p, c, 0).value.value)
      {
        assert addr[..0] == [];
        SpotOnPath(p, [], c);
        FullBytesLead(c, Spot(p, c, 0).value.at, addr);
        ReachedIff(p, c, addr);
        SearchIsHit(p, addr, 0);
      }
    } else {
      var c :| Spot(p, c, 0).Some? && Spot(p, c, 0).value.at > c.len / 8;
      SpotOnPath(p, [], c);
      var addr := OtherAddress(c, Spot(p, c, 0).value.at, bytes);
      NobodyAnswers(p, c, addr);
    }
  }

  lemma NobodyAnswers<V>(p: Ptr<V>, c: Cidr, addr: seq<Octet>)
    requires Shaped(p) && Sound(p, []) && FitsAddresses(p, |addr|) && Disjoint(p) && Beside(p, c, addr)
    ensures Search(p, addr, 0).None?
  {
    hide KeepHigh, Route, Canonical, Sound, Spot, Hit, Covers, Search, Leads, Contains;
    assert addr[..0] == [];
    SearchIsHit(p, addr, 0);
    ReachedIff(p, c, addr);
    var h := Hit(p, addr, 0);
    if h.Some? {
      var d := h.value;
      HitIff(p, addr, 0, d);
      TakesCovers(d, addr);
      if c.len <= d.len { BothCover(c, d, addr); } else { BothCover(d, c, addr); }
      assert false;
    }
  }

  lemma TakesCovers(c: Cidr, addr: seq<Octet>)
    requires c.len <= 8 * |addr|
    ensures Takes(c, addr) <==> Covers(c, addr)
  {
  }
}
