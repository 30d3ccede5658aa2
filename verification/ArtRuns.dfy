/** Whole runs of the adaptive radix tree: what every run stores and answers, when the tree is an
    exact map, and runs that show each condition can fail. */
module ArtRuns {
  import opened Lpm
  import opened ArtNodes
  import opened ArtTree

  // ---- What a tree shows ----

  /** The entries of a tree, and those of them whose leaves have been pushed below their routing keys:
      they still answer some addresses, and can no longer be deleted. */
  datatype View<V> = View(m: map<Cidr, V>, buried: set<Cidr>)

  ghost predicate ShownAt<V>(p: Ptr<V>, s: View<V>, c: Cidr)
    requires Shaped(p)
  {
    var x := Spot(p, c, 0);
    && x.Some? == (c in s.m)
    && (x.Some? ==> x.value.value == s.m[c] && (x.value.at > |c.route| <==> c in s.buried))
  }

  ghost predicate Shows<V>(p: Ptr<V>, s: View<V>) {
    Shaped(p) && Sound(p, []) && s.buried <= s.m.Keys && forall c :: ShownAt(p, s, c)
  }

  lemma ShowsSound<V>(p: Ptr<V>, s: View<V>)
    requires Shows(p, s)
    ensures Shaped(p) && Sound(p, [])
  {
  }

  /** An insert replaces what its routing key leads to along a 16-byte key, and buries what it goes past. */
  ghost function InsertView<V>(s: View<V>, c: Cidr, v: V): (r: View<V>) {
    View((map d | d in s.m && !(c.route <= Pad(d)) :: s.m[d])[c := v],
         set d | d in s.m && d != c && !(c.route <= Pad(d)) && (d in s.buried || d.route <= c.route))
  }

  ghost function DeleteView<V>(s: View<V>, c: Cidr, t: Option<nat>): (r: View<V>) {
    View(map d | d in s.m && !Goes(c, t, d) :: s.m[d], set d | d in s.buried && !Goes(c, t, d))
  }

  /** A leaf that is not replaced ends below its routing key exactly when it was there before or the new
      routing key goes past it. */
  lemma BuriedWhen(c: Cidr, d: Cidr, at: nat)
    requires |c.route| <= KEY_BYTES && |d.route| <= KEY_BYTES && !(c.route <= Pad(d))
    ensures PushedTo(at, |d.route|, Fork(c.route, Pad(d))) > |d.route| <==> at > |d.route| || d.route <= c.route
  {
    hide Pad;
    var k := Fork(c.route, Pad(d));
    ForkAt(c.route, Pad(d), 0);
    assert Pad(d)[..|d.route|] == d.route;
    if d.route <= c.route {
      ForkAt(c.route, Pad(d), |d.route|);
    }
    assert forall i :: 0 <= i < k ==> c.route[..k][i] == Pad(d)[..k][i];
    assert forall i :: 0 <= i < |d.route| ==> Pad(d)[i] == d.route[i];
  }

  lemma InsertShows<V>(p: Ptr<V>, s: View<V>, key: seq<Octet>, len: nat, v: V)
    requires Shows(p, s) && len <= 8 * KEY_BYTES && RouteLen(len) <= |key|
    ensures Shows(Insert(p, key, 0, len, v).0, InsertView(s, CidrOf(key, len), v))
    ensures Insert(p, key, 0, len, v).1 == !EndsOnLeaf(p, CidrOf(key, len), 0)
  {
    hide KeepHigh, Route, Canonical, Sound, Spot, Insert, EndsOnLeaf, Shifted, Pad;
    var c := CidrOf(key, len);
    assert Route(key, len)[..0] == [];
    InsertOutcome(p, key, 0, len, v);
    var p', s' := Insert(p, key, 0, len, v).0, InsertView(s, c, v);
    forall d ensures ShownAt(p', s', d) {
      assert ShownAt(p, s, d);
      if d != c { ShiftedShown(p, s, c, d); }
    }
  }

  lemma ShiftedShown<V>(p: Ptr<V>, s: View<V>, c: Cidr, d: Cidr)
    requires Shaped(p) && Sound(p, []) && ShownAt(p, s, d) && d != c && |c.route| <= KEY_BYTES
    ensures var x := Shifted(c, d, Spot(p, d, 0));
      && x.Some? == (d in s.m && !(c.route <= Pad(d)))
      && (x.Some? ==> x.value.value == s.m[d] && (x.value.at > |d.route| <==> d in s.buried || d.route <= c.route))
  {
    hide KeepHigh, Route, Sound, Spot, Pad, PushedTo;
    if Spot(p, d, 0).Some? && !(c.route <= Pad(d)) {
      SpotOnPath(p, [], d);
      BuriedWhen(c, d, Spot(p, d, 0).value.at);
    }
  }

  lemma DeleteShows<V>(p: Ptr<V>, s: View<V>, key: seq<Octet>, len: nat)
    requires Shows(p, s) && len <= 8 * KEY_BYTES && RouteLen(len) <= |key|
    ensures var r, c := Delete(p, key, 0, len), CidrOf(key, len);
      && r.1 == (c in s.m && c !in s.buried)
      && (if r.1 then Shows(r.0, DeleteView(s, c, DropDepth(p, c, 0))) else r.0 == p)
  {
    hide KeepHigh, Route, Canonical, Sound, Spot, Delete, DropDepth, Goes;
    var r, c := Delete(p, key, 0, len), CidrOf(key, len);
    assert Route(key, len)[..0] == [];
    DeleteOutcome(p, key, 0, len);
    assert ShownAt(p, s, c);
    if r.1 {
      var t := DropDepth(p, c, 0);
      forall d ensures ShownAt(r.0, DeleteView(s, c, t), d) {
        assert ShownAt(p, s, d);
      }
    }
  }

  // ---- Every run ----

  datatype Op<V> = InsertOp(key: seq<Octet>, len: nat, value: V) | DeleteOp(key: seq<Octet>, len: nat)

  predicate KeyFits<V>(op: Op<V>) {
    op.len <= 8 * KEY_BYTES && RouteLen(op.len) <= |op.key|
  }

  /** The network an operation is about. */
  function Target<V>(op: Op<V>): (c: Cidr)
    requires KeyFits(op)
    ensures Canonical(c)
  {
    CidrOf(op.key, op.len)
  }

  datatype State<V> = State(root: Ptr<V>, size: int)

  function Step<V>(s: State<V>, op: Op<V>): (r: State<V>)
    requires KeyFits(op) && Shaped(s.root)
    ensures Shaped(r.root)
  {
    match op
    case InsertOp(key, len, v) =>
      var (root, added) := Insert(s.root, key, 0, len, v);
      State(root, if added then s.size + 1 else s.size)
    case DeleteOp(key, len) =>
      var (root, deleted) := Delete(s.root, key, 0, len);
      State(root, if deleted then s.size - 1 else s.size)
  }

  ghost function StepView<V>(p: Ptr<V>, s: View<V>, op: Op<V>): (r: View<V>)
    requires KeyFits(op) && Shaped(p)
  {
    var c := Target(op);
    match op
    case InsertOp(_, _, v) => InsertView(s, c, v)
    case DeleteOp(_, _) => if c in s.m && c !in s.buried then DeleteView(s, c, DropDepth(p, c, 0)) else s
  }

  function Run<V>(ops: seq<Op<V>>): (s: State<V>)
    requires forall i :: 0 <= i < |ops| ==> KeyFits(ops[i])
    ensures Shaped(s.root)
  {
    if ops == [] then State(Inner(map[]), 0) else Step(Run(ops[..|ops| - 1]), ops[|ops| - 1])
  }

  ghost function RunView<V>(ops: seq<Op<V>>): (s: View<V>)
    requires forall i :: 0 <= i < |ops| ==> KeyFits(ops[i])
  {
    if ops == [] then View(map[], {}) else
      var init := ops[..|ops| - 1];
      StepView(Run(init).root, RunView(init), ops[|ops| - 1])
  }

  lemma StepShows<V>(s: State<V>, w: View<V>, op: Op<V>)
    requires KeyFits(op) && Shows(s.root, w)
    ensures Shows(Step(s, op).root, StepView(s.root, w, op))
  {
    hide KeepHigh, Route, Canonical, Sound, Spot, Insert, Delete, DropDepth, InsertView, DeleteView, EndsOnLeaf;
    match op
    case InsertOp(key, len, v) => InsertShows(s.root, w, key, len, v);
    case DeleteOp(key, len) => DeleteShows(s.root, w, key, len);
  }

  /** The entries a routing key replaces. */
  ghost function Replaced<V>(m: map<Cidr, V>, c: Cidr): (r: map<Cidr, V>) {
    map d | d in m && c.route <= Pad(d) :: m[d]
  }

  lemma InsertCount<V>(s: View<V>, c: Cidr, v: V)
    requires |c.route| <= KEY_BYTES
    ensures |InsertView(s, c, v).m| == |s.m| + 1 - |Replaced(s.m, c)|
  {
    hide Pad;
    var kept, gone := map d | d in s.m && !(c.route <= Pad(d)) :: s.m[d], Replaced(s.m, c);
    UpdateSize(kept, c, v);
    assert s.m.Keys == kept.Keys + gone.Keys && kept.Keys !! gone.Keys;
    assert |s.m.Keys| == |s.m| && |kept.Keys| == |kept| && |gone.Keys| == |gone|;
  }

  /** By how much `size` moves away from the number of entries: an insert leaves it too large by what it
      replaces beyond the one leaf that it reports as overwritten. */
  lemma InsertSize<V>(s: State<V>, w: View<V>, op: Op<V>)
    requires KeyFits(op) && op.InsertOp? && Shows(s.root, w)
    ensures Step(s, op).size == s.size + if EndsOnLeaf(s.root, Target(op), 0) then 0 else 1
    ensures Step(s, op).size - |StepView(s.root, w, op).m| ==
      s.size - |w.m| + |Replaced(w.m, Target(op))| - if EndsOnLeaf(s.root, Target(op), 0) then 1 else 0
    ensures EndsOnLeaf(s.root, Target(op), 0) ==> |Replaced(w.m, Target(op))| >= 1
  {
    hide KeepHigh, Route, Sound, Spot, Insert, EndsOnLeaf, InsertView, Replaced;
    var c := Target(op);
    InsertShows(s.root, w, op.key, op.len, op.value);
    InsertCount(w, c, op.value);
    if EndsOnLeaf(s.root, c, 0) { SomeReplaced(s.root, w, c); }
  }

  lemma SomeReplaced<V>(p: Ptr<V>, w: View<V>, c: Cidr)
    requires Shows(p, w) && EndsOnLeaf(p, c, 0)
    ensures |Replaced(w.m, c)| >= 1
  {
    hide KeepHigh, Route, Sound, Spot, Pad;
    var d :| EndsOn(p, c, d, 0);
    assert ShownAt(p, w, d);
    assert d in Replaced(w.m, c).Keys;
  }

  lemma DeleteCount<V>(s: View<V>, c: Cidr, t: Option<nat>)
    requires c in s.m
    ensures |DeleteView(s, c, t).m| <= |s.m| - 1
  {
    hide Goes;
    var left := DeleteView(s, c, t).m;
    assert Goes(c, t, c) by { GoesItself(c, t); }
    SubsetSize(left.Keys, s.m.Keys - {c});
    assert |left.Keys| == |left| && |s.m.Keys - {c}| == |s.m| - 1;
  }

  lemma GoesItself(c: Cidr, t: Option<nat>)
    ensures Goes(c, t, c)
  {
  }

  /** Every run, whatever it inserts and deletes: the tree shows exactly what the calls make of it, and
      `size` never falls short of the number of entries. */
  lemma {:induction false} RunShows<V>(ops: seq<Op<V>>)
    requires forall i :: 0 <= i < |ops| ==> KeyFits(ops[i])
    ensures Shows(Run(ops).root, RunView(ops)) && Run(ops).size >= |RunView(ops).m|
  {
    hide KeepHigh, Route, Canonical, Shows, Spot, Step, StepView;
    if ops == [] {
      EmptyShows<V>();
    } else {
      var init, op := ops[..|ops| - 1], ops[|ops| - 1];
      RunShows(init);
      StepShows(Run(init), RunView(init), op);
      SizeSuffices(Run(init), RunView(init), op);
    }
  }

  lemma EmptyShows<V>()
    ensures Shows<V>(Inner(map[]), View(map[], {}))
  {
  }

  lemma SizeSuffices<V>(s: State<V>, w: View<V>, op: Op<V>)
    requires KeyFits(op) && Shows(s.root, w) && s.size >= |w.m|
    ensures Step(s, op).size >= |StepView(s.root, w, op).m|
  {
    hide KeepHigh, Route, Canonical, Sound, Spot, Insert, Delete, DropDepth;
    hide InsertView, DeleteView, EndsOnLeaf, Replaced;
    if op.InsertOp? {
      InsertSize(s, w, op);
    } else {
      DeleteShows(s.root, w, op.key, op.len);
      if Target(op) in w.m { DeleteCount(w, Target(op), DropDepth(s.root, Target(op), 0)); }
    }
  }

  /** The address leads to the leaf of the entry. */
  ghost predicate LedTo<V>(p: Ptr<V>, c: Cidr, addr: seq<Octet>)
    requires Shaped(p)
  {
    var s := Spot(p, c, 0); s.Some? && Leads(c, s.value.at, addr)
  }

  /** Exactly what a search answers, in every run: the value of the one entry that takes the address and
      whose leaf the address leads to. */
  lemma ShownAnswer<V>(p: Ptr<V>, s: View<V>, addr: seq<Octet>)
    requires Shows(p, s)
    ensures forall c :: c in s.m && Takes(c, addr) && LedTo(p, c, addr) ==> Search(p, addr, 0) == Some(s.m[c])
    ensures Search(p, addr, 0).Some? ==>
      exists c :: c in s.m && Takes(c, addr) && LedTo(p, c, addr) && Search(p, addr, 0) == Some(s.m[c])
  {
    hide KeepHigh, Route, Canonical, Sound, Spot, Hit, Takes, Search, Leads;
    assert addr[..0] == [];
    SearchIsHit(p, addr, 0);
    forall c | c in s.m && Takes(c, addr) && LedTo(p, c, addr) ensures Search(p, addr, 0) == Some(s.m[c]) {
      HitIff(p, addr, 0, c);
      assert ShownAt(p, s, c);
    }
    var h := Hit(p, addr, 0);
    if h.Some? {
      HitIff(p, addr, 0, h.value);
      assert ShownAt(p, s, h.value);
      assert LedTo(p, h.value, addr);
    }
  }

  /** An entry that an insert goes past still answers exactly the addresses that follow its 16-byte key,
      zeros below its routing key, through the fork. */
  lemma BuriedAnswers<V>(p: Ptr<V>, key: seq<Octet>, len: nat, v: V, e: Cidr, addr: seq<Octet>)
    requires Shaped(p) && Sound(p, []) && len <= 8 * KEY_BYTES && RouteLen(len) <= |key|
    requires Deletable(p, e, 0) && e.route <= CidrOf(key, len).route && !(CidrOf(key, len).route <= Pad(e))
    ensures var p', k := Insert(p, key, 0, len, v).0, Fork(CidrOf(key, len).route, Pad(e));
      && k >= |e.route| && !Deletable(p', e, 0)
      && (Hit(p', addr, 0) == Some(e) <==> Takes(e, addr) && Leads(e, k + 1, addr))
  {
    hide KeepHigh, Route, Sound, Spot, Insert, EndsOnLeaf, Hit, Takes, Leads, Pad, Shifted;
    var c, p' := CidrOf(key, len), Insert(p, key, 0, len, v).0;
    assert Route(key, len)[..0] == [];
    assert addr[..0] == [];
    InsertOutcome(p, key, 0, len, v);
    SpotOnPath(p, [], e);
    PushedPast(c, e, Spot(p, e, 0).value);
    assert e != c;
    HitIff(p', addr, 0, e);
  }

  lemma PushedPast<V>(c: Cidr, e: Cidr, s: Place<V>)
    requires |c.route| <= KEY_BYTES && |e.route| <= KEY_BYTES && e.route <= c.route && !(c.route <= Pad(e))
    requires s.at <= |e.route|
    ensures Fork(c.route, Pad(e)) >= |e.route|
    ensures Shifted(c, e, Some(s)) == Some(Place(s.value, Fork(c.route, Pad(e)) + 1))
  {
    hide Pad;
    assert Pad(e)[..|e.route|] == e.route;
    ForkAt(c.route, Pad(e), |e.route|);
  }

  // ---- When an insert is map update ----

  /** No other deletable entry is routed along, or through, the routing key of `c`. */
  ghost predicate NoConflict<V>(p: Ptr<V>, c: Cidr)
    requires Shaped(p)
  {
    forall d :: Deletable(p, d, 0) ==> d == c || !Comparable(c, d)
  }

  /** Every other entry that could be deleted still can, with its value. */
  ghost predicate OthersStay<V>(p: Ptr<V>, p': Ptr<V>, c: Cidr)
    requires Shaped(p) && Shaped(p')
  {
    forall d :: d != c && Deletable(p, d, 0) ==>
      Deletable(p', d, 0) && Spot(p', d, 0).value.value == Spot(p, d, 0).value.value
  }

  lemma ComparableWhen(c: Cidr, d: Cidr)
    requires |c.route| <= KEY_BYTES && |d.route| <= KEY_BYTES
    ensures Comparable(c, d) <==> c.route <= Pad(d) || d.route <= c.route
  {
    hide Pad;
    assert Pad(d)[..|d.route|] == d.route;
    if c.route <= Pad(d) {
      if |c.route| <= |d.route| {
        assert c.route == Pad(d)[..|d.route|][..|c.route|];
      } else {
        assert d.route == c.route[..|d.route|];
      }
    }
  }

  /** InsertPrefix is map update exactly when no other deletable network shares a routing path with the new one. */
  lemma InsertExactIff<V>(p: Ptr<V>, key: seq<Octet>, len: nat, v: V)
    requires Shaped(p) && Sound(p, []) && len <= 8 * KEY_BYTES && RouteLen(len) <= |key|
    ensures var p', c := Insert(p, key, 0, len, v).0, CidrOf(key, len);
      && Deletable(p', c, 0) && Spot(p', c, 0).value.value == v
      && (OthersStay(p, p', c) <==> NoConflict(p, c))
  {
    hide KeepHigh, Route, Sound, Spot, Insert, EndsOnLeaf, Comparable, Pad, PushedTo;
    var p', c := Insert(p, key, 0, len, v).0, CidrOf(key, len);
    assert Route(key, len)[..0] == [];
    InsertOutcome(p, key, 0, len, v);
    forall d | d != c && Deletable(p, d, 0)
      ensures Deletable(p', d, 0) <==> !Comparable(c, d)
      ensures Deletable(p', d, 0) ==> Spot(p', d, 0).value.value == Spot(p, d, 0).value.value
    {
      SpotOnPath(p, [], d);
      ComparableWhen(c, d);
      if !(c.route <= Pad(d)) { BuriedWhen(c, d, Spot(p, d, 0).value.at); }
    }
  }

  // ---- Exact runs ----

  /** The tree is an exact map, every entry can be deleted, and `size` is their number. */
  ghost predicate Exact<V>(s: State<V>, m: map<Cidr, V>) {
    Shows(s.root, View(m, {})) && s.size == |m|
  }

  ghost function StepMap<V>(m: map<Cidr, V>, op: Op<V>): (r: map<Cidr, V>)
    requires KeyFits(op)
  {
    match op
    case InsertOp(_, _, v) => m[Target(op) := v]
    case DeleteOp(_, _) => m - {Target(op)}
  }

  ghost function RunMap<V>(ops: seq<Op<V>>): (m: map<Cidr, V>)
    requires forall i :: 0 <= i < |ops| ==> KeyFits(ops[i])
  {
    if ops == [] then map[] else StepMap(RunMap(ops[..|ops| - 1]), ops[|ops| - 1])
  }

  /** A step whose network shares no routing path with another stored one, and that drops no full node. */
  ghost predicate Safe<V>(p: Ptr<V>, m: map<Cidr, V>, op: Op<V>)
    requires KeyFits(op) && Shaped(p)
  {
    match op
    case InsertOp(_, _, _) => forall d :: d in m && d != Target(op) ==> !Comparable(Target(op), d)
    case DeleteOp(_, _) => !FullOnPath(p, Target(op), 0)
  }

  lemma StepExact<V>(s: State<V>, m: map<Cidr, V>, op: Op<V>)
    requires KeyFits(op) && Exact(s, m) && Safe(s.root, m, op)
    ensures Exact(Step(s, op), StepMap(m, op))
  {
    hide KeepHigh, Route, Canonical, Sound, Spot, Insert, Delete, DropDepth, InsertView, DeleteView, EndsOnLeaf, Shows;
    var c, w := Target(op), View(m, {});
    StepShows(s, w, op);
    if op.InsertOp? {
      InsertSize(s, w, op);
      SafeInsertView(s.root, m, op);
      UpdateSize(m, c, op.value);
    } else {
      ShowsSound(s.root, w);
      DropsIffFull(s.root, c, 0);
      SafeDeleteView(m, c);
      RemoveSize(m, c);
      DeleteShows(s.root, w, op.key, op.len);
    }
  }

  lemma SafeInsertView<V>(p: Ptr<V>, m: map<Cidr, V>, op: Op<V>)
    requires KeyFits(op) && op.InsertOp? && Shows(p, View(m, {})) && Safe(p, m, op)
    ensures InsertView(View(m, {}), Target(op), op.value) == View(m[Target(op) := op.value], {})
    ensures EndsOnLeaf(p, Target(op), 0) <==> Target(op) in m
  {
    hide KeepHigh, Route, Sound, Spot, Pad, Comparable;
    var c := Target(op);
    forall d | d in m && d != c ensures !(c.route <= Pad(d)) && !(d.route <= c.route) {
      assert ShownAt(p, View(m, {}), d);
      SpotOnPath(p, [], d);
      ComparableWhen(c, d);
    }
    assert c.route <= Pad(c);
    var r := InsertView(View(m, {}), c, op.value);
    assert r.m == m[c := op.value];
    assert r.buried == {};
    assert ShownAt(p, View(m, {}), c);
    if c in m { assert EndsOn(p, c, c, 0); }
    if EndsOnLeaf(p, c, 0) {
      var d :| EndsOn(p, c, d, 0);
      assert ShownAt(p, View(m, {}), d);
    }
  }

  lemma SafeDeleteView<V>(m: map<Cidr, V>, c: Cidr)
    ensures DeleteView(View(m, {}), c, None) == View(m - {c}, {})
  {
    assert DeleteView(View(m, {}), c, None).m == m - {c};
  }

  ghost predicate SafeRun<V>(ops: seq<Op<V>>)
    requires forall i :: 0 <= i < |ops| ==> KeyFits(ops[i])
  {
    ops == [] || var init := ops[..|ops| - 1]; SafeRun(init) && Safe(Run(init).root, RunMap(init), ops[|ops| - 1])
  }

  /** Over every safe run the tree is an exact map and `size` counts its entries. */
  lemma {:induction false} RunExact<V>(ops: seq<Op<V>>)
    requires forall i :: 0 <= i < |ops| ==> KeyFits(ops[i])
    requires SafeRun(ops)
    ensures Exact(Run(ops), RunMap(ops))
  {
    hide Shows, Step, StepMap, Safe;
    if ops == [] {
      EmptyShows<V>();
    } else {
      RunExact(ops[..|ops| - 1]);
      StepExact(Run(ops[..|ops| - 1]), RunMap(ops[..|ops| - 1]), ops[|ops| - 1]);
    }
  }

  // ---- Runs over networks none of which is inside another ----

  ghost predicate PrefixFree<V>(m: map<Cidr, V>) {
    forall c, d :: c in m && d in m && c != d ==> !Contains(c, d)
  }

  /** For some path, each of the 256 next bytes has an entry. */
  ghost predicate Crowded<V>(m: map<Cidr, V>, path: seq<Octet>) {
    forall b: Octet :: BranchTaken(m, path, b)
  }

  ghost predicate BranchTaken<V>(m: map<Cidr, V>, path: seq<Octet>, b: Octet) {
    exists d :: d in m && path + [b] <= d.route
  }

  /** At every point of the run the entries are prefix-free and nowhere take all 256 branches. */
  ghost predicate TameRun<V>(ops: seq<Op<V>>)
    requires forall i :: 0 <= i < |ops| ==> KeyFits(ops[i])
  {
    forall k :: 0 <= k <= |ops| ==> PrefixFree(RunMap(ops[..k])) && forall path :: !Crowded(RunMap(ops[..k]), path)
  }

  lemma FullTable<C>(kids: map<Octet, C>, b: Octet)
    requires |kids| == 256
    ensures b in kids
  {
    if b !in kids {
      var more := kids[b := kids[Any(kids)]];
      assert |more| == 257 by { UpdateSize(kids, b, kids[Any(kids)]); }
      AtMost256(more);
    }
  }

  ghost function Any<C>(kids: map<Octet, C>): (b: Octet)
    requires |kids| > 0
    ensures b in kids
  {
    assert kids.Keys != {} by { assert |kids.Keys| == |kids|; }
    var b :| b in kids.Keys;
    b
  }

  ghost predicate HasBranch<V>(p: Ptr<V>, depth: nat, path: seq<Octet>, b: Octet)
    requires Shaped(p)
  {
    exists d :: Branches(p, depth, path, b, d)
  }

  /** The leaf of `d` is below branch `b` of `path`. */
  ghost predicate Branches<V>(p: Ptr<V>, depth: nat, path: seq<Octet>, b: Octet, d: Cidr)
    requires Shaped(p)
  {
    var s := Spot(p, d, depth); s.Some? && path + [b] <= Pad(d) && |path| < s.value.at
  }

  /** Below a node with all 256 children, every branch has an entry. */
  lemma {:induction false} FullIsCrowded<V>(p: Ptr<V>, path: seq<Octet>, c: Cidr) returns (full: seq<Octet>)
    requires Shaped(p) && Sound(p, path) && FullOnPath(p, c, |path|)
    ensures forall b: Octet :: HasBranch(p, |path|, full, b)
    decreases p
  {
    hide KeepHigh, Route, Canonical, Sound, Spot, Pad;
    var k := c.route[|path|];
    KidSound(p, path, k);
    if FullOnPath(p.kids[k], c, |path| + 1) {
      full := FullIsCrowded(p.kids[k], path + [k], c);
      forall b: Octet ensures HasBranch(p, |path|, full, b) {
        assert HasBranch(p.kids[k], |path + [k]|, full, b);
        var d :| Branches(p.kids[k], |path + [k]|, full, b, d);
        SpotAbove(p, path, k, d);
        assert Branches(p, |path|, full, b, d);
      }
    } else {
      full := path;
      forall b: Octet ensures HasBranch(p, |path|, full, b) {
        FullTable(p.kids, b);
        KidSound(p, path, b);
        var d := StoresSomething(p.kids[b], path + [b]);
        SpotAbove(p, path, b, d);
        SpotOnPath(p.kids[b], path + [b], d);
        assert Branches(p, |path|, full, b, d);
      }
    }
  }

  lemma FullMeansCrowded<V>(p: Ptr<V>, m: map<Cidr, V>, c: Cidr) returns (full: seq<Octet>)
    requires Shows(p, View(m, {})) && FullOnPath(p, c, 0)
    ensures Crowded(m, full)
  {
    hide KeepHigh, Route, Sound, FullOnPath, Spot, Pad;
    full := FullIsCrowded(p, [], c);
    forall b: Octet ensures BranchTaken(m, full, b) {
      assert HasBranch(p, 0, full, b);
      var d :| Branches(p, 0, full, b, d);
      assert ShownAt(p, View(m, {}), d);
      SpotOnPath(p, [], d);
      RoutePart(full + [b], d);
    }
  }

  lemma RoutePart(path: seq<Octet>, d: Cidr)
    requires path <= Pad(d) && |path| <= |d.route| <= KEY_BYTES
    ensures path <= d.route
  {
  }

  lemma NoClash<V>(p: Ptr<V>, m: map<Cidr, V>, op: Op<V>)
    requires KeyFits(op) && op.InsertOp? && Shows(p, View(m, {})) && PrefixFree(m[Target(op) := op.value])
    ensures Safe(p, m, op)
  {
    hide KeepHigh, Route, Sound, Spot, Contains, Comparable;
    var c := Target(op);
    forall d | d in m && d != c ensures !Comparable(c, d) {
      assert ShownAt(p, View(m, {}), d);
      SpotOnPath(p, [], d);
      assert d in m[c := op.value] && c in m[c := op.value];
      DisjointRoutes(c, d);
    }
  }

  lemma {:induction false} TameIsSafe<V>(ops: seq<Op<V>>)
    requires forall i :: 0 <= i < |ops| ==> KeyFits(ops[i])
    requires TameRun(ops)
    ensures SafeRun(ops)
  {
    hide KeepHigh, Route, Canonical, Shows, PrefixFree, Crowded, FullOnPath, CidrOf;
    if ops != [] {
      var init, op := ops[..|ops| - 1], ops[|ops| - 1];
      assert forall k :: 0 <= k <= |init| ==> init[..k] == ops[..k];
      TameIsSafe(init);
      RunExact(init);
      assert ops[..|ops|] == ops && ops[..|init|] == init;
      if op.InsertOp? {
        NoClash(Run(init).root, RunMap(init), op);
      } else if FullOnPath(Run(init).root, Target(op), 0) {
        var full := FullMeansCrowded(Run(init).root, RunMap(init), Target(op));
        assert false;
      }
    }
  }

  /** Over every run whose entries are byte-aligned and prefix-free and nowhere take all 256 branches,
      the tree is an exact map, `size` counts it, and Match answers the one entry that covers the
      address, or nothing if there is none. */
  lemma AlignedRunExact<V>(ops: seq<Op<V>>, addr: seq<Octet>)
    requires forall i :: 0 <= i < |ops| ==> KeyFits(ops[i])
    requires TameRun(ops) && forall c :: c in RunMap(ops) ==> c.len % 8 == 0 && c.len <= 8 * |addr|
    ensures Exact(Run(ops), RunMap(ops))
    ensures forall c :: c in RunMap(ops) && Covers(c, addr) ==> Search(Run(ops).root, addr, 0) == Some(RunMap(ops)[c])
    ensures (forall c :: c in RunMap(ops) ==> !Covers(c, addr)) ==> Search(Run(ops).root, addr, 0).None?
  {
    hide KeepHigh, Route, Spot, Covers, Run, RunMap, Search, SafeRun, TameRun, Takes, LedTo, Shows;
    TameIsSafe(ops);
    RunExact(ops);
    var p, m := Run(ops).root, RunMap(ops);
    ShownAnswer(p, View(m, {}), addr);
    forall c | c in m
      ensures Takes(c, addr) <==> Covers(c, addr)
      ensures Covers(c, addr) ==> LedTo(p, c, addr)
    {
      AlignedLeads(p, m, c, addr);
    }
  }

  lemma AlignedLeads<V>(p: Ptr<V>, m: map<Cidr, V>, c: Cidr, addr: seq<Octet>)
    requires Shows(p, View(m, {})) && c in m && c.len % 8 == 0 && c.len <= 8 * |addr|
    ensures Takes(c, addr) <==> Covers(c, addr)
    ensures Covers(c, addr) ==> LedTo(p, c, addr)
  {
    hide KeepHigh, Route, Spot, Sound, Leads;
    assert ShownAt(p, View(m, {}), c);
    SpotOnPath(p, [], c);
    TakesCovers(c, addr);
    if Covers(c, addr) { FullBytesLead(c, Spot(p, c, 0).value.at, addr); }
  }

  /** A tree whose entries are byte-aligned and not buried answers every address in an entry with it. */
  lemma AlignedMatchExact<V>(p: Ptr<V>, m: map<Cidr, V>, bytes: nat)
    requires Shows(p, View(m, {})) && forall c :: c in m ==> c.len % 8 == 0 && c.len <= 8 * bytes
    ensures MatchExact(p, bytes)
  {
    hide KeepHigh, Route, Spot, Covers, Search, Takes, LedTo, Sound;
    forall c, addr | |addr| == bytes && Spot(p, c, 0).Some? && Covers(c, addr)
      ensures Search(p, addr, 0) == Some(Spot(p, c, 0).value.value)
    {
      assert ShownAt(p, View(m, {}), c);
      AlignedLeads(p, m, c, addr);
      ShownAnswer(p, View(m, {}), addr);
    }
  }

  // ---- The conditions can fail ----

  lemma RunSnoc<V>(ops: seq<Op<V>>, op: Op<V>)
    requires (forall i :: 0 <= i < |ops| ==> KeyFits(ops[i])) && KeyFits(op)
    ensures forall i :: 0 <= i < |ops + [op]| ==> KeyFits((ops + [op])[i])
    ensures Run(ops + [op]) == Step(Run(ops), op) && RunMap(ops + [op]) == StepMap(RunMap(ops), op)
  {
    hide Step, StepMap, KeyFits;
    var all := ops + [op];
    assert forall i :: 0 <= i < |all| ==> KeyFits(all[i]);
    assert all[..|ops|] == ops;
  }

  /** A run of inserts on separate routing paths stores them all. */
  lemma {:induction false} ApartRun<V>(ops: seq<Op<V>>)
    requires forall i :: 0 <= i < |ops| ==> KeyFits(ops[i])
    requires forall i :: 0 <= i < |ops| ==> ops[i].InsertOp?
    requires forall i, j :: 0 <= i < j < |ops| ==> !Comparable(Target(ops[j]), Target(ops[i]))
    ensures SafeRun(ops) && Exact(Run(ops), RunMap(ops))
    ensures forall d :: d in RunMap(ops) <==> IsTarget(ops, d)
  {
    hide KeepHigh, Route, Canonical, Comparable, Exact, Target, Step, StepMap, IsTarget;
    if ops != [] {
      var init, op := ops[..|ops| - 1], ops[|ops| - 1];
      assert forall i :: 0 <= i < |init| ==> init[i] == ops[i];
      ApartRun(init);
      ApartIsSafe(ops, Run(init).root, RunMap(init));
      assert ops == init + [op];
      RunSnoc(init, op);
      forall d ensures d in RunMap(ops) <==> IsTarget(ops, d) {
        TargetSnoc(init, op, d);
        InsertStep(RunMap(init), op, d);
      }
    } else {
      forall d ensures !IsTarget(ops, d) { NoTargets(ops, d); }
    }
    RunExact(ops);
  }

  ghost predicate IsTarget<V>(ops: seq<Op<V>>, d: Cidr)
    requires forall i :: 0 <= i < |ops| ==> KeyFits(ops[i])
  {
    exists i :: 0 <= i < |ops| && Target(ops[i]) == d
  }

  lemma NoTargets<V>(ops: seq<Op<V>>, d: Cidr)
    requires ops == []
    ensures !IsTarget(ops, d)
  {
  }

  lemma TargetSnoc<V>(init: seq<Op<V>>, op: Op<V>, d: Cidr)
    requires (forall i :: 0 <= i < |init| ==> KeyFits(init[i])) && KeyFits(op)
    requires forall i :: 0 <= i < |init + [op]| ==> KeyFits((init + [op])[i])
    ensures IsTarget(init + [op], d) <==> IsTarget(init, d) || d == Target(op)
  {
    hide Target, KeyFits;
    var ops := init + [op];
    if IsTarget(init, d) {
      var i :| 0 <= i < |init| && Target(init[i]) == d;
      assert Target(ops[i]) == d;
    }
    assert Target(ops[|init|]) == Target(op);
  }

  lemma InsertStep<V>(m: map<Cidr, V>, op: Op<V>, d: Cidr)
    requires KeyFits(op) && op.InsertOp?
    ensures d in StepMap(m, op) <==> d in m || d == Target(op)
  {
  }

  lemma ApartIsSafe<V>(ops: seq<Op<V>>, p: Ptr<V>, m: map<Cidr, V>)
    requires ops != [] && forall i :: 0 <= i < |ops| ==> KeyFits(ops[i])
    requires ops[|ops| - 1].InsertOp? && Shaped(p)
    requires forall i, j :: 0 <= i < j < |ops| ==> !Comparable(Target(ops[j]), Target(ops[i]))
    requires forall d :: d in m ==> IsTarget(ops[..|ops| - 1], d)
    ensures Safe(p, m, ops[|ops| - 1])
  {
    hide KeepHigh, Route, Canonical, CidrOf, Comparable;
    var init, op := ops[..|ops| - 1], ops[|ops| - 1];
    forall d | d in m ensures !Comparable(Target(op), d) {
      assert IsTarget(init, d);
      var i :| 0 <= i < |init| && Target(init[i]) == d;
      assert ops[i] == init[i];
    }
  }

  lemma OneEntry<V>(a: Op<V>)
    requires KeyFits(a) && a.InsertOp?
    ensures Exact(Run([a]), map[Target(a) := a.value])
  {
    hide KeepHigh, Route, Canonical, Exact;
    ApartRun([a]);
    assert [a][..0] == [];
  }

  /** Of two networks on one routing path, the second going past the first: both are counted, the first can
      no longer be deleted, and it answers the addresses that follow its key through the fork and no others. */
  lemma SecondGoesPast<V>(a: Op<V>, b: Op<V>, addr: seq<Octet>)
    requires KeyFits(a) && KeyFits(b) && a.InsertOp? && b.InsertOp?
    requires Target(a).route <= Target(b).route && !(Target(b).route <= Pad(Target(a)))
    requires Covers(Target(a), addr) && !Takes(Target(b), addr)
    ensures var s, k := Run([a, b]), Fork(Target(b).route, Pad(Target(a)));
      && s.size == 2 && Step(s, DeleteOp(a.key, a.len)) == s
      && Search(s.root, addr, 0) == if Leads(Target(a), k + 1, addr) then Some(a.value) else None
  {
    hide KeepHigh, Route, Sound, Spot, Insert, Delete, EndsOnLeaf, Hit, Takes, Covers, Leads, Search, Pad;
    var c, d := Target(a), Target(b);
    OneEntry(a);
    RunSnoc([a], b);
    assert [a] + [b] == [a, b];
    PastView(Run([a]), a, b);
    var p := Run([a, b]).root;
    BuriedAnswers(Run([a]).root, b.key, b.len, b.value, c, addr);
    DeleteShows(p, View(map[c := a.value, d := b.value], {c}), a.key, a.len);
    assert addr[..0] == [];
    SearchIsHit(p, addr, 0);
    TakesWhenCovers(c, addr);
    var h := Hit(p, addr, 0);
    if h.Some? { HitShown(p, View(map[c := a.value, d := b.value], {c}), addr, h.value); }
    assert ShownAt(p, View(map[c := a.value, d := b.value], {c}), c);
  }

  lemma TakesWhenCovers(c: Cidr, addr: seq<Octet>)
    requires Covers(c, addr)
    ensures Takes(c, addr)
  {
  }

  lemma HitShown<V>(p: Ptr<V>, w: View<V>, addr: seq<Octet>, c: Cidr)
    requires Shows(p, w) && Hit(p, addr, 0) == Some(c)
    ensures c in w.m && Takes(c, addr)
  {
    hide KeepHigh, Route, Sound, Spot, Hit, Takes, Leads;
    assert addr[..0] == [];
    HitIff(p, addr, 0, c);
    assert ShownAt(p, w, c);
  }

  lemma PastView<V>(s: State<V>, a: Op<V>, b: Op<V>)
    requires KeyFits(a) && KeyFits(b) && a.InsertOp? && b.InsertOp? && Exact(s, map[Target(a) := a.value])
    requires Target(a).route <= Target(b).route && !(Target(b).route <= Pad(Target(a)))
    ensures var c, d := Target(a), Target(b);
      && Deletable(s.root, c, 0)
      && Shows(Step(s, b).root, View(map[c := a.value, d := b.value], {c})) && Step(s, b).size == 2
  {
    hide KeepHigh, Route, Sound, Spot, Insert, Pad;
    var c, d, w := Target(a), Target(b), View(map[Target(a) := a.value], {});
    assert ShownAt(s.root, w, c);
    StepShows(s, w, b);
    InsertSize(s, w, b);
    assert d.route <= Pad(d);
    assert InsertView(w, d, b.value) == View(map[c := a.value, d := b.value], {c});
    assert Replaced(w.m, d) == map[];
  }

  /** 10.0.0.0/8 and then 10.1.0.0/16: 10.0.5.6 still finds the /8, 10.2.5.6 no longer does. */
  lemma NestedClash<V>(x: V, y: V)
    ensures var a, b := InsertOp([10, 0, 0, 0], 8, x), InsertOp([10, 1, 0, 0], 16, y);
      var s := Run([a, b]);
      && s.size == 2 && Step(s, DeleteOp([10, 0, 0, 0], 8)) == s
      && Search(s.root, [10, 0, 5, 6], 0) == Some(x) && Search(s.root, [10, 2, 5, 6], 0).None?
  {
    var a, b := InsertOp([10, 0, 0, 0], 8, x), InsertOp([10, 1, 0, 0], 16, y);
    NestedFacts([10, 0, 5, 6]);
    NestedFacts([10, 2, 5, 6]);
    hide KeepHigh, Route, Run, Step, Search;
    SecondGoesPast(a, b, [10, 0, 5, 6]);
    SecondGoesPast(a, b, [10, 2, 5, 6]);
  }

  lemma NestedFacts(addr: seq<Octet>)
    requires |addr| == 4 && addr[0] == 10 && addr[1] != 1
    ensures var c, d := CidrOf([10, 0, 0, 0], 8), CidrOf([10, 1, 0, 0], 16);
      && c.route <= d.route && !(d.route <= Pad(c)) && Covers(c, addr) && !Takes(d, addr)
      && (Leads(c, Fork(d.route, Pad(c)) + 1, addr) <==> addr[1] == 0)
  {
    assert Route([10, 0, 0, 0], 8) == [10] && Route([10, 1, 0, 0], 16) == [10, 1];
    assert Route(addr, 8) == [10] && Route(addr, 16) == [10, addr[1]];
    var c, d := CidrOf([10, 0, 0, 0], 8), CidrOf([10, 1, 0, 0], 16);
    assert Pad(c)[0] == 10 && Pad(c)[1] == 0;
    assert d.route[..1] == [10] == Pad(c)[..1];
    ForkAt(d.route, Pad(c), 1);
    assert addr[..2] == [10, addr[1]];
  }

  /** Two stored networks whose keys agree up to byte `k` both have their leaves below it. */
  lemma {:induction false} LeafBelowFork<V>(p: Ptr<V>, path: seq<Octet>, c: Cidr, d: Cidr, k: nat)
    requires Shaped(p) && Sound(p, path) && c != d
    requires Spot(p, c, |path|).Some? && Spot(p, d, |path|).Some?
    requires |path| <= k <= KEY_BYTES && Pad(c)[..k] == Pad(d)[..k]
    ensures Spot(p, c, |path|).value.at > k
    decreases p
  {
    hide KeepHigh, Route, Canonical, Sound, Pad, Spot;
    SpotOnPath(p, path, c);
    if p.Leaf? {
      SpotLeaf(p, c, |path|);
      SpotLeaf(p, d, |path|);
    } else if p.Inner? {
      SpotBelow(p, c, |path|);
      SpotBelow(p, d, |path|);
      if |path| < k {
        assert Pad(c)[..k][|path|] == Pad(d)[..k][|path|];
        var b := Pad(c)[|path|];
        KidSound(p, path, b);
        LeafBelowFork(p.kids[b], path + [b], c, d, k);
      }
    } else {
      SpotNull<V>(c, |path|);
    }
  }

  /** Two networks that end inside the same byte push each other below it: an address of the first with
      another byte there, outside the second, finds nothing. */
  lemma TwinsMissed<V>(a: Op<V>, b: Op<V>, addr: seq<Octet>, k: nat)
    requires KeyFits(a) && KeyFits(b) && a.InsertOp? && b.InsertOp? && !Comparable(Target(b), Target(a))
    requires k < KEY_BYTES && Pad(Target(a))[..k] == Pad(Target(b))[..k]
    requires Covers(Target(a), addr) && !Takes(Target(b), addr) && k < |addr| && addr[k] != Pad(Target(a))[k]
    ensures Exact(Run([a, b]), RunMap([a, b])) && Target(a) in RunMap([a, b])
    ensures Search(Run([a, b]).root, addr, 0).None?
  {
    hide KeepHigh, Route, Canonical, Sound, Spot, Search, Hit, Run, RunMap, Covers, Comparable, Takes, Pad;
    var c, d := Target(a), Target(b);
    ApartRun([a, b]);
    var p, m := Run([a, b]).root, RunMap([a, b]);
    assert [a, b][0] == a && [a, b][1] == b;
    assert IsTarget([a, b], c) && IsTarget([a, b], d);
    assert forall e :: e in m ==> e == c || e == d;
    assert c != d by { SelfComparable(c); }
    assert addr[..0] == [];
    SearchIsHit(p, addr, 0);
    assert ShownAt(p, View(m, {}), c) && ShownAt(p, View(m, {}), d);
    LeafBelowFork(p, [], c, d, k);
    HitIff(p, addr, 0, c);
    var h := Hit(p, addr, 0);
    if h.Some? { HitShown(p, View(m, {}), addr, h.value); }
    var at := Spot(p, c, 0).value.at;
    if at <= |addr| { assert addr[..at][k] == addr[k]; }
  }

  lemma SelfComparable(c: Cidr)
    ensures Comparable(c, c)
  {
  }

  /** The two halves of 10.0.0.0/24: 10.0.0.130 is in the upper one and finds nothing. */
  lemma HalvesMissed<V>(x: V, y: V)
    ensures var a, b, addr := InsertOp([10, 0, 0, 128], 25, x), InsertOp([10, 0, 0, 0], 25, y), [10, 0, 0, 130];
      && Exact(Run([a, b]), RunMap([a, b])) && Target(a) in RunMap([a, b]) && Covers(Target(a), addr)
      && Search(Run([a, b]).root, addr, 0).None?
  {
    var a, b, addr := InsertOp([10, 0, 0, 128], 25, x), InsertOp([10, 0, 0, 0], 25, y), [10, 0, 0, 130];
    HalfRoutes();
    hide KeepHigh, Route, Canonical;
    var c, d := Target(a), Target(b);
    assert c.route[3] != d.route[3];
    assert Pad(c)[..3] == [10, 0, 0] == Pad(d)[..3] && Pad(c)[3] == 128;
    hide *;
    TwinsMissed(a, b, addr, 3);
  }

  lemma HalfRoutes()
    ensures CidrOf([10, 0, 0, 128], 25) == Cidr([10, 0, 0, 128], 25)
    ensures CidrOf([10, 0, 0, 0], 25) == Cidr([10, 0, 0, 0], 25)
    ensures Covers(Cidr([10, 0, 0, 128], 25), [10, 0, 0, 130]) && !Takes(Cidr([10, 0, 0, 0], 25), [10, 0, 0, 130])
  {
    assert Route([10, 0, 0, 128], 25) == [10, 0, 0, Mask(128, 1)];
    assert Route([10, 0, 0, 0], 25) == [10, 0, 0, Mask(0, 1)];
    assert Route([10, 0, 0, 130], 25) == [10, 0, 0, Mask(130, 1)];
    assert KeepHigh(128, 8, 1) == 128 && KeepHigh(130, 8, 1) == 128 && KeepHigh(0, 8, 1) == 0;
  }

  /** 1.0.0.0/8 up to 255.0.0.0/8, then 0.0.0.0/16 and 0.1.0.0/16: every branch of the root is taken. */
  function Fill<V>(v: V): (ops: seq<Op<V>>) {
    seq(257, i requires 0 <= i < 257 => FillOp(i, v))
  }

  function FillOp<V>(i: nat, v: V): (op: Op<V>)
    requires i < 257
  {
    if i < 255 then InsertOp([i + 1, 0, 0, 0], 8, v) else InsertOp([0, i - 255, 0, 0], 16, v)
  }

  lemma FillRoute<V>(i: nat, v: V)
    requires i < 257
    ensures KeyFits(FillOp(i, v)) && FillOp(i, v).InsertOp?
    ensures Target(FillOp(i, v)).route == if i < 255 then [i + 1] else [0, i - 255]
  {
    var op := FillOp(i, v);
    if i < 255 {
      assert Route(op.key, 8) == [op.key[0]];
    } else {
      assert Route(op.key, 16) == [op.key[0], op.key[1]];
    }
  }

  lemma FillApart<V>(i: nat, j: nat, v: V)
    requires i < j < 257 && KeyFits(FillOp(i, v)) && KeyFits(FillOp(j, v))
    ensures !Comparable(Target(FillOp(j, v)), Target(FillOp(i, v)))
  {
    FillRoute(i, v);
    FillRoute(j, v);
    hide Target, FillOp;
    var x, y := Target(FillOp(i, v)).route, Target(FillOp(j, v)).route;
    if i < 255 {
      assert x[0] != y[0];
    } else {
      assert x[1] != y[1];
    }
  }

  ghost predicate FillStored<V>(v: V, p: Ptr<V>, m: map<Cidr, V>) {
    Shows(p, View(m, {})) && forall i :: 0 <= i < 257 && KeyFits(FillOp(i, v)) ==> Target(FillOp(i, v)) in m
  }

  lemma FillRun<V>(v: V)
    ensures forall i :: 0 <= i < |Fill(v)| ==> KeyFits(Fill(v)[i])
    ensures FillStored(v, Run(Fill(v)).root, RunMap(Fill(v)))
  {
    var fill := Fill(v);
    assert |fill| == 257 && forall i :: 0 <= i < 257 ==> fill[i] == FillOp(i, v);
    hide Target, FillOp, Fill, Comparable;
    forall i | 0 <= i < |fill| ensures KeyFits(fill[i]) && fill[i].InsertOp? { FillRoute(i, v); }
    forall i, j | 0 <= i < j < |fill| ensures !Comparable(Target(fill[j]), Target(fill[i])) { FillApart(i, j, v); }
    ApartRun(fill);
    forall i | 0 <= i < 257 && KeyFits(FillOp(i, v)) ensures Target(FillOp(i, v)) in RunMap(fill) {
      assert fill[i] == FillOp(i, v);
      assert IsTarget(fill, Target(fill[i]));
    }
  }

  lemma FillSpot<V>(v: V, p: Ptr<V>, m: map<Cidr, V>, i: nat)
    requires FillStored(v, p, m) && i < 257
    ensures KeyFits(FillOp(i, v)) && Spot(p, Target(FillOp(i, v)), 0).Some?
    ensures Pad(Target(FillOp(i, v)))[0] == if i < 255 then i + 1 else 0
  {
    hide KeepHigh, Route, Canonical, Sound, Spot, Target, FillOp, KeyFits;
    FillRoute(i, v);
    assert ShownAt(p, View(m, {}), Target(FillOp(i, v)));
  }

  /** Every branch of a tree that stores them is taken, the first one by both /16 networks. */
  lemma FillFull<V>(v: V, p: Ptr<V>, m: map<Cidr, V>)
    requires FillStored(v, p, m)
    ensures KeyFits(FillOp(256, v)) && FullOnPath(p, Target(FillOp(256, v)), 0)
  {
    FillSpot(v, p, m, 255);
    FillSpot(v, p, m, 256);
    FillRoute(255, v);
    FillRoute(256, v);
    hide KeepHigh, Route, Canonical, Sound, Target, FillOp, KeyFits, Pad, FillStored;
    var c, d := Target(FillOp(256, v)), Target(FillOp(255, v));
    assert c.route[1] != d.route[1];
    assert p.Inner?;
    forall b: Octet ensures b in p.kids {
      var i := if b == 0 then 255 else b - 1;
      FillSpot(v, p, m, i);
      SpotBelow(p, Target(FillOp(i, v)), 0);
    }
    AllBranches(p.kids);
    SpotBelow(p, d, 0);
    assert HoldsOther(p.kids[0], c, 1) by { assert Spot(p.kids[0], d, 1).Some?; }
  }

  lemma AllBranches<C>(kids: map<Octet, C>)
    requires forall b: Octet :: b in kids
    ensures |kids| == 256
  {
    AtMost256(kids);
    var keys: set<int> := kids.Keys;
    assert forall b :: b in Range(256) ==> b in keys;
    SubsetSize(Range(256), keys);
    assert |kids.Keys| == |kids|;
  }

  /** Deleting 0.1.0.0/16 makes the counter of a full node read zero, and 0.0.0.0/16 goes with it. */
  lemma FullNodeDropped<V>(v: V)
    ensures var ops := Fill(v) + [DeleteOp([0, 1, 0, 0], 16)];
      && (forall i :: 0 <= i < |ops| ==> KeyFits(ops[i])) && KeyFits(FillOp(255, v))
      && Target(FillOp(255, v)) in RunMap(ops) && Spot(Run(ops).root, Target(FillOp(255, v)), 0).None?
  {
    var fill, del: Op<V> := Fill(v), DeleteOp([0, 1, 0, 0], 16);
    assert KeyFits(del) && FillOp(256, v) == InsertOp(del.key, 16, v);
    FillRun(v);
    FillFull(v, Run(fill).root, RunMap(fill));
    FillRoute(255, v);
    FillRoute(256, v);
    RunSnoc(fill, del);
    assert Target(FillOp(256, v)) == Target(del);
    hide KeepHigh, Route, Canonical, Sound, Spot, Target, FillOp, KeyFits, Pad, Run, RunMap, FullOnPath, Fill, Step;
    var c, d := Target(del), Target(FillOp(255, v));
    assert c.route == [0, 1] && d.route == [0, 0];
    assert c.route[1] != d.route[1];
    FullLoses(Run(fill), RunMap(fill), del, d);
  }

  lemma FullLoses<V>(s: State<V>, m: map<Cidr, V>, op: Op<V>, d: Cidr)
    requires KeyFits(op) && op.DeleteOp? && Shows(s.root, View(m, {}))
    requires Target(op) in m && d in m && d != Target(op) && FullOnPath(s.root, Target(op), 0)
    requires Target(op).route[..|Target(op).route| - 1] <= Pad(d)
    ensures d in StepMap(m, op) && Spot(Step(s, op).root, d, 0).None?
  {
    hide KeepHigh, Route, Sound, Spot, Delete, FullOnPath, Pad, DropDepth, Shows;
    var c := Target(op);
    ShowsSound(s.root, View(m, {}));
    DropsIffFull(s.root, c, 0);
    DeleteShows(s.root, View(m, {}), op.key, op.len);
    var t := DropDepth(s.root, c, 0).value;
    assert c.route[..t] == c.route[..|c.route| - 1][..t];
    var w := DeleteView(View(m, {}), c, Some(t));
    assert Goes(c, Some(t), d);
    ShownNot(Step(s, op).root, w, d);
  }

  lemma ShownNot<V>(p: Ptr<V>, w: View<V>, d: Cidr)
    requires Shows(p, w) && d !in w.m
    ensures Spot(p, d, 0).None?
  {
    assert ShownAt(p, w, d);
  }

  // ---- The tree object ----

  class Tree<V> {
    var root: Ptr<V>
    var size: int
    ghost var view: View<V>

    ghost predicate Valid()
      reads this
    {
      Shows(root, view) && size >= |view.m|
    }

    constructor ()
      ensures Valid() && view == View(map[], {}) && size == 0
    {
      root, size, view := Inner(map[]), 0, View(map[], {});
      new;
      EmptyShows<V>();
    }

    /** Whatever the tree holds: exactly the entries the routing key leads to are replaced, exactly those
        it goes past are buried, and `size` moves unless the walk ends on a leaf. */
    method InsertPrefix(key: seq<Octet>, len: nat, v: V)
      requires Valid() && KeyFits(InsertOp(key, len, v))
      modifies this
      ensures Valid() && view == InsertView(old(view), CidrOf(key, len), v)
      ensures size == old(size) + if old(EndsOnLeaf(root, CidrOf(key, len), 0)) then 0 else 1
    {
      hide KeepHigh, Route, Canonical, Shows, Insert, InsertView, EndsOnLeaf;
      ShowsSound(root, view);
      StepShows(State(root, size), view, InsertOp(key, len, v));
      SizeSuffices(State(root, size), view, InsertOp(key, len, v));
      InsertSize(State(root, size), view, InsertOp(key, len, v));
      var (newRoot, added) := Insert(root, key, 0, len, v);
      root := newRoot;
      if added {
        size := size + 1;
      }
      view := InsertView(view, CidrOf(key, len), v);
    }

    /** A buried entry is not deleted; any other is, with everything below a full node that is dropped. */
    method DeletePrefix(key: seq<Octet>, len: nat) returns (deleted: bool)
      requires Valid() && KeyFits<V>(DeleteOp(key, len))
      modifies this
      ensures Valid() && (deleted <==> CidrOf(key, len) in old(view.m) && CidrOf(key, len) !in old(view.buried))
      ensures view == if deleted then DeleteView(old(view), CidrOf(key, len), old(DropDepth(root, CidrOf(key, len), 0)))
                      else old(view)
      ensures size == old(size) - if deleted then 1 else 0
    {
      hide KeepHigh, Route, Canonical, Shows, Delete, DeleteView, DropDepth;
      ShowsSound(root, view);
      DeleteShows(root, view, key, len);
      SizeSuffices(State(root, size), view, DeleteOp(key, len));
      ghost var c := CidrOf(key, len);
      ghost var after := DeleteView(view, c, DropDepth(root, c, 0));
      var (newRoot, removed) := Delete(root, key, 0, len);
      deleted := removed;
      root := newRoot;
      if deleted {
        size := size - 1;
        view := after;
      }
    }

    /** The value of an entry that takes the address and whose leaf it leads to, or nothing if there is none;
        the longest entry's if every address that leads past a leaf is in a longer entry. */
    method Match(addr: seq<Octet>) returns (r: Option<V>)
      requires Valid()
      ensures r.Some? ==> exists c :: c in view.m && Takes(c, addr) && r == Some(view.m[c])
      ensures forall c :: c in view.m && Takes(c, addr) && LedTo(root, c, addr) ==> r == Some(view.m[c])
      ensures LongerBeside(root, |addr|) ==>
        forall c :: LongestCover(root, addr, c) ==> c in view.m && r == Some(view.m[c])
    {
      hide KeepHigh, Route, Canonical, Sound, Spot, Hit, Takes, Leads, Search, LongerBeside;
      r := Search(root, addr, 0);
      ShownAnswer(root, view, addr);
      if LongerBeside(root, |addr|) {
        FindsLongestIff(root, |addr|);
        assert addr[..0] == [];
        SearchIsHit(root, addr, 0);
        forall c | LongestCover(root, addr, c) ensures c in view.m && r == Some(view.m[c]) {
          assert ShownAt(root, view, c);
        }
      }
    }
  }
}
