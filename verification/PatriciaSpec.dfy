/** The Patricia trie as a value: what the in-place operations of the compressed
    tree do to the shape of the tree, and what that shape means as a finite map. */
module PatriciaSpec {
  import opened Lpm
  import opened Bytes

  datatype Tree<M> = Nil | Node(edge: Bits, meta: Option<M>, left: Tree<M>, right: Tree<M>)

  function Child<M>(t: Tree<M>, bit: bool): (c: Tree<M>)
    requires t.Node?
  {
    if bit then t.right else t.left
  }

  function WithChild<M>(t: Tree<M>, bit: bool, c: Tree<M>): (r: Tree<M>)
    requires t.Node?
  {
    if bit then t.(right := c) else t.(left := c)
  }

  function LeafNode<M>(edge: Bits, v: M): (r: Tree<M>) {
    Node(edge, Some(v), Nil, Nil)
  }

  predicate IsBlank<M>(t: Tree<M>) {
    t.Node? && t.edge == [] && t.meta.None? && t.left.Nil? && t.right.Nil?
  }

  // ---- The operations, on the bits of the key that remain below this node ----

  /** The node whose edge is cut after `s` bits, with its old contents one bit further down. */
  function Split<M>(t: Tree<M>, s: nat): (r: Tree<M>)
    requires t.Node? && s < |t.edge|
  {
    WithChild(Node(t.edge[..s], None, Nil, Nil), t.edge[s], t.(edge := t.edge[s + 1..]))
  }

  function Insert<M>(t: Tree<M>, key: Bits, v: M): (r: Tree<M>)
    requires t.Node?
    ensures r.Node?
    decreases t
  {
    var s := CommonLen(t.edge, key);
    if IsBlank(t) then LeafNode(key, v)
    else if s == |t.edge| && s == |key| then t.(meta := Some(v))
    else if s < |t.edge| then
      if s == |key| then Split(t, s).(meta := Some(v))
      else WithChild(Split(t, s), key[s], LeafNode(key[s + 1..], v))
    else
      var c := Child(t, key[s]);
      WithChild(t, key[s], if c.Nil? then LeafNode(key[s + 1..], v) else Insert(c, key[s + 1..], v))
  }

  function Remove<M>(t: Tree<M>, key: Bits): (r: Tree<M>)
    ensures r.Nil? <==> t.Nil?
    decreases t
  {
    if t.Nil? || CommonLen(t.edge, key) < |t.edge| then t
    else if |key| == |t.edge| then t.(meta := None)
    else
      var b := key[|t.edge|];
      WithChild(t, b, Remove(Child(t, b), key[|t.edge| + 1..]))
  }

  function Lookup<M>(t: Tree<M>, addr: Bits): (r: Option<M>)
    decreases t
  {
    if t.Nil? || CommonLen(t.edge, addr) < |t.edge| then None
    else if |addr| == |t.edge| then t.meta
    else
      var deeper := Lookup(Child(t, addr[|t.edge|]), addr[|t.edge| + 1..]);
      if deeper.Some? then deeper else t.meta
  }

  // ---- The meaning of a tree: a finite map from bit strings ----

  function Get<M>(t: Tree<M>, key: Bits): (r: Option<M>)
    decreases t
  {
    if t.Nil? || !(t.edge <= key) then None
    else if |key| == |t.edge| then t.meta
    else Get(Child(t, key[|t.edge|]), key[|t.edge| + 1..])
  }

  ghost function Below<M>(t: Tree<M>, bit: bool): (s: set<Bits>)
    requires t.Node?
    decreases t, 0
  {
    set k | k in Keys(Child(t, bit)) :: t.edge + [bit] + k
  }

  ghost function Keys<M>(t: Tree<M>): (s: set<Bits>)
    decreases t, 1
  {
    if t.Nil? then {}
    else (if t.meta.Some? then {t.edge} else {}) + Below(t, false) + Below(t, true)
  }

  lemma {:induction false} KeysAreStored<M>(t: Tree<M>, key: Bits)
    ensures key in Keys(t) <==> Get(t, key).Some?
    decreases t
  {
    if t.Node? {
      BelowIsChild(t, false, key);
      BelowIsChild(t, true, key);
      if t.edge <= key && |key| > |t.edge| {
        KeysAreStored(Child(t, key[|t.edge|]), key[|t.edge| + 1..]);
      } else if t.edge <= key {
        assert key == t.edge;
      }
    }
  }

  lemma BelowIsChild<M>(t: Tree<M>, bit: bool, key: Bits)
    requires t.Node?
    ensures key in Below(t, bit) <==>
      t.edge <= key && |key| > |t.edge| && key[|t.edge|] == bit && key[|t.edge| + 1..] in Keys(Child(t, bit))
  {
    var n := |t.edge|;
    if key in Below(t, bit) {
      var k :| k in Keys(Child(t, bit)) && key == t.edge + [bit] + k;
      assert key[n + 1..] == k;
    }
    if t.edge <= key && |key| > n && key[n] == bit {
      assert key == t.edge + [bit] + key[n + 1..];
    }
  }

  /** The finite map a tree stands for. */
  ghost function Contents<M>(t: Tree<M>): (m: map<Bits, M>)
    ensures forall k :: k in m <==> Get(t, k).Some?
    ensures forall k :: k in m ==> Get(t, k) == Some(m[k])
  {
    assert forall k :: k in Keys(t) <==> Get(t, k).Some? by {
      forall k ensures k in Keys(t) <==> Get(t, k).Some? { KeysAreStored(t, k); }
    }
    map k | k in Keys(t) :: Get(t, k).value
  }

  lemma {:induction false} GetAfterInsert<M>(t: Tree<M>, key: Bits, v: M, k: Bits)
    requires t.Node?
    ensures Get(Insert(t, key, v), k) == if k == key then Some(v) else Get(t, k)
    decreases t
  {
    var s := CommonLen(t.edge, key);
    if IsBlank(t) {
      GetLeaf(key, v, k);
    } else if s < |t.edge| {
      GetAfterSplitInsert(t, key, v, k);
    } else if s < |key| {
      var c := Child(t, key[s]);
      var c' := if c.Nil? then LeafNode(key[s + 1..], v) else Insert(c, key[s + 1..], v);
      GetWithChild(t, key[s], c', k);
      PrefixSplit(k, key, s);
      if OnSide(t.edge, key[s], k) {
        GetLeaf(key[s + 1..], v, k[s + 1..]);
        if c.Node? { GetAfterInsert(c, key[s + 1..], v, k[s + 1..]); }
      }
    } else {
      assert t.edge <= k && |k| == s ==> k == key;
    }
  }

  lemma GetAfterSplitInsert<M>(t: Tree<M>, key: Bits, v: M, k: Bits)
    requires t.Node? && CommonLen(t.edge, key) < |t.edge| && !IsBlank(t)
    ensures Get(Insert(t, key, v), k) == if k == key then Some(v) else Get(t, k)
  {
    var s := CommonLen(t.edge, key);
    GetSplit(t, s, k);
    if s < |key| {
      GetWithChild(Split(t, s), key[s], LeafNode(key[s + 1..], v), k);
      PrefixSplit(k, key, s);
      if OnSide(key[..s], key[s], k) {
        GetLeaf(key[s + 1..], v, k[s + 1..]);
        assert !(t.edge <= k);
      }
    } else {
      assert key == t.edge[..s];
      assert key <= k && |k| == s ==> k == key;
      assert |k| == s ==> !(t.edge <= k);
    }
  }

  /** `k` continues below an edge on the side of `bit`. */
  predicate OnSide(edge: Bits, bit: bool, k: Bits) {
    edge <= k && |k| > |edge| && k[|edge|] == bit
  }

  lemma GetWithChild<M>(t: Tree<M>, bit: bool, c: Tree<M>, k: Bits)
    requires t.Node?
    ensures Get(WithChild(t, bit, c), k) ==
      if OnSide(t.edge, bit, k) then Get(c, k[|t.edge| + 1..]) else Get(t, k)
  {
  }

  lemma GetLeaf<M>(edge: Bits, v: M, k: Bits)
    ensures Get(LeafNode(edge, v), k) == if k == edge then Some(v) else None
  {
    if edge <= k && |k| == |edge| { assert k == edge; }
  }

  /** Splitting a node in place loses no entry and adds none. */
  lemma GetSplit<M>(t: Tree<M>, s: nat, k: Bits)
    requires t.Node? && s < |t.edge|
    ensures Get(Split(t, s), k) == Get(t, k)
  {
    var e := t.edge;
    var inner := t.(edge := e[s + 1..]);
    GetWithChild(Node(e[..s], None, Nil, Nil), e[s], inner, k);
    if OnSide(e[..s], e[s], k) {
      var rest := k[s + 1..];
      PrefixCut(e, k, s);
      if e <= k && |k| > |e| {
        assert rest[|e[s + 1..]| + 1..] == k[|e| + 1..];
      }
    }
  }

  lemma PrefixCut(e: Bits, k: Bits, s: nat)
    requires s < |e| && OnSide(e[..s], e[s], k)
    ensures e[s + 1..] <= k[s + 1..] <==> e <= k
  {
    assert e == e[..s] + [e[s]] + e[s + 1..];
    assert k == e[..s] + [e[s]] + k[s + 1..];
  }

  lemma PrefixSplit(k: Bits, key: Bits, s: nat)
    requires s < |key|
    ensures k == key <==> key[..s] <= k && |k| > s && k[s] == key[s] && k[s + 1..] == key[s + 1..]
  {
    assert key == key[..s] + [key[s]] + key[s + 1..];
    if key[..s] <= k && |k| > s && k[s] == key[s] && k[s + 1..] == key[s + 1..] {
      assert k == k[..s] + [k[s]] + k[s + 1..];
    }
  }

  lemma {:induction false} GetAfterRemove<M>(t: Tree<M>, key: Bits, k: Bits)
    ensures Get(Remove(t, key), k) == if k == key then None else Get(t, k)
    decreases t
  {
    if t.Node? {
      var e, s := t.edge, CommonLen(t.edge, key);
      if s < |e| {
        assert !(e <= key);
      } else {
        assert e == key[..s];
        if |key| == |e| {
          assert e <= k && |k| == |e| ==> k == key;
        } else {
          PrefixSplit(k, key, s);
          if e <= k && |k| > s && k[s] == key[s] {
            GetAfterRemove(Child(t, key[s]), key[s + 1..], k[s + 1..]);
          }
        }
      }
    }
  }

  /** The walk with a best-so-far result is longest-prefix match on the map. */
  lemma LookupIsLongest<M>(t: Tree<M>, addr: Bits)
    ensures Lookup(t, addr) == Longest(Contents(t), addr)
  {
    LookupMeetsSpec(t, addr);
    LongestIsExact(Contents(t), addr, Lookup(t, addr));
  }

  lemma {:induction false} LookupMeetsSpec<M>(t: Tree<M>, addr: Bits)
    ensures IsLongest(Contents(t), addr, Lookup(t, addr))
    decreases t
  {
    if t.Nil? { return; }
    var s := |t.edge|;
    if CommonLen(t.edge, addr) < s {
      assert forall n :: 0 <= n <= |addr| ==> !(t.edge <= addr[..n]);
    } else if |addr| == s {
      GetAlong(t, addr);
      assert t.meta.Some? ==> IsLongestAt(Contents(t), addr, s);
    } else {
      LookupMeetsSpec(Child(t, addr[s]), addr[s + 1..]);
      LookupBelow(t, addr, Lookup(Child(t, addr[s]), addr[s + 1..]));
    }
  }

  /** What the tree stores along an address that runs through its edge. */
  lemma GetAlong<M>(t: Tree<M>, addr: Bits)
    requires t.Node? && t.edge <= addr
    ensures forall n :: 0 <= n < |t.edge| ==> Get(t, addr[..n]).None?
    ensures Get(t, addr[..|t.edge|]) == t.meta
    ensures |addr| > |t.edge| ==>
      var c, rest := Child(t, addr[|t.edge|]), addr[|t.edge| + 1..];
      forall n {:trigger rest[..n]} :: 0 <= n <= |rest| ==> Get(t, addr[..|t.edge| + 1 + n]) == Get(c, rest[..n])
  {
    if |addr| > |t.edge| {
      var c, rest := Child(t, addr[|t.edge|]), addr[|t.edge| + 1..];
      forall n | 0 <= n <= |rest| ensures Get(t, addr[..|t.edge| + 1 + n]) == Get(c, rest[..n]) {
        assert addr[..|t.edge| + 1 + n][|t.edge| + 1..] == rest[..n];
      }
    }
  }

  lemma LookupBelow<M>(t: Tree<M>, addr: Bits, deeper: Option<M>)
    requires t.Node? && t.edge <= addr && |addr| > |t.edge|
    requires IsLongest(Contents(Child(t, addr[|t.edge|])), addr[|t.edge| + 1..], deeper)
    ensures IsLongest(Contents(t), addr, if deeper.Some? then deeper else t.meta)
  {
    hide Get, Contents;
    var s, m := |t.edge|, Contents(t);
    var rest := addr[s + 1..];
    var below := Contents(Child(t, addr[s]));
    GetAlong(t, addr);
    assert forall j {:trigger addr[..j]} :: s < j <= |addr| ==> (addr[..j] in m <==> rest[..j - s - 1] in below) by {
      forall j | s < j <= |addr| ensures addr[..j] in m <==> rest[..j - s - 1] in below {
        assert addr[..s + 1 + (j - s - 1)] == addr[..j];
      }
    }
    if deeper.Some? {
      var n: nat :| IsLongestAt(below, rest, n) && below[rest[..n]] == deeper.value;
      assert IsLongestAt(m, addr, s + 1 + n);
    } else if t.meta.Some? {
      assert IsLongestAt(m, addr, s);
    }
  }

  lemma InsertIsUpdate<M>(t: Tree<M>, key: Bits, v: M)
    requires t.Node?
    ensures Contents(Insert(t, key, v)) == Contents(t)[key := v]
  {
    forall k ensures Get(Insert(t, key, v), k) == if k == key then Some(v) else Get(t, k) {
      GetAfterInsert(t, key, v, k);
    }
  }

  lemma RemoveIsDeletion<M>(t: Tree<M>, key: Bits)
    ensures Contents(Remove(t, key)) == Contents(t) - {key}
  {
    forall k ensures Get(Remove(t, key), k) == if k == key then None else Get(t, k) {
      GetAfterRemove(t, key, k);
    }
  }

  // ---- Whole runs ----

  datatype Op<M> = InsertOp(key: Bits, value: M) | RemoveOp(key: Bits) | ClearOp

  function BlankRoot<M>(): (t: Tree<M>) { Node([], None, Nil, Nil) }

  function Step<M>(t: Tree<M>, op: Op<M>): (r: Tree<M>)
    requires t.Node?
    ensures r.Node?
  {
    match op
    case InsertOp(k, v) => Insert(t, k, v)
    case RemoveOp(k) => Remove(t, k)
    case ClearOp => BlankRoot()
  }

  function StepMap<M>(m: map<Bits, M>, op: Op<M>): (r: map<Bits, M>) {
    match op
    case InsertOp(k, v) => m[k := v]
    case RemoveOp(k) => m - {k}
    case ClearOp => map[]
  }

  function Run<M>(ops: seq<Op<M>>): (t: Tree<M>)
    ensures t.Node?
  {
    if ops == [] then BlankRoot() else Step(Run(ops[..|ops| - 1]), ops[|ops| - 1])
  }

  function RunMap<M>(ops: seq<Op<M>>): (m: map<Bits, M>) {
    if ops == [] then map[] else StepMap(RunMap(ops[..|ops| - 1]), ops[|ops| - 1])
  }

  /** After any run of inserts, removals and clears, every lookup answers the
      longest prefix of the map the run describes. */
  lemma {:induction false} RunRefinesMap<M>(ops: seq<Op<M>>, addr: Bits)
    ensures Contents(Run(ops)) == RunMap(ops)
    ensures Lookup(Run(ops), addr) == Longest(RunMap(ops), addr)
  {
    if ops == [] {
      assert Contents(BlankRoot<M>()) == map[];
    } else {
      var before, op := ops[..|ops| - 1], ops[|ops| - 1];
      RunRefinesMap(before, addr);
      match op
      case InsertOp(k, v) => InsertIsUpdate(Run(before), k, v);
      case RemoveOp(k) => RemoveIsDeletion(Run(before), k);
      case ClearOp => assert Contents(BlankRoot<M>()) == map[];
    }
    LookupIsLongest(Run(ops), addr);
  }

  /** A run that only inserts, each prefix once. */
  ghost predicate DistinctInserts<M>(ops: seq<Op<M>>) {
    && (forall i :: 0 <= i < |ops| ==> ops[i].InsertOp?)
    && (forall i, j :: 0 <= i < j < |ops| ==> ops[i].InsertOp? && ops[j].InsertOp? ==> ops[i].key != ops[j].key)
  }

  predicate Binds<M(==)>(m: map<Bits, M>, k: Bits, v: M) {
    k in m && m[k] == v
  }

  lemma {:induction false} DistinctInsertsStored<M>(ops: seq<Op<M>>, k: Bits, v: M)
    requires DistinctInserts(ops)
    ensures Binds(RunMap(ops), k, v) <==> InsertOp(k, v) in ops
  {
    if ops != [] {
      var before, last := ops[..|ops| - 1], ops[|ops| - 1];
      assert ops == before + [last];
      DistinctInsertsStored(before, k, v);
    }
  }

  /** The order in which distinct prefixes arrive never matters, whatever splits it causes. */
  lemma InsertOrderIrrelevant<M>(ops: seq<Op<M>>, ops': seq<Op<M>>, addr: Bits)
    requires DistinctInserts(ops) && DistinctInserts(ops')
    requires multiset(ops) == multiset(ops')
    ensures Contents(Run(ops)) == Contents(Run(ops'))
    ensures Lookup(Run(ops), addr) == Lookup(Run(ops'), addr)
  {
    forall k, v ensures Binds(RunMap(ops), k, v) <==> Binds(RunMap(ops'), k, v) {
      DistinctInsertsStored(ops, k, v);
      DistinctInsertsStored(ops', k, v);
      assert InsertOp(k, v) in ops <==> InsertOp(k, v) in multiset(ops);
      assert InsertOp(k, v) in ops' <==> InsertOp(k, v) in multiset(ops');
    }
    SameMap(RunMap(ops), RunMap(ops'));
    RunRefinesMap(ops, addr);
    RunRefinesMap(ops', addr);
  }

  lemma SameMap<M>(m: map<Bits, M>, m': map<Bits, M>)
    requires forall k, v :: Binds(m, k, v) <==> Binds(m', k, v)
    ensures m == m'
  {
    forall k ensures k in m <==> k in m'
             ensures k in m ==> m[k] == m'[k]
    {
      if k in m { assert Binds(m, k, m[k]); }
      if k in m' { assert Binds(m', k, m'[k]); }
    }
  }
}
