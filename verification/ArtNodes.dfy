/** The four child layouts of the adaptive radix tree. Each one stands for a
    finite map `m` from key bytes to children; growing and shrinking keep it. */
module ArtNodes {
  import opened Lpm

  const NODE48_EMPTY: nat := 0xFF

  /** A key byte, used as an index. */
  type Octet = x: int | 0 <= x < 256

  /** The part of `m` whose key bytes are below `i`. */
  ghost function UpTo<C>(m: map<Octet, C>, i: nat): (r: map<Octet, C>) {
    map b | b in m && b < i :: m[b]
  }

  lemma UpToNext<C>(m: map<Octet, C>, i: nat)
    requires i < 256
    ensures UpTo(m, i + 1) == if i in m then UpTo(m, i)[i := m[i]] else UpTo(m, i)
    ensures i !in UpTo(m, i)
    ensures |UpTo(m, i + 1)| <= |m|
  {
    SubsetSize(UpTo(m, i + 1).Keys, m.Keys);
  }

  lemma SubsetSize<T>(a: set<T>, b: set<T>)
    requires a <= b
    ensures |a| <= |b|
  {
    assert b == a + (b - a);
  }

  lemma UpToEnds<C>(m: map<Octet, C>)
    ensures UpTo(m, 0) == map[] && UpTo(m, 256) == m
  {
  }

  // ---- Node4 and Node16: an unsorted key array beside a child array ----

  /** The first `n` slots hold exactly the entries of `m`. */
  ghost predicate KeysHold<C>(ks: seq<Octet>, cs: seq<Option<C>>, n: nat, m: map<Octet, C>) {
    && n <= |ks| == |cs|
    && |m| == n
    && (forall i :: 0 <= i < n ==> ks[i] in m && cs[i] == Some(m[ks[i]]))
    && (forall i, j :: 0 <= i < j < n ==> ks[i] != ks[j])
    && (forall b :: b in m ==> b in ks[..n])
  }

  lemma KeysFit<C>(ks: seq<Octet>, cs: seq<Option<C>>, n: nat, m: map<Octet, C>)
    requires KeysHold(ks, cs, n, m)
    ensures n <= |ks| == |cs|
    ensures forall i :: 0 <= i < n ==> ks[i] in m && cs[i] == Some(m[ks[i]])
  {
  }

  lemma AppendHolds<C>(ks: seq<Octet>, cs: seq<Option<C>>, n: nat, m: map<Octet, C>, b: Octet, c: C)
    requires KeysHold(ks, cs, n, m) && n < |ks| && b !in m
    ensures KeysHold(ks[n := b], cs[n := Some(c)], n + 1, m[b := c])
  {
    assert ks[n := b][..n + 1] == ks[..n] + [b];
  }

  lemma SwapRemoveHolds<C>(ks: seq<Octet>, cs: seq<Option<C>>, n: nat, m: map<Octet, C>, i: nat)
    requires KeysHold(ks, cs, n, m) && i < n
    ensures KeysHold(ks[i := ks[n - 1]], cs[i := cs[n - 1]][n - 1 := None], n - 1, m - {ks[i]})
  {
    var ks', cs', m' := ks[i := ks[n - 1]], cs[i := cs[n - 1]][n - 1 := None], m - {ks[i]};
    SwapSlots(ks, cs, n, m, i, ks', cs');
    forall b | b in m' ensures b in ks'[..n - 1] {
      SwapKeeps(ks, n, i, b);
    }
    SwapDone(ks[i], n, m, ks', cs');
  }

  lemma SwapDone<C>(b: Octet, n: nat, m: map<Octet, C>, ks': seq<Octet>, cs': seq<Option<C>>)
    requires 0 < n <= |ks'| == |cs'| && |m| == n && b in m
    requires forall j :: 0 <= j < n - 1 ==> ks'[j] in m && ks'[j] != b && cs'[j] == Some(m[ks'[j]])
    requires forall j, l :: 0 <= j < l < n - 1 ==> ks'[j] != ks'[l]
    requires forall k :: k in m - {b} ==> k in ks'[..n - 1]
    ensures KeysHold(ks', cs', n - 1, m - {b})
  {
    assert |m - {b}| == n - 1;
  }

  lemma SwapSlots<C>(ks: seq<Octet>, cs: seq<Option<C>>, n: nat, m: map<Octet, C>, i: nat,
                     ks': seq<Octet>, cs': seq<Option<C>>)
    requires KeysHold(ks, cs, n, m) && i < n
    requires |ks'| == |cs'| == |ks|
    requires forall j :: 0 <= j < n - 1 ==> ks'[j] == (if j == i then ks[n - 1] else ks[j])
    requires forall j :: 0 <= j < n - 1 ==> cs'[j] == (if j == i then cs[n - 1] else cs[j])
    ensures forall j :: 0 <= j < n - 1 ==> ks'[j] in m && ks'[j] != ks[i] && cs'[j] == Some(m[ks'[j]])
    ensures forall j, l :: 0 <= j < l < n - 1 ==> ks'[j] != ks'[l]
  {
  }

  lemma SwapKeeps(ks: seq<Octet>, n: nat, i: nat, b: Octet)
    requires i < n <= |ks| && b in ks[..n] && b != ks[i]
    ensures b in ks[i := ks[n - 1]][..n - 1]
  {
    var j :| 0 <= j < n && ks[j] == b;
    assert ks[i := ks[n - 1]][..n - 1][if j == n - 1 then i else j] == b;
  }

  lemma CopyHolds<C>(ks: seq<Octet>, cs: seq<Option<C>>, n: nat, m: map<Octet, C>, ks': seq<Octet>, cs': seq<Option<C>>)
    requires KeysHold(ks, cs, n, m) && n <= |ks'| == |cs'|
    requires ks'[..n] == ks[..n] && cs'[..n] == cs[..n]
    ensures KeysHold(ks', cs', n, m)
  {
    assert forall i :: 0 <= i < n ==> ks'[..n][i] == ks[..n][i] && cs'[..n][i] == cs[..n][i];
  }

  lemma ReplaceHolds<C>(ks: seq<Octet>, cs: seq<Option<C>>, n: nat, m: map<Octet, C>, i: nat, c: C)
    requires KeysHold(ks, cs, n, m) && i < n
    ensures KeysHold(ks, cs[i := Some(c)], n, m[ks[i] := c])
  {
    assert m[ks[i] := c].Keys == m.Keys;
    assert |m[ks[i] := c].Keys| == |m.Keys|;
  }

  class KeyNode<C> {
    const capacity: nat
    const keys: array<Octet>
    const children: array<Option<C>>
    var num: nat
    ghost var m: map<Octet, C>

    ghost predicate Valid()
      reads this, keys, children
    {
      && keys.Length == children.Length == capacity
      && keys as object != children as object
      && KeysHold(keys[..], children[..], num, m)
    }

    constructor (capacity: nat)
      ensures Valid() && m == map[] && num == 0 && this.capacity == capacity
      ensures fresh(keys) && fresh(children)
    {
      this.capacity := capacity;
      keys := new Octet[capacity](_ => 0);
      children := new Option<C>[capacity](_ => None);
      num := 0;
      m := map[];
    }

    /** Linear scan for `b`; answers its slot, or `num` when absent. */
    method IndexOf(b: Octet) returns (i: nat)
      requires Valid()
      ensures i <= num
      ensures if i < num then keys[i] == b && b in m else b !in m
    {
      i := 0;
      while i < num
        invariant i <= num
        invariant forall j :: 0 <= j < i ==> keys[j] != b
      {
        if keys[i] == b {
          assert keys[..][i] == b;
          return;
        }
        i := i + 1;
      }
      assert b !in keys[..][..num];
    }

    method FindChild(b: Octet) returns (c: Option<C>)
      requires Valid()
      ensures c == if b in m then Some(m[b]) else None
    {
      var i := IndexOf(b);
      if i < num {
        c := children[i];
        assert keys[..][i] == b && children[..][i] == c;
      } else {
        c := None;
      }
    }

    method Append(b: Octet, c: C)
      requires Valid() && num < capacity && b !in m
      modifies this, keys, children
      ensures Valid() && m == old(m)[b := c]
    {
      AppendHolds(keys[..], children[..], num, m, b, c);
      keys[num] := b;
      children[num] := Some(c);
      assert keys[..] == old(keys[..])[num := b] && children[..] == old(children[..])[num := Some(c)];
      num := num + 1;
      m := m[b := c];
    }

    /** Overwrites the freed slot with the last one. */
    method SwapRemove(b: Octet) returns (found: bool)
      requires Valid()
      modifies this, keys, children
      ensures Valid() && m == old(m) - {b}
      ensures found <==> b in old(m)
    {
      var i := IndexOf(b);
      found := i < num;
      if i < num {
        SwapRemoveHolds(keys[..], children[..], num, m, i);
        var last := num - 1;
        keys[i] := keys[last];
        children[i] := children[last];
        children[last] := None;
        assert keys[..] == old(keys[..])[i := old(keys[last])];
        assert children[..] == old(children[..])[i := old(children[last])][last := None];
        num := last;
        m := m - {b};
      } else {
        assert m == m - {b};
      }
    }

    method Replace(b: Octet, c: C)
      requires Valid() && b in m
      modifies this, children
      ensures Valid() && m == old(m)[b := c]
    {
      var i := IndexOf(b);
      ReplaceHolds(keys[..], children[..], num, m, i, c);
      children[i] := Some(c);
      assert children[..] == old(children[..])[i := Some(c)];
      m := m[b := c];
    }

    /** Copies the used slots into a node of another capacity (grow to 16, shrink to 4). */
    method Resized(newCapacity: nat) returns (r: KeyNode<C>)
      requires Valid() && num <= newCapacity
      ensures r.Valid() && r.m == m && r.capacity == newCapacity
      ensures fresh(r) && fresh(r.keys) && fresh(r.children)
    {
      hide KeysHold;
      r := new KeyNode<C>(newCapacity);
      ghost var n := num;
      assert n <= capacity by { KeysFit(keys[..], children[..], num, m); }
      var i := 0;
      while i < num
        invariant i <= num
        invariant r.keys[..i] == keys[..i] && r.children[..i] == children[..i]
        modifies r.keys, r.children
      {
        r.keys[i] := keys[i];
        r.children[i] := children[i];
        i := i + 1;
      }
      r.num := num;
      r.m := m;
      CopyHolds(keys[..], children[..], num, m, r.keys[..], r.children[..]);
    }

    /** Grow to a Node48: slot `i` keeps its number. */
    method ToNode48() returns (r: Node48<C>)
      requires Valid() && capacity <= 48
      ensures r.Valid() && r.m == m
      ensures fresh(r) && fresh(r.index) && fresh(r.children)
    {
      hide KeysHold, SlotsHold;
      KeysFit(keys[..], children[..], num, m);
      r := new Node48<C>();
      var i: nat := 0;
      while i < num
        invariant i <= num
        invariant SlotsHold(r.index[..], r.children[..], i, keys[..][..i], Sub(m, keys[..][..i]))
        modifies r.index, r.children
      {
        ghost var ks, ix: seq<nat>, cs := keys[..], r.index[..], r.children[..];
        NextKey(ks, children[..], num, m, i);
        NewSlotHolds(ix, cs, i, ks[..i], Sub(m, ks[..i]), ks[i], m[ks[i]]);
        r.index[keys[i]] := i;
        r.children[i] := children[i];
        assert r.index[..] == ix[ks[i] := i] && r.children[..] == cs[i := Some(m[ks[i]])];
        i := i + 1;
      }
      AllKeys(keys[..], children[..], num, m);
      r.num := num;
      r.m := m;
      r.slots := keys[..][..num];
    }
  }

  /** The part of `m` on the listed keys. */
  ghost function Sub<C>(m: map<Octet, C>, ks: seq<Octet>): (r: map<Octet, C>) {
    map b | b in m && b in ks :: m[b]
  }

  lemma NextKey<C>(ks: seq<Octet>, cs: seq<Option<C>>, n: nat, m: map<Octet, C>, i: nat)
    requires KeysHold(ks, cs, n, m) && i < n
    ensures ks[i] in m && ks[i] !in Sub(m, ks[..i])
    ensures ks[..i + 1] == ks[..i] + [ks[i]]
    ensures Sub(m, ks[..i + 1]) == Sub(m, ks[..i])[ks[i] := m[ks[i]]]
  {
  }

  lemma AllKeys<C>(ks: seq<Octet>, cs: seq<Option<C>>, n: nat, m: map<Octet, C>)
    requires KeysHold(ks, cs, n, m)
    ensures Sub(m, ks[..n]) == m
  {
  }

  // ---- Node48: a byte-indexed table of slots ----

  /** Slots `0..n` hold exactly the entries of `m`; `slots` names the byte of each, and the index is its inverse. */
  ghost predicate SlotsHold<C>(ix: seq<nat>, cs: seq<Option<C>>, n: nat, slots: seq<Octet>, m: map<Octet, C>) {
    && |ix| == 256 && |cs| == 48 && n <= 48
    && |m| == n == |slots|
    && (forall s :: 0 <= s < n ==> slots[s] in m && ix[slots[s]] == s && cs[s] == Some(m[slots[s]]))
    && (forall b :: b in m ==> ix[b] < n && slots[ix[b]] == b)
    && (forall b: Octet :: b !in m ==> ix[b] == NODE48_EMPTY)
    && (forall s :: n <= s < 48 ==> cs[s] == None)
  }

  lemma NewSlotHolds<C>(ix: seq<nat>, cs: seq<Option<C>>, n: nat, slots: seq<Octet>, m: map<Octet, C>, b: Octet, c: C)
    requires SlotsHold(ix, cs, n, slots, m) && n < 48 && b !in m
    ensures SlotsHold(ix[b := n], cs[n := Some(c)], n + 1, slots + [b], m[b := c])
  {
  }

  lemma SlotOf<C>(ix: seq<nat>, cs: seq<Option<C>>, n: nat, slots: seq<Octet>, m: map<Octet, C>, b: Octet)
    requires SlotsHold(ix, cs, n, slots, m)
    ensures |ix| == 256 && |cs| == 48 && n == |slots| <= 48
    ensures if b in m then ix[b] < n && slots[ix[b]] == b && cs[ix[b]] == Some(m[b]) else ix[b] == NODE48_EMPTY
  {
  }

  lemma LastSlot<C>(ix: seq<nat>, cs: seq<Option<C>>, n: nat, slots: seq<Octet>, m: map<Octet, C>, i: nat)
    requires SlotsHold(ix, cs, n, slots, m) && i < n
    ensures ix[slots[n - 1]] == n - 1
    ensures i != n - 1 ==> slots[n - 1] != slots[i]
    ensures forall b: Octet :: ix[b] == n - 1 ==> b == slots[n - 1]
  {
  }

  /** What removing the byte in slot `i` leaves once the last slot has moved into it. */
  lemma CompactionHolds<C>(ix: seq<nat>, cs: seq<Option<C>>, n: nat, slots: seq<Octet>, m: map<Octet, C>, i: nat)
    requires SlotsHold(ix, cs, n, slots, m) && i < n
    ensures var freed := ix[slots[i] := NODE48_EMPTY];
      var last := n - 1;
      SlotsHold(if i == last then freed else freed[slots[last] := i],
                cs[i := cs[last]][last := None], last, slots[i := slots[last]][..last], m - {slots[i]})
  {
    var m' := m - {slots[i]};
    assert |m'| == n - 1;
  }

  class Node48<C> {
    const index: array<nat>
    const children: array<Option<C>>
    var num: nat
    ghost var m: map<Octet, C>
    ghost var slots: seq<Octet>

    ghost predicate Valid()
      reads this, index, children
    {
      && index.Length == 256 && children.Length == 48
      && index as object != children as object
      && SlotsHold(index[..], children[..], num, slots, m)
    }

    constructor ()
      ensures Valid() && m == map[] && num == 0 && slots == []
      ensures fresh(index) && fresh(children)
    {
      index := new nat[256](_ => NODE48_EMPTY);
      children := new Option<C>[48](_ => None);
      num := 0;
      m := map[];
      slots := [];
    }

    method FindChild(b: Octet) returns (c: Option<C>)
      requires Valid()
      ensures c == if b in m then Some(m[b]) else None
    {
      var idx: nat := index[b];
      assert index[..][b] == idx;
      if idx == NODE48_EMPTY {
        c := None;
      } else {
        c := children[idx];
        assert children[..][idx] == c;
      }
    }

    method Append(b: Octet, c: C)
      requires Valid() && num < 48 && b !in m
      modifies this, index, children
      ensures Valid() && m == old(m)[b := c]
    {
      NewSlotHolds(index[..], children[..], num, slots, m, b, c);
      index[b] := num;
      children[num] := Some(c);
      assert index[..] == old(index[..])[b := num] && children[..] == old(children[..])[num := Some(c)];
      num := num + 1;
      m := m[b := c];
      slots := slots + [b];
    }

    method Replace(b: Octet, c: C)
      requires Valid() && b in m
      modifies this, children
      ensures Valid() && m == old(m)[b := c]
    {
      var idx: nat := index[b];
      assert index[..][b] == idx;
      children[idx] := Some(c);
      assert children[..] == old(children[..])[idx := Some(c)];
      m := m[b := c];
      assert m.Keys == old(m).Keys;
      assert |m.Keys| == |old(m).Keys|;
    }

    /** Frees the slot of `b` and moves the last used slot into it. */
    method CompactRemove(b: Octet)
      requires Valid()
      modifies this, index, children
      ensures Valid() && m == old(m) - {b}
    {
      hide SlotsHold;
      ghost var ix: seq<nat>, cs := index[..], children[..];
      SlotOf(ix, cs, num, slots, m, b);
      var idx: nat := index[b];
      if idx == NODE48_EMPTY {
        assert m == m - {b};
        return;
      }
      LastSlot(ix, cs, num, slots, m, idx);
      CompactionHolds(ix, cs, num, slots, m, idx);
      children[idx] := None;
      index[b] := NODE48_EMPTY;
      num := num - 1;
      var lastUsed: nat := num;
      if idx != lastUsed {
        var i := FindSlot(lastUsed);
        index[i] := idx;
        children[idx] := children[lastUsed];
        children[lastUsed] := None;
        assert index[..] == ix[b := NODE48_EMPTY][slots[lastUsed] := idx];
      } else {
        assert index[..] == ix[b := NODE48_EMPTY];
      }
      assert children[..] == cs[idx := cs[lastUsed]][lastUsed := None];
      m := m - {b};
      slots := slots[idx := slots[lastUsed]][..lastUsed];
    }

    /** The byte whose index entry is slot `s`. */
    method FindSlot(s: nat) returns (i: Octet)
      requires index.Length == 256
      requires s < |slots| && index[slots[s]] == s
      requires forall b: Octet :: index[b] == s ==> b == slots[s]
      ensures i == slots[s]
    {
      var k := 0;
      while k < 256 && index[k] != s
        invariant k <= slots[s]
      {
        k := k + 1;
      }
      i := k;
    }

    method ToNode256() returns (r: Node256<C>)
      requires Valid()
      ensures r.Valid() && r.m == m
      ensures fresh(r) && fresh(r.children)
    {
      r := new Node256<C>();
      UpToEnds(m);
      var i := 0;
      while i < 256
        invariant i <= 256
        invariant r.Valid() && r.m == UpTo(m, i)
        modifies r, r.children
      {
        UpToNext(m, i);
        var c := FindChild(i);
        if c.Some? {
          r.Put(i, c.value);
        }
        i := i + 1;
      }
    }

    method ToNode16() returns (r: KeyNode<C>)
      requires Valid() && num <= 16
      ensures r.Valid() && r.m == m && r.capacity == 16
      ensures fresh(r) && fresh(r.keys) && fresh(r.children)
    {
      r := new KeyNode<C>(16);
      UpToEnds(m);
      var i := 0;
      while i < 256
        invariant i <= 256
        invariant r.Valid() && r.m == UpTo(m, i)
        modifies r, r.keys, r.children
      {
        UpToNext(m, i);
        var c := FindChild(i);
        if c.Some? {
          r.Append(i, c.value);
        }
        i := i + 1;
      }
    }
  }

  // ---- Node256: a byte-indexed table of children with a byte-wide counter ----

  ghost predicate TableHolds<C>(cs: seq<Option<C>>, m: map<Octet, C>) {
    |cs| == 256 && forall b: Octet :: cs[b] == if b in m then Some(m[b]) else None
  }

  class Node256<C> {
    const children: array<Option<C>>
    var num: nat
    ghost var m: map<Octet, C>

    ghost predicate Valid()
      reads this, children
    {
      && TableHolds(children[..], m)
      && num == |m| % 256
    }

    constructor ()
      ensures Valid() && m == map[] && num == 0
      ensures fresh(children)
    {
      children := new Option<C>[256](_ => None);
      num := 0;
      m := map[];
    }

    method FindChild(b: Octet) returns (c: Option<C>)
      requires Valid()
      ensures c == if b in m then Some(m[b]) else None
    {
      c := children[b];
      assert children[..][b] == c;
    }

    /** Stores a child; the counter moves only when the byte was free, and wraps at 256. */
    method Put(b: Octet, c: C)
      requires Valid()
      modifies this, children
      ensures Valid() && m == old(m)[b := c]
    {
      assert children[..][b] == children[b];
      if children[b].None? {
        num := (num + 1) % 256;
      } else {
        assert m[b := c].Keys == m.Keys;
        assert |m[b := c].Keys| == |m.Keys|;
      }
      children[b] := Some(c);
      assert children[..] == old(children[..])[b := Some(c)];
      m := m[b := c];
    }

    method Clear(b: Octet)
      requires Valid() && b in m
      modifies this, children
      ensures Valid() && m == old(m) - {b}
    {
      children[b] := None;
      assert children[..] == old(children[..])[b := None];
      num := (num + 255) % 256;
      m := m - {b};
      assert |m| == |old(m)| - 1;
    }

    method ToNode48() returns (r: Node48<C>)
      requires Valid() && |m| <= 48
      ensures r.Valid() && r.m == m
      ensures fresh(r) && fresh(r.index) && fresh(r.children)
    {
      r := new Node48<C>();
      UpToEnds(m);
      var i := 0;
      while i < 256
        invariant i <= 256
        invariant r.Valid() && r.m == UpTo(m, i)
        modifies r, r.index, r.children
      {
        UpToNext(m, i);
        var c := FindChild(i);
        if c.Some? {
          r.Append(i, c.value);
        }
        i := i + 1;
      }
    }
  }

  // ---- The node interface: one of the four layouts ----

  datatype Node<C> = N4(k: KeyNode<C>) | N16(k: KeyNode<C>) | N48(x: Node48<C>) | N256(d: Node256<C>)

  ghost function Children<C>(n: Node<C>): (m: map<Octet, C>)
    reads if n.N48? then {n.x} else if n.N256? then {n.d} else {n.k}
  {
    match n
    case N4(k) => k.m
    case N16(k) => k.m
    case N48(x) => x.m
    case N256(d) => d.m
  }

  /** How many children the layout has room for. */
  function Room<C>(n: Node<C>): (k: nat) {
    match n
    case N4(_) => 4
    case N16(_) => 16
    case N48(_) => 48
    case N256(_) => 256
  }

  function Footprint<C>(n: Node<C>): (s: set<object>) {
    match n
    case N4(k) => {k, k.keys, k.children}
    case N16(k) => {k, k.keys, k.children}
    case N48(x) => {x, x.index, x.children}
    case N256(d) => {d, d.children}
  }

  /** A sound layout whose occupancy is in the range that layout is for. */
  ghost predicate ValidNode<C>(n: Node<C>)
    reads Footprint(n)
  {
    match n
    case N4(k) => k.Valid() && k.capacity == 4
    case N16(k) => k.Valid() && k.capacity == 16 && 4 <= k.num
    case N48(x) => x.Valid() && 17 <= x.num
    case N256(d) => d.Valid() && 49 <= |d.m|
  }

  /** The counter test that decides whether a node is dropped. */
  predicate IsEmpty<C>(n: Node<C>)
    reads Footprint(n)
  {
    match n
    case N4(k) => k.num == 0
    case N16(k) => k.num == 0
    case N48(x) => x.num == 0
    case N256(d) => d.num == 0
  }

  /** The byte-wide counter makes a node with all 256 children look empty, and no other. */
  lemma EmptyTest<C>(n: Node<C>)
    requires ValidNode(n)
    ensures IsEmpty(n) <==> |Children(n)| == 0 || |Children(n)| == 256
  {
    if n.N256? {
      AtMost256(n.d.m);
    }
  }

  ghost function Range(n: nat): (s: set<int>)
    ensures |s| == n
    ensures forall b :: b in s <==> 0 <= b < n
  {
    if n == 0 then {} else Range(n - 1) + {n - 1}
  }

  lemma AtMost256<C>(m: map<Octet, C>)
    ensures |m| <= 256
  {
    SubsetSize(m.Keys, Range(256));
    assert |m.Keys| == |m|;
  }

  method FindChild<C>(n: Node<C>, b: Octet) returns (c: Option<C>)
    requires ValidNode(n)
    ensures c == if b in Children(n) then Some(Children(n)[b]) else None
  {
    match n {
      case N4(k) => c := k.FindChild(b);
      case N16(k) => c := k.FindChild(b);
      case N48(x) => c := x.FindChild(b);
      case N256(d) => c := d.FindChild(b);
    }
  }

  /** Adds an absent byte; a full layout first grows to the next one. */
  method AddChild<C>(n: Node<C>, b: Octet, c: C) returns (r: Node<C>)
    requires ValidNode(n) && b !in Children(n)
    modifies Footprint(n)
    ensures ValidNode(r) && fresh(Footprint(r) - Footprint(n))
    ensures Children(r) == old(Children(n))[b := c]
    ensures Room(r) ==
      if |old(Children(n))| < Room(n) then Room(n)
      else if Room(n) == 4 then 16 else if Room(n) == 16 then 48 else 256
  {
    hide KeysHold, SlotsHold, TableHolds;
    match n {
      case N4(k) =>
        KeysSize(k);
        if k.num >= 4 {
          var grown := k.Resized(16);
          KeysSize(grown);
          grown.Append(b, c);
          KeysSize(grown);
          r := N16(grown);
        } else {
          k.Append(b, c);
          r := n;
        }
      case N16(k) =>
        KeysSize(k);
        if k.num >= 16 {
          var grown := k.ToNode48();
          SlotsSize(grown);
          grown.Append(b, c);
          SlotsSize(grown);
          r := N48(grown);
        } else {
          k.Append(b, c);
          KeysSize(k);
          r := n;
        }
      case N48(x) =>
        SlotsSize(x);
        if x.num >= 48 {
          var grown := x.ToNode256();
          grown.Put(b, c);
          r := N256(grown);
        } else {
          x.Append(b, c);
          SlotsSize(x);
          r := n;
        }
      case N256(d) =>
        d.Put(b, c);
        r := n;
    }
  }

  /** Removes a byte; a layout that falls below its range shrinks to the previous one.
      The 256-way counter has wrapped at most once, so its test is exact. */
  method RemoveChild<C>(n: Node<C>, b: Octet) returns (r: Node<C>)
    requires ValidNode(n)
    modifies Footprint(n)
    ensures ValidNode(r) && fresh(Footprint(r) - Footprint(n))
    ensures Children(r) == old(Children(n)) - {b}
    ensures Room(r) ==
      if Room(n) == 256 && |Children(r)| < 49 then 48
      else if Room(n) == 48 && |Children(r)| < 17 then 16
      else if Room(n) == 16 && |Children(r)| < 4 then 4
      else Room(n)
  {
    hide KeysHold, SlotsHold, TableHolds;
    match n {
      case N4(k) =>
        var _ := k.SwapRemove(b);
        r := n;
      case N16(k) =>
        KeysSize(k);
        var found := k.SwapRemove(b);
        KeysSize(k);
        if found && k.num < 4 {
          var shrunk := k.Resized(4);
          r := N4(shrunk);
        } else {
          r := n;
        }
      case N48(x) =>
        SlotsSize(x);
        x.CompactRemove(b);
        SlotsSize(x);
        if x.num < 17 {
          var shrunk := x.ToNode16();
          KeysSize(shrunk);
          r := N16(shrunk);
        } else {
          r := n;
        }
      case N256(d) =>
        r := Remove256(d, b);
    }
  }

  method Remove256<C>(d: Node256<C>, b: Octet) returns (r: Node<C>)
    requires ValidNode(N256(d))
    modifies d, d.children
    ensures ValidNode(r) && fresh(Footprint(r) - {d, d.children})
    ensures Children(r) == old(d.m) - {b}
    ensures Room(r) == if |Children(r)| < 49 then 48 else 256
  {
    hide SlotsHold, TableHolds;
    r := N256(d);
    AtMost256(d.m);
    var c := d.FindChild(b);
    if c.Some? {
      d.Clear(b);
      assert |d.m| == |old(d.m)| - 1;
      if d.num < 49 {
        var shrunk := d.ToNode48();
        SlotsSize(shrunk);
        r := N48(shrunk);
      }
    } else {
      assert d.m - {b} == d.m;
    }
  }

  lemma KeysSize<C>(k: KeyNode<C>)
    requires k.Valid()
    ensures |k.m| == k.num <= k.capacity
  {
  }

  lemma SlotsSize<C>(x: Node48<C>)
    requires x.Valid()
    ensures |x.m| == x.num <= 48
  {
  }

  /** Redirects the child of a byte that is present. */
  method UpdateChild<C>(n: Node<C>, b: Octet, c: C)
    requires ValidNode(n) && b in Children(n)
    modifies Footprint(n)
    ensures ValidNode(n)
    ensures Children(n) == old(Children(n))[b := c]
  {
    hide KeysHold, SlotsHold, TableHolds;
    match n {
      case N4(k) => k.Replace(b, c);
      case N16(k) =>
        KeysSize(k);
        assert k.m[b := c].Keys == k.m.Keys;
        k.Replace(b, c);
        KeysSize(k);
      case N48(x) =>
        SlotsSize(x);
        x.Replace(b, c);
        SlotsSize(x);
      case N256(d) =>
        ghost var before := d.m;
        d.Put(b, c);
        assert d.m.Keys == before.Keys && |d.m| == |d.m.Keys| && |before| == |before.Keys|;
    }
  }
}
