/** The compressed tree as linked, mutable nodes with packed edges. */
module PatriciaTree {
  import opened Lpm
  import opened Bytes
  import Spec = PatriciaSpec

  /** A packed bit string: `len` bits, left-aligned in `bytes`. */
  datatype Edge = Edge(bytes: seq<Byte>, len: nat)

  function Unpack(e: Edge): (r: Bits)
    ensures |r| == e.len
  {
    Slice(e.bytes, 0, e.len)
  }

  class Node<M> {
    var edge: Edge
    var meta: Option<M>
    var left: Node?<M>
    var right: Node?<M>
    ghost var model: Spec.Tree<M>
    ghost var Repr: set<object>

    ghost predicate Valid()
      reads this, Repr
      decreases Repr
      ensures Valid() ==> this in Repr && model.Node?
    {
      && this in Repr
      && (left != null ==>
            left in Repr && left.Repr <= Repr && this !in left.Repr && left.Valid())
      && (right != null ==>
            right in Repr && right.Repr <= Repr && this !in right.Repr && right.Valid())
      && (left != null && right != null ==> left.Repr !! right.Repr)
      && model == Spec.Node(Unpack(edge), meta, ModelOf(left), ModelOf(right))
    }

    static ghost function ModelOf(n: Node?<M>): (t: Spec.Tree<M>)
      reads n
    {
      if n == null then Spec.Nil else n.model
    }

    constructor ()
      ensures Valid() && fresh(Repr) && Repr == {this}
      ensures model == Spec.BlankRoot()
    {
      edge, meta, left, right := Edge([], 0), None, null, null;
      model := Spec.BlankRoot();
      Repr := {this};
    }

    constructor Inner(e: Edge, m: Option<M>, l: Node?<M>, r: Node?<M>)
      requires l != null ==> l.Valid()
      requires r != null ==> r.Valid()
      requires l != null && r != null ==> l.Repr !! r.Repr
      ensures Valid() && Repr == {this} + ReprOf(l) + ReprOf(r)
      ensures model == Spec.Node(Unpack(e), m, ModelOf(l), ModelOf(r))
    {
      hide Unpack;
      edge, meta, left, right := e, m, l, r;
      model := Spec.Node(Unpack(e), m, ModelOf(l), ModelOf(r));
      Repr := {this} + ReprOf(l) + ReprOf(r);
    }

    method SetFields(e: Edge, m: Option<M>, l: Node?<M>, r: Node?<M>)
      requires l != null ==> l.Valid() && this !in l.Repr
      requires r != null ==> r.Valid() && this !in r.Repr
      requires l != null && r != null ==> l.Repr !! r.Repr
      modifies this
      ensures Valid() && Repr == {this} + ReprOf(l) + ReprOf(r)
      ensures model == Spec.Node(Unpack(e), m, ModelOf(l), ModelOf(r))
    {
      hide Unpack;
      edge, meta, left, right := e, m, l, r;
      model := Spec.Node(Unpack(e), m, ModelOf(l), ModelOf(r));
      Repr := {this} + ReprOf(l) + ReprOf(r);
    }

    static ghost function ReprOf(n: Node?<M>): (s: set<object>)
      reads n
    {
      if n == null then {} else n.Repr
    }

    constructor Leaf(e: Edge, m: M)
      ensures Valid() && fresh(Repr) && Repr == {this}
      ensures model == Spec.LeafNode(Unpack(e), m)
    {
      edge, meta, left, right := e, Some(m), null, null;
      model := Spec.LeafNode(Unpack(e), m);
      Repr := {this};
    }
  }

  class CompressedTree<M> {
    var root: Node<M>

    ghost predicate Valid()
      reads this, root, root.Repr
    {
      this !in root.Repr && root.Valid()
    }

    /** The finite map the tree stores. */
    ghost function Contents(): (m: map<Bits, M>)
      requires Valid()
      reads this, root, root.Repr
    {
      Spec.Contents(root.model)
    }

    constructor ()
      ensures Valid() && fresh(root.Repr) && Contents() == map[]
    {
      root := new Node();
      new;
      assert Spec.Contents(Spec.BlankRoot<M>()) == map[];
    }

    static method Pack(key: seq<Byte>, start: nat, len: nat) returns (e: Edge)
      ensures e.len == len && Unpack(e) == Slice(key, start, len)
    {
      var bytes := ExtractBits(key, start, len);
      e := Edge(bytes, len);
    }

    static method Shared(e: Edge, key: seq<Byte>, depth: nat, len: nat) returns (n: nat)
      ensures n == CommonLen(Unpack(e), Slice(key, depth, len))
    {
      n := CommonPrefixLenOffset(e.bytes, 0, e.len, key, depth, len);
    }

    /** Moves the contents of `n` below bit `s` of its edge, in place. */
    static method SplitNode(n: Node<M>, s: nat)
      requires n.Valid() && s < n.edge.len
      modifies n
      ensures n.Valid() && fresh(n.Repr - old(n.Repr))
      ensures n.model == Spec.Split(old(n.model), s)
    {
      hide Slice, Unpack, GetBit;
      var e := n.edge;
      EdgeCut(e, s);
      var below := Pack(e.bytes, s + 1, e.len - s - 1);
      var above := Pack(e.bytes, 0, s);
      Relink(n, s, above, below, GetBit(e.bytes, s));
    }

    static method Relink(n: Node<M>, ghost s: nat, above: Edge, below: Edge, pivot: bool)
      requires n.Valid() && s < |n.model.edge|
      requires Unpack(above) == n.model.edge[..s] && Unpack(below) == n.model.edge[s + 1..] && pivot == n.model.edge[s]
      modifies n
      ensures n.Valid() && fresh(n.Repr - old(n.Repr))
      ensures n.model == Spec.Split(old(n.model), s)
    {
      hide Unpack;
      var child := new Node<M>.Inner(below, n.meta, n.left, n.right);
      if pivot {
        n.SetFields(above, None, null, child);
      } else {
        n.SetFields(above, None, child, null);
      }
    }

    static lemma EdgeCut(e: Edge, s: nat)
      requires s < e.len
      ensures Unpack(e)[..s] == Slice(e.bytes, 0, s)
      ensures Unpack(e)[s] == GetBit(e.bytes, s)
      ensures Unpack(e)[s + 1..] == Slice(e.bytes, s + 1, e.len - s - 1)
    {
    }

    static method AttachLeaf(n: Node<M>, bit: bool, leaf: Node<M>)
      requires n.Valid() && leaf.Valid() && leaf.Repr == {leaf} && leaf !in n.Repr
      requires (if bit then n.right else n.left) == null
      modifies n
      ensures n.Valid() && n.Repr == old(n.Repr) + {leaf}
      ensures n.model == Spec.WithChild(old(n.model), bit, leaf.model)
    {
      hide Unpack;
      if bit {
        n.right := leaf;
      } else {
        n.left := leaf;
      }
      n.Repr := n.Repr + {leaf};
      n.model := Spec.WithChild(n.model, bit, leaf.model);
    }

    /** Hangs the rest of the key, from `start` on, below `n` as one edge. */
    static method NewLeaf(n: Node<M>, key: seq<Byte>, keyLen: nat, start: nat, m: M, bit: bool)
      requires n.Valid() && start <= keyLen && (if bit then n.right else n.left) == null
      modifies n
      ensures n.Valid() && fresh(n.Repr - old(n.Repr))
      ensures n.model == Spec.WithChild(old(n.model), bit, Spec.LeafNode(Slice(key, start, keyLen - start), m))
    {
      hide Slice, Unpack;
      var e := Pack(key, start, keyLen - start);
      var newLeaf := new Node<M>.Leaf(e, m);
      AttachLeaf(n, bit, newLeaf);
    }

    static method InsertNode(n: Node<M>, key: seq<Byte>, keyLen: nat, depth: nat, m: M) returns (isNew: bool)
      requires n.Valid() && depth <= keyLen
      modifies n.Repr
      ensures n.Valid() && fresh(n.Repr - old(n.Repr))
      ensures n.model == Spec.Insert(old(n.model), Slice(key, depth, keyLen - depth), m)
      ensures isNew == Spec.Get(old(n.model), Slice(key, depth, keyLen - depth)).None?
      decreases n.model
    {
      hide Slice, Unpack, GetBit, CommonLen, Spec.Get, Spec.Insert;
      var remaining := keyLen - depth;
      ghost var bits := Slice(key, depth, remaining);
      ghost var before := n.model;
      InsertStep(before, bits, m);
      GetStep(before, bits);

      if n.edge.len == 0 && n.meta.None? && n.left == null && n.right == null {
        var e := Pack(key, depth, remaining);
        n.edge, n.meta := e, Some(m);
        n.model := Spec.LeafNode(bits, m);
        if bits != [] { GetNil<M>(bits[1..]); }
        return true;
      }

      var shared := Shared(n.edge, key, depth, remaining);
      if shared == n.edge.len && shared == remaining {
        isNew := n.meta.None?;
        n.meta := Some(m);
        n.model := n.model.(meta := Some(m));
        return;
      }

      if shared < n.edge.len {
        InsertSplit(n, key, keyLen, depth, m, shared);
        return true;
      }
      isNew := Descend(n, key, keyLen, depth, m, shared);
    }

    /** The branch that splits: the new entry ends at the split, or leaves it on the other side. */
    static method InsertSplit(n: Node<M>, key: seq<Byte>, keyLen: nat, depth: nat, m: M, shared: nat)
      requires n.Valid() && depth <= keyLen
      requires shared == CommonLen(n.model.edge, Slice(key, depth, keyLen - depth)) < n.edge.len
      requires !Spec.IsBlank(n.model)
      modifies n.Repr
      ensures n.Valid() && fresh(n.Repr - old(n.Repr))
      ensures n.model == Spec.Insert(old(n.model), Slice(key, depth, keyLen - depth), m)
    {
      hide Slice, Unpack, GetBit, CommonLen, Spec.Insert;
      ghost var before := n.model;
      var remaining := keyLen - depth;
      ghost var bits := Slice(key, depth, remaining);
      InsertStep(before, bits, m);
      SplitNode(n, shared);
      if shared == remaining {
        n.meta := Some(m);
        n.model := n.model.(meta := Some(m));
        return;
      }
      SliceStep(key, depth, remaining, shared);
      NewLeaf(n, key, keyLen, depth + shared + 1, m, GetBit(key, depth + shared));
    }

    /** The branch that consumes the whole edge and goes on below it. */
    static method Descend(n: Node<M>, key: seq<Byte>, keyLen: nat, depth: nat, m: M, shared: nat) returns (isNew: bool)
      requires n.Valid() && depth <= keyLen
      requires shared == CommonLen(n.model.edge, Slice(key, depth, keyLen - depth)) == n.edge.len
      requires shared < keyLen - depth && !Spec.IsBlank(n.model)
      modifies n.Repr
      ensures n.Valid() && fresh(n.Repr - old(n.Repr))
      ensures n.model == Spec.Insert(old(n.model), Slice(key, depth, keyLen - depth), m)
      ensures isNew == Spec.Get(old(n.model), Slice(key, depth, keyLen - depth)).None?
      decreases n.model, 1
    {
      hide Slice, Unpack, GetBit, CommonLen, Spec.Get, Spec.Insert;
      var remaining := keyLen - depth;
      ghost var bits := Slice(key, depth, remaining);
      InsertStep(n.model, bits, m);
      GetStep(n.model, bits);
      SliceStep(key, depth, remaining, shared);
      GetNil<M>(bits[shared + 1..]);
      var nextBit := GetBit(key, depth + shared);
      if (if nextBit then n.right else n.left) == null {
        NewLeaf(n, key, keyLen, depth + shared + 1, m, nextBit);
        return true;
      }
      isNew := InsertBelow(n, key, keyLen, depth + shared + 1, m, nextBit);
    }

    /** Goes on in the child on one side. */
    static method InsertBelow(n: Node<M>, key: seq<Byte>, keyLen: nat, depth: nat, m: M, side: bool)
        returns (isNew: bool)
      requires n.Valid() && depth <= keyLen && (if side then n.right else n.left) != null
      modifies n.Repr
      ensures n.Valid() && fresh(n.Repr - old(n.Repr))
      ensures var t, bits := old(n.model), Slice(key, depth, keyLen - depth);
        && isNew == Spec.Get(if side then t.right else t.left, bits).None?
        && n.model == if side then t.(right := Spec.Insert(t.right, bits, m))
                      else t.(left := Spec.Insert(t.left, bits, m))
      decreases n.model, 0
    {
      hide Slice, Unpack, GetBit, CommonLen, Spec.Get, Spec.Insert;
      if side {
        isNew := InsertNode(n.right, key, keyLen, depth, m);
        n.Repr := n.Repr + n.right.Repr;
        n.model := n.model.(right := n.right.model);
      } else {
        isNew := InsertNode(n.left, key, keyLen, depth, m);
        n.Repr := n.Repr + n.left.Repr;
        n.model := n.model.(left := n.left.model);
      }
    }

    static method LookupNode(n: Node?<M>, key: seq<Byte>, depth: nat) returns (best: Option<M>)
      requires n != null ==> n.Valid()
      requires depth <= |key| * 8
      ensures best == Spec.Lookup(Node.ModelOf(n), Slice(key, depth, |key| * 8 - depth))
      decreases Node.ModelOf(n)
    {
      hide Slice, Unpack, GetBit, CommonLen, Spec.Lookup;
      var remaining := |key| * 8 - depth;
      LookupNil<M>(Slice(key, depth, remaining));
      if n == null {
        return None;
      }
      LookupStep(n.model, Slice(key, depth, remaining));
      var shared := Shared(n.edge, key, depth, remaining);
      if shared < n.edge.len {
        return None;
      }
      best := n.meta;
      var newDepth := depth + shared;
      if newDepth < |key| * 8 {
        SliceStep(key, depth, remaining, shared);
        LookupNil<M>(Slice(key, newDepth + 1, remaining - shared - 1));
        var nextChild := if GetBit(key, newDepth) then n.right else n.left;
        if nextChild != null {
          var deeper := LookupNode(nextChild, key, newDepth + 1);
          if deeper.Some? {
            best := deeper;
          }
        }
      }
    }

    static method RemoveNode(n: Node?<M>, key: seq<Byte>, keyLen: nat, depth: nat) returns (removed: Option<M>)
      requires n != null ==> n.Valid()
      requires depth <= keyLen
      modifies if n == null then {} else n.Repr
      ensures n != null ==> n.Valid() && n.Repr == old(n.Repr)
      ensures Node.ModelOf(n) == Spec.Remove(old(Node.ModelOf(n)), Slice(key, depth, keyLen - depth))
      ensures removed == Spec.Get(old(Node.ModelOf(n)), Slice(key, depth, keyLen - depth))
      decreases Node.ModelOf(n)
    {
      hide Slice, Unpack, GetBit, CommonLen, Spec.Get, Spec.Remove;
      if n == null {
        RemoveNil<M>(Slice(key, depth, keyLen - depth));
        GetNil<M>(Slice(key, depth, keyLen - depth));
        return None;
      }
      var remaining := keyLen - depth;
      ghost var bits := Slice(key, depth, remaining);
      GetStep(n.model, bits);
      RemoveStep(n.model, bits);
      var shared := Shared(n.edge, key, depth, remaining);
      if shared < n.edge.len {
        return None;
      }
      if shared == remaining {
        removed := n.meta;
        n.meta := None;
        n.model := n.model.(meta := None);
        return;
      }
      SliceStep(key, depth, remaining, shared);
      var nextBit := GetBit(key, depth + shared);
      if nextBit {
        removed := RemoveNode(n.right, key, keyLen, depth + shared + 1);
      } else {
        removed := RemoveNode(n.left, key, keyLen, depth + shared + 1);
      }
      n.model := Spec.Node(n.model.edge, n.model.meta, Node.ModelOf(n.left), Node.ModelOf(n.right));
    }

    static method ContainsNode(n: Node?<M>, key: seq<Byte>, keyLen: nat, depth: nat) returns (found: bool)
      requires n != null ==> n.Valid()
      requires depth <= keyLen
      ensures found == Spec.Get(Node.ModelOf(n), Slice(key, depth, keyLen - depth)).Some?
      decreases Node.ModelOf(n)
    {
      hide Slice, Unpack, GetBit, CommonLen, Spec.Get;
      GetNil<M>(Slice(key, depth, keyLen - depth));
      if n == null {
        return false;
      }
      var remaining := keyLen - depth;
      GetStep(n.model, Slice(key, depth, remaining));
      var shared := Shared(n.edge, key, depth, remaining);
      if shared < n.edge.len {
        return false;
      }
      if shared == remaining {
        return n.meta.Some?;
      }
      SliceStep(key, depth, remaining, shared);
      var child := if GetBit(key, depth + shared) then n.right else n.left;
      found := ContainsNode(child, key, keyLen, depth + shared + 1);
    }

    /** Insert is map update on the first `ones` bits of `key`. */
    method Insert(key: seq<Byte>, ones: nat, m: M) returns (isNew: bool)
      requires Valid()
      modifies root.Repr
      ensures Valid() && root == old(root) && fresh(root.Repr - old(root.Repr))
      ensures Contents() == old(Contents())[Slice(key, 0, ones) := m]
      ensures isNew <==> Slice(key, 0, ones) !in old(Contents())
    {
      Spec.InsertIsUpdate(root.model, Slice(key, 0, ones), m);
      isNew := InsertNode(root, key, ones, 0, m);
    }

    /** Lookup is longest-prefix match over the whole address. */
    method Lookup(key: seq<Byte>) returns (best: Option<M>)
      requires Valid()
      ensures best == Longest(Contents(), Slice(key, 0, |key| * 8))
    {
      hide Slice, Unpack, Spec.Lookup, Spec.Contents;
      best := LookupNode(root, key, 0);
      Spec.LookupIsLongest(root.model, Slice(key, 0, |key| * 8));
    }

    /** Remove deletes exactly one key and answers what it held. */
    method Remove(key: seq<Byte>, ones: nat) returns (removed: Option<M>)
      requires Valid()
      modifies root.Repr
      ensures Valid() && root == old(root) && root.Repr == old(root.Repr)
      ensures Contents() == old(Contents()) - {Slice(key, 0, ones)}
      ensures removed ==
        if Slice(key, 0, ones) in old(Contents()) then Some(old(Contents())[Slice(key, 0, ones)]) else None
    {
      Spec.RemoveIsDeletion(root.model, Slice(key, 0, ones));
      removed := RemoveNode(root, key, ones, 0);
    }

    method Contains(key: seq<Byte>, ones: nat) returns (found: bool)
      requires Valid()
      ensures found <==> Slice(key, 0, ones) in Contents()
    {
      found := ContainsNode(root, key, ones, 0);
    }

    method Clear()
      requires Valid()
      modifies this
      ensures Valid() && fresh(root.Repr) && Contents() == map[]
    {
      root := new Node();
      assert Spec.Contents(Spec.BlankRoot<M>()) == map[];
    }
  }

  /** An insert and then a lookup, by the values of the addresses: the address sees the new entry exactly
      when it has the network's number above the host bits and no longer stored prefix covers it. */
  method InsertThenLookup<M>(t: CompressedTree<M>, net: seq<Byte>, len: nat, m: M, addr: seq<Byte>)
      returns (best: Option<M>)
    requires t.Valid() && len <= 8 * |net|
    modifies t.root.Repr
    ensures t.Valid()
    ensures best ==
      if && len <= 8 * |addr|
         && BigEndian(net) / Pow2(8 * |net| - len) == BigEndian(addr) / Pow2(8 * |addr| - len)
         && forall k :: len < k <= 8 * |addr| ==> Slice(addr, 0, k) !in old(t.Contents())
      then Some(m) else Longest(old(t.Contents()), Slice(addr, 0, 8 * |addr|))
  {
    hide Slice, BigEndian, Pow2;
    ghost var before, bits := t.Contents(), Slice(addr, 0, 8 * |addr|);
    var _ := t.Insert(net, len, m);
    best := t.Lookup(addr);
    UpdateShows(before, Slice(net, 0, len), m, bits);
    if len <= 8 * |addr| { MembershipByValue(net, len, addr); }
    forall k | 0 <= k <= 8 * |addr| ensures bits[..k] == Slice(addr, 0, k) { SliceTake(addr, k); }
  }

  lemma SliceTake(b: seq<Byte>, k: nat)
    requires k <= 8 * |b|
    ensures Slice(b, 0, 8 * |b|)[..k] == Slice(b, 0, k)
  {
  }

  // ---- One level of each recursion, on values ----

  lemma SliceStep(b: seq<Byte>, start: nat, len: nat, s: nat)
    requires s < len
    ensures Slice(b, start, len)[s] == GetBit(b, start + s)
    ensures Slice(b, start, len)[s + 1..] == Slice(b, start + s + 1, len - s - 1)
  {
  }

  lemma GetNil<M>(key: Bits)
    ensures Spec.Get<M>(Spec.Nil, key).None?
  {
  }

  lemma GetStep<M>(t: Spec.Tree<M>, key: Bits)
    requires t.Node?
    ensures var s := CommonLen(t.edge, key);
      Spec.Get(t, key) ==
        if s < |t.edge| then None else if s == |key| then t.meta
        else Spec.Get(Spec.Child(t, key[s]), key[s + 1..])
  {
  }

  lemma LookupNil<M>(addr: Bits)
    ensures Spec.Lookup<M>(Spec.Nil, addr).None?
  {
  }

  lemma LookupStep<M>(t: Spec.Tree<M>, addr: Bits)
    requires t.Node?
    ensures var s := CommonLen(t.edge, addr);
      Spec.Lookup(t, addr) ==
        if s < |t.edge| then None else if s == |addr| then t.meta
        else
          var deeper := Spec.Lookup(Spec.Child(t, addr[s]), addr[s + 1..]);
          if deeper.Some? then deeper else t.meta
  {
  }

  lemma RemoveNil<M>(key: Bits)
    ensures Spec.Remove<M>(Spec.Nil, key) == Spec.Nil
  {
  }

  lemma RemoveStep<M>(t: Spec.Tree<M>, key: Bits)
    requires t.Node?
    ensures var s := CommonLen(t.edge, key);
      Spec.Remove(t, key) ==
        if s < |t.edge| then t else if s == |key| then t.(meta := None)
        else Spec.WithChild(t, key[s], Spec.Remove(Spec.Child(t, key[s]), key[s + 1..]))
  {
  }

  lemma InsertStep<M>(t: Spec.Tree<M>, key: Bits, v: M)
    requires t.Node?
    ensures var s := CommonLen(t.edge, key);
      Spec.Insert(t, key, v) ==
        if Spec.IsBlank(t) then Spec.LeafNode(key, v)
        else if s == |t.edge| && s == |key| then t.(meta := Some(v))
        else if s < |t.edge| then
          if s == |key| then Spec.Split(t, s).(meta := Some(v))
          else Spec.WithChild(Spec.Split(t, s), key[s], Spec.LeafNode(key[s + 1..], v))
        else
          var c := Spec.Child(t, key[s]);
          Spec.WithChild(t, key[s],
            if c.Nil? then Spec.LeafNode(key[s + 1..], v) else Spec.Insert(c, key[s + 1..], v))
  {
  }
}
