/**
 Documents and arrays as they lie in memory: nodes that refer to one another and are updated
 in place. Pointers are explicit, so sharing and identity are part of the model.
 */
module Store {
  import opened Bytes
  import opened Values
  import opened Wrappers

  type Ref = nat

  /** A Go `any`: a pointer to a document or array, or a scalar. */
  datatype Any = Ptr(ref: Ref) | Scalar(value: Value)

  datatype Node =
    | DocNode(keys: seq<bytes>, m: map<bytes, Any>)
    | ArrNode(elems: seq<Any>)

  /** Allocated nodes; every reference below `next` has been handed out. */
  datatype Heap = Heap(nodes: map<Ref, Node>, next: Ref)

  /** One place in a node that holds a value. */
  datatype Slot = Key(key: bytes) | Index(index: nat)

  function At(node: Node, slot: Slot): Option<Any>
  {
    match (node, slot)
    case (DocNode(_, m), Key(k)) => if k in m then Some(m[k]) else None
    case (ArrNode(s), Index(i)) => if i < |s| then Some(s[i]) else None
    case _ => None
  }

  function Child(h: Heap, x: Any, slot: Slot): Option<Any>
  {
    if x.Ptr? && x.ref in h.nodes then At(h.nodes[x.ref], slot) else None
  }

  function Follow(h: Heap, x: Any, slots: seq<Slot>): Option<Any>
    decreases |slots|
  {
    if slots == [] then Some(x)
    else match Child(h, x, slots[0])
      case None => None
      case Some(y) => Follow(h, y, slots[1..])
  }

  // ------------------------------------------------------------- well-formed

  predicate DistinctSeq(ks: seq<bytes>)
  {
    forall i, j :: 0 <= i < j < |ks| ==> ks[i] != ks[j]
  }

  /** The keys slice is distinct and is the domain of the map. */
  ghost predicate KeysAgree(keys: seq<bytes>, m: map<bytes, Any>)
  {
    DistinctSeq(keys) && forall k :: k in keys <==> k in m
  }

  ghost predicate ValidNode(node: Node)
  {
    node.DocNode? ==> KeysAgree(node.keys, node.m) && forall k :: k in node.keys ==> ValidKey(k)
  }

  ghost predicate Valid(h: Heap)
  {
    forall r :: r in h.nodes ==> r < h.next && ValidNode(h.nodes[r])
  }

  predicate Edge(h: Heap, r: Ref, slot: Slot, c: Ref)
  {
    r in h.nodes && At(h.nodes[r], slot) == Some(Ptr(c))
  }

  /** Every node hangs from at most one place, and the root from none. */
  ghost predicate Tree(h: Heap, root: Ref)
  {
    && root in h.nodes
    && (forall r, slot, c :: Edge(h, r, slot, c) ==> c in h.nodes && c != root)
    && (forall r, slot, r', slot', c :: Edge(h, r, slot, c) && Edge(h, r', slot', c) ==> r == r' && slot == slot')
  }

  lemma {:induction false} FollowConcat(h: Heap, x: Any, p: seq<Slot>, q: seq<Slot>)
    ensures Follow(h, x, p + q) ==
      match Follow(h, x, p)
      case None => None
      case Some(y) => Follow(h, y, q)
    decreases |p|
  {
    if p == [] {
      assert p + q == q;
    } else {
      assert (p + q)[0] == p[0] && (p + q)[1..] == p[1..] + q;
      if Child(h, x, p[0]).Some? {
        FollowConcat(h, Child(h, x, p[0]).value, p[1..], q);
      }
    }
  }

  /** In a tree a node is reached in only one way. */
  lemma {:induction false} UniquePath(h: Heap, root: Ref, p: seq<Slot>, q: seq<Slot>, r: Ref)
    requires Tree(h, root)
    requires Follow(h, Ptr(root), p) == Some(Ptr(r)) && Follow(h, Ptr(root), q) == Some(Ptr(r))
    ensures p == q
    decreases |p| + |q|
  {
    if p == [] {
    } else { LastEdge(h, root, p, r); }
    if q != [] { LastEdge(h, root, q, r); }
    if p != [] && q != [] {
      var p', q' := p[..|p| - 1], q[..|q| - 1];
      var x, y := Follow(h, Ptr(root), p').value, Follow(h, Ptr(root), q').value;
      assert Edge(h, x.ref, p[|p| - 1], r) && Edge(h, y.ref, q[|q| - 1], r);
      UniquePath(h, root, p', q', x.ref);
      assert p == p' + [p[|p| - 1]] && q == q' + [q[|q| - 1]];
    }
  }

  lemma LastEdge(h: Heap, root: Ref, p: seq<Slot>, r: Ref)
    requires p != [] && Follow(h, Ptr(root), p) == Some(Ptr(r))
    ensures var x := Follow(h, Ptr(root), p[..|p| - 1]);
            x.Some? && x.value.Ptr? && Edge(h, x.value.ref, p[|p| - 1], r)
  {
    var p', s := p[..|p| - 1], p[|p| - 1];
    assert p == p' + [s];
    FollowConcat(h, Ptr(root), p', [s]);
    assert [s][1..] == [];
  }

  // ---------------------------------------------------------------- updates

  /** `Document.Set` on a valid key. */
  function SetKey(node: Node, key: bytes, v: Any): Node
    requires node.DocNode?
  {
    var keys :=
      if key == ID_KEY then [key] + WithoutFirst(node.keys, key)
      else if key in node.m then node.keys
      else node.keys + [key];
    DocNode(keys, node.m[key := v])
  }

  function WithoutFirst(ks: seq<bytes>, key: bytes): seq<bytes>
  {
    if ks == [] then []
    else if ks[0] == key then ks[1..]
    else [ks[0]] + WithoutFirst(ks[1..], key)
  }

  /** Whether `slot` names a place that a value can be put in. */
  predicate Writable(node: Node, slot: Slot)
  {
    match (node, slot)
    case (DocNode(_, _), Key(k)) => ValidKey(k)
    case (ArrNode(s), Index(i)) => i < |s|
    case _ => false
  }

  function PutNode(node: Node, slot: Slot, v: Any): Node
    requires Writable(node, slot)
  {
    if node.DocNode? then SetKey(node, slot.key, v) else ArrNode(node.elems[slot.index := v])
  }

  function Put(h: Heap, r: Ref, slot: Slot, v: Any): Heap
    requires r in h.nodes && Writable(h.nodes[r], slot)
  {
    h.(nodes := h.nodes[r := PutNode(h.nodes[r], slot, v)])
  }

  lemma PutAt(node: Node, slot: Slot, v: Any, slot': Slot)
    requires Writable(node, slot)
    ensures At(PutNode(node, slot, v), slot') == if slot' == slot then Some(v) else At(node, slot')
  {
  }

  lemma {:induction false} WithoutFirstKeys(ks: seq<bytes>, key: bytes)
    requires DistinctSeq(ks)
    ensures DistinctSeq(WithoutFirst(ks, key))
    ensures forall k :: k in WithoutFirst(ks, key) <==> k in ks && k != key
  {
    if ks == [] {
    } else if ks[0] == key {
      assert ks == [ks[0]] + ks[1..];
    } else {
      WithoutFirstKeys(ks[1..], key);
      assert ks == [ks[0]] + ks[1..];
      var w := WithoutFirst(ks[1..], key);
      assert ks[0] !in w;
      assert forall j :: 0 <= j < |w| ==> w[j] in w;
    }
  }

  /** `Set` keeps the keys slice and the map in agreement. */
  lemma PutValid(node: Node, slot: Slot, v: Any)
    requires ValidNode(node) && Writable(node, slot)
    ensures ValidNode(PutNode(node, slot, v))
  {
    if node.DocNode? {
      var key := slot.key;
      if key == ID_KEY {
        WithoutFirstKeys(node.keys, key);
        DistinctWith(key, WithoutFirst(node.keys, key));
      } else if key !in node.m {
        DistinctWith(key, node.keys);
      }
    }
  }

  lemma DistinctWith(key: bytes, ks: seq<bytes>)
    requires DistinctSeq(ks) && key !in ks
    ensures DistinctSeq([key] + ks) && DistinctSeq(ks + [key])
    ensures forall k :: k in [key] + ks <==> k == key || k in ks
    ensures forall k :: k in ks + [key] <==> k == key || k in ks
  {
  }

  /** A write changes the values reached through the written place and no others. */
  lemma {:induction false} PutFrame(h: Heap, root: Ref, p: seq<Slot>, r: Ref, slot: Slot, v: Any, a: seq<Slot>,
                                    b: seq<Slot>, x: Any)
    requires Tree(h, root) && Follow(h, Ptr(root), p) == Some(Ptr(r))
    requires r in h.nodes && Writable(h.nodes[r], slot)
    requires Follow(h, Ptr(root), a) == Some(x)
    requires !(p + [slot] <= a + b)
    ensures Follow(Put(h, r, slot, v), x, b) == Follow(h, x, b)
    decreases |b|
  {
    if b == [] {
    } else {
      var h' := Put(h, r, slot, v);
      if x == Ptr(r) {
        UniquePath(h, root, p, a, r);
        assert a + b == p + [b[0]] + b[1..];
        PutAt(h.nodes[r], slot, v, b[0]);
      }
      assert Child(h', x, b[0]) == Child(h, x, b[0]);
      if Child(h, x, b[0]).Some? {
        var y := Child(h, x, b[0]).value;
        FollowConcat(h, Ptr(root), a, [b[0]]);
        assert [b[0]][1..] == [];
        assert a + [b[0]] + b[1..] == a + b;
        PutFrame(h, root, p, r, slot, v, a + [b[0]], b[1..], y);
      }
    }
  }

  /** The same from the root, with the written place itself. */
  lemma PutLaws(h: Heap, root: Ref, p: seq<Slot>, r: Ref, slot: Slot, v: Any)
    requires Tree(h, root) && Follow(h, Ptr(root), p) == Some(Ptr(r))
    requires r in h.nodes && Writable(h.nodes[r], slot)
    ensures var h' := Put(h, r, slot, v);
            && Follow(h', Ptr(root), p) == Some(Ptr(r))
            && Follow(h', Ptr(root), p + [slot]) == Some(v)
            && (forall q :: !(p + [slot] <= q) ==> Follow(h', Ptr(root), q) == Follow(h, Ptr(root), q))
  {
    var h' := Put(h, r, slot, v);
    forall q | !(p + [slot] <= q)
      ensures Follow(h', Ptr(root), q) == Follow(h, Ptr(root), q)
    {
      assert [] + q == q;
      PutFrame(h, root, p, r, slot, v, [], q, Ptr(root));
    }
    assert !(p + [slot] <= p);
    FollowConcat(h', Ptr(root), p, [slot]);
    assert [slot][1..] == [];
    PutAt(h.nodes[r], slot, v, slot);
  }

  /** Hanging a node that hangs from nowhere, or a scalar, keeps the tree a tree. */
  lemma PutTree(h: Heap, root: Ref, r: Ref, slot: Slot, v: Any)
    requires Tree(h, root) && r in h.nodes && Writable(h.nodes[r], slot)
    requires v.Ptr? ==> v.ref in h.nodes && v.ref != root && forall r', slot' :: !Edge(h, r', slot', v.ref)
    ensures Tree(Put(h, r, slot, v), root)
  {
    var h' := Put(h, r, slot, v);
    forall r', slot', c | Edge(h', r', slot', c)
      ensures Edge(h, r', slot', c) || (r' == r && slot' == slot && v == Ptr(c))
    {
      if r' == r { PutAt(h.nodes[r], slot, v, slot'); }
    }
  }
}
