/** The order of keys: what `SetByPath` and `RemoveByPath` do to each document in memory. */
module PathOrder {
  import opened Bytes
  import opened Values
  import opened Wrappers
  import opened Store
  import opened Paths
  import opened PathLaws
  import opened PathRemoval

  // ------------------------------------------------------------ one document

  /** `Remove` on the keys slice takes out the first occurrence. */
  lemma {:induction false} WithoutFirstOf(a: seq<bytes>, b: seq<bytes>, key: bytes)
    requires key !in a && b != [] && b[0] == key
    ensures WithoutFirst(a + b, key) == a + b[1..]
  {
    if a == [] {
      assert a + b == b && a + b[1..] == b[1..];
    } else {
      var ks, rest := a + b, a[1..];
      WithoutFirstOf(rest, b, key);
      assert ks[0] == a[0] && ks[0] in a;
      assert ks[1..] == rest + b;
      assert [a[0]] + (rest + b[1..]) == a + b[1..];
    }
  }

  lemma {:induction false} WithoutAbsent(ks: seq<bytes>, key: bytes)
    requires key !in ks
    ensures WithoutFirst(ks, key) == ks
  {
    if ks == [] {
    } else {
      WithoutAbsent(ks[1..], key);
      assert ks == [ks[0]] + ks[1..];
    }
  }

  lemma WithoutFirstIsWithout(fs: Fields, key: bytes)
    ensures WithoutFirst(Keys(fs), key) == Keys(Without(fs, key))
  {
    var i, ks := IndexOf(fs, key), Keys(fs);
    if i < |fs| {
      assert ks == ks[..i] + ks[i..] && ks[i..][1..] == ks[i + 1..];
      WithoutFirstOf(ks[..i], ks[i..], key);
    } else {
      WithoutAbsent(ks, key);
    }
  }

  /** The keys of the new document are those of `Set` on a document with the old keys. */
  ghost predicate KeysSet(node: Node, node': Node, key: bytes)
  {
    && node.DocNode? && node'.DocNode?
    && forall fs: Fields, w: Value :: Keys(fs) == node.keys ==> node'.keys == Keys(SetField(fs, key, w))
  }

  ghost predicate KeysRemoved(node: Node, node': Node, key: bytes)
  {
    && node.DocNode? && node'.DocNode?
    && forall fs: Fields :: Keys(fs) == node.keys ==> node'.keys == Keys(Without(fs, key))
  }

  lemma HasKey(fs: Fields, key: bytes)
    ensures Has(fs, key) <==> key in Keys(fs)
  {
    var i := IndexOf(fs, key);
    assert i < |fs| ==> Keys(fs)[i] == key;
  }

  lemma KeysConcat(a: Fields, b: Fields)
    ensures Keys(a + b) == Keys(a) + Keys(b)
  {
  }

  lemma KeysOfOne(f: Field)
    ensures Keys([f]) == [f.key]
  {
  }

  /** The keys after `Set`, by the three places a key can go. */
  lemma KeysOfSet(fs: Fields, key: bytes, w: Value)
    ensures Keys(SetField(fs, key, w)) ==
              if key == ID_KEY then [key] + Keys(Without(fs, key))
              else if Has(fs, key) then Keys(fs)
              else Keys(fs) + [key]
  {
    var f := Field(key, w);
    KeysOfOne(f);
    if key == ID_KEY {
      KeysConcat([f], Without(fs, key));
    } else if Has(fs, key) {
      assert Keys(fs[IndexOf(fs, key) := f]) == Keys(fs);
    } else {
      KeysConcat(fs, [f]);
    }
  }

  lemma SetKeyKeys(node: Node, fs: Fields, key: bytes, v: Any, w: Value)
    requires node.DocNode? && KeysAgree(node.keys, node.m) && Keys(fs) == node.keys
    ensures SetKey(node, key, v).keys == Keys(SetField(fs, key, w))
  {
    HasKey(fs, key);
    KeysOfSet(fs, key, w);
    WithoutFirstIsWithout(fs, key);
  }

  lemma SetKeyOrder(node: Node, key: bytes, v: Any)
    requires node.DocNode? && ValidNode(node)
    ensures KeysSet(node, SetKey(node, key, v), key)
  {
    forall fs: Fields, w: Value | Keys(fs) == node.keys
      ensures SetKey(node, key, v).keys == Keys(SetField(fs, key, w))
    {
      SetKeyKeys(node, fs, key, v, w);
    }
  }

  lemma RemoveKeyOrder(node: Node, key: bytes)
    requires node.DocNode? && key in node.m
    ensures KeysRemoved(node, RemoveNode(node, Key(key)), key)
  {
    forall fs: Fields | Keys(fs) == node.keys
      ensures WithoutFirst(node.keys, key) == Keys(Without(fs, key))
    {
      WithoutFirstIsWithout(fs, key);
    }
  }

  // -------------------------------------------------------------- new documents

  /** A document with one key, which is an element of the path at `i` or later. */
  ghost predicate Link(node: Node, path: Path, i: nat)
  {
    node.DocNode? && exists j :: i <= j < |path| && node.keys == [path[j]]
  }

  /** All nodes but `r` are as they were. */
  ghost predicate OthersKept(h: Heap, h': Heap, r: Ref)
  {
    forall q :: q in h.nodes && q != r ==> q in h'.nodes && h'.nodes[q] == h.nodes[q]
  }

  /**
   From an empty document at `r`, which the first `i` elements of the path lead to, the loop leaves
   an empty document at `inner`; `r` and all new documents before it have one key each.
   */
  ghost predicate Chain(h: Heap, h': Heap, root: Ref, path: Path, i: nat, r: Ref, inner: Ref)
  {
    && OthersKept(h, h', r) && r in h'.nodes
    && Resolve(h', Ptr(root), path[..|path| - 1]) == Some(Ptr(inner))
    && inner in h'.nodes && h'.nodes[inner] == DocNode([], map[])
    && (inner == r || inner !in h.nodes)
    && forall q :: q in h'.nodes && q != inner && (q == r || q !in h.nodes) ==> Link(h'.nodes[q], path, i)
  }

  lemma OneKey(h: Heap, r: Ref, key: bytes, v: Any)
    requires r in h.nodes && h.nodes[r] == DocNode([], map[]) && ValidKey(key)
    ensures Put(h, r, Key(key), v).nodes[r].keys == [key]
  {
  }

  /** One turn of the loop: a new empty document under the next key of `r`. */
  lemma FirstNew(h: Heap, root: Ref, path: Path, k: nat, r: Ref) returns (mid: Heap)
    requires Valid(h) && Tree(h, root) && k < |path| - 1 && ValidKey(path[k])
    requires r in h.nodes && h.nodes[r].DocNode? && Resolve(h, Ptr(root), path[..k]) == Some(Ptr(r))
    requires Resolve(h, Ptr(root), path[..k + 1]) == None
    ensures InsertFrom(h, root, path, k, Ptr(r)) == InsertFrom(mid, root, path, k + 1, Ptr(h.next))
    ensures EmptyAt(mid, root, path, k + 1, h.next) && h.next !in h.nodes
    ensures OthersKept(h, mid, r) && r in mid.nodes && KeysSet(h.nodes[r], mid.nodes[r], path[k])
    ensures forall q :: q in mid.nodes ==> q in h.nodes || q == h.next
  {
    mid := InsertStep(h, root, path, k, Ptr(r));
    assert r < h.next && h.next !in h.nodes;
    SetKeyOrder(h.nodes[r], path[k], Ptr(h.next));
    assert mid.nodes[r] == SetKey(h.nodes[r], path[k], Ptr(h.next));
    assert mid.nodes[h.next] == DocNode([], map[]);
  }

  lemma ChainTurn(h: Heap, root: Ref, path: Path, i: nat, r: Ref) returns (h': Heap)
    requires EmptyAt(h, root, path, i, r) && i < |path| - 1 && ValidKey(path[i])
    ensures EmptyAt(h', root, path, i + 1, h.next) && h.next !in h.nodes
    ensures InsertFrom(h, root, path, i, Ptr(r)) == InsertFrom(h', root, path, i + 1, Ptr(h.next))
    ensures OthersKept(h, h', r) && r in h'.nodes && Link(h'.nodes[r], path, i)
    ensures forall q :: q in h'.nodes ==> q in h.nodes || q == h.next
  {
    NothingBelow(h, root, path, i, r);
    h' := FirstNew(h, root, path, i, r);
    assert Keys([]) == [];
    assert h'.nodes[r].keys == Keys(SetField([], path[i], Null)) == [path[i]];
  }

  lemma {:induction false} InsertChain(h: Heap, root: Ref, path: Path, i: nat, r: Ref) returns (inner: Ref)
    requires EmptyAt(h, root, path, i, r) && InsertFrom(h, root, path, i, Ptr(r)).Done?
    ensures Chain(h, InsertFrom(h, root, path, i, Ptr(r)).heap, root, path, i, r, inner)
    decreases |path| - i
  {
    if i == |path| - 1 {
      inner := r;
    } else {
      NothingBelow(h, root, path, i, r);
      var mid := ChainTurn(h, root, path, i, r);
      inner := InsertChain(mid, root, path, i + 1, h.next);
      var h' := InsertFrom(h, root, path, i, Ptr(r)).heap;
      assert h'.nodes[r] == mid.nodes[r];
      ChainJoins(h, mid, h', root, path, i, r, h.next, inner);
    }
  }

  lemma ChainJoins(h: Heap, mid: Heap, h': Heap, root: Ref, path: Path, i: nat, r: Ref, next: Ref, inner: Ref)
    requires next !in h.nodes && r in h.nodes && OthersKept(h, mid, r) && r in mid.nodes && Link(mid.nodes[r], path, i)
    requires forall q :: q in mid.nodes ==> q in h.nodes || q == next
    requires Chain(mid, h', root, path, i + 1, next, inner)
    ensures Chain(h, h', root, path, i, r, inner)
  {
    assert h'.nodes[r] == mid.nodes[r];
    assert mid.nodes[r].keys != [];
    forall q | q in h'.nodes && q != inner && (q == r || q !in h.nodes)
      ensures Link(h'.nodes[q], path, i)
    {
      if q != r {
        assert Link(h'.nodes[q], path, i + 1);
      }
    }
  }

  // ------------------------------------------------------------------ SetByPath

  /** How far the path leads before the call, not counting its last element. */
  function Depth(h: Heap, root: Ref, path: Path): (k: nat)
    ensures k < |path|
  {
    var k := Reach(h, Ptr(root), path);
    if k < |path| - 1 then k else |path| - 1
  }

  /** The node that is there already and changes: the one the path leads to that far. */
  ghost predicate Written(h: Heap, root: Ref, path: Path, r: Ref)
  {
    r in h.nodes && Resolve(h, Ptr(root), path[..Depth(h, root, path)]) == Some(Ptr(r))
  }

  /** What `SetByPath` does to the nodes. */
  ghost predicate OneNodeSet(h: Heap, h': Heap, root: Ref, path: Path, r: Ref)
  {
    && OthersKept(h, h', r) && r in h.nodes && r in h'.nodes
    && (if h.nodes[r].DocNode? then KeysSet(h.nodes[r], h'.nodes[r], path[Depth(h, root, path)])
        else h'.nodes[r].ArrNode? && |h'.nodes[r].elems| == |h.nodes[r].elems|)
    && forall q :: q in h'.nodes && q !in h.nodes ==> Link(h'.nodes[q], path, Depth(h, root, path) + 1)
  }

  /** The parent is there: `Set` on it and nothing else. */
  lemma SetPresent(h: Heap, root: Ref, path: Path, v: Any) returns (r: Ref)
    requires Valid(h) && SetByPath(h, root, path, v).Done? && Reach(h, Ptr(root), path) >= |path| - 1
    ensures Written(h, root, path, r) && OneNodeSet(h, SetByPath(h, root, path, v).heap, root, path, r)
  {
    var n := |path| - 1;
    ReachResolves(h, Ptr(root), path, n);
    assert n == 0 ==> path[..n] == [];
    r := Resolve(h, Ptr(root), path[..n]).value.ref;
    var h' := SetByPath(h, root, path, v).heap;
    assert h' == SetLast(h, Ptr(r), path[n], v).heap;
    if h.nodes[r].DocNode? {
      SetKeyOrder(h.nodes[r], path[n], v);
    }
  }

  lemma SetNew(h: Heap, mid: Heap, h1: Heap, h': Heap, root: Ref, path: Path, r: Ref, inner: Ref, v: Any)
    requires var k, n := Depth(h, root, path), |path| - 1;
             && k < n && h.next !in h.nodes && r in h.nodes && OthersKept(h, mid, r) && r in mid.nodes
             && KeysSet(h.nodes[r], mid.nodes[r], path[k])
             && (forall q :: q in mid.nodes ==> q in h.nodes || q == h.next)
             && Chain(mid, h1, root, path, k + 1, h.next, inner)
             && ValidKey(path[n]) && h' == Put(h1, inner, Key(path[n]), v)
    ensures OneNodeSet(h, h', root, path, r)
  {
    var k, n := Depth(h, root, path), |path| - 1;
    OneKey(h1, inner, path[n], v);
    forall q | q in h.nodes
      ensures q in h'.nodes && h'.nodes[q] == mid.nodes[q]
    {
      assert q != inner && h1.nodes[q] == mid.nodes[q];
    }
    forall q | q in h'.nodes && q !in h.nodes
      ensures Link(h'.nodes[q], path, k + 1)
    {
      if q == inner {
        assert h'.nodes[q].DocNode? && h'.nodes[q].keys == [path[n]];
      } else {
        assert q == h.next || q !in mid.nodes;
        assert h'.nodes[q] == h1.nodes[q];
      }
    }
  }

  /** The insertion begins at the first element that leads nowhere, in a document. */
  lemma InsertBegins(h: Heap, root: Ref, path: Path, v: Any) returns (k: nat, r: Ref)
    requires Valid(h) && Tree(h, root) && SetByPath(h, root, path, v).Done? && Reach(h, Ptr(root), path) < |path| - 1
    ensures k == Depth(h, root, path) < |path| - 1 && Written(h, root, path, r) && h.nodes[r].DocNode?
    ensures ValidKey(path[k]) && ValidKey(path[|path| - 1])
    ensures Resolve(h, Ptr(root), path[..k + 1]) == None && Resolve(h, Ptr(root), path[..|path| - 1]) == None
    ensures InsertFrom(h, root, path, 0, Ptr(root)) == InsertFrom(h, root, path, k, Ptr(r))
    ensures InsertFrom(h, root, path, k, Ptr(r)).Done?
  {
    k := Reach(h, Ptr(root), path);
    assert path[..0] == [];
    MissingOutcome(h, root, path, v);
    InsertOutcome(h, root, path);
    InsertSkips(h, root, path, 0, Ptr(root));
    ReachResolves(h, Ptr(root), path, |path| - 1);
    r := Resolve(h, Ptr(root), path[..k]).value.ref;
  }

  /** The parent is missing: the first missing key is set, and the documents below it are new. */
  lemma SetMissing(h: Heap, root: Ref, path: Path, v: Any) returns (r: Ref)
    requires Valid(h) && Tree(h, root) && SetByPath(h, root, path, v).Done? && Reach(h, Ptr(root), path) < |path| - 1
    ensures Written(h, root, path, r) && OneNodeSet(h, SetByPath(h, root, path, v).heap, root, path, r)
  {
    var k: nat;
    k, r := InsertBegins(h, root, path, v);
    var mid := FirstNew(h, root, path, k, r);
    var inner := InsertChain(mid, root, path, k + 1, h.next);
    var h1 := InsertFrom(mid, root, path, k + 1, Ptr(h.next)).heap;
    var h' := SetByPath(h, root, path, v).heap;
    assert SetByPath(h, root, path, v) == SetLast(h1, Ptr(inner), path[|path| - 1], v);
    SetNew(h, mid, h1, h', root, path, r, inner, v);
  }

  /**
   `SetByPath` changes one document or array that was there, where the path leads to: a document gets
   the key in the place `Set` gives it, an array keeps its length. Every other node is unchanged, and
   every document that is new has one key.
   */
  lemma SetByPathOrder(h: Heap, root: Ref, path: Path, v: Any) returns (r: Ref)
    requires Valid(h) && Tree(h, root) && SetByPath(h, root, path, v).Done?
    ensures Written(h, root, path, r) && OneNodeSet(h, SetByPath(h, root, path, v).heap, root, path, r)
  {
    if Reach(h, Ptr(root), path) < |path| - 1 {
      r := SetMissing(h, root, path, v);
    } else {
      r := SetPresent(h, root, path, v);
    }
  }

  // --------------------------------------------------------------- RemoveByPath

  /** `RemoveByPath` changes only the parent: a document loses the key and keeps the order of the others. */
  lemma RemoveByPathOrder(h: Heap, root: Ref, path: Path) returns (r: Ref)
    requires SlotsOf(h, Ptr(root), path).Some?
    ensures RemoveByPath(h, root, path).Done?
    ensures var h', n := RemoveByPath(h, root, path).heap, |path| - 1;
            && r in h.nodes && r in h'.nodes && OthersKept(h, h', r) && h'.nodes.Keys == h.nodes.Keys
            && Resolve(h, Ptr(root), path[..n]) == Some(Ptr(r))
            && (if h.nodes[r].DocNode? then KeysRemoved(h.nodes[r], h'.nodes[r], path[n])
                else h'.nodes[r].ArrNode? && |h'.nodes[r].elems| == |h.nodes[r].elems| - 1)
  {
    RemoveReplaces(h, Ptr(root), path);
    var n, slots := |path| - 1, SlotsOf(h, Ptr(root), path).value;
    r := Resolve(h, Ptr(root), path[..n]).value.ref;
    LastSlot(h, Ptr(root), path);
    if h.nodes[r].DocNode? {
      RemoveKeyOrder(h.nodes[r], path[n]);
    }
  }

  lemma LastSlot(h: Heap, x: Any, path: Path)
    requires SlotsOf(h, x, path).Some? && Resolve(h, x, path[..|path| - 1]).Some?
    ensures |SlotsOf(h, x, path).value| == |path|
    ensures SlotFor(h, Resolve(h, x, path[..|path| - 1]).value, path[|path| - 1]) ==
              Some(SlotsOf(h, x, path).value[|path| - 1])
  {
    var n := |path| - 1;
    var y := Resolve(h, x, path[..n]).value;
    assert path == path[..n] + [path[n]];
    ResolveFollows(h, x, path);
    ResolveFollows(h, x, path[..n]);
    ResolveConcat(h, x, path[..n], [path[n]]);
    ResolveOne(h, y, path[n]);
  }
}
