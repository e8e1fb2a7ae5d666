/** `RemoveByPath`: what it takes away, what shifts, and what stays. */
module PathRemoval {
  import opened Bytes
  import opened Text
  import opened Wrappers
  import opened Store
  import opened Paths

  function RemoveNode(node: Node, slot: Slot): Node
    requires At(node, slot).Some?
  {
    match node
    case DocNode(keys, m) => DocNode(WithoutFirst(keys, slot.key), m - {slot.key})
    case ArrNode(s) => ArrNode(s[..slot.index] + s[slot.index + 1..])
  }

  function Replace(h: Heap, r: Ref, node: Node): Heap
  {
    h.(nodes := h.nodes[r := node])
  }

  /** `removeByPath`. */
  function RemoveFrom(h: Heap, x: Any, path: seq<bytes>): Outcome
    decreases |path|
  {
    if path == [] || !x.Ptr? || x.ref !in h.nodes then Done(h)
    else match h.nodes[x.ref]
      case DocNode(_, m) =>
        if path[0] !in m then Done(h)
        else if |path| == 1 then Done(Replace(h, x.ref, RemoveNode(h.nodes[x.ref], Key(path[0]))))
        else RemoveFrom(h, m[path[0]], path[1..])
      case ArrNode(s) =>
        match Atoi(path[0])
        case None => Done(h)
        case Some(i) =>
          if i > |s| - 1 then Done(h)
          else if i < 0 then Panic
          else if |path| == 1 then Done(Replace(h, x.ref, RemoveNode(h.nodes[x.ref], Index(i))))
          else RemoveFrom(h, s[i], path[1..])
  }

  /** `Document.RemoveByPath`. */
  function RemoveByPath(h: Heap, root: Ref, path: Path): Outcome
  {
    RemoveFrom(h, Ptr(root), path)
  }

  /** The slot the same value was in before a removal from this node. */
  function Before(node: Node, slot: Slot, s: Slot): Slot
  {
    if node.ArrNode? && slot.Index? && s.Index? && s.index >= slot.index then Index(s.index + 1) else s
  }

  lemma RemoveAt(node: Node, slot: Slot, s: Slot)
    requires At(node, slot).Some?
    ensures At(RemoveNode(node, slot), s) ==
      if node.DocNode? && s == slot then None else At(node, Before(node, slot, s))
  {
  }

  /** A path that does not step out of the replaced node is unaffected. */
  lemma {:induction false} ReplaceFrame(h: Heap, root: Ref, p: seq<Slot>, r: Ref, node: Node, a: seq<Slot>,
                                        b: seq<Slot>, x: Any)
    requires Tree(h, root) && Follow(h, Ptr(root), p) == Some(Ptr(r)) && r in h.nodes
    requires Follow(h, Ptr(root), a) == Some(x)
    requires !(|a| <= |p| && p < a + b)
    ensures Follow(Replace(h, r, node), x, b) == Follow(h, x, b)
    decreases |b|
  {
    if b == [] {
    } else {
      if x == Ptr(r) {
        UniquePath(h, root, p, a, r);
        assert false;
      }
      assert Child(Replace(h, r, node), x, b[0]) == Child(h, x, b[0]);
      if Child(h, x, b[0]).Some? {
        FollowConcat(h, Ptr(root), a, [b[0]]);
        FollowOne(h, x, b[0]);
        assert a + [b[0]] + b[1..] == a + b;
        ReplaceFrame(h, root, p, r, node, a + [b[0]], b[1..], Child(h, x, b[0]).value);
      }
    }
  }

  /** The path asks for a negative index of an array that its first `k` elements lead to. */
  ghost predicate NegativeAt(h: Heap, x: Any, path: seq<bytes>, k: nat)
    requires k < |path|
  {
    var y := Resolve(h, x, path[..k]);
    && y.Some? && y.value.Ptr? && y.value.ref in h.nodes && h.nodes[y.value.ref].ArrNode?
    && Atoi(path[k]).Some? && Atoi(path[k]).value < 0
  }

  ghost predicate NegativeIndex(h: Heap, x: Any, path: seq<bytes>)
  {
    exists k :: 0 <= k < |path| && NegativeAt(h, x, path, k)
  }

  /** Only the first element matters if it leads nowhere. */
  lemma NegativeHere(h: Heap, x: Any, path: Path)
    requires SlotFor(h, x, path[0]).None? || Child(h, x, SlotFor(h, x, path[0]).value).None?
    ensures NegativeIndex(h, x, path) <==> NegativeAt(h, x, path, 0)
  {
    assert path[..0] == [];
    forall k | 0 < k < |path|
      ensures !NegativeAt(h, x, path, k)
    {
      assert path[..k][0] == path[0];
    }
  }

  lemma NegativeBelow(h: Heap, x: Any, path: Path, y: Any)
    requires SlotFor(h, x, path[0]).Some? && Child(h, x, SlotFor(h, x, path[0]).value) == Some(y)
    ensures NegativeIndex(h, x, path) <==> NegativeIndex(h, y, path[1..])
  {
    assert path[..0] == [];
    assert !NegativeAt(h, x, path, 0);
    forall k | 0 < k < |path|
      ensures NegativeAt(h, x, path, k) <==> NegativeAt(h, y, path[1..], k - 1)
    {
      assert path[..k][0] == path[0] && path[..k][1..] == path[1..][..k - 1];
    }
    if j :| 0 <= j < |path[1..]| && NegativeAt(h, y, path[1..], j) {
      assert NegativeAt(h, x, path, j + 1);
    }
  }

  /** Removal panics exactly when the path asks for a negative index of an array. */
  lemma {:induction false} RemovePanicsExactly(h: Heap, x: Any, path: Path)
    ensures RemoveFrom(h, x, path).Panic? <==> NegativeIndex(h, x, path)
    decreases |path|
  {
    var slot := SlotFor(h, x, path[0]);
    if slot.Some? && Child(h, x, slot.value).Some? {
      var y := Child(h, x, slot.value).value;
      NegativeBelow(h, x, path, y);
      if |path| > 1 {
        RemovePanicsExactly(h, y, path[1..]);
      }
    } else {
      NegativeHere(h, x, path);
      assert path[..0] == [];
    }
  }

  /** {a: []} at the path "a.-1". */
  lemma NegativeIndexPanics()
    ensures var h := Heap(map[0 := DocNode([[97]], map[[97] := Ptr(1)]), 1 := ArrNode([])], 2);
            RemoveByPath(h, 0, [[97], [45, 49]]).Panic?
  {
    var path: Path := [[97], [45, 49]];
    assert path[1..] == [[45, 49]];
    assert [45, 49][1..] == [49];
    assert Atoi([45, 49]) == Some(-1);
  }

  /** Removing at a path that leads somewhere replaces one node; anything else changes nothing or panics. */
  lemma {:induction false} RemoveReplaces(h: Heap, x: Any, path: Path)
    ensures match SlotsOf(h, x, path)
            case Some(slots) =>
              var n := |path| - 1;
              var parent := Resolve(h, x, path[..n]);
              && |slots| == |path|
              && Follow(h, x, slots[..n]) == parent
              && parent.Some? && parent.value.Ptr? && parent.value.ref in h.nodes
              && At(h.nodes[parent.value.ref], slots[n]).Some?
              && var r := parent.value.ref;
                 RemoveFrom(h, x, path) == Done(Replace(h, r, RemoveNode(h.nodes[r], slots[n])))
            case None => RemoveFrom(h, x, path) == if NegativeIndex(h, x, path) then Panic else Done(h)
    decreases |path|
  {
    RemovePanicsExactly(h, x, path);
    if SlotFor(h, x, path[0]).Some? && Child(h, x, SlotFor(h, x, path[0]).value).Some? && |path| > 1 {
      var slot := SlotFor(h, x, path[0]).value;
      var y := Child(h, x, slot).value;
      var n := |path| - 1;
      RemoveReplaces(h, y, path[1..]);
      assert path[..n][0] == path[0] && path[..n][1..] == path[1..][..n - 1];
      if SlotsOf(h, y, path[1..]).Some? {
        var rest := SlotsOf(h, y, path[1..]).value;
        assert SlotsOf(h, x, path) == Some([slot] + rest);
        assert ([slot] + rest)[..n] == [slot] + rest[..n - 1];
        FollowConcat(h, x, [slot], rest[..n - 1]);
        FollowOne(h, x, slot);
      }
    } else if |path| == 1 {
      RemoveReplacesOne(h, x, path[0]);
      assert path == [path[0]];
    }
  }

  lemma RemoveReplacesOne(h: Heap, x: Any, elem: bytes)
    ensures match SlotsOf(h, x, [elem])
            case Some(slots) =>
              && x.Ptr? && x.ref in h.nodes && |slots| == 1 && At(h.nodes[x.ref], slots[0]).Some?
              && RemoveFrom(h, x, [elem]) == Done(Replace(h, x.ref, RemoveNode(h.nodes[x.ref], slots[0])))
            case None => RemoveFrom(h, x, [elem]) in {Done(h), Panic}
  {
    ResolveOne(h, x, elem);
    ResolveFollows(h, x, [elem]);
  }

  lemma RemoveNodeValid(node: Node, slot: Slot)
    requires ValidNode(node) && At(node, slot).Some?
    ensures ValidNode(RemoveNode(node, slot))
  {
    if node.DocNode? {
      WithoutFirstKeys(node.keys, slot.key);
    }
  }

  lemma RemoveTree(h: Heap, root: Ref, r: Ref, slot: Slot)
    requires Valid(h) && Tree(h, root) && r in h.nodes && At(h.nodes[r], slot).Some?
    ensures Valid(Replace(h, r, RemoveNode(h.nodes[r], slot)))
    ensures Tree(Replace(h, r, RemoveNode(h.nodes[r], slot)), root)
  {
    var node := h.nodes[r];
    var h' := Replace(h, r, RemoveNode(node, slot));
    RemoveNodeValid(node, slot);
    forall r', s, c | Edge(h', r', s, c)
      ensures Edge(h, r', if r' == r then Before(node, slot, s) else s, c)
    {
      if r' == r { RemoveAt(node, slot, s); }
    }
  }

  /**
   When the path leads somewhere, `RemoveByPath` returns normally and: every position that does
   not go through the parent is unchanged; under a document parent exactly the removed key is
   gone; under an array parent the later elements moved down by one.
   */
  lemma RemoveByPathLaws(h: Heap, root: Ref, path: Path)
    requires Valid(h) && Tree(h, root) && SlotsOf(h, Ptr(root), path).Some?
    ensures RemoveByPath(h, root, path).Done?
    ensures var slots, n := SlotsOf(h, Ptr(root), path).value, |path| - 1;
            var h' := RemoveByPath(h, root, path).heap;
            var parent := Resolve(h, Ptr(root), path[..n]);
            && Valid(h') && Tree(h', root)
            && |slots| == |path| && parent.Some? && parent.value.Ptr? && parent.value.ref in h.nodes
            && (forall q :: !(slots[..n] < q) ==> Follow(h', Ptr(root), q) == Follow(h, Ptr(root), q))
            && (forall s, q :: Follow(h', Ptr(root), slots[..n] + [s] + q) ==
                  if h.nodes[parent.value.ref].DocNode? && s == slots[n] then None
                  else Follow(h, Ptr(root), slots[..n] + [Before(h.nodes[parent.value.ref], slots[n], s)] + q))
  {
    RemoveReplaces(h, Ptr(root), path);
    var slots, n := SlotsOf(h, Ptr(root), path).value, |path| - 1;
    var p, slot := slots[..n], slots[n];
    var r := Resolve(h, Ptr(root), path[..n]).value.ref;
    var node := h.nodes[r];
    var h' := Replace(h, r, RemoveNode(node, slot));
    RemoveTree(h, root, r, slot);
    forall q | !(p < q)
      ensures Follow(h', Ptr(root), q) == Follow(h, Ptr(root), q)
    {
      assert [] + q == q;
      ReplaceFrame(h, root, p, r, RemoveNode(node, slot), [], q, Ptr(root));
    }
    forall s, q
      ensures Follow(h', Ptr(root), p + [s] + q) ==
        if node.DocNode? && s == slot then None else Follow(h, Ptr(root), p + [Before(node, slot, s)] + q)
    {
      assert !(p < p);
      BelowParent(h, root, p, r, slot, s, q);
    }
  }

  lemma BelowParent(h: Heap, root: Ref, p: seq<Slot>, r: Ref, slot: Slot, s: Slot, q: seq<Slot>)
    requires Tree(h, root) && Follow(h, Ptr(root), p) == Some(Ptr(r)) && r in h.nodes && At(h.nodes[r], slot).Some?
    requires var h' := Replace(h, r, RemoveNode(h.nodes[r], slot)); Follow(h', Ptr(root), p) == Some(Ptr(r))
    ensures var node := h.nodes[r];
            Follow(Replace(h, r, RemoveNode(node, slot)), Ptr(root), p + [s] + q) ==
              if node.DocNode? && s == slot then None else Follow(h, Ptr(root), p + [Before(node, slot, s)] + q)
  {
    var node := h.nodes[r];
    var h' := Replace(h, r, RemoveNode(node, slot));
    var s' := Before(node, slot, s);
    RemoveAt(node, slot, s);
    FollowPast(h', root, p, r, s, q);
    FollowPast(h, root, p, r, s', q);
    if !(node.DocNode? && s == slot) && At(node, s').Some? {
      FollowConcat(h, Ptr(root), p, [s']);
      FollowOne(h, Ptr(r), s');
      ReplaceFrame(h, root, p, r, RemoveNode(node, slot), p + [s'], q, At(node, s').value);
    }
  }

  lemma FollowPast(h: Heap, root: Ref, p: seq<Slot>, r: Ref, s: Slot, q: seq<Slot>)
    requires Follow(h, Ptr(root), p) == Some(Ptr(r)) && r in h.nodes
    ensures Follow(h, Ptr(root), p + [s] + q) ==
      if At(h.nodes[r], s).None? then None else Follow(h, At(h.nodes[r], s).value, q)
  {
    assert p + [s] + q == p + ([s] + q);
    FollowConcat(h, Ptr(root), p, [s] + q);
    FollowConcat(h, Ptr(r), [s], q);
    FollowOne(h, Ptr(r), s);
  }
}
