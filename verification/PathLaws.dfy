/** What `SetByPath` guarantees, and exactly when it fails. */
module PathLaws {
  import opened Bytes
  import opened Text
  import opened Values
  import opened Wrappers
  import opened Store
  import opened Paths

  /** A scalar, or a node that hangs from nowhere yet. */
  ghost predicate Loose(h: Heap, root: Ref, v: Any)
  {
    v.Ptr? ==> v.ref in h.nodes && v.ref != root && forall r, slot :: !Edge(h, r, slot, v.ref)
  }

  lemma SetLastLaws(h: Heap, root: Ref, trim: seq<bytes>, p: seq<Slot>, elem: bytes, v: Any)
    requires Valid(h) && Tree(h, root) && Loose(h, root, v)
    requires SlotsOf(h, Ptr(root), trim) == Some(p) && Resolve(h, Ptr(root), trim).Some?
    requires SetLast(h, Resolve(h, Ptr(root), trim).value, elem, v).Done?
    ensures var inner := Resolve(h, Ptr(root), trim).value;
            var h' := SetLast(h, inner, elem, v).heap;
            && Valid(h') && Tree(h', root)
            && SlotFor(h, inner, elem).Some?
            && var place := p + [SlotFor(h, inner, elem).value];
               && Resolve(h', Ptr(root), trim + [elem]) == Some(v)
               && SlotsOf(h', Ptr(root), trim + [elem]) == Some(place)
               && (forall q :: !(place <= q) ==> Follow(h', Ptr(root), q) == Follow(h, Ptr(root), q))
  {
    var inner := Resolve(h, Ptr(root), trim).value;
    var h' := SetLast(h, inner, elem, v).heap;
    var r := inner.ref;
    var slot := SlotFor(h, inner, elem).value;
    assert h' == Put(h, r, slot, v);
    ResolveFollows(h, Ptr(root), trim);
    PutLaws(h, root, p, r, slot, v);
    PutTree(h, root, r, slot, v);
    PutValid(h.nodes[r], slot, v);
    forall q | q <= p
      ensures Follow(h', Ptr(root), q) == Follow(h, Ptr(root), q)
    {
      assert !(p + [slot] <= q);
    }
    ResolveSame(h, h', Ptr(root), trim, p);
    ResolveConcat(h', Ptr(root), trim, [elem]);
    ResolveOne(h', inner, elem);
    PutAt(h.nodes[r], slot, v, slot);
  }

  /** Where `SetByPath` writes: after it returns, the path goes through these places. */
  ghost function Place(h: Heap, root: Ref, path: Path, v: Any): seq<Slot>
    requires SetByPath(h, root, path, v).Done?
    requires SlotsOf(SetByPath(h, root, path, v).heap, Ptr(root), path).Some?
  {
    SlotsOf(SetByPath(h, root, path, v).heap, Ptr(root), path).value
  }

  /**
   When `SetByPath` succeeds, `GetByPath` on the path returns the value; every position that
   could be reached before and is not at or below it is unchanged; and every document still has
   distinct, valid keys that are exactly the domain of its map.
   */
  lemma SetByPathLaws(h: Heap, root: Ref, path: Path, v: Any)
    requires Valid(h) && Tree(h, root) && Loose(h, root, v)
    requires SetByPath(h, root, path, v).Done?
    ensures var h' := SetByPath(h, root, path, v).heap;
            && Valid(h') && Tree(h', root)
            && Resolve(h', Ptr(root), path) == Some(v)
            && SlotsOf(h', Ptr(root), path).Some?
            && (forall q :: Follow(h, Ptr(root), q).Some? && !(Place(h, root, path, v) <= q) ==>
                  Follow(h', Ptr(root), q) == Follow(h, Ptr(root), q))
  {
    var n := |path| - 1;
    var trim := path[..n];
    assert path == trim + [path[n]];
    var h1 := h;
    if Resolve(h, Ptr(root), trim).None? {
      assert path[..0] == [];
      InsertLaws(h, root, path, 0, Ptr(root));
      h1 := InsertFrom(h, root, path, 0, Ptr(root)).heap;
      assert Loose(h1, root, v);
    }
    ResolveFollows(h1, Ptr(root), trim);
    SetLastLaws(h1, root, trim, SlotsOf(h1, Ptr(root), trim).value, path[n], v);
  }

  // --------------------------------------------------------------- failures

  /** How many leading elements of the path lead somewhere. */
  function Reach(h: Heap, x: Any, path: seq<bytes>): (k: nat)
    ensures k <= |path|
    decreases |path|
  {
    if path == [] then 0
    else match SlotFor(h, x, path[0])
      case None => 0
      case Some(slot) =>
        match Child(h, x, slot)
        case None => 0
        case Some(y) => 1 + Reach(h, y, path[1..])
  }

  lemma {:induction false} ReachResolves(h: Heap, x: Any, path: seq<bytes>, k: nat)
    requires k <= |path|
    ensures Resolve(h, x, path[..k]).Some? <==> k <= Reach(h, x, path)
    decreases |path|
  {
    if path == [] || k == 0 {
    } else {
      assert path[..k][0] == path[0] && path[..k][1..] == path[1..][..k - 1];
      var slot := SlotFor(h, x, path[0]);
      if slot.Some? && Child(h, x, slot.value).Some? {
        ReachResolves(h, Child(h, x, slot.value).value, path[1..], k - 1);
      }
    }
  }

  /** The part of the path that exists costs the insertion loop nothing. */
  lemma {:induction false} InsertSkips(h: Heap, root: Ref, path: Path, i: nat, x: Any)
    requires i <= Reach(h, Ptr(root), path) < |path| - 1
    requires Resolve(h, Ptr(root), path[..i]) == Some(x)
    ensures var k := Reach(h, Ptr(root), path);
            && Resolve(h, Ptr(root), path[..k]).Some?
            && Resolve(h, Ptr(root), path[..k + 1]).None?
            && InsertFrom(h, root, path, i, x) == InsertFrom(h, root, path, k, Resolve(h, Ptr(root), path[..k]).value)
    decreases |path| - i
  {
    var k := Reach(h, Ptr(root), path);
    ReachResolves(h, Ptr(root), path, k);
    ReachResolves(h, Ptr(root), path, k + 1);
    if i < k {
      ReachResolves(h, Ptr(root), path, i + 1);
      InsertSkips(h, root, path, i + 1, Resolve(h, Ptr(root), path[..i + 1]).value);
    }
  }

  datatype Target = OfDocument | OfArray | OfScalar

  /** What stands at the end of the part of the path before the last element that exists. */
  function Kind(h: Heap, x: Any): Target
  {
    if !x.Ptr? || x.ref !in h.nodes then OfScalar
    else if h.nodes[x.ref].DocNode? then OfDocument
    else OfArray
  }

  /** The elements from `i` on, but for the last, can be keys of new documents. */
  ghost predicate KeysFrom(path: Path, i: nat)
  {
    forall j :: i <= j < |path| - 1 ==> ValidKey(path[j])
  }

  /** The path leads to a document. */
  predicate MadeDocument(h: Heap, root: Ref, path: seq<bytes>)
  {
    var inner := Resolve(h, Ptr(root), path);
    inner.Some? && Kind(h, inner.value) == OfDocument
  }

  /** The first `i` elements of the path lead to an empty document. */
  ghost predicate EmptyAt(h: Heap, root: Ref, path: Path, i: nat, r: Ref)
  {
    && Valid(h) && Tree(h, root) && i < |path|
    && Resolve(h, Ptr(root), path[..i]) == Some(Ptr(r))
    && r in h.nodes && h.nodes[r] == DocNode([], map[])
  }

  /** One turn of the insertion loop makes an empty document at the next element. */
  lemma InsertTurn(h: Heap, root: Ref, path: Path, i: nat, next: Any) returns (h': Heap)
    requires Valid(h) && Tree(h, root) && i + 1 < |path|
    requires Resolve(h, Ptr(root), path[..i]) == Some(next)
    requires Resolve(h, Ptr(root), path[..i + 1]) == None
    requires next.Ptr? && next.ref in h.nodes && h.nodes[next.ref].DocNode? && ValidKey(path[i])
    ensures InsertFrom(h, root, path, i, next) == InsertFrom(h', root, path, i + 1, Ptr(h.next))
    ensures EmptyAt(h', root, path, i + 1, h.next) && h'.next == h.next + 1
  {
    h' := InsertStep(h, root, path, i, next);
    assert h'.nodes[h.next] == DocNode([], map[]);
  }

  /** What the loop leaves below an empty document. */
  ghost predicate BelowNew(h: Heap, root: Ref, path: Path, i: nat, o: Outcome)
  {
    && !o.Error?
    && (o.Done? <==> KeysFrom(path, i))
    && (o.Done? ==> o.heap.next >= h.next && MadeDocument(o.heap, root, path[..|path| - 1]))
  }

  /** Below a document that was just made, only further documents are made, or an invalid key panics. */
  lemma {:induction false} InsertBelowNew(h: Heap, root: Ref, path: Path, i: nat, r: Ref)
    requires EmptyAt(h, root, path, i, r)
    ensures BelowNew(h, root, path, i, InsertFrom(h, root, path, i, Ptr(r)))
    decreases |path| - i
  {
    if i < |path| - 1 {
      NothingBelow(h, root, path, i, r);
      if ValidKey(path[i]) {
        var h' := InsertTurn(h, root, path, i, Ptr(r));
        InsertBelowNew(h', root, path, i + 1, h.next);
        assert KeysFrom(path, i) <==> KeysFrom(path, i + 1);
      }
    }
  }

  lemma NothingBelow(h: Heap, root: Ref, path: Path, i: nat, r: Ref)
    requires EmptyAt(h, root, path, i, r) && i < |path| - 1
    ensures Resolve(h, Ptr(root), path[..i + 1]) == None
  {
    assert path[..i + 1] == path[..i] + [path[i]];
    ResolveConcat(h, Ptr(root), path[..i], [path[i]]);
    ResolveOne(h, Ptr(r), path[i]);
  }

  /** `SetByPath` would have to make documents before it reaches the last element. */
  predicate MakesDocuments(h: Heap, root: Ref, path: Path)
  {
    var k := Reach(h, Ptr(root), path);
    && k < |path| - 1
    && (ReachResolves(h, Ptr(root), path, k);
        Kind(h, Resolve(h, Ptr(root), path[..k]).value) == OfDocument)
  }

  /** The outcome of the insertion loop when part of the path is missing. */
  lemma InsertOutcome(h: Heap, root: Ref, path: Path)
    requires Valid(h) && Tree(h, root) && Reach(h, Ptr(root), path) < |path| - 1
    ensures var n, k := |path| - 1, Reach(h, Ptr(root), path);
            var o := InsertFrom(h, root, path, 0, Ptr(root));
            && Resolve(h, Ptr(root), path[..k]).Some?
            && match Kind(h, Resolve(h, Ptr(root), path[..k]).value)
               case OfScalar => o.Panic?
               case OfArray => o == if Atoi(path[k]).None? then Error(h) else Panic
               case OfDocument =>
                 if KeysFrom(path, k)
                 then o.Done? && o.heap.next > h.next && MadeDocument(o.heap, root, path[..n])
                 else o.Panic?
  {
    var k := Reach(h, Ptr(root), path);
    assert path[..0] == [];
    InsertSkips(h, root, path, 0, Ptr(root));
    var x := Resolve(h, Ptr(root), path[..k]).value;
    if Kind(h, x) == OfDocument && ValidKey(path[k]) {
      InsertMakes(h, root, path, k, x);
    } else {
      InsertStops(h, root, path, k, x);
    }
  }

  lemma InsertStops(h: Heap, root: Ref, path: Path, k: nat, x: Any)
    requires k < |path| - 1 && Resolve(h, Ptr(root), path[..k + 1]) == None
    requires Kind(h, x) == OfDocument ==> !ValidKey(path[k])
    ensures InsertFrom(h, root, path, k, x) ==
      if Kind(h, x) == OfArray && Atoi(path[k]).None? then Error(h) else Panic
  {
  }

  lemma InsertMakes(h: Heap, root: Ref, path: Path, k: nat, x: Any)
    requires Valid(h) && Tree(h, root) && k < |path| - 1
    requires Resolve(h, Ptr(root), path[..k]) == Some(x) && Kind(h, x) == OfDocument && ValidKey(path[k])
    requires Resolve(h, Ptr(root), path[..k + 1]) == None
    ensures var o := InsertFrom(h, root, path, k, x);
            if KeysFrom(path, k)
            then o.Done? && o.heap.next > h.next && MadeDocument(o.heap, root, path[..|path| - 1])
            else o.Panic?
  {
    var h' := InsertTurn(h, root, path, k, x);
    InsertBelowNew(h', root, path, k + 1, h.next);
    assert KeysFrom(path, k) <==> KeysFrom(path, k + 1);
  }

  lemma MissingOutcome(h: Heap, root: Ref, path: Path, v: Any)
    requires Valid(h) && Tree(h, root) && Reach(h, Ptr(root), path) < |path| - 1
    ensures var n, k := |path| - 1, Reach(h, Ptr(root), path);
            var o := SetByPath(h, root, path, v);
            && Resolve(h, Ptr(root), path[..k]).Some?
            && match Kind(h, Resolve(h, Ptr(root), path[..k]).value)
               case OfScalar => o.Panic?
               case OfArray => o == if Atoi(path[k]).None? then Error(h) else Panic
               case OfDocument =>
                 if KeysFrom(path, k)
                 then (if ValidKey(path[n]) then o.Done? else o.Error?) && o.heap.next > h.next
                 else o.Panic?
  {
    InsertOutcome(h, root, path);
    ReachResolves(h, Ptr(root), path, |path| - 1);
  }

  /**
   A returned error leaves the documents as they were, except when missing documents were made
   first and only then the last element turned out to be an invalid key.
   */
  lemma ErrorLeavesUnchangedExactly(h: Heap, root: Ref, path: Path, v: Any)
    requires Valid(h) && Tree(h, root) && SetByPath(h, root, path, v).Error?
    ensures SetByPath(h, root, path, v).heap == h <==> !MakesDocuments(h, root, path)
  {
    var n := |path| - 1;
    ReachResolves(h, Ptr(root), path, n);
    if Reach(h, Ptr(root), path) < n {
      MissingOutcome(h, root, path, v);
    }
  }

  /** The empty document at the path "a.$": the error leaves {a: {}} behind. */
  lemma ErrorChangesDocument(v: Any)
    ensures var h := Heap(map[0 := DocNode([], map[])], 1);
            var o := SetByPath(h, 0, [[97], [36]], v);
            o.Error? && o.heap != h
  {
    var h := Heap(map[0 := DocNode([], map[])], 1);
    var path: Path := [[97], [36]];
    assert Valid(h) && Tree(h, 0);
    assert ValidKey([97]) && !ValidKey([36]);
    assert Reach(h, Ptr(0), path) == 0;
    assert path[..0] == [];
    MissingOutcome(h, 0, path, v);
  }

  /** Whether a value can be put at `elem` of `x`. */
  predicate CanPut(h: Heap, x: Any, elem: bytes)
  {
    match Kind(h, x)
    case OfScalar => false
    case OfDocument => ValidKey(elem)
    case OfArray => Atoi(elem).Some? && 0 <= Atoi(elem).value < |h.nodes[x.ref].elems|
  }

  /** The condition for success: it looks at the documents and the path as they are before the call. */
  predicate CanSet(h: Heap, root: Ref, path: Path)
  {
    var n, k := |path| - 1, Reach(h, Ptr(root), path);
    ReachResolves(h, Ptr(root), path, k);
    ReachResolves(h, Ptr(root), path, n);
    if k < n
    then Kind(h, Resolve(h, Ptr(root), path[..k]).value) == OfDocument && forall j :: k <= j <= n ==> ValidKey(path[j])
    else CanPut(h, Resolve(h, Ptr(root), path[..n]).value, path[n])
  }

  /** The call succeeds exactly when the caller can see beforehand that it will. */
  lemma SucceedsExactly(h: Heap, root: Ref, path: Path, v: Any)
    requires Valid(h) && Tree(h, root)
    ensures SetByPath(h, root, path, v).Done? <==> CanSet(h, root, path)
  {
    var n := |path| - 1;
    if Reach(h, Ptr(root), path) < n {
      MissingOutcome(h, root, path, v);
    } else {
      ReachResolves(h, Ptr(root), path, n);
      assert n == 0 ==> path[..n] == [];
    }
  }
}
