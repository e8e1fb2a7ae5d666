/** Dotted paths over documents in memory: get, set (inserting what is missing) and remove. */
module Paths {
  import opened Bytes
  import opened Text
  import opened Values
  import opened Wrappers
  import opened Store

  /** Path elements in order; `NewPath` panics on the empty path. */
  type Path = p: seq<bytes> | p != [] witness [[97]]

  /** What a path element means at a value: a key of a document, an index of an array. */
  function SlotFor(h: Heap, x: Any, elem: bytes): Option<Slot>
  {
    if !x.Ptr? || x.ref !in h.nodes then None
    else if h.nodes[x.ref].DocNode? then Some(Key(elem))
    else match Atoi(elem)
      case Some(i) => if i >= 0 then Some(Index(i)) else None
      case None => None
  }

  /** The places a path goes through, if it leads somewhere. */
  function SlotsOf(h: Heap, x: Any, path: seq<bytes>): Option<seq<Slot>>
    decreases |path|
  {
    if path == [] then Some([])
    else match SlotFor(h, x, path[0])
      case None => None
      case Some(slot) =>
        match Child(h, x, slot)
        case None => None
        case Some(y) =>
          match SlotsOf(h, y, path[1..])
          case None => None
          case Some(slots) => Some([slot] + slots)
  }

  /** `getByPath`. */
  function Resolve(h: Heap, x: Any, path: seq<bytes>): Option<Any>
    decreases |path|
  {
    if path == [] then Some(x)
    else match SlotFor(h, x, path[0])
      case None => None
      case Some(slot) =>
        match Child(h, x, slot)
        case None => None
        case Some(y) => Resolve(h, y, path[1..])
  }

  lemma {:induction false} ResolveFollows(h: Heap, x: Any, path: seq<bytes>)
    ensures Resolve(h, x, path).Some? <==> SlotsOf(h, x, path).Some?
    ensures Resolve(h, x, path).Some? ==> Resolve(h, x, path) == Follow(h, x, SlotsOf(h, x, path).value)
    ensures SlotsOf(h, x, path).Some? ==> |SlotsOf(h, x, path).value| == |path|
    decreases |path|
  {
    if path == [] {
    } else {
      var slot := SlotFor(h, x, path[0]);
      if slot.Some? && Child(h, x, slot.value).Some? {
        var y := Child(h, x, slot.value).value;
        ResolveFollows(h, y, path[1..]);
        if Resolve(h, y, path[1..]).Some? {
          var slots := SlotsOf(h, y, path[1..]).value;
          assert ([slot.value] + slots)[1..] == slots;
        }
      }
    }
  }

  lemma {:induction false} ResolveConcat(h: Heap, x: Any, p: seq<bytes>, q: seq<bytes>)
    ensures Resolve(h, x, p + q) ==
      match Resolve(h, x, p)
      case None => None
      case Some(y) => Resolve(h, y, q)
    ensures Resolve(h, x, p).Some? && SlotsOf(h, x, p).Some? && SlotsOf(h, Resolve(h, x, p).value, q).Some? ==>
      SlotsOf(h, x, p + q) == Some(SlotsOf(h, x, p).value + SlotsOf(h, Resolve(h, x, p).value, q).value)
    decreases |p|
  {
    ResolveFollows(h, x, p);
    if p == [] {
      assert p + q == q;
      if SlotsOf(h, x, q).Some? { assert [] + SlotsOf(h, x, q).value == SlotsOf(h, x, q).value; }
    } else {
      assert (p + q)[0] == p[0] && (p + q)[1..] == p[1..] + q;
      var slot := SlotFor(h, x, p[0]);
      if slot.Some? && Child(h, x, slot.value).Some? {
        var y := Child(h, x, slot.value).value;
        ResolveFollows(h, y, p[1..]);
        ResolveConcat(h, y, p[1..], q);
        if Resolve(h, x, p).Some? && SlotsOf(h, Resolve(h, x, p).value, q).Some? {
          var s1, s2 := SlotsOf(h, y, p[1..]).value, SlotsOf(h, Resolve(h, x, p).value, q).value;
          assert [slot.value] + (s1 + s2) == [slot.value] + s1 + s2;
        }
      }
    }
  }

  // ------------------------------------------------------------- operations

  /** A call returns normally, returns an error, or panics. The heap is the one it leaves behind. */
  datatype Outcome = Done(heap: Heap) | Error(heap: Heap) | Panic

  /** `NewDocument()`: an empty document at a reference not used before. */
  function Alloc(h: Heap): Heap
  {
    Heap(h.nodes[h.next := DocNode([], map[])], h.next + 1)
  }

  /** The loop of `insertByPath` from element `i`, with `next` the value at the path so far. */
  function InsertFrom(h: Heap, root: Ref, path: seq<bytes>, i: nat, next: Any): Outcome
    requires i < |path|
    decreases |path| - i
  {
    if i == |path| - 1 then Done(h)
    else match Resolve(h, Ptr(root), path[..i + 1])
      case Some(v) => InsertFrom(h, root, path, i + 1, v)
      case None =>
        if !next.Ptr? || next.ref !in h.nodes then Panic
        else if h.nodes[next.ref].ArrNode? then
          if Atoi(path[i]).None? then Error(h) else Panic
        else if !ValidKey(path[i]) then Panic
        else
          var h' := Put(Alloc(h), next.ref, Key(path[i]), Ptr(h.next));
          InsertFrom(h', root, path, i + 1, Ptr(h.next))
  }

  /** `Document.Set` and `Array.Set` through the value at the end of the path. */
  function SetLast(h: Heap, inner: Any, elem: bytes, v: Any): Outcome
  {
    if !inner.Ptr? || inner.ref !in h.nodes then Panic
    else if h.nodes[inner.ref].DocNode? then
      if ValidKey(elem) then Done(Put(h, inner.ref, Key(elem), v)) else Error(h)
    else match Atoi(elem)
      case None => Error(h)
      case Some(i) =>
        if 0 <= i < |h.nodes[inner.ref].elems| then Done(Put(h, inner.ref, Index(i), v)) else Error(h)
  }

  /** `Document.SetByPath`. */
  function SetByPath(h: Heap, root: Ref, path: Path, v: Any): Outcome
  {
    var n := |path| - 1;
    if n == 0 then SetLast(h, Ptr(root), path[0], v)
    else
      var trim := path[..n];
      var inserted := if Resolve(h, Ptr(root), trim).Some? then Done(h) else InsertFrom(h, root, path, 0, Ptr(root));
      match inserted
      case Done(h') =>
        (match Resolve(h', Ptr(root), trim)
         case Some(inner) => SetLast(h', inner, path[n], v)
         case None => Panic)
      case Error(h') => Error(h')
      case Panic => Panic
  }

  // --------------------------------------------------------------- insertion

  /** Everything that could be reached before can still be reached, and is the same. */
  ghost predicate Extends(h: Heap, h': Heap, root: Ref)
  {
    && (forall q :: Follow(h, Ptr(root), q).Some? ==> Follow(h', Ptr(root), q) == Follow(h, Ptr(root), q))
    && (forall r :: r in h.nodes ==> r in h'.nodes)
    && (forall r, slot, c :: Edge(h', r, slot, c) && c in h.nodes ==> Edge(h, r, slot, c))
  }

  lemma {:induction false} AllocFrame(h: Heap, root: Ref, x: Any, q: seq<Slot>)
    requires Valid(h) && Tree(h, root) && (x.Ptr? ==> x.ref in h.nodes)
    ensures Follow(Alloc(h), x, q) == Follow(h, x, q)
    decreases |q|
  {
    if q == [] {
    } else if Child(h, x, q[0]).Some? {
      var y := Child(h, x, q[0]).value;
      if y.Ptr? { assert Edge(h, x.ref, q[0], y.ref); }
      assert Child(Alloc(h), x, q[0]) == Some(y);
      AllocFrame(h, root, y, q[1..]);
    } else if x.Ptr? {
      assert Child(Alloc(h), x, q[0]) == None;
    }
  }

  lemma AllocLaws(h: Heap, root: Ref)
    requires Valid(h) && Tree(h, root)
    ensures Valid(Alloc(h)) && Tree(Alloc(h), root)
    ensures forall q :: Follow(Alloc(h), Ptr(root), q) == Follow(h, Ptr(root), q)
    ensures h.next !in h.nodes && forall r, slot :: !Edge(Alloc(h), r, slot, h.next)
  {
    var h' := Alloc(h);
    forall r, slot, c | Edge(h', r, slot, c)
      ensures Edge(h, r, slot, c)
    {
    }
    forall q
      ensures Follow(h', Ptr(root), q) == Follow(h, Ptr(root), q)
    {
      AllocFrame(h, root, Ptr(root), q);
    }
  }

  lemma OnlyNewEdges(h: Heap, h': Heap, r: Ref, key: bytes)
    requires h.next !in h.nodes && ValidKey(key) && r in h.nodes && h.nodes[r].DocNode?
    requires h' == Put(Alloc(h), r, Key(key), Ptr(h.next))
    ensures forall r', slot, c :: Edge(h', r', slot, c) && c in h.nodes ==> Edge(h, r', slot, c)
  {
    forall r', slot, c | Edge(h', r', slot, c) && c in h.nodes
      ensures Edge(h, r', slot, c)
    {
      if r' == r { PutAt(h.nodes[r], Key(key), Ptr(h.next), slot); }
    }
  }

  /** Inserting an empty document under a key that was not there. */
  lemma InsertOne(h: Heap, root: Ref, p: seq<Slot>, r: Ref, key: bytes)
    requires Valid(h) && Tree(h, root) && ValidKey(key)
    requires Follow(h, Ptr(root), p) == Some(Ptr(r)) && r in h.nodes && h.nodes[r].DocNode?
    requires key !in h.nodes[r].m
    ensures var h' := Put(Alloc(h), r, Key(key), Ptr(h.next));
            && Valid(h') && Tree(h', root) && Extends(h, h', root)
            && Follow(h', Ptr(root), p + [Key(key)]) == Some(Ptr(h.next))
            && h'.nodes[h.next] == DocNode([], map[])
            && h'.nodes[r].DocNode?
  {
    AllocLaws(h, root);
    var g := Alloc(h);
    var h' := Put(g, r, Key(key), Ptr(h.next));
    assert r != h.next && g.nodes[r] == h.nodes[r];
    PutLaws(g, root, p, r, Key(key), Ptr(h.next));
    PutTree(g, root, r, Key(key), Ptr(h.next));
    PutValid(g.nodes[r], Key(key), Ptr(h.next));
    OnlyNewEdges(h, h', r, key);
    forall q | Follow(h, Ptr(root), q).Some?
      ensures !(p + [Key(key)] <= q)
    {
      if p + [Key(key)] <= q { MissingKeyBlocks(h, root, p, r, key, q); }
    }
  }

  lemma MissingKeyBlocks(h: Heap, root: Ref, p: seq<Slot>, r: Ref, key: bytes, q: seq<Slot>)
    requires Follow(h, Ptr(root), p) == Some(Ptr(r)) && r in h.nodes && h.nodes[r].DocNode?
    requires key !in h.nodes[r].m && p + [Key(key)] <= q
    ensures Follow(h, Ptr(root), q) == None
  {
    var b := q[|p|..];
    assert q == p + b && b[0] == Key(key);
    FollowConcat(h, Ptr(root), p, b);
  }

  lemma {:induction false} InsertLaws(h: Heap, root: Ref, path: seq<bytes>, i: nat, next: Any)
    requires Valid(h) && Tree(h, root) && i < |path|
    requires Resolve(h, Ptr(root), path[..i]) == Some(next)
    requires InsertFrom(h, root, path, i, next).Done?
    ensures var h' := InsertFrom(h, root, path, i, next).heap;
            && Valid(h') && Tree(h', root) && Extends(h, h', root)
            && Resolve(h', Ptr(root), path[..|path| - 1]).Some?
    decreases |path| - i
  {
    if i == |path| - 1 {
    } else {
      assert path[..i + 1] == path[..i] + [path[i]];
      ResolveConcat(h, Ptr(root), path[..i], [path[i]]);
      ResolveOne(h, next, path[i]);
      match Resolve(h, Ptr(root), path[..i + 1])
      case Some(v) => InsertLaws(h, root, path, i + 1, v);
      case None =>
        var h' := InsertStep(h, root, path, i, next);
        InsertLaws(h', root, path, i + 1, Ptr(h.next));
    }
  }

  lemma ResolveOne(h: Heap, x: Any, elem: bytes)
    ensures Resolve(h, x, [elem]) ==
      match SlotFor(h, x, elem)
      case None => None
      case Some(slot) => Child(h, x, slot)
    ensures SlotFor(h, x, elem).Some? && Child(h, x, SlotFor(h, x, elem).value).Some? ==>
      SlotsOf(h, x, [elem]) == Some([SlotFor(h, x, elem).value])
  {
    assert [elem][1..] == [];
    if SlotFor(h, x, elem).Some? {
      assert [SlotFor(h, x, elem).value] + [] == [SlotFor(h, x, elem).value];
    }
  }

  /** One turn of the insertion loop at a missing key. */
  lemma InsertStep(h: Heap, root: Ref, path: seq<bytes>, i: nat, next: Any) returns (h': Heap)
    requires Valid(h) && Tree(h, root) && i + 1 < |path|
    requires Resolve(h, Ptr(root), path[..i]) == Some(next)
    requires Resolve(h, Ptr(root), path[..i + 1]) == None
    requires next.Ptr? && next.ref in h.nodes && h.nodes[next.ref].DocNode? && ValidKey(path[i])
    ensures h' == Put(Alloc(h), next.ref, Key(path[i]), Ptr(h.next))
    ensures Valid(h') && Tree(h', root) && Extends(h, h', root)
    ensures Resolve(h', Ptr(root), path[..i + 1]) == Some(Ptr(h.next))
  {
    var r, key := next.ref, path[i];
    assert path[..i + 1] == path[..i] + [key];
    ResolveConcat(h, Ptr(root), path[..i], [key]);
    ResolveOne(h, next, key);
    ResolveFollows(h, Ptr(root), path[..i]);
    var p := SlotsOf(h, Ptr(root), path[..i]).value;
    InsertOne(h, root, p, r, key);
    h' := Put(Alloc(h), r, Key(key), Ptr(h.next));
    ResolveKept(h, h', root, path[..i], p);
    ResolveConcat(h', Ptr(root), path[..i], [key]);
    ResolveOne(h', next, key);
  }

  /** Documents stay documents and arrays stay arrays along a path that is kept. */
  ghost predicate SameKinds(h: Heap, h': Heap)
  {
    forall r :: r in h.nodes ==> r in h'.nodes && h'.nodes[r].DocNode? == h.nodes[r].DocNode?
  }

  lemma {:induction false} ResolveSame(h: Heap, h': Heap, x: Any, path: seq<bytes>, slots: seq<Slot>)
    requires SameKinds(h, h')
    requires SlotsOf(h, x, path) == Some(slots)
    requires forall q :: q <= slots ==> Follow(h', x, q) == Follow(h, x, q)
    ensures Resolve(h', x, path) == Resolve(h, x, path)
    ensures SlotsOf(h', x, path) == Some(slots)
    decreases |path|
  {
    if path == [] {
    } else {
      var slot := SlotFor(h, x, path[0]).value;
      var y := Child(h, x, slot).value;
      var rest := SlotsOf(h, y, path[1..]).value;
      assert slots[0] == slot && slots[1..] == rest;
      FollowOne(h, x, slot);
      FollowOne(h', x, slot);
      assert [slot] <= slots;
      assert Child(h', x, slot) == Some(y);
      forall q | q <= rest
        ensures Follow(h', y, q) == Follow(h, y, q)
      {
        assert [slot] + q <= slots;
        FollowConcat(h, x, [slot], q);
        FollowConcat(h', x, [slot], q);
      }
      ResolveSame(h, h', y, path[1..], rest);
    }
  }

  lemma FollowOne(h: Heap, x: Any, slot: Slot)
    ensures Follow(h, x, [slot]) == Child(h, x, slot)
  {
    assert [slot][1..] == [];
  }

  lemma {:induction false} FollowPrefixSome(h: Heap, x: Any, slots: seq<Slot>, q: seq<Slot>)
    requires Follow(h, x, slots).Some? && q <= slots
    ensures Follow(h, x, q).Some?
  {
    assert slots == q + slots[|q|..];
    FollowConcat(h, x, q, slots[|q|..]);
  }

  lemma ResolveKept(h: Heap, h': Heap, root: Ref, path: seq<bytes>, slots: seq<Slot>)
    requires SameKinds(h, h') && Extends(h, h', root)
    requires SlotsOf(h, Ptr(root), path) == Some(slots)
    ensures Resolve(h', Ptr(root), path) == Resolve(h, Ptr(root), path)
  {
    ResolveFollows(h, Ptr(root), path);
    forall q | q <= slots
      ensures Follow(h', Ptr(root), q) == Follow(h, Ptr(root), q)
    {
      FollowPrefixSome(h, Ptr(root), slots, q);
    }
    ResolveSame(h, h', Ptr(root), path, slots);
  }
}
