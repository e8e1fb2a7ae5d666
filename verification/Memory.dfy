/** The path operations as loops over documents that are updated in place. */
module Memory {
  import opened Bytes
  import opened Text
  import opened Values
  import opened Wrappers
  import opened Store
  import opened Paths
  import opened PathRemoval

  datatype Status = Returned | Failed | Panicked

  ghost function OutcomeOf(status: Status, h: Heap): Outcome
  {
    match status
    case Returned => Done(h)
    case Failed => Error(h)
    case Panicked => Panic
  }

  class Documents {
    var heap: Heap

    constructor (h: Heap)
      ensures heap == h
    {
      heap := h;
    }

    /** `getByPath`: one step down per path element. */
    method GetByPath(x: Any, path: seq<bytes>) returns (r: Option<Any>)
      ensures r == Resolve(heap, x, path)
    {
      var next := x;
      for i := 0 to |path|
        invariant Resolve(heap, x, path) == Resolve(heap, next, path[i..])
      {
        var slot := SlotFor(heap, next, path[i]);
        assert path[i..][1..] == path[i + 1..];
        if slot.None? || Child(heap, next, slot.value).None? {
          return None;
        }
        next := Child(heap, next, slot.value).value;
      }
      return Some(next);
    }

    /** `insertByPath`: makes the documents that are missing before the last element. */
    method InsertByPath(root: Ref, path: Path) returns (status: Status)
      modifies this
      ensures OutcomeOf(status, heap) == InsertFrom(old(heap), root, path, 0, Ptr(root))
    {
      var next := Ptr(root);
      for i := 0 to |path| - 1
        invariant InsertFrom(heap, root, path, i, next) == InsertFrom(old(heap), root, path, 0, Ptr(root))
      {
        var v := GetByPath(Ptr(root), path[..i + 1]);
        if v.Some? {
          next := v.value;
          continue;
        }
        if !next.Ptr? || next.ref !in heap.nodes {
          return Panicked;
        }
        if heap.nodes[next.ref].ArrNode? {
          return if Atoi(path[i]).None? then Failed else Panicked;
        }
        if !ValidKey(path[i]) {
          return Panicked;
        }
        var doc := heap.next;
        heap := Alloc(heap);
        heap := Put(heap, next.ref, Key(path[i]), Ptr(doc));
        next := Ptr(doc);
      }
      return Returned;
    }

    /** `Document.SetByPath`. */
    method SetByPath(root: Ref, path: Path, value: Any) returns (status: Status)
      modifies this
      ensures OutcomeOf(status, heap) == Paths.SetByPath(old(heap), root, path, value)
    {
      var n := |path| - 1;
      if n == 0 {
        status := SetLast(Ptr(root), path[0], value);
        return;
      }
      var has := GetByPath(Ptr(root), path[..n]);
      if has.None? {
        status := InsertByPath(root, path);
        if status != Returned {
          return;
        }
      }
      var inner := GetByPath(Ptr(root), path[..n]);
      if inner.None? {
        return Panicked;
      }
      status := SetLast(inner.value, path[n], value);
    }

    /** `removeByPath`. */
    method RemoveByPath(x: Any, path: seq<bytes>) returns (status: Status)
      modifies this
      ensures OutcomeOf(status, heap) == RemoveFrom(old(heap), x, path)
      decreases |path|
    {
      if path == [] || !x.Ptr? || x.ref !in heap.nodes {
        return Returned;
      }
      var node := heap.nodes[x.ref];
      if node.DocNode? {
        if path[0] !in node.m {
          return Returned;
        }
        if |path| == 1 {
          heap := Replace(heap, x.ref, RemoveNode(node, Key(path[0])));
          return Returned;
        }
        status := RemoveByPath(node.m[path[0]], path[1..]);
      } else {
        var i := Atoi(path[0]);
        if i.None? || i.value > |node.elems| - 1 {
          return Returned;
        }
        if i.value < 0 {
          return Panicked;
        }
        if |path| == 1 {
          heap := Replace(heap, x.ref, RemoveNode(node, Index(i.value)));
          return Returned;
        }
        status := RemoveByPath(node.elems[i.value], path[1..]);
      }
    }

    method SetLast(inner: Any, elem: bytes, value: Any) returns (status: Status)
      modifies this
      ensures OutcomeOf(status, heap) == Paths.SetLast(old(heap), inner, elem, value)
    {
      if !inner.Ptr? || inner.ref !in heap.nodes {
        return Panicked;
      }
      if heap.nodes[inner.ref].DocNode? {
        if !ValidKey(elem) {
          return Failed;
        }
        heap := Put(heap, inner.ref, Key(elem), value);
        return Returned;
      }
      var index := Atoi(elem);
      if index.None? || index.value < 0 || index.value >= |heap.nodes[inner.ref].elems| {
        return Failed;
      }
      heap := Put(heap, inner.ref, Index(index.value), value);
      return Returned;
    }
  }
}
