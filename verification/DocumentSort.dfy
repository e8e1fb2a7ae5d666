/** `SortDocuments`: what sorting documents in place gives. */
module DocumentSort {
  import opened Values
  import opened Wrappers
  import opened Compare
  import opened Sorting

  // ----------------------------------------------------- sorting by swaps

  /** One pass of the sort: swap the element at `j` down until its predecessor is not greater. */
  function Sink(less: Less, s: seq<Fields>, j: nat): (r: seq<Fields>)
    requires j < |s|
    ensures |r| == |s|
    decreases j
  {
    if j > 0 && less(s[j], s[j - 1]) then Sink(less, s[j := s[j - 1]][j - 1 := s[j]], j - 1) else s
  }

  function SortFrom(less: Less, s: seq<Fields>, i: nat): (r: seq<Fields>)
    requires i <= |s|
    ensures |r| == |s|
    decreases |s| - i
  {
    if i == |s| then s else SortFrom(less, Sink(less, s, i), i + 1)
  }

  lemma SwapPermutes(s: seq<Fields>, i: nat, j: nat)
    requires i < j < |s|
    ensures multiset(s[j := s[i]][i := s[j]]) == multiset(s)
  {
  }

  lemma {:induction false} SinkPermutes(less: Less, s: seq<Fields>, j: nat)
    requires j < |s|
    ensures multiset(Sink(less, s, j)) == multiset(s)
    decreases j
  {
    if j > 0 && less(s[j], s[j - 1]) {
      SwapPermutes(s, j - 1, j);
      SinkPermutes(less, s[j := s[j - 1]][j - 1 := s[j]], j - 1);
    }
  }

  /** The elements before `n` are in order, but the one at `j` may belong further down. */
  ghost predicate SortedBut(less: Less, s: seq<Fields>, n: nat, j: nat)
    requires n <= |s|
  {
    forall p, q :: 0 <= p < q < n && q != j ==> !less(s[q], s[p])
  }

  ghost predicate SortedTo(less: Less, s: seq<Fields>, n: nat)
    requires n <= |s|
  {
    forall p, q :: 0 <= p < q < n ==> !less(s[q], s[p])
  }

  ghost predicate Within(s: seq<Fields>, docs: seq<Fields>)
  {
    forall i :: 0 <= i < |s| ==> s[i] in docs
  }

  lemma {:induction false} SinkSorts(less: Less, s: seq<Fields>, j: nat, n: nat, docs: seq<Fields>)
    requires StrictWeak(less, docs) && Within(s, docs) && j < n <= |s| && SortedBut(less, s, n, j)
    ensures SortedTo(less, Sink(less, s, j), n) && Within(Sink(less, s, j), docs)
    decreases j
  {
    if j > 0 && less(s[j], s[j - 1]) {
      var s' := s[j := s[j - 1]][j - 1 := s[j]];
      assert s[j] in docs && s[j - 1] in docs;
      SinkSorts(less, s', j - 1, n, docs);
    } else if j > 0 {
      forall p | 0 <= p < j
        ensures !less(s[j], s[p])
      {
        assert s[p] in docs && s[j - 1] in docs && s[j] in docs;
      }
    }
  }

  lemma {:induction false} SortPermutes(less: Less, s: seq<Fields>, i: nat)
    requires i <= |s|
    ensures multiset(SortFrom(less, s, i)) == multiset(s)
    decreases |s| - i
  {
    if i == |s| {
    } else {
      SinkPermutes(less, s, i);
      SortPermutes(less, Sink(less, s, i), i + 1);
    }
  }

  lemma {:induction false} SortSorts(less: Less, s: seq<Fields>, i: nat, docs: seq<Fields>)
    requires StrictWeak(less, docs) && Within(s, docs) && i <= |s| && SortedTo(less, s, i)
    ensures SortedTo(less, SortFrom(less, s, i), |s|)
    decreases |s| - i
  {
    if i == |s| {
    } else {
      SinkSorts(less, s, i, i + 1, docs);
      SortSorts(less, Sink(less, s, i), i + 1, docs);
    }
  }

  /** The order that a comparison which may panic stands for. */
  function Strict(less: (Fields, Fields) -> Option<bool>): Less
  {
    (p, q) => less(p, q) == Some(true)
  }

  ghost predicate SomePairPanics(less: (Fields, Fields) -> Option<bool>, docs: seq<Fields>)
  {
    exists p, q :: p in docs && q in docs && less(p, q).None?
  }

  /**
   `sort.Sort` with `docsSorter`'s `Less` and `Swap`, as insertion sort.  A panic leaves the
   documents permuted in some way.
   */
  method SortInPlace(less: (Fields, Fields) -> Option<bool>, a: array<Fields>) returns (panicked: bool)
    modifies a
    ensures !panicked ==> a[..] == SortFrom(Strict(less), old(a[..]), 0)
    ensures panicked ==> multiset(a[..]) == multiset(old(a[..])) && SomePairPanics(less, old(a[..]))
  {
    ghost var strict := Strict(less);
    for i := 0 to a.Length
      invariant SortFrom(strict, old(a[..]), 0) == SortFrom(strict, a[..], i)
      invariant multiset(a[..]) == multiset(old(a[..]))
    {
      var j := i;
      ghost var start := a[..];
      while j > 0
        invariant 0 <= j < a.Length
        invariant Sink(strict, start, i) == Sink(strict, a[..], j)
        invariant multiset(a[..]) == multiset(old(a[..]))
      {
        var swap := less(a[j], a[j - 1]);
        if swap.None? {
          PanicFound(less, a[..], old(a[..]), j, j - 1);
          return true;
        }
        if !swap.value {
          break;
        }
        ghost var s := a[..];
        a[j], a[j - 1] := a[j - 1], a[j];
        assert a[..] == s[j := s[j - 1]][j - 1 := s[j]];
        j := j - 1;
      }
      SinkPermutes(strict, start, i);
    }
    return false;
  }

  lemma PanicFound(less: (Fields, Fields) -> Option<bool>, s: seq<Fields>, was: seq<Fields>, i: nat, j: nat)
    requires i < |s| && j < |s| && multiset(s) == multiset(was) && less(s[i], s[j]).None?
    ensures SomePairPanics(less, was)
  {
    assert s[i] in multiset(was) && s[j] in multiset(was);
  }

  /** The loop that builds the sort functions. */
  method ParseSort(sort: Fields) returns (r: Result<seq<SortKey>, SortError>)
    ensures r == KeysOf(sort)
  {
    var keys: seq<SortKey> := [];
    PrependNothing(KeysOf(sort));
    assert sort[0..] == sort;
    for i := 0 to |sort|
      invariant KeysOf(sort) == Prepend(keys, KeysOf(sort[i..]))
    {
      assert sort[i..][0] == sort[i] && sort[i..][1..] == sort[i + 1..];
      var order := SortTypeOf(sort[i].value);
      if order.Failure? {
        return Failure(order.error);
      }
      PrependOne(keys, SortKey(sort[i].key, order.value), KeysOf(sort[i + 1..]));
      keys := keys + [SortKey(sort[i].key, order.value)];
    }
    assert keys + [] == keys;
    return Success(keys);
  }

  datatype SortOutcome = Refused(error: SortError) | Panicked | Sorted(keys: seq<SortKey>)

  function LessOrPanic(env: Env, keys: seq<SortKey>): (Fields, Fields) -> Option<bool>
    requires keys != []
  {
    (p, q) => LessDocs(env, keys, p, q)
  }

  /**
   `SortDocuments`: a bad specification is refused and nothing changes; otherwise the documents are
   permuted, and if each has every sort key with a value that can be ordered, there is no panic
   and they are sorted.  Nothing else panics than a comparison of two of the documents.
   */
  method SortDocuments(env: Env, docs: array<Fields>, sort: Fields) returns (r: SortOutcome)
    requires env.unit >= 1
    modifies docs
    ensures r.Refused? <==> |sort| > 32 || KeysOf(sort).Failure?
    ensures r.Refused? ==> r.error == if |sort| > 32 then TooManyKeys else KeysOf(sort).error
    ensures r.Sorted? ==> KeysOf(sort) == Success(r.keys)
    ensures r.Refused? || sort == [] ==> docs[..] == old(docs[..])
    ensures multiset(docs[..]) == multiset(old(docs[..]))
    ensures r.Panicked? ==> sort != [] && KeysOf(sort).Success? && KeysOf(sort).value != []
                            && SomePairPanics(LessOrPanic(env, KeysOf(sort).value), old(docs[..]))
    ensures !r.Refused? && sort != [] && (forall d :: d in old(docs[..]) ==> Sortable(env, KeysOf(sort).value, d)) ==>
              r.Sorted? && r.keys != [] && SortedTo(LessFunction(env, r.keys), docs[..], docs.Length)
  {
    if sort == [] {
      return Sorted([]);
    }
    if |sort| > 32 {
      return Refused(TooManyKeys);
    }
    var parsed := ParseSort(sort);
    if parsed.Failure? {
      return Refused(parsed.error);
    }
    var keys := parsed.value;
    ghost var was := docs[..];
    var less := LessOrPanic(env, keys);
    var panicked := SortInPlace(less, docs);
    r := if panicked then Panicked else Sorted(keys);
    SortPermutes(Strict(less), was, 0);
    if forall d :: d in was ==> Sortable(env, keys, d) {
      SortableSorts(env, keys, was);
    }
  }

  lemma SortableSorts(env: Env, keys: seq<SortKey>, docs: seq<Fields>)
    requires env.unit >= 1 && keys != [] && forall d :: d in docs ==> Sortable(env, keys, d)
    ensures !SomePairPanics(LessOrPanic(env, keys), docs)
    ensures SortedTo(LessFunction(env, keys), SortFrom(Strict(LessOrPanic(env, keys)), docs, 0), |docs|)
  {
    var less, strict := LessFunction(env, keys), Strict(LessOrPanic(env, keys));
    forall p, q | p in docs && q in docs
      ensures LessDocs(env, keys, p, q).Some?
    {
      LessIsDocOrder(env, keys, p, q);
    }
    assert forall p, q :: strict(p, q) == less(p, q);
    LessIsStrictWeak(env, keys, docs);
    assert StrictWeak(strict, docs);
    SortSorts(strict, docs, 0, docs);
  }

  // ---------------------------------------------------- any correct sort

  /** What `sort.IsSorted` looks at: neighbours. */
  ghost predicate NeighboursSorted(less: Less, s: seq<Fields>)
  {
    forall i :: 1 <= i < |s| ==> !less(s[i], s[i - 1])
  }

  /** Under a strict weak order, neighbours in order are all in order. */
  lemma {:induction false} NeighboursSuffice(less: Less, s: seq<Fields>, docs: seq<Fields>, n: nat)
    requires StrictWeak(less, docs) && Within(s, docs) && NeighboursSorted(less, s) && n <= |s|
    ensures SortedTo(less, s, n)
    decreases n
  {
    if n > 1 {
      NeighboursSuffice(less, s, docs, n - 1);
      forall p | 0 <= p < n - 1
        ensures !less(s[n - 1], s[p])
      {
        assert s[p] in docs && s[n - 2] in docs && s[n - 1] in docs;
        assert !less(s[n - 1], s[n - 2]);
      }
    }
  }

  /** How many elements are not greater than `x`. */
  function NotAbove(less: Less, x: Fields, s: seq<Fields>): nat
  {
    if s == [] then 0 else (if less(x, s[0]) then 0 else 1) + NotAbove(less, x, s[1..])
  }

  lemma {:induction false} NotAboveConcat(less: Less, x: Fields, a: seq<Fields>, b: seq<Fields>)
    ensures NotAbove(less, x, a + b) == NotAbove(less, x, a) + NotAbove(less, x, b)
  {
    if a == [] {
      assert a + b == b;
    } else {
      assert (a + b)[0] == a[0] && (a + b)[1..] == a[1..] + b;
      NotAboveConcat(less, x, a[1..], b);
    }
  }

  lemma {:induction false} NotAbovePermuted(less: Less, x: Fields, a: seq<Fields>, b: seq<Fields>)
    requires multiset(a) == multiset(b)
    ensures NotAbove(less, x, a) == NotAbove(less, x, b)
  {
    if a == [] {
      assert |multiset(b)| == |b|;
    } else {
      assert a == [a[0]] + a[1..];
      assert a[0] in multiset(b);
      var j :| 0 <= j < |b| && b[j] == a[0];
      assert multiset(a[1..]) == multiset(a) - multiset{a[0]};
      NotAboveWithout(less, x, b, j);
      NotAbovePermuted(less, x, a[1..], b[..j] + b[j + 1..]);
    }
  }

  lemma NotAboveWithout(less: Less, x: Fields, b: seq<Fields>, j: nat)
    requires j < |b|
    ensures multiset(b[..j] + b[j + 1..]) == multiset(b) - multiset{b[j]}
    ensures NotAbove(less, x, b) == NotAbove(less, x, b[..j] + b[j + 1..]) + if less(x, b[j]) then 0 else 1
  {
    var tail := [b[j]] + b[j + 1..];
    assert b == b[..j] + tail;
    assert tail[1..] == b[j + 1..];
    NotAboveConcat(less, x, b[..j], tail);
    NotAboveConcat(less, x, b[..j], b[j + 1..]);
  }

  lemma {:induction false} NotAboveAll(less: Less, x: Fields, s: seq<Fields>)
    ensures NotAbove(less, x, s) <= |s|
    ensures (forall i :: 0 <= i < |s| ==> !less(x, s[i])) ==> NotAbove(less, x, s) == |s|
    ensures (forall i :: 0 <= i < |s| ==> less(x, s[i])) ==> NotAbove(less, x, s) == 0
  {
    if s == [] {
    } else {
      NotAboveAll(less, x, s[1..]);
      assert forall i :: 0 <= i < |s| - 1 ==> s[1..][i] == s[i + 1];
    }
  }

  /** An element of a sorted sequence has at least its position and itself not above it. */
  lemma NotAboveOwn(less: Less, a: seq<Fields>, docs: seq<Fields>, i: nat)
    requires StrictWeak(less, docs) && Within(a, docs) && SortedTo(less, a, |a|) && i < |a|
    ensures NotAbove(less, a[i], a) >= i + 1
  {
    var x := a[i];
    assert x in docs;
    assert a == a[..i + 1] + a[i + 1..];
    NotAboveConcat(less, x, a[..i + 1], a[i + 1..]);
    NotAboveAll(less, x, a[..i + 1]);
  }

  /** What is less than the element at a position has at most that many not above it. */
  lemma NotAboveOther(less: Less, x: Fields, b: seq<Fields>, docs: seq<Fields>, i: nat)
    requires StrictWeak(less, docs) && Within(b, docs) && SortedTo(less, b, |b|) && i < |b|
    requires x in docs && less(x, b[i])
    ensures NotAbove(less, x, b) <= i
  {
    forall j | i <= j < |b|
      ensures less(x, b[j])
    {
      assert b[i] in docs && b[j] in docs;
    }
    assert b == b[..i] + b[i..];
    NotAboveConcat(less, x, b[..i], b[i..]);
    NotAboveAll(less, x, b[..i]);
    NotAboveAll(less, x, b[i..]);
  }

  lemma NotBelow(less: Less, a: seq<Fields>, b: seq<Fields>, docs: seq<Fields>, i: nat)
    requires StrictWeak(less, docs) && Within(a, docs) && Within(b, docs) && multiset(a) == multiset(b)
    requires SortedTo(less, a, |a|) && SortedTo(less, b, |b|) && i < |a| == |b|
    ensures !less(a[i], b[i])
  {
    if less(a[i], b[i]) {
      NotAbovePermuted(less, a[i], a, b);
      NotAboveOwn(less, a, docs, i);
      NotAboveOther(less, a[i], b, docs, i);
    }
  }

  /**
   The result does not depend on the algorithm: two sorted permutations of the same documents
   agree at every position up to ties.
   */
  lemma SortedResultsAgree(less: Less, a: seq<Fields>, b: seq<Fields>, docs: seq<Fields>)
    requires StrictWeak(less, docs) && Within(a, docs) && multiset(a) == multiset(b)
    requires SortedTo(less, a, |a|) && SortedTo(less, b, |b|)
    ensures |a| == |b| && forall i :: 0 <= i < |a| ==> !less(a[i], b[i]) && !less(b[i], a[i])
  {
    assert |multiset(a)| == |a| && |multiset(b)| == |b|;
    forall i | 0 <= i < |b|
      ensures b[i] in docs
    {
      assert b[i] in multiset(a);
    }
    forall i | 0 <= i < |a|
      ensures !less(a[i], b[i]) && !less(b[i], a[i])
    {
      NotBelow(less, a, b, docs, i);
      NotBelow(less, b, a, docs, i);
    }
  }
}
