/** `compareArrays` on an array of arrays: which results it gives, and when it misses an equal subarray. */
module SubarrayCompare {
  import opened Values
  import opened Wrappers
  import opened Compare
  import opened CompareLaws
  import opened ArrayCompare

  /** An array of arrays of scalars, none of them empty. */
  ghost predicate Nested(env: Env, doc: seq<Value>)
  {
    forall i :: 0 <= i < |doc| ==> doc[i].Array? && doc[i].elems != [] && Flat(env, doc[i].elems)
  }

  /** How one subarray compares with the filter. */
  ghost function Sub(env: Env, filter: seq<Value>, doc: seq<Value>, i: nat): CompareResult
    requires Nested(env, doc) && i < |doc|
  {
    FirstDifference(env, filter, doc[i].elems, 0)
  }

  /** One of the first `n` subarrays compares so. */
  ghost predicate Any(env: Env, filter: seq<Value>, doc: seq<Value>, n: nat, c: CompareResult)
    requires Nested(env, doc) && n <= |doc|
  {
    exists i :: 0 <= i < n && Sub(env, filter, doc, i) == c
  }

  ghost predicate AllEqual(env: Env, filter: seq<Value>, doc: seq<Value>, n: nat)
    requires Nested(env, doc) && n <= |doc|
  {
    forall i :: 0 <= i < n ==> Sub(env, filter, doc, i) == Equal
  }

  /** An array against the first element of the filter: it comes after null, numbers and strings. */
  function Outer(filter: seq<Value>): CompareResult
    requires filter != []
  {
    var v := filter[0];
    if v.Null? || v.Double? || v.Int32? || v.Int64? || v.String? then Greater else Less
  }

  lemma OuterCompares(env: Env, filter: seq<Value>, a: Value)
    requires filter != [] && IsScalar(filter[0]) && a.Array?
    ensures CompareOrder(env, a, filter[0], Ascending) == Some(Outer(filter))
  {
  }

  // -------------------------------------------------------------------- merging

  lemma MergeEqual(r: CompareResult, d: CompareResult)
    requires r in {Less, Greater}
    ensures MergeArray([Equal, r], [d]) ==
              if d == Equal then ([Equal, r], false)
              else if d == Invert(r) then ([Greater, Less], true)
              else ([r, d], false)
  {
    var rs := [Equal, r];
    assert DeleteResult(rs, Equal) == [r];
    assert Equal in rs && [r] + [d] == [r, d];
    assert (d in [d]) && (Equal in [d] <==> d == Equal);
  }

  lemma MergeOther(rs: seq<CompareResult>, r: CompareResult, d: CompareResult)
    requires r in {Less, Greater} && r in rs && Invert(r) !in rs && Equal !in rs
    ensures MergeArray(rs, [d]) == if d == Invert(r) then ([Greater, Less], true) else (rs, false)
  {
    assert forall c :: c in [d] <==> c == d;
  }

  /** What the loop knows after `n` subarrays. */
  ghost predicate Known(env: Env, filter: seq<Value>, doc: seq<Value>, n: nat, s: Loop)
    requires filter != [] && IsScalar(filter[0]) && Nested(env, doc) && n <= |doc|
  {
    var r := Outer(filter);
    && (s.subArrayEquality <==> Any(env, filter, doc, n, Equal))
    && (s.gtAndLt <==> Any(env, filter, doc, n, Invert(r)))
    && if s.gtAndLt then s.results == [Greater, Less]
       else if AllEqual(env, filter, doc, n) then s.results == [Equal, r]
       else r in s.results && Invert(r) !in s.results && Equal !in s.results
  }

  lemma OneMore(env: Env, filter: seq<Value>, doc: seq<Value>, n: nat, c: CompareResult)
    requires Nested(env, doc) && n < |doc|
    ensures Any(env, filter, doc, n + 1, c) <==> Any(env, filter, doc, n, c) || Sub(env, filter, doc, n) == c
    ensures AllEqual(env, filter, doc, n + 1) <==> AllEqual(env, filter, doc, n) && Sub(env, filter, doc, n) == Equal
  {
  }

  lemma SubCompares(env: Env, filter: seq<Value>, doc: seq<Value>, i: nat)
    requires env.unit >= 1 && filter != [] && Flat(env, filter) && Nested(env, doc) && i < |doc|
    ensures CompareArrays(env, filter, doc[i].elems) == Some([Sub(env, filter, doc, i)])
  {
    FlatArrays(env, filter, doc[i].elems);
  }

  lemma FirstTurn(env: Env, filter: seq<Value>, doc: seq<Value>)
    requires env.unit >= 1 && filter != [] && Flat(env, filter) && Nested(env, doc) && doc != []
    ensures var f := StepAt(env, filter, doc, 0, START); f.Next? && Known(env, filter, doc, 1, f.state)
  {
    var d, r := Sub(env, filter, doc, 0), Outer(filter);
    SubCompares(env, filter, doc, 0);
    OuterCompares(env, filter, doc[0]);
    var f := SubArrayStep(env, filter, doc, 0, [d], START);
    assert StepAt(env, filter, doc, 0, START) == f;
    assert [] + [d] + [r] == [d, r];
    assert forall c :: c in [d, r] <==> c == d || c == r;
    assert forall c :: c in [d] <==> c == d;
    OneMore(env, filter, doc, 0, Equal);
    OneMore(env, filter, doc, 0, Invert(r));
  }

  lemma NextTurn(env: Env, filter: seq<Value>, doc: seq<Value>, i: nat, s: Loop)
    requires env.unit >= 1 && filter != [] && Flat(env, filter) && Nested(env, doc) && 0 < i < |doc|
    requires Known(env, filter, doc, i, s)
    ensures var f := StepAt(env, filter, doc, i, s); f.Next? && Known(env, filter, doc, i + 1, f.state)
  {
    var d, r := Sub(env, filter, doc, i), Outer(filter);
    SubCompares(env, filter, doc, i);
    assert StepAt(env, filter, doc, i, s) == SubArrayStep(env, filter, doc, i, [d], s);
    assert forall c :: c in [d] <==> c == d;
    OneMore(env, filter, doc, i, Equal);
    OneMore(env, filter, doc, i, Invert(r));
    if !s.gtAndLt {
      if AllEqual(env, filter, doc, i) {
        MergeEqual(r, d);
        assert forall c :: c in [r, d] <==> c == r || c == d;
      } else {
        MergeOther(s.results, r, d);
      }
    }
  }

  lemma {:induction false} Turns(env: Env, filter: seq<Value>, doc: seq<Value>, i: nat, s: Loop) returns (t: Loop)
    requires env.unit >= 1 && filter != [] && Flat(env, filter) && Nested(env, doc) && 0 < i <= |doc|
    requires Known(env, filter, doc, i, s)
    ensures Known(env, filter, doc, |doc|, t)
    ensures LoopFrom(env, filter, doc, i, s) == Some(Finish(filter, doc, t))
    decreases |doc| - i
  {
    if i == |doc| {
      t := s;
    } else {
      NextTurn(env, filter, doc, i, s);
      t := Turns(env, filter, doc, i + 1, StepAt(env, filter, doc, i, s).state);
    }
  }

  // ----------------------------------------------------------------------- result

  /** Every subarray equals the filter, and there are fewer subarrays than the filter has elements. */
  ghost predicate Missed(env: Env, filter: seq<Value>, doc: seq<Value>)
    requires Nested(env, doc)
  {
    AllEqual(env, filter, doc, |doc|) && |doc| < |filter|
  }

  /**
   The results for an array of arrays: how an array compares with the first element of the filter;
   the opposite if some subarray compares so; and equal if some subarray does, unless that is missed.
   */
  lemma SubarraysExactly(env: Env, filter: seq<Value>, doc: seq<Value>)
    requires env.unit >= 1 && filter != [] && Flat(env, filter) && Nested(env, doc) && doc != []
    ensures CompareArrays(env, filter, doc).Some?
    ensures var rs, r := CompareArrays(env, filter, doc).value, Outer(filter);
            if Missed(env, filter, doc) then rs == [Less]
            else
              && (Equal in rs <==> Any(env, filter, doc, |doc|, Equal))
              && r in rs
              && (Invert(r) in rs <==> Any(env, filter, doc, |doc|, Invert(r)))
  {
    FirstTurn(env, filter, doc);
    var t := Turns(env, filter, doc, 1, StepAt(env, filter, doc, 0, START).state);
    assert CompareArrays(env, filter, doc) == Some(Finish(filter, doc, t));
    FinishKnown(env, filter, doc, t);
  }

  lemma FinishKnown(env: Env, filter: seq<Value>, doc: seq<Value>, t: Loop)
    requires filter != [] && IsScalar(filter[0]) && Nested(env, doc) && doc != [] && Known(env, filter, doc, |doc|, t)
    ensures var rs, r := Finish(filter, doc, t), Outer(filter);
            if Missed(env, filter, doc) then rs == [Less]
            else
              && (Equal in rs <==> Any(env, filter, doc, |doc|, Equal))
              && r in rs
              && (Invert(r) in rs <==> Any(env, filter, doc, |doc|, Invert(r)))
  {
    var r, n := Outer(filter), |doc|;
    assert forall c :: c in [Greater, Less] <==> c == Greater || c == Less;
    assert forall c :: c in [Equal, r] <==> c == Equal || c == r;
    assert forall c :: c in t.results + [Equal] <==> c in t.results || c == Equal;
    if AllEqual(env, filter, doc, n) {
      assert Sub(env, filter, doc, 0) == Equal;
      assert !Any(env, filter, doc, n, Invert(r));
    }
  }

  /** An equal subarray is found exactly when some subarray equals the filter and that is not missed. */
  lemma EqualSubarrayFoundExactly(env: Env, filter: seq<Value>, doc: seq<Value>)
    requires env.unit >= 1 && filter != [] && Flat(env, filter) && Nested(env, doc) && doc != []
    ensures CompareArrays(env, filter, doc).Some?
    ensures Equal in CompareArrays(env, filter, doc).value <==>
              Any(env, filter, doc, |doc|, Equal) && !Missed(env, filter, doc)
  {
    SubarraysExactly(env, filter, doc);
  }

  /** The document [[1, 2]] is not found to contain [1, 2]. */
  lemma EqualSubarrayMissed(env: Env)
    requires env.unit >= 1
    ensures var filter := [Int32(1), Int32(2)]; CompareArrays(env, filter, [Array(filter)]) == Some([Less])
  {
    var filter := [Int32(1), Int32(2)];
    var doc := [Array(filter)];
    NumbersOrder(env, Int32(1), Int32(1), Ascending);
    assert At(env, filter, filter, 0) == Some(Equal) && At(env, filter, filter, 1) == Some(Equal);
    assert FirstDifference(env, filter, filter, 2) == Equal;
    assert FirstDifference(env, filter, filter, 1) == Equal;
    assert Sub(env, filter, doc, 0) == Equal;
    SubarraysExactly(env, filter, doc);
  }
}
