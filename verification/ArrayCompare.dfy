/** `compareArrays`: what it says of flat arrays, and that it always has an answer. */
module ArrayCompare {
  import opened Values
  import opened Wrappers
  import opened Compare
  import opened CompareLaws

  // ------------------------------------------------------------- flat arrays

  ghost predicate Flat(env: Env, elems: seq<Value>)
  {
    forall i :: 0 <= i < |elems| ==> Orderable(env, elems[i])
  }

  /** Position 0 is judged by `CompareOrder`, the others by `compareScalars`. */
  ghost function At(env: Env, filter: seq<Value>, doc: seq<Value>, i: nat): Option<CompareResult>
    requires i < |filter| && i < |doc|
  {
    if i == 0 then CompareOrder(env, doc[i], filter[i], Ascending) else CompareScalars(env, doc[i], filter[i])
  }

  /** The first position that is not equal decides, else the lengths do. */
  ghost function FirstDifference(env: Env, filter: seq<Value>, doc: seq<Value>, i: nat): CompareResult
    requires i <= |doc|
    decreases |doc| - i
  {
    if i < |doc| && i < |filter| then
      var r := At(env, filter, doc, i);
      if r == Some(Equal) then FirstDifference(env, filter, doc, i + 1)
      else if r.Some? then r.value
      else Incomparable
    else CompareInts(|doc|, |filter|)
  }

  lemma ScalarsDefined(env: Env, a: Value, b: Value)
    requires Orderable(env, a) && Orderable(env, b)
    ensures CompareScalars(env, a, b).Some?
  {
  }

  lemma SingleMerge(r: CompareResult, it: CompareResult)
    requires it != r
    ensures MergeScalar([r], it, false) == ([if r == Equal then it else r], false)
  {
    if r == Equal {
      assert DeleteResult([Equal], Equal) == [];
      assert [] + [it] == [it];
    }
  }

  lemma {:induction false} FlatLoop(env: Env, filter: seq<Value>, doc: seq<Value>, i: nat, r: CompareResult)
    requires env.unit >= 1 && Flat(env, filter) && Flat(env, doc) && 1 <= i <= |doc| && filter != []
    requires r == Equal ==> i <= |filter|
    ensures LoopFrom(env, filter, doc, i, Loop([r], false, false, false))
         == Some([if r == Equal then FirstDifference(env, filter, doc, i) else r])
    decreases |doc| - i
  {
    var s := Loop([r], false, false, false);
    if i < |doc| {
      assert !doc[i].Array? && StepAt(env, filter, doc, i, s) == ScalarStep(env, filter, doc, i, s);
      if i < |filter| {
        ScalarsDefined(env, doc[i], filter[i]);
        var it := CompareScalars(env, doc[i], filter[i]).value;
        if it == r {
          FlatLoop(env, filter, doc, i + 1, r);
        } else {
          SingleMerge(r, it);
          FlatLoop(env, filter, doc, i + 1, if r == Equal then it else r);
        }
      } else {
        FlatLoop(env, filter, doc, i + 1, if r == Equal then Greater else r);
      }
    }
  }

  /** On flat arrays there is exactly one result. */
  lemma FlatArrays(env: Env, filter: seq<Value>, doc: seq<Value>)
    requires env.unit >= 1 && Flat(env, filter) && Flat(env, doc)
    ensures CompareArrays(env, filter, doc) == Some([FirstDifference(env, filter, doc, 0)])
  {
    if doc != [] {
      assert !doc[0].Array? && StepAt(env, filter, doc, 0, START) == ScalarStep(env, filter, doc, 0, START);
      if filter != [] {
        OrderByKey(env, doc[0], filter[0], Ascending);
        var r := CompareOrder(env, doc[0], filter[0], Ascending).value;
        FlatLoop(env, filter, doc, 1, r);
      }
    }
  }

  // ----------------------------------------------------------- nested arrays

  /** No documents at any depth, and every regular expression compiles. */
  ghost predicate Comparable(env: Env, v: Value)
  {
    if v.Array? then AllComparable(env, v.elems) else Orderable(env, v)
  }

  ghost predicate AllComparable(env: Env, elems: seq<Value>)
  {
    forall i :: 0 <= i < |elems| ==> Comparable(env, elems[i])
  }

  lemma OrderDefined(env: Env, a: Value, b: Value, order: SortType)
    requires env.unit >= 1 && Comparable(env, a) && Comparable(env, b) && !(a.Array? && b.Array?)
    ensures CompareOrder(env, a, b, order).Some?
  {
    if !a.Array? && !b.Array? {
      OrderByKey(env, a, b, order);
    }
  }

  lemma ElementsDefined(env: Env, a: Value, b: Value)
    requires Comparable(env, a) && Comparable(env, b) && !a.Array?
    ensures CompareScalars(env, a, b).Some?
  {
  }

  lemma MergeNonEmpty(rs: seq<CompareResult>, it: seq<CompareResult>, r: CompareResult, subArray: bool)
    requires rs != [] && it != []
    ensures MergeArray(rs, it).0 != [] && MergeScalar(rs, r, subArray).0 != []
  {
  }

  /** What an iteration may leave: a result to return, or results to go on with. */
  ghost predicate Defined(f: Flow)
  {
    match f
    case Panic => false
    case Return(rs) => rs != []
    case Next(s) => s.results != []
  }

  lemma ScalarStepDefined(env: Env, filter: seq<Value>, doc: seq<Value>, i: nat, s: Loop)
    requires env.unit >= 1 && AllComparable(env, filter) && AllComparable(env, doc)
    requires i < |doc| && !doc[i].Array? && (i > 0 ==> s.results != []) && (i == 0 ==> !s.gtAndLt)
    ensures Defined(ScalarStep(env, filter, doc, i, s))
  {
    if i < |filter| {
      OrderDefined(env, doc[i], filter[i], Ascending);
      ElementsDefined(env, doc[i], filter[i]);
      if i > 0 {
        MergeNonEmpty(s.results, [Equal], CompareScalars(env, doc[i], filter[i]).value, s.subArray);
      }
    }
  }

  lemma SubArrayStepDefined(env: Env, filter: seq<Value>, doc: seq<Value>, i: nat, it: seq<CompareResult>, s: Loop)
    requires env.unit >= 1 && AllComparable(env, filter) && AllComparable(env, doc) && it != []
    requires i < |doc| && doc[i].Array? && (i < |filter| ==> !filter[i].Array?)
    requires (i > 0 ==> s.results != []) && (i == 0 ==> !s.gtAndLt)
    ensures Defined(SubArrayStep(env, filter, doc, i, it, s))
  {
    if i > 0 {
      MergeNonEmpty(s.results, it, Equal, false);
    } else if filter != [] {
      OrderDefined(env, doc[i], filter[i], Ascending);
      var r := CompareOrder(env, doc[i], filter[i], Ascending).value;
      MergeNonEmpty(s.results + it + [r], it, Equal, false);
    }
  }

  lemma {:induction false} LoopDefined(env: Env, filter: seq<Value>, doc: seq<Value>, i: nat, s: Loop)
    requires env.unit >= 1 && AllComparable(env, filter) && AllComparable(env, doc)
    requires i <= |doc| && doc != [] && (i > 0 ==> s.results != []) && (i == 0 ==> !s.gtAndLt)
    ensures LoopFrom(env, filter, doc, i, s).Some? && LoopFrom(env, filter, doc, i, s).value != []
    decreases doc, 0, |doc| - i
  {
    if i == |doc| {
    } else {
      if !doc[i].Array? {
        ScalarStepDefined(env, filter, doc, i, s);
      } else if i < |filter| && filter[i].Array? {
        assert Comparable(env, filter[i]) && Comparable(env, doc[i]);
        ArraysDefined(env, filter[i].elems, doc[i].elems);
      } else if doc[i].elems != [] {
        assert Comparable(env, doc[i]);
        ArraysDefined(env, filter, doc[i].elems);
        SubArrayStepDefined(env, filter, doc, i, CompareArrays(env, filter, doc[i].elems).value, s);
      }
      var f := StepAt(env, filter, doc, i, s);
      if f.Next? {
        LoopDefined(env, filter, doc, i + 1, f.state);
      }
    }
  }

  /** On arrays without documents `compareArrays` ends without a panic and with at least one result. */
  lemma {:induction false} ArraysDefined(env: Env, filter: seq<Value>, doc: seq<Value>)
    requires env.unit >= 1 && AllComparable(env, filter) && AllComparable(env, doc)
    ensures CompareArrays(env, filter, doc).Some? && CompareArrays(env, filter, doc).value != []
    decreases doc, 1
  {
    if doc == [] {
    } else {
      LoopDefined(env, filter, doc, 0, START);
    }
  }

  /** So `CompareOrder` always finds a first result, whatever arrays it is given. */
  lemma CompareOrderDefined(env: Env, a: Value, b: Value, order: SortType)
    requires env.unit >= 1 && Comparable(env, a) && Comparable(env, b)
    ensures CompareOrder(env, a, b, order).Some?
  {
    if a.Array? && b.Array? {
      ArraysDefined(env, b.elems, a.elems);
    } else {
      OrderDefined(env, a, b, order);
    }
  }

  // ----------------------------------------------------------------- panics

  /** Documents and scalars that can be ordered, but no arrays. */
  ghost predicate Shallow(env: Env, elems: seq<Value>)
  {
    forall i :: 0 <= i < |elems| ==> elems[i].Document? || Orderable(env, elems[i])
  }

  lemma {:induction false} LaterDefined(env: Env, filter: seq<Value>, doc: seq<Value>, i: nat, s: Loop)
    requires Shallow(env, filter) && Shallow(env, doc) && 1 <= i <= |doc|
    ensures LoopFrom(env, filter, doc, i, s).Some?
    decreases |doc| - i
  {
    if i == |doc| {
    } else {
      assert StepAt(env, filter, doc, i, s) == ScalarStep(env, filter, doc, i, s);
      var f := ScalarStep(env, filter, doc, i, s);
      if f.Next? {
        LaterDefined(env, filter, doc, i + 1, f.state);
      }
    }
  }

  /** Without nested arrays a comparison panics exactly when neither array is empty and one starts with a document. */
  lemma ShallowArraysPanicExactly(env: Env, filter: seq<Value>, doc: seq<Value>)
    requires env.unit >= 1 && Shallow(env, filter) && Shallow(env, doc)
    ensures CompareArrays(env, filter, doc).None? <==>
              doc != [] && filter != [] && (doc[0].Document? || filter[0].Document?)
  {
    if doc != [] {
      assert StepAt(env, filter, doc, 0, START) == ScalarStep(env, filter, doc, 0, START);
      if filter != [] && !doc[0].Document? && !filter[0].Document? {
        OrderByKey(env, doc[0], filter[0], Ascending);
        var r := CompareOrder(env, doc[0], filter[0], Ascending).value;
        LaterDefined(env, filter, doc, 1, START.(results := [r]));
      }
    }
  }

  // --------------------------------------------------------------- the loops

  /** `deleteFromCompareResult` on a slice; `n` is the new length. */
  method DeleteInPlace(arr: array<CompareResult>, value: CompareResult) returns (n: nat)
    modifies arr
    ensures n <= arr.Length && arr[..n] == DeleteResult(old(arr[..]), value)
  {
    for i := 0 to arr.Length
      invariant arr[..] == old(arr[..])
      invariant DeleteResult(arr[..], value) == DeleteAt(arr[..], value, i)
    {
      if arr[i] == value {
        arr[i] := arr[arr.Length - 1];
        assert arr[..] == old(arr[..])[i := old(arr[..])[arr.Length - 1]];
        return arr.Length - 1;
      }
    }
    return arr.Length;
  }

  /** `compareArrays` as it runs: flags and results updated in a loop, with early returns. */
  method RunCompareArrays(env: Env, filter: seq<Value>, doc: seq<Value>) returns (r: Option<seq<CompareResult>>)
    ensures r == CompareArrays(env, filter, doc)
    decreases doc
  {
    if doc == [] {
      return Some(if filter == [] then [Equal] else [Less]);
    }
    var results: seq<CompareResult> := [];
    var subArrayEquality, gtAndLt, subArray := false, false, false;
    for i := 0 to |doc|
      invariant CompareArrays(env, filter, doc)
             == LoopFrom(env, filter, doc, i, Loop(results, subArrayEquality, gtAndLt, subArray))
    {
      ghost var s := Loop(results, subArrayEquality, gtAndLt, subArray);
      ghost var f := StepAt(env, filter, doc, i, s);
      if doc[i].Array? {
        if i < |filter| && filter[i].Array? {
          var it := RunCompareArrays(env, filter[i].elems, doc[i].elems);
          if it.None? {
            return None;
          }
          if i == 0 {
            results := results + it.value;
          }
          results := results + [Less];
        } else {
          if doc[i].elems == [] {
            return Some(if i >= |filter| then [Greater, Equal] else [Greater, Less]);
          }
          subArray := true;
          var it := RunCompareArrays(env, filter, doc[i].elems);
          if it.None? {
            return None;
          }
          assert f == SubArrayStep(env, filter, doc, i, it.value, s);
          if Equal in it.value {
            subArrayEquality := true;
          }
          if gtAndLt {
            continue;
          }
          if i == 0 {
            if filter == [] {
              return Some([Greater]);
            }
            var first := CompareOrder(env, doc[i], filter[i], Ascending);
            if first.None? {
              return None;
            }
            results := results + it.value + [first.value];
          }
          var merged := MergeArray(results, it.value);
          results, gtAndLt := merged.0, merged.1;
        }
      } else {
        assert f == ScalarStep(env, filter, doc, i, s);
        if gtAndLt {
          continue;
        }
        if i >= |filter| {
          if filter == [] {
            return Some([Greater]);
          }
          if Equal in results && |doc| > |filter| {
            results := [Greater];
          }
          continue;
        }
        var it :=
          if i == 0 then CompareOrder(env, doc[i], filter[i], Ascending) else CompareScalars(env, doc[i], filter[i]);
        if it.None? {
          return None;
        }
        if i == 0 {
          results := [it.value];
        } else if it.value !in results {
          var merged := MergeScalar(results, it.value, subArray);
          results, gtAndLt := merged.0, merged.1;
        }
      }
    }
    return Some(Finish(filter, doc, Loop(results, subArrayEquality, gtAndLt, subArray)));
  }
}
