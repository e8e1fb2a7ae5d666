/** The comparison operators of a filter mean the order of values; several operators mean all of them. */
module FilterOrder {
  import opened Bytes
  import opened Text
  import opened Values
  import opened Wrappers
  import opened Compare
  import opened CompareLaws
  import opened Filter
  import opened FilterLaws
  import ArrayCompare

  // ----------------------------------------------------------- scalar values

  /** The order of two scalars of the same kind: numbers by value, the others by their payload. */
  ghost function ValueOrder(env: Env, a: Value, b: Value): CompareResult
    requires Orderable(env, a) && Orderable(env, b)
  {
    if IsNumber(env, a) && IsNumber(env, b) then CompareInts(Number(env, a), Number(env, b))
    else Lex(Payload(env, a, Ascending), Payload(env, b, Ascending))
  }

  lemma DifferentKinds(env: Env, a: Value, b: Value)
    requires Orderable(env, a) && Orderable(env, b) && DataType(env, a) != DataType(env, b)
    ensures CompareScalars(env, a, b) == Some(Incomparable)
  {
  }

  /** Scalars of different kinds are incomparable; those of the same kind are compared by value. */
  lemma ScalarsByValue(env: Env, a: Value, b: Value)
    requires env.unit >= 1 && Orderable(env, a) && Orderable(env, b)
    ensures CompareScalars(env, a, b)
         == Some(if DataType(env, a) == DataType(env, b) then ValueOrder(env, a, b) else Incomparable)
  {
    if DataType(env, a) != DataType(env, b) {
      DifferentKinds(env, a, b);
    } else if IsNumber(env, a) {
      NumbersCompare(env, a, b);
    } else {
      PayloadCompare(env, a, b, Ascending);
    }
  }

  // --------------------------------------------------------------- operators

  /** What a comparison operator asks for. */
  function Wanted(op: Operator): set<CompareResult>
  {
    match op
    case Eq => {Equal}
    case Gt => {Greater}
    case Gte => {Equal, Greater}
    case Lt => {Less}
    case _ => {Equal, Less}
  }

  ghost predicate InOrder(env: Env, field: Value, arg: Value, kind: Operator)
    requires Orderable(env, field) && Orderable(env, arg)
  {
    DataType(env, field) == DataType(env, arg) && ValueOrder(env, field, arg) in Wanted(kind)
  }

  lemma OneComparison(r: Rules, doc: Fields, key: bytes, op: bytes, kind: Operator, arg: Value)
    requires OperatorKey(r, op, kind) && kind in {Eq, Gt, Gte, Lt, Lte}
    requires Has(doc, key) && IsScalar(arg) && !arg.Regex?
    ensures FilterExpr(r, doc, key, [Field(op, arg)]) == Compares(r, Get(doc, key), arg, Wanted(kind))
  {
    OneOperator(r, doc, key, op, arg);
  }

  /** On a scalar field a comparison operator holds exactly when the kinds agree and the values are in that order. */
  lemma ComparisonMeansOrder(r: Rules, doc: Fields, key: bytes, op: bytes, kind: Operator, arg: Value)
    requires r.env.unit >= 1 && OperatorKey(r, op, kind) && kind in {Eq, Gt, Gte, Lt, Lte}
    requires Has(doc, key) && Orderable(r.env, Get(doc, key)) && Orderable(r.env, arg) && !arg.Regex?
    ensures FilterExpr(r, doc, key, [Field(op, arg)]) == Success(InOrder(r.env, Get(doc, key), arg, kind))
  {
    var field := Get(doc, key);
    OneComparison(r, doc, key, op, kind, arg);
    ScalarsByValue(r.env, field, arg);
    SingleResult(r, field, arg, Wanted(kind));
  }

  lemma SingleResult(r: Rules, field: Value, arg: Value, wanted: set<CompareResult>)
    requires IsScalar(field) && CompareScalars(r.env, field, arg).Some?
    ensures Compares(r, field, arg, wanted) == Success(CompareScalars(r.env, field, arg).value in wanted)
  {
    var c := CompareScalars(r.env, field, arg).value;
    assert Compare.Compare(r.env, field, arg) == Some([c]);
    assert forall w :: w in [c] <==> w == c;
  }

  /** `$ne` is the negation of `$eq`, errors included, exactly where both look at the value. */
  lemma NeNegatesEqExactly(r: Rules, doc: Fields, key: bytes, eq: bytes, ne: bytes, arg: Value)
    requires OperatorKey(r, eq, Eq) && OperatorKey(r, ne, Ne)
    ensures FilterExpr(r, doc, key, [Field(ne, arg)]) == Negate(FilterExpr(r, doc, key, [Field(eq, arg)]))
       <==> Has(doc, key) && !arg.Regex? && (arg.Document? ==> Get(doc, key).Document?)
  {
    OneOperator(r, doc, key, eq, arg);
    OneOperator(r, doc, key, ne, arg);
  }

  // -------------------------------------------------------- several operators

  /** The "$options" of an expression. */
  function OptionsPart(r: Rules, expr: Fields): Fields
  {
    if expr == [] then []
    else (if r.operator(expr[0].key) == Options then [expr[0]] else []) + OptionsPart(r, expr[1..])
  }

  /** One operator as an expression of its own, with the options that "$regex" would look for. */
  function Alone(r: Rules, expr: Fields, i: nat): Fields
    requires i < |expr|
  {
    [expr[i]] + OptionsPart(r, expr)
  }

  lemma {:induction false} OptionsOfPart(r: Rules, expr: Fields)
    ensures OptionsOf(r, OptionsPart(r, expr)) == OptionsOf(r, expr)
    ensures forall f :: f in OptionsPart(r, expr) ==> r.operator(f.key) == Options
  {
    if expr == [] {
    } else {
      OptionsOfPart(r, expr[1..]);
      var rest := OptionsPart(r, expr[1..]);
      assert [] + rest == rest;
    }
  }

  lemma SameStep(r: Rules, doc: Fields, key: bytes, expr: Fields, i: nat, other: Fields, j: nat)
    requires i < |expr| && j < |other| && expr[i] == other[j] && DollarKey(expr[i].key)
    requires r.operator(expr[i].key) == Options || OptionsOf(r, expr) == OptionsOf(r, other)
    ensures ExprStep(r, doc, key, expr, i) == ExprStep(r, doc, key, other, j)
  {
  }

  /** An operator does the same alone as among the others. */
  lemma StepAlone(r: Rules, doc: Fields, key: bytes, expr: Fields, i: nat)
    requires i < |expr| && DollarKey(expr[i].key)
    ensures ExprStep(r, doc, key, expr, i) == ExprStep(r, doc, key, Alone(r, expr, i), 0)
  {
    OptionsOfPart(r, expr);
    assert Alone(r, expr, i)[1..] == OptionsPart(r, expr);
    SameStep(r, doc, key, expr, i, Alone(r, expr, i), 0);
  }

  lemma {:induction false} OptionsGoOn(r: Rules, doc: Fields, key: bytes, expr: Fields, i: nat)
    requires i <= |expr| && forall j :: i <= j < |expr| ==> r.operator(expr[j].key) == Options
    ensures ExprFrom(r, doc, key, expr, i) == Success(true)
    decreases |expr| - i
  {
    if i == |expr| {
    } else {
      OptionsGoOn(r, doc, key, expr, i + 1);
    }
  }

  lemma AloneResult(r: Rules, doc: Fields, key: bytes, expr: Fields, i: nat)
    requires i < |expr| && DollarKey(expr[i].key)
    ensures FilterExpr(r, doc, key, Alone(r, expr, i)) == Ended(ExprStep(r, doc, key, expr, i))
  {
    var one := Alone(r, expr, i);
    StepAlone(r, doc, key, expr, i);
    OptionsOfPart(r, expr);
    forall j | 1 <= j < |one|
      ensures r.operator(one[j].key) == Options
    {
      assert one[j] in OptionsPart(r, expr);
    }
    OptionsGoOn(r, doc, key, one, 1);
  }

  /** The operators from `i` on, each evaluated alone, one after the other. */
  ghost function EachAlone(r: Rules, doc: Fields, key: bytes, expr: Fields, i: nat): Matched
    requires i <= |expr|
    decreases |expr| - i
  {
    if i == |expr| then Success(true)
    else Then(FilterExpr(r, doc, key, Alone(r, expr, i)), EachAlone(r, doc, key, expr, i + 1))
  }

  /** Null on a missing field, and a match of `$eq` or `$ne` with a document, end the evaluation. */
  predicate EndsEarly(r: Rules, doc: Fields, key: bytes, f: Field)
  {
    var op := r.operator(f.key);
    if op == Options then false
    else if !Has(doc, key) then op != Exists && op != Not && (f.value.Null? || (op == All && AllNull(f.value)))
    else
      && (op == Eq || op == Ne) && f.value.Document? && Get(doc, key).Document?
      && (op == Eq <==> r.sameDocument(f.value.fields, Get(doc, key).fields))
  }

  lemma EarlyEnd(r: Rules, doc: Fields, key: bytes, expr: Fields, i: nat)
    requires i < |expr| && DollarKey(expr[i].key)
    ensures ExprStep(r, doc, key, expr, i) == Stop(Success(true)) <==> EndsEarly(r, doc, key, expr[i])
  {
  }

  /** The first operator that ends early is reached, and not all that follow it hold. */
  ghost predicate Hides(r: Rules, doc: Fields, key: bytes, expr: Fields, i: nat)
    requires i <= |expr|
    decreases |expr| - i
  {
    i < |expr| &&
      if EndsEarly(r, doc, key, expr[i]) then EachAlone(r, doc, key, expr, i + 1) != Success(true)
      else FilterExpr(r, doc, key, Alone(r, expr, i)) == Success(true) && Hides(r, doc, key, expr, i + 1)
  }

  lemma {:induction false} OperatorsFrom(r: Rules, doc: Fields, key: bytes, expr: Fields, i: nat)
    requires i <= |expr| && forall j :: 0 <= j < |expr| ==> DollarKey(expr[j].key)
    ensures ExprFrom(r, doc, key, expr, i) == EachAlone(r, doc, key, expr, i) <==> !Hides(r, doc, key, expr, i)
    decreases |expr| - i
  {
    if i == |expr| {
    } else {
      AloneResult(r, doc, key, expr, i);
      EarlyEnd(r, doc, key, expr, i);
      OperatorsFrom(r, doc, key, expr, i + 1);
    }
  }

  /** An expression of operators means all of them, errors included, exactly when none that ends early hides another. */
  lemma OperatorsAreAndExactly(r: Rules, doc: Fields, key: bytes, expr: Fields)
    requires expr != [] && forall j :: 0 <= j < |expr| ==> DollarKey(expr[j].key)
    ensures FilterExpr(r, doc, key, expr) == EachAlone(r, doc, key, expr, 0) <==> !Hides(r, doc, key, expr, 0)
  {
    OperatorsFrom(r, doc, key, expr, 0);
  }

  /** Once an operator that ends early is reached, the filter matches whatever follows. */
  lemma {:induction false} EarlyEndMatches(r: Rules, doc: Fields, key: bytes, expr: Fields, i: nat, k: nat)
    requires i <= k < |expr| && forall j :: 0 <= j < |expr| ==> DollarKey(expr[j].key)
    requires EndsEarly(r, doc, key, expr[k])
    requires forall j :: i <= j < k ==> FilterExpr(r, doc, key, Alone(r, expr, j)) == Success(true)
    ensures ExprFrom(r, doc, key, expr, i) == Success(true)
    decreases k - i
  {
    AloneResult(r, doc, key, expr, i);
    EarlyEnd(r, doc, key, expr, i);
    if i < k {
      EarlyEndMatches(r, doc, key, expr, i + 1, k);
    }
  }

  /** {a: {$eq: null, $gt: 5}} matches the empty document, which {a: {$gt: 5}} does not. */
  lemma IgnoredOperator(r: Rules, key: bytes)
    requires r.operator == OperatorOf
    ensures var gt := Field(Ascii("$gt"), Int32(5));
            var both := [Field(Ascii("$eq"), Null), gt];
            && FilterExpr(r, [], key, both) == Success(true)
            && FilterExpr(r, [], key, [gt]) == Success(false)
            && Hides(r, [], key, both, 0)
  {
    EqName(r);
    GtName(r);
    var eq, gt := Field(Ascii("$eq"), Null), Field(Ascii("$gt"), Int32(5));
    var both := [eq, gt];
    OneOperator(r, [], key, gt.key, gt.value);
    EarlyEndMatches(r, [], key, both, 0, 0);
    AloneResult(r, [], key, both, 1);
    assert !Has([], key);
    assert EachAlone(r, [], key, both, 1) == Success(false);
  }

  // --------------------------------------------------------------------- paths

  function Join(parts: seq<bytes>): bytes
    requires |parts| >= 1
  {
    if |parts| == 1 then parts[0] else parts[0] + [DOT] + Join(parts[1..])
  }

  /** A dotted key is split into parts without dots that make it up again. */
  lemma {:induction false} SplitJoins(s: bytes)
    ensures Join(SplitDots(s)) == s
    ensures forall i :: 0 <= i < |SplitDots(s)| ==> DOT !in SplitDots(s)[i]
  {
    if s == [] {
    } else {
      var rest := SplitDots(s[1..]);
      SplitJoins(s[1..]);
      var parts := SplitDots(s);
      if s[0] == DOT {
        assert parts[1..] == rest;
        assert s == [] + [DOT] + s[1..];
      } else {
        assert parts[1..] == rest[1..];
        assert s == [s[0]] + s[1..];
        if |rest| > 1 {
          assert [s[0]] + rest[0] + [DOT] + Join(rest[1..]) == [s[0]] + (rest[0] + [DOT] + Join(rest[1..]));
        }
      }
    }
  }

  // -------------------------------------------------------------------- panics

  /** The key begins or ends with a dot, or has two dots in a row. */
  ghost predicate EmptyPart(key: bytes)
  {
    || (key != [] && key[0] == DOT)
    || (key != [] && key[|key| - 1] == DOT)
    || exists i :: 0 <= i < |key| - 1 && key[i] == DOT && key[i + 1] == DOT
  }

  lemma {:induction false} SplitParts(s: bytes)
    ensures SplitDots(s)[0] == [] <==> s == [] || s[0] == DOT
    ensures [] in SplitDots(s)[1..] <==>
              (s != [] && s[|s| - 1] == DOT) || exists i :: 0 <= i < |s| - 1 && s[i] == DOT && s[i + 1] == DOT
  {
    if s == [] {
    } else {
      var t := s[1..];
      var rest := SplitDots(t);
      SplitParts(t);
      assert rest == [rest[0]] + rest[1..];
      assert forall i :: 0 <= i < |t| ==> t[i] == s[i + 1];
      assert forall i :: 1 <= i < |s| ==> s[i] == t[i - 1];
      if s[0] == DOT {
        assert SplitDots(s)[1..] == rest;
      } else {
        assert SplitDots(s)[1..] == rest[1..];
      }
    }
  }

  /** `NewPath` panics on a dotted key exactly when one of its parts is empty. */
  lemma EmptyPartExactly(key: bytes)
    requires DOT in key
    ensures [] in SplitDots(key) <==> EmptyPart(key)
  {
    SplitParts(key);
    var parts := SplitDots(key);
    assert parts == [parts[0]] + parts[1..];
  }

  lemma {:induction false} FirstComparableDefined(env: Env, elems: seq<Value>, arg: Value)
    requires IsScalar(arg) && !arg.Regex?
    ensures FirstComparable(env, elems, arg).Some?
  {
    if elems == [] {
    } else {
      FirstComparableDefined(env, elems[1..], arg);
    }
  }

  lemma ComparesDefined(r: Rules, field: Value, arg: Value)
    requires IsScalar(arg) && !arg.Regex?
    ensures Compares(r, field, arg, {Equal}).Success?
  {
    if field.Array? {
      FirstComparableDefined(r.env, field.elems, arg);
    }
  }

  lemma PlainFieldDefined(r: Rules, doc: Fields, key: bytes, arg: Value)
    requires IsScalar(arg) && !arg.Regex?
    ensures FilterField(r, doc, key, arg) != Failure(Panicked)
  {
    if Has(doc, key) {
      ComparesDefined(r, Get(doc, key), arg);
    }
  }

  /** The path leads to an element of an array that is no array itself. */
  predicate ReachesElement(doc: Fields, key: bytes)
  {
    var path := SplitDots(key);
    var parent, index := ValueAt(Document(doc), path[..|path| - 1]), Atoi(path[|path| - 1]);
    && parent.Some? && parent.value.Array? && index.Some? && 0 <= index.value < |parent.value.elems|
    && !parent.value.elems[index.value].Array?
  }

  /**
   A key compared with a scalar panics exactly when it is a path with an empty part, or one that
   is not UTF-8 and leads to an element of an array.
   */
  lemma PlainPairPanicsExactly(r: Rules, doc: Fields, key: bytes, arg: Value)
    requires IsScalar(arg) && !arg.Regex?
    ensures FilterPair(r, doc, key, arg) == Failure(Panicked) <==>
              DOT in key && (EmptyPart(key) || (!ValidUtf8(key) && ReachesElement(doc, key)))
  {
    PlainFieldDefined(r, doc, key, arg);
    if DOT in key {
      EmptyPartExactly(key);
      if [] !in SplitDots(key) {
        PlainPathPanicsExactly(r, doc, key, arg);
      }
    }
  }

  /** A path without an empty part is a valid key exactly when it is UTF-8. */
  lemma PathIsLong(key: bytes)
    requires DOT in key && !EmptyPart(key)
    ensures ValidKey(key) <==> ValidUtf8(key)
  {
    var i :| 0 <= i < |key| && key[i] == DOT;
    assert 0 < i < |key| - 1;
  }

  lemma PlainPathPanicsExactly(r: Rules, doc: Fields, key: bytes, arg: Value)
    requires IsScalar(arg) && !arg.Regex? && DOT in key && [] !in SplitDots(key)
    ensures FilterPair(r, doc, key, arg) == Failure(Panicked) <==> !ValidUtf8(key) && ReachesElement(doc, key)
  {
    EmptyPartExactly(key);
    PathIsLong(key);
    PlainFieldDefined(r, doc, key, arg);
    var path := SplitDots(key);
    var parent := ValueAt(Document(doc), path[..|path| - 1]);
    if parent.Some? && parent.value.Array? {
      PlainElementPanicsExactly(r, doc, key, arg, path[|path| - 1], parent.value.elems);
    } else if parent.Some? && parent.value.Document? {
      PlainFieldDefined(r, parent.value.fields, path[|path| - 1], arg);
    }
  }

  lemma PlainElementPanicsExactly(r: Rules, doc: Fields, key: bytes, arg: Value, last: bytes, elems: seq<Value>)
    requires IsScalar(arg) && !arg.Regex? && DOT in key && [] !in SplitDots(key) && (ValidKey(key) <==> ValidUtf8(key))
    requires last == SplitDots(key)[|SplitDots(key)| - 1]
    requires ValueAt(Document(doc), SplitDots(key)[..|SplitDots(key)| - 1]) == Some(Array(elems))
    ensures FilterPair(r, doc, key, arg) == Failure(Panicked) <==> !ValidUtf8(key) && ReachesElement(doc, key)
  {
    var index := Atoi(last);
    if index.Some? && 0 <= index.value < |elems| {
      ComparesDefined(r, elems[index.value], arg);
      PlainFieldDefined(r, [Field(key, elems[index.value])], key, arg);
    }
  }

  /** A plain key compared with an array panics exactly when the field is an array and one starts with a document. */
  lemma ArrayPairPanicsExactly(r: Rules, doc: Fields, key: bytes, elems: seq<Value>)
    requires r.env.unit >= 1 && DOT !in key && !DollarKey(key) && ArrayCompare.Shallow(r.env, elems)
    requires Has(doc, key) && Get(doc, key).Array? ==> ArrayCompare.Shallow(r.env, Get(doc, key).elems)
    ensures FilterPair(r, doc, key, Array(elems)) == Failure(Panicked) <==>
              && Has(doc, key) && Get(doc, key).Array? && Get(doc, key).elems != [] && elems != []
              && (Get(doc, key).elems[0].Document? || elems[0].Document?)
  {
    assert FilterPair(r, doc, key, Array(elems)) == FilterField(r, doc, key, Array(elems));
    if Has(doc, key) && Get(doc, key).Array? {
      ArrayCompare.ShallowArraysPanicExactly(r.env, elems, Get(doc, key).elems);
    }
  }

  /** {a: [1]} on the document {a: [{}]}. */
  lemma ArrayFilterPanics(r: Rules)
    requires r.env.unit >= 1
    ensures var doc, filter := [Field([97], Array([Document([])]))], [Field([97], Array([Int32(1)]))];
            FilterDocument(r, doc, filter) == Failure(Panicked)
  {
    var doc := [Field([97], Array([Document([])]))];
    assert Get(doc, [97]) == Array([Document([])]);
    ArrayPairPanicsExactly(r, doc, [97], [Int32(1)]);
  }

  /** A filter panics exactly when the pairs before some pair match and that pair panics. */
  lemma FilterPanicsExactly(r: Rules, doc: Fields, filter: Fields)
    ensures FilterDocument(r, doc, filter) == Failure(Panicked) <==>
              exists i :: 0 <= i < |filter| && PanicsAt(r, doc, filter, i)
  {
    var k := FirstDecides(r, doc, filter);
    if FilterDocument(r, doc, filter) == Failure(Panicked) {
      assert PanicsAt(r, doc, filter, k);
    }
    forall i | 0 <= i < |filter| && PanicsAt(r, doc, filter, i)
      ensures FilterDocument(r, doc, filter) == Failure(Panicked)
    {
      PanicDecides(r, doc, filter, i);
    }
  }

  lemma {:induction false} PanicDecides(r: Rules, doc: Fields, filter: Fields, i: nat)
    requires i < |filter| && PanicsAt(r, doc, filter, i)
    ensures FilterDocument(r, doc, filter) == Failure(Panicked)
    decreases i
  {
    if i == 0 {
    } else {
      assert Matches(r, doc, filter, 0);
      assert forall j :: 0 <= j < |filter| - 1 ==> filter[1..][j] == filter[j + 1];
      forall j | 0 <= j < i - 1
        ensures Matches(r, doc, filter[1..], j)
      {
        assert Matches(r, doc, filter, j + 1);
      }
      PanicDecides(r, doc, filter[1..], i - 1);
    }
  }

  ghost predicate Matches(r: Rules, doc: Fields, filter: Fields, i: nat)
    requires i < |filter|
  {
    FilterPair(r, doc, filter[i].key, filter[i].value) == Success(true)
  }

  ghost predicate PanicsAt(r: Rules, doc: Fields, filter: Fields, i: nat)
    requires i < |filter|
  {
    && (forall j :: 0 <= j < i ==> Matches(r, doc, filter, j))
    && FilterPair(r, doc, filter[i].key, filter[i].value) == Failure(Panicked)
  }
}
