/** The algebra of filters, errors included. */
module FilterLaws {
  import opened Bytes
  import opened Text
  import opened Values
  import opened Wrappers
  import opened Filter

  /** A key such as "$and". */
  predicate OperatorKey(r: Rules, key: bytes, op: Operator)
  {
    DollarKey(key) && DOT !in key && r.operator(key) == op
  }

  /** Left to right: the second filter is evaluated only if the first holds. */
  function Then(a: Matched, b: Matched): Matched
  {
    if a == Success(true) then b else a
  }

  lemma OperatorFilter(r: Rules, doc: Fields, key: bytes, op: Operator, value: Value)
    requires OperatorKey(r, key, op)
    ensures FilterDocument(r, doc, [Field(key, value)]) == FilterOperator(r, doc, key, value)
  {
    var filter := [Field(key, value)];
    assert FilterPair(r, doc, key, value) == FilterField(r, doc, key, value) == FilterOperator(r, doc, key, value);
    assert filter[1..] == [];
  }

  // --------------------------------------------------------------------- and

  /** The filters with one key each. */
  function Singles(filter: Fields): (s: seq<Value>)
    ensures |s| == |filter|
  {
    seq(|filter|, i requires 0 <= i < |filter| => Document([filter[i]]))
  }

  lemma OnePair(r: Rules, doc: Fields, f: Field)
    ensures FilterDocument(r, doc, [f]) == FilterPair(r, doc, f.key, f.value)
  {
    assert [f][1..] == [];
  }

  lemma {:induction false} SinglesAnd(r: Rules, doc: Fields, filter: Fields)
    ensures AndAll(r, doc, Singles(filter)) == FilterDocument(r, doc, filter)
    decreases |filter|
  {
    if filter == [] {
    } else {
      var s := Singles(filter);
      assert s[0] == Document([filter[0]]) && s[1..] == Singles(filter[1..]);
      OnePair(r, doc, filter[0]);
      SinglesAnd(r, doc, filter[1..]);
    }
  }

  /** A filter with many keys is the `$and` of its single-key filters. */
  lemma ManyKeysAreAnd(r: Rules, doc: Fields, filter: Fields, and: bytes)
    requires OperatorKey(r, and, And)
    ensures FilterDocument(r, doc, [Field(and, Array(Singles(filter)))]) == FilterDocument(r, doc, filter)
  {
    OperatorFilter(r, doc, and, And, Array(Singles(filter)));
    SinglesAnd(r, doc, filter);
  }

  lemma {:induction false} FilterConcat(r: Rules, doc: Fields, a: Fields, b: Fields)
    ensures FilterDocument(r, doc, a + b) == Then(FilterDocument(r, doc, a), FilterDocument(r, doc, b))
    decreases |a|
  {
    if a == [] {
      assert a + b == b;
    } else {
      assert (a + b)[0] == a[0] && (a + b)[1..] == a[1..] + b;
      FilterConcat(r, doc, a[1..], b);
    }
  }

  /** The first pair that does not match decides, by its result or its error. */
  lemma {:induction false} FirstDecides(r: Rules, doc: Fields, filter: Fields) returns (i: nat)
    ensures i <= |filter|
    ensures forall j :: 0 <= j < i ==> FilterPair(r, doc, filter[j].key, filter[j].value) == Success(true)
    ensures FilterDocument(r, doc, filter)
         == if i == |filter| then Success(true) else FilterPair(r, doc, filter[i].key, filter[i].value)
    ensures i < |filter| ==> FilterDocument(r, doc, filter) != Success(true)
    decreases |filter|
  {
    if filter == [] || FilterPair(r, doc, filter[0].key, filter[0].value) != Success(true) {
      i := 0;
    } else {
      var k := FirstDecides(r, doc, filter[1..]);
      i := k + 1;
      forall j | 0 <= j < i
        ensures FilterPair(r, doc, filter[j].key, filter[j].value) == Success(true)
      {
        assert j > 0 ==> filter[j] == filter[1..][j - 1];
      }
      assert k < |filter[1..]| ==> filter[1..][k] == filter[i];
    }
  }

  // ---------------------------------------------------------------- or, nor

  lemma {:induction false} NorIsNotOr(r: Rules, doc: Fields, exprs: seq<Value>)
    ensures NorAny(r, doc, exprs) == Negate(OrAny(r, doc, exprs))
    decreases |exprs|
  {
    if exprs != [] && exprs[0].Document? {
      NorIsNotOr(r, doc, exprs[1..]);
    }
  }

  /** `$nor` is the negation of `$or`, with the same errors. */
  lemma NorNegatesOr(r: Rules, doc: Fields, or: bytes, nor: bytes, value: Value)
    requires OperatorKey(r, or, Or) && OperatorKey(r, nor, Nor)
    ensures FilterDocument(r, doc, [Field(nor, value)]) == Negate(FilterDocument(r, doc, [Field(or, value)]))
  {
    OperatorFilter(r, doc, or, Or, value);
    OperatorFilter(r, doc, nor, Nor, value);
    if value.Array? {
      NorIsNotOr(r, doc, value.elems);
    }
  }

  /** `$nor` of one `$nor` of one filter is that filter. */
  lemma NorTwice(r: Rules, doc: Fields, nor: bytes, filter: Fields)
    requires OperatorKey(r, nor, Nor)
    ensures var inner := [Field(nor, Array([Document(filter)]))];
            FilterDocument(r, doc, [Field(nor, Array([Document(inner)]))]) == FilterDocument(r, doc, filter)
  {
    var inner := [Field(nor, Array([Document(filter)]))];
    NorOne(r, doc, filter);
    NorOne(r, doc, inner);
    OperatorFilter(r, doc, nor, Nor, Array([Document(filter)]));
    OperatorFilter(r, doc, nor, Nor, Array([Document(inner)]));
  }

  lemma NorOne(r: Rules, doc: Fields, filter: Fields)
    ensures NorAny(r, doc, [Document(filter)]) == Negate(FilterDocument(r, doc, filter))
  {
    assert [Document(filter)][1..] == [];
  }

  /** The filters that can be evaluated. */
  ghost predicate Evaluates(r: Rules, doc: Fields, exprs: seq<Value>)
  {
    forall i :: 0 <= i < |exprs| ==> exprs[i].Document? && FilterDocument(r, doc, exprs[i].fields).Success?
  }

  ghost predicate Holds(r: Rules, doc: Fields, expr: Value)
  {
    expr.Document? && FilterDocument(r, doc, expr.fields) == Success(true)
  }

  /** Without errors `$and` is "all", `$or` is "any" and `$nor` is "none". */
  lemma {:induction false} Quantifiers(r: Rules, doc: Fields, exprs: seq<Value>)
    requires Evaluates(r, doc, exprs)
    ensures AndAll(r, doc, exprs) == Success(forall i :: 0 <= i < |exprs| ==> Holds(r, doc, exprs[i]))
    ensures OrAny(r, doc, exprs) == Success(exists i :: 0 <= i < |exprs| && Holds(r, doc, exprs[i]))
    ensures NorAny(r, doc, exprs) == Success(forall i :: 0 <= i < |exprs| ==> !Holds(r, doc, exprs[i]))
    decreases |exprs|
  {
    if exprs == [] {
    } else {
      var rest := exprs[1..];
      assert forall i :: 0 <= i < |rest| ==> rest[i] == exprs[i + 1];
      assert forall i :: 1 <= i < |exprs| ==> exprs[i] == rest[i - 1];
      Quantifiers(r, doc, rest);
    }
  }

  // ------------------------------------------------------------ field operators

  function Ended(f: Filter.Flow): Matched
  {
    if f.Stop? then f.result else Success(true)
  }

  lemma OneOperator(r: Rules, doc: Fields, key: bytes, op: bytes, arg: Value)
    ensures var expr := [Field(op, arg)];
            FilterExpr(r, doc, key, expr) == Ended(ExprStep(r, doc, key, expr, 0))
  {
    var expr := [Field(op, arg)];
    assert FilterExpr(r, doc, key, expr) == ExprFrom(r, doc, key, expr, 0);
    assert ExprFrom(r, doc, key, expr, 1) == Success(true);
  }

  lemma OnField(r: Rules, doc: Fields, key: bytes, op: bytes, kind: Operator, arg: Value)
    requires OperatorKey(r, op, kind) && kind in {In, Nin}
    ensures FilterExpr(r, doc, key, [Field(op, arg)])
         == if !Has(doc, key) then Success(arg.Null?)
            else if !arg.Array? then Failure(BadValue)
            else if kind == In then Found(r, Get(doc, key), arg.elems)
            else Negate(Found(r, Get(doc, key), arg.elems))
  {
    OneOperator(r, doc, key, op, arg);
  }

  /** `$nin` is the negation of `$in`, errors included, exactly on a field that is there. */
  lemma NinNegatesInExactly(r: Rules, doc: Fields, key: bytes, inOp: bytes, nin: bytes, arg: Value)
    requires OperatorKey(r, inOp, In) && OperatorKey(r, nin, Nin)
    ensures FilterExpr(r, doc, key, [Field(nin, arg)]) == Negate(FilterExpr(r, doc, key, [Field(inOp, arg)]))
       <==> Has(doc, key)
  {
    OnField(r, doc, key, inOp, In, arg);
    OnField(r, doc, key, nin, Nin, arg);
  }

  /** On the empty document neither {a: {$in: [1]}} nor {a: {$nin: [1]}} matches. */
  lemma NinOnMissing(r: Rules, key: bytes, inOp: bytes, nin: bytes)
    requires OperatorKey(r, inOp, In) && OperatorKey(r, nin, Nin)
    ensures FilterExpr(r, [], key, [Field(inOp, Array([Int32(1)]))]) == Success(false)
    ensures FilterExpr(r, [], key, [Field(nin, Array([Int32(1)]))]) == Success(false)
  {
    assert !Has([], key);
    OnField(r, [], key, inOp, In, Array([Int32(1)]));
    OnField(r, [], key, nin, Nin, Array([Int32(1)]));
  }

  /** `$not` of an expression is its negation, whether or not the field is there. */
  lemma NotNegates(r: Rules, doc: Fields, key: bytes, not: bytes, inner: Fields)
    requires OperatorKey(r, not, Not)
    ensures FilterExpr(r, doc, key, [Field(not, Document(inner))]) == Negate(FilterExpr(r, doc, key, inner))
  {
    OneOperator(r, doc, key, not, Document(inner));
  }

  /** `$in` without errors: some value of the list is found. */
  lemma {:induction false} FoundMeansAny(r: Rules, field: Value, elems: seq<Value>)
    requires forall i :: 0 <= i < |elems| ==> InOne(r, field, elems[i]).Success?
    ensures Found(r, field, elems)
         == Success(exists i :: 0 <= i < |elems| && InOne(r, field, elems[i]) == Success(true))
  {
    if elems == [] {
    } else {
      var rest := elems[1..];
      assert forall i :: 0 <= i < |rest| ==> rest[i] == elems[i + 1];
      assert forall i :: 1 <= i < |elems| ==> elems[i] == rest[i - 1];
      FoundMeansAny(r, field, rest);
    }
  }

  // ------------------------------------------------------------------- names

  // The operators of these laws under their names.

  lemma AndName(r: Rules)
    requires r.operator == OperatorOf
    ensures OperatorKey(r, Ascii("$and"), And)
  {
  }

  lemma OrName(r: Rules)
    requires r.operator == OperatorOf
    ensures OperatorKey(r, Ascii("$or"), Or)
  {
  }

  lemma NorName(r: Rules)
    requires r.operator == OperatorOf
    ensures OperatorKey(r, Ascii("$nor"), Nor)
  {
    assert Ascii("$nor")[1] != Ascii("$and")[1];
  }

  lemma EqName(r: Rules)
    requires r.operator == OperatorOf
    ensures OperatorKey(r, Ascii("$eq"), Eq)
  {
    assert Ascii("$eq")[1] != Ascii("$or")[1];
  }

  lemma GtName(r: Rules)
    requires r.operator == OperatorOf
    ensures OperatorKey(r, Ascii("$gt"), Gt)
  {
    assert Ascii("$gt")[1] != Ascii("$or")[1];
    assert Ascii("$gt")[1] != Ascii("$eq")[1];
    assert Ascii("$gt")[1] != Ascii("$ne")[1];
  }

  lemma InName(r: Rules)
    requires r.operator == OperatorOf
    ensures OperatorKey(r, Ascii("$in"), In)
  {
    assert Ascii("$in")[1] != Ascii("$or")[1];
    assert Ascii("$in")[1] != Ascii("$eq")[1];
    assert Ascii("$in")[1] != Ascii("$ne")[1];
    assert Ascii("$in")[1] != Ascii("$gt")[1];
    assert Ascii("$in")[1] != Ascii("$lt")[1];
  }

  lemma NinName(r: Rules)
    requires r.operator == OperatorOf
    ensures OperatorKey(r, Ascii("$nin"), Nin)
  {
    assert Ascii("$nin")[1] != Ascii("$and")[1];
    assert Ascii("$nin")[2] != Ascii("$nor")[2];
    assert Ascii("$nin")[1] != Ascii("$gte")[1];
    assert Ascii("$nin")[1] != Ascii("$lte")[1];
  }

  lemma NotName(r: Rules)
    requires r.operator == OperatorOf
    ensures OperatorKey(r, Ascii("$not"), Not)
  {
    assert Ascii("$not")[1] != Ascii("$and")[1];
    assert Ascii("$not")[3] != Ascii("$nor")[3];
    assert Ascii("$not")[1] != Ascii("$gte")[1];
    assert Ascii("$not")[1] != Ascii("$lte")[1];
    assert Ascii("$not")[2] != Ascii("$nin")[2];
  }

  /** The laws by name. */
  lemma AlgebraByName(r: Rules, doc: Fields, filter: Fields, value: Value)
    requires r.operator == OperatorOf
    ensures FilterDocument(r, doc, [Field(Ascii("$and"), Array(Singles(filter)))]) == FilterDocument(r, doc, filter)
    ensures FilterDocument(r, doc, [Field(Ascii("$nor"), value)])
         == Negate(FilterDocument(r, doc, [Field(Ascii("$or"), value)]))
  {
    AndName(r);
    ManyKeysAreAnd(r, doc, filter, Ascii("$and"));
    OrName(r);
    NorName(r);
    NorNegatesOr(r, doc, Ascii("$or"), Ascii("$nor"), value);
  }

  lemma FieldAlgebraByName(r: Rules, doc: Fields, key: bytes, arg: Value, inner: Fields)
    requires r.operator == OperatorOf
    ensures var nin, inOp := [Field(Ascii("$nin"), arg)], [Field(Ascii("$in"), arg)];
            FilterExpr(r, doc, key, nin) == Negate(FilterExpr(r, doc, key, inOp)) <==> Has(doc, key)
    ensures FilterExpr(r, doc, key, [Field(Ascii("$not"), Document(inner))]) == Negate(FilterExpr(r, doc, key, inner))
  {
    InName(r);
    NinName(r);
    NinNegatesInExactly(r, doc, key, Ascii("$in"), Ascii("$nin"), arg);
    NotName(r);
    NotNegates(r, doc, key, Ascii("$not"), inner);
  }

  // --------------------------------------------------------------- the loops

  /** `FilterDocument` as it runs. */
  method RunFilterDocument(r: Rules, doc: Fields, filter: Fields) returns (m: Matched)
    ensures m == FilterDocument(r, doc, filter)
  {
    for i := 0 to |filter|
      invariant FilterDocument(r, doc, filter) == FilterDocument(r, doc, filter[i..])
    {
      assert filter[i..][0] == filter[i] && filter[i..][1..] == filter[i + 1..];
      var matches := FilterPair(r, doc, filter[i].key, filter[i].value);
      if matches != Success(true) {
        return matches;
      }
    }
    return Success(true);
  }

  /** The search of `$in` and `$nin` as it runs. */
  method RunFound(r: Rules, field: Value, elems: seq<Value>) returns (m: Matched)
    ensures m == Found(r, field, elems)
  {
    var found := false;
    var i := 0;
    while i < |elems| && !found
      invariant 0 <= i <= |elems|
      invariant Found(r, field, elems) == if found then Success(true) else Found(r, field, elems[i..])
    {
      assert elems[i..][0] == elems[i] && elems[i..][1..] == elems[i + 1..];
      var one := InOne(r, field, elems[i]);
      if one.Failure? {
        return one;
      }
      found := one.value;
      i := i + 1;
    }
    return Success(found);
  }
}
