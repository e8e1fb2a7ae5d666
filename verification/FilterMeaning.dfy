/** What one pair of a filter means: equality, paths, lists, and the operators by their names. */
module FilterMeaning {
  import opened Bytes
  import opened Text
  import opened Values
  import opened Wrappers
  import opened Compare
  import opened CompareLaws
  import opened Filter
  import opened FilterLaws
  import opened FilterOrder

  /** A key of a filter that names a field. */
  predicate PlainKey(key: bytes)
  {
    DOT !in key && !DollarKey(key)
  }

  // ----------------------------------------------------------- plain equality

  /** {field: value} is {field: {$eq: value}}, on a missing field too. */
  lemma PairIsEq(r: Rules, doc: Fields, key: bytes, eq: bytes, arg: Value)
    requires PlainKey(key) && OperatorKey(r, eq, Eq) && !arg.Document? && !arg.Regex?
    ensures FilterPair(r, doc, key, arg) == FilterExpr(r, doc, key, [Field(eq, arg)])
  {
    OneOperator(r, doc, key, eq, arg);
    assert FilterPair(r, doc, key, arg) == FilterField(r, doc, key, arg);
  }

  /** {field: value} holds exactly where the kinds agree and the values are equal; a missing field equals null. */
  lemma PairMeansEqual(r: Rules, doc: Fields, key: bytes, arg: Value)
    requires r.env.unit >= 1 && PlainKey(key) && Orderable(r.env, arg) && !arg.Regex?
    requires Has(doc, key) ==> Orderable(r.env, Get(doc, key))
    ensures FilterPair(r, doc, key, arg) ==
              Success(if Has(doc, key) then InOrder(r.env, Get(doc, key), arg, Eq) else arg.Null?)
  {
    assert FilterPair(r, doc, key, arg) == FilterField(r, doc, key, arg);
    if Has(doc, key) {
      ScalarsByValue(r.env, Get(doc, key), arg);
      SingleResult(r, Get(doc, key), arg, {Equal});
    }
  }

  /** The element of an array that a scalar is compared with: the first that is comparable. */
  ghost predicate ComparedAt(env: Env, elems: seq<Value>, arg: Value, i: nat, c: CompareResult)
  {
    && i < |elems| && c != Incomparable
    && IsScalar(elems[i]) && CompareScalars(env, elems[i], arg) == Some(c)
    && forall j :: 0 <= j < i ==> NotCompared(env, elems[j], arg)
  }

  predicate NotCompared(env: Env, elem: Value, arg: Value)
  {
    IsScalar(elem) ==> CompareScalars(env, elem, arg) == Some(Incomparable)
  }

  lemma {:induction false} FirstComparableExactly(env: Env, elems: seq<Value>, arg: Value, c: CompareResult)
    requires IsScalar(arg) && !arg.Regex?
    ensures FirstComparable(env, elems, arg) == Some(c) <==>
              if c == Incomparable then forall j :: 0 <= j < |elems| ==> NotCompared(env, elems[j], arg)
              else exists i :: 0 <= i < |elems| && ComparedAt(env, elems, arg, i, c)
  {
    if elems == [] {
    } else {
      var rest := elems[1..];
      assert forall j :: 0 <= j < |rest| ==> rest[j] == elems[j + 1];
      assert forall j :: 1 <= j < |elems| ==> elems[j] == rest[j - 1];
      FirstComparableExactly(env, rest, arg, c);
      if NotCompared(env, elems[0], arg) {
        ComparedLater(env, elems, arg, c);
      } else {
        ComparedFirst(env, elems, arg, c);
      }
    }
  }

  lemma ComparedLater(env: Env, elems: seq<Value>, arg: Value, c: CompareResult)
    requires elems != [] && NotCompared(env, elems[0], arg)
    ensures (exists i :: 0 <= i < |elems| && ComparedAt(env, elems, arg, i, c)) <==>
              exists i :: 0 <= i < |elems[1..]| && ComparedAt(env, elems[1..], arg, i, c)
  {
    var rest := elems[1..];
    assert forall j :: 0 <= j < |rest| ==> rest[j] == elems[j + 1];
    if i :| 0 <= i < |elems| && ComparedAt(env, elems, arg, i, c) {
      assert i > 0;
      assert ComparedAt(env, rest, arg, i - 1, c);
    }
    if i :| 0 <= i < |rest| && ComparedAt(env, rest, arg, i, c) {
      assert forall j :: 1 <= j < |elems| ==> elems[j] == rest[j - 1];
      assert ComparedAt(env, elems, arg, i + 1, c);
    }
  }

  lemma ComparedFirst(env: Env, elems: seq<Value>, arg: Value, c: CompareResult)
    requires IsScalar(arg) && !arg.Regex? && elems != [] && !NotCompared(env, elems[0], arg)
    ensures FirstComparable(env, elems, arg) == CompareScalars(env, elems[0], arg)
    ensures c != Incomparable ==> (CompareScalars(env, elems[0], arg) == Some(c) <==>
              exists i :: 0 <= i < |elems| && ComparedAt(env, elems, arg, i, c))
  {
    if CompareScalars(env, elems[0], arg) == Some(c) && c != Incomparable {
      assert ComparedAt(env, elems, arg, 0, c);
    }
    forall i | 0 <= i < |elems| && ComparedAt(env, elems, arg, i, c)
      ensures i == 0
    {
    }
  }

  /** {field: value} on an array: the first element that is comparable with the value equals it. */
  lemma PairOnArray(r: Rules, doc: Fields, key: bytes, arg: Value)
    requires PlainKey(key) && IsScalar(arg) && !arg.Regex? && Has(doc, key) && Get(doc, key).Array?
    ensures var elems := Get(doc, key).elems;
            FilterPair(r, doc, key, arg) ==
              Success(exists i :: 0 <= i < |elems| && ComparedAt(r.env, elems, arg, i, Equal))
  {
    var elems := Get(doc, key).elems;
    FirstComparableDefined(r.env, elems, arg);
    FirstComparableExactly(r.env, elems, arg, Equal);
    var c := FirstComparable(r.env, elems, arg).value;
    assert FilterPair(r, doc, key, arg) == FilterField(r, doc, key, arg);
    assert Compare.Compare(r.env, Get(doc, key), arg) == Some([c]);
    assert forall w :: w in [c] <==> w == c;
  }

  /** {a: 5} does not match {a: [3, 5]}, although it matches {a: [5, 3]}. */
  lemma LaterElementIgnored(r: Rules)
    ensures var filter := [Field([97], Int32(5))];
            && FilterDocument(r, [Field([97], Array([Int32(3), Int32(5)]))], filter) == Success(false)
            && FilterDocument(r, [Field([97], Array([Int32(5), Int32(3)]))], filter) == Success(true)
  {
    FirstElementDecides(r, 3, 5);
    FirstElementDecides(r, 5, 3);
  }

  lemma FirstElementDecides(r: Rules, first: int32, second: int32)
    ensures FilterDocument(r, [Field([97], Array([Int32(first), Int32(second)]))], [Field([97], Int32(5))]) ==
              Success(first == 5)
  {
    var elems := [Int32(first), Int32(second)];
    var doc := [Field([97], Array(elems))];
    OnePair(r, doc, Field([97], Int32(5)));
    assert Get(doc, [97]) == Array(elems);
    PairOnArray(r, doc, [97], Int32(5));
    if first == 5 {
      assert ComparedAt(r.env, elems, Int32(5), 0, Equal);
    } else {
      assert !NotCompared(r.env, elems[0], Int32(5));
    }
  }

  /** A field that is a document equals no scalar and no array. */
  lemma PairOnDocument(r: Rules, doc: Fields, key: bytes, arg: Value)
    requires PlainKey(key) && !arg.Document? && !arg.Regex? && Has(doc, key) && Get(doc, key).Document?
    ensures FilterPair(r, doc, key, arg) == Success(false)
  {
    assert FilterPair(r, doc, key, arg) == FilterField(r, doc, key, arg);
    assert forall w :: w in [Incomparable] <==> w == Incomparable;
  }

  // ----------------------------------------------------------------- locality

  /** A field's expression looks at the value of the field and at nothing else. */
  lemma {:induction false} ExprLocal(r: Rules, doc: Fields, key: bytes, doc': Fields, key': bytes, expr: Fields)
    requires FieldAt(doc, key) == FieldAt(doc', key')
    ensures FilterExpr(r, doc, key, expr) == FilterExpr(r, doc', key', expr)
    decreases expr, 2
  {
    if expr == [] {
    } else {
      ExprFromLocal(r, doc, key, doc', key', expr, 0);
    }
  }

  lemma {:induction false} ExprFromLocal(r: Rules, doc: Fields, key: bytes, doc': Fields, key': bytes, expr: Fields,
                                         i: nat)
    requires FieldAt(doc, key) == FieldAt(doc', key') && i <= |expr|
    ensures ExprFrom(r, doc, key, expr, i) == ExprFrom(r, doc', key', expr, i)
    decreases expr, 1, |expr| - i
  {
    if i == |expr| {
    } else {
      ExprStepLocal(r, doc, key, doc', key', expr, i);
      ExprFromLocal(r, doc, key, doc', key', expr, i + 1);
    }
  }

  lemma {:induction false} ExprStepLocal(r: Rules, doc: Fields, key: bytes, doc': Fields, key': bytes, expr: Fields,
                                         i: nat)
    requires FieldAt(doc, key) == FieldAt(doc', key') && i < |expr|
    ensures ExprStep(r, doc, key, expr, i) == ExprStep(r, doc', key', expr, i)
    decreases expr, 0
  {
    var arg := expr[i].value;
    if arg.Document? {
      ExprLocal(r, doc, key, doc', key', arg.fields);
    }
  }

  lemma PairLocal(r: Rules, doc: Fields, key: bytes, doc': Fields, key': bytes, value: Value)
    requires !DollarKey(key) && !DollarKey(key') && FieldAt(doc, key) == FieldAt(doc', key')
    ensures FilterField(r, doc, key, value) == FilterField(r, doc', key', value)
  {
    if value.Document? {
      ExprLocal(r, doc, key, doc', key', value.fields);
    }
  }

  // -------------------------------------------------------------------- paths

  /** The value a path leads to, one element at a time. */
  lemma {:induction false} ValueAtConcat(v: Value, p: seq<bytes>, q: seq<bytes>)
    ensures ValueAt(v, p + q) == match ValueAt(v, p) case None => None case Some(w) => ValueAt(w, q)
    decreases |p|
  {
    if p == [] {
      assert p + q == q;
    } else {
      assert (p + q)[0] == p[0] && (p + q)[1..] == p[1..] + q;
      match v
      case Document(fields) =>
        if Has(fields, p[0]) {
          ValueAtConcat(Get(fields, p[0]), p[1..], q);
        }
      case Array(elems) =>
        var index := Atoi(p[0]);
        if index.Some? && 0 <= index.value < |elems| {
          ValueAtConcat(elems[index.value], p[1..], q);
        }
      case _ =>
    }
  }

  /** A key of a document; the decimal index of an element. */
  lemma ValueAtOne(fields: Fields, key: bytes, elems: seq<Value>, i: nat)
    requires i < 0x8000_0000_0000_0000
    ensures ValueAt(Document(fields), [key]) == FieldAt(fields, key)
    ensures ValueAt(Array(elems), [Digits(i)]) == if i < |elems| then Some(elems[i]) else None
  {
    assert [key][1..] == [] && [Digits(i)][1..] == [];
    DigitsRoundTrip(i);
    assert IsDigit(Digits(i)[0]);
    assert Atoi(Digits(i)) == Some(i);
  }

  /** A dotted key filters the document that its path leads to, by its last part. */
  lemma PathFiltersDocument(r: Rules, doc: Fields, key: bytes, value: Value, d: Fields)
    requires DOT in key && !EmptyPart(key)
    requires var path := SplitDots(key); ValueAt(Document(doc), path[..|path| - 1]) == Some(Document(d))
    ensures var path := SplitDots(key);
            FilterPair(r, doc, key, value) == FilterPair(r, d, path[|path| - 1], value)
  {
    EmptyPartExactly(key);
    SplitJoins(key);
  }

  lemma ElementIsField(r: Rules, doc: Fields, key: bytes, value: Value, elems: seq<Value>, i: nat)
    requires DOT in key && !EmptyPart(key) && ValidUtf8(key)
    requires var path := SplitDots(key);
             && ValueAt(Document(doc), path[..|path| - 1]) == Some(Array(elems))
             && Atoi(path[|path| - 1]) == Some(i)
    requires i < |elems| && !elems[i].Array?
    ensures FilterPair(r, doc, key, value) == FilterField(r, [Field(key, elems[i])], key, value)
  {
    EmptyPartExactly(key);
    PathIsLong(key);
  }

  /** A dotted key that leads to an element of an array filters that element, as if it were a field of its own. */
  lemma PathFiltersElement(r: Rules, doc: Fields, key: bytes, value: Value, elems: seq<Value>, i: nat, name: bytes)
    requires DOT in key && !EmptyPart(key) && !DollarKey(key) && ValidUtf8(key) && PlainKey(name)
    requires var path := SplitDots(key);
             && ValueAt(Document(doc), path[..|path| - 1]) == Some(Array(elems))
             && Atoi(path[|path| - 1]) == Some(i)
    requires i < |elems| && !elems[i].Array?
    ensures FilterPair(r, doc, key, value) == FilterPair(r, [Field(name, elems[i])], name, value)
  {
    ElementIsField(r, doc, key, value, elems, i);
    var one, other := [Field(key, elems[i])], [Field(name, elems[i])];
    assert FieldAt(one, key) == Some(elems[i]) == FieldAt(other, name);
    PairLocal(r, one, key, other, name, value);
    assert FilterPair(r, other, name, value) == FilterField(r, other, name, value);
  }

  /** A path that leads nowhere, or to an index that the array does not have, matches nothing, not even null. */
  lemma PathLeadsNowhere(r: Rules, doc: Fields, key: bytes, value: Value)
    requires DOT in key && !EmptyPart(key)
    requires var path := SplitDots(key);
             var parent, index := ValueAt(Document(doc), path[..|path| - 1]), Atoi(path[|path| - 1]);
             || parent.None?
             || (parent.value.Array? && (index.None? || index.value >= |parent.value.elems|))
    ensures FilterPair(r, doc, key, value) == Success(false)
  {
    EmptyPartExactly(key);
  }

  /**
   A path through a scalar looks for a field that is named by the whole key. A negative index of an
   array that is not empty is an error, and an element that is an array is compared as a whole.
   */
  lemma PathThroughScalar(r: Rules, doc: Fields, key: bytes, value: Value, parent: Value, name: bytes)
    requires DOT in key && !EmptyPart(key) && !DollarKey(key) && PlainKey(name) && !parent.Document?
    requires var path := SplitDots(key); ValueAt(Document(doc), path[..|path| - 1]) == Some(parent)
    ensures var index := Atoi(SplitDots(key)[|SplitDots(key)| - 1]);
            var own := if Has(doc, key) then [Field(name, Get(doc, key))] else [];
            && (IsScalar(parent) ==> FilterPair(r, doc, key, value) == FilterPair(r, own, name, value))
            && (parent.Array? && index.Some? && index.value < 0 ==>
                  FilterPair(r, doc, key, value) == if parent.elems == [] then Success(false) else Failure(Internal))
            && (parent.Array? && index.Some? && 0 <= index.value < |parent.elems|
                && parent.elems[index.value].Array? ==>
                  FilterPair(r, doc, key, value) == Compares(r, parent.elems[index.value], value, {Equal}))
  {
    EmptyPartExactly(key);
    if IsScalar(parent) {
      var own := if Has(doc, key) then [Field(name, Get(doc, key))] else [];
      assert FieldAt(doc, key) == FieldAt(own, name);
      PairLocal(r, doc, key, own, name, value);
      assert FilterPair(r, own, name, value) == FilterField(r, own, name, value);
    }
  }

  // -------------------------------------------------------------------- lists

  /** A value that `$in` compares: no document and no regular expression. */
  predicate Comparable(v: Value)
  {
    !v.Document? && !v.Regex?
  }

  lemma InOneIsPair(r: Rules, doc: Fields, key: bytes, elem: Value)
    requires PlainKey(key) && Has(doc, key) && Comparable(elem)
    ensures InOne(r, Get(doc, key), elem) == FilterPair(r, doc, key, elem)
  {
    assert FilterPair(r, doc, key, elem) == FilterField(r, doc, key, elem);
  }

  /** {field: {$in: [a, b, ...]}} holds exactly when {field: a} or {field: b} or ... does, on a field that is there. */
  lemma InMeansAnyPair(r: Rules, doc: Fields, key: bytes, inOp: bytes, elems: seq<Value>)
    requires PlainKey(key) && OperatorKey(r, inOp, In) && Has(doc, key)
    requires forall i :: 0 <= i < |elems| ==> Comparable(elems[i]) && FilterPair(r, doc, key, elems[i]).Success?
    ensures FilterExpr(r, doc, key, [Field(inOp, Array(elems))]) ==
              Success(exists i :: 0 <= i < |elems| && FilterPair(r, doc, key, elems[i]) == Success(true))
  {
    forall i | 0 <= i < |elems|
      ensures InOne(r, Get(doc, key), elems[i]) == FilterPair(r, doc, key, elems[i])
    {
      InOneIsPair(r, doc, key, elems[i]);
    }
    OnField(r, doc, key, inOp, In, Array(elems));
    FoundMeansAny(r, Get(doc, key), elems);
  }

  /** A document in the list is compared as a whole and must have no operator; a regular expression is matched. */
  lemma InWithDocuments(r: Rules, doc: Fields, key: bytes, inOp: bytes, elem: Value)
    requires OperatorKey(r, inOp, In) && Has(doc, key) && !Comparable(elem)
    ensures var field := Get(doc, key);
            FilterExpr(r, doc, key, [Field(inOp, Array([elem]))]) ==
              if elem.Regex? then r.regex(field, elem)
              else if exists i :: 0 <= i < |elem.fields| && DollarKey(elem.fields[i].key) then Failure(BadValue)
              else Success(field.Document? && r.sameDocument(field.fields, elem.fields))
  {
    OnField(r, doc, key, inOp, In, Array([elem]));
    assert [elem][1..] == [];
    assert Found(r, Get(doc, key), []) == Success(false);
  }

  // ---------------------------------------------------------------- documents

  /** {field: {}} asks for the empty document; {field: /regex/} is matched on a field that is there. */
  lemma OtherPairs(r: Rules, doc: Fields, key: bytes, regex: Value)
    requires PlainKey(key) && regex.Regex?
    ensures FilterPair(r, doc, key, Document([])) == Success(Has(doc, key) && Get(doc, key) == Document([]))
    ensures FilterPair(r, doc, key, regex) == if Has(doc, key) then r.regex(Get(doc, key), regex) else Success(false)
  {
    assert FilterPair(r, doc, key, Document([])) == FilterField(r, doc, key, Document([]));
    assert FilterPair(r, doc, key, regex) == FilterField(r, doc, key, regex);
  }

  lemma FirstKeyDecides(r: Rules, doc: Fields, key: bytes, expr: Fields)
    requires expr != [] && !DollarKey(expr[0].key) && r.operator(expr[0].key) == Unknown
    ensures ExprStep(r, doc, key, expr, 0) ==
              Stop(Success(if Has(doc, key) then Get(doc, key).Document? && r.sameDocument(Get(doc, key).fields, expr)
                           else expr[0].value.Null?))
  {
  }

  /**
   {field: {key: ..., ...}} compares the whole document; on a missing field it holds when the first
   value is null.
   */
  lemma DocumentPair(r: Rules, doc: Fields, key: bytes, expr: Fields)
    requires PlainKey(key) && expr != [] && !DollarKey(expr[0].key) && r.operator(expr[0].key) == Unknown
    ensures FilterPair(r, doc, key, Document(expr)) ==
              Success(if Has(doc, key) then Get(doc, key).Document? && r.sameDocument(Get(doc, key).fields, expr)
                      else expr[0].value.Null?)
  {
    FirstKeyDecides(r, doc, key, expr);
    assert FilterExpr(r, doc, key, expr) == ExprFrom(r, doc, key, expr, 0);
    assert FilterPair(r, doc, key, Document(expr)) == FilterField(r, doc, key, Document(expr));
  }

  /** {a: {b: null}} matches the empty document. */
  lemma MissingMatchesDocument(r: Rules)
    requires r.operator == OperatorOf
    ensures FilterDocument(r, [], [Field([97], Document([Field([98], Null)]))]) == Success(true)
  {
    var f := Field([97], Document([Field([98], Null)]));
    OnePair(r, [], f);
    assert !Has([], [97]);
    PlainIsUnknown([98]);
    DocumentPair(r, [], [97], [Field([98], Null)]);
  }

  /** `$elemMatch` on an array is its expression on the array; other fields do not match. */
  lemma ElemMatchMeans(r: Rules, doc: Fields, key: bytes, op: bytes, inner: Fields)
    requires OperatorKey(r, op, ElemMatch)
    ensures FilterExpr(r, doc, key, [Field(op, Document(inner))]) ==
              if !Has(doc, key) || !Get(doc, key).Array? then Success(false)
              else if ElemMatchError(r, inner, 0).Some? then Failure(ElemMatchError(r, inner, 0).value)
              else FilterExpr(r, doc, key, inner)
  {
    OneOperator(r, doc, key, op, Document(inner));
  }

  /** `$elemMatch` of anything but a document is an error, on an array. */
  lemma ElemMatchNeedsDocument(r: Rules, doc: Fields, key: bytes, op: bytes, arg: Value)
    requires OperatorKey(r, op, ElemMatch) && !arg.Document? && Has(doc, key)
    ensures FilterExpr(r, doc, key, [Field(op, arg)]) ==
              if Get(doc, key).Array? then Failure(BadValue) else Success(false)
  {
    OneOperator(r, doc, key, op, arg);
  }

  /** `$not` of a regular expression negates the match; of anything but that or a document it is an error. */
  lemma NotOfRegex(r: Rules, doc: Fields, key: bytes, not: bytes, arg: Value)
    requires OperatorKey(r, not, Not) && !arg.Document?
    ensures FilterExpr(r, doc, key, [Field(not, arg)]) ==
              if arg.Regex? then Negate(r.exprRegex(FieldAt(doc, key), arg, None)) else Failure(BadValue)
  {
    OneOperator(r, doc, key, not, arg);
    var expr := [Field(not, arg)];
    assert expr[1..] == [] && OptionsOf(r, []) == None;
    assert OptionsOf(r, expr) == None;
  }

  /** A regular expression is no argument of a comparison other than `$eq`. */
  lemma ComparisonRefusesRegex(r: Rules, doc: Fields, key: bytes, op: bytes, arg: Value)
    requires DollarKey(op) && r.operator(op) in {Ne, Gt, Gte, Lt, Lte} && arg.Regex? && Has(doc, key)
    ensures FilterExpr(r, doc, key, [Field(op, arg)]) == Failure(BadValue)
  {
    OneOperator(r, doc, key, op, arg);
  }

  /** What `$elemMatch` refuses in its expression, and how. */
  function Refusal(r: Rules, expr: Fields, i: nat): Option<Error>
    requires i < |expr|
  {
    match r.operator(expr[i].key)
    case TextOrWhere => Some(BadValue)
    case And => Some(NotImplemented)
    case Or => Some(NotImplemented)
    case Nor => Some(NotImplemented)
    case Ne => Some(NotImplemented)
    case Not => Some(NotImplemented)
    case _ => if |expr| > 1 && !DollarKey(expr[i].key) then Some(BadValue) else None
  }

  /** The first key that is refused decides. */
  lemma {:induction false} ElemMatchRefuses(r: Rules, expr: Fields, i: nat) returns (k: nat)
    requires i <= |expr|
    ensures i <= k <= |expr| && forall j :: i <= j < k ==> Refusal(r, expr, j) == None
    ensures ElemMatchError(r, expr, i) == if k < |expr| then Refusal(r, expr, k) else None
    ensures k < |expr| ==> Refusal(r, expr, k).Some?
    decreases |expr| - i
  {
    if i == |expr| || Refusal(r, expr, i).Some? {
      k := i;
    } else {
      k := ElemMatchRefuses(r, expr, i + 1);
    }
  }

  /** `$regex` is given the options that stand beside it, before or after. */
  lemma RegexOptionsGiven(r: Rules, doc: Fields, key: bytes, regex: bytes, options: bytes, p: Value, o: Value)
    requires OperatorKey(r, regex, Regexp) && OperatorKey(r, options, Options) && Has(doc, key)
    ensures FilterExpr(r, doc, key, [Field(regex, p), Field(options, o)])
         == r.exprRegex(Some(Get(doc, key)), p, Some(o))
    ensures FilterExpr(r, doc, key, [Field(options, o), Field(regex, p)])
         == r.exprRegex(Some(Get(doc, key)), p, Some(o))
    ensures FilterExpr(r, doc, key, [Field(regex, p)]) == r.exprRegex(Some(Get(doc, key)), p, None)
  {
    var a, b, c := [Field(regex, p), Field(options, o)], [Field(options, o), Field(regex, p)], [Field(regex, p)];
    assert OptionsOf(r, b) == Some(o);
    assert c[1..] == [] && OptionsOf(r, []) == None;
    assert OptionsOf(r, c) == None;
    assert OptionsOf(r, [Field(options, o)]) == Some(o);
    assert a[1..] == [Field(options, o)];
    assert OptionsOf(r, a) == Some(o);
    TwoSteps(r, doc, key, a);
    TwoSteps(r, doc, key, b);
    OneOperator(r, doc, key, regex, p);
  }

  lemma TwoSteps(r: Rules, doc: Fields, key: bytes, expr: Fields)
    requires |expr| == 2
    ensures FilterExpr(r, doc, key, expr) ==
              match ExprStep(r, doc, key, expr, 0)
              case Stop(m) => m
              case Go => Ended(ExprStep(r, doc, key, expr, 1))
  {
    assert ExprFrom(r, doc, key, expr, 2) == Success(true);
    assert ExprFrom(r, doc, key, expr, 1) == Ended(ExprStep(r, doc, key, expr, 1));
  }

  // --------------------------------------------------------- other operators

  /** `$comment` matches; operators that are not logical are refused, and so is a list of anything but documents. */
  lemma TopLevel(r: Rules, doc: Fields, key: bytes, value: Value)
    requires DollarKey(key) && DOT !in key
    ensures var op, m := r.operator(key), FilterDocument(r, doc, [Field(key, value)]);
            && (op == Comment ==> m == Success(true))
            && (op !in {And, Or, Nor, Comment} ==> m == Failure(BadValue))
            && (op in {And, Or, Nor} && !value.Array? ==> m == Failure(BadValue))
            && (op in {And, Or, Nor} && value.Array? && value.elems != [] && !value.elems[0].Document? ==>
                  m == Failure(BadValue))
  {
    OperatorFilter(r, doc, key, r.operator(key), value);
  }

  /** Operators that only look at the value are given it; `$exists` is asked on a missing field too. */
  lemma LeafGiven(r: Rules, doc: Fields, key: bytes, op: bytes, arg: Value)
    requires DollarKey(op) && DOT !in op && r.operator(op) in {Leaf, All, Exists}
    ensures Has(doc, key) || r.operator(op) == Exists ==>
              FilterExpr(r, doc, key, [Field(op, arg)]) == r.leaf(op, FieldAt(doc, key), arg)
    ensures !Has(doc, key) && r.operator(op) != Exists ==>
              FilterExpr(r, doc, key, [Field(op, arg)]) ==
                Success(arg.Null? || (r.operator(op) == All && arg.Array? && arg.elems != []
                                      && forall i :: 0 <= i < |arg.elems| ==> arg.elems[i].Null?))
  {
    OneOperator(r, doc, key, op, arg);
  }

  // -------------------------------------------------------------------- names

  lemma Differ(a: string, b: string, i: nat)
    requires i < |a| && i < |b| && a[i] as int % 256 != b[i] as int % 256
    ensures Ascii(a) != Ascii(b)
  {
    assert Ascii(a)[i] != Ascii(b)[i];
  }

  /** The operators of two letters. */
  lemma ShortNames()
    ensures OperatorOf(Ascii("$or")) == Or
    ensures OperatorOf(Ascii("$eq")) == Eq
    ensures OperatorOf(Ascii("$ne")) == Ne
    ensures OperatorOf(Ascii("$gt")) == Gt
    ensures OperatorOf(Ascii("$lt")) == Lt
    ensures OperatorOf(Ascii("$in")) == In
  {
    Differ("$eq", "$or", 1);
    Differ("$ne", "$or", 1);
    Differ("$ne", "$eq", 1);
    Differ("$gt", "$or", 1);
    Differ("$gt", "$eq", 1);
    Differ("$gt", "$ne", 1);
    Differ("$lt", "$or", 1);
    Differ("$lt", "$eq", 1);
    Differ("$lt", "$ne", 1);
    Differ("$lt", "$gt", 1);
    Differ("$in", "$or", 1);
    Differ("$in", "$eq", 1);
    Differ("$in", "$ne", 1);
    Differ("$in", "$gt", 1);
    Differ("$in", "$lt", 1);
  }

  /** Operators of three letters. */
  lemma BoundNames()
    ensures OperatorOf(Ascii("$and")) == And
    ensures OperatorOf(Ascii("$nor")) == Nor
    ensures OperatorOf(Ascii("$gte")) == Gte
    ensures OperatorOf(Ascii("$lte")) == Lte
  {
    Differ("$nor", "$and", 1);
    Differ("$gte", "$and", 1);
    Differ("$gte", "$nor", 1);
    Differ("$lte", "$and", 1);
    Differ("$lte", "$nor", 1);
    Differ("$lte", "$gte", 1);
  }

  /** More operators of three letters. */
  lemma NegationNames()
    ensures OperatorOf(Ascii("$nin")) == Nin
    ensures OperatorOf(Ascii("$not")) == Not
  {
    Differ("$nin", "$and", 1);
    Differ("$nin", "$nor", 2);
    Differ("$nin", "$gte", 1);
    Differ("$nin", "$lte", 1);
    Differ("$not", "$and", 1);
    Differ("$not", "$nor", 3);
    Differ("$not", "$gte", 1);
    Differ("$not", "$lte", 1);
    Differ("$not", "$nin", 2);
  }

  lemma AllName()
    ensures OperatorOf(Ascii("$all")) == All
  {
    Differ("$all", "$and", 2);
    Differ("$all", "$nor", 1);
    Differ("$all", "$gte", 1);
    Differ("$all", "$lte", 1);
    Differ("$all", "$nin", 1);
    Differ("$all", "$not", 1);
  }

  lemma ModName()
    ensures OperatorOf(Ascii("$mod")) == Leaf
  {
    Differ("$mod", "$and", 1);
    Differ("$mod", "$nor", 1);
    Differ("$mod", "$gte", 1);
    Differ("$mod", "$lte", 1);
    Differ("$mod", "$nin", 1);
    Differ("$mod", "$not", 1);
    Differ("$mod", "$all", 1);
  }

  /** Operators of four and five letters. */
  lemma MiddleNames()
    ensures OperatorOf(Ascii("$regex")) == Regexp
    ensures OperatorOf(Ascii("$size")) == Leaf
    ensures OperatorOf(Ascii("$type")) == Leaf
    ensures OperatorOf(Ascii("$text")) == TextOrWhere
    ensures OperatorOf(Ascii("$where")) == TextOrWhere
  {
    Differ("$text", "$size", 1);
    Differ("$text", "$type", 2);
    Differ("$where", "$regex", 1);
  }

  /** Longer operators. */
  lemma LongNames()
    ensures OperatorOf(Ascii("$comment")) == Comment
    ensures OperatorOf(Ascii("$options")) == Options
    ensures OperatorOf(Ascii("$elemMatch")) == ElemMatch
    ensures OperatorOf(Ascii("$exists")) == Exists
    ensures OperatorOf(Ascii("$bitsAllClear")) == Leaf
    ensures OperatorOf(Ascii("$bitsAllSet")) == Leaf
    ensures OperatorOf(Ascii("$bitsAnyClear")) == Leaf
    ensures OperatorOf(Ascii("$bitsAnySet")) == Leaf
  {
    Differ("$options", "$comment", 1);
  }

  lemma OperatorStarts(key: bytes, name: string)
    requires !DollarKey(key) && name != "" && name[0] == '$'
    ensures key != Ascii(name)
  {
    assert Ascii(name)[0] == 36;
  }

  /** A key that does not start with "$" is no operator. */
  lemma PlainIsUnknown(key: bytes)
    requires !DollarKey(key)
    ensures OperatorOf(key) == Unknown
  {
    OperatorStarts(key, "$and");
    OperatorStarts(key, "$or");
    OperatorStarts(key, "$nor");
    OperatorStarts(key, "$comment");
    OperatorStarts(key, "$options");
    OperatorStarts(key, "$eq");
    OperatorStarts(key, "$ne");
    OperatorStarts(key, "$gt");
    OperatorStarts(key, "$gte");
    OperatorStarts(key, "$lt");
    OperatorStarts(key, "$lte");
    OperatorStarts(key, "$in");
    OperatorStarts(key, "$nin");
    OperatorStarts(key, "$not");
    OperatorStarts(key, "$elemMatch");
    OperatorStarts(key, "$regex");
    OperatorStarts(key, "$exists");
    OperatorStarts(key, "$all");
    OperatorStarts(key, "$size");
    OperatorStarts(key, "$bitsAllClear");
    OperatorStarts(key, "$bitsAllSet");
    OperatorStarts(key, "$bitsAnyClear");
    OperatorStarts(key, "$bitsAnySet");
    OperatorStarts(key, "$mod");
    OperatorStarts(key, "$type");
    OperatorStarts(key, "$text");
    OperatorStarts(key, "$where");
  }
}
