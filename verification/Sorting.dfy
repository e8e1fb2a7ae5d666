/** `SortDocuments`: the order on documents, and what sorting by it gives. */
module Sorting {
  import opened Bytes
  import opened Doubles
  import opened Values
  import opened Wrappers
  import opened Compare
  import opened CompareLaws

  /** One field of a sort specification. */
  datatype SortKey = SortKey(key: bytes, order: SortType)

  datatype SortError = TooManyKeys | IllegalKey | NotWholeNumber | BadOrder

  // -------------------------------------------------------------- operations

  /** `lessFunc`; `None` is a panic. */
  function LessBy(env: Env, k: SortKey, p: Fields, q: Fields): Option<bool>
  {
    if !Has(p, k.key) || !Has(q, k.key) then Some(false)
    else match CompareOrder(env, Get(p, k.key), Get(q, k.key), k.order)
      case None => None
      case Some(r) => Some(if k.order.Ascending? then r == Less else r == Greater)
  }

  /** `docsSorter.Less`; `None` is a panic. */
  function LessDocs(env: Env, keys: seq<SortKey>, p: Fields, q: Fields): Option<bool>
    requires keys != []
  {
    if |keys| == 1 then LessBy(env, keys[0], p, q)
    else match LessBy(env, keys[0], p, q)
      case None => None
      case Some(true) => Some(true)
      case Some(false) =>
        match LessBy(env, keys[0], q, p)
        case None => None
        case Some(true) => Some(false)
        case Some(false) => LessDocs(env, keys[1..], p, q)
  }

  /** `getSortType`. */
  function SortTypeOf(v: Value): Result<SortType, SortError>
  {
    match v
    case Double(bits) =>
      if !IsFinite(bits) || Truncated(bits) * Unit() != Scaled(bits) then Failure(NotWholeNumber)
      else OrderOf(Truncated(bits))
    case Int32(i) => OrderOf(i)
    case Int64(i) => OrderOf(i)
    case _ => Failure(IllegalKey)
  }

  function OrderOf(i: int): Result<SortType, SortError>
  {
    if i == 1 then Success(Ascending) else if i == -1 then Success(Descending) else Failure(BadOrder)
  }

  /** The sort functions of a specification, in its order. */
  function KeysOf(sort: Fields): Result<seq<SortKey>, SortError>
  {
    if sort == [] then Success([])
    else
      var order :- SortTypeOf(sort[0].value);
      var rest :- KeysOf(sort[1..]);
      Success([SortKey(sort[0].key, order)] + rest)
  }

  /** A number of any type that equals `i` exactly. */
  predicate EqualsInt(v: Value, i: int)
  {
    match v
    case Double(bits) => IsFinite(bits) && Scaled(bits) == i * Unit()
    case Int32(n) => n == i
    case Int64(n) => n == i
    case _ => false
  }

  lemma QuotientOfOne(s: int, u: int, t: int)
    requires u >= 1 && t == if s >= 0 then s / u else -((-s) / u)
    ensures (t == 1 && t * u == s) <==> s == u
    ensures (t == -1 && t * u == s) <==> s == -u
  {
    assert u / u == 1;
  }

  /** A sort value is accepted exactly when it equals 1 or -1. */
  lemma SortTypeExactly(v: Value)
    ensures SortTypeOf(v) == Success(Ascending) <==> EqualsInt(v, 1)
    ensures SortTypeOf(v) == Success(Descending) <==> EqualsInt(v, -1)
    ensures SortTypeOf(v).Success? <==> EqualsInt(v, 1) || EqualsInt(v, -1)
  {
    if v.Double? {
      QuotientOfOne(Scaled(v.bits), Unit(), Truncated(v.bits));
    }
  }

  lemma QuotientOf(s: int, u: int, t: int, n: int)
    requires u >= 1 && t == (if s >= 0 then s / u else -((-s) / u)) && s == n * u
    ensures t == n
  {
    if n >= 0 {
      assert s == u * n;
      QuotientIs(s, u, n);
    } else {
      assert -s == u * (-n);
      QuotientIs(-s, u, -n);
    }
  }

  lemma WholeExactly(bits: uint64, n: int)
    requires Scaled(bits) == n * Unit()
    ensures Truncated(bits) == n
  {
    QuotientOf(Scaled(bits), Unit(), Truncated(bits), n);
  }

  /** Why a sort value is refused: it is no number, it is no whole number, or it is another number. */
  lemma SortTypeErrors(v: Value)
    ensures SortTypeOf(v) == Failure(IllegalKey) <==> !v.Double? && !v.Int32? && !v.Int64?
    ensures SortTypeOf(v) == Failure(NotWholeNumber) <==> v.Double? && forall n: int :: !EqualsInt(v, n)
    ensures SortTypeOf(v) == Failure(BadOrder) <==> exists n: int :: EqualsInt(v, n) && n != 1 && n != -1
  {
    if v.Double? {
      forall n: int | EqualsInt(v, n)
        ensures Truncated(v.bits) == n
      {
        WholeExactly(v.bits, n);
      }
      assert IsFinite(v.bits) && Truncated(v.bits) * Unit() == Scaled(v.bits) ==> EqualsInt(v, Truncated(v.bits));
    } else if v.Int32? {
      assert EqualsInt(v, v.i32);
    } else if v.Int64? {
      assert EqualsInt(v, v.i64);
    }
  }

  /** A specification is accepted exactly when every value equals 1 or -1, and its keys keep their order. */
  lemma {:induction false} KeysOfExactly(sort: Fields)
    ensures KeysOf(sort).Success? <==>
              forall i :: 0 <= i < |sort| ==> EqualsInt(sort[i].value, 1) || EqualsInt(sort[i].value, -1)
    ensures KeysOf(sort).Success? ==> |KeysOf(sort).value| == |sort|
    ensures KeysOf(sort).Success? ==> forall i :: 0 <= i < |sort| ==>
              var order := if EqualsInt(sort[i].value, 1) then Ascending else Descending;
              KeysOf(sort).value[i] == SortKey(sort[i].key, order)
  {
    if sort == [] {
    } else {
      SortTypeExactly(sort[0].value);
      KeysOfExactly(sort[1..]);
      assert forall i :: 1 <= i < |sort| ==> sort[i] == sort[1..][i - 1];
      assert forall i :: 0 <= i < |sort| - 1 ==> sort[1..][i] == sort[i + 1];
    }
  }

  // ------------------------------------------------------- order on documents

  /** A document that has every sort key, with a value that can be ordered. */
  ghost predicate Sortable(env: Env, keys: seq<SortKey>, d: Fields)
  {
    forall i :: 0 <= i < |keys| ==> Has(d, keys[i].key) && Orderable(env, Get(d, keys[i].key))
  }

  function Directed(order: SortType, r: CompareResult): CompareResult
  {
    if order.Ascending? then r else Invert(r)
  }

  /** The first sort key whose values differ decides. */
  ghost function DocOrder(env: Env, keys: seq<SortKey>, p: Fields, q: Fields): CompareResult
    requires Sortable(env, keys, p) && Sortable(env, keys, q)
  {
    if keys == [] then Equal
    else
      var r := Along(env, keys[0], p, q);
      if r != Equal then r else DocOrder(env, keys[1..], p, q)
  }

  ghost function ByKey(env: Env, k: SortKey, p: Fields, q: Fields): CompareResult
    requires Has(p, k.key) && Has(q, k.key)
  {
    var r := CompareOrder(env, Get(p, k.key), Get(q, k.key), k.order);
    if r.Some? then r.value else Incomparable
  }

  lemma {:induction false} LessIsDocOrder(env: Env, keys: seq<SortKey>, p: Fields, q: Fields)
    requires env.unit >= 1 && keys != [] && Sortable(env, keys, p) && Sortable(env, keys, q)
    ensures LessDocs(env, keys, p, q) == Some(DocOrder(env, keys, p, q) == Less)
  {
    var k := keys[0];
    OrderInvert(env, Get(p, k.key), Get(q, k.key), k.order);
    if |keys| > 1 {
      LessIsDocOrder(env, keys[1..], p, q);
    }
  }

  lemma {:induction false} DocOrderInvert(env: Env, keys: seq<SortKey>, p: Fields, q: Fields)
    requires env.unit >= 1 && Sortable(env, keys, p) && Sortable(env, keys, q)
    ensures DocOrder(env, keys, q, p) == Invert(DocOrder(env, keys, p, q)) != Incomparable
  {
    if keys == [] {
    } else {
      var k := keys[0];
      OrderInvert(env, Get(p, k.key), Get(q, k.key), k.order);
      DocOrderInvert(env, keys[1..], p, q);
    }
  }

  /** The directed comparison by one key. */
  ghost function Along(env: Env, k: SortKey, p: Fields, q: Fields): CompareResult
    requires Has(p, k.key) && Has(q, k.key)
  {
    Directed(k.order, ByKey(env, k, p, q))
  }

  ghost predicate SortableBy(env: Env, k: SortKey, d: Fields)
  {
    Has(d, k.key) && Orderable(env, Get(d, k.key))
  }

  lemma AlongTransitive(env: Env, k: SortKey, p: Fields, q: Fields, r: Fields)
    requires env.unit >= 1 && SortableBy(env, k, p) && SortableBy(env, k, q) && SortableBy(env, k, r)
    requires Along(env, k, p, q) != Greater && Along(env, k, q, r) != Greater
    ensures Along(env, k, p, q) in {Less, Equal} && Along(env, k, q, r) in {Less, Equal}
    ensures Along(env, k, p, r)
         == if Along(env, k, p, q) == Less || Along(env, k, q, r) == Less then Less else Equal
  {
    var a, b, c := Get(p, k.key), Get(q, k.key), Get(r, k.key);
    OrderInvert(env, a, b, k.order);
    OrderInvert(env, b, c, k.order);
    OrderInvert(env, a, c, k.order);
    if k.order.Ascending? {
      OrderTransitive(env, a, b, c, k.order);
    } else {
      OrderTransitive(env, c, b, a, k.order);
    }
    if CompareOrder(env, a, b, k.order) == Some(Equal) && CompareOrder(env, b, c, k.order) == Some(Equal) {
      OrderTransitive(env, a, b, c, k.order);
      OrderTransitive(env, c, b, a, k.order);
    }
  }

  lemma SortableParts(env: Env, keys: seq<SortKey>, d: Fields)
    requires keys != [] && Sortable(env, keys, d)
    ensures SortableBy(env, keys[0], d) && Sortable(env, keys[1..], d)
  {
  }

  lemma {:induction false} DocOrderTransitive(env: Env, keys: seq<SortKey>, p: Fields, q: Fields, r: Fields)
    requires env.unit >= 1 && Sortable(env, keys, p) && Sortable(env, keys, q) && Sortable(env, keys, r)
    requires DocOrder(env, keys, p, q) != Greater && DocOrder(env, keys, q, r) != Greater
    ensures DocOrder(env, keys, p, r) != Greater
    ensures DocOrder(env, keys, p, q) == Less || DocOrder(env, keys, q, r) == Less ==> DocOrder(env, keys, p, r) == Less
  {
    if keys == [] {
    } else {
      SortableParts(env, keys, p);
      SortableParts(env, keys, q);
      SortableParts(env, keys, r);
      AlongTransitive(env, keys[0], p, q, r);
      if Along(env, keys[0], p, q) == Equal && Along(env, keys[0], q, r) == Equal {
        DocOrderTransitive(env, keys[1..], p, q, r);
      }
    }
  }

  // ------------------------------------------------------------ strict weak order

  type Less = (Fields, Fields) -> bool

  ghost predicate StrictWeak(less: Less, docs: seq<Fields>)
  {
    && (forall p, q :: p in docs && q in docs && less(p, q) ==> !less(q, p))
    && (forall p, q, r :: p in docs && q in docs && r in docs && !less(q, p) && !less(r, q) ==> !less(r, p))
  }

  function LessFunction(env: Env, keys: seq<SortKey>): Less
    requires keys != []
  {
    (p, q) => LessDocs(env, keys, p, q) == Some(true)
  }

  /** On documents that have all the sort keys, `Less` is a strict weak order. */
  lemma LessIsStrictWeak(env: Env, keys: seq<SortKey>, docs: seq<Fields>)
    requires env.unit >= 1 && keys != [] && forall d :: d in docs ==> Sortable(env, keys, d)
    ensures StrictWeak(LessFunction(env, keys), docs)
  {
    var less := LessFunction(env, keys);
    forall p, q | p in docs && q in docs
      ensures less(p, q) <==> DocOrder(env, keys, p, q) == Less
      ensures DocOrder(env, keys, q, p) == Invert(DocOrder(env, keys, p, q)) != Incomparable
    {
      LessIsDocOrder(env, keys, p, q);
      DocOrderInvert(env, keys, p, q);
    }
    forall p, q, r | p in docs && q in docs && r in docs && !less(q, p) && !less(r, q)
      ensures !less(r, p)
    {
      DocOrderTransitive(env, keys, p, q, r);
    }
  }

  /** A document that lacks the sort key, or has a value that can be ordered. */
  ghost predicate MaybeSortable(env: Env, k: SortKey, d: Fields)
  {
    Has(d, k.key) ==> Orderable(env, Get(d, k.key))
  }

  ghost predicate Ties(env: Env, k: SortKey, p: Fields, q: Fields)
  {
    LessBy(env, k, p, q) == Some(false) == LessBy(env, k, q, p)
  }

  lemma TiesIsNeither(env: Env, k: SortKey, p: Fields, q: Fields)
    requires env.unit >= 1 && MaybeSortable(env, k, p) && MaybeSortable(env, k, q)
    ensures var less := LessFunction(env, [k]); Ties(env, k, p, q) <==> !less(p, q) && !less(q, p)
    ensures !Has(p, k.key) || !Has(q, k.key) ==> Ties(env, k, p, q)
  {
    if Has(p, k.key) && Has(q, k.key) {
      OrderInvert(env, Get(p, k.key), Get(q, k.key), k.order);
    }
  }

  /** No document lacks the key, or all that have it tie with each other. */
  ghost predicate EvenKey(env: Env, k: SortKey, docs: seq<Fields>)
  {
    || (forall d :: d in docs ==> Has(d, k.key))
    || (forall p, q :: p in docs && q in docs && Has(p, k.key) && Has(q, k.key) ==> Ties(env, k, p, q))
  }

  /**
   A document without the sort key ties with every other.  So `Less` by one key is the strict
   weak order that a sort needs exactly when no document lacks the key or all that have it tie.
   */
  lemma StrictWeakExactly(env: Env, k: SortKey, docs: seq<Fields>)
    requires env.unit >= 1 && forall d :: d in docs ==> MaybeSortable(env, k, d)
    ensures StrictWeak(LessFunction(env, [k]), docs) <==> EvenKey(env, k, docs)
  {
    var less := LessFunction(env, [k]);
    forall p, q | p in docs && q in docs
      ensures Ties(env, k, p, q) <==> !less(p, q) && !less(q, p)
      ensures !Has(p, k.key) || !Has(q, k.key) ==> Ties(env, k, p, q)
    {
      TiesIsNeither(env, k, p, q);
    }
    if m :| m in docs && !Has(m, k.key) {
      if StrictWeak(less, docs) {
        forall p, q | p in docs && q in docs && Has(p, k.key) && Has(q, k.key)
          ensures Ties(env, k, p, q)
        {
          assert Ties(env, k, p, m) && Ties(env, k, m, q);
        }
      }
    } else {
      LessIsStrictWeak(env, [k], docs);
    }
  }

  /** {a: 1}, {} and {a: 2}: each ties with the next, but the first is less than the third. */
  lemma MissingKeyBreaksOrder(env: Env)
    requires env.unit >= 1
    ensures var docs := [[Field([97], Int32(1))], [], [Field([97], Int32(2))]];
            !StrictWeak(LessFunction(env, [SortKey([97], Ascending)]), docs)
  {
    var k := SortKey([97], Ascending);
    var docs := [[Field([97], Int32(1))], [], [Field([97], Int32(2))]];
    assert docs[0] in docs && docs[1] in docs && docs[2] in docs;
    assert Get(docs[0], [97]) == Int32(1) && Get(docs[2], [97]) == Int32(2);
    assert Compare.Compare(env, Int32(1), Int32(2)) == Some([Less]);
    assert LessBy(env, k, docs[0], docs[2]) == Some(true);
    StrictWeakExactly(env, k, docs);
  }

  lemma IntsCompare(env: Env, i: int32, j: int32)
    requires env.unit >= 1
    ensures CompareOrder(env, Int32(i), Int32(j), Ascending) == Some(CompareInts(i, j))
  {
    NumbersOrder(env, Int32(i), Int32(j), Ascending);
    assert Compare.Compare(env, Int32(i), Int32(j)) == Some([CompareInts(i, j)]);
  }

  /** A document with the number `y`, and the number `x` if it is given. */
  function Point(x: Option<int32>, y: int32): Fields
  {
    (if x.Some? then [Field([120], Int32(x.value))] else []) + [Field([121], Int32(y))]
  }

  lemma PointFields(x: Option<int32>, y: int32)
    ensures Has(Point(x, y), [120]) <==> x.Some?
    ensures x.Some? ==> Get(Point(x, y), [120]) == Int32(x.value)
    ensures Has(Point(x, y), [121]) && Get(Point(x, y), [121]) == Int32(y)
  {
    assert [120 as byte][0] != [121 as byte][0];
  }

  /** Where the first key agrees with the second or is missing, only the second matters. */
  lemma SecondKeyDecides(env: Env, x1: Option<int32>, y1: int32, x2: Option<int32>, y2: int32)
    requires env.unit >= 1 && (x1.Some? && x2.Some? ==> CompareInts(x1.value, x2.value) == CompareInts(y1, y2))
    ensures var x, y := SortKey([120], Ascending), SortKey([121], Ascending);
            LessDocs(env, [x, y], Point(x1, y1), Point(x2, y2)) == Some(y1 < y2)
  {
    var x, y := SortKey([120], Ascending), SortKey([121], Ascending);
    PointFields(x1, y1);
    PointFields(x2, y2);
    IntsCompare(env, y1, y2);
    if x1.Some? && x2.Some? {
      IntsCompare(env, x1.value, x2.value);
      IntsCompare(env, x2.value, x1.value);
    }
    assert [x, y][1..] == [y];
  }

  lemma FirstKeyAlone(env: Env, docs: seq<Fields>, a: Fields, b: Fields, c: Fields)
    requires env.unit >= 1 && a == Point(Some(1), 1) && b == Point(None, 2) && c == Point(Some(2), 3)
    requires docs == [a, b, c]
    ensures !StrictWeak(LessFunction(env, [SortKey([120], Ascending)]), docs)
  {
    var x := SortKey([120], Ascending);
    PointFields(Some(1), 1);
    PointFields(None, 2);
    PointFields(Some(2), 3);
    IntsCompare(env, 1, 2);
    assert LessBy(env, x, a, c) == Some(true);
    assert docs[0] == a && docs[1] == b && docs[2] == c;
    StrictWeakExactly(env, x, docs);
  }

  /** {x: 1, y: 1}, {y: 2} and {x: 2, y: 3} by x and then y: x alone gives no order, both do. */
  lemma LaterKeyRestoresOrder(env: Env)
    requires env.unit >= 1
    ensures var x, y := SortKey([120], Ascending), SortKey([121], Ascending);
            var docs := [Point(Some(1), 1), Point(None, 2), Point(Some(2), 3)];
            StrictWeak(LessFunction(env, [x, y]), docs) && !StrictWeak(LessFunction(env, [x]), docs)
  {
    var x, y := SortKey([120], Ascending), SortKey([121], Ascending);
    var a, b, c := Point(Some(1), 1), Point(None, 2), Point(Some(2), 3);
    var docs := [a, b, c];
    SecondKeyDecides(env, Some(1), 1, Some(1), 1);
    SecondKeyDecides(env, Some(1), 1, None, 2);
    SecondKeyDecides(env, Some(1), 1, Some(2), 3);
    SecondKeyDecides(env, None, 2, Some(1), 1);
    SecondKeyDecides(env, None, 2, None, 2);
    SecondKeyDecides(env, None, 2, Some(2), 3);
    SecondKeyDecides(env, Some(2), 3, Some(1), 1);
    SecondKeyDecides(env, Some(2), 3, None, 2);
    SecondKeyDecides(env, Some(2), 3, Some(2), 3);
    assert forall d :: d in docs <==> d == a || d == b || d == c;
    FirstKeyAlone(env, docs, a, b, c);
  }
}
