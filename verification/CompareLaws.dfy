/** `CompareOrder` is a total preorder on scalars: it compares an explicit key. */
module CompareLaws {
  import opened Bytes
  import opened Doubles
  import opened Values
  import opened Wrappers
  import opened Compare

  // ------------------------------------------------------ lexicographic order

  function Lex(a: seq<int>, b: seq<int>): CompareResult
  {
    if a == [] && b == [] then Equal
    else if a == [] then Less
    else if b == [] then Greater
    else if a[0] != b[0] then CompareInts(a[0], b[0])
    else Lex(a[1..], b[1..])
  }

  lemma {:induction false} LexInvert(a: seq<int>, b: seq<int>)
    ensures Lex(b, a) == Invert(Lex(a, b))
    ensures Lex(a, b) == Equal <==> a == b
    ensures Lex(a, b) != Incomparable
  {
    if a != [] && b != [] && a[0] == b[0] {
      LexInvert(a[1..], b[1..]);
      assert a == [a[0]] + a[1..] && b == [b[0]] + b[1..];
    }
  }

  lemma {:induction false} LexTransitive(a: seq<int>, b: seq<int>, c: seq<int>)
    requires Lex(a, b) != Greater && Lex(b, c) != Greater
    ensures Lex(a, c) != Greater
    ensures Lex(a, b) == Less || Lex(b, c) == Less ==> Lex(a, c) == Less
  {
    if a != [] && b != [] && c != [] && a[0] == b[0] == c[0] {
      LexTransitive(a[1..], b[1..], c[1..]);
    }
  }

  lemma LexHead(x: int, a: seq<int>, y: int, b: seq<int>)
    ensures Lex([x] + a, [y] + b) == if x != y then CompareInts(x, y) else Lex(a, b)
  {
    assert ([x] + a)[1..] == a && ([y] + b)[1..] == b;
  }

  function Ints(s: bytes): (r: seq<int>)
    ensures |r| == |s|
  {
    seq(|s|, i requires 0 <= i < |s| => s[i] as int)
  }

  lemma {:induction false} LexBytes(a: bytes, b: bytes)
    ensures Lex(Ints(a), Ints(b)) == CompareBytes(a, b)
  {
    if a != [] && b != [] && a[0] == b[0] {
      assert Ints(a)[1..] == Ints(a[1..]) && Ints(b)[1..] == Ints(b[1..]);
      LexBytes(a[1..], b[1..]);
    }
  }

  // --------------------------------------------------------------------- key

  /** A scalar that `CompareOrder` accepts. */
  predicate Orderable(env: Env, v: Value)
  {
    IsScalar(v) && (v.Regex? ==> env.compile(v.pattern, v.options).Some?)
  }

  predicate IsNumber(env: Env, v: Value)
  {
    (v.Double? && !env.nan(v.bits)) || v.Int32? || v.Int64?
  }

  /** The exact value of a number, times 2^1074. */
  function Number(env: Env, v: Value): int
    requires IsNumber(env, v)
  {
    match v
    case Double(bits) => env.scaled(bits)
    case Int32(i) => i * env.unit
    case Int64(i) => i * env.unit
  }

  /** Equal numbers are ordered by their types, the other way round when descending. */
  function Tie(v: Value, order: SortType): int
  {
    if order.Ascending? then NumberType(v) else -NumberType(v)
  }

  function Payload(env: Env, v: Value, order: SortType): seq<int>
    requires Orderable(env, v)
  {
    match v
    case Double(bits) => if env.nan(bits) then [] else [Number(env, v), Tie(v, order)]
    case Int32(_) => [Number(env, v), Tie(v, order)]
    case Int64(_) => [Number(env, v), Tie(v, order)]
    case String(s) => Ints(s)
    case Binary(subtype, data) => [|data|, subtype as int] + Ints(data)
    case ObjectId(id) => Ints(id)
    case Bool(b) => [if b then 1 else 0]
    case DateTime(ms) => [ms]
    case Null => []
    case Timestamp(t) => [t]
    case Regex(p, o) => Ints(env.compile(p, o).value)
  }

  /** The position of a scalar in the order: its type, then its value. */
  function Key(env: Env, v: Value, order: SortType): seq<int>
    requires Orderable(env, v)
  {
    [DataType(env, v).value] + Payload(env, v, order)
  }

  lemma ScaledUp(i: int, j: int, unit: int)
    requires unit >= 1
    ensures CompareInts(i * unit, j * unit) == CompareInts(i, j)
  {
    if i < j {
      assert i * unit < j * unit;
    } else if i > j {
      assert i * unit > j * unit;
    }
  }

  lemma NumbersCompare(env: Env, a: Value, b: Value)
    requires env.unit >= 1 && IsNumber(env, a) && IsNumber(env, b)
    ensures CompareScalars(env, a, b) == Some(CompareInts(Number(env, a), Number(env, b)))
  {
    match (a, b)
    case (Int32(i), Int32(j)) => ScaledUp(i, j, env.unit);
    case (Int32(i), Int64(j)) => ScaledUp(i, j, env.unit);
    case (Int64(i), Int32(j)) => ScaledUp(i, j, env.unit);
    case (Int64(i), Int64(j)) => ScaledUp(i, j, env.unit);
    case _ =>
  }

  lemma NumbersOrder(env: Env, a: Value, b: Value, order: SortType)
    requires env.unit >= 1 && IsNumber(env, a) && IsNumber(env, b)
    ensures CompareOrder(env, a, b, order) == Some(Lex(Payload(env, a, order), Payload(env, b, order)))
  {
    NumbersCompare(env, a, b);
    var x, y := Number(env, a), Number(env, b);
    var s, t := Tie(a, order), Tie(b, order);
    assert Payload(env, a, order) == [x] + [s] && Payload(env, b, order) == [y] + [t];
    LexHead(x, [s], y, [t]);
    assert [s] == [s] + [] && [t] == [t] + [];
    LexHead(s, [], t, []);
    assert Compare.Compare(env, a, b) == Some([CompareInts(x, y)]);
  }

  lemma PayloadCompare(env: Env, a: Value, b: Value, order: SortType)
    requires Orderable(env, a) && Orderable(env, b) && DataType(env, a) == DataType(env, b) && !IsNumber(env, a)
    ensures CompareScalars(env, a, b) == Some(Lex(Payload(env, a, order), Payload(env, b, order)))
  {
    match (a, b)
    case (String(s), String(t)) => LexBytes(s, t);
    case (ObjectId(s), ObjectId(t)) => LexBytes(s, t);
    case (Regex(p, o), Regex(q, u)) => LexBytes(env.compile(p, o).value, env.compile(q, u).value);
    case (Binary(s, x), Binary(t, y)) =>
      LexBytes(x, y);
      LexHead(s as int, Ints(x), t as int, Ints(y));
      LexHead(|x|, [s as int] + Ints(x), |y|, [t as int] + Ints(y));
      assert Payload(env, a, order) == [|x|] + ([s as int] + Ints(x));
      assert Payload(env, b, order) == [|y|] + ([t as int] + Ints(y));
    case _ =>
  }

  lemma TypesDecide(env: Env, a: Value, b: Value, order: SortType)
    requires IsScalar(a) && IsScalar(b) && DataType(env, a) != DataType(env, b)
    ensures CompareOrder(env, a, b, order) == Some(CompareInts(DataType(env, a).value, DataType(env, b).value))
  {
  }

  lemma SameTypeOrder(env: Env, a: Value, b: Value, order: SortType)
    requires env.unit >= 1 && Orderable(env, a) && Orderable(env, b) && DataType(env, a) == DataType(env, b)
    ensures CompareOrder(env, a, b, order) == Some(Lex(Payload(env, a, order), Payload(env, b, order)))
  {
    if IsNumber(env, a) {
      NumbersOrder(env, a, b, order);
    } else {
      PayloadCompare(env, a, b, order);
      assert Compare.Compare(env, a, b) == Some([CompareScalars(env, a, b).value]);
    }
  }

  /** On scalars `CompareOrder` never panics, and it compares keys. */
  lemma OrderByKey(env: Env, a: Value, b: Value, order: SortType)
    requires env.unit >= 1 && Orderable(env, a) && Orderable(env, b)
    ensures CompareOrder(env, a, b, order) == Some(Lex(Key(env, a, order), Key(env, b, order)))
  {
    LexHead(DataType(env, a).value, Payload(env, a, order), DataType(env, b).value, Payload(env, b, order));
    if DataType(env, a) == DataType(env, b) {
      SameTypeOrder(env, a, b, order);
    } else {
      TypesDecide(env, a, b, order);
    }
  }

  // --------------------------------------------------------- total preorder

  /** Total and antisymmetric. */
  lemma OrderInvert(env: Env, a: Value, b: Value, order: SortType)
    requires env.unit >= 1 && Orderable(env, a) && Orderable(env, b)
    ensures CompareOrder(env, a, b, order).Some? && CompareOrder(env, b, a, order).Some?
    ensures var r := CompareOrder(env, a, b, order).value;
            r != Incomparable && CompareOrder(env, b, a, order).value == Invert(r)
    ensures CompareOrder(env, a, a, order) == Some(Equal)
  {
    OrderByKey(env, a, b, order);
    OrderByKey(env, b, a, order);
    OrderByKey(env, a, a, order);
    LexInvert(Key(env, a, order), Key(env, b, order));
    LexInvert(Key(env, a, order), Key(env, a, order));
  }

  lemma OrderTransitive(env: Env, a: Value, b: Value, c: Value, order: SortType)
    requires env.unit >= 1 && Orderable(env, a) && Orderable(env, b) && Orderable(env, c)
    requires CompareOrder(env, a, b, order) != Some(Greater) && CompareOrder(env, b, c, order) != Some(Greater)
    ensures CompareOrder(env, a, c, order) != Some(Greater)
    ensures CompareOrder(env, a, b, order) == Some(Less) || CompareOrder(env, b, c, order) == Some(Less)
            ==> CompareOrder(env, a, c, order) == Some(Less)
  {
    OrderByKey(env, a, b, order);
    OrderByKey(env, b, c, order);
    OrderByKey(env, a, c, order);
    LexTransitive(Key(env, a, order), Key(env, b, order), Key(env, c, order));
  }

  /** Binary64 doubles in particular: a total preorder in each direction. */
  lemma IeeeTotalPreorder(compile: (bytes, bytes) -> Option<bytes>, a: Value, b: Value, c: Value, order: SortType)
    requires var env := Ieee(compile); Orderable(env, a) && Orderable(env, b) && Orderable(env, c)
    ensures var env := Ieee(compile);
            var ab, ba := CompareOrder(env, a, b, order), CompareOrder(env, b, a, order);
            && ab in {Some(Less), Some(Equal), Some(Greater)} && ba == Some(Invert(ab.value))
            && (ab != Some(Greater) && CompareOrder(env, b, c, order) != Some(Greater) ==>
                  CompareOrder(env, a, c, order) != Some(Greater))
  {
    var env := Ieee(compile);
    OrderInvert(env, a, b, order);
    if CompareOrder(env, a, b, order) != Some(Greater) && CompareOrder(env, b, c, order) != Some(Greater) {
      OrderTransitive(env, a, b, c, order);
    }
  }
}
