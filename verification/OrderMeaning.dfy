/** What the order of values means, without the numbers `CompareOrder` computes with. */
module OrderMeaning {
  import opened Bytes
  import opened Doubles
  import opened Values
  import opened Wrappers
  import opened Compare
  import opened CompareLaws

  // ------------------------------------------------------------------- kinds

  datatype Kind =
    | NullKind | NaNKind | NumberKind | StringKind | ArrayKind | BinaryKind
    | ObjectIdKind | BoolKind | DateKind | TimestampKind | RegexKind

  /** The kinds from first to last. */
  const KINDS: seq<Kind> := [
    NullKind, NaNKind, NumberKind, StringKind, ArrayKind, BinaryKind,
    ObjectIdKind, BoolKind, DateKind, TimestampKind, RegexKind]

  function KindOf(env: Env, v: Value): Option<Kind>
  {
    match v
    case Document(_) => None
    case Null => Some(NullKind)
    case Double(bits) => Some(if env.nan(bits) then NaNKind else NumberKind)
    case Int32(_) => Some(NumberKind)
    case Int64(_) => Some(NumberKind)
    case String(_) => Some(StringKind)
    case Array(_) => Some(ArrayKind)
    case Binary(_, _) => Some(BinaryKind)
    case ObjectId(_) => Some(ObjectIdKind)
    case Bool(_) => Some(BoolKind)
    case DateTime(_) => Some(DateKind)
    case Timestamp(_) => Some(TimestampKind)
    case Regex(_, _) => Some(RegexKind)
  }

  /** `a` is of a kind that comes before the kind of `b`. */
  ghost predicate EarlierKind(env: Env, a: Value, b: Value)
  {
    exists i, j :: 0 <= i < j < |KINDS| && KindOf(env, a) == Some(KINDS[i]) && KindOf(env, b) == Some(KINDS[j])
  }

  predicate SameKind(env: Env, a: Value, b: Value)
  {
    KindOf(env, a).Some? && KindOf(env, a) == KindOf(env, b)
  }

  lemma KindPosition(env: Env, v: Value) returns (i: nat)
    requires !v.Document?
    ensures i < |KINDS| && KindOf(env, v) == Some(KINDS[i])
    ensures DataType(env, v) == Some(if i < 4 then i + 1 else i + 2)
  {
    match v {
      case Null => i := 0;
      case Double(bits) => i := if env.nan(bits) then 1 else 2;
      case Int32(_) => i := 2;
      case Int64(_) => i := 2;
      case String(_) => i := 3;
      case Array(_) => i := 4;
      case Binary(_, _) => i := 5;
      case ObjectId(_) => i := 6;
      case Bool(_) => i := 7;
      case DateTime(_) => i := 8;
      case Timestamp(_) => i := 9;
      case Regex(_, _) => i := 10;
    }
  }

  lemma KindsDistinct(i: nat, j: nat)
    requires i < |KINDS| && j < |KINDS| && KINDS[i] == KINDS[j]
    ensures i == j
  {
  }

  lemma EarlierByType(env: Env, a: Value, b: Value)
    requires !a.Document? && !b.Document?
    ensures EarlierKind(env, a, b) <==> DataType(env, a).value < DataType(env, b).value
    ensures SameKind(env, a, b) <==> DataType(env, a) == DataType(env, b)
  {
    var i := KindPosition(env, a);
    var j := KindPosition(env, b);
    if k, l :| 0 <= k < l < |KINDS| && KindOf(env, a) == Some(KINDS[k]) && KindOf(env, b) == Some(KINDS[l]) {
      KindsDistinct(i, k);
      KindsDistinct(j, l);
    }
    if SameKind(env, a, b) {
      KindsDistinct(i, j);
    }
  }

  lemma SmallerType(env: Env, a: Value, b: Value, order: SortType)
    requires !a.Document? && !b.Document?
    ensures DataType(env, a).value < DataType(env, b).value ==>
              CompareOrder(env, a, b, order) == Some(Less) && CompareOrder(env, b, a, order) == Some(Greater)
  {
  }

  /** Values of different kinds: one kind comes before the other, and that decides, in both directions. */
  lemma KindsDecide(env: Env, a: Value, b: Value, order: SortType)
    requires !a.Document? && !b.Document?
    ensures SameKind(env, a, b) || EarlierKind(env, a, b) || EarlierKind(env, b, a)
    ensures EarlierKind(env, a, b) ==>
              CompareOrder(env, a, b, order) == Some(Less) && CompareOrder(env, b, a, order) == Some(Greater)
  {
    EarlierByType(env, a, b);
    EarlierByType(env, b, a);
    SmallerType(env, a, b, order);
  }

  /** Documents have no place in the order: the comparison panics. */
  lemma DocumentsPanic(env: Env, a: Value, b: Value, order: SortType)
    requires a.Document? || b.Document?
    ensures CompareOrder(env, a, b, order) == None
  {
  }

  // ------------------------------------------------------------------ values

  /** `s` is a proper beginning of `t`, or has the smaller byte at the first difference. */
  ghost predicate BytesBefore(s: bytes, t: bytes)
  {
    exists i :: 0 <= i <= |s| && DifferAt(s, t, i)
  }

  predicate DifferAt(s: bytes, t: bytes, i: nat)
    requires i <= |s|
  {
    i < |t| && s[..i] == t[..i] && (i == |s| || s[i] < t[i])
  }

  lemma DifferHead(s: bytes, t: bytes, i: nat)
    requires s != [] && t != [] && i <= |s| && DifferAt(s, t, i)
    ensures if i == 0 then s[0] < t[0] else s[0] == t[0]
  {
    if i > 0 {
      assert s[..i][0] == s[0] && t[..i][0] == t[0];
    }
  }

  lemma {:induction false} BytesLess(s: bytes, t: bytes)
    ensures CompareBytes(s, t) == Less <==> BytesBefore(s, t)
  {
    if s == [] {
      assert t != [] ==> DifferAt(s, t, 0);
    } else if t != [] && s[0] == t[0] {
      BytesLess(s[1..], t[1..]);
      if BytesBefore(s[1..], t[1..]) {
        var i :| 0 <= i <= |s[1..]| && DifferAt(s[1..], t[1..], i);
        assert s[..i + 1] == [s[0]] + s[1..][..i] && t[..i + 1] == [t[0]] + t[1..][..i];
        assert DifferAt(s, t, i + 1);
      }
      if i :| 0 <= i <= |s| && DifferAt(s, t, i) {
        assert i > 0;
        assert s[1..][..i - 1] == s[..i][1..] && t[1..][..i - 1] == t[..i][1..];
        assert DifferAt(s[1..], t[1..], i - 1);
      }
    } else if t != [] {
      if s[0] < t[0] {
        assert DifferAt(s, t, 0);
      }
      if i :| 0 <= i <= |s| && DifferAt(s, t, i) {
        DifferHead(s, t, i);
      }
    }
  }

  datatype NumberForm = MinusZero | DoubleForm | Int32Form | Int64Form

  /** Equal numbers, from first to last when ascending. */
  const FORMS: seq<NumberForm> := [MinusZero, DoubleForm, Int32Form, Int64Form]

  function FormOf(v: Value): NumberForm
    requires v.Double? || v.Int32? || v.Int64?
  {
    match v
    case Double(bits) => if bits == 0x8000_0000_0000_0000 then MinusZero else DoubleForm
    case Int32(_) => Int32Form
    case Int64(_) => Int64Form
  }

  ghost predicate EarlierForm(a: NumberForm, b: NumberForm)
  {
    exists i, j :: 0 <= i < j < |FORMS| && FORMS[i] == a && FORMS[j] == b
  }

  lemma FormsByType(a: Value, b: Value)
    requires (a.Double? || a.Int32? || a.Int64?) && (b.Double? || b.Int32? || b.Int64?)
    ensures NumberType(a) < NumberType(b) <==> EarlierForm(FormOf(a), FormOf(b))
  {
    var i, j := NumberType(a) - 1, NumberType(b) - 1;
    assert FORMS[i] == FormOf(a) && FORMS[j] == FormOf(b);
  }

  /** The order of two values of the same kind. */
  ghost predicate ValueBefore(env: Env, a: Value, b: Value, order: SortType)
    requires Orderable(env, a) && Orderable(env, b) && SameKind(env, a, b)
  {
    match a
    case Double(_) => IsNumber(env, a) && NumberBefore(env, a, b, order)
    case Int32(_) => NumberBefore(env, a, b, order)
    case Int64(_) => NumberBefore(env, a, b, order)
    case String(s) => BytesBefore(s, b.str)
    case Binary(t, data) =>
      || |data| < |b.data|
      || (|data| == |b.data| && t < b.subtype)
      || (|data| == |b.data| && t == b.subtype && BytesBefore(data, b.data))
    case ObjectId(oid) => BytesBefore(oid, b.oid)
    case Bool(x) => !x && b == Bool(true)
    case DateTime(ms) => ms < b.millis
    case Timestamp(t) => t < b.ts
    case Regex(p, o) => BytesBefore(env.compile(p, o).value, env.compile(b.pattern, b.options).value)
    case Null => false
  }

  /** By value; equal numbers by their form, the other way round when descending. */
  ghost predicate NumberBefore(env: Env, a: Value, b: Value, order: SortType)
    requires IsNumber(env, a) && IsNumber(env, b)
  {
    || Number(env, a) < Number(env, b)
    || (Number(env, a) == Number(env, b) &&
          if order.Ascending? then EarlierForm(FormOf(a), FormOf(b)) else EarlierForm(FormOf(b), FormOf(a)))
  }

  lemma NumbersLess(env: Env, a: Value, b: Value, order: SortType)
    requires env.unit >= 1 && IsNumber(env, a) && IsNumber(env, b)
    ensures CompareOrder(env, a, b, order) == Some(Less) <==> NumberBefore(env, a, b, order)
  {
    NumbersCompare(env, a, b);
    FormsByType(a, b);
    FormsByType(b, a);
    assert Compare.Compare(env, a, b) == Some([CompareInts(Number(env, a), Number(env, b))]);
  }

  lemma ScalarsLess(env: Env, a: Value, b: Value)
    requires Orderable(env, a) && Orderable(env, b) && SameKind(env, a, b) && !IsNumber(env, a)
    ensures CompareScalars(env, a, b) == Some(Less) <==> ValueBefore(env, a, b, Ascending)
    ensures ValueBefore(env, a, b, Ascending) <==> ValueBefore(env, a, b, Descending)
  {
    match a
    case String(s) => BytesLess(s, b.str);
    case Binary(_, data) => BytesLess(data, b.data);
    case ObjectId(oid) => BytesLess(oid, b.oid);
    case Regex(p, o) => BytesLess(env.compile(p, o).value, env.compile(b.pattern, b.options).value);
    case _ =>
  }

  lemma SameKindLess(env: Env, a: Value, b: Value, order: SortType)
    requires env.unit >= 1 && Orderable(env, a) && Orderable(env, b) && SameKind(env, a, b)
    ensures CompareOrder(env, a, b, order) == Some(Less) <==> ValueBefore(env, a, b, order)
  {
    if IsNumber(env, a) {
      NumbersLess(env, a, b, order);
    } else {
      EarlierByType(env, a, b);
      PayloadCompare(env, a, b, order);
      SameTypeOrder(env, a, b, order);
      ScalarsLess(env, a, b);
    }
  }

  /** `CompareOrder` says less exactly when the kind comes first, or the kinds agree and the value does. */
  lemma LessExactly(env: Env, a: Value, b: Value, order: SortType)
    requires env.unit >= 1 && Orderable(env, a) && Orderable(env, b)
    ensures CompareOrder(env, a, b, order) == Some(Less) <==>
              EarlierKind(env, a, b) || (SameKind(env, a, b) && ValueBefore(env, a, b, order))
  {
    KindsDecide(env, a, b, order);
    KindsDecide(env, b, a, order);
    EarlierByType(env, a, b);
    if SameKind(env, a, b) {
      SameKindLess(env, a, b, order);
    }
  }
}
