/** Comparison of values: `compareScalars`, `compareArrays`, `Compare` and `CompareOrder`. */
module Compare {
  import opened Bytes
  import opened Doubles
  import opened Values
  import opened Wrappers

  datatype CompareResult = Equal | Less | Greater | Incomparable

  datatype SortType = Ascending | Descending

  /**
   What the comparison takes from other packages: the text of a compiled regular expression, or
   a failure (a panic); and the reading of a double as NaN or as an exact number, which is that
   number times `unit`, so that an integer `i` is `i * unit`.
   */
  datatype Env = Env(compile: (bytes, bytes) -> Option<bytes>, nan: uint64 -> bool, scaled: uint64 -> int, unit: int)

  /** Binary64 doubles. */
  function Ieee(compile: (bytes, bytes) -> Option<bytes>): (env: Env)
    ensures env.unit >= 1
  {
    Env(compile, IsNaN, Scaled, Unit())
  }

  // ----------------------------------------------------------------- scalars

  function Invert(r: CompareResult): CompareResult
  {
    match r
    case Less => Greater
    case Greater => Less
    case _ => r
  }

  function CompareInts(a: int, b: int): CompareResult
  {
    if a == b then Equal else if a < b then Less else Greater
  }

  /** `<` on Go strings and `bytes.Compare`. */
  function CompareBytes(a: bytes, b: bytes): CompareResult
  {
    if a == [] && b == [] then Equal
    else if a == [] then Less
    else if b == [] then Greater
    else if a[0] != b[0] then CompareInts(a[0] as int, b[0] as int)
    else CompareBytes(a[1..], b[1..])
  }

  /** The values of non-NaN doubles are compared exactly, infinities lying outside all the others. */
  function CompareDoubles(env: Env, a: uint64, b: uint64): CompareResult
  {
    if env.nan(a) && env.nan(b) then Equal
    else if env.nan(a) || env.nan(b) then Incomparable
    else CompareInts(env.scaled(a), env.scaled(b))
  }

  /** `compareNumbers`. */
  function CompareNumbers(env: Env, a: uint64, b: int64): CompareResult
  {
    if env.nan(a) then Incomparable else CompareInts(env.scaled(a), b * env.unit)
  }

  predicate IsScalar(v: Value)
  {
    !v.Document? && !v.Array?
  }

  function CompareBinary(a: Value, b: Value): CompareResult
    requires a.Binary? && b.Binary?
  {
    if |a.data| != |b.data| then CompareInts(|a.data|, |b.data|)
    else if a.subtype != b.subtype then CompareInts(a.subtype as int, b.subtype as int)
    else CompareBytes(a.data, b.data)
  }

  function CompareBools(a: bool, b: bool): CompareResult
  {
    if a == b then Equal else if b then Less else Greater
  }

  /** `compareScalars`; `None` is a panic. */
  function CompareScalars(env: Env, v1: Value, v2: Value): Option<CompareResult>
  {
    match (v1, v2)
    case (Double(a), Double(b)) => Some(CompareDoubles(env, a, b))
    case (Double(a), Int32(b)) => Some(CompareNumbers(env, a, b))
    case (Double(a), Int64(b)) => Some(CompareNumbers(env, a, b))
    case (Int32(a), Double(b)) => Some(Invert(CompareNumbers(env, b, a)))
    case (Int32(a), Int32(b)) => Some(CompareInts(a, b))
    case (Int32(a), Int64(b)) => Some(CompareInts(a, b))
    case (Int64(a), Double(b)) => Some(Invert(CompareNumbers(env, b, a)))
    case (Int64(a), Int32(b)) => Some(CompareInts(a, b))
    case (Int64(a), Int64(b)) => Some(CompareInts(a, b))
    case (String(a), String(b)) => Some(CompareBytes(a, b))
    case (Binary(_, _), Binary(_, _)) => Some(CompareBinary(v1, v2))
    case (ObjectId(a), ObjectId(b)) => Some(CompareBytes(a, b))
    case (Bool(a), Bool(b)) => Some(CompareBools(a, b))
    case (DateTime(a), DateTime(b)) => Some(CompareInts(a, b))
    case (Null, Null) => Some(Equal)
    case (Timestamp(a), Timestamp(b)) => Some(CompareInts(a, b))
    case (Regex(p, o), Regex(q, u)) =>
      var a, b := env.compile(p, o), env.compile(q, u);
      if a.Some? && b.Some? then Some(CompareBytes(a.value, b.value)) else None
    case _ => Some(Incomparable)
  }

  // ------------------------------------------------------------------- order

  /** `detectDataType`; a document is a panic. */
  function DataType(env: Env, v: Value): Option<nat>
  {
    match v
    case Null => Some(1)
    case Double(bits) => Some(if env.nan(bits) then 2 else 3)
    case Int32(_) => Some(3)
    case Int64(_) => Some(3)
    case String(_) => Some(4)
    case Document(_) => None
    case Array(_) => Some(6)
    case Binary(_, _) => Some(7)
    case ObjectId(_) => Some(8)
    case Bool(_) => Some(9)
    case DateTime(_) => Some(10)
    case Timestamp(_) => Some(11)
    case Regex(_, _) => Some(12)
  }

  const NUMBERS_TYPE: nat := 3

  /** `detectNumberType`. */
  function NumberType(v: Value): int
  {
    match v
    case Double(bits) => if bits == NEGATIVE_ZERO then 1 else 2
    case Int32(_) => 3
    case _ => 4
  }

  /** `compareNumberOrder`. */
  function CompareNumberOrder(a: Value, b: Value, order: SortType): CompareResult
  {
    var r := CompareInts(NumberType(a), NumberType(b));
    if order.Ascending? then r else Invert(r)
  }

  /** `CompareOrder`; `None` is a panic. */
  function CompareOrder(env: Env, a: Value, b: Value, order: SortType): Option<CompareResult>
    decreases a
  {
    match (DataType(env, a), DataType(env, b))
    case (Some(s), Some(t)) =>
      if s < t then Some(Less)
      else if s > t then Some(Greater)
      else (
        match Compare(env, a, b)
        case None => None
        case Some(rs) =>
          if Equal in rs && s == NUMBERS_TYPE then Some(CompareNumberOrder(a, b, order))
          else if rs == [] then None
          else Some(rs[0])
      )
    case _ => None
  }

  // ------------------------------------------------------------------ arrays

  /** `deleteFromCompareResult`: the last element takes the place of the first occurrence. */
  function DeleteResult(rs: seq<CompareResult>, r: CompareResult): seq<CompareResult>
  {
    DeleteAt(rs, r, 0)
  }

  function DeleteAt(rs: seq<CompareResult>, r: CompareResult, i: nat): (out: seq<CompareResult>)
    requires i <= |rs|
    ensures |out| >= |rs| - 1
    decreases |rs| - i
  {
    if i == |rs| then rs
    else if rs[i] == r then rs[i := rs[|rs| - 1]][..|rs| - 1]
    else DeleteAt(rs, r, i + 1)
  }

  function BothWays(it: seq<CompareResult>, rs: seq<CompareResult>): bool
  {
    (Less in it && Greater in rs) || (Greater in it && Less in rs)
  }

  /** `handleInconsistencyInResults` for the results of a subarray; the flag is `gtAndLt`. */
  function MergeArray(rs: seq<CompareResult>, it: seq<CompareResult>): (seq<CompareResult>, bool)
  {
    var rs' := if Equal in rs && Equal !in it then DeleteResult(rs, Equal) + it else rs;
    if BothWays(it, rs') then ([Greater, Less], true) else (rs', false)
  }

  /** `handleInconsistencyInResults` for the result of a scalar. */
  function MergeScalar(rs: seq<CompareResult>, it: CompareResult, subArray: bool): (seq<CompareResult>, bool)
  {
    var rs' := if Equal in rs then DeleteResult(rs, Equal) + [it] else rs;
    if subArray && BothWays([it], rs') then ([Greater, Less], true) else (rs', false)
  }

  /** The variables of `compareArrays`' loop. */
  datatype Loop = Loop(results: seq<CompareResult>, subArrayEquality: bool, gtAndLt: bool, subArray: bool)

  /** How an iteration ends. */
  datatype Flow = Next(state: Loop) | Return(results: seq<CompareResult>) | Panic

  /** An iteration on an element that is not an array. */
  function ScalarStep(env: Env, filter: seq<Value>, doc: seq<Value>, i: nat, s: Loop): Flow
    requires i < |doc|
    decreases doc, 0
  {
    if s.gtAndLt then Next(s)
    else if i >= |filter| then
      if filter == [] then Return([Greater])
      else if Equal in s.results && |doc| > |filter| then Next(s.(results := [Greater]))
      else Next(s)
    else if i == 0 then
      match CompareOrder(env, doc[i], filter[i], Ascending)
      case None => Panic
      case Some(r) => Next(s.(results := [r]))
    else
      match CompareScalars(env, doc[i], filter[i])
      case None => Panic
      case Some(r) =>
        if r in s.results then Next(s)
        else
          var (rs, both) := MergeScalar(s.results, r, s.subArray);
          Next(s.(results := rs, gtAndLt := both))
  }

  /** An iteration on an array whose counterpart is an array. */
  function ArrayStep(it: seq<CompareResult>, i: nat, s: Loop): Loop
  {
    s.(results := (if i == 0 then s.results + it else s.results) + [Less])
  }

  /** An iteration on a non-empty array whose counterpart is missing or not an array. */
  function SubArrayStep(env: Env, filter: seq<Value>, doc: seq<Value>, i: nat, it: seq<CompareResult>, s: Loop): Flow
    requires i < |doc|
    decreases doc, 0
  {
    var s' := s.(subArray := true, subArrayEquality := s.subArrayEquality || Equal in it);
    if s.gtAndLt then Next(s')
    else if i > 0 then
      var (rs, both) := MergeArray(s.results, it);
      Next(s'.(results := rs, gtAndLt := both))
    else if filter == [] then Return([Greater])
    else
      match CompareOrder(env, doc[i], filter[i], Ascending)
      case None => Panic
      case Some(r) =>
        var (rs, both) := MergeArray(s.results + it + [r], it);
        Next(s'.(results := rs, gtAndLt := both))
  }

  function StepAt(env: Env, filter: seq<Value>, doc: seq<Value>, i: nat, s: Loop): Flow
    requires i < |doc|
    decreases doc, 1
  {
    if !doc[i].Array? then ScalarStep(env, filter, doc, i, s)
    else if i < |filter| && filter[i].Array? then
      match CompareArrays(env, filter[i].elems, doc[i].elems)
      case None => Panic
      case Some(it) => Next(ArrayStep(it, i, s))
    else if doc[i].elems == [] then Return(if i >= |filter| then [Greater, Equal] else [Greater, Less])
    else
      match CompareArrays(env, filter, doc[i].elems)
      case None => Panic
      case Some(it) => SubArrayStep(env, filter, doc, i, it, s)
  }

  /** What follows the loop. */
  function Finish(filter: seq<Value>, doc: seq<Value>, s: Loop): seq<CompareResult>
  {
    if Equal in s.results && |doc| < |filter| then [Less]
    else if s.subArrayEquality then s.results + [Equal]
    else s.results
  }

  function LoopFrom(env: Env, filter: seq<Value>, doc: seq<Value>, i: nat, s: Loop): Option<seq<CompareResult>>
    requires i <= |doc|
    decreases doc, 2, |doc| - i
  {
    if i == |doc| then Some(Finish(filter, doc, s))
    else match StepAt(env, filter, doc, i, s)
      case Panic => None
      case Return(rs) => Some(rs)
      case Next(s') => LoopFrom(env, filter, doc, i + 1, s')
  }

  const START: Loop := Loop([], false, false, false)

  /** `compareArrays`; `None` is a panic. */
  function CompareArrays(env: Env, filter: seq<Value>, doc: seq<Value>): Option<seq<CompareResult>>
    decreases doc, 3
  {
    if doc == [] then Some(if filter == [] then [Equal] else [Less])
    else LoopFrom(env, filter, doc, 0, START)
  }

  /** The first element of an array that is comparable with a value. */
  function FirstComparable(env: Env, doc: seq<Value>, filter: Value): Option<CompareResult>
  {
    if doc == [] then Some(Incomparable)
    else if !IsScalar(doc[0]) then FirstComparable(env, doc[1..], filter)
    else match CompareScalars(env, doc[0], filter)
      case None => None
      case Some(Incomparable) => FirstComparable(env, doc[1..], filter)
      case Some(r) => Some(r)
  }

  function Single(r: Option<CompareResult>): Option<seq<CompareResult>>
  {
    if r.None? then None else Some([r.value])
  }

  /** `Compare`; `None` is a panic. */
  function Compare(env: Env, doc: Value, filter: Value): Option<seq<CompareResult>>
    decreases doc, 4
  {
    match doc
    case Document(_) => Some([Incomparable])
    case Array(elems) =>
      if filter.Array? then CompareArrays(env, filter.elems, elems)
      else Single(FirstComparable(env, elems, filter))
    case _ => Single(CompareScalars(env, doc, filter))
  }
}
