/** Query filters: `FilterDocument` and the mutually recursive functions behind it. */
module Filter {
  import opened Bytes
  import opened Text
  import opened Values
  import opened Wrappers
  import opened Compare

  /** Error codes; `Panicked` stands for a comparison or a path that panics. */
  datatype Error = BadValue | NotImplemented | RegexMissingParen | RegexOptions | Internal | Panicked

  type Matched = Result<bool, Error>

  /** What a key that starts with "$" means; `Leaf` operators only look at the field's value. */
  datatype Operator =
    | And | Or | Nor | Comment
    | Options | Eq | Ne | Gt | Gte | Lt | Lte | In | Nin | Not | ElemMatch | Regexp | Exists | All | Leaf
    | TextOrWhere | Unknown

  /** What the filter takes from elsewhere. */
  datatype Rules = Rules(
    env: Env,
    operator: bytes -> Operator,
    // matchDocuments: same keys in the same order, and deeply equal values
    sameDocument: (Fields, Fields) -> bool,
    // filterFieldRegex
    regex: (Value, Value) -> Matched,
    // filterFieldExprRegex: the field if it is there, the pattern, the options if given
    exprRegex: (Option<Value>, Value, Option<Value>) -> Matched,
    // $size, $all, $bitsAllClear, $bitsAllSet, $bitsAnyClear, $bitsAnySet, $mod, $exists, $type
    leaf: (bytes, Option<Value>, Value) -> Matched)

  // --------------------------------------------------------------- operators

  /** The operators by name. */
  function OperatorOf(key: bytes): Operator
  {
    if key == Ascii("$and") then And
    else if key == Ascii("$or") then Or
    else if key == Ascii("$nor") then Nor
    else if key == Ascii("$comment") then Comment
    else if key == Ascii("$options") then Options
    else if key == Ascii("$eq") then Eq
    else if key == Ascii("$ne") then Ne
    else if key == Ascii("$gt") then Gt
    else if key == Ascii("$gte") then Gte
    else if key == Ascii("$lt") then Lt
    else if key == Ascii("$lte") then Lte
    else if key == Ascii("$in") then In
    else if key == Ascii("$nin") then Nin
    else if key == Ascii("$not") then Not
    else if key == Ascii("$elemMatch") then ElemMatch
    else if key == Ascii("$regex") then Regexp
    else if key == Ascii("$exists") then Exists
    else if key == Ascii("$all") then All
    else if key in {Ascii("$size"), Ascii("$bitsAllClear"), Ascii("$bitsAllSet"), Ascii("$bitsAnyClear"),
                    Ascii("$bitsAnySet"), Ascii("$mod"), Ascii("$type")} then Leaf
    else if key in {Ascii("$text"), Ascii("$where")} then TextOrWhere
    else Unknown
  }

  // ------------------------------------------------------------------- paths

  const DOT: byte := 46

  /** `strings.Split(s, ".")`. */
  function SplitDots(s: bytes): (parts: seq<bytes>)
    ensures |parts| >= 1
  {
    if s == [] then [[]]
    else
      var rest := SplitDots(s[1..]);
      if s[0] == DOT then [[]] + rest else [[s[0]] + rest[0]] + rest[1..]
  }

  /** `getByPath` on a value. */
  function ValueAt(v: Value, path: seq<bytes>): Option<Value>
    decreases |path|
  {
    if path == [] then Some(v)
    else match v
      case Document(fields) => if Has(fields, path[0]) then ValueAt(Get(fields, path[0]), path[1..]) else None
      case Array(elems) =>
        var index := Atoi(path[0]);
        if index.Some? && 0 <= index.value < |elems| then ValueAt(elems[index.value], path[1..]) else None
      case _ => None
  }

  function FieldAt(fields: Fields, key: bytes): Option<Value>
  {
    if Has(fields, key) then Some(Get(fields, key)) else None
  }

  // ------------------------------------------------------------- comparisons

  /** Whether `Compare` gives one of the wanted results. */
  function Compares(r: Rules, field: Value, arg: Value, wanted: set<CompareResult>): Matched
  {
    match Compare.Compare(r.env, field, arg)
    case None => Failure(Panicked)
    case Some(rs) => Success(exists w :: w in wanted && w in rs)
  }

  predicate DollarKey(key: bytes)
  {
    key != [] && key[0] == DOLLAR
  }

  predicate HasDollarKey(fields: Fields)
  {
    exists i :: 0 <= i < |fields| && DollarKey(fields[i].key)
  }

  /** One value of a `$in` or `$nin` array. */
  function InOne(r: Rules, field: Value, elem: Value): Matched
  {
    match elem
    case Document(d) =>
      if HasDollarKey(d) then Failure(BadValue)
      else Success(field.Document? && r.sameDocument(field.fields, d))
    case Regex(_, _) => r.regex(field, elem)
    case _ => Compares(r, field, elem, {Equal})
  }

  /** The search of `$in` and `$nin`: it stops at the first value found. */
  function Found(r: Rules, field: Value, elems: seq<Value>): Matched
  {
    if elems == [] then Success(false)
    else
      var one :- InOne(r, field, elems[0]);
      if one then Success(true) else Found(r, field, elems[1..])
  }

  // ----------------------------------------------------------------- filters

  function Negate(m: Matched): Matched
  {
    match m
    case Success(b) => Success(!b)
    case Failure(e) => Failure(e)
  }

  /** `FilterDocument`: the keys are taken in order. */
  function FilterDocument(r: Rules, doc: Fields, filter: Fields): Matched
    decreases filter, 3
  {
    if filter == [] then Success(true)
    else
      var m :- FilterPair(r, doc, filter[0].key, filter[0].value);
      if m then FilterDocument(r, doc, filter[1..]) else Success(false)
  }

  /** `filterDocumentPair`. */
  function FilterPair(r: Rules, doc: Fields, key: bytes, value: Value): Matched
    decreases value, 2
  {
    if DOT !in key then FilterField(r, doc, key, value)
    else
      var path := SplitDots(key);
      if [] in path then Failure(Panicked)
      else
        var last := path[|path| - 1];
        match ValueAt(Document(doc), path[..|path| - 1])
        case None => Success(false)
        case Some(Document(d)) => FilterField(r, d, last, value)
        case Some(Array(elems)) =>
          var index := Atoi(last);
          if index.None? || |elems| <= index.value then Success(false)
          else if index.value < 0 then (if elems == [] then Success(false) else Failure(Internal))
          else if elems[index.value].Array? then Compares(r, elems[index.value], value, {Equal})
          else if !ValidKey(key) then Failure(Panicked)
          else FilterField(r, [Field(key, elems[index.value])], key, value)
        case Some(_) => FilterField(r, doc, key, value)
  }

  /** The rest of `filterDocumentPair`, once the path is resolved. */
  function FilterField(r: Rules, doc: Fields, key: bytes, value: Value): Matched
    decreases value, 1
  {
    if DollarKey(key) then FilterOperator(r, doc, key, value)
    else match value
      case Document(expr) => FilterExpr(r, doc, key, expr)
      case Array(_) => if Has(doc, key) then Compares(r, Get(doc, key), value, {Equal}) else Success(false)
      case Regex(_, _) => if Has(doc, key) then r.regex(Get(doc, key), value) else Success(false)
      case Null => if Has(doc, key) then Compares(r, Get(doc, key), value, {Equal}) else Success(true)
      case _ => if Has(doc, key) then Compares(r, Get(doc, key), value, {Equal}) else Success(false)
  }

  /** `filterOperator`. */
  function FilterOperator(r: Rules, doc: Fields, key: bytes, value: Value): Matched
    decreases value, 0
  {
    match r.operator(key)
    case And => if value.Array? then AndAll(r, doc, value.elems) else Failure(BadValue)
    case Or => if value.Array? then OrAny(r, doc, value.elems) else Failure(BadValue)
    case Nor => if value.Array? then NorAny(r, doc, value.elems) else Failure(BadValue)
    case Comment => Success(true)
    case _ => Failure(BadValue)
  }

  function AndAll(r: Rules, doc: Fields, exprs: seq<Value>): Matched
    decreases exprs, 0
  {
    if exprs == [] then Success(true)
    else if !exprs[0].Document? then Failure(BadValue)
    else
      var m :- FilterDocument(r, doc, exprs[0].fields);
      if m then AndAll(r, doc, exprs[1..]) else Success(false)
  }

  function OrAny(r: Rules, doc: Fields, exprs: seq<Value>): Matched
    decreases exprs, 0
  {
    if exprs == [] then Success(false)
    else if !exprs[0].Document? then Failure(BadValue)
    else
      var m :- FilterDocument(r, doc, exprs[0].fields);
      if m then Success(true) else OrAny(r, doc, exprs[1..])
  }

  function NorAny(r: Rules, doc: Fields, exprs: seq<Value>): Matched
    decreases exprs, 0
  {
    if exprs == [] then Success(true)
    else if !exprs[0].Document? then Failure(BadValue)
    else
      var m :- FilterDocument(r, doc, exprs[0].fields);
      if m then Success(false) else NorAny(r, doc, exprs[1..])
  }

  // ------------------------------------------------------------- expressions

  /** How one key of an expression ends. */
  datatype Flow = Go | Stop(result: Matched)

  /** An operator's own result: go on if it holds. */
  function Check(m: Matched): Flow
  {
    if m == Success(true) then Go else Stop(m)
  }

  /** `filterFieldExpr`. */
  function FilterExpr(r: Rules, doc: Fields, key: bytes, expr: Fields): Matched
    decreases expr, 2
  {
    if expr == [] then Success(FieldAt(doc, key) == Some(Document([])))
    else ExprFrom(r, doc, key, expr, 0)
  }

  function ExprFrom(r: Rules, doc: Fields, key: bytes, expr: Fields, i: nat): Matched
    requires i <= |expr|
    decreases expr, 1, |expr| - i
  {
    if i == |expr| then Success(true)
    else match ExprStep(r, doc, key, expr, i)
      case Stop(m) => m
      case Go => ExprFrom(r, doc, key, expr, i + 1)
  }

  predicate AllNull(v: Value)
  {
    v.Array? && v.elems != [] && forall i :: 0 <= i < |v.elems| ==> v.elems[i].Null?
  }

  /** A field that is not there matches only null. */
  function Missing(op: Operator, arg: Value): Matched
  {
    Success(arg.Null? || (op == All && AllNull(arg)))
  }

  function ExprStep(r: Rules, doc: Fields, key: bytes, expr: Fields, i: nat): Flow
    requires i < |expr|
    decreases expr, 0
  {
    var opKey, arg := expr[i].key, expr[i].value;
    var op := r.operator(opKey);
    if op == Options then Go
    else if !Has(doc, key) && op != Exists && op != Not then Stop(Missing(op, arg))
    else if !DollarKey(opKey) then
      var field := FieldAt(doc, key);
      Stop(Success(field.Some? && field.value.Document? && r.sameDocument(field.value.fields, expr)))
    else if op == Not then
      match arg
      case Document(inner) => Check(Negate(FilterExpr(r, doc, key, inner)))
      case Regex(_, _) => Check(Negate(r.exprRegex(FieldAt(doc, key), arg, OptionsOf(r, expr))))
      case _ => Stop(Failure(BadValue))
    else if op == Exists then Check(r.leaf(opKey, FieldAt(doc, key), arg))
    else if op == ElemMatch then
      if !Get(doc, key).Array? then Stop(Success(false))
      else if !arg.Document? then Stop(Failure(BadValue))
      else
        var e := ElemMatchError(r, arg.fields, 0);
        if e.Some? then Stop(Failure(e.value)) else Check(FilterExpr(r, doc, key, arg.fields))
    else OperatorStep(r, Get(doc, key), opKey, arg, OptionsOf(r, expr))
  }

  /** `expr.Get("$options")`. */
  function OptionsOf(r: Rules, expr: Fields): Option<Value>
  {
    if expr == [] then None
    else if r.operator(expr[0].key) == Options then Some(expr[0].value)
    else OptionsOf(r, expr[1..])
  }

  /** The operators that only look at the value of a field that is there. */
  function OperatorStep(r: Rules, field: Value, opKey: bytes, arg: Value, options: Option<Value>): Flow
  {
    match r.operator(opKey)
    case Eq =>
      if arg.Document? then Stop(Success(field.Document? && r.sameDocument(arg.fields, field.fields)))
      else Check(Compares(r, field, arg, {Equal}))
    case Ne =>
      if arg.Document? then Stop(Success(field.Document? && !r.sameDocument(arg.fields, field.fields)))
      else if arg.Regex? then Stop(Failure(BadValue))
      else Check(Negate(Compares(r, field, arg, {Equal})))
    case Gt => if arg.Regex? then Stop(Failure(BadValue)) else Check(Compares(r, field, arg, {Greater}))
    case Gte => if arg.Regex? then Stop(Failure(BadValue)) else Check(Compares(r, field, arg, {Equal, Greater}))
    case Lt => if arg.Regex? then Stop(Failure(BadValue)) else Check(Compares(r, field, arg, {Less}))
    case Lte => if arg.Regex? then Stop(Failure(BadValue)) else Check(Compares(r, field, arg, {Equal, Less}))
    case In => if arg.Array? then Check(Found(r, field, arg.elems)) else Stop(Failure(BadValue))
    case Nin => if arg.Array? then Check(Negate(Found(r, field, arg.elems))) else Stop(Failure(BadValue))
    case Regexp => Check(r.exprRegex(Some(field), arg, options))
    case All => Check(r.leaf(opKey, Some(field), arg))
    case Leaf => Check(r.leaf(opKey, Some(field), arg))
    case _ => Stop(Failure(BadValue))
  }

  /** What `$elemMatch` refuses. */
  function ElemMatchError(r: Rules, expr: Fields, i: nat): Option<Error>
    requires i <= |expr|
    decreases |expr| - i
  {
    if i == |expr| then None
    else
      var op := r.operator(expr[i].key);
      if op == TextOrWhere then Some(BadValue)
      else if op in {And, Or, Nor, Ne, Not} then Some(NotImplemented)
      else if |expr| > 1 && !DollarKey(expr[i].key) then Some(BadValue)
      else ElemMatchError(r, expr, i + 1)
  }
}
