/**
 FJSON, the tagged JSON that documents are stored as, on JSON syntax trees. Objects are
 unordered; the order of a document's fields survives only in its "$k" member.
 */
module Fjson {
  import opened Bytes
  import opened Text
  import opened Values
  import opened Doubles
  import opened Wrappers

  datatype Json =
    | JNull
    | JBool(b: bool)
    | JNumber(text: bytes)
    | JString(str: bytes)
    | JArray(items: seq<Json>)
    | JObject(members: map<bytes, Json>)

  datatype JsonError =
    | BadJson | MissingKeys | MissingKey | KeyCount | InvalidKey | UnknownObject | ImplementationDefined

  const K: bytes := [36, 107]  // "$k"
  const F: bytes := [36, 102]  // "$f"
  const B: bytes := [36, 98]   // "$b"
  const S: bytes := [115]      // "s"
  const O: bytes := [36, 111]  // "$o"
  const D: bytes := [36, 100]  // "$d"
  const R: bytes := [36, 114]  // "$r"
  const OPT: bytes := [111]    // "o"
  const T: bytes := [36, 116]  // "$t"
  const L: bytes := [36, 108]  // "$l"

  const MINUS_ZERO: bytes := [45, 48]                                     // "-0"
  const INFINITY: bytes := [73, 110, 102, 105, 110, 105, 116, 121]        // "Infinity"
  const MINUS_INFINITY: bytes := [45] + INFINITY                          // "-Infinity"
  const NAN: bytes := [78, 97, 78]                                        // "NaN"

  // ------------------------------------------------------------ marshalling

  function MarshalString(s: bytes): Json
  {
    JString(Coerce(s))
  }

  function MarshalDouble(ft: FloatText, d: uint64): Json
  {
    if d == NEGATIVE_ZERO then JString(MINUS_ZERO)
    else if d == POSITIVE_INFINITY then JString(INFINITY)
    else if d == NEGATIVE_INFINITY then JString(MINUS_INFINITY)
    else if IsNaN(d) then JString(NAN)
    else JNumber(ft.format(d))
  }

  function MarshalScalar(ft: FloatText, v: Value): Json
    requires !v.Document? && !v.Array?
  {
    match v
    case Double(bits) => JObject(map[F := MarshalDouble(ft, bits)])
    case String(s) => MarshalString(s)
    case Binary(subtype, data) =>
      JObject(map[B := JString(Base64Encode(data)), S := JNumber(Decimal(subtype as int))])
    case ObjectId(oid) => JObject(map[O := JString(HexEncode(oid))])
    case Bool(b) => JBool(b)
    case DateTime(ms) => JObject(map[D := JNumber(Decimal(ms))])
    case Null => JNull
    case Regex(p, o) => JObject(map[R := MarshalString(p), OPT := MarshalString(o)])
    case Int32(i) => JNumber(Decimal(i))
    case Timestamp(ts) => JObject(map[T := JString(Digits(ts % 0x1_0000_0000_0000_0000))])
    case Int64(i) => JObject(map[L := JString(Decimal(i))])
  }

  /** `Marshal`. */
  function Marshal(ft: FloatText, v: Value): Json
    decreases v, 1
  {
    match v
    case Document(fs) => JObject(MarshalFields(ft, fs)[K := MarshalKeys(fs)])
    case Array(vs) => JArray(MarshalElems(ft, vs))
    case _ => MarshalScalar(ft, v)
  }

  function MarshalKeys(fs: Fields): Json
  {
    JArray(seq(|fs|, i requires 0 <= i < |fs| => MarshalString(fs[i].key)))
  }

  function MarshalFields(ft: FloatText, fs: Fields): map<bytes, Json>
    decreases fs, 0
  {
    if fs == [] then map[]
    else map[Coerce(fs[0].key) := Marshal(ft, fs[0].value)] + MarshalFields(ft, fs[1..])
  }

  function MarshalElems(ft: FloatText, vs: seq<Value>): (js: seq<Json>)
    ensures |js| == |vs|
    decreases vs, 0
  {
    if vs == [] then [] else [Marshal(ft, vs[0])] + MarshalElems(ft, vs[1..])
  }

  // ---------------------------------------------------------- unmarshalling

  type Unmarshalled<+A> = Result<A, JsonError>

  /** `v[tag] != nil` after decoding into `map[string]any`. */
  predicate Tagged(m: map<bytes, Json>, tag: bytes)
  {
    tag in m && m[tag] != JNull
  }

  /** `json.Unmarshal` into `[]string`; null leaves an element empty. */
  function StringList(j: Json): Unmarshalled<seq<bytes>>
  {
    if !j.JArray? then Failure(BadJson) else StringItems(j.items)
  }

  function StringItems(items: seq<Json>): (r: Unmarshalled<seq<bytes>>)
  {
    if items == [] then Success([])
    else if !items[0].JString? && !items[0].JNull? then Failure(BadJson)
    else
      var rest :- StringItems(items[1..]);
      Success([if items[0].JString? then items[0].str else []] + rest)
  }

  function UnmarshalDouble(ft: FloatText, j: Json): Unmarshalled<Value>
  {
    match j
    case JNumber(text) =>
      (match ft.parse(text)
       case Some(d) => Success(Double(d))
       case None => Failure(BadJson))
    case JString(s) =>
      if s == MINUS_ZERO then Success(Double(NEGATIVE_ZERO))
      else if s == INFINITY then Success(Double(POSITIVE_INFINITY))
      else if s == MINUS_INFINITY then Success(Double(NEGATIVE_INFINITY))
      else if s == NAN then Success(Double(CANONICAL_NAN))
      else Failure(BadJson)
    case _ => Failure(BadJson)
  }

  /** A string struct field: absent and null leave it empty. */
  function StringMember(m: map<bytes, Json>, name: bytes): Unmarshalled<bytes>
  {
    if !Tagged(m, name) then Success([])
    else if m[name].JString? then Success(m[name].str)
    else Failure(BadJson)
  }

  /** An integer struct field. */
  function IntMember(m: map<bytes, Json>, name: bytes, lo: int, hi: int): (r: Unmarshalled<int>)
    requires lo <= 0 < hi
    ensures r.Success? ==> lo <= r.value < hi
  {
    if !Tagged(m, name) then Success(0)
    else if !m[name].JNumber? then Failure(BadJson)
    else match DecimalValue(m[name].text)
      case Some(n) => if lo <= n < hi then Success(n) else Failure(BadJson)
      case None => Failure(BadJson)
  }

  function UnmarshalBinary(m: map<bytes, Json>): Unmarshalled<Value>
  {
    if !(m.Keys <= {B, S}) then Failure(BadJson) else
    var text :- StringMember(m, B);
    var subtype :- IntMember(m, S, 0, 256);
    match Base64Decode(text)
    case Some(data) => Success(Binary(subtype as byte, data))
    case None => Failure(BadJson)
  }

  function UnmarshalObjectId(m: map<bytes, Json>): Unmarshalled<Value>
  {
    if !(m.Keys <= {O}) then Failure(BadJson) else
    var text :- StringMember(m, O);
    match HexDecode(text)
    case Some(oid) => if |oid| == 12 then Success(ObjectId(oid)) else Failure(BadJson)
    case None => Failure(BadJson)
  }

  function UnmarshalDateTime(m: map<bytes, Json>): Unmarshalled<Value>
  {
    if !(m.Keys <= {D}) then Failure(BadJson) else
    var ms :- IntMember(m, D, -0x8000_0000_0000_0000, 0x8000_0000_0000_0000);
    Success(DateTime(ms))
  }

  function UnmarshalRegex(m: map<bytes, Json>): Unmarshalled<Value>
  {
    if !(m.Keys <= {R, OPT}) then Failure(BadJson) else
    var pattern :- StringMember(m, R);
    var options :- StringMember(m, OPT);
    Success(Regex(pattern, options))
  }

  function UnmarshalTimestamp(m: map<bytes, Json>): Unmarshalled<Value>
  {
    if !(m.Keys <= {T}) then Failure(BadJson) else
    var text :- StringMember(m, T);
    match DigitsValue(text)
    case Some(n) => if n < 0x1_0000_0000_0000_0000 then Success(Timestamp(ToInt64(n))) else Failure(BadJson)
    case None => Failure(BadJson)
  }

  function UnmarshalInt64(m: map<bytes, Json>): Unmarshalled<Value>
  {
    if !(m.Keys <= {L}) then Failure(BadJson) else
    var text :- StringMember(m, L);
    match DecimalValue(text)
    case Some(n) =>
      if -0x8000_0000_0000_0000 <= n < 0x8000_0000_0000_0000 then Success(Int64(n)) else Failure(BadJson)
    case None => Failure(BadJson)
  }

  /** The tag dispatch of `Unmarshal` on an object that is not a document. */
  function UnmarshalTagged(ft: FloatText, m: map<bytes, Json>): Unmarshalled<Value>
  {
    if Tagged(m, F) then
      if m.Keys <= {F} then UnmarshalDouble(ft, m[F]) else Failure(BadJson)
    else if Tagged(m, B) then UnmarshalBinary(m)
    else if Tagged(m, O) then UnmarshalObjectId(m)
    else if Tagged(m, D) then UnmarshalDateTime(m)
    else if Tagged(m, R) then UnmarshalRegex(m)
    else if Tagged(m, T) then UnmarshalTimestamp(m)
    else if Tagged(m, L) then UnmarshalInt64(m)
    else Failure(UnknownObject)
  }

  /** A bare number: decoded as a float64 and converted to int32. */
  function UnmarshalNumber(ft: FloatText, text: bytes): Unmarshalled<Value>
  {
    match ft.parse(text)
    case None => Failure(BadJson)
    case Some(d) =>
      if IsFinite(d) && -0x8000_0000 <= Truncated(d) < 0x8000_0000
      then Success(Int32(Truncated(d)))
      else Failure(ImplementationDefined)
  }

  /** `Unmarshal`. */
  function Unmarshal(ft: FloatText, j: Json): Unmarshalled<Value>
    decreases j, 1
  {
    match j
    case JNull => Success(Null)
    case JBool(b) => Success(Bool(b))
    case JNumber(text) => UnmarshalNumber(ft, text)
    case JString(s) => Success(String(s))
    case JArray(items) =>
      var vs :- UnmarshalElems(ft, items);
      Success(Array(vs))
    case JObject(m) =>
      if Tagged(m, K) then UnmarshalDocument(ft, j) else UnmarshalTagged(ft, m)
  }

  function UnmarshalElems(ft: FloatText, items: seq<Json>): Unmarshalled<seq<Value>>
    decreases items, 0
  {
    if items == [] then Success([])
    else
      var v :- Unmarshal(ft, items[0]);
      var vs :- UnmarshalElems(ft, items[1..]);
      Success([v] + vs)
  }

  /** `documentType.UnmarshalJSON`. */
  function UnmarshalDocument(ft: FloatText, j: Json): Unmarshalled<Value>
    requires j.JObject? && K in j.members
    decreases j, 0, 1
  {
    var keys :- StringList(j.members[K]);
    if |keys| + 1 != |j.members| then Failure(KeyCount) else
    var fs :- UnmarshalFields(ft, j, keys, []);
    Success(Document(fs))
  }

  /** Sets the fields named by `keys` on top of those in `fs`. */
  function UnmarshalFields(ft: FloatText, j: Json, keys: seq<bytes>, fs: Fields): Unmarshalled<Fields>
    requires j.JObject?
    decreases j, 0, 0, |keys|
  {
    if keys == [] then Success(fs)
    else if keys[0] !in j.members then Failure(MissingKey)
    else
      var v :- Unmarshal(ft, j.members[keys[0]]);
      if ValidKey(keys[0]) && (v.Document? ==> Validates(v.fields))
      then UnmarshalFields(ft, j, keys[1..], SetField(fs, keys[0], v))
      else Failure(InvalidKey)
  }
}
