/**
 TJSON, the JSON that the Tigris backend stores, and the schemas that describe it.  A value
 is decoded under a schema, and a document's schema is inferred from the document.
 */
module Tjson {
  import opened Bytes
  import opened Text
  import opened Values
  import opened Doubles
  import opened Wrappers
  import Fjson

  type Json = Fjson.Json

  datatype Error =
    | BadJson | Unsupported | UnhandledType | UnhandledFormat | UnhandledMap
    | MissingKey | NoSchema | KeyCount | InvalidKey | MissingId | Panicked

  /** The text of numbers and of dates; dates outside the years 0 to 9999 have none. */
  datatype Codecs = Codecs(floats: FloatText, date: int64 -> Option<bytes>, parseDate: bytes -> Option<int64>) {
    ghost predicate Exact() {
      && floats.Exact()
      && (forall ms: int64 :: date(ms).Some? ==> parseDate(date(ms).value) == Some(ms))
    }
  }

  // ----------------------------------------------------------------- schemas

  datatype SchemaType = Integer | Number | StringType | Boolean | ArrayType | ObjectType | OtherType(name: bytes)

  datatype SchemaFormat =
    | EmptyFormat | DoubleFormat | FloatFormat | Int64Format | Int32Format
    | ByteFormat | UuidFormat | DateTimeFormat | OtherFormat(name: bytes)

  datatype Schema = Schema(
    kind: SchemaType, format: SchemaFormat, properties: map<bytes, Schema>, items: Option<Schema>,
    primaryKey: seq<bytes>)

  function Simple(kind: SchemaType, format: SchemaFormat): Schema
  {
    Schema(kind, format, map[], None, [])
  }

  function Object(properties: map<bytes, Schema>, primaryKey: seq<bytes>): Schema
  {
    Schema(ObjectType, EmptyFormat, properties, None, primaryKey)
  }

  const STRING_SCHEMA := Simple(StringType, EmptyFormat)
  const INT32_SCHEMA := Simple(Integer, Int32Format)
  const BINARY_SCHEMA := Object(map[Fjson.B := Simple(StringType, ByteFormat), Fjson.S := INT32_SCHEMA], [])
  const REGEX_SCHEMA := Object(map[Fjson.R := STRING_SCHEMA, Fjson.OPT := STRING_SCHEMA], [])

  /** The schema of a document's "$k". */
  const KEYS_SCHEMA := Schema(ArrayType, EmptyFormat, map[], Some(STRING_SCHEMA), [])

  /** `valueSchema`. */
  function ValueSchema(v: Value): Result<Schema, Error>
    decreases v, 1
  {
    match v
    case Document(fs) => SubdocumentSchema(fs, [])
    case Double(_) => Success(Simple(Number, EmptyFormat))
    case String(_) => Success(STRING_SCHEMA)
    case Binary(_, _) => Success(BINARY_SCHEMA)
    case ObjectId(_) => Success(Simple(StringType, ByteFormat))
    case Bool(_) => Success(Simple(Boolean, EmptyFormat))
    case DateTime(_) => Success(Simple(StringType, DateTimeFormat))
    case Regex(_, _) => Success(REGEX_SCHEMA)
    case Int32(_) => Success(INT32_SCHEMA)
    case Int64(_) => Success(Simple(Integer, EmptyFormat))
    case Array(_) => Failure(Unsupported)
    case Null => Failure(Unsupported)
    case Timestamp(_) => Failure(Unsupported)
  }

  /** The schemas of the fields, by key; a later field would replace an earlier one. */
  function PropertiesOf(fs: Fields): Result<map<bytes, Schema>, Error>
    decreases fs, 0
  {
    if fs == [] then Success(map[])
    else
      var s :- ValueSchema(fs[0].value);
      var rest :- PropertiesOf(fs[1..]);
      Success(map[fs[0].key := s] + rest)
  }

  /** `subdocumentSchema`. */
  function SubdocumentSchema(fs: Fields, primaryKey: seq<bytes>): Result<Schema, Error>
    decreases fs, 1
  {
    var properties :- PropertiesOf(fs);
    Success(Object(map[Fjson.K := KEYS_SCHEMA] + properties, primaryKey))
  }

  /** `DocumentSchema`. */
  function DocumentSchema(fs: Fields): Result<Schema, Error>
  {
    if Has(fs, ID_KEY) then SubdocumentSchema(fs, [ID_KEY]) else Failure(MissingId)
  }

  // ------------------------------------------------------------- marshalling

  function MarshalScalar(c: Codecs, v: Value): Result<Json, Error>
    requires !v.Document?
  {
    match v
    case Double(bits) => if IsFinite(bits) then Success(Fjson.JNumber(c.floats.format(bits))) else Failure(Unsupported)
    case String(s) => Success(Fjson.MarshalString(s))
    case Binary(subtype, data) =>
      Success(Fjson.JObject(map[
        Fjson.B := Fjson.JString(Base64Encode(data)), Fjson.S := Fjson.JNumber(Decimal(subtype as int))]))
    case ObjectId(oid) => Success(Fjson.JString(Base64Encode(oid)))
    case Bool(b) => Success(Fjson.JBool(b))
    case DateTime(ms) =>
      if c.date(ms).Some? then Success(Fjson.JString(c.date(ms).value)) else Failure(Unsupported)
    case Regex(p, o) =>
      Success(Fjson.JObject(map[Fjson.R := Fjson.MarshalString(p), Fjson.OPT := Fjson.MarshalString(o)]))
    case Int32(i) => Success(Fjson.JNumber(Decimal(i)))
    case Int64(i) => Success(Fjson.JNumber(Decimal(i)))
    case _ => Failure(Panicked)
  }

  /** `Marshal`. */
  function Marshal(c: Codecs, v: Value): Result<Json, Error>
    decreases v, 1
  {
    if v.Document? then
      var m :- MarshalFields(c, v.fields);
      Success(Fjson.JObject(m[Fjson.K := Fjson.MarshalKeys(v.fields)]))
    else MarshalScalar(c, v)
  }

  function MarshalFields(c: Codecs, fs: Fields): Result<map<bytes, Json>, Error>
    decreases fs, 0
  {
    if fs == [] then Success(map[])
    else
      var j :- Marshal(c, fs[0].value);
      var rest :- MarshalFields(c, fs[1..]);
      Success(map[Coerce(fs[0].key) := j] + rest)
  }

  // ----------------------------------------------------------- unmarshalling

  /** A bare null makes every scalar decoder panic. */
  function NotNull(j: Json, r: Result<Value, Error>): Result<Value, Error>
  {
    if j.JNull? then Failure(Panicked) else r
  }

  function UnmarshalInt(j: Json, lo: int, hi: int): (r: Result<int, Error>)
    ensures r.Success? ==> lo <= r.value < hi
  {
    if !j.JNumber? then Failure(BadJson)
    else match DecimalValue(j.text)
      case Some(n) => if lo <= n < hi then Success(n) else Failure(BadJson)
      case None => Failure(BadJson)
  }

  function UnmarshalInteger(j: Json, format: SchemaFormat): Result<Value, Error>
  {
    match format
    case EmptyFormat => NotNull(j, UnmarshalInt64(j))
    case Int64Format => NotNull(j, UnmarshalInt64(j))
    case Int32Format => NotNull(j, UnmarshalInt32(j))
    case _ => Failure(UnhandledFormat)
  }

  function UnmarshalInt64(j: Json): Result<Value, Error>
  {
    var n :- UnmarshalInt(j, -0x8000_0000_0000_0000, 0x8000_0000_0000_0000);
    Success(Int64(n))
  }

  function UnmarshalInt32(j: Json): Result<Value, Error>
  {
    var n :- UnmarshalInt(j, -0x8000_0000, 0x8000_0000);
    Success(Int32(n))
  }

  function UnmarshalNumber(c: Codecs, j: Json, format: SchemaFormat): Result<Value, Error>
  {
    if format != EmptyFormat && format != DoubleFormat then Failure(UnhandledFormat)
    else NotNull(j,
      if j.JNumber? && c.floats.parse(j.text).Some? then Success(Double(c.floats.parse(j.text).value))
      else Failure(BadJson))
  }

  function UnmarshalString(c: Codecs, j: Json, format: SchemaFormat): Result<Value, Error>
  {
    match format
    case EmptyFormat => NotNull(j, if j.JString? then Success(String(j.str)) else Failure(BadJson))
    case ByteFormat => NotNull(j, if j.JString? then UnmarshalObjectId(Base64Decode(j.str)) else Failure(BadJson))
    case DateTimeFormat =>
      NotNull(j,
        if j.JString? && c.parseDate(j.str).Some? then Success(DateTime(c.parseDate(j.str).value))
        else Failure(BadJson))
    case _ => Failure(UnhandledFormat)
  }

  function UnmarshalObjectId(data: Option<bytes>): Result<Value, Error>
  {
    if data.Some? && |data.value| == 12 then Success(ObjectId(data.value)) else Failure(BadJson)
  }

  function Lift(r: Fjson.Unmarshalled<Value>): Result<Value, Error>
  {
    if r.Success? then Success(r.value) else Failure(BadJson)
  }

  /** `json.Unmarshal` of "$k" into `[]string`. */
  function KeyList(j: Json): Result<seq<bytes>, Error>
  {
    if j.JNull? then Success([])
    else match Fjson.StringList(j)
      case Success(keys) => Success(keys)
      case Failure(_) => Failure(BadJson)
  }

  /** `Unmarshal`. */
  function Unmarshal(c: Codecs, j: Json, s: Schema): Result<Value, Error>
    decreases j, 2
  {
    match s.kind
    case Integer => UnmarshalInteger(j, s.format)
    case Number => UnmarshalNumber(c, j, s.format)
    case StringType => UnmarshalString(c, j, s.format)
    case Boolean => NotNull(j, if j.JBool? then Success(Bool(j.b)) else Failure(BadJson))
    case ArrayType => Failure(UnhandledType)
    case ObjectType => UnmarshalObject(c, j, s)
    case OtherType(_) => Failure(UnhandledType)
  }

  /** The dispatch on the members "$k", "$b" and "$r". */
  function UnmarshalObject(c: Codecs, j: Json, s: Schema): Result<Value, Error>
    decreases j, 1
  {
    if j.JNull? then Failure(UnhandledMap)
    else if !j.JObject? then Failure(BadJson)
    else if Fjson.K in j.members then UnmarshalDocument(c, j, s)
    else if Fjson.B in j.members then Lift(Fjson.UnmarshalBinary(j.members))
    else if Fjson.R in j.members then Lift(Fjson.UnmarshalRegex(j.members))
    else Failure(UnhandledMap)
  }

  /** `UnmarshalJSONWithSchema`. */
  function UnmarshalDocument(c: Codecs, j: Json, s: Schema): Result<Value, Error>
    requires j.JObject? && Fjson.K in j.members
    decreases j, 0, 1
  {
    var keys :- KeyList(j.members[Fjson.K]);
    if |keys| + 1 != |j.members| then Failure(KeyCount) else
    var fs :- UnmarshalFields(c, j, s, keys, []);
    Success(Document(fs))
  }

  /** The loop over the keys, on top of the fields already set. */
  function UnmarshalFields(c: Codecs, j: Json, s: Schema, keys: seq<bytes>, fs: Fields): Result<Fields, Error>
    requires j.JObject?
    decreases j, 0, 0, |keys|
  {
    if keys == [] then Success(fs)
    else if keys[0] !in j.members then Failure(MissingKey)
    else if keys[0] !in s.properties then Failure(NoSchema)
    else
      var v :- Unmarshal(c, j.members[keys[0]], s.properties[keys[0]]);
      if ValidKey(keys[0]) && (v.Document? ==> Validates(v.fields))
      then UnmarshalFields(c, j, s, keys[1..], SetField(fs, keys[0], v))
      else Failure(InvalidKey)
  }
}
