/**
 The BSON codec of package `bson` as functions on byte strings: the encoder writes what
 `MarshalBinary` writes, the decoder returns a value with the bytes it left unread.
 */
module Bson {
  import opened Bytes
  import opened Text
  import opened Values
  import opened Wrappers

  const MAX_DOCUMENT_LEN := 16777216
  const MIN_DOCUMENT_LEN := 5

  const TAG_DOUBLE: byte := 0x01
  const TAG_STRING: byte := 0x02
  const TAG_DOCUMENT: byte := 0x03
  const TAG_ARRAY: byte := 0x04
  const TAG_BINARY: byte := 0x05
  const TAG_OBJECT_ID: byte := 0x07
  const TAG_BOOL: byte := 0x08
  const TAG_DATE_TIME: byte := 0x09
  const TAG_NULL: byte := 0x0a
  const TAG_REGEX: byte := 0x0b
  const TAG_INT32: byte := 0x10
  const TAG_TIMESTAMP: byte := 0x11
  const TAG_INT64: byte := 0x12

  function Tag(v: Value): (t: byte)
    ensures t != 0
  {
    match v
    case Document(_) => TAG_DOCUMENT
    case Array(_) => TAG_ARRAY
    case Double(_) => TAG_DOUBLE
    case String(_) => TAG_STRING
    case Binary(_, _) => TAG_BINARY
    case ObjectId(_) => TAG_OBJECT_ID
    case Bool(_) => TAG_BOOL
    case DateTime(_) => TAG_DATE_TIME
    case Null => TAG_NULL
    case Regex(_, _) => TAG_REGEX
    case Int32(_) => TAG_INT32
    case Timestamp(_) => TAG_TIMESTAMP
    case Int64(_) => TAG_INT64
  }

  predicate Composite(v: Value)
  {
    v.Document? || v.Array?
  }

  // --------------------------------------------------------------- encoding

  function EncodeCString(s: bytes): bytes
  {
    s + [0]
  }

  function EncodeString(s: bytes): bytes
  {
    PutInt32(|s| + 1) + s + [0]
  }

  function EncodeBinary(subtype: byte, data: bytes): bytes
  {
    PutInt32(|data|) + [subtype] + data
  }

  function EncodeScalar(v: Value): bytes
    requires !Composite(v)
  {
    match v
    case Double(bits) => PutInt64(bits)
    case String(s) => EncodeString(s)
    case Binary(subtype, data) => EncodeBinary(subtype, data)
    case ObjectId(oid) => oid
    case Bool(b) => [if b then 1 else 0]
    case DateTime(ms) => PutInt64(ms)
    case Null => []
    case Regex(p, o) => EncodeCString(p) + EncodeCString(o)
    case Int32(i) => PutInt32(i)
    case Timestamp(ts) => PutInt64(ts)
    case Int64(i) => PutInt64(i)
  }

  /** The length prefix, the element list and the end mark. */
  function Frame(elist: bytes): bytes
  {
    PutInt32(|elist| + 5) + elist + [0]
  }

  function EncodeValue(v: Value): bytes
    decreases v, 1
  {
    match v
    case Document(fs) => Frame(EncodeFields(fs))
    case Array(vs) => Frame(EncodeElems(vs, 0))
    case _ => EncodeScalar(v)
  }

  function EncodeElement(key: bytes, v: Value): bytes
    decreases v, 2
  {
    [Tag(v)] + EncodeCString(key) + EncodeValue(v)
  }

  function EncodeFields(fs: Fields): bytes
    decreases fs, 0
  {
    if fs == [] then []
    else EncodeElement(fs[0].key, fs[0].value) + EncodeFields(fs[1..])
  }

  /** The elements of an array, from index `i` on: a document keyed "0", "1", "2", ... */
  function EncodeElems(vs: seq<Value>, i: nat): bytes
    decreases vs, 0
  {
    if vs == [] then []
    else EncodeElement(Digits(i), vs[0]) + EncodeElems(vs[1..], i + 1)
  }

  /** `Document.MarshalBinary`. */
  function EncodeDocument(fs: Fields): (b: bytes)
    ensures |b| >= MIN_DOCUMENT_LEN
  {
    Frame(EncodeFields(fs))
  }

  // --------------------------------------------------------------- decoding

  /** Why bytes were refused, by this codec or by the message framing around it. */
  datatype DecodeError =
    | UnexpectedEof | BadLength | BadTag | BadByte | BadKey | BytesAfterEnd
    | BadKind | BadSections | BadCount | BadOpCode

  type Decoded<+T> = Result<(T, bytes), DecodeError>

  /** `io.ReadFull` of `n` bytes. */
  function ReadFull(b: bytes, n: nat): (r: Decoded<bytes>)
  {
    if |b| < n then Failure(UnexpectedEof) else Success((b[..n], b[n..]))
  }

  /** The position of the first zero byte, or `|b|`. */
  function NulAt(b: bytes): (i: nat)
    ensures i <= |b|
    ensures i < |b| ==> b[i] == 0
    ensures forall j :: 0 <= j < i ==> b[j] != 0
  {
    if b == [] || b[0] == 0 then 0 else NulAt(b[1..]) + 1
  }

  function DecodeCString(b: bytes): Decoded<bytes>
  {
    var i := NulAt(b);
    if i == |b| then Failure(UnexpectedEof) else Success((b[..i], b[i + 1..]))
  }

  function DecodeString(b: bytes): Decoded<bytes>
  {
    var (h, b1) :- ReadFull(b, 4);
    var l := GetInt32(h);
    if l <= 0 then Failure(BadLength) else
    var (s, rest) :- ReadFull(b1, l);
    if s[l - 1] != 0 then Failure(BadByte) else Success((s[..l - 1], rest))
  }

  function DecodeBinary(b: bytes): Decoded<Value>
  {
    var (h, b1) :- ReadFull(b, 4);
    var l := GetInt32(h);
    if l < 0 then Failure(BadLength) else
    var (t, b2) :- ReadFull(b1, 1);
    var (data, rest) :- ReadFull(b2, l);
    Success((Binary(t[0], data), rest))
  }

  function DecodeBool(b: bytes): Decoded<Value>
  {
    var (s, rest) :- ReadFull(b, 1);
    if s[0] == 0 then Success((Bool(false), rest))
    else if s[0] == 1 then Success((Bool(true), rest))
    else Failure(BadByte)
  }

  function DecodeRegex(b: bytes): Decoded<Value>
  {
    var (pattern, b1) :- DecodeCString(b);
    var (options, rest) :- DecodeCString(b1);
    Success((Regex(pattern, options), rest))
  }

  function DecodeScalar(tag: byte, b: bytes): (r: Decoded<Value>)
    ensures r.Success? ==> |r.value.1| <= |b|
  {
    if tag == TAG_DOUBLE then var (s, rest) :- ReadFull(b, 8); Success((Double(GetUint64(s)), rest))
    else if tag == TAG_STRING then var (s, rest) :- DecodeString(b); Success((String(s), rest))
    else if tag == TAG_BINARY then DecodeBinary(b)
    else if tag == TAG_OBJECT_ID then var (s, rest) :- ReadFull(b, 12); Success((ObjectId(s), rest))
    else if tag == TAG_BOOL then DecodeBool(b)
    else if tag == TAG_DATE_TIME then var (s, rest) :- ReadFull(b, 8); Success((DateTime(GetInt64(s)), rest))
    else if tag == TAG_NULL then Success((Null, b))
    else if tag == TAG_REGEX then DecodeRegex(b)
    else if tag == TAG_INT32 then var (s, rest) :- ReadFull(b, 4); Success((Int32(GetInt32(s)), rest))
    else if tag == TAG_TIMESTAMP then var (s, rest) :- ReadFull(b, 8); Success((Timestamp(GetInt64(s)), rest))
    else if tag == TAG_INT64 then var (s, rest) :- ReadFull(b, 8); Success((Int64(GetInt64(s)), rest))
    else Failure(BadTag)
  }

  /** Whether the keys are "0", "1", "2", ... in that order. */
  predicate SequentialKeys(fs: Fields)
  {
    forall i :: 0 <= i < |fs| ==> fs[i].key == Digits(i)
  }

  function FieldValues(fs: Fields): (vs: seq<Value>)
    ensures |vs| == |fs|
    ensures forall i :: 0 <= i < |fs| ==> vs[i] == fs[i].value
  {
    seq(|fs|, i requires 0 <= i < |fs| => fs[i].value)
  }

  function DecodeValue(tag: byte, b: bytes): (r: Decoded<Value>)
    ensures r.Success? ==> |r.value.1| <= |b|
    decreases |b|, 1
  {
    if tag == TAG_DOCUMENT then
      var (fs, rest) :- DecodeDocument(b);
      Success((Document(fs), rest))
    else if tag == TAG_ARRAY then
      var (fs, rest) :- DecodeDocument(b);
      if SequentialKeys(fs) then Success((Array(FieldValues(fs)), rest)) else Failure(BadKey)
    else
      DecodeScalar(tag, b)
  }

  /** The loop of `Document.ReadFrom` over the buffered element list and end mark. */
  function DecodeElements(b: bytes): Result<Fields, DecodeError>
    decreases |b|, 1
  {
    if b == [] then Failure(UnexpectedEof)
    else if b[0] == 0 then
      if |b| == 1 then Success([]) else Failure(BytesAfterEnd)
    else
      var (key, b1) :- DecodeCString(b[1..]);
      var (v, b2) :- DecodeValue(b[0], b1);
      var fs :- DecodeElements(b2);
      Success([Field(key, v)] + fs)
  }

  /** The length prefix, then the element list and end mark it announces. */
  function DecodeBody(b: bytes): (r: Decoded<bytes>)
    ensures r.Success? ==> |b| == 4 + |r.value.0| + |r.value.1|
  {
    var (h, b1) :- ReadFull(b, 4);
    var l := GetInt32(h);
    if l < MIN_DOCUMENT_LEN || l > MAX_DOCUMENT_LEN then Failure(BadLength) else ReadFull(b1, l - 4)
  }

  /** `Document.ReadFrom`. */
  function DecodeDocument(b: bytes): (r: Decoded<Fields>)
    ensures r.Success? ==> |r.value.1| < |b|
    decreases |b|, 0
  {
    var (body, rest) :- DecodeBody(b);
    var fs :- DecodeElements(body);
    if Validates(fs) then Success((fs, rest)) else Failure(BadKey)
  }

  // ----------------------------------------------------- what can be encoded

  /** Keys and regular expressions are written as zero-terminated strings. */
  predicate NulFree(v: Value)
  {
    match v
    case Document(fs) => forall i :: 0 <= i < |fs| ==> 0 !in fs[i].key && NulFree(fs[i].value)
    case Array(vs) => forall i :: 0 <= i < |vs| ==> NulFree(vs[i])
    case Regex(p, o) => 0 !in p && 0 !in o
    case _ => true
  }

  /** What the decoder guarantees of each field before the document is validated. */
  predicate StorableFields(fs: Fields)
  {
    forall i :: 0 <= i < |fs| ==> 0 !in fs[i].key && WellFormed(fs[i].value) && NulFree(fs[i].value)
  }

  /** Exactly the documents the decoder can return. */
  predicate Encodable(fs: Fields)
  {
    && WellFormed(Document(fs))
    && NulFree(Document(fs))
    && |EncodeDocument(fs)| <= MAX_DOCUMENT_LEN
  }
}
