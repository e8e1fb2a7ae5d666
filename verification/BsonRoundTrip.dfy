/** Decoding undoes encoding and leaves exactly the bytes that follow. */
module BsonRoundTrip {
  import opened Bytes
  import opened Text
  import opened Values
  import opened Wrappers
  import opened Bson

  lemma ReadFullOf(s: bytes, rest: bytes)
    ensures ReadFull(s + rest, |s|) == Success((s, rest))
  {
    assert (s + rest)[..|s|] == s;
    assert (s + rest)[|s|..] == rest;
  }

  lemma CStringRoundTrip(s: bytes, rest: bytes)
    requires 0 !in s
    ensures DecodeCString(EncodeCString(s) + rest) == Success((s, rest))
  {
    var b := EncodeCString(s) + rest;
    assert b[|s|] == 0;
    assert forall j :: 0 <= j < |s| ==> b[j] == s[j];
    assert NulAt(b) == |s|;
    assert b[..|s|] == s;
    assert b[|s| + 1..] == rest;
  }

  lemma StringRoundTrip(s: bytes, rest: bytes)
    requires |s| + 1 < 0x8000_0000
    ensures DecodeString(EncodeString(s) + rest) == Success((s, rest))
  {
    var h := PutInt32(|s| + 1);
    assert EncodeString(s) + rest == h + (s + [0] + rest);
    ReadFullOf(h, s + [0] + rest);
    GetPut32(|s| + 1);
    Truncation(|s| + 1);
    ReadFullOf(s + [0], rest);
    assert (s + [0])[..|s|] == s;
  }

  lemma BinaryRoundTrip(subtype: byte, data: bytes, rest: bytes)
    requires |data| < 0x8000_0000
    ensures DecodeBinary(EncodeBinary(subtype, data) + rest) == Success((Binary(subtype, data), rest))
  {
    var h := PutInt32(|data|);
    assert EncodeBinary(subtype, data) + rest == h + ([subtype] + (data + rest));
    ReadFullOf(h, [subtype] + (data + rest));
    GetPut32(|data|);
    Truncation(|data|);
    ReadFullOf([subtype], data + rest);
    ReadFullOf(data, rest);
  }

  lemma RegexRoundTrip(pattern: bytes, options: bytes, rest: bytes)
    requires 0 !in pattern && 0 !in options
    ensures DecodeRegex(EncodeCString(pattern) + EncodeCString(options) + rest)
         == Success((Regex(pattern, options), rest))
  {
    assert EncodeCString(pattern) + EncodeCString(options) + rest
        == EncodeCString(pattern) + (EncodeCString(options) + rest);
    CStringRoundTrip(pattern, EncodeCString(options) + rest);
    CStringRoundTrip(options, rest);
  }

  lemma ScalarRoundTrip(v: Value, rest: bytes)
    requires !Composite(v) && NulFree(v)
    requires |EncodeScalar(v)| < 0x8000_0000
    ensures DecodeScalar(Tag(v), EncodeScalar(v) + rest) == Success((v, rest))
  {
    if v.String? || v.Binary? || v.Regex? {
      SizedRoundTrip(v, rest);
    } else if v.Null? {
      assert [] + rest == rest;
    } else {
      FixedRoundTrip(v, rest);
    }
  }

  lemma SizedRoundTrip(v: Value, rest: bytes)
    requires (v.String? || v.Binary? || v.Regex?) && NulFree(v)
    requires |EncodeScalar(v)| < 0x8000_0000
    ensures DecodeScalar(Tag(v), EncodeScalar(v) + rest) == Success((v, rest))
  {
    match v
    case String(s) => StringScalar(s, rest);
    case Binary(subtype, data) => BinaryScalar(subtype, data, rest);
    case Regex(p, o) => RegexScalar(p, o, rest);
  }

  lemma StringScalar(s: bytes, rest: bytes)
    requires |s| + 1 < 0x8000_0000
    ensures DecodeScalar(TAG_STRING, EncodeString(s) + rest) == Success((String(s), rest))
  {
    StringRoundTrip(s, rest);
  }

  lemma BinaryScalar(subtype: byte, data: bytes, rest: bytes)
    requires |data| < 0x8000_0000
    ensures DecodeScalar(TAG_BINARY, EncodeBinary(subtype, data) + rest) == Success((Binary(subtype, data), rest))
  {
    BinaryRoundTrip(subtype, data, rest);
  }

  lemma RegexScalar(pattern: bytes, options: bytes, rest: bytes)
    requires 0 !in pattern && 0 !in options
    ensures DecodeScalar(TAG_REGEX, EncodeCString(pattern) + EncodeCString(options) + rest)
         == Success((Regex(pattern, options), rest))
  {
    RegexRoundTrip(pattern, options, rest);
  }

  lemma FixedRoundTrip(v: Value, rest: bytes)
    requires v.Double? || v.ObjectId? || v.Bool? || v.DateTime? || v.Int32? || v.Timestamp? || v.Int64?
    ensures DecodeScalar(Tag(v), EncodeScalar(v) + rest) == Success((v, rest))
  {
    match v
    case Double(bits) => DoubleRoundTrip(bits, rest);
    case Int32(i) => Int32RoundTrip(i, rest);
    case ObjectId(oid) => ReadFullOf(oid, rest);
    case Bool(b) => ReadFullOf([if b then 1 else 0], rest);
    case _ => LongRoundTrip(v, rest);
  }

  lemma DoubleRoundTrip(bits: uint64, rest: bytes)
    ensures DecodeScalar(TAG_DOUBLE, PutInt64(bits) + rest) == Success((Double(bits), rest))
  {
    ReadFullOf(PutInt64(bits), rest);
    GetPut64(bits);
  }

  lemma Int32RoundTrip(i: int32, rest: bytes)
    ensures DecodeScalar(TAG_INT32, PutInt32(i) + rest) == Success((Int32(i), rest))
  {
    ReadFullOf(PutInt32(i), rest);
    GetPut32(i);
    Truncation(i);
  }

  lemma LongRoundTrip(v: Value, rest: bytes)
    requires v.DateTime? || v.Timestamp? || v.Int64?
    ensures DecodeScalar(Tag(v), EncodeScalar(v) + rest) == Success((v, rest))
  {
    var i := if v.DateTime? then v.millis else if v.Timestamp? then v.ts else v.i64;
    ReadFullOf(PutInt64(i), rest);
    Int64RoundTrip(i);
  }

  lemma Int64RoundTrip(i: int64)
    ensures GetInt64(PutInt64(i)) == i
  {
    GetPut64(i);
    Truncation(i);
  }

  // ------------------------------------------------------------------ arrays

  /** An array as the document BSON stores it as. */
  function IndexedFields(vs: seq<Value>, i: nat): (fs: Fields)
    ensures |fs| == |vs|
    ensures forall j :: 0 <= j < |vs| ==> fs[j] == Field(Digits(i + j), vs[j])
  {
    seq(|vs|, j requires 0 <= j < |vs| => Field(Digits(i + j), vs[j]))
  }

  lemma {:induction false} ElemsAsFields(vs: seq<Value>, i: nat)
    ensures EncodeElems(vs, i) == EncodeFields(IndexedFields(vs, i))
  {
    if vs == [] {
    } else {
      ElemsAsFields(vs[1..], i + 1);
      assert IndexedFields(vs, i)[1..] == IndexedFields(vs[1..], i + 1);
    }
  }

  lemma DigitsNulFree(n: nat)
    ensures 0 !in Digits(n)
    ensures ValidKey(Digits(n))
  {
    var s := Digits(n);
    assert forall i :: 0 <= i < |s| ==> IsDigit(s[i]);
    AsciiIsValid(s);
  }

  lemma DigitsInjective(m: nat, n: nat)
    requires Digits(m) == Digits(n)
    ensures m == n
  {
    DigitsRoundTrip(m);
    DigitsRoundTrip(n);
  }

  lemma IndexedFieldsStorable(vs: seq<Value>)
    requires WellFormed(Array(vs)) && NulFree(Array(vs))
    ensures WellFormed(Document(IndexedFields(vs, 0)))
    ensures NulFree(Document(IndexedFields(vs, 0)))
  {
    var fs := IndexedFields(vs, 0);
    forall i, j | 0 <= i < j < |fs|
      ensures fs[i].key != fs[j].key
    {
      if Digits(i) == Digits(j) { DigitsInjective(i, j); }
    }
    forall i | 0 <= i < |fs|
      ensures ValidKey(fs[i].key) && 0 !in fs[i].key && WellFormed(fs[i].value) && NulFree(fs[i].value)
    {
      DigitsNulFree(i);
    }
  }

  // ---------------------------------------------------------- the round trip

  lemma {:induction false} FieldsRoundTrip(fs: Fields)
    requires StorableFields(fs)
    requires |EncodeFields(fs)| <= MAX_DOCUMENT_LEN
    ensures DecodeElements(EncodeFields(fs) + [0]) == Success(fs)
    decreases |EncodeFields(fs)|, 0
  {
    if fs == [] {
    } else {
      var f, tail := fs[0], EncodeFields(fs[1..]) + [0];
      var b := EncodeFields(fs) + [0];
      assert b == [Tag(f.value)] + (EncodeCString(f.key) + (EncodeValue(f.value) + tail));
      assert b[1..] == EncodeCString(f.key) + (EncodeValue(f.value) + tail);
      CStringRoundTrip(f.key, EncodeValue(f.value) + tail);
      ValueRoundTrip(f.value, tail);
      FieldsRoundTrip(fs[1..]);
      assert [Field(f.key, f.value)] + fs[1..] == fs;
    }
  }

  lemma {:induction false} ValueRoundTrip(v: Value, rest: bytes)
    requires WellFormed(v) && NulFree(v)
    requires |EncodeValue(v)| <= MAX_DOCUMENT_LEN
    ensures DecodeValue(Tag(v), EncodeValue(v) + rest) == Success((v, rest))
    decreases |EncodeValue(v)|, 1
  {
    match v
    case Document(fs) =>
      DocumentRoundTrip(fs, rest);
    case Array(vs) =>
      var fs := IndexedFields(vs, 0);
      ElemsAsFields(vs, 0);
      IndexedFieldsStorable(vs);
      DocumentRoundTrip(fs, rest);
      assert FieldValues(fs) == vs;
    case _ =>
      ScalarRoundTrip(v, rest);
  }

  /** Every encodable document is read back, and the bytes after it are left unread. */
  lemma {:induction false} DocumentRoundTrip(fs: Fields, rest: bytes)
    requires Encodable(fs)
    ensures DecodeDocument(EncodeDocument(fs) + rest) == Success((fs, rest))
    decreases |EncodeFields(fs)|, 1
  {
    var body := EncodeFields(fs) + [0];
    var h := PutInt32(|body| + 4);
    assert EncodeDocument(fs) + rest == h + (body + rest);
    ReadFullOf(h, body + rest);
    GetPut32(|body| + 4);
    Truncation(|body| + 4);
    ReadFullOf(body, rest);
    FieldsRoundTrip(fs);
    WellFormedValidates(fs);
  }

  // ----------------------------------------------------------- concatenation

  lemma {:induction false} EncodeFieldsConcat(fs: Fields, gs: Fields)
    ensures EncodeFields(fs + gs) == EncodeFields(fs) + EncodeFields(gs)
  {
    if fs == [] {
      assert fs + gs == gs;
    } else {
      EncodeFieldsConcat(fs[1..], gs);
      Assoc(EncodeElement(fs[0].key, fs[0].value), EncodeFields(fs[1..]), EncodeFields(gs));
      assert (fs + gs)[1..] == fs[1..] + gs;
      assert (fs + gs)[0] == fs[0];
    }
  }

  lemma EncodeOne(f: Field)
    ensures EncodeFields([f]) == EncodeElement(f.key, f.value)
  {
    assert [f][1..] == [];
  }
}
