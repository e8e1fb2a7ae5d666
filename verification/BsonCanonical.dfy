/** Whatever the decoder accepts re-encodes byte for byte: there is one encoding per document. */
module BsonCanonical {
  import opened Bytes
  import opened Values
  import opened Wrappers
  import opened Bson
  import opened BsonRoundTrip

  lemma CStringCanonical(b: bytes)
    requires DecodeCString(b).Success?
    ensures var (s, rest) := DecodeCString(b).value; b == EncodeCString(s) + rest && 0 !in s
  {
    var i := NulAt(b);
    assert b == b[..i] + [b[i]] + b[i + 1..];
  }

  lemma StringCanonical(b: bytes)
    requires DecodeString(b).Success?
    ensures var (s, rest) := DecodeString(b).value; b == EncodeString(s) + rest
  {
    var l := GetInt32(b[..4]);
    var t := b[4..][..l];
    PutGet32(b[..4]);
    assert t == t[..l - 1] + [0];
    assert b == b[..4] + t + b[4..][l..];
  }

  lemma BinaryCanonical(b: bytes)
    requires DecodeBinary(b).Success?
    ensures var (v, rest) := DecodeBinary(b).value; v.Binary? && b == EncodeScalar(v) + rest
  {
    var l := GetInt32(b[..4]);
    PutGet32(b[..4]);
    assert b == b[..4] + (b[4..][..1] + (b[4..][1..][..l] + b[4..][1..][l..]));
    assert b[4..][..1] == [b[4]];
  }

  lemma RegexCanonical(b: bytes)
    requires DecodeRegex(b).Success?
    ensures var (v, rest) := DecodeRegex(b).value; v.Regex? && NulFree(v) && b == EncodeScalar(v) + rest
  {
    CStringCanonical(b);
    CStringCanonical(DecodeCString(b).value.1);
  }

  lemma EightBytesCanonical(tag: byte, b: bytes)
    requires tag in {TAG_DOUBLE, TAG_DATE_TIME, TAG_TIMESTAMP, TAG_INT64}
    requires DecodeScalar(tag, b).Success?
    ensures var (v, rest) := DecodeScalar(tag, b).value;
            !Composite(v) && Tag(v) == tag && NulFree(v) && b == EncodeScalar(v) + rest
  {
    PutGet64(b[..8]);
    assert b == b[..8] + b[8..];
  }

  lemma FixedCanonical(tag: byte, b: bytes)
    requires tag in {TAG_OBJECT_ID, TAG_BOOL, TAG_NULL, TAG_INT32}
    requires DecodeScalar(tag, b).Success?
    ensures var (v, rest) := DecodeScalar(tag, b).value;
            !Composite(v) && Tag(v) == tag && NulFree(v) && b == EncodeScalar(v) + rest
  {
    if tag == TAG_BOOL {
      assert b == b[..1] + b[1..];
      assert b[..1] == [b[0]];
    } else if tag == TAG_INT32 {
      PutGet32(b[..4]);
      assert b == b[..4] + b[4..];
    } else if tag == TAG_OBJECT_ID {
      assert b == b[..12] + b[12..];
    } else {
      assert b == [] + b;
    }
  }

  lemma ScalarCanonical(tag: byte, b: bytes)
    requires DecodeScalar(tag, b).Success?
    ensures var (v, rest) := DecodeScalar(tag, b).value;
            !Composite(v) && Tag(v) == tag && NulFree(v) && b == EncodeScalar(v) + rest
  {
    if tag == TAG_STRING { StringCanonical(b); }
    else if tag == TAG_BINARY { BinaryCanonical(b); }
    else if tag == TAG_REGEX { RegexCanonical(b); }
    else if tag in {TAG_DOUBLE, TAG_DATE_TIME, TAG_TIMESTAMP, TAG_INT64} { EightBytesCanonical(tag, b); }
    else { FixedCanonical(tag, b); }
  }

  lemma {:induction false} ValueCanonical(tag: byte, b: bytes)
    requires DecodeValue(tag, b).Success?
    ensures var (v, rest) := DecodeValue(tag, b).value;
            Tag(v) == tag && WellFormed(v) && NulFree(v) && b == EncodeValue(v) + rest
    decreases |b|, 1
  {
    if tag == TAG_DOCUMENT {
      DocumentCanonical(b);
    } else if tag == TAG_ARRAY {
      DocumentCanonical(b);
      var fs := DecodeDocument(b).value.0;
      var vs := FieldValues(fs);
      assert fs == IndexedFields(vs, 0);
      ElemsAsFields(vs, 0);
    } else {
      ScalarCanonical(tag, b);
    }
  }

  lemma ElementCanonical(b: bytes, key: bytes, v: Value, tail: Fields)
    requires b != [] && b[0] == Tag(v)
    requires b[1..] == EncodeCString(key) + (EncodeValue(v) + (EncodeFields(tail) + [0]))
    ensures b == EncodeFields([Field(key, v)] + tail) + [0]
  {
    var fs := [Field(key, v)] + tail;
    assert fs[1..] == tail;
    assert b == [b[0]] + b[1..];
  }

  lemma {:induction false} ElementsCanonical(b: bytes)
    requires DecodeElements(b).Success?
    ensures var fs := DecodeElements(b).value; StorableFields(fs) && b == EncodeFields(fs) + [0]
    decreases |b|, 1
  {
    if b[0] == 0 {
    } else {
      CStringCanonical(b[1..]);
      var (key, b1) := DecodeCString(b[1..]).value;
      ValueCanonical(b[0], b1);
      var (v, b2) := DecodeValue(b[0], b1).value;
      ElementsCanonical(b2);
      ElementCanonical(b, key, v, DecodeElements(b2).value);
    }
  }

  /** What `Document.ReadFrom` accepts is the one encoding of an encodable document. */
  lemma {:induction false} DocumentCanonical(b: bytes)
    requires DecodeDocument(b).Success?
    ensures var (fs, rest) := DecodeDocument(b).value; Encodable(fs) && b == EncodeDocument(fs) + rest
    decreases |b|, 0
  {
    var (body, rest) := DecodeBody(b).value;
    ElementsCanonical(body);
    var fs := DecodeElements(body).value;
    FrameCanonical(b, EncodeFields(fs));
    ValidatedIsWellFormed(fs);
  }

  lemma FrameCanonical(b: bytes, elist: bytes)
    requires DecodeBody(b).Success? && DecodeBody(b).value.0 == elist + [0]
    ensures b == Frame(elist) + DecodeBody(b).value.1
  {
    var l := GetInt32(b[..4]);
    PutGet32(b[..4]);
    assert b == b[..4] + (b[4..][..l - 4] + b[4..][l - 4..]);
  }

  lemma ValidatedIsWellFormed(fs: Fields)
    requires Validates(fs) && StorableFields(fs)
    ensures WellFormed(Document(fs)) && NulFree(Document(fs))
  {
  }

  /** The round trip holds for exactly the encodable documents. */
  lemma RoundTripExactly(fs: Fields, rest: bytes)
    ensures DecodeDocument(EncodeDocument(fs) + rest) == Success((fs, rest)) <==> Encodable(fs)
  {
    if Encodable(fs) {
      DocumentRoundTrip(fs, rest);
    } else if DecodeDocument(EncodeDocument(fs) + rest) == Success((fs, rest)) {
      DocumentCanonical(EncodeDocument(fs) + rest);
      assert false;
    }
  }

  /** Distinct encodable documents have distinct encodings, none a prefix of another's. */
  lemma EncodingsAreDistinct(fs: Fields, gs: Fields, rest1: bytes, rest2: bytes)
    requires Encodable(fs) && Encodable(gs)
    requires EncodeDocument(fs) + rest1 == EncodeDocument(gs) + rest2
    ensures fs == gs && rest1 == rest2
  {
    DocumentRoundTrip(fs, rest1);
    DocumentRoundTrip(gs, rest2);
  }
}
