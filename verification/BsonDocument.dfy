/**
 `bson.Document` as the code has it: a keys slice and a map, filled by a loop over a reader
 and written by a loop over the keys. Both loops are proved against the functions of `Bson`.
 */
module BsonDocument {
  import opened Bytes
  import opened Text
  import opened Values
  import opened Wrappers
  import opened Bson
  import opened BsonRoundTrip

  /** The map that results from assigning the fields one after the other. */
  function MapOf(fs: Fields): (m: map<bytes, Value>)
  {
    if fs == [] then map[]
    else var n := |fs| - 1; MapOf(fs[..n])[fs[n].key := fs[n].value]
  }

  lemma {:induction false} MapHasKeys(fs: Fields)
    ensures MapOf(fs).Keys == set k | k in Keys(fs)
  {
    if fs == [] {
    } else {
      var n := |fs| - 1;
      MapHasKeys(fs[..n]);
      assert Keys(fs) == Keys(fs[..n]) + [fs[n].key];
    }
  }

  /** With distinct keys the map has an entry per key, holding that field's value. */
  lemma {:induction false} MapOfDistinct(fs: Fields)
    requires DistinctKeys(fs)
    ensures |MapOf(fs)| == |fs|
    ensures forall i :: 0 <= i < |fs| ==> fs[i].key in MapOf(fs) && MapOf(fs)[fs[i].key] == fs[i].value
  {
    if fs == [] {
    } else {
      var n := |fs| - 1;
      var front, last := fs[..n], fs[n];
      MapOfDistinct(front);
      MapHasKeys(front);
      assert forall i :: 0 <= i < n ==> fs[i] == front[i];
      assert last.key !in Keys(front);
      assert MapOf(fs).Keys == MapOf(front).Keys + {last.key};
      assert |MapOf(fs)| == |MapOf(fs).Keys|;
    }
  }

  lemma AssignmentCount(m: map<bytes, Value>, k: bytes, v: Value)
    ensures |m[k := v]| == if k in m then |m| else |m| + 1
  {
    assert m[k := v].Keys == m.Keys + {k};
    assert |m[k := v]| == |m[k := v].Keys| && |m| == |m.Keys|;
    if k in m { assert m.Keys + {k} == m.Keys; }
  }

  /** A map with as many entries as there were assignments had no key assigned twice. */
  lemma {:induction false} MapOfRepeated(fs: Fields)
    ensures |MapOf(fs)| <= |fs|
    ensures |MapOf(fs)| == |fs| ==> DistinctKeys(fs)
  {
    if fs == [] {
    } else {
      var n := |fs| - 1;
      MapOfRepeated(fs[..n]);
      AssignmentCount(MapOf(fs[..n]), fs[n].key, fs[n].value);
      MapHasKeys(fs[..n]);
      if |MapOf(fs)| == |fs| {
        assert fs[n].key !in Keys(fs[..n]);
        assert forall i :: 0 <= i < n ==> fs[i].key == Keys(fs[..n])[i];
      }
    }
  }

  /** `len(m) == len(keys)` exactly when no key was assigned twice. */
  lemma MapCountsDistinctKeys(fs: Fields)
    ensures |MapOf(fs)| == |fs| <==> DistinctKeys(fs)
    ensures DistinctKeys(fs) ==>
      forall i :: 0 <= i < |fs| ==> fs[i].key in MapOf(fs) && MapOf(fs)[fs[i].key] == fs[i].value
  {
    MapOfRepeated(fs);
    if DistinctKeys(fs) { MapOfDistinct(fs); }
  }

  /** `types.Document.validate` on a keys slice and a map. */
  method Validate(keys: seq<bytes>, m: map<bytes, Value>, ghost fs: Fields) returns (ok: bool)
    requires keys == Keys(fs) && m == MapOf(fs)
    ensures ok == Validates(fs)
  {
    MapCountsDistinctKeys(fs);
    if |m| != |keys| {
      return false;
    }
    var prevKeys: set<bytes> := {};
    for i := 0 to |keys|
      invariant forall k :: k in prevKeys ==> k in keys[..i]
      invariant forall j :: 0 <= j < i ==>
        ValidKey(keys[j]) && (fs[j].value.Document? ==> Validates(fs[j].value.fields))
    {
      var key := keys[i];
      if !ValidKey(key) {
        return false;
      }
      if key in prevKeys {
        return false;
      }
      prevKeys := prevKeys + {key};
      var value := m[key];
      if value.Document? && !Validates(value.fields) {
        return false;
      }
    }
    return true;
  }

  /** A `bufio.Reader`: the bytes not read yet. */
  class Reader {
    var rest: bytes

    constructor (data: bytes)
      ensures rest == data
    {
      rest := data;
    }

    /** `io.ReadFull`; the error leaves the reader as it was. */
    method ReadFull(n: nat) returns (r: Result<bytes, DecodeError>)
      modifies this
      ensures match Bson.ReadFull(old(rest), n)
              case Success((s, after)) => r == Success(s) && rest == after
              case Failure(e) => r == Failure(e) && rest == old(rest)
    {
      if |rest| < n {
        return Failure(UnexpectedEof);
      }
      r := Success(rest[..n]);
      rest := rest[n..];
    }

    /** The length prefix and as many bytes as it announces. */
    method ReadBody() returns (r: Result<bytes, DecodeError>)
      modifies this
      ensures match DecodeBody(old(rest))
              case Success((s, after)) => r == Success(s) && rest == after
              case Failure(e) => r == Failure(e)
    {
      var h := ReadFull(4);
      if h.Failure? {
        return h;
      }
      var l := GetInt32(h.value);
      if l < MIN_DOCUMENT_LEN || l > MAX_DOCUMENT_LEN {
        return Failure(BadLength);
      }
      r := ReadFull(l - 4);
    }

    /** `CString.ReadFrom`. */
    method ReadCString() returns (r: Result<bytes, DecodeError>)
      modifies this
      ensures match DecodeCString(old(rest))
              case Success((s, after)) => r == Success(s) && rest == after
              case Failure(e) => r == Failure(e) && rest == old(rest)
    {
      var i := 0;
      while i < |rest| && rest[i] != 0
        invariant 0 <= i <= NulAt(rest)
        invariant rest == old(rest)
      {
        i := i + 1;
      }
      if i == |rest| {
        return Failure(UnexpectedEof);
      }
      r := Success(rest[..i]);
      rest := rest[i + 1..];
    }
  }

  class Document {
    var keys: seq<bytes>
    var m: map<bytes, Value>

    constructor ()
      ensures keys == [] && m == map[]
    {
      keys, m := [], map[];
    }

    /** The document holds exactly these fields, in this order. */
    ghost predicate Holds(fs: Fields)
      reads this
    {
      keys == Keys(fs) && m == MapOf(fs)
    }

    /** `Document.ReadFrom` into a new document. */
    method ReadFrom(r: Reader) returns (err: Option<DecodeError>)
      requires keys == [] && m == map[]
      modifies this, r
      ensures match DecodeDocument(old(r.rest))
              case Success((fs, after)) => err == None && Holds(fs) && r.rest == after
              case Failure(e) => err == Some(e)
      decreases |r.rest|, 0
    {
      var body := r.ReadBody();
      if body.Failure? {
        return Some(body.error);
      }
      var bufr := new Reader(body.value);
      ghost var fs;
      err, fs := ReadElements(bufr);
      if err != None {
        return;
      }
      var ok := Validate(keys, m, fs);
      if !ok {
        return Some(BadKey);
      }
    }

    /** The element loop: appends to `keys` and fills `m` until the end mark. */
    method ReadElements(bufr: Reader) returns (err: Option<DecodeError>, ghost fs: Fields)
      requires keys == [] && m == map[]
      modifies this, bufr
      ensures match DecodeElements(old(bufr.rest))
              case Success(gs) => err == None && fs == gs && Holds(fs)
              case Failure(e) => err == Some(e)
      decreases |bufr.rest|, 1
    {
      fs := [];
      PrependNothing(DecodeElements(bufr.rest));
      while true
        invariant Holds(fs)
        invariant |bufr.rest| <= |old(bufr.rest)|
        invariant DecodeElements(old(bufr.rest)) == Prepend(fs, DecodeElements(bufr.rest))
        decreases |bufr.rest|
      {
        if bufr.rest == [] {
          return Some(UnexpectedEof), fs;
        }
        var t := bufr.rest[0];
        bufr.rest := bufr.rest[1..];
        if t == 0 {
          if bufr.rest != [] {
            return Some(BytesAfterEnd), fs;
          }
          assert fs + [] == fs;
          return None, fs;
        }
        var ename := bufr.ReadCString();
        if ename.Failure? {
          return Some(ename.error), fs;
        }
        var v := ReadValue(t, bufr);
        if v.Failure? {
          return Some(v.error), fs;
        }
        ghost var f := Field(ename.value, v.value);
        PrependOne(fs, f, DecodeElements(bufr.rest));
        HoldsOneMore(fs, f);
        keys := keys + [ename.value];
        m := m[ename.value := v.value];
        fs := fs + [f];
      }
    }
  }

  lemma HoldsOneMore(fs: Fields, f: Field)
    ensures Keys(fs + [f]) == Keys(fs) + [f.key]
    ensures MapOf(fs + [f]) == MapOf(fs)[f.key := f.value]
  {
    assert (fs + [f])[..|fs|] == fs;
  }

  /** The `switch` on the element tag. */
  method ReadValue(tag: byte, bufr: Reader) returns (r: Result<Value, DecodeError>)
    modifies bufr
    ensures match DecodeValue(tag, old(bufr.rest))
            case Success((v, after)) => r == Success(v) && bufr.rest == after
            case Failure(e) => r == Failure(e)
    decreases |bufr.rest|, 2
  {
    if tag == TAG_DOCUMENT {
      var v := new Document();
      var err := v.ReadFrom(bufr);
      if err != None {
        return Failure(err.value);
      }
      r := Success(Value.Document(FieldsOf(v.keys, v.m, DecodeDocument(old(bufr.rest)).value.0)));
    } else if tag == TAG_ARRAY {
      r := ReadArray(bufr);
    } else {
      match DecodeScalar(tag, bufr.rest)
      case Success((v, after)) => bufr.rest := after; r := Success(v);
      case Failure(e) => r := Failure(e);
    }
  }

  /** The document with these keys and values. */
  function FieldsOf(keys: seq<bytes>, m: map<bytes, Value>, ghost fs: Fields): (gs: Fields)
    requires keys == Keys(fs) && m == MapOf(fs) && DistinctKeys(fs)
    ensures gs == fs
  {
    MapCountsDistinctKeys(fs);
    seq(|keys|, i requires 0 <= i < |keys| => Field(keys[i], m[keys[i]]))
  }

  /** `arrayType.ReadFrom`: a document whose keys must count up from "0". */
  method ReadArray(bufr: Reader) returns (r: Result<Value, DecodeError>)
    modifies bufr
    ensures match DecodeValue(TAG_ARRAY, old(bufr.rest))
            case Success((v, after)) => r == Success(v) && bufr.rest == after
            case Failure(e) => r == Failure(e)
    decreases |bufr.rest|, 1
  {
    var doc := new Document();
    var err := doc.ReadFrom(bufr);
    if err != None {
      return Failure(err.value);
    }
    ghost var fs := DecodeDocument(old(bufr.rest)).value.0;
    MapCountsDistinctKeys(fs);
    var ta: seq<Value> := [];
    var i := 0;
    while i < |doc.m|
      invariant 0 <= i <= |fs| && |ta| == i
      invariant forall j :: 0 <= j < i ==> fs[j].key == Digits(j) && ta[j] == fs[j].value
    {
      if doc.keys[i] != Digits(i) {
        return Failure(BadKey);
      }
      ta := ta + [doc.m[Digits(i)]];
      i := i + 1;
    }
    assert ta == FieldValues(fs);
    r := Success(Array(ta));
  }

  // ----------------------------------------------------------------- writing

  /** What a document holds can be converted: nested documents are valid, in arrays too. */
  predicate HoldsValid(fs: Fields)
  {
    forall i :: 0 <= i < |fs| ==> WellFormed(fs[i].value)
  }

  /**
   `Document.MarshalBinary`: one pass over the keys, then the length and the end mark.  A nested
   document that `ConvertDocument` refuses, at any depth, is an error.
   */
  method MarshalBinary(keys: seq<bytes>, m: map<bytes, Value>, ghost fs: Fields) returns (res: Option<bytes>)
    requires keys == Keys(fs) && m == MapOf(fs) && DistinctKeys(fs)
    ensures res == if HoldsValid(fs) then Some(EncodeDocument(fs)) else None
  {
    MapCountsDistinctKeys(fs);
    var elist: bytes := [];
    for i := 0 to |keys|
      invariant elist == EncodeFields(fs[..i])
      invariant forall j :: 0 <= j < i ==> WellFormed(fs[j].value)
    {
      var elV := m[keys[i]];
      if !WellFormed(elV) {
        return None;
      }
      elist := elist + EncodeElement(keys[i], elV);
      assert fs[..i + 1] == fs[..i] + [fs[i]];
      EncodeFieldsConcat(fs[..i], [fs[i]]);
      EncodeOne(fs[i]);
    }
    assert fs[..|fs|] == fs;
    res := Some(PutInt32(|elist| + 5) + elist + [0]);
  }
}
