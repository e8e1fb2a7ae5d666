/** What storing a value as FJSON and loading it again does to it, for every value. */
module FjsonRoundTrip {
  import opened Bytes
  import opened Text
  import opened Values
  import opened Doubles
  import opened Wrappers
  import opened Fjson

  /** "_id" first at every level, one NaN, and U+FFFD for every byte that is not UTF-8. */
  function Normal(v: Value): Value
    decreases v, 1
  {
    match v
    case Document(fs) => Document(IdFirst(NormalFields(fs)))
    case Array(vs) => Array(NormalElems(vs))
    case Double(bits) => if IsNaN(bits) then Double(CANONICAL_NAN) else v
    case String(s) => String(Coerce(s))
    case Regex(p, o) => Regex(Coerce(p), Coerce(o))
    case _ => v
  }

  function NormalFields(fs: Fields): (gs: Fields)
    ensures |gs| == |fs|
    ensures forall i :: 0 <= i < |fs| ==> gs[i].key == fs[i].key
    ensures forall i :: 0 <= i < |fs| ==> gs[i].value == Normal(fs[i].value)
    decreases fs, 0
  {
    if fs == [] then [] else [Field(fs[0].key, Normal(fs[0].value))] + NormalFields(fs[1..])
  }

  function NormalElems(vs: seq<Value>): (ws: seq<Value>)
    ensures |ws| == |vs|
    ensures forall i :: 0 <= i < |vs| ==> ws[i] == Normal(vs[i])
    decreases vs, 0
  {
    if vs == [] then [] else [Normal(vs[0])] + NormalElems(vs[1..])
  }

  // ----------------------------------------------------------------- scalars

  lemma DoubleRoundTrip(ft: FloatText, bits: uint64)
    requires ft.Exact()
    ensures UnmarshalDouble(ft, MarshalDouble(ft, bits)) == Success(Normal(Double(bits)))
  {
    Infinities(bits);
    CanonicalNaN();
    assert !IsFinite(bits) ==> IsInf(bits) || IsNaN(bits);
    assert !IsNaN(NEGATIVE_ZERO) && !IsNaN(POSITIVE_INFINITY) && !IsNaN(NEGATIVE_INFINITY);
  }

  lemma TimestampRoundTrip(ts: int64)
    ensures UnmarshalTimestamp(map[T := JString(Digits(ts % 0x1_0000_0000_0000_0000))]) == Success(Timestamp(ts))
  {
    var n := ts % 0x1_0000_0000_0000_0000;
    DigitsRoundTrip(n);
    Truncation(ts);
    assert n == if ts >= 0 then ts else ts + 0x1_0000_0000_0000_0000;
    assert ToInt64(n) == ts;
  }

  lemma BinaryRoundTrip(subtype: byte, data: bytes)
    ensures UnmarshalBinary(map[B := JString(Base64Encode(data)), S := JNumber(Decimal(subtype as int))])
         == Success(Binary(subtype, data))
  {
    Base64RoundTrip(data);
    DecimalRoundTrip(subtype as int);
  }

  lemma ObjectIdRoundTrip(oid: ObjectID)
    ensures UnmarshalObjectId(map[O := JString(HexEncode(oid))]) == Success(ObjectId(oid))
  {
    HexRoundTrip(oid);
  }

  lemma DateTimeRoundTrip(ms: int64)
    ensures UnmarshalDateTime(map[D := JNumber(Decimal(ms))]) == Success(DateTime(ms))
  {
    DecimalRoundTrip(ms);
  }

  lemma Int64RoundTrip(i: int64)
    ensures UnmarshalInt64(map[L := JString(Decimal(i))]) == Success(Int64(i))
  {
    DecimalRoundTrip(i);
  }

  lemma RegexRoundTrip(p: bytes, o: bytes)
    ensures UnmarshalRegex(map[R := MarshalString(p), OPT := MarshalString(o)]) == Success(Normal(Regex(p, o)))
  {
  }

  /** The tags are distinct, so each tagged scalar is dispatched to its own decoder. */
  lemma Dispatch(ft: FloatText, m: map<bytes, Json>, tag: bytes)
    requires tag in {F, B, O, D, R, T, L}
    requires Tagged(m, tag) && m.Keys <= {tag, S, OPT}
    ensures Unmarshal(ft, JObject(m)) == UnmarshalTagged(ft, m)
    ensures UnmarshalTagged(ft, m) ==
      if tag == F then if m.Keys <= {F} then UnmarshalDouble(ft, m[F]) else Failure(BadJson)
      else if tag == B then UnmarshalBinary(m)
      else if tag == O then UnmarshalObjectId(m)
      else if tag == D then UnmarshalDateTime(m)
      else if tag == R then UnmarshalRegex(m)
      else if tag == T then UnmarshalTimestamp(m)
      else UnmarshalInt64(m)
  {
    assert forall t :: t in {K, F, B, O, D, R, T, L} && t != tag ==> !Tagged(m, t);
  }

  lemma ScalarRoundTrip(ft: FloatText, v: Value)
    requires ft.Exact() && !v.Document? && !v.Array?
    ensures Unmarshal(ft, MarshalScalar(ft, v)) == Success(Normal(v))
  {
    if MarshalScalar(ft, v).JObject? { TaggedRoundTrip(ft, v); }
  }

  lemma TaggedRoundTrip(ft: FloatText, v: Value)
    requires ft.Exact() && !v.Document? && !v.Array? && MarshalScalar(ft, v).JObject?
    ensures Unmarshal(ft, MarshalScalar(ft, v)) == Success(Normal(v))
  {
    var m := MarshalScalar(ft, v).members;
    var tag := ScalarTag(v);
    Dispatch(ft, m, tag);
    match v
    case Double(bits) => DoubleRoundTrip(ft, bits);
    case Binary(subtype, data) => BinaryRoundTrip(subtype, data);
    case ObjectId(oid) => ObjectIdRoundTrip(oid);
    case DateTime(ms) => DateTimeRoundTrip(ms);
    case Regex(p, o) => RegexRoundTrip(p, o);
    case Timestamp(ts) => TimestampRoundTrip(ts);
    case Int64(i) => Int64RoundTrip(i);
  }

  ghost function ScalarTag(v: Value): bytes
  {
    match v
    case Double(_) => F
    case Binary(_, _) => B
    case ObjectId(_) => O
    case DateTime(_) => D
    case Regex(_, _) => R
    case Timestamp(_) => T
    case _ => L
  }

  // --------------------------------------------------------------- documents

  lemma {:induction false} NormalIsWellFormed(v: Value)
    requires WellFormed(v)
    ensures WellFormed(Normal(v))
  {
    match v
    case Document(fs) =>
      var gs := NormalFields(fs);
      forall i | 0 <= i < |fs|
        ensures WellFormed(gs[i].value)
      {
        NormalIsWellFormed(fs[i].value);
      }
      IdFirstWellFormed(gs);
    case Array(vs) =>
      forall i | 0 <= i < |vs|
        ensures WellFormed(NormalElems(vs)[i])
      {
        NormalIsWellFormed(vs[i]);
      }
    case _ =>
  }

  lemma IdFirstWellFormed(fs: Fields)
    requires WellFormed(Document(fs))
    ensures WellFormed(Document(IdFirst(fs)))
  {
    var i := IndexOf(fs, ID_KEY);
    var gs := IdFirst(fs);
    assert forall j :: 0 <= j < |gs| ==>
      gs[j] == fs[if i == |fs| || j > i then j else if j == 0 then i else j - 1];
  }

  lemma IdFirstMembers(fs: Fields, key: bytes)
    requires forall i :: 0 <= i < |fs| ==> fs[i].key != key
    ensures |IdFirst(fs)| == |fs|
    ensures IndexOf(IdFirst(fs), key) == |fs|
  {
    var gs := IdFirst(fs);
    assert forall j :: 0 <= j < |gs| ==> gs[j] in fs;
    assert forall j :: 0 <= j < |gs| ==> gs[j].key != key;
    IndexIsFirst(gs, key, |fs|);
  }

  lemma SetIdOnNew(fs: Fields, value: Value)
    requires forall i :: 0 <= i < |fs| ==> fs[i].key != ID_KEY
    ensures SetField(IdFirst(fs), ID_KEY, value) == IdFirst(fs + [Field(ID_KEY, value)])
  {
    var gs := fs + [Field(ID_KEY, value)];
    IndexIsFirst(fs, ID_KEY, |fs|);
    IndexIsFirst(gs, ID_KEY, |fs|);
    assert gs[..|fs|] == fs && gs[|fs| + 1..] == [];
  }

  /** Setting a new key on a document with "_id" first keeps it so. */
  lemma SetFieldIsIdFirst(fs: Fields, key: bytes, value: Value)
    requires forall i :: 0 <= i < |fs| ==> fs[i].key != key
    ensures SetField(IdFirst(fs), key, value) == IdFirst(fs + [Field(key, value)])
  {
    if key == ID_KEY {
      SetIdOnNew(fs, value);
    } else {
      var f := Field(key, value);
      var gs := fs + [f];
      var i := IndexOf(fs, ID_KEY);
      IdFirstMembers(fs, key);
      assert SetField(IdFirst(fs), key, value) == IdFirst(fs) + [f];
      IndexIsFirst(gs, ID_KEY, if i < |fs| then i else |gs|);
      if i < |fs| {
        assert gs[..i] == fs[..i] && gs[i + 1..] == fs[i + 1..] + [f];
      }
    }
  }

  lemma {:induction false} MarshalFieldsMember(ft: FloatText, fs: Fields, k: bytes)
    requires forall i :: 0 <= i < |fs| ==> ValidKey(fs[i].key)
    ensures k in MarshalFields(ft, fs) <==> Has(fs, k)
  {
    if fs == [] {
    } else {
      CoerceFixesExactlyValid(fs[0].key);
      MarshalFieldsMember(ft, fs[1..], k);
      assert Has(fs, k) <==> fs[0].key == k || Has(fs[1..], k);
    }
  }

  /** Under distinct keys every member is the marshalled field of that key. */
  lemma {:induction false} MarshalFieldsAt(ft: FloatText, fs: Fields, i: nat)
    requires WellFormed(Document(fs)) && i < |fs|
    ensures fs[i].key in MarshalFields(ft, fs)
    ensures MarshalFields(ft, fs)[fs[i].key] == Marshal(ft, fs[i].value)
  {
    CoerceFixesExactlyValid(fs[0].key);
    MarshalFieldsMember(ft, fs[1..], fs[i].key);
    if i == 0 {
      assert !Has(fs[1..], fs[0].key);
    } else {
      assert fs[1..][i - 1] == fs[i];
      TailWellFormed(fs);
      MarshalFieldsAt(ft, fs[1..], i - 1);
    }
  }

  lemma TailWellFormed(fs: Fields)
    requires WellFormed(Document(fs)) && fs != []
    ensures WellFormed(Document(fs[1..]))
  {
  }

  lemma {:induction false} MarshalFieldsCount(ft: FloatText, fs: Fields)
    requires WellFormed(Document(fs))
    ensures |MarshalFields(ft, fs)| == |fs|
    ensures K !in MarshalFields(ft, fs)
  {
    MarshalFieldsMember(ft, fs, K);
    if fs == [] {
    } else {
      var tail := MarshalFields(ft, fs[1..]);
      TailWellFormed(fs);
      MarshalFieldsCount(ft, fs[1..]);
      MarshalFieldsMember(ft, fs[1..], fs[0].key);
      CoerceFixesExactlyValid(fs[0].key);
      assert !Has(fs[1..], fs[0].key);
      var m := MarshalFields(ft, fs);
      assert m.Keys == {fs[0].key} + tail.Keys;
      assert |m| == |m.Keys| && |tail| == |tail.Keys|;
    }
  }

  lemma {:induction false} StringItemsOf(items: seq<Json>, ks: seq<bytes>)
    requires |items| == |ks| && forall i :: 0 <= i < |ks| ==> items[i] == JString(ks[i])
    ensures StringItems(items) == Success(ks)
  {
    if items == [] {
    } else {
      StringItemsOf(items[1..], ks[1..]);
      assert [ks[0]] + ks[1..] == ks;
    }
  }

  lemma KeysRoundTrip(fs: Fields)
    requires forall i :: 0 <= i < |fs| ==> ValidKey(fs[i].key)
    ensures StringList(MarshalKeys(fs)) == Success(Keys(fs))
  {
    forall i | 0 <= i < |fs|
      ensures MarshalKeys(fs).items[i] == JString(Keys(fs)[i])
    {
      CoerceFixesExactlyValid(fs[i].key);
    }
    StringItemsOf(MarshalKeys(fs).items, Keys(fs));
  }

  // ---------------------------------------------------------- the round trip

  /** Marshalling any value and unmarshalling the result gives its normal form. */
  lemma {:induction false} RoundTrip(ft: FloatText, v: Value)
    requires ft.Exact() && WellFormed(v)
    ensures Unmarshal(ft, Marshal(ft, v)) == Success(Normal(v))
    decreases v, 1
  {
    match v
    case Document(fs) => DocumentRoundTrip(ft, fs);
    case Array(vs) => ElemsRoundTrip(ft, vs);
    case _ => ScalarRoundTrip(ft, v);
  }

  lemma {:induction false} ElemsRoundTrip(ft: FloatText, vs: seq<Value>)
    requires ft.Exact() && forall i :: 0 <= i < |vs| ==> WellFormed(vs[i])
    ensures UnmarshalElems(ft, MarshalElems(ft, vs)) == Success(NormalElems(vs))
    decreases vs, 0
  {
    if vs == [] {
    } else {
      RoundTrip(ft, vs[0]);
      ElemsRoundTrip(ft, vs[1..]);
      assert MarshalElems(ft, vs)[1..] == MarshalElems(ft, vs[1..]);
    }
  }

  lemma MarshalledCount(ft: FloatText, fs: Fields)
    requires WellFormed(Document(fs))
    ensures |MarshalFields(ft, fs)[K := MarshalKeys(fs)]| == |fs| + 1
  {
    var m := MarshalFields(ft, fs);
    var n := m[K := MarshalKeys(fs)];
    MarshalFieldsCount(ft, fs);
    assert n.Keys == m.Keys + {K};
    assert |n| == |n.Keys| && |m| == |m.Keys|;
  }

  lemma {:induction false} DocumentRoundTrip(ft: FloatText, fs: Fields)
    requires ft.Exact() && WellFormed(Document(fs))
    ensures Unmarshal(ft, Marshal(ft, Document(fs))) == Success(Normal(Document(fs)))
    decreases fs, 2
  {
    var j := Marshal(ft, Document(fs));
    DecodedDocument(ft, fs, j);
    assert Unmarshal(ft, j) == UnmarshalDocument(ft, j);
  }

  lemma {:induction false} DecodedDocument(ft: FloatText, fs: Fields, j: Json)
    requires ft.Exact() && WellFormed(Document(fs))
    requires j == JObject(MarshalFields(ft, fs)[K := MarshalKeys(fs)])
    ensures UnmarshalDocument(ft, j) == Success(Normal(Document(fs)))
    decreases fs, 1, |fs| + 1
  {
    MarshalledCount(ft, fs);
    KeysRoundTrip(fs);
    FieldsRoundTrip(ft, fs, j, 0);
    assert Keys(fs)[0..] == Keys(fs);
    assert SetSoFar(fs, 0) == [];
  }

  /** The document after the first `i` fields have been set. */
  ghost function SetSoFar(fs: Fields, i: nat): Fields
    requires i <= |fs|
  {
    IdFirst(NormalFields(fs)[..i])
  }

  lemma SetOneMore(fs: Fields, i: nat)
    requires i < |fs| && DistinctKeys(fs)
    ensures SetField(SetSoFar(fs, i), fs[i].key, Normal(fs[i].value)) == SetSoFar(fs, i + 1)
  {
    var gs := NormalFields(fs);
    assert DistinctKeys(gs);
    SetNext(gs, i);
  }

  lemma SetNext(gs: Fields, i: nat)
    requires i < |gs| && DistinctKeys(gs)
    ensures SetField(IdFirst(gs[..i]), gs[i].key, gs[i].value) == IdFirst(gs[..i + 1])
  {
    SetFieldIsIdFirst(gs[..i], gs[i].key, gs[i].value);
    assert gs[..i + 1] == gs[..i] + [gs[i]];
    assert gs[i] == Field(gs[i].key, gs[i].value);
  }

  /** One turn of the loop: the member of the next key is decoded and set. */
  lemma {:induction false} FieldStep(ft: FloatText, fs: Fields, j: Json, ks: seq<bytes>, acc: Fields, i: nat)
    requires ft.Exact() && WellFormed(Document(fs)) && i < |fs|
    requires j == JObject(MarshalFields(ft, fs)[K := MarshalKeys(fs)])
    requires ks != [] && ks[0] == fs[i].key
    ensures UnmarshalFields(ft, j, ks, acc)
         == UnmarshalFields(ft, j, ks[1..], SetField(acc, fs[i].key, Normal(fs[i].value)))
    decreases fs, 0, 0
  {
    var f := fs[i];
    assert ValidKey(f.key) && WellFormed(f.value);
    MarshalFieldsAt(ft, fs, i);
    RoundTrip(ft, f.value);
    NormalIsWellFormed(f.value);
    if f.value.Document? { WellFormedValidates(Normal(f.value).fields); }
  }

  lemma {:induction false} FieldsRoundTrip(ft: FloatText, fs: Fields, j: Json, i: nat)
    requires ft.Exact() && WellFormed(Document(fs)) && i <= |fs|
    requires j == JObject(MarshalFields(ft, fs)[K := MarshalKeys(fs)])
    ensures UnmarshalFields(ft, j, Keys(fs)[i..], SetSoFar(fs, i)) == Success(IdFirst(NormalFields(fs)))
    decreases fs, 1, |fs| - i
  {
    if i == |fs| {
      assert Keys(fs)[i..] == [] && NormalFields(fs)[..i] == NormalFields(fs);
    } else {
      FieldStep(ft, fs, j, Keys(fs)[i..], SetSoFar(fs, i), i);
      assert Keys(fs)[i..][1..] == Keys(fs)[i + 1..];
      SetOneMore(fs, i);
      FieldsRoundTrip(ft, fs, j, i + 1);
    }
  }
}
