/** A document's inferred schema decodes what the document was stored as. */
module TjsonRoundTrip {
  import opened Bytes
  import opened Text
  import opened Values
  import opened Doubles
  import opened Wrappers
  import opened Tjson
  import opened SchemaEquality
  import Fjson
  import Stored = FjsonRoundTrip

  // ---------------------------------------------------------------- scalars

  lemma BinaryObject(c: Codecs, m: map<bytes, Json>)
    requires m.Keys == {Fjson.B, Fjson.S}
    ensures Unmarshal(c, Fjson.JObject(m), BINARY_SCHEMA) == Lift(Fjson.UnmarshalBinary(m))
  {
    assert Fjson.K !in m.Keys && Fjson.B in m.Keys;
  }

  lemma RegexObject(c: Codecs, m: map<bytes, Json>)
    requires m.Keys == {Fjson.R, Fjson.OPT}
    ensures Unmarshal(c, Fjson.JObject(m), REGEX_SCHEMA) == Lift(Fjson.UnmarshalRegex(m))
  {
    assert Fjson.K !in m.Keys && Fjson.B !in m.Keys && Fjson.R in m.Keys;
  }

  lemma IntRoundTrip(i: int, lo: int, hi: int)
    requires lo <= i < hi
    ensures UnmarshalInt(Fjson.JNumber(Decimal(i)), lo, hi) == Success(i)
  {
    DecimalRoundTrip(i);
  }

  lemma ObjectsRoundTrip(c: Codecs, v: Value)
    requires v.Binary? || v.Regex?
    ensures Unmarshal(c, MarshalScalar(c, v).value, ValueSchema(v).value) == Success(Stored.Normal(v))
  {
    var m := MarshalScalar(c, v).value.members;
    if v.Binary? {
      assert m.Keys == {Fjson.B, Fjson.S};
      BinaryObject(c, m);
      Stored.BinaryRoundTrip(v.subtype, v.data);
    } else {
      assert m.Keys == {Fjson.R, Fjson.OPT};
      RegexObject(c, m);
      Stored.RegexRoundTrip(v.pattern, v.options);
    }
  }

  lemma IntegersRoundTrip(c: Codecs, v: Value)
    requires v.Int32? || v.Int64?
    ensures Unmarshal(c, MarshalScalar(c, v).value, ValueSchema(v).value) == Success(Stored.Normal(v))
  {
    if v.Int32? {
      IntRoundTrip(v.i32, -0x8000_0000, 0x8000_0000);
    } else {
      IntRoundTrip(v.i64, -0x8000_0000_0000_0000, 0x8000_0000_0000_0000);
    }
  }

  lemma ScalarRoundTrip(c: Codecs, v: Value)
    requires c.Exact() && !v.Document? && ValueSchema(v).Success? && MarshalScalar(c, v).Success?
    ensures Unmarshal(c, MarshalScalar(c, v).value, ValueSchema(v).value) == Success(Stored.Normal(v))
  {
    if v.Binary? || v.Regex? {
      ObjectsRoundTrip(c, v);
    } else if v.Int32? || v.Int64? {
      IntegersRoundTrip(c, v);
    } else if v.ObjectId? {
      Base64RoundTrip(v.oid);
    }
  }

  // ------------------------------------------------------- members and keys

  lemma {:induction false} PropertiesMember(fs: Fields, k: bytes)
    requires PropertiesOf(fs).Success?
    ensures k in PropertiesOf(fs).value <==> Has(fs, k)
  {
    if fs == [] {
    } else {
      PropertiesMember(fs[1..], k);
      assert Has(fs, k) <==> fs[0].key == k || Has(fs[1..], k);
    }
  }

  lemma {:induction false} PropertiesAt(fs: Fields, i: nat)
    requires PropertiesOf(fs).Success? && DistinctKeys(fs) && i < |fs|
    ensures ValueSchema(fs[i].value).Success?
    ensures fs[i].key in PropertiesOf(fs).value
    ensures PropertiesOf(fs).value[fs[i].key] == ValueSchema(fs[i].value).value
  {
    PropertiesMember(fs[1..], fs[i].key);
    if i == 0 {
      assert !Has(fs[1..], fs[0].key);
    } else {
      assert fs[1..][i - 1] == fs[i];
      PropertiesAt(fs[1..], i - 1);
    }
  }

  lemma {:induction false} MembersMember(c: Codecs, fs: Fields, k: bytes)
    requires MarshalFields(c, fs).Success? && forall i :: 0 <= i < |fs| ==> ValidKey(fs[i].key)
    ensures k in MarshalFields(c, fs).value <==> Has(fs, k)
  {
    if fs == [] {
    } else {
      CoerceFixesExactlyValid(fs[0].key);
      MembersMember(c, fs[1..], k);
      assert Has(fs, k) <==> fs[0].key == k || Has(fs[1..], k);
    }
  }

  lemma {:induction false} MembersAt(c: Codecs, fs: Fields, i: nat)
    requires MarshalFields(c, fs).Success? && WellFormed(Document(fs)) && i < |fs|
    ensures Marshal(c, fs[i].value).Success?
    ensures fs[i].key in MarshalFields(c, fs).value
    ensures MarshalFields(c, fs).value[fs[i].key] == Marshal(c, fs[i].value).value
  {
    CoerceFixesExactlyValid(fs[0].key);
    MembersMember(c, fs[1..], fs[i].key);
    if i == 0 {
      assert !Has(fs[1..], fs[0].key);
    } else {
      assert fs[1..][i - 1] == fs[i];
      Stored.TailWellFormed(fs);
      MembersAt(c, fs[1..], i - 1);
    }
  }

  lemma {:induction false} MembersCount(c: Codecs, fs: Fields)
    requires MarshalFields(c, fs).Success? && WellFormed(Document(fs))
    ensures |MarshalFields(c, fs).value| == |fs| && Fjson.K !in MarshalFields(c, fs).value
  {
    MembersMember(c, fs, Fjson.K);
    if fs == [] {
    } else {
      var tail := MarshalFields(c, fs[1..]).value;
      Stored.TailWellFormed(fs);
      MembersCount(c, fs[1..]);
      MembersMember(c, fs[1..], fs[0].key);
      CoerceFixesExactlyValid(fs[0].key);
      assert !Has(fs[1..], fs[0].key);
      var m := MarshalFields(c, fs).value;
      assert m.Keys == {fs[0].key} + tail.Keys;
      assert |m| == |m.Keys| && |tail| == |tail.Keys|;
    }
  }

  lemma DocumentMembers(c: Codecs, fs: Fields)
    requires MarshalFields(c, fs).Success? && WellFormed(Document(fs))
    ensures |MarshalFields(c, fs).value[Fjson.K := Fjson.MarshalKeys(fs)]| == |fs| + 1
  {
    var m := MarshalFields(c, fs).value;
    var n := m[Fjson.K := Fjson.MarshalKeys(fs)];
    MembersCount(c, fs);
    assert n.Keys == m.Keys + {Fjson.K};
    assert |n| == |n.Keys| && |m| == |m.Keys|;
  }

  // ----------------------------------------------------------- the round trip

  /** Under its inferred schema, a value that was marshalled comes back in its normal form. */
  lemma {:induction false} ValueRoundTrip(c: Codecs, v: Value)
    requires c.Exact() && WellFormed(v) && ValueSchema(v).Success? && Marshal(c, v).Success?
    ensures Unmarshal(c, Marshal(c, v).value, ValueSchema(v).value) == Success(Stored.Normal(v))
    decreases v, 1
  {
    if v.Document? {
      SubdocumentRoundTrip(c, v.fields, []);
    } else {
      ScalarRoundTrip(c, v);
    }
  }

  lemma {:induction false} SubdocumentRoundTrip(c: Codecs, fs: Fields, primaryKey: seq<bytes>)
    requires c.Exact() && WellFormed(Document(fs)) && SubdocumentSchema(fs, primaryKey).Success?
    requires Marshal(c, Document(fs)).Success?
    ensures Unmarshal(c, Marshal(c, Document(fs)).value, SubdocumentSchema(fs, primaryKey).value)
         == Success(Stored.Normal(Document(fs)))
    decreases fs, 2
  {
    var j, s := Marshal(c, Document(fs)).value, SubdocumentSchema(fs, primaryKey).value;
    assert Described(c, fs, j, s);
    DocumentRoundTrip(c, fs, j, s);
    assert Unmarshal(c, j, s) == UnmarshalObject(c, j, s) == UnmarshalDocument(c, j, s);
  }

  lemma {:induction false} DocumentRoundTrip(c: Codecs, fs: Fields, j: Json, s: Schema)
    requires Described(c, fs, j, s)
    ensures UnmarshalDocument(c, j, s) == Success(Stored.Normal(Document(fs)))
    decreases fs, 1, |fs| + 1
  {
    DocumentMembers(c, fs);
    Stored.KeysRoundTrip(fs);
    assert KeyList(j.members[Fjson.K]) == Success(Keys(fs));
    FieldsRoundTrip(c, fs, j, s, 0);
    assert Keys(fs)[0..] == Keys(fs);
    assert Stored.SetSoFar(fs, 0) == [];
  }

  ghost predicate Described(c: Codecs, fs: Fields, j: Json, s: Schema)
  {
    && c.Exact() && WellFormed(Document(fs))
    && MarshalFields(c, fs).Success? && PropertiesOf(fs).Success?
    && j == Fjson.JObject(MarshalFields(c, fs).value[Fjson.K := Fjson.MarshalKeys(fs)])
    && s.properties == map[Fjson.K := KEYS_SCHEMA] + PropertiesOf(fs).value
  }

  /** One turn of the loop: the member of the next key is decoded under its schema and set. */
  lemma {:induction false} FieldStep(c: Codecs, fs: Fields, j: Json, s: Schema, ks: seq<bytes>, acc: Fields, i: nat)
    requires Described(c, fs, j, s) && i < |fs| && ks != [] && ks[0] == fs[i].key
    ensures UnmarshalFields(c, j, s, ks, acc)
         == UnmarshalFields(c, j, s, ks[1..], SetField(acc, fs[i].key, Stored.Normal(fs[i].value)))
    decreases fs, 0, 0
  {
    var f := fs[i];
    assert ValidKey(f.key) && WellFormed(f.value);
    MembersAt(c, fs, i);
    PropertiesAt(fs, i);
    ValueRoundTrip(c, f.value);
    Stored.NormalIsWellFormed(f.value);
    if f.value.Document? { WellFormedValidates(Stored.Normal(f.value).fields); }
  }

  lemma {:induction false} FieldsRoundTrip(c: Codecs, fs: Fields, j: Json, s: Schema, i: nat)
    requires Described(c, fs, j, s) && i <= |fs|
    ensures UnmarshalFields(c, j, s, Keys(fs)[i..], Stored.SetSoFar(fs, i)) == Success(IdFirst(Stored.NormalFields(fs)))
    decreases fs, 1, |fs| - i
  {
    if i == |fs| {
      assert Keys(fs)[i..] == [] && Stored.NormalFields(fs)[..i] == Stored.NormalFields(fs);
    } else {
      FieldStep(c, fs, j, s, Keys(fs)[i..], Stored.SetSoFar(fs, i), i);
      assert Keys(fs)[i..][1..] == Keys(fs)[i + 1..];
      Stored.SetOneMore(fs, i);
      FieldsRoundTrip(c, fs, j, s, i + 1);
    }
  }

  /** What `DocumentSchema` infers decodes what `Marshal` wrote. */
  lemma InferredSchemaDecodes(c: Codecs, fs: Fields)
    requires c.Exact() && WellFormed(Document(fs)) && DocumentSchema(fs).Success? && Marshal(c, Document(fs)).Success?
    ensures Unmarshal(c, Marshal(c, Document(fs)).value, DocumentSchema(fs).value)
         == Success(Stored.Normal(Document(fs)))
  {
    SubdocumentRoundTrip(c, fs, [ID_KEY]);
  }

  // ---------------------------------------------------------- when it applies

  /** Finite doubles, and dates that have a text. */
  ghost predicate Representable(c: Codecs, v: Value)
  {
    match v
    case Document(fs) => forall i :: 0 <= i < |fs| ==> Representable(c, fs[i].value)
    case Double(bits) => IsFinite(bits)
    case DateTime(ms) => c.date(ms).Some?
    case _ => true
  }

  /** A value that has a schema can be marshalled exactly when its doubles and dates have a text. */
  lemma {:induction false} MarshalsExactly(c: Codecs, v: Value)
    requires ValueSchema(v).Success?
    ensures Marshal(c, v).Success? <==> Representable(c, v)
    decreases v, 1
  {
    if v.Document? {
      FieldsMarshalExactly(c, v.fields);
    }
  }

  lemma {:induction false} FieldsMarshalExactly(c: Codecs, fs: Fields)
    requires PropertiesOf(fs).Success?
    ensures MarshalFields(c, fs).Success? <==> forall i :: 0 <= i < |fs| ==> Representable(c, fs[i].value)
    decreases fs, 0
  {
    if fs == [] {
    } else {
      MarshalsExactly(c, fs[0].value);
      FieldsMarshalExactly(c, fs[1..]);
      assert forall i :: 1 <= i < |fs| ==> fs[i] == fs[1..][i - 1];
      assert forall i :: 0 <= i < |fs| - 1 ==> fs[1..][i] == fs[i + 1];
    }
  }

  /** The values that have a schema: no arrays, nulls or timestamps at any depth. */
  ghost predicate Describable(v: Value)
  {
    match v
    case Document(fs) => forall i :: 0 <= i < |fs| ==> Describable(fs[i].value)
    case Array(_) => false
    case Null => false
    case Timestamp(_) => false
    case _ => true
  }

  lemma {:induction false} HasSchemaExactly(v: Value)
    ensures ValueSchema(v).Success? <==> Describable(v)
    decreases v, 1
  {
    if v.Document? {
      FieldsHaveSchemaExactly(v.fields);
    }
  }

  lemma {:induction false} FieldsHaveSchemaExactly(fs: Fields)
    ensures PropertiesOf(fs).Success? <==> forall i :: 0 <= i < |fs| ==> Describable(fs[i].value)
    decreases fs, 0
  {
    if fs == [] {
    } else {
      HasSchemaExactly(fs[0].value);
      FieldsHaveSchemaExactly(fs[1..]);
      assert forall i :: 1 <= i < |fs| ==> fs[i] == fs[1..][i - 1];
      assert forall i :: 0 <= i < |fs| - 1 ==> fs[1..][i] == fs[i + 1];
    }
  }

  /** Inferred schemas are well-formed, so they can be compared. */
  lemma {:induction false} InferredIsWellFormed(v: Value)
    requires ValueSchema(v).Success?
    ensures WellFormedSchema(ValueSchema(v).value)
    decreases v, 1
  {
    if v.Document? {
      PropertiesWellFormed(v.fields);
    }
  }

  lemma {:induction false} PropertiesWellFormed(fs: Fields)
    requires PropertiesOf(fs).Success?
    ensures forall k :: k in PropertiesOf(fs).value ==> WellFormedSchema(PropertiesOf(fs).value[k])
    decreases fs, 0
  {
    if fs == [] {
    } else {
      InferredIsWellFormed(fs[0].value);
      PropertiesWellFormed(fs[1..]);
    }
  }

  /** The schema of a document: its own key is "_id", and it describes every field and the list of keys. */
  lemma InferredSchema(fs: Fields)
    requires WellFormed(Document(fs)) && DocumentSchema(fs).Success?
    ensures var s := DocumentSchema(fs).value;
            && s.kind == ObjectType && s.primaryKey == [Ascii("_id")]
            && (forall k :: k in s.properties <==> k == Ascii("$k") || Has(fs, k))
            && s.properties[Ascii("$k")].kind == ArrayType
            && s.properties[Ascii("$k")].items == Some(Simple(StringType, EmptyFormat))
            && forall i :: 0 <= i < |fs| ==> Success(s.properties[fs[i].key]) == ValueSchema(fs[i].value)
  {
    var s := DocumentSchema(fs).value;
    assert Fjson.K == Ascii("$k") && ID_KEY == Ascii("_id");
    forall k
      ensures k in s.properties <==> k == Fjson.K || Has(fs, k)
    {
      PropertiesMember(fs, k);
    }
    assert !ValidKey(Fjson.K);
    PropertiesMember(fs, Fjson.K);
    assert !Has(fs, Fjson.K);
    forall i | 0 <= i < |fs|
      ensures Success(s.properties[fs[i].key]) == ValueSchema(fs[i].value)
    {
      PropertiesAt(fs, i);
    }
  }

  /** The schemas of scalars. */
  lemma ScalarSchemas(v: Value)
    requires ValueSchema(v).Success? && !v.Document?
    ensures var s := ValueSchema(v).value;
            match v
            case Double(_) => s == Simple(Number, EmptyFormat)
            case String(_) => s == Simple(StringType, EmptyFormat)
            case ObjectId(_) => s == Simple(StringType, ByteFormat)
            case Bool(_) => s == Simple(Boolean, EmptyFormat)
            case DateTime(_) => s == Simple(StringType, DateTimeFormat)
            case Int32(_) => s == Simple(Integer, Int32Format)
            case Int64(_) => s == Simple(Integer, EmptyFormat)
            case Binary(_, _) =>
              && s.kind == ObjectType && s.properties.Keys == {Ascii("$b"), Ascii("s")}
              && s.properties[Ascii("$b")] == Simple(StringType, ByteFormat)
              && s.properties[Ascii("s")] == Simple(Integer, Int32Format)
            case Regex(_, _) =>
              && s.kind == ObjectType && s.properties.Keys == {Ascii("$r"), Ascii("o")}
              && s.properties[Ascii("$r")] == s.properties[Ascii("o")] == Simple(StringType, EmptyFormat)
            case _ => false
  {
    assert Fjson.B == Ascii("$b") && Fjson.S == Ascii("s") && Fjson.R == Ascii("$r") && Fjson.OPT == Ascii("o");
  }

  /** A bare null makes the decoder of every scalar panic, and is refused for an object. */
  lemma NullPanics(c: Codecs, s: Schema)
    requires s.kind in {Boolean, Number, Integer, StringType} && s.format == EmptyFormat
    ensures Unmarshal(c, Fjson.JNull, s) == Failure(Panicked)
    ensures Unmarshal(c, Fjson.JNull, s.(kind := ObjectType)) == Failure(UnhandledMap)
  {
  }
}
