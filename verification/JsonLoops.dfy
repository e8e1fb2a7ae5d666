/** The loops that build documents, arrays and schemas while decoding or describing them. */
module JsonLoops {
  import opened Bytes
  import opened Values
  import opened Doubles
  import opened Wrappers
  import Fjson
  import Tjson

  /** `documentType.UnmarshalJSON` of FJSON: the keys of "$k" are set one after the other. */
  method UnmarshalDocument(ft: FloatText, j: Fjson.Json) returns (r: Fjson.Unmarshalled<Value>)
    requires j.JObject? && Fjson.K in j.members
    ensures r == Fjson.UnmarshalDocument(ft, j)
  {
    var keys :- Fjson.StringList(j.members[Fjson.K]);
    if |keys| + 1 != |j.members| {
      return Failure(Fjson.KeyCount);
    }
    var fields: Fields := [];
    for i := 0 to |keys|
      invariant Fjson.UnmarshalFields(ft, j, keys, []) == Fjson.UnmarshalFields(ft, j, keys[i..], fields)
    {
      assert keys[i..][0] == keys[i] && keys[i..][1..] == keys[i + 1..];
      if keys[i] !in j.members {
        return Failure(Fjson.MissingKey);
      }
      var v :- Fjson.Unmarshal(ft, j.members[keys[i]]);
      if !ValidKey(keys[i]) || (v.Document? && !Validates(v.fields)) {
        return Failure(Fjson.InvalidKey);
      }
      fields := SetField(fields, keys[i], v);
    }
    return Success(Document(fields));
  }

  /** `arrayType.UnmarshalJSON` of FJSON: the elements are appended one after the other. */
  method UnmarshalArray(ft: FloatText, items: seq<Fjson.Json>) returns (r: Fjson.Unmarshalled<seq<Value>>)
    ensures r == Fjson.UnmarshalElems(ft, items)
  {
    var elems: seq<Value> := [];
    PrependNothing(Fjson.UnmarshalElems(ft, items));
    assert items[0..] == items;
    for i := 0 to |items|
      invariant Fjson.UnmarshalElems(ft, items) == Prepend(elems, Fjson.UnmarshalElems(ft, items[i..]))
    {
      assert items[i..][0] == items[i] && items[i..][1..] == items[i + 1..];
      var v :- Fjson.Unmarshal(ft, items[i]);
      PrependOne(elems, v, Fjson.UnmarshalElems(ft, items[i + 1..]));
      elems := elems + [v];
    }
    assert elems + [] == elems;
    return Success(elems);
  }

  /** `UnmarshalJSONWithSchema` of TJSON. */
  method UnmarshalWithSchema(c: Tjson.Codecs, j: Fjson.Json, s: Tjson.Schema) returns (r: Result<Value, Tjson.Error>)
    requires j.JObject? && Fjson.K in j.members
    ensures r == Tjson.UnmarshalDocument(c, j, s)
  {
    var keys :- Tjson.KeyList(j.members[Fjson.K]);
    if |keys| + 1 != |j.members| {
      return Failure(Tjson.KeyCount);
    }
    var fields: Fields := [];
    for i := 0 to |keys|
      invariant Tjson.UnmarshalFields(c, j, s, keys, []) == Tjson.UnmarshalFields(c, j, s, keys[i..], fields)
    {
      assert keys[i..][0] == keys[i] && keys[i..][1..] == keys[i + 1..];
      if keys[i] !in j.members {
        return Failure(Tjson.MissingKey);
      }
      if keys[i] !in s.properties {
        return Failure(Tjson.NoSchema);
      }
      var v :- Tjson.Unmarshal(c, j.members[keys[i]], s.properties[keys[i]]);
      if !ValidKey(keys[i]) || (v.Document? && !Validates(v.fields)) {
        return Failure(Tjson.InvalidKey);
      }
      fields := SetField(fields, keys[i], v);
    }
    return Success(Document(fields));
  }

  /** Properties added so far, and those still to be inferred. */
  function Merged(m: map<bytes, Tjson.Schema>, r: Result<map<bytes, Tjson.Schema>, Tjson.Error>)
    : Result<map<bytes, Tjson.Schema>, Tjson.Error>
  {
    match r
    case Success(rest) => Success(m + rest)
    case Failure(e) => Failure(e)
  }

  lemma MergedOne(m: map<bytes, Tjson.Schema>, k: bytes, s: Tjson.Schema,
                  r: Result<map<bytes, Tjson.Schema>, Tjson.Error>)
    ensures Merged(m, Merged(map[k := s], r)) == Merged(m[k := s], r)
  {
    if r.Success? {
      assert m + (map[k := s] + r.value) == m[k := s] + r.value;
    }
  }

  /** `subdocumentSchema`: "$k" first, then a property for every key. */
  method SubdocumentSchema(fs: Fields, primaryKey: seq<bytes>) returns (r: Result<Tjson.Schema, Tjson.Error>)
    ensures r == Tjson.SubdocumentSchema(fs, primaryKey)
  {
    var start := map[Fjson.K := Tjson.KEYS_SCHEMA];
    var properties := start;
    assert fs[0..] == fs;
    for i := 0 to |fs|
      invariant Merged(start, Tjson.PropertiesOf(fs)) == Merged(properties, Tjson.PropertiesOf(fs[i..]))
    {
      assert fs[i..][0] == fs[i] && fs[i..][1..] == fs[i + 1..];
      var s :- Tjson.ValueSchema(fs[i].value);
      MergedOne(properties, fs[i].key, s, Tjson.PropertiesOf(fs[i + 1..]));
      properties := properties[fs[i].key := s];
    }
    assert properties + map[] == properties;
    return Success(Tjson.Object(properties, primaryKey));
  }
}
