/** `Schema.Equal` is an equivalence, and equal schemas decode alike. */
module SchemaEquality {
  import opened Bytes
  import opened Values
  import opened Tjson
  import opened Wrappers
  import Fjson

  /** The schemas on which `Equal` does not panic: known types, and items in every array. */
  predicate WellFormedSchema(s: Schema)
  {
    match s.kind
    case OtherType(_) => false
    case ArrayType => s.items.Some? && WellFormedSchema(s.items.value)
    case ObjectType => forall k :: k in s.properties ==> WellFormedSchema(s.properties[k])
    case _ => true
  }

  /** An empty format of a number or an integer stands for "double" or "int64". */
  function Normalised(kind: SchemaType, format: SchemaFormat): SchemaFormat
  {
    if format != EmptyFormat then format
    else match kind
      case Number => DoubleFormat
      case Integer => Int64Format
      case _ => format
  }

  /** `Schema.Equal`. */
  predicate Equal(s: Schema, other: Schema)
    requires WellFormedSchema(s) && WellFormedSchema(other)
  {
    if s.kind != other.kind then false
    else match s.kind
      case ObjectType =>
        && |s.properties| == |other.properties|
        && forall k :: k in s.properties ==> k in other.properties && Equal(s.properties[k], other.properties[k])
      case ArrayType => Equal(s.items.value, other.items.value)
      case _ =>
        s.format == other.format || Normalised(s.kind, s.format) == Normalised(other.kind, other.format)
  }

  // ------------------------------------------------------------- equivalence

  lemma {:induction false} EqualReflexive(s: Schema)
    requires WellFormedSchema(s)
    ensures Equal(s, s)
  {
    if s.kind.ObjectType? {
      forall k | k in s.properties
        ensures Equal(s.properties[k], s.properties[k])
      {
        EqualReflexive(s.properties[k]);
      }
    } else if s.kind.ArrayType? {
      EqualReflexive(s.items.value);
    }
  }

  lemma SubsetOfSameSize<T>(a: set<T>, b: set<T>)
    requires a <= b && |a| == |b|
    ensures a == b
  {
    assert |b - a| == |b| - |a|;
  }

  lemma SameKeys(a: map<bytes, Schema>, b: map<bytes, Schema>)
    requires |a| == |b| && forall k :: k in a ==> k in b
    ensures a.Keys == b.Keys
  {
    assert |a| == |a.Keys| && |b| == |b.Keys|;
    SubsetOfSameSize(a.Keys, b.Keys);
  }

  lemma {:induction false} EqualSymmetric(s: Schema, other: Schema)
    requires WellFormedSchema(s) && WellFormedSchema(other) && Equal(s, other)
    ensures Equal(other, s)
  {
    if s.kind.ObjectType? {
      SameKeys(s.properties, other.properties);
      forall k | k in other.properties
        ensures k in s.properties && Equal(other.properties[k], s.properties[k])
      {
        assert k in s.properties.Keys;
        EqualSymmetric(s.properties[k], other.properties[k]);
      }
    } else if s.kind.ArrayType? {
      EqualSymmetric(s.items.value, other.items.value);
    }
  }

  lemma {:induction false} EqualTransitive(a: Schema, b: Schema, c: Schema)
    requires WellFormedSchema(a) && WellFormedSchema(b) && WellFormedSchema(c) && Equal(a, b) && Equal(b, c)
    ensures Equal(a, c)
  {
    if a.kind.ObjectType? {
      forall k | k in a.properties
        ensures k in c.properties && Equal(a.properties[k], c.properties[k])
      {
        EqualTransitive(a.properties[k], b.properties[k], c.properties[k]);
      }
    } else if a.kind.ArrayType? {
      EqualTransitive(a.items.value, b.items.value, c.items.value);
    }
  }

  // ------------------------------------------------------------ when exactly

  /**
   What `Equal` looks at: the properties of an object, the items of an array, and otherwise the
   format, where "double" of a number and "int64" of an integer go without saying.
   */
  function Essence(s: Schema): Schema
    requires WellFormedSchema(s)
  {
    match s.kind
    case ObjectType =>
      Schema(ObjectType, EmptyFormat, map k | k in s.properties :: Essence(s.properties[k]), None, [])
    case ArrayType => Schema(ArrayType, EmptyFormat, map[], Some(Essence(s.items.value)), [])
    case Number => Simple(Number, if s.format == DoubleFormat then EmptyFormat else s.format)
    case Integer => Simple(Integer, if s.format == Int64Format then EmptyFormat else s.format)
    case _ => Simple(s.kind, s.format)
  }

  /** Schemas are equal exactly when they say the same. */
  lemma {:induction false} EqualExactly(s: Schema, other: Schema)
    requires WellFormedSchema(s) && WellFormedSchema(other)
    ensures Equal(s, other) <==> Essence(s) == Essence(other)
  {
    if s.kind.ObjectType? && other.kind.ObjectType? {
      forall k | k in s.properties && k in other.properties
        ensures Equal(s.properties[k], other.properties[k]) <==>
                  Essence(s.properties[k]) == Essence(other.properties[k])
      {
        EqualExactly(s.properties[k], other.properties[k]);
      }
      if Equal(s, other) {
        EqualMeansSame(s, other);
      } else if Essence(s).properties == Essence(other).properties {
        SameMeansEqual(s, other);
      }
    } else if s.kind.ArrayType? && other.kind.ArrayType? {
      EqualExactly(s.items.value, other.items.value);
    }
  }

  /** On the properties that both have, `Equal` is equality of what they say. */
  ghost predicate AgreeOnProperties(s: Schema, other: Schema)
    requires WellFormedSchema(s) && WellFormedSchema(other) && s.kind.ObjectType? && other.kind.ObjectType?
  {
    forall k :: k in s.properties && k in other.properties ==>
      (Equal(s.properties[k], other.properties[k]) <==> Essence(s.properties[k]) == Essence(other.properties[k]))
  }

  lemma EssenceProperties(s: Schema)
    requires WellFormedSchema(s) && s.kind.ObjectType?
    ensures Essence(s).properties.Keys == s.properties.Keys
    ensures forall k :: k in s.properties ==> Essence(s).properties[k] == Essence(s.properties[k])
  {
  }

  lemma EqualMeansSame(s: Schema, other: Schema)
    requires WellFormedSchema(s) && WellFormedSchema(other) && s.kind.ObjectType? && other.kind.ObjectType?
    requires AgreeOnProperties(s, other) && Equal(s, other)
    ensures Essence(s).properties == Essence(other).properties
  {
    EssenceProperties(s);
    EssenceProperties(other);
    SameKeys(s.properties, other.properties);
  }

  lemma SameMeansEqual(s: Schema, other: Schema)
    requires WellFormedSchema(s) && WellFormedSchema(other) && s.kind.ObjectType? && other.kind.ObjectType?
    requires AgreeOnProperties(s, other) && Essence(s).properties == Essence(other).properties
    ensures Equal(s, other)
  {
    EssenceProperties(s);
    EssenceProperties(other);
    assert |s.properties| == |s.properties.Keys| == |other.properties.Keys| == |other.properties|;
    forall k | k in s.properties
      ensures k in other.properties && Equal(s.properties[k], other.properties[k])
    {
      assert k in s.properties.Keys;
    }
  }

  // ---------------------------------------------------------------- decoding

  lemma EqualProperties(s: Schema, other: Schema, k: bytes)
    requires WellFormedSchema(s) && WellFormedSchema(other) && Equal(s, other) && s.kind.ObjectType?
    ensures k in s.properties <==> k in other.properties
    ensures k in s.properties ==>
      && WellFormedSchema(s.properties[k]) && WellFormedSchema(other.properties[k])
      && Equal(s.properties[k], other.properties[k])
  {
    SameKeys(s.properties, other.properties);
    assert k in s.properties.Keys <==> k in other.properties.Keys;
  }

  lemma EqualScalars(c: Codecs, j: Json, s: Schema, other: Schema)
    requires WellFormedSchema(s) && WellFormedSchema(other) && Equal(s, other) && !s.kind.ObjectType?
    ensures Unmarshal(c, j, s) == Unmarshal(c, j, other)
  {
  }

  /** Equal schemas decode every JSON value to the same value, or both fail the same way. */
  lemma {:induction false} EqualDecodes(c: Codecs, j: Json, s: Schema, other: Schema)
    requires WellFormedSchema(s) && WellFormedSchema(other) && Equal(s, other)
    ensures Unmarshal(c, j, s) == Unmarshal(c, j, other)
    decreases j, 1
  {
    if !s.kind.ObjectType? {
      EqualScalars(c, j, s, other);
    } else if j.JObject? && Fjson.K in j.members {
      var keys := KeyList(j.members[Fjson.K]);
      if keys.Success? {
        EqualFields(c, j, s, other, keys.value, []);
      }
      assert UnmarshalDocument(c, j, s) == UnmarshalDocument(c, j, other);
    }
  }

  lemma {:induction false} EqualFields(c: Codecs, j: Json, s: Schema, other: Schema, keys: seq<bytes>, fs: Fields)
    requires WellFormedSchema(s) && WellFormedSchema(other) && Equal(s, other) && s.kind.ObjectType? && j.JObject?
    ensures UnmarshalFields(c, j, s, keys, fs) == UnmarshalFields(c, j, other, keys, fs)
    decreases j, 0, |keys|
  {
    if keys != [] && keys[0] in j.members {
      EqualProperties(s, other, keys[0]);
      if keys[0] in s.properties {
        EqualDecodes(c, j.members[keys[0]], s.properties[keys[0]], other.properties[keys[0]]);
        var v := Unmarshal(c, j.members[keys[0]], s.properties[keys[0]]);
        if v.Success? {
          EqualFields(c, j, s, other, keys[1..], SetField(fs, keys[0], v.value));
        }
      }
    }
  }
}
