/** `types.Document`: a keys slice and a map that every operation must keep in agreement. */
module Documents {
  import opened Bytes
  import opened Values
  import opened Wrappers

  predicate ValidValue(v: Value)
  {
    v.Document? ==> Validates(v.fields)
  }

  /** `keys` gives the order of the fields and `m` their values; neither knows a key the other lacks. */
  ghost predicate Agree(keys: seq<bytes>, m: map<bytes, Value>, fs: Fields)
  {
    && keys == Keys(fs)
    && DistinctKeys(fs)
    && forall k :: (k in m <==> Has(fs, k)) && (k in m ==> m[k] == Get(fs, k))
  }

  lemma AgreeSet(keys: seq<bytes>, m: map<bytes, Value>, fs: Fields, keys': seq<bytes>, key: bytes, v: Value)
    requires Agree(keys, m, fs) && keys' == Keys(SetField(fs, key, v))
    ensures Agree(keys', m[key := v], SetField(fs, key, v))
  {
    SetFieldLaws(fs, key, v);
    AgreeUpdated(keys, m, fs, SetField(fs, key, v), key, v);
  }

  lemma AgreeUpdated(keys: seq<bytes>, m: map<bytes, Value>, fs: Fields, gs: Fields, key: bytes, v: Value)
    requires Agree(keys, m, fs) && FieldSet(fs, gs, key, v)
    ensures Agree(Keys(gs), m[key := v], gs)
  {
  }

  lemma AgreeRemove(keys: seq<bytes>, m: map<bytes, Value>, fs: Fields, key: bytes)
    requires Agree(keys, m, fs)
    ensures Agree(Keys(Without(fs, key)), m - {key}, Without(fs, key))
  {
    WithoutKey(fs, key);
    forall k
      ensures k in m - {key} <==> Has(Without(fs, key), k)
      ensures k in m - {key} ==> m[k] == Get(Without(fs, key), k)
    {
      WithoutLaws(fs, key, k);
    }
  }

  lemma KeysWithout(fs: Fields, key: bytes)
    ensures var i := IndexOf(fs, key);
            Keys(Without(fs, key)) == if i < |fs| then Keys(fs)[..i] + Keys(fs)[i + 1..] else Keys(fs)
  {
  }

  lemma KeysSet(fs: Fields, key: bytes, v: Value)
    ensures Keys(SetField(fs, key, v)) ==
      if key == ID_KEY then [key] + Keys(Without(fs, key))
      else if Has(fs, key) then Keys(fs)
      else Keys(fs) + [key]
  {
  }

  class OrderedDocument {
    var keys: seq<bytes>
    var m: map<bytes, Value>
    ghost var fields: Fields

    /** The class invariant: slice and map agree on the fields. */
    ghost predicate Valid()
      reads this
    {
      Agree(keys, m, fields)
    }

    constructor ()
      ensures Valid() && fields == []
    {
      keys, m, fields := [], map[], [];
    }

    /** `slices.Index`: -1 if the key is absent. */
    method Index(key: bytes) returns (i: int)
      requires Valid()
      ensures i == if Has(fields, key) then IndexOf(fields, key) else -1
    {
      i := 0;
      while i < |keys| && keys[i] != key
        invariant 0 <= i <= |keys|
        invariant forall j :: 0 <= j < i ==> fields[j].key != key
      {
        i := i + 1;
      }
      IndexIsFirst(fields, key, i);
      if i == |keys| {
        i := -1;
      }
    }

    /** `Set`: replaces or appends; "_id" always becomes the first key. */
    method Set(key: bytes, value: Value) returns (ok: bool)
      requires Valid()
      modifies this
      ensures Valid()
      ensures ok == (ValidKey(key) && ValidValue(value))
      ensures fields == if ok then SetField(old(fields), key, value) else old(fields)
    {
      ok := ValidKey(key) && ValidValue(value);
      if !ok {
        return;
      }
      var ks := KeysAfterSet(key, value);
      AgreeSet(keys, m, fields, ks, key, value);
      keys := ks;
      m := m[key := value];
      fields := SetField(fields, key, value);
    }

    /** The update of the keys slice in `Set`. */
    method KeysAfterSet(key: bytes, ghost value: Value) returns (ks: seq<bytes>)
      requires Valid()
      ensures ks == Keys(SetField(fields, key, value))
    {
      KeysSet(fields, key, value);
      ks := keys;
      if key == ID_KEY {
        KeysWithout(fields, key);
        var i := Index(key);
        if i >= 0 {
          ks := ks[..i] + ks[i + 1..];
        }
        ks := [key] + ks;
      } else if key !in m {
        ks := ks + [key];
      }
    }

    /** `add`: like `Set`, but a key that is already present is an error. */
    method Add(key: bytes, value: Value) returns (ok: bool)
      requires Valid()
      modifies this
      ensures Valid()
      ensures ok == (!Has(old(fields), key) && ValidKey(key) && ValidValue(value))
      ensures fields == if ok then SetField(old(fields), key, value) else old(fields)
    {
      if key in m {
        return false;
      }
      ok := Set(key, value);
    }

    /** `Remove`: the value of the key, or nothing if it is absent. */
    method Remove(key: bytes) returns (v: Option<Value>)
      requires Valid()
      modifies this
      ensures Valid()
      ensures fields == Without(old(fields), key)
      ensures v == if Has(old(fields), key) then Some(Get(old(fields), key)) else None
    {
      if key !in m {
        return None;
      }
      var i := Index(key);
      v := Some(m[key]);
      AgreeRemove(keys, m, fields, key);
      KeysWithout(fields, key);
      m := m - {key};
      keys := keys[..i] + keys[i + 1..];
      fields := Without(fields, key);
    }
  }
}
