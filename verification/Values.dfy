/** The value universe of package `types`: 11 scalars, arrays and ordered documents. */
module Values {
  import opened Bytes
  import opened Text

  type ObjectID = s: bytes | |s| == 12 witness [0, 0, 0, 0, 0, 0, 0, 0, 0, 0, 0, 0]

  /** A document is the sequence of its fields: `keys` gives the order, `m` the values. */
  datatype Value =
    | Document(fields: seq<Field>)
    | Array(elems: seq<Value>)
    | Double(bits: uint64)
    | String(str: bytes)
    | Binary(subtype: byte, data: bytes)
    | ObjectId(oid: ObjectID)
    | Bool(bool)
    | DateTime(millis: int64)
    | Null
    | Regex(pattern: bytes, options: bytes)
    | Int32(i32: int32)
    | Timestamp(ts: int64)
    | Int64(i64: int64)

  datatype Field = Field(key: bytes, value: Value)

  type Fields = seq<Field>

  /** "_id" */
  const ID_KEY: bytes := [95, 105, 100]

  const DOLLAR: byte := 36

  // ------------------------------------------------------------- validation

  /** `isValidKey`: "$" and "$x" are reserved for the JSON tags. */
  predicate ValidKey(key: bytes)
  {
    && key != []
    && !(key[0] == DOLLAR && |key| <= 2)
    && ValidUtf8(key)
  }

  predicate DistinctKeys(fs: Fields)
  {
    forall i, j :: 0 <= i < j < |fs| ==> fs[i].key != fs[j].key
  }

  /** `Document.validate`: nested documents are validated again, arrays are not. */
  predicate Validates(fs: Fields)
    decreases fs
  {
    && DistinctKeys(fs)
    && forall i :: 0 <= i < |fs| ==>
      && ValidKey(fs[i].key)
      && (fs[i].value.Document? ==> Validates(fs[i].value.fields))
  }

  /** The same, at every depth: what documents and arrays built through the package satisfy. */
  predicate WellFormed(v: Value)
  {
    match v
    case Document(fs) =>
      && DistinctKeys(fs)
      && forall i :: 0 <= i < |fs| ==> ValidKey(fs[i].key) && WellFormed(fs[i].value)
    case Array(vs) => forall i :: 0 <= i < |vs| ==> WellFormed(vs[i])
    case _ => true
  }

  lemma {:induction false} WellFormedValidates(fs: Fields)
    requires WellFormed(Document(fs))
    ensures Validates(fs)
    decreases fs
  {
    forall i | 0 <= i < |fs| && fs[i].value.Document?
      ensures Validates(fs[i].value.fields)
    {
      assert WellFormed(fs[i].value);
      WellFormedValidates(fs[i].value.fields);
    }
  }

  // -------------------------------------------------------- field operations

  /** The position of `key`, or `|fs|` if it is absent. */
  function IndexOf(fs: Fields, key: bytes): (i: nat)
    ensures i <= |fs|
    ensures i < |fs| ==> fs[i].key == key
    ensures forall j :: 0 <= j < i ==> fs[j].key != key
  {
    if fs == [] || fs[0].key == key then 0 else
    var i := IndexOf(fs[1..], key);
    assert forall j :: 0 < j < i + 1 ==> fs[j] == fs[1..][j - 1];
    i + 1
  }

  predicate Has(fs: Fields, key: bytes)
  {
    IndexOf(fs, key) < |fs|
  }

  function Get(fs: Fields, key: bytes): Value
    requires Has(fs, key)
  {
    fs[IndexOf(fs, key)].value
  }

  function Without(fs: Fields, key: bytes): Fields
  {
    var i := IndexOf(fs, key);
    if i < |fs| then fs[..i] + fs[i + 1..] else fs
  }

  /** `Document.Set` on a valid key: "_id" always becomes the first field. */
  function SetField(fs: Fields, key: bytes, value: Value): Fields
  {
    var i := IndexOf(fs, key);
    if key == ID_KEY then [Field(key, value)] + Without(fs, key)
    else if i < |fs| then fs[i := Field(key, value)]
    else fs + [Field(key, value)]
  }

  /** The fields with "_id" in front and every other field in its place. */
  function IdFirst(fs: Fields): Fields
  {
    var i := IndexOf(fs, ID_KEY);
    if i < |fs| then [fs[i]] + fs[..i] + fs[i + 1..] else fs
  }

  function Keys(fs: Fields): (ks: seq<bytes>)
    ensures |ks| == |fs|
    ensures forall i :: 0 <= i < |fs| ==> ks[i] == fs[i].key
  {
    seq(|fs|, i requires 0 <= i < |fs| => fs[i].key)
  }

  /** `r` holds the fields of `fs` with one of them set. */
  ghost predicate FieldSet(fs: Fields, r: Fields, key: bytes, value: Value)
  {
    && DistinctKeys(r)
    && Has(r, key) && Get(r, key) == value
    && (forall k :: k != key ==> Has(r, k) == Has(fs, k))
    && (forall k :: k != key && Has(fs, k) ==> Get(r, k) == Get(fs, k))
  }

  /** After `Set`, the key reads back, every other key reads as before, and the keys stay distinct. */
  lemma SetFieldLaws(fs: Fields, key: bytes, value: Value)
    requires DistinctKeys(fs)
    ensures FieldSet(fs, SetField(fs, key, value), key, value)
  {
    var r := SetField(fs, key, value);
    SetFieldDistinct(fs, key, value);
    var at := if key == ID_KEY then 0 else if Has(fs, key) then IndexOf(fs, key) else |fs|;
    IndexIs(r, key, at);
    forall k | k != key
      ensures Has(r, k) == Has(fs, k)
      ensures Has(fs, k) ==> Get(r, k) == Get(fs, k)
    {
      SetFieldOther(fs, key, value, k);
    }
  }

  lemma IndexIs(fs: Fields, key: bytes, i: nat)
    requires DistinctKeys(fs)
    requires i < |fs| && fs[i].key == key
    ensures IndexOf(fs, key) == i
  {
  }

  lemma IndexIsFirst(fs: Fields, key: bytes, i: nat)
    requires i <= |fs| && (i < |fs| ==> fs[i].key == key)
    requires forall j :: 0 <= j < i ==> fs[j].key != key
    ensures IndexOf(fs, key) == i
  {
  }

  lemma WithoutKey(fs: Fields, key: bytes)
    requires DistinctKeys(fs)
    ensures DistinctKeys(Without(fs, key))
    ensures forall j :: 0 <= j < |Without(fs, key)| ==> Without(fs, key)[j].key != key
  {
    var i := IndexOf(fs, key);
    var w := Without(fs, key);
    assert forall j :: 0 <= j < |w| ==> w[j] == fs[if j < i then j else j + 1];
  }

  /** After `Remove`, the key is gone and every other key reads as before. */
  lemma WithoutLaws(fs: Fields, key: bytes, k: bytes)
    requires DistinctKeys(fs)
    ensures Has(Without(fs, key), k) <==> Has(fs, k) && k != key
    ensures Has(Without(fs, key), k) ==> Get(Without(fs, key), k) == Get(fs, k)
  {
    var w, i, n := Without(fs, key), IndexOf(fs, key), IndexOf(fs, k);
    WithoutKey(fs, key);
    if Has(fs, k) && k != key {
      var at := if n < i then n else n - 1;
      assert w[at] == fs[n];
      IndexIs(w, k, at);
    } else if k != key {
      assert forall j :: 0 <= j < |w| ==> w[j] in fs;
      IndexIsFirst(w, k, |w|);
    }
  }

  lemma SetFieldDistinct(fs: Fields, key: bytes, value: Value)
    requires DistinctKeys(fs)
    ensures DistinctKeys(SetField(fs, key, value))
  {
    if key == ID_KEY {
      WithoutKey(fs, key);
    }
  }

  lemma SetFieldOther(fs: Fields, key: bytes, value: Value, k: bytes)
    requires DistinctKeys(fs) && k != key
    ensures Has(SetField(fs, key, value), k) == Has(fs, k)
    ensures Has(fs, k) ==> Get(SetField(fs, key, value), k) == Get(fs, k)
  {
    var r := SetField(fs, key, value);
    if Has(fs, k) {
      SetFieldDistinct(fs, key, value);
      IndexIs(r, k, PositionAfterSet(fs, key, value, k));
    } else if Has(r, k) {
      assert r[IndexOf(r, k)] in r;
      SetFieldMembers(fs, key, value, r[IndexOf(r, k)]);
    }
  }

  lemma SetFieldMembers(fs: Fields, key: bytes, value: Value, f: Field)
    requires f in SetField(fs, key, value)
    ensures f == Field(key, value) || f in fs
  {
  }

  /** Where a field other than `key` stands after `Set(key, value)`. */
  ghost function PositionAfterSet(fs: Fields, key: bytes, value: Value, k: bytes): (at: nat)
    requires Has(fs, k) && k != key
    ensures at < |SetField(fs, key, value)|
    ensures SetField(fs, key, value)[at] == fs[IndexOf(fs, k)]
  {
    var n, i := IndexOf(fs, k), IndexOf(fs, key);
    var w := Without(fs, key);
    assert w[if n < i then n else n - 1] == fs[n];
    if key == ID_KEY && n < i then n + 1 else n
  }
}
