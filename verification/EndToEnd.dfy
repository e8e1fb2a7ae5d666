/** From wire bytes to storage and back: what a document looks like after a round through FJSON. */
module EndToEnd {
  import opened Bytes
  import opened Text
  import opened Values
  import opened Doubles
  import opened Wrappers
  import opened Bson
  import opened BsonRoundTrip
  import opened BsonCanonical
  import opened Fjson
  import opened FjsonRoundTrip

  /** Every string value and regular expression is valid UTF-8. */
  predicate Utf8Text(v: Value)
  {
    match v
    case Document(fs) => forall i :: 0 <= i < |fs| ==> Utf8Text(fs[i].value)
    case Array(vs) => forall i :: 0 <= i < |vs| ==> Utf8Text(vs[i])
    case String(s) => ValidUtf8(s)
    case Regex(p, o) => ValidUtf8(p) && ValidUtf8(o)
    case _ => true
  }

  /** No "_id" behind another field, no NaN but the canonical one, no invalid UTF-8. */
  predicate InNormalForm(v: Value)
  {
    match v
    case Document(fs) =>
      && IndexOf(fs, ID_KEY) in {0, |fs|}
      && forall i :: 0 <= i < |fs| ==> InNormalForm(fs[i].value)
    case Array(vs) => forall i :: 0 <= i < |vs| ==> InNormalForm(vs[i])
    case Double(bits) => IsNaN(bits) ==> bits == CANONICAL_NAN
    case String(s) => ValidUtf8(s)
    case Regex(p, o) => ValidUtf8(p) && ValidUtf8(o)
    case _ => true
  }

  lemma NormalKeepsIndex(fs: Fields, key: bytes)
    ensures IndexOf(NormalFields(fs), key) == IndexOf(fs, key)
  {
    IndexIsFirst(NormalFields(fs), key, IndexOf(fs, key));
  }

  lemma IdFirstFixed(fs: Fields)
    ensures IdFirst(fs) == fs <==> IndexOf(fs, ID_KEY) in {0, |fs|}
    ensures IndexOf(fs, ID_KEY) < |fs| ==> IdFirst(fs)[0].key == ID_KEY
  {
    var i := IndexOf(fs, ID_KEY);
    if i == 0 && fs != [] {
      assert [fs[0]] + fs[..0] + fs[1..] == fs;
    }
  }

  /** Storing a value leaves it alone exactly when it is already in normal form. */
  lemma {:induction false} NormalFixesExactlyNormalForms(v: Value)
    ensures Normal(v) == v <==> InNormalForm(v)
  {
    match v
    case Document(fs) => NormalFixesDocument(fs);
    case Array(vs) =>
      forall i | 0 <= i < |vs|
        ensures Normal(vs[i]) == vs[i] <==> InNormalForm(vs[i])
      {
        NormalFixesExactlyNormalForms(vs[i]);
      }
      assert NormalElems(vs) == vs <==> forall i :: 0 <= i < |vs| ==> NormalElems(vs)[i] == vs[i];
    case String(s) => CoerceFixesExactlyValid(s);
    case Regex(p, o) => CoerceFixesExactlyValid(p); CoerceFixesExactlyValid(o);
    case _ =>
  }

  lemma {:induction false} NormalFixesDocument(fs: Fields)
    ensures Normal(Document(fs)) == Document(fs) <==> InNormalForm(Document(fs))
    decreases fs
  {
    var gs := NormalFields(fs);
    forall i | 0 <= i < |fs|
      ensures Normal(fs[i].value) == fs[i].value <==> InNormalForm(fs[i].value)
    {
      NormalFixesExactlyNormalForms(fs[i].value);
    }
    NormalKeepsIndex(fs, ID_KEY);
    IdFirstFixed(gs);
    assert gs == fs <==> forall i :: 0 <= i < |fs| ==> gs[i] == fs[i];
    if IdFirst(gs) == fs && fs != [] && IndexOf(fs, ID_KEY) < |fs| {
      assert IndexOf(fs, ID_KEY) == 0;
    }
  }

  // ----------------------------------------- the size and shape of the result

  /** Moving "_id" to the front moves its bytes to the front and no others. */
  lemma IdFirstMovesOneElement(fs: Fields)
    requires Has(fs, ID_KEY)
    ensures var i := IndexOf(fs, ID_KEY);
            var before, after := EncodeFields(fs[..i]), EncodeFields(fs[i + 1..]);
            var id := EncodeElement(ID_KEY, fs[i].value);
            && EncodeFields(fs) == before + id + after
            && EncodeFields(IdFirst(fs)) == id + before + after
  {
    var i := IndexOf(fs, ID_KEY);
    assert fs == fs[..i] + [fs[i]] + fs[i + 1..];
    assert IdFirst(fs) == [fs[i]] + fs[..i] + fs[i + 1..];
    EncodeThree(fs[..i], [fs[i]], fs[i + 1..]);
    EncodeThree([fs[i]], fs[..i], fs[i + 1..]);
    EncodeOne(fs[i]);
  }

  lemma EncodeThree(a: Fields, b: Fields, c: Fields)
    ensures EncodeFields(a + b + c) == EncodeFields(a) + EncodeFields(b) + EncodeFields(c)
  {
    EncodeFieldsConcat(a, b);
    EncodeFieldsConcat(a + b, c);
  }

  lemma {:induction false} NormalKeepsFieldsLength(fs: Fields)
    requires forall i :: 0 <= i < |fs| ==> Utf8Text(fs[i].value)
    ensures |EncodeFields(NormalFields(fs))| == |EncodeFields(fs)|
    decreases fs, 0
  {
    if fs == [] {
    } else {
      NormalKeepsLength(fs[0].value);
      NormalKeepsFieldsLength(fs[1..]);
      assert NormalFields(fs)[1..] == NormalFields(fs[1..]);
    }
  }

  lemma {:induction false} NormalKeepsElemsLength(vs: seq<Value>, i: nat)
    requires forall j :: 0 <= j < |vs| ==> Utf8Text(vs[j])
    ensures |EncodeElems(NormalElems(vs), i)| == |EncodeElems(vs, i)|
    decreases vs, 0
  {
    if vs == [] {
    } else {
      NormalKeepsLength(vs[0]);
      NormalKeepsElemsLength(vs[1..], i + 1);
      assert NormalElems(vs)[1..] == NormalElems(vs[1..]);
    }
  }

  /** Storage never changes the encoded size of a value whose text is UTF-8. */
  lemma {:induction false} NormalKeepsLength(v: Value)
    requires Utf8Text(v)
    ensures |EncodeValue(Normal(v))| == |EncodeValue(v)|
    decreases v, 1
  {
    match v
    case Document(fs) =>
      NormalKeepsFieldsLength(fs);
      var gs := NormalFields(fs);
      if Has(gs, ID_KEY) { IdFirstMovesOneElement(gs); }
    case Array(vs) => NormalKeepsElemsLength(vs, 0);
    case String(s) => CoerceFixesExactlyValid(s);
    case Regex(p, o) => CoerceFixesExactlyValid(p); CoerceFixesExactlyValid(o);
    case _ =>
  }

  lemma {:induction false} NormalIsNulFree(v: Value)
    requires NulFree(v) && Utf8Text(v)
    ensures NulFree(Normal(v))
  {
    match v
    case Document(fs) =>
      var gs := NormalFields(fs);
      forall i | 0 <= i < |fs|
        ensures 0 !in gs[i].key && NulFree(gs[i].value)
      {
        NormalIsNulFree(fs[i].value);
      }
      assert forall j :: 0 <= j < |IdFirst(gs)| ==> IdFirst(gs)[j] in gs;
    case Array(vs) =>
      forall i | 0 <= i < |vs|
        ensures NulFree(NormalElems(vs)[i])
      {
        NormalIsNulFree(vs[i]);
      }
    case Regex(p, o) => CoerceFixesExactlyValid(p); CoerceFixesExactlyValid(o);
    case _ =>
  }

  // ------------------------------------------------------------ the theorems

  /** The fields a stored document comes back with. */
  function Reloaded(fs: Fields): Fields
  {
    Normal(Document(fs)).fields
  }

  /**
   A document accepted from the wire survives storage: it is unmarshalled to its normal form,
   whose encoding is as long as the original, is accepted again, and leaves the same bytes.
   */
  lemma StoredDocumentIsReadable(ft: FloatText, b: bytes)
    requires ft.Exact() && DecodeDocument(b).Success?
    requires Utf8Text(Document(DecodeDocument(b).value.0))
    ensures var (fs, rest) := DecodeDocument(b).value;
            var c := EncodeDocument(Reloaded(fs)) + rest;
            && Unmarshal(ft, Marshal(ft, Document(fs))) == Success(Document(Reloaded(fs)))
            && |c| == |b|
            && DecodeDocument(c) == Success((Reloaded(fs), rest))
  {
    var (fs, rest) := DecodeDocument(b).value;
    DocumentCanonical(b);
    RoundTrip(ft, Document(fs));
    NormalKeepsLength(Document(fs));
    NormalIsWellFormed(Document(fs));
    NormalIsNulFree(Document(fs));
    BsonRoundTrip.DocumentRoundTrip(Reloaded(fs), rest);
  }

  /** The bytes come back unchanged exactly when the document was in normal form. */
  lemma StoredBytesUnchangedExactly(b: bytes)
    requires DecodeDocument(b).Success?
    requires Utf8Text(Document(DecodeDocument(b).value.0))
    ensures var (fs, rest) := DecodeDocument(b).value;
            EncodeDocument(Reloaded(fs)) + rest == b <==> InNormalForm(Document(fs))
  {
    var (fs, rest) := DecodeDocument(b).value;
    DocumentCanonical(b);
    NormalFixesExactlyNormalForms(Document(fs));
    if EncodeDocument(Reloaded(fs)) + rest == b {
      NormalKeepsLength(Document(fs));
      NormalIsWellFormed(Document(fs));
      NormalIsNulFree(Document(fs));
      EncodingsAreDistinct(Reloaded(fs), fs, rest, rest);
    }
  }

  /** Storing twice is storing once. */
  lemma {:induction false} NormalIsInNormalForm(v: Value)
    ensures InNormalForm(Normal(v))
  {
    match v
    case Document(fs) =>
      var gs := NormalFields(fs);
      forall i | 0 <= i < |fs|
        ensures InNormalForm(gs[i].value)
      {
        NormalIsInNormalForm(fs[i].value);
      }
      NormalisedDocument(gs);
    case Array(vs) =>
      forall i | 0 <= i < |vs|
        ensures InNormalForm(NormalElems(vs)[i])
      {
        NormalIsInNormalForm(vs[i]);
      }
    case String(s) => CoerceIsValid(s);
    case Regex(p, o) => CoerceIsValid(p); CoerceIsValid(o);
    case _ =>
  }

  lemma NormalisedDocument(gs: Fields)
    requires forall i :: 0 <= i < |gs| ==> InNormalForm(gs[i].value)
    ensures InNormalForm(Document(IdFirst(gs)))
  {
    var hs := IdFirst(gs);
    assert forall j :: 0 <= j < |hs| ==> hs[j] in gs;
    IdFirstFixed(gs);
    IndexIsFirst(hs, ID_KEY, if Has(gs, ID_KEY) then 0 else |hs|);
  }
}
