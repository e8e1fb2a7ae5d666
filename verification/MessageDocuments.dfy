/** The document an OP_MSG stands for, and exactly which sections are refused. */
module MessageDocuments {
  import opened Bytes
  import opened Values
  import opened Wrappers
  import opened Bson
  import opened Wire
  import FjsonRoundTrip

  // --------------------------------------------------------- the first section

  /** The field can be set in the copy of its document. */
  predicate Settable(f: Field)
  {
    ValidKey(f.key) && (f.value.Document? ==> Validates(f.value.fields))
  }

  lemma {:induction false} CopyDistinct(d: Fields)
    ensures DistinctKeys(ShallowCopy(d))
  {
    if d == [] {
    } else {
      var f := d[|d| - 1];
      CopyDistinct(d[..|d| - 1]);
      SetFieldDistinct(ShallowCopy(d[..|d| - 1]), f.key, f.value);
    }
  }

  /** The document has the key, with a value that can be set. */
  ghost predicate HasSettable(d: Fields, key: bytes)
  {
    exists i :: 0 <= i < |d| && d[i].key == key && Settable(d[i])
  }

  lemma LastSettable(d: Fields, key: bytes)
    requires d != []
    ensures HasSettable(d, key) <==>
              HasSettable(d[..|d| - 1], key) || (d[|d| - 1].key == key && Settable(d[|d| - 1]))
  {
    var init := d[..|d| - 1];
    assert forall i :: 0 <= i < |init| ==> init[i] == d[i];
  }

  lemma TrySetHas(doc: Fields, f: Field, key: bytes)
    requires DistinctKeys(doc)
    ensures Has(TrySet(doc, f.key, f.value), key) <==> Has(doc, key) || (f.key == key && Settable(f))
  {
    SetFieldLaws(doc, f.key, f.value);
  }

  lemma {:induction false} CopyHas(d: Fields, key: bytes)
    ensures Has(ShallowCopy(d), key) <==> HasSettable(d, key)
  {
    if d == [] {
    } else {
      var n := |d| - 1;
      CopyHas(d[..n], key);
      CopyDistinct(d[..n]);
      TrySetHas(ShallowCopy(d[..n]), d[n], key);
      LastSettable(d, key);
    }
  }

  lemma ValidatesInit(d: Fields)
    requires Validates(d) && d != []
    ensures Validates(d[..|d| - 1]) && Settable(d[|d| - 1])
    ensures var init := d[..|d| - 1]; forall i :: 0 <= i < |init| ==> init[i].key != d[|d| - 1].key
  {
    var init := d[..|d| - 1];
    forall i | 0 <= i < |init|
      ensures ValidKey(init[i].key) && (init[i].value.Document? ==> Validates(init[i].value.fields))
    {
      assert init[i] == d[i];
    }
    assert DistinctKeys(init);
  }

  lemma {:induction false} CopyIsIdFirst(d: Fields)
    requires Validates(d)
    ensures ShallowCopy(d) == IdFirst(d)
  {
    if d == [] {
    } else {
      var n := |d| - 1;
      var init, f := d[..n], d[n];
      ValidatesInit(d);
      CopyIsIdFirst(init);
      FjsonRoundTrip.SetFieldIsIdFirst(init, f.key, f.value);
      assert d == init + [Field(f.key, f.value)];
    }
  }

  // ---------------------------------------------------------- the other sections

  /** A kind 1 section that can follow. */
  predicate Attachable(s: Section)
  {
    && s.kind == 1 && s.identifier != []
    && forall i :: 0 <= i < |s.documents| ==> Validates(s.documents[i])
  }

  /** No two sections have the same identifier, among those that are valid keys. */
  predicate DistinctIdentifiers(ss: seq<Section>)
  {
    forall i, j :: 0 <= i < j < |ss| && ValidKey(ss[i].identifier) ==> ss[i].identifier != ss[j].identifier
  }

  /** The sections can be attached to a document with these keys. */
  ghost predicate CanAttach(doc: Fields, ss: seq<Section>)
  {
    && (forall i :: 0 <= i < |ss| ==> Attachable(ss[i]) && !Has(doc, ss[i].identifier))
    && DistinctIdentifiers(ss)
  }

  /** One kind 1 section. */
  function Attach(doc: Fields, s: Section): Fields
  {
    TrySet(doc, s.identifier, DocumentArray(s.documents))
  }

  lemma AttachHas(doc: Fields, s: Section, key: bytes)
    requires DistinctKeys(doc)
    ensures DistinctKeys(Attach(doc, s))
    ensures Has(Attach(doc, s), key) <==> Has(doc, key) || (ValidKey(s.identifier) && s.identifier == key)
  {
    SetFieldLaws(doc, s.identifier, DocumentArray(s.documents));
  }

  lemma AttachFirst(doc: Fields, ss: seq<Section>)
    requires DistinctKeys(doc) && ss != []
    ensures CanAttach(doc, ss) <==> CanAttach(doc, ss[..1]) && CanAttach(Attach(doc, ss[0]), ss[1..])
  {
    var s, rest := ss[0], ss[1..];
    forall i | 0 <= i < |rest|
      ensures Has(Attach(doc, s), rest[i].identifier) <==>
                Has(doc, rest[i].identifier) || (ValidKey(s.identifier) && s.identifier == rest[i].identifier)
    {
      AttachHas(doc, s, rest[i].identifier);
    }
    assert forall i :: 1 <= i < |ss| ==> ss[i] == rest[i - 1];
    assert forall i :: 0 <= i < |rest| ==> rest[i] == ss[i + 1];
    assert ss[..1] == [s];
  }

  lemma {:induction false} AttachExactly(doc: Fields, ss: seq<Section>)
    requires DistinctKeys(doc)
    ensures MessageDocument(Some(doc), ss).Success? <==> CanAttach(doc, ss)
    decreases |ss|
  {
    if ss == [] {
    } else {
      AttachFirst(doc, ss);
      AttachHas(doc, ss[0], []);
      AttachExactly(Attach(doc, ss[0]), ss[1..]);
      assert AddSection(Some(doc), ss[0]).Success? <==> CanAttach(doc, ss[..1]);
    }
  }

  /** One turn of the loop on sections that can be attached. */
  lemma AttachTurn(doc: Fields, ss: seq<Section>)
    requires DistinctKeys(doc) && ss != [] && CanAttach(doc, ss)
    ensures DistinctKeys(Attach(doc, ss[0])) && CanAttach(Attach(doc, ss[0]), ss[1..])
    ensures MessageDocument(Some(doc), ss) == MessageDocument(Some(Attach(doc, ss[0])), ss[1..])
  {
    AttachFirst(doc, ss);
    AttachHas(doc, ss[0], []);
    assert AddSection(Some(doc), ss[0]) == Success(Some(Attach(doc, ss[0])));
  }

  /** The field that a section adds. */
  function Added(s: Section): Fields
  {
    if ValidKey(s.identifier) then [Field(s.identifier, DocumentArray(s.documents))] else []
  }

  /** The fields that the sections add. */
  function Attached(ss: seq<Section>): Fields
  {
    if ss == [] then [] else Added(ss[0]) + Attached(ss[1..])
  }

  /** One section adds one field behind the others. */
  lemma AttachOne(fs: Fields, s: Section)
    requires !Has(IdFirst(fs), s.identifier)
    ensures Attach(IdFirst(fs), s) == IdFirst(fs + Added(s))
  {
    if ValidKey(s.identifier) {
      NotInIdFirst(fs, s.identifier);
      FjsonRoundTrip.SetFieldIsIdFirst(fs, s.identifier, DocumentArray(s.documents));
    } else {
      assert fs + Added(s) == fs;
    }
  }

  lemma Join(a: Fields, b: Fields, c: Fields)
    ensures a + b + c == a + (b + c)
  {
  }

  lemma {:induction false} AttachMeans(fs: Fields, ss: seq<Section>)
    requires DistinctKeys(IdFirst(fs)) && CanAttach(IdFirst(fs), ss)
    ensures MessageDocument(Some(IdFirst(fs)), ss) == Success(Some(IdFirst(fs + Attached(ss))))
    decreases |ss|
  {
    if ss == [] {
      assert fs + Attached(ss) == fs;
    } else {
      AttachTurn(IdFirst(fs), ss);
      AttachOne(fs, ss[0]);
      AttachMeans(fs + Added(ss[0]), ss[1..]);
      Join(fs, Added(ss[0]), Attached(ss[1..]));
    }
  }

  /** The section puts its documents under this key. */
  predicate Puts(s: Section, key: bytes)
  {
    ValidKey(key) && s.identifier == key
  }

  /** An array of exactly these documents. */
  predicate IsArrayOf(v: Value, docs: seq<Fields>)
  {
    v.Array? && |v.elems| == |docs| && forall i :: 0 <= i < |docs| ==> v.elems[i] == Document(docs[i])
  }

  /** `r` reads as `doc` with the arrays of the sections. */
  ghost predicate Reads(doc: Fields, ss: seq<Section>, r: Fields, key: bytes)
  {
    && (forall i :: 0 <= i < |ss| && Puts(ss[i], key) ==> Has(r, key) && IsArrayOf(Get(r, key), ss[i].documents))
    && ((forall i :: 0 <= i < |ss| ==> !Puts(ss[i], key)) ==>
          Has(r, key) == Has(doc, key) && (Has(doc, key) ==> Get(r, key) == Get(doc, key)))
  }

  lemma {:induction false} AttachReads(doc: Fields, ss: seq<Section>, key: bytes)
    requires DistinctKeys(doc) && CanAttach(doc, ss)
    ensures var r := MessageDocument(Some(doc), ss);
            r.Success? && r.value.Some? && Reads(doc, ss, r.value.value, key)
    decreases |ss|
  {
    if ss == [] {
    } else {
      AttachTurn(doc, ss);
      AttachReads(Attach(doc, ss[0]), ss[1..], key);
      ReadsFirst(doc, ss, MessageDocument(Some(doc), ss).value.value, key);
    }
  }

  lemma ReadsFirst(doc: Fields, ss: seq<Section>, r: Fields, key: bytes)
    requires DistinctKeys(doc) && ss != [] && DistinctIdentifiers(ss)
    requires Reads(Attach(doc, ss[0]), ss[1..], r, key)
    ensures Reads(doc, ss, r, key)
  {
    var s, rest := ss[0], ss[1..];
    SetFieldLaws(doc, s.identifier, DocumentArray(s.documents));
    assert forall i :: 1 <= i < |ss| ==> ss[i] == rest[i - 1];
    assert forall i :: 0 <= i < |rest| ==> rest[i] == ss[i + 1];
  }

  lemma NotInIdFirst(fs: Fields, key: bytes)
    requires !Has(IdFirst(fs), key)
    ensures forall i :: 0 <= i < |fs| ==> fs[i].key != key
  {
    var n := IndexOf(fs, ID_KEY);
    var r := IdFirst(fs);
    forall i | 0 <= i < |fs|
      ensures fs[i].key != key
    {
      assert fs[i] == r[if n == |fs| || i > n then i else if i == n then 0 else i + 1];
    }
  }

  // ------------------------------------------------------------ whole messages

  /**
   What the sections of a message must be: one of kind 0 with one document, then sections of kind 1
   whose identifiers are not empty, are not keys of that document and, where they are valid keys,
   differ from one another, and whose documents validate.
   */
  ghost predicate Acceptable(sections: seq<Section>)
  {
    sections == [] ||
    (&& sections[0].kind == 0 && |sections[0].documents| == 1
     && (forall i :: 1 <= i < |sections| ==> Attachable(sections[i]))
     && (forall i :: 1 <= i < |sections| ==> !HasSettable(sections[0].documents[0], sections[i].identifier))
     && DistinctIdentifiers(sections[1..]))
  }

  /** `OpMsg.Document` succeeds on exactly these sections. */
  lemma DocumentExactly(sections: seq<Section>)
    ensures MessageDocument(None, sections).Success? <==> Acceptable(sections)
  {
    if sections != [] && sections[0].kind == 0 && |sections[0].documents| == 1 {
      var d, rest := sections[0].documents[0], sections[1..];
      CopyDistinct(d);
      AttachExactly(ShallowCopy(d), rest);
      assert forall i :: 1 <= i < |sections| ==> sections[i] == rest[i - 1];
      assert forall i :: 0 <= i < |rest| ==> rest[i] == sections[i + 1];
      forall i | 0 <= i < |rest|
        ensures Has(ShallowCopy(d), rest[i].identifier) <==> HasSettable(d, rest[i].identifier)
      {
        CopyHas(d, rest[i].identifier);
      }
    }
  }

  /** The document of a message: the first section's, then one array for each section of kind 1, `_id` in front. */
  lemma DocumentMeans(sections: seq<Section>)
    requires sections != [] && MessageDocument(None, sections).Success?
    ensures |sections[0].documents| == 1
    ensures var d := sections[0].documents[0];
            Validates(d) ==> MessageDocument(None, sections) == Success(Some(IdFirst(d + Attached(sections[1..]))))
  {
    DocumentExactly(sections);
    var d := sections[0].documents[0];
    if Validates(d) {
      CopyDistinct(d);
      CopyIsIdFirst(d);
      AttachExactly(ShallowCopy(d), sections[1..]);
      AttachMeans(d, sections[1..]);
    }
  }

  /** Every key of the message: the array of the section it identifies, or the field of the first section. */
  lemma DocumentReads(sections: seq<Section>, key: bytes)
    requires sections != [] && MessageDocument(None, sections).Success? && |sections[0].documents| == 1
    requires Validates(sections[0].documents[0])
    ensures var r := MessageDocument(None, sections).value;
            r.Some? && Reads(sections[0].documents[0], sections[1..], r.value, key)
  {
    var d, rest := sections[0].documents[0], sections[1..];
    DocumentExactly(sections);
    CopyDistinct(d);
    CopyIsIdFirst(d);
    AttachExactly(ShallowCopy(d), rest);
    AttachReads(ShallowCopy(d), rest, key);
    IdFirstReads(d, key);
  }

  /** Moving `_id` to the front changes no value. */
  lemma IdFirstReads(fs: Fields, key: bytes)
    requires DistinctKeys(fs) && DistinctKeys(IdFirst(fs))
    ensures Has(IdFirst(fs), key) == Has(fs, key)
    ensures Has(fs, key) ==> Get(IdFirst(fs), key) == Get(fs, key)
  {
    var n, i, r := IndexOf(fs, ID_KEY), IndexOf(fs, key), IdFirst(fs);
    if Has(fs, key) {
      var at := if n == |fs| || i > n then i else if i == n then 0 else i + 1;
      assert r[at] == fs[i];
      IndexIs(r, key, at);
    } else {
      FjsonRoundTrip.IdFirstMembers(fs, key);
    }
  }

  /** `OpMsg.Document`: the loop over the sections. */
  method BuildDocument(sections: seq<Section>) returns (r: Result<Option<Fields>, DecodeError>)
    ensures r.Success? <==> Acceptable(sections)
    ensures r == MessageDocument(None, sections)
  {
    DocumentExactly(sections);
    var doc: Option<Fields> := None;
    var i := 0;
    while i < |sections|
      invariant 0 <= i <= |sections|
      invariant MessageDocument(None, sections) == MessageDocument(doc, sections[i..])
    {
      var s := sections[i];
      if s.kind == 0 {
        if |s.documents| != 1 || doc.Some? {
          return Failure(BadSections);
        }
        doc := Some(ShallowCopy(s.documents[0]));
      } else if s.kind == 1 {
        if s.identifier == [] || doc.None? || Has(doc.value, s.identifier) {
          return Failure(BadSections);
        }
        if exists j :: 0 <= j < |s.documents| && !Validates(s.documents[j]) {
          return Failure(BadSections);
        }
        doc := Some(TrySet(doc.value, s.identifier, DocumentArray(s.documents)));
      } else {
        return Failure(BadKind);
      }
      i := i + 1;
    }
    return Success(doc);
  }
}
