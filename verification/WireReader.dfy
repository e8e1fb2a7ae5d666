/** The loops of `OpMsg.readFrom` and `OpReply.readFrom` over a reader. */
module WireReader {
  import opened Bytes
  import opened Values
  import opened Wrappers
  import opened Bson
  import BsonDocument
  import opened Wire

  type Reader = BsonDocument.Reader

  /** `bson.Document.ReadFrom` followed by `types.ConvertDocument`. */
  method ReadDocument(r: Reader) returns (d: Result<Fields, DecodeError>)
    modifies r
    ensures match DecodeDocument(old(r.rest))
            case Success((fs, after)) => d == Success(fs) && r.rest == after
            case Failure(e) => d == Failure(e)
  {
    var doc := new BsonDocument.Document();
    var err := doc.ReadFrom(r);
    if err != None {
      return Failure(err.value);
    }
    d := Success(BsonDocument.FieldsOf(doc.keys, doc.m, DecodeDocument(old(r.rest)).value.0));
  }

  /** The documents of a kind 1 section, until the section is used up. */
  method ReadDocuments(secr: Reader) returns (res: Result<seq<Fields>, DecodeError>)
    modifies secr
    ensures res == DecodeDocuments(old(secr.rest))
  {
    var docs: seq<Fields> := [];
    PrependNothing(DecodeDocuments(secr.rest));
    while secr.rest != []
      invariant DecodeDocuments(old(secr.rest)) == Prepend(docs, DecodeDocuments(secr.rest))
      decreases |secr.rest|
    {
      var d := ReadDocument(secr);
      if d.Failure? {
        return Failure(d.error);
      }
      PrependOne(docs, d.value, DecodeDocuments(secr.rest));
      docs := docs + [d.value];
    }
    assert docs + [] == docs;
    return Success(docs);
  }

  /** One section, its kind 1 documents read from a buffer of the announced size. */
  method ReadSection(bufr: Reader) returns (res: Result<Section, DecodeError>)
    modifies bufr
    ensures match DecodeSection(old(bufr.rest))
            case Success((s, after)) => res == Success(s) && bufr.rest == after
            case Failure(e) => res == Failure(e)
  {
    var kind := bufr.ReadFull(1);
    if kind.Failure? {
      return Failure(kind.error);
    }
    if kind.value[0] == 0 {
      var d := ReadDocument(bufr);
      if d.Failure? {
        return Failure(d.error);
      }
      return Success(Section(0, [], [d.value]));
    }
    if kind.value[0] != 1 {
      return Failure(BadKind);
    }
    res := ReadKind1(bufr);
  }

  method ReadSized(bufr: Reader) returns (res: Result<bytes, DecodeError>)
    modifies bufr
    ensures match DecodeSized(old(bufr.rest))
            case Success((sec, after)) => res == Success(sec) && bufr.rest == after
            case Failure(e) => res == Failure(e)
  {
    var h := bufr.ReadFull(4);
    if h.Failure? {
      return Failure(h.error);
    }
    var size := GetInt32(h.value);
    if size < 5 {
      return Failure(BadLength);
    }
    res := bufr.ReadFull(size - 4);
  }

  method ReadKind1(bufr: Reader) returns (res: Result<Section, DecodeError>)
    modifies bufr
    ensures match DecodeKind1(old(bufr.rest))
            case Success((s, after)) => res == Success(s) && bufr.rest == after
            case Failure(e) => res == Failure(e)
  {
    var sec := ReadSized(bufr);
    if sec.Failure? {
      return Failure(sec.error);
    }
    var secr := new BsonDocument.Reader(sec.value);
    var id := secr.ReadCString();
    if id.Failure? {
      return Failure(id.error);
    }
    var docs := ReadDocuments(secr);
    if docs.Failure? {
      return Failure(docs.error);
    }
    res := Success(Section(1, id.value, docs.value));
  }

  /** The section loop of `OpMsg.readFrom`: it ends when a peek hits the end of the message. */
  method ReadSections(bufr: Reader, peek: nat) returns (res: Result<seq<Section>, DecodeError>)
    modifies bufr
    ensures match DecodeSections(old(bufr.rest), peek)
            case Success((ss, after)) => res == Success(ss) && bufr.rest == after
            case Failure(e) => res == Failure(e)
  {
    var sections: seq<Section> := [];
    PrependNothingTo(DecodeSections(bufr.rest, peek));
    while true
      invariant DecodeSections(old(bufr.rest), peek) == PrependTo(sections, DecodeSections(bufr.rest, peek))
      decreases |bufr.rest|
    {
      var s := ReadSection(bufr);
      if s.Failure? {
        return Failure(s.error);
      }
      PrependOneTo(sections, s.value, DecodeSections(bufr.rest, peek));
      sections := sections + [s.value];
      if |bufr.rest| < peek {
        return Success(sections);
      }
    }
  }

  /** The counted loop of `OpReply.readFrom`. */
  method ReadCounted(bufr: Reader, n: nat) returns (res: Result<seq<Fields>, DecodeError>)
    modifies bufr
    ensures match DecodeCounted(old(bufr.rest), n)
            case Success((docs, after)) => res == Success(docs) && bufr.rest == after
            case Failure(e) => res == Failure(e)
  {
    var docs: seq<Fields> := [];
    PrependNothingTo(DecodeCounted(bufr.rest, n));
    for i := 0 to n
      invariant DecodeCounted(old(bufr.rest), n) == PrependTo(docs, DecodeCounted(bufr.rest, n - i))
    {
      var d := ReadDocument(bufr);
      if d.Failure? {
        return Failure(d.error);
      }
      PrependOneTo(docs, d.value, DecodeCounted(bufr.rest, n - i - 1));
      docs := docs + [d.value];
    }
    assert docs + [] == docs;
    return Success(docs);
  }
}
