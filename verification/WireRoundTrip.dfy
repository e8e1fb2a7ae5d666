/** Reading undoes writing, and whatever is read can be written back byte for byte. */
module WireRoundTrip {
  import opened Bytes
  import opened Values
  import opened Wrappers
  import opened Bson
  import opened BsonRoundTrip
  import opened BsonCanonical
  import opened Wire

  // ------------------------------------------------------------- fixed width

  lemma Int32Read(n: int32, rest: bytes)
    ensures DecodeInt32(PutInt32(n) + rest) == Success((n, rest))
  {
    ReadFullOf(PutInt32(n), rest);
    GetPut32(n);
    Truncation(n);
  }

  lemma Uint32Read(n: uint32, rest: bytes)
    ensures DecodeUint32(PutInt32(n) + rest) == Success((n, rest))
  {
    ReadFullOf(PutInt32(n), rest);
    GetPut32(n);
  }

  lemma Int64Read(n: int64, rest: bytes)
    ensures DecodeInt64(PutInt64(n) + rest) == Success((n, rest))
  {
    ReadFullOf(PutInt64(n), rest);
    Int64RoundTrip(n);
  }

  lemma Int32Written(b: bytes)
    requires DecodeInt32(b).Success?
    ensures b == PutInt32(DecodeInt32(b).value.0) + DecodeInt32(b).value.1
  {
    PutGet32(b[..4]);
  }

  lemma Uint32Written(b: bytes)
    requires DecodeUint32(b).Success?
    ensures b == PutInt32(DecodeUint32(b).value.0) + DecodeUint32(b).value.1
  {
    PutGet32(b[..4]);
  }

  lemma Int64Written(b: bytes)
    requires DecodeInt64(b).Success?
    ensures b == PutInt64(DecodeInt64(b).value.0) + DecodeInt64(b).value.1
  {
    PutGet64(b[..8]);
  }

  // --------------------------------------------------------- document lists

  lemma ConsDocuments(d: Fields, docs: seq<Fields>)
    requires Encodable(d) && AllEncodable(docs)
    ensures AllEncodable([d] + docs)
    ensures EncodeDocuments([d] + docs) == EncodeDocument(d) + EncodeDocuments(docs)
  {
    assert ([d] + docs)[1..] == docs;
  }

  lemma {:induction false} DocumentsRead(docs: seq<Fields>)
    requires AllEncodable(docs)
    ensures DecodeDocuments(EncodeDocuments(docs)) == Success(docs)
  {
    if docs == [] {
    } else {
      BsonRoundTrip.DocumentRoundTrip(docs[0], EncodeDocuments(docs[1..]));
      DocumentsRead(docs[1..]);
      assert [docs[0]] + docs[1..] == docs;
    }
  }

  lemma {:induction false} DocumentsWritten(b: bytes)
    requires DecodeDocuments(b).Success?
    ensures var docs := DecodeDocuments(b).value;
            b == EncodeDocuments(docs) && AllEncodable(docs)
    decreases |b|
  {
    if b == [] {
    } else {
      DocumentCanonical(b);
      var (d, rest) := DecodeDocument(b).value;
      DocumentsWritten(rest);
      ConsDocuments(d, DecodeDocuments(rest).value);
    }
  }

  lemma {:induction false} CountedRead(docs: seq<Fields>, rest: bytes)
    requires AllEncodable(docs)
    ensures DecodeCounted(EncodeDocuments(docs) + rest, |docs|) == Success((docs, rest))
  {
    if docs == [] {
      assert [] + rest == rest;
    } else {
      var tail := EncodeDocuments(docs[1..]) + rest;
      Assoc(EncodeDocument(docs[0]), EncodeDocuments(docs[1..]), rest);
      BsonRoundTrip.DocumentRoundTrip(docs[0], tail);
      CountedRead(docs[1..], rest);
      assert [docs[0]] + docs[1..] == docs;
    }
  }

  lemma {:induction false} CountedWritten(b: bytes, n: nat)
    requires DecodeCounted(b, n).Success?
    ensures var (docs, rest) := DecodeCounted(b, n).value;
            |docs| == n && b == EncodeDocuments(docs) + rest && AllEncodable(docs)
    decreases n
  {
    if n == 0 {
      assert b == [] + b;
    } else {
      DocumentCanonical(b);
      var (d, b1) := DecodeDocument(b).value;
      CountedWritten(b1, n - 1);
      var (tail, rest) := DecodeCounted(b1, n - 1).value;
      ConsDocuments(d, tail);
      Assoc(EncodeDocument(d), EncodeDocuments(tail), rest);
    }
  }

  // --------------------------------------------------------------- sections

  lemma SectionRead(s: Section, rest: bytes)
    requires WellFormedSection(s) && |EncodeSection(s)| <= MAX_MSG_LEN
    ensures DecodeSection(EncodeSection(s) + rest) == Success((s, rest))
  {
    var b := EncodeSection(s)[1..];
    assert EncodeSection(s) == [s.kind] + b;
    Assoc([s.kind], b, rest);
    ReadFullOf([s.kind], b + rest);
    if s.kind == 0 {
      BsonRoundTrip.DocumentRoundTrip(s.documents[0], rest);
      assert s.documents == [s.documents[0]];
    } else {
      Kind1Read(s, rest);
    }
  }

  lemma Kind1Read(s: Section, rest: bytes)
    requires s.kind == 1 && 0 !in s.identifier && AllEncodable(s.documents)
    requires |SectionBytes(s)| <= MAX_MSG_LEN
    ensures DecodeKind1(EncodeKind1(s) + rest) == Success((s, rest))
  {
    SectionBytesRead(s);
    SizedRead(SectionBytes(s), rest);
    Kind1Of(EncodeKind1(s) + rest, SectionBytes(s), rest, s.identifier, EncodeDocuments(s.documents), s.documents);
  }

  lemma Kind1Of(b: bytes, sec: bytes, rest: bytes, id: bytes, b2: bytes, docs: seq<Fields>)
    requires DecodeSized(b) == Success((sec, rest)) && DecodeCString(sec) == Success((id, b2))
    requires DecodeDocuments(b2) == Success(docs)
    ensures DecodeKind1(b) == Success((Section(1, id, docs), rest))
  {
  }

  lemma SizedRead(sec: bytes, rest: bytes)
    requires 1 <= |sec| <= MAX_MSG_LEN
    ensures DecodeSized(PutInt32(|sec| + 4) + sec + rest) == Success((sec, rest))
  {
    Assoc(PutInt32(|sec| + 4), sec, rest);
    Int32Read(|sec| + 4, sec + rest);
    ReadFullOf(sec, rest);
  }

  lemma SizedWritten(b: bytes)
    requires DecodeSized(b).Success?
    ensures var (sec, rest) := DecodeSized(b).value; b == PutInt32(|sec| + 4) + sec + rest
  {
    Int32Written(b);
    var (sec, rest) := DecodeSized(b).value;
    Assoc(PutInt32(|sec| + 4), sec, rest);
  }

  lemma SectionBytesRead(s: Section)
    requires 0 !in s.identifier && AllEncodable(s.documents)
    ensures DecodeCString(SectionBytes(s)) == Success((s.identifier, EncodeDocuments(s.documents)))
    ensures DecodeDocuments(EncodeDocuments(s.documents)) == Success(s.documents)
  {
    CStringRoundTrip(s.identifier, EncodeDocuments(s.documents));
    DocumentsRead(s.documents);
  }

  lemma SectionWritten(b: bytes)
    requires DecodeSection(b).Success?
    ensures var (s, rest) := DecodeSection(b).value; WellFormedSection(s) && b == EncodeSection(s) + rest
  {
    var b1 := b[1..];
    assert b == [b[0]] + b1;
    if b[0] == 0 {
      DocumentCanonical(b1);
      var (d, rest) := DecodeDocument(b1).value;
      Assoc([0], EncodeDocument(d), rest);
    } else {
      Kind1Written(b1);
      var (s, rest) := DecodeKind1(b1).value;
      Assoc([1], EncodeKind1(s), rest);
    }
  }

  lemma Kind1Written(b: bytes)
    requires DecodeKind1(b).Success?
    ensures var (s, rest) := DecodeKind1(b).value;
            WellFormedSection(s) && s.kind == 1 && b == EncodeKind1(s) + rest
  {
    SizedWritten(b);
    var s := DecodeKind1(b).value.0;
    SectionBytesWritten(DecodeSized(b).value.0, s.identifier, s.documents);
  }

  lemma SectionBytesWritten(sec: bytes, id: bytes, docs: seq<Fields>)
    requires DecodeCString(sec).Success? && DecodeCString(sec).value.0 == id
    requires DecodeDocuments(DecodeCString(sec).value.1) == Success(docs)
    ensures sec == SectionBytes(Section(1, id, docs)) && 0 !in id && AllEncodable(docs)
  {
    CStringCanonical(sec);
    DocumentsWritten(DecodeCString(sec).value.1);
  }

  /** One turn of the section loop. */
  lemma SectionsStep(b: bytes, s: Section, tail: bytes, peek: nat)
    requires DecodeSection(b) == Success((s, tail))
    ensures DecodeSections(b, peek) ==
      if |tail| < peek then Success(([s], tail))
      else match DecodeSections(tail, peek)
        case Success((more, rest)) => Success(([s] + more, rest))
        case Failure(e) => Failure(e)
  {
  }

  /**
   The section loop stops exactly after the last section: what follows is shorter than the
   peek, and every earlier section is followed by a whole section.
   */
  lemma {:induction false} SectionsRead(sections: seq<Section>, rest: bytes, peek: nat)
    requires sections != [] && WellFormedSections(sections)
    requires |EncodeSections(sections)| <= MAX_MSG_LEN
    requires |rest| < peek <= |rest| + 1
    ensures DecodeSections(EncodeSections(sections) + rest, peek) == Success((sections, rest))
  {
    var s, more := sections[0], sections[1..];
    SplitSections(sections, s, more);
    var tail := EncodeSections(more) + rest;
    Assoc(EncodeSection(s), EncodeSections(more), rest);
    if more == [] {
      assert tail == rest && [s] + more == [s];
      LastSectionRead(s, rest, peek);
    } else {
      SectionsRead(more, rest, peek);
      FirstSectionRead(s, more, tail, rest, peek);
    }
  }

  lemma SplitSections(sections: seq<Section>, s: Section, more: seq<Section>)
    requires sections != [] && WellFormedSections(sections) && s == sections[0] && more == sections[1..]
    ensures sections == [s] + more && WellFormedSection(s) && WellFormedSections(more)
    ensures EncodeSections(sections) == EncodeSection(s) + EncodeSections(more)
    ensures more != [] ==> |EncodeSections(more)| >= 1
    ensures more == [] ==> EncodeSections(more) == []
  {
    ConsSections(s, more);
    if more != [] {
      SectionsNotEmpty(more);
    }
  }

  lemma LastSectionRead(s: Section, rest: bytes, peek: nat)
    requires WellFormedSection(s) && |EncodeSection(s)| <= MAX_MSG_LEN && |rest| < peek
    ensures DecodeSections(EncodeSection(s) + rest, peek) == Success(([s], rest))
  {
    SectionRead(s, rest);
    SectionsStep(EncodeSection(s) + rest, s, rest, peek);
  }

  lemma FirstSectionRead(s: Section, more: seq<Section>, tail: bytes, rest: bytes, peek: nat)
    requires WellFormedSection(s) && |EncodeSection(s)| <= MAX_MSG_LEN && |tail| >= peek
    requires DecodeSections(tail, peek) == Success((more, rest))
    ensures DecodeSections(EncodeSection(s) + tail, peek) == Success(([s] + more, rest))
  {
    SectionRead(s, tail);
    SectionsStep(EncodeSection(s) + tail, s, tail, peek);
  }

  lemma {:induction false} SectionsWritten(b: bytes, peek: nat)
    requires DecodeSections(b, peek).Success?
    ensures var (sections, rest) := DecodeSections(b, peek).value;
            && sections != []
            && WellFormedSections(sections)
            && b == EncodeSections(sections) + rest
            && |rest| < peek
    decreases |b|
  {
    SectionWritten(b);
    var (s, b1) := DecodeSection(b).value;
    SectionsStep(b, s, b1, peek);
    if |b1| < peek {
      ConsSections(s, []);
      assert EncodeSections([s] + []) == EncodeSection(s);
    } else {
      SectionsWritten(b1, peek);
      var (more, rest) := DecodeSections(b1, peek).value;
      ConsSections(s, more);
      Assoc(EncodeSection(s), EncodeSections(more), rest);
    }
  }

  lemma SectionsNotEmpty(sections: seq<Section>)
    requires sections != [] && SectionsMarshal(sections)
    ensures |EncodeSections(sections)| >= 1
  {
  }

  lemma ConsSections(s: Section, more: seq<Section>)
    requires WellFormedSection(s) && WellFormedSections(more)
    ensures WellFormedSections([s] + more)
    ensures EncodeSections([s] + more) == EncodeSection(s) + EncodeSections(more)
  {
    assert ([s] + more)[1..] == more;
  }

  // ------------------------------------------------------------------ bodies

  lemma OpMsgRead(body: Body)
    requires body.OpMsg? && WellFormedBody(body) && Marshals(body) && |EncodeBody(body)| <= MAX_MSG_LEN
    ensures DecodeOpMsg(EncodeBody(body)) == Success((body, []))
  {
    var OpMsg(flags, checksum, sections) := body;
    var tail := if ChecksumPresent(flags) then PutInt32(checksum) else [];
    Uint32Read(flags, EncodeSections(sections) + tail);
    SectionsRead(sections, tail, if ChecksumPresent(flags) then 5 else 1);
    Uint32Read(checksum, []);
    assert PutInt32(checksum) + [] == PutInt32(checksum);
  }

  lemma OpMsgWritten(b: bytes)
    requires DecodeOpMsg(b).Success? && DecodeOpMsg(b).value.1 == []
    ensures var body := DecodeOpMsg(b).value.0;
            body.OpMsg? && WellFormedBody(body) && Marshals(body) && b == EncodeBody(body)
  {
    Uint32Written(b);
    var (flags, b1) := DecodeUint32(b).value;
    var peek := if ChecksumPresent(flags) then 5 else 1;
    SectionsWritten(b1, peek);
    var (sections, b2) := DecodeSections(b1, peek).value;
    if ChecksumPresent(flags) {
      Uint32Written(b2);
      assert b2 == PutInt32(DecodeUint32(b2).value.0);
    }
  }

  lemma SelectorRead(selector: Option<Fields>)
    requires selector.Some? ==> Encodable(selector.value)
    ensures DecodeSelector(if selector.Some? then EncodeDocument(selector.value) else []) == Success((selector, []))
  {
    if selector.Some? {
      BsonRoundTrip.DocumentRoundTrip(selector.value, []);
      assert EncodeDocument(selector.value) + [] == EncodeDocument(selector.value);
    }
  }

  lemma OpQueryRead(body: Body)
    requires body.OpQuery? && WellFormedBody(body)
    ensures DecodeOpQuery(EncodeBody(body)) == Success((body, []))
  {
    var OpQuery(flags, collection, toSkip, toReturn, query, selector) := body;
    var b5 := if selector.Some? then EncodeDocument(selector.value) else [];
    var b4 := EncodeDocument(query) + b5;
    var b3 := PutInt32(toReturn) + b4;
    var b2 := PutInt32(toSkip) + b3;
    Uint32Read(flags, EncodeCString(collection) + b2);
    CStringRoundTrip(collection, b2);
    Int32Read(toSkip, b3);
    Int32Read(toReturn, b4);
    BsonRoundTrip.DocumentRoundTrip(query, b5);
    SelectorRead(selector);
  }

  lemma OpQueryWritten(b: bytes)
    requires DecodeOpQuery(b).Success? && DecodeOpQuery(b).value.1 == []
    ensures var body := DecodeOpQuery(b).value.0;
            body.OpQuery? && WellFormedBody(body) && b == EncodeBody(body)
  {
    Uint32Written(b);
    var b1 := DecodeUint32(b).value.1;
    CStringCanonical(b1);
    var b2 := DecodeCString(b1).value.1;
    Int32Written(b2);
    var b3 := DecodeInt32(b2).value.1;
    Int32Written(b3);
    var b4 := DecodeInt32(b3).value.1;
    DocumentCanonical(b4);
    var b5 := DecodeDocument(b4).value.1;
    if b5 != [] {
      DocumentCanonical(b5);
      assert b5 == EncodeDocument(DecodeDocument(b5).value.0);
    }
  }

  lemma OpReplyRead(body: Body)
    requires body.OpReply? && WellFormedBody(body) && Marshals(body)
    ensures DecodeOpReply(EncodeBody(body)) == Success((body, []))
  {
    var OpReply(flags, cursorId, startingFrom, n, docs) := body;
    var b4 := EncodeDocuments(docs);
    var b3 := PutInt32(n) + b4;
    var b2 := PutInt32(startingFrom) + b3;
    Uint32Read(flags, PutInt64(cursorId) + b2);
    Int64Read(cursorId, b2);
    Int32Read(startingFrom, b3);
    Int32Read(n, b4);
    CountedRead(docs, []);
    assert b4 + [] == b4;
  }

  lemma OpReplyWritten(b: bytes)
    requires DecodeOpReply(b).Success? && DecodeOpReply(b).value.1 == []
    ensures var body := DecodeOpReply(b).value.0;
            body.OpReply? && WellFormedBody(body) && Marshals(body) && b == EncodeBody(body)
  {
    Uint32Written(b);
    var b1 := DecodeUint32(b).value.1;
    Int64Written(b1);
    var b2 := DecodeInt64(b1).value.1;
    Int32Written(b2);
    var b3 := DecodeInt32(b2).value.1;
    Int32Written(b3);
    var (n, b4) := DecodeInt32(b3).value;
    CountedWritten(b4, n);
    var docs := DecodeCounted(b4, n).value.0;
    assert b4 == EncodeDocuments(docs);
    Truncation(|docs|);
  }

  lemma BodyRead(body: Body)
    requires WellFormedBody(body) && Marshals(body) && |EncodeBody(body)| <= MAX_MSG_LEN
    ensures UnmarshalBody(OpCodeOf(body), EncodeBody(body)) == Success(body)
  {
    match body
    case OpMsg(_, _, _) => OpMsgRead(body);
    case OpQuery(_, _, _, _, _, _) => OpQueryRead(body);
    case OpReply(_, _, _, _, _) => OpReplyRead(body);
  }

  lemma BodyWritten(opCode: int32, b: bytes)
    requires UnmarshalBody(opCode, b).Success?
    ensures var body := UnmarshalBody(opCode, b).value;
            opCode == OpCodeOf(body) && WellFormedBody(body) && Marshals(body) && b == EncodeBody(body)
  {
    if opCode == OP_REPLY { OpReplyWritten(b); }
    else if opCode == OP_MSG { OpMsgWritten(b); }
    else { OpQueryWritten(b); }
  }

  // ---------------------------------------------------------------- messages

  lemma HeaderRead(h: Header, rest: bytes)
    requires HEADER_LEN <= h.messageLength <= MAX_MSG_LEN
    ensures DecodeHeader(EncodeHeader(h) + rest) == Success((h, rest))
  {
    var b3 := PutInt32(h.opCode) + rest;
    var b2 := PutInt32(h.responseTo) + b3;
    var b1 := PutInt32(h.requestId) + b2;
    assert EncodeHeader(h) + rest == PutInt32(h.messageLength) + b1;
    Int32Read(h.messageLength, b1);
    Int32Read(h.requestId, b2);
    Int32Read(h.responseTo, b3);
    Int32Read(h.opCode, rest);
  }

  lemma HeaderWritten(b: bytes)
    requires DecodeHeader(b).Success?
    ensures var (h, rest) := DecodeHeader(b).value;
            b == EncodeHeader(h) + rest && HEADER_LEN <= h.messageLength <= MAX_MSG_LEN
  {
    Int32Written(b);
    var b1 := DecodeInt32(b).value.1;
    Int32Written(b1);
    var b2 := DecodeInt32(b1).value.1;
    Int32Written(b2);
    var b3 := DecodeInt32(b2).value.1;
    Int32Written(b3);
    var (h, rest) := DecodeHeader(b).value;
    var tail := PutInt32(h.responseTo) + (PutInt32(h.opCode) + rest);
    assert b == PutInt32(h.messageLength) + (PutInt32(h.requestId) + tail);
  }

  /** A well-formed message is read back whole, and what follows it is left unread. */
  lemma MessageRead(h: Header, body: Body, rest: bytes)
    requires WellFormedMessage(h, body)
    ensures ToInt32(|EncodeBody(body)| + HEADER_LEN) == h.messageLength
    ensures ReadMessage(WriteMessage(h, body) + rest) == Success(((h, body), rest))
  {
    Truncation(|EncodeBody(body)| + HEADER_LEN);
    Assoc(EncodeHeader(h), EncodeBody(body), rest);
    FrameRead(h, EncodeBody(body), rest);
    BodyRead(body);
  }

  /** Whatever `ReadMessage` accepts is exactly what `WriteMessage` writes for it. */
  lemma MessageWritten(b: bytes) returns (h: Header, body: Body, rest: bytes)
    requires ReadMessage(b).Success?
    ensures ReadMessage(b) == Success(((h, body), rest)) && WellFormedMessage(h, body)
    ensures ToInt32(|EncodeBody(body)| + HEADER_LEN) == h.messageLength
    ensures b == WriteMessage(h, body) + rest
  {
    FrameWritten(b);
    h, body := ReadFrame(b).value.0.0, ReadMessage(b).value.0.1;
    var s := ReadFrame(b).value.0.1;
    rest := ReadFrame(b).value.1;
    BodyWritten(h.opCode, s);
    MessageParts(h, body, s, rest);
  }

  lemma FrameWritten(b: bytes)
    requires ReadFrame(b).Success?
    ensures var ((h, s), rest) := ReadFrame(b).value;
            && HEADER_LEN <= h.messageLength <= MAX_MSG_LEN
            && |s| == h.messageLength - HEADER_LEN
            && b == EncodeHeader(h) + (s + rest)
  {
    HeaderWritten(b);
    var (h, b1) := DecodeHeader(b).value;
    var (s, rest) := ReadFull(b1, h.messageLength - HEADER_LEN).value;
    assert b1 == s + rest;
  }

  lemma FrameRead(h: Header, s: bytes, rest: bytes)
    requires HEADER_LEN <= h.messageLength <= MAX_MSG_LEN && |s| == h.messageLength - HEADER_LEN
    ensures ReadFrame(EncodeHeader(h) + (s + rest)) == Success(((h, s), rest))
  {
    HeaderRead(h, s + rest);
    ReadFullOf(s, rest);
  }

  lemma MessageParts(h: Header, body: Body, s: bytes, rest: bytes)
    requires HEADER_LEN <= h.messageLength <= MAX_MSG_LEN && |s| == h.messageLength - HEADER_LEN
    requires Marshals(body) && s == EncodeBody(body)
    ensures ToInt32(|EncodeBody(body)| + HEADER_LEN) == h.messageLength
    ensures EncodeHeader(h) + (s + rest) == WriteMessage(h, body) + rest
  {
    LengthFits(h, body);
    Assoc(EncodeHeader(h), s, rest);
  }

  lemma LengthFits(h: Header, body: Body)
    requires Marshals(body) && HEADER_LEN <= h.messageLength == |EncodeBody(body)| + HEADER_LEN
    ensures ToInt32(|EncodeBody(body)| + HEADER_LEN) == h.messageLength
  {
    Truncation(|EncodeBody(body)| + HEADER_LEN);
  }

  /** Among the messages `WriteMessage` accepts, exactly the well-formed ones are read back. */
  lemma MessageRoundTripExactly(h: Header, body: Body, rest: bytes)
    requires Marshals(body) && ToInt32(|EncodeBody(body)| + HEADER_LEN) == h.messageLength
    ensures ReadMessage(WriteMessage(h, body) + rest) == Success(((h, body), rest)) <==> WellFormedMessage(h, body)
  {
    if WellFormedMessage(h, body) {
      MessageRead(h, body, rest);
    } else if ReadMessage(WriteMessage(h, body) + rest) == Success(((h, body), rest)) {
      var h', body', rest' := MessageWritten(WriteMessage(h, body) + rest);
      assert false;
    }
  }
}
