/** Where the parts of a message lie, and the numbers of the wire protocol. */
module WireLayout {
  import opened Bytes
  import opened Values
  import opened Wrappers
  import opened Bson
  import opened Wire
  import MessageDocuments
  import WireRoundTrip

  lemma HeaderLayout(h: Header)
    ensures var head := EncodeHeader(h);
            && head[0..4] == PutInt32(h.messageLength) && head[4..8] == PutInt32(h.requestId)
            && head[8..12] == PutInt32(h.responseTo) && head[12..16] == PutInt32(h.opCode)
  {
  }

  /** The length that is written is the length of the whole message. */
  lemma WrittenLength(n: nat, length: int32)
    requires ToInt32(n) == length
    ensures PutInt32(length) == PutInt32(n)
  {
    Truncation(n);
  }

  lemma Slices(head: bytes, body: bytes)
    requires |head| == 16
    ensures var b := head + body;
            && b[0..4] == head[0..4] && b[4..8] == head[4..8] && b[8..12] == head[8..12] && b[12..16] == head[12..16]
            && b[16..] == body
  {
  }

  /** Length, request, response and operation code, four bytes each, then the body. */
  lemma MessageLayout(h: Header, body: Body)
    requires Marshals(body) && ToInt32(|EncodeBody(body)| + HEADER_LEN) == h.messageLength
    ensures var b := WriteMessage(h, body);
            && |b| >= 16
            && b[0..4] == PutInt32(|b|)
            && b[4..8] == PutInt32(h.requestId)
            && b[8..12] == PutInt32(h.responseTo)
            && b[12..16] == PutInt32(h.opCode)
            && b[16..] == EncodeBody(body)
  {
    HeaderLayout(h);
    Slices(EncodeHeader(h), EncodeBody(body));
    WrittenLength(|WriteMessage(h, body)|, h.messageLength);
  }

  /** The flags come first, the checksum last if bit 0 of the flags is set, and the sections between. */
  lemma OpMsgLayout(flags: uint32, checksum: uint32, sections: seq<Section>)
    requires Marshals(OpMsg(flags, checksum, sections))
    ensures EncodeBody(OpMsg(flags, checksum, sections))
         == PutInt32(flags) + (EncodeSections(sections) + if flags % 2 == 1 then PutInt32(checksum) else [])
  {
  }

  /** Kind 0 is one document; kind 1 is its own size, the identifier and the documents. */
  lemma SectionLayout(s: Section)
    requires SectionMarshals(s)
    ensures s.kind == 0 ==> EncodeSection(s) == [0x00] + EncodeDocument(s.documents[0])
    ensures s.kind == 1 ==>
      var payload := s.identifier + [0] + EncodeDocuments(s.documents);
      EncodeSection(s) == [0x01] + (PutInt32(4 + |payload|) + payload)
  {
  }

  /** What each body must be, with the limits written out. */
  ghost predicate ReadableBody(body: Body)
  {
    match body
    case OpMsg(flags, checksum, sections) =>
      && sections != [] && WellFormedSections(sections) && MessageDocuments.Acceptable(sections)
      && (flags % 2 == 0 ==> checksum == 0)
    case OpQuery(_, collection, _, _, query, selector) =>
      0 !in collection && Encodable(query) && (selector.Some? ==> Encodable(selector.value))
    case OpReply(_, _, _, n, docs) => |docs| == n <= 1000 && AllEncodable(docs)
  }

  lemma ReadableBodies(body: Body)
    ensures WellFormedBody(body) <==> ReadableBody(body)
  {
    if body.OpMsg? {
      MessageDocuments.DocumentExactly(body.sections);
    }
  }

  /** The messages that can be read: the operation code names the body, and the length is at most 48000000. */
  lemma ReadableExactly(h: Header, body: Body, rest: bytes)
    requires Marshals(body) && ToInt32(|EncodeBody(body)| + HEADER_LEN) == h.messageLength
    ensures ReadMessage(WriteMessage(h, body) + rest) == Success(((h, body), rest)) <==>
              && ReadableBody(body)
              && |EncodeBody(body)| + 16 <= 48000000
              && h.opCode == if body.OpReply? then 1 else if body.OpQuery? then 2004 else 2013
  {
    WireRoundTrip.MessageRoundTripExactly(h, body, rest);
    ReadableBodies(body);
    Truncation(|EncodeBody(body)| + 16);
  }
}
