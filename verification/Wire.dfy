/** Wire protocol messages: the header and the OP_MSG, OP_QUERY and OP_REPLY bodies of package `wire`. */
module Wire {
  import opened Bytes
  import opened Values
  import opened Wrappers
  import opened Bson

  const HEADER_LEN := 16
  const MAX_MSG_LEN := 48000000
  const MAX_NUMBER_RETURNED := 1000

  const OP_REPLY := 1
  const OP_QUERY := 2004
  const OP_MSG := 2013

  datatype Header = Header(messageLength: int32, requestId: int32, responseTo: int32, opCode: int32)

  datatype Section = Section(kind: byte, identifier: bytes, documents: seq<Fields>)

  datatype Body =
    | OpMsg(flags: uint32, checksum: uint32, sections: seq<Section>)
    | OpQuery(flags: uint32, collection: bytes, toSkip: int32, toReturn: int32, query: Fields, selector: Option<Fields>)
    | OpReply(flags: uint32, cursorId: int64, startingFrom: int32, numberReturned: int32, documents: seq<Fields>)

  predicate ChecksumPresent(flags: uint32)
  {
    flags % 2 == 1
  }

  // ------------------------------------------------ the document of a message

  /** `doc.Set` with its error ignored. */
  function TrySet(doc: Fields, key: bytes, value: Value): Fields
  {
    if ValidKey(key) && (value.Document? ==> Validates(value.fields)) then SetField(doc, key, value) else doc
  }

  function ShallowCopy(d: Fields): Fields
  {
    if d == [] then []
    else
      var f := d[|d| - 1];
      TrySet(ShallowCopy(d[..|d| - 1]), f.key, f.value)
  }

  function DocumentArray(docs: seq<Fields>): Value
  {
    Array(seq(|docs|, i requires 0 <= i < |docs| => Document(docs[i])))
  }

  /** One turn of the loop in `OpMsg.Document`. */
  function AddSection(doc: Option<Fields>, s: Section): Result<Option<Fields>, DecodeError>
  {
    if s.kind == 0 then
      if |s.documents| != 1 || doc.Some? then Failure(BadSections)
      else Success(Some(ShallowCopy(s.documents[0])))
    else if s.kind == 1 then
      if s.identifier == [] || doc.None? || Has(doc.value, s.identifier)
         || exists i :: 0 <= i < |s.documents| && !Validates(s.documents[i])
      then Failure(BadSections)
      else Success(Some(TrySet(doc.value, s.identifier, DocumentArray(s.documents))))
    else Failure(BadKind)
  }

  /** `OpMsg.Document`. */
  function MessageDocument(doc: Option<Fields>, sections: seq<Section>): Result<Option<Fields>, DecodeError>
    decreases |sections|
  {
    if sections == [] then Success(doc)
    else
      var doc' :- AddSection(doc, sections[0]);
      MessageDocument(doc', sections[1..])
  }

  // --------------------------------------------------------------- encoding

  function EncodeDocuments(docs: seq<Fields>): bytes
  {
    if docs == [] then [] else EncodeDocument(docs[0]) + EncodeDocuments(docs[1..])
  }

  function SectionBytes(s: Section): bytes
  {
    EncodeCString(s.identifier) + EncodeDocuments(s.documents)
  }

  function EncodeKind1(s: Section): bytes
  {
    PutInt32(|SectionBytes(s)| + 4) + SectionBytes(s)
  }

  predicate SectionMarshals(s: Section)
  {
    (s.kind == 0 && |s.documents| == 1) || s.kind == 1
  }

  function EncodeSection(s: Section): bytes
    requires SectionMarshals(s)
  {
    if s.kind == 0 then [0] + EncodeDocument(s.documents[0]) else [1] + EncodeKind1(s)
  }

  predicate SectionsMarshal(sections: seq<Section>)
  {
    forall i :: 0 <= i < |sections| ==> SectionMarshals(sections[i])
  }

  function EncodeSections(sections: seq<Section>): bytes
    requires SectionsMarshal(sections)
  {
    if sections == [] then [] else EncodeSection(sections[0]) + EncodeSections(sections[1..])
  }

  /** `bson.ConvertDocument` and the conversion of what the documents hold succeed. */
  predicate Convert(docs: seq<Fields>)
  {
    forall i :: 0 <= i < |docs| ==> WellFormed(Document(docs[i]))
  }

  predicate SectionsConvert(sections: seq<Section>)
  {
    forall i :: 0 <= i < |sections| ==> Convert(sections[i].documents)
  }

  /** Whether `MarshalBinary` returns bytes rather than an error or a panic. */
  predicate Marshals(body: Body)
  {
    match body
    case OpMsg(_, _, sections) => SectionsMarshal(sections) && SectionsConvert(sections)
    case OpQuery(_, _, _, _, query, selector) =>
      Convert([query]) && (selector.Some? ==> Convert([selector.value]))
    case OpReply(_, _, _, n, docs) => ToInt32(|docs|) == n && Convert(docs)
  }

  /** `MarshalBinary` of the three body types. */
  function EncodeBody(body: Body): bytes
    requires Marshals(body)
  {
    match body
    case OpMsg(flags, checksum, sections) =>
      PutInt32(flags) + (EncodeSections(sections) + if ChecksumPresent(flags) then PutInt32(checksum) else [])
    case OpQuery(flags, collection, toSkip, toReturn, query, selector) =>
      PutInt32(flags) + (EncodeCString(collection) + (PutInt32(toSkip) + (PutInt32(toReturn) +
        (EncodeDocument(query) + if selector.Some? then EncodeDocument(selector.value) else []))))
    case OpReply(flags, cursorId, startingFrom, n, docs) =>
      PutInt32(flags) + (PutInt64(cursorId) + (PutInt32(startingFrom) + (PutInt32(n) + EncodeDocuments(docs))))
  }

  function EncodeHeader(h: Header): (b: bytes)
    ensures |b| == HEADER_LEN
  {
    PutInt32(h.messageLength) + (PutInt32(h.requestId) + (PutInt32(h.responseTo) + PutInt32(h.opCode)))
  }

  /** `WriteMessage`, which panics unless the header announces the length of the body. */
  function WriteMessage(h: Header, body: Body): bytes
    requires Marshals(body) && ToInt32(|EncodeBody(body)| + HEADER_LEN) == h.messageLength
  {
    EncodeHeader(h) + EncodeBody(body)
  }

  // --------------------------------------------------------------- decoding

  function DecodeInt32(b: bytes): Decoded<int32>
  {
    var (s, rest) :- ReadFull(b, 4);
    Success((GetInt32(s), rest))
  }

  function DecodeUint32(b: bytes): Decoded<uint32>
  {
    var (s, rest) :- ReadFull(b, 4);
    Success((GetUint32(s), rest))
  }

  function DecodeInt64(b: bytes): Decoded<int64>
  {
    var (s, rest) :- ReadFull(b, 8);
    Success((GetInt64(s), rest))
  }

  /** Documents up to the end of the section. */
  function DecodeDocuments(b: bytes): Result<seq<Fields>, DecodeError>
    decreases |b|
  {
    if b == [] then Success([])
    else
      var (d, rest) :- DecodeDocument(b);
      var docs :- DecodeDocuments(rest);
      Success([d] + docs)
  }

  /** A size that counts itself, and the bytes it announces. */
  function DecodeSized(b: bytes): (r: Decoded<bytes>)
    ensures r.Success? ==> |b| == 4 + |r.value.0| + |r.value.1|
  {
    var (size, b1) :- DecodeInt32(b);
    if size < 5 then Failure(BadLength) else ReadFull(b1, size - 4)
  }

  /** A kind 1 section after its kind byte: a size, an identifier and documents. */
  function DecodeKind1(b: bytes): (r: Decoded<Section>)
    ensures r.Success? ==> |r.value.1| <= |b|
  {
    var (sec, rest) :- DecodeSized(b);
    var (id, b2) :- DecodeCString(sec);
    var docs :- DecodeDocuments(b2);
    Success((Section(1, id, docs), rest))
  }

  function DecodeSection(b: bytes): (r: Decoded<Section>)
    ensures r.Success? ==> |r.value.1| < |b|
  {
    var (kind, b1) :- ReadFull(b, 1);
    if kind[0] == 0 then
      var (d, rest) :- DecodeDocument(b1);
      Success((Section(0, [], [d]), rest))
    else if kind[0] == 1 then DecodeKind1(b1)
    else Failure(BadKind)
  }

  /** Sections until fewer than `peek` bytes are left. */
  function DecodeSections(b: bytes, peek: nat): Decoded<seq<Section>>
    decreases |b|
  {
    var (s, rest) :- DecodeSection(b);
    if |rest| < peek then Success(([s], rest))
    else
      var (more, rest') :- DecodeSections(rest, peek);
      Success(([s] + more, rest'))
  }

  function DecodeOpMsg(b: bytes): Decoded<Body>
  {
    var (flags, b1) :- DecodeUint32(b);
    var (sections, b2) :- DecodeSections(b1, if ChecksumPresent(flags) then 5 else 1);
    var (checksum, rest) :- if ChecksumPresent(flags) then DecodeUint32(b2) else Success((0, b2));
    var _ :- MessageDocument(None, sections);
    Success((OpMsg(flags, checksum, sections), rest))
  }

  function DecodeSelector(b: bytes): Decoded<Option<Fields>>
  {
    if b == [] then Success((None, b))
    else
      var (d, rest) :- DecodeDocument(b);
      Success((Some(d), rest))
  }

  function DecodeOpQuery(b: bytes): Decoded<Body>
  {
    var (flags, b1) :- DecodeUint32(b);
    var (collection, b2) :- DecodeCString(b1);
    var (toSkip, b3) :- DecodeInt32(b2);
    var (toReturn, b4) :- DecodeInt32(b3);
    var (query, b5) :- DecodeDocument(b4);
    var (selector, rest) :- DecodeSelector(b5);
    Success((OpQuery(flags, collection, toSkip, toReturn, query, selector), rest))
  }

  function DecodeCounted(b: bytes, n: nat): Decoded<seq<Fields>>
  {
    if n == 0 then Success(([], b))
    else
      var (d, b1) :- DecodeDocument(b);
      var (docs, rest) :- DecodeCounted(b1, n - 1);
      Success(([d] + docs, rest))
  }

  function DecodeOpReply(b: bytes): Decoded<Body>
  {
    var (flags, b1) :- DecodeUint32(b);
    var (cursorId, b2) :- DecodeInt64(b1);
    var (startingFrom, b3) :- DecodeInt32(b2);
    var (n, b4) :- DecodeInt32(b3);
    if n < 0 || n > MAX_NUMBER_RETURNED then Failure(BadCount) else
    var (docs, rest) :- DecodeCounted(b4, n);
    Success((OpReply(flags, cursorId, startingFrom, n, docs), rest))
  }

  /** `UnmarshalBinary`: the body must end where the message does. */
  function UnmarshalBody(opCode: int32, b: bytes): Result<Body, DecodeError>
  {
    var (body, rest) :-
      if opCode == OP_REPLY then DecodeOpReply(b)
      else if opCode == OP_MSG then DecodeOpMsg(b)
      else if opCode == OP_QUERY then DecodeOpQuery(b)
      else Failure(BadOpCode);
    if rest == [] then Success(body) else Failure(BytesAfterEnd)
  }

  function DecodeHeader(b: bytes): Decoded<Header>
  {
    var (messageLength, b1) :- DecodeInt32(b);
    var (requestId, b2) :- DecodeInt32(b1);
    var (responseTo, b3) :- DecodeInt32(b2);
    var (opCode, rest) :- DecodeInt32(b3);
    if messageLength < HEADER_LEN || messageLength > MAX_MSG_LEN then Failure(BadLength)
    else Success((Header(messageLength, requestId, responseTo, opCode), rest))
  }

  /** A header, and as many bytes as it announces. */
  function ReadFrame(b: bytes): Decoded<(Header, bytes)>
  {
    var (h, b1) :- DecodeHeader(b);
    var (s, rest) :- ReadFull(b1, h.messageLength - HEADER_LEN);
    Success(((h, s), rest))
  }

  /** `ReadMessage`. */
  function ReadMessage(b: bytes): Decoded<(Header, Body)>
  {
    var ((h, s), rest) :- ReadFrame(b);
    var body :- UnmarshalBody(h.opCode, s);
    Success(((h, body), rest))
  }

  // ------------------------------------------------- messages worth sending

  predicate AllEncodable(docs: seq<Fields>)
  {
    forall i :: 0 <= i < |docs| ==> Encodable(docs[i])
  }

  predicate WellFormedSection(s: Section)
  {
    && SectionMarshals(s)
    && (s.kind == 0 ==> s.identifier == [])
    && 0 !in s.identifier
    && AllEncodable(s.documents)
  }

  predicate WellFormedSections(sections: seq<Section>): (r: bool)
    ensures r ==> SectionsMarshal(sections)
  {
    forall i :: 0 <= i < |sections| ==> WellFormedSection(sections[i])
  }

  predicate WellFormedBody(body: Body)
  {
    match body
    case OpMsg(flags, checksum, sections) =>
      && sections != []
      && WellFormedSections(sections)
      && MessageDocument(None, sections).Success?
      && (!ChecksumPresent(flags) ==> checksum == 0)
    case OpQuery(_, collection, _, _, query, selector) =>
      && 0 !in collection
      && Encodable(query)
      && (selector.Some? ==> Encodable(selector.value))
    case OpReply(_, _, _, n, docs) =>
      && |docs| == n <= MAX_NUMBER_RETURNED
      && AllEncodable(docs)
  }

  function OpCodeOf(body: Body): int32
  {
    match body
    case OpMsg(_, _, _) => OP_MSG
    case OpQuery(_, _, _, _, _, _) => OP_QUERY
    case OpReply(_, _, _, _, _) => OP_REPLY
  }

  /** Exactly the messages `ReadMessage` can return. */
  predicate WellFormedMessage(h: Header, body: Body)
  {
    && WellFormedBody(body)
    && Marshals(body)
    && h.messageLength == |EncodeBody(body)| + HEADER_LEN <= MAX_MSG_LEN
    && h.opCode == OpCodeOf(body)
  }
}
