# FerretDB in Dafny

A model of the parts of FerretDB that turn client bytes into stored rows and back, with proofs
about them: the BSON codec, the wire protocol, FJSON (the JSON that PostgreSQL stores), documents
and their paths, the fetch protocol between the store and a command handler, the delete command,
the catalog of databases and collections, comparison, sorting, filters, TJSON with its schemas,
and a few smaller algorithms (`$slice`, `$bits`, the log buffer).

`dafny verify dfyconfig.toml` checks everything. The project uses no axioms and no assumptions.

## How it is modelled

- **Bytes and numbers.** Go strings are byte sequences. 32- and 64-bit integers are subset types
  and every place where Go truncates or wraps is written out. A double is its 64 bits; where its
  value matters it is an exact integer, the value times 2^1074, so comparisons with integers are exact.
- **Documents.** A document is the sequence of its fields. Where the source updates the `keys`
  slice and the `m` map in place, `BsonDocument.Document` and `Documents.OrderedDocument` are classes with
  those two fields, kept in agreement. Paths are modelled on an explicit heap of document and array
  nodes (`Store`, `Paths`, `Memory`), so that aliasing, update in place and what stays unchanged can be stated.
- **Panics.** A Go panic is an explicit outcome (`None`, `Panic`, `Panicked`), not a precondition, with the
  exceptions named under "Left out".
- **JSON** is a syntax tree. The text of a number is a byte string; formatting and parsing floats and
  dates are function-valued parameters with a stated contract (`Doubles.FloatText.Exact`, `Tjson.Codecs.Exact`).
- **Loops.** Code that works by changing variables step by step is a method with a loop, proved equal
  to a function; the laws are lemmas about that function.
- **Parameters.** Regular-expression compilation, `reflect.DeepEqual`, leaf filter operators, the rules for names and
  the failures of the store are parameters, so the laws hold for every choice of them. `Compare.Ieee`,
  `Catalog.FERRET_NAMING` and `Filter.OperatorOf` are FerretDB's own choices.

## What was found

These are places where the code does less than one would expect. Each is shown at an input (for `$slice`
the contract names it), and each has its exact condition.

- A row that cannot be decoded also loses the good row before it if both fall into the same batch
  (`FetchSafety.GoodRowLost`, `FetchSafety.Delivery`).
- An error of `SetByPath` leaves the document changed when missing parents were created first and the
  last path element is an invalid key (`PathLaws.ErrorChangesDocument`, `PathLaws.ErrorLeavesUnchangedExactly`).
- `RemoveByPath` panics on a negative array index (`PathRemoval.NegativeIndexPanics`, `PathRemoval.RemovePanicsExactly`).
- Two collection names longer than 54 bytes can share a table. Inserting into one is then visible in
  the other (`CatalogLaws.NotAlwaysFaithful`, `CatalogLaws.FaithfulExactly`).
- `$nin` is not the negation of `$in` on a missing field (`FilterLaws.NinOnMissing`, `FilterLaws.NinNegatesInExactly`).
- Operators behind a matching `$eq` or `$ne` with a document, or behind null on a missing field, are
  ignored (`FilterOrder.IgnoredOperator`, `FilterOrder.OperatorsAreAndExactly`).
- {a: 5} does not match {a: [3, 5]}: only the first element that can be compared counts
  (`FilterMeaning.LaterElementIgnored`, `FilterMeaning.PairOnArray`).
- {a: {b: null}} matches a document that has no field a (`FilterMeaning.MissingMatchesDocument`,
  `FilterMeaning.DocumentPair`).
- Comparing an array with one that starts with a document panics, so the filter {a: [1]} panics on {a: [{}]}
  (`FilterOrder.ArrayFilterPanics`, `FilterOrder.ArrayPairPanicsExactly`).
- An array that contains an array equal to the one asked for is not found when all its elements are such arrays
  and there are fewer of them than the filter has elements: [[1, 2]] for [1, 2]
  (`SubarrayCompare.EqualSubarrayMissed`, `SubarrayCompare.EqualSubarrayFoundExactly`). The comment in the source
  promises otherwise.
- Documents without the sort key tie with every other document, so sorting by one key is then not a
  sort (`Sorting.MissingKeyBreaksOrder`, `Sorting.StrictWeakExactly`). Nothing exact is claimed for several keys.
- `$slice` panics on the least 64-bit integer, and when `skip + limit` overflows (`Slice.SingleArg`, `Slice.MultiArgs`).
- A delete statement that fails keeps what its earlier batches removed; the reply counts those rows
  (`Deletion.FailedStatementDeletes`, `Deletion.StatementUnchangedExactly`).

## Model

| member | source | states |
|---|---|---|
| `BsonRoundTrip.DocumentRoundTrip` | internal/bson/document.go:87-246 | Every encodable document, encoded and followed by any bytes, is decoded to itself and exactly those bytes are left unread. |
| `BsonRoundTrip.ValueRoundTrip` | internal/bson/document.go:134-231 | The same for a value of every type under its element tag, nested arrays and documents included. |
| `BsonRoundTrip.FieldsRoundTrip` | internal/bson/document.go:264-415 | The element list and end mark written for any fields are read back as those fields. |
| `BsonRoundTrip.ScalarRoundTrip` | internal/bson/document.go:274-397 | Every scalar type's encoding is read back by the decoder its tag selects, leaving the rest. |
| `BsonRoundTrip.StringRoundTrip` | internal/bson/string.go:32-78 | A length-prefixed, zero-terminated string of any bytes is read back exactly. |
| `BsonRoundTrip.BinaryRoundTrip` | internal/bson/binary.go:33-80 | Subtype and data of any binary come back, for every length that fits 31 bits. |
| `BsonRoundTrip.RegexRoundTrip` | internal/bson/regex.go:31-77 | Pattern and options without zero bytes come back from two adjacent C strings. |
| `BsonRoundTrip.CStringRoundTrip` | internal/bson/cstring.go:29-59 | A C string without a zero byte is read back and stops at its terminator. |
| `BsonCanonical.DocumentCanonical` | internal/bson/document.go:87-246 | Whatever the decoder accepts is an encodable document, and the bytes consumed are exactly its encoding. |
| `BsonCanonical.ValueCanonical` | internal/bson/document.go:134-237 | The same for every element value: tag, well-formedness and bytes are determined by each other. |
| `BsonCanonical.ElementsCanonical` | internal/bson/document.go:109-239 | An accepted element list has nothing after its end mark, holds well-formed values, and re-encodes byte for byte. |
| `BsonCanonical.RoundTripExactly` | internal/bson/document.go:249-415 | The round trip holds if and only if the document is encodable: valid, zero-free where C strings are used, and within the size limit. |
| `BsonCanonical.EncodingsAreDistinct` | internal/bson/document.go:264-415 | Different encodable documents never share an encoding, nor is one's encoding a prefix of another's. |
| `BsonLayout.LittleEndian` | internal/bson/int32.go:31-60 | Byte `i` of a 32- or 64-bit integer is `n / 256^i` modulo 256, in two's complement. |
| `BsonLayout.ElementLayout` | internal/bson/tag.go:21-43 | Every type is written under the number of the BSON specification, followed by the key, a zero byte and the parts of the value in their order. |
| `BsonLayout.DocumentLayout` | internal/bson/document.go:403-415 | A document is its own length as four bytes, the elements in order, and a zero byte. |
| `BsonLayout.SizeLimit` | internal/bson/document.go:88-107 | A document is read back if and only if it is valid, free of zero bytes in C strings, and at most 16777216 bytes long. |
| `BsonDocument.MapCountsDistinctKeys` | internal/types/document.go:133-146 | Comparing the sizes of the map and the keys slice detects exactly the repeated keys. |
| `BsonDocument.Validate` | internal/types/document.go:133-166 | The loop over keys and map accepts exactly the documents whose keys are distinct and valid, nested documents included. |
| `BsonDocument.Reader.ReadBody` | internal/bson/document.go:88-107 | The length prefix is checked against both limits and exactly the announced bytes are taken from the reader. |
| `BsonDocument.Reader.ReadCString` | internal/bson/cstring.go:29-37 | Bytes are taken up to the first zero byte, and an unterminated string is an error. |
| `BsonDocument.Document.ReadFrom` | internal/bson/document.go:87-246 | Filling `keys` and `m` from the reader ends in the document the decoding function gives, or in its error, and leaves its rest unread. |
| `BsonDocument.Document.ReadElements` | internal/bson/document.go:109-239 | The loop over elements appends each key once to `keys` and `m`, and agrees with the functional decoder on every input. |
| `BsonDocument.ReadValue` | internal/bson/document.go:134-238 | The switch on the tag consumes exactly what the value's decoder consumes. |
| `BsonDocument.ReadArray` | internal/bson/array.go:31-54 | A document is accepted as an array exactly when its keys are "0", "1", and so on, in order. |
| `BsonDocument.MarshalBinary` | internal/bson/document.go:264-415 | One pass over the keys writes the canonical encoding with the length in front, or fails if and only if a nested document, in an array too, is invalid. |
| `Text.DigitsRoundTrip` | internal/bson/array.go:71-95 | The decimal array keys written for every index are read back as that index. |
| `Text.AtoiReads` | internal/types/path.go:117-144 | An index is read from the decimal text of every 64-bit integer, with or without a plus sign; any larger number is refused. |
| `Text.AtoiRefuses` | internal/types/path.go:117-144 | A text with anything but digits behind an optional sign is no index. |
| `Text.CoerceFixesExactlyValid` | internal/fjson/string.go:52-58 | Writing a string as JSON keeps it if and only if it is valid UTF-8. |
| `Utf8.ValidExactly` | internal/types/document.go:119-130 | A text is valid UTF-8 if and only if it is the encoding of a sequence of code points that are not surrogates. |
| `Text.Base64RoundTrip` | internal/fjson/binary.go:38-71 | Base64 text of any bytes decodes to those bytes. |
| `Text.HexRoundTrip` | internal/fjson/object_id.go:38-77 | Hexadecimal text of any bytes decodes to those bytes. |
| `FjsonRoundTrip.RoundTrip` | internal/fjson/fjson.go:149-235 | Every well-formed value, marshalled and unmarshalled, comes back in its normal form: `_id` first at every level, one NaN, U+FFFD for invalid UTF-8. |
| `FjsonRoundTrip.DocumentRoundTrip` | internal/fjson/document.go:33-121 | The same for a document through its "$k" key list, whatever order the JSON object's members have. |
| `FjsonRoundTrip.ElemsRoundTrip` | internal/fjson/array.go:32-90 | The same for every element of an array, in order. |
| `FjsonRoundTrip.SetFieldIsIdFirst` | internal/types/document.go:257-290 | Setting new keys one by one yields the fields in order with `_id` moved to the front. |
| `FjsonRoundTrip.NormalIsWellFormed` | internal/fjson/document.go:60-75 | Normal forms pass the validation that `Set` performs, so decoding never rejects a stored document. |
| `FjsonForms.ScalarForm` | internal/fjson/fjson.go:115-146 | The JSON of every scalar type, with the names "$f", "$b", "s", "$o", "$d", "$r", "o", "$t" and "$l" of its members. |
| `FjsonForms.SpecialDoubles` | internal/fjson/double.go:78-103 | Minus zero, the infinities and NaN are written as texts; every other double is a JSON number. |
| `FjsonForms.SpecialTexts` | internal/fjson/double.go:37-75 | Each of those texts is read as its double; NaN as the bits of `math.NaN`. |
| `FjsonForms.AcceptedMembers` | internal/fjson/fjson.go:149-221 | An object that is no document is accepted only with the members of its type and no others. |
| `FjsonForms.BareNumbers` | internal/fjson/fjson.go:149-221 | A bare number is the 32-bit integer its double is truncated to. |
| `FjsonForms.DocumentForm` | internal/fjson/document.go:82-121 | A document has one member for each field, and "$k" lists the keys in order. |
| `FjsonForms.ArrayForm` | internal/fjson/array.go:65-90 | An array keeps the order of its elements. |
| `FjsonForms.MembersAreNotKeys` | internal/types/document.go:119-130 | "$" and a "$" with one more byte are never keys of a document; "$db" is one. |
| `JsonLoops.UnmarshalDocument` | internal/fjson/document.go:33-79 | The loop over "$k" that sets fields one after the other computes the functional decoder's result or error on every JSON object. |
| `JsonLoops.UnmarshalArray` | internal/fjson/array.go:32-62 | The loop that appends decoded elements stops at the first error and otherwise keeps all elements in order. |
| `EndToEnd.StoredDocumentIsReadable` | internal/fjson/document.go:33-121 | A document accepted from the wire and stored as FJSON re-encodes to bytes of the same length that are accepted again and leave the same rest. |
| `EndToEnd.StoredBytesUnchangedExactly` | internal/bson/document.go:87-415 | The stored and reloaded document has the original bytes if and only if `_id` was first everywhere and every NaN was canonical. |
| `EndToEnd.IdFirstMovesOneElement` | internal/types/document.go:257-290 | Moving `_id` first moves its element's bytes to the front and keeps all others in place. |
| `EndToEnd.NormalFixesExactlyNormalForms` | internal/fjson/fjson.go:149-235 | Storing a value leaves it alone if and only if it is already in normal form. |
| `EndToEnd.NormalIsInNormalForm` | internal/fjson/fjson.go:149-235 | Storing twice is storing once. |
| `EndToEnd.NormalKeepsLength` | internal/fjson/fjson.go:149-235 | Storage never changes the encoded size of a value whose text is UTF-8. |
| `WireRoundTrip.MessageRead` | internal/wire/msg_body.go:39-121 | Every well-formed OP_MSG, OP_QUERY and OP_REPLY message, written and followed by any bytes, is read back whole and the rest is left. |
| `WireRoundTrip.MessageWritten` | internal/wire/msg_body.go:39-96 | Whatever `ReadMessage` accepts is well-formed and is exactly what `WriteMessage` writes for it. |
| `WireRoundTrip.MessageRoundTripExactly` | internal/wire/msg_body.go:39-121 | Among the messages that can be written, exactly the well-formed ones are read back. |
| `WireLayout.MessageLayout` | internal/wire/msg_header.go:117-140 | A message is its length, the request, the response and the operation code, four bytes each, and the body. |
| `WireLayout.OpMsgLayout` | internal/wire/op_msg.go:222-290 | The flags, the sections, and the checksum if bit 0 of the flags is set. |
| `WireLayout.SectionLayout` | internal/wire/op_msg.go:230-275 | Kind 0 is one document; kind 1 is its own size, the identifier and the documents. |
| `WireLayout.ReadableExactly` | internal/wire/msg_body.go:39-96 | A written message is read back if and only if its sections are acceptable or its documents encodable, it has at most 48000000 bytes, its code is 1, 2004 or 2013 as its body demands, and a reply has at most 1000 documents. |
| `MessageDocuments.DocumentExactly` | internal/wire/op_msg.go:58-106 | The sections make up a document if and only if one of kind 0 with one document comes first and those of kind 1 have new, non-empty identifiers and valid documents. |
| `MessageDocuments.DocumentMeans` | internal/wire/op_msg.go:58-106 | The document of a message is the first section's fields, then one array for each section of kind 1, in order, with `_id` in front. |
| `MessageDocuments.DocumentReads` | internal/wire/op_msg.go:58-106 | Every key reads as the array of documents of the section it identifies, or else as in the first section's document. |
| `MessageDocuments.BuildDocument` | internal/wire/op_msg.go:58-106 | The loop over the sections succeeds exactly on acceptable sections and builds that document. |
| `WireRoundTrip.SectionsRead` | internal/wire/op_msg.go:116-188 | The section loop with its 1- or 5-byte peek stops exactly after the last section, with or without a checksum. |
| `WireRoundTrip.SectionsWritten` | internal/wire/op_msg.go:116-188 | Every byte string the section loop accepts is the encoding of its sections. |
| `WireRoundTrip.OpMsgRead` | internal/wire/op_msg.go:111-294 | A whole OP_MSG body with any sections and an optional checksum is read back. |
| `WireRoundTrip.Kind1Read` | internal/wire/op_msg.go:135-173 | A kind 1 section's identifier and documents come back from its sized buffer. |
| `WireRoundTrip.OpQueryRead` | internal/wire/op_query.go:43-131 | A whole OP_QUERY body, with or without a field selector, is read back. |
| `WireRoundTrip.OpReplyRead` | internal/wire/op_reply.go:44-123 | A whole OP_REPLY body with any number of documents is read back. |
| `WireRoundTrip.HeaderRead` | internal/wire/msg_header.go:82-126 | The four header fields are read back in order and exactly 16 bytes are consumed. |
| `WireReader.ReadDocument` | internal/bson/document.go:87-246 | Reading one document from a shared reader consumes exactly that document. |
| `WireReader.ReadDocuments` | internal/wire/op_msg.go:157-173 | The documents of a kind 1 section are read until its buffer is used up. |
| `WireReader.ReadSection` | internal/wire/op_msg.go:116-177 | One section is read from the reader as the decoding function reads it, errors included. |
| `WireReader.ReadSections` | internal/wire/op_msg.go:116-188 | The peeking loop over the reader gives the functional decoder's sections and rest on every input. |
| `WireReader.ReadCounted` | internal/wire/op_reply.go:60-71 | The counted loop reads exactly the announced number of documents or fails. |
| `FetchSafety.StepInv` | internal/handlers/pg/pgdb/query.go:67-107 | Every step of producer, channel, consumer and cancellation keeps the protocol invariant. |
| `FetchSafety.Safety` | internal/handlers/pg/pgdb/query.go:186-238 | In every interleaving the received documents are a prefix of the rows without gap or repetition, batches hold one or two documents, an error is last and the channel never overfills. |
| `FetchSafety.RunsAhead` | internal/handlers/pg/pgdb/query.go:34-39 | The bound is reached: on six good rows the goroutine can be three batches of two ahead of a handler that has received nothing. |
| `FetchCancellation.CancelStops` | internal/handlers/pg/pgdb/query.go:178-232 | From the moment the context is cancelled at most two more rows are read, under every interleaving. |
| `FetchCancellation.InterruptionIsReported` | internal/handlers/pg/pgdb/query.go:178-232 | If the query is cut short and the goroutine does not give up sending, its last message is an error. |
| `FetchSafety.Delivery` | internal/handlers/pg/pgdb/query.go:186-227 | Every uncancelled fetch followed to its end delivers exactly the deliverable rows and reports an error if and only if there was one. |
| `FetchSafety.CanFinish` | internal/handlers/pg/pgdb/query.go:67-107 | From every reachable state there is a run to the end in which nobody cancels or stops. |
| `FetchSafety.FetchDelivers` | internal/handlers/pg/pgdb/query.go:186-227 | Every fetch has such a run, and it delivers exactly the deliverable rows: all of them if none is bad and the query does not fail. |
| `FetchSafety.GoodRowLost` | internal/handlers/pg/pgdb/query.go:194-212 | With a good row and then a bad one, every undisturbed run delivers nothing. |
| `FetchSafety.NeverStuck` | internal/handlers/pg/msg_delete.go:111-119 | In every unfinished state the producer or the draining consumer can move, so the protocol cannot deadlock. |
| `FetchSafety.Termination` | internal/handlers/pg/pgdb/query.go:84-104 | Every run has at most 10 steps per row plus 8, and one that cannot continue has closed the channel and left no goroutine behind. |
| `Paths.InsertLaws` | internal/types/path.go:188-226 | The insertion loop keeps the heap a valid tree, keeps everything that could be reached, and makes the parent path lead somewhere. |
| `PathLaws.SetByPathLaws` | internal/types/document.go:332-364 | After a successful `SetByPath` the path leads to the value, every position not at or below it is unchanged, and keys still agree with maps. |
| `PathOrder.SetByPathOrder` | internal/types/document.go:332-365 | One node that was there changes: a document gets the key where `Set` puts it, an array keeps its length. Every other node is unchanged, and every new document has one key. |
| `PathOrder.SetKeyOrder` | internal/types/document.go:257-290 | The keys slice after `Set` in place is that of the functional `Set`: `_id` first, a present key where it was, a new key last. |
| `PathLaws.SucceedsExactly` | internal/types/document.go:332-364 | `SetByPath` succeeds if and only if a condition on the document and the path that can be checked beforehand holds. |
| `PathLaws.ErrorLeavesUnchangedExactly` | internal/types/document.go:332-364 | A returned error leaves the documents unchanged if and only if no missing parents had to be made. |
| `PathLaws.ErrorChangesDocument` | internal/types/document.go:332-364 | Setting "a.$" in the empty document returns an error and leaves a changed document. |
| `PathLaws.MissingOutcome` | internal/types/path.go:188-226 | When part of the path is missing, exactly which of success, error and panic follows, by what stands at its end. |
| `PathRemoval.RemoveByPathLaws` | internal/types/document.go:368-375 | Removal takes away exactly the named key or shifts the later array elements down by one, and everything outside the parent is unchanged. |
| `PathOrder.RemoveByPathOrder` | internal/types/path.go:147-185 | Only the parent changes: a document loses the key and keeps the order of the others, an array gets shorter by one. |
| `PathOrder.RemoveKeyOrder` | internal/types/document.go:293-310 | The keys slice after `Remove` in place is that of the functional `Remove`. |
| `PathRemoval.RemoveReplaces` | internal/types/path.go:147-185 | A removal replaces one node if the path leads somewhere; otherwise it changes nothing, or panics if the path asks for a negative index. |
| `PathRemoval.RemovePanicsExactly` | internal/types/path.go:169-181 | Removal panics if and only if some part of the path leads to an array and the next element is a negative index. |
| `PathRemoval.NegativeIndexPanics` | internal/types/path.go:169-181 | Removing "a.-1" from {a: []} panics. |
| `Store.PutFrame` | internal/types/document.go:257-290 | Writing one slot of a tree changes only the values reached through that slot. |
| `Store.PutValid` | internal/types/document.go:257-290 | `Set` keeps the keys slice distinct and equal to the map's domain. |
| `Memory.Documents.GetByPath` | internal/types/path.go:117-144 | The loop down the path gives the value at the path or nothing, for documents and arrays. |
| `Memory.Documents.InsertByPath` | internal/types/path.go:188-226 | The loop that makes missing documents in place ends in the specified heap, error or panic. |
| `Memory.Documents.SetByPath` | internal/types/document.go:332-364 | The in-place update has exactly the specified outcome and heap. |
| `Memory.Documents.RemoveByPath` | internal/types/path.go:147-185 | The in-place removal has exactly the specified outcome and heap. |
| `Documents.OrderedDocument.Set` | internal/types/document.go:257-290 | `Set` replaces or appends a field, or moves `_id` to the front, keeping slice and map in agreement, and refuses invalid keys without a change. |
| `Documents.OrderedDocument.Add` | internal/types/document.go:211-237 | `add` refuses a key that is already there and otherwise does what `Set` does. |
| `Documents.OrderedDocument.Remove` | internal/types/document.go:293-310 | `Remove` returns the key's value, takes the key out of slice and map, and keeps the order of the others. |
| `Values.SetFieldLaws` | internal/types/document.go:257-290 | Setting a field gives that field the value, keeps keys distinct and leaves every other field as it was. |
| `Deletion.ProcessRefines` | internal/handlers/pg/msg_delete.go:104-155 | However the rows are split into batches, a statement leaves the table as one DELETE of its targets among the rows handled would, and it succeeds if and only if every message is handled. |
| `Deletion.StatementRemovesTargets` | internal/handlers/pg/msg_delete.go:54-158 | On a snapshot with distinct ids a successful statement removes exactly the first `limit` matching rows, or all of them. |
| `FetchedDelete.FetchIsSnapshot` | internal/handlers/pg/pgdb/query.go:186-238 | What the delete handler is given in an undisturbed run is a snapshot of the table, however the steps are interleaved. |
| `FetchedDelete.DeleteUnderEveryInterleaving` | internal/handlers/pg/msg_delete.go:104-155 | Under every interleaving of producer, channel and handler, a statement that succeeds removes exactly the first `limit` matching documents, or all of them. |
| `Deletion.DeleteDropsFirst` | internal/handlers/pg/pgdb/delete.go:28-61 | With distinct ids, deleting the first n matches by id drops exactly those rows. |
| `Deletion.StatementConserves` | internal/handlers/pg/msg_delete.go:119-152 | Every row that disappears is reported, whether or not the statement succeeds. |
| `Deletion.StatementUnchangedExactly` | internal/handlers/pg/msg_delete.go:104-155 | Failed or not, a statement leaves the table alone if and only if no row has an id among the targets of the messages handled. |
| `Deletion.ErrorExactly` | internal/handlers/pg/msg_delete.go:104-155 | The error of a statement is the reason of the first message that could not be handled: a broken fetch, the first failing row of the filter, a negative limit, or the store. |
| `Deletion.FailedStatementDeletes` | internal/handlers/pg/msg_delete.go:119-152 | A batch followed by a broken fetch: the statement fails and its row is gone. |
| `Deletion.CommandConserves` | internal/handlers/pg/msg_delete.go:160-193 | Over any mix of failing and successful statements, ordered or not, the rows counted are the rows that disappeared. |
| `Deletion.OrderedStops` | internal/handlers/pg/msg_delete.go:165-181 | An ordered command ends with its first failing statement: the one error names it, all before it succeeded, and the table is the one it leaves. |
| `Deletion.UnorderedRunsAll` | internal/handlers/pg/msg_delete.go:165-181 | An unordered command runs every statement, and its errors name exactly the failing ones. |
| `Deletion.CommandRefines` | internal/handlers/pg/msg_delete.go:160-193 | A command without errors does what its statements do as simple deletes, one after the other. |
| `Deletion.NextCollected` | internal/handlers/common/limit.go:20-33 | Limiting after every batch keeps exactly the first `limit` matches seen so far. |
| `Deletion.CollectBatch` | internal/handlers/pg/msg_delete.go:124-135 | The loop over a batch appends the matching documents and stops at the first filter error. |
| `Deletion.Collection.ProcessItems` | internal/handlers/pg/msg_delete.go:119-152 | The loop over the channel changes the table and the counter as specified, errors included. |
| `Deletion.Collection.ProcessQuery` | internal/handlers/pg/msg_delete.go:54-158 | One statement in its transaction changes the table and the counter as specified. |
| `Deletion.Collection.Delete` | internal/handlers/pg/msg_delete.go:160-193 | The whole command reports as `n` the 32-bit value of the number of rows that disappeared, and the failed statements. |
| `TableNames.SameTableExactly` | internal/handlers/pg/pgdb/settings.go:209-220 | Two collections share a table if and only if their shortened names and their hashes agree. |
| `TableNames.ShortNamesAreDistinct` | internal/handlers/pg/pgdb/settings.go:209-220 | Names of at most 54 bytes never share a table. |
| `TableNames.LongNamesCollide` | internal/handlers/pg/pgdb/settings.go:209-220 | There are two accepted collection names that share a table. |
| `TableNames.TableName` | internal/handlers/pg/pgdb/settings.go:41-43 | A table name has at most 63 bytes. |
| `TableNames.TableOfA` | internal/handlers/pg/pgdb/settings.go:208-220 | The hash is FNV-1a: the collection "a" is kept in the table "a_e40c292c". |
| `TableNames.CollectionNamesExactly` | internal/handlers/pg/pgdb/collections.go:33-39 | A name is accepted if and only if it has 1 to 120 letters, digits and underscores, starts with no digit and not with "_ferretdb_". |
| `TableNames.DatabaseNamesExactly` | internal/handlers/pg/pgdb/collections.go:33-39 | The same for databases: 1 to 63 characters and small letters only. |
| `TableNames.TableNameIsNotReserved` | internal/handlers/pg/pgdb/settings.go:34-39 | No collection is ever kept in the settings table. |
| `CatalogLaws.StepSim` | internal/handlers/pg/pgdb/collections.go:45-236 | With names that share no table, every command keeps the catalog invariant and answers as a map from names to documents would. |
| `CatalogLaws.RunSim` | internal/handlers/pg/pgdb/collections.go:45-236 | The same for every run of commands: replies and contents agree at every point. |
| `CatalogLaws.ReachableCatalog` | internal/handlers/pg/pgdb/settings.go:94-206 | In every state reached from an empty server the settings map each live collection to its table name and the tables are exactly those. |
| `CatalogLaws.FaithfulExactly` | internal/handlers/pg/pgdb/settings.go:94-141 | Every run over a set of accepted names is answered as clients expect if and only if no two of them share a table. |
| `CatalogLaws.ShortNamesAreFaithful` | internal/handlers/pg/pgdb/settings.go:209-220 | With names of at most 54 bytes every run is answered as clients expect. |
| `CatalogLaws.NotAlwaysFaithful` | internal/handlers/pg/pgdb/insert.go:32-61 | There are two accepted names for which some run is not. |
| `CatalogLaws.CollisionBreaks` | internal/handlers/pg/pgdb/insert.go:32-61 | Creating one of two colliding collections and inserting into the other makes the document appear in the first. |
| `CatalogLaws.CreateSim` | internal/handlers/pg/msg_create.go:74-95 | `create` adds an empty collection or fails without a change. |
| `CatalogLaws.InsertSim` | internal/handlers/pg/pgdb/insert.go:32-61 | `insert` creates database and collection on demand and appends, or fails without a change. |
| `CatalogLaws.EnsureSim` | internal/handlers/pg/pgdb/collections.go:168-195 | Creating on demand outside a transaction keeps a new database even when the collection name is refused. |
| `CatalogLaws.DatabaseErrorExactly` | internal/handlers/pg/pgdb/databases.go:66-100 | A database name is refused as invalid exactly by the rule for names, and by PostgreSQL exactly when it starts with "pg_". |
| `CatalogLaws.DropSim` | internal/handlers/pg/pgdb/collections.go:201-236 | `drop` removes exactly one collection or fails without a change. |
| `CatalogServer.Server.CreateSettingsTable` | internal/handlers/pg/pgdb/settings.go:48-89 | A settings table is made exactly where there was none. |
| `CatalogServer.Server.CreateDatabaseIfNotExists` | internal/handlers/pg/pgdb/databases.go:101-131 | The schema and its settings table exist afterwards, or the name was refused and nothing changed. |
| `CatalogLaws.ExistsMeansTable` | internal/handlers/pg/pgdb/collections.go:45-85 | In every state that keeps the invariant, `CollectionExists` says yes if and only if the collection's table is there, and these are the collections clients know. |
| `CatalogServer.Server.CreateCollection` | internal/handlers/pg/pgdb/collections.go:95-161 | Settings record and table are added together, or nothing changes and the error says why. |
| `CatalogServer.Server.GetTableName` | internal/handlers/pg/pgdb/settings.go:94-141 | The recorded table is returned, and an unknown collection is recorded first. |
| `CatalogServer.Server.Insert` | internal/handlers/pg/pgdb/insert.go:32-61 | The transaction leaves the specified state, and the old one on any failure. |
| `CatalogServer.Server.DropCollection` | internal/handlers/pg/pgdb/collections.go:201-236 | Record and table are removed together, or nothing changes. |
| `CompareLaws.OrderByKey` | internal/types/compare_order.go:123-176 | On scalars with compilable regular expressions `CompareOrder` never panics and is the lexicographic comparison of an explicit key: type, exact value, number type. |
| `CompareLaws.OrderInvert` | internal/types/compare_order.go:123-151 | In each direction the order is total and exchanging the arguments inverts it. |
| `CompareLaws.OrderTransitive` | internal/types/compare_order.go:123-151 | In each direction the order is transitive, and strictly so if one of the two steps is strict. |
| `CompareLaws.IeeeTotalPreorder` | internal/types/compare_order.go:123-176 | With binary64 doubles, `CompareOrder` is a total preorder over mixed doubles, integers, signed zeros, NaN and all other scalars. |
| `DoubleLaws.InfinityIsLargest` | internal/types/compare.go:253-263 | The infinities lie outside every finite double. |
| `DoubleLaws.IntegerDouble` | internal/types/compare.go:253-263 | The double whose bits encode a positive integer compares, and is truncated, as that integer. |
| `DoubleLaws.SignBit` | internal/types/compare.go:253-263 | Flipping the top bit negates the value. |
| `DoubleLaws.OrderOfBits` | internal/types/compare.go:253-263 | Positive doubles are ordered as their bits are, up to infinity. |
| `OrderMeaning.LessExactly` | internal/types/compare_order.go:123-176 | One scalar comes before another if and only if its kind does, or the kinds agree and its value does: numbers by value and then -0.0, double, int32, int64, texts at the first different byte, binaries by length, subtype and bytes, false before true. |
| `OrderMeaning.KindsDecide` | internal/types/compare_order.go:31-80 | Values of different kinds, arrays included, are ordered null, NaN, numbers, string, array, binary, ObjectId, bool, date, timestamp, regular expression, in both directions. |
| `OrderMeaning.DocumentsPanic` | internal/types/compare_order.go:48-80 | Ordering a document panics. |
| `ArrayCompare.FlatArrays` | internal/types/compare.go:271-368 | On arrays of scalars there is exactly one result: that of the first unequal position, or else of the lengths. |
| `ArrayCompare.ArraysDefined` | internal/types/compare.go:271-432 | On arbitrarily nested arrays without documents the comparison ends without a panic and with at least one result. |
| `ArrayCompare.CompareOrderDefined` | internal/types/compare_order.go:142-149 | So `CompareOrder` always finds a first result, whatever such values it is given. |
| `ArrayCompare.ShallowArraysPanicExactly` | internal/types/compare.go:271-368 | Without nested arrays a comparison panics if and only if neither array is empty and one of them starts with a document. |
| `SubarrayCompare.SubarraysExactly` | internal/types/compare.go:265-367 | On an array of arrays the results are exactly: how an array compares with the first element, the opposite if some subarray compares so, and equal if some subarray does; unless all are equal and fewer than the filter has elements, which gives less alone. |
| `SubarrayCompare.EqualSubarrayFoundExactly` | internal/types/compare.go:265-367 | An equal subarray is found if and only if there is one and not every subarray is equal with fewer of them than the filter has elements. |
| `SubarrayCompare.EqualSubarrayMissed` | internal/types/compare.go:265-367 | [[1, 2]] compares with [1, 2] as less, not as equal. |
| `ArrayCompare.RunCompareArrays` | internal/types/compare.go:271-368 | The loop with its flags and early returns computes the specified results. |
| `ArrayCompare.DeleteInPlace` | internal/types/compare.go:381-390 | Deleting a result in the slice puts the last element in its place. |
| `Sorting.LessIsDocOrder` | internal/handlers/common/sort.go:55-131 | `Less` holds exactly when the first sort key with different values puts one document before the other, in that key's direction. |
| `Sorting.LessIsStrictWeak` | internal/handlers/common/sort.go:112-131 | On documents that have every sort key with a scalar value, `Less` is a strict weak order. |
| `Sorting.StrictWeakExactly` | internal/handlers/common/sort.go:55-131 | For one sort key, `Less` is the strict weak order a sort needs if and only if no document lacks the key or all that have it tie. |
| `Sorting.LaterKeyRestoresOrder` | internal/handlers/common/sort.go:55-131 | Three documents, one without `x`, that `Less` does not order by `x` but does order by `x` and then `y`: a missing first key does not settle the question for several keys. |
| `Sorting.MissingKeyBreaksOrder` | internal/handlers/common/sort.go:55-131 | On {a: 1}, {} and {a: 2} it is not. |
| `DocumentSort.SortSorts` | internal/handlers/common/sort.go:99-110 | Insertion sort, standing in for `sort.Sort`, under a strict weak order leaves no pair out of order. |
| `DocumentSort.SortPermutes` | internal/handlers/common/sort.go:99-110 | Insertion sort, standing in for `sort.Sort`, permutes the documents. |
| `DocumentSort.SortedResultsAgree` | internal/handlers/common/sort.go:99-110 | The result does not depend on the algorithm: two sorted permutations agree at every position up to ties. |
| `DocumentSort.NeighboursSuffice` | internal/handlers/common/sort.go:99-131 | Under a strict weak order, neighbours in order are all in order. |
| `DocumentSort.SortInPlace` | internal/handlers/common/sort.go:99-110 | The in-place loops of insertion sort do what the sorting function does, or panic only where a comparison of two documents does, leaving a permutation. |
| `DocumentSort.ParseSort` | internal/handlers/common/sort.go:36-45 | The sort functions are built in the specification's order, or the first bad value's error is returned. |
| `Sorting.KeysOfExactly` | internal/handlers/common/sort.go:36-45 | A specification is accepted if and only if every value is a number equal to 1 or -1, and its keys keep their order and directions. |
| `Sorting.SortTypeExactly` | internal/handlers/common/sort.go:134-158 | A sort value is ascending if and only if it equals 1, descending if and only if it equals -1, whatever its number type. |
| `Sorting.SortTypeErrors` | internal/handlers/common/sort.go:134-158 | A sort value is refused as no number, as no whole number, or as another number than 1 and -1, exactly when it is that. |
| `DocumentSort.SortDocuments` | internal/handlers/common/sort.go:27-51 | A bad specification is refused without a change; otherwise the documents are permuted and, if each has every sort key with a scalar value, sorted without a panic. |
| `FilterLaws.ManyKeysAreAnd` | internal/handlers/common/filter.go:33-52 | A filter with many keys is the `$and` of its single-key filters, errors included. |
| `FilterLaws.FirstDecides` | internal/handlers/common/filter.go:33-52 | The first pair that does not match decides, by its result or its error. |
| `FilterLaws.FilterConcat` | internal/handlers/common/filter.go:33-52 | Concatenated filters are evaluated one after the other, the second only if the first holds. |
| `FilterLaws.NorNegatesOr` | internal/handlers/common/filter.go:162-210 | `$nor` is the negation of `$or` on every argument, with the same error codes. |
| `FilterLaws.NorTwice` | internal/handlers/common/filter.go:187-210 | A doubly negated filter is that filter, errors included. |
| `FilterLaws.Quantifiers` | internal/handlers/common/filter.go:137-210 | Where every filter can be evaluated, `$and` is "all", `$or` is "any" and `$nor` is "none". |
| `FilterLaws.NinNegatesInExactly` | internal/handlers/common/filter.go:362-448 | `$nin` is the negation of `$in`, errors included, if and only if the field is there. |
| `FilterLaws.NinOnMissing` | internal/handlers/common/filter.go:244-275 | On a missing field neither `$in` nor `$nin` with a list matches. |
| `FilterLaws.FoundMeansAny` | internal/handlers/common/filter.go:370-397 | Where every value can be evaluated, the search finds something exactly when some value of the list matches. |
| `FilterLaws.NotNegates` | internal/handlers/common/filter.go:450-467 | `$not` of an expression is its negation, whether or not the field is there. |
| `FilterMeaning.PairIsEq` | internal/handlers/common/filter.go:92-132 | {field: value} is {field: {$eq: value}} for every value but documents and regular expressions, on a missing field too. |
| `FilterMeaning.PairMeansEqual` | internal/handlers/common/filter.go:117-132 | {field: scalar} holds if and only if the kinds agree and the values are equal; a missing field equals null only. |
| `FilterMeaning.PairOnArray` | internal/types/compare.go:64-81 | On an array it holds if and only if the first element comparable with the value equals it. |
| `FilterMeaning.LaterElementIgnored` | internal/types/compare.go:64-81 | {a: 5} does not match {a: [3, 5]} but matches {a: [5, 3]}. |
| `FilterMeaning.FirstComparableExactly` | internal/types/compare.go:64-81 | The comparison of an array with a scalar is that of its first comparable element, or incomparable if there is none. |
| `FilterMeaning.PairOnDocument` | internal/types/compare.go:60-62 | A document equals no scalar and no array. |
| `FilterMeaning.DocumentPair` | internal/handlers/common/filter.go:226-281 | {field: {key: ...}} compares the whole document; on a missing field it holds if and only if the first value is null. |
| `FilterMeaning.MissingMatchesDocument` | internal/handlers/common/filter.go:246-252 | {a: {b: null}} matches the empty document. |
| `FilterMeaning.ExprLocal` | internal/handlers/common/filter.go:226-552 | An expression depends on the value of its field, or on its absence, and on nothing else in the document. |
| `FilterMeaning.ValueAtConcat` | internal/types/path.go:117-144 | A path is followed one element after the other. |
| `FilterMeaning.ValueAtOne` | internal/types/path.go:117-144 | One element is a key of a document, or the decimal index of an element of an array. |
| `FilterMeaning.PathFiltersDocument` | internal/handlers/common/filter.go:56-70 | A dotted key filters the document its path leads to by its last part. |
| `FilterMeaning.PathFiltersElement` | internal/handlers/common/filter.go:71-92 | A dotted key that ends in an index filters that element as if it were a field of its own. |
| `FilterMeaning.PathLeadsNowhere` | internal/handlers/common/filter.go:61-78 | A path that leads nowhere, or to an index the array does not have, matches nothing. |
| `FilterMeaning.PathThroughScalar` | internal/handlers/common/filter.go:67-92 | A path through a scalar looks for a field named by the whole dotted key; a negative index is an error. |
| `FilterMeaning.InMeansAnyPair` | internal/handlers/common/filter.go:362-404 | On a field that is there, `$in` holds if and only if {field: value} does for one of the values. |
| `FilterMeaning.InWithDocuments` | internal/handlers/common/filter.go:375-398 | A document in the list is compared as a whole and must have no operator; a regular expression is matched. |
| `FilterMeaning.ElemMatchMeans` | internal/handlers/common/filter.go:1184-1217 | On an array `$elemMatch` is its expression on that array or the error of the first key it refuses; any other field does not match. |
| `FilterMeaning.ElemMatchRefuses` | internal/handlers/common/filter.go:1184-1217 | The first key that `$elemMatch` refuses decides the error: `$text` and `$where`, the logical operators, `$ne` and `$not`, or a plain key among several. |
| `FilterMeaning.ElemMatchNeedsDocument` | internal/handlers/common/filter.go:1184-1217 | On an array `$elemMatch` of anything but a document is an error; any other field does not match. |
| `FilterMeaning.NotOfRegex` | internal/handlers/common/filter.go:450-466 | `$not` of a regular expression negates the match; of anything but that or a document it is an error. |
| `FilterMeaning.ComparisonRefusesRegex` | internal/handlers/common/filter.go:299-360 | `$ne`, `$gt`, `$gte`, `$lt` and `$lte` refuse a regular expression. |
| `FilterMeaning.OtherPairs` | internal/handlers/common/filter.go:108-115 | {field: {}} asks for the empty document; {field: /regex/} is matched on a field that is there. |
| `FilterMeaning.RegexOptionsGiven` | internal/handlers/common/filter.go:468-474 | `$regex` is given the `$options` that stand before or after it. |
| `FilterMeaning.LeafGiven` | internal/handlers/common/filter.go:240-275 | Operators that look at the value alone are given it; a missing field matches null, and `$all` of nulls; `$exists` is asked in any case. |
| `FilterMeaning.TopLevel` | internal/handlers/common/filter.go:137-222 | `$comment` matches; unknown operators, arguments that are no arrays and entries that are no documents are errors. |
| `FilterMeaning.PlainIsUnknown` | internal/handlers/common/filter.go:279-548 | A key that does not start with "$" is no operator. |
| `FilterMeaning.ShortNames` | internal/handlers/common/filter.go:283-360 | `$or`, `$eq`, `$ne`, `$gt`, `$lt` and `$in` name their own operators. |
| `FilterMeaning.BoundNames` | internal/handlers/common/filter.go:283-360 | So do `$and`, `$nor`, `$gte` and `$lte`. |
| `FilterMeaning.NegationNames` | internal/handlers/common/filter.go:406-466 | So do `$nin` and `$not`. |
| `FilterMeaning.MiddleNames` | internal/handlers/common/filter.go:468-545 | So do the operators of four and five letters. |
| `FilterMeaning.LongNames` | internal/handlers/common/filter.go:468-545 | So do the longer ones. |
| `FilterOrder.ComparisonMeansOrder` | internal/handlers/common/filter.go:284-360 | On a scalar field each of `$eq`, `$gt`, `$gte`, `$lt` and `$lte` holds if and only if the kinds agree and the exact values are in that order. |
| `FilterOrder.ScalarsByValue` | internal/types/compare.go:88-263 | Scalars of different kinds are incomparable; those of the same kind are compared by value, doubles and integers exactly. |
| `FilterOrder.NeNegatesEqExactly` | internal/handlers/common/filter.go:244-318 | `$ne` is the negation of `$eq`, errors included, if and only if the field is there, the argument is no regular expression, and a document argument meets a document. |
| `FilterOrder.OperatorsAreAndExactly` | internal/handlers/common/filter.go:226-552 | An expression of any operators means all of them, errors included, if and only if none that ends the evaluation early hides one that does not hold. |
| `FilterOrder.EarlyEndMatches` | internal/handlers/common/filter.go:244-318 | Once null meets a missing field, or `$eq` or `$ne` with a document matches, the filter matches whatever follows. |
| `FilterOrder.IgnoredOperator` | internal/handlers/common/filter.go:244-275 | {a: {$eq: null, $gt: 5}} matches the empty document, which {a: {$gt: 5}} does not. |
| `FilterOrder.SplitJoins` | internal/types/path.go:47-51 | A dotted key is split into parts without dots that make it up again. |
| `FilterOrder.PlainPairPanicsExactly` | internal/handlers/common/filter.go:55-134 | A key compared with a scalar panics if and only if it is a path with an empty part, or one that is not UTF-8 and leads to an array element. |
| `FilterOrder.ArrayPairPanicsExactly` | internal/handlers/common/filter.go:104-111 | A plain key compared with an array panics if and only if the field is an array, neither is empty, and one of them starts with a document. |
| `FilterOrder.ArrayFilterPanics` | internal/handlers/common/filter.go:104-111 | The filter {a: [1]} panics on the document {a: [{}]}. |
| `FilterOrder.EmptyPartExactly` | internal/types/path.go:32-51 | A dotted key has an empty part if and only if it begins or ends with a dot or has two in a row. |
| `FilterOrder.FilterPanicsExactly` | internal/handlers/common/filter.go:33-52 | A filter panics if and only if some pair panics and all pairs before it match; for scalar and array arguments the two conditions above say when a pair panics. |
| `FilterLaws.AlgebraByName` | internal/handlers/common/filter.go:137-223 | The laws of `$and`, `$or` and `$nor` for the operators under their own names. |
| `FilterLaws.FieldAlgebraByName` | internal/handlers/common/filter.go:362-467 | The laws of `$in`, `$nin` and `$not` for the operators under their own names. |
| `FilterLaws.RunFilterDocument` | internal/handlers/common/filter.go:33-52 | The loop over the keys with its early returns computes the specified result. |
| `FilterLaws.RunFound` | internal/handlers/common/filter.go:369-402 | The loop with its `found` flag computes the specified result. |
| `SchemaEquality.EqualReflexive` | internal/tjson/schema.go:127-189 | Every well-formed schema equals itself, as the shortcut for identical schemas assumes. |
| `SchemaEquality.EqualSymmetric` | internal/tjson/schema.go:127-189 | Equality of schemas is symmetric, although only one side's properties are enumerated. |
| `SchemaEquality.EqualTransitive` | internal/tjson/schema.go:127-189 | Equality of schemas is transitive, default formats included. |
| `SchemaEquality.EqualExactly` | internal/tjson/schema.go:127-189 | Two schemas are equal if and only if they say the same: type, properties, items and format, with "double" and "int64" understood where no format is given. |
| `SchemaEquality.EqualDecodes` | internal/tjson/tjson.go:149-248 | Equal schemas decode every JSON value to the same value or fail the same way. |
| `TjsonRoundTrip.InferredSchemaDecodes` | internal/tjson/schema.go:219-285 | Whatever `DocumentSchema` infers decodes what `Marshal` wrote to the document with `_id` first at every level. |
| `TjsonRoundTrip.ValueRoundTrip` | internal/tjson/tjson.go:149-262 | Every value that has a schema and a JSON form comes back under its own schema. |
| `TjsonRoundTrip.SubdocumentRoundTrip` | internal/tjson/document.go:34-133 | The same for documents at every depth, through "$k" and the properties. |
| `TjsonRoundTrip.MarshalsExactly` | internal/tjson/tjson.go:251-262 | A value that has a schema can be marshalled if and only if its doubles are finite and its dates have a text. |
| `TjsonRoundTrip.HasSchemaExactly` | internal/tjson/schema.go:253-285 | A value has a schema if and only if it holds no array, null or timestamp at any depth. |
| `TjsonRoundTrip.InferredSchema` | internal/tjson/schema.go:219-250 | The inferred schema has the primary key `_id` and describes every field and the list of keys "$k", and nothing else. |
| `TjsonRoundTrip.ScalarSchemas` | internal/tjson/schema.go:253-285 | The type and format of every scalar's schema, and the members of those of binaries and regular expressions. |
| `TjsonRoundTrip.NullPanics` | internal/tjson/tjson.go:170-260 | A bare null makes the decoder of a scalar panic and is refused for an object. |
| `TjsonRoundTrip.InferredIsWellFormed` | internal/tjson/schema.go:230-285 | Inferred schemas are well-formed, so comparing them cannot panic. |
| `TjsonRoundTrip.ObjectsRoundTrip` | internal/tjson/tjson.go:212-236 | Binaries and regular expressions are never mistaken for documents or for each other. |
| `JsonLoops.UnmarshalWithSchema` | internal/tjson/document.go:34-91 | The loop over "$k" under a schema computes the specified document or error. |
| `JsonLoops.SubdocumentSchema` | internal/tjson/schema.go:230-250 | The loop that fills the properties map computes the specified schema or error. |
| `RingBuffer.CircularBuffer.constructor` | internal/util/logging/buffer.go:41-49 | A new buffer is empty. |
| `RingBuffer.CircularBuffer.Append` | internal/util/logging/buffer.go:52-58 | Appending adds one entry to the history and overwrites the oldest slot. |
| `RingBuffer.CircularBuffer.Get` | internal/util/logging/buffer.go:61-76 | The result is exactly those of the last N appended entries at or above the level, oldest first. |
| `Slice.SingleArg` | internal/handlers/common/projection.go:343-359 | The first n or last -n elements are returned; it panics if and only if n is the least 64-bit integer. |
| `Slice.MultiArgs` | internal/handlers/common/projection.go:419-440 | The window is returned; it panics if and only if negating skip or adding it to limit overflows. |
| `Slice.EndsAreWindows` | internal/handlers/common/projection.go:343-440 | The one-argument form agrees with [0, n] for n >= 0 and with [n, -n] for n < 0. |
| `Bits.AllNegatesAny` | internal/handlers/common/filter.go:687-858 | `$bitsAllSet` negates `$bitsAnyClear` and `$bitsAllClear` negates `$bitsAnySet`, for every mask, errors included. |
| `Bits.NegatesExactly` | internal/handlers/common/filter.go:687-858 | Both negations hold if and only if the field's bits are looked at or the field itself is an error. |
| `Bits.AllSetPositions` | internal/handlers/common/params.go:146-160 | On every field read as an integer, with a list of positions `$bitsAllSet` holds if and only if bit min(p, 63) is set for every listed p. |
| `Bits.AllSetNumber` | internal/handlers/common/params.go:190-205 | On every such field and every mask read as a number, it holds if and only if every one bit of the mask is a one bit of the sign-extended field. |
| `Bits.AllSetIntegers` | internal/handlers/common/filter.go:731-772 | Both for every 32- and 64-bit field, and for every accepted 32- or 64-bit mask. |
| `Bits.BitMeans` | internal/handlers/common/filter.go:731-770 | Bit `k` of a number, negative or not, counts 2^k. |
| `Bits.AnySetMeans` | internal/handlers/common/filter.go:687-730 | On integers `$bitsAnySet` asks for one bit of the mask and `$bitsAllClear` for none. |
| `Bits.OtherFields` | internal/handlers/common/filter.go:687-730 | A double that is a whole number from 0 to 2^63 is looked at as that number; fields that are no whole numbers do not match. |
| `Bits.NumberMasks` | internal/handlers/common/params.go:142-212 | A mask that is a whole number is that number's bits, and an error if it is negative. |
| `Bits.OtherMasks` | internal/handlers/common/params.go:142-212 | A double that is no whole number, and a value of another kind, are errors. |
| `Bits.BinaryMaskExactly` | internal/handlers/common/params.go:175-188 | A binary mask holds exactly the bits of its first eight bytes, and bit 63 also if any later byte is not zero. |
| `Bits.RunPositionMask` | internal/handlers/common/params.go:146-160 | The loop over positions sets exactly the listed bits or returns the first error. |
| `Bits.RunBinaryMask` | internal/handlers/common/params.go:175-188 | The loop over bytes collects the specified bits. |

## Left out

- Updates (`handlers/common/update.go`) and projections other than `$slice`.
- The document comparison of `types.Compare`, which the source does not implement either: a document is incomparable.
- JSON text: white space, escapes, duplicate members, case-insensitive struct fields, and byte slices given as JSON arrays. A bare FJSON number outside the 32-bit range has an implementation-defined value and is an error of the model.
- The text of floats and dates, regular-expression compilation and matching, `reflect.DeepEqual` and the leaf operators `$size`, `$all`, `$mod`, `$exists`, `$type` and `$regex` are parameters.
- Message checksums are carried but not verified, as in the source; `String` methods, `Explain` and `convertJSON` are not modelled.
- Concurrent catalog transactions: commands run one after the other. PostgreSQL's own failures (I/O, privileges) are not modelled in the catalog; in the delete command any delete, fetch or commit may fail.
- Network, TLS, metrics, logging set-up, the debug server, command-line tools and constant replies.
- The conversion of doubles outside the integer range, in `$slice`, `$mod` and `$bits`, is implementation-defined in Go.
- Reading the arguments of `$slice`: the methods take them as 64-bit integers.
- DocumentSort.SortInPlace: `sort.Sort` is modelled as insertion sort; by `SortedResultsAgree` every correct sort gives the same result up to ties, and the order of tied documents is not claimed to be Go's.
- FetchSafety.Safety: the database driver's rows are a fixed sequence in which any row may fail to decode.
- SchemaEquality.EqualDecodes: `Title` and `Description`, which `Equal` ignores, are not part of a schema here.
- SchemaEquality.EqualSymmetric: like the other laws of `Equal`, speaks of the schemas on which `Equal` does not panic: known types, and items in every array.
- RingBuffer.CircularBuffer.constructor: asks for at least one slot, where the source panics.
- Memory.Documents.SetByPath: the validation of the value is not modelled, because in a valid heap every document passes it.
- WireRoundTrip.MessageRoundTripExactly: OP_MSG ignores the error of writing a document whose arrays hold an invalid document; such a document cannot be built through the package and counts here as one that cannot be written.
- FilterOrder.OperatorsAreAndExactly: speaks of expressions whose keys all start with "$"; with any other key the whole expression is compared as a document.
- Sorting.StrictWeakExactly: speaks of one sort key. With several, a later key can restore the order that a missing earlier key breaks (`Sorting.LaterKeyRestoresOrder`), and no condition simpler than the order itself is claimed.
- SubarrayCompare.SubarraysExactly: speaks of non-empty arrays of scalars inside one array; deeper nesting and arrays beside scalars are modelled and proved to have a result, but their results are not described further.
- FilterOrder.FilterPanicsExactly: when a document or regular-expression argument panics depends on the parameters and is not reduced further.
