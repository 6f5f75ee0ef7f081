# Verified models of dumbodb

Dafny models of the parts of dumbodb whose correctness is not visible in any single
function, with proofs that the code keeps its promises, or of exactly when it does.
`dafny verify dfyconfig.toml` checks everything.

**Chunked, indexed BSON documents** (`internal/bsonindexed`). A document is a tree
(`Tree`), `Enc` is its BSON encoding, and every byte function is proved to compute the
obvious tree function on the encoded tree. `Edits` has the tree edits and their laws,
`EditMeaning` what they do in terms of lookups and lists of fields alone, `Mutation` the in-place byte edits, `Lookups` the byte lookups and the laws across both.
`Varint`, `Keys` and `Location` cover location keys and their order, `Events` and
`Scanner` the scanner's state machine and what it emits, `Chunker`, `Resync` and `EditWork`
the cutting of chunks and how edits leave them alone, `IndexedDocument`, `ByteOrder`,
`NameOrder`, `MongoPath` and `StoredDocument` the document as stored and addressed.

**The raw BSON codec** (`internal/bson`). `RawCodec` has the two specification functions,
encoding and parsing, and proves them inverse; `WireForm` says byte by byte what they read
and write; `RawDecoder` has the loops.

**Writers in conflict** (`internal/clientconn`, `internal/backends/dolt`). `MergeModes` is
the three-way merge, down into nested documents, that a write meets at its boundary,
`DivergentModes` when the laxer two of its four modes let a row merge, `WriteOrder` says when
a merged write counts as having run after those it merged with, `Replay` is the replay
protocol as a step system over any number of writers, `ReplayOrder` what holds of all its
runs, and `ReplayOutcome` what the clients are told.

**Two more step systems** (`internal/handler`). `LogicalClock` is the compare-and-swap
clock and `ClockValues` the values it takes, `AuthCache` the generation-tagged cache of privileges and commit identities.

**Field pruning** (`internal/handler`). `Expressions` gives aggregation expressions a meaning
with operators left uninterpreted, but for the variables they bind; `FieldRoots`, `Filters`
and `Projections` are the analysis, `NamedFields` and `NamedStages` exactly what it accepts
and lists; `Pipelines` says exactly when it is harmless,
`PruningLosses` has inputs for which it is not; `PrunedScan` joins it to the projecting
decoder.

**Smaller ones.** `Authz` (role resolution) and `Grants` (what grants allow), `IndexCatalog`
(index creation) and `IndexRequests` (which requests are accepted), `Line` (the
chart renderer's line drawing).

## What turned out to depend on a condition

- *Byte order is not scan order.* The comment at `internal/bsonindexed/location.go:33-41`
  takes byte order of keys for traversal order. It is not: a container's end key sorts
  before its descendants' (`Keys.ByteOrderPutsAncestorFirst`), and the document
  `{a: {b: <binary>}, "a!": <binary>}` reads back scrambled when its chunks are joined in byte order
  (`ByteOrder.ByteIterationScrambles`). The order in which the address map iterates is
  therefore a hypothesis of the round trip, stated as `Compare` order with the end-of-document
  key last; iteration in byte order is emission order if and only if no chunk key is overtaken
  (`IndexedDocument.ByteIterationIsEmissionOrder`).
- *The round trip needs ascending names.* The document `{b: <binary>, a: <binary>}`, whose field
  names descend, does not read back in `Compare` order (`NameOrder.DescendingNamesScramble`). Any document
  does if and only if the keys its chunks were cut under are in that order
  (`IndexedDocument.KeyIterationIsEmissionOrder`). Every edit keeps names ascending (`Edits.EditsKeepOrder`).
- *Writes are not always in publish order.* A command that changes nothing is answered for
  the tip it read, not the one it is published on. One that does change its document is in
  publish order exactly when it is safe under its collection's merge mode
  (`WriteOrder.Safe`, `ReplayOrder.UnsafeRun`). Under the default mode, fieldTouched, commands
  on a single path that holds no document are safe (`WriteOrder.PathCommandSafe`). A command that reads one
  field and writes another is not (`WriteOrder.GuardedUnsafe`), nor is one that reads and writes a single
  field holding a document, since the merge goes inside it (`WriteOrder.GuardedInsideUnsafe`). In every
  mode two concurrent inserts of the same document with no field but `_id` both succeed
  (`WriteOrder.BareInsertUnsafe`).
- *A published write can be answered with an error.* When the automatic commit after a publish
  fails, the client is told so and the write stays (outcome `CommitFailed` in `Replay`); it is still published
  exactly once (`ReplayOrder.ExactlyOnce`), and no other end is told after a publish
  (`ReplayOutcome.ToldTheTruth`).
- *Pruning can lose fields.* Pruning a pipeline or a find keeps its results if and only if everything
  its last analysed stage or its projection reads is in the list returned (`Pipelines.PruningIff`,
  `Pipelines.FindPruningIff`). The analysis accepts inputs for which it is not:
  - A key called `sortBy` that holds a document is taken for a sort order wherever it stands, as in
    `{$group: {_id: null, sortBy: {$sum: "$x"}}}` (`PruningLosses.PruningLosesSortBy`).
  - A key called `$literal` is taken for the operator, also where it names an output field of a `$group` or
    a variable of `$let` (`PruningLosses.PruningLosesLiteral`).
  - A variable is looked up in the document, so one that no operator binds reads a stored field: in
    `{$project: {y: {$add: ["$$x", 1]}}}` the field called `$$x` (`PruningLosses.PruningLosesVariable`).
  - An included field is inserted where the source document has it among the fields written so far, so
    that `{$project: {y: "k", z: 1}}` puts `y` or `z` first depending on whether the source has a `y`
    (`PruningLosses.PruningLosesOrder`).
  - A find whose projection only slices, as `{a: {$slice: 1}}`, is run as an exclusion that returns every
    field, but is analysed as an inclusion (`PruningLosses.SlicingLosesFields`, `Projections.FindModeIff`).

  The condition holds if `sortBy` and `$literal` are what they are taken for, every variable is bound or built
  in, no projection writes a field before it inserts another, and a find does more than slice
  (`Pipelines.ProperPrunable`, `Pipelines.ProperFindPrunable`). In place of the middle two it is enough that no
  stored document has a field whose name starts with `$$` or that the projection writes
  (`Pipelines.PruningKeepsPlain`, `Pipelines.FindPruningKeepsPlain`).
- *The clock wraps.* It goes forward exactly until a timestamp is issued at 2^64 - 1
  (`LogicalClock.MonotoneIff`, `LogicalClock.Wraps`).
- *The generation counter wraps.* A check never uses privileges older than a command that had
  returned, unless the counter has come round 2^64 bumps later (`AuthCache.NeverStale`). Then it may
  (`AuthCache.ComesRound`) or may not (`AuthCache.LateReadStaysFresh`), depending on when the entry's
  reads were made, so no condition on the counter alone is exact.
- *Repeating a request that created a text index is refused*, where any other repeated request is a
  no-op (`IndexCatalog.AskingAgain`). Keys are compared as printed, so a catalog can take a text index for
  a plain index that prints the same, and create nothing (`IndexCatalog.PrintedAlike`). Keys whose field names have no comma print alike only
  if they are the same (`IndexRequests.PrintTells`).

## Model

| member | source | states |
|---|---|---|
| Tree.ElementValueEnd | internal/bsonindexed/lookup.go:116-184 | the end of a value of each BSON type, on any bytes within bounds, and exactly the value's length on an encoded value |
| Edits.LookupRebuild | internal/bsonindexed/mutation.go:341-359 | replacing one container's fields changes lookups only through that container |
| Edits.LookupAfterSet | internal/bsonindexed/mutation.go:251-270 | for every pair of paths: a lookup at or below the set path sees the new value, one beside it is unchanged, one above it sees the same edit made lower down |
| Edits.SetBelow | internal/bsonindexed/mutation.go:251-270 | what a lookup of an ancestor of the set path returns |
| Edits.SetBeside | internal/bsonindexed/mutation.go:251-270 | what lookups within the edited container return |
| Edits.UnsetUndoesSet | internal/bsonindexed/mutation.go:251-286 | unset after set restores the document if and only if the field was absent |
| Edits.PopUndoesPush | internal/bsonindexed/mutation.go:288-336 | pop after push restores the document if and only if the fields from the first clash with the new element's name onward repeat it |
| Edits.PopUndoesPushCanonical | internal/bsonindexed/mutation.go:288-336 | in particular whenever array elements are named 0, 1, 2 and so on |
| Edits.EditsKeepOrder | internal/bsonindexed/mutation.go:225-249 | all four edits keep field names ascending in every object, which insertion relies on |
| EditMeaning.SetSucceeds | internal/bsonindexed/mutation.go:251-286 | a set, and an unset, succeeds if and only if the place above the last step holds a container and the last step is a key or that container an array; which error it is otherwise, for every path |
| EditMeaning.PushSucceeds | internal/bsonindexed/mutation.go:288-309 | a push succeeds if and only if the path leads to an array; missing where nothing is there, not an array where something else is |
| EditMeaning.PopSucceeds | internal/bsonindexed/mutation.go:311-339 | a pop succeeds if and only if its container is there and the place holds an array or nothing |
| EditMeaning.WalkEnds | internal/bsonindexed/mutation.go:124-147 | the walk to a container ends in not-a-container if and only if some place on the way holds a scalar, and in missing if and only if none does and there is nothing there |
| EditMeaning.SetEffect | internal/bsonindexed/mutation.go:251-270 | the container's list of fields afterwards: the first of that name replaced, or one added at an array's end or before an object's first greater name; nothing else changes |
| EditMeaning.UnsetEffect | internal/bsonindexed/mutation.go:272-286 | the first field of that name taken out of its container's list, or nothing changed |
| EditMeaning.PushEffect | internal/bsonindexed/mutation.go:288-309 | one element more at the array's end, named by the number of those before |
| EditMeaning.PopEffect | internal/bsonindexed/mutation.go:311-339 | the first element named by the last position taken out; an empty array, an absent one and one that lacks that name unchanged |
| Mutation.FindInsertionPoint | internal/bsonindexed/mutation.go:225-249 | the offset before the first greater name, or the container's end |
| Mutation.FindEntry | internal/bsonindexed/mutation.go:149-223 | the first entry of that name and its exact extent, or that there is none |
| Mutation.CountArrayElements | internal/bsonindexed/mutation.go:361-388 | the number of elements |
| Mutation.PathWalk | internal/bsonindexed/mutation.go:124-147 | the parent container, the offsets of every enclosing length prefix, and the same error as the tree walk |
| Mutation.PatchChain | internal/bsonindexed/mutation.go:341-359 | adding the size change to every enclosing prefix re-encodes the whole document, modulo 2^32 |
| Mutation.SpliceRefines | internal/bsonindexed/mutation.go:341-359 | a byte splice inside one container, patched, is the encoding of the tree with that container's fields replaced |
| Mutation.SpliceAndPatch | internal/bsonindexed/mutation.go:341-359 | the sorted, in-place patching loop computes the splice followed by all patches |
| Mutation.SetFieldInBytes | internal/bsonindexed/mutation.go:251-270 | on an encoded document, the encoding of the tree edit, or its error; it succeeds exactly where the path leads to a field its container can have |
| Mutation.UnsetFieldInBytes | internal/bsonindexed/mutation.go:272-286 | on an encoded document, the encoding of the tree edit, or its error; it succeeds exactly where a set would |
| Mutation.PushArrayInBytes | internal/bsonindexed/mutation.go:288-309 | on an encoded document, the encoding of the tree edit, or its error; it succeeds exactly at an array |
| Mutation.PopArrayInBytes | internal/bsonindexed/mutation.go:311-339 | on an encoded document, the encoding of the tree edit, or its error; it succeeds exactly at an array and where there is nothing |
| Lookups.LookupInBytes | internal/bsonindexed/lookup.go:50-107 | on an encoded document, the type and bytes of the tree lookup; nothing otherwise found |
| Lookups.EncInjective | internal/bsonindexed/scanner.go:24-68 | well-formed trees with the same encoding are the same tree |
| Lookups.SetThenLookup | internal/bsonindexed/lookup.go:50-107 | read after write through the byte functions: the exact type and bytes written, and disjoint paths unchanged |
| Lookups.SetThenUnset | internal/bsonindexed/mutation.go:251-286 | the bytes come back identical if and only if the field was absent |
| Lookups.PushThenPop | internal/bsonindexed/mutation.go:288-336 | the bytes come back identical, and exactly when |
| Varint.ReadOfUvarint | internal/bsonindexed/location.go:370-386 | reading an encoded index, with anything after it, returns it and its length |
| Varint.UvarintLength | internal/bsonindexed/location.go:378-386 | the first byte tells the length |
| Varint.UvarintOrder | internal/bsonindexed/location.go:370-376 | byte order of encodings is numeric order |
| Varint.InFigures | internal/bsonindexed/location.go:370-376 | the encodings at both ends of each of the first three lengths, in bytes |
| Keys.CmpTotalOrder | internal/bsonindexed/location.go:219-297 | Compare is a strict total order on locations |
| Keys.ContainerBrackets | internal/bsonindexed/location.go:219-279 | a container's start states precede, and its end state follows, everything below it |
| Keys.KeyInjective | internal/bsonindexed/location.go:112-154 | different locations have different keys |
| Keys.InFigures | internal/bsonindexed/location.go:28-60 | a key of an array element, and those of the empty path in each state, in bytes |
| Keys.ByteOrderOfPaths | internal/bsonindexed/location.go:33-41 | for ordered locations, byte order agrees if and only if the earlier one is not overtaken |
| Keys.ByteOrderPutsAncestorFirst | internal/bsonindexed/location.go:33-37 | byte order puts an ancestor's end key before its descendants', against Compare |
| Location.Location.constructor | internal/bsonindexed/location.go:69-74 | the root location |
| Location.Location.SetState | internal/bsonindexed/location.go:99-106 | changes the state and nothing else |
| Location.Location.AppendObjectKey | internal/bsonindexed/location.go:112-121 | the path grows by that key, key and offsets in step |
| Location.Location.AppendArrayIndex | internal/bsonindexed/location.go:123-130 | the path grows by that index, key and offsets in step |
| Location.Location.Pop | internal/bsonindexed/location.go:132-140 | exactly undoes the last append |
| Location.Location.PathElement | internal/bsonindexed/location.go:156-190 | the element decoded is the one appended |
| Location.FromKey | internal/bsonindexed/location.go:192-217 | from the key of a location, that location, path and offsets; from any other key that has a byte behind each array marker, the starts of its elements |
| Location.ElementLen | internal/bsonindexed/location.go:281-297 | the length the front element of a key claims, and on an encoded path its first element's |
| Location.Compare | internal/bsonindexed/location.go:219-279 | on keys of locations their traversal order; absent keys come first, a key of unknown state is an error, and any others compare by elements, then by states |
| Location.KeyOrderIsTraversal | internal/bsonindexed/location.go:219-297 | comparing encoded elements, then states, is traversal order of the locations |
| Location.KeyOrderAntisymmetric | internal/bsonindexed/location.go:219-297 | turned round, any two keys compare the other way |
| Events.ScanOrder | internal/bsonindexed/scanner.go:90-279 | with ascending names the locations a scan visits strictly increase under Compare, and the root end comes last at the document's end |
| Scanner.Scanner.constructor | internal/bsonindexed/scanner.go:70-76 | stands before the root, with the whole document ahead |
| Scanner.Scanner.OpenRoot | internal/bsonindexed/scanner.go:110-129 | enters the document exactly when the bytes left can hold one of its announced length, and otherwise changes nothing; on an encoded document it is the first step |
| Scanner.Scanner.StartElement | internal/bsonindexed/scanner.go:131-161 | the next field's start, or the container's end |
| Scanner.Scanner.ConsumeValueBody | internal/bsonindexed/scanner.go:163-270 | passes a scalar or enters a container, staying in step with the tree |
| Scanner.Scanner.AfterEndOfValue | internal/bsonindexed/scanner.go:272-279 | moves to the next element or closes the container |
| Scanner.Scanner.AdvanceToNextLocation | internal/bsonindexed/scanner.go:90-108 | each step emits exactly the next expected location and position and decreases a measure, so a scan ends; on arbitrary bytes it stays within bounds |
| Chunker.Serialize | internal/bsonindexed/chunker.go:33-86 | the chunks partition the input in emission order on any bytes; on an encoded document each but the last ends at an end-of-value event where it is over 16384 bytes, or from 512 on where the hash agrees, and no event inside a chunk is such |
| Chunker.ChunksCutWhereDue | internal/bsonindexed/boundary.go:40-49 | the same for any run of events: which one ends each chunk, that none before it in the chunk would, and what the chunk's key and bytes are |
| Chunker.ChunksPartition | internal/bsonindexed/chunker.go:43-79 | joined in emission order the chunks are the input |
| Chunker.DocFits | internal/bsonindexed/chunker.go:43-79 | every event of a document is at a position inside it, in order |
| IndexedDocument.ReadBytes | internal/bsonindexed/indexed_document.go:67-83 | concatenates the chunks in iteration order |
| IndexedDocument.ChunkKeysIncrease | internal/bsonindexed/chunker.go:43-79 | chunk keys are distinct end-of-value locations in Compare order, the end-of-document key last |
| IndexedDocument.RoundTrip | internal/bsonindexed/indexed_document.go:67-83 | Serialize then Bytes over an index iterated in Compare order returns the document's bytes |
| IndexedDocument.KeyIterationIsEmissionOrder | internal/bsonindexed/indexed_document.go:67-83 | whatever the names, iteration in Compare order is emission order if and only if the chunk keys are in that order, and then the document is read back |
| IndexedDocument.EmissionOrderReadsBack | internal/bsonindexed/chunker.go:33-86 | and so does joining in emission order |
| IndexedDocument.ByteIterationIsEmissionOrder | internal/bsonindexed/location.go:33-41 | in byte order every chunk still comes once; the order is emission order if and only if no chunk key is overtaken by a later one, and then the document is read back |
| ByteOrder.ByteIterationScrambles | internal/bsonindexed/location.go:33-41 | for every boundary rule, a document whose chunks joined in byte order are not its bytes |
| NameOrder.DescendingNamesScramble | internal/bsonindexed/mutation.go:225-249 | for every boundary rule, a document with descending names whose chunks joined in Compare order are not its bytes |
| Resync.DocumentChunkBounds | internal/bsonindexed/boundary.go:29-49 | every chunk but the last is at least 512 bytes and at most 16384 plus its last scan step |
| Resync.Resynchronise | internal/bsonindexed/chunker.go:43-79 | two documents with the same scan left, once they cut at the same place in it, have identical chunks from there on |
| EditWork.SetLeavesWork | internal/bsonindexed/mutation.go:251-270 | what lies behind the written entry, at a stated byte, is the same scan in both versions, shifted |
| EditWork.UnsetLeavesWork | internal/bsonindexed/mutation.go:272-286 | so is what lies behind a removed entry, or, where elements of an array are renumbered by it, behind the array |
| EditWork.PushLeavesWork | internal/bsonindexed/mutation.go:288-309 | so is what lies behind the elements of an array pushed to |
| EditWork.PopLeavesWork | internal/bsonindexed/mutation.go:311-339 | so is what lies behind the elements of an array popped from |
| EditWork.SetResynchronises | internal/bsonindexed/chunker.go:43-79 | from any place behind the written entry where both versions cut, all chunks are identical, keys and bytes |
| EditWork.UnsetResynchronises | internal/bsonindexed/chunker.go:43-79 | the same behind the removed entry, or behind the array it renumbers |
| EditWork.PushResynchronises | internal/bsonindexed/chunker.go:43-79 | the same behind the elements of the array pushed to |
| EditWork.PopResynchronises | internal/bsonindexed/chunker.go:43-79 | the same behind the elements of the array popped from |
| MongoPath.ShownPathReadsBack | internal/bsonindexed/location.go:300-335 | a printed path parses back to itself if and only if every object key is non-empty, dot-free and not a number |
| MongoPath.FromMongoPath | internal/bsonindexed/location.go:300-316 | the start location of the parsed path, or an error exactly when a component is empty |
| MongoPath.ToMongoPath | internal/bsonindexed/location.go:318-335 | the printed path of a location |
| MongoPath.InFigures | internal/bsonindexed/location.go:300-316 | a.10 is element 10 of a, and a..b is no path |
| StoredDocument.LookupStored | internal/bsonindexed/lookup.go:35-48 | lookup through the stored chunks is lookup in the tree |
| StoredDocument.SetFieldStored | internal/bsonindexed/mutation.go:30-51 | a set through the stored chunks stores the chunks of the edited tree, or refuses for the tree edit's reason |
| StoredDocument.UnsetFieldStored | internal/bsonindexed/mutation.go:52-73 | so does an unset |
| StoredDocument.PushArrayStored | internal/bsonindexed/mutation.go:75-95 | so does a push |
| StoredDocument.PopArrayStored | internal/bsonindexed/mutation.go:97-118 | so does a pop |
| StoredDocument.SetStaysIndexable | internal/bsonindexed/mutation.go:30-51 | a set of a storable value leaves a document that can be stored, read back and edited again, so long as it fits 32 bits |
| StoredDocument.PushStaysIndexable | internal/bsonindexed/mutation.go:75-95 | so does a push |
| StoredDocument.RemovalsStayIndexable | internal/bsonindexed/mutation.go:52-118 | so do an unset and a pop, whatever they remove |
| RawCodec.ScalarReadsBack | internal/bson/decode_raw.go:170-307 | each scalar form decodes to the value it encodes, whatever follows it |
| RawCodec.ScalarWritesBack | internal/bson/decode_raw.go:170-307 | each scalar accepted encodes to the bytes it was read from |
| RawCodec.FieldsReadBack | internal/bson/decode_raw.go:74-133 | encoded fields decode to themselves, or are refused for their depth alone |
| RawCodec.FieldsWriteBack | internal/bson/decode_raw.go:74-133 | accepted fields are the encoding of what they decode to, array names canonical |
| RawCodec.DecodeOfEncode | internal/bson/minmaxkey.go:277-400 | decoding an encoded document returns it if and only if it is well formed and at most 200 deep; a deeper well-formed one is refused as too deep |
| RawCodec.AcceptedIsCanonical | internal/bson/decode_raw.go:47-133 | bytes the decoder accepts re-encode to themselves |
| RawCodec.SizeIsConsumed | internal/bson/minmaxkey.go:125-183 | the size read off a value's prefix is what decoding it consumes, for every tag |
| RawCodec.ProjectionIsFilter | internal/bson/decode_raw.go:41-45 | decoding named fields is decoding all and keeping those, in order |
| WireForm.Le64Digit | internal/bson/decode_raw.go:178-184 | the k-th of the eight bytes written is the k-th digit of the number to the base 256, the least first |
| WireForm.Read64IsWord | internal/bson/decode_raw.go:178-184 | the number read is the sum of the eight bytes by their weights |
| WireForm.ReadsWireForm | internal/bson/decode_raw.go:170-307 | for every tag, bytes and value: the decoder takes the bytes for the value if and only if they are its form in the BSON specification, tags and two's complement written out |
| WireForm.WritesWireForm | internal/bson/minmaxkey.go:350-400 | a well-formed scalar has one wire form, the one the encoder writes under its tag |
| WireForm.InFigures | internal/bson/decode_raw.go:178-304 | values of tags 0x01, 0x08, 0x09, 0x10, 0x11, 0x12, 0x7F and 0xFF, in bytes |
| WireForm.HelloWorld | internal/bson/decode_raw.go:37-39 | the first example document of the BSON specification, byte for byte |
| WireForm.AcceptedIsDocument | internal/bson/decode_raw.go:37-39 | bytes the decoder accepts are the encoding of a document of the chunked index |
| RawDecoder.RawValueSize | internal/bson/minmaxkey.go:125-183 | computes that size, regex scan included |
| RawDecoder.DecodeRawFields | internal/bson/decode_raw.go:74-133 | the field loop computes the parse of the fields, errors included |
| RawDecoder.DecodeRawValue | internal/bson/decode_raw.go:170-307 | computes the parse of one value |
| RawDecoder.DecodeRawContainer | internal/bson/decode_raw.go:47-70 | computes the parse of a document or array at its depth |
| RawDecoder.DecodeRawDocument | internal/bson/decode_raw.go:37-39 | accepts exactly the encodings of well-formed documents of bounded depth, each with its document; the forms of the scalars in it are those of WireForm.ReadsWireForm |
| RawDecoder.DecodeRawDocumentFields | internal/bson/decode_raw.go:43-45 | on bytes the full decoder accepts, its result filtered to the named fields |
| RawDecoder.FromEntriesRaw | internal/bson/minmaxkey.go:277-345 | the encoding, its length patched in last, modulo 2^32 |
| RawDecoder.WriteRawField | internal/bson/minmaxkey.go:350-400 | one field's encoding |
| MergeModes.MergeKeyIsThreeWay | internal/backends/dolt/bson_merge.go:29-81 | the cases of the merge of one key are one symmetric rule, nested documents included: an unchanged side yields to the other |
| MergeModes.ApartMerges | internal/backends/dolt/bson_merge.go:26-83 | documents whose changes do not meet merge, and ours stays visible in the result |
| MergeModes.MergedAt | internal/backends/dolt/bson_merge.go:26-83 | at every path where base and sides stop all being documents, the merge has our change if there is one, and otherwise what theirs has |
| MergeModes.FieldTouchedMerge | internal/backends/dolt/merge_mode.go:130-182 | under fieldTouched rows both sides changed merge if and only if both are present and their changes do not meet, at any depth, and the result is the merge of the documents |
| MergeModes.FieldTouchedPaths | internal/backends/dolt/merge_mode.go:130-182 | that is, if and only if no path was changed on both sides, and then every path keeps its change |
| MergeModes.DocumentTouchedMerge | internal/backends/dolt/merge_mode.go:130-155 | under documentTouched only rows both sides created merge, and only if one of them is bare |
| DivergentModes.AgreeMerges | internal/backends/dolt/bson_merge.go:26-83 | documents merge if and only if no path was given two values |
| DivergentModes.FieldDivergentMerge | internal/backends/dolt/merge_mode.go:130-182 | under fieldDivergent rows both sides changed merge if and only if both are gone, or both are there and disagree nowhere |
| DivergentModes.FieldDivergentPaths | internal/backends/dolt/merge_mode.go:159-182 | that is, if and only if no path was given two values, and then every path keeps its change |
| DivergentModes.DocumentDivergentMerge | internal/backends/dolt/merge_mode.go:130-155 | under documentDivergent if and only if both sides are alike, deletes included, or both created the document and one of them is bare |
| MergeModes.ReconcileIsMerge | internal/backends/dolt/txn_merge.go:64-75 | the two shortcuts for an unchanged side give what the full merge gives |
| MergeModes.ReconcileOneRow | internal/backends/dolt/txn_merge.go:46-109 | a one-document write conflicts, or merges onto the tip, by that document's row alone |
| WriteOrder.SafeDocumentTouched | internal/backends/dolt/merge_mode.go:130-155 | under documentTouched a command is always in order if and only if it is where it creates its document |
| WriteOrder.NoBareInOrder | internal/backends/dolt/merge_mode.go:130-155 | with no bare documents every command is in order under documentTouched |
| WriteOrder.SafeFieldTouched | internal/backends/dolt/merge_mode.go:159-182 | under fieldTouched a command is always in order if and only if it is against every rival that changed a single path |
| WriteOrder.LocalMerge | internal/backends/dolt/bson_merge.go:26-83 | a rival that changed one path meets a write at that path only, and the merge is the write with the two merged there |
| WriteOrder.PathCommandSafe | internal/backends/dolt/merge_mode.go:45-48 | commands on one path that holds no document, compare-and-swap among them, are in order under both touched modes |
| WriteOrder.WeakestSafeMode | internal/backends/dolt/merge_mode.go:45-48 | a compare-and-swap is in order under the touched modes and under no other |
| WriteOrder.GuardedUnsafe | internal/backends/dolt/merge_mode.go:159-182 | a command that reads one field and writes another is not in order under the default mode |
| WriteOrder.GuardedInsideUnsafe | internal/backends/dolt/merge_mode.go:159-182 | nor is one that reads and writes a single field which holds a document |
| WriteOrder.BareInsertUnsafe | internal/backends/dolt/merge_mode.go:141-145 | in every mode two inserts of one bare document merge, and the second does not fail |
| Replay.StepInv | internal/clientconn/conn.go:819-893 | every step of every writer keeps the protocol's invariant |
| Replay.QuietStep | internal/handler/handler.go:346-351 | steps other than a publish, abandoned attempts among them, keep it and leave the branch alone |
| Replay.PublishStep | internal/backends/dolt/helpers.go:688-706 | a compare-and-swap publish keeps it |
| Replay.RefusalMeansMoved | internal/backends/dolt/txn_merge.go:64-70 | a refusal means the branch moved since the base was pinned |
| Replay.Dispatch | internal/clientconn/conn.go:875-893 | the loop returns the first result that is neither refused nor raced, or stops at a cancelled client or after 257 attempts |
| ReplayOrder.StepExtends | internal/handler/handler.go:327-351 | no step but a successful publish touches the branch or its history |
| ReplayOrder.RunInv | internal/clientconn/conn.go:819-893 | the invariant holds after every interleaving |
| ReplayOrder.PublishOrder | internal/clientconn/conn.go:852-870 | over every interleaving of orderly commands the branch is the published commands applied one after another in publish order, and every reply is the one that order gives; a command that changed nothing answers for the tip it read |
| ReplayOrder.ExactlyOnce | internal/clientconn/conn.go:865-869 | a command whose publish was answered for published exactly once with that reply, and one that was not left no trace |
| ReplayOutcome.ToldTheTruth | internal/clientconn/conn.go:865-915 | over every run a client is answered with a reply if and only if its command published with it and its own commit succeeded, and told of a failed commit if and only if that failed; every other end has its cause: a handler that fails does so on a tip the branch held since, giving up comes at the 257th refusal |
| ReplayOutcome.RunEnds | internal/clientconn/conn.go:875-893 | how each writer's end goes with its last move |
| ReplayOutcome.DoneStays | internal/clientconn/conn.go:891-915 | a command that has ended makes no further move |
| ReplayOutcome.AloneRuns | internal/clientconn/conn.go:819-869 | over every run of one writer alone, once it has committed, its handler has run on the starting document, the reply is that of this run and the branch is the start with that row written |
| ReplayOutcome.AttemptLands | internal/clientconn/conn.go:819-869 | an attempt nobody disturbs runs the command on the tip of that moment, in every mode and state |
| ReplayOutcome.PublishComparesContents | internal/backends/dolt/helpers.go:688-706 | a publish goes through if and only if the tip has the contents it had at the merge, and otherwise counts as a refusal and leaves the branch |
| ReplayOrder.RefusalsBounded | internal/clientconn/conn.go:734-740 | a writer is refused at most once per publish by another since it began, so fewer times than there are writers, and none of up to 257 gives up |
| ReplayOrder.UnsafeRun | internal/clientconn/conn.go:852-870 | the condition on commands is exact: otherwise two writers have a run that publishes out of order |
| LogicalClock.StepInv | internal/handler/logical_time.go:229-234 | every load and swap of every call keeps the invariant |
| LogicalClock.MonotoneIff | internal/handler/logical_time.go:322-333 | over every interleaving the clock strictly increases if and only if no timestamp is issued at 2^64 - 1 |
| LogicalClock.IssuedInOrder | internal/handler/logical_time.go:322-333 | issued timestamps are distinct and increase in swap order |
| LogicalClock.IssuedAfterObserved | internal/handler/logical_time.go:217-235 | a timestamp issued after an observation was accepted exceeds it |
| LogicalClock.FailedMeansOvertaken | internal/handler/logical_time.go:229-234 | a failed swap means another succeeded since the load |
| LogicalClock.Wraps | internal/handler/logical_time.go:325-328 | at 2^64 - 1 the next timestamp is 0 |
| ClockValues.IssuedIsLeast | internal/handler/logical_time.go:322-333 | short of exhaustion a timestamp is the greater of the wall-clock time its call began with and the successor of the clock it replaced |
| ClockValues.JumpIsObserved | internal/handler/logical_time.go:225-235 | every other move of the clock is upwards, to exactly the time some call observed |
| AuthCache.RunInv | internal/handler/authz.go:1144-1164 | every interleaving of checks, logins and user or role commands keeps the cache invariant |
| AuthCache.NeverStale | internal/handler/authz.go:1144-1164 | a check answers for its own user from reads made after every command that had returned when it began, short of 2^64 bumps |
| AuthCache.AdminInv | internal/handler/msg_createrole.go:107-118 | a command's write, and its bump after it, keep the cache invariant |
| AuthCache.ConnInv | internal/handler/commit_identity.go:160-183 | every step of a check, of privileges or of the commit identity, and every login keep it |
| AuthCache.ComesRound | internal/handler/handler.go:91 | after 2^64 bumps a stale entry is used |
| AuthCache.LateReadStaysFresh | internal/handler/handler.go:91 | and after as many, where the reads came late, a fresh one |
| AuthCache.AnswersFromCache | internal/handler/authz.go:1144-1164 | while the generation stands a check answers from the cache and reads nothing |
| AuthCache.FirstReadCounts | internal/handler/authz.go:1144-1164 | an entry is as old as the first read that went into it |
| Expressions.MeaningKept | internal/handler/common/aggregations/operators/eval_helpers.go:266-389 | an expression means the same on a document cut down to fields that include all it reads, those that variables no operator binds are looked for under among them |
| Expressions.MeaningLost | internal/handler/common/aggregations/operators/eval_helpers.go:266-389 | and otherwise some interpretation tells every document with a certain other field from its cut |
| Expressions.GroupKept | internal/handler/common/aggregations/stages/group.go:68-141 | the same for the body of a $group, whose keys are output fields whatever they are called |
| Expressions.GroupLost | internal/handler/common/aggregations/stages/group.go:68-141 | and otherwise some interpretation and document tell the difference |
| FieldRoots.MentionsCover | internal/handler/aggregate_fields.go:133-180 | where sortBy and $literal are what they are taken for, the fields listed and those of free variables are all that is read |
| FieldRoots.FreeReadsDollared | internal/handler/common/aggregations/operators/eval_helpers.go:95-114 | free variables are looked for under names that start with two dollars only |
| FieldRoots.AppendExprRootFields | internal/handler/aggregate_fields.go:135-180 | lists the roots named, in order of first mention, or refuses |
| NamedFields.ExpressionAccepted | internal/handler/aggregate_fields.go:135-180 | an expression is accepted if and only if no string or key the analysis comes upon in it can read the whole document and every sortBy holds a document |
| NamedFields.ExpressionListed | internal/handler/aggregate_fields.go:135-180 | a root is listed if and only if such a string or sort key names it |
| NamedFields.FreeUnlessBuiltIn | internal/handler/common/aggregations/operators/eval_helpers.go:300-342 | a variable reads no field if it is built in or bound, and otherwise the two fields it would be bound as |
| NamedFields.OperatorsBind | internal/handler/common/aggregations/operators/arrayops.go:680-714 | which variables $map, $filter, $reduce and $let (miscops.go:63-96) bind, and in which argument only |
| FieldRoots.MisnamedLosesMeaning | internal/handler/aggregate_fields.go:162-170 | an output field called sortBy is mistaken for a sort order and the field it reads is missed |
| Filters.MatchKept | internal/handler/common/filter_fields.go:24-65 | a filter matches a document cut down to the fields it names as it matches the whole |
| Filters.FilterRootFields | internal/handler/common/filter_fields.go:26-65 | lists those fields without repeats, or refuses |
| NamedFields.FilterAccepted | internal/handler/common/filter_fields.go:35-65 | a filter is accepted if and only if each of its clauses, at any depth, is a combination of documents, one of the two ignored operators, or no operator |
| NamedFields.FilterListed | internal/handler/common/filter_fields.go:35-65 | a root is listed if and only if it is that of some clause that is not an operator |
| NamedFields.CombinationsMean | internal/handler/common/filter.go:341-470 | $and asks every one of its filters to match, $or some one, $nor none; combining none is an error, whose verdict is left open |
| Projections.RootsCoverShape | internal/handler/find_fields.go:57-105 | the analysis lists every stored field an inclusion is shaped by |
| Projections.FindModeIff | internal/handler/common/projection.go:153-397 | a find projection the analysis accepts runs as an exclusion if and only if it holds nothing but slices |
| Projections.ProjectNeverExcludes | internal/handler/common/aggregations/stages/projection/projection.go:62-248 | a $project stage the analysis accepts is never an exclusion |
| Projections.SetBySourceOrder | internal/handler/common/aggregations/stages/projection/projection.go:709-744 | puts the field behind as many of the output so far as the source has, in their order, before it |
| Projections.InsertKept | internal/handler/common/aggregations/stages/projection/projection.go:709-744 | where it goes depends on no source field but those in the output and the one inserted |
| Projections.ViewKept | internal/handler/aggregate_fields.go:89-131 | a projection makes the same output, fields in the same order, from a document cut down to its roots, where those are all it looks at |
| Projections.ViewLost | internal/handler/find_fields.go:57-105 | and where they are not, every document with a certain other field shows the difference |
| Projections.AppendProjectionRootFields | internal/handler/find_fields.go:59-105 | lists the roots of a find projection, or of a $project stage (aggregate_fields.go:91-131), and whether anything is included |
| NamedStages.ProjectionAccepted | internal/handler/find_fields.go:57-105 | a projection, of find or of $project, is accepted if and only if each of its entries is an inclusion, _id switched off, or an expression that is accepted |
| NamedStages.ProjectionListed | internal/handler/find_fields.go:57-105 | a root is listed for it if and only if one of its entries names it |
| Pipelines.ProduceCut | internal/handler/aggregate_fields.go:26-87 | a pipeline produces the same from documents cut down to any fields that include those it names |
| Pipelines.ProperPrunable | internal/handler/aggregate_fields.go:26-87 | the list returned covers what the last analysed stage reads, where sortBy and $literal are what they are taken for and it reads nothing it does not name |
| Pipelines.PruningKeepsMeaning | internal/handler/aggregate_fields.go:26-87 | where it does, pruning to the list returned keeps the result |
| Pipelines.PruningKeepsPlain | internal/handler/aggregate_fields.go:26-87 | whatever it reads without naming it, pruning keeps the result on documents that have no such field |
| Pipelines.UnnamedAre | internal/handler/aggregate_fields.go:26-87 | such a field starts with two dollars or is one its $project writes before it inserts another |
| Pipelines.ProduceLost | internal/handler/aggregate_fields.go:26-87 | where a list does not, a pipeline that lets some document through has expressions and documents whose result changes |
| Pipelines.PruningIff | internal/handler/aggregate_fields.go:26-87 | so for the list returned the condition is exact, for $group, $project and $count alike |
| PruningLosses.PruningLosesSortBy | internal/handler/aggregate_fields.go:162-170 | a $group and a $project the analysis accepts that do not meet the condition |
| PruningLosses.PruningLosesLiteral | internal/handler/aggregate_fields.go:160-161 | nor do a $group with an output field and a $let with a variable called $literal |
| PruningLosses.PruningLosesVariable | internal/handler/common/aggregations/operators/eval_helpers.go:330-342 | nor does a $project with a variable that nothing binds |
| PruningLosses.PruningLosesOrder | internal/handler/common/aggregations/stages/projection/projection.go:709-744 | nor does a $project that writes a field before it inserts another; the insertion goes to different places |
| Pipelines.ProperFindPrunable | internal/handler/find_fields.go:24-55 | the list returned for a find covers what it makes its results from, under the same conditions, where the projection does more than slice |
| Pipelines.FindPruningKeepsMeaning | internal/handler/find_fields.go:24-55 | where it does, pruning keeps what a find makes its results from |
| Pipelines.FindPruningKeepsPlain | internal/handler/find_fields.go:24-55 | and pruning keeps its results on documents that have no field it reads without naming it |
| Pipelines.FindPruningIff | internal/handler/find_fields.go:24-55 | and only where it does, for every find that lets some document through |
| PruningLosses.SlicingLosesFields | internal/handler/find_fields.go:77-81 | a find whose projection only slices loses a field to pruning |
| PruningLosses.FindPruningLoses | internal/handler/common/projection.go:584-600 | a find with a free variable, and one that writes a field first, do not meet the condition |
| Pipelines.PipelineRootFields | internal/handler/aggregate_fields.go:30-87 | lists the roots of a pipeline, or refuses exactly where it cannot be pruned |
| NamedStages.PipelineAccepted | internal/handler/aggregate_fields.go:26-87 | a pipeline is accepted if and only if it begins with accepted $match, $sort, $limit and $skip stages up to a $count, or an accepted $group or including $project |
| Pipelines.FindRootFields | internal/handler/find_fields.go:27-55 | lists the roots of a find, or refuses exactly where it cannot be pruned |
| NamedStages.FindAccepted | internal/handler/find_fields.go:24-55 | a find is accepted if and only if it has an accepted including projection, an accepted filter, no sort key that holds a document, and none of the options that read more |
| NamedStages.MatchKeeps | internal/handler/common/filter_iterator.go:55-79 | $match and a find's filter keep exactly the documents that match, in their order |
| NamedStages.WindowIs | internal/handler/msg_find.go:418-420 | a find skips first and limits what is left; a limit of 0 is none |
| NamedStages.LimitAndSkip | internal/handler/common/limit_iterator.go:57-67 | $limit keeps the first documents and $skip (skip_iterator.go:55-69) drops them |
| PrunedScan.PipelineOverScan | internal/handler/msg_aggregate.go:492-496 | from stored bytes to result: where the list returned covers what is read, scanning with the listed fields gives the pipeline what a full scan gives |
| PrunedScan.FindOverScan | internal/handler/msg_find.go:353-357 | the same for find, under its condition |
| Authz.Resolver.Walk | internal/authz/resolve.go:30-50 | ends on every catalog, cycles included, having closed what it added and added only what it reaches |
| Authz.Resolve | internal/authz/resolve.go:26-56 | collects the own privileges of exactly the reachable roles, each once |
| Authz.Authorized | internal/authz/model.go:129-141 | true if and only if some privilege that is in reach of the target has the action, or any action |
| Authz.MayAct | internal/authz/resolve.go:26-56 | permitted if and only if some reachable role holds a privilege in reach of the target with the action, or any action |
| Authz.CoversIsReach | internal/authz/model.go:93-114 | a grant covers a target if and only if it is on any resource, or both are the cluster, or neither is and they agree in database and collection where the grant names one, system collections by name only |
| Grants.ClusterCovered | internal/authz/model.go:97-99 | the cluster is covered exactly by grants on any resource or on the cluster |
| Grants.OrdinaryCovered | internal/authz/model.go:100-109 | an ordinary collection, or a database, exactly by grants on any resource and by those not on the cluster that agree where they name something |
| Grants.ClusterNeedsGrant | internal/authz/model.go:97-99 | over every catalog, a user none of whose reachable grants is on any resource or the cluster may take no action on the cluster |
| Grants.DatabasesAreApart | internal/authz/model.go:103-105 | and one whose reachable grants all name other databases none on this one |
| Grants.BuiltinRoleGrants | internal/authz/resolve.go:36-39 | a built-in role brings its privileges |
| Grants.CustomRoleGrants | internal/authz/resolve.go:41-48 | a custom role brings its own privileges and all that those it inherits bring |
| Grants.HeldThroughRoles | internal/authz/resolve.go:30-50 | and no privilege is held otherwise |
| Grants.BuiltinHidesCustom | internal/authz/resolve.go:36-39 | a custom role under a built-in role's name changes nothing |
| Authz.SystemCollectionsNeedNaming | internal/authz/model.go:93-114 | system collections are covered only by name or by any-resource |
| IndexCatalog.ValidateIndexesForCreation | internal/handler/msg_createindexes.go:618-747 | computes the decisions of the request in order, with the source's errors |
| IndexCatalog.IsTextIndex | internal/handler/msg_createindexes.go:749-757 | whether any key is a text key |
| IndexCatalog.ClearOfExisting | internal/handler/msg_createindexes.go:682-711 | an index is created if and only if it clashes with none, and is not the one on _id of an indexed collection |
| IndexCatalog.CatalogStaysOk | internal/handler/msg_createindexes.go:618-747 | for every request, names, keys under each collation, and text indexes stay unique |
| IndexCatalog.AskingAgain | internal/handler/msg_createindexes.go:714-744 | repeating an accepted request creates nothing, and is refused if and only if it created a text index |
| IndexCatalog.CreatedIffMissing | internal/handler/msg_createindexes.go:682-711 | an accepted request creates exactly what the catalog does not have |
| IndexCatalog.PrintedAlike | internal/handler/msg_createindexes.go:682-711 | a text index that prints like an existing plain one is taken for it |
| IndexRequests.PrintTells | internal/handler/msg_createindexes.go:577-602 | keys whose field names have no comma print alike if and only if they are the same field by field, the first kind set counting |
| IndexRequests.RequestAccepted | internal/handler/msg_createindexes.go:618-747 | on a sound catalog a request is accepted if and only if each entry is well named, clashes with none before it, is held by the catalog or clear of it, and no text index is asked for beside another |
| IndexRequests.IdIndexIsOnId | internal/handler/msg_createindexes.go:636-645 | an accepted index named _id_ whose field names have no comma is the ascending one on _id |
| IndexRequests.EarlierReason | internal/handler/msg_createindexes.go:650-679 | within a request the latest clash gives the error, and a full match its own |
| IndexRequests.ExistingReason | internal/handler/msg_createindexes.go:682-711 | against the catalog the first clash does |
| Line.DrawLine | cmd/soak/render.go:186-213 | ends exactly at the end point, one point per step along the longer axis, never past either end, each within half a pixel of the true line |

## Left out

- Hashes, the Weibull formula and the SQLite4 varint library: CrossesBoundary is an arbitrary function of key and size with the source's limits, varints follow their published format.
- The node store and address map: a finite map from key to chunk whose iteration order is a hypothesis.
- wirebson: scalars are encoded in the forms of the BSON specification.
- Chunker.Serialize: does not model resuming after a malformed element beyond staying within bounds and losing no bytes.
- Mutation.SetFieldInBytes: requires an encoded document, as do the other byte edits; the source's mutators are specified on well-formed documents only.
- Location.FromKey: requires a byte behind each array marker it reads, where the source would index past the end.
- Location.Compare: requires keys that do not break off inside an element as far as they compare equal, where the source would slice past the end.
- The scanner's one large case over types is split into helper methods, and its scalar sizes reuse ElementValueEnd.
- MergeModes.FieldTouchedPaths: documents are maps, so the order of merged fields is not modelled, and arrays are compared whole, as in the source.
- MergeModes.ReconcileOneRow: views, collection metadata and indexes in a working set are not modelled.
- Replay.StepInv: the session registry, reconnecting, backoff and commands inside a client transaction are not modelled; a storage failure is a step that ends the command.
- ReplayOrder.PublishOrder: commands that write several documents are not modelled.
- LogicalClock.MonotoneIff: signature checks and the limit on observed times far in the future are left out.
- AuthCache.NeverStale: one check at a time per connection; a resolution that fails caches nothing. The converse does not hold, as LateReadStaysFresh shows.
- Expressions.MeaningKept: operators are uninterpreted but for the variables they bind, so nothing is said of what they compute, of errors or of memory limits.
- Projections.ViewKept: which stored fields, which of their places and which computed values an inclusion's output is made from is modelled, not the output itself; the checks of names, path collisions and operator arguments are an arbitrary verdict on the projection, and so are those of a $group body.
- Pipelines.PruningKeepsMeaning: stages after the first that is not $match, $sort, $limit or $skip see only that stage's output and are not modelled further; the numbers of $limit and $skip, truncated to 32 bits in the source, are arbitrary functions of their arguments.
- IndexCatalog.CatalogStaysOk: two keys are the same when they print the same, as in the source; collations are their normalized identities.
- Line.DrawLine: integers do not overflow.
- The per-command privilege tables, versioning, statistics, replication, network and logging code.
