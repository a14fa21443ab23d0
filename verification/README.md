# SchemaHub in Dafny

SchemaHub stores schema files as named declarations, edits them with typed operations, checks what may be published, and
keeps repository records under optimistic concurrency. This project models the parts of it whose correctness does not show
in any single function, and proves what they promise:

- **Binary codec and split/reassemble** (`Utf8`, `Wire`, `Cursors`, `Descriptors`, `DescriptorCodec`, `Blob`, `Reassembly`):
  the descriptor codec inverts itself on every tree and every trailing input, and a file that is split, stored by name and
  rebuilt comes back exactly when its top-level names are used once.
- **Symbol resolution** (`SymbolResolution`): the innermost enclosing match, for every reference at any depth, idempotent;
  a closure resolves exactly when every absolute name is non-empty and declared once and every reference stands for one.
- **Mutation engines** for Protobuf (`ProtoOps`, `ProtoEngine`, `ProtoBatches`, `ProtoImports`), FlatBuffers (`FlatOps`,
  `FlatEngine`, `FlatBatches`) and OpenAPI (`OpenApiDocs`, `OpenApiMutations`): the operations are functions on a schema; the
  engines are classes or loops that edit a working copy in place and track changes, proved to follow those functions and to
  emit a patch that gives exactly the final state.
- **What the operations mean** (`NamedTables`, `ProtoFieldViews`, `ProtoEnumViews`, `ProtoServiceViews`, `FlatViews`,
  `FlatEnumViews`, `FlatUnions`, `FlatImports`, `OpenApiViews`): the declarations of a file as plain tables; each operation
  and each run is accepted on a condition of the table and is an update of it.
- **Theorems over runs** (`ProtoFieldNumbers`, `ProtoNames`, `ProtoCompat`, `ProtoRename`, `ProtoUndo`, `FlatNames`,
  `FlatCompat`, `FlatRename`, `FlatUndo`): numbers are never reused, every declaration stays under its own name and in its
  order list, accepted edits pass the separately written compatibility checkers, and what one operation does another undoes.
- **OpenAPI references** (`OpenApiReference`): parsing and rendering are inverse; the escapes are those of section 3 of RFC 6901.
- **Repository records** (`Repositories`, `EtagProtocol`): every interleaving of read-modify-write calls over a
  compare-and-swap record.
- **Imports** (`ImportPaths`, `DependencyTraversal`, `ReferenceIntegrity`): path normalization, the bounded worklist over a
  possibly cyclic import graph, and two checks for imports of a schema that is deleted.

`Wrappers`, `Text`, `NameLists`, `SortedNames` and `Effects` are shared. `dafny verify dfyconfig.toml` checks everything.

## Properties that do not hold as one might state them

Each of these has a lemma that says exactly when the property holds, and one that shows a failing input.

- A number freed by `RemoveField` is protected unless it is the largest 32-bit number, whose reserved range wraps to an empty
  one (`ProtoFieldNumbers.ReuseExactlyAtMax`, `ProtoFieldNumbers.LargestNumberIsReused`, `ProtoCompat.LargestNumberBreaks`).
- `ReorderFields` permutes the fields exactly when every field has a name of its own (`ProtoCompat.ReorderPermutesExactly`,
  `ProtoCompat.ReorderLosesAField`).
- A `ChangeFieldType` the engine accepts passes the checker exactly when the field has no number or the new type is spelled
  without a dot (`ProtoCompat.ChangeTypeCompatibleExactly`, `ProtoCompat.DottedChangeIsRefused`). Accepted changes do not add
  up: a run of them on one field is compatible with its start exactly when the first and the last type stand in the tables
  of allowed changes (`ProtoCompat.TypeChangesCompatibleExactly`, `ProtoCompat.TypeChangesDoNotCompose`).
- Operations accepted one at a time are accepted as a batch exactly when nothing dangles where they end
  (`ProtoBatches.OneByOneAsBatch`, `ProtoBatches.UseAfterDelete`, `FlatBatches.OneByOneAsBatch`, `FlatBatches.UseAfterDelete`).
- A FlatBuffers batch that declares no dropped name again is refused exactly when something dangles
  (`FlatBatches.RefusedExactly`); one that does may be refused although nothing does (`FlatBatches.RecreationIsRefused`).
- A FlatBuffers rename can be undone exactly when the old name is simple or nothing spells it out
  (`FlatRename.RenameBackRestoresExactly`, `FlatRename.DottedNameNotRestored`). It carries a declaration's references over, with
  the two names exchanged, exactly when none of them qualifies the renamed name (`FlatRename.RenameMovesEveryReference`,
  `FlatRename.QualifiedReferenceStrays`).
- A union member named after its type keeps being so when the type is renamed exactly when it does not refer to it by a
  dotted name (`FlatUnions.NameFollowsExactly`, `FlatUnions.DottedMemberStrays`).
- A FlatBuffers type spelling reads back exactly when it has no brackets directly inside brackets
  (`FlatCompat.SpellingReadsBackExactly`, `FlatCompat.NestedVectorIsLost`).
- Adding a FlatBuffers field is compatible exactly when the slot counter does not wrap, or wraps onto a slot of the same type
  (`FlatCompat.AddCompatibleExactly`, `FlatCompat.LastSlotBreaks`).
- A repository update or archive commits its patch of the current record in every interleaving exactly when it expects no
  etag that is still to come (`EtagProtocol.SafeExactlyWhenTimely`). For an etag any number of versions ahead some
  interleaving lets an update bring an archived record back to life, or an archive undo the updates made meanwhile
  (`EtagProtocol.FutureEtagCommitsStale`, `EtagProtocol.FutureEtagLosesUpdates`).

## Assumptions

- Compare-and-swap of the record database is atomic, and record encoding is injective, so records stand for their bytes.
- Field-type numbers and scalar keywords invert their counterparts in the descriptor library.
- A publication snapshot lists the schema names of its inputs and of its final tree.
- Reads at a commit depend only on the commit; commit ids are not empty. Clocks, the network, authorization, the reference
  query of the version-control layer and the text parsers are parameters.
- Integer overflow wraps, as in a release build; where a theorem needs a counter not to wrap it says so.

## Model

Paths are relative to the repository root.

| member | source | states |
|---|---|---|
| Utf8.DecodeEncode | crates/schemahub-compiler-protobuf/src/codec.rs:217-227 | decoding the UTF-8 bytes of any string gives the string back |
| Wire.UvarintRoundTrip | crates/schemahub-compiler-protobuf/src/codec.rs:45-57 | reading a written varint in front of any bytes gives the value and leaves exactly those bytes |
| Wire.UvarintInRange | crates/schemahub-compiler-protobuf/src/codec.rs:191-206 | whatever the bytes, a varint that is accepted fits 64 bits |
| Wire.UvarintExtends | crates/schemahub-compiler-protobuf/src/codec.rs:191-206 | bytes appended to an accepted varint stay unread |
| Wire.I32Inverts | crates/schemahub-compiler-protobuf/src/codec.rs:59-63 | zig-zag and varint invert each other on every 32-bit integer, in front of any bytes |
| Wire.I64Inverts | crates/schemahub-compiler-protobuf/src/codec.rs:208-211 | the same for every 64-bit integer |
| Wire.BytesInverts | crates/schemahub-compiler-protobuf/src/codec.rs:229-237 | length-prefixed bytes come back whole, the rest untouched |
| Wire.StrInverts | crates/schemahub-compiler-protobuf/src/codec.rs:217-227 | the same for strings, through UTF-8 |
| Wire.OptFacts | crates/schemahub-compiler-protobuf/src/codec.rs:311-327 | an optional value inverts when its content does |
| Wire.VecFacts | crates/schemahub-compiler-protobuf/src/codec.rs:295-309 | a counted list inverts when its elements do, for any length |
| Cursors.Writer.WriteUvarint | crates/schemahub-compiler-protobuf/src/codec.rs:45-57 | the loop appends exactly the varint of the value |
| Cursors.Writer.WriteIvarint | crates/schemahub-compiler-protobuf/src/codec.rs:59-63 | appends the zig-zag varint |
| Cursors.Writer.WriteBytes | crates/schemahub-compiler-protobuf/src/codec.rs:74-77 | appends length and bytes |
| Cursors.Writer.WriteStr | crates/schemahub-compiler-protobuf/src/codec.rs:69-72 | appends length and UTF-8 bytes |
| Cursors.Writer.WriteOpt | crates/schemahub-compiler-protobuf/src/codec.rs:311-319 | appends the presence byte and the value |
| Cursors.Writer.WriteVec | crates/schemahub-compiler-protobuf/src/codec.rs:295-300 | the loop appends the count and every element in order |
| Cursors.Reader.ReadU8 | crates/schemahub-compiler-protobuf/src/codec.rs:182-189 | yields the next byte and advances by one, or fails at the end |
| Cursors.Reader.ReadUvarint | crates/schemahub-compiler-protobuf/src/codec.rs:191-206 | the shifting loop computes the varint specification on every input, overlong ones included |
| Cursors.Reader.ReadIvarint | crates/schemahub-compiler-protobuf/src/codec.rs:208-211 | agrees with the zig-zag specification on every input |
| Cursors.Reader.ReadBytes | crates/schemahub-compiler-protobuf/src/codec.rs:229-237 | agrees with the specification, failing when the length runs past the end |
| Cursors.Reader.ReadStr | crates/schemahub-compiler-protobuf/src/codec.rs:217-227 | agrees with the specification, failing on invalid UTF-8 |
| Cursors.Reader.ReadVec | crates/schemahub-compiler-protobuf/src/codec.rs:302-309 | the counted loop computes the list specification and stops at the first bad element |
| Cursors.IntegersLeaveTail | crates/schemahub-compiler-protobuf/src/codec.rs:191-211 | the integer decoders leave exactly a tail of their input, as a list of them needs |
| Cursors.StringsLeaveTail | crates/schemahub-compiler-protobuf/src/codec.rs:217-237 | so do the decoders of bytes and strings |
| Cursors.VecsLeaveTail | crates/schemahub-compiler-protobuf/src/codec.rs:302-309 | so does a counted list when its elements do |
| DescriptorCodec.FieldInverts | crates/schemahub-compiler-protobuf/src/codec.rs:715-746 | a field descriptor comes back, source span cleared, leaving exactly the rest |
| DescriptorCodec.EnumInverts | crates/schemahub-compiler-protobuf/src/codec.rs:764-784 | the same for an enum with its values and ranges |
| DescriptorCodec.ServiceInverts | crates/schemahub-compiler-protobuf/src/codec.rs:807-820 | the same for a service with its methods |
| DescriptorCodec.FileOptionsInverts | crates/schemahub-compiler-protobuf/src/codec.rs:490-537 | the same for file options |
| DescriptorCodec.MessageRoundTrip | crates/schemahub-compiler-protobuf/src/codec.rs:822-852 | a message of any nesting, followed by any bytes, decodes to itself with spans cleared and leaves exactly those bytes |
| DescriptorCodec.MessageInverts | crates/schemahub-compiler-protobuf/src/codec.rs:822-852 | the message encoder and decoder invert each other as codec parts |
| DescriptorCodec.DecodeEncodedMessage | crates/schemahub-compiler-protobuf/src/codec.rs:822-852 | decoding an encoded message consumes exactly its encoding, whatever follows |
| DescriptorCodec.MessageEncodingInjective | crates/schemahub-compiler-protobuf/src/codec.rs:822-852 | equal encodings come from messages equal up to spans |
| Blob.DeclRoundTrip | crates/schemahub-compiler-protobuf/src/blob.rs:54-99 | a declaration blob decodes to its declaration, whichever kind, spans cleared |
| Blob.MetaRoundTrip | crates/schemahub-compiler-protobuf/src/blob.rs:140-220 | a metadata blob decodes to its metadata |
| Blob.MetaWithoutPins | crates/schemahub-compiler-protobuf/src/blob.rs:174-220 | a blob cut before the appended pin list decodes to the same metadata with no pins |
| Blob.TruncatedPinsRejected | crates/schemahub-compiler-protobuf/src/blob.rs:174-220 | a blob cut anywhere inside the pin list is rejected |
| Blob.HeadersDecide | crates/schemahub-compiler-protobuf/src/blob.rs:54-220 | a blob of another version is refused by its number, and what decodes as a declaration has the tag of its kind |
| Reassembly.SplitFile | crates/schemahub-compiler-protobuf/src/parse.rs:31-102 | one declaration per top-level item with the order lists, of the file in which every open field kind is filled by what the file declares at any nesting: enum before message, nothing else changed |
| Reassembly.ResolveLocalExactly | crates/schemahub-compiler-protobuf/src/parse.rs:104-165 | a field whose kind is open becomes an enum field if some declaration at any nesting is an enum of that name, else a message field if some is a message, and nothing else changes |
| Reassembly.KindsFilledOnce | crates/schemahub-compiler-protobuf/src/parse.rs:104-165 | that determines the file |
| Reassembly.ReorderByName | crates/schemahub-compiler-protobuf/src/reassemble.rs:91-106 | the listed items once each in list order, then the rest of the map drained in any order and sorted |
| Reassembly.TakeListed | crates/schemahub-compiler-protobuf/src/reassemble.rs:97-101 | takes the listed names out of the map in order and leaves exactly the others |
| Reassembly.SortedRest | crates/schemahub-compiler-protobuf/src/reassemble.rs:102-104 | whatever order the map gives its items out in, the list ends sorted by name with exactly those items |
| Reassembly.UnlistedSorted | crates/schemahub-compiler-protobuf/src/reassemble.rs:102-104 | the tail is strictly sorted by name and holds exactly the last item of each unlisted name |
| SortedNames.SortedUnique | crates/schemahub-compiler-protobuf/src/reassemble.rs:102-104 | a set of items has one list sorted by name, so the map order does not show |
| Reassembly.ReorderedRestores | crates/schemahub-compiler-protobuf/src/reassemble.rs:91-106 | reordering any permutation of distinctly named items by their original order restores it |
| Reassembly.BuildIndexMap | crates/schemahub-compiler-protobuf/src/reassemble.rs:164-182 | maps each original position to where its name went |
| Reassembly.RemapSourceInfo | crates/schemahub-compiler-protobuf/src/reassemble.rs:125-162 | rewrites only the index after a top-level field number, in place |
| Reassembly.CommentsFollow | crates/schemahub-compiler-protobuf/src/reassemble.rs:125-180 | a comment of a top-level item follows the item of its recorded name to its new position, whatever the order; every other comment path stays |
| Reassembly.RemappedIdentity | crates/schemahub-compiler-protobuf/src/reassemble.rs:125-162 | on identity maps every comment path is unchanged |
| Reassembly.Reassemble | crates/schemahub-compiler-protobuf/src/reassemble.rs:26-87 | decodes, reorders and remaps as specified, failing on the first malformed blob |
| Reassembly.SplitReassembleRoundTrip | crates/schemahub-compiler-protobuf/src/reassemble.rs:26-106 | splitting, storing and rebuilding in any store order gives back that file, comment paths unchanged |
| Reassembly.SplitReassembleExactly | crates/schemahub-compiler-protobuf/src/parse.rs:31-165 | the round trip to that file holds if and only if the top-level names are used once |
| SymbolResolution.RegisterFilesExactly | crates/schemahub-compiler-protobuf/src/codegen.rs:88-139 | registration of a closure succeeds if and only if every absolute name, at any nesting, is non-empty and declared once; the symbol map then holds exactly the declared names with their kinds |
| SymbolResolution.ResolveSymbol | crates/schemahub-compiler-protobuf/src/codegen.rs:200-228 | the scope loop computes the lookup function |
| SymbolResolution.ScopeOpens | crates/schemahub-compiler-protobuf/src/codegen.rs:200-240 | a declaration opens exactly one scope, its own, inside all that enclose it |
| SymbolResolution.JoinAssociative | crates/schemahub-compiler-protobuf/src/codegen.rs:230-240 | an absolute name does not depend on how its parts are joined |
| SymbolResolution.LookupInnermost | crates/schemahub-compiler-protobuf/src/codegen.rs:200-228 | the lookup finds the match in the innermost enclosing scope and nothing when no scope has one |
| SymbolResolution.ResolveNameCorrect | crates/schemahub-compiler-protobuf/src/codegen.rs:200-228 | a name resolves to a symbol exactly when it stands for it, with its registered kind |
| SymbolResolution.ResolveNamedTypesSound | crates/schemahub-compiler-protobuf/src/codegen.rs:55-86 | after success every field type, extendee and RPC type at any nesting is the absolute name it stands for, and the field kind agrees |
| SymbolResolution.ResolveNamedTypesIdempotent | crates/schemahub-compiler-protobuf/src/codegen.rs:55-86 | resolving a resolved closure changes nothing |
| SymbolResolution.ResolveFileExactly | crates/schemahub-compiler-protobuf/src/codegen.rs:141-198 | a file resolves if and only if every reference stands for a symbol of the right kind |
| SymbolResolution.ResolveNamedTypesExactly | crates/schemahub-compiler-protobuf/src/codegen.rs:55-86 | a closure resolves if and only if every absolute name is non-empty and declared once and every reference in every file stands for a declaration of the right kind |
| Effects.AccountedPatch | crates/schemahub-compiler-protobuf/src/mutations.rs:88-127 | complete change tracking yields a patch that reproduces the working state, with upserts and removes disjoint |
| Effects.RewriteAll | crates/schemahub-compiler-protobuf/src/mutations.rs:386-395 | rewrites every entry and collects exactly the names whose entries it changes |
| ProtoOps.StoredLoad | crates/schemahub-compiler-protobuf/src/mutations.rs:51-86 | loading keeps the kinds apart and loses nothing |
| ProtoOps.LoadStored | crates/schemahub-compiler-protobuf/src/mutations.rs:51-86 | storing and loading a document gives it back |
| ProtoOps.DeferOnlyAccepts | crates/schemahub-compiler-protobuf/src/mutations.rs:423-485 | postponing reference checks changes what is accepted, never the result |
| ProtoEngine.MessageUnchanged | crates/schemahub-compiler-protobuf/src/mutations.rs:1028-1051 | a message that reports no reference at any nesting is left alone by the rewrite |
| ProtoEngine.OpCovered | crates/schemahub-compiler-protobuf/src/mutations.rs:158-188 | what an operation neither writes nor drops it leaves unchanged |
| ProtoEngine.CompleteStep | crates/schemahub-compiler-protobuf/src/mutations.rs:129-132 | recording writes and drops keeps every difference accounted for, and removed means declared once and not now |
| ProtoEngine.RunFromSpec | crates/schemahub-compiler-protobuf/src/mutations.rs:24-35 | the names and enum values a batch accumulates are those its run declared and removed |
| ProtoEngine.WorkingState.Load | crates/schemahub-compiler-protobuf/src/mutations.rs:51-86 | the fresh copy equals the stored schema with empty tracking |
| ProtoEngine.WorkingState.IntoEffect | crates/schemahub-compiler-protobuf/src/mutations.rs:88-127 | the emitted patch turns the stored schema into exactly the working copy and drops only stored names |
| ProtoEngine.WorkingState.EditMessage | crates/schemahub-compiler-protobuf/src/mutations.rs:190-337 | the six field operations take the copy where the document operation says, touching one message; a failure changes nothing |
| ProtoEngine.WorkingState.CreateMessage | crates/schemahub-compiler-protobuf/src/mutations.rs:341-359 | the new document, the name touched; refused when any kind uses the name |
| ProtoEngine.WorkingState.MoveMessage | crates/schemahub-compiler-protobuf/src/mutations.rs:361-377 | re-keys the message, rewrites its self references, and moves its name between the tracking sets |
| ProtoEngine.WorkingState.PropagateRename | crates/schemahub-compiler-protobuf/src/mutations.rs:379-419 | rewrites every other message, service and file extension, touches exactly the changed ones, and marks metadata dirty unless unchanged |
| ProtoEngine.WorkingState.RenameMessage | crates/schemahub-compiler-protobuf/src/mutations.rs:361-421 | the renamed document, with exactly the rewritten declarations touched and the old name removed |
| ProtoEngine.WorkingState.DeleteMessage | crates/schemahub-compiler-protobuf/src/mutations.rs:423-445 | refused when referenced unless checks are deferred; otherwise dropped and recorded |
| ProtoEngine.WorkingState.CreateEnum | crates/schemahub-compiler-protobuf/src/mutations.rs:447-465 | as for messages |
| ProtoEngine.WorkingState.DeleteEnum | crates/schemahub-compiler-protobuf/src/mutations.rs:467-485 | as for messages |
| ProtoEngine.WorkingState.AddEnumValue | crates/schemahub-compiler-protobuf/src/mutations.rs:487-538 | the new enum, or the failure for a used or reserved name or number |
| ProtoEngine.WorkingState.RemoveEnumValue | crates/schemahub-compiler-protobuf/src/mutations.rs:540-572 | the new enum with name and number reserved, the value recorded for the final check |
| ProtoEngine.WorkingState.RenameEnumValue | crates/schemahub-compiler-protobuf/src/mutations.rs:574-624 | the value and every default that used it renamed, exactly those messages touched |
| ProtoEngine.WorkingState.AddService | crates/schemahub-compiler-protobuf/src/mutations.rs:628-646 | as for messages |
| ProtoEngine.WorkingState.RemoveService | crates/schemahub-compiler-protobuf/src/mutations.rs:648-659 | dropped and recorded |
| ProtoEngine.WorkingState.RenameService | crates/schemahub-compiler-protobuf/src/mutations.rs:661-684 | re-keyed, the old name removed, the new one touched |
| ProtoEngine.WorkingState.EditService | crates/schemahub-compiler-protobuf/src/mutations.rs:686-768 | the four RPC operations, touching one service; what they do to it is the table update of ProtoServiceViews |
| ProtoEngine.WorkingState.UpdateImport | crates/schemahub-compiler-protobuf/src/mutations.rs:770-810 | the metadata the import function prescribes, marked dirty |
| ProtoEngine.WorkingState.Apply | crates/schemahub-compiler-protobuf/src/mutations.rs:158-188 | one operation keeps the tracking complete and follows the document operation, failures included |
| ProtoEngine.WorkingState.ApplyAll | crates/schemahub-compiler-protobuf/src/mutations.rs:29-32 | the batch loop computes the run, up to the first failure |
| ProtoEngine.WorkingState.ValidateRemovedReferences | crates/schemahub-compiler-protobuf/src/mutations.rs:838-860 | accepts if and only if nothing refers to a removed name or uses a removed enum value |
| ProtoEngine.ApplyOne | crates/schemahub-compiler-protobuf/src/mutations.rs:16-21 | accepted exactly when the document operation is; the effect patches the stored schema to its result |
| ProtoEngine.ApplyMany | crates/schemahub-compiler-protobuf/src/mutations.rs:24-35 | accepted exactly when the deferred run succeeds and nothing dangles from any name ever declared; the effect patches the stored schema to the final state |
| ProtoBatches.BatchIsOneByOne | crates/schemahub-compiler-protobuf/src/mutations.rs:24-35 | operations accepted and stored one at a time also run as a batch, to the same schema |
| ProtoBatches.OneByOneAsBatch | crates/schemahub-compiler-protobuf/src/mutations.rs:24-35 | operations accepted one at a time are accepted as a batch, with that result, if and only if nothing dangles at its end |
| ProtoBatches.UseAfterDelete | crates/schemahub-compiler-protobuf/src/mutations.rs:812-860 | from any schema, deleting a message and then using its name is accepted one at a time and refused as a batch |
| ProtoBatches.PrefixNamesEver | crates/schemahub-compiler-protobuf/src/mutations.rs:24-35 | whatever any prefix of a batch declares is followed to the end |
| ProtoBatches.AcceptedBatchDanglesNothing | crates/schemahub-compiler-protobuf/src/mutations.rs:812-860 | after an accepted batch no message at any nesting, service or file extension refers to a name declared before or during it and gone at the end |
| ProtoFieldNumbers.ReservedByRemoval | crates/schemahub-compiler-protobuf/src/mutations.rs:230-253 | a removal reserves exactly the freed number, unless it is the largest |
| ProtoFieldNumbers.EditKeepsSound | crates/schemahub-compiler-protobuf/src/mutations.rs:190-337 | every field operation keeps numbers distinct and unreserved, and keeps what was reserved |
| ProtoFieldNumbers.StepKeepsSound | crates/schemahub-compiler-protobuf/src/mutations.rs:158-188 | so does every operation on the file, following messages through renames |
| ProtoFieldNumbers.RunsStaySound | crates/schemahub-compiler-protobuf/src/mutations.rs:190-253 | every reachable state of every run is sound |
| ProtoFieldNumbers.ReservedForLife | crates/schemahub-compiler-protobuf/src/mutations.rs:883-889 | a reserved number is never carried as long as the message lives, whatever it is renamed to |
| ProtoFieldNumbers.FreedNumberStaysFree | crates/schemahub-compiler-protobuf/src/mutations.rs:230-253 | a number freed by RemoveField is never carried again by that message, followed through RenameMessage, until it is deleted |
| ProtoFieldNumbers.ReuseExactlyAtMax | crates/schemahub-compiler-protobuf/src/mutations.rs:190-253 | adding a field with the number just freed is accepted if and only if it is the largest |
| ProtoFieldNumbers.LargestNumberIsReused | crates/schemahub-compiler-protobuf/src/mutations.rs:240-246 | a run that carries a freed number again |
| ProtoCompat.CheckMessage | crates/schemahub-compiler-protobuf/src/compat.rs:90-173 | the loops report exactly the violations; none if and only if compatible |
| ProtoCompat.RunDescends | crates/schemahub-compiler-protobuf/src/mutations.rs:190-337 | every covered run keeps the wire form of surviving fields and reserves the numbers of lost ones |
| ProtoCompat.GentleRunsAreCompatible | crates/schemahub-compiler-protobuf/src/compat.rs:90-173 | every run of AddField, RemoveField, RenameField and name-distinct ReorderFields is backward compatible with its start, and forward or fully exactly when every original number survives |
| ProtoCompat.ReorderPermutesExactly | crates/schemahub-compiler-protobuf/src/mutations.rs:314-337 | an accepted reordering is a permutation if and only if every field has a name of its own |
| ProtoCompat.ReorderLosesAField | crates/schemahub-compiler-protobuf/src/mutations.rs:325-334 | an accepted reordering of two fields of one name keeps only one |
| ProtoCompat.DottedChangeIsRefused | crates/schemahub-compiler-protobuf/src/compat.rs:123-160 | a type change the engine accepts and the checker refuses |
| ProtoCompat.ChangeTypeCompatibleExactly | crates/schemahub-compiler-protobuf/src/mutations.rs:271-295 | an accepted type change passes the checker if and only if the field has no number or the new type has no dot |
| ProtoCompat.ChangeCardinalityCompatibleExactly | crates/schemahub-compiler-protobuf/src/mutations.rs:297-312 | an accepted change of cardinality passes the checker, in any direction, if and only if the field has no number or nothing changed |
| ProtoCompat.AllowedKeepsEncoding | crates/schemahub-compiler-protobuf/src/typecompat.rs:52-135 | every listed type change keeps the encoding of values, zig-zag and plain varints apart |
| ProtoCompat.WireIsEncoding | crates/schemahub-compiler-protobuf/src/typecompat.rs:28-50 | the wire type of a kind is that of its encoding, and an unresolved name counts as a message |
| ProtoCompat.RunLeavesLastType | crates/schemahub-compiler-protobuf/src/mutations.rs:271-295 | an accepted run of type changes on one field leaves the message with the last type and nothing else changed |
| ProtoCompat.TypeChangesCompatibleExactly | crates/schemahub-compiler-protobuf/src/typecompat.rs:52-101 | in every direction, the end of such a run is compatible with its start if and only if the field has no number or the first and last spelled types are equal or stand in the tables on one wire form |
| ProtoCompat.TypeChangesDoNotCompose | crates/schemahub-compiler-protobuf/src/typecompat.rs:52-101 | two accepted changes of one field, int64 to int32 to bool, each compatible with the message before, that together are not |
| ProtoCompat.LargestNumberBreaks | crates/schemahub-compiler-protobuf/src/mutations.rs:190-253 | from any message with a field at the largest number, a run of two is not backward compatible |
| ProtoRename.RefSwapped | crates/schemahub-compiler-protobuf/src/mutations.rs:929-946 | renaming one reference exchanges the names it matches, and renaming back restores its spelling |
| ProtoRename.MessageSwapped | crates/schemahub-compiler-protobuf/src/mutations.rs:1028-1051 | the same for a message at any nesting |
| ProtoRename.RenameMovesReferences | crates/schemahub-compiler-protobuf/src/mutations.rs:361-421 | the references relation after a rename to a fresh name is the one before it with the names exchanged |
| ProtoRename.RenameBackRestores | crates/schemahub-compiler-protobuf/src/mutations.rs:361-421 | renaming to a fresh name and back restores every declaration and the metadata |
| ProtoFieldViews.EditAgrees | crates/schemahub-compiler-protobuf/src/mutations.rs:190-337 | on distinctly named fields every field operation is accepted on the condition of a plain table of fields, one-ofs and reservations, is one update of it, and leaves the other fields in place and the rest of the message alone |
| ProtoFieldViews.RunAgrees | crates/schemahub-compiler-protobuf/src/mutations.rs:190-337 | a run that introduces new names only succeeds on the message if and only if it does on the table, and shows its result |
| ProtoFieldViews.ReorderIsTheOrder | crates/schemahub-compiler-protobuf/src/mutations.rs:325-334 | reordered fields stand in the order given |
| ProtoFieldViews.CreatedEmpty | crates/schemahub-compiler-protobuf/src/mutations.rs:341-359 | a message is created exactly when no kind uses the name, with an empty table, and the others stay |
| ProtoServiceViews.EditAgrees | crates/schemahub-compiler-protobuf/src/mutations.rs:686-768 | on distinctly named RPCs every RPC operation is accepted on the condition of a plain table from name to types and streaming flags, and is one update of it, in place |
| ProtoServiceViews.RunAgrees | crates/schemahub-compiler-protobuf/src/mutations.rs:686-768 | a run of RPC operations succeeds if and only if it does on the table, and shows its result |
| ProtoServiceViews.EditAgreesIn | crates/schemahub-compiler-protobuf/src/mutations.rs:686-768 | in the file one service changes, as the table does, and nothing else |
| ProtoServiceViews.CreatedEmpty | crates/schemahub-compiler-protobuf/src/mutations.rs:628-646 | a service is added exactly when no kind uses the name, with an empty table |
| ProtoEnumViews.EditAgrees | crates/schemahub-compiler-protobuf/src/mutations.rs:487-626 | on distinctly named values every value operation is accepted on the condition of a plain table (name and number free and unreserved, aliases, first value zero in proto3, unused unless deferred), and changes one enum as the table changes |
| ProtoEnumViews.RunAgrees | crates/schemahub-compiler-protobuf/src/mutations.rs:487-626 | a deferred run of value operations on one enum succeeds if and only if it does on the table, and shows its result |
| ProtoEnumViews.RunsStayApart | crates/schemahub-compiler-protobuf/src/mutations.rs:487-572 | over every run of all operations, where aliases are not allowed no two values of an enum share a number and none has a reserved one |
| ProtoEnumViews.RenameRewritesDefaults | crates/schemahub-compiler-protobuf/src/mutations.rs:574-626 | renaming a value rewrites exactly the defaults of fields of that enum that use it, at any nesting and in file extensions |
| ProtoEnumViews.RenameMovesDefaults | crates/schemahub-compiler-protobuf/src/mutations.rs:574-626 | afterwards the new name is used exactly where either was, and the old name nowhere |
| ProtoEnumViews.CreatedEmpty | crates/schemahub-compiler-protobuf/src/mutations.rs:447-465 | an enum is created exactly when no kind uses the name, with an empty table |
| ProtoNames.RunsStayNamed | crates/schemahub-compiler-protobuf/src/mutations.rs:341-684 | over every run each declaration is stored under its own name, no name is used by two kinds, and each order list names every declaration of its kind once and nothing else |
| ProtoUndo.DeleteUndoesCreateMessage | crates/schemahub-compiler-protobuf/src/mutations.rs:341-445 | deleting the message just created restores the document; unless deferred it is accepted exactly when nothing refers to the name |
| ProtoUndo.DeleteUndoesCreateEnum | crates/schemahub-compiler-protobuf/src/mutations.rs:447-485 | the same for enums, with the condition for acceptance without deferral |
| ProtoUndo.RemoveUndoesAddService | crates/schemahub-compiler-protobuf/src/mutations.rs:628-659 | the same for services |
| ProtoUndo.RenameServiceBack | crates/schemahub-compiler-protobuf/src/mutations.rs:661-684 | renaming a service to an unused name and back restores the document |
| ProtoUndo.RemoveUndoesAddField | crates/schemahub-compiler-protobuf/src/mutations.rs:190-253 | removing the field just added restores the fields and leaves only reservations and the synthetic oneof |
| ProtoUndo.RenameFieldBack | crates/schemahub-compiler-protobuf/src/mutations.rs:255-269 | renaming a field to an unused name and back restores the message, given its JSON name |
| ProtoUndo.RemoveUndoesAddRpc | crates/schemahub-compiler-protobuf/src/mutations.rs:686-722 | removing the RPC just added restores the service |
| ProtoUndo.RenameRpcBack | crates/schemahub-compiler-protobuf/src/mutations.rs:724-746 | renaming an RPC and back restores the service |
| ProtoUndo.RemoveUndoesAddValue | crates/schemahub-compiler-protobuf/src/mutations.rs:487-572 | removing the enum value just added restores the values; it cannot be added again |
| ProtoUndo.RenameValueBack | crates/schemahub-compiler-protobuf/src/mutations.rs:574-624 | renaming an enum value to a name no default uses and back restores the enum and every default at any nesting |
| ProtoImports.Reindex | crates/schemahub-compiler-protobuf/src/mutations.rs:783-796 | dropping and shifting the markers in two passes computes the one-pass specification |
| ProtoImports.ReindexedMembers | crates/schemahub-compiler-protobuf/src/mutations.rs:783-796 | after a removal a position is marked exactly when the import that moved there was |
| ProtoImports.UpdateRefines | crates/schemahub-compiler-protobuf/src/mutations.rs:770-810 | one update keeps the lists aligned and in range and is a plain map update of path to pin and markers |
| ProtoImports.RunRefines | crates/schemahub-compiler-protobuf/src/mutations.rs:770-810 | so is every run of updates |
| ProtoImports.UntouchedImport | crates/schemahub-compiler-protobuf/src/mutations.rs:770-810 | an import no update names keeps its pin and markers in the index lists, wherever it ends up |
| FlatOps.MaxSlot | crates/schemahub-compiler-flatbuffers/src/mutations.rs:385-394 | the largest slot in use, reached by some field |
| FlatOps.MaxValue | crates/schemahub-compiler-flatbuffers/src/mutations.rs:617-674 | the largest number in use, reached by some value |
| FlatOps.DeferOnlyAccepts | crates/schemahub-compiler-flatbuffers/src/mutations.rs:769-810 | postponing reference checks changes what is accepted, never the result |
| FlatEngine.PayloadUnchanged | crates/schemahub-compiler-flatbuffers/src/mutations.rs:1082-1139 | a declaration that reports no reference is left alone by the rewrite |
| FlatEngine.OpCovered | crates/schemahub-compiler-flatbuffers/src/mutations.rs:280-359 | what an operation neither writes nor drops it leaves unchanged |
| FlatEngine.WorkingState.Load | crates/schemahub-compiler-flatbuffers/src/mutations.rs:194-215 | the fresh copy equals the stored schema with empty tracking |
| FlatEngine.WorkingState.IntoEffect | crates/schemahub-compiler-flatbuffers/src/mutations.rs:217-238 | the emitted patch turns the stored schema into exactly the working copy, upserts and removes disjoint |
| FlatEngine.WorkingState.EditTable | crates/schemahub-compiler-flatbuffers/src/mutations.rs:363-500 | the four field operations, touching one table; structs are refused |
| FlatEngine.WorkingState.Create | crates/schemahub-compiler-flatbuffers/src/mutations.rs:504-602 | a new declaration, appended to the order and touched; refused when the name is used |
| FlatEngine.WorkingState.CreateUnionWithMembers | crates/schemahub-compiler-flatbuffers/src/mutations.rs:604-615 | the loop adds every member or reports the first failure |
| FlatEngine.WorkingState.AddUnionMember | crates/schemahub-compiler-flatbuffers/src/mutations.rs:617-674 | the member with the next discriminator, or the failure for a struct, an enum, a duplicate or an exhausted counter |
| FlatEngine.WorkingState.RemoveUnionMember | crates/schemahub-compiler-flatbuffers/src/mutations.rs:676-705 | the union without the first match; NONE is refused |
| FlatEngine.WorkingState.Rename | crates/schemahub-compiler-flatbuffers/src/mutations.rs:707-767 | the renamed schema, exactly the rewritten declarations touched, the old name removed |
| FlatEngine.WorkingState.Delete | crates/schemahub-compiler-flatbuffers/src/mutations.rs:769-810 | refused when referenced unless deferred; otherwise dropped and recorded |
| FlatEngine.WorkingState.AddEnumValue | crates/schemahub-compiler-flatbuffers/src/mutations.rs:814-848 | the new enum; a value removed before in the batch is no longer tracked as removed |
| FlatEngine.WorkingState.RemoveEnumValue | crates/schemahub-compiler-flatbuffers/src/mutations.rs:850-875 | the enum without the value, which is recorded for the final check |
| FlatEngine.WorkingState.RenameEnumValue | crates/schemahub-compiler-flatbuffers/src/mutations.rs:877-927 | the value and every default that used it renamed, exactly those tables touched |
| FlatEngine.WorkingState.UpdateImport | crates/schemahub-compiler-flatbuffers/src/mutations.rs:987-1019 | includes and their pins stay aligned |
| FlatEngine.WorkingState.Apply | crates/schemahub-compiler-flatbuffers/src/mutations.rs:280-359 | one operation keeps every change accounted for and follows the schema operation |
| FlatEngine.WorkingState.ValidateRemovedReferences | crates/schemahub-compiler-flatbuffers/src/mutations.rs:950-983 | accepts if and only if nothing, the root type included, refers to a dropped name or uses a removed value |
| FlatEngine.ApplyOne | crates/schemahub-compiler-flatbuffers/src/mutations.rs:138-147 | accepted exactly when the schema operation is; the effect patches to its result |
| FlatEngine.ApplyMany | crates/schemahub-compiler-flatbuffers/src/mutations.rs:149-160 | accepted exactly when the deferred run succeeds and nothing dangles; the effect patches to the final state |
| FlatBatches.BatchIsOneByOne | crates/schemahub-compiler-flatbuffers/src/mutations.rs:149-160 | operations accepted one at a time also run as a batch, to the same schema |
| FlatBatches.OneByOneAsBatch | crates/schemahub-compiler-flatbuffers/src/mutations.rs:149-160 | operations accepted one at a time are accepted as a batch, with that result, if and only if nothing refers to a dropped name or uses a removed value at its end |
| FlatBatches.UseAfterDelete | crates/schemahub-compiler-flatbuffers/src/mutations.rs:950-983 | from any schema, deleting a table and then using its name is accepted one at a time and refused as a batch |
| FlatBatches.ProgressIsRun | crates/schemahub-compiler-flatbuffers/src/mutations.rs:149-160 | a batch ends in the schema its run ends in |
| FlatBatches.AcceptedBatchDanglesNothing | crates/schemahub-compiler-flatbuffers/src/mutations.rs:950-983 | after an accepted batch no declaration and not the root type refers to a name declared before or during it and gone at the end |
| FlatBatches.RecreationIsRefused | crates/schemahub-compiler-flatbuffers/src/mutations.rs:950-983 | the check is not complete: deleting and recreating a referenced table is refused |
| FlatBatches.RefusedExactly | crates/schemahub-compiler-flatbuffers/src/mutations.rs:950-983 | a run that declares no dropped name again is refused if and only if something refers to a name that was declared at some point and is gone, or uses a removed value |
| FlatCompat.CheckObject | crates/schemahub-compiler-flatbuffers/src/compat.rs:82-153 | the loops report exactly the violations; none if and only if compatible |
| FlatCompat.CompatibleMeans | crates/schemahub-compiler-flatbuffers/src/compat.rs:65-153 | compatible means equal structs, or kept slots with their types and new slots above all old ones |
| FlatCompat.CompatibleIsReflexive | crates/schemahub-compiler-flatbuffers/src/compat.rs:82-153 | every object is compatible with itself |
| FlatCompat.CompatibleIsTransitive | crates/schemahub-compiler-flatbuffers/src/compat.rs:65-153 | compatible steps add up, with any mixture of explicit and positional slots |
| FlatCompat.AddCompatibleExactly | crates/schemahub-compiler-flatbuffers/src/mutations.rs:363-418 | adding a field is compatible if and only if the slot counter does not wrap, or wraps onto a slot of the same type |
| FlatCompat.LastSlotBreaks | crates/schemahub-compiler-flatbuffers/src/mutations.rs:363-418 | a table whose only field has the last slot: adding a field is accepted and not compatible |
| FlatCompat.RunsAreCompatible | crates/schemahub-compiler-flatbuffers/src/mutations.rs:363-475 | every run of AddField, DeprecateField and RenameField with slots left for the fields it adds is compatible with its start |
| FlatCompat.SpellingReadsBackExactly | crates/schemahub-compiler-flatbuffers/src/mutations.rs:1156-1182 | a spelled type reads back as the same type if and only if the spelling has no brackets directly inside brackets |
| FlatCompat.NestedVectorIsLost | crates/schemahub-compiler-flatbuffers/src/mutations.rs:1156-1182 | [[int]] does not read back |
| FlatCompat.SpellingTells | crates/schemahub-compiler-flatbuffers/src/printer.rs:47-81 | the spelling the checker compares tells named types apart by name, vectors by element, arrays by element and length |
| FlatViews.EditAgrees | crates/schemahub-compiler-flatbuffers/src/mutations.rs:363-502 | on a table of distinctly named fields every field operation is accepted on the condition of a plain map with the largest slot in use, is one update of it, and leaves everything else in place |
| FlatViews.RunAgrees | crates/schemahub-compiler-flatbuffers/src/mutations.rs:363-502 | a run of field operations succeeds if and only if it does on the map, and shows its result |
| FlatViews.EditAgreesIn | crates/schemahub-compiler-flatbuffers/src/mutations.rs:363-502 | in the file one table changes, as the map does, and nothing else |
| FlatViews.CreatedEmpty | crates/schemahub-compiler-flatbuffers/src/mutations.rs:504-529 | a table is created exactly when the name is free, with an empty map and its documentation |
| FlatEnumViews.EditAgrees | crates/schemahub-compiler-flatbuffers/src/mutations.rs:814-927 | on distinctly named values every value operation is accepted on the condition of a plain table (name and number free, unused unless deferred) and changes one enum as the table changes |
| FlatEnumViews.RunAgrees | crates/schemahub-compiler-flatbuffers/src/mutations.rs:814-927 | a deferred run of value operations on one enum succeeds if and only if it does on the table, and shows its result |
| FlatEnumViews.RenameRewritesDefaults | crates/schemahub-compiler-flatbuffers/src/mutations.rs:877-927 | renaming a value rewrites exactly the defaults of fields of that enum that use it |
| FlatEnumViews.RenameMovesDefaults | crates/schemahub-compiler-flatbuffers/src/mutations.rs:877-927 | afterwards the new name is used exactly where either was, and the old name nowhere |
| FlatEnumViews.CreatedEmpty | crates/schemahub-compiler-flatbuffers/src/mutations.rs:531-561 | an enum is created exactly when the name is free, with an empty table and the underlying type given |
| FlatUnions.JoinsExactly | crates/schemahub-compiler-flatbuffers/src/mutations.rs:617-674 | a member may join exactly when it is a table, no member has its name or type, and the largest number is not the last one |
| FlatUnions.AddMemberExactly | crates/schemahub-compiler-flatbuffers/src/mutations.rs:617-674 | it joins last, typed by its name, with the discriminator one above the largest in use; nothing else changes |
| FlatUnions.CreatedWithMembers | crates/schemahub-compiler-flatbuffers/src/mutations.rs:604-615 | a union created with its members lists NONE as 0 and the members from 1 in the order given |
| FlatUnions.CreatedAlone | crates/schemahub-compiler-flatbuffers/src/mutations.rs:563-602 | a union created alone has NONE only |
| FlatUnions.RunsStaySound | crates/schemahub-compiler-flatbuffers/src/mutations.rs:604-927 | over every run of all operations the numbers of an enum and the discriminators of a union stay distinct |
| FlatUnions.NameFollowsExactly | crates/schemahub-compiler-flatbuffers/src/mutations.rs:1082-1140 | a member named after its type keeps being so through a rename if and only if it does not refer to the renamed type by a dotted name |
| FlatUnions.DottedMemberStrays | crates/schemahub-compiler-flatbuffers/src/mutations.rs:1082-1140 | the member a.B of type a.B, after a.B is renamed to C, is named C and has type a.C |
| FlatImports.UpdateAgrees | crates/schemahub-compiler-flatbuffers/src/mutations.rs:987-1020 | an import update is one update of a plain map from path to pin, in list order, with a pin for every path and nothing else changed |
| FlatImports.RunAgrees | crates/schemahub-compiler-flatbuffers/src/mutations.rs:987-1020 | every run of import updates on the lists is the same run on the map |
| FlatImports.UntouchedEntry | crates/schemahub-compiler-flatbuffers/src/mutations.rs:987-1020 | an import that no update names keeps its pin |
| FlatNames.RunsStayNamed | crates/schemahub-compiler-flatbuffers/src/mutations.rs:504-812 | over every run each declaration is stored under its own name and the order list names every declaration once and nothing else |
| FlatNames.OneKind | crates/schemahub-compiler-flatbuffers/src/mutations.rs:1022-1029 | renaming and deleting reach a declaration by at most one kind |
| FlatUndo.DeleteUndoesCreate | crates/schemahub-compiler-flatbuffers/src/mutations.rs:504-602 | deleting the declaration just created restores the schema, and is accepted without deferral exactly when nothing referred to its name |
| FlatUndo.RemoveUndoesAddMember | crates/schemahub-compiler-flatbuffers/src/mutations.rs:617-705 | removing the union member just added restores the schema |
| FlatUndo.RemoveUndoesAddValue | crates/schemahub-compiler-flatbuffers/src/mutations.rs:814-875 | removing the enum value just added restores the schema, and is accepted without deferral exactly when no default used it |
| FlatUndo.RenameFieldBack | crates/schemahub-compiler-flatbuffers/src/mutations.rs:443-475 | renaming a field and back restores a table with distinct names |
| FlatUndo.DeprecateTwice | crates/schemahub-compiler-flatbuffers/src/mutations.rs:422-441 | deprecating a field twice is deprecating it once |
| FlatRename.NameBack | crates/schemahub-compiler-flatbuffers/src/mutations.rs:1031-1047 | renaming a reference back restores it unless it spelled out a dotted name |
| FlatRename.PayloadBack | crates/schemahub-compiler-flatbuffers/src/mutations.rs:1082-1139 | the same for a table, union or service, member names included, both directions |
| FlatRename.NameSwapped | crates/schemahub-compiler-flatbuffers/src/mutations.rs:1031-1047 | a reference matches a name before exactly when it matches the exchanged name after, unless the rename takes that name from it or gives it to it |
| FlatRename.RenameMovesReferences | crates/schemahub-compiler-flatbuffers/src/mutations.rs:707-767 | for every declaration and target the references relation is carried over, with the names exchanged, if and only if the target carries over; simple names always do |
| FlatRename.ReferencedExactly | crates/schemahub-compiler-flatbuffers/src/mutations.rs:1031-1080 | the file refers to a name if and only if it spells out, in a field, a union member, a call or the root type, a name that is or ends in it |
| FlatRename.RenameMovesRootType | crates/schemahub-compiler-flatbuffers/src/mutations.rs:707-767 | the same for the root type |
| FlatRename.RenameMovesEveryReference | crates/schemahub-compiler-flatbuffers/src/mutations.rs:707-767 | a declaration keeps all its references, with the names exchanged, if and only if it never qualifies the renamed name |
| FlatRename.QualifiedReferenceStrays | crates/schemahub-compiler-flatbuffers/src/mutations.rs:1031-1047 | a file in which a qualified reference follows its last segment and leaves the name it was written with |
| FlatRename.RenameBackRestoresExactly | crates/schemahub-compiler-flatbuffers/src/mutations.rs:707-767 | renaming to a fresh name and back restores everything if and only if the old name is simple or nothing spells it out |
| FlatRename.DottedNameNotRestored | crates/schemahub-compiler-flatbuffers/src/mutations.rs:1039-1047 | a file a rename and its inverse do not restore |
| OpenApiReference.TwoPassIsOnePass | crates/schemahub-compiler-openapi/src/reference.rs:171-173 | replacing tildes and then slashes is the one-pass escape of section 3 of RFC 6901 |
| OpenApiReference.DecodeComponentName | crates/schemahub-compiler-openapi/src/reference.rs:138-169 | the character loop computes the unescape specification, refusing bad escapes, slashes, hashes and the empty name |
| OpenApiReference.UnescapeEscape | crates/schemahub-compiler-openapi/src/reference.rs:138-173 | unescaping an escaped name gives it back, with no slash in between |
| OpenApiReference.EscapeByCharacter | crates/schemahub-compiler-openapi/src/reference.rs:171-173 | a tilde is written as tilde-zero, a slash as tilde-one, every other character as itself |
| OpenApiReference.EscapeUnescape | crates/schemahub-compiler-openapi/src/reference.rs:138-173 | escaping what was unescaped gives the segment back |
| OpenApiReference.RenderParse | crates/schemahub-compiler-openapi/src/reference.rs:20-117 | rendering undoes parsing on every accepted reference |
| OpenApiReference.ParseExactly | crates/schemahub-compiler-openapi/src/reference.rs:20-60 | a source text is accepted as a reference if and only if it is that reference written out, local or with a path and a fragment |
| OpenApiReference.ValidPathExactly | crates/schemahub-compiler-openapi/src/reference.rs:120-138 | a path is accepted if and only if it has the stated form, segment by segment |
| OpenApiReference.ParseStoredExactly | crates/schemahub-compiler-openapi/src/reference.rs:62-73 | a stored text is read as a reference if and only if it stands for it |
| OpenApiReference.ParseStoredSchemaExactly | crates/schemahub-compiler-openapi/src/reference.rs:75-93 | the same for schema references; a recorded import is taken as it is, commit included, when it can be written |
| OpenApiReference.ParseRenderExactly | crates/schemahub-compiler-openapi/src/reference.rs:20-136 | parsing undoes rendering if and only if the name is non-empty and hash-free and an external path is valid, hash-free and unpinned |
| OpenApiReference.StoredReadsBackExactly | crates/schemahub-compiler-openapi/src/parser.rs:307-318 | the compact stored form reads back as the same reference if and only if a local name has no control character |
| OpenApiReference.StoredImportReadsBack | crates/schemahub-compiler-openapi/src/reference.rs:77-95 | a stored import reads back with its pin if and only if its path and name can be written |
| OpenApiDocs.SchemaWalk | crates/schemahub-compiler-openapi/src/lib.rs:736-745 | the walk finds a reference exactly when it stands in the schema, under any keyword and at any depth |
| OpenApiDocs.PayloadWalk | crates/schemahub-compiler-openapi/src/lib.rs:598-734 | the walk over a path, operation, parameter, request body, response or header collects a reference exactly when it stands in the declaration |
| OpenApiDocs.CollectDef | crates/schemahub-compiler-openapi/src/lib.rs:770-794 | pushing onto one list collects the references in walk order |
| OpenApiDocs.CollectSchemas | crates/schemahub-compiler-openapi/src/lib.rs:779-786 | the loop over a keyword's schemas appends the references of each |
| OpenApiDocs.CollectPayload | crates/schemahub-compiler-openapi/src/lib.rs:598-640 | the nested loops collect the references of a whole declaration in walk order |
| OpenApiDocs.TypeRefsOf | crates/schemahub-compiler-openapi/src/lib.rs:725-768 | each collected reference with what its text says, a declaration inside the document or one outside it, or nothing if one says nothing |
| OpenApiDocs.ResolveExactly | crates/schemahub-compiler-openapi/src/lib.rs:725-768 | a reference names a declaration inside the document, or one outside, if and only if its text says so |
| OpenApiMutations.DeclarationsReferencing | crates/schemahub-compiler-openapi/src/lib.rs:506-528 | exactly the other declarations with a reference whose text names the target inside the document, or an error for an illegible one |
| OpenApiMutations.ValidateSchemaReferences | crates/schemahub-compiler-openapi/src/lib.rs:530-552 | accepts if and only if every reference text names a declaration of the document or one outside it |
| OpenApiMutations.ClosedExactly | crates/schemahub-compiler-openapi/src/lib.rs:530-552 | the document check is exactly that every reference text names a declaration of the document or leads outside |
| OpenApiMutations.RefersExactly | crates/schemahub-compiler-openapi/src/lib.rs:506-528 | a declaration refers to another exactly when a reference standing in it names it |
| OpenApiMutations.WellFormedExactly | crates/schemahub-compiler-openapi/src/lib.rs:506-528 | a declaration can be read exactly when every reference text standing in it says something |
| OpenApiMutations.ApplyOne | crates/schemahub-compiler-openapi/src/lib.rs:339-504 | the deferred effect; unless deferred a removal is refused exactly when another declaration names the schema, and a pushed document exactly when a reference in it leads nowhere |
| OpenApiMutations.ComposePatches | crates/schemahub-compiler-openapi/src/lib.rs:115-131 | the folded net effect patches to what the effects patch to in turn, and stays disjoint |
| OpenApiMutations.FoldEffect | crates/schemahub-compiler-openapi/src/lib.rs:119-131 | the inner loops update the working copy and the net effect as specified |
| OpenApiMutations.ApplyMutations | crates/schemahub-compiler-openapi/src/lib.rs:101-142 | accepted exactly when the deferred run succeeds and every reference text at its end names a declaration or leads outside; the net effect patches to the final document and is disjoint |
| OpenApiViews.StepAgrees | crates/schemahub-compiler-openapi/src/lib.rs:339-504 | on documents with one operation per method and path, a mutation is accepted exactly when the table of paths, methods and schemas has a next state, and leads to it |
| OpenApiViews.RunAgrees | crates/schemahub-compiler-openapi/src/lib.rs:101-142 | every run on such a document is a run on the table and ends in such a document |
| OpenApiMutations.IncrementalIsFull | crates/schemahub-compiler-openapi/src/lib.rs:339-552 | from a closed document the incremental check of any operation accepts if and only if the full check accepts its result |
| OpenApiMutations.SingleIsOneOpBatch | crates/schemahub-compiler-openapi/src/lib.rs:92-142 | a single operation and the batch of that operation are accepted together, with the same effect |
| OpenApiMutations.OneByOneIsBatch | crates/schemahub-compiler-openapi/src/lib.rs:101-142 | operations accepted one at a time keep the document closed, and as a batch are accepted with the same result |
| OpenApiMutations.RemoveUndoesAddPath | crates/schemahub-compiler-openapi/src/lib.rs:376-405 | removing the path just added restores the document |
| OpenApiMutations.RemoveUndoesAddOperation | crates/schemahub-compiler-openapi/src/lib.rs:407-449 | removing the operation just added restores the document, in whatever case the method is written |
| OpenApiMutations.RemoveUndoesAddSchema | crates/schemahub-compiler-openapi/src/lib.rs:451-504 | removing the schema just added restores a closed document |
| Repositories.EtagVersion | crates/schemahub-core/src/repository.rs:589-597 | a rendered version reads back, with or without a plus sign |
| Repositories.EtagInjective | crates/schemahub-core/src/repository.rs:589-597 | different versions have different etags |
| Repositories.ValidateConfig | crates/schemahub-core/src/repository.rs:527-563 | the loop with its set of patterns accepts exactly the valid configurations |
| Repositories.MemoryRepositoryStore.Create | crates/schemahub-core/src/repository.rs:152-162 | creates at v1, or refuses an existing name |
| Repositories.MemoryRepositoryStore.Replace | crates/schemahub-core/src/repository.rs:179-192 | replaces exactly when the etag matches, with the next etag |
| Repositories.CreateIn | crates/schemahub-core/src/repository.rs:222-235 | the same over the record database |
| Repositories.ReplaceIn | crates/schemahub-core/src/repository.rs:267-304 | uninterrupted, the compare-and-swap store does what the locked store does |
| Repositories.WritesExactly | crates/schemahub-core/src/repository.rs:380-450 | up to the etag a call may write its patch and nothing else, said field by field |
| Repositories.PerformUpdate | crates/schemahub-core/src/repository.rs:362-405 | update, uninterrupted, with the selected fields written one after the other |
| Repositories.PerformArchive | crates/schemahub-core/src/repository.rs:412-451 | archive, uninterrupted; an archived record is answered as it is |
| Repositories.PlannedExactly | crates/schemahub-core/src/repository.rs:362-451 | planning on the stored record and replacing it gives exactly that answer |
| Repositories.Perform | crates/schemahub-core/src/repository.rs:362-451 | update and archive, uninterrupted, field by field: a selected configuration field has the patch's value and any other its stored one, an update keeps names, creator, create time and archive state, an archive keeps the configuration; the next etag; every failure in its order |
| EtagProtocol.StepKeepsInv | crates/schemahub-core/src/repository.rs:267-303 | every step of every call, under any interference, keeps the protocol invariant |
| EtagProtocol.AloneAnswers | crates/schemahub-core/src/repository.rs:267-451 | the steps of a call that no other interrupts give exactly the answer of the sequential registry |
| EtagProtocol.CreateAnswers | crates/schemahub-core/src/repository.rs:222-235 | so does a create |
| EtagProtocol.CommitsAdvanceByOne | crates/schemahub-core/src/repository.rs:267-303 | in every interleaving a commit advances the version by one and consumes the etag its caller expected |
| EtagProtocol.EtagsConsumedOnce | crates/schemahub-core/src/repository.rs:267-303 | no two commits consume the same etag of a record |
| EtagProtocol.TimelyCommitsPatchCurrent | crates/schemahub-core/src/repository.rs:362-451 | a call whose expected etag was not still to come writes, field by field, what it asks for to exactly the stored record, which was not archived |
| EtagProtocol.ArchivedForever | crates/schemahub-core/src/repository.rs:412-451 | when all calls are such, an archived record never changes again |
| EtagProtocol.FutureEtagCommitsStale | crates/schemahub-core/src/repository.rs:362-405 | from any state and for any number of versions ahead, a run of other updates and an archive after which the early call commits its old copy: the archived record comes back to life, and what is written is not the patch of what was stored |
| EtagProtocol.FutureEtagLosesUpdates | crates/schemahub-core/src/repository.rs:412-451 | from any state and for any number of versions ahead, a run of other updates after which the early archive commits its old copy: the configuration stored meanwhile is lost |
| EtagProtocol.SafeExactlyWhenTimely | crates/schemahub-core/src/repository.rs:362-451 | for an update or archive the stored record admits, its commits in every continuation patch the stored record, which was not archived, if and only if it expects no etag that is still to come |
| ImportPaths.LogicalReadsBackExactly | crates/schemahub-core/src/exploration.rs:745-754 | a schema path reads back from its logical form if and only if its parts are non-empty and project and repository are single segments |
| ImportPaths.LogicalWritesBack | crates/schemahub-core/src/exploration.rs:745-754 | what is read as a logical path is that path written out |
| ImportPaths.NormalizeExactly | crates/schemahub-core/src/exploration.rs:756-808 | normalization gives a schema if and only if the path names it: own prefix, dotted walk from the file's directory, a name of the snapshot, a logical path, a plain name; it fails if and only if the path names none |
| ImportPaths.FewSlashesStay | crates/schemahub-core/src/exploration.rs:756-808 | a path with fewer than two slashes stays in the importing repository |
| ImportPaths.NormalizeLogical | crates/schemahub-core/src/exploration.rs:756-808 | a logical path normalizes to the schema it names, in this repository or another, unless the snapshot lists that very name |
| ImportPaths.NormalizeDotRelative | crates/schemahub-core/src/exploration.rs:811-852 | the push-and-pop loop computes the walk specification |
| ImportPaths.DotRelativeExactly | crates/schemahub-core/src/exploration.rs:811-852 | a dotted path leads to a name if and only if a walk through its segments, from the directory of the importing file, ends there |
| ImportPaths.RelativeStaysBelow | crates/schemahub-core/src/exploration.rs:811-852 | a path that only descends stays below the directory of the importing file |
| ImportPaths.DotRelativeProper | crates/schemahub-core/src/exploration.rs:811-852 | a normalized path has no dot segment and no empty one |
| ImportPaths.DetoursCancel | crates/schemahub-core/src/exploration.rs:826-844 | a directory entered and left, or a single dot, can be inserted anywhere without effect |
| DependencyTraversal.ResolveImport | crates/schemahub-core/src/exploration.rs:304-344 | a pin, the importer's own commit, or the one answer of the repository's default bookmark kept for this listing |
| DependencyTraversal.ProcessImport | crates/schemahub-core/src/exploration.rs:427-474 | one import is normalized, resolved and listed with a commit the rules give it, keeping the traversal invariant; it fails only for a bad path or an answer of the store |
| DependencyTraversal.ProcessNode | crates/schemahub-core/src/exploration.rs:408-475 | one snapshot is read and all its imports are listed; it fails only when a read or one of the imports does |
| DependencyTraversal.ListDependencies | crates/schemahub-core/src/exploration.rs:385-485 | ends on every graph; on success the edges are exactly the imports of the snapshots reachable through resolved edges, each once, each with its pin, the importer's commit or an answer of the other repository's bookmark; one commit per repository for unpinned edges into it; fails only when more snapshots than allowed are reachable or a reachable one cannot be read or resolved |
| ReferenceIntegrity.ValidatePublication | crates/schemahub-core/src/reference_integrity.rs:24-90 | accepts exactly the publishable snapshots, with what an import names said without the normalization |
| ReferenceIntegrity.LiveUnpinnedDependents | crates/schemahub-core/src/reference_integrity.rs:92-150 | empty exactly when no schema that stays imports the target unpinned and all can be read |
| ReferenceIntegrity.EnsureNoLiveDependents | crates/schemahub-core/src/lifecycle.rs:263-277 | accepts exactly when there are no dependents |
| ReferenceIntegrity.PlanIsPublication | crates/schemahub-core/src/lifecycle.rs:263-277 | on an unconflicted snapshot deleting a schema may be planned if and only if the tree without it may be published |
| ReferenceIntegrity.PlansArePublications | crates/schemahub-core/src/reference_integrity.rs:92-150 | the same for a whole plan of deletions, replacements and additions |
| ReferenceIntegrity.AcceptedImportsArePresent | crates/schemahub-core/src/reference_integrity.rs:24-90 | after an accepted publication no unpinned import of this repository leads to a known schema that is not present, resolved by the names known before or by those of the published tree alone |
| ReferenceIntegrity.FinalTreeResolvesTheSame | crates/schemahub-core/src/reference_integrity.rs:67-78 | after acceptance an unpinned import names the same schemas when it is resolved by the names of the published tree alone |

## Left out

- Command line, GUI, gRPC and HTTP, authorization, auditing, history, garbage collection and the version-control layer: I/O around the cores, or state not visible in them.
- Text parsers and printers for `.proto`, `.fbs` and OpenAPI documents, code generation, JSON encoding of FlatBuffers and OpenAPI blobs: external or lossy by design; the engines work on decoded declarations.
- Error texts: errors keep their kind only, and a check that can fail for two reasons does not say which it meets first.
- The descriptor codecs and the recursive rewrites of descriptors are functions on values; only the cursors, the loops and the working copies are imperative, so aliasing inside a descriptor is not modelled.
- Reader position overflow and allocation limits for absurd lengths are not modelled.
- The order of an effect's upsert and removal lists: an effect is a map and a set.
- JSON names of fields are given with the operation instead of derived by the camel-case rule of the descriptor library.
- FlatBuffers default values are given with their class instead of parsed, and type sizes, which the engine never reads, are dropped.
- FlatBuffers removed-enum-value tracking across a rename of the same enum in one batch: the record keeps the old enum name.
- OpenAPI schema keywords and document fields that hold no reference are dropped from the declarations.
- Enum and service compatibility checks: their rules are settled by reading single branches.
- Deleting a message shortens the order list without shifting comment paths: the round trip of comment paths is stated for split files, not for files edited later.
- ProtoFieldNumbers.FreedNumberStaysFree: does not cover the largest 32-bit number, because its reserved range wraps; the exact condition is proved beside it.
- ProtoCompat.GentleRunsAreCompatible: asks that no field has the largest number, because from such a message a compatible-looking run breaks; that is proved too.
- OpenApiViews.StepAgrees: documents with one operation per method and path, which every operation keeps.
- OpenApiViews.RunAgrees: the same documents.
- Reassembly.CommentsFollow: files whose items all have names and whose positions fit 32 bits.
- ProtoFieldViews.RunAgrees: covers runs that introduce new field names only, because the engine does not check for duplicates.
- FlatCompat.RunsAreCompatible: asks that the slot counter does not pass 32 bits during the run.
- FlatBatches.RefusedExactly: batches that declare no dropped name again; of the others only soundness is stated.
- ProtoEnumViews.RunAgrees: enums whose values have distinct names, and deferred checks.
- FlatEnumViews.RunAgrees: the same.
- EtagProtocol.CommitsAdvanceByOne: runs shorter than 2^64 - 2 steps, so that versions do not wrap.
- EtagProtocol.EtagsConsumedOnce: the same bound on the run.
- EtagProtocol.SafeExactlyWhenTimely: the same bound, for the run that reaches the expected version.
- ProtoImports.RunRefines: as many imports as a 32-bit marker can point at.
