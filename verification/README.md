# Grizol, modelled and verified in Dafny

Grizol is a Syncthing-compatible peer that speaks the Block Exchange Protocol v1 and shows what it
stores as a FUSE file system. This project models its hard parts and proves what they promise:

- **Parser and serializers** (`Framing`, `Fragmentation`, `BepDataParser`, `Serializer`). The
  incremental parser is a pair of classes updated in place. It refines a one-shot framing function,
  so on streams that decode its results depend only on the bytes and never on how they were cut into
  buffers, and on streams that fail the failure does. That function is in turn sound and complete for
  a declarative grammar, and the serializers are its inverse.
- **Request queue** (`RequestOrder`, `RequestStore`, `OutgoingRequests`, `RequestRuns`). The class
  with its two maps, pending set and byte total is proved against a store of values; ids, limits and
  deduplication are invariants of every run.
- **Chunk writer and upload** (`ChunkLayout`, `ConcurrentWriter`, `ChunkAssembly`, `WriterOutcomes`,
  `FileWriter`, `BlockTable`, `Upload`, `DuplicateResponses`). Writers and consolidators are
  interleaved at every lock, flag and file operation, each of which may fail. Mutual exclusion, the
  content of the assembled file and the meaning of `AllBlocks` are proved over all interleavings.
- **In-memory file system** (`FsListing`, `FsMem`, `FsRefresh`, `FsReaddir`, `FsRename`,
  `FsRenamed`). A linked tree with an inode table, the retry queue that fills it, its agreement with
  the flat list, and the renaming of subtrees.
- **Index merge and read cache** (`IndexMerge`, `Indices`, `ReadCache`).
- **Device ids** (`Base32`, `Luhn32`, `DeviceId`). Round trips in both directions, and exactly which
  typing errors the check symbol notices.

Where the code does something other than its comments or its design suggest, the model follows the
code and a lemma says so:

- Messages that share a buffer with a frame that fails are lost, so what is handed on of a failing
  stream depends on the cut (`Fragmentation.CutsAgreeIff` says exactly when it does not).
- Nothing keeps two writers of one chunk apart: `compare_exchange(false, true)` never returns
  `Ok(true)`, and the chunk can end up as a mixture of both (`WriterOutcomes.WritersMix`). The
  schedule cannot show if and only if the writes of each chunk carry equal data
  (`WriterOutcomes.OneContentIff`). This is about the writer itself: `StorageManager` holds the
  exclusive map entry of the writer while it awaits a write (src/storage.rs:71-81), so calls that go
  through it do not overlap.
- A write that fails after it was counted in, or a consolidation that fails or misses a chunk, stops
  every later consolidation, and nothing else does (`WriterOutcomes.CanStartIff`).
- Consolidating a finished file a second time empties it (`WriterOutcomes.SecondConsolidationDestroys`),
  and a second accepted response for a block can bring that about, for files of one chunk as well
  (`DuplicateResponses.SafeIff`).
- Blocks are marked by hash, which is sound if and only if the hashes of a file are distinct
  (`BlockTable.SoundIffDistinct`).
- A pending request at the head of the queue has its size counted twice and can hold back a later one
  that fits (`RequestRuns.HeadHoldsUp`; `RequestStore.ReleasesSomethingIff` is the exact rule).
- The refresh loop ends if and only if every listed file has its parent in the tree or in the listing
  (`FsListing.TerminatesIff`).
- The check symbol cannot tell an exchange of itself with the last of 13 payload symbols
  (`Luhn32.CheckSwap`).
- The inode table keeps inodes whose nodes a refresh has dropped, and listing one of those panics
  although the source calls the reference always valid: that of a file that was removed or updated
  since (`FsReaddir.OldInodesPanic`; `FsReaddir.RefreshTwice` is the exact rule).
- Renaming onto an entry that is there fails after part of the rows have been renamed
  (`FsRenamed.TakenNameFails`, `FsRenamed.HalfRenamed`).
- Diffing an applied index update again adds deleted entries only, if and only if no name comes with a
  lower version after a higher one (`Indices.AddsOnlyDeletedIff`).

`dafny verify dfyconfig.toml` checks the whole project.

## Model

| member | source | states |
|---|---|---|
| Framing.FramesOfConcat | src/core/bep_data_parser.rs:305-361 | framing a stream is framing its front and then framing what the front left over together with the back, failures included |
| Framing.FrameLenOfPrefix | src/core/bep_data_parser.rs:87-125 | the length of a frame depends only on its own bytes, whatever follows it |
| Framing.HeaderOfPrefix | src/core/bep_data_parser.rs:458-475 | the header of a frame, and whether decoding it panics, does not depend on what follows |
| Framing.FramesOfFrame | src/core/bep_data_parser.rs:330-358 | a whole frame in front yields its decoded message and then the messages of the rest, or the failure of its decoding |
| Fragmentation.OneShotOfConcat | src/core/bep_data_parser.rs:305-361 | seen in one go, a buffer in front only moves the reader on, or it decides the failure |
| Fragmentation.FramesSettle | src/core/bep_data_parser.rs:305-361 | what is held back after framing contains nothing that could still be framed |
| Fragmentation.FeedAllIsOneShot | src/main.rs:211-231 | reading buffer by buffer refines reading the concatenation in one go: a stream that decodes gives its messages and its leftover; one that fails ends the reader with its failure, and what was handed on is a beginning of the messages before that failure |
| Fragmentation.FragmentationIndependence | src/core/bep_data_parser.rs:305-457 | two ways of cutting the same bytes give the same messages, leftover and phase if the stream decodes, and the same failure if it does not |
| Fragmentation.DeliveredBeforeFailure | src/main.rs:224-231 | what is handed on of a failing stream is exactly the messages of the frames that were complete before the failing buffer |
| Fragmentation.CutsDiffer | src/main.rs:224-231 | a stream that fails after some message, uncut and cut behind its first frame: the first loses that message, the second hands it on |
| Fragmentation.CutsAgreeIff | src/main.rs:224-231 | what a reader hands on is the same for all cuts if and only if the stream decodes or fails before any message |
| Fragmentation.FramesSound | src/core/bep_data_parser.rs:207-361 | every stream is a run of well-formed frames that decode to its messages in order, followed by unfinished bytes or by a frame that fails as reported: no byte is lost, added or moved |
| Fragmentation.FramesComplete | src/core/bep_data_parser.rs:207-361 | the grammar is unambiguous: any such framing of a stream, decoding or failing, is the one that is read |
| BepDataParser.IncomingMessage.MissingHeaderBytes | src/core/bep_data_parser.rs:155-161 | the subtraction does not underflow and the number is positive and exactly what the header lacks |
| BepDataParser.IncomingMessage.MissingMessageBytes | src/core/bep_data_parser.rs:162-177 | the subtraction does not underflow and gives the bytes missing from the frame |
| BepDataParser.IncomingMessage.Complete | src/core/bep_data_parser.rs:53-76 | the status is Complete exactly when the data is one whole frame |
| BepDataParser.IncomingMessage.AddData | src/core/bep_data_parser.rs:126-145 | the data grows by the buffer, the header is decoded as soon as it is there, and the data stays within its frame |
| BepDataParser.WithinAfter | src/core/bep_data_parser.rs:363-457 | a stage that takes no more bytes than it lacks never runs past the end of its frame |
| BepDataParser.BepDataParser.PopulateHello | src/core/bep_data_parser.rs:363-406 | takes at least one byte, appends exactly the bytes it reports and keeps the parser's invariant |
| BepDataParser.BepDataParser.PopulateHeader | src/core/bep_data_parser.rs:408-433 | the same for the header, and it panics exactly when the header is complete and does not decode |
| BepDataParser.BepDataParser.PopulateMessage | src/core/bep_data_parser.rs:435-457 | the same for the length field and the body |
| BepDataParser.BepDataParser.TakeComplete | src/core/bep_data_parser.rs:333-358 | hands on the decoded message exactly when the pending bytes are one whole frame, and leaves nothing pending |
| BepDataParser.BepDataParser.Advance | src/core/bep_data_parser.rs:308-359 | every round of the loop consumes at least one byte and preserves the framing of all bytes seen and still to see |
| BepDataParser.BepDataParser.ParseIncomingData | src/core/bep_data_parser.rs:305-361 | the result is the one-shot framing of the bytes held back and the buffer, and what is held back afterwards is its leftover; a failure drops the messages before it in that buffer |
| BepDataParser.ReadAll | src/main.rs:211-231 | the read loop hands on all messages of a stream that decodes, and of one that fails what the buffers before the failing one completed, and ends with that failure, for every list of buffers |
| BepDataParser.Whole | src/main.rs:211-231 | the same, stated of the reader that a connection starts with |
| Bytes.Be16IsNumber | src/core/bep_data_parser.rs:87-96 | the 16-bit length fields are the number that their bytes are in base 256, most significant byte first |
| Bytes.Be32IsNumber | src/core/bep_data_parser.rs:104-114 | the same for the 32-bit length fields |
| Serializer.CodeOf | src/main.rs:274-300 | the type number written for a message is the one from which the parser picks its decoder |
| Serializer.HelloIsFrame | src/main.rs:371-382 | a serialized Hello is exactly one frame, and it decodes to that Hello |
| Serializer.MessageIsFrame | src/main.rs:336-369 | a serialized message, empty header and empty body included, plain or compressed, is exactly one frame that decodes to it |
| Serializer.PlainIsFrame | src/core/bep_data_parser.rs:219-284 | a plain frame, whoever made it: its body goes to the decoder of its kind |
| Serializer.CompressedIsFrame | src/core/bep_data_parser.rs:219-284 | a compressed frame, whoever made it: what the decoder of its kind gets is what the bytes after the raw length decompress to, at that length |
| Serializer.BadHello | src/core/bep_data_parser.rs:207-217 | a Hello frame without the magic number fails with that error, and one whose body does not decode panics |
| Serializer.BadMessage | src/core/bep_data_parser.rs:219-284 | an unknown kind, a compressed body that is too short or does not decompress, and a body that does not decode: which failure each of them is |
| Serializer.MessagesRoundTrip | src/main.rs:336-369 | any mixture of plain and compressed messages, each of its own kind, is read back as that list with nothing left over, assuming only that the decoder of a kind undoes the encoding of that kind and decompressing undoes compressing |
| Serializer.ConnectionRoundTrip | src/main.rs:336-382 | a Hello and any messages, plain or compressed, serialized and cut in any way, are read as exactly those messages in order, with no partial message left |
| Serializer.SerializeAllDefined | src/main.rs:336-369 | the sending side panics exactly when a header or body length does not fit its 16- or 32-bit field |
| Serializer.InverseIsMet | src/core/bep_data_parser.rs:179-205 | a codec whose decoders give back their own variant only, as the source's do, meets that assumption |
| RequestOrder.LessTotal | src/core/outgoing_requests.rs:9-43 | the derived field-by-field order of requests is total and asymmetric |
| RequestOrder.LessTransitive | src/core/outgoing_requests.rs:9-43 | that order is transitive |
| RequestOrder.LexLessIff | src/core/outgoing_requests.rs:9-17 | texts are compared at their first difference, a beginning coming first |
| RequestOrder.LessIff | src/core/outgoing_requests.rs:9-43 | requests are ordered by folder, then by name, offset, size, hash, and last by being from a temporary file |
| RequestOrder.Iterate | src/core/outgoing_requests.rs:141-142 | the keys come out as the increasing listing of the set |
| RequestOrder.ListingUnique | src/core/outgoing_requests.rs:141-142 | there is only one increasing listing of a set, so the iteration order is determined |
| RequestStore.InsertKeepsValid | src/core/outgoing_requests.rs:78-91 | an insertion keeps the maps mutually inverse, succeeds exactly when no queued request asks for the same block, and changes no other entry |
| RequestStore.RemoveKeepsValid | src/core/outgoing_requests.rs:59-75 | a removal keeps the invariant and drops that id only; what was pending stays pending |
| RequestStore.PendingSizeBound | src/core/outgoing_requests.rs:59-75 | taking a pending request's size off the total cannot underflow |
| RequestStore.ExpireIsExact | src/core/outgoing_requests.rs:97-122 | expiry drops exactly the over-age entries from all three collections and keeps the total right |
| RequestStore.FreshIff | src/core/outgoing_requests.rs:7-7 | an entry lives for exactly twelve hours from when it was made |
| RequestStore.NoDuplicateRequests | src/core/outgoing_requests.rs:78-91 | no two outstanding requests ask for the same block |
| RequestStore.ReleaseFromIsMaximalPrefix | src/core/outgoing_requests.rs:127-167 | what is released are the waiting requests before the stop, and the stop is the end of the queue or a request that is blocked in the resulting state |
| RequestStore.ReleaseIsPrefix | src/core/outgoing_requests.rs:127-167 | what is released is a prefix, in key order, of the waiting requests |
| RequestStore.ReleaseAdds | src/core/outgoing_requests.rs:127-167 | a release only moves waiting requests to the pending ones |
| RequestStore.ReleaseKeepsValid | src/core/outgoing_requests.rs:127-167 | a release keeps the representation invariant, the byte total included |
| RequestStore.ReleaseKeepsLimits | src/core/outgoing_requests.rs:127-157 | a release keeps the limits on pending requests, pending bytes and distinct pending names |
| RequestStore.BlockedIff | src/core/outgoing_requests.rs:127-157 | a waiting request is held back exactly if releasing it would break one of the three limits |
| RequestStore.ReleaseIsDistinct | src/core/outgoing_requests.rs:127-167 | no request is released twice by one call |
| RequestStore.ReleasesSomethingIff | src/core/outgoing_requests.rs:142-157 | a call releases something if and only if some waiting request is reached with nothing up to it blocked before the call |
| RequestStore.FirstRequestIsReleased | src/core/outgoing_requests.rs:127-157 | with nothing pending, a first request that fits is released |
| RequestStore.PendingRequestBlocks | src/core/outgoing_requests.rs:142-157 | a pending request at the head whose size would not fit twice keeps everything back, although a waiting request that is not blocked would be released by itself |
| OutgoingRequests.OutgoingRequests.Get | src/core/outgoing_requests.rs:56-58 | finds a request exactly when its id is queued |
| OutgoingRequests.OutgoingRequests.Remove | src/core/outgoing_requests.rs:59-75 | the in-place removal refines the one on values and its asserts hold |
| OutgoingRequests.OutgoingRequests.Insert | src/core/outgoing_requests.rs:78-91 | the in-place insertion refines the one on values and returns what was inserted |
| OutgoingRequests.OutgoingRequests.RemoveOldRequests | src/core/outgoing_requests.rs:97-122 | the in-place expiry refines the exact one and keeps the invariant |
| OutgoingRequests.OutgoingRequests.UpdatePendingRequests | src/core/outgoing_requests.rs:127-167 | the in-place release refines the one on values, never underflows its free slots, keeps invariant and limits, and returns the stored requests |
| OutgoingRequests.SumOfSizes | src/core/outgoing_requests.rs:97-122 | the sizes of a set add up to its total, in whatever order it is visited |
| RequestRuns.RequestsFromBlocks | src/core/bep_processor.rs:628-651 | one request per block, in order, with consecutive ids after the base, and each with the folder, name, offset, size and hash of its own block |
| RequestRuns.SameKeyIff | src/core/bep_processor.rs:628-651 | the requests of two blocks are the same to the queue exactly if the blocks are equal |
| RequestRuns.EveryBlockQueued | src/core/bep_processor.rs:487-496 | after asking, every block has a queued request with its own folder, name, offset, size and hash, and nothing in the queue is too old |
| RequestRuns.MaxId | src/core/bep_processor.rs:487-496 | the largest id of numbered requests is the base plus their number, also for none |
| RequestRuns.InsertNext | src/core/bep_state.rs:1630-1637 | the next id is unused, and inserting it keeps every id at most that one |
| RequestRuns.InsertAllKeeps | src/core/bep_state.rs:1630-1637 | inserting numbered requests keeps the invariant, keeps what was queued and adds ids above the counter only |
| RequestRuns.InsertedIff | src/core/bep_state.rs:1630-1637 | a numbered request is queued exactly if neither the queue nor an earlier request of the list asks for its block |
| RequestRuns.BepState.InsertRequests | src/core/bep_state.rs:1630-1637 | expiry and then insertion of each request in turn; the result is the list of those that were queued |
| RequestRuns.BepState.StoreOutgoingRequests | src/core/bep_processor.rs:487-496 | the counter moves past every id used, dropped duplicates included, what is new is queued, the result lists it, and every block is then asked for |
| RequestRuns.AskHolds | src/core/bep_processor.rs:487-496 | asking for blocks keeps the invariant of a run |
| RequestRuns.RespondHolds | src/core/bep_processor.rs:450-475 | a response keeps the invariant of a run |
| RequestRuns.ThrottleHolds | src/core/bep_processor.rs:478-484 | a release keeps the invariant of a run |
| RequestRuns.SentStaysDistinct | src/core/outgoing_requests.rs:127-167 | released requests have distinct ids that were never sent before |
| RequestRuns.StepHolds | src/core/bep_processor.rs:450-496 | every operation keeps the invariant of a run |
| RequestRuns.Reached | src/core/outgoing_requests.rs:56-167 | in every state of every run the maps are mutually inverse, the byte total is right, the three limits hold, no id is above the counter and no id has been sent twice |
| RequestRuns.SentOnlyGrows | src/core/bep_state.rs:396-405 | over a run the ids sent and the id counter only grow |
| RequestRuns.HeadHoldsUp | src/core/outgoing_requests.rs:127-157 | a run of three operations that leads to a queue which is held up by its head, for any two blocks in key order of which the first would not fit twice |
| ChunkLayout.AcceptedFits | src/file_writer.rs:77-120 | the chunk index of an accepted write is in bounds and only the last chunk can be short |
| ChunkLayout.AcceptedIff | src/file_writer.rs:77-103 | exactly which writes are accepted |
| ChunkLayout.ErrorIff | src/file_writer.rs:77-103 | which error a write gets that is not accepted |
| ChunkLayout.LastChunk | src/file_writer.rs:77-103 | the odd last chunk is the one at the last multiple of the chunk size |
| ChunkLayout.FrontLength | src/file_writer.rs:213-230 | each chunk starts where the chunks before it end |
| ChunkLayout.WholeLength | src/file_writer.rs:213-230 | the assembled file has its declared size exactly when the last chunk has its expected length |
| ChunkLayout.SliceIsPiece | src/file_writer.rs:213-230 | each chunk-size slice of the assembled file is that chunk |
| ConcurrentWriter.StepExclusive | src/file_writer.rs:105-236 | every event of any writer or consolidator, failures included, keeps the counter exact, consolidation exclusive and the "should never happen" branch untaken |
| ConcurrentWriter.AlwaysExclusive | src/file_writer.rs:59-239 | mutual exclusion holds in every state of every interleaving |
| ConcurrentWriter.InitExclusive | src/file_writer.rs:31-52 | it holds in a new writer |
| ConcurrentWriter.NoFlagsWhenIdle | src/file_writer.rs:201-205 | with no write in flight and none failed no chunk flag is up, so the second check of a consolidation is redundant |
| ConcurrentWriter.WedgedStep | src/file_writer.rs:135-198 | after a failure no event starts or finishes a consolidation |
| ConcurrentWriter.WedgedForever | src/file_writer.rs:135-198 | once anything failed after taking the lock, no run ever starts or finishes a consolidation again |
| ChunkAssembly.OverlaySettles | src/file_writer.rs:151-153 | a partial write of the right data keeps every byte of the chunk right or still to be written, whoever else writes the chunk |
| ChunkAssembly.StepSettles | src/file_writer.rs:105-236 | every event keeps every chunk file settled in that sense |
| ChunkAssembly.IdleChunksRight | src/file_writer.rs:157-168 | with no writer left every chunk file has its right content |
| ChunkAssembly.CopyAppends | src/file_writer.rs:213-230 | copying chunk i to its offset appends it to the first i chunks, without a hole |
| ChunkAssembly.StepLedger | src/file_writer.rs:105-236 | every event keeps finished chunks on disk until they are copied and the copied part of the file right |
| ChunkAssembly.StepAssembles | src/file_writer.rs:105-236 | every event that brings only right data keeps both |
| ChunkAssembly.AlwaysAssembles | src/file_writer.rs:59-239 | both invariants hold in every state of every interleaving |
| ChunkAssembly.ConsolidatedFileIsRight | src/file_writer.rs:179-239 | after a consolidation returned Ok, and until another one starts, the file is the concatenation of the right chunks, under every interleaving |
| WriterOutcomes.FinishWriter | src/file_writer.rs:122-168 | a writer in flight, at whatever stage, can finish: its chunk is then on disk and nothing else has changed |
| WriterOutcomes.FinishAll | src/file_writer.rs:122-168 | some schedule finishes all the writers in flight |
| WriterOutcomes.FinishMerge | src/file_writer.rs:201-236 | a consolidation whose remaining chunks are on disk can return |
| WriterOutcomes.StuckForever | src/file_writer.rs:213-221 | a consolidation that misses a chunk it still needs never returns, and no other one ever starts |
| WriterOutcomes.CanStartIff | src/file_writer.rs:105-198 | a consolidation can still be started if and only if nothing has failed and the one that is running, if any, has its remaining chunks on disk |
| WriterOutcomes.AlwaysTidy | src/file_writer.rs:120-231 | in every interleaving chunk files have valid numbers, none is left of what was copied, and an opened one is there |
| WriterOutcomes.CanReturnIff | src/file_writer.rs:179-239 | a consolidation that is started can return if and only if every chunk file is on disk |
| WriterOutcomes.MissingChunkDestroys | src/file_writer.rs:206-231 | otherwise the writer stays consolidating whatever happens, also if copying a chunk fails midway, and the file, once emptied, holds only a beginning of the chunks before the first missing one |
| WriterOutcomes.FinishedLeavesNoChunks | src/file_writer.rs:229-236 | a consolidation that returns has removed every chunk file |
| WriterOutcomes.SecondConsolidationDestroys | src/file_writer.rs:206-231 | after any run that ends in a returned consolidation, a second one empties the file, can only fail and leaves the writer unusable |
| WriterOutcomes.WritersMix | src/file_writer.rs:122-153 | two writers of one chunk can be in flight, and for every k the chunk can end up as the first k bytes of one and the rest of the other |
| WriterOutcomes.OneContentIff | src/file_writer.rs:105-168 | the schedule of a set of writes cannot show in the chunk files if and only if the acceptable writes of each chunk carry equal data |
| WriterOutcomes.WriteRunStores | src/file_writer.rs:105-168 | a write that meets nobody and does not fail stores its data as its chunk file and changes nothing else |
| WriterOutcomes.CopyRunEnds | src/file_writer.rs:179-239 | a consolidation that meets nobody copies the chunks up to the first missing one, and then returns or gives up |
| FileWriter.FileWriter.constructor | src/file_writer.rs:31-52 | a new writer is idle, with one lowered flag per chunk |
| FileWriter.FileWriter.WriteChunk | src/file_writer.rs:59-176 | which error is returned, that an accepted write replaces the chunk file of its position and nothing else, and that this is what the run of its events does in the concurrent model |
| FileWriter.FileWriter.StoreChunk | src/file_writer.rs:105-168 | what an accepted write does from its first lock to its second: its chunk file holds the data and its flag is down |
| FileWriter.FileWriter.Consolidate | src/file_writer.rs:179-239 | the outcome in every state: an error, a skip, the assembled file, or, with a chunk missing, the file and the chunk files as far as the copying came and a writer left consolidating; and that this is what the run of its events does in the concurrent model |
| FileWriter.FileWriter.CopyChunks | src/file_writer.rs:213-230 | copies up to the first missing chunk: the file is the chunks before it at their offsets and their chunk files are gone |
| FileWriter.FileWriter.AnyFlag | src/file_writer.rs:201-205 | some chunk flag is up |
| FileWriter.WriteAll | src/file_writer.rs:59-176 | a list of calls on a new writer leaves exactly the chunk files of the latest accepted calls |
| FileWriter.WriteAllAndConsolidate | src/file_writer.rs:59-239 | after any calls, consolidation returns the concatenation of the latest data if every position is covered, and reports a missing chunk otherwise |
| FileWriter.LatestWins | src/file_writer.rs:59-176 | a chunk file holds what the latest accepted write of its position stored, and exists only if there was one; a file of size zero included |
| FileWriter.EmptyFile | src/file_writer.rs:66-75 | a file of size zero has no chunks, and a call at its beginning leaves one empty chunk file |
| FileWriter.ChunksFit | src/file_writer.rs:77-103 | every chunk file has an acceptable length and position |
| FileWriter.AssembledIsFlat | src/file_writer.rs:213-230 | writing the chunks at their offsets is concatenating them |
| FileWriter.AnyOrderAssembles | src/file_writer.rs:77-230 | after writes in any order that cover every position, consolidation yields the latest data of each position without holes, of the declared size exactly when the last chunk has its expected length |
| BlockTable.BlockTable.UpdateBlockStorageState | src/core/bep_state.rs:613-681 | marks every row of that hash and reports by comparing the stored rows with the expected number |
| BlockTable.CountsAll | src/core/bep_state.rs:643-668 | the number of stored rows is the number of rows exactly when every row is stored |
| BlockTable.ExpectedIff | src/core/bep_state.rs:661-665 | the expected blocks are the fewest that hold the bytes, and at least one |
| BlockTable.EmptyFileCompletes | src/core/bep_state.rs:661-668 | marking the one block of an empty file reports AllBlocks |
| BlockTable.StoredIff | src/core/bep_state.rs:625-641 | a row is stored exactly when some marked block has its hash |
| BlockTable.SoundIffDistinct | src/core/bep_state.rs:625-676 | AllBlocks implies that every block was marked itself, whatever was marked, if and only if the file's hashes are distinct |
| Upload.MarkReports | src/core/bep_state.rs:661-676 | a mark reports AllBlocks exactly when the table is then full, and never finds too many blocks |
| Upload.StorageSound | src/core/bep_processor.rs:359-385 | whatever the writer does, threads keep the response they carry and marks stay justified |
| Upload.MarkSound | src/core/bep_processor.rs:386-392 | a mark is justified by a finished, hash-checked write of that very block |
| Upload.AlwaysHolds | src/core/bep_processor.rs:354-448 | mutual exclusion and justified marks hold in every state of every interleaving |
| Upload.ReportMeansWritten | src/core/bep_processor.rs:354-448 | under every interleaving, with any failures and any number of responses per block, AllBlocks is reported only once every block was written by a response with the right hash |
| Upload.WantIsComplete | src/core/bep_processor.rs:359-385 | the data of the accepted responses has one piece of acceptable length for every chunk |
| Upload.StorageBrings | src/core/bep_processor.rs:359-385 | with one accepted response per block, what passes the hash check and the writer's checks is the one content its chunk can have |
| Upload.NothingInFlight | src/core/bep_processor.rs:386-402 | with one accepted response per block, a full table means that no write is in flight and none has failed |
| Upload.AlwaysHoldsOnce | src/core/bep_processor.rs:354-448 | with one accepted response per block and any number of others, at most one report and one consolidation, and every chunk on its way to its content, in every state |
| Upload.ReportedExactlyOnce | src/core/bep_processor.rs:354-448 | AllBlocks is reported at most once, exactly once if and only if every block has been marked, and then nothing is in flight |
| Upload.ConclusionFindsEveryChunk | src/core/bep_processor.rs:386-402 | the concluding consolidation never meets a missing chunk |
| Upload.ConcludedFileMatchesIndex | src/core/bep_processor.rs:386-402 | after the conclusion, and for good, each chunk-size slice of the file itself has the hash of its index block |
| DuplicateResponses.AnswerBlocks | src/core/bep_processor.rs:354-392 | accepted responses for the blocks, written and marked one after the other, are a run, and the last one that fills the table is told AllBlocks |
| DuplicateResponses.MergeLeavesNoChunks | src/file_writer.rs:213-236 | a conclusion that has returned has left no chunk file |
| DuplicateResponses.SecondResponseDestroys | src/core/bep_processor.rs:386-402 | if every block has an accepted response and one has a second, some run tells two threads AllBlocks, and the second conclusion leaves an empty file and a missing chunk |
| DuplicateResponses.SafeIff | src/core/bep_processor.rs:354-448 | no conclusion ever meets a missing chunk if and only if no block has two accepted responses, or some block has none |
| DuplicateResponses.OneChunkIsNotSafe | src/core/bep_processor.rs:386-402 | a file of one chunk with two accepted responses is such a file |
| FsListing.InodesNeverCollide | src/fuse.rs:36-48 | root, folder and file inodes never collide |
| FsListing.SomeInsertable | src/fuse.rs:259-279 | in a parent-closed queue some file can be inserted |
| FsListing.RoundKeepsAll | src/fuse.rs:259-279 | a round loses no path and keeps the queue parent-closed |
| FsListing.RoundProgress | src/fuse.rs:259-279 | each round lowers the pair of files remaining and distance to the first insertable one |
| FsListing.ClosedTerminates | src/fuse.rs:259-279 | a parent-closed queue is worked off, whatever its order |
| FsListing.OrphanStays | src/fuse.rs:259-279 | a file without a parent anywhere never leaves the queue |
| FsListing.TerminatesIff | src/fuse.rs:259-279 | the refresh loop ends if and only if the queue is parent-closed |
| FsListing.FolderListed | src/fuse.rs:241-281 | in a closed listing the folder of every file is listed |
| FsMem.NothingBelow | src/fuse.rs:117-153 | nothing is below a path that is not in the tree |
| FsMem.ReplaceAdds | src/fuse.rs:117-153 | inserting at a path that is not there only adds it |
| FsMem.ReplaceTable | src/fuse.rs:98-153 | replacing a subtree keeps every node at the one path it belongs to |
| FsMem.ReplaceChildren | src/fuse.rs:98-153 | replacing a subtree changes the children of the new node and of its parent only |
| FsMem.GrizolFsMem.constructor | src/fuse.rs:79-95 | a new tree has its root only |
| FsMem.GrizolFsMem.InsertFolder | src/fuse.rs:98-115 | a top folder becomes a new childless node at its path, under its inode; everything else stays |
| FsMem.GrizolFsMem.InsertFile | src/fuse.rs:117-153 | fails, changing nothing, exactly when the parent is missing; otherwise the file becomes a new node at exactly its own path |
| FsRefresh.FolderInserted | src/fuse.rs:255-257 | inserting a further folder leaves the folders before it in place and empty |
| FsRefresh.FileInserted | src/fuse.rs:117-153 | inserting a further file keeps the tree a mirror of what was inserted |
| FsRefresh.InsertFolders | src/fuse.rs:255-257 | afterwards the tree has every listed folder, empty; everything outside of them and every other inode is as before |
| FsRefresh.InsertFiles | src/fuse.rs:259-279 | the loop terminates for every order of a parent-closed listing, and afterwards the tree mirrors it; every inode that is not in it keeps its place and its node |
| FsRefresh.Refresh | src/fuse.rs:241-281 | after a refresh each listed file is found at exactly its own folder and name, under its inode, and listed folders hold nothing else; folders that are not listed and inodes that are not listed stay as they were |
| FsReaddir.ReaddirMem | src/fuse.rs:356-394 | ENOENT exactly for unknown inodes, a panic exactly for inodes whose node is no longer found from the root, and otherwise the children of the node |
| FsReaddir.Upgrades | src/fuse.rs:376-378 | a weak reference can be upgraded exactly if its node is found from the root, through the children of nodes, which hold the only strong references |
| FsReaddir.EntryIff | src/fuse.rs:1250-1264 | the filter selects a file for a directory exactly when its path is that directory and one name |
| FsReaddir.DirectoryAgrees | src/fuse.rs:438-452 | the children in a mirroring tree are exactly the filter's selection, inodes included |
| FsReaddir.ReaddirAgrees | src/fuse.rs:356-482 | after a refresh every inode of a listed folder or directory is alive, and listing it in memory gives exactly the entries of the flat-list filter |
| FsReaddir.ListedInodes | src/fuse.rs:1213-1248 | the filter resolves the inode of every listed folder and file to its own directory |
| FsReaddir.LiveIff | src/fuse.rs:370-378 | in a listed folder the inode of a file is alive if and only if that very entry, with that row number, is listed |
| FsReaddir.RefreshTwice | src/fuse.rs:241-281 | after two refreshes every inode of the first listing is in the table, and the inode of a file is alive if and only if the second listing has its row number or does not have its folder |
| FsReaddir.OldInodesPanic | src/fuse.rs:370-378 | a file that was updated, and so has a new row, and one that was removed: listing either old inode panics |
| FsReaddir.RootAgreesIff | src/fuse.rs:409-434 | listing the root in memory agrees with the folder list, inodes included, if and only if every folder in the tree is listed |
| FsRename.TraversePost | src/fuse.rs:165-171 | visits each node of the subtree exactly once, children before parents, in whatever order children come |
| FsRename.NodesAreFiles | src/fuse.rs:817-880 | below a folder every node is a file at the path its name says, so the other branches are not reached |
| FsRename.FindChild | src/fuse.rs:777-794 | finds a child by the name of its file, exactly when there is one |
| FsRename.FindEntry | src/fuse.rs:767-794 | finds the entry exactly when it is in the tree, and then it is that node |
| FsRename.SubtreeNode | src/fuse.rs:817-828 | the prefix assertion holds for each collected node |
| FsRename.MovedBack | src/fuse.rs:830-831 | the rewriting keeps every relative path, and renaming back undoes it |
| FsRename.MovedInjective | src/fuse.rs:830-831 | different names stay different |
| FsRename.RewriteNames | src/fuse.rs:817-831 | one move per node of the subtree, in the collected order |
| FsRename.PlanRename | src/fuse.rs:715-880 | ENOENT exactly when the entry is missing; otherwise every file of the subtree is moved once, children first, by prefix substitution |
| FsRename.PlanIsInjective | src/fuse.rs:817-831 | no two files move to one name, and each keeps its path below the renamed entry |
| FsRenamed.RenamedListingIff | src/fuse.rs:817-851 | renaming within a folder to a name whose parent is listed leaves a listing that is unique and parent-closed, so that the next refresh ends, if and only if the name is free and not inside of what is renamed |
| FsRenamed.RowMoves | src/core/bep_state.rs:1218-1233 | the next row of a plan can be renamed without violating the key, and only that row is |
| FsRenamed.PlanRenamesListing | src/core/bep_state.rs:1203-1233 | carrying out a plan row by row never meets a name that is taken and ends in the renamed listing |
| FsRenamed.TakenNameFails | src/core/bep_state.rs:1218-1233 | renaming onto an entry that is there ends in a violated key, at the latest at the last row of the plan, that of the renamed entry |
| FsRenamed.HalfRenamed | src/fuse.rs:817-851 | by then the rows below it have been renamed, each in its own transaction: an input that is left half renamed |
| IndexMerge.MaxCounter | src/core/bep_processor.rs:559-590 | a counter of the version that no other exceeds |
| IndexMerge.MaxIsLast | src/core/bep_processor.rs:559-576 | of several counters with the largest value the last one is taken |
| IndexMerge.VersionOrder | src/core/bep_processor.rs:559-590 | the version comparison is a strict weak order that mirrors itself, with symmetric equality and conflicts |
| IndexMerge.JudgeMirrors | src/core/bep_processor.rs:522-541 | an entry is news exactly when its counter is larger, and conflicting exactly when two devices made the same largest number; a conflict goes to the later time, the same way from both sides; the exact condition of the panic |
| IndexMerge.DiffIndices | src/core/bep_processor.rs:506-556 | the one-pass loop sorts every received entry by its verdict against the stored entry of its name, in order |
| IndexMerge.DiffIs | src/core/bep_processor.rs:506-556 | when the diff is refused or panics, and otherwise exactly which entries are in each of its three lists |
| IndexMerge.InsertNeverLowers | src/core/indices.rs:69-89 | storing entries that may replace what is there loses no name and lowers no counter |
| IndexMerge.AddedMayReplace | src/core/bep_processor.rs:522-545 | what a diff adds is new or has a larger counter than what is stored |
| Indices.GrizolIndices.Insert | src/core/indices.rs:54-60 | a device's index of a folder is replaced by the received one, the last entry of a name counting, and the replaced one is returned |
| Indices.GrizolIndices.IndexOf | src/core/indices.rs:64-67 | a listing of the stored index, every entry once, in any order |
| Indices.GrizolIndices.LoadIndex | src/core/bep_state.rs:475-610 | an index that is not in memory is made from its rows in the database; one that is stays as it is |
| Indices.LoadedRows | src/core/bep_state.rs:475-610 | a loaded index has exactly the rows of the database; one in memory stays |
| Indices.GrizolIndices.InsertFileInfo | src/core/indices.rs:69-89 | the entries are stored by name in an index that is created if missing; all others stay |
| Indices.GrizolIndices.RemoveFileInfo | src/core/indices.rs:91-106 | one name goes and its entry is returned; every other name and every other index stays |
| Indices.HandleIndex | src/core/bep_processor.rs:212-259 | the sender's index is replaced, the local one is loaded if it is not in memory, and the news enter it, or the handler panics, as it does on an entry without a version |
| Indices.HandleIndexUpdate | src/core/bep_processor.rs:147-210 | the news enter the sender's index and the news of a listing of that index enter the local one, either index loaded if it is not in memory, deleted entries dropped, or the handler panics |
| Indices.IndexReaches | src/core/bep_processor.rs:212-259 | every entry of an Index is then the sender's, under the next numbers, and in the local index with at least its version, deleted ones included |
| Indices.UpdateReaches | src/core/bep_processor.rs:147-210 | every entry of an IndexUpdate that is not deleted is then in the sender's index, and every such entry of that index in the local one, with at least its version |
| Indices.WelcomeExact | src/core/bep_state.rs:1058-1200 | each entry of a message: a copy of it is stored under a fresh number if it is news, and nothing happens to its name otherwise |
| Indices.AbsorbExact | src/core/bep_state.rs:1317-1526 | the same, with deleted entries left alone |
| Indices.WelcomeInto | src/core/bep_state.rs:1058-1200 | the diff against the stored index is stored with fresh sequence numbers, unless an entry of it has no version |
| Indices.AbsorbInto | src/core/bep_state.rs:1317-1526 | the diff against the stored index is stored with fresh sequence numbers and without its deleted entries, unless one of the others has no version |
| Indices.HandleGrows | src/core/bep_processor.rs:147-259 | one message from another device makes no local index lose a name or lower its largest counter |
| Indices.LocalNeverLowers | src/core/bep_processor.rs:147-259 | the same over every run of messages |
| Indices.SecondVerdict | src/core/bep_state.rs:1341-1341 | once an update is stored, the verdict on its entries changes only for those that were added and not deleted: to Ignore, or to a panic if the version has no counters |
| Indices.SecondDiffAddsOnlyDeleted | src/core/bep_processor.rs:506-556 | with unique names, diffing a stored update again adds exactly the deleted ones of the entries added before |
| Indices.SecondDiffPanicsIff | src/core/bep_processor.rs:559-576 | the second diff panics exactly if an entry was stored whose version has no counters |
| Indices.ResentUpdateAddsOnlyDeleted | src/core/bep_processor.rs:165-174 | both for an update absorbed into a table and received once more |
| Indices.AddedAgainIff | src/core/bep_processor.rs:506-556 | without unique names: an entry that is not deleted is added again exactly if it was added and a lower one of its name was stored after it |
| Indices.AddsOnlyDeletedIff | src/core/bep_processor.rs:506-556 | the second diff adds deleted entries only, if and only if no name came with a lower version after a higher one |
| Indices.RepeatedNamesAddAgain | src/core/indices.rs:69-89 | a higher version followed by a lower one of the same name is added again |
| ReadCache.EvictCountIsShortest | src/core/bep_state.rs:1701-1761 | the eviction is the one shortest oldest-first prefix that makes room |
| ReadCache.RoomAfter | src/core/bep_state.rs:1701-1761 | afterwards anything that fits into the cache at all has room |
| ReadCache.ReadCache.UsedBytes | src/core/bep_state.rs:1701-1761 | the sum over the query's listing is the number of cached bytes |
| ReadCache.ReadCache.ChooseEvicted | src/core/bep_state.rs:1701-1761 | the loop takes exactly that prefix of the listing |
| ReadCache.ReadCache.FreeReadCache | src/core/bep_state.rs:1701-1761 | without underflow, evicts the shortest prefix that makes room and nothing else |
| ReadCache.ReadCache.UpdateReadCache | src/core/bep_state.rs:1763-1799 | a file that is cached keeps its place in the queue, another one is added with its size |
| ReadCache.ReadCache.Read | src/fuse.rs:614-655 | a read keeps the cache within its size, also when the copy fails; it succeeds exactly for files that fit and are cached or copied |
| ReadCache.ReadKeepsCapacity | src/fuse.rs:614-655 | one read keeps the capacity |
| ReadCache.ReadEvicts | src/fuse.rs:614-655 | what a read evicts, also if its copy then fails, and that the file is cached exactly if the copy succeeds |
| ReadCache.AfterReads | src/fuse.rs:614-696 | in every run of reads the cached bytes never exceed the cache's size |
| ReadCache.FirstInFirstOut | src/core/bep_state.rs:1701-1799 | over a run with a clock that goes on, the cached files are exactly the last ones that were copied in, and their oldest-first order is that of the copies |
| ReadCache.EvictsTheOldest | src/core/bep_state.rs:1717-1733 | what a read evicts was copied in before everything that it keeps |
| Base32.UnitsRoundTrip | src/device_id.rs:18-58 | units of k bits are read back from their bits, whatever shorter filler follows |
| Base32.BitsRoundTrip | src/device_id.rs:18-58 | bits are read back from their units |
| Base32.EncodeBits | src/device_id.rs:18-25 | the symbols carry the bits of the bytes and then the filler, nothing else |
| Base32.FromBitsConcat | src/device_id.rs:18-25 | the first bits are the most significant ones |
| Base32.EncodeIsNumber | src/device_id.rs:18-25 | the symbols, as one number in base 32, are the bytes, as one number in base 256, followed by the filler |
| Base32.RoundTrip | src/device_id.rs:18-58 | decoding undoes encoding, for byte strings of every length |
| Base32.Canonical | src/device_id.rs:33-58 | a text that decodes is the encoding of what it decodes to |
| Luhn32.ComputeLuhn32 | src/device_id.rs:227-242 | the loop computes the check symbol, and fails exactly on a foreign symbol |
| Luhn32.AcceptsIff | src/device_id.rs:182-205 | a group is accepted exactly when its weighted digit sum is 0 modulo 32 |
| Luhn32.SubstitutionRejected | src/device_id.rs:182-242 | replacing any one symbol of an accepted group of any length, check symbol included, is rejected |
| Luhn32.PayloadSwap | src/device_id.rs:182-242 | swapping two adjacent distinct payload symbols is accepted exactly for A and 7 |
| Luhn32.CheckSwap | src/device_id.rs:182-242 | swapping the check symbol with the symbol before it is accepted exactly after a payload of odd length, or for A and 7 |
| DeviceId.WriteGroup | src/device_id.rs:170-177 | writes a payload and its check symbol behind the groups already there |
| DeviceId.Luhnify | src/device_id.rs:166-180 | the four payloads, each with its check symbol; an error for any other length and exactly for foreign symbols |
| DeviceId.Unluhnify | src/device_id.rs:182-205 | the four payloads exactly if every group passes its check; otherwise the error of the first group that does not |
| DeviceId.Chunkify | src/device_id.rs:148-164 | groups of seven with dashes between them |
| DeviceId.LuhnRoundTrip | src/device_id.rs:166-205 | removing the check symbols undoes adding them |
| DeviceId.UnluhnRoundTrip | src/device_id.rs:166-205 | what passes its checks is what adding the check symbols gives |
| DeviceId.EncodedLength | src/device_id.rs:18-25 | an id always has 52 symbols, so printing does not fail |
| DeviceId.DecodedLength | src/device_id.rs:50-57 | an accepted payload always decodes to 32 bytes, so the final copy does not fail |
| DeviceId.PrintedNumber | src/device_id.rs:18-25 | the 52 symbols of an id, as one number in base 32, are its 32 bytes, as one number in base 256, times 16 |
| DeviceId.LuhnedAt | src/device_id.rs:166-180 | group i is payload i followed by its check symbol |
| DeviceId.DashedAt | src/device_id.rs:148-164 | every eighth character is a dash, and the others are the symbols in order |
| DeviceId.UnluhnedIff | src/device_id.rs:182-205 | the groups of a text pass exactly if each is accepted by its own check symbol |
| DeviceId.FirstBadGroup | src/device_id.rs:182-205 | the error is that of the first group that does not pass, and says whether a symbol or the check was wrong |
| DeviceId.Print | src/device_id.rs:18-25 | printing, as computed step by step, never fails |
| DeviceId.TryFrom | src/device_id.rs:33-58 | parsing, as computed step by step |
| DeviceId.NormalizeDisplay | src/device_id.rs:18-58 | the printed form normalises to its 56 symbols |
| DeviceId.DisplayRoundTrip | src/device_id.rs:18-58 | every id is read back from its printed form |
| DeviceId.ParsesIff | src/device_id.rs:18-58 | a text is accepted as an id exactly when it normalises to the printed form of that id |
| DeviceId.AcceptedTexts | src/device_id.rs:33-58 | the accepted texts are exactly the 56 symbols in either case, with dashes and spaces anywhere and 0, 1, 8 for O, I, B |

## Left out

- TLS, certificates, sockets, channels, the ping timer, end of stream and the accept loop.
- Protobuf fields, LZ4, SHA-256 and the clock are parameters; the only assumption is that decoding undoes encoding, and decompressing compressing.
- SQL text: the few tables are maps. A file has one block row per chunk, and no block is shared between files.
- Configuration, file attributes, `getattr`, `lookup_db`, logging and statistics.
- `i32` overflow of request ids, negative sizes, and limits that change during a run.
- The agreement of the in-memory indices with the database: the rows that an index is loaded from are parameters.
- The disabled `move_file` branch of `replace_file_info`, `new_file_path`, what `mv_file_info` does to locations and caches, and renaming into another folder.
- rclone commands, `cp_local_to_remote`, file locations and `read_cached`.
- Names as byte strings: a path is a sequence of components, so doubled or trailing slashes do not arise.
- OutgoingRequests.OutgoingRequests.Remove: an id that is queued but not pending makes the source assert; it is shut out by a precondition, and a run that meets one ends there.
- OutgoingRequests.OutgoingRequests.UpdatePendingRequests: the limits must hold on entry, as they do in every run; with limits lowered in between the source's slot count would underflow.
- RequestOrder.LessTotal: the hash of a request has 32 bytes by its type; one of another length makes the source panic when the key is formed (src/core/outgoing_requests.rs:26).
- ConcurrentWriter.AlwaysExclusive: the shortcut for files of size zero bypasses the writer's state; it is in FileWriter.FileWriter.WriteChunk only.
- FileWriter.FileWriter.WriteChunk: the class models calls that neither overlap nor fail, as runs of ConcurrentWriter; overlapping and failing ones are events of that model only. The name and suffix of chunk files are not modelled.
- BlockTable.BlockTable.UpdateBlockStorageState: the lookup of the request by its id is not modelled; the hash is a parameter.
- Upload.AlwaysHolds: a thread that looked up its request is not stopped when another thread removes that request; the lookup in its mark would then panic, so the model allows more runs. The run of DuplicateResponses.SecondResponseDestroys marks both responses before either thread goes on.
- Upload.ReportMeansWritten: needs distinct hashes within the file, as BlockTable.SoundIffDistinct shows it must.
- FsRefresh.Refresh: needs a listing that is closed under parents, as FsListing.TerminatesIff shows it must. A file of a folder that is not listed does not occur: both lists are read for one device, and the foreign key of `bep_file_info` makes its folder one of that device's listed folders (migrations/20231005195238_grizol.sql:84, src/core/bep_state.rs:732-745).
- FsRename.PlanRename: plans the moves; FsRenamed models their effect on the rows of the files, and what the storage does with each of them is not modelled.
- Indices.HandleIndex: an entry without a version, one without counters that is compared, and a conflict with identical timestamps are panics, after which nothing is stated.
- Indices.LocalNeverLowers: a message that a device sends to itself is shut out, because an Index message then replaces the local index.
- ReadCache.AfterReads: a file's size is fixed while it is cached, and the listing is any oldest-first one; ReadCache.FirstInFirstOut needs a clock that goes on between reads, since two files of one time have no order.
- Indices.UpdateReaches: is about updates in which every name comes once; Indices.AddsOnlyDeletedIff says what happens otherwise.
- Base32.RoundTrip: the encoding is modelled without its '=' padding, which the source strips at once.
- Luhn32.ComputeLuhn32: the sum is unbounded; the source's 32-bit sum cannot overflow for groups of 13.
- DeviceId.Chunkify: texts shorter than seven, for which the source's length computation underflows, are shut out; the source calls it with 56 symbols.
