# AarchGate-Eureka: a verified model

AarchGate-Eureka is a columnar log engine: NDJSON lines are staged behind a write-ahead log,
transcoded into 64-row bit-planes, pruned by row-group metadata, and scanned as bit-slices.
This project models its engine in Dafny and proves that the fast forms agree with simple ones and
that its small concurrent protocols keep their promises in every interleaving.

| files | content |
|---|---|
| `Bits`, `BitPlanes` | 64-bit words as numbers with bits; transposition; bit-serial comparators |
| `Documents`, `Lines` | parsed documents, the rows they contribute and what a query asks of them; newline-terminated text |
| `RingBuffer`, `Pipeline`, `PipelineRuns` | the streaming query: producer, consumer, ring, condition variables |
| `Exporter`, `Reconstruct` | the `.agb`/`.idx` export, the two-pass scan, line materialisation |
| `PlaneMemory`, `Storage`, `Ingest`, `AdaptiveIngester` | the byte layout, zone maps, Bloom filter, presence, transcoding |
| `QueryPlanner`, `Promotion` | pruning and hot-column promotion |
| `Wal`, `Staging`, `CommitLog`, `StreamIngest` | log round trip, staging protocol, the command-line stream ingester |
| `PlanCache`, `PlanCacheRuns` | the LRU plan cache and what it holds after any history |
| `SubstringSearch`, `PinCache` | text search and the pin protocol of the query service |
| `Text`, `QueryText`, `QueryLaws`, `LiveTail` | printing and the two parsers of query strings |

`dafny verify dfyconfig.toml` checks everything.

How the pieces are modelled:

- Threads are step systems. A step is one critical section, or one stretch of thread-local work.
  A sleeping thread carries whether it was notified, and a spurious wakeup is a step of its own.
- A committed batch carries the group it was replaced by, and what that group stores is read back row by row.
- A run is any sequence of enabled steps from the initial state; the theorems quantify over all runs.
- `BitSlicer.slice_n` is `BitPlanes.Slice`, defined by its documented layout. The compiled kernel is
  the count of satisfying rows. simdjson is a function from a line to optional fields. The Bloom hash
  is any function, passed as a parameter. Opening a file is a boolean or an optional result.
- Unsigned 64-bit arithmetic is the subset type `u64`; wrap-around of the depth counter is explicit.

Where the code does less than its documentation or a reader might assume, the model follows the code
and the condition is exact:

- The reconstruction scan and the query service's `.agb` scan read 8 planes, so larger values alias
  (`ScanExactIff`) and the same query can count differently on text and on its export (`CountsAgreeIff`,
  `PathsDisagree`).
- A numeric equality on a field other than `status`, or a comparison other than on `status` and
  `latency`, is pruned with the status zone map; a string test on `service` or any other field can skip
  a matching document (`TrustworthyIff`).
- String tests skip every staged group (`StagedKeptIff`).
- Truncation clears the log of batches that are still pending (`TruncateDurableIff`).
- The log drops empty lines and trailing carriage returns (`WalRoundTripIff`).
- Promotion writes by dictionary position, not by row (`PromotionAlignedIff`).
- `latency < n` is read as `latency > n` (`LessThanRead`).
- `status ==n` is read as status 0 (`SpacingIff`) and swallows a latency term after it
  (`ConjunctionParses`). A query with one target, or for status 0, means different things to the scan of
  a text file and to the live tail, and latencies of 2^31 and more always do (`ReadersAgreeIff`,
  `ReadersDisagreeBeyond`); against an export every query that can match does (`AgbReadersAgreeIff`).
- A batch is acknowledged even when its log write failed (`LogDurableIff`).
- A pin thread that cannot be created leaves its file flagged as being pinned for good
  (`FlagsTellTheTruth`, `AbandonedForGood`).
- Promotion into a slot of 32 or more writes outside the planes unless no string is marked (`InBoundsIff`).
- Patterns with a NUL are compared only up to it (`ExactIff`).

## Model

| member | source | states |
|---|---|---|
| `RingBuffer.Ring.PutAppends` | src/lex/ingester.cpp:206-208 | enqueueing keeps head = (tail + size) mod 16 and appends exactly one element to the queue read from tail |
| `RingBuffer.Ring.TakeDropsOldest` | src/lex/ingester.cpp:103-105 | dequeueing keeps the ring valid and removes exactly the oldest element |
| `RingBuffer.Queue.PushChunk` | src/lex/ingester.cpp:206-208 | the in-place update of the slot array and the two counters is that enqueue |
| `RingBuffer.Queue.PopChunk` | src/lex/ingester.cpp:103-105 | the in-place update of tail and size is that dequeue and returns the oldest chunk |
| `Pipeline.UnpackInto` | src/lex/ingester.cpp:110-113 | the loop overwrites exactly the first `count` rows of the reused batch and leaves the stale rest |
| `Pipeline.PadColumns` | src/lex/ingester.cpp:220-223 | both columns of the last chunk are zeroed from `count` on and unchanged before it |
| `Pipeline.StepKeepsRing` | src/lex/ingester.cpp:93-107 | every step of either thread keeps pushed = popped followed by the ring contents from tail |
| `Pipeline.StepKeepsWake` | src/lex/ingester.cpp:200-210 | every step keeps: an un-notified sleeping consumer means an empty queue and no completion, an un-notified sleeping producer means a full queue |
| `Pipeline.StepKeepsStream` | src/lex/ingester.cpp:168-240 | every step keeps: the rows parsed so far are the rows pushed followed by the rows buffered, whole chunks only until the last |
| `Pipeline.StepKeepsCount` | src/lex/ingester.cpp:109-119 | every step keeps: the running total is the number of matches in the chunks evaluated so far, stale batch rows never counted |
| `PipelineRuns.RunInv` | src/lex/ingester.cpp:64-252 | all four invariants hold in every state of every interleaving, spurious wakeups and parser failures included |
| `PipelineRuns.RunExtends` | src/lex/ingester.cpp:64-252 | any enabled step extends any run: no reachable state is outside the domain of the steps |
| `PipelineRuns.RunQueryCorrect` | src/lex/ingester.cpp:122-253 | whenever the query returns, it returns the number of matching error-free documents; after a parser exception, that of the documents that had filled a chunk |
| `PipelineRuns.FailedOnlyByParser` | src/lex/ingester.cpp:238-240 | runs without a parser exception never take the failure answer |
| `PipelineRuns.ConsumerLeavesDrained` | src/lex/ingester.cpp:98-100 | the consumer leaves only after completion was signalled and everything pushed was popped, in order |
| `PipelineRuns.NeverStuck` | src/lex/ingester.cpp:94-106 | in every reachable state before the return some thread can move without a spurious wakeup |
| `PipelineRuns.StepProgress` | src/lex/ingester.cpp:168-252 | a measure drops on every step except a spurious wakeup, which costs one unit |
| `PipelineRuns.RunsTerminate` | src/lex/ingester.cpp:122-253 | the length of any run is bounded linearly by the documents and the spurious wakeups |
| `PipelineRuns.StreamAgreesWithExport` | eureka-services/aarchgate-core-grpc/src/service_impl.cpp:265-296 | the streamed count on whole fields equals the count over the export at any scanned width when no document is ambiguous at that width, for every interleaving |
| `PipelineRuns.PathsDisagree` | eureka-services/aarchgate-core-grpc/src/service_impl.cpp:265-296 | a document with status 456 and latency 150 is streamed as no match of `status == 200 AND latency > 100` and counted once in its export at 8 bits |
| `Reconstruct.CountsAgreeIff` | eureka-services/aarchgate-core-grpc/src/service_impl.cpp:265-296 | counting whole fields and counting low bits agree after every document of the stream iff no document is ambiguous, for all targets |
| `PipelineRuns.MaximalRunsReturn` | src/lex/ingester.cpp:122-253 | every run that cannot be continued (except spuriously) has returned the reference count |
| `BitPlanes.SliceRoundTrip` | README.md:94-94 | reading row i back from the 64 planes gives value i |
| `BitPlanes.EqMask` | benchmarks/bench_reconstruct.cpp:132-142 | for any width W and target below 2^W, bit i of the mask is set iff value i mod 2^W equals the target |
| `BitPlanes.GtMask` | benchmarks/bench_reconstruct.cpp:146-155 | for any width W and target below 2^W, bit i of the mask is set iff value i mod 2^W exceeds the target |
| `BitPlanes.MatchMask` | benchmarks/bench_reconstruct.cpp:129-156 | the combined mask is the conjunction of the two scalar comparisons, row by row |
| `Exporter.ConvertJsonToAgb` | src/lex/exporter.cpp:46-119 | the two files decode, position by position, to exactly the error-free records followed by zero rows, in ceil(N/64) blocks, and both counters are right |
| `Documents.RecordOfDocument` | src/lex/exporter.cpp:54-89 | each error-free document has its own record, in order, with 0 for a missing field |
| `Exporter.WriteBlock` | src/lex/exporter.cpp:92-97 | appending a sliced block extends the encoded records by the buffered ones |
| `Exporter.PadBuffers` | src/lex/exporter.cpp:105-110 | entries past the last record become zero, the records stay |
| `Reconstruct.PaddingNeverCounts` | src/lex/exporter.cpp:104-110 | zero padding rows never change a `status == s AND latency > t` count, for all s and t and at every scanned width |
| `Reconstruct.FileCountIsRecordCount` | eureka-services/aarchgate-core-grpc/src/service_impl.cpp:265-282 | counting over all rows of the exported file gives the count over the documents, on whole fields or on any number of low bits |
| `Reconstruct.CountIsOffsets` | benchmarks/bench_reconstruct.cpp:108-118 | counting the accepted rows is counting the offsets the lookup returns |
| `Exporter.BlocksFromSizeCounterexample` | eureka-services/aarchgate-core-grpc/src/service_impl.cpp:237-241 | an export of 1950000 blocks is scanned for 1300000 |
| `Exporter.BlocksFromSizeIff` | eureka-services/aarchgate-core-grpc/src/service_impl.cpp:237-241 | the block count recomputed from the file size is right iff the export does not have 1950000 blocks, the two-field file of the reserved size |
| `Reconstruct.ScanBlock` | benchmarks/bench_reconstruct.cpp:121-156 | the mask of block b judges rows 64 b to 64 b + 63 of the file |
| `Reconstruct.Lookup` | benchmarks/bench_reconstruct.cpp:159-167 | the index lookup appends the offsets of exactly the masked rows, in row order |
| `Reconstruct.Scan` | benchmarks/bench_reconstruct.cpp:117-168 | the offsets found are those of the accepted rows of the whole file, in file order |
| `Reconstruct.PaddingNeverAccepted` | benchmarks/bench_reconstruct.cpp:145-156 | padding rows are never selected, whatever the targets and the width |
| `Reconstruct.ScanExactWhenNarrow` | benchmarks/bench_reconstruct.cpp:121-168 | when the fields fit in the scanned width, the scan of an export returns exactly the offsets of the records that satisfy the query |
| `Reconstruct.ScanExactIff` | benchmarks/bench_reconstruct.cpp:128-156 | for records with distinct offsets the scan is exact iff no record is ambiguous at the scanned width |
| `Reconstruct.TruncationCounterexample` | benchmarks/bench_reconstruct.cpp:133-142 | at width 8 a record with status 456 is selected by the query for status 200 |
| `Reconstruct.Materialize` | benchmarks/bench_reconstruct.cpp:176-181 | the line runs from the offset to the next newline or the end of the text, and contains none |
| `Reconstruct.LineOccupies` | benchmarks/bench_reconstruct.cpp:174-182 | the text at a line start, up to its newline, is that line |
| `Reconstruct.FileNamesLines` | benchmarks/bench_reconstruct.cpp:174-182 | offsets found in an exported file name the wanted lines of the text it came from, in order |
| `Reconstruct.MaterializeAll` | benchmarks/bench_reconstruct.cpp:171-182 | the materialised lines are the wanted ones, in order |
| `Reconstruct.WantedLinesExact` | benchmarks/bench_reconstruct.cpp:128-156 | without ambiguous documents the lines selected at the scanned width are the lines the query asks for |
| `Reconstruct.NarrowIsUnambiguous` | benchmarks/bench_reconstruct.cpp:128-156 | fields that are absent or below 2^width are never ambiguous |
| `Reconstruct.ReconstructQuery` | benchmarks/bench_reconstruct.cpp:105-182 | export, scan, lookup and materialisation together return the original lines of the accepted documents, in file order, and of exactly the documents that satisfy the query when none is ambiguous |
| `PlaneMemory.StoreWordCells` | src/lex/ingest/adaptive_ingester.cpp:107-116 | a 64-bit word written little-endian at `slot*64*8192 + (bit*1024 + block)*8` sets exactly the 64 cells of that slot, plane and block |
| `PlaneMemory.WordInBounds` | include/lex/storage/row_group.hpp:51-57 | every such write lies inside the plane array |
| `PlaneMemory.OrByteCells` | src/lex/ingest/promotion_daemon.cpp:40-42 | a byte-addressed bit set changes exactly the cell of that slot, plane and row, in the same coordinates as the word writes |
| `PlaneMemory.DecodeIs` | include/lex/storage/row_group.hpp:39-41 | a column value is determined by its 64 cells |
| `Storage.ZoneExact` | include/lex/storage/zone_map.hpp:37-55 | minimum and maximum are attained, every value lies between them, and `has_values` is set iff there is a value |
| `Storage.RangeTestSound` | include/lex/storage/zone_map.hpp:69-73 | the range test is true for every range that holds a value, and only for ranges that reach into the span of the values |
| `Storage.FilterBits` | include/lex/storage/bloom_filter.hpp:59-66 | a filter bit is lit iff some added key owns it |
| `Storage.FilterOfOne` | include/lex/storage/bloom_filter.hpp:59-66 | adding a key lights bit h2 mod 64 of word h1 mod 1024 and bit h1/64 mod 64 of the next word, and no other |
| `Storage.FilterContains` | include/lex/storage/bloom_filter.hpp:68-76 | no added key is ever reported absent |
| `Storage.SingletonFilter` | include/lex/storage/bloom_filter.hpp:68-76 | a filter of one key reports another present iff the first owns both its bits |
| `Storage.EmptyFilterRejects` | include/lex/storage/bloom_filter.hpp:53-57 | a fresh filter reports every key absent |
| `Storage.SetPresenceSets` | include/lex/storage/row_group.hpp:121-134 | setting a block bit makes that block of that column present and no other; out-of-range calls change nothing |
| `Storage.RowGroup.SetBlockPresence` | include/lex/storage/row_group.hpp:121-127 | the in-place update, with the presence of all 64 x 1024 blocks stated |
| `Storage.RowGroup.constructor` | include/lex/storage/row_group.hpp:51-57 | a new group has empty zones, an empty filter, no present blocks and zero planes |
| `Storage.RowGroup.Copy` | include/lex/storage/row_group.hpp:59-72 | the copy has the same contents |
| `Adaptive.AdaptiveIngester.ResolveSlots` | src/lex/ingest/adaptive_ingester.cpp:21-37 | the slot map only ever gives status 0, latency 1 and trace_id 32, whatever was ingested before |
| `Adaptive.AdaptiveIngester.TakeRow` | src/lex/ingest/adaptive_ingester.cpp:55-94 | one line goes to its place in both buffers and advances zone maps, filter and dictionary by its row |
| `Adaptive.AdaptiveIngester.FillBlock` | src/lex/ingest/adaptive_ingester.cpp:54-98 | the two buffers hold the rows of the block padded with zeros, and zone maps, filter and dictionary advance by exactly those rows |
| `Adaptive.AdaptiveIngester.WritePlanes` | src/lex/ingest/adaptive_ingester.cpp:100-116 | the 128 word writes fill exactly this block of the two columns |
| `Adaptive.AdaptiveIngester.IngestBlock` | src/lex/ingest/adaptive_ingester.cpp:46-117 | one block iteration advances planes, presence and metadata together |
| `Adaptive.AdaptiveIngester.IngestChunk` | src/lex/ingest/adaptive_ingester.cpp:14-121 | the new group is the transcoding of the first 65536 lines: every cell of every slot, every presence bit, zone maps, filter, dictionary and fingerprint |
| `Ingest.TranscodedDecodes` | src/lex/ingest/adaptive_ingester.cpp:104-116 | decoding slots 0 and 1 of a transcoded group gives each line its status and latency in order, and zero past the batch |
| `Ingest.TranscodedFields` | src/lex/ingest/adaptive_ingester.cpp:64-83 | on the parser's own maps: row i decodes to the status or 0, and to the latency, failing that `latency_ms`, or 0 |
| `Ingest.TranscodedStrings` | src/lex/ingest/adaptive_ingester.cpp:85-94 | on the parser's own maps: the dictionary has one string for each line with a `trace_id` or a `service`, in line order, the `trace_id` first |
| `Ingest.TranscodingExists` | src/lex/ingest/adaptive_ingester.cpp:14-121 | every batch of at most 65536 rows has a transcoding |
| `Ingest.ZonesAre` | src/lex/ingest/adaptive_ingester.cpp:70-83 | row-by-row updates amount to the exact zone maps of the batch in slots 0 and 1, and leave the others empty |
| `Ingest.StringsAre` | src/lex/ingest/adaptive_ingester.cpp:86-94 | the dictionary is the recorded strings in row order, and the filter is the filter of that dictionary |
| `QueryPlanner.KeepsBatchIsKeeps` | src/lex/jit/query_planner.cpp:7-53 | the answer on a transcoded group depends only on the metadata of its batch |
| `QueryPlanner.GtKeepsIff` | src/lex/jit/query_planner.cpp:14-28 | a comparison keeps a non-empty transcoded group iff some stored latency (for `latency`) or some stored status (for any other field) exceeds the bound |
| `QueryPlanner.EqKeepsIff` | src/lex/jit/query_planner.cpp:36-49 | a numeric equality keeps a non-empty transcoded group iff some stored status is at most the number and some at least it |
| `QueryPlanner.StringKeepsIff` | src/lex/jit/query_planner.cpp:31-35 | a string equality keeps a transcoded group iff strings of its dictionary own both bits of the literal |
| `QueryPlanner.AndKeepsIff` | src/lex/jit/query_planner.cpp:8-12 | a conjunction keeps a group iff every present child does |
| `QueryPlanner.EmptyKeptIff` | src/lex/jit/query_planner.cpp:7-53 | a transcoded group without rows is kept iff the tree has no string test |
| `QueryPlanner.StoredPruningSound` | src/lex/jit/query_planner.cpp:7-53 | for every predicate tree, a group that is skipped stores no row satisfying it, the tree read against the stored status, latency and string |
| `QueryPlanner.PruningSound` | src/lex/jit/query_planner.cpp:7-53 | for every tree in the domain, no document of a skipped group satisfies it |
| `QueryPlanner.HoldsAreStored` | src/lex/ingest/adaptive_ingester.cpp:64-94 | in the domain, what holds of a document holds of the values stored for it |
| `QueryPlanner.DocumentCovered` | src/lex/ingest/adaptive_ingester.cpp:70-94 | each document lies within the zone maps of its batch, and its string lights the filter |
| `QueryPlanner.TrustworthyIff` | src/lex/jit/query_planner.cpp:14-50 | a leaf never loses a matching document, on any batch, iff its field and literal are those the metadata covers |
| `QueryPlanner.TreeTrustworthyIff` | src/lex/jit/query_planner.cpp:7-53 | for every tree: pruning never loses a matching document, on any batch, iff it never loses one that is alone in its batch |
| `QueryPlanner.GrowthKeeps` | src/lex/jit/query_planner.cpp:7-53 | pruning is monotone: what is kept stays kept as zone maps and filter grow |
| `QueryPlanner.WitnessDefeats` | src/lex/jit/query_planner.cpp:36-48 | for every other leaf, a one-document batch whose document satisfies it and is skipped |
| `QueryPlanner.StagedKeptIff` | src/lex/ingest/adaptive_ingester.cpp:123-131 | a staged group is kept iff the tree has no string test |
| `Promotion.PromotionDaemon.PromoteRow` | src/lex/ingest/promotion_daemon.cpp:36-44 | the 64-plane loop marks exactly row i of plane 0 of the target column, and only when its string is in the filter |
| `Promotion.PromotionDaemon.ExecuteCompactionPromotion` | src/lex/ingest/promotion_daemon.cpp:24-51 | a fresh copy with one rewritten column is published; the old group is untouched; a null pointer is refused; required only that no byte is written outside the planes |
| `Promotion.InBoundsIff` | src/lex/ingest/promotion_daemon.cpp:32-42 | every byte the promotion sets lies inside the plane array iff the target slot is below 32 or no dictionary string is in the filter |
| `Promotion.TranscodedIsReady` | src/lex/ingest/adaptive_ingester.cpp:104-116 | a transcoded group has its columns 2 to 31 all zero and a filter that holds its dictionary |
| `Promotion.PromotionMeaning` | src/lex/ingest/promotion_daemon.cpp:31-46 | after promotion into an all-zero column of any such group row i reads 1 iff i is a dictionary position, all other columns decode as before, and no pruning answer changes |
| `Promotion.MisalignedPromotion` | src/lex/ingest/promotion_daemon.cpp:33-43 | of two rows only the second of which carries a string, promotion marks the first |
| `Promotion.PromotionAlignedIff` | src/lex/ingest/promotion_daemon.cpp:33-43 | the promoted column marks exactly the rows that carry a string iff those rows come before all others |
| `Adaptive.AdaptiveIngester.AppendWalEntry` | src/lex/ingest/adaptive_ingester.cpp:158-169 | the log gains the serialised batch, or stays as it was when it cannot be opened |
| `Adaptive.AdaptiveIngester.TruncateWal` | src/lex/ingest/adaptive_ingester.cpp:171-174 | the whole log is cleared |
| `Adaptive.AdaptiveIngester.RecoverFromWal` | src/lex/ingest/adaptive_ingester.cpp:176-189 | recovery of the log, or nothing when it cannot be opened |
| `Wal.RecoverLines` | src/lex/ingest/adaptive_ingester.cpp:176-189 | the line loop computes the cleaned split of the log |
| `Wal.RecoverSerialized` | src/lex/ingest/adaptive_ingester.cpp:176-189 | recovery of newline-free lines is those lines without the empty ones and without one trailing carriage return each |
| `Wal.RecoverPieces` | src/lex/ingest/adaptive_ingester.cpp:176-189 | for any newline-free lines, recovery drops the empty ones and exactly one carriage return from each of the others, in order |
| `Wal.RecoverCRLF` | src/lex/ingest/adaptive_ingester.cpp:183-185 | a line ending in a carriage return comes back without it, whatever else it holds |
| `Wal.RecoverCutOff` | src/lex/ingest/adaptive_ingester.cpp:182-187 | a last line cut off before its newline is recovered as far as it was written |
| `Wal.WalRoundTripIff` | src/lex/ingest/adaptive_ingester.cpp:158-189 | recovery returns exactly the appended lines iff all are non-empty, newline-free and do not end in a carriage return |
| `Lines.SerializeConcat` | src/lex/ingest/adaptive_ingester.cpp:162-166 | successive appends read as one append of the concatenated batches |
| `Wal.WalCounterexample` | src/lex/ingest/adaptive_ingester.cpp:183-185 | a line that is a lone carriage return comes back empty |
| `Adaptive.AdaptiveIngester.AppendRawBatch` | src/lex/ingest/adaptive_ingester.cpp:123-131 | the batch is logged, staged raw with empty metadata, and added to the depth, whether or not the log opened |
| `Adaptive.AdaptiveIngester.TranscodeBatchNow` | src/lex/ingest/adaptive_ingester.cpp:137-156 | a staged group is replaced by its transcoding, the depth drops by its lines and the log is cleared; a null or compacted group changes nothing |
| `Staging.RunInv` | src/lex/ingest/adaptive_ingester.cpp:123-156 | in every interleaving of appends and one worker the depth is the counted, un-swapped lines plus those swapped and not yet subtracted, modulo 2^64, and the log is the serialisation of what was appended since the last truncation |
| `Staging.DepthExact` | src/lex/ingest/adaptive_ingester.cpp:129-151 | while that total fits in 64 bits the depth equals it and the subtraction does not wrap |
| `Staging.ReloadsInvisible` | src/lex/ingest/adaptive_ingester.cpp:138-139 | transcoding a compacted batch again, inserted at any point of any run, leaves the final state unchanged |
| `Staging.CompactedStays` | src/lex/ingest/adaptive_ingester.cpp:137-149 | once compacted, a batch keeps its group to the end of every run |
| `Staging.TranscodingStoresIff` | src/lex/ingest/adaptive_ingester.cpp:14-121 | a transcoding gives every line of the batch its own row, decoding to its status and latency, and the batch its dictionary, iff the batch has at most 65536 lines |
| `Staging.LogDurableIff` | src/lex/ingest/adaptive_ingester.cpp:123-131 | once everything else is committed, the next batch is durable iff it is empty, or the log opened and all its lines are loggable, although it is acknowledged either way |
| `Staging.SwapDurableIff` | src/lex/ingest/adaptive_ingester.cpp:144-149 | a swap leaves every batch whole in the log or stored line by line in its group iff the swapped batch fits in one row group |
| `Staging.SwapPossible` | src/lex/ingest/adaptive_ingester.cpp:144-149 | the worker always has a group to swap in |
| `Staging.TruncateDurableIff` | src/lex/ingest/adaptive_ingester.cpp:153-154 | clearing the log keeps that durability iff no other batch with lines is pending |
| `Staging.SerialRunsDurable` | bin/ag-lex.cpp:114-127 | when each batch is committed before the next is logged, at every intermediate step each pending batch stands whole, in order and without overlap in what recovery returns, and each committed line has its own row, decoding to its status and latency, in its group |
| `Staging.OverlappingBatchesLoseLines` | src/lex/ingest/adaptive_ingester.cpp:153-154 | a run with two acknowledged batches that ends with one of them neither transcoded nor recoverable, so not durable |
| `StreamIngest.StreamLines` | bin/ag-lex.cpp:104-130 | batches of 1000: every line lands in exactly one transcoded group and the total is the number of lines, whichever opens of the log fail; the depth ends where it was, and the log is what the successful appends and truncations leave |
| `CommitLog.LogHoldsKept` | src/lex/ingest/adaptive_ingester.cpp:158-174 | from an empty log, append-and-commit rounds leave exactly the batches whose append opened and after which no truncation did, in order |
| `StreamIngest.CommitNext` | bin/ag-lex.cpp:116-121 | append then transcode turns the next batch into the next committed group |
| `StreamIngest.BatchesCover` | bin/ag-lex.cpp:114-127 | the batches joined are the input |
| `StreamReadback.LineStored` | bin/ag-lex.cpp:114-127 | row r of group k decodes to the status, or 0, and the latency, failing that `latency_ms`, or 0, of line 1000 k + r |
| `PlanCache.PlanCache.LookupPlan` | src/lex/jit/plan_cache.cpp:7-18 | map and list stay in bijection, a hit returns the cached plan and moves its entry to the front, a miss changes nothing |
| `PlanCache.PlanCache.InsertPlan` | src/lex/jit/plan_cache.cpp:20-39 | map and list stay in bijection; a known key is replaced and moved, a new one is pushed and the last entry evicted when full |
| `PlanCache.PlanCache.FindIsMapLookup` | src/lex/jit/plan_cache.cpp:9-10 | the map lookup finds what a search of the list finds |
| `PlanCacheRuns.HoldsMostRecent` | src/lex/jit/plan_cache.cpp:7-39 | after any operations the keys held are exactly the `capacity` most recently used distinct keys, in recency order |
| `PlanCacheRuns.RecencyIsByLastUse` | src/lex/jit/plan_cache.cpp:12-13 | the recency order is the strict order of last uses |
| `PlanCacheRuns.RecencyMembers` | src/lex/jit/plan_cache.cpp:7-39 | the recency list has every used key and no other |
| `PlanCacheRuns.PlansAreCurrent` | src/lex/jit/plan_cache.cpp:20-27 | every cached plan is the last one inserted for its key |
| `PlanCacheRuns.HitsAreCounted` | src/lex/jit/plan_cache.cpp:11-11 | the hit counter of a cached plan is one plus its lookups since it entered the cache, modulo 2^32 |
| `PlanCacheRuns.LookupReturnsLastInserted` | src/lex/jit/plan_cache.cpp:7-18 | a lookup hits iff its key is among the most recent, and then returns the plan last inserted |
| `SubstringSearch.CountOccurrences` | eureka-services/aarchgate-core-grpc/src/service_impl.cpp:47-72 | the count is the largest number of pairwise non-overlapping matches, zero for an empty pattern, and the scan terminates |
| `SubstringSearch.MaximumUnique` | bin/ag-lex.cpp:56-72 | that number is unique, so both copies of the loop compute it |
| `SubstringSearch.ExactIff` | eureka-services/aarchgate-core-grpc/src/service_impl.cpp:66-67 | the matches are true occurrences on every text iff no character of the pattern follows a NUL |
| `QueryText.ParseQuery` | src/lex/dispatcher.cpp:18-105 | the in-place rewriting and word loop compute `Parsed` |
| `Text.ReplaceAll` | src/lex/dispatcher.cpp:57-63 | the replacement loop replaces occurrences left to right without overlap |
| `QueryText.Synthesize` | eureka-services/query-service/src/main/java/com/eureka/query/service/LogQLParser.java:49-71 | the builder produces `Printed`, or without targets the line filter text, or nothing |
| `QueryText.PrintedParses` | eureka-services/query-service/src/main/java/com/eureka/query/service/LogQLParser.java:49-63 | for all targets the dispatcher reads the printed query back, an absent target as 0 |
| `QueryText.ConjunctionParses` | src/lex/dispatcher.cpp:52-104 | both targets of an AND are read under every good spacing; a badly spaced status loses both targets, a badly spaced latency only its own |
| `QueryText.SpacingIff` | src/lex/dispatcher.cpp:70-100 | a single comparison with any number of spaces around its operator is read correctly iff the operator touches its field or is followed by a space, or the value is 0 |
| `QueryText.SpacingCounterexample` | src/lex/dispatcher.cpp:79-85 | `status ==5` is read as a query for status 0 |
| `QueryLaws.QueryReads` | src/lex/dispatcher.cpp:47-104 | any query built of well-spaced comparisons separated by any mix of white space, `&`, `&#124;`, `AND` and `and` is read as its last status and last latency, 0 for one that is absent |
| `QueryLaws.AmpersandParses` | src/lex/dispatcher.cpp:53-54 | `status==n&&latency>m` is read as (n, m) |
| `QueryLaws.ContainsParses` | src/lex/dispatcher.cpp:31-37 | `contains("p")` searches for p, with any white space inside the parentheses, and so does `contains(p)` |
| `QueryLaws.QuotedParses` | src/lex/dispatcher.cpp:39-42 | a quoted text is searched for without its quotes |
| `QueryLaws.ParsedIgnoresMargins` | src/lex/dispatcher.cpp:8-20 | white space of any kind around a query does not matter |
| `QueryLaws.NumericalIff` | src/lex/dispatcher.cpp:22-29 | a query is numerical iff `==`, `>` or `<` occurs in it |
| `QueryLaws.LessThanRead` | src/lex/dispatcher.cpp:88-99 | `latency < n` is numerical and is read as `latency > n` |
| `QueryLaws.PrefixedField` | src/lex/dispatcher.cpp:70-95 | a longer word that ends in the field name names the field |
| `QueryLaws.TooLargeIsSkipped` | src/lex/dispatcher.cpp:78-98 | a number beyond 64 bits leaves its target at 0 |
| `Text.StoullReads` | src/lex/dispatcher.cpp:78-98 | a number with an optional sign and any text after it: beyond 64 bits it fails, a minus sign negates modulo 2^64 |
| `Text.FindIsLeftmost` | src/lex/dispatcher.cpp:22-25 | the search finds every occurrence and returns the leftmost |
| `QueryText.ScalarSurvivesIff` | src/lex/dispatcher.cpp:20-45 | a text is searched for verbatim iff it has no comparison operator, outer blanks, surrounding quotes or `contains(...)` form |
| `LiveTail.PrintedReads` | eureka-services/query-service/src/main/java/com/eureka/query/service/RealTimeLogBroadcaster.java:31-42 | for all targets the tail subscription reads the printed query back, absent targets included |
| `LiveTail.SpelledRead` | eureka-services/query-service/src/main/java/com/eureka/query/service/RealTimeLogBroadcaster.java:32-42 | the tail reads a comparison at the front of a query under every spacing, whatever follows it, and fails on a number above the int range |
| `LiveTail.CaptureHereIff` | eureka-services/query-service/src/main/java/com/eureka/query/service/RealTimeLogBroadcaster.java:32-38 | the anchored pattern captures d iff the text is key, white space, operator, white space, d and no further digit |
| `LiveTail.CaptureIsLeftmost` | eureka-services/query-service/src/main/java/com/eureka/query/service/RealTimeLogBroadcaster.java:33-39 | the search captures at the leftmost place where the pattern matches |
| `LiveTail.CaptureNowhere` | eureka-services/query-service/src/main/java/com/eureka/query/service/RealTimeLogBroadcaster.java:33-39 | and captures nothing when it matches nowhere |
| `LiveTail.TailAliases` | eureka-services/query-service/src/main/java/com/eureka/query/service/RealTimeLogBroadcaster.java:60-61 | a status that differs from the target by a multiple of 2^32 matches in the tail |
| `LiveTail.ReadersAgreeIff` | eureka-services/query-service/src/main/java/com/eureka/query/service/RealTimeLogBroadcaster.java:54-77 | on records whose fields are missing or within the int range, the tail and the 64-bit scan of a text file agree iff a latency is given and either nothing can exceed it or a status other than 0 is given too |
| `LiveTail.AgbReadersAgreeIff` | eureka-services/aarchgate-core-grpc/src/service_impl.cpp:265-282 | on the same records the tail and the 8-bit scan of an export agree iff the latency asked for is the largest int, whether the kernel takes wide targets whole or reduces them |
| `LiveTail.ReadersDisagreeBeyond` | eureka-services/query-service/src/main/java/com/eureka/query/service/RealTimeLogBroadcaster.java:60-73 | for every printed query some record outside the int range is judged differently by the tail and the text scan |
| `PinCache.StepKeepsInv` | eureka-services/aarchgate-core-grpc/src/service_impl.cpp:103-191 | every request, recording, page lock and report keeps the invariant of every path and thread |
| `PinCache.FlagsTellTheTruth` | eureka-services/aarchgate-core-grpc/src/service_impl.cpp:103-191 | in every interleaving, with the mutex free: unfinished pin threads match `pin_in_progress` iff no thread creation for the path failed after its flag was set; never both flags; pinned iff some thread of the path succeeded |
| `PinCache.RequestStartsPin` | eureka-services/aarchgate-core-grpc/src/service_impl.cpp:103-191 | in every reachable state with the mutex free, a pinning request for an `.agb` file starts one thread for it iff it is cached and neither pinned nor being pinned, or not cached and mappable; no other path is affected |
| `PinCache.MappedIsCached` | eureka-services/aarchgate-core-grpc/src/service_impl.cpp:97-98 | a mappable `.agb` file is cached after its request, with its region and pin flag; a file of another kind changes nothing |
| `PinCache.PlainRequestStartsNothing` | eureka-services/aarchgate-core-grpc/src/service_impl.cpp:108-108 | a request without pinning starts no thread and changes no entry |
| `PinCache.PinReachable` | eureka-services/aarchgate-core-grpc/src/service_impl.cpp:160-191 | a run that ends with the file pinned |
| `PinCache.LatePinReachable` | eureka-services/aarchgate-core-grpc/src/service_impl.cpp:108-132 | a run in which a file mapped without pinning is pinned by a later request |
| `PinCache.AbandonedOnlyByFailure` | eureka-services/aarchgate-core-grpc/src/service_impl.cpp:108-111 | only a failed thread creation for the path breaks that match |
| `PinCache.AbandonedReachable` | eureka-services/aarchgate-core-grpc/src/service_impl.cpp:103-191 | a run in which a cached path is left flagged with no pin thread |
| `PinCache.AbandonedForGood` | eureka-services/aarchgate-core-grpc/src/service_impl.cpp:108-111 | a path whose thread creation failed is never pinned afterwards |
| `PinCache.OnePinThreadPerPath` | eureka-services/aarchgate-core-grpc/src/service_impl.cpp:108-111 | two unfinished pin threads never share a path |
| `PinCache.PinsTheCachedRegion` | eureka-services/aarchgate-core-grpc/src/service_impl.cpp:106-116 | each pin thread locks exactly the region cached for its path |
| `PinCache.CachePersists` | eureka-services/aarchgate-core-grpc/src/service_impl.cpp:119-122 | cached addresses and sizes never change, entries never disappear, pinned never reverts |

## Left out

- The apex JIT engine, its parallel execution, simdjson, Jackson and the MurmurHash arithmetic: used through the contracts above.
- `mmap`, `mlock`, file descriptors, thread priorities and all printing: reduced to success or failure parameters.
- gRPC, Spring, Kafka and WebSocket wiring, the Loki controller, the simulator and deployment files.
- `KafkaConsumerManager` and `ScratchStorageService`: not modelled.
- The LogQL extraction patterns that produce the two targets and the filter text, and the line-filter part of the live tail.
- The heat score of the promotion daemon and its registry, floating point and one branch.
- The INT64 and DOUBLE zone maps, which nothing writes, and the copies by move, reference counts and cold frames of a row group.
- An exception while parsing one ingested line: the parse is a total function from a line to its fields.
- Several transcoding workers on one group, or several ingesters on one log file: the code has no protocol for them.
- Zone maps and filters are values inside the row group rather than objects of their own; nothing shares them.
- The 64-bit match counters of the query and the record counters do not wrap in the model.
- The early returns of the query on an empty path, an unreadable file or a stream that does not start, which all return 0.
- The read one past the end of the mapping that the materialisation loop makes on a last line without a newline.
- Promotion.PromotionDaemon.ExecuteCompactionPromotion: the promotions that write outside the plane array, which `InBoundsIff` singles out, have no defined result.
- A plan cache of capacity 0, which pops an empty list.
- `front()` and `back()` of an empty query string, which the dispatcher calls: read as not being a quote.
- Canonicalisation of cached paths: the model's paths are canonical.
- Row groups that the stream ingester builds are dropped by the program; `StreamLines` returns them as ghost values to state what they held.
- What the compiled kernel does with a target wider than its 8-bit fields: the counts take it whole, `AgbReadersAgreeIff` covers it whole and reduced to 8 bits.
- Record fields that are not unsigned integers, in the comparison of the live tail with the scan.
- Reconstruct.ReconstructQuery: the text is one document per line, each starting its line, as the generated files are.
