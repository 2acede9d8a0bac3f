# Verification model of Tonggeret

A Dafny 4.11 model of Tonggeret's metric pipeline, with proofs of what it promises. `dafny verify dfyconfig.toml`
checks all of it.

## What is modelled

**Storage pipeline** (`src/engine.rs`, `src/storage/fjall_engine.rs`, `src/storage/parquet_exporter.rs`)

- `Bytes`, `KeyCodec`, `Samples`, `Names`, `Labels`: byte strings in lexicographic order, the composite key and its total
  decoder, payloads and export rows, and the sanitisers.
- `HotStore`, `Writer`: the partition as a map scanned in ascending order, and the writer thread's nested loops.
- `Chunking`, `Compaction`, `PassLaws`: one compaction pass with its batch object and every fault it can meet; what the pass
  publishes, removes, leaves behind and holds in memory. `ExportLaws`: when a pass, successful or not, keeps every expired row and
  every earlier export. `ColdFiles`: which export a reader is then served.
- `Delivery`: many passes with errors and crashes, once in the order of the code and once in the documented order.
  `Refinement`: every outcome of a pass of `Compaction` is a run of the step machine of `Delivery`.
- `Engine`, `Ingest`: `record` and the sentinel loop as methods of an object, and the full interleaving of producers, channel,
  writer and `shutdown`.
- `Backend`, `Pipeline`, `Bags`, `Items`: the writer's inserts and the compactor's steps on one shared store, joined with `Ingest`; the
  ledger of samples over every interleaving, with the exact losses by reused keys and replaced exports.

**Visitors** (`src/visitors.rs`): `Regions`, `Sketch`, `Estimate`, `Visitors`, `VisitorLaws` — region codes, the HyperLogLog
registers, the estimator over exact reals, the tracker object, and what it keeps over every history of calls.

**Collectors** (`src/prometheus.rs`): `Collectors` — concurrent creation of collectors under three locks and one registry.

Inputs from outside are parameters: the clock (timestamps, cutoff, file stamps), the hash of a visitor key, the logarithm
(assumed only to lie between `1 - 1/x` and `x - 1`, and where said so to turn products into sums), failures of the store and of the file system, lock contention, and the moments at
which `try_recv` finds the channel empty. Atomics are sequentially consistent; an atomic step of one thread is one
step of the model.

## Where the code and its documentation differ

The model follows the code in each case.

- **Purge order.** `src/storage/parquet_exporter.rs:14-17` and line 183 of the repository's `README.md` promise rename-then-purge and at-least-once
  delivery. `flush` removes keys chunk by chunk (195-199) before `finalize_export` renames (113-114), so the promise is false of a failed pass:
  `PassLaws.AtLeastOnceIff` says when it holds, `ExportLaws.CloseFaultLosesARow` gives a run that loses a row, and
  `Delivery.DocumentedOrderDelivers` proves the promise for the documented order.
- **Export names** have a resolution of one second (228-232), and a rename replaces what bears the name, so the promise is false of a successful pass, too:
  `ExportLaws.OneSecondLosesARow` gives two passes of one second after which the first one's row is nowhere. `ExportLaws.PassDeliversIff` puts
  both together: a pass keeps all expired rows and earlier exports if and only if, when it succeeds, it replaces no export of other rows, and,
  when it fails, every row it wrote had its removal refused.
- **Separator.** The comment at `src/storage/fjall_engine.rs:97-99` puts `:` below the hexadecimal digits. It lies above `0`-`9`
  (`KeyCodec.SeparatorSortsBetweenDigits`); the cutoff is exact because of the fixed width.
- **Memory bound.** Lines 19-20 bound the memory of a pass by one chunk of rows and their keys. Undecodable keys are collected besides: the keys held keep to
  the rows held at every point of the scan if and only if every scanned key decodes (`PassLaws.KeysKeepToRowsIff`), and
  `PassLaws.KeysWithoutBound` gives, for every number, a store over which a pass holds that many keys and no row. Nor are they always
  removed (`PassLaws.UndecodableSurvives`, `PassLaws.UndecodableOutlives`).
- **Shutdown** says that it never blocks forever. The sentinel is tried 100 times, then the join waits without a limit while `GLOBAL` keeps the
  channel open (`Ingest.UndeliveredBlocksForever`); `Ingest.ShutdownCanBlock` gives a run that gets there, for every capacity.
- **Race with shutdown.** A `record` call that read the flag early may enqueue behind the sentinel; its sample is accepted and never
  written (`Ingest.RaceAbandons`). The ledger gives such samples their own bucket.
- **Sanitisers.** A leading digit is replaced, not prefixed as `src/types.rs:101-103` says, and label values are cut by bytes, not characters,
  which panics inside a character (`Labels.PanicsIff`, `Labels.PanickingLabel`).

## Model

| member | source | states |
|---|---|---|
| KeyCodec.OrderEmbedding | src/storage/fjall_engine.rs:91-95 | byte order of encoded keys is the order of (timestamp, sequence, name) |
| KeyCodec.KeyLayout | src/storage/fjall_engine.rs:93-95 | a key byte by byte: 16 hexadecimal digits of the timestamp, a colon, 8 of the sequence number, a colon, the name |
| KeyCodec.DigitsSpelled | src/storage/fjall_engine.rs:94 | digits are printed in lower case and read in either case; nothing else is a digit |
| KeyCodec.LeadingDigit | src/storage/fjall_engine.rs:112 | digits are read positionally |
| KeyCodec.ParsedIffSpelled | src/storage/fjall_engine.rs:112 | a timestamp field is accepted iff it is an optional `+` and digits whose number fits 64 bits, and yields that number |
| Bytes.LessIff | src/storage/fjall_engine.rs:97-99 | byte strings are ordered by the first place where they differ, or where the shorter ends |
| Bytes.Utf8IsEncoding | src/storage/fjall_engine.rs:109-111 | the byte table of valid UTF-8 accepts exactly the encodings of sequences of Unicode scalar values |
| KeyCodec.EncodeInjective | src/storage/fjall_engine.rs:93-95 | equal keys have equal timestamp, sequence and name |
| KeyCodec.CutoffExact | src/storage/fjall_engine.rs:97-103 | a key lies below the cutoff prefix if and only if its timestamp is below the cutoff |
| KeyCodec.SeparatorSortsBetweenDigits | src/storage/fjall_engine.rs:97-99 | the separator sorts above the decimal digits and below the letters, against the comment |
| KeyCodec.DecodeShape | src/storage/fjall_engine.rs:107-114 | over all byte strings, the decoder yields a time and name exactly for keys of the three-field shape |
| KeyCodec.KeyRoundTrip | src/storage/fjall_engine.rs:93-114 | decoding an encoded key gives timestamp and name back, with any separators in the name |
| KeyCodec.DecoderAcceptsOtherSpellings | src/storage/fjall_engine.rs:107-114 | distinct keys may decode alike, so the decoder is not injective |
| Names.SanitizeMetricName | src/types.rs:105-120 | the loop keeps each allowed character, replaces every other, and names the empty text `_unnamed` |
| Names.SanitizedIsName | src/types.rs:101-120 | the result is in the exposition grammar; exactly names of the grammar are fixed; idempotent |
| Names.SanitizedByCharacter | src/types.rs:105-120 | each character that the grammar allows at its place is kept, any other becomes `_`; the empty name becomes `_unnamed` |
| Labels.SanitizedAreClean | src/types.rs:122-150 | at most 16 pairs; keys are names of at most 128 characters, values valid UTF-8 of at most 256 bytes |
| Labels.CleanLabelsFixed | src/types.rs:126-150 | labels within these bounds pass through unchanged |
| Labels.SanitizeLabelsIdempotent | src/types.rs:126-150 | sanitising twice is sanitising once |
| Labels.WhatHappensToALabel | src/types.rs:133-147 | a label is dropped iff its key is blank, and panics iff it has a key and byte 256 of the value continues a character; a kept one has the first 128 characters of its sanitised key and the first 256 bytes of its value |
| Labels.TrimTakesPadding | src/types.rs:134 | keys lose the white space around them and nothing else |
| Labels.SanitizedInOrder | src/types.rs:131-150 | the first 16 labels with a key come out, and no fewer: each at the place given by the keys before it |
| Labels.SanitizedComesFrom | src/types.rs:131-150 | every label that comes out is one of those |
| Labels.PanicsIff | src/types.rs:131-150 | the whole list panics iff such a label comes with fewer than 16 keys before it |
| Labels.PanickingLabel | src/types.rs:142-144 | a valid value of 257 bytes on which it panics, under any key that is not blank |
| Labels.EntryKeepsItsName | src/types.rs:76-89 | an entry built under any name decodes from its key under its sanitised name |
| Labels.EntryKeepsLabels | src/types.rs:76-89 | the labels of an entry are the sanitised ones, in order |
| Samples.LastLabelWins | src/storage/fjall_engine.rs:119-123 | the stored label object holds each key once, with its last value |
| Samples.StoredObject | src/storage/fjall_engine.rs:118-131 | a payload has the fields `value`, `metric_type` and `labels`; the type is the text `counter`, `gauge` or `histogram` of the entry's type; the value is a number iff it is finite |
| Samples.TypesSpelled | src/types.rs:27-33 | the three types as the source spells them |
| Samples.MicrosKeepTime | src/storage/fjall_engine.rs:135-140 | capture order is never reversed, and the micros are below a positive cutoff iff the capture time is, saturation included |
| Samples.ValueRoundTrip | src/storage/parquet_exporter.rs:238-262 | a decoded payload has the type and labels stored, and the value unless it is not finite |
| Samples.DecodedFields | src/storage/parquet_exporter.rs:238-262 | over all payloads, each field is read on its own, and only a missing or mistyped one takes its default |
| Samples.RowOfStoredEntry | src/storage/parquet_exporter.rs:92-105 | a written sample decodes to an export row with its own name, labels and type, as the text `counter`, `gauge` or `histogram`; the time saturates at the signed 64-bit range |
| Samples.RowOfItem | src/storage/parquet_exporter.rs:94-105 | the row of any item has time and name of its key, and each field of its payload that has the right type |
| HotStore.ScanExists | src/storage/parquet_exporter.rs:92 | every store and bound has an ascending scan of the range |
| HotStore.ScanUnique | src/storage/parquet_exporter.rs:92 | it has only one, so the store and the bound determine a pass |
| Writer.FlushBatch | src/storage/fjall_engine.rs:189-198 | inserts the batch one entry after the other, with the wrapped running sequence number |
| Writer.Drain | src/storage/fjall_engine.rs:172-183 | fills a burst of at most `batch_rows` in arrival order, and stops at the sentinel or an empty channel |
| Writer.AheadIsAll | src/storage/fjall_engine.rs:158-185 | what is to be inserted is each message before the first sentinel, at its own position |
| Writer.BehindIsRest | src/storage/fjall_engine.rs:158-185 | what stays unread is what follows the first sentinel |
| Writer.WriterLoop | src/storage/fjall_engine.rs:149-187 | for every burst size and timing, the store and `seq` end as if each metric ahead of the sentinel had been inserted alone, in order; nothing behind it is consumed; no burst exceeds `batch_rows` |
| Writer.RunWriter | src/storage/fjall_engine.rs:149-198 | with the writer's own encoder: every metric received ahead of the sentinel is stored under its time, position and name (up to 2^32, none refused) |
| Writer.EveryMetricIsStored | src/storage/fjall_engine.rs:149-198 | such a metric is in the final store with its payload, and its key decodes to its time and name |
| Writer.KeysCollide | src/storage/fjall_engine.rs:189-198 | two inserts of a run share a key iff they share time and name and lie a multiple of 2^32 apart |
| Writer.ConsecutiveKeysDistinct | src/storage/fjall_engine.rs:189-198 | any 2^32 consecutive inserts have distinct keys |
| Writer.LastInsertWins | src/storage/fjall_engine.rs:189-198 | after a run, a key holds what its last successful insert stored |
| Writer.UnwrittenKeyKept | src/storage/fjall_engine.rs:189-198 | a key that no insert wrote keeps its content or absence |
| Writer.InsertedLookup | src/storage/fjall_engine.rs:189-198 | one of the two applies to every key |
| Writer.EveryInsertSurvives | src/storage/fjall_engine.rs:189-198 | up to 2^32 inserts, none refused: each is in the store with its payload, and decodes to its time and name |
| Compaction.PendingBatch.Push | src/storage/parquet_exporter.rs:148-164 | one row and its key join the batch; the time column saturates |
| Compaction.PendingBatch.Flush | src/storage/parquet_exporter.rs:168-201 | writes the rows, then removes their keys and the undecodable ones gathered with them; a batch without rows forgets its keys; a failed write removes none |
| Compaction.FinalizeExport | src/storage/parquet_exporter.rs:224-235 | success moves the whole export to its final name, over whatever bears it; failure leaves every other file alone |
| Compaction.RunCompactionOnce | src/storage/parquet_exporter.rs:78-120 | for every fault: a successful pass publishes the filter of the scan and returns its size; a failed one publishes nothing; the keys removed are exactly those swept up to the last chunk written |
| Chunking.ReachIff | src/storage/parquet_exporter.rs:108-110 | an item is swept with the first m rows iff fewer than m rows precede it |
| PassLaws.ScanIsExpiredSet | src/storage/parquet_exporter.rs:83-98 | among keys of the writer, the scan is exactly the expired ones, and they all decode |
| PassLaws.ScanIsByCaptureTime | src/storage/parquet_exporter.rs:81-92 | a stored observation is scanned iff it was captured before the cutoff |
| PassLaws.RowAt | src/storage/parquet_exporter.rs:92-111 | the row of each decodable scanned key stands at the place given by the rows before it: scan order, each once |
| PassLaws.RowFrom | src/storage/parquet_exporter.rs:92-111 | every published row comes from a scanned key |
| PassLaws.AboveBoundUntouched | src/storage/parquet_exporter.rs:92 | keys at or above the cutoff keep their payload, whatever happens to the pass |
| PassLaws.UndecodableSurvives | src/storage/parquet_exporter.rs:95-111 | an undecodable key survives a successful pass iff no decodable key follows it and those before it fill whole chunks (or its removal is refused) |
| PassLaws.ChunkSizeInvisible | src/storage/parquet_exporter.rs:44-111 | count and decodable keys left do not depend on `ROWS_PER_BATCH` |
| PassLaws.FailsIff | src/storage/parquet_exporter.rs:92-117 | which errors fail a pass: of the iterator at a scanned item, on writing a chunk that is due, on opening, closing or renaming when a decodable key is expired |
| PassLaws.WrittenBeforeFault | src/storage/parquet_exporter.rs:107-117 | the rows a failed pass wrote: whole chunks before the fault, all if it was met after the scan |
| PassLaws.FailedPassRemovesUndecodable | src/storage/parquet_exporter.rs:95-98 | which undecodable keys a failed pass removes, exactly |
| PassLaws.FailedPassLoses | src/storage/parquet_exporter.rs:107-117 | the expired rows a failed pass loses are exactly those in chunks already written whose removal went through |
| PassLaws.AtLeastOnceIff | src/storage/parquet_exporter.rs:107-117 | a failed pass keeps every expired row iff the removal of every row it wrote was refused; without refusals, iff it fails before its first chunk is written |
| PassLaws.KeysHeld | src/storage/parquet_exporter.rs:122-130 | the keys waiting for removal include those of the buffered rows, and are just those iff they all decode |
| PassLaws.RunningHolds | src/storage/parquet_exporter.rs:92-111 | the batch object of a running pass holds the rows and keys that `KeysKeepToRowsIff` speaks of |
| PassLaws.KeysKeepToRowsIff | src/storage/parquet_exporter.rs:19-20 | rows held are always below the chunk size; keys held equal rows held at every point of the scan iff every scanned key decodes |
| PassLaws.KeysWithoutBound | src/storage/parquet_exporter.rs:95-98 | for every number there is a store over which a pass holds that many keys and no row |
| PassLaws.UndecodableOutlives | src/storage/parquet_exporter.rs:168-176 | an undecodable key that a successful pass leaves, for every chunk size |
| ExportLaws.EarlierExportKeptIff | src/storage/parquet_exporter.rs:224-235 | an earlier export is unchanged iff no successful pass gave its name to other rows |
| ExportLaws.EarlierStampKept | src/storage/parquet_exporter.rs:228-232 | in terms of the clock: iff it was not stamped in the second in which the pass ends |
| ExportLaws.EarlierRowKeptIff | src/storage/parquet_exporter.rs:224-235 | an exported row stays exported iff its only copies were not in a replaced file |
| ExportLaws.PassDeliversIff | src/storage/parquet_exporter.rs:13-17 | a pass keeps all expired rows and earlier exports iff: on success it replaces no export of other rows; on failure the removal of every row it wrote was refused |
| ExportLaws.OneSecondLosesARow | src/storage/parquet_exporter.rs:228-232 | two successful passes of one second, for any two expired observations of different names: the first one's row is then in no export, and the store is empty |
| ExportLaws.CloseFaultLosesARow | src/storage/parquet_exporter.rs:113-117 | one expired sample and a failing close: the key is gone and no export holds any row it did not hold before |
| ColdFiles.LatestIsGreatest | src/storage/parquet_exporter.rs:64-75 | the file served is the greatest eligible name, and there is one iff some name is eligible |
| ColdFiles.TempIsHidden | src/storage/parquet_exporter.rs:209-212 | a temporary file is never served |
| ColdFiles.EligibleIff | src/storage/parquet_exporter.rs:69-73 | a name is eligible iff it is `metrics_cold_`, anything, and `.parquet` |
| ColdFiles.NamesSpelled | src/storage/parquet_exporter.rs:209-231 | final and temporary names as the source spells them |
| ColdFiles.StampSpelled | src/storage/parquet_exporter.rs:228 | a stamp is year, month, day, `T`, hour, minute and second, each in decimal with leading zeros |
| ColdFiles.DecSpelled | src/storage/parquet_exporter.rs:228 | a field is spelled digit by digit |
| ColdFiles.NamesSortByTime | src/storage/parquet_exporter.rs:228-231 | export names sort as their stamps in time, and coincide iff the second is the same |
| ColdFiles.ReaderSeesLatestPass | src/storage/parquet_exporter.rs:13-17 | among older exports, a pass with rows is what readers are served next; any other pass changes nothing for them |
| Delivery.LossStep | src/storage/parquet_exporter.rs:107-117 | in either order, the rows lost by each step are exactly the written, unpublished, removed ones when an error or crash strikes, less the removals it undoes |
| Delivery.QuietRunLosesNothing | src/storage/parquet_exporter.rs:92-120 | without interruption the code's order loses nothing |
| Delivery.DocumentedOrderDelivers | src/storage/parquet_exporter.rs:13-17 | in the documented order every row is in the store or published, over all runs with errors and crashes |
| Delivery.CodeOrderLoses | src/storage/parquet_exporter.rs:195-199 | a run of the code's order that loses its row |
| Delivery.CopiesBounded | src/storage/parquet_exporter.rs:13-17 | a row has at most one copy more than there were interruptions and refused removals |
| Delivery.QuietRunDeliversOnce | src/storage/parquet_exporter.rs:92-120 | between passes of an undisturbed run each row is stored or published once, never both |
| Delivery.RemovedForGood | src/storage/parquet_exporter.rs:113-117 | a removal followed by a persisted end of a pass is never undone, whatever crashes come later |
| Delivery.CrashRepeats | src/storage/parquet_exporter.rs:14-17 | in the documented order, a run in which one crash publishes a row twice |
| Delivery.UndoneRemovalRepeats | src/storage/parquet_exporter.rs:113-117 | in the order of the code, one in which a crash undoes a removal not yet persisted and the row is published twice |
| Refinement.PassIsDeliveryRun | src/storage/parquet_exporter.rs:78-120 | whatever its fault, a pass is a run of the step machine in the code's order, between idle states that show the store before and after; it publishes the scanned rows or counts as an interruption |
| Engine.EngineHandle.Record | src/engine.rs:90-107 | an uninterrupted call has the effect of its protocol steps |
| Engine.EngineHandle.DeliverSentinel | src/engine.rs:240-251 | for whatever others do in the sleeps: at most 100 tries, each after the first seeing what the sleep before it left; ends at the first that does not find the channel full; sent iff that one finds room |
| Engine.RecordSettles | src/engine.rs:90-107 | an uninterrupted call is ignored, accepted at the end of the channel, or counted as dropped: exactly one |
| Engine.RecordKeeps | src/engine.rs:90-107 | such a call keeps every invariant of the protocol |
| Ingest.InvRun | src/engine.rs:90-113 | in every interleaving: accepted samples are inserted, batched, queued, abandoned, in that order; calls past the flag are accepted, dropped or in flight; batch and channel stay within bounds |
| Ingest.Drained | src/storage/fjall_engine.rs:158-187 | when the writer has left, it inserted exactly the samples accepted before the sentinel; the rest is abandoned and comes from racing calls |
| Ingest.RacersPassedBefore | src/engine.rs:91-93 | in every run, each abandoned sample comes from a call that was past the flag check and not yet accepted at the `shutdown` that set the flag; no call passes the check later |
| Ingest.MeasureStep | src/storage/fjall_engine.rs:158-187 | after delivery each writer step lowers a measure no other step changes |
| Ingest.NeverStuck | src/storage/fjall_engine.rs:158-187 | until it has left, the writer can take a step after delivery |
| Ingest.WriterTerminates | src/storage/fjall_engine.rs:158-187 | after delivery the writer takes at most the measure's worth of steps |
| Ingest.JoinNeedsSentinel | src/engine.rs:253-257 | `shutdown` returns only if the sentinel was delivered and the writer has left |
| Ingest.UndeliveredBlocksForever | src/engine.rs:240-257 | an undelivered sentinel keeps the writer and the join waiting for ever |
| Ingest.UndeliveredMeansFull | src/engine.rs:241-250 | an undelivered sentinel means 100 earlier tries of the run, each of which found the channel full |
| Ingest.ShutdownCanBlock | src/engine.rs:241-257 | for every capacity, a run that reaches the wait without a delivered sentinel |
| Ingest.RaceAbandons | src/engine.rs:90-107 | for every capacity from two, a run in which `shutdown` returns and an accepted sample is never inserted |
| Backend.InvStep | src/storage/parquet_exporter.rs:92-114 | while inserts land anywhere, buffered rows are distinct, behind the cursor and within the chunk, and still stored unless a key is reused; nothing is overwritten or replaced without a reused key or name |
| Backend.HeldStep | src/storage/parquet_exporter.rs:92-114 | store, open export, published files and the samples overwritten or replaced so far together grow by each insert and by nothing else; no assumption on keys or names |
| Backend.CompleteStep | src/storage/parquet_exporter.rs:92-111 | while inserts land anywhere, every key the range held at the start is taken or still ahead of the cursor, nothing outside the range is taken, and only whole chunks are written before the scan ends |
| Backend.KeysTrackedStep | src/storage/fjall_engine.rs:189-198 | used keys are those given; a collision is counted iff an insert reuses one |
| Pipeline.Ledger | src/engine.rs:90-107 | in every reachable state of every interleaving the six buckets and the two losses hold exactly the accepted samples and what the run started with; calls past the flag = accepted + dropped + in flight; no losses without a reused key or name |
| Pipeline.ExactlyOneBucket | src/engine.rs:90-107 | each accepted sample is in exactly one bucket or lost, once, from any start without it; in a bucket if no key or name is reused |
| Pipeline.PublishedPassIsComplete | src/storage/parquet_exporter.rs:92-114 | in every interleaving, a pass that publishes wrote every key below its bound that the store held when it began, none from the bound on, and its file holds exactly what it wrote |
| Pipeline.NoClobbers | src/storage/parquet_exporter.rs:228-232 | no export is replaced in a run whose passes publish under fresh names |
| Pipeline.ShutdownDelivers | src/engine.rs:232-257 | once `shutdown` has returned, each sample accepted before the sentinel is in the store, the open export or a published file (or lost by a reused key or name), each later one is abandoned and nowhere else |
| Pipeline.NoCollisions | src/storage/fjall_engine.rs:189-198 | a run from an empty store has no key collision within 2^32 inserts |
| Regions.ParseRegion | src/visitors.rs:75-90 | the first header holding a two-letter code decides |
| Regions.FirstCodeDecides | src/visitors.rs:75-90 | the region is the upper-case code of the first header that holds two letters between white space, `unknown` without one |
| Regions.SpacesListed | src/visitors.rs:298-299 | the characters that count as white space |
| Regions.UpperSpelled | src/visitors.rs:299 | upper case, letter by letter; everything else stays |
| Regions.RegionIsFixed | src/visitors.rs:298-308 | the fixed points of normalisation are exactly the two-letter codes, `unknown` and `other` |
| Regions.NormalizePadded | src/visitors.rs:298-308 | over all paddings: two letters become their upper-case code, `other` in any case stays, all else is unknown |
| Regions.NormalizeIdempotent | src/visitors.rs:298-308 | normalising twice is normalising once |
| Regions.ParsedIsRegion | src/visitors.rs:75-90 | a parsed region is one the tracker keeps as it is |
| Sketch.RhoRange | src/visitors.rs:146-155 | rho is in 1..52 or 65, so the clamp never bites |
| Sketch.SlotIsIndex | src/visitors.rs:147 | the index of a hash is i iff the hash lies in the i-th of 4096 equal slices of the 64-bit numbers |
| Sketch.RhoIff | src/visitors.rs:148-149 | rho is the place of the leading one of the lower 52 bits, 65 without one |
| Sketch.Hll.AddHash | src/visitors.rs:146-155 | the register of the hash's slice becomes the larger of itself and rho; the others stay |
| Sketch.HistoryIsSketch | src/visitors.rs:146-155 | register i is the largest rho of the distinct hashes in the i-th slice, 0 if none |
| Sketch.OnlyTheSetMatters | src/visitors.rs:146-155 | order and repetition of hashes never matter |
| Sketch.RegistersGrow | src/visitors.rs:146-155 | registers never decrease, and hold 0..52 or 65 |
| Estimate.SumBounds | src/visitors.rs:165-169 | the divisor is positive, and lies between the empty registers and those plus half the others |
| Estimate.SumAppend | src/visitors.rs:165-177 | the divisor and the empty registers add up over parts |
| Estimate.RoundedTo | src/visitors.rs:203-205 | rounding is to the nearest integer, halves away from zero, saturated to 64 bits |
| Estimate.LinearIff | src/visitors.rs:170-181 | linear counting is used iff some register is empty and the raw value is at most 10240 |
| Estimate.LinearEstimate | src/visitors.rs:178-180 | it then yields 4096 * ln(4096 / empty), rounded |
| Estimate.RawEstimate | src/visitors.rs:168-183 | else the raw formula with its constants, rounded |
| Estimate.ExactSmallCounts | src/visitors.rs:164-184 | up to 45 touched registers the estimate is exactly their number |
| Estimate.AtLeastTouched | src/visitors.rs:164-184 | the estimate is at least the number of touched registers, in all branches |
| Estimate.ZeroIffUntouched | src/visitors.rs:164-184 | the estimate is 0 iff nothing was added |
| Estimate.UniformRegisters | src/visitors.rs:164-184 | with every register at r (1 to 52) the estimate is alpha * m * 2^r, to the nearest integer |
| Estimate.RawMonotone | src/visitors.rs:164-184 | in the raw range the estimate never falls as registers grow |
| Estimate.LinearMonotone | src/visitors.rs:164-184 | nor in the linear range, for a logarithm that turns products into sums |
| Estimate.SwitchCanFall | src/visitors.rs:170-181 | across the switch it can: two register arrays, one above the other, with the lower estimate |
| Visitors.VisitorsTracker.Observe | src/visitors.rs:241-258 | counts the visit always; folds the hash into the bucket of the normalised region unless the lock is contended |
| Visitors.VisitorsTracker.Estimate | src/visitors.rs:262-267 | the estimate of the normalised region's own bucket; 0 without one, or when contended |
| Visitors.VisitorsTracker.Exported | src/visitors.rs:273-290 | the loop over the map emits one gauge per region with its estimate, in any order |
| Visitors.VisitorsTracker.Snapshot | src/visitors.rs:273-290 | those gauges are appended and their number returned; nothing when contended |
| VisitorLaws.RunIsCapped | src/visitors.rs:216-258 | after any history keys are regions, at most `max_regions` of them other than `other`, at most one more in all |
| VisitorLaws.KeysAreFixed | src/visitors.rs:298-308 | normalisation fixes every stored key |
| VisitorLaws.RunKeeps | src/visitors.rs:249-256 | up to the cap the keys are exactly the regions seen; beyond it `other` exists and the tracker is full |
| VisitorLaws.BucketIsForLife | src/visitors.rs:249-256 | the first uncontended call of a region fixes its bucket for the rest of the run |
| VisitorLaws.AssignedByRank | src/visitors.rs:249-256 | a region gets its own bucket iff fewer regions than the cap were seen before its first uncontended call; else it goes to `other` |
| VisitorLaws.OverflowIsForLife | src/visitors.rs:249-256 | a region sent to `other` never gets its own bucket; one that has its own keeps it |
| VisitorLaws.HeldIffAssigned | src/visitors.rs:249-256 | a region is a key iff it was used and assigned its own bucket |
| VisitorLaws.BucketIsSketch | src/visitors.rs:241-258 | each bucket is the sketch of exactly the hashes of uncontended calls assigned to it, and exists iff there is one |
| VisitorLaws.EstimateOfHistory | src/visitors.rs:262-267 | after any history, a region's estimate is exact up to 45 distinct top 12 bits of its visitors' hashes, never below their number, 0 iff it has none; and 0 when contended |
| Collectors.InvRun | src/prometheus.rs:134-243 | lock ownership, map and registry agree in every interleaving of creation steps |
| Collectors.OneCollectorPerName | src/prometheus.rs:134-243 | each name has at most one collector across the three maps |
| Collectors.CallersAgree | src/prometheus.rs:134-243 | all calls that return a collector for a name, at any time, are of one kind and return the same one |
| Collectors.RefusedForLife | src/prometheus.rs:161-166 | a name refused to a kind is never given to it |
| Collectors.OneKindIsServed | src/prometheus.rs:161-169 | a name asked for by one kind only is never refused by the registry |
| Collectors.StoredIsReturned | src/prometheus.rs:136-154 | a look or a recheck that finds the slot stored returns exactly the collector stored for it |
| Collectors.LookIsEnabled | src/prometheus.rs:136 | a call can look iff no call holds the write lock of its map |
| Collectors.InvalidByDefinition | src/prometheus.rs:157-164 | a call ends invalid only by its own refused definition |
| Collectors.RefusedByRegistry | src/prometheus.rs:165-168 | a call ends refused only by its own registration of a name then in the registry |
| Collectors.FinishedIsServed | src/prometheus.rs:134-243 | a finished call for a name asked for by one kind only, its definition not refused, returns the collector stored for it |
| Collectors.RegistryIsDisjointUnion | src/prometheus.rs:134-243 | the registry holds exactly the drop counter, the stored names and the registrations under way, once each |
| Collectors.WorkStep | src/prometheus.rs:134-243 | each step of a call begun uses up work, so calls return |
| Collectors.NeverStuck | src/prometheus.rs:134-243 | no deadlock: while a call is unfinished, one of them can move |

## Left out

- Ingest.InvRun: the protocol of `record`, writer and `shutdown` is a step relation over values, because its threads interleave; `Engine` and `Writer` give the same code as objects with one call running by itself.
- Pipeline.Ledger: store operations succeed and nothing crashes in these runs; errors and crashes are in `Delivery`, `PassLaws` and `ExportLaws`.
- Pipeline.NoCollisions: sequence numbers restart at 0 in a new process, so its keys may meet those of an earlier one; the proof starts from an empty store.
- Ingest.WriterTerminates: bounds the writer's steps; that the scheduler runs the thread is assumed.
- Compaction.RunCompactionOnce: no insert lands in the scanned range during the pass; `Backend` covers concurrent inserts, with faults left out there. What a failed pass leaves in its temporary file is not stated.
- Delivery.DocumentedOrderDelivers: keys are not reused and export names do not clash in these runs; what a clash costs is in `ExportLaws` and `Pipeline`.
- Refinement.PassIsDeliveryRun: of the decodable items; undecodable ones are not part of `Delivery`.
- Labels.EntryKeepsItsName: the timestamp is a parameter; label values reach the JSON payload as they are.
- Samples.ValueRoundTrip: a finite value is its exact real; float text in JSON and nested label values are opaque.
- Estimate.ExactSmallCounts: exact reals, without floating-point rounding; the statistical error is not stated.
- ColdFiles.NamesSortByTime: years up to 9999, the four digits of the stamp.
- Collectors.OneKindIsServed: only these functions register; a collector registered through `registry()` may take a name. A poisoned lock (returns `None`) is left out, and looking up under the read lock is one step.
- The module documentation of `src/prometheus.rs` promises to reject inconsistent label keys; `label_names_match` and its siblings always accept (247-277), so there is nothing to prove.
- Wrap-around of the 64-bit counters `dropped_total` and `moved`.
- Configurations without a hot store, where `record` only updates collectors, and `shutdown` called before `init` stored the writer's join handle, or twice.
- Several compaction loops at once, which repeated `spawn_compaction_task` calls would start; timing, persistence barriers and directory creation.
- `visitor_key`, the snapshot task and the process-global tracker: easy members over unseen libraries.
- Reading `MetricType` back from text, configuration defaults and validation, middleware, HTTP handlers and rendering.
- Internals of Fjall, Arrow, Parquet, `serde_json`, chrono and the `prometheus` crate.
