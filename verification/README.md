# Verified model of vgi-mft

`vgi-mft` turns collected NTFS `$MFT` images into a forensic timeline. This
project models the parts of it that the repository itself owns and proves what
they are for:

* **the resumable scan** (`ReadMft.dfy`, `ReadMftRuns.dfy`, `Batching.dfy`,
  `ScanState.dfy`): a producer that walks many sources, hands out batches of
  rows, and can be torn down and rehydrated between any two batches;
* **the path resolver** (`Resolver.dfy`): a bounded walk over an arbitrary,
  possibly cyclic, stale or incomplete parent index;
* **record layout** (`PreScan.dfy`, `Attributes.dfy`, `Synth.dfy`,
  `SynthImage.dfy`): the byte-level attribute scan, the builder that lays
  records out and seals them with update-sequence fixups, and the image they
  are collected in;
* **decoding** (`Record.dfy`, `MftCore.dfy`): the attribute fold behind its
  bounds gate, the panic backstops, slicing, and the resolver index;
* **from built bytes to decoded records and paths** (`Reader.dfy`,
  `BuiltTree.dfy`): what the builder wrote is what the decoder lists, names and
  streams, and a built tree is the tree that is indexed;
* **two refinements** (`FullPathScalar.dfy`, `ArrowMap.dfy`): a
  fingerprint-keyed cache against the uncached function, and nested records as
  flat columns against the records;
* **inputs on which a promise fails** (`Witnesses.dfy`, `ScanWitnesses.dfy`):
  images the builder writes, a corrupt record, and scans over them.

`Common.dfy` and `Bytes.dfy` hold shared vocabulary: options and results,
sequences, little-endian fields.

## How it is modelled

Code that updates state is imperative here too: the producer, the record and
image builders and the column accumulators are classes; buffers are arrays
written in place; loops carry invariants. Each such method is proved against a
function or predicate, and the lemmas say what those mean.

A scan is described twice. `Batching.Plan` is what a scan is over: sources in
order, the number of entries in each, the rows of each entry. `AllRows` is the
plain nested pass over it and `Batches` the batches it falls into. The producer
is proved to follow its plan step by step, so everything proved of plans holds
of runs.

What an operation computes is also stated without the functions its model is
written with: in bytes, type numbers, index entries and record fields
(`PassByBytes`, `AnswersExactly`, `ScanByBytes`, `PrimaryStreamExactly`,
`StrideByBytes`, `ReadsRecord` and their neighbours).

Assumptions about code outside the repository:

* the `mft` crate is a parameter (`Record.Crate`): any deterministic functions,
  which may panic. It stamps an entry with the record number it is given, and
  `ParseRecord` does that stamping;
* where a result needs to know what the crate reads from a record, the assumption
  is `Reader.Faithful`. `ReadsHeaders`: in a 1024-byte FILE record with its fixups
  where the builder puts them, they are undone before the header is read.
  `ReadsAdded`: attributes laid down as the builder lays them down, of the three
  kinds it writes, with names and times the crate can render, are iterated one by
  one. Which names and times those are is a parameter (`Reader.Conventions`), and
  of all other bytes nothing is assumed: the crate may fail on them.
  `Reader.ReadingCrate` meets the assumption and fails on whatever it cannot read;
* the producer sees the decoder through `ReadMft.Engine`; `CoreEngine` is the
  real one, and `MftCore.BuildResolver` is the loop that computes its index;
* a file is unreadable or has one fixed content for the whole run; a load error
  is an outcome of `Produce`;
* JSON state is lossless, or does not decode (`ScanState.Token`);
* a hash is any function of the bytes it is fed; UTF-16 encoding is the units
  themselves;
* integers are unbounded; casts and field widths that cut values are written
  out, 64-bit limits are stated where arithmetic could reach them.

## What the proofs turned up

* A resume token is only as good as the batch before it. Encoding straight after
  a restore, with no batch between, forgets what was restored
  (`RestoreThenEncode`). That is harmless in a given scan if the token is at the
  start, has counted nothing and carries no index but its own source's, and in
  every scan exactly if it carries none (`ForgettingHarmlessExactly`). After a
  first batch it delivers that batch's rows twice (`FirstBatchTwice`).
* A token is trusted with its index. The tokens of a run carry their source's own
  index or none (`RunWithRestarts`, from an invariant that every step of the
  producer keeps), and such a token resumes the scan itself (`OwnTokenResumes`).
  Wherever a token stands, its index does no harm in every scan exactly if it
  carries none (`IndexHarmlessExactly`).
* `encode_resume` multiplies the cursor by 1024 when no source is open. In a
  run from the start the offset stays inside the source (`RunWithRestarts`); it leaves 64 bits after a far cursor is restored to a
  source that cannot be read (`FarCursorOverflows`).
* A source that cannot be read discards the rows already gathered in the same
  call, up to 2047 of them, and no retry brings them back (`FailedRun`,
  `DroppedRowsStayDropped`, `RowLost`). The count of rows emitted includes them
  (`RunWithRestarts`). How many are lost is the row counts of the entries before
  that source added up, starting over at every full batch (`DroppedExactly`).
* The bounds scan is documented to answer `false` on any breach. A resident
  header cut off by the end of the record makes it read out of range instead
  (`ScanExactly`); `decode_entry_safe` turns that into a diagnostic record, which
  also loses the header fields (`CutOffRecordLosesHeader`).
* The `full_path` cache can serve one image's path for another. It is safe,
  whatever parses the records, exactly when equal fingerprints mean the same
  records in use (`SafeForEveryCrateExactly`); under no hash does that hold of
  all blobs up to a length that can hold a record (`SafeOnlyBelowOneRecord`). Two images
  the builder writes, of files named a and b, are mixed up (`CacheCanBeWrong`).
  The samples cover a blob whole exactly up to 129 bytes (`SampledWholeExactly`,
  `SafeUpTo129`).
* `cycle` also means too deep. At every depth limit it is answered exactly on a
  true revisit or on a climb longer than the limit allows (`CycleExactly`); a
  file in a folder is a `cycle` under a limit of one (`CycleWithoutLoop`). Past the
  size of the index it always means a loop (`CycleMeansRevisit`).
* `MftBuilder::finish` asks for entry 0; the stride is 1024 without it too
  (`ImageGeometry`). A name of 256 UTF-16 units is written but reads back as no
  name (`NameSurvivesExactly`, `FileNameReads`).

## Model

| member | source | states |
|---|---|---|
| ReadMftRuns.RunWithRestarts | crates/mft-worker/src/table/read_mft.rs:374-464 | whichever batch boundaries the producer is encoded, discarded and restored at, the sequence of batches is that of the uninterrupted scan; it ends without an error exactly if every file among the sources is there to be read, and is then the nested pass and its number of rows; otherwise the batches and the rows dropped, fewer than 2048, are those before the first unreadable source, and the emitted count exceeds the rows delivered by the rows dropped; each token used resumes with the batches still to come, carries its source's own index or none, and a byte offset inside that source |
| ReadMftRuns.PassByBytes | crates/mft-worker/src/table/read_mft.rs:175-182 | the nested pass from the sources' bytes: for each blob its own, for each file what the disk holds there or nothing, and for each entry the rows of its record under that image's own index |
| ReadMftRuns.FilesAsBlobs | crates/mft-worker/src/table/read_mft.rs:175-182 | when the host is given, a run over files is the run over blobs of what the files hold, in rows, batches and ending |
| ReadMftRuns.FinishesIfFilesRead | crates/mft-worker/src/table/read_mft.rs:175-182 | a run finishes exactly if every file among the sources is there to be read |
| ReadMftRuns.SnapshotResumes | crates/mft-worker/src/table/read_mft.rs:376-384 | restored anywhere, such a token gives exactly the batches still to come |
| ReadMftRuns.NextBatch | crates/mft-worker/src/table/read_mft.rs:374-423 | one call yields the run's next batch, or ends it, or fails it, counting the dropped rows as emitted |
| ReadMftRuns.Drain | crates/mft-worker/src/table/read_mft.rs:374-423 | a producer driven to the end from wherever it stands, a pending resume included, yields the run from there |
| ReadMftRuns.Rehydrate | crates/mft-worker/src/table/read_mft.rs:435-464 | encode then restore into a fresh producer keeps position, count, everything left to scan, and that the index carried is the source's own; the token's byte offset is inside the source |
| ReadMftRuns.ResumeFrom | crates/mft-worker/src/table/read_mft.rs:376-384 | the whole run from any token, even from another scan: its index replaces that of its own source and no other's, and nothing from its place on is lost, repeated or reordered |
| ReadMftRuns.MalformedTokenRestarts | crates/mft-core/src/cursor.rs:84-90 | a token that does not decode is a scan from the beginning |
| ReadMftRuns.RestoreThenEncode | crates/mft-worker/src/table/read_mft.rs:435-464 | encode after restore without a batch between is the token of a new scan; place, count and index in force are those restored exactly when the restored token is at the start, has counted nothing and carries no index but its own source's |
| ReadMftRuns.AlikeFollowSamePlans | crates/mft-worker/src/table/read_mft.rs:260-263 | tokens alike in that sense lead through the same scans |
| ReadMftRuns.ForgetAfterFirstBatch | crates/mft-worker/src/table/read_mft.rs:435-464 | such a snapshot after the first batch delivers that batch and then the whole scan again |
| ScanWitnesses.FirstBatchTwice | crates/mft-worker/src/table/read_mft.rs:376-384 | over built images, with rows left to scan, 2048 rows are delivered twice |
| ScanWitnesses.ForgettingHarmlessExactly | crates/mft-worker/src/table/read_mft.rs:435-464 | replacing a token by a new scan's changes neither batches nor count, in any scan, exactly for a token at the start that has counted nothing and carries no index |
| ReadMftRuns.OwnTokenResumes | crates/mft-worker/src/table/read_mft.rs:260-263 | a token that carries its own source's index, or none, resumes the scan itself, wherever it stands |
| ScanWitnesses.IndexHarmlessExactly | crates/mft-worker/src/table/read_mft.rs:260-263 | wherever a token stands, resuming under its index gives the scan's own batches if it is the source's own, and in every scan exactly if there is none |
| ReadMft.ReadMftProducer.Produce | crates/mft-worker/src/table/read_mft.rs:374-423 | one call takes the next batch of the plan, stops where the plan stops, fails exactly on an unreadable source reached unfilled, counts its rows, and gives at least 2048 rows while sources remain; unless a foreign index was carried in, an open source's resolver is the index built of its bytes |
| ReadMft.ReadMftProducer.Turn | crates/mft-worker/src/table/read_mft.rs:387-417 | one turn of the outer loop makes progress and leaves no open source used up |
| ReadMft.ReadMftProducer.TakeSlab | crates/mft-worker/src/table/read_mft.rs:391-416 | a used-up source is left at once, any other after a slab that uses it up, on the way to the same batch |
| ReadMft.ReadMftProducer.Slab | crates/mft-worker/src/table/read_mft.rs:397-413 | the inner loop takes entries in order until the source ends or the batch is full, on the way to the same batch |
| ReadMft.ReadMftProducer.DecodeOne | crates/mft-worker/src/table/read_mft.rs:399-412 | one entry gives the plan's rows for it and counts them |
| ReadMft.ReadMftProducer.Emit | crates/mft-worker/src/table/read_mft.rs:277-368 | appends exactly the record's rows for the mode |
| ReadMft.ReadMftProducer.EnsureOpen | crates/mft-worker/src/table/read_mft.rs:250-266 | opens the current blob, or what the disk holds at the current path; fails exactly on a file that is not there; keeps a carried resolver, builds its own otherwise; false exactly when sources are exhausted |
| ReadMft.ReadMftProducer.AdvanceSource | crates/mft-worker/src/table/read_mft.rs:269-274 | the next source starts at entry 0 under its own index |
| ReadMft.ReadMftProducer.TakePending | crates/mft-worker/src/table/read_mft.rs:375-384 | applying a pending resume moves nothing |
| ReadMft.ReadMftProducer.EncodeResume | crates/mft-worker/src/table/read_mft.rs:435-460 | the state reads back as the same source, entry, count and resolver; between batches its byte offset is inside an open image, and with none open it is the cursor times 1024 |
| ScanWitnesses.FarCursorOverflows | crates/mft-worker/src/table/read_mft.rs:449-449 | a token with a far cursor, restored to an unreadable source, is encoded with a byte offset past 64 bits |
| ReadMft.ReadMftProducer.RestoreResume | crates/mft-worker/src/table/read_mft.rs:462-464 | any token becomes the pending state |
| ReadMft.FollowsNext | crates/mft-worker/src/table/read_mft.rs:269-274 | leaving a source, no index is carried into the next one |
| ReadMft.CarryingPlanFollows | crates/mft-worker/src/table/read_mft.rs:260-263 | a carried index governs the rows of its own source only |
| ReadMft.CoreEngineSound | crates/mft-core/src/lib.rs:65-74 | a built index is never empty and an image holds the records it counts |
| Batching.FillConserves | crates/mft-worker/src/table/read_mft.rs:386-422 | a batch and what is left after it are what was left before it: nothing lost, repeated or reordered |
| Batching.ScanIsTheNestedPass | crates/mft-worker/src/table/read_mft.rs:374-423 | all batches end to end are, source by source and entry by entry, each entry's rows |
| Batching.BatchesUnfold | crates/mft-worker/src/table/read_mft.rs:386-422 | an empty batch is the end of the scan; otherwise the rest follows it |
| Batching.FillProgress | crates/mft-worker/src/table/read_mft.rs:386-417 | a batch only ends full or at the last source, and rows mean the position moved |
| Batching.BatchSizes | crates/mft-worker/src/table/read_mft.rs:24-24 | every batch but the last has at least 2048 rows, none is empty, none exceeds 2047 plus the largest fan-out |
| ReadMftRuns.FilesBatchesExactlyFull | crates/mft-worker/src/table/read_mft.rs:358-366 | outside streams mode every batch but the last has exactly 2048 rows |
| Batching.FailsExactly | crates/mft-worker/src/table/read_mft.rs:257-257 | a call fails exactly when the rows before the first unreadable source do not fill its batch, and drops exactly those |
| Batching.FailedRun | crates/mft-worker/src/table/read_mft.rs:386-390 | a run with an unreadable source fails at the first one; its batches are full, and followed by the dropped rows, fewer than 2048, they are the rows before that source |
| Batching.DroppedExactly | crates/mft-worker/src/table/read_mft.rs:386-390 | in any mode, as many rows are dropped as remain when the row counts of the entries before the unreadable source are added up, starting over at every full batch |
| Batching.DroppedRemainder | crates/mft-worker/src/table/read_mft.rs:386-390 | with one row an entry, as many as are left over from full batches |
| Batching.FinishesExactly | crates/mft-worker/src/table/read_mft.rs:257-257 | a run finishes exactly when every source can be read |
| Batching.DroppedRowsStayDropped | crates/mft-worker/src/table/read_mft.rs:386-390 | after such a failure every retry fails at the same source with nothing |
| ScanWitnesses.RowLost | crates/mft-worker/src/table/read_mft.rs:386-390 | a built image before an unreadable file: nothing is delivered and the image's row is dropped |
| ReadMftRuns.AllocatedFiltersFiles | crates/mft-worker/src/table/read_mft.rs:278-280 | the allocated nested pass is the files pass filtered by `is_allocated`, and so are the rows delivered when every source can be read |
| ReadMftRuns.StreamsWidenFiles | crates/mft-worker/src/table/read_mft.rs:336-367 | the streams nested pass is the files pass with each row widened in place to one row per stream, or one if there is none, agreeing in every record-level column |
| ReadMftRuns.StreamsRunWidensFilesRun | crates/mft-worker/src/table/read_mft.rs:336-367 | and so are the rows delivered when every source can be read |
| ReadMftRuns.RowsShowStreams | crates/mft-worker/src/table/read_mft.rs:336-367 | streams rows show the streams in order, named unless primary; the files row shows the primary stream or none; an allocated record's rows are the files rows and another's are none |
| ReadMftRuns.RowsShowRecord | crates/mft-worker/src/table/read_mft.rs:281-334 | every row of a record, in any mode, shows its header, times, names and path, and carries the record's diagnostics followed by the path's |
| ReadMftRuns.RowOrigin | crates/mft-worker/src/table/read_mft.rs:238-281 | every row of a run is one entry of one source's bytes, a blob's own or the disk's at its path, under that source's host, with the path core `full_path` gives at depth 256 on those bytes alone |
| ReadMftRuns.SourcesScanAlone | crates/mft-worker/src/table/read_mft.rs:386-417 | scanning many sources is scanning each alone, in order |
| Resolver.Resolve | crates/mft-core/src/resolver.rs:37-92 | the loop computes the walk's answer |
| Resolver.AnswersExactly | crates/mft-core/src/resolver.rs:54-112 | in terms of the index alone: a climb over distinct entries, each the current parent of the one before and none the root, ends in a clean path, a `$Cycle` path or an `$Orphan` path, tested in that order, each spelled out with the names topmost first |
| Resolver.SomeClimbAnswers | crates/mft-core/src/resolver.rs:54-91 | every indexed entry but the root has such a climb |
| Resolver.UnindexedAnswer | crates/mft-core/src/resolver.rs:38-44 | an entry outside the index is answered `\$Orphan\` and its number in decimal, with `orphan-parent` |
| Resolver.RootAnswer | crates/mft-core/src/resolver.rs:46-52 | the root is answered its own name |
| Resolver.WalkDecides | crates/mft-core/src/resolver.rs:58-85 | any bounded sound walk that a check stops is the walk taken; the answer names its names and the first failing check |
| Resolver.WalkExists | crates/mft-core/src/resolver.rs:54-91 | every indexed non-root entry has such a walk |
| Resolver.CleanExactly | crates/mft-core/src/resolver.rs:58-91 | clean exactly when distinct present entries with current links reach the root within the depth; `cycle` exactly on a revisit or the depth limit |
| Resolver.DepthDecides | crates/mft-core/src/resolver.rs:66-69 | at every depth limit: a climb the limit allows is answered as without a limit, any other is cut off and called a cycle under the names first met |
| Resolver.CycleExactly | crates/mft-core/src/resolver.rs:66-69 | at every depth limit `cycle` is returned exactly when the walk comes back to an entry or the climb is longer than the limit allows |
| Resolver.CycleMeansRevisit | crates/mft-core/src/resolver.rs:66-69 | so past the size of the index it is returned exactly on a revisit |
| Resolver.CycleWithoutLoop | crates/mft-core/src/resolver.rs:66-69 | a file in a folder of the root is a `cycle` under every limit below two, and clean under any other |
| Resolver.DeeperKeepsAnswer | crates/mft-core/src/resolver.rs:67-67 | a larger depth limit changes no answer but `cycle` |
| Resolver.LargerIndexKeepsAnswer | crates/mft-core/src/resolver.rs:37-85 | a larger index changes no answer that did not rest on something missing |
| Resolver.LackingAnswerCanChange | crates/mft-core/src/resolver.rs:37-44 | and one that did becomes clean in some larger index |
| Resolver.RootNodeIrrelevant | crates/mft-core/src/resolver.rs:61-64 | the last hop to the root is never looked up |
| Resolver.PathComposes | crates/mft-core/src/resolver.rs:87-91 | a clean path is its clean parent's path, separator, own name |
| Resolver.CleanExtendsDownward | crates/mft-core/src/resolver.rs:54-85 | a sound link to a clean parent is clean exactly while the depth leaves room |
| Resolver.CleanPathSplits | crates/mft-core/src/resolver.rs:87-91 | splitting a clean path gives the walk's names, topmost first |
| Resolver.OrphanPathSplits | crates/mft-core/src/resolver.rs:94-102 | splitting an orphan path gives the sentinel, the failing entry's number and the names below it, topmost first |
| Resolver.CyclePathSplits | crates/mft-core/src/resolver.rs:104-112 | splitting a cycle path gives the sentinel and the names met, topmost first |
| PreScan.AttributesWithinBounds | crates/mft-core/src/record.rs:255-300 | accepts exactly the well-tiled chains of at most 255 attributes, faults exactly at a reachable resident header cut off by the buffer's end, within 256 steps |
| PreScan.ScanExactly | crates/mft-core/src/record.rs:255-300 | the same of the scan as a function |
| PreScan.ScanByBytes | crates/mft-core/src/record.rs:255-300 | the same byte by byte: which four bytes end a chain, how a header's bytes give the next offset and the content's end, at most 255 attributes, and where a resident header is cut off |
| Witnesses.CutOffRecordLosesHeader | crates/mft-core/src/record.rs:282-291 | a FILE record of 1024 bytes whose first attribute is a resident header twenty bytes before the end makes the scan fault, and decodes to a diagnostic without its sequence number and flags |
| Record.DecodeEntry | crates/mft-core/src/record.rs:95-221 | gate, then the fold, computes the decoded record or panics |
| Record.FoldAttributes | crates/mft-core/src/record.rs:133-197 | the loop keeps every list in order and stops at the first broken attribute |
| Record.AcceptedRecordDecodes | crates/mft-core/src/record.rs:140-197 | an accepted record shows its header and lists its attributes in chain order, its primary stream is the last unnamed `$DATA`, its alternate streams are the named ones in order |
| Record.AcceptedRecordNames | crates/mft-core/src/record.rs:170-179 | its names are those of the `$FILE_NAME` attributes in order, its standard information the last one |
| Record.PrimaryStreamExactly | crates/mft-core/src/record.rs:180-194 | by type number and raw name: the primary stream shows the sizes, residency and capped content of the last attribute of type 0x80 with no name, and there is none exactly without such an attribute |
| Record.AlternateStreamsExactly | crates/mft-core/src/record.rs:180-194 | the alternate streams show the attributes of type 0x80 with a name, in order, under that name |
| Record.FileNamesExactly | crates/mft-core/src/record.rs:175-179 | the names are those held by attributes of type 0x30, in order |
| Record.StandardInfoExactly | crates/mft-core/src/record.rs:170-174 | the standard information is that held by the last attribute of type 0x10 holding any |
| Record.AttributesListedExactly | crates/mft-core/src/record.rs:149-166 | every attribute read is listed in order with its instance, type number and name, name, residency, sizes and flags, and every header field is the record's |
| Record.AcceptedRecordDiagnostics | crates/mft-core/src/record.rs:99-104 | its diagnostics, in order: signature, fixups, the first broken attribute exactly if one broke, and an attribute list exactly if one was met before that |
| Record.PanicLosesAcceptedRecord | crates/mft-core/src/parse.rs:56-63 | an accepted record is reduced to its number and the caught-panic diagnostic exactly when iterating it panics |
| Record.LatestIsLast | crates/mft-core/src/record.rs:170-191 | an overwritten value is the last one chosen, absent exactly when none was |
| Record.CollectKeepsOrder | crates/mft-core/src/record.rs:175-193 | a pushed list is exactly what was chosen, in order |
| Record.ResidentBytes | crates/mft-core/src/record.rs:313-323 | inline bytes are the content's prefix of length min(size, cap), absent for empty or other content |
| Record.ParseRecord | crates/mft-core/src/parse.rs:28-51 | a slot is empty exactly if it is all zero or parses to a zero signature, an accepted entry carries its number, and only a panic or a parse error is bad |
| Record.GateFailureYieldsDiagnosticOnly | crates/mft-core/src/record.rs:106-131 | a refused or faulting record has no attributes, names or streams; the first keeps its header and signature diagnostics and adds `attr-overrun`, the second has the caught-panic diagnostic and no header |
| Record.PrimaryName | crates/mft-core/src/record.rs:71-79 | one of the record's names; none exactly without names |
| Record.PrimaryNameIs | crates/mft-core/src/file_name.rs:80-85 | it is the first long name, and without a long name the first of all |
| MftCore.SliceIffCounted | crates/mft-core/src/lib.rs:65-90 | entry n can be sliced exactly when it is counted, without leaving 64 bits, and is then the n-th stride |
| MftCore.SlicesTile | crates/mft-core/src/lib.rs:65-90 | the slices end to end are the image up to its last whole record |
| MftCore.RecordStride | crates/mft-core/src/lib.rs:153-163 | the stride is a multiple of 512 between 512 and 65536, other than 1024 only if a FILE header says so, and what a FILE header plausibly says |
| MftCore.StrideByBytes | crates/mft-core/src/lib.rs:153-163 | in bytes: a buffer that starts with FILE and says one to 128 times 512 at 0x1C has that stride, any other 1024 |
| MftCore.SlicesByBytes | crates/mft-core/src/lib.rs:65-90 | as many entries as whole strides fit, and entry n is the n-th of them |
| MftCore.DecodesExactly | crates/mft-core/src/lib.rs:95-110 | an entry decodes to nothing if its slot is missing, all zero or parsed to a zero signature, to a bare diagnostic if parsing panics or fails, and otherwise to its record |
| MftCore.BuildResolver | crates/mft-core/src/lib.rs:120-147 | the loop extends the given index by every named record and the root |
| MftCore.ExtendsExactly | crates/mft-core/src/lib.rs:120-147 | entry by entry: the image's named records first, then what was given, then the stand-in for the root, field by field |
| MftCore.FullPathExactly | crates/mft-core/src/lib.rs:209-221 | `full_path` is given exactly for the root and for named records, and is the resolved path in the image's index |
| MftCore.IndexExactly | crates/mft-core/src/lib.rs:120-147 | an entry is indexed exactly when it decodes to a named record or is the root, under its primary name's own link |
| MftCore.RebuildIsIdempotent | crates/mft-core/src/lib.rs:117-120 | building over an index of the same image changes nothing |
| ScanState.AdvanceMovesNextEntry | crates/mft-core/src/cursor.rs:93-104 | advancing by whole records moves the next entry, the byte offset and the count by as many and nothing else; under a record size of 0 the next entry stays 0 |
| ScanState.OffsetInverts | crates/mft-core/src/cursor.rs:93-98 | an entry's byte offset reads back as the entry and is inside the image |
| Attributes.ResidentAttr | crates/mft-core/src/synth.rs:91-115 | the pushes produce the attribute's encoding |
| Attributes.NonResidentAttr | crates/mft-core/src/synth.rs:118-158 | the pushes produce the attribute's encoding |
| Attributes.EncodedReads | crates/mft-core/src/synth.rs:91-158 | wherever an encoding lies in a record it is a sound attribute of its own length that reads back with its type, instance, name, residency, content or sizes |
| Attributes.InlineBytes | crates/mft-core/src/synth.rs:91-115 | byte by byte: type, length, flags, name size and offset, instance, content size and offset, name and content each in their place, padded to a multiple of eight |
| Attributes.InlineFill | crates/mft-core/src/synth.rs:109-113 | every other byte of it is zero |
| Attributes.SizeOnlyBytes | crates/mft-core/src/synth.rs:118-158 | byte by byte: the common header, the run fields, the physical size at 40, the logical one at 48 and 56, the name and an empty run list |
| Bytes.LittleEndian | crates/mft-core/src/synth.rs:99-100 | numbers are read with their least significant byte first |
| Attributes.NameSurvivesExactly | crates/mft-core/src/synth.rs:92-94 | a name survives exactly when it has fewer than 256 units |
| Attributes.EncodedChainReads | crates/mft-core/src/record.rs:255-300 | attributes laid end to end and terminated are stepped through in order, each reading back as itself |
| Synth.RecordBuilder.Build | crates/mft-core/src/synth.rs:347-390 | every byte is determined; after undoing fixups the record holds every header field and the scan accepts it, spelling exactly the added attributes, wherever the sector tails fall; the fixup check fails exactly when damaged |
| Synth.LaidOutExactly | crates/mft-core/src/synth.rs:348-370 | the layout is the only record with these header fields, this body and zeros elsewhere |
| Reader.BuiltHeaderBytes | crates/mft-core/src/synth.rs:348-370 | each header field of a built record at its offset, by number, once its fixups are undone |
| Synth.UndoRestores | crates/mft-core/src/synth.rs:372-388 | undoing the fixups restores every byte outside the update-sequence array, and only damage makes the check fail |
| Synth.TailsChecked | crates/mft-core/src/synth.rs:372-388 | the check compares both sector tails with the update-sequence value |
| Synth.SealedIsRecord | crates/mft-core/src/synth.rs:361-388 | a laid-out record, sealed or not, is read back whole |
| Synth.WriteHeader | crates/mft-core/src/synth.rs:350-370 | in-place writes leave each header field in its place |
| Synth.ApplyFixup | crates/mft-core/src/synth.rs:375-388 | in-place sealing saves both tails before stamping them, byte by byte, and damages the last byte alone |
| Synth.RecordBuilder.Baad | crates/mft-core/src/synth.rs:268-271 | the signature becomes BAAD |
| Synth.RecordBuilder.BadSignature | crates/mft-core/src/synth.rs:273-276 | the signature becomes JUNK |
| Synth.RecordBuilder.AdsResident | crates/mft-core/src/synth.rs:339-344 | appends one named data attribute under the next instance number |
| Synth.RecordBuilder.DataNonResident | crates/mft-core/src/synth.rs:331-336 | appends one size-only data attribute under the next instance number |
| Synth.StandardInfoReads | crates/mft-core/src/synth.rs:161-173 | the times, flags and USN read back at their offsets |
| Synth.FileNameReads | crates/mft-core/src/synth.rs:177-199 | the parent reference, times, sizes, flags and namespace read back at their offsets, and the name as far as its one-byte count reaches, whole exactly below 256 units |
| Synth.ParentReferenceReads | crates/mft-core/src/synth.rs:188-188 | the reference splits into the entry's low 48 bits and the sequence |
| SynthImage.MftBuilder.Add | crates/mft-core/src/synth.rs:413-416 | appends the built record under its number |
| SynthImage.MftBuilder.Finish | crates/mft-core/src/synth.rs:421-430 | each slot holds the record last added under its number, or zeros |
| SynthImage.ImageEndsAtHighest | crates/mft-core/src/synth.rs:423-424 | the image ends with the highest number added |
| SynthImage.SlotsByRecords | crates/mft-core/src/synth.rs:425-428 | slot n is the record added under n with none added there later, and zeros if none was |
| SynthImage.SortIsStable | crates/mft-core/src/synth.rs:422-422 | sorting is a permutation that orders by number and keeps added order within one number |
| SynthImage.ImageGeometry | crates/mft-core/src/lib.rs:153-163 | whatever was added, the stride is 1024 and the count reaches the highest number |
| SynthImage.SlicesAreSlots | crates/mft-core/src/lib.rs:85-90 | slicing gives the record last added, zeros for a gap, nothing past the highest |
| SynthImage.EmptyExactlyIfNeverAdded | crates/mft-core/src/parse.rs:29-32 | a slot is empty exactly when nothing was added under its number |
| SynthImage.NeverAddedDecodesToNothing | crates/mft-core/src/lib.rs:95-110 | a gap decodes to nothing |
| Reader.ReadingCrateFaithful | crates/mft-core/src/record.rs:140-147 | what is assumed of the crate can be met by one that fails on truncated headers and on names and times it cannot render |
| Reader.BuiltRecordDecodes | crates/mft-core/src/record.rs:95-221 | a built FILE record of names and times the crate can render decodes to its own header and fixup check, one listed attribute for each one added and in that order, and no diagnostic unless it was damaged |
| Reader.BuiltRecordStreams | crates/mft-core/src/record.rs:180-193 | its primary stream is the last unnamed data attribute added, its alternate streams the named ones in the order added |
| Reader.BuiltRecordNames | crates/mft-core/src/record.rs:170-179 | its names are the file-name attributes in the order added, its standard information the last one added |
| Reader.ListedAsAdded | crates/mft-core/src/record.rs:149-166 | an added attribute is listed under its type, instance, surviving name, residency and sizes |
| Reader.StreamAsAdded | crates/mft-core/src/record.rs:180-193 | an added data attribute is primary or alternate by its surviving name, with its content up to the cap or its sizes alone |
| Reader.StandardInfoAsAdded | crates/mft-core/src/synth.rs:161-173 | an added standard-information attribute gives back its times, attribute bits and USN, and is readable exactly if its times are |
| Reader.FileNameAsAdded | crates/mft-core/src/synth.rs:177-199 | an added file-name attribute gives back its parent, sequence, times, sizes, namespace and name, and is readable exactly if its times and stored name are |
| SynthImage.BuiltImageDecodes | crates/mft-core/src/lib.rs:95-110 | the slot of a built record decodes to that record under the slot's number |
| BuiltTree.BuiltIndex | crates/mft-core/src/lib.rs:120-147 | the index of any built image is the tree described to the builder: each record under its primary name and that name's parent, nothing else but the root |
| BuiltTree.BuiltPath | crates/mft-core/src/lib.rs:209-221 | and `full_path` on it is the path that tree gives, the names from the root down where folders lead there |
| Witnesses.OneFileIsTree | crates/mft-core/src/synth.rs:412-430 | the one-file images are such trees |
| Witnesses.BuildOneFile | crates/mft-core/src/synth.rs:347-430 | the one-file images are what the builder writes |
| Witnesses.OneFileDecodes | crates/mft-core/src/lib.rs:95-110 | and decode to that one file name |
| FullPathScalar.Process | crates/mft-worker/src/scalar/full_path.rs:87-125 | the cached loop answers each row from the blob that began its run of equal fingerprints |
| FullPathScalar.AnswersFromRunStart | crates/mft-worker/src/scalar/full_path.rs:99-125 | a row without blob or entry is NULL; any other is answered at depth 256 from the blob of the row that began its run of equal fingerprints, NULL if that index lacks the entry |
| FullPathScalar.OwnerShares | crates/mft-worker/src/scalar/full_path.rs:102-114 | that blob is at or before the row and has the row's fingerprint |
| FullPathScalar.CacheAgreesExactly | crates/mft-worker/src/scalar/full_path.rs:93-114 | for one way of indexing, the cache agrees with the uncached function on every batch over some blobs exactly when equal fingerprints among them never hide different paths |
| FullPathScalar.SafeExactly | crates/mft-worker/src/scalar/full_path.rs:93-114 | in bytes: it is safe over some blobs, however they are indexed, exactly when equal fingerprints among them mean equal blobs |
| FullPathScalar.SafeForEveryCrateExactly | crates/mft-worker/src/scalar/full_path.rs:93-114 | in records: it is safe over some blobs, whatever parses their records, exactly when equal fingerprints among them mean the same records in use |
| FullPathScalar.SafeOnlyBelowOneRecord | crates/mft-worker/src/scalar/full_path.rs:93-114 | under any hash it is safe for all blobs up to a length exactly if that length is too short for a record |
| FullPathScalar.SafeUpTo129 | crates/mft-worker/src/scalar/full_path.rs:20-32 | over arbitrary indexes no hash is safe past 129 bytes, and one without collisions is safe up to there |
| FullPathScalar.PathInIsFullPath | crates/mft-core/src/lib.rs:209-221 | the uncached answer is core `full_path` at depth 256 |
| FullPathScalar.ShortBlobsAreSampledWhole | crates/mft-worker/src/scalar/full_path.rs:20-32 | blobs of at most 129 bytes with equal samples are equal |
| FullPathScalar.OneByteSeenExactly | crates/mft-worker/src/scalar/full_path.rs:20-32 | changing one byte changes the samples exactly if it lies in one of them |
| FullPathScalar.SampledWholeExactly | crates/mft-worker/src/scalar/full_path.rs:20-32 | every byte is sampled exactly up to 129 bytes |
| FullPathScalar.LongBlobsCollide | crates/mft-worker/src/scalar/full_path.rs:20-32 | any longer blob shares its samples with one that differs |
| Witnesses.CacheMixesFiles | crates/mft-worker/src/scalar/full_path.rs:102-120 | under any hash and any faithful crate, of two built images that differ in the file's name the second is answered with the first one's name |
| Witnesses.CacheCanBeWrong | crates/mft-worker/src/scalar/full_path.rs:102-120 | under any such crate that reads one-letter ASCII names, a file named b is reported as the file named a |
| ArrowMap.BuildMftRecordArray | crates/mft-worker/src/arrow_map.rs:260-433 | every row read back through validity and offsets shows its record field by field and item by item, a missing record is a null row, all children are equally long and every list is well formed |
| ArrowMap.CutsGiveParts | crates/mft-worker/src/arrow_map.rs:611-622 | offsets that count the items so far start at 0, never decrease, end at the flat length, and cut out exactly the parts |
| ArrowMap.FnFlat.Push | crates/mft-worker/src/arrow_map.rs:510-522 | one more item: each of the ten columns gets its own field of the name, the namespace as text |
| ArrowMap.AdsFlat.Push | crates/mft-worker/src/arrow_map.rs:556-561 | one more item: each column gets its own field of the stream |
| ArrowMap.AttrFlat.Push | crates/mft-worker/src/arrow_map.rs:589-595 | one more item: each column gets its own field of the attribute |
| ArrowMap.SiColumns.PushSi | crates/mft-worker/src/arrow_map.rs:436-463 | each column gets its own field of the standard information, or all a null |
| ArrowMap.DataColumns.PushData | crates/mft-worker/src/arrow_map.rs:465-489 | each column gets its own field of the stream, or all a null |
| ArrowMap.TopColumns.Append | crates/mft-worker/src/arrow_map.rs:309-357 | each of the seven top columns gets its own field of the record, or a zero under a null row |

## Left out

- ScanState.AdvanceMovesNextEntry: `advance` is modelled on values; the state is data copied into and out of the producer, so its update in place is not.
- ReadMft.ReadMftProducer.EncodeResume: the product of cursor and record size is unbounded here; where it can leave 64 bits is said above.
- ReadMft.ReadMftProducer.EnsureOpen: takes the index as a function of the bytes; the loop that fills the caller's map is MftCore.BuildResolver.
- Reader.BuiltRecordDecodes: for FILE records of 1024 bytes, under the assumption `Reader.Faithful`; what the crate does with the fixups of BAAD records, or with attributes it cannot parse, is not visible.
- Reader.FileNameAsAdded: how the crate renders UTF-16 units, FILETIMEs and attribute bits is a parameter.
- ArrowMap.BuildMftRecordArray: asks that each flat count fit a 32-bit offset, beyond which the source's counters overflow.
- Synth.RecordBuilder.AdsResident: instance numbers are asked to stay below 65536, where the source's counter overflows.
- SynthImage.MftBuilder.Finish: image sizes past the address space are not modelled.
- The `mft` crate's parsing and iteration, time conversion, and the timestomp heuristic: external or short case splits; times are carried as values.
- `well_formed`, `record_header` and the table-in-out functions: views of the same decode that would add only easy members.
- The timeline batch's column builders: one append per row and column, with no offsets or nesting.
- File globbing, argument parsing, schemas, metadata, transports, the panic hook: plumbing and text.
- 32-bit `usize`, as on the wasm target: sizes are 64-bit.
