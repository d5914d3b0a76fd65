# S3 connector: readers, load plans and their helpers

A Dafny model of the stateful core of the S3 connector for PyTorch, with proofs that hold for every
object, every chunking of every response and every sequence of calls (or every interleaving of threads).

## What is modelled

**Streams** (`ByteStreams.dfy`). An object is a byte sequence. The S3 client is a parameter
(`Answers`): it may cut the answer to a ranged request into any body parts, empty ones included,
in any order, as long as each part carries the object's bytes at the offset it names
(`HonestAnswers`). `GetObjectStream.Next` checks the order. Under this alone every byte a DCP reader
returns is the object's. The sequential and the ranged reader also need that no response ends early without
an error (`UncutAnswers`): then every call that returns gives the file's answer, and the only other outcome is the
client's error. That a call *succeeds* is shown for complete answers in order (`OrderlyAnswers`). A request
that reaches past the end of the object is clipped there.

**The DCP reader** (`ItemViewBuffer.dfy`, `RangeGroups.dfy`, `DcpSpec.dfy`, `DcpReader.dfy`, `DcpRuns.dfy`).
Item ranges are coalesced into range groups; one stream per group is read through three phases
with a leftover slice kept between items. The class is proved to refine `DcpSpec.DcpStep`, which
knows only an item index, whether that item is loaded, and a position. Whole runs are then compared with
files in memory, billed request by request, and shown to be accepted whenever items are visited in turn.
A raised error ends a run, because the source leaves the iterator advanced or the position negative
after some errors.

**The sequential and the ranged reader** (`FileSpec.dfy`, `SequentialReader.dfy`, `RangedReader.dfy`, `ReaderRuns.dfy`).
Both refine one abstract file and are therefore interchangeable. The sequential reader's buffer is
the fewest leading chunks that cover its demand; the ranged reader's requests ascend in forward runs
and tile the object under small reads.

**Load plans and names** (`S3Uri.dfy`, `LoadPlan.dfy`, `PlannedLoad.dfy`). A plan is sorted by offset, split by
file and handed to the reader constructor, which looks the ranges up under a rebuilt URI. The chain
ends in a theorem about preparing and loading a whole plan.

**Smaller protocols and algorithms.** The producer/consumer shutdown and the greedy batcher
(`DatasetPipeline.dfy`, `Batcher.dfy`), reversed-digit prefixes (`PrefixStrategy.dfy`), the row-span table
(`SpanTable.dfy`), two-level sharding (`Sharding.dfy`), and double-checked creation of the native client across
threads and forks (`S3Client.dfy`).

Definitions that a method and its specification share are also stated in plain numbers, without naming them
(`InBounds`, `Obeys`, `AcceptedIff`, `RequestsOfRead`, `StateFromCalls`, `IsMetadataKey`, `EscapedBytes` and others).

Classes and methods follow the source where it updates state in place; what a method
computes is named by a specification function, and the laws are lemmas about those functions. Long
source functions (`_get_item_buffer`, `_read_range`, `read` of the sequential reader) are cut into the phases their
own comments name. `ghost` parameters and fields (item index, group index, demand) carry the
bookkeeping the proofs need and have no effect on what is computed.

## Where the code and its promises differ

- A planned file, opened by its path after preparation, gets a DCP reader exactly when its key is neither empty nor ends
  in `.metadata`, each of its ranges is empty or starts at zero or later and ends behind its start, no byte is planned twice,
  and at least one range has bytes; a metadata file gets a sequential reader, any other file is rejected (`OpenPlanned`).
  Rejected although its ranges could be read: a file whose planned items are all empty (`AllEmptyIsRejected`: one item of
  no bytes at offset 5), one in which two items share a byte (`SharedByteIsRejected`: bytes 0-1 and 1-2), and one with an
  empty key (`EmptyKeyIsRejected`: the relative path "" below `s3://b`).
- `_validate_and_coalesce_ranges` called on its own lets an empty first range through (`EmptyFirstRangePasses`: `[5, 5)`
  alone), because the loop checks the length of every range but the first. On any list it accepts exactly the sorted, disjoint,
  positive-length, non-negative ones plus those (`ValidatesIffAcceptable`). `__init__` never passes it such a list, having dropped
  empty ranges before (`FilteredValidates`).
- A URI survives parsing and rebuilding exactly when a `/` follows the bucket name (`RebuildOfParse`):
  `s3://b` comes back as `s3://b/` (`BareBucketGainsSlash`). Joining any relative path to a base URI always yields the surviving
  kind, so the lookup in `__call__` never misses (`JoinedPathRoundTrips`, `PlannedFileFindsItsRanges`).
- A DCP reader can be moved past the end of the object, as `io.BytesIO` can and the other two readers cannot. Every successful
  run is a run on an in-memory file of the first kind (`RunAgreesWithMemory`); it is a run on the other readers' file exactly
  when none of its calls moves the position past the end (`RunAgreesWithFileIff`, `SeekPastTheEnd`).
- `readinto` of an empty buffer reads nothing and can still be rejected, where `read(0)` never is: with the single item
  `[3, 4)`, a fresh reader at position 0 raises (`EmptyReadIntoCanFail`). It is accepted exactly when the position is in or at
  the edge of the current item, or in the next one behind a loaded item that was passed, and that item is loaded or can be:
  the object has its bytes and there is, or it opens, a stream for it (`EmptyReadIntoIff`).
- A planned file whose key ends in `.metadata` is announced to the progress bar, but it is read by a sequential reader, which
  does not report (`MetadataIsNotReported`). The bar is full exactly when every file that has bytes was loaded by a reader
  that reports (`LoadFiles`).
- A fork in the parent can keep `_client` from serving a thread of the parent: just before the assertion it makes the
  assertion fail, between assertion and return it makes `_client` return nothing (`ForkCanLeaveNothing`). It can happen
  to exactly the threads that are at one of these two points when the fork happens, and does if they step next
  (`AfterFork`); a thread at the assertion escapes if another one builds a new client first. Some continuation does
  harm if and only if there is such a thread (`ForkHarmsIff`); if parent forks find no thread there, every evaluation in
  the whole run yields a native client (`GuardedForksLoseNothing`). Between two forks the builder runs at most once a
  client, and all native clients handed out for one client are the same, whether or not the forks were guarded
  (`BuilderRunsOnce`).

## Model

| member | source | states |
|---|---|---|
| ByteStreams.GetObjectStream.Next | s3torchconnectorclient/rust/src/get_object_stream.rs:43-60 | A delivered chunk is exactly the object's next bytes and moves the offset behind them; an error is raised exactly when the next part starts elsewhere, and then the offset stays. |
| ByteStreams.JoinedIsContiguous | s3torchconnectorclient/rust/src/get_object_stream.rs:43-60 | Draining succeeds exactly for parts in order, and then yields one contiguous slice of the object. |
| ByteStreams.UnabridgedMeans | s3torchconnectorclient/rust/src/get_object_stream.rs:43-60 | A response is unabridged if and only if whoever iterates over it gets all of it or an error; complete in order if and only if, besides, there is no error. |
| ByteStreams.HonestCanEndEarly | s3torchconnectorclient/rust/src/get_object_stream.rs:47-48 | An honest response that ends early without an error, which `__next__` does not notice. |
| ByteStreams.GetObjectStream.TookFewest | s3torchconnectorclient/rust/src/get_object_stream.rs:43-60 | A stream whose last chunk started before an offset it has reached took the fewest leading chunks that reach it. |
| ByteStreams.ObjectStore.GetStream | s3torchconnector/src/s3torchconnector/_s3client/_s3client.py:182-189 | Logs one request and opens a stream over the requested range, clipped to the object. |
| ItemViewBuffers.BisectRight | s3torchconnector/src/s3torchconnector/s3reader/dcp_optimized.py:200 | The insertion point that splits a sorted list into what is at most the key and what is above it. |
| ItemViewBuffers.ItemViewBuffer.AppendView | s3torchconnector/src/s3torchconnector/s3reader/dcp_optimized.py:121-130 | The flat contents grow by the view; empty views change nothing. |
| ItemViewBuffers.ItemViewBuffer.Seek | s3torchconnector/src/s3torchconnector/s3reader/dcp_optimized.py:132-148 | All three whence modes relative to the flat contents; negative targets and unknown modes are rejected and leave the position. |
| ItemViewBuffers.ItemViewBuffer.FindSegment | s3torchconnector/src/s3torchconnector/s3reader/dcp_optimized.py:197-201 | Finds the segment that contains the position. |
| ItemViewBuffers.ItemViewBuffer.CopySegments | s3torchconnector/src/s3torchconnector/s3reader/dcp_optimized.py:203-229 | Copies the flat slice across segment borders and leaves the rest of the destination alone. |
| ItemViewBuffers.ItemViewBuffer.ReadInto | s3torchconnector/src/s3torchconnector/s3reader/dcp_optimized.py:179-229 | Fills the front of the destination with the flat bytes at the position, as many as fit, whichever path (four-byte or general) is taken. |
| ItemViewBuffers.ItemViewBuffer.Read | s3torchconnector/src/s3torchconnector/s3reader/dcp_optimized.py:154-177 | The same bytes as `ReadInto` for every size; a missing or negative size is rejected. |
| RangeGroups.ValidateAndCoalesceRanges | s3torchconnector/src/s3torchconnector/s3reader/dcp_optimized.py:346-388 | Accepts exactly the validated lists. The groups list the ranges in order; under a limit of n no gap inside a group is more than n and every gap between groups is; without a limit there is one group. The table holds exactly the groups' starts. |
| RangeGroups.GroupsInBounds | s3torchconnector/src/s3torchconnector/s3reader/dcp_optimized.py:376-388 | The same of the groups of every list, in plain numbers. |
| RangeGroups.OneByteGapIsKept | s3torchconnector/src/s3torchconnector/s3reader/dcp_optimized.py:377 | Under a limit of nought, bytes 0-9 and 11-19 make two groups with a total of 19. |
| RangeGroups.ValidatesIffAcceptable | s3torchconnector/src/s3torchconnector/s3reader/dcp_optimized.py:362-375 | For every list: sorted, pairwise disjoint, non-negative and of positive length, if and only if the neighbour checks pass and the first range is not empty. |
| RangeGroups.FilteredValidates | s3torchconnector/src/s3torchconnector/s3reader/dcp_optimized.py:299-313 | On what `__init__` passes on, the checks accept exactly those lists. |
| RangeGroups.EmptyFirstRangePasses | s3torchconnector/src/s3torchconnector/s3reader/dcp_optimized.py:362-375 | A list with an empty first range that the checks let through. |
| RangeGroups.PartitionCoalesces | s3torchconnector/src/s3torchconnector/s3reader/dcp_optimized.py:376-388 | The groups flatten back to the input; gaps inside a group are within the limit, gaps between groups exceed it. |
| RangeGroups.CoalescingIsUnique | s3torchconnector/src/s3torchconnector/s3reader/dcp_optimized.py:376-388 | Only one partition of the list has that property. |
| RangeGroups.CoalescingIsMinimal | s3torchconnector/src/s3torchconnector/s3reader/dcp_optimized.py:376-388 | No partition into gap-respecting groups has fewer groups. |
| RangeGroups.GroupItems | s3torchconnector/src/s3torchconnector/s3reader/dcp_optimized.py:376-388 | A group covers a contiguous run of items, from its first item's start to its last item's end. |
| RangeGroups.ItemWithinGroup | s3torchconnector/src/s3torchconnector/s3reader/dcp_optimized.py:452-466 | Every item lies inside the group counted for it, which ends with its last item; the last item is in the last group. |
| RangeGroups.StartLookup | s3torchconnector/src/s3torchconnector/s3reader/dcp_optimized.py:452 | A lookup by start hits exactly for the first item of a group, and finds that group. |
| RangeGroups.CoalescedStreamTotalBytes | s3torchconnector/src/s3torchconnector/s3reader/constructor.py:49-69 | The running total equals the sum of the widths of the reader's range groups, which obey the limit, for any list of ranges. |
| DcpReaders.DCPOptimizedS3Reader.Create | s3torchconnector/src/s3torchconnector/s3reader/dcp_optimized.py:267-328 | A reader exists exactly for named objects with a non-negative gap limit and an acceptable, non-empty list once empty ranges are dropped. |
| DcpReaders.DCPOptimizedS3Reader.FindItemForRange | s3torchconnector/src/s3torchconnector/s3reader/dcp_optimized.py:394-436 | Finds the current item, or the next one only once the current is loaded and passed; otherwise raises. |
| DcpReaders.DCPOptimizedS3Reader.OpenStream | s3torchconnector/src/s3torchconnector/s3reader/dcp_optimized.py:453-458 | One request with the group's bounds, and the stream invariant afresh. |
| DcpReaders.DCPOptimizedS3Reader.GetStreamForItem | s3torchconnector/src/s3torchconnector/s3reader/dcp_optimized.py:438-466 | A new stream exactly for a group's first item, the open one for every other item; raises only without either. |
| DcpReaders.DCPOptimizedS3Reader.TakeLeftover | s3torchconnector/src/s3torchconnector/s3reader/dcp_optimized.py:512-537 | Phase 1: the buffer gets the item's front from the leftover, and the new leftover is again the object's bytes up to what was consumed. |
| DcpReaders.DCPOptimizedS3Reader.SkipGap | s3torchconnector/src/s3torchconnector/s3reader/dcp_optimized.py:560-595 | Phase 2: reaches the item's start whatever the chunk borders; fails on an orderly stream only if that ends before the item does. |
| DcpReaders.DCPOptimizedS3Reader.TakeChunk | s3torchconnector/src/s3torchconnector/s3reader/dcp_optimized.py:628-640 | Splits a chunk into what the item needs and the next leftover, without losing or repeating a byte. |
| DcpReaders.DCPOptimizedS3Reader.FetchRest | s3torchconnector/src/s3torchconnector/s3reader/dcp_optimized.py:617-640 | Phase 3: the buffer becomes the whole item. |
| DcpReaders.DCPOptimizedS3Reader.FetchItem | s3torchconnector/src/s3torchconnector/s3reader/dcp_optimized.py:501-644 | The three phases together return exactly the item's bytes and leave leftover, position and stream in step. |
| DcpReaders.DCPOptimizedS3Reader.GetItemBuffer | s3torchconnector/src/s3torchconnector/s3reader/dcp_optimized.py:468-644 | The loaded buffer is the item's slice of the object, the stream position its end; fails on orderly answers only for a missing stream or a too short object. |
| DcpReaders.DCPOptimizedS3Reader.TouchRange | s3torchconnector/src/s3torchconnector/s3reader/dcp_optimized.py:677-682 | Loads the item that serves the range, exactly when `DcpSpec.TouchItem` names one. |
| DcpReaders.DCPOptimizedS3Reader.Read | s3torchconnector/src/s3torchconnector/s3reader/dcp_optimized.py:646-690 | Success returns the object's bytes at the position, as many as asked for, and is `DcpStep`; with orderly answers it raises only where `DcpStep` does. |
| DcpReaders.DCPOptimizedS3Reader.ReadInto | s3torchconnector/src/s3torchconnector/s3reader/dcp_optimized.py:692-721 | The same for filling a caller's buffer, to its last byte. |
| DcpReaders.DCPOptimizedS3Reader.Seek | s3torchconnector/src/s3torchconnector/s3reader/dcp_optimized.py:723-754 | Moves the position exactly for SEEK_SET and SEEK_CUR with a non-negative target, keeping what is loaded. |
| DcpReaders.DCPOptimizedS3Reader.Close | s3torchconnector/src/s3torchconnector/s3reader/dcp_optimized.py:763-772 | Drops buffer and stream, once. |
| DcpReaders.DCPOptimizedS3Reader.RecordBytesFetched | s3torchconnector/src/s3torchconnector/s3reader/dcp_optimized.py:390-392 | A positive count is reported once; nothing else is. |
| DcpReaders.DCPOptimizedS3Reader.WithinTotal | s3torchconnector/src/s3torchconnector/s3reader/dcp_optimized.py:390-392 | In every valid state of an open reader the bytes reported so far are within the announced total. |
| DcpReaders.DCPOptimizedS3Reader.TookFewest | s3torchconnector/src/s3torchconnector/s3reader/dcp_optimized.py:560-640 | With an item loaded, the group's stream has delivered the fewest leading chunks of its response that reach the item's end, and exactly those and the earlier groups are reported. |
| DcpRuns.AcceptedIff | s3torchconnector/src/s3torchconnector/s3reader/dcp_optimized.py:394-436 | Every kind of call in plain numbers: exactly when it is accepted, which item it leaves loaded, what it answers and where it stops. |
| DcpRuns.StepIsSound | s3torchconnector/src/s3torchconnector/s3reader/dcp_optimized.py:394-436 | One call keeps the run invariant and moves the item index by nought or one, by one only from a loaded item. |
| DcpRuns.AccessDiscipline | s3torchconnector/src/s3torchconnector/s3reader/dcp_optimized.py:394-436 | In every run the loaded item index never skips or goes back. |
| DcpRuns.RunAgreesWithMemory | s3torchconnector/tst/unit/test_s3reader_dcp_optimized.py:1022-1042 | Every successful run gives the answers of an unclamped in-memory file that holds the object, and ends at its position. |
| DcpRuns.RunAgreesWithFileIff | s3torchconnector/src/s3torchconnector/s3reader/dcp_optimized.py:723-754 | A successful run gives the answers of the file that clamps at its end if and only if the calls never move the position past the end. |
| DcpRuns.SeekPastTheEnd | s3torchconnector/src/s3torchconnector/s3reader/dcp_optimized.py:723-754 | One seek that tells the two files apart. |
| DcpRuns.EmptyReadIntoIff | s3torchconnector/src/s3torchconnector/s3reader/dcp_optimized.py:692-721 | When exactly an empty `readinto` is accepted, and what it loads; `read(0)` is always accepted and changes nothing. |
| DcpRuns.EmptyReadIntoCanFail | s3torchconnector/src/s3torchconnector/s3reader/dcp_optimized.py:394-436 | An item list on which a fresh reader rejects it. |
| DcpRuns.VisitAccepted | s3torchconnector/src/s3torchconnector/s3reader/dcp_optimized.py:394-436 | Arbitrary seeks and re-reads inside an item that is read at all are accepted. |
| DcpRuns.InTurnAccepted | s3torchconnector/src/s3torchconnector/s3reader/dcp_optimized.py:394-436 | Any run that visits the items in turn is accepted and ends at the last one visited. |
| DcpRuns.StaysOpen | s3torchconnector/src/s3torchconnector/s3reader/dcp_optimized.py:763-772 | Only `close` closes. |
| DcpRuns.FetchedIsDetermined | s3torchconnector/src/s3torchconnector/s3reader/dcp_optimized.py:468-644 | What was fetched depends on the item reached alone, not on the calls that led there. |
| DcpRuns.OpenedInBounds | s3torchconnector/src/s3torchconnector/s3reader/dcp_optimized.py:453-458 | The requests of a reader are for the first groups, in order, each from its first item's start to its last item's end. |
| DcpRuns.RunDcpReader | s3torchconnector/src/s3torchconnector/s3reader/dcp_optimized.py:267-772 | Any calls on a fresh reader of any bucket and key: existence, name tests included; answers; one request per opened group, with bounds that obey the limit; for the item reached, the fewest chunks fetched; progress within the total, and equal to it at the last item. With orderly answers the run stops only where the specification raises. |
| FileSpec.FileObeys | s3torchconnector/tst/unit/test_s3reader_common.py:152-600 | The abstract file in plain numbers: which bytes a read of every size gives, where every seek leads, from the end too, and what is rejected. |
| FileSpec.FileRunObeys | s3torchconnector/tst/unit/test_s3reader_common.py:341-360 | Over whole runs; seeking back from the end by k and reading on gives the last k bytes, or the seek is rejected if there are fewer. |
| SequentialReaders.SeqRefinesFile | s3torchconnector/src/s3torchconnector/s3reader/sequential.py:65-190 | Each call of the reader's specification answers, rejects and moves as the abstract file does. |
| ByteStreams.FewestIsUnique | s3torchconnector/src/s3torchconnector/s3reader/sequential.py:182-190 | The fewest chunks that reach a demand are one determined number. |
| SequentialReaders.SequentialS3Reader.Create | s3torchconnector/src/s3torchconnector/s3reader/sequential.py:24-42 | Only an empty bucket name is rejected. |
| SequentialReaders.SequentialS3Reader.Prefetch | s3torchconnector/src/s3torchconnector/s3reader/sequential.py:55-63 | Opens the one stream on first use and never again. |
| SequentialReaders.SequentialS3Reader.TakeChunk | s3torchconnector/src/s3torchconnector/s3reader/sequential.py:188 | One more chunk extends the buffered prefix of the object; exhaustion means the whole object is buffered; an error comes only from the client. |
| SequentialReaders.SequentialS3Reader.PrefetchToOffset | s3torchconnector/src/s3torchconnector/s3reader/sequential.py:182-190 | Takes only as many chunks as reach the offset; records the size exactly when the object ends before it. |
| SequentialReaders.SequentialS3Reader.Seek | s3torchconnector/src/s3torchconnector/s3reader/sequential.py:135-180 | All whence modes, clamped at the end; seeking to the end starts no request. |
| SequentialReaders.SequentialS3Reader.ReadAhead | s3torchconnector/src/s3torchconnector/s3reader/sequential.py:127-133 | A sized read returns the object's bytes at the old position, however much was buffered. |
| SequentialReaders.SequentialS3Reader.ReadAll | s3torchconnector/src/s3torchconnector/s3reader/sequential.py:119-126 | A read to the end drains the stream, records the size and returns the rest. |
| SequentialReaders.SequentialS3Reader.Read | s3torchconnector/src/s3torchconnector/s3reader/sequential.py:93-133 | Every size, including missing, negative and at the end, is `SeqStep`, or the client failed. |
| SequentialReaders.SequentialS3Reader.ReadInto | s3torchconnector/src/s3torchconnector/s3reader/sequential.py:65-91 | Fills the front of the caller's buffer and leaves its rest. |
| ReaderRuns.StateFromCalls | s3torchconnector/src/s3torchconnector/s3reader/sequential.py:65-190 | What the reader knows and has is determined by the calls and the file positions: whether the size is recorded, how far it had to reach, whether it was read to the end, whether it needed the stream. |
| ReaderRuns.RunSequential | s3torchconnector/src/s3torchconnector/s3reader/sequential.py:65-190 | Any run: every call that returns gives the abstract file's answer, which obeys its plain law, and a run stops only if the client fails. A run that does not stop makes one request exactly if a call needs the stream, holds the fewest leading chunks that reach the largest offset the calls have to reach, and knows the size exactly if a call recorded it. |
| RangedReaders.RangedRefinesFile | s3torchconnector/src/s3torchconnector/s3reader/ranged.py:160-320 | For every buffer size, buffering off included, each call is the abstract file's, and the buffer stays inside the object. |
| RangedReaders.RangedS3Reader.Create | s3torchconnector/src/s3torchconnector/s3reader/ranged.py:44-79 | Only an empty bucket name is rejected; the buffer has the default or the given size. |
| RangedReaders.FillBuffer | s3torchconnector/src/s3torchconnector/s3reader/ranged.py:102-107 | The chunk loop puts the requested slice at the front of the buffer, or the client failed. |
| RangedReaders.CopyToView | s3torchconnector/src/s3torchconnector/s3reader/ranged.py:147-156 | The chunk loop writes the requested slice at its place in the view and nothing else. |
| RangedReaders.RangedS3Reader.LoadBuffer | s3torchconnector/src/s3torchconnector/s3reader/ranged.py:93-110 | One request, for the buffer's width clipped at the end of the object. |
| RangedReaders.RangedS3Reader.ReadBuffered | s3torchconnector/src/s3torchconnector/s3reader/ranged.py:112-133 | Serves the range, reloading exactly when it is not covered by the buffer. |
| RangedReaders.RangedS3Reader.ReadUnbuffered | s3torchconnector/src/s3torchconnector/s3reader/ranged.py:135-158 | Serves the range with one request for exactly it. |
| RangedReaders.RangedS3Reader.ReadRange | s3torchconnector/src/s3torchconnector/s3reader/ranged.py:160-199 | Overlap first, then the rest by size: the range's bytes at the front of the view and only the requests of `Serve`. |
| RangedReaders.RangedS3Reader.Read | s3torchconnector/src/s3torchconnector/s3reader/ranged.py:238-278 | Every size is `RangedStep`, bytes and requests alike, or the client failed. |
| RangedReaders.RangedS3Reader.ReadInto | s3torchconnector/src/s3torchconnector/s3reader/ranged.py:201-236 | The same into the caller's buffer, whose rest is unchanged. |
| RangedReaders.RangedS3Reader.Seek | s3torchconnector/src/s3torchconnector/s3reader/ranged.py:280-320 | All whence modes, clamped at the end, without a request. |
| ReaderRuns.RunsAgree | s3torchconnector/tst/unit/test_s3reader_common.py:152-600 | Over any calls both readers give the abstract file's answers, rejections and positions. |
| ReaderRuns.RequestsOfRead | s3torchconnector/src/s3torchconnector/s3reader/ranged.py:93-199 | What a read requests, in plain numbers: nothing if the buffer holds it, otherwise one range behind what the buffer holds of its front, exactly the missing bytes from a buffer's size on and a full buffer below. |
| ReaderRuns.RequestsOfCall | s3torchconnector/src/s3torchconnector/s3reader/ranged.py:201-320 | `seek` and `tell` request nothing; reads request for the bytes they want. |
| ReaderRuns.ForwardRunsAscend | s3torchconnector/src/s3torchconnector/s3reader/ranged.py:93-199 | While the position never goes back, the requested ranges ascend and are disjoint and non-empty. |
| ReaderRuns.SmallReadsTile | s3torchconnector/src/s3torchconnector/s3reader/ranged.py:93-199 | With only reads smaller than the buffer the requests are exactly the consecutive tiles, ceil(position / size) of them. |
| ReaderRuns.RunRanged | s3torchconnector/src/s3torchconnector/s3reader/ranged.py:44-340 | Any run of the class: every call that returns gives the abstract file's answer, which obeys its plain law, and a run stops only if the client fails; one that does not stop makes the requests the specification names, for the default and every given buffer size. |
| ReaderRuns.RunBoth | s3torchconnector/tst/unit/test_s3reader_common.py:36-60 | As far as both get, the two classes return the same answers for the same calls, even if S3 chunks or fails their responses differently. |
| S3Uri.ParseAccepts | s3torchconnector/src/s3torchconnector/_s3dataset_common.py:22-36 | Accepted exactly: "s3://" followed by something other than a slash. |
| S3Uri.ParseOfRebuild | s3torchconnector/src/s3torchconnector/_s3dataset_common.py:22-36 | Bucket and key survive being put into a URI and parsed exactly when the bucket is non-empty and has no slash. |
| S3Uri.RebuildOfParse | s3torchconnector/src/s3torchconnector/_s3dataset_common.py:22-36 | A URI survives parsing and rebuilding exactly when a slash follows the bucket. |
| S3Uri.BareBucketGainsSlash | s3torchconnector/src/s3torchconnector/_s3dataset_common.py:22-36 | A URI without the slash that comes back with one. |
| S3Uri.ParsedShape | s3torchconnector/src/s3torchconnector/_s3dataset_common.py:22-36 | What an accepted URI consists of. |
| S3Uri.JoinedKey | s3torchconnector/src/s3torchconnector/dcp/s3_file_system.py:140-154 | A name joined to a bucket or a directory of it: one slash in between, and none too many. |
| S3Uri.JoinedPathRoundTrips | s3torchconnector/src/s3torchconnector/dcp/s3_file_system.py:140-154 | A relative path joined to any parsable base keeps the bucket and survives parsing and rebuilding. |
| S3Uri.SegmentwiseIsWhole | s3torchconnector/src/s3torchconnector/dcp/s3_file_system.py:266-281 | Escaping the segments between slashes equals escaping the whole string with the slash safe. |
| S3Uri.UnquoteOfQuote | s3torchconnector/src/s3torchconnector/dcp/s3_file_system.py:280 | Percent-decoding undoes percent-encoding for every safe set without the percent sign (sections 2.1 and 2.3 of RFC 3986). |
| S3Uri.EscapedBytes | s3torchconnector/src/s3torchconnector/dcp/s3_file_system.py:280 | Escaping is byte by byte: letters, digits, "-", ".", "_", "~" and the slash stay, every other byte becomes a percent sign and two upper-case hexadecimal digits. |
| S3Uri.EscapePath | s3torchconnector/src/s3torchconnector/dcp/s3_file_system.py:266-281 | The loop computes that escape; decoding gives the path back; a path without other bytes is unchanged. |
| LoadPlans.SortIsStable | s3torchconnector/src/s3torchconnector/dcp/s3_file_system.py:468 | Offsets ascend, no item is lost or gained, and items with equal offsets keep their order. |
| LoadPlans.SortKeepsRanges | s3torchconnector/src/s3torchconnector/dcp/s3_file_system.py:468 | Sorting leaves each file's ranges the same up to order: same members, same cover of every byte. |
| LoadPlans.LoadPlan.Sort | s3torchconnector/src/s3torchconnector/dcp/s3_file_system.py:468 | Sorts the plan in place, or raises for an unknown index and leaves it. |
| LoadPlans.DCPOptimizedConstructor.Create | s3torchconnector/src/s3torchconnector/s3reader/constructor.py:96-110 | A negative gap limit is rejected; otherwise nothing is injected yet and no bar is shown. |
| LoadPlans.DCPOptimizedConstructor.SetItemRangesByFile | s3torchconnector/src/s3torchconnector/s3reader/constructor.py:112-146 | Each file's entry lists its ranges in plan order, and only planned files have entries; a bar left from before is closed, and a new one announced unless the call fails. |
| LoadPlans.DCPOptimizedConstructor.StartProgress | s3torchconnector/src/s3torchconnector/s3reader/constructor.py:156-165 | Announces the common total of all files, in whatever order they are added up; no bar for nothing or when switched off. |
| LoadPlans.DCPOptimizedConstructor.UpdateProgress | s3torchconnector/src/s3torchconnector/s3reader/constructor.py:167-169 | Only positive counts, and only while there is a bar, move it. |
| LoadPlans.PlannedTotalSplit | s3torchconnector/src/s3torchconnector/s3reader/constructor.py:160-163 | The common total does not depend on which file is taken first. |
| LoadPlans.PrepareLocalPlan | s3torchconnector/src/s3torchconnector/dcp/s3_file_system.py:450-477 | The plan keeps its items, now by ascending stored offset, then is split by file, and the bar is announced. |
| LoadPlans.RangeOfItemListed | s3torchconnector/src/s3torchconnector/s3reader/constructor.py:139-146 | Every planned item has its range, from its offset for its length, in the list of its file. |
| LoadPlans.RangeHasItem | s3torchconnector/src/s3torchconnector/s3reader/constructor.py:139-146 | Every listed range is the range of a planned item of that file. |
| LoadPlans.MetadataIsSequential | s3torchconnector/src/s3torchconnector/s3reader/constructor.py:184 | Whatever was planned, `__call__` chooses a sequential reader exactly for the keys that end in ".metadata", in a directory or not. |
| LoadPlans.PlannedFileFindsItsRanges | s3torchconnector/src/s3torchconnector/s3reader/constructor.py:176-207 | `__call__` for the parsed path of a planned file chooses a DCP reader over exactly its own ranges, or a sequential one for metadata. |
| LoadPlans.AcceptableIffDisjoint | s3torchconnector/src/s3torchconnector/s3reader/dcp_optimized.py:299-375 | Ranges sorted by start are accepted, once empty ones are dropped, exactly when they are proper and no byte is covered twice. |
| LoadPlans.PlannedRangesAccepted | s3torchconnector/src/s3torchconnector/dcp/s3_file_system.py:450-477 | After sorting and splitting, a file's ranges are accepted exactly when the unsorted plan's ranges were proper and disjoint. |
| LoadPlans.PlannedRangesServedIff | s3torchconnector/src/s3torchconnector/s3reader/dcp_optimized.py:299-313 | The sorted ranges of a file pass `__init__` if and only if the unsorted ones are proper and disjoint and one has bytes. |
| LoadPlans.AllEmptyIsRejected | s3torchconnector/src/s3torchconnector/s3reader/dcp_optimized.py:299-313 | A plan with one empty item, whose ranges do not pass. |
| LoadPlans.SharedByteIsRejected | s3torchconnector/src/s3torchconnector/s3reader/dcp_optimized.py:362-375 | A plan with two items that share a byte, whose ranges do not pass. |
| PlannedLoads.Open | s3torchconnector/src/s3torchconnector/dcp/s3_file_system.py:122-138 | Opening a path: parsed, looked up, and made under its own bucket and key; exactly when that gives a DCP reader, a sequential one or an error. |
| PlannedLoads.OpenPlanned | s3torchconnector/src/s3torchconnector/s3reader/constructor.py:176-207 | After preparation a planned file opens with a DCP reader over its ranges if and only if its key is neither empty nor metadata and its ranges are proper, disjoint and not all empty; sequentially if and only if it is metadata. |
| PlannedLoads.EmptyKeyIsRejected | s3torchconnector/src/s3torchconnector/s3reader/dcp_optimized.py:278-281 | A planned file that is rejected for its empty key only. |
| PlannedLoads.EmptyReadLandsIff | s3torchconnector/src/s3torchconnector/s3reader/dcp_optimized.py:394-436 | Between two items an empty `readinto` is accepted and leaves no item behind if and only if it lands in the current item, or in the next one behind it. |
| PlannedLoads.IdleAccepted | s3torchconnector/src/s3torchconnector/s3reader/dcp_optimized.py:659-721 | An item without bytes can be passed over with any calls that read nothing, an empty `readinto` that lands included. |
| PlannedLoads.InOrderAccepted | s3torchconnector/src/s3torchconnector/s3reader/dcp_optimized.py:394-644 | Reading a file's items in plan order, empty ones in between, never raises. |
| PlannedLoads.PlannedFileLoads | s3torchconnector/src/s3torchconnector/dcp/s3_file_system.py:450-477 | End to end for a file: if it is openable, the prepared constructor hands out ranges and the parsed path gives names that a reader accepts, and reading its items in plan order succeeds to the last item. |
| PlannedLoads.LoadFile | s3torchconnector/src/s3torchconnector/s3reader/constructor.py:49-69 | Running the reader of a named object through such a file gives the specified answer to every call, opens each range group once in order, and reports exactly the precomputed total. |
| PlannedLoads.Report | s3torchconnector/src/s3torchconnector/s3reader/constructor.py:167-169 | After each of the byte counts handed over the bar stands where the counts so far add up to. |
| PlannedLoads.LoadFiles | s3torchconnector/src/s3torchconnector/s3reader/constructor.py:156-207 | Planned files, opened through `__call__` under their own names, each once and in any order, are read in full. After every count the bar stands at the sum so far, never past what was announced for the whole plan; it is full if and only if every file with bytes was loaded by a reader that reports. |
| PlannedLoads.BarForPlan | s3torchconnector/src/s3torchconnector/s3reader/constructor.py:156-165 | A bar exists exactly if progress is enabled and some planned item has bytes. |
| PlannedLoads.PrepareAndLoad | s3torchconnector/src/s3torchconnector/dcp/s3_file_system.py:450-477 | End to end for a plan: preparation, lookup by path and loading succeed for every plan whose files are openable or metadata, with every file read in full and the bar as above. |
| PlannedLoads.MetadataIsNotReported | s3torchconnector/src/s3torchconnector/s3reader/constructor.py:184-188 | A planned metadata file that is announced and never reported. |
| DatasetPipeline.StepConserves | s3torchbenchmarking/src/s3torchbenchmarking/datagen.py:228-250 | Every generated item exists exactly once, held, queued or processed. |
| DatasetPipeline.StepKeepsTokens | s3torchbenchmarking/src/s3torchbenchmarking/datagen.py:228-250 | There is exactly one right to the sentinel: not yet signalled, queued, or with a consumer restoring it. |
| DatasetPipeline.StepInv | s3torchbenchmarking/src/s3torchbenchmarking/datagen.py:145-159 | Every step of every thread keeps the protocol invariant. |
| DatasetPipeline.SentinelIsLate | s3torchbenchmarking/src/s3torchbenchmarking/datagen.py:228-235 | A queued sentinel means that all items were generated and all producers have left their loop. |
| DatasetPipeline.NeverStuck | s3torchbenchmarking/src/s3torchbenchmarking/datagen.py:228-250 | In every state of the invariant that is not final some thread can move, the re-put on the bounded queue included. |
| DatasetPipeline.StepWorks | s3torchbenchmarking/src/s3torchbenchmarking/datagen.py:228-250 | Every step uses up some of a finite amount of work. |
| DatasetPipeline.RunsAreBounded | s3torchbenchmarking/src/s3torchbenchmarking/datagen.py:306-341 | No interleaving is longer than 4 steps an item, 3 a producer and 2 a consumer. |
| DatasetPipeline.FinalIsComplete | s3torchbenchmarking/src/s3torchbenchmarking/datagen.py:306-341 | In a final state exactly the sentinel is queued and each item was processed exactly once. |
| DatasetPipeline.EveryRunEndsWell | s3torchbenchmarking/src/s3torchbenchmarking/datagen.py:228-250 | From the start, in every interleaving: the sentinel comes after all items, from the first producer only, and a run that cannot go on is complete. |
| Batchers.Batcher | s3torchbenchmarking/src/s3torchbenchmarking/datagen.py:77-94 | The groups concatenate to the input; groups of two or more sum to at most the threshold; each group with the first item of the next exceeds it; only the first can be empty, exactly when the first item alone is too large. |
| Batchers.GreedyStaysAhead | s3torchbenchmarking/src/s3torchbenchmarking/datagen.py:77-94 | A competing split that starts no further ahead needs at least as many groups. |
| Batchers.GreedyIsOptimal | s3torchbenchmarking/src/s3torchbenchmarking/datagen.py:77-94 | For non-negative sizes no contiguous split into valid groups has fewer groups than the non-empty ones of the batcher. |
| PrefixStrategies.CalculatePrefixLength | s3torchconnector/src/s3torchconnector/dcp/s3_prefix_strategy.py:114-121 | The least length of at least one that has room for the count. |
| PrefixStrategies.ReversedIsBackwards | s3torchconnector/src/s3torchconnector/dcp/s3_prefix_strategy.py:107-110 | Reversing the padded digits is writing the number least digit first. |
| PrefixStrategies.EntryCharacter | s3torchconnector/src/s3torchconnector/dcp/s3_prefix_strategy.py:107-110 | Character j of an entry is the digit of its rank for base^j. |
| PrefixStrategies.DigitsAreUsual | s3torchconnector/src/s3torchconnector/dcp/s3_prefix_strategy.py:145-166 | Digits are 0 to 9 and then a to f. |
| PrefixStrategies.HeadsEqualIffCongruent | s3torchconnector/src/s3torchconnector/dcp/s3_prefix_strategy.py:107-110 | Two entries share their first k characters exactly when their ranks are congruent modulo base^k. |
| PrefixStrategies.GeneratePrefixMap | s3torchconnector/src/s3torchconnector/dcp/s3_prefix_strategy.py:102-112 | One entry a rank, each its rank written backwards, at the larger of the least and the configured length. |
| PrefixStrategies.NeighboursDifferInHead | s3torchconnector/src/s3torchconnector/dcp/s3_prefix_strategy.py:102-112 | Any base^k consecutive entries have distinct k-character heads. |
| PrefixStrategies.PrefixesDistinct | s3torchconnector/src/s3torchconnector/dcp/s3_prefix_strategy.py:102-112 | All entries differ. |
| PrefixStrategies.HeadsSpreadEvenly | s3torchconnector/src/s3torchconnector/dcp/s3_prefix_strategy.py:102-112 | Each k-character head occurs count / base^k times, rounded down or up. |
| PrefixStrategies.FullPrefixesInjective | s3torchconnector/src/s3torchconnector/dcp/s3_prefix_strategy.py:88-100 | Different ranks get different full prefixes, even when the map wraps around. |
| PrefixStrategies.FullPrefixBegins | s3torchconnector/src/s3torchconnector/dcp/s3_prefix_strategy.py:99-100 | A full prefix begins with the map entry of its rank, wrapped around, and a slash. |
| PrefixStrategies.FullPrefixesTellEpochs | s3torchconnector/src/s3torchconnector/dcp/s3_prefix_strategy.py:99-100 | Full prefixes agree exactly for the same rank in the same epoch, or in none. |
| SpanTables.BuildSpanTable | s3torchbenchmarking/utils/html_result_generator.py:106-149 | Every cell of the flat list is nought when its row agrees with the one above on all fields so far, and else the length of the run that starts there; the error cases exactly. |
| SpanTables.MergeFirstColumn | s3torchbenchmarking/utils/html_result_generator.py:112-125 | The first loop completes column 0 and leaves the others at one. |
| SpanTables.MergeOtherColumns | s3torchbenchmarking/utils/html_result_generator.py:127-147 | The second loop completes every other column, using the nought to its left as "agrees so far". |
| SpanTables.MergeFills | s3torchbenchmarking/utils/html_result_generator.py:133-147 | Merging one cell by agreement takes one column one row further. |
| SpanTables.RunIsMaximal | s3torchbenchmarking/utils/html_result_generator.py:101-105 | The run length of the closed form is the longest run of agreeing rows. |
| SpanTables.ColumnsSumToRows | s3torchbenchmarking/utils/html_result_generator.py:101-105 | Every column's spans add up to the number of rows. |
| SpanTables.RunsNest | s3torchbenchmarking/utils/html_result_generator.py:101-105 | A column's runs lie inside those of the column to its left. |
| SpanTables.EveryValueShown | s3torchbenchmarking/utils/html_result_generator.py:64-73 | In the rendered table every row is covered, for every field name, by a shown cell with that row's value; names are looked up by their first place, as `get_cell` does. |
| SpanTables.OneCellShown | s3torchbenchmarking/utils/html_result_generator.py:64-73 | Exactly one rendered cell takes in each row and field name. |
| SpanTables.ShownIff | s3torchbenchmarking/utils/html_result_generator.py:68-73 | A cell is rendered, with a span of at least one, exactly if its row differs from the one above in this field or one before it. |
| Sharding.EveryClosedForm | s3torchconnector/src/s3torchconnector/s3iterable_dataset.py:249-261 | The k-th object of a shard is object r + k * m, and shard sizes are n / m rounded down or up. |
| Sharding.ShardsPartition | s3torchconnector/src/s3torchconnector/s3iterable_dataset.py:249-261 | An object is in the shard of one rank and worker only, the ones its index names, even if ranks have different worker counts. |
| Sharding.ShardsKeepOrder | s3torchconnector/src/s3torchconnector/s3iterable_dataset.py:249-261 | A shard lists its objects in dataset order. |
| Sharding.IterateFollowsShard | s3torchconnector/src/s3torchconnector/s3iterable_dataset.py:219-263 | `__iter__` yields exactly its shard, on the unsharded shortcut too. |
| Sharding.UnshardedIsEverything | s3torchconnector/src/s3torchconnector/s3iterable_dataset.py:229-234 | With sharding off every rank and worker gets every object. |
| Sharding.IterateElements | s3torchconnector/src/s3torchconnector/s3iterable_dataset.py:219-263 | With sharding on, the k-th object of a worker is the one at place rank + (id + k * workers) * world size. |
| Sharding.ShardsAreBalanced | s3torchconnector/src/s3torchconnector/s3iterable_dataset.py:249-261 | Rank sizes, and worker sizes within a rank, differ by at most one. |
| S3Clients.HandlerReleasesAll | s3torchconnector/src/s3torchconnector/_s3client/_s3client.py:52-73 | With the lock free every live native client is tracked, and none is left after the handler. |
| S3Clients.NextInv | s3torchconnector/src/s3torchconnector/_s3client/_s3client.py:109-130 | Every step of every thread, and every fork, keeps lock discipline and tracking. |
| S3Clients.ForkSafety | s3torchconnector/src/s3torchconnector/_s3client/_s3client.py:52-82 | In every interleaving with forks, every native client ever returned was built in the process that called, and at every fork point none survives the handler. |
| S3Clients.ForkStartsAfresh | s3torchconnector/src/s3torchconnector/_s3client/_s3client.py:52-82 | After a fork, in either process, no native client is held and nobody is building. |
| S3Clients.NextOnce | s3torchconnector/src/s3torchconnector/_s3client/_s3client.py:109-130 | Since the last fork: every step keeps one build a client, and what was handed out is what the client holds. |
| S3Clients.BuilderRunsOnce | s3torchconnector/src/s3torchconnector/_s3client/_s3client.py:109-130 | In every interleaving, between any two forks: the builder runs at most once a client, and all native clients ever handed out for one client are the same and were built there. Without forks, or with guarded ones, every evaluation yields one. |
| S3Clients.GuardedForksLoseNothing | s3torchconnector/src/s3torchconnector/_s3client/_s3client.py:109-130 | If parent forks happen only while no thread is between its check or lock and its return, every evaluation in the run yields a native client. |
| S3Clients.AfterFork | s3torchconnector/src/s3torchconnector/_s3client/_s3client.py:128-130 | Stepped right after a parent fork, a thread trips exactly if it was at the assertion, and gets nothing exactly if it was at the return. |
| S3Clients.ForkHarmsIff | s3torchconnector/src/s3torchconnector/_s3client/_s3client.py:52-73 | After any guarded run, a parent fork has a continuation in which some evaluation trips or yields nothing if and only if a thread is at one of the two points. |
| S3Clients.NeverDeadlocked | s3torchconnector/src/s3torchconnector/_s3client/_s3client.py:222-241 | While a call is under way some thread can step, with or without forks. |
| S3Clients.OwnStep | s3torchconnector/src/s3torchconnector/_s3client/_s3client.py:109-130 | Each step of its own brings a thread closer to the end of its evaluation; the last one returns or trips, and is in the history. |
| S3Clients.EvaluationEnds | s3torchconnector/src/s3torchconnector/_s3client/_s3client.py:109-130 | A thread that is given the steps it needs ends its evaluation, whatever the other threads do. |
| S3Clients.EveryEvaluationYields | s3torchconnector/src/s3torchconnector/_s3client/_s3client.py:109-130 | In guarded runs 14 steps of its own end every evaluation, with the native client its client then holds. |
| S3Clients.StepsAreBounded | s3torchconnector/src/s3torchconnector/_s3client/_s3client.py:109-130 | Without new calls the threads come to rest. |
| S3Clients.LoneCallReturns | s3torchconnector/src/s3torchconnector/_s3client/_s3client.py:109-130 | A first call alone returns the client it has built, after ten steps. |
| S3Clients.ForkCanLeaveNothing | s3torchconnector/src/s3torchconnector/_s3client/_s3client.py:128-130 | Concrete interleavings for both: a failed assertion, and nothing returned. |

## Left out

- The native S3 client, its threads, retries and credentials: a parameter that answers requests.
- HEAD requests: they return the object's length; how often one is sent is not counted.
- The 64-bit wrap-around of a stream's offset.
- Python type checks and the texts of error messages; only whether a call is accepted or rejected is kept.
- A DCP reader's state after a raised error.
- DcpReaders.DCPOptimizedS3Reader.FindItemForRange: compares items by value where the source compares identities; `NextItemDiffers` shows that neighbouring items never share a value.
- ItemViewBuffers.ItemViewBuffer.AppendView: a view is an immutable sequence, so aliasing and zero-copy slicing of memory views are not modelled.
- SequentialReaders.SequentialS3Reader.TakeChunk: a response that ends early without an error is taken for the end of the object by the source; the model assumes that the client does not produce one (`UncutAnswers`). A reader's state after the client failed is not modelled.
- RangedReaders.CopyToView: the same assumption, and nothing about the state after a failure.
- Floating-point gap limits: the limit is an integer or unlimited, since gaps are integers.
- PlannedLoads.LoadFiles: loads one file after the other. The bar itself (its factory and display) and switching progress on after construction are not modelled. What the sequential reader does with a planned metadata file is not part of this model.
- LoadPlans.LoadPlan.Sort: the sorting algorithm itself; the library's stable sort is modelled by a stable insertion sort.
- What the checkpoint library does between opening a file and reading it: only that it reads each file's items in plan order.
- S3Uri.EscapePath: works on the UTF-8 bytes of the path; the encoding step is not modelled.
- PrefixStrategies.GeneratePrefixMap: for bases 2 to 16, which have digits; the repository uses 2 and 16.
- SpanTables.BuildSpanTable: a missing field raises before the first write instead of during the loops; the list is discarded either way.
- DatasetPipeline.StepInv: thread start and join, and exceptions in the generator or the upload, are not modelled; the queue is first-in first-out with blocking calls.
- S3Clients.ForkSafety: the fork handler runs as one step while the lock is free; garbage collection of clients and reuse of process ids are not modelled.
- Listing, writing, configuration merging, pickling and user-agent strings: a branch or two each.
