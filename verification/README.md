# GridFlux data path: a Dafny model

GridFlux moves files between hosts.  This project models the part of it that must not lose or invent
bytes, and proves what that part promises.

- **Storage** (`FileModel`, `FileStats`, `Kernels`, `FileIo`, `BufferedWriter`, `IoUringSlots`, `IoUring`,
  `IoUringTestLoop`, `IoUringStub`, `IoUringTrace`).  Positional writes, the POSIX short-write and short-read loops, the
  batched io_uring engine with its slot table, the coalescing writer on top of either backend, and the two
  implementations of the engine's test loop.
- **Checkpoint manifests** (`RangeList`, `TextCodec`, `ManifestText`, `ManifestKeys`, `Progress`,
  `ProgressText`, `TransferManifest`, `DownloadManifest`, `ManifestFormat`, `ManifestLoops`, `ManifestStore`).  The range list,
  the manifest text with its printers and parsers, the check that completed ranges and verified chunks agree,
  and the write-then-rename store.
- **CRC32C** (`Crc32c`, `CrcLaws`, `CrcDetection`, `Checksum`).  The bit-serial register, the table and eight-byte-stride
  forms, the incremental object, and which errors are always detected.

The main results:

1. An io_uring call that reports success has moved exactly the requested bytes, each once, for every order of
   completions, every pattern of short counts, retries and interruptions, every queue depth and batch size,
   and leaves no request behind; a call that fails or is still running, with its requests moving any part of
   their bytes up to then, has changed nothing outside its range and nothing to a wrong value.  Its internal
   errors ("missing slot", a full submission queue, the idle pass) cannot occur, its counters balance, it
   creates at most `depth` fresh requests, and it returns within `length` waits besides retries.  It returns
   an error if and only if the kernel refused something, namely the first refusal in the log of its answers,
   and its counters are the tally of that log (`IoUring.TransferAtAll`).  The POSIX loops, the dispatch and
   the coalescing writer have the same law.
2. The offset check of that engine wraps: it accepts ranges past the largest file offset exactly when the
   length exceeds 2^63 and the offset alone is acceptable (`IoUringSlots.OffsetCheckExact`).
3. The coalescing writer is invisible: the file overlaid with the pending buffer evolves as under plain
   writes, through failures at any point, on POSIX, and on io_uring as long as no request outlives a failed
   call.  A request that does is harmless exactly while the file holds its bytes
   (`FileModel.LateWriteHarmless`).  The writer makes at most 2 * floor(N / (B + 1)) + 1 underlying writes for
   N contiguous bytes.  Its append test wraps at 2^64 and can then misplace data, but never in a run whose
   last flush succeeds (`BufferedWriter.Replay`).
4. The fast manifest printer's output is accepted if and only if its progress is consistent, and then comes
   back normalized; the round trips, the independence of chunk order and the agreement of the two printers
   follow, for both manifest kinds.  Every accepted text is sound and reprints to itself.  The text format is
   fixed line by line and field by field, and a text is accepted exactly when its lines hold such fields
   (`ManifestFormat`).
5. Damage of up to four consecutive bytes inside a printed body value is always rejected for download
   manifests.  For transfer manifests this is false in exactly one case: turning the version line from `2`
   into `1` makes the parser skip the checksum, and the text is accepted without its chunk records
   (`TransferManifests.DamageDetected`).  The checksum line's own value may be replaced by exactly its
   spellings in small and capital digits (`ChecksumLineExact`).
6. Over any run of saves with either printer and a crash after any step, the manifest path never holds a
   mixture, and once a save has succeeded, loading reads what the last committed save wrote.  That load
   succeeds if and only if the saved manifest was loadable: after a full save, every record has the manifest's
   algorithm; after a prepared save, the progress is consistent.  Both saves report success for manifests
   that are not (`ManifestStore.LoadAfterSaves`, `SavedUnloadable`).  Which answers of the system make a save
   succeed, fail or die is characterised exactly (`ManifestStore.SaveOutcome`).
7. CRC32C detects every burst of up to 32 bits and every odd number of flipped bits; all four ways the code
   computes it agree.  Its value is the one of section 12.1 of RFC 3720: stated from an all-zero register, by
   the fixed residue, and by the check value.
8. The test loops of the two builds make the same calls and end alike if and only if the offset check accepts
   the range and every consumed reply is a failure, a count below 2^31, or a count still too long after the
   conversion to `int`; once they differ on a reply no later reply reconciles them
   (`IoUringStub.LoopsAgree`).  Every call of such a run points into the requested range, a run fails exactly
   when a reply is refused, and a successful run has moved every byte exactly once
   (`IoUringTrace.TestRunTiles`).

## Conventions

- A machine word in the CRC code is the list of its bits, least significant first.  File sizes, offsets and
  lengths are unbounded numbers with the 64-bit limits written out where the code depends on them.
- A buffer or a piece of data is an object in memory, so its length is at most 2^63; the methods that take one
  ask for that.  Paths are strings of bytes.
- The kernel is free to answer every system call as it likes within its contract, and logs its answers in a
  ghost field of `Kernels.Kernel` that only the modelled system calls extend.  Runs are observed for a
  number of system calls (`budget`) or for a list of answers; a call that has not returned by then is
  `Pending`, or crashed in the store.  All budgets and all answer lists are covered.
- `ioUringReadAtAll` and `ioUringWriteAtAll` have the same text up to the operation and are one method here.
- The two manifest files of the source repeat their codecs and list parsers; these are modelled once.
- Where several fields of a text are wrong at once, which reason is reported first is not modelled.
- The search by range end in `RangeList::merge` makes the step back to the previous range unreachable
  (src/core/chunk/range_list.cpp:78-83); the model keeps the branch and proves it dead.

## Model

| member | source | states |
|---|---|---|
| IoUring.TransferAtAll | src/storage/file_io_uring.cpp:242-456 | success of a write leaves exactly the data in its range and nothing else changed, success of a read fills the buffer with exactly the file's bytes, any other outcome has applied a part of the write only, or has read only bytes of the file into their places; on success nothing stays in the kernel, completion bytes equal the length, whole requests number ceil(length / request size), submission entries equal completions plus resubmitting retries, waits equal completions plus retries, submit calls exceed the resubmissions and never the entries; for every outcome fresh submission entries are at most `depth` and what is left in the kernel lies inside the range; a call still running has seen fewer than length waits besides retries; for a range that off_t reaches the status is exactly the first refusal among the kernel's answers, success if there is none and enough waits were observed, and submits, waits, completions, bytes and retries are the tally of the answers; a range it does not reach is refused untouched |
| IoUring.RunLoop | src/storage/file_io_uring.cpp:259-347 | the same for the loop itself, carrying the table invariant, the partition of the issued bytes, the counter equations and the bound on fresh requests through every iteration; the idle pass is unreachable; status and counters are read off the log of answers |
| IoUring.LeaveBehind | src/storage/file_io_uring.cpp:345-347 | whatever part of their bytes the requests of a failed call still move, only bytes of the call's own range change, and to their right values |
| IoUring.FreshAtMostDepth | src/storage/file_io_uring.cpp:259-289 | in every state the loop reaches, the submission entries that are no resubmissions number the requests created, at most `depth` |
| IoUring.FillSlots | src/storage/file_io_uring.cpp:270-289 | keeps the table invariant, never meets a full submission queue, issues as many requests as data, slots and batch allow and no more, and leaves something in flight whenever data was left to issue |
| IoUring.IssueSlot | src/storage/file_io_uring.cpp:279-288 | a fresh request takes the next bytes, is known to both the table and the kernel, and moves every count by one |
| IoUring.CompleteOne | src/storage/file_io_uring.cpp:297-342 | one wait keeps every invariant and fails exactly on a refused wait, completion or resubmission; the completion always belongs to an in-flight slot, so the missing-slot error is unreachable |
| IoUring.Accept | src/storage/file_io_uring.cpp:324-342 | a short or retried completion is resubmitted for exactly its remaining bytes, a full one frees the slot, the counters record which, and the only errors are a refused completion and a refused resubmission |
| IoUring.HandleCompletionResult | src/storage/file_io_uring.cpp:87-120 | succeeds exactly on a retry error or a count within the submitted length, advances the slot by that count, touches no other slot, and counts nothing on failure |
| IoUring.IssueKeepsInv | src/storage/file_io_uring.cpp:276-288 | issuing keeps: in flight iff bytes remain, submitted length equals remaining, pairwise disjoint intervals, table and kernel agree, completed and in-flight bytes partition the issued prefix |
| IoUring.AdvanceKeepsInv | src/storage/file_io_uring.cpp:116-118 | accepting a completion keeps the same invariant, and the newly completed bytes were not complete before (exactly once) |
| IoUring.WroteMore | src/storage/file_io_uring.cpp:78-80 | moving one more completed interval keeps "completed indices hold the data, everything else holds the old bytes" |
| IoUring.WroteAll | src/storage/file_io_uring.cpp:350-456 | when every index is complete, that is the file after one plain write of all the data |
| IoUringSlots.OffsetCheckExact | src/storage/file_io_uring.cpp:48-57 | the check accepts exactly the addressable ranges if and only if length - 1 fits in off_t or the offset alone is refused |
| IoUringSlots.OffsetCheckWraps | src/storage/file_io_uring.cpp:53-55 | a concrete range past the largest offset that the check accepts |
| IoUringSlots.IssueKeepsPartition | src/storage/file_io_uring.cpp:279-287 | completed plus in-flight indices still partition the longer issued prefix |
| IoUringSlots.AdvanceKeepsPartition | src/storage/file_io_uring.cpp:328-342 | a completed interval leaves flight, joins the completed set, and was disjoint from it |
| IoUringSlots.AllDone | src/storage/file_io_uring.cpp:269 | with nothing in flight, the completed set is the whole issued prefix |
| IoUringSlots.CreatedAll | src/storage/file_io_uring.cpp:262 | the number of fresh requests for the whole length is ceil(length / request size) |
| IoUringSlots.AtMostDepth | src/storage/file_io_uring.cpp:259-263 | with the engine's request size at most `depth` fresh requests are ever created |
| IoUringTestLoop.TestRunBalanced | src/storage/file_io_uring.cpp:138-232 | for every list of completions: success means completion bytes equal length, completions minus partial ones equal ceil(length / request size), submission entries and waits each equal completions plus retries; no slot is ever lost; replies needed are fewer than length besides retries |
| IoUringTestLoop.RunBalanced | src/storage/file_io_uring.cpp:160-230 | the same from any state that satisfies the loop invariant |
| IoUringTestLoop.ReactKeeps | src/storage/file_io_uring.cpp:186-229 | one reply keeps the table, the partition and the counter equations and adds exactly its bytes, or ends the run with an error and adds none |
| IoUringTestLoop.FillKeeps | src/storage/file_io_uring.cpp:162-181 | filling keeps the table, the partition and the request count, and puts something in flight |
| IoUringTestLoop.FillGreedy | src/storage/file_io_uring.cpp:162-181 | filling issues at most a batch and stops only when data, queue, batch or free slots run out |
| IoUringTestLoop.LiburingLoop | src/storage/file_io_uring.cpp:138-232 | for every callback the code performs exactly the specified run on the counts converted to `int`: same calls, same status, same counters; out-of-range requests are refused untouched |
| IoUringTestLoop.CompleteSlot | src/storage/file_io_uring.cpp:214-229 | for any converted count, negative ones being error numbers, the code's completion step is the run's |
| IoUringTrace.TestRunTiles | src/storage/file_io_uring.cpp:138-232 | every call of a run is for a piece of the requested range, at its 64-bit offset; the run ends in an error exactly when a reply is refused, and with that reply's error; accepted replies report pairwise disjoint bytes, and after success exactly all of them |
| IoUringTrace.RunTiles | src/storage/file_io_uring.cpp:160-230 | the same from any state that satisfies the loop invariant, relative to the bytes done before |
| IoUringStub.StubLoop | src/storage/file_io_uring_stub.cpp:16-124 | the second implementation performs the same run on the counts as given, for every callback and offset, with offsets wrapping at 2^64 |
| IoUringStub.CountsAgree | src/storage/file_io_uring.cpp:214-215 | one reply gets the same verdict and the same accepted count from both builds if and only if it is below 2^31 or still too long after the conversion |
| IoUringStub.Parted | src/storage/file_io_uring_stub.cpp:76-121 | after a reply that the builds take differently, their outcomes differ whatever replies follow |
| IoUringStub.RunsAgreeExactly | src/storage/file_io_uring_stub.cpp:40-122 | from any common state the two runs end alike if and only if every consumed reply is taken alike |
| IoUringStub.LoopsAgree | src/storage/file_io_uring_stub.cpp:16-124 | same request and same replies give the same calls, status and counters in both builds if and only if the length is zero, or the offset check accepts the range and every consumed reply is taken alike |
| IoUringStub.LargeCountsDiffer | src/storage/file_io_uring.cpp:214-215 | a run on which the builds part: eight bytes answered by 2^32 + 5 and then 3 succeed in one build and are refused in the other |
| FileModel.WriteSplit | src/storage/posix_file.cpp:217-237 | writing a prefix and then the rest is one write |
| FileModel.PartialAbsorbed | src/storage/file_io.cpp:530-541 | repeating a write repairs whatever a failed attempt at it left |
| FileModel.LatePiece | src/storage/file_io_uring.cpp:345-347 | a stray piece of a write is absorbed by the whole write, whether it lands before it or right after it |
| FileModel.LateWriteHarmless | src/storage/file_io_uring.cpp:345-347 | a write that lands late changes nothing if and only if the file holds its bytes already |
| FileModel.LateWriteUndoes | src/storage/file_io_uring.cpp:345-347 | a late write that undoes a later successful one |
| FileIo.PosixWriteAtAll | src/storage/file_io.cpp:373-421 | the file holds exactly a prefix of the write, all of it on success; the status is exactly the first refused answer, EINTR and EAGAIN not being refusals, or an offset complaint that only a range past off_t brings about; syscalls, bytes, retries and zero writes are the tally of the answers, and syscalls minus short ones are one on success and none otherwise |
| FileIo.PosixReadAtAll | src/storage/posix_file.cpp:192-206 | success fills the buffer with exactly the file's bytes, the same effect as the io_uring read; the status is exactly the first refused answer, EINTR not being a refusal |
| FileIo.FileWriteAtAll | src/storage/posix_file.cpp:208-238 | the file holds exactly a prefix of the write, all of it on success; the status is exactly the first refused answer, EINTR not being a refusal |
| FileIo.WritesAgree | src/storage/file_io_uring.cpp:350-456 | on equal files a successful io_uring write and a successful POSIX write leave equal files |
| FileIo.ReadsAgree | src/storage/file_io_uring.cpp:242-348 | a successful io_uring read and a successful POSIX read of one range deliver the same bytes |
| FileIo.WriteAtAll | src/storage/file_io.cpp:458-479 | either backend: success is one plain write, failure a part of it; the status is the first refused answer; a returned call is recorded once with its length, the counters are the tally of the answers, and only the chosen backend's counters move; an unavailable configuration touches nothing |
| FileIo.ReadAtAll | src/storage/file_io.cpp:429-450 | either backend: success fills the buffer with exactly the file's bytes; the status is the first refused answer; a returned call is recorded once and only the chosen backend's counters move; an unavailable configuration touches nothing |
| FileIo.ValidateAvailable | src/storage/file_io.cpp:333-345 | succeeds exactly with depth and batch in 1..256, a buffer when coalescing is asked for, and a backend that was built; the only non-argument error is the missing backend |
| BufferedWriter.BufferedFileWriter.constructor | src/storage/file_io.cpp:481-495 | an empty buffer of the configured size unless direct writes are asked for; the overlay is the file |
| BufferedWriter.BufferedFileWriter.Write | src/storage/file_io.cpp:497-528 | success acts on the overlay as the plain write, failure as a part of it, at the piece's own offset unless the append test wrapped (exactly when the buffer ends at or past 2^64); accepted bytes equal recorded bytes plus buffered bytes; on POSIX write calls equal syscalls minus short ones; a piece that needs no underlying write succeeds; where off_t reaches, the status is the first refused answer |
| BufferedWriter.BufferedFileWriter.Flush | src/storage/file_io.cpp:530-541 | while no request outlives its call the overlay never changes; success makes the file equal to it, failure keeps the buffer; a buffer that starts past off_t is never emptied; the status is the first refused answer |
| BufferedWriter.Replay | src/storage/file_io.cpp:497-541 | after any run of writes and flushes, at any offsets, and a final flush, all successful, the file is the old overlay with the same writes applied directly in order; recorded bytes equal accepted bytes, calls equal syscalls minus short ones; where off_t reaches, the run stops exactly at the first refusal of the kernel |
| BufferedWriter.ReplayAny | src/storage/file_io.cpp:497-541 | over any run with failures anywhere in which no request outlives its call, each call changes the overlay by a part of its own write at most, by all of it on success; every write takes effect at its own offset if all of them end below 2^64; syscall bytes never exceed recorded bytes |
| BufferedWriter.WrapMisplaces | src/storage/file_io.cpp:497-500 | two writes around offset 2^64 that both report success although the second never reaches its place |
| BufferedWriter.CallsBounded | src/storage/file_io.cpp:502-541 | contiguous pieces of at most B bytes, N in all, and a flush cost at most 2 * floor(N / (B + 1)) + 1 underlying writes |
| BufferedWriter.PaidStep | src/storage/file_io.cpp:514-526 | every pair of underlying writes is paid for by more than a buffer's worth of bytes |
| BufferedWriter.WriteContiguous | src/storage/file_io.cpp:502-541 | the same bound on the writer's own call counter; where off_t reaches, success exactly without a refusal |
| Crc32c.MakeTable | src/checksum/crc32c.cpp:10-24 | entry i is i after eight shift-and-reduce steps |
| Crc32c.UpdateSoftware | src/checksum/crc32c.cpp:32-42 | the table loop computes the byte recurrence for every state and message |
| Crc32c.TableStep | src/checksum/crc32c.cpp:39 | one look-up and a shift equal eight bit steps on the register |
| Crc32c.UpdateIsBitSerial | src/checksum/crc32c.cpp:10-42 | the byte recurrence is the bit-serial register of section 12.1 of RFC 3720 fed the message's bits |
| Crc32c.PolynomialOctets | src/checksum/crc32c.cpp:8 | the terms of 0x82F63B78, bit by bit; the detection results use its top term and its odd weight |
| CrcLaws.ZeroRegisterLaw | src/checksum/crc32c.cpp:30-64 | for every message of at least 32 bits the checksum is the complement of what an all-zero register holds after the message with its first 32 bits complemented |
| CrcLaws.Residue | src/checksum/crc32c.cpp:60-64 | any message followed by the bits of its own checksum leaves the register 0xB798B438 |
| CrcLaws.CheckValue | tests/unit/checksum_test.cpp:11-19 | "123456789" has the checksum 0xE3069283 and the empty message zero |
| CrcLaws.StepWordAdvances | src/checksum/crc32c.cpp:15-20 | one shift-and-reduce step on the bit list is the same step on a 32-bit machine word |
| Crc32c.UpdateConcat | src/checksum/crc32c.cpp:44-58 | updating with a + b is updating with a and then with b |
| Crc32c.UpdateHardware | src/checksum/crc32c_hw_x86.cpp:19-48 | the stride-plus-tail loop, with or without the CPU feature and on either word size, equals the byte loop |
| Crc32c.StrideLoop | src/checksum/crc32c_hw_x86.cpp:28-37 | eight bytes per instruction cover the longest prefix of whole words, with the right state |
| Crc32c.WordAtATime | src/checksum/crc32c_hw_x86.cpp:33 | XORing a whole word into the register and shifting equals feeding its bits one by one |
| Crc32c.WordInstructionIsEightBytes | src/checksum/crc32c_hw_x86.cpp:30-35 | the 64-bit instruction on a little-endian load equals eight byte steps |
| CrcDetection.BitBurstDetected | src/checksum/crc32c.cpp:8-42 | messages of equal length that differ only inside 32 consecutive bits end in different states |
| CrcDetection.FeedBitsInjective | src/checksum/crc32c.cpp:15-20 | feeding a fixed message is injective on states, so later data cannot hide a difference |
| CrcDetection.ByteBurstDetected | src/checksum/crc32c.cpp:8-64 | byte strings that differ only inside four consecutive bytes have different CRC32C |
| CrcDetection.OddFlipsDetected | src/checksum/crc32c.cpp:8-64 | byte strings that differ in an odd number of bits have different CRC32C |
| Checksum.ChecksumComputer.constructor | src/checksum/checksum.cpp:9-14 | starts with nothing fed |
| Checksum.ChecksumComputer.Reset | src/checksum/checksum.cpp:16-26 | forgets everything fed |
| Checksum.ChecksumComputer.Feed | src/checksum/checksum.cpp:28-36 | the state is the checksum state of everything fed, whatever the backend |
| Checksum.ChecksumComputer.Value | src/checksum/checksum.cpp:38-46 | in whatever pieces the data came, the value is the one-shot CRC32C of all of it, or zero without an algorithm |
| RangeLists.RangeList.Insert | src/core/chunk/range_list.cpp:24-64 | succeeds exactly on a non-empty in-bounds range that overlaps nothing, and is then the canonical union with the byte count grown by the length; otherwise nothing changes and the reason is the first failing test |
| RangeLists.RangeList.Merge | src/core/chunk/range_list.cpp:66-98 | succeeds exactly on a non-empty in-bounds range, and is then the canonical union; otherwise nothing changes |
| RangeLists.RangeList.MissingRanges | src/core/chunk/range_list.cpp:100-113 | exactly the bytes that no range covers below the total or the last range's end, whichever is larger, in canonical form; the result stays within the total if and only if no range begins past it |
| RangeLists.UnionCovers | src/core/chunk/range_list.cpp:66-98 | the union covers a byte iff the list or the interval does |
| RangeLists.UnionCanonical | src/core/chunk/range_list.cpp:46-63 | the union is sorted, non-empty and separated again |
| RangeLists.OverlapsMeaning | src/core/chunk/range_list.cpp:36-44 | the overlap test is sharing a byte |
| RangeLists.CanonicalUnique | src/core/chunk/range_list.cpp:13-98 | two canonical lists that cover the same bytes are equal |
| RangeLists.TotalCounts | src/core/chunk/range_list.cpp:46-98 | the byte count of a list is the number of bytes it covers |
| TextCodec.HexRoundTrip | src/checkpoint/transfer_manifest.cpp:35-86 | decoding the hex of any byte string gives it back |
| TextCodec.Hex32RoundTrip | src/checkpoint/transfer_manifest.cpp:46-68 | parsing the eight digits of any word gives it back |
| TextCodec.ParseHex32Exact | src/checkpoint/transfer_manifest.cpp:56-68 | a text reads as a word if and only if it is the word's eight digits, in small or capital letters |
| TextCodec.ParseDecimal | src/checkpoint/transfer_manifest.cpp:88-100 | parsing a printed number gives it back exactly when it fits 64 bits |
| ManifestLoops.EncodeHex | src/checkpoint/transfer_manifest.cpp:35-44 | the loop computes the hex text |
| ManifestLoops.DecodeHex | src/checkpoint/transfer_manifest.cpp:70-86 | the loop decodes, or fails with the same reason |
| ManifestLoops.EncodeHex32 | src/checkpoint/transfer_manifest.cpp:46-54 | the shift-and-mask loop writes the eight digits |
| ManifestLoops.DecodeHex32 | src/checkpoint/transfer_manifest.cpp:56-68 | the loop parses eight digits, or fails with the same reason |
| ManifestLoops.PrintRanges | src/checkpoint/transfer_manifest.cpp:110-119 | the loop prints the range list |
| ManifestLoops.PrintChunks | src/checkpoint/transfer_manifest.cpp:133-145 | the loop prints the chunk list |
| ManifestLoops.ReadRanges | src/checkpoint/transfer_manifest.cpp:151-189 | the merge loop over the range list object gives the reference's ranges, or fails with its reason |
| ManifestLoops.ReadChunks | src/checkpoint/transfer_manifest.cpp:191-259 | the insert loop gives the reference's records, sorted, or fails with its reason |
| ManifestLoops.CompletedFromVerified | src/checkpoint/transfer_manifest.cpp:261-272 | inserting the sorted records ends as the reference fold does, with the same ranges or the same reason |
| ManifestLoops.ReadFields | src/checkpoint/transfer_manifest.cpp:396-422 | the line loop builds the key map, the body text and the expected checksum of the reference, or fails with its reason |
| ManifestText.ParseEntries | src/checkpoint/transfer_manifest.cpp:396-422 | lines with distinct keys followed by a checksum line are read back as exactly those fields and that body |
| ManifestText.ValueBurstDetected | src/checkpoint/download_manifest.cpp:425-429 | up to four changed consecutive bytes inside one value change the body checksum |
| ManifestText.OverwriteValue | src/checkpoint/download_manifest.cpp:272-290 | overwriting a value in place in the printed text is printing the replaced entry under the old checksum line |
| Progress.SortedUnique | src/checkpoint/transfer_manifest.cpp:121-131 | with distinct offsets the sorted permutation is unique |
| Progress.InsertAllSucceeds | src/checkpoint/transfer_manifest.cpp:247-251 | inserting all records, in any order, succeeds exactly when they are in range, pairwise apart and clear of the start |
| Progress.InsertAllCovers | src/checkpoint/transfer_manifest.cpp:261-272 | and then covers exactly the bytes of the records, in canonical form within the total |
| Progress.PermutationSorts | src/checkpoint/transfer_manifest.cpp:121-131 | permuted disjoint records sort to the same list |
| ProgressText.ProgressReads | src/checkpoint/transfer_manifest.cpp:515-552 | printed progress is accepted if and only if ranges are valid, chunks have the algorithm, are disjoint and in range, and both cover the same bytes; it comes back sorted and derived |
| ProgressText.ProgressSound | src/checkpoint/transfer_manifest.cpp:515-552 | any accepted pair of lists is sorted, disjoint, in range, of one algorithm, and covers exactly the canonical ranges |
| ProgressText.NormalForm | src/checkpoint/transfer_manifest.cpp:121-131 | sorted records and derived ranges exist exactly for disjoint in-range records, are their own normal form, and are consistent exactly when every record has the algorithm |
| ManifestFormat.ChunkFields | src/checkpoint/transfer_manifest.cpp:133-145 | a printed record has five fields between colons: id, offset, length, algorithm, checksum |
| ManifestFormat.ChunkItemExact | src/checkpoint/transfer_manifest.cpp:203-245 | any text is read as a record if and only if it has exactly these five fields, in this order, each readable and the algorithm the expected one |
| ManifestFormat.RangeFields | src/checkpoint/transfer_manifest.cpp:110-119 | a printed range has two fields around a dash: begin and end |
| ManifestFormat.RangeItemExact | src/checkpoint/transfer_manifest.cpp:161-180 | any text is read as a range if and only if it is two numbers around a dash, the first smaller |
| ManifestFormat.ChunksListed | src/checkpoint/transfer_manifest.cpp:133-145 | the records of a printed list stand between commas, in order |
| ManifestFormat.RangesListed | src/checkpoint/transfer_manifest.cpp:110-119 | the ranges of a printed list stand between commas, in order |
| ManifestFormat.RawLine | src/checkpoint/transfer_manifest.cpp:402-421 | what stands before the first equals sign of a line is its key, the rest its value; every line but the checksum line joins the body |
| ManifestFormat.RawLineRefused | src/checkpoint/transfer_manifest.cpp:402-414 | a blank line is skipped; a line without an equals sign, with an empty key or with a key seen before ends the parse |
| ManifestFormat.NumberExact | src/checkpoint/transfer_manifest.cpp:88-100 | exactly the non-empty digit strings below 2^64 are read as numbers, and a leading zero does not matter |
| ManifestFormat.PathExact | src/checkpoint/transfer_manifest.cpp:70-86 | a path is read from its hex digits in either case and from nothing else |
| ManifestFormat.SortedByOffset | src/checkpoint/transfer_manifest.cpp:121-131 | the sorted records have ascending offsets |
| ManifestFormat.TransferFormat | src/checkpoint/transfer_manifest.cpp:274-394 | the printed transfer manifest is its twelve lines, each key with its own field in the source's order, and the checksum of exactly those bytes |
| ManifestFormat.ExampleText | src/checkpoint/transfer_manifest.cpp:274-394 | one manifest with two records, character by character |
| ManifestFormat.TransferAccepted | src/checkpoint/transfer_manifest.cpp:424-555 | every field of an accepted transfer manifest is read from the line of its own key, all required keys are there, and under version 2 the checksum line is right |
| ManifestFormat.TransferRead | src/checkpoint/transfer_manifest.cpp:424-555 | and a version-2 text whose lines hold such fields is accepted, whatever other keys it has |
| ManifestFormat.HeadersAccepted | src/checkpoint/transfer_manifest.cpp:349-362 | the printers accept exactly the right version, an id of 1 to 128 plain characters, non-empty paths and a positive chunk size |
| ManifestFormat.DownloadFormat | src/checkpoint/download_manifest.cpp:272-374 | the printed download manifest is its thirteen lines, each key with its own field, and the checksum of exactly those bytes |
| ManifestFormat.DownloadAccepted | src/checkpoint/download_manifest.cpp:376-520 | every field of an accepted download manifest is read from the line of its own key, all of them are there, and the checksum line is right |
| ManifestFormat.DownloadRead | src/checkpoint/download_manifest.cpp:376-520 | and a text whose lines hold such fields is accepted, whatever other keys it has |
| TransferManifests.PreparedReads | src/checkpoint/transfer_manifest.cpp:375-555 | parsing the fast printer's output succeeds if and only if the progress is consistent (so a different byte set is rejected), and gives the manifest with chunks sorted and ranges derived |
| TransferManifests.SerializeNormalizes | src/checkpoint/transfer_manifest.cpp:349-373 | the full printer succeeds exactly on a valid header and disjoint in-range chunks, and prints the normal form as the fast printer does |
| TransferManifests.RoundTrip | src/checkpoint/transfer_manifest.cpp:349-555 | parsing the full printer's output gives the normal form back if every record has the manifest's algorithm, and fails otherwise |
| TransferManifests.PermutationInvariant | src/checkpoint/transfer_manifest.cpp:121-149 | permuting the chunks does not change the printed bytes |
| TransferManifests.PreparedAgrees | src/checkpoint/transfer_manifest.cpp:363-394 | on sorted chunks and derived ranges both printers write the same bytes |
| TransferManifests.AcceptedSound | src/checkpoint/transfer_manifest.cpp:396-555 | every accepted version-2 text has a valid header and sound progress, reprints successfully and reads back as itself |
| TransferManifests.AcceptedV1 | src/checkpoint/transfer_manifest.cpp:424-529 | every accepted version-1 text has a valid header and canonical in-range ranges, and carries no records and no algorithm |
| TransferManifests.DamageDetected | src/checkpoint/transfer_manifest.cpp:424-461 | up to four consecutive changed bytes inside one body value: accepted if and only if the version line became `1`, and then without the chunk records |
| TransferManifests.ChecksumLineExact | src/checkpoint/transfer_manifest.cpp:440-461 | with any one-line value on the checksum line of a printed text: accepted if and only if that value spells the body checksum in small or capital digits and the progress is consistent |
| TransferManifests.OddDamageDetected | src/checkpoint/transfer_manifest.cpp:440-461 | damage to any body values that flips an odd number of bits and spares the version line is rejected |
| DownloadManifests.PreparedReads | src/checkpoint/download_manifest.cpp:354-520 | parsing the fast printer's output succeeds if and only if the progress is consistent, and gives the manifest with chunks sorted and ranges derived |
| DownloadManifests.SerializeNormalizes | src/checkpoint/download_manifest.cpp:327-352 | the full printer succeeds exactly on a valid header and disjoint in-range chunks, and prints the normal form as the fast printer does |
| DownloadManifests.RoundTrip | src/checkpoint/download_manifest.cpp:327-520 | parsing the full printer's output gives the normal form back if every record has the manifest's algorithm, and fails otherwise |
| DownloadManifests.PermutationInvariant | src/checkpoint/download_manifest.cpp:112-122 | permuting the chunks does not change the printed bytes |
| DownloadManifests.PreparedAgrees | src/checkpoint/download_manifest.cpp:342-374 | on sorted chunks and derived ranges both printers write the same bytes |
| DownloadManifests.AcceptedSound | src/checkpoint/download_manifest.cpp:376-520 | every accepted text has a valid header and sound progress, reprints successfully and reads back as itself |
| DownloadManifests.DamageDetected | src/checkpoint/download_manifest.cpp:376-429 | up to four consecutive changed bytes inside any one body value of the printed text: always rejected |
| DownloadManifests.ChecksumLineExact | src/checkpoint/download_manifest.cpp:376-429 | with any one-line value on the checksum line of a printed text: accepted if and only if that value spells the body checksum in small or capital digits and the progress is consistent |
| DownloadManifests.OddDamageDetected | src/checkpoint/download_manifest.cpp:376-429 | damage to any body values that flips an odd number of bits is rejected |
| ManifestStore.SaveSafe | src/checkpoint/manifest_store.cpp:43-76 | whatever the system calls answer and wherever the process dies, the path holds its old content or the complete new text: new after success, old after failure; a stale temporary file does not matter and no other file changes |
| ManifestStore.SaveOutcome | src/checkpoint/manifest_store.cpp:50-75 | once the text is printed a save is done if and only if open, interruptions and positive writes that complete the text, close, rename and the return succeed, and fails if and only if some answer refuses and the process lives through the clean-up; otherwise it dies |
| ManifestStore.FailureCleansUp | src/checkpoint/manifest_store.cpp:55-74 | a save that failed after opening its temporary file has removed it, if the unlink worked |
| ManifestStore.TempPathOwn | src/checkpoint/manifest_store.cpp:50 | two processes never share a temporary file |
| ManifestStore.WriteAllShape | src/checkpoint/manifest_store.cpp:22-39 | the temporary file always holds a prefix of the text, all of it when the loop succeeds |
| ManifestStore.NeverMixed | src/checkpoint/manifest_store.cpp:43-117 | over any run of saves and crashes the path holds its first content or the full text of one save |
| ManifestStore.LastCommit | src/checkpoint/manifest_store.cpp:43-117 | after a successful save the path holds its text or that of a later save that did not fail |
| ManifestStore.SavedText | src/checkpoint/manifest_store.cpp:43-132 | the text of either save parses if and only if the manifest was loadable, and then to its normal form |
| ManifestStore.LoadAfterSaves | src/checkpoint/manifest_store.cpp:119-132 | over any run of saves by either printer, once one has succeeded, loading reads the last committed text: it succeeds if and only if that save's manifest was loadable, and then gives it in normal form; with only failures after a success that is the successful save |
| ManifestStore.SavedUnloadable | src/checkpoint/manifest_store.cpp:43-117 | for either printer, a manifest whose save reports success and whose load then fails, whatever was there before |
| ManifestStore.Disk.WriteLoop | src/checkpoint/manifest_store.cpp:22-39 | the loop performs the specified short writes and retries, going on after every positive write and every interruption |
| ManifestStore.Disk.SaveText | src/checkpoint/manifest_store.cpp:50-75 | the code performs the specified steps and clean-ups |
| ManifestStore.Disk.SaveAtomic | src/checkpoint/manifest_store.cpp:43-117 | a manifest the printer refuses leaves the disk untouched; otherwise its text is saved by those steps under the process's own temporary name |
| ManifestStore.RunSaves | src/checkpoint/manifest_store.cpp:43-117 | running the saves one process after another leaves the files and reports the outcomes that the run-level results speak of |

## Left out

- IoUring.TransferAtAll: asks for a buffer of at most 2^63 bytes, the largest object; the wrapping of the offset check beyond that is `OffsetCheckExact`. Ring memory and `io_uring_queue_exit` are not modelled. A request that outlives a failed call is returned as `left`; what it does to the file later is not part of any run, only of `LateWriteHarmless`, and the buffer it reads may have changed by then.
- FileIo.WriteAtAll: asks for data of at most 2^63 bytes, the largest object.
- FileIo.ReadAtAll: asks for a buffer of at most 2^63 bytes, the largest object.
- FileIo.PosixWriteAtAll: a closed file is not modelled.
- BufferedWriter.BufferedFileWriter.constructor: asks for a buffer size within off_t, beyond which the vector cannot be allocated.
- BufferedWriter.BufferedFileWriter.Flush: on io_uring, requests that outlive a failed flush are not part of the model.
- BufferedWriter.ReplayAny: on io_uring, requests that outlive a failed call are not part of the model.
- IoUringTestLoop.LiburingLoop: a null callback and null counters are not modelled; the slot table keeps unwrapped offsets and reduces them when it calls back.
- ManifestLoops.CompletedFromVerified: `std::sort` is the insertion sort `Progress.Sorted`, and its freedom on equal keys never shows because equal offsets are rejected.
- Power loss: the save does not sync, so only process crashes are modelled; so are saves by one process at a time.
- The save and load functions of download manifests repeat the steps of the manifest store.
- Timing counters, averages, file advice, preallocation and backend name parsing.
- Chunk planning, sessions, network, TLS, control protocol, option parsing and the Python tools.
