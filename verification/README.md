# fsdiff in Dafny

fsdiff compares two block images and writes a BKDF patch; the patcher rebuilds the destination from the
source and the patch. This project models that pipeline down to the bytes of the patch file and proves
that the two halves undo each other, together with what the claim rests on: the four matching stages over
one block tracker, the hash index, the prescreened search, the ext2/3/4 reader that feeds the filesystem
stage, the buffered writer, the aligned read cache and the concurrent initialisation.

The main results:

* **Diff then patch is the identity** (`Controller.Diff`). For every pair of images, every permitted
  combination of stages, every CRC function and every pattern of failed allocations, applying the patch
  gives back exactly the destination if and only if the destination is at most 2^63 - 1 bytes and no run
  of equal decisions reaches 2^32 blocks; otherwise an error is reported. Fewer than 2^32 blocks always
  suffice. The bound is real: the widest count field is `(uint32_t)count`, and with the identity stage
  2^32 consecutive blocks that are all zeros, all ones or all unchanged always make a patch that is
  rejected. Which inputs are refused, with which error, and that nothing else fails when nothing goes
  wrong in the run, is part of the contract.
* **Codec round trip** (`Codec.RoundTrip`, `PatchFile.PatchRoundTrip`), for every sound tracker, over all
  count, offset and varint widths, dense and sparse deltas and the literal fallbacks.
* **Decoder totality** (`Decoder.Decode`, `Decoder.DecodeStreams`): a total function on arbitrary bytes.
* **What is written and what is refused**: `Output` reads the encoder's streams back run by run,
  `SparseWriter` states the two-zeros rule by position and bounds the cost by content, and `Refusals` says for
  every stream, whoever wrote it, what the patcher does and with which error it refuses.
* **What the sparse reader accepts** (`SparseRuns.AnyRuns`), for runs chosen by any writer, if and only if.
* **Stage pipeline** (`Controller.RunStages`): soundness of every recorded match however the run ends,
  quality of partial matches, completeness of the exact stages for any hash and any collisions, trial of
  the stored position of every unmatched block that files of one path store alike, and exhaustion of the
  search radius.
* **Search** (`BlockSearch.ScreenExact`, `BlockSearch.SearchOptimal`): exactly when the prescreened sweep
  agrees with the full one.
* **ext reader**: what it reads, told from the bytes of the image alone (`ExtBytes`), and two small images
  walked end to end (`OutOfOrder`, `LegacyImage`); containment of every read, exact meaning of block maps and extent trees, the exact
  condition under which they can be read (65536 extents after coalescing), and a directory
  walk that terminates, expands nothing twice, reports only paths that resolve from the root and misses
  nothing within its caps.
* **fsmap**: hypotheses are exactly those that two files of one path support, one per block, the least.
* **Initialisation** (`Init`): safety over every run of any number of threads, and progress.

The project is self-contained: `dafny verify dfyconfig.toml` checks all of it.

## How the model is laid out

`Bytes` holds bytes, errors and little-endian fields. `Varint`, `Sparse`, `SparseRuns`, `SparseWriter`, `Ops`,
`Encoder`, `Decoder`, `Refusals`, `Codec` and `Output` are the patch streams; `Header`, `Writer` and `PatchFile` the file around them. `Bitmap`,
`Tracker`, `Matches` are the tracker and what its records mean. `Scalar`, `BlockSearch`, `HashTable`,
`Stages`, `Partial`, `Fsmap`, `FileBytes` and `Controller` are the matching pipeline and the whole diff. `ExtImage`,
`Extents`, `ExtentOrder`, `BlockMap`, `ExtWalk` and `ExtBytes` are the ext reader, and `TinyImage`,
`OutOfOrder` and `LegacyImage` its example images. `SourceReader` and `Init` are the
two smaller state machines.

Loops are methods over arrays, sequences and class fields, each proved equal to a specification function
or predicate; the laws are lemmas about those. `old`-style contracts of state-changing methods state the
whole new state. An allocation or a write that may fail and a run that may be cancelled are nondeterministic
choices, so every result holds for every pattern of failures. Where a failure is silent and a completeness
claim needs that there was none, a flag says so (`complete`, `indexed`, `intact`, `lost`). The parameter
`calm` stands for a run in which nothing of the kind goes wrong: then every flag is the good one, and no
such failure is reported.

## Where the code and its documentation disagree

* src/fs/ext_reader.h:55 promises extents in ascending order. Extent trees are not checked for it:
  `OutOfOrder.Image` is an image that is opened and whose only file every full walk reports with mappings
  that are not ascending (`OutOfOrder.ReportedOutOfOrder`), and `ExtentOrder.TreeAscending` says exactly
  when the order holds. Block maps are always ascending (`BlockMap.Collect`).
* The patch format's own description says that the last sparse operation of a block may be truncated.
  The decoder does so for add runs (`SparseRuns.LongAddAccepted`) but rejects a copy run that passes the end
  of the block (`SparseRuns.LongCopyRejected`, src/patch.c:457-506). `SparseRuns.AnyRuns` is the exact
  condition.
* Selector 3 of an offset field is not a form the format has, and the encoder never writes it. The decoder
  accepts it and uses offset 0 without reading a byte (src/patch.c:268-290, src/patch.c:356-385):
  `Ops.SelectorThreeRead`, `Decoder.SelectorThreeAccepted`.
* The format has no inline count for relocations, and the encoder never writes one (`Ops.InlineUnwritten`). The
  decoder rejects the form for COPY_ADD but accepts it for relocations, where the same bits are the count
  and the offset selector and sign: `Ops.InlineRead`, `Decoder.InlineRelocateAccepted`.

## Model

| member | source | states |
|---|---|---|
| `Varint.EncodeVarint` | src/encoding/operation_encoder.c:28-36 | the loop writes exactly the base-128 digits of `Varint.Encode` |
| `Varint.EncodeShort` | src/encoding/operation_encoder.c:28-36 | a positive value takes no more bytes than its own size, which the sparse bound needs |
| `Varint.TenBytesSuffice` | src/encoding/operation_encoder.c:389-390 | every 64-bit value fits in the ten-byte scratch buffer |
| `Varint.ReadVarint` | src/patch.c:68-90 | the loop equals `Varint.Decode` on every input, including truncation, overflow and bits lost above 64 |
| `Varint.RoundTrip` | src/patch.c:68-90 | reading what was written gives back every 64-bit value and stops right after it |
| `Varint.EncodeDigits` | src/encoding/operation_encoder.c:28-36 | the digits make up the value, exactly the bytes before the last have the continuation bit, and no leading digit is 0 |
| `Varint.DecodeExact` | src/patch.c:68-90 | on any bytes: ten continuation bytes are corrupt data, fewer at the end of the stream a truncation, and otherwise the value is that of the digits modulo 2^64 |
| `Sparse.EncodeBlock` | src/encoding/operation_encoder.c:363-417 | the two-mode writer appends exactly `Sparse.Encode` of the delta block and never leaves the space of two bytes per output byte |
| `Sparse.SizeBound` | src/encoding/operation_encoder.c:336-418 | each block's sparse form is at most twice the block size |
| `Sparse.DecodeBlock` | src/patch.c:457-506 | the alternating reader, in place on the block, equals `Sparse.Decode` on every region and cursor |
| `Sparse.RoundTrip` | src/patch.c:457-506 | for every delta block, decoding restores source + delta, consumes exactly the bytes written and raises no error |
| `SparseWriter.WriterRule` | src/encoding/operation_encoder.c:368-416 | the runs follow the two-zeros rule: an add run takes every byte that is changed or followed by a changed one and stops at the first that is not; a copy run takes all the zeros that follow |
| `SparseWriter.RuleUnique` | src/encoding/operation_encoder.c:368-416 | the rule leaves no choice |
| `SparseWriter.RuleDeltas` | src/encoding/operation_encoder.c:368-416 | the runs hold exactly the deltas |
| `SparseWriter.ContentBound` | src/encoding/operation_encoder.c:357-418 | a block costs at most 22 bytes per changed byte and 20 more, whatever its size |
| `SparseWriter.ZeroBlock` | src/encoding/operation_encoder.c:357-418 | an unchanged block is an empty add run and one copy run |
| `SparseRuns.AnyRuns` | src/patch.c:457-506 | for any alternating runs that cover a block, however chosen, the reader succeeds if and only if no copy passes the end and no round before the last is empty; then the result is source + deltas, all bytes are consumed, and the surplus of the last add is dropped |
| `SparseRuns.LongCopyRejected` | src/patch.c:488-497 | a block-sized copy that is one byte too long is corrupt data |
| `SparseRuns.LongAddAccepted` | src/patch.c:466-480 | an add run that is too long is consumed and cut at the end of the block |
| `Ops.CountBytesRoundTrip` | src/encoding/operation_encoder.c:46-76 | inline, 1-, 2- and 4-byte counts read back as the count modulo 2^32 in the widest form |
| `Ops.RelocateRoundTrip` | src/encoding/operation_encoder.c:173-244 | sign and magnitude offsets of every width read back |
| `Ops.CopyAddRoundTrip` | src/encoding/operation_encoder.c:420-482 | two's complement offsets of 16, 24 and 32 bits, count, format bit and diff length read back |
| `Ops.ParseOp` | src/patch.c:228-294 | every parsed operation ends inside the stream and asks for no more blocks than remain |
| `Ops.RoundTrip` | src/patch.c:228-294 | every representable operation is parsed back, with the count its field can carry |
| `Ops.OpSize` | src/encoding/operation_encoder.c:164-501 | an operation takes at most 13 bytes |
| `Ops.OpLength` | src/encoding/operation_encoder.c:46-76 | every field has the narrowest width that the writer's rules allow |
| `Ops.SelectorThreeUnwritten` | src/encoding/operation_encoder.c:195-202 | the writer has no offset field with selector 3 |
| `Ops.SelectorThreeRead` | src/patch.c:268-290 | the reader takes selector 3 as offset 0 without a byte, and exactly when it accepts the operation |
| `Decoder.SelectorThreeAccepted` | src/patch.c:268-290 | a two-byte stream with selector 3 that is accepted and copies the first block |
| `Ops.InlineUnwritten` | src/encoding/operation_encoder.c:204-219 | the writer never uses the inline count for a relocation or a COPY_ADD |
| `Ops.InlineRead` | src/patch.c:228-290 | the reader rejects it for COPY_ADD and takes it for a relocation exactly when the count fits and the offset field is there |
| `Decoder.InlineRelocateAccepted` | src/patch.c:228-290 | a two-byte stream with an inline relocation count that is accepted and copies the second block |
| `Encoder.FindRun` | src/encoding/operation_encoder.c:134-161 | the coalescing loops find the maximal run of joining blocks, capped for partial matches |
| `Encoder.RunMaximal` | src/encoding/operation_encoder.c:134-161 | a run ends only where the next block cannot join it |
| `Encoder.ChooseFormat` | src/encoding/operation_encoder.c:317-329 | sparse is chosen exactly when the run's non-zero delta bytes are below the threshold per block |
| `Encoder.BuildDiff` | src/encoding/operation_encoder.c:331-418 | the scratch buffer of two bytes per output byte is filled with the run's diff data and not overrun |
| `Encoder.EmitRun` | src/encoding/operation_encoder.c:163-501 | one run's contribution to the three streams, with both literal fallbacks |
| `Encoder.Encode` | src/encoding/operation_encoder.c:116-512 | the whole encoder equals the run-by-run specification |
| `Encoder.DiffFits` | src/encoding/operation_encoder.c:280-301 | the run cap keeps the diff length in 32 bits for every block size up to 2^24 |
| `Encoder.EncodeSucceeds` | src/encoding/operation_encoder.c:476-482 | so the defensive length error is never raised |
| `Output.JoinsIsSame` | src/encoding/operation_encoder.c:134-161 | blocks join a run by kind and distance, and partial matches as long as two diff bytes per output byte fit 32 bits |
| `Output.OpAtIs` | src/encoding/operation_encoder.c:163-501 | which operation a run becomes, with its offset; sparse exactly when fewer than 512 bytes per block are changed, counted as a set of positions |
| `Output.LiteralStream` | src/encoding/operation_encoder.c:82-92 | the literal stream is exactly the blocks without a match or with one too far away, in order |
| `Output.VerbatimSize` | src/encoding/operation_encoder.c:82-92 | its length is the block size times their number |
| `Output.StreamsDescribe` | src/encoding/operation_encoder.c:130-504 | the operation and diff streams, parsed back, are the maximal runs of the tracker one by one |
| `Output.NoDeltas` | src/encoding/operation_encoder.c:262-491 | without partial matches in reach the diff stream is empty |
| `Output.FeedWellWritten` | src/encoding/operation_encoder.c:116-512 | all of this for one encoding |
| `Decoder.Decode` | src/patch.c:228-554 | total on arbitrary streams; success means exactly dest_blocks × block_size bytes |
| `Decoder.ExecOp` | src/patch.c:248-530 | one operation, loop by loop, equals its specification, errors included |
| `Decoder.DecodeStreams` | src/patch.c:228-554 | the loop over three cursors equals `Decoder.Decode` |
| `Refusals.ParsePlain` | src/patch.c:228-246 | every operation with only a count, field by field and error by error; operations 6 and 7 do not exist |
| `Refusals.ParseRelocate` | src/patch.c:266-292 | the same for relocations |
| `Refusals.ParseAdd` | src/patch.c:334-415 | the same for COPY_ADD, with a two's complement offset |
| `Refusals.IdentityExact` | src/patch.c:249-264 | succeeds if and only if the source has all the blocks, and then writes exactly them; otherwise corrupt data |
| `Refusals.RelocateExact` | src/patch.c:294-309 | the same at the offset |
| `Refusals.FillsExact` | src/patch.c:312-332 | blocks of zeros and of ones never fail |
| `Refusals.LiteralExact` | src/patch.c:517-530 | succeeds if and only if the literal stream has all the blocks; otherwise a truncation |
| `Refusals.AddNeedsDeltas` | src/patch.c:417-428 | the deltas of an operation must be in the stream before any block is looked at |
| `Refusals.DenseExact` | src/patch.c:430-456 | dense deltas: succeeds if and only if source and deltas have all the bytes; the first block that lacks something decides the error |
| `Refusals.AddDenseExact` | src/patch.c:417-456 | a whole dense COPY_ADD |
| `Refusals.SparseExact` | src/patch.c:430-515 | sparse deltas over several blocks, for any alternating runs: succeeds if and only if the source has all the bytes and every block's runs are proper |
| `Refusals.StreamEnds` | src/patch.c:545-552 | too few operations are a truncation |
| `Codec.RoundTrip` | src/patch.c:228-554 | for every sound tracker, decoding the encoded streams gives the destination if and only if all runs are below 2^32 blocks, and an error otherwise |
| `Codec.FewBlocks` | src/encoding/operation_encoder.c:72-73 | fewer than 2^32 destination blocks are always enough |
| `Codec.LongKindFails` | src/encoding/operation_encoder.c:151-161 | 2^32 consecutive records of one kind (not relocated or partial) end up in one run that is too long |
| `Codec.ZeroImageFails` | src/encoding/operation_encoder.c:72-73 | 2^32 or more zero blocks, with any source, make a patch that the decoder rejects |
| `Header.WriteHeader` | src/encoding/bkdf_header.c:38-78 | the buffer holds the 32 header bytes, lengths modulo 2^64 |
| `Header.ReadHeader` | src/encoding/bkdf_header.c:93-133 | an accepted header has a block size exponent of 5 to 24 and fields in range |
| `Header.RoundTrip` | src/encoding/bkdf_header.c:38-133 | a header reads back as itself exactly when its block size is allowed, whatever follows |
| `Header.ReadExact` | src/encoding/bkdf_header.c:93-133 | what is a header, byte by byte, and which error the first wrong thing gives |
| `Header.ReadValues` | src/encoding/bkdf_header.c:117-131 | the fields stand at bytes 5, 8, 16 and 24 |
| `Writer.BufferedWriter.Flush` | src/io/buffered_writer.c:69-83 | moves the buffered bytes behind the flushed ones and changes nothing else; a failure keeps the buffer |
| `Writer.BufferedWriter.Write` | src/io/buffered_writer.c:85-117 | flushed plus buffered bytes grow by exactly the data, for every buffer size |
| `Writer.BufferedWriter.WriteByte` | src/io/buffered_writer.c:119-133 | the same for one byte |
| `Writer.BufferedWriter.WriteLE` | src/io/buffered_writer.c:135-165 | the same for little-endian integers of 2, 4 and 8 bytes |
| `Writer.BufferedWriter.WriteAll` | src/io/buffered_writer.c:69-170 | after any sequence of writes the contents are their concatenation |
| `Writer.BufferedWriter.BytesWritten` | src/io/buffered_writer.c:167-170 | the reported size is the length of everything written |
| `PatchFile.SavePatch` | src/diff.c:341-388 | three temporary streams and the header are assembled into the patch file |
| `PatchFile.LayoutRoundTrip` | src/patch.c:172-195 | header and streams parse back into the same fields and the same three slices |
| `PatchFile.StreamSizes` | src/diff.c:371-385 | bounds on the stream lengths that keep the header fields exact |
| `PatchFile.ApplyPatch` | src/patch.c:151-554 | header checks, stream location and decoding equal `PatchFile.Apply` |
| `PatchFile.LocateExact` | src/patch.c:160-195 | beyond a good header, refused exactly when the destination is larger than 2^63 - 1 bytes or the streams do not fit in the file |
| `PatchFile.StreamsFound` | src/patch.c:188-195 | the streams that the patcher finds are those that the encoder wrote |
| `PatchFile.PatchRoundTrip` | src/patch.c:160-195 | the patch file of a sound tracker applies to exactly the destination, if and only if it is at most 2^63 - 1 bytes and all runs are below 2^32 blocks |
| `Bitmap.TestIsBit` | src/core/block_tracker.c:24-26 | the mask test reads exactly one bit |
| `Bitmap.DropLowest` | src/core/block_tracker.c:136-150 | clearing the lowest set bit removes exactly one |
| `Bitmap.PopCount` | src/core/block_tracker.c:136-150 | the Kernighan loop counts the set bits |
| `Tracker.BlockTracker.constructor` | src/core/block_tracker.c:28-74 | all blocks unmatched, all their bits set, bits past the end clear |
| `Tracker.BlockTracker.IsUnmatched` | src/core/block_tracker.c:124-128 | the bit test agrees with the record, also past the end |
| `Tracker.BlockTracker.SetMatch` | src/core/block_tracker.c:76-102 | first writer wins: only an unmatched block changes; bitmap and counters stay exact |
| `Tracker.BlockTracker.SetCrc` | src/core/block_tracker.c:104-109 | changes one record's CRC and nothing else |
| `Tracker.BlockTracker.SetDelta` | src/core/block_tracker.c:111-122 | changes one record's offset and delta and nothing else |
| `Tracker.BlockTracker.UnmatchedCount` | src/core/block_tracker.c:136-150 | the population count is the number of unmatched blocks, and with the five counters adds up to the block count |
| `Tracker.BlockTracker.Finalize` | src/core/block_tracker.c:164-175 | clears every bit, counts the literals, changes no record; all six counters add up to the block count |
| `Tracker.Conservation` | src/core/block_tracker.c:59-102 | the kinds partition the blocks |
| `Scalar.IsConst` | src/simd/simd_scalar.c:14-64 | the word-at-a-time test equals the byte-wise definition, for blocks of zeros and of ones |
| `Scalar.IsZeroQuick` | src/stages/stage_relocation.c:18-33 | the sampling test equals the byte-wise definition on whole words |
| `Scalar.CountMatches` | src/simd/simd_scalar.c:66-102 | the XOR-and-shift count refines the byte-wise count of equal positions |
| `BlockSearch.SearchBest` | src/stages/block_search.c:25-82 | the sweep returns the leftmost best screened candidate, or -1 with the floor; stopping at a perfect match changes nothing |
| `BlockSearch.BestUnique` | src/stages/block_search.c:25-82 | a sweep has only one outcome |
| `BlockSearch.ScreenExact` | src/stages/block_search.c:59-66 | the prescreen changes the result of the full sweep exactly when it rejects the full sweep's winner |
| `BlockSearch.CloseMatchPasses` | src/stages/block_search.c:37-66 | a candidate with at most 256 - prescreen_min mismatches is never screened out |
| `BlockSearch.SearchOptimal` | src/stages/block_search.c:25-82 | if the full sweep's best is that close, or the prescreen is off, the search returns it |
| `BlockSearch.PerfectPasses` | src/stages/block_search.c:59-76 | a perfect match is never screened out |
| `BlockSearch.ScreenedOut` | src/stages/block_search.c:59-66 | a concrete block that reaches the threshold and is screened out |
| `HashTable.BucketCount` | src/core/hash_table.c:43-56 | a power of two, at least 1024, with a load factor of at most 3/4 |
| `HashTable.Table.Insert` | src/core/hash_table.c:76-93 | head insertion adds one item to the table's history; a failed allocation adds none |
| `HashTable.Table.Lookup` | src/core/hash_table.c:95-111 | returns the chain from its first entry with the key on |
| `HashTable.LookupIsScan` | src/core/hash_table.c:76-111 | lookup and chain walk find what a linear scan, newest first, finds, for any hash, bucket count and collisions |
| `Stages.IdentityRun` | src/stages/stage_identity.c:111-179 | every record becomes the zero, one, identity or CRC decision for its block |
| `Stages.IdentityStageSound` | src/stages/stage_identity.c:111-179 | stage 1 keeps every match sound |
| `Stages.BuildIndex` | src/stages/stage_relocation.c:85-105 | without a lost insertion the index holds exactly the non-zero source blocks, in order |
| `Stages.RelocationRun` | src/stages/stage_relocation.c:141-194 | every unmatched record becomes the first equal block of its chain, if there is one |
| `Stages.RelocationStageSound` | src/stages/stage_relocation.c:141-194 | stage 2 keeps every match sound, even with a damaged index |
| `Stages.RelocationComplete` | src/stages/stage_relocation.c:141-194 | with a complete index a block left unmatched equals no source block, and a relocation names the highest-numbered equal one |
| `Partial.Record` | src/stages/stage_partial.c:231-245 | a recorded partial match has delta = dest - src mod 256 at an in-bounds position and leaves all other records alone |
| `Partial.FindBest` | src/stages/stage_partial.c:168-217 | a count that reaches the threshold comes with a real position of that quality, never with -1; the two probes come first, the continuation of the previous match before the block's own position; below the quick-accept bar nothing around the block is better; a lower count means that neither the radius nor the relocation-relative sweep has anything that reaches the threshold |
| `Partial.ExtendMatch` | src/stages/stage_partial.c:248-285 | exactly the following free blocks that match at the same offset are matched, up to the first that cannot be |
| `Partial.PartialRun` | src/stages/stage_partial.c:84-295 | new matches reach the threshold; without allocation failures, blocks left unmatched have nothing in the radius and nothing after the match before them, and every match is extended |
| `Partial.PartialStepSound` | src/stages/stage_partial.c:219-287 | both partial stages keep every match sound |
| `Partial.SmallBlocksUnscreened` | src/stages/block_search.c:37-50 | below 1024 bytes "no acceptable neighbour" speaks of every in-bounds offset of the radius |
| `Partial.SmallBlocksAfter` | src/stages/stage_partial.c:206-217 | the same for the relocation-relative sweep, offsets 0 to the radius |
| `Partial.SmallBlocksNear` | src/stages/stage_fsmap.c:437-461 | the same for a failed hypothesis, the radius on both sides |
| `Partial.VerifyHypothesis` | src/stages/stage_fsmap.c:424-461 | the result is the best of the hypothesis and the sweep around it; a failure means that neither reaches the threshold |
| `Partial.FsmapRun` | src/stages/stage_fsmap.c:413-477 | new matches reach the threshold; without allocation failures an unmatched block's hypothesis has been tried and has failed |
| `Fsmap.BuildPaths` | src/stages/stage_fsmap.c:128-172 | the file table keeps exactly the walked files that have blocks, indexed by the hash of their path |
| `Fsmap.StoredExact` | src/stages/stage_fsmap.c:135-137 | exactly the walked files that have blocks are kept |
| `Fsmap.FindFile` | src/stages/stage_fsmap.c:175-190 | hash lookup of a path agrees with linear search over the stored paths |
| `Fsmap.NewestFound` | src/stages/stage_fsmap.c:175-190 | with a complete table the newest stored file of a path is found, and none exactly when no stored file has it |
| `Fsmap.SrcMapRange` | src/stages/stage_fsmap.c:194-207 | the loop finds the first extent that holds the whole range |
| `Fsmap.MapRange` | src/stages/stage_fsmap.c:194-207 | a mapped range lies in one extent at that position; an unmapped one lies in none |
| `Fsmap.RangeExact` | src/stages/stage_fsmap.c:249-255 | first and last enumerate exactly the blocks wholly inside an extent |
| `Fsmap.WalkExtent` | src/stages/stage_fsmap.c:248-283 | one extent's hypotheses, with the path looked up lazily |
| `Fsmap.WalkFile` | src/stages/stage_fsmap.c:237-285 | one destination file's hypotheses, none when the source lacks its path |
| `Fsmap.HypothesesExact` | src/stages/stage_fsmap.c:237-285 | the hypotheses are exactly the supported ones |
| `Fsmap.SupportMeaning` | src/stages/stage_fsmap.c:237-285 | a supported hypothesis: an unmatched block inside one destination extent, and the same path and offsets inside one source extent, in bounds |
| `FileBytes.SameByte` | src/stages/stage_fsmap.c:264-270 | every byte of a hypothesis' block and the source byte expected for it are the same byte of files of the same path |
| `Fsmap.SortSorts` | src/stages/stage_fsmap.c:291-297 | the order of `hyp_cmp`; the result of `Fsmap.Sort` is sorted and a permutation |
| `Fsmap.Dedup` | src/stages/stage_fsmap.c:361-370 | in place: strictly increasing blocks, the least position of each, every block kept |
| `Fsmap.Collect` | src/stages/stage_fsmap.c:347-371 | the finished list is increasing, founded on two files of one path, and beats every supported hypothesis |
| `Fsmap.BuildHypotheses` | src/stages/stage_fsmap.c:299-386 | the whole index over two arbitrary images, empty when either is not a readable filesystem; when nothing was lost, over all their files and all their paths |
| `Fsmap.LeastExists` | src/stages/stage_fsmap.c:361-370 | a block that the source stores at all has a lowest stored position |
| `Fsmap.CompleteList` | src/stages/stage_fsmap.c:237-370 | a complete list has exactly one entry for each unmatched block that the source stores at the same offsets of the same path, at the lowest such position |
| `Controller.PartialInv` | src/stages/stage_controller.c:201-254 | a partial stage keeps soundness, quality, recognised blocks and completeness of the exact stages |
| `Controller.ExactPhase` | src/stages/stage_controller.c:155-199 | stages 1 and 2 and their cancel checks |
| `Controller.FsmapPhase` | src/stages/stage_controller.c:201-230 | stage 2b: the list of both images' files is built, complete when nothing was lost, and all of it is tried |
| `Controller.ListTried` | src/stages/stage_controller.c:201-230 | so for every unmatched block that both images store under one path at the same offsets, the lowest stored position has been tried and has failed |
| `Controller.RunStages` | src/stages/stage_controller.c:139-273 | every run keeps the invariant; errors are a missing source, cancellation or lack of memory, and a calm run has none; a successful one ends with a final tracker, recognised plain blocks, no equal source block overlooked, good partial matches, everything stored alike tried and an exhausted radius |
| `Controller.StretchFails` | src/stages/stage_identity.c:111-179 | 2^32 consecutive blocks of zeros, of ones or unchanged always make a run that is too long |
| `Controller.NothingStored` | src/diff.c:346-369 | the patch of two equal images holds no delta and no literal byte |
| `Controller.Diff` | src/diff.c:144-396 | which inputs are refused and with which error; what else can go wrong, and that a calm run succeeds; diff then patch is the identity, with the exact condition; the patch holds what the tracker calls for and nothing else |
| `ExtImage.Open` | src/fs/ext_reader.c:174-284 | probe and geometry checks; an accepted image satisfies the geometry invariant |
| `ExtImage.OpenGuarantees` | src/fs/ext_reader.c:182-247 | an accepted image has the magic, is clean, needs no journal replay and has only supported features; inode sizes are powers of two |
| `ExtBytes.OpenExact` | src/fs/ext_reader.c:174-284 | from the bytes of the superblock: refused as no filesystem, refused as corrupt, or opened with these values, each exactly when |
| `ExtBytes.TooSmall` | src/fs/ext_reader.c:182-185 | an image without room for a superblock is refused |
| `ExtImage.FsBlock` | src/fs/ext_reader.c:159-168 | a block that is returned lies inside the image |
| `ExtImage.FsBlockDefined` | src/fs/ext_reader.c:159-168 | for an opened image the range check alone decides |
| `ExtImage.GroupInside` | src/fs/ext_reader.c:303-323 | the checks at open imply that every group descriptor read is inside the image |
| `ExtImage.InodeAt` | src/fs/ext_reader.c:303-323 | an inode that is returned lies inside the image |
| `ExtBytes.InodeExact` | src/fs/ext_reader.c:303-323 | from the bytes: inode `w` of group `g` is slot `w` of the table that descriptor `g` names, or none exactly when that is out of range |
| `ExtBytes.InodeRange` | src/fs/ext_reader.c:304-306 | there is no inode 0 and none past the last |
| `ExtBytes.SlotsApart` | src/fs/ext_reader.c:317 | different slots of one table, and slots of separate tables, do not overlap |
| `ExtBytes.FormatExact` | src/fs/ext_reader.c:577 | the file type is the upper four bits of the mode |
| `ExtBytes.FileSizeExact` | src/fs/ext_reader.c:325-331 | regular files have a 64-bit size, everything else a 32-bit one |
| `ExtBytes.FileBlocksExact` | src/fs/ext_reader.c:504 | the least number of blocks that holds the size |
| `ExtBytes.FlagsExact` | src/fs/ext_reader.c:494-505 | which of the three maps an inode has, by its flag bits |
| `Extents.AppendMeaning` | src/fs/ext_reader.c:346-376 | coalescing never changes the mapping |
| `Extents.AppendTidy` | src/fs/ext_reader.c:346-376 | ascending appends keep the list ascending, disjoint and maximally coalesced |
| `Extents.RunsCount` | src/fs/ext_reader.c:346-376 | a coalesced list has exactly as many extents as its mapping has maximal runs |
| `Extents.Append` | src/fs/ext_reader.c:346-376 | one entry is appended, or refused exactly when one run more than 65536 would be needed; a failed reallocation gives the file up |
| `Extents.ExtentsFromNode` | src/fs/ext_reader.c:381-428 | terminates by depth; success appends exactly the blocks of all initialised leaf entries; a failure without a failed allocation means a malformed tree or more than 65536 runs |
| `Extents.ReadTree` | src/fs/ext_reader.c:499-501 | from an empty list: succeeds if and only if the tree is well-formed and takes at most 65536 extents |
| `Extents.TreeInRange` | src/fs/ext_reader.c:381-428 | every leaf entry of a well-formed tree has a length of 1 to 32768 and lies in the filesystem |
| `Extents.TreeBlocks` | src/fs/ext_reader.c:381-428 | every block that a well-formed tree maps is a block of the filesystem |
| `ExtBytes.NodeHeaderExact` | src/fs/ext_reader.c:384-395 | from the bytes: when the header of a node is accepted |
| `ExtBytes.LeafExact` | src/fs/ext_reader.c:400-413 | from the bytes: what a leaf entry says |
| `ExtBytes.ChildExact` | src/fs/ext_reader.c:415-417 | from the bytes: which block an index entry names |
| `ExtBytes.NodeExact` | src/fs/ext_reader.c:397-427 | a node is well-formed exactly when all its entries are, and its leaves are exactly those of its entries |
| `ExtentOrder.TreeAscending` | src/fs/ext_reader.h:55-56 | the mappings are ascending if and only if the leaf entries are in order |
| `OutOfOrder.Opens` | src/fs/ext_reader.c:174-284 | the counterexample's image passes every check at open |
| `OutOfOrder.ReportedOutOfOrder` | src/fs/ext_reader.c:553-674 | every full walk of it reports the file `/a` with mappings that are not ascending |
| `OutOfOrder.WalkImage` | src/fs/ext_reader.c:553-674 | a walk in which nothing goes wrong is one |
| `BlockMap.Indirect` | src/fs/ext_reader.c:433-467 | one subtree: appends exactly the mapped pointers, skips whole-subtree holes; a failure without a failed allocation means a bad pointer or more than 65536 runs |
| `BlockMap.Collect` | src/fs/ext_reader.c:469-488 | the list denotes exactly (n, pointer(n)) for the mapped file blocks under direct and 1- to 3-level indexing, and is tidy; without a failed allocation it succeeds if and only if the file is not oversized, no pointer is bad and at most 65536 extents are needed |
| `ExtBytes.DirectExact` | src/fs/ext_reader.c:475-480 | from the bytes: the first twelve file blocks are the first twelve words |
| `ExtBytes.SingleExact` | src/fs/ext_reader.c:459-465 | from the bytes: file block 12 + i is word i of the block that word 12 names |
| `ExtBytes.DoubleExact` | src/fs/ext_reader.c:459-465 | from the bytes: the same through two map blocks |
| `ExtBytes.TripleExact` | src/fs/ext_reader.c:459-465 | from the bytes: the same through three |
| `LegacyImage.Opens` | src/fs/ext_reader.c:174-284 | an ext2 image of two groups passes every check at open |
| `LegacyImage.ReportedWithItsBlock` | src/fs/ext_reader.c:553-674 | every full walk of it reports its file, whose inode is in the second group and whose one block is behind the indirect pointer, with exactly that block |
| `LegacyImage.WalkImage` | src/fs/ext_reader.c:553-674 | a walk in which nothing goes wrong is one |
| `ExtWalk.InodeExtents` | src/fs/ext_reader.c:492-506 | the inode's blocks by whichever map it has; without a failed allocation exactly for the readable inodes |
| `ExtWalk.ReadDirent` | src/fs/ext_reader.c:594-623 | an accepted record has at least 8 bytes and ends inside its block |
| `ExtBytes.RecordRefused` | src/fs/ext_reader.c:594-600 | from the bytes: when a record ends the block |
| `ExtBytes.TypedRecord` | src/fs/ext_reader.c:601-606 | from the bytes: what a record with a type byte says |
| `ExtBytes.UntypedRecord` | src/fs/ext_reader.c:607-621 | from the bytes: what a record without one says |
| `ExtBytes.DepthGrows` | src/fs/ext_reader.c:545-551 | a joined path is one level deeper |
| `ExtWalk.Walker.Push` | src/fs/ext_reader.c:637-650 | marks and pushes an unseen subdirectory within the caps; the budget never grows |
| `ExtWalk.Walker.Report` | src/fs/ext_reader.c:657-662 | one file goes to the callback |
| `ExtWalk.Walker.Visit` | src/fs/ext_reader.c:622-667 | one record: subdirectory marked, readable regular file reported with exactly its blocks |
| `ExtWalk.Walker.ScanBlock` | src/fs/ext_reader.c:588-670 | all records of a block are handled |
| `ExtWalk.Walker.Pop` | src/fs/ext_reader.c:573-574 | takes the newest waiting directory; the budget strictly decreases |
| `ExtWalk.Walker.Expand` | src/fs/ext_reader.c:573-673 | one directory: the budget strictly decreases and nothing is forgotten |
| `ExtWalk.Walker.Run` | src/fs/ext_reader.c:553-674 | the walk terminates on every opened image, expands no inode twice, reports only regular files with their blocks, and is complete within its caps |
| `ExtWalk.WalkFiles` | src/fs/ext_reader.c:553-674 | the list of files is sound and full: real files under listed paths, and nothing within the caps missing |
| `ExtWalk.ReportedResolves` | src/fs/ext_reader.c:622-664 | every reported path resolves, record by record from the root directory, to the reported inode |
| `SourceReader.MaskRoundsDown` | src/io/source_reader.c:272 | masking rounds down to the next multiple |
| `SourceReader.RoundsUp` | src/io/source_reader.c:78-80 | `round_up_pow2` gives the next multiple |
| `SourceReader.PreadFull` | src/io/source_reader.c:218-240 | for any short reads and interruptions, success fills the buffer with the zero-padded file window |
| `SourceReader.DirectReader.Refill` | src/io/source_reader.c:270-290 | an aligned read; success caches the wanted byte, failure leaves the cache empty |
| `SourceReader.DirectReader.ReadAt` | src/io/source_reader.c:242-293 | success returns exactly file[offset..offset+len] whatever came before; `Truncated` exactly when the range is outside; every miss is followed by a hit |
| `SourceReader.DirectReader.Materialize` | src/io/source_reader.c:295-321 | the whole file, or an error of a read or of the buffer's allocation |
| `Init.RunInv` | src/patch.c:650-678 | the protocol invariant holds in every state of every run |
| `Init.OneInitialiser` | src/patch.c:650-678 | never two threads inside the initialisation, and never a second one |
| `Init.ReturnMeansInitialised` | src/patch.c:650-678 | when a call has returned, exactly one thread has initialised, all of it is published, and the table is never written again |
| `Init.StepAdvances` | src/patch.c:650-678 | every step brings the calls nearer to their end, except a turn of the spin loop, which changes nothing |
| `Init.NeverStuck` | src/patch.c:650-678 | while a call has not returned, some thread can advance |

## Left out

- Operating-system plumbing: mmap, O_DIRECT open, size and alignment queries, temporary files, unlink on error. A file is a byte sequence, and a `pread` is any short read.
- The command line, progress callbacks, verbose output, the match log, statistics, error strings and version strings: no hard property.
- The AVX2 and NEON forms and CPU detection: only the scalar forms are modelled.
- The CRC32 table: the CRC is an arbitrary function of the bytes, so the results hold for any hash.
- The memory pool: an allocation succeeds or fails. Several allocations that end a run with the same error are one choice in the model (the parts of the tracker, the file table with its paths, the hypothesis array, the encoder's scratch buffers).
- Floating-point thresholds: the threshold is the byte count that the fraction stands for, at most the block size.
- `fsd_cleanup` concurrent with `fsd_init`, the fallback without C11 atomics, and memory ordering: steps are atomic and sequentially consistent.
- Integer widths: positions and sizes are unbounded integers except where the code truncates (counts, group count, header fields, varints). In particular the decoder's `src_byte_pos` sum is not wrapped at 64 bits, which needs dest_blocks × block_size up to INT64_MAX - INT32_MAX.
- `qsort` is an insertion sort in the model; only its result, a sorted permutation, is used.
- `next_power_of_2` is computed by doubling instead of by smearing bits.
- Writing the final patch: creating the files and copying the streams are one choice each in the model. Write failures of the rebuilt image in the patcher are not modelled. `PatchFile.SaveStream` hands each stream to its writer in one write; `Writer.BufferedWriter.WriteAll` covers any sequence of writes.
- The encoder's sparse writer reads a delta that is shorter than a block past its end; no stage makes one, and the model pads it with zeros as the dense writer does.
- The bounds check on the source position in the partial stage (src/stages/stage_partial.c:223-229) is not repeated in the model: the position is proved to be in bounds.
- PreadFull: any finite number of interruptions is covered; an endless sequence of them, in which the code would never return, is not.
- The set of visited inodes is a set of numbers; its byte array is not modelled.
- ext reader interface details that have no effect here: the reason strings, and allocation failure inside `fsd_extfs_open`, which the stage reports like any other lack of memory.
- Controller.Diff: the allocation of the context in `fsd_diff_create`, before any check, is not modelled, and the destination is taken to be smaller than 2^64 bytes, as any file that can be mapped is.
- Stages.BuildIndex: block sizes are multiples of 8, as the powers of two from 32 on are; for other sizes the sampling zero test would ignore the last bytes.
