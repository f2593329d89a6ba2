# A verified model of the store's core algorithms

This project models the parts of the key-value and search store that are hardest to get right, in Dafny, and proves
what they promise. Objects that the program updates in place are classes here, loops are loops, and every such method
is proved against a function or a predicate that says what its result means; the properties of those are lemmas. Where
threads meet, or where a crash may come between any two writes, the model is a state machine and the property is
proved for every run of it.

Verify everything with `dafny verify dfyconfig.toml`.

## What is modelled

**Edit distance.** `EditDistance` is the textbook matrix. `EditScripts` shows that it is the least number of edits
that turn one string into the other, and a metric. `Levenshtein` is the two-row loop with its 32-bit cells, `Myers`
the 64-bit column recurrence with its carries (`Word64`) and early exit. Up to 64 pattern bytes the bit-vector form
decides exactly distance <= k; beyond that it is the two-row loop, whose cells may wrap once a string reaches 2^32 - 1
bytes. `RightExactlyFor` says for which lengths the loop is right: for all strings of lengths m and n exactly if
`LengthsOk(m, n)`.

**CRC-32** (section 3.2.9 of IEEE Std 802.3-2018, inverted as in section 8 of RFC 1952). The table is eight
shift-and-xor steps of each byte, the bytewise loop is the bit-serial register, and the dispatcher's cuts into head,
body and tail do not show. `CrcValues` fixes which CRC it is: the check value, the constant that a message followed by
its own CRC leaves, and that a leading zero byte shows for all seeds but one. Two equally long inputs that differ only
within 32 consecutive bits never have the same CRC, and 33 bits are too many. The path without the wide kernels passes
its length to zlib as 32 bits: it is right for all data of a length exactly if the length is below 2^32
(`CutIsRightExactly`). `RecordIntegrity` carries this over to records: damage to up to four neighbouring bytes that
lie all in the checksum or all behind it is noticed, in the sizes too where they still announce the record's length.
Damage that crosses from the checksum into what it covers can go unnoticed: `HiddenExactly` says when, and
`StraddlingDamage` has a family of documents that four other bytes turn into tombstones.

**Publication without locks.** `EpochReclaim` has the registry's operations and a machine in which any number of
readers and writers pause between any two loads or stores, the scan for the least active epoch included. `RowChunks`
has the chunked array and a machine of one writer and any number of readers, each holding whatever spine it loaded.

**Posting lists.** `PostingRows` says what a list means, `PostingList` keeps the parallel columns, the offsets that
come into being with the first position, the sealed blocks and the compaction in place. `Bm25` is the score and its
bounds, and `Bm25Laws` says how occurrences, length and parameters enter it. `WandLists`, `TopK` and `Wand` are the
block-max search: although it steps over documents and blocks, it returns exactly the best k of all live documents,
scored whole. `MaxScore` is the search that is used by default: only lists that can still bring a document in lead it.
It returns the same, and when the two can differ is proved too.

**Intersection.** `Intersect` has the scalar merge and the four-lane block form with rotations, compare masks and the
table of lane permutations. Both return the one ascending list of common values.

**Metadata blobs.** `VByte`, `MetaFormat`, `MetaCodec` and `MetaApi`: an encoder, a decoder, a search with early exit,
and the second parser and search of the C interface, which agree on any bytes whatever. What the early exit finds in a
blob that is not ordered is exact, too.

**Registries, data files and checkpoints.** `SchemaFormat`, `SchemaRecovery` and `FieldSchema` are the field-name
file, `RecordFormat`, `FoldRecovery` and `DataFile` the data file with its atomic batches. `PositionedWrite` says what
writes that may fail halfway do to a file, `Leftovers` and `BufferedWrites` what becomes of their bytes when the store
runs on. `SchemaDamage`, `DamagedScan` and `BrokenBatch` are about files that were damaged: which damage refuses an
open, which records a scan skips, and where batches that do not come out even end it. `Manifest`, `CkptChain` and
`CkptProtocol` the manifest and the chains of delta files. Files are byte strings that a crash may cut or leave
behind.

**The ordered key index.** `OkiRows`, `OkiMerge`, `OkiBuilder`, `OkiView` and `OkiState`: rows in memory, immutable
runs, flushes with rows arriving in between, merges and lookups, against the one rule that the row with the greatest
ord, and among those the last to arrive, wins. `OkiReplay` is about losing memory and replaying the log. `OkiLookup`
is a machine in which a lookup takes its two looks, into memory and into the runs, with anything in between.

## What turned out different from what is written

- A flush of the ordered index that holds rows back (include/bitcask/oki_state.hpp 105-110 says such rows are always
  the newest) never holds back a tombstone, which has no place in a file. A put beyond its file's durable watermark
  and a later tombstone leave the put in memory, and a lookup finds the removed record
  (`OkiStates.RemovedRecordIsFound`). `OkiStates.FlushIsRightExactly` gives the exact condition on the rows in memory
  and the watermarks.
- The same lines say that cover and watermark leave held rows out, so that the replay after a crash is consistent. But
  a tombstone of another key, never held, lifts the watermark above a held put: the replay then drops the put, and a
  lookup misses a record that is in the log (`OkiReplays.HeldPutIsLost`). A flush leaves the replay right exactly if
  no winner that is held back lies below the new watermark (`OkiReplays.FlushThenReplay`).
- A row that bypasses the watermark gate is always taken; if it is older than its key's winner and that is no longer
  in memory, it hides the winner (`OkiView.AppendExactly`).
- An immediate write behind buffered records, as after a flush of the buffer that has failed, leaves a hole in their
  place, and the next flush puts them over the end of the record just acknowledged (`BufferedWrites.FlushedBytes`).
  The record survives that exactly if it ends as the buffer does (`BufferedWrites.RecordSurvivesExactly`); a waiting
  record of its size is then read in its place (`BufferedWrites.OtherRecordIsRead`).
- When a write fails and the store runs on, bytes of it may stay behind what is written next. They do not show in a
  scan exactly if they are quiet (`Leftovers.FailedWriteHidesExactly`); otherwise a record can appear that was never
  written (`Leftovers.UnwrittenIsSeen`).
- A read of the field-name file that fails is taken for its end, and what was not read is cut off: names survive
  exactly if everything was read (`SchemaRecovery.NamesSurviveExactly`). If it cannot be cut off, ids change their
  names (`SchemaRecovery.IdChangesItsName`).
- The search by maximal scores takes the greatest 64-bit number for the end of all lists and never returns documents
  that occur only in lists with a bound of zero; otherwise the two searches agree (`MaxScore.SameResultsExactly`).
- The scan of a data file adds the sizes of a record in 32 bits, while a write accepts any sizes that fit their
  fields. A file as it was written can be scanned exactly if every record, in a batch or not, is below 2^32 bytes
  (`FoldRecovery.ScannedExactly`); a larger one stops every scan that begins before it
  (`FoldRecovery.LargeRecordStopsScan`).
- The 32-bit cells of the edit distance and the 32-bit length of the CRC without kernels give out at the lengths named
  above (`Levenshtein.RightExactlyFor`, `CrcErrorDetection.CutIsRightExactly`).
- A batch whose span is not complete or in which a checksum does not fit is to be invisible as a whole
  (include/bitcask/format.hpp 55-56). The scan skips a damaged member and hands over the others
  (`DamagedScan.DamageIsSkipped`). Of a batch that does not come out even the header and the members in front of the
  break have been handed over before the scan stops, although the valid end is where the batch begins
  (`BrokenBatches.BrokenBatchIsCutOff`).
- With its header damaged and skipped, a batch of which a crash has left only some members is not invisible at all:
  those members are handed over, and a recovery keeps them (`DamagedScan.PartOfBatchIsSeen`).
- A batch's end is added up in 64 bits, and 0 is the mark of no batch: a header whose end comes out as 0 is taken for
  a record like others (`BrokenBatches.HeaderOfNoBatch`).
- Changing four neighbouring bytes of a record across the border of its checksum can give another record that is
  accepted (`StraddlingDamage.DocumentTurnsIntoTombstone`).
- A headerless field-name file whose first name is of one particular length and beginning is taken for one with a
  header: it reads back as written exactly if that name is another (`SchemaRecovery.HeaderlessReadsBack`). A header
  cut to four to seven bytes is refused (`SchemaRecovery.HeaderPieceRefused`), as the comments say it should.
- The previous base of a component is read when the current one does not match, but what is found there is never used
  (`CkptProtocol.LoadDocmap`); comments in src/keydir/docmap_ckpt.cpp 286 call it the fallback for recovery.

## Assumptions

- The checksum of schema files, records and the manifest is a parameter, any function of the bytes. The store uses
  CRC-32, which `RecordIntegrity` puts in its place.
- The recovery theorems of the field-name file are about names of at most 65535 bytes: the length field of an entry
  has sixteen bits, and the entry of a longer name is not read back (`SchemaFormat.EntryReadsBack`).
- Lists and strings of a metadata blob are shorter than 2^63.
- For score bounds the document length of every posting is known and is the one the query sees; scores are real
  numbers.
- The epoch counter does not wrap around. Loads and stores are sequentially consistent.
- Between two deltas of one chain something has been logged, and checkpoint watermarks do not decrease; both follow
  from taking watermarks from the counter of ords.

## Model

| member | source | states |
|---|---|---|
| EditDistance.DiagonalFree | include/bitcask/myers.hpp:53-73 | a cell equals its diagonal neighbour exactly if the bytes match or one of the two cells between is one less; the fact the bit-vector recurrence computes with |
| EditDistance.ColumnsBound | include/bitcask/myers.hpp:70-72 | over j' - j columns the distance falls by no more than j' - j, which is why the early exit never rejects a match |
| EditDistance.Symmetric | include/bitcask/fuzzy_matcher.hpp:13-38 | the distance of prefixes does not depend on which string is which |
| EditScripts.Triangle | include/bitcask/fuzzy_matcher.hpp:13-38 | the triangle inequality for all prefixes of three strings |
| EditScripts.DistanceIsMetric | include/bitcask/fuzzy_matcher.hpp:13-38 | zero exactly for equal strings, symmetric, triangle inequality |
| EditScripts.ScriptsAreNoShorter | include/bitcask/fuzzy_matcher.hpp:13-38 | no sequence of insertions, deletions and substitutions that turns a into b is shorter than the distance |
| EditScripts.DistanceIsLeastEdits | include/bitcask/fuzzy_matcher.hpp:13-38 | some sequence of edits has exactly that length, and none is shorter |
| Levenshtein.LevenshteinDistance | include/bitcask/fuzzy_matcher.hpp:13-38 | the two-row loop returns the cell of the matrix computed in 32 bits, and the distance itself for all lengths that are LengthsOk |
| Levenshtein.RightExactlyFor | include/bitcask/fuzzy_matcher.hpp:13-38 | the loop is right for all strings of lengths m and n exactly if the lengths are LengthsOk: below 2^32 - 1, or with one string empty below 2^32; for all others there are strings it gets wrong |
| Word64.AddIsModular | include/bitcask/myers.hpp:57 | the ripple-carry sum of two words is their sum modulo 2^64, so carries out of the top are lost as in the program |
| Myers.HorizontalSigns | include/bitcask/myers.hpp:56-59 | bit i of ph and mh says exactly whether row i + 1 of the matrix goes up or down from column j to j + 1, carries of the addition included |
| Myers.NextColumn | include/bitcask/myers.hpp:53-68 | if vp and vn encode the vertical differences of column j in their low m bits, the new ones encode those of column j + 1; what stands above bit m does not matter |
| Myers.MyersMatcher.constructor | include/bitcask/myers.hpp:25-35 | every entry of the table has exactly the bits of the positions where its byte stands in the pattern |
| Myers.MyersMatcher.Scan | include/bitcask/myers.hpp:40-75 | for every pattern of 1 to 64 bytes, every text and k: true exactly if the edit distance is at most k, early exit included |
| Myers.MyersMatcher.Within | include/bitcask/myers.hpp:40-75 | true exactly if the distance is at most k, for all patterns of up to 64 bytes and for longer ones whenever the lengths are LengthsOk; beyond that what the two-row loop says |
| Crc32.ShiftLinear | include/bitcask/hw_crc32.hpp:92-103 | the shift-and-xor step is linear over xor |
| Crc32.TableIsEightShifts | include/bitcask/hw_crc32.hpp:57-90 | each of the 256 constants is eight shift-and-xor steps of its index with polynomial EDB88320 |
| Crc32.AbsorbWord | include/bitcask/hw_crc32.hpp:92-103 | xoring a word in and shifting n times is feeding its n low bits one by one into the bit-serial register |
| Crc32.UpdateByte | include/bitcask/hw_crc32.hpp:112-124 | one look-up step is eight steps of the bit-serial register fed with the byte, low bit first |
| CrcUpdate.Bytewise | include/bitcask/hw_crc32.hpp:104-127 | the unrolled loop and its rest leave the register where feeding all bits of the buffer leaves it |
| CrcUpdate.Split | include/bitcask/hw_crc32.hpp:183-227 | for every length from 16 and every address the cuts into small blocks, aligned head, body and tail process every byte once and in order |
| CrcUpdate.Update | include/bitcask/hw_crc32.hpp:164-236 | the result is the CRC of all data if the wide path is taken or data are shorter than 2^32; without it, of the length modulo 2^32 only. What the CRC is, inversion at both ends included, is fixed by the rows of CrcValues |
| CrcUpdate.Streaming | include/bitcask/hw_crc32.hpp:162-165 | continuing from the CRC of a with b gives the CRC of a followed by b |
| CrcValues.CheckValue | include/bitcask/hw_crc32.hpp:164-236 | the CRC of the nine characters 123456789 is CBF43926, the check value of this CRC |
| CrcValues.OfZeroByte | include/bitcask/hw_crc32.hpp:164-236 | the CRC of one zero byte is D202EF8D |
| CrcValues.ZeroInFront | include/bitcask/hw_crc32.hpp:164-236 | a zero byte in front changes the CRC of every message, whatever it is continued from, with the one exception of FFFFFFFF |
| CrcValues.Residue | include/bitcask/hw_crc32.hpp:164-236 | a message followed by its own CRC, lowest byte first, has one and the same CRC, 2144DF1C, whatever the message and the seed |
| CrcErrorDetection.BitStepInjective | include/bitcask/hw_crc32.hpp:92-103 | fed with the same bit, different registers stay different |
| CrcErrorDetection.BurstDetected | include/bitcask/hw_crc32.hpp:104-127 | bit strings of one length that differ only within 32 consecutive bits leave the register in different states |
| CrcErrorDetection.BurstTheorem | include/bitcask/hw_crc32.hpp:164-236 | messages of one length that differ at most within 32 consecutive bits have equal CRCs exactly if they are equal |
| CrcErrorDetection.FourByteWindow | include/bitcask/hw_crc32.hpp:164-236 | the same for four consecutive bytes |
| CrcErrorDetection.ThirtyThreeBitsCollide | include/bitcask/hw_crc32.hpp:104-127 | 33 bits are too many: from every register two strings of 33 bits that differ from the first bit on lead to the same register |
| CrcErrorDetection.LongInputsLoseBytes | include/bitcask/hw_crc32.hpp:231-235 | inputs of 2^32 bytes or more that differ in their last four bytes have different CRCs but the same first length-modulo-2^32 bytes, which are all that the path without kernels passes on |
| CrcErrorDetection.CutIsRightExactly | include/bitcask/hw_crc32.hpp:231-235 | the path without kernels is right for all data of a length exactly if the length is below 2^32 |
| RecordIntegrity.SumTells | src/fileops/codec.cpp:16-25 | checksums as the store computes them agree on strings that differ within four bytes exactly if the strings are equal |
| RecordIntegrity.SumOfSummed | src/fileops/codec.cpp:64-66 | the checksum of bytes followed by their own checksum as it is stored is one number for all bytes, 2144DF1C |
| RecordIntegrity.DamagedRecordIsRefused | src/fileops/codec.cpp:82-117 | up to four neighbouring bytes replaced by anything, all in the checksum or all behind it, the sizes included: a record that still announces its length decodes as itself if nothing changed and as a bad checksum otherwise, one that announces more is cut short; the length cannot change unless the sizes are touched |
| RecordIntegrity.HiddenExactly | src/fileops/codec.cpp:82-117 | damage across the border of the checksum: whatever stands behind it, the checksum bytes that are damaged can hide that exactly if those left alone are the right ones already |
| StraddlingDamage.DocumentTurnsIntoTombstone | src/fileops/codec.cpp:38-117 | every document record with 27 bytes of key and value and a time divisible by 256 becomes, by other bytes at 2 to 5, a tombstone that decodes |
| RecordIntegrity.ScanSeesDamage | src/fileops/data_file.cpp:339-371 | a scan that meets such a record sees damage of the original size, so it can go on behind it |
| EpochReclaim.Registry.Advance | include/bitcask/epoch_reclaim.hpp:63-65 | the epoch goes up by one modulo 2^64 and the new value is the stamp |
| EpochReclaim.Registry.MinActive | include/bitcask/epoch_reclaim.hpp:69-76 | the result is the least non-zero stored epoch, or the maximum if no slot stores one |
| EpochReclaim.Registry.AcquireSlot | include/bitcask/epoch_reclaim.hpp:79-90 | claims the first free slot and clears it, or -1 exactly if all are claimed; no other slot changes |
| EpochReclaim.Registry.ReleaseSlot | include/bitcask/epoch_reclaim.hpp:92-96 | gives back the slot and clears it, and touches nothing else; no slot is no error |
| EpochReclaim.StepKeepsInv | include/bitcask/epoch_reclaim.hpp:8-22 | every step of any reader or writer, one load or store each, keeps who owns which slot, what stamps and stored epochs say about who may hold which block, and what a scan under way has seen |
| EpochReclaim.RunKeepsInv | include/bitcask/epoch_reclaim.hpp:8-22 | the invariant holds in every state of every run |
| EpochReclaim.Safety | include/bitcask/epoch_reclaim.hpp:8-28 | in every run of any number of readers and writers no block is freed while a reader that obtained it is between its slot store and its slot clear, and no slot has two owners |
| EpochReclaim.GivesUpOnlyThen | include/bitcask/epoch_reclaim.hpp:79-90 | in every run a reader ends up without a slot only after it has seen each of the 64 in use |
| EpochReclaim.KeptOnlyForAReader | include/bitcask/epoch_reclaim.hpp:67-76 | in every run what a finished scan does not allow to be freed was stamped no earlier than an epoch that some slot showed at a moment of that very scan |
| RowChunks.Rows.GrowSpine | include/bitcask/row_chunks.hpp:89-100 | the new spine holds all chunks, is twice as long or 8, and the old one goes to the graveyard unchanged |
| RowChunks.Rows.EnsureSlot | include/bitcask/row_chunks.hpp:79-107 | afterwards the next row has a place; no chunk moves, and every older spine still leads to the same chunks |
| RowChunks.Rows.PushBack | include/bitcask/row_chunks.hpp:47-52 | the rows are the old ones and the new one; chunks never move, and retired spines together are smaller than the current one |
| RowChunks.Rows.Get | include/bitcask/row_chunks.hpp:55-58 | the two-level access finds row i |
| RowChunks.StepKeepsInv | include/bitcask/row_chunks.hpp:45-107 | a step of the writer or a reader never goes outside a spine or a chunk, and rows that were pushed stay |
| RowChunks.ReadersSeeWhatWasPushed | include/bitcask/row_chunks.hpp:8-19 | in every run a reader that loaded a published count and then any spine reads for each index below the count the row that was pushed there, however often the spine grows in between |
| RowChunks.RowsNeverMove | include/bitcask/row_chunks.hpp:8-12 | a row stays at its place with its value from its push on, in every run |
| Intersect.IntersectionIsUnique | bench/intersect_u64_proto_bench.cpp:35-51 | there is only one ascending list of the common values, so both algorithms agree |
| Intersect.Scalar | bench/intersect_u64_proto_bench.cpp:35-51 | the merge returns the common values, ascending and once each |
| Intersect.PairLut.constructor | bench/intersect_u64_proto_bench.cpp:71-89 | entry m lists the pairs of half-lanes of its set bits in order, then the first pair up to the end |
| Intersect.AllPairs | bench/intersect_u64_proto_bench.cpp:114-120 | after the rotations lane k is set exactly if a[i + k] equals some value of the other block |
| Intersect.Pack | bench/intersect_u64_proto_bench.cpp:121-126 | the permutation by table brings the selected lanes to the front, in order |
| Intersect.MatchBlocks | bench/intersect_u64_proto_bench.cpp:109-133 | one round finds exactly the values common to the two blocks, in order, at the front of the packed vector |
| Intersect.Advance | bench/intersect_u64_proto_bench.cpp:135-138 | moving the block with the smaller maximum loses no match: what has been found are all common values that lie in the part of either list that is behind |
| Intersect.CountFits | bench/intersect_u64_proto_bench.cpp:127-133 | what has been found is never longer than either list, so four more always fit and the guard never grows the buffer |
| Intersect.Vectorized | bench/intersect_u64_proto_bench.cpp:92-148 | the block form and its scalar tail return the common values, ascending and once each, for all strictly ascending inputs |
| PostingRows.FlatSlice | include/bitcask/inverted.hpp:119-126 | neighbouring offsets cut a row's positions out of the flat array |
| PostingLists.OffsetsAscend | include/bitcask/inverted.hpp:87-104 | the offsets begin at zero, never fall, and the last one is the number of positions |
| PostingRows.LiveExact | include/bitcask/inverted.hpp:215-256 | the rows that survive are exactly those with a live flag |
| PostingRows.LiveAscending | include/bitcask/inverted.hpp:215-256 | the survivors keep strictly ascending ords |
| PostingRows.LiveAll | include/bitcask/inverted.hpp:239 | as many rows survive as there were exactly if all flags are live, and then they are the same |
| PostingLists.PostingList.Positions | include/bitcask/inverted.hpp:121-126 | row i's own positions, whether or not offsets exist |
| PostingLists.PostingList.Append | include/bitcask/inverted.hpp:130-142 | adds one row with all its columns; the offsets come into being with the first row that has positions, and cover all rows before it |
| PostingLists.PostingList.Finalize | include/bitcask/inverted.hpp:145-172 | the blocks are those a batch pass computes over all rows: full ones and a last partial one, none below 128 rows |
| PostingLists.PostingList.SealFullBlocks | include/bitcask/inverted.hpp:177-195 | the blocks are exactly the full blocks of the rows |
| PostingLists.PostingList.NoteAppended | include/bitcask/inverted.hpp:198-206 | whatever sealing came before, afterwards the blocks are exactly the full ones of the current rows and max_tf is the true maximum |
| PostingRows.BlockIs | include/bitcask/inverted.hpp:63-75 | a block holds the first and last ord of its rows, the greatest tf among them and the least length that is known, 1 if none is |
| PostingLists.PostingList.CompactFlags | include/bitcask/inverted.hpp:215-256 | in place: the rows are the live ones in their old order with their own tf, dl and positions, blocks and maximum fit them; false exactly if all are live, and then nothing has changed |
| Bm25.ScoreMonotone | include/bitcask/bm25_kernels.hpp:65-73 | a posting with a greater tf in a shorter document never scores less, and no score is negative |
| Bm25.ScoreScalar | include/bitcask/bm25_kernels.hpp:54-75 | the loop writes for every posting the score of the formula, and nothing behind the first n places; the rows of Bm25Laws fix how tf, length, b, k1 and delta enter it |
| Bm25Laws.ScoreEquation | include/bitcask/bm25_kernels.hpp:65-73 | the score is the one number that solves the equation between occurrences and weighted length, for all parameters |
| Bm25Laws.LengthDoesNotCount | include/bitcask/bm25_kernels.hpp:65-73 | with b at 0 documents of any two lengths score alike |
| Bm25Laws.OnlyTheShareCounts | include/bitcask/bm25_kernels.hpp:65-73 | with b at 1 a document c times as long in which the term occurs c times as often scores alike |
| Bm25Laws.OnceInAverageLength | include/bitcask/bm25_kernels.hpp:65-73 | at average length one occurrence scores exactly idf * (1 + delta) |
| Bm25Laws.NoOccurrence | include/bitcask/bm25_kernels.hpp:65-73 | no occurrence scores exactly idf * delta |
| Bm25Laws.StaysBelow | include/bitcask/bm25_kernels.hpp:65-73 | for a term worth something every score is below idf * (k1 + 1 + delta) |
| Bm25Laws.ComesNear | include/bitcask/bm25_kernels.hpp:65-73 | and for any length some number of occurrences comes as near to that as one likes |
| Bm25.BlockBound | include/bitcask/inverted.hpp:63-75 | no posting of a block scores above the formula at the greatest tf and the least document length that the block stores |
| Bm25.PositiveExactly | include/bitcask/bm25_kernels.hpp:65-73 | a posting scores above zero exactly if its term is worth something and it occurs at all or delta is positive |
| TopK.TopKIsUnique | src/bm25/bm25_search_impl.hpp:63-77 | there is only one ranking of the best k, scores descending and ords ascending among equals |
| TopK.TopKMeans | src/bm25/bm25_search_impl.hpp:63-77 | nobody left out beats or equals an entry that is in with a smaller ord; if anyone is left out there are k; the ranking is strict |
| TopK.Offer | src/bm25/bm25_search_impl.hpp:79-96 | with offers in ascending order of ord, comparing scores alone keeps the heap the best k of all that was offered |
| TopK.NotAmongThem | src/bm25/bm25_search_impl.hpp:66-70 | a later document that does not score above the last of a full heap is not among the best |
| WandLists.FullInBlock | src/bm25/bm25_search_impl.hpp:477-507 | a document in a block scores at most the block's bound plus the list bounds of all other open lists |
| WandLists.ScoreAtMostFull | src/bm25/bm25_search_impl.hpp:520-538 | cursors that have gone past a document only make its score smaller |
| WandLists.MovedKeeps | src/bm25/bm25_search_impl.hpp:443-518 | moving cursors over documents that cannot get in keeps the invariant of the search |
| WandLists.TermOfIsValid | src/bm25/bm25_search_impl.hpp:367-373 | lists sealed as posting lists seal them, with known document lengths, have the bounds that the search relies on |
| WandLists.FullIsRowScores | src/bm25/bm25_search_impl.hpp:367-373 | over lists of an index a document scores the sum of the formula at its own rows in the lists that have it, each at its own tf and length |
| Wand.FindPivot | src/bm25/bm25_search_impl.hpp:427-441 | the pivot is the first list in order with which the summed bounds reach the threshold; none if all open lists together stay below it |
| Wand.Gallop | src/bm25/bm25_search_impl.hpp:458-471 | growing steps and a binary search find the first row that is not before the pivot |
| Wand.SkippedIsMoved | src/bm25/bm25_search_impl.hpp:484-518 | every document stepped over with a block either was given up before or does not score above the threshold |
| Wand.OfferPivot | src/bm25/bm25_search_impl.hpp:520-546 | after scoring the pivot the heap is the best k of all documents up to it |
| Wand.Search | src/bm25/bm25_search_impl.hpp:390-580 | the result is the best k of all live documents that any term occurs in, each with its whole score: skipping never loses or misranks one |
| MaxScore.SortOrder | src/bm25/bm25_search_impl.hpp:1573-1580 | the lists in ascending order of their bounds, and in their own order where bounds are equal |
| MaxScore.FullAtMost | src/bm25/bm25_search_impl.hpp:1581-1588 | bounds for the lists added up in any order bound the score, which is added up in the order of the terms |
| MaxScore.OnlyAside | src/bm25/bm25_search_impl.hpp:1590-1596 | a document that occurs only in lists left aside cannot get in: a full heap is above it, or the lists cannot score |
| MaxScore.BoundFrom | src/bm25/bm25_search_impl.hpp:1640-1668 | what no document from the candidate to the least block end can score above, by the bounds of the blocks where the lists stand, of the lists without one, and of all lists left aside |
| MaxScore.SkipKeeps | src/bm25/bm25_search_impl.hpp:1669-1675 | skipping all leading lists behind that end loses no document that could get in |
| MaxScore.LeadingScore | src/bm25/bm25_search_impl.hpp:1677-1708 | finds out whether the candidate is live, and together with the bounds of the lists aside what it can score at most |
| MaxScore.ScoreWhole | src/bm25/bm25_search_impl.hpp:1709-1740 | the lists aside catch up and the candidate is offered with its whole score: the heap is the best k up to it |
| MaxScore.Search | src/bm25/bm25_search_impl.hpp:1480-1765 | the result is the best k of all live documents below the greatest number that occur in a list with a positive bound, each with its whole score |
| MaxScore.CanScoreExactly | src/bm25/bm25_search_impl.hpp:1546-1567 | a list has a positive bound exactly if its term is worth something and it has any occurrence or delta is positive |
| MaxScore.SameResultsExactly | src/bm25/bm25_search_impl.hpp:46-56 | both searches give the same results if every live document occurs in a list with a positive bound and has not the greatest number, and, where there are fewer than k, only then |
| MaxScore.SearchTopK | src/bm25/bm25_search_impl.hpp:1770-1787 | whichever search is switched on, under that condition the result is the best k of all live documents |
| VByte.ReadChecked | include/bitcask/vbyte.hpp:67-79 | reads a number and where it ends, or none if the buffer ends first or the number is longer than 64 bits |
| VByte.RoundTrip | include/bitcask/vbyte.hpp:67-79 | every 64-bit number is read back from its encoding wherever it stands, with the right end |
| VByte.GroupsOf | include/bitcask/vbyte.hpp:33-40 | the bytes are groups of seven bits, lowest first, and only the last has its top bit set |
| VByte.NineBytes | include/bitcask/meta_codec.hpp:80-90 | nine bytes are enough exactly for numbers below 2^63 |
| MetaFormat.DecodeUndoesEncode | include/bitcask/meta_codec.hpp:111-301 | decoding the blob of any entry list gives the list back |
| MetaFormat.BlobsOfEveryType | include/bitcask/meta_codec.hpp:111-193 | the bytes of the blobs of one entry, for each of the five types of value: version, count, key, type tag and value |
| MetaFormat.FindIsLookup | include/bitcask/meta_codec.hpp:303-313 | on the blob of a list with ascending keys the search answers for every key what the list says, early exit or not |
| ByteOrder.LessExactly | include/bitcask/meta_codec.hpp:335-336 | one key is less than another exactly if it is a proper prefix or has the smaller byte at the first place where they differ |
| MetaFormat.OrderIsNeeded | include/bitcask/meta_codec.hpp:336 | out of order the early exit misses an entry that is there |
| MetaFormat.FindsFirstExactly | include/bitcask/meta_codec.hpp:313-413 | on the blob of any list, ordered or not, the search gives the value of the first entry with the key exactly if no greater key stands before it, and nothing otherwise |
| MetaCodec.PayloadFits | include/bitcask/meta_codec.hpp:94-107 | an entry's bytes never exceed what is reserved for it |
| MetaCodec.StoreVByte | include/bitcask/meta_codec.hpp:82-90 | writes the encoding of the number and leaves what stands before it |
| MetaCodec.EncodeMeta | include/bitcask/meta_codec.hpp:114-193 | appends the blob of the entries; the writes stay inside the reserved space |
| MetaCodec.DecodeMeta | include/bitcask/meta_codec.hpp:198-301 | on any bytes: the entries the format gives them, or an error, without reading outside |
| MetaCodec.MetaLookup | include/bitcask/meta_codec.hpp:313-413 | on any bytes: the first entry with the key before a greater one or damage, Null otherwise |
| MetaApi.ParseOne | c_api/internal.h:582-645 | the second parser reads on any bytes the same entry, or none, as the decoder |
| MetaApi.CursorSeesWhatDecodes | c_api/bitcask_kv.cpp:1544-1587 | the decoder accepts a blob exactly if a cursor gets through all announced entries, and then both see the same ones |
| MetaApi.MetaIter.Begin | c_api/bitcask_kv.cpp:1544-1561 | the cursor stands at the first entry with the announced count, or at nothing if the header is no good |
| MetaApi.MetaIter.Next | c_api/bitcask_kv.cpp:1563-1587 | gives the first of the entries that were left and leaves the others; after damage it stays at the end |
| MetaApi.Lookup | c_api/bitcask_kv.cpp:1589-1616 | on any bytes and for every key the same value as MetaLookup, not found being Null |
| MetaApi.SortedIsUnique | c_api/bitcask_kv.cpp:1499-1505 | entries with distinct keys have one sorted list, so the order of the input does not matter |
| MetaApi.Encode | c_api/bitcask_kv.cpp:1472-1535 | an invalid entry or a key that occurs twice is refused and nothing else is; otherwise the blob is that of the entries in key order |
| SchemaFormat.HeaderBytes | include/bitcask/field_schema.hpp:251-256 | the eight header bytes are the magic number and the version in little-endian order |
| SchemaFormat.EntryReadsBack | include/bitcask/field_schema.hpp:258-281 | an entry is read back as the name it was written for exactly if the name fits sixteen bits of length |
| SchemaDamage.EntryLayout | include/bitcask/field_schema.hpp:239-249 | which bytes of an entry hold the length, the name and the checksum of both |
| SchemaFormat.ParseCut | include/bitcask/field_schema.hpp:291-333 | a file of entries cut anywhere behind its header parses to exactly the names whose entries are complete, ending where they end |
| SchemaRecovery.LoadCut | include/bitcask/field_schema.hpp:79-104 | the same of loading, for both formats |
| SchemaDamage.DamagedEntryIsRefused | include/bitcask/field_schema.hpp:291-333 | a complete entry whose name or checksum was changed so that they no longer fit is refused when it is read: the open fails and the file stays, whatever comes behind and whatever the system allows |
| SchemaDamage.FourBytesAreRefused | include/bitcask/field_schema.hpp:291-333 | with the store's checksum any change of up to four neighbouring bytes, all in the name or all in the checksum, is refused |
| SchemaDamage.OtherVersionIsRefused | include/bitcask/field_schema.hpp:85-91 | a file with the magic number and another version is refused |
| SchemaRecovery.InternKeeps | include/bitcask/field_schema.hpp:185-224 | adding a name, with any number of bytes reaching the disk, keeps the file a prefix of what was sent and the names in memory |
| SchemaRecovery.OpenKeeps | include/bitcask/field_schema.hpp:63-175 | opening what a crash left, of which perhaps only a part can be read, succeeds, gives exactly the whole entries that were read, upgraded or not, and leaves a file to which more can be appended, or one that is not written to |
| SchemaRecovery.CrashAndReopen | include/bitcask/field_schema.hpp:63-175 | after a cut anywhere and a read that fails anywhere reopening succeeds exactly if not four to seven bytes of a header are all that was read; the names are then a prefix of those handed out, and all of them if nothing was cut, all was read and writing had not stopped |
| SchemaRecovery.NamesSurviveExactly | include/bitcask/field_schema.hpp:79-104 | the names on disk survive an open exactly if the file could be read to the end of the last complete entry |
| SchemaRecovery.IdChangesItsName | include/bitcask/field_schema.hpp:106-160 | after a short read of a file that cannot be cut either, a new name takes the id of a name still on disk, and the next open gives that id its old name |
| SchemaRecovery.StepKeeps | include/bitcask/field_schema.hpp:63-224 | every step of a run keeps the invariant, restarts with failing reads included as long as what was not read is gone afterwards |
| SchemaRecovery.IdsKeepTheirNames | include/bitcask/field_schema.hpp:206-217 | in any run of additions, failed writes, crashes and reopenings, legacy files included, every id that survives a crash and a reading that may stop anywhere has the name it had |
| SchemaRecovery.HeaderPieceRefused | include/bitcask/field_schema.hpp:85-91 | a header cut to four to seven bytes is refused once it is read |
| SchemaRecovery.HeaderlessReadsBack | include/bitcask/field_schema.hpp:79-104 | a headerless file reads back as the names that were written exactly if its first name is not of the one length and beginning that look like the magic number |
| SchemaRecovery.MagicNameRefused | include/bitcask/field_schema.hpp:85-91 | a file with such a name alone is refused whenever the bytes after the magic number are no version 1 |
| FieldSchemas.FieldSchema.LoadNames | include/bitcask/field_schema.hpp:291-333 | the reading loops: the names and the valid end that the bytes read parse to, or damage |
| FieldSchemas.FieldSchema.Append | include/bitcask/field_schema.hpp:275-281 | succeeds exactly if all bytes reach the disk, and only then moves the offset |
| FieldSchemas.FieldSchema.Open | include/bitcask/field_schema.hpp:63-175 | file and registry become what the recovery model says, for every outcome of opening, reading, measuring, truncating and upgrading; on failure, as of every damaged entry (SchemaDamage), the file is untouched |
| FieldSchemas.FieldSchema.Intern | include/bitcask/field_schema.hpp:185-224 | a known name gives its id, a new one of any length the next id and its bytes; a failed write stops persisting |
| RecordFormat.DecodeUndoesEncode | src/fileops/codec.cpp:38-117 | a record is decoded from its bytes |
| RecordFormat.RecordLayout | src/fileops/codec.cpp:38-68 | which bytes of a record hold the checksum, kind, time, ord, sizes, key and value, and what the checksum covers |
| RecordFormat.DecodeBatchBack | src/fileops/codec.cpp:123-148 | a batch header is decoded from its bytes unless it announces nothing, which is refused |
| RecordFormat.BatchLayout | src/fileops/codec.cpp:123-131 | which bytes of a batch header's value hold version, count and span |
| RecordFormat.TooLargeToFold | src/fileops/data_file.cpp:339-346 | a record whose sizes overflow 32 bits reads as cut short |
| FoldRecovery.CutFold | include/bitcask/format.hpp:49-60 | however a file of single records and batches is cut, a scan hands over exactly the records of the complete units, in order and with their offsets, and ends where they end; never part of a batch |
| FoldRecovery.RecoveryIsAtomic | src/fileops/data_file.cpp:291-425 | the same at any point of any run of appends, torn appends, cuts and recoveries; after a recovery the file is the complete units again |
| FoldRecovery.LargeRecordStopsScan | src/fileops/data_file.cpp:339-378 | behind any units, a record of 2^32 bytes or more, alone or in a batch, makes the whole scan fail, whatever follows it |
| FoldRecovery.ScannedExactly | src/fileops/data_file.cpp:291-404 | over units of any records that a write accepts, a scan hands over all records and ends at the end of the file exactly if every record is below 2^32 bytes, and fails otherwise |
| DamagedScan.DamageIsSkipped | src/fileops/data_file.cpp:358-371 | in a file of units whose single records and members may be damaged with their sizes intact: if damage is tolerated and there are at most twenty, or none, a scan hands over exactly all others with their offsets, and a batch counts up to its end even if its last member is damaged; otherwise it fails |
| DamagedScan.RecoveryOfDamaged | src/fileops/data_file.cpp:358-425 | a recovery then cuts off only damaged single records at the end, and nothing at all if more than twenty are damaged |
| DamagedScan.EndsWithGood | src/fileops/data_file.cpp:358-425 | if the last unit is a batch or intact, the valid end is the end of the file |
| DamagedScan.PartOfBatchIsSeen | src/fileops/data_file.cpp:358-371 | with its header damaged a batch of which a crash has left only some members is no batch any more: those members are handed over and kept |
| BrokenBatches.BrokenBatchIsCutOff | src/fileops/data_file.cpp:379-399 | a batch in which another header turns up or whose last record reaches beyond its end: the scan stops there, has handed over the header and the members before, and the valid end is where the batch begins |
| BrokenBatches.HurtBatchIsCutOff | src/fileops/data_file.cpp:362-369 | a damaged record that reaches beyond the end of its batch is not handed over, and the valid end is where the batch begins; without tolerance the scan fails |
| BrokenBatches.BatchNotEntered | src/fileops/data_file.cpp:379-386 | a header that announces nothing, or more than the file holds, is not handed over and ends the scan |
| BrokenBatches.HeaderOfNoBatch | src/fileops/data_file.cpp:383-399 | a header whose announced end comes out as 0 in 64 bits is a record like others |
| Leftovers.LeftoversHideExactly | src/fileops/data_file.cpp:291-404 | bytes behind whole units do not show in a scan exactly if they are quiet: no complete record, skipped as damaged, or a batch header that cannot be complete; fewer bytes than a header always are |
| Leftovers.FailedWriteHidesExactly | src/fileops/data_file.cpp:142-160 | after a write that failed with some bytes landed and any number of later ones in its place, a scan sees exactly what was written successfully if and only if what is left of the failed one is quiet |
| Leftovers.UnwrittenIsSeen | src/fileops/data_file.cpp:142-160 | a record whose value holds the bytes of another one: its write fails, the next record ends where those bytes begin, and a scan hands over a record that was never written |
| DataFiles.PatchOrd | src/fileops/codec.cpp:71-78 | the patched bytes are the encoding of the same record with the other ord, checksum included |
| DataFiles.DataFile.Write | src/fileops/data_file.cpp:124-148 | puts the encoding of the record at the write position, behind a hole if buffered records wait; when only part of it lands the write position stays; afterwards the buffer still knows its place exactly if it is empty |
| DataFiles.DataFile.WriteBuffered | src/fileops/data_file.cpp:169-190 | from any state: the record joins the buffer at the write position, and a full buffer is written; if that fails the call does, and the record stays in the buffer; while nothing has gone wrong the logical file grows by the record |
| DataFiles.DataFile.FlushBatch | src/fileops/data_file.cpp:193-204 | from any state: the buffer goes where the write position says, over whatever stands there; if only part of it lands it is kept, and writing it again gives the same file |
| BufferedWrites.FlushedBytes | src/fileops/data_file.cpp:142-204 | after an immediate write behind a waiting buffer the next flush puts the buffer over the end of the file, not into its own place |
| BufferedWrites.RecordSurvivesExactly | src/fileops/data_file.cpp:142-204 | the record that was written there is still there exactly if it and the buffer end in the same bytes |
| BufferedWrites.OtherRecordIsRead | src/fileops/data_file.cpp:142-204 | when the last waiting record has the size of the written one, it is decoded in its place |
| DataFiles.DataFile.Fold | src/fileops/data_file.cpp:291-404 | the loop on any bytes: the calls, the valid end and the failures of the scan that the recovery theorems are about, those of DamagedScan and BrokenBatches included |
| DataFiles.DataFile.Recover | src/fileops/data_file.cpp:343-345 | what is left after truncating to the valid end is what the recovery theorems speak of |
| Manifests.Serialize | include/bitcask/index_manifest.hpp:105-124 | the eighty bytes of the layout |
| Manifests.Layout | include/bitcask/index_manifest.hpp:105-124 | which bytes hold the magic numbers, version, count, checksum and the three numbers of each entry |
| Manifests.ReadImage | include/bitcask/index_manifest.hpp:126-151 | the three entries are read back from the bytes |
| Manifests.Deserialize | include/bitcask/index_manifest.hpp:126-151 | bytes are accepted as a manifest exactly if they are what writing that manifest gives, any other bytes are refused |
| CkptChains.WalkChain | include/bitcask/ckpt_chain.hpp:45-84 | applies a linked stretch 1 to next_seq - 1 and no more; with a committed length ok exactly if all its files are linked and apply, without one exactly if the first missing file ended it; coverage is the last watermark applied |
| CkptChains.LinksExactly | include/bitcask/ckpt_chain.hpp:59-79 | a file continues a chain exactly if its first section of the kind is sound and is byte for byte the three numbers expected |
| CkptChains.InfoIsFirst | include/bitcask/ckpt_chain.hpp:59-66 | that section is the first of its kind, and none only if there is none |
| CkptChains.LinkedBefore | include/bitcask/ckpt_chain.hpp:45-84 | a linked stretch has linked beginnings, so the contract fixes where the walk ends |
| CkptChains.OrphansDoNotMatter | include/bitcask/ckpt_chain.hpp:34-37 | with a committed length no file beyond it has any effect, none at all if the length is zero |
| CkptChains.ChainFiles.RemoveChainFiles | include/bitcask/ckpt_chain.hpp:86-98 | removes 1, 2, ... up to the first eight missing numbers in a row, and nothing else |
| CkptProtocol.LoadDocmap | src/keydir/docmap_ckpt.cpp:420-511 | loaded exactly if the current base has the committed watermark, is sound, and the whole committed chain links and applies; what the previous base holds is never used |
| CkptProtocol.LinkedIsFollowed | src/keydir/docmap_ckpt.cpp:333-411 | a chain of deltas as they are written is walked to its end and gives the log up to its watermark |
| CkptProtocol.NextKeeps | src/cask/cask.cpp:2968-3055 | every step, in any order of writing, failing, removing, committing and crashing, keeps the invariant that the committed base, where it stands, has its whole chain |
| CkptProtocol.NoLoadIsWrong | include/bitcask/index_manifest.hpp:1-7 | at any time in any run a load gives exactly the log up to the committed watermark, or nothing, and nothing exactly if the base is not the committed one; lost rows in files left over never show |
| CkptProtocol.CommittedRoundLoads | src/cask/cask.cpp:3042-3049 | once the manifest is written the round's base or delta counts: a load gives the log up to its watermark |
| CkptProtocol.OrphanIsIgnored | include/bitcask/ckpt_chain.hpp:34-37 | a delta written before a crash without its manifest changes nothing for the next load |
| OkiRows.WinIs | include/bitcask/oki_state.hpp:21-27 | the winner of a key is the row with the greatest ord, and among those the last to arrive |
| OkiRows.WinConcat | include/bitcask/oki_state.hpp:21-27 | winning can be worked out on parts |
| OkiRows.FirstHitIsMerged | include/bitcask/oki_state.hpp:142-147 | if the newest row of a key has no smaller ord than older ones, the first hit from the newest run is the winner over all runs |
| OkiMerge.SortDedup | src/fileops/oki_run.cpp:696-709 | the run has every key once, in order, with its winning row |
| OkiMerge.MergeByGen | src/fileops/oki_state.cpp:351-393 | for every key the winner over all runs, the newer run winning a tie, and nothing if that is a tombstone; keys ascending |
| OkiMerge.MergeByRank | src/fileops/oki_run.cpp:825-855 | the same merge, tombstones left out only if asked |
| OkiBuilder.PiecesMerge | src/fileops/oki_run.cpp:711-733 | merging the runs of pieces finds the winners of the whole, however it was cut |
| OkiBuilder.RunsAgree | src/fileops/oki_run.cpp:761-873 | there is only one run with given answers, so the spill threshold does not show |
| OkiBuilder.SpillingRunBuilder.Add | src/fileops/oki_run.cpp:736-758 | takes the row in the order of arrival, spilling or not; refused once finished |
| OkiBuilder.SpillingRunBuilder.Finish | src/fileops/oki_run.cpp:761-873 | for every key the winner of all rows added, without winning tombstones exactly if they are dropped, whatever was spilled |
| OkiView.AnswersAreRight | include/bitcask/oki_state.hpp:142-147 | memory first and then the newest run that has the key gives the winner of all accepted rows to the last field, tombstone and absence being the same |
| OkiView.AppendExactly | src/fileops/oki_state.cpp:65-91 | a new row keeps the invariant exactly if it is not older than its key's winner or the winner is still in memory; rows from the watermark on always do |
| OkiView.CommitOk | src/fileops/oki_state.cpp:254-268 | publishing the run while its rows are still in memory changes no answer |
| OkiView.TrimOk | src/fileops/oki_state.cpp:270-292 | taking the flushed rows out of memory keeps the invariant |
| OkiView.FlushExactly | src/fileops/oki_state.cpp:182-207 | a flush leaves the answers what they were exactly if of every key with a held row it holds the winner |
| OkiView.NothingHeld | src/fileops/oki_state.cpp:182-207 | a flush without watermarks always meets that |
| OkiStates.FlushIsRightExactly | src/fileops/oki_state.cpp:182-207 | flushing with given durable watermarks leaves all answers what they were exactly if no key has a held row and a winner that is not held |
| OkiStates.RemovedRecordIsFound | include/bitcask/oki_state.hpp:105-110 | a put that lies beyond the durable watermark of its file and its later tombstone: the condition fails, and after the flush a lookup finds the removed record |
| OkiView.CompactOk | src/fileops/oki_state.cpp:307-425 | one run without tombstones in place of all keeps the invariant |
| OkiReplays.ReplayRestores | include/bitcask/oki_state.hpp:10-22 | after a loss of memory, replaying the log through the watermark gate restores every answer exactly if of no key the winner was in memory, below the watermark, and not what the runs show |
| OkiReplays.ReplayGoesOn | include/bitcask/oki_state.hpp:10-22 | if no winner in memory is below the watermark, the replay restores the whole invariant |
| OkiReplays.FlushThenReplay | include/bitcask/oki_state.hpp:105-110 | after any flush with durable watermarks from a state in which no such winner lay below the old watermark, a loss of memory and a replay restore every answer exactly if no winner that was held back is below the new one |
| OkiReplays.FlushCovers | src/fileops/oki_state.cpp:232-268 | after a flush all rows of all runs are below the watermark again |
| OkiReplays.CompactCovers | src/fileops/oki_state.cpp:307-425 | and after a merge |
| OkiReplays.HeldPutIsLost | include/bitcask/oki_state.hpp:105-110 | a put beyond the durable watermark and the later removal of another key: the flush answers rightly, and after a loss of memory the put is dropped at the gate |
| OkiReplays.AnyOrder | include/bitcask/oki_state.hpp:23-27 | a replay may bring the rows in any order: without ties the winners are the same |
| OkiStates.OkiState.Append | src/fileops/oki_state.cpp:65-78 | accepts any row exactly from the watermark on and keeps every answer right, flush under way or not; the flush can still be finished if the row is not older than its key's winner |
| OkiStates.OkiState.AppendUpdate | src/fileops/oki_state.cpp:80-91 | takes every row past the gate, and keeps every answer right exactly if the row is not older than its key's winner or that is still in memory |
| OkiStates.OkiState.Locate | src/fileops/oki_state.cpp:506-557 | with nothing in between, a hit is the winner of all accepted rows to the last field, and a miss means a tombstone or nothing won; unavailable exactly if disabled or not loaded, or if the key is not in memory and an unreadable run or one of version 1 stands before all runs that have it |
| OkiLookups.NextKeeps | src/fileops/oki_state.cpp:65-425 | every arrival, part of a flush and merge keeps the invariant under which a lookup is right |
| OkiLookups.ReadingGoesOn | src/fileops/oki_state.cpp:506-557 | a lookup that did not find its key in memory keeps, under every such step, what lets the runs still answer for a moment since it began |
| OkiLookups.LookupIsRightAtSomeMoment | src/fileops/oki_state.cpp:506-557 | in every run a lookup that looks into memory at one moment and into the runs at a later one answers what was right at some moment between the two |
| OkiStates.OkiState.FlushCopy | src/fileops/oki_state.cpp:164-221 | a row is among the copied ones exactly if it has no place, its file has no mark, or it ends at or before the first mark of its file; memory keeps all rows; the run holds the winners of the copied rows, and its cover is one more than their greatest ord |
| OkiStates.AllFlushed | src/fileops/oki_state.cpp:182-207 | nothing is held back exactly if every row in memory is durable in that sense; the last part of the flush then leaves only what came since |
| OkiStates.OkiState.FlushPublish | src/fileops/oki_state.cpp:226-268 | the run counts once the manifest is written and the watermark goes up to cover it; if anything fails nothing has changed |
| OkiStates.OkiState.FlushTrim | src/fileops/oki_state.cpp:270-292 | held rows and rows that came during the flush stay in memory in their order, only the latter if nothing was held; every answer stays right |
| OkiStates.OkiState.CompactAll | src/fileops/oki_state.cpp:307-425 | all runs become one with the live winners; on failure nothing changes |
| OkiStates.OkiState.Rebuild | src/fileops/oki_state.cpp:427-503 | from now on the answers are those of the collected rows, no run for no rows; if the run or the manifest cannot be written nothing changes |

## Left out

- Myers.MyersMatcher.Within: the 64-bit signed sums of the score test are unbounded here, so texts of 2^62 bytes and more are not covered; above 64 pattern bytes equality with the distance is claimed for the lengths of LengthsOk, which Levenshtein.RightExactlyFor shows to be all for which it holds.
- CrcUpdate.WideKernel: the carry-less multiplication kernels and zlib are replaced by the bytewise loop, with the contract their headers state.
- EpochReclaim.Safety: the wrap-around of the 64-bit epoch and orderings weaker than sequential consistency are not modelled.
- RowChunks.ReadersSeeWhatWasPushed: failing allocations, `clear` and destruction are not modelled; the published count stands for the counter outside the container.
- Bm25.BlockBound: blocks with postings of unknown document length and the rounding of floats are not covered.
- Wand.Search: computing idf and document lengths and filling lengths block by block are not modelled; the heap is a ranked sequence.
- MetaCodec.DecodeMeta: the texts of the errors, and the allocation failure that an absurd entry count provokes, are one error here.
- FieldSchemas.FieldSchema.Open: a read that fails at a place fails there again after the rewind to a headerless file's beginning.
- SchemaRecovery.IdsKeepTheirNames: in a run what a restart could not read must be gone afterwards, as IdChangesItsName shows it must.
- FieldSchemas.FieldSchema.Intern: locking is not modelled; threads are serialised by the mutex.
- DataFiles.DataFile.WriteBuffered: reading through a memory map, chunked reads and durable watermarks are not modelled.
- FoldRecovery.RecoveryIsAtomic: in its runs a write that fails is the last before a recovery; that the store may run on is the subject of Leftovers.
- OkiStates.OkiState.FlushCopy: the class invariant is promised afterwards only if of every key with a held row the winner is held, which OkiView.FlushExactly shows to be exactly what is needed.
- OkiStates.OkiState.Append: lookups are right whatever row arrives; that a flush under way can still be finished is promised only if the row is not older than its key's winner, as ords are handed out in order outside of recovery.
- OkiLookups.LookupIsRightAtSomeMoment: rows arrive in the order of their ords, as outside of recovery, and flushes meet the condition of FlushIsRightExactly.
- OkiStates.OkiState.Locate: the two looks are one step here and two in OkiLookups; what a filter answers and which blocks can be read are parameters, and the block cache does not show.
- OkiReplays.ReplayRestores: loading runs from disk is not modelled; the replay is given all accepted rows in the order of their arrival, and AnyOrder says when the order does not matter.
- OkiBuilder.SpillingRunBuilder.Finish: the bytes of a run, its blocks and its filter are not modelled, nor are write errors.
- CkptChains.WalkChain: the sequence number is unbounded, so a chain of 2^32 files is not covered; a failing apply leaves the state as it was, where the program leaves a part that its callers then throw away.
- CkptProtocol.NoLoadIsWrong: damaged files, the keydir snapshot, and the components other than the document map are not part of the runs; damaged files are covered by WalkChain.
- Key directory shards, pending tables, group commit, merge policy, the index pool and the C error wrappers: not part of this model.
- Vector indexes, analyzers, query parsing, highlighting, filters and migration tools: not part of this model.
