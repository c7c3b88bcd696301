# Verified model of the disc-image pipeline

The library reads Xbox disc images on demand through a foreign read callback, presents split
files as one stream, writes and reads CCI containers, recognises images that were split or
padded, and decodes a few formats on the way. This project models the stateful and algorithmic
core of it in Dafny and proves what that core is for.

| file | models |
|---|---|
| `Reader.dfy` | the callback reader: block cache with coalesced fetches, prefetch and eviction, and the sequential window |
| `MultiPart.dfy` | several files presented as one stream |
| `CciFormat.dfy`, `CciLayout.dfy` | CCI headers, slots, index words and file names; how slots are cut into parts |
| `CciWriter.dfy` | the session that sizes an image in batches and then streams it in chunks |
| `CciReader.dfy` | parsing a part, finding a sector, decoding it, reading byte ranges |
| `CciRoundTrip.dfy` | writer, block reader and CCI reader put together |
| `SubsetSearch.dfy`, `Permutations.dfy` | the budgeted subset-sum search and both permutation generators |
| `RawSplit.dfy` | which continuations complete a truncated header: two tiers, winners, ambiguity |
| `Batch.dfy` | giving all fragments of a batch to their headers |
| `Classify.dfy` | grouping complete images into disc sets |
| `Swizzle.dfy` | Morton masks, bit scatter and un-swizzling |
| `DirectoryTable.dfy`, `Scrub.dfy` | the directory walk, and planning a partial scrub from it |
| `Obfuscate.dfy` | RC4 and the profile wrapper around it |
| `XexImage.dfy` | the XEX "basic" decompressor |
| `Common.dfy` | shared value types and sequence facts |

`dafny verify dfyconfig.toml` (Dafny 4.11) checks everything.

## How it is modelled

Objects that update their fields are classes with those fields (`JsReader`,
`MultiPartReader`, `CciSession`, `CciSource`); loops are loops with invariants; buffers written
in place are arrays. Each such method is specified by a function or predicate on values, and
the lemmas are about those. A function or predicate that methods are specified by is pinned in
turn: a lemma, mostly named `...Meaning`, says what it computes without using it, with the source's
constants written out. Ghost out-parameters and ghost fields only record history.

The read callback is an oracle object: on every call it may throw, return something that is no
byte array, or return bytes of any length. What is assumed of it (`Honest`) is that the bytes it
does return are those of the file. Clauses that promise success assume it never fails
(`Reliable`). The CCI writer's source is a device of 2048-byte sectors whose reads may fail at
any attempt. LZ4 is a codec with `decompress(compress(x)) == x`, needed only where sectors are
read back. Verifying an ordering of split parts, probing a header and recognising complete files
are functions. HMAC-SHA1 is a function to 16 bytes. Random bytes are arguments.

Integers are unbounded. Where the source's width decides something it is written out: 32-bit
shifts in the swizzle loops, 31-bit index words, 63-bit seeks, 2^53 for numbers handed to the
callback, 32-bit sector numbers in the directory walk.

## What was found

Most of what the code promises holds as promised. Where it does not, the project proves exactly
when it does:

* A call of `hash_next_part` that fails leaves its batch half recorded unless the failing read
  was the batch's first; calling again then records sectors twice (`HashNextPart`,
  `RetriedBatchPlansTooMuch`). Likewise a failing `next_chunk` drops the bytes it had already
  made unless its first read failed (`NextChunk`, `FailedChunkDropsSlot`).
* The library's documentation leaves open which of several equal entries a binary search finds,
  so `locate_in` may be led to a zero-length part and end the stream early: every permitted answer
  is right if and only if no such part begins at the position (`LocateExact`, `LocateCanMiss`). A
  search that settles on the last equal entry is always answered rightly (`AnswerExact`).
* The block cache stops prefetching once it is full. Every eviction ends the streak that prefetch
  waits for, so after one fetch into a full cache only the blocks asked for are fetched, until a
  mode switch empties it or a failed fetch leaves it short (`FetchRun`, `EnsureRange`).
* The size-matching search is described as trying larger totals only if none matches exactly, but
  it always goes on to them. An exact winner is therefore ambiguous when a padded candidate of its
  length verifies under other names, no exact candidate is longer and none at all shorter
  (`Contested`, proved exact in `TwoAreContested` and `OneIsUncontested`; `ExactYetAmbiguous`).
* Continuations are claimed by name, so of two different files with one name the wrong one may
  be taken out of the pool; claims are right for every split if and only if equal names mean
  equal files (`ClaimsExact`).
* Up to six headers every order has been tried before the greedy fallback, so whenever the
  fallback runs its report strands a header (`FallbackStrands`). Its "every header resolved"
  branch is for more than six, and there it is reached (`FallbackMayResolve`).
* A disc set keeps one file name per disc: of a GOD folder with several data parts the names
  behind the first are dropped from the report, and nothing else is (`FilesSurvive`,
  `OnlyFoldersLose`, `FolderLosesName`).
* The test `group.len() > disc_count` never decides alone (`NoMoreThanCount`).
* Texels are skipped for some dimensions that are no powers of two; whether any is skipped is
  decided by the last texel alone (`NoneSkipped`, `ThreeByTwoSkips`). With data of exactly
  `w * h` texels none is skipped if and only if the height is a power of two dividing the width,
  or the width one dividing twice the height (`ExactDataSuffices`).
* The mask loop does not end for a dimension above 2^31 and the scatter loop does not end for a
  value wider than its mask (`MaskLoopEnds`, `HaltsExactly`). Every decoder passes 2 or 4 bytes
  per texel, so the pitch check keeps widths below 2^31; what remains is a height above 2^31
  with more than 4 GiB of data behind it, which a 32-bit `usize` cannot hold.
* An empty file recorded past the end of the image makes a partial scrub ask for sectors that do
  not exist, because only non-empty extents are checked (`PlanFitsImage`,
  `EmptyFileOverreaches`). The volume descriptor is protected from zeroing but not from trimming
  (`DescriptorKept`, `DescriptorCut`).
* The security-sector scan adds the root offset to its seeks, while `crate/src/formats/cci/write.rs:134`
  hands it a reader that already starts at the root. It judges a sector, and finds the region,
  rightly for every volume if and only if the root offset is zero (`SectorsAgree`,
  `RegionsAgree`). Over a redump game partition that lies behind its video partition and has no
  zero byte that far in, the scan runs off the end and the partial scrub is refused
  (`RedumpScrubRefused`); at such a volume behind a smaller offset the plan cuts the region off
  (`SmallerOffsetCutsRegion`). When the scan fails is exact for every volume (`ScanForZeroRun`,
  `PlanDirect`). Where the coordinates do agree, protecting the region
  changes no byte handed out (`ProtectionServesTheSame`).
* Two directories that share a starting sector but not a size are scanned once, with the size met
  first; every reachable table is scanned if and only if there are no such two (`CoversExactly`,
  `TwinIsMissed`).

## Model

| member | source | states |
|---|---|---|
| Reader.SortColdestFirst | crate/src/core/reader.rs:289-295 | the eviction order is exactly the unprotected resident blocks, ordered by (tick, index) |
| Reader.ColderMeaning | crate/src/core/reader.rs:289-295 | the block used longer ago goes first, blocks of one tick by index, and a block never stamped before any stamped one |
| Reader.EvictColdest | crate/src/core/reader.rs:285-300 | only the coldest unprotected blocks go, in that order, and as many as the incoming run needs or as there are |
| Reader.EvictedInOrder | crate/src/core/reader.rs:289-300 | freeing a front piece of the order leaves every surviving unprotected block hotter than every block freed |
| Reader.ServingLru | crate/src/core/reader.rs:202-271 | several evictions inside one request together still take only blocks colder than every survivor the request did not touch |
| Reader.ServingBounded | crate/src/core/reader.rs:273-341 | after a fetch, residency is at most the larger of 512 and the request plus 32 blocks |
| Reader.RequestServed | crate/src/core/reader.rs:202-271 | a finished request is fully resident with correct contents, every block of it carries the new tick, and evictions along the way took only colder blocks |
| Reader.NoMissingRuns | crate/src/core/reader.rs:202-271 | a request costs no round trip exactly when all its blocks are resident |
| Reader.MissingRunCounts | crate/src/core/reader.rs:229-232 | a maximal run of missing blocks counts once, however long |
| Reader.CachedTripsMeaning | crate/src/core/reader.rs:202-271 | a cached read costs nothing exactly when all its blocks are resident, and one round trip if none is |
| Reader.ThirdRunReadsAhead | crate/src/core/reader.rs:233-258 | of three missing runs fetched one behind the other the first two fetch themselves alone and the third reads ahead, unless the next block is resident or past the end |
| Reader.JumpFetchesAlone | crate/src/core/reader.rs:233-258 | a run fetched anywhere else starts a new row and fetches itself alone |
| Reader.RequestFetches | crate/src/core/reader.rs:202-271 | fetching one run, evictions included, leaves the rest of the request as the request found it |
| Reader.FullFetches | crate/src/core/reader.rs:284-303 | a fetch into a full cache keeps it full and ends the streak, and without a streak stays inside the request |
| Reader.InsertBlocks | crate/src/core/reader.rs:322-340 | the fetched bytes are cut into blocks that each equal that block of the file, the last one possibly short |
| Reader.SeekTarget | crate/src/core/reader.rs:447-470 | a seek that is not refused names a position below 2^63 |
| Reader.SeekMeaning | crate/src/core/reader.rs:447-470 | a seek lands on the sum of its base and its offset whenever that is a position; a sum below zero and one past the largest position are refused with their own errors |
| Reader.RunReadsUnbroken | crate/src/core/reader.rs:343-470 | over any run without a seek, with modes and windows changing and fetches failing anywhere, the bytes delivered are one unbroken slice of the file and the position is at its end |
| Reader.JsReader.constructor | crate/src/core/reader.rs:66-88 | a new reader is at the start of the file, in Cached mode, with nothing resident |
| Reader.JsReader.SetSequentialMode | crate/src/core/reader.rs:94-121 | a real switch drops the other mode's buffers and keeps the position; a repeated one changes nothing |
| Reader.JsReader.SetSequentialWindow | crate/src/core/reader.rs:123-126 | the window is the requested size clamped to 1..=256 MiB |
| Reader.JsReader.CallReadFn | crate/src/core/reader.rs:138-193 | success means exactly the requested bytes of the file at the front of the grow-only buffer with its stale rest untouched; only a request past the end may come back shorter, and then reaches the end; over-long, short, thrown or non-byte answers are failures that change nothing |
| Reader.JsReader.MakeRoom | crate/src/core/reader.rs:284-303 | afterwards the incoming run fits the cap, or nothing unprotected is left; an eviction ends the streak of contiguous runs and frees no more than it must |
| Reader.JsReader.FetchBlockRange | crate/src/core/reader.rs:273-341 | blocks of one run become resident with the file's contents, what was evicted to make room was unprotected and coldest, and a failed fetch leaves a valid cache |
| Reader.JsReader.MissingRun | crate/src/core/reader.rs:229-232 | the longest run of missing blocks from a block on, inside the request |
| Reader.JsReader.Widen | crate/src/core/reader.rs:239-257 | prefetch widens only over missing blocks inside the file, and stops only after 32 of them, at a resident block or at the end of the file |
| Reader.JsReader.FetchRun | crate/src/core/reader.rs:229-260 | one coalesced fetch, one round trip, covers the run of missing blocks and any prefetch behind it, and the cache stays within its bound; from the third contiguous run on it prefetches as far as it may, before that not at all (`RunFetched`), and a full cache is left without a streak |
| Reader.JsReader.EnsureRange | crate/src/core/reader.rs:202-271 | after success every block of the request is resident although evictions ran in the same call, whatever was evicted was colder than everything kept untouched, and residency is bounded; it made exactly one round trip per maximal run of blocks missing at the start; a full cache stays full, any fetch ends its streak, and without a streak nothing but the request is fetched; a request with one missing run reads ahead exactly as that run's place in the row of contiguous runs says (`ReadAhead`); after failure the cache is valid and the position unmoved |
| Reader.JsReader.CopyResident | crate/src/core/reader.rs:354-376 | copying out of resident blocks delivers min(len, size - position) bytes of the file |
| Reader.JsReader.ReadCached | crate/src/core/reader.rs:343-376 | a Cached read returns exactly the file's bytes at the position, all that were asked for and exist, at one round trip per missing run |
| Reader.JsReader.FillSequentialWindow | crate/src/core/reader.rs:384-404 | a refill fetches the window size or what the file has left, whichever is less: the window then begins at the position and holds exactly those bytes, with no stale tail; a failed refill keeps the old window |
| Reader.JsReader.ReadSequential | crate/src/core/reader.rs:406-433 | a Sequential read returns the file's bytes at the position: the least of what was asked for, what the file has left and what the window has left, the old window if it covered the position and the refilled one otherwise; it makes one round trip only if the window does not reach the position |
| Reader.JsReader.Read | crate/src/core/reader.rs:435-445 | in either mode a successful read is the slice of the file at the position, of exactly the length its mode says, and costs the round trips its mode says; a failed one moves and writes nothing |
| Reader.JsReader.Seek | crate/src/core/reader.rs:447-470 | the position moves to the seek target, or stays when the seek is refused |
| Reader.JsReader.ReadExact | crate/src/core/reader.rs:435-445 | reading until full succeeds exactly when the bytes exist, given fetches that do not fail, and writes only file bytes otherwise |
| Reader.JsReader.Replay | crate/src/core/reader.rs:94-470 | any list of reads, seeks, mode switches and window changes, with fetches failing anywhere, behaves as a run of the plain file |
| MultiPart.BinarySearch | crate/src/core/source.rs:176-180 | a search answer of the kind the standard library promises: any matching index, or the insertion point |
| MultiPart.HolderUnique | crate/src/core/source.rs:175-183 | at most one part holds a position |
| MultiPart.LocateExact | crate/src/core/source.rs:175-183 | every possible search answer leads to the part that holds the position if and only if no empty part begins there |
| MultiPart.AnswerExact | crate/src/core/source.rs:175-183 | one answer leads to the right part exactly when it is not a match that another match follows |
| MultiPart.LocateCanMiss | crate/src/core/source.rs:175-183 | with an empty second part a permitted search answer leads to that part and not to the one holding the position |
| MultiPart.LocateSafe | crate/src/core/source.rs:175-183 | whatever the answer, the part found starts where the parts before it end and the position is inside it or at its end |
| MultiPart.SeeksAgree | crate/src/core/source.rs:156-169 | the wrapping seek arithmetic of the part readers and the checked arithmetic of the block reader accept the same seeks with the same results, for sizes and positions below 2^63 |
| MultiPart.StreamReadsUnbroken | crate/src/core/source.rs:191-295 | over any run without a seek the bytes delivered are one unbroken slice of the concatenation |
| MultiPart.MultiPartReader.constructor | crate/src/core/source.rs:208-233 | the stream starts at its beginning with no part open and the ends are the running totals of the sizes |
| MultiPart.MultiPartReader.OpenParts | crate/src/core/source.rs:208-233 | opening is refused exactly when there is no part |
| MultiPart.MultiPartReader.SetSequentialMode | crate/src/core/source.rs:235-242 | the mode is remembered and handed to the open part |
| MultiPart.MultiPartReader.ReaderFor | crate/src/core/source.rs:251-266 | the part asked for is the open one afterwards: kept as it is if it already was, otherwise opened anew with an empty window of the stream's size |
| MultiPart.MultiPartReader.Locate | crate/src/core/source.rs:244-249 | the part and offset found add up to the position |
| MultiPart.MultiPartReader.ReadPart | crate/src/core/source.rs:277-286 | a read at an offset of a part is that part's slice, of the length its mode and window allow, and the part is open afterwards |
| MultiPart.MultiPartReader.Read | crate/src/core/source.rs:269-288 | a successful read is the slice of the concatenation at the position, and unless an empty part begins there its length is exact in both modes: the least of what was asked for, what the part has left and, in Sequential mode, what the window has left; a failed one changes nothing |
| MultiPart.MultiPartReader.Seek | crate/src/core/source.rs:290-295 | the position moves to the seek target, or stays |
| MultiPart.MultiPartReader.Replay | crate/src/core/source.rs:191-295 | any list of reads, seeks and mode switches over the parts behaves as a run of one reader over their concatenation |
| CciFormat.LeRoundTrip | crate/src/formats/cci/format.rs:84-98 | little-endian bytes read back as the number they came from |
| CciFormat.LeWordBytes | crate/src/formats/cci/format.rs:84-98 | a 32-bit word is written lowest byte first |
| CciFormat.LeWordValue | crate/src/formats/cci/format.rs:84-98 | and read so |
| CciFormat.HeaderRoundTrip | crate/src/formats/cci/format.rs:84-98 | a written header reads back with every field |
| CciFormat.HeaderFields | crate/src/formats/cci/format.rs:84-98 | each header field lies at its own offset |
| CciFormat.HeaderMeaning | crate/src/formats/cci/format.rs:58-98 | the 32 header bytes: magic and length, the two 64-bit sizes, and block size, version and alignment |
| CciFormat.CompressedWrittenLen | crate/src/formats/cci/format.rs:119-126 | the written length is one byte more than the data plus less than four bytes of padding, and a multiple of four |
| CciFormat.SlotLength | crate/src/formats/cci/format.rs:103-126 | every slot has the length that was recorded for it, a multiple of four and at most 2048 |
| CciFormat.SlotMeaning | crate/src/formats/cci/format.rs:103-126 | a sector is compressed exactly when the codec makes 1 to 2039 bytes of it; its slot is then the padding count, those bytes and the padding, otherwise the sector itself |
| CciFormat.DigitsMeaning | crate/src/formats/cci/format.rs:42-44 | the digits in a part's name stand for the number, without leading zeros |
| CciFormat.NamesMeaning | crate/src/formats/cci/format.rs:38-56 | one part keeps the bare name, several are numbered from one |
| CciFormat.OutputNamesDistinct | crate/src/formats/cci/format.rs:42-56 | two parts never get the same file name |
| CciLayout.IndexFits | crate/src/formats/cci/write.rs:262-321 | inside a closed part every slot offset is a multiple of four, at most 0xFF000000 + 2048, and below 2^31 once divided by four, so the flag bit is free and no conversion fails |
| CciLayout.IndexFitsWhole | crate/src/formats/cci/write.rs:285-321 | the same for the index offset of the part |
| CciLayout.LayoutUnique | crate/src/formats/cci/write.rs:262-321 | there is one way to cut a list of slots into parts: two valid layouts of the same slots are equal, however they were batched |
| CciLayout.SplitMeaning | crate/src/formats/cci/write.rs:262-276 | no sector goes into a part whose data has passed 0xFF000000 bytes, and another part follows only one that has |
| CciLayout.PartStretch | crate/src/formats/cci/write.rs:285-321 | parts are consecutive stretches of the sectors |
| CciLayout.PartData | crate/src/formats/cci/write.rs:285-321 | a part's records are the sizes of exactly its own sectors |
| CciLayout.PartBytesFit | crate/src/formats/cci/write.rs:285-341 | a part's bytes add up to its manifest size, and after k slots they end at the offset sizing recorded for slot k |
| CciWriter.BuildIndex | crate/src/formats/cci/write.rs:289-307 | the index holds one word per slot and a last one for the end, and fails only if an offset does not fit 32 bits |
| CciWriter.CciSession.constructor | crate/src/formats/cci/write.rs:91-183 | a new session has sized nothing |
| CciWriter.CciSession.ReadSector | crate/src/formats/cci/write.rs:223-260 | a sector read is the source's, or zeros where the mask says so |
| CciWriter.CciSession.CheckAndManageSizingWrite | crate/src/formats/cci/write.rs:262-276 | a part is closed once it has passed the split point, never before, and this never fails |
| CciWriter.CciSession.FinalizeSizingPart | crate/src/formats/cci/write.rs:285-321 | closing a part records its sectors, header, index and size, and starts the next where it ends |
| CciWriter.CciSession.SizeSector | crate/src/formats/cci/write.rs:356-368 | one sector's slot is recorded behind those before it |
| CciWriter.CciSession.SizeBatch | crate/src/formats/cci/write.rs:353-369 | a batch records the sizes of its sectors in order; on a failed read, of those before it |
| CciWriter.CciSession.FinishSizing | crate/src/formats/cci/write.rs:323-341 | the manifest names every part with its size and streaming starts at the first |
| CciWriter.CciSession.HashNextPart | crate/src/formats/cci/write.rs:343-377 | one call records the next 256 sectors or what is left; after a failed call the session is still in step with its source exactly when the batch's first read is one that fails |
| CciWriter.CciSession.SizeAll | crate/src/formats/cci/write.rs:343-377 | repeating the call until done sizes every sector once |
| CciWriter.CciSession.WriteSlot | crate/src/formats/cci/write.rs:429-438 | the streamed slot is the padding count, the compressed bytes and the padding, or the raw sector |
| CciWriter.CciSession.SectorsChunk | crate/src/formats/cci/write.rs:404-442 | a chunk of sectors continues the part exactly where it stood and falls short of its limit only at the end of the sectors; on a failed read the slots already made are passed over |
| CciWriter.CciSession.HeaderChunk | crate/src/formats/cci/write.rs:391-403 | a chunk of the header continues it, and the sectors follow once it is out |
| CciWriter.CciSession.IndexChunk | crate/src/formats/cci/write.rs:443-455 | a chunk of the index continues it, and the next part follows once it is out |
| CciWriter.CciSession.NextChunk | crate/src/formats/cci/write.rs:381-457 | chunks, concatenated, are header, slots and index whatever the limits; each is non-empty for a positive limit and less than a sector over it; only reading sectors can fail, and a failed call loses bytes exactly when its first read is not one that fails |
| CciWriter.OutputUnique | crate/src/formats/cci/write.rs:262-457 | the output is a function of the sectors and the base name: no batching or chunking changes a byte |
| CciWriter.Stream | crate/src/formats/cci/write.rs:381-457 | pulling chunks until done, with any positive limits, collects every part's whole file under its name |
| CciWriter.Convert | crate/src/formats/cci/write.rs:343-457 | sizing then streaming yields the one output of the sectors, with the manifest's names and sizes, and succeeds when no read fails |
| CciWriter.RetriedBatchPlansTooMuch | crate/src/formats/cci/write.rs:343-377 | a session over two sectors whose second read fails once, called again, plans three sectors |
| CciWriter.FailedChunkDropsSlot | crate/src/formats/cci/write.rs:404-442 | over two sectors, one call whose second read fails hands out nothing and moves the stream past the first slot |
| CciReader.ValidateIndexPositions | crate/src/formats/cci/read.rs:34-44 | accepted exactly when the positions are non-empty, non-decreasing and end at the index offset |
| CciReader.AdjacentSuffices | crate/src/formats/cci/read.rs:34-44 | comparing neighbours is enough for all pairs to be in order |
| CciReader.SlotsInsideFile | crate/src/formats/cci/read.rs:34-110 | every slot of an accepted file lies inside the file, so no slot can claim more than the file has |
| CciReader.ParseMeaning | crate/src/formats/cci/read.rs:49-110 | which files are accepted, byte by byte: the header constants, whole index words behind the data that never fall and end where the index begins, and one sector per word but the last; and what each word says |
| CciReader.ReadSlotMeaning | crate/src/formats/cci/read.rs:196-247 | when a slot reads and as what: a full-length one without the flag as it is, any other as a padding count, a block that decompresses to a whole sector and that much padding |
| CciReader.IndexReadsBack | crate/src/formats/cci/read.rs:90-97 | the positions and flags unpacked from a written index are those recorded |
| CciReader.WrittenPartParses | crate/src/formats/cci/read.rs:49-110 | every written part is accepted |
| CciReader.SlotReads | crate/src/formats/cci/read.rs:196-247 | reading a written slot gives its sector back, compressed or not |
| CciReader.LocateExact | crate/src/formats/cci/read.rs:167-187 | a sector is found exactly when it is below the total, in the part and slot whose running count is its number |
| CciReader.WrittenPartOpens | crate/src/formats/cci/read.rs:49-110 | every part of an output opens with the slot table sizing recorded |
| CciReader.SectorsReadBack | crate/src/formats/cci/read.rs:167-247 | over the parts of an output, sector s reads back as sector s of the image, and any other is out of range |
| CciReader.ParseHeaderAndIndex | crate/src/formats/cci/read.rs:49-110 | parsing through the block reader agrees with parsing the file's bytes |
| CciReader.UnpackIndex | crate/src/formats/cci/read.rs:90-97 | the index words are unpacked into positions and flags |
| CciReader.OpenFile | crate/src/formats/cci/read.rs:126-165 | one part opens exactly when its file parses |
| CciReader.Open | crate/src/formats/cci/read.rs:126-165 | a source opens exactly when there is a part and all parts parse |
| CciReader.ComputeOffsets | crate/src/formats/cci/read.rs:138-158 | each part's first sector is the count of those before it |
| CciReader.ReadSlotFrom | crate/src/formats/cci/read.rs:205-247 | reading a slot through the block reader agrees with reading it from the file's bytes |
| CciReader.CciSource.LocateSector | crate/src/formats/cci/read.rs:167-187 | the loop over the parts finds the located part and slot |
| CciReader.CciSource.ReadSector | crate/src/formats/cci/read.rs:196-247 | a sector read is the decoded slot; given fetches that do not fail it succeeds exactly when that slot decodes |
| CciReader.CciSource.ReadBytes | crate/src/formats/cci/read.rs:249-271 | every byte read is the byte of its sector; given fetches that do not fail it succeeds exactly when all touched sectors can be read |
| CciRoundTrip.HeldIsImage | crate/src/formats/cci/read.rs:249-271 | bytes read over an output are the slice of the original image |
| CciRoundTrip.ImageReadable | crate/src/formats/cci/read.rs:249-271 | exactly the slices inside the image can be read |
| CciRoundTrip.ReadImage | crate/src/formats/cci/read.rs:196-271 | reading any in-range slice over an output returns that slice of the image, and out-of-range reads fail |
| CciRoundTrip.RoundTrip | crate/src/formats/cci/write.rs:262-457 | write an image with any chunk limits, open the parts, read any slice: it is the slice of the (masked) image, and with no failing reads it succeeds exactly for slices in range |
| CciRoundTrip.SectorSurvives | crate/src/formats/cci/write.rs:133-183 | the writer's cut and mask leave every sector of every file and directory table as it was |
| CciRoundTrip.ExtentSurvives | crate/src/formats/cci/write.rs:133-183 | so the bytes of every file and directory table are where they were |
| CciRoundTrip.ScrubRoundTrip | crate/src/formats/cci/write.rs:133-457 | plan a partial scrub, convert, open the parts, read any file or table of the disc: it is the original's; with no failing reads this succeeds exactly when the scrub is not refused |
| SubsetSearch.ChoicesExact | crate/src/core/split_detect/subset_search.rs:143-207 | the unpruned enumeration lists exactly the increasing position choices with a matching total |
| SubsetSearch.ChoicesDistinct | crate/src/core/split_detect/subset_search.rs:143-207 | and none twice |
| SubsetSearch.BestCase | crate/src/core/split_detect/subset_search.rs:171-174 | no choice of k remaining fragments exceeds the next k in descending order |
| SubsetSearch.WorstCase | crate/src/core/split_detect/subset_search.rs:175-181 | and none is below the last k |
| SubsetSearch.PruneSound | crate/src/core/split_detect/subset_search.rs:171-181 | a pruned subtree contains no match |
| SubsetSearch.BelowBound | crate/src/core/split_detect/subset_search.rs:143-207 | with m fragments left the search visits at most 2^m nodes |
| SubsetSearch.SearchSubsetSum | crate/src/core/split_detect/subset_search.rs:143-207 | what the pruned, budgeted search adds is a front piece of the brute-force list, all of it if the budget ends above zero; `chosen` is restored; the budget falls by no more than the unpruned tree has nodes, and by one where too few fragments are left or the best or worst case misses the target |
| SubsetSearch.PickNames | crate/src/core/split_detect/subset_search.rs:143-207 | every set of fragment indices is named by exactly one position choice |
| SubsetSearch.PicksUnique | crate/src/core/split_detect/subset_search.rs:143-207 | two position choices naming the same set are the same choice |
| SubsetSearch.SetTotalReordered | crate/src/core/split_detect/subset_search.rs:118-125 | totals do not depend on how the sort arranged the fragments |
| SubsetSearch.SortDescending | crate/src/core/split_detect/subset_search.rs:118-119 | the sorted list is a descending arrangement of the same fragments |
| SubsetSearch.BuildSuffixSums | crate/src/core/split_detect/subset_search.rs:121-124 | each suffix sum is the total of the sizes from there on |
| SubsetSearch.LookupIsSetTotal | crate/src/core/split_detect/subset_search.rs:59-62 | the total looked up index by index is the total of the set |
| SubsetSearch.SortByTotal | crate/src/core/split_detect/subset_search.rs:59-63 | the found subsets are rearranged by total and none is lost |
| SubsetSearch.SubsetsAtK | crate/src/core/split_detect/subset_search.rs:36-64 | for one size: every entry matches, no set twice, tightest first, whatever the budget; complete if the budget lasts |
| SubsetSearch.AllMatchingSubsets | crate/src/core/split_detect/subset_search.rs:109-141 | all sizes up to eight: every entry matches, no set twice, by size and then total; complete if the budget ends above zero, and the budget falls by at most 8 * 2^n |
| Permutations.PermsExact | crate/src/core/split_detect/subset_search.rs:209-223 | a sequence is listed exactly when it has the same elements as often |
| Permutations.PermsDistinct | crate/src/core/split_detect/subset_search.rs:209-223 | with distinct elements no ordering is listed twice |
| Permutations.PermCount | crate/src/core/split_detect/subset_search.rs:209-223 | n! orderings |
| Permutations.FirstIsIdentity | crate/src/core/split_detect/subset_search.rs:209-223 | the first ordering listed is the given one |
| Permutations.IndexPermutations | crate/src/core/split_detect/subset_search.rs:209-223 | the recursive generator returns exactly that list |
| Permutations.Permute | crate/src/core/split_detect/batch.rs:261-274 | the backtracking generator appends every completion of `current` by `remaining` once and hands both back unchanged |
| Permutations.AllPermutations | crate/src/core/split_detect/batch.rs:260-277 | every ordering of 0..n, each once, n! in all |
| RawSplit.FragmentsMeaning | crate/src/core/split_detect/raw_split.rs:54-63 | the fragments are the continuations that are not complete files, each under its own index |
| RawSplit.CollectFragments | crate/src/core/split_detect/raw_split.rs:54-63 | the filter yields those fragments |
| RawSplit.LowerNameMeaning | crate/src/core/split_detect/raw_split.rs:88-113 | two names fold to one exactly when they are equal letter by letter but for ASCII case |
| RawSplit.EligibleIsSubset | crate/src/core/split_detect/raw_split.rs:65-73 | an ordering of eligible continuations is a subset the search could list |
| RawSplit.MatchIsEligible | crate/src/core/split_detect/raw_split.rs:65-73 | and every ordering of a listed subset is eligible with a matching total |
| RawSplit.TierMeaning | crate/src/core/split_detect/raw_split.rs:65-73 | the orderings queued for a tier are candidates of it, none twice, shortest first, and all of them if its budget lasted |
| RawSplit.AlreadySeen | crate/src/core/split_detect/raw_split.rs:104-113 | the check is for a winner with the same names, ignoring case and order |
| RawSplit.TryOrderings | crate/src/core/split_detect/raw_split.rs:75-119 | the winners are the first verifying ordering and the first with other names; every verifying one tried has a winner's names and length; the loops stop only at two winners, the cap, the end, or a change of length |
| RawSplit.WinnerIsTightest | crate/src/core/split_detect/raw_split.rs:40-137 | a winner with bytes to spare means no eligible ordering of the exact size verifies, because an exhausted exact tier leaves nothing for the other |
| RawSplit.WinnerIsShortest | crate/src/core/split_detect/raw_split.rs:40-137 | no verifying candidate of the winner's tier is shorter |
| RawSplit.WinnerIsSole | crate/src/core/split_detect/raw_split.rs:40-137 | a lone winner, uncapped, shares its names with every verifying candidate of its tier and length |
| RawSplit.TwoAreContested | crate/src/core/split_detect/raw_split.rs:60-119 | two winners mean a rival of the first in its own tier, or, for an exact first winner, one in the other tier where the search passes from tier to tier without a change of length |
| RawSplit.OneIsUncontested | crate/src/core/split_detect/raw_split.rs:60-119 | a lone winner has no such rival, in either tier |
| RawSplit.ExactYetAmbiguous | crate/src/core/split_detect/raw_split.rs:60-137 | at an input: an exact continuation and a padded one that both verify are ambiguous, although the exact one came first |
| RawSplit.NothingVerifies | crate/src/core/split_detect/raw_split.rs:40-137 | no winner, uncapped: no candidate of a fully enumerated tier verifies |
| RawSplit.BudgetLasts | crate/src/core/split_detect/subset_search.rs:109-141 | with at most ten continuations the step budget cannot run out |
| RawSplit.SearchDecides | crate/src/core/split_detect/raw_split.rs:40-137 | the loops' outcome means what `Decided` says of all orderings, not only of those tried |
| RawSplit.AnswersJustify | crate/src/core/split_detect/raw_split.rs:119-137 | an outcome by itself, without the history of the search: Resolved names an eligible, verifying ordering that leaves no exact one verifying, Ambiguous two of one length with different names |
| RawSplit.ResolvedReaches | crate/src/core/split_detect/raw_split.rs:49-137 | a Resolved answer names an eligible ordering that verifies and, with the header, reaches the header's required total; unless it reaches it exactly, no ordering that does verifies |
| RawSplit.NothingMissed | crate/src/core/split_detect/raw_split.rs:49-137 | uncapped, an eligible ordering that verifies and reaches the total keeps the answer from being Unresolved: one of the exact total if that tier was listed to the end, any if both were |
| RawSplit.FindRawSplit | crate/src/core/split_detect/raw_split.rs:40-137 | Resolved, Ambiguous and Unresolved each hold for the reasons the search gives: winners are eligible and verify, the first is tightest and shortest, a lone one sole, two have one length and different names, none means none; with both tiers listed and the cap not met, two winners exactly when the first is contested |
| Batch.SearchIsSound | crate/src/core/split_detect/batch.rs:165-189 | whatever the split search answers names its header first and no pool name more often than the pool has it |
| Batch.ClaimSplitsPool | crate/src/core/split_detect/batch.rs:169-182 | claiming by name puts every pool instance on one side |
| Batch.ClaimNames | crate/src/core/split_detect/batch.rs:166-182 | what is claimed has exactly the names the split uses |
| Batch.CountUses | crate/src/core/split_detect/batch.rs:166-171 | the map counts each name |
| Batch.TakeByName | crate/src/core/split_detect/batch.rs:172-182 | the filter claims the first instances of each name still needed |
| Batch.RemoveNamed | crate/src/core/split_detect/batch.rs:325-327 | position and remove take out the first part of a name |
| Batch.RemoveClaimed | crate/src/core/split_detect/batch.rs:324-328 | removing claimed names from the pool leaves exactly the instances not claimed |
| Batch.UnclaimedTwice | crate/src/core/split_detect/batch.rs:324-329 | claiming in two steps leaves what claiming all at once leaves |
| Batch.ClaimsExact | crate/src/core/split_detect/batch.rs:166-182 | the instances claimed are those the split was verified with, for every split, if and only if equal names mean equal parts |
| Batch.ClaimsWrong | crate/src/core/split_detect/batch.rs:166-182 | two different parts of one name: some split claims the part it did not use |
| Batch.ResolveOneHeader | crate/src/core/split_detect/batch.rs:142-221 | a split with what it claims, or one unresolved entry naming the header and the whole pool |
| Batch.OneHeaderMeaning | crate/src/core/split_detect/batch.rs:142-221 | for one header and a pool, a resolved answer is reported first and as it is, followed by one entry per part left; an ambiguous or unresolved one strands the header with the whole pool under its own kind |
| Batch.UnclaimedLeftovers | crate/src/core/split_detect/batch.rs:226-251 | one entry for each instance not claimed |
| Batch.GreedyConserves | crate/src/core/split_detect/batch.rs:379-470 | a pass over headers loses no name and makes none up |
| Batch.PassMeaning | crate/src/core/split_detect/batch.rs:425-455 | in a pass each header gets the split the search answers for the pool left at its turn; it is missed exactly when that pool is empty or the answer is not a split |
| Batch.GreedyLeaves | crate/src/core/split_detect/batch.rs:338-340 | leftovers counted over the original pool are what is left in the shrinking one |
| Batch.TryOrder | crate/src/core/split_detect/batch.rs:310-352 | a permutation gives a report exactly when every header in turn gets a split |
| Batch.TryAllHeaderOrderings | crate/src/core/split_detect/batch.rs:295-373 | no answer exactly when there are no headers, more than six, or no order resolves all; otherwise one pairing on which all resolving orders agree, or a single ambiguity entry when two disagree |
| Batch.ReportConserves | crate/src/core/split_detect/batch.rs:310-352 | the report of a resolving order loses no name |
| Batch.DisagreementReported | crate/src/core/split_detect/batch.rs:295-373 | two orders that serve every header and list different parts together: one ambiguous entry with all names |
| Batch.AgreementReported | crate/src/core/split_detect/batch.rs:295-373 | some order serves every header and all that do list the same parts together: the splits of one of them, then one entry per part left |
| Batch.FallbackReported | crate/src/core/split_detect/batch.rs:406-468 | no order serves every header, or there are more than six: the splits of the pass in name order, then one entry per part left if it missed none, otherwise one residue of the headers missed and the parts left |
| Batch.SortByName | crate/src/core/split_detect/batch.rs:416-417 | the fallback order is the stable sort by name |
| Batch.FallBack | crate/src/core/split_detect/batch.rs:416-468 | the greedy fallback reports the pass in name order: leftovers one by one, or one residue with every header that failed |
| Batch.FallbackStrands | crate/src/core/split_detect/batch.rs:406-468 | for two to six headers that no order resolves, the report of the bucket ends in a residue that names a header without a split |
| Batch.FallbackMayResolve | crate/src/core/split_detect/batch.rs:406-468 | beyond six headers it need not: with a search that pairs each header with one continuation, as many continuations as headers are all placed |
| Batch.FailedAreHeaders | crate/src/core/split_detect/batch.rs:425-455 | whatever a pass leaves without a split is one of its headers |
| Batch.ResolveRawSplitBucket | crate/src/core/split_detect/batch.rs:379-470 | in every branch each header and continuation name appears exactly as often as in the input |
| Batch.AnsweringIsSound | crate/src/core/split_detect/batch.rs:165-189 | a search that always answers as the raw split search does may serve the bucket |
| Batch.PlacedStand | crate/src/core/split_detect/batch.rs:425-440 | every split a pass places verifies behind one of its headers, out of parts of what was left of the pool, and leaves no verifying one of the exact size if it is larger |
| Batch.ReportedStand | crate/src/core/split_detect/batch.rs:379-470 | so does every split the bucket reports, in every branch |
| Swizzle.HaltsExactly | crate/src/core/texture/swizzle.rs:218-230 | the scatter loop ends if and only if the value has no more bits than the mask has places |
| Swizzle.FillPattern | crate/src/core/texture/swizzle.rs:218-230 | within that domain it scatters the value's bits, lowest first, into the marked places |
| Swizzle.MasksPartition | crate/src/core/texture/swizzle.rs:182-211 | the three masks are pairwise disjoint and fill a contiguous low range |
| Swizzle.MaskBits | crate/src/core/texture/swizzle.rs:182-211 | an axis's mask has as many bits as the axis was given |
| Swizzle.MaskLoopEnds | crate/src/core/texture/swizzle.rs:182-211 | the mask loop ends if and only if no dimension exceeds 2^31 |
| Swizzle.GenerateSwizzleMasks | crate/src/core/texture/swizzle.rs:182-211 | the masks are those of the bit-by-bit interleaving of the axes, cut to 32 bits |
| Swizzle.InterleaveInverse | crate/src/core/texture/swizzle.rs:213-230 | coordinates are recovered from their offset |
| Swizzle.DeinterleaveInverse | crate/src/core/texture/swizzle.rs:213-230 | and offsets from their coordinates |
| Swizzle.InterleaveMonotone | crate/src/core/texture/swizzle.rs:213-230 | a coordinate nowhere smaller has no smaller offset |
| Swizzle.FillsInterleave | crate/src/core/texture/swizzle.rs:213-215 | the or of the three scatters is the interleaving |
| Swizzle.CountCovers | crate/src/core/texture/swizzle.rs:182-211 | every coordinate below its dimension fits the bits of its axis |
| Swizzle.IndexInjective | crate/src/core/texture/swizzle.rs:213-215 | different texels have different offsets, whatever the dimensions |
| Swizzle.IndexBijection | crate/src/core/texture/swizzle.rs:182-215 | for power-of-two dimensions the offset is a bijection from the texels onto [0, w * h) |
| Swizzle.NoneSkipped | crate/src/core/texture/swizzle.rs:163-177 | no texel is skipped by the bounds check if and only if the last one is not |
| Swizzle.LastIndex | crate/src/core/texture/swizzle.rs:182-215 | the last texel's index is at least w * h - 1, and equal to it exactly when the height is a power of two dividing the width or the width one dividing twice the height |
| Swizzle.ExactDataSuffices | crate/src/core/texture/swizzle.rs:163-177 | with data of exactly w * h texels none is skipped if and only if the dimensions are of that kind |
| Swizzle.PowersNeverSkip | crate/src/core/texture/swizzle.rs:163-177 | with power-of-two dimensions and enough data none is |
| Swizzle.ThreeByTwoSkips | crate/src/core/texture/swizzle.rs:163-177 | the last texel of a 3 by 2 texture is looked for past its six |
| Swizzle.SwizzledOffset | crate/src/core/texture/swizzle.rs:213-215 | the offset is the scaled or of the three scatters in 32 bits |
| Swizzle.UnswizzleRect | crate/src/core/texture/swizzle.rs:143-180 | every texel lands in its linear place, or stays zero if its bytes are not all there |
| Swizzle.UnswizzleBpp | crate/src/core/texture/swizzle.rs:127-141 | no result exactly when the data is too short or the pitch overflows; otherwise every texel in its place |
| Swizzle.UnswizzlePermutes | crate/src/core/texture/swizzle.rs:127-180 | for power-of-two dimensions the result is a permutation of the source's texels |
| Scrub.EndOfExtent | crate/src/core/scrub.rs:79-85 | the end sector computed through byte offsets is the extent's |
| Scrub.CoveredMember | crate/src/core/scrub.rs:72-86 | a sector is marked exactly when some extent contains it |
| Scrub.LastByteRounds | crate/src/core/scrub.rs:72-86 | rounding the furthest byte up gives the furthest sector |
| Scrub.ExtentsMeaning | crate/src/core/scrub.rs:92-109 | the extents marked are the root table and every entry, files and directories |
| Scrub.MarkRegion | crate/src/core/scrub.rs:72-86 | one region adds its sectors and moves the furthest end |
| Scrub.MarkDirectoryTableSectors | crate/src/core/scrub.rs:92-109 | the root table and every subdirectory's table are added |
| Scrub.DetectPlatform | crate/src/core/scrub.rs:119-139 | the first launch executable decides the platform; it fails only when there is none |
| Scrub.LaunchMeaning | crate/src/core/scrub.rs:111-139 | an entry launches exactly when it is a file whose name behind the last slash has default.xbe or default.xex in it, in any case; .xex in that name makes it a 360 image |
| Scrub.Scan | crate/src/core/scrub.rs:145-187 | succeeds exactly when everything used lies inside the image and there is a launch executable; used sectors are the volume descriptor and every extent |
| Scrub.ScannableMeaning | crate/src/core/scrub.rs:145-187 | an image can be scanned exactly when the volume descriptor and the last sector of every file and table begin before it ends, and something launches |
| Scrub.ScanForZeroRun | crate/src/core/scrub.rs:212-242 | the run returned is the first maximal unclaimed zero run of exactly 0x1000 sectors closed inside the range; none means there is none; it fails exactly when the data ends before the range does and before any such run is closed |
| Scrub.FindSecuritySectors | crate/src/core/scrub.rs:195-208 | only the two redump sizes are searched, up to their limit; it fails exactly when such a search does |
| Scrub.SecurityMeaning | crate/src/core/scrub.rs:195-242 | only images of 0x374750 or 0x3A4D50 sectors have a region: the first 4096 unclaimed zero sectors in a row, exactly so many, in front of sector 0x345B60; none is reported exactly when there is no such run |
| Scrub.SecurityScanFails | crate/src/core/scrub.rs:195-242 | on those two sizes the scan fails exactly when the data ends before it and before any such run is closed |
| Scrub.PlanDirect | crate/src/core/scrub.rs:249-296 | the count reaches the last extent and the security region; the zero mask is exactly the unprotected sectors on original Xbox images and absent on 360 ones; it fails exactly when the image cannot be scanned or, on original Xbox images of redump size, the security scan runs out of data |
| Scrub.PlanKeepsData | crate/src/core/scrub.rs:249-296 | every sector of every file, directory table and security region is below the count and outside the mask |
| Scrub.PlanByPlatform | crate/src/core/scrub.rs:249-296 | only an original Xbox image gets a zero mask or a security region; of a 360 image every sector below the count is handed out as it is |
| Scrub.ScrubKeepsContents | crate/src/core/scrub.rs:249-296 | applying the mask changes no sector that anything holds |
| Scrub.PlanFitsImage | crate/src/core/scrub.rs:72-86 | the count stays inside the image if and only if no empty extent begins past its last sector |
| Scrub.EmptyFileOverreaches | crate/src/core/scrub.rs:72-86 | an empty file recorded at sector 1000 of a 35-sector image asks for 1000 sectors |
| Scrub.DescriptorKept | crate/src/core/scrub.rs:145-187 | the volume descriptor survives the trim if and only if some extent or the security region reaches past it |
| Scrub.DescriptorCut | crate/src/core/scrub.rs:145-187 | a disc that lies wholly below sector 0x20 is planned without its volume descriptor |
| Scrub.ProtectionServesTheSame | crate/src/core/scrub.rs:249-296 | where reader and plan agree on coordinates the protected region reads as zeros anyway: protection lengthens the count and changes no sector handed out |
| Scrub.SectorsAgree | crate/src/core/scrub.rs:222-231 | a sector is judged rightly for every volume if and only if the root offset is zero |
| Scrub.RegionsAgree | crate/src/core/scrub.rs:195-242 | and so is the region to protect, scan failures included |
| Scrub.VideoScanFails | crate/src/core/scrub.rs:212-242 | over every game partition behind its video partition with no zero byte that far in, the scan runs out of data |
| Scrub.RedumpScrubRefused | crate/src/formats/cci/write.rs:97-140 | at a volume, whatever lies below its security region: a redump game partition behind its video partition, with no zero byte that far in, has its partial scrub refused |
| Scrub.SmallerOffsetCutsRegion | crate/src/formats/cci/write.rs:97-140 | at such a volume behind a smaller root offset: the plan succeeds and ends before the security region |
| DirectoryTable.FreshMeaning | crate/src/core/iso/directory_table.rs:106-118 | what is pushed are subdirectories at sectors not met before, each sector once |
| DirectoryTable.FreshCovers | crate/src/core/iso/directory_table.rs:106-118 | after a table every one of its subdirectories has been met |
| DirectoryTable.AddEntries | crate/src/core/iso/directory_table.rs:90-130 | one table's loop appends its listing, pushes its new subdirectories and marks their sectors; it fails exactly on an invalid name |
| DirectoryTable.WalkStep | crate/src/core/iso/directory_table.rs:79-131 | scanning the top of the stack keeps the walk's invariant |
| DirectoryTable.ReadRoot | crate/src/core/iso/directory_table.rs:50-138 | on every image, cyclic or not, the walk ends; it scans each starting sector once, from the root down, the entries are the scanned tables' listings with joined paths, and the region found last is scanned first (`DepthFirst`); it fails only on a reachable table that is broken, and on every such image where starting sectors tell the tables apart |
| DirectoryTable.EntryTrail | crate/src/core/iso/directory_table.rs:79-130 | every entry is a node at the end of some way down from the root through non-empty directories, with that node's name, kind, sector and size, under the names on the way with slashes between them |
| DirectoryTable.TrailListed | crate/src/core/iso/directory_table.rs:79-130 | and where sectors tell tables apart, the node at the end of every such way is listed |
| DirectoryTable.ChildrenFirst | crate/src/core/iso/directory_table.rs:74-118 | a table that lists a subdirectory no scan has met or found before is followed by one of its own subdirectories |
| DirectoryTable.CoversExactly | crate/src/core/iso/directory_table.rs:74-118 | every reachable table is scanned if and only if no two of them share a starting sector |
| DirectoryTable.NothingBroken | crate/src/core/iso/directory_table.rs:50-138 | a walk that ends over such an image has passed no broken table |
| DirectoryTable.TwinIsMissed | crate/src/core/iso/directory_table.rs:106-118 | at an image: of two directories at one sector with different sizes, both reachable, one is never scanned although the walk succeeds |
| DirectoryTable.Find | crate/src/core/iso/directory_table.rs:141-145 | the first entry with the path, ignoring case |
| Obfuscate.XoredTwice | crate/src/core/xprofile/obfuscate.rs:42-60 | RC4 in place is its own inverse for every non-empty key and all data |
| Obfuscate.SchedulePermutes | crate/src/core/xprofile/obfuscate.rs:42-51 | the table stays a permutation of 0..255 through the key schedule |
| Obfuscate.StreamPermutes | crate/src/core/xprofile/obfuscate.rs:52-60 | and through the whole key stream, which depends on the key alone |
| Obfuscate.Mix | crate/src/core/xprofile/obfuscate.rs:48-51 | one turn of the key schedule |
| Obfuscate.KeysPart | crate/src/core/xprofile/obfuscate.rs:42-51 | keys whose schedules agree so far and whose next bytes differ go different ways at the next turn: every key byte is mixed in |
| Obfuscate.StillSchedule | crate/src/core/xprofile/obfuscate.rs:42-51 | at a key: the schedule whose every turn leaves the table in order |
| Obfuscate.StillStream | crate/src/core/xprofile/obfuscate.rs:52-60 | the first four bytes of that key's stream are 2, 5, 7 and 13 |
| Obfuscate.ScheduleKey | crate/src/core/xprofile/obfuscate.rs:43-51 | the key schedule |
| Obfuscate.Generate | crate/src/core/xprofile/obfuscate.rs:53-58 | one turn of the generator |
| Obfuscate.Rc4XorInPlace | crate/src/core/xprofile/obfuscate.rs:42-60 | every byte is xored with the key byte of its place |
| Obfuscate.Obfuscate | crate/src/core/xprofile/obfuscate.rs:82-97 | the wire form: digest of the body, then the body under RC4 |
| Obfuscate.WireBytes | crate/src/core/xprofile/obfuscate.rs:82-97 | the wire byte by byte: 16 of digest, then 8 of confounder and the plaintext, each xored with the key byte of its place |
| Obfuscate.Unobfuscate | crate/src/core/xprofile/obfuscate.rs:64-80 | the plaintext if the digest fits, nothing otherwise |
| Obfuscate.RoundTrip | crate/src/core/xprofile/obfuscate.rs:64-97 | every plaintext comes back, whatever the confounder |
| Obfuscate.OpensOnlyWires | crate/src/core/xprofile/obfuscate.rs:64-97 | a wire opens to a plaintext if and only if it is the wire form of that plaintext under some confounder |
| XexImage.ImagePrefix | crate/src/core/executable/xex_image.rs:263-293 | the first runs describe a front piece of the whole image |
| XexImage.ImageMeaning | crate/src/core/executable/xex_image.rs:263-293 | every run stands in the image as its data, copied from where the runs before it stopped reading, and then its zeros |
| XexImage.DecodeStep | crate/src/core/executable/xex_image.rs:280-287 | one run more, cut to the cap |
| XexImage.DecompressBasic | crate/src/core/executable/xex_image.rs:263-293 | the result is the described image cut to the cap, never longer; it fails exactly when a needed run's data is missing or the sanity limit is reached |
| XexImage.EarlyStopIsPrefix | crate/src/core/executable/xex_image.rs:263-293 | if the full run succeeds, every target below the limit succeeds with the front piece of that length |
| XexImage.DecompressNone | crate/src/core/executable/xex_image.rs:256-261 | stopping early is a front piece of the body |
| Classify.NoMoreThanCount | crate/src/core/split_detect/classify.rs:311-319 | different disc numbers in 1..=count are at most count, so the size test never decides alone |
| Classify.HasDuplicate | crate/src/core/split_detect/classify.rs:295-300 | the seen-set loop finds a duplicate number exactly when there is one |
| Classify.HasNumberOutOfRange | crate/src/core/split_detect/classify.rs:315-318 | exactly when some number is outside 1..=count |
| Classify.ResolveGroup | crate/src/core/split_detect/classify.rs:291-350 | a group becomes a set exactly when it has several discs, is meant to, and its numbers are different and in range |
| Classify.GroupConserves | crate/src/core/split_detect/classify.rs:291-350 | each image of a group is in exactly one resolution; a formed set mentions first names only, anything else all names |
| Classify.GroupByKey | crate/src/core/split_detect/classify.rs:280-290 | the map holds each key's images in order |
| Classify.GroupsPartition | crate/src/core/split_detect/classify.rs:280-290 | the groups together hold every image once |
| Classify.SetsAreGenuine | crate/src/core/split_detect/classify.rs:291-350 | every set has at least two discs of one group, with different numbers in range, and no more than its count |
| Classify.AllExplained | crate/src/core/split_detect/classify.rs:278-353 | every entry is explained by all the images of one title, disc count and container: a set lists each of them in order with its own first name, number and media id, and needs two or more with distinct numbers in range; one alone or not meant for a set is standalone; the rest are unplaced, as duplicates exactly when a number is claimed twice |
| Classify.FilesSurvive | crate/src/core/split_detect/classify.rs:278-353 | the names mentioned and the names behind the first in formed sets are together all names; none is dropped exactly when every image of every formed set is one file |
| Classify.OnlyFoldersLose | crate/src/core/split_detect/classify.rs:28-39 | since file images have one name, only GOD folders of two or more parts in a formed set lose names |
| Classify.FolderLosesName | crate/src/core/split_detect/classify.rs:320-345 | at a batch of two GOD folders: the set they form does not mention the second data part of the first |
| Classify.ResolveCompleteImages | crate/src/core/split_detect/classify.rs:278-353 | each complete image lands in exactly one resolution, every set is genuine, every entry is explained by the images it stands for, and every file name survives if and only if no image of a formed set has more than one file |

## Left out

- CciWriter.CciSession.NextChunk: assumes the plan of a session that stayed in step with its source; after a failed and repeated sizing call the plan itself is wrong, which `RetriedBatchPlansTooMuch` shows.
- RawSplit.FindRawSplit: what is promised of candidates nobody tried holds while the step budget lasts and fewer than 2000 orderings were tried; the source promises no more.
- Swizzle.UnswizzleBpp: for dimensions that pass the size and pitch checks it assumes dimensions up to 2^31 and byte offsets of the whole mask range below 2^32; beyond that the source's loops do not end or its offsets wrap.
- Swizzle.UnswizzleRect: only depth one, the only depth the source calls `unswizzle_box` with.
- DirectoryTable.ReadRoot: the check for an empty region popped from the stack is not modelled, since only non-empty regions are pushed; reading one table is a function of its sector and size.
- CciReader.ParseHeaderAndIndex: the 32-byte header is read in one piece, where the header library reads field by field.
- Reader.JsReader.constructor: the file must end at or below 2^53, the largest number the callback can be given exactly.
- Reader.JsReader.FetchBlockRange: called for missing blocks only, as its one call site does; what `or_insert` would do with a resident one is not modelled.
- Reader.JsReader.EnsureRange: the tick, streak and fetch counters do not overflow; at one request a nanosecond the tick counter would take centuries, the 32-bit fetch counter is only a statistic.
- Batch.ResolveOneHeader: the split search is a function of header and pool that satisfies `SearchIsSound`; its ties among equally large fragments are not fixed otherwise.
- CciRoundTrip.ScrubRoundTrip: no empty extent may begin past the image's end, since by `PlanFitsImage` the plan then asks for sectors that are not there.
- SubsetSearch.SortDescending: some descending order; ties fall as the unstable sort pleases.
- The foreign-function layer, the TypeScript package, progress callbacks and live handles: plumbing without state of its own.
- `usize` of 32 bits: lengths that do not fit it fail in the source; here they are unbounded.
- Panics of debug builds on arithmetic overflow: the wrapped value of release builds is modelled where it matters.
- The `Rebuild` backends of the writers: they stream from an image builder outside the repository; only "read sector i of a fixed image", with the zero mask, is modelled.
- CISO, GOD, STFS, ZAR and XISO readers and writers, `ExtractedSession`, hash lists and certificate patching: easier repeats of the CCI and reader properties, or dependent on libraries that are not part of this model.
- LZ4, LZX, AES, RSA, SHA-1 and HMAC internals, and the `xdvdfs`, `ciso` and `binrw` crates, are not part of this model.
- The total size of a CCI part including its index: it depends on how short LZ4 output can get; only the index offset is bounded.
- Windows-1252 decoding of directory names: a name is valid text or it is not.
- `resolve_batch` and `classify_parts`: they sort inputs into the buckets the modelled functions start from.
- Title lists, string and path normalisation, header field tables, DXT colour maths and PNG output: finite or single-branch facts.
