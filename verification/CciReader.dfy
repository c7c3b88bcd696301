/** The CCI reader: parsing a part's header and index, locating a sector and decoding its slot. */
module CciReader {
  import opened Common
  import Reader
  import opened CciFormat
  import opened CciLayout
  import CciWriter

  // -------------------------------------------------------------------- parsing

  datatype Parsed = Parsed(header: Header, positions: seq<nat>, compressed: seq<bool>)

  /** The position table never decreases and ends where the index begins. */
  function ValidateIndexPositions(positions: seq<nat>, indexOffset: nat): (r: Result<()>)
    ensures r.Ok? <==> PositionsValid(positions, indexOffset)
  {
    if exists i {:trigger positions[i]} :: 0 <= i < |positions| - 1 && positions[i] > positions[i + 1] then Err(BadIndex)
    else if positions == [] || positions[|positions| - 1] != indexOffset then Err(BadIndex)
    else
      AdjacentSuffices(positions, 0);
      Ok(())
  }

  ghost predicate PositionsValid(positions: seq<nat>, indexOffset: nat) {
    && (forall i, j :: 0 <= i <= j < |positions| ==> positions[i] <= positions[j])
    && positions != [] && positions[|positions| - 1] == indexOffset
  }

  lemma {:induction false} AdjacentSuffices(positions: seq<nat>, k: nat)
    requires forall i {:trigger positions[i]} :: 0 <= i < |positions| - 1 ==> positions[i] <= positions[i + 1]
    ensures forall i, j :: k <= i <= j < |positions| ==> positions[i] <= positions[j]
    decreases |positions| - k
  {
    if k < |positions| {
      AdjacentSuffices(positions, k + 1);
    }
  }

  function Words(bs: seq<byte>): (r: seq<nat>)
    requires |bs| % 4 == 0
    ensures |r| == |bs| / 4
  {
    if bs == [] then [] else Words(bs[..|bs| - 4]) + [LeValue(bs[|bs| - 4..])]
  }

  function PositionsOf(words: seq<nat>): (r: seq<nat>)
    ensures |r| == |words|
  {
    seq(|words|, i requires 0 <= i < |words| => words[i] % TWO_31 * ALIGN_MULT)
  }

  /** Bit 31 of every word but the last. */
  function FlagsOf(words: seq<nat>): (r: seq<bool>)
    requires words != []
    ensures |r| == |words| - 1
  {
    seq(|words| - 1, i requires 0 <= i < |words| - 1 => words[i] >= TWO_31)
  }

  function HeaderFieldsExpected(h: Header): bool {
    h.headerSize == HEADER_SIZE && h.blockSize == BLOCK_SIZE && h.version == VERSION && h.indexAlignment == INDEX_ALIGNMENT
  }

  /** What parsing makes of the bytes of one part. */
  function Parse(file: seq<byte>): (r: Result<Parsed>)
    ensures r.Ok? ==> ParsedSound(file, r.value)
  {
    var header :- ReadHeader(file);
    if !HeaderFieldsExpected(header) then Err(BadHeader)
    else if header.indexOffset < HEADER_SIZE || header.indexOffset > |file| then Err(BadHeader)
    else
      var indexLen := |file| - header.indexOffset;
      if indexLen % 4 != 0 || indexLen < 4 then Err(BadIndex)
      else ParseIndex(header, Words(file[header.indexOffset..]))
  }

  function ParseIndex(header: Header, words: seq<nat>): (r: Result<Parsed>)
    requires words != []
  {
    var positions := PositionsOf(words);
    var checked :- ValidateIndexPositions(positions, header.indexOffset);
    if (|positions| - 1) * SECTOR_SIZE != header.uncompressedSize then Err(BadIndex)
    else Ok(Parsed(header, positions, FlagsOf(words)))
  }

  /**
   Whatever the file, an accepted index keeps every slot inside the file: no slot is
   longer than the data in front of the index.
   */
  ghost predicate ParsedSound(file: seq<byte>, p: Parsed) {
    && |p.positions| == |p.compressed| + 1
    && PositionsValid(p.positions, p.header.indexOffset)
    && HEADER_SIZE <= p.header.indexOffset <= |file|
    && |p.compressed| * SECTOR_SIZE == p.header.uncompressedSize
  }

  lemma SlotsInsideFile(file: seq<byte>, s: nat)
    requires Parse(file).Ok? && s < |Parse(file).value.compressed|
    ensures var p := Parse(file).value; p.positions[s] <= p.positions[s + 1] <= |file|
  {
  }

  /** Word `i` of the index that begins at `at`. */
  function WordIn(file: seq<byte>, at: nat, i: nat): nat
    requires at + 4 * i + 4 <= |file|
  {
    LeValue(file[at + 4 * i..at + 4 * i + 4])
  }

  /** The header fields a part must have. */
  predicate HeaderAccepted(file: seq<byte>) {
    && |file| >= 32 && file[..4] == [0x43, 0x43, 0x49, 0x4D]
    && LeValue(file[4..8]) == 32 && LeValue(file[24..28]) == 2048 && file[28] == 1 && file[29] == 2
  }

  /** The index a part must have: whole words behind the data, one more than sectors, never falling, and ending where it begins. */
  ghost predicate IndexAccepted(file: seq<byte>, size: nat, at: nat) {
    && 32 <= at <= |file| - 4 && (|file| - at) % 4 == 0
    && var n := (|file| - at) / 4 - 1;
       && size == n * 2048
       && (forall i {:trigger WordIn(file, at, i)} :: 0 <= i < n ==>
             WordIn(file, at, i) % 0x8000_0000 <= WordIn(file, at, i + 1) % 0x8000_0000)
       && WordIn(file, at, n) % 0x8000_0000 * 4 == at
  }

  /** Which files are accepted as parts, and what their index words say about each sector. */
  lemma ParseMeaning(file: seq<byte>)
    ensures Parse(file).Ok? <==> HeaderAccepted(file) && IndexAccepted(file, LeValue(file[8..16]), LeValue(file[16..24]))
    ensures Parse(file).Ok? ==>
              var p, at := Parse(file).value, LeValue(file[16..24]);
              && at + 4 * |p.positions| == |file|
              && forall i :: 0 <= i < |p.compressed| ==>
                               && p.positions[i] == WordIn(file, at, i) % 0x8000_0000 * 4
                               && p.compressed[i] == (WordIn(file, at, i) >= 0x8000_0000)
  {
    HeaderRead(file);
    if HeaderAccepted(file) {
      var header := ReadHeader(file).value;
      var at := LeValue(file[16..24]);
      ParseDecides(file, header);
      if 32 <= at <= |file| - 4 && (|file| - at) % 4 == 0 {
        IndexRead(file, at, LeValue(file[8..16]));
      }
      hide LeValue, ReadHeader, Parse, Words, PositionsValid, WordIn, HeaderAccepted;
    }
  }

  lemma ParseDecides(file: seq<byte>, header: Header)
    requires ReadHeader(file) == Ok(header) && HeaderFieldsExpected(header)
    ensures if 32 <= header.indexOffset <= |file| - 4 && (|file| - header.indexOffset) % 4 == 0 then
              var words := Words(file[header.indexOffset..]);
              && (Parse(file).Ok? <==> PositionsValid(PositionsOf(words), header.indexOffset)
                                       && (|words| - 1) * 2048 == header.uncompressedSize)
              && (Parse(file).Ok? ==> Parse(file).value == Parsed(header, PositionsOf(words), FlagsOf(words)))
            else Parse(file).Err?
  {
    hide ReadHeader, Words, PositionsOf, FlagsOf, PositionsValid;
  }

  lemma HeaderRead(file: seq<byte>)
    ensures HeaderAccepted(file) <==> ReadHeader(file).Ok? && HeaderFieldsExpected(ReadHeader(file).value)
    ensures HeaderAccepted(file) ==>
              && ReadHeader(file).value.uncompressedSize == LeValue(file[8..16])
              && ReadHeader(file).value.indexOffset == LeValue(file[16..24])
  {
    if |file| >= 32 {
      assert LeValue(file[28..29]) == file[28] && LeValue(file[29..30]) == file[29];
    }
    hide LeValue;
  }

  lemma IndexRead(file: seq<byte>, at: nat, size: nat)
    requires 32 <= at <= |file| - 4 && (|file| - at) % 4 == 0
    ensures var words := Words(file[at..]);
            && |words| == (|file| - at) / 4
            && (forall i :: 0 <= i < |words| ==> words[i] == WordIn(file, at, i))
            && (IndexAccepted(file, size, at) <==> PositionsValid(PositionsOf(words), at) && (|words| - 1) * 2048 == size)
  {
    var bytes := file[at..];
    var words := Words(bytes);
    forall i | 0 <= i < |words| ensures words[i] == WordIn(file, at, i) {
      WordAt(bytes, i);
      assert bytes[4 * i..4 * i + 4] == file[at + 4 * i..at + 4 * i + 4];
    }
    hide Words, LeValue;
    IndexOrder(file, at, words);
  }

  lemma IndexOrder(file: seq<byte>, at: nat, words: seq<nat>)
    requires 32 <= at <= |file| - 4 && (|file| - at) % 4 == 0
    requires |words| == (|file| - at) / 4 && forall i :: 0 <= i < |words| ==> words[i] == WordIn(file, at, i)
    ensures PositionsValid(PositionsOf(words), at) <==>
              && (forall i {:trigger WordIn(file, at, i)} :: 0 <= i < |words| - 1 ==>
                    WordIn(file, at, i) % 0x8000_0000 <= WordIn(file, at, i + 1) % 0x8000_0000)
              && WordIn(file, at, |words| - 1) % 0x8000_0000 * 4 == at
  {
    var positions := PositionsOf(words);
    hide WordIn;
    if forall i {:trigger WordIn(file, at, i)} :: 0 <= i < |words| - 1 ==>
                                              WordIn(file, at, i) % 0x8000_0000 <= WordIn(file, at, i + 1) % 0x8000_0000 {
      forall i {:trigger positions[i]} | 0 <= i < |positions| - 1 ensures positions[i] <= positions[i + 1] {
        assert words[i] == WordIn(file, at, i) && words[i + 1] == WordIn(file, at, i + 1);
      }
      AdjacentSuffices(positions, 0);
    }
    if PositionsValid(positions, at) {
      forall i {:trigger WordIn(file, at, i)} | 0 <= i < |words| - 1
        ensures WordIn(file, at, i) % 0x8000_0000 <= WordIn(file, at, i + 1) % 0x8000_0000
      {
        assert positions[i] <= positions[i + 1];
        assert words[i] == WordIn(file, at, i) && words[i + 1] == WordIn(file, at, i + 1);
      }
    }
  }

  // ------------------------------------------------------------------ one sector

  /** What `read_sector` makes of slot `s`: a raw sector, or a padded compressed block. */
  function ReadSlot(codec: Codec, file: seq<byte>, positions: seq<nat>, compressed: seq<bool>, s: nat): (r: Result<seq<byte>>)
    requires s < |compressed| && |positions| == |compressed| + 1
    ensures r.Ok? ==> |r.value| == SECTOR_SIZE
  {
    var start := positions[s];
    var slotLen: int := positions[s + 1] - start; // never negative once parsed
    if !compressed[s] && slotLen == SECTOR_SIZE then
      if start + SECTOR_SIZE <= |file| then Ok(file[start..start + SECTOR_SIZE]) else Err(UnexpectedEof)
    else if slotLen < 1 then Err(BadSlot)
    else if start >= |file| then Err(UnexpectedEof)
    else
      var padding: int := file[start];
      var end := start + slotLen - padding;
      if slotLen < 1 + padding then Err(BadSlot) else
      if end > |file| then Err(UnexpectedEof)
      else DecodeBlock(codec, file[start + 1..end])
  }

  function DecodeBlock(codec: Codec, block: seq<byte>): (r: Result<seq<byte>>)
    ensures r.Ok? ==> |r.value| == SECTOR_SIZE
  {
    match codec.decompress(block)
    case None => Err(BadSector)
    case Some(data) => if |data| == SECTOR_SIZE then Ok(data) else Err(BadSector)
  }

  /**
   When a slot reads, and as what: a full-length slot without the flag as it is; any other as a
   padding count, a block that decompresses to a whole sector, and that much padding.
   */
  lemma ReadSlotMeaning(codec: Codec, file: seq<byte>, start: nat, end: nat, flag: bool, sector: seq<byte>)
    ensures ReadSlot(codec, file, [start, end], [flag], 0) == Ok(sector) <==>
              if !flag && end - start == 2048 then end <= |file| && sector == file[start..end]
              else
                && start < end && start < |file| && file[start] < end - start && end - file[start] <= |file|
                && codec.decompress(file[start + 1..end - file[start]]) == Some(sector) && |sector| == 2048
  {
  }

  /** Nothing but the slot's own positions and flag matters. */
  lemma ReadSlotLocal(codec: Codec, file: seq<byte>, positions: seq<nat>, compressed: seq<bool>, s: nat)
    requires s < |compressed| && |positions| == |compressed| + 1
    ensures ReadSlot(codec, file, positions, compressed, s)
         == ReadSlot(codec, file, [positions[s], positions[s + 1]], [compressed[s]], 0)
  {
  }

  // ---------------------------------------------------------------- the round trip

  lemma WordsSnoc(bs: seq<byte>, w: nat)
    requires |bs| % 4 == 0 && w < TWO_32
    ensures Words(bs + LeBytes(w, 4)) == Words(bs) + [w]
  {
    Pow256Values();
    LeRoundTrip(w, 4);
    hide LeBytes, LeValue, Pow256;
    var all := bs + LeBytes(w, 4);
    assert all[..|all| - 4] == bs && all[|all| - 4..] == LeBytes(w, 4);
  }

  lemma {:induction false} WordsRoundTrip(words: seq<nat>)
    requires forall i :: 0 <= i < |words| ==> words[i] < TWO_32
    ensures Words(WordBytes(words)) == words
  {
    hide Words, LeBytes;
    if words == [] {
    } else {
      WordsRoundTrip(words[..|words| - 1]);
      WordsSnoc(WordBytes(words[..|words| - 1]), words[|words| - 1]);
    }
  }

  lemma {:induction false} StartWordAt(infos: seq<SlotInfo>, k: nat)
    requires k < |infos|
    ensures StartWords(infos)[k] == IndexWord(DataEnd(infos[..k]), infos[k].compressed)
  {
    var n := |infos| - 1;
    if k < n {
      StartWordAt(infos[..n], k);
      assert infos[..n][..k] == infos[..k];
    }
  }

  /** The index a writer produces reads back as the slots' true positions and flags. */
  lemma IndexReadsBack(infos: seq<SlotInfo>)
    requires Closed(infos)
    ensures forall k :: 0 <= k < |IndexWords(infos)| ==> IndexWords(infos)[k] < TWO_32
    ensures forall k :: 0 <= k <= |infos| ==> PositionsOf(IndexWords(infos))[k] == DataEnd(infos[..k])
    ensures forall k :: 0 <= k < |infos| ==> FlagsOf(IndexWords(infos))[k] == infos[k].compressed
  {
    forall k | 0 <= k <= |infos|
      ensures IndexWords(infos)[k] < TWO_32
      ensures PositionsOf(IndexWords(infos))[k] == DataEnd(infos[..k])
      ensures k < |infos| ==> FlagsOf(IndexWords(infos))[k] == infos[k].compressed
    {
      IndexFits(infos, k);
      hide Closed, DataEnd;
      if k < |infos| {
        StartWordAt(infos, k);
      } else {
        assert infos[..k] == infos;
      }
    }
  }

  /** Every part the writer produces is accepted, and its table is the one sizing recorded. */
  lemma WrittenPartParses(infos: seq<SlotInfo>, first: nat, body: seq<byte>)
    requires Closed(infos) && HEADER_SIZE + |body| == DataEnd(infos)
    ensures var part := PartOf(first, infos);
            var r := Parse(part.headerBytes + body + part.indexBytes);
            && r.Ok?
            && r.value.positions == PositionsOf(IndexWords(infos))
            && r.value.compressed == FlagsOf(IndexWords(infos))
  {
    hide Parse, SerializeHeader, ReadHeader, IndexWords, WordBytes, PositionsOf, FlagsOf, Words;
    var part := PartOf(first, infos);
    var file := part.headerBytes + body + part.indexBytes;
    IndexFits(infos, 0);
    IndexFitsWhole(infos);
    assert file == part.headerBytes + (body + part.indexBytes);
    HeaderRoundTrip(|infos| * SECTOR_SIZE, DataEnd(infos), body + part.indexBytes);
    assert file[DataEnd(infos)..] == part.indexBytes;
    IndexReadsBack(infos);
    WordsRoundTrip(IndexWords(infos));
    WrittenPositionsValid(infos);
    ParseAccepts(file, Header(HEADER_SIZE, |infos| * SECTOR_SIZE, DataEnd(infos), BLOCK_SIZE, VERSION, INDEX_ALIGNMENT),
                 IndexWords(infos));
  }

  /** The conditions under which a file is accepted, spelled out. */
  lemma ParseAccepts(file: seq<byte>, header: Header, words: seq<nat>)
    requires ReadHeader(file) == Ok(header) && HeaderFieldsExpected(header)
    requires HEADER_SIZE <= header.indexOffset && header.indexOffset + 4 * |words| == |file| && words != []
    requires Words(file[header.indexOffset..]) == words
    requires PositionsValid(PositionsOf(words), header.indexOffset)
    requires (|words| - 1) * SECTOR_SIZE == header.uncompressedSize
    ensures Parse(file) == Ok(Parsed(header, PositionsOf(words), FlagsOf(words)))
  {
    hide ReadHeader, PositionsOf, FlagsOf, Words;
  }

  lemma WrittenPositionsValid(infos: seq<SlotInfo>)
    requires Closed(infos)
    ensures PositionsValid(PositionsOf(IndexWords(infos)), DataEnd(infos))
  {
    hide IndexWords, PositionsOf;
    IndexReadsBack(infos);
    var positions := PositionsOf(IndexWords(infos));
    forall i, j | 0 <= i <= j < |positions| ensures positions[i] <= positions[j] {
      assert infos[..j][..i] == infos[..i];
      DataEndMonotone(infos[..j], i);
    }
    assert infos[..|infos|] == infos;
  }

  /** A slot in place decodes to its sector. */
  lemma SlotReads(codec: Codec, sector: seq<byte>, file: seq<byte>, positions: seq<nat>, compressed: seq<bool>, s: nat)
    requires Lossless(codec) && |sector| == SECTOR_SIZE
    requires s < |compressed| && |positions| == |compressed| + 1
    requires positions[s] + SlotInfoOf(codec, sector).len == positions[s + 1] <= |file|
    requires compressed[s] == SlotInfoOf(codec, sector).compressed
    requires file[positions[s]..positions[s + 1]] == SlotOf(codec, sector)
    ensures ReadSlot(codec, file, positions, compressed, s) == Ok(sector)
  {
    var start, end := positions[s], positions[s + 1];
    var slot := file[start..end];
    SlotLength(codec, sector);
    if compressed[s] {
      var padding: int := slot[0];
      var block := codec.compress(sector);
      assert slot[1..|slot| - padding] == block;
      SubSlice(file, start, end, 1, |slot| - padding);
    }
  }

  /** Slot `k` of a written part lies between the positions its index names. */
  lemma WrittenSlotInPlace(codec: Codec, mine: seq<seq<byte>>, header: seq<byte>, index: seq<byte>, k: nat)
    requires Sectors(mine) && |header| == HEADER_SIZE && k < |mine|
    ensures var infos := Sizes(codec, mine);
            var file := header + Flatten(Slots(codec, mine)) + index;
            && DataEnd(infos[..k]) + SlotInfoOf(codec, mine[k]).len == DataEnd(infos[..k + 1]) <= |file|
            && file[DataEnd(infos[..k])..DataEnd(infos[..k + 1])] == SlotOf(codec, mine[k])
  {
    var slots, infos := Slots(codec, mine), Sizes(codec, mine);
    PartOfWhole(slots, k);
    SlotsLength(codec, mine[..k]);
    assert slots[..k] == Slots(codec, mine[..k]) && infos[..k] == Sizes(codec, mine[..k]);
    assert infos[..k + 1][..k] == infos[..k];
    SlotLength(codec, mine[k]);
    JoinFile(header, Flatten(slots[..k]), slots[k], Flatten(slots[k + 1..]), index);
  }

  lemma JoinFile(header: seq<byte>, before: seq<byte>, slot: seq<byte>, after: seq<byte>, index: seq<byte>)
    ensures header + (before + slot + after) + index == header + before + slot + (after + index)
  {
  }

  // ----------------------------------------------------------------- whole sources

  /** One opened part: its bytes and the table parsed from them. */
  datatype PartIndex = PartIndex(file: seq<byte>, positions: seq<nat>, compressed: seq<bool>)

  ghost predicate IndexedBy(p: PartIndex) {
    Parse(p.file).Ok? && Parse(p.file).value.positions == p.positions && Parse(p.file).value.compressed == p.compressed
  }

  ghost predicate SourceIndexed(index: seq<PartIndex>) {
    forall i :: 0 <= i < |index| ==> IndexedBy(index[i])
  }

  function TotalSectors(index: seq<PartIndex>): nat {
    if index == [] then 0 else TotalSectors(index[..|index| - 1]) + |index[|index| - 1].compressed|
  }

  /** The last part that starts at or before `sector`, if the sector is inside it. */
  function Locate(index: seq<PartIndex>, sector: nat): (r: Option<(nat, nat)>)
    ensures r.Some? ==> r.value.0 < |index| && r.value.1 < |index[r.value.0].compressed|
  {
    if index == [] then None
    else
      var last := |index| - 1;
      var offset := TotalSectors(index[..last]);
      if sector >= offset then
        if sector - offset < |index[last].compressed| then Some((last, sector - offset)) else None
      else Locate(index[..last], sector)
  }

  /** The sector the whole source presents at `sector`. */
  ghost function SectorAt(codec: Codec, index: seq<PartIndex>, sector: nat): (r: Result<seq<byte>>)
    requires SourceIndexed(index)
    ensures r.Ok? ==> |r.value| == SECTOR_SIZE
  {
    match Locate(index, sector)
    case None => Err(OutOfRange)
    case Some(at) =>
      assert IndexedBy(index[at.0]);
      ReadSlot(codec, index[at.0].file, index[at.0].positions, index[at.0].compressed, at.1)
  }

  /** A sector is found exactly when it exists, and then in the one part that holds it. */
  lemma {:induction false} LocateExact(index: seq<PartIndex>, sector: nat)
    ensures Locate(index, sector).Some? <==> sector < TotalSectors(index)
    ensures Locate(index, sector).Some? ==>
              TotalSectors(index[..Locate(index, sector).value.0]) + Locate(index, sector).value.1 == sector
  {
    if index != [] {
      var last := |index| - 1;
      LocateExact(index[..last], sector);
      var at := Locate(index[..last], sector);
      if at.Some? {
        assert index[..last][..at.value.0] == index[..at.value.0];
      }
    }
  }

  /** The parts of a written image, opened: their tables and their place in the whole. */
  lemma {:induction false} WrittenTotals(codec: Codec, data: seq<seq<byte>>, baseName: string, layout: seq<seq<SlotInfo>>,
                                         files: seq<(string, seq<byte>)>, index: seq<PartIndex>, n: nat)
    requires Sectors(data) && CciWriter.IsOutput(codec, data, baseName, layout, files)
    requires |index| == |files| && SourceIndexed(index)
    requires forall i :: 0 <= i < |files| ==> index[i].file == files[i].1
    requires n <= |index|
    ensures TotalSectors(index[..n]) == FirstOf(layout, n)
  {
    hide Parse, CciWriter.IsOutputFile;
    if n > 0 {
      WrittenTotals(codec, data, baseName, layout, files, index, n - 1);
      assert index[..n][..n - 1] == index[..n - 1];
      FirstOfStep(layout, n - 1);
      assert IndexedBy(index[n - 1]);
      WrittenPartOpens(codec, data, baseName, layout, files, n - 1);
    } else {
      assert layout[..0] == [] && index[..0] == [];
    }
  }

  lemma LayoutClosed(layout: seq<seq<SlotInfo>>, i: nat)
    requires LayoutValid(layout) && i < |layout|
    ensures Closed(layout[i])
  {
    assert i < |layout| - 1 ==> Full(layout[i]);
  }

  /** Every written part opens, with one flag and position per sector it holds. */
  lemma WrittenPartOpens(codec: Codec, data: seq<seq<byte>>, baseName: string, layout: seq<seq<SlotInfo>>,
                         files: seq<(string, seq<byte>)>, i: nat)
    requires Sectors(data) && CciWriter.IsOutput(codec, data, baseName, layout, files) && i < |files|
    ensures Parse(files[i].1).Ok?
    ensures Parse(files[i].1).value.positions == PositionsOf(IndexWords(layout[i]))
    ensures Parse(files[i].1).value.compressed == FlagsOf(IndexWords(layout[i]))
    ensures |Parse(files[i].1).value.compressed| == |layout[i]|
  {
    hide Parse, IndexWords, PositionsOf, FlagsOf, Flatten, Slots, Sizes;
    assert CciWriter.IsOutputFile(codec, data, baseName, layout, i, files[i]);
    LayoutClosed(layout, i);
    var first := FirstOf(layout, i);
    PartBytesFit(codec, data, layout, i, |layout[i]|);
    assert layout[i][..|layout[i]|] == layout[i];
    WrittenPartParses(layout[i], first, Flatten(Slots(codec, data[first..first + |layout[i]|])));
  }

  /**
   Reading undoes writing: open any correct output of an image and every sector of the
   image is found again, in whichever part the split put it.
   */
  lemma {:induction false} SectorsReadBack(codec: Codec, data: seq<seq<byte>>, baseName: string, layout: seq<seq<SlotInfo>>,
                        files: seq<(string, seq<byte>)>, index: seq<PartIndex>, sector: nat)
    requires Lossless(codec) && Sectors(data) && CciWriter.IsOutput(codec, data, baseName, layout, files)
    requires |index| == |files| && SourceIndexed(index)
    requires forall i :: 0 <= i < |files| ==> index[i].file == files[i].1
    ensures TotalSectors(index) == |data|
    ensures SectorAt(codec, index, sector) == if sector < |data| then Ok(data[sector]) else Err(OutOfRange)
  {
    hide Parse, ReadSlot, CciWriter.IsOutputFile, Locate, TotalSectors, Lossless, LayoutValid, Flatten, Sectors;
    WrittenTotals(codec, data, baseName, layout, files, index, |index|);
    assert index[..|index|] == index && layout[..|layout|] == layout;
    LocateExact(index, sector);
    if sector < |data| {
      var (i, k) := Locate(index, sector).value;
      WrittenTotals(codec, data, baseName, layout, files, index, i);
      assert IndexedBy(index[i]);
      WrittenPartOpens(codec, data, baseName, layout, files, i);
      WrittenSectorReads(codec, data, baseName, layout, files, i, k);
    }
  }

  lemma WrittenSectorReads(codec: Codec, data: seq<seq<byte>>, baseName: string, layout: seq<seq<SlotInfo>>,
                           files: seq<(string, seq<byte>)>, i: nat, k: nat)
    requires Lossless(codec) && Sectors(data) && CciWriter.IsOutput(codec, data, baseName, layout, files)
    requires i < |files| && k < |layout[i]|
    ensures FirstOf(layout, i) + k < |data|
    ensures Parse(files[i].1).Ok? && k < |Parse(files[i].1).value.compressed|
    ensures var p := Parse(files[i].1).value;
            ReadSlot(codec, files[i].1, p.positions, p.compressed, k) == Ok(data[FirstOf(layout, i) + k])
  {
    hide Parse, ReadSlot, Lossless, PartBytes, PartOf, Flatten, Slots, Sizes, SlotInfoOf, SlotOf, LayoutValid;
    var first, infos := FirstOf(layout, i), layout[i];
    WrittenPartOpens(codec, data, baseName, layout, files, i);
    LayoutClosed(layout, i);
    PartData(codec, data, layout, i, |infos|);
    assert infos[..|infos|] == infos;
    var mine := data[first..first + |infos|];
    assert CciWriter.IsOutputFile(codec, data, baseName, layout, i, files[i]);
    WrittenSlotReads(codec, data, first, infos, files[i].1, k);
  }

  lemma WrittenSlotReads(codec: Codec, data: seq<seq<byte>>, first: nat, infos: seq<SlotInfo>, file: seq<byte>, k: nat)
    requires Lossless(codec) && Sectors(data) && Closed(infos)
    requires first + |infos| <= |data| && infos == Sizes(codec, data[first..first + |infos|]) && k < |infos|
    requires file == PartBytes(codec, data, PartOf(first, infos))
    ensures ReadSlot(codec, file, PositionsOf(IndexWords(infos)), FlagsOf(IndexWords(infos)), k) == Ok(data[first + k])
  {
    hide ReadSlot, Lossless, IndexWords, PositionsOf, FlagsOf, Flatten, Slots, Sizes, SlotInfoOf, SlotOf, Closed, WordBytes,
         SerializeHeader;
    var mine := data[first..first + |infos|];
    IndexReadsBack(infos);
    WrittenSlotInPlace(codec, mine, PartOf(first, infos).headerBytes, PartOf(first, infos).indexBytes, k);
    SizesAt(codec, mine, k);
    SlotReads(codec, mine[k], file, PositionsOf(IndexWords(infos)), FlagsOf(IndexWords(infos)), k);
  }

  lemma SizesAt(codec: Codec, data: seq<seq<byte>>, k: nat)
    requires k < |data|
    ensures Sizes(codec, data)[k] == SlotInfoOf(codec, data[k])
  {
  }

  // ------------------------------------------------------- reading through readers

  /** `read_exact` into a fresh buffer: the file's own bytes from the current position, or an error. */
  method ReadNext(reader: Reader.JsReader, len: nat) returns (r: Result<seq<byte>>)
    requires reader.Valid() && reader.position <= reader.size
    modifies reader, reader.readFn
    ensures reader.Valid()
    ensures r.Ok? ==> reader.position == old(reader.position) + len <= |reader.image|
    ensures r.Ok? ==> r.value == reader.image[old(reader.position)..reader.position]
    ensures Reader.Reliable(reader.readFn, reader.baseOffset, reader.image) ==>
              (r.Ok? <==> old(reader.position) + len <= |reader.image|)
  {
    hide Reader.Honest, Reader.Reliable, Reader.CacheValid, Reader.FetchFailure;
    var buf := new byte[len];
    ghost var pos := reader.position;
    var got := reader.ReadExact(buf, 0, len);
    if got.Err? {
      return Err(got.error);
    }
    assert buf[..] == Reader.Slice(reader.image, pos, len);
    return Ok(buf[..]);
  }

  method ReadAt(reader: Reader.JsReader, pos: nat, len: nat) returns (r: Result<seq<byte>>)
    requires reader.Valid() && pos <= reader.size
    modifies reader, reader.readFn
    ensures reader.Valid()
    ensures r.Ok? ==> reader.position == pos + len <= |reader.image| && r.value == reader.image[pos..pos + len]
    ensures Reader.Reliable(reader.readFn, reader.baseOffset, reader.image) ==> (r.Ok? <==> pos + len <= |reader.image|)
  {
    hide Reader.Honest, Reader.Reliable, Reader.CacheValid, Reader.FetchFailure;
    var sought := reader.Seek(Reader.Start(pos));
    r := ReadNext(reader, len);
  }

  /** `parse_header_and_index` over a live reader: an accepted part is what its bytes say. */
  method ParseHeaderAndIndex(reader: Reader.JsReader) returns (r: Result<Parsed>)
    requires reader.Valid()
    modifies reader, reader.readFn
    ensures reader.Valid()
    ensures r.Ok? ==> Parse(reader.image) == r
    ensures Reader.Reliable(reader.readFn, reader.baseOffset, reader.image) ==> (r.Ok? <==> Parse(reader.image).Ok?)
  {
    hide Reader.JsReader.Valid, Reader.Reliable, Words, LeValue, PositionsOf, FlagsOf;
    var partSize := SizeOf(reader);
    var front := ReadAt(reader, 0, HEADER_SIZE);
    if front.Err? {
      return Err(front.error);
    }
    HeaderFromFront(reader.image);
    var read := ReadHeader(front.value);
    if read.Err? || !HeaderFieldsExpected(read.value) {
      return Err(BadHeader);
    }
    var header := read.value;
    if header.indexOffset < HEADER_SIZE || header.indexOffset > partSize {
      return Err(BadHeader);
    }
    var indexLen := partSize - header.indexOffset;
    if indexLen % 4 != 0 || indexLen < 4 {
      return Err(BadIndex);
    }
    var index := ReadAt(reader, header.indexOffset, indexLen);
    if index.Err? {
      return Err(index.error);
    }
    assert index.value == reader.image[header.indexOffset..];
    var positions, compressed := UnpackIndex(index.value);
    var checked := ValidateIndexPositions(positions, header.indexOffset);
    if checked.Err? {
      return Err(checked.error);
    }
    var sectorCount := |positions| - 1;
    if sectorCount * SECTOR_SIZE != header.uncompressedSize {
      return Err(BadIndex);
    }
    return Ok(Parsed(header, positions, compressed));
  }

  /** The chunk loop over the index bytes; the last entry's flag is dropped again. */
  method UnpackIndex(bytes: seq<byte>) returns (positions: seq<nat>, compressed: seq<bool>)
    requires |bytes| % 4 == 0 && bytes != []
    ensures positions == PositionsOf(Words(bytes)) && compressed == FlagsOf(Words(bytes))
  {
    positions, compressed := [], [];
    ghost var words := Words(bytes);
    for i := 0 to |bytes| / 4
      invariant |positions| == |compressed| == i
      invariant forall k :: 0 <= k < i ==> positions[k] == words[k] % TWO_31 * ALIGN_MULT
      invariant forall k :: 0 <= k < i ==> compressed[k] == (words[k] >= TWO_31)
    {
      WordAt(bytes, i);
      var raw := LeValue(bytes[4 * i..4 * i + 4]);
      compressed := compressed + [raw >= TWO_31];
      positions := positions + [raw % TWO_31 * ALIGN_MULT];
    }
    compressed := compressed[..|compressed| - 1];
  }

  lemma {:induction false} WordAt(bytes: seq<byte>, i: nat)
    requires |bytes| % 4 == 0 && 4 * i < |bytes|
    ensures Words(bytes)[i] == LeValue(bytes[4 * i..4 * i + 4])
    decreases |bytes|
  {
    hide LeValue;
    var init := bytes[..|bytes| - 4];
    if 4 * i < |init| {
      WordAt(init, i);
      assert init[4 * i..4 * i + 4] == bytes[4 * i..4 * i + 4];
    } else {
      assert 4 * i + 4 == |bytes|;
      assert bytes[|bytes| - 4..] == bytes[4 * i..4 * i + 4];
    }
  }

  lemma HeaderFromFront(file: seq<byte>)
    requires |file| >= HEADER_SIZE
    ensures ReadHeader(file[..HEADER_SIZE]) == ReadHeader(file)
  {
    hide LeValue;
    var front := file[..HEADER_SIZE];
    assert front[..4] == file[..4] && front[4..8] == file[4..8] && front[8..16] == file[8..16];
    assert front[16..24] == file[16..24] && front[24..28] == file[24..28];
    assert front[28..29] == file[28..29] && front[29..30] == file[29..30];
  }

  method SizeOf(reader: Reader.JsReader) returns (size: nat)
    requires reader.Valid()
    ensures size == |reader.image| == reader.size
  {
    size := reader.size;
  }

  lemma NoSectors()
    ensures TotalSectors([]) == 0
  {
  }

  lemma TotalStep(index: seq<PartIndex>, i: nat)
    requires i < |index| && IndexedBy(index[i])
    ensures |index[i].positions| == |index[i].compressed| + 1
    ensures TotalSectors(index[..i + 1]) == TotalSectors(index[..i]) + |index[i].compressed|
  {
    assert index[..i + 1][..i] == index[..i];
  }

  lemma LocateStep(index: seq<PartIndex>, i: nat, sector: nat)
    requires i < |index|
    ensures Locate(index[..i + 1], sector) ==
            (if sector >= TotalSectors(index[..i]) then
               if sector - TotalSectors(index[..i]) < |index[i].compressed| then Some((i, sector - TotalSectors(index[..i]))) else None
             else Locate(index[..i], sector))
  {
    assert index[..i + 1][..i] == index[..i];
  }

  method ComputeOffsets(files: seq<CciFile>) returns (offsets: seq<nat>, running: nat)
    requires SourceIndexed(IndexOf(files))
    ensures OffsetsMatch(IndexOf(files), offsets) && running == TotalSectors(IndexOf(files))
  {
    hide Parse, TotalSectors, IndexedBy;
    offsets, running := [], 0;
    ghost var index := IndexOf(files);
    NoSectors();
    for i := 0 to |files|
      invariant |offsets| == i && running == TotalSectors(index[..i])
      invariant forall k :: 0 <= k < i ==> offsets[k] == TotalSectors(index[..k])
    {
      assert IndexedBy(index[i]);
      TotalStep(index, i);
      offsets := offsets + [running];
      running := running + (|files[i].positions| - 1);
    }
    assert index[..|files|] == index;
  }

  /** One opened part: its reader and its table. */
  datatype CciFile = CciFile(reader: Reader.JsReader, positions: seq<nat>, compressed: seq<bool>)

  class CciSource {
    const codec: Codec
    const files: seq<CciFile>
    const sectorOffsets: seq<nat>
    const totalSectors: nat

    /** The parts as values: their true bytes and the tables in use. */
    ghost function Index(): (r: seq<PartIndex>)
      ensures |r| == |files|
    {
      IndexOf(files)
    }

    ghost function Readers(): set<object> { set f | f in files :: f.reader }

    ghost function Callbacks(): set<object> { set f | f in files :: f.reader.readFn }

    ghost predicate Valid()
      reads Readers()
    {
      && ReadersValid(files)
      && SourceIndexed(Index())
      && OffsetsMatch(Index(), sectorOffsets)
      && totalSectors == TotalSectors(Index())
    }

    ghost predicate AllReliable() {
      forall f :: f in files ==> Reader.Reliable(f.reader.readFn, f.reader.baseOffset, f.reader.image)
    }

    constructor (codec: Codec, files: seq<CciFile>)
      requires ReadersValid(files) && SourceIndexed(IndexOf(files))
      ensures Valid() && this.codec == codec && this.files == files
    {
      hide *;
      var offsets, total := ComputeOffsets(files);
      this.codec := codec;
      this.files := files;
      sectorOffsets := offsets;
      totalSectors := total;
      new;
      SourceReady();
    }

    lemma SourceReady()
      requires ReadersValid(files) && SourceIndexed(IndexOf(files))
      requires OffsetsMatch(IndexOf(files), sectorOffsets) && totalSectors == TotalSectors(IndexOf(files))
      ensures Valid()
    {
    }

    /** The part holding `sector` and the sector's number in it, looking from the last part back. */
    method LocateSector(sector: nat) returns (r: Result<(nat, nat)>)
      requires Valid()
      ensures r == match Locate(Index(), sector) case None => Err(OutOfRange) case Some(at) => Ok(at)
    {
      hide Reader.JsReader.Valid, Parse, Locate, TotalSectors;
      var i := |files|;
      assert Index()[..|files|] == Index();
      while i > 0
        invariant 0 <= i <= |files|
        invariant Locate(Index()[..i], sector) == Locate(Index(), sector)
      {
        i := i - 1;
        LocateStep(Index(), i, sector);
        if sector >= sectorOffsets[i] {
          var inFile := sector - sectorOffsets[i];
          if inFile >= |files[i].compressed| {
            return Err(OutOfRange);
          }
          return Ok((i, inFile));
        }
      }
      return Err(OutOfRange);
    }

    /** One sector into `out`: exactly the bytes the part's table and slot stand for. */
    method ReadSector(sector: nat, out: array<byte>) returns (r: Result<()>)
      requires Valid()
      modifies Readers(), Callbacks(), out
      ensures Valid()
      ensures r.Ok? ==> SectorAt(codec, Index(), sector) == Ok(out[..])
      ensures AllReliable() ==> (r.Ok? <==> out.Length == SECTOR_SIZE && SectorAt(codec, Index(), sector).Ok?)
    {
      hide Reader.JsReader.Valid, Reader.Reliable, Parse, OffsetsMatch, TotalSectors, Locate, ReadSlot;
      if out.Length != SECTOR_SIZE {
        return Err(BadSector);
      }
      var at := LocateSector(sector);
      if at.Err? {
        return Err(at.error);
      }
      var (i, s) := at.value;
      ghost var part := Index()[i];
      assert IndexedBy(part);
      var got := ReadSlotFrom(codec, files[i], s);
      if got.Err? {
        return Err(got.error);
      }
      assert files[i] in files;
      CopyInto(out, 0, got.value);
      assert out[..] == got.value;
      return Ok(());
    }

    /** `out.len()` bytes from `offset`, sector by sector. */
    method ReadBytes(offset: nat, out: array<byte>) returns (r: Result<()>)
      requires Valid()
      modifies Readers(), Callbacks(), out
      ensures Valid()
      ensures r.Ok? ==> Holds(codec, Index(), offset, out[..])
      ensures AllReliable() ==>
                (r.Ok? <==>
                 out.Length == 0 || SectorsReadable(codec, Index(), offset / SECTOR_SIZE, (offset + out.Length - 1) / SECTOR_SIZE))
    {
      hide Reader.JsReader.Valid, Reader.Reliable, Parse, OffsetsMatch, TotalSectors, Locate, ReadSlot, SectorAt, ReadersValid,
           SourceIndexed;
      if out.Length == 0 {
        return Ok(());
      }
      SourceIsIndexed();
      var startSector := offset / SECTOR_SIZE;
      var endSector := (offset + out.Length - 1) / SECTOR_SIZE;
      var sectorBuf := new byte[SECTOR_SIZE];
      var written := 0;
      var sector := startSector;
      while sector <= endSector
        invariant startSector <= sector <= endSector + 1
        invariant Valid()
        invariant written == (if sector == startSector then 0 else Min(out.Length, sector * SECTOR_SIZE - offset))
        invariant written <= out.Length
        invariant Holds(codec, Index(), offset, out[..written])
        invariant AllReliable() ==> forall k :: startSector <= k < sector ==> SectorAt(codec, Index(), k).Ok?
      {
        var read := ReadSector(sector, sectorBuf);
        if read.Err? {
          return Err(read.error);
        }
        var sectorStart := sector * SECTOR_SIZE;
        var copyStart := Max(offset, sectorStart) - sectorStart;
        var copyEnd := Min(offset + out.Length, sectorStart + SECTOR_SIZE) - sectorStart;
        var n := copyEnd - copyStart;
        ghost var before := out[..];
        HoldsMore(codec, Index(), offset, before[..written], sector, copyStart, n);
        CopyInto(out, written, sectorBuf[copyStart..copyStart + n]);
        assert out[..written + n] == before[..written] + sectorBuf[..][copyStart..copyStart + n];
        written := written + n;
        sector := sector + 1;
      }
      assert out[..written] == out[..];
      return Ok(());
    }

    lemma SourceIsIndexed()
      requires Valid()
      ensures SourceIndexed(Index())
    {
    }
  }

  /** `b` is the source's byte at position `p`. */
  ghost predicate HoldsAt(codec: Codec, index: seq<PartIndex>, p: nat, b: byte) {
    SourceIndexed(index)
    && SectorAt(codec, index, p / SECTOR_SIZE).Ok?
    && SectorAt(codec, index, p / SECTOR_SIZE).value[p % SECTOR_SIZE] == b
  }

  /** `bytes` are the source's bytes from `offset` on. */
  ghost predicate Holds(codec: Codec, index: seq<PartIndex>, offset: nat, bytes: seq<byte>) {
    forall j :: 0 <= j < |bytes| ==> HoldsAt(codec, index, offset + j, bytes[j])
  }

  ghost predicate SectorsReadable(codec: Codec, index: seq<PartIndex>, first: nat, last: nat) {
    SourceIndexed(index) && forall k :: first <= k <= last ==> SectorAt(codec, index, k).Ok?
  }

  lemma HoldsMore(codec: Codec, index: seq<PartIndex>, offset: nat, bytes: seq<byte>, sector: nat, from: nat, n: nat)
    requires SourceIndexed(index) && Holds(codec, index, offset, bytes)
    requires offset + |bytes| == sector * SECTOR_SIZE + from && from + n <= SECTOR_SIZE
    requires SectorAt(codec, index, sector).Ok?
    ensures Holds(codec, index, offset, bytes + SectorAt(codec, index, sector).value[from..from + n])
  {
    hide SectorAt, SourceIndexed;
    var piece := SectorAt(codec, index, sector).value[from..from + n];
    var all := bytes + piece;
    forall j | 0 <= j < |all| ensures HoldsAt(codec, index, offset + j, all[j]) {
      if j < |bytes| {
        assert all[j] == bytes[j];
      } else {
        var k := from + (j - |bytes|);
        assert offset + j == sector * SECTOR_SIZE + k;
        assert (offset + j) / SECTOR_SIZE == sector && (offset + j) % SECTOR_SIZE == k;
      }
    }
  }

  /** The slot-reading half of `read_sector`, over the part's own reader. */
  method ReadSlotFrom(codec: Codec, file: CciFile, s: nat) returns (r: Result<seq<byte>>)
    requires file.reader.Valid() && s < |file.compressed|
    requires IndexedBy(PartIndex(file.reader.image, file.positions, file.compressed))
    modifies file.reader, file.reader.readFn
    ensures file.reader.Valid()
    ensures |file.positions| == |file.compressed| + 1
    ensures r.Ok? ==> r == ReadSlot(codec, file.reader.image, file.positions, file.compressed, s)
    ensures Reader.Reliable(file.reader.readFn, file.reader.baseOffset, file.reader.image) ==>
              (r.Ok? <==> ReadSlot(codec, file.reader.image, file.positions, file.compressed, s).Ok?)
  {
    hide Reader.JsReader.Valid, Reader.Reliable, Parse;
    SlotsInsideFile(file.reader.image, s);
    var size := SizeOf(file.reader);
    var start, end := file.positions[s], file.positions[s + 1];
    var slotLen := end - start;
    if !file.compressed[s] && slotLen == SECTOR_SIZE {
      r := ReadAt(file.reader, start, SECTOR_SIZE);
      return;
    }
    if slotLen < 1 {
      return Err(BadSlot);
    }
    var front := ReadAt(file.reader, start, 1);
    if front.Err? {
      return Err(front.error);
    }
    var padding: int := front.value[0];
    if slotLen < 1 + padding {
      return Err(BadSlot);
    }
    var block := ReadNext(file.reader, slotLen - (1 + padding));
    if block.Err? {
      return Err(block.error);
    }
    match codec.decompress(block.value) {
      case None => return Err(BadSector);
      case Some(data) =>
        if |data| != SECTOR_SIZE {
          return Err(BadSector);
        }
        return Ok(data);
    }
  }

  ghost function IndexOf(files: seq<CciFile>): (r: seq<PartIndex>)
    ensures |r| == |files|
    ensures forall i :: 0 <= i < |files| ==> r[i] == PartIndex(files[i].reader.image, files[i].positions, files[i].compressed)
  {
    seq(|files|, i requires 0 <= i < |files| => PartIndex(files[i].reader.image, files[i].positions, files[i].compressed))
  }

  /** Every reader is in order, and no two parts share one. */
  ghost predicate ReadersValid(files: seq<CciFile>)
    reads set f | f in files :: f.reader
  {
    && (forall f :: f in files ==> f.reader.Valid())
    && (forall i, j :: 0 <= i < j < |files| ==> files[i].reader != files[j].reader)
  }

  /** `offsets[i]` is the first sector of part `i`. */
  ghost predicate OffsetsMatch(index: seq<PartIndex>, offsets: seq<nat>) {
    |offsets| == |index| && forall i :: 0 <= i < |index| ==> offsets[i] == TotalSectors(index[..i])
  }

  // -------------------------------------------------- opening and reading an image

  /** `open`: one reader per part, each with its parsed table. */
  method Open(codec: Codec, parts: seq<OpenPart>, sequentialWindow: nat, ghost images: seq<seq<byte>>)
    returns (r: Result<CciSource>)
    requires PartsHonest(parts, images)
    modifies set p | p in parts :: p.readFn
    ensures r.Ok? ==> fresh(r.value) && fresh(r.value.Readers()) && r.value.Valid() && r.value.codec == codec
    ensures r.Ok? ==> OpenedAs(r.value.files, parts, images)
    ensures parts == [] ==> r == Err(NoParts)
    ensures PartsReliable(parts, images) ==>
              (r.Ok? <==> parts != [] && forall i :: 0 <= i < |images| ==> Parse(images[i]).Ok?)
  {
    hide Reader.JsReader.Valid, Reader.Honest, Reader.Reliable, Parse, IndexedBy;
    if parts == [] {
      return Err(NoParts);
    }
    var files: seq<CciFile> := [];
    for i := 0 to |parts|
      invariant |files| == i && ReadersValid(files)
      invariant forall f :: f in files ==> fresh(f.reader)
      invariant SourceIndexed(IndexOf(files))
      invariant OpenedAs(files, parts[..i], images[..i])
      invariant PartsReliable(parts, images) ==> forall k :: 0 <= k < i ==> Parse(images[k]).Ok?
    {
      var file := OpenFile(parts[i], sequentialWindow, images[i]);
      if file.Err? {
        return Err(file.error);
      }
      files := files + [file.value];
    }
    var source := new CciSource(codec, files);
    return Ok(source);
  }

  method OpenFile(part: OpenPart, sequentialWindow: nat, ghost image: seq<byte>) returns (r: Result<CciFile>)
    requires |image| == part.size <= Reader.MAX_EXACT_JS_INT && Reader.Honest(part.readFn, 0, image)
    modifies part.readFn
    ensures r.Ok? ==> fresh(r.value.reader) && r.value.reader.Valid()
    ensures r.Ok? ==> r.value.reader.image == image && r.value.reader.baseOffset == 0 && r.value.reader.readFn == part.readFn
    ensures r.Ok? ==> IndexedBy(PartIndex(image, r.value.positions, r.value.compressed))
    ensures Reader.Reliable(part.readFn, 0, image) ==> (r.Ok? <==> Parse(image).Ok?)
  {
    hide Reader.JsReader.Valid, Reader.Honest, Reader.Reliable, Parse;
    var reader := new Reader.JsReader(part.readFn, part.size, 0, image);
    reader.SetSequentialWindow(sequentialWindow);
    var parsed := ParseHeaderAndIndex(reader);
    if parsed.Err? {
      return Err(parsed.error);
    }
    return Ok(CciFile(reader, parsed.value.positions, parsed.value.compressed));
  }

  datatype OpenPart = OpenPart(readFn: Reader.Callback, size: nat)

  ghost predicate PartsHonest(parts: seq<OpenPart>, images: seq<seq<byte>>) {
    |parts| == |images|
    && forall i :: 0 <= i < |parts| ==>
         |images[i]| == parts[i].size <= Reader.MAX_EXACT_JS_INT && Reader.Honest(parts[i].readFn, 0, images[i])
  }

  ghost predicate PartsReliable(parts: seq<OpenPart>, images: seq<seq<byte>>) {
    |parts| == |images| && forall i :: 0 <= i < |parts| ==> Reader.Reliable(parts[i].readFn, 0, images[i])
  }

  /** The readers stand for the images of the parts, in order. */
  ghost predicate OpenedAs(files: seq<CciFile>, parts: seq<OpenPart>, images: seq<seq<byte>>) {
    |files| == |parts| == |images|
    && forall i :: 0 <= i < |files| ==>
         files[i].reader.image == images[i] && files[i].reader.baseOffset == 0 && files[i].reader.readFn == parts[i].readFn
  }
}
