/** The CCI writer: a sizing pass that plans every part, then a streaming pass that re-compresses. */
module CciWriter {
  import opened Common
  import opened CciFormat
  import opened CciLayout

  /** Where raw sectors come from. Any read may fail, as decided by how many were made before. */
  class SectorDevice {
    const image: seq<seq<byte>>
    const fails: nat -> bool
    var attempts: nat

    constructor (image: seq<seq<byte>>, fails: nat -> bool)
      ensures this.image == image && this.fails == fails && attempts == 0
    {
      this.image := image;
      this.fails := fails;
      attempts := 0;
    }

    method ReadExactAt(sector: nat) returns (r: Result<seq<byte>>)
      modifies this
      ensures attempts == old(attempts) + 1
      ensures r == if fails(old(attempts)) || sector >= |image| then Err(BadSector) else Ok(image[sector])
    {
      if fails(attempts) || sector >= |image| {
        r := Err(BadSector);
      } else {
        r := Ok(image[sector]);
      }
      attempts := attempts + 1;
    }
  }

  /** The sectors the container stands for: the device's, with the masked ones zeroed. */
  function Masked(image: seq<seq<byte>>, zeroSectors: Option<set<nat>>): (r: seq<seq<byte>>)
    ensures |r| == |image|
  {
    seq(|image|, i requires 0 <= i < |image| => MaskedSector(image[i], i, zeroSectors))
  }

  function MaskedSector(bytes: seq<byte>, sector: nat, zeroSectors: Option<set<nat>>): seq<byte> {
    if zeroSectors.Some? && sector in zeroSectors.value then seq(|bytes|, _ => 0) else bytes
  }

  datatype StreamStage = HeaderStage | SectorsStage | IndexStage

  // ------------------------------------------------------------ the sizing state

  /** The part being sized: its position follows its slots and has not passed the split point before the last. */
  ghost predicate OpenPart(infos: seq<SlotInfo>, position: nat) {
    && Closed(infos)
    && (if infos == [] then position == 0 || position == HEADER_SIZE else position == DataEnd(infos))
  }

  ghost predicate AllFull(layout: seq<seq<SlotInfo>>) {
    forall i :: 0 <= i < |layout| ==> Full(layout[i])
  }

  lemma PushSlot(infos: seq<SlotInfo>, position: nat, info: SlotInfo)
    requires OpenPart(infos, position) && position <= FILE_SPLIT_POINT && position > 0 && SlotInfoValid(info)
    ensures OpenPart(infos + [info], position + info.len)
  {
    assert (infos + [info])[..|infos|] == infos;
  }

  lemma PartsMatchSnoc(parts: seq<CciPart>, layout: seq<seq<SlotInfo>>, infos: seq<SlotInfo>)
    requires PartsMatch(parts, layout)
    ensures PartsMatch(parts + [PartOf(|Flatten(layout)|, infos)], layout + [infos])
  {
    hide PartOf;
    forall i | 0 <= i < |parts| ensures FirstOf(layout + [infos], i) == FirstOf(layout, i) {
      assert (layout + [infos])[..i] == layout[..i];
    }
    assert (layout + [infos])[..|layout|] == layout;
  }

  lemma StartWordsSnoc(infos: seq<SlotInfo>, i: nat)
    requires i < |infos|
    ensures StartWords(infos[..i + 1]) == StartWords(infos[..i]) + [IndexWord(DataEnd(infos[..i]), infos[i].compressed)]
    ensures DataEnd(infos[..i + 1]) == DataEnd(infos[..i]) + infos[i].len
  {
    assert infos[..i + 1][..i] == infos[..i];
  }

  lemma PartIs(first: nat, infos: seq<SlotInfo>)
    ensures PartOf(first, infos)
         == CciPart(first, |infos|, SerializeHeader(|infos| * SECTOR_SIZE, DataEnd(infos)),
                    WordBytes(IndexWords(infos)), DataEnd(infos) + |WordBytes(IndexWords(infos))|)
  {
  }

  /** The index table for `infos` and where the data before it ends. */
  method BuildIndex(infos: seq<SlotInfo>) returns (r: Result<(seq<byte>, nat)>)
    ensures r.Ok? <==> DataEnd(infos) / ALIGN_MULT < TWO_32
    ensures r.Ok? ==> r.value == (WordBytes(IndexWords(infos)), DataEnd(infos))
  {
    var position := HEADER_SIZE;
    var indexBytes: seq<byte> := [];
    for i := 0 to |infos|
      invariant position == DataEnd(infos[..i])
      invariant indexBytes == WordBytes(StartWords(infos[..i]))
    {
      hide WordBytes, StartWords, LeBytes;
      DataEndMonotone(infos, i);
      if position / ALIGN_MULT >= TWO_32 {
        return Err(IndexOverflow);
      }
      StartWordsSnoc(infos, i);
      indexBytes := indexBytes + LeBytes(IndexWord(position, infos[i].compressed), 4);
      position := position + infos[i].len;
    }
    assert infos[..|infos|] == infos;
    if position / ALIGN_MULT >= TWO_32 {
      return Err(IndexOverflow);
    }
    return Ok((indexBytes + LeBytes(position / ALIGN_MULT, 4), position));
  }

  lemma InStepGrows(codec: Codec, data: seq<seq<byte>>, from: nat, to: nat, before: seq<SlotInfo>)
    requires from <= to <= |data|
    ensures before == Sizes(codec, data[..from]) ==> before + Sizes(codec, data[from..to]) == Sizes(codec, data[..to])
  {
    assert data[..to][..from] == data[..from] && data[..to][from..] == data[from..to];
    SizesSplit(codec, data[..to], from);
  }

  lemma SizesNothing(codec: Codec, data: seq<seq<byte>>)
    ensures Sizes(codec, data[0..0]) == []
    ensures data == [] ==> Sizes(codec, data[..0]) == []
  {
  }

  /** Slots recorded beyond the sectors counted leave the recording out of step. */
  lemma OutOfStep(codec: Codec, data: seq<seq<byte>>, from: nat, k: nat, before: seq<SlotInfo>)
    requires from + k <= |data|
    ensures before == Sizes(codec, data[..from]) ==>
              (before + Sizes(codec, data[from..from + k]) == Sizes(codec, data[..from]) <==> k == 0)
  {
    assert |Sizes(codec, data[from..from + k])| == k;
  }

  // --------------------------------------------------------- the streaming state

  /** The part's sectors exist, its header has its fixed size, and its bytes add up to its total. */
  ghost predicate PartPlanned(codec: Codec, data: seq<seq<byte>>, part: CciPart) {
    && part.firstSector + part.sectorCount <= |data|
    && |part.headerBytes| == HEADER_SIZE
    && |part.indexBytes| >= 4
    && |PartBytes(codec, data, part)| == part.totalSize
  }

  ghost predicate PartsPlanned(codec: Codec, data: seq<seq<byte>>, parts: seq<CciPart>) {
    forall i :: 0 <= i < |parts| ==> PartPlanned(codec, data, parts[i])
  }

  ghost predicate StagePlaced(part: CciPart, stage: StreamStage, blobPos: nat, cursor: nat) {
    match stage
    case HeaderStage => blobPos < |part.headerBytes|
    case SectorsStage => part.firstSector <= cursor <= part.firstSector + part.sectorCount
    case IndexStage => blobPos < |part.indexBytes|
  }

  ghost predicate StreamPlaced(codec: Codec, data: seq<seq<byte>>, parts: seq<CciPart>, streamPart: nat,
                               stage: StreamStage, blobPos: nat, cursor: nat) {
    && PartsPlanned(codec, data, parts)
    && streamPart <= |parts|
    && (streamPart < |parts| ==> StagePlaced(parts[streamPart], stage, blobPos, cursor))
    && (streamPart == |parts| ==> stage == HeaderStage && blobPos == 0)
  }

  lemma SlotsNothing(codec: Codec, data: seq<seq<byte>>, k: nat)
    requires k <= |data|
    ensures Flatten(Slots(codec, data[k..k])) == []
  {
  }

  lemma SlotsSnoc(codec: Codec, data: seq<seq<byte>>, from: nat, k: nat)
    requires from <= k < |data|
    ensures Flatten(Slots(codec, data[from..k + 1])) == Flatten(Slots(codec, data[from..k])) + SlotOf(codec, data[k])
  {
    assert data[from..k + 1] == data[from..k] + [data[k]];
    assert Slots(codec, data[from..k + 1]) == Slots(codec, data[from..k]) + [SlotOf(codec, data[k])];
    FlattenSnoc(Slots(codec, data[from..k]), SlotOf(codec, data[k]));
  }

  lemma BlobStep(blob: seq<byte>, from: nat, to: nat)
    requires from <= to <= |blob|
    ensures blob[..to] == blob[..from] + blob[from..to]
    ensures blob[..|blob|] == blob
  {
  }

  /** What has gone out of a part when the stream stands at the given place in it. */
  ghost function EmittedOf(codec: Codec, data: seq<seq<byte>>, part: CciPart,
                           stage: StreamStage, blobPos: nat, cursor: nat): seq<byte> {
    match stage
    case HeaderStage => Between(part.headerBytes, 0, blobPos)
    case SectorsStage => part.headerBytes + Flatten(Slots(codec, Between(data, part.firstSector, cursor)))
    case IndexStage =>
      part.headerBytes + Flatten(Slots(codec, Between(data, part.firstSector, part.firstSector + part.sectorCount)))
      + Between(part.indexBytes, 0, blobPos)
  }

  /** The elements at `[from, to)` that exist. */
  ghost function Between<T>(s: seq<T>, from: nat, to: nat): seq<T> {
    if from <= to <= |s| then s[from..to] else []
  }

  /** Whatever has gone out of a part is the front of its file. */
  lemma EmittedBounded(codec: Codec, data: seq<seq<byte>>, part: CciPart, stage: StreamStage, blobPos: nat, cursor: nat)
    requires Sectors(data) && PartPlanned(codec, data, part) && StagePlaced(part, stage, blobPos, cursor)
    ensures |EmittedOf(codec, data, part, stage, blobPos, cursor)| <= part.totalSize
  {
    match stage {
      case HeaderStage =>
      case SectorsStage => EmittedSectors(codec, data, part, cursor, part.firstSector + part.sectorCount);
      case IndexStage =>
    }
  }

  lemma EmittedNoIndex(codec: Codec, data: seq<seq<byte>>, part: CciPart)
    requires PartPlanned(codec, data, part)
    ensures EmittedOf(codec, data, part, IndexStage, 0, 0)
         == EmittedOf(codec, data, part, SectorsStage, 0, part.firstSector + part.sectorCount)
  {
  }

  lemma EmittedIndex(codec: Codec, data: seq<seq<byte>>, part: CciPart, from: nat, to: nat)
    requires PartPlanned(codec, data, part) && from <= to <= |part.indexBytes| && from < |part.indexBytes|
    ensures to < |part.indexBytes| ==>
              EmittedOf(codec, data, part, IndexStage, to, 0)
              == EmittedOf(codec, data, part, IndexStage, from, 0) + part.indexBytes[from..to]
    ensures to == |part.indexBytes| ==>
              PartBytes(codec, data, part)
              == EmittedOf(codec, data, part, IndexStage, from, 0) + part.indexBytes[from..to]
  {
    hide Flatten, Slots;
    BlobStep(part.indexBytes, from, to);
  }

  lemma EmittedSectors(codec: Codec, data: seq<seq<byte>>, part: CciPart, from: nat, to: nat)
    requires Sectors(data) && PartPlanned(codec, data, part)
    requires part.firstSector <= from <= to <= part.firstSector + part.sectorCount
    ensures EmittedOf(codec, data, part, SectorsStage, 0, to)
         == EmittedOf(codec, data, part, SectorsStage, 0, from) + Flatten(Slots(codec, data[from..to]))
    ensures Flatten(Slots(codec, data[from..to])) == [] <==> from == to
  {
    var first := part.firstSector;
    assert data[first..to] == data[first..from] + data[from..to];
    assert Slots(codec, data[first..to]) == Slots(codec, data[first..from]) + Slots(codec, data[from..to]);
    FlattenAppend(Slots(codec, data[first..from]), Slots(codec, data[from..to]));
    SlotsLength(codec, data[from..to]);
    SizesValid(codec, data[from..to]);
    DataEndBounds(Sizes(codec, data[from..to]));
  }

  class CciSession {
    const codec: Codec
    const device: SectorDevice
    const zeroSectors: Option<set<nat>>
    const totalDataSectors: nat
    const baseName: string
    var sizingNextSector: nat
    var sizingPartFirstSector: nat
    var sizingPartPosition: nat
    var sizingPartIndexInfos: seq<SlotInfo>
    var sizingDone: bool
    var parts: seq<CciPart>
    var streamPart: nat
    var streamStage: StreamStage
    var streamBlobPos: nat
    var streamSectorCursor: nat
    var currentEntryName: string
    var outputManifest: seq<(string, nat)>
    var sectorScratch: seq<byte>
    /** The slots of every finished part. */
    ghost var layout: seq<seq<SlotInfo>>

    ghost function Data(): seq<seq<byte>> { Masked(device.image, zeroSectors) }

    /** Every slot sized so far, in the order it was recorded. */
    ghost function Recorded(): seq<SlotInfo>
      reads this`layout, this`sizingPartIndexInfos
    {
      Flatten(layout) + sizingPartIndexInfos
    }

    ghost predicate DeviceValid() {
      Sectors(device.image) && totalDataSectors == |device.image|
    }

    /** What sizing keeps, even when reads fail: finished parts are full and described by `parts`. */
    ghost predicate SizingValid()
      reads this`parts, this`layout, this`sizingPartFirstSector, this`sizingNextSector, this`sizingDone
      reads this`sizingPartIndexInfos, this`sizingPartPosition
    {
      && DeviceValid()
      && PartsMatch(parts, layout)
      && sizingPartFirstSector == |Flatten(layout)|
      && sizingNextSector <= totalDataSectors
      && (!sizingDone ==>
          && AllFull(layout)
          && OpenPart(sizingPartIndexInfos, sizingPartPosition)
          && (totalDataSectors > 0 ==> sizingNextSector < totalDataSectors)
          && (totalDataSectors == 0 ==> layout == [] && sizingPartIndexInfos == []))
      && (sizingDone ==> LayoutValid(layout) && sizingPartIndexInfos == [] && sizingNextSector == totalDataSectors)
    }

    /** The slots recorded are those of the sectors counted as sized, each once. */
    ghost predicate InStep()
      reads this`layout, this`sizingPartIndexInfos, this`sizingNextSector
    {
      sizingNextSector <= |Data()| && Recorded() == Sizes(codec, Data()[..sizingNextSector])
    }

    constructor (codec: Codec, device: SectorDevice, zeroSectors: Option<set<nat>>, baseName: string)
      requires Sectors(device.image)
      ensures SizingValid() && InStep() && !sizingDone
      ensures this.codec == codec && this.device == device && this.zeroSectors == zeroSectors
      ensures this.baseName == baseName
      ensures sizingNextSector == 0 && Recorded() == [] && totalDataSectors == |device.image|
      ensures currentEntryName == baseName + ".cci" && outputManifest == [] && streamPart == 0
      ensures Data() == Masked(device.image, zeroSectors)
    {
      this.codec := codec;
      this.device := device;
      this.zeroSectors := zeroSectors;
      this.totalDataSectors := |device.image|;
      this.baseName := baseName;
      sizingNextSector := 0;
      sizingPartFirstSector := 0;
      sizingPartPosition := 0;
      sizingPartIndexInfos := [];
      sizingDone := false;
      parts := [];
      streamPart := 0;
      streamStage := HeaderStage;
      streamBlobPos := 0;
      streamSectorCursor := 0;
      currentEntryName := OutputName(baseName, 0, 1);
      outputManifest := [];
      sectorScratch := [];
      layout := [];
    }

    /** One sector into the reused scratch buffer, zeroed if masked. */
    method ReadSector(sector: nat) returns (r: Result<()>)
      requires DeviceValid()
      modifies this`sectorScratch, device
      ensures device.attempts == old(device.attempts) + 1
      ensures r.Ok? ==> sector < |Data()| && sectorScratch == Data()[sector] && |sectorScratch| == SECTOR_SIZE
      ensures r.Ok? ==>
                sectorScratch == if zeroSectors.Some? && sector in zeroSectors.value then Zeros(2048) else device.image[sector]
      ensures r.Err? ==> sectorScratch == old(sectorScratch)
      ensures r.Ok? <==> !device.fails(old(device.attempts)) && sector < totalDataSectors
    {
      var got := device.ReadExactAt(sector);
      if got.Err? {
        return Err(got.error);
      }
      sectorScratch := got.value;
      if zeroSectors.Some? && sector in zeroSectors.value {
        sectorScratch := seq(|sectorScratch|, _ => 0);
      }
      return Ok(());
    }

    /** Ends the current part once it has passed the split point, and opens a part's data after its header. */
    method CheckAndManageSizingWrite() returns (r: Result<()>)
      requires SizingValid() && !sizingDone && totalDataSectors > 0
      modifies this`sizingPartPosition, this`sizingPartIndexInfos, this`sizingPartFirstSector, this`parts, this`layout
      ensures SizingValid() && r.Ok?
      ensures Recorded() == old(Recorded())
      ensures 0 < sizingPartPosition <= FILE_SPLIT_POINT
    {
      hide PartsMatch, SlotInfoValid, Flatten, DataEnd;
      DataEndBounds(sizingPartIndexInfos);
      if sizingPartPosition > FILE_SPLIT_POINT {
        FlattenSnoc(layout, sizingPartIndexInfos);
        IndexFitsWhole(sizingPartIndexInfos);
        r := FinalizeSizingPart();
        if r.Err? {
          return;
        }
      }
      if sizingPartIndexInfos == [] && sizingPartPosition == 0 {
        sizingPartPosition := HEADER_SIZE;
      }
      return Ok(());
    }

    /**
     Turns the sized slots into a part: header, index words and sizes. It fails exactly when
     the data ends past what a 32-bit index word can name, and then the slots are gone.
     */
    method FinalizeSizingPart() returns (r: Result<()>)
      requires PartsMatch(parts, layout)
      requires sizingPartFirstSector == |Flatten(layout)|
      modifies this`sizingPartPosition, this`sizingPartIndexInfos, this`sizingPartFirstSector, this`parts, this`layout
      ensures r.Ok? <==> DataEnd(old(sizingPartIndexInfos)) / ALIGN_MULT < TWO_32
      ensures sizingPartIndexInfos == []
      ensures PartsMatch(parts, layout) && sizingPartFirstSector == |Flatten(layout)|
      ensures r.Ok? ==> layout == old(layout) + [old(sizingPartIndexInfos)] && sizingPartPosition == 0
      ensures r.Err? ==> layout == old(layout) && sizingPartPosition == old(sizingPartPosition)
    {
      hide *;
      var infos := sizingPartIndexInfos;
      sizingPartIndexInfos := [];
      var index := BuildIndex(infos);
      if index.Err? {
        return Err(index.error);
      }
      var (indexBytes, indexOffset) := index.value;
      var part := CciPart(sizingPartFirstSector, |infos|, SerializeHeader(|infos| * SECTOR_SIZE, indexOffset),
                          indexBytes, indexOffset + |indexBytes|);
      PartIs(sizingPartFirstSector, infos);
      PartsMatchSnoc(parts, layout, infos);
      FlattenSnoc(layout, infos);
      parts := parts + [part];
      layout := layout + [infos];
      sizingPartFirstSector := sizingPartFirstSector + |infos|;
      sizingPartPosition := 0;
      return Ok(());
    }

    /** One step of the sizing loop: the slot of `sector` joins the current part, or a new one. */
    method SizeSector(sector: nat) returns (r: Result<()>)
      requires SizingValid() && !sizingDone && sector < totalDataSectors
      modifies this`sizingPartPosition, this`sizingPartIndexInfos, this`sizingPartFirstSector, this`parts, this`layout
      modifies this`sectorScratch, device
      ensures SizingValid() && device.attempts == old(device.attempts) + 1
      ensures r.Ok? ==> sector < |Data()| && Recorded() == old(Recorded()) + [SlotInfoOf(codec, Data()[sector])]
      ensures r.Ok? ==> sizingPartIndexInfos != []
      ensures r.Err? ==> Recorded() == old(Recorded())
      ensures r.Ok? <==> !device.fails(old(device.attempts))
    {
      hide PartsMatch, SlotInfoValid, InfosValid, Closed, Flatten, DataEnd, CompressSector, CompressedWrittenLen;
      r := CheckAndManageSizingWrite();
      if r.Err? {
        return;
      }
      r := ReadSector(sector);
      if r.Err? {
        return;
      }
      var (data, compressed) := CompressSector(codec, sectorScratch);
      var writtenLen := if compressed then CompressedWrittenLen(|data|).0 else SECTOR_SIZE;
      var info := SlotInfo(writtenLen, compressed);
      SlotLength(codec, sectorScratch);
      PushSlot(sizingPartIndexInfos, sizingPartPosition, info);
      sizingPartIndexInfos := sizingPartIndexInfos + [info];
      sizingPartPosition := sizingPartPosition + writtenLen;
      return Ok(());
    }

    method FinishSizing()
      modifies this`outputManifest, this`currentEntryName, this`streamPart, this`streamStage, this`streamBlobPos, this`sizingDone
      ensures sizingDone && StreamStarts() && ManifestMatches()
    {
      var manifest: seq<(string, nat)> := [];
      for i := 0 to |parts|
        invariant |manifest| == i
        invariant forall k :: 0 <= k < i ==> manifest[k] == (OutputName(baseName, k, |parts|), parts[k].totalSize)
      {
        manifest := manifest + [(OutputName(baseName, i, |parts|), parts[i].totalSize)];
      }
      outputManifest := manifest;
      currentEntryName := OutputName(baseName, 0, |parts|);
      streamPart := 0;
      streamStage := HeaderStage;
      streamBlobPos := 0;
      sizingDone := true;
    }

    ghost predicate StreamStarts()
      reads this
    {
      && streamPart == 0 && streamStage == HeaderStage && streamBlobPos == 0
      && currentEntryName == OutputName(baseName, 0, |parts|)
    }

    ghost predicate ManifestMatches()
      reads this`outputManifest, this`parts
    {
      |outputManifest| == |parts|
      && forall i :: 0 <= i < |parts| ==> outputManifest[i] == (OutputName(baseName, i, |parts|), parts[i].totalSize)
    }

    /**
     Sizes the next batch; `Ok(true)` once every sector is sized and all parts are planned.
     A failed read leaves the slots already recorded in this batch behind without counting
     their sectors, so the recording stays in step exactly when the batch's first read failed.
     */
    method HashNextPart() returns (r: Result<bool>)
      requires SizingValid()
      modifies this, device
      ensures SizingValid()
      ensures r.Ok? ==> r.value == sizingDone == (sizingNextSector == totalDataSectors)
      ensures r.Ok? && old(sizingDone) ==> Recorded() == old(Recorded()) && parts == old(parts)
      ensures r.Ok? && !old(sizingDone) ==>
                sizingNextSector == Min(old(sizingNextSector) + 256, totalDataSectors)
      ensures r.Ok? && !old(sizingDone) ==>
                Recorded() == old(Recorded()) + Sizes(codec, Data()[old(sizingNextSector)..sizingNextSector])
      ensures r.Ok? && sizingDone && !old(sizingDone) ==> StreamStarts() && ManifestMatches()
      ensures r.Ok? && old(InStep()) ==> InStep()
      ensures r.Err? ==> !sizingDone && sizingNextSector == old(sizingNextSector)
      ensures r.Err? ==> old(device.attempts) < device.attempts <= old(device.attempts) + totalDataSectors - sizingNextSector
      ensures r.Err? ==>
                Recorded() == old(Recorded())
                  + Sizes(codec, Data()[sizingNextSector..sizingNextSector + (device.attempts - old(device.attempts) - 1)])
      ensures r.Err? && old(InStep()) ==> (InStep() <==> device.fails(old(device.attempts)))
      ensures r.Ok? && !old(sizingDone) ==> NoFailures(old(device.attempts), device.attempts)
      ensures r.Ok? && !old(sizingDone) ==> device.attempts == old(device.attempts) + sizingNextSector - old(sizingNextSector)
      ensures r.Err? ==> device.fails(device.attempts - 1) && NoFailures(old(device.attempts), device.attempts - 1)
    {
      SizesNothing(codec, Data());
      hide PartsMatch, Sizes, SlotInfoOf, SlotInfoValid, InfosValid, Flatten, DataEnd, Full, AllFull, Closed, OpenPart,
           LayoutValid, ManifestMatches, StreamStarts, Masked, Sectors, Recorded;
      if sizingDone {
        return Ok(true);
      }
      if totalDataSectors == 0 {
        SizingPartEmpty();
        CompleteSizing();
        return Ok(true);
      }
      ghost var before := Recorded();
      var from := sizingNextSector;
      var batchEnd := Min(sizingNextSector + SIZING_BATCH_SECTORS, totalDataSectors);
      var batch := SizeBatch(from, batchEnd);
      if batch.Err? {
        OutOfStep(codec, Data(), from, device.attempts - old(device.attempts) - 1, before);
        assert device.fails(old(device.attempts)) <==> device.attempts == old(device.attempts) + 1;
        return Err(batch.error);
      }
      InStepGrows(codec, Data(), from, batchEnd, before);
      if batchEnd < totalDataSectors {
        sizingNextSector := batchEnd;
        return Ok(false);
      }
      CompleteSizing();
      return Ok(true);
    }

    /** An image without sectors still gets one part, holding just a header and an index. */
    method SizingPartEmpty()
      requires SizingValid() && !sizingDone && totalDataSectors == 0
      modifies this`sizingPartPosition
      ensures SizingValid()
    {
      sizingPartPosition := HEADER_SIZE;
    }

    /** None of the reads numbered `[from, to)` fails. */
    ghost predicate NoFailures(from: nat, to: nat) {
      forall n :: from <= n < to ==> !device.fails(n)
    }

    /** The sizing loop over `[from, batchEnd)`. */
    method SizeBatch(from: nat, batchEnd: nat) returns (r: Result<()>)
      requires SizingValid() && !sizingDone && from == sizingNextSector < batchEnd <= totalDataSectors
      modifies this`sizingPartPosition, this`sizingPartIndexInfos, this`sizingPartFirstSector, this`parts, this`layout
      modifies this`sectorScratch, device
      ensures SizingValid()
      ensures r.Ok? ==> Recorded() == old(Recorded()) + Sizes(codec, Data()[from..batchEnd]) && sizingPartIndexInfos != []
      ensures r.Err? ==> old(device.attempts) < device.attempts <= old(device.attempts) + (batchEnd - from)
      ensures r.Err? ==>
                Recorded() == old(Recorded()) + Sizes(codec, Data()[from..from + (device.attempts - old(device.attempts) - 1)])
      ensures r.Ok? ==> device.attempts == old(device.attempts) + (batchEnd - from) && NoFailures(old(device.attempts), device.attempts)
      ensures r.Err? ==> device.fails(device.attempts - 1) && NoFailures(old(device.attempts), device.attempts - 1)
    {
      hide PartsMatch, SlotInfoOf, SlotInfoValid, InfosValid, Flatten, DataEnd, Full, AllFull, Closed, OpenPart, LayoutValid;
      ghost var before := Recorded();
      var sector := from;
      while sector < batchEnd
        invariant from <= sector <= batchEnd
        invariant SizingValid()
        invariant device.attempts == old(device.attempts) + (sector - from)
        invariant NoFailures(old(device.attempts), device.attempts)
        invariant Recorded() == before + Sizes(codec, Data()[from..sector])
        invariant sector > from ==> sizingPartIndexInfos != []
      {
        hide Sizes, Masked, Recorded;
        var sized := SizeSector(sector);
        if sized.Err? {
          return Err(sized.error);
        }
        sector := sector + 1;
      }
      return Ok(());
    }

    /** All sectors are sized: the open part becomes the last one. */
    method CompleteSizing()
      requires SizingValid() && !sizingDone && (totalDataSectors > 0 ==> sizingPartIndexInfos != [])
      modifies this
      ensures SizingValid() && sizingDone && sizingNextSector == totalDataSectors
      ensures Recorded() == old(Recorded())
      ensures StreamStarts() && ManifestMatches()
    {
      hide PartsMatch, SlotInfoValid, InfosValid, DataEnd, Flatten, StreamStarts, ManifestMatches;
      FlattenSnoc(layout, sizingPartIndexInfos);
      IndexFitsWhole(sizingPartIndexInfos);
      var last := FinalizeSizingPart();
      sizingNextSector := totalDataSectors;
      FinishSizing();
    }

    // -------------------------------------------------------------------- streaming

    /** After a sizing pass that stayed in step: the stream stands somewhere inside a planned part. */
    ghost predicate StreamValid()
      reads this
    {
      && SizingValid()
      && (sizingDone ==>
          && InStep()
          && ManifestMatches()
          && StreamPlaced(codec, Data(), parts, streamPart, streamStage, streamBlobPos, streamSectorCursor))
    }

    /** The bytes of the current part streamed so far. */
    ghost function Emitted(): seq<byte>
      reads this`parts, this`streamPart, this`streamStage, this`streamBlobPos, this`streamSectorCursor
    {
      if streamPart >= |parts| then []
      else EmittedOf(codec, Data(), parts[streamPart], streamStage, streamBlobPos, streamSectorCursor)
    }

    /** The slot bytes of sectors `[from, to)`. */
    ghost function SlotsBetween(from: nat, to: nat): seq<byte> { Flatten(Slots(codec, Between(Data(), from, to))) }

    /** After sizing in step, the plan covers the image and every part's bytes are defined. */
    lemma PlanReady()
      requires SizingValid() && sizingDone && InStep()
      ensures Sectors(Data()) && Flatten(layout) == Sizes(codec, Data())
      ensures PartsPlanned(codec, Data(), parts)
    {
      assert Data()[..|Data()|] == Data();
      forall i | 0 <= i < |parts| ensures PartPlanned(codec, Data(), parts[i]) {
        PartBytesFit(codec, Data(), layout, i, 0);
      }
    }

    /** Two sectors fit in one part. */
    lemma OnePart()
      requires SizingValid() && sizingDone && InStep() && |Data()| == 2
      ensures parts == [PartOf(0, Sizes(codec, Data()))]
    {
      PlanReady();
      var sizes := Sizes(codec, Data());
      SizesValid(codec, Data());
      assert sizes[..1][..0] == [] && SlotInfoValid(sizes[0]);
      assert DataEnd(sizes[..1]) == HEADER_SIZE + sizes[0].len;
      assert [sizes][1..] == [] && Flatten([sizes]) == sizes;
      LayoutUnique(layout, [sizes]);
    }

    /** After `StreamStarts` nothing has been emitted. */
    lemma StreamReady()
      requires SizingValid() && sizingDone && InStep() && ManifestMatches() && StreamStarts()
      ensures StreamValid() && Emitted() == []
    {
      PlanReady();
    }

    /** `chunk` is what comes next after `before` in part `index`; finishing the part moves to the next. */
    ghost predicate Follows(index: nat, before: seq<byte>, chunk: seq<byte>)
      reads this`parts, this`streamPart, this`streamStage, this`streamBlobPos, this`streamSectorCursor
    {
      || (streamPart == index && Emitted() == before + chunk)
      || (streamPart == index + 1 && Emitted() == [] && Completes(index, before + chunk))
    }

    /** `bytes` is the whole file of part `index`. */
    ghost predicate Completes(index: nat, bytes: seq<byte>)
      reads this`parts
    {
      index < |parts| && PartPlanned(codec, Data(), parts[index]) && PartBytes(codec, Data(), parts[index]) == bytes
    }

    /** The stream stands before a sector of the current part. */
    ghost predicate InSectors()
      reads this`parts, this`streamPart, this`streamStage, this`streamSectorCursor
    {
      && streamPart < |parts| && streamStage == SectorsStage
      && streamSectorCursor < parts[streamPart].firstSector + parts[streamPart].sectorCount
    }

    /** Reads and re-compresses sectors from the cursor until the part or the size hint is reached. */
    method SectorsChunk(maxBytes: nat) returns (r: Result<seq<byte>>)
      requires StreamValid() && sizingDone && InSectors()
      modifies this`streamSectorCursor, this`sectorScratch, device
      ensures StreamValid()
      ensures old(streamSectorCursor) <= streamSectorCursor
      ensures r.Ok? ==> r.value == SlotsBetween(old(streamSectorCursor), streamSectorCursor)
      ensures r.Ok? && maxBytes > 0 ==> r.value != []
      ensures r.Ok? ==> |r.value| <= Max(0, maxBytes - 1 + SECTOR_SIZE)
      ensures r.Err? ==> streamSectorCursor == old(streamSectorCursor) + (device.attempts - old(device.attempts) - 1)
      ensures r.Ok? ==> NoFailures(old(device.attempts), device.attempts) && (InSectors() ==> |r.value| >= maxBytes)
      ensures r.Ok? ==> |r.value| <= (streamSectorCursor - old(streamSectorCursor)) * SECTOR_SIZE
      ensures r.Ok? ==> device.attempts == old(device.attempts) + (streamSectorCursor - old(streamSectorCursor))
      ensures r.Err? ==>
                && old(device.attempts) < device.attempts && device.fails(device.attempts - 1)
                && NoFailures(old(device.attempts), device.attempts - 1)
    {
      hide SizingValid, InStep, ManifestMatches, PartsPlanned, Flatten, Slots, SlotOf, SlotInfoOf, SlotInfoValid;
      PlanReadyNow();
      var part := parts[streamPart];
      var endSector := part.firstSector + part.sectorCount;
      ghost var from := streamSectorCursor;
      SlotsNothing(codec, Data(), from);
      var out: seq<byte> := [];
      while streamSectorCursor < endSector && |out| < maxBytes
        invariant from <= streamSectorCursor <= endSector <= |Data()|
        invariant StreamValid() && device.attempts == old(device.attempts) + (streamSectorCursor - from)
        invariant NoFailures(old(device.attempts), device.attempts)
        invariant out == Flatten(Slots(codec, Data()[from..streamSectorCursor]))
        invariant streamSectorCursor > from ==> out != []
        invariant |out| <= Max(0, maxBytes - 1 + SECTOR_SIZE) && |out| <= (streamSectorCursor - from) * SECTOR_SIZE
      {
        var read := ReadSector(streamSectorCursor);
        if read.Err? {
          return Err(read.error);
        }
        var slot := WriteSlot();
        SlotsSnoc(codec, Data(), from, streamSectorCursor);
        out := out + slot;
        streamSectorCursor := streamSectorCursor + 1;
      }
      return Ok(out);
    }

    /** The bytes `next_chunk` appends for the sector in the scratch buffer. */
    method WriteSlot() returns (slot: seq<byte>)
      requires |sectorScratch| == SECTOR_SIZE
      ensures slot == SlotOf(codec, sectorScratch) && 0 < |slot| <= SECTOR_SIZE
    {
      SlotLength(codec, sectorScratch);
      var (data, compressed) := CompressSector(codec, sectorScratch);
      if compressed {
        var padding := CompressedWrittenLen(|data|).1;
        slot := [padding];
        slot := slot + data;
        slot := slot + seq(padding, _ => 0);
      } else {
        slot := sectorScratch;
      }
    }

    lemma PlanReadyNow()
      requires StreamValid() && sizingDone
      ensures DeviceValid() && PartsPlanned(codec, Data(), parts)
      ensures streamPart < |parts| ==> PartPlanned(codec, Data(), parts[streamPart])
    {
    }

    /** A piece of a blob of the current part from `streamBlobPos`, at most `maxBytes` long. */
    method BlobChunk(blob: seq<byte>, maxBytes: nat) returns (chunk: seq<byte>)
      requires streamBlobPos <= |blob|
      modifies this`streamBlobPos
      ensures old(streamBlobPos) <= streamBlobPos <= |blob| && |chunk| <= maxBytes
      ensures chunk == blob[old(streamBlobPos)..streamBlobPos]
      ensures maxBytes > 0 && old(streamBlobPos) < |blob| ==> chunk != []
      ensures streamBlobPos == |blob| || |chunk| == maxBytes
    {
      var end := Min(streamBlobPos + maxBytes, |blob|);
      chunk := blob[streamBlobPos..end];
      streamBlobPos := end;
    }

    /**
     The next piece of output. Pieces of a part arrive in order, without gap or overlap, and
     are named after it. A read that fails after others in the same call succeeded loses
     their slots: the stream moves past them although nothing was returned.
     */
    method NextChunk(maxBytes: nat) returns (r: Result<Option<seq<byte>>>)
      requires StreamValid()
      modifies this`streamPart, this`streamStage, this`streamBlobPos, this`streamSectorCursor
      modifies this`currentEntryName, this`sectorScratch, device
      ensures StreamValid()
      ensures !sizingDone ==> r == Err(NotSized)
      ensures sizingDone && old(streamPart) >= |parts| ==> r == Ok(None) && streamPart == old(streamPart)
      ensures sizingDone && old(streamPart) < |parts| ==> currentEntryName == OutputName(baseName, old(streamPart), |parts|)
      ensures sizingDone && old(streamPart) < |parts| && r.Ok? ==>
                r.value.Some? && Follows(old(streamPart), old(Emitted()), r.value.value)
      ensures sizingDone && old(streamPart) < |parts| && r.Ok? ==>
                (maxBytes > 0 ==> r.value.value != []) && |r.value.value| <= Max(maxBytes, maxBytes - 1 + SECTOR_SIZE)
      ensures sizingDone && r.Err? ==>
                && streamPart == old(streamPart) < |parts| && old(InSectors())
                && Emitted() == old(Emitted()) + SlotsBetween(old(streamSectorCursor), streamSectorCursor)
                && streamSectorCursor == old(streamSectorCursor) + (device.attempts - old(device.attempts) - 1)
                && (Emitted() == old(Emitted()) <==> device.fails(old(device.attempts)))
      ensures sizingDone && r.Ok? ==> NoFailures(old(device.attempts), device.attempts)
      ensures sizingDone && r.Err? ==> old(device.attempts) < device.attempts && device.fails(device.attempts - 1)
      ensures sizingDone && old(streamPart) < |parts| && r.Ok? && old(streamStage) == HeaderStage
                && maxBytes >= HEADER_SIZE ==>
                streamPart == old(streamPart) && streamStage == SectorsStage && streamSectorCursor == parts[streamPart].firstSector
                && device.attempts == old(device.attempts)
      ensures sizingDone && r.Ok? && old(InSectors()) ==>
                && streamPart == old(streamPart) && streamStage == SectorsStage
                && device.attempts == old(device.attempts) + (streamSectorCursor - old(streamSectorCursor))
                && (InSectors() ==> maxBytes <= |r.value.value| <= (streamSectorCursor - old(streamSectorCursor)) * SECTOR_SIZE)
    {
      hide SizingValid, InStep, ManifestMatches, PartsPlanned, StagePlaced, PartPlanned, Flatten, Slots, PartOf,
           EmittedOf, Completes, PartBytes, SlotsBetween, Sectors, Masked, OutputName;
      if !sizingDone {
        return Err(NotSized);
      }
      if streamPart >= |parts| {
        return Ok(None);
      }
      currentEntryName := OutputName(baseName, streamPart, |parts|);
      match streamStage {
        case HeaderStage =>
          var chunk := HeaderChunk(maxBytes);
          return Ok(Some(chunk));
        case SectorsStage =>
          var part := parts[streamPart];
          if streamSectorCursor >= part.firstSector + part.sectorCount {
            AllSectorsOut();
            streamStage := IndexStage;
            streamBlobPos := 0;
            var chunk := IndexChunk(maxBytes);
            return Ok(Some(chunk));
          }
          ghost var from := streamSectorCursor;
          SectorsPlaced();
          var chunk := SectorsChunk(maxBytes);
          SectorsOut(from, streamSectorCursor);
          if chunk.Err? {
            return Err(chunk.error);
          }
          return Ok(Some(chunk.value));
        case IndexStage =>
          var chunk := IndexChunk(maxBytes);
          return Ok(Some(chunk));
      }
    }

    lemma SectorsPlaced()
      requires StreamValid() && sizingDone && streamPart < |parts| && streamStage == SectorsStage
      ensures parts[streamPart].firstSector <= streamSectorCursor
    {
    }

    /** Nothing is emitted by moving from the last sector to the index. */
    lemma AllSectorsOut()
      requires StreamValid() && sizingDone && streamPart < |parts| && streamStage == SectorsStage
      requires streamSectorCursor >= parts[streamPart].firstSector + parts[streamPart].sectorCount
      ensures Emitted() == EmittedOf(codec, Data(), parts[streamPart], IndexStage, 0, streamSectorCursor)
      ensures StagePlaced(parts[streamPart], IndexStage, 0, streamSectorCursor)
    {
      hide SizingValid, InStep, ManifestMatches, Flatten, Slots;
      EmittedNoIndex(codec, Data(), parts[streamPart]);
    }

    /** Moving the cursor emits the slots in between, and some bytes unless it stays put. */
    lemma SectorsOut(from: nat, to: nat)
      requires StreamValid() && sizingDone && streamPart < |parts| && streamStage == SectorsStage
      requires parts[streamPart].firstSector <= from <= to == streamSectorCursor
      ensures Emitted() == EmittedOf(codec, Data(), parts[streamPart], SectorsStage, streamBlobPos, from) + SlotsBetween(from, to)
      ensures SlotsBetween(from, to) == [] <==> from == to
    {
      hide InStep, ManifestMatches, Flatten, Slots;
      PlanReadyNow();
      EmittedSectors(codec, Data(), parts[streamPart], from, to);
    }

    method HeaderChunk(maxBytes: nat) returns (chunk: seq<byte>)
      requires StreamValid() && sizingDone && streamPart < |parts| && streamStage == HeaderStage
      modifies this`streamStage, this`streamBlobPos, this`streamSectorCursor
      ensures StreamValid() && Follows(streamPart, old(Emitted()), chunk)
      ensures |chunk| <= maxBytes && (maxBytes > 0 ==> chunk != [])
      ensures maxBytes >= HEADER_SIZE ==> streamStage == SectorsStage && streamSectorCursor == parts[streamPart].firstSector
    {
      hide SizingValid, InStep, ManifestMatches, PartsPlanned, Flatten, Slots;
      PlanReadyNow();
      var part := parts[streamPart];
      ghost var from := streamBlobPos;
      chunk := BlobChunk(part.headerBytes, maxBytes);
      BlobStep(part.headerBytes, from, streamBlobPos);
      if streamBlobPos >= |part.headerBytes| {
        streamStage := SectorsStage;
        streamSectorCursor := part.firstSector;
        streamBlobPos := 0;
        SlotsNothing(codec, Data(), part.firstSector);
      }
    }

    method IndexChunk(maxBytes: nat) returns (chunk: seq<byte>)
      requires StreamValid() && sizingDone && streamPart < |parts| && streamStage == IndexStage
      modifies this`streamPart, this`streamStage, this`streamBlobPos
      ensures StreamValid() && Follows(old(streamPart), old(Emitted()), chunk)
      ensures |chunk| <= maxBytes && (maxBytes > 0 ==> chunk != [])
    {
      hide SizingValid, InStep, ManifestMatches, Flatten, Slots, PartBytes;
      PlanReadyNow();
      var part := parts[streamPart];
      ghost var from := streamBlobPos;
      chunk := BlobChunk(part.indexBytes, maxBytes);
      BlobStep(part.indexBytes, from, streamBlobPos);
      EmittedIndex(codec, Data(), part, from, streamBlobPos);
      if streamBlobPos >= |part.indexBytes| {
        streamPart := streamPart + 1;
        streamStage := HeaderStage;
        streamBlobPos := 0;
      }
    }

    /** Sizes the whole image, batch after batch. */
    method SizeAll() returns (r: Result<()>)
      requires SizingValid() && InStep() && !sizingDone
      modifies this, device
      ensures SizingValid()
      ensures r.Ok? ==> StreamValid() && sizingDone && streamPart == 0 && Emitted() == []
      ensures r.Err? ==> device.attempts > 0 && device.fails(device.attempts - 1)
    {
      hide SizingValid, InStep, ManifestMatches, StreamValid, Emitted, Sizes, Recorded, NoFailures;
      SizingBounds();
      var done := false;
      while !done
        invariant SizingValid() && InStep() && (done <==> sizingDone) && sizingNextSector <= totalDataSectors
        invariant done ==> ManifestMatches() && StreamStarts()
        decreases totalDataSectors - sizingNextSector, !done
      {
        SizingBounds();
        var batch := HashNextPart();
        SizingBounds();
        if batch.Err? {
          return Err(batch.error);
        }
        done := batch.value;
      }
      StreamReady();
      return Ok(());
    }

    lemma SizingBounds()
      requires SizingValid()
      ensures sizingNextSector <= totalDataSectors
      ensures !sizingDone && totalDataSectors > 0 ==> sizingNextSector < totalDataSectors
      ensures sizingDone ==> sizingNextSector == totalDataSectors
    {
    }

    lemma ChunkFollows(index: nat, before: seq<byte>, chunk: seq<byte>)
      requires StreamValid() && sizingDone && index < |parts| && Follows(index, before, chunk) && chunk != []
      ensures streamPart == index || streamPart == index + 1
      ensures streamPart == index ==> Emitted() == before + chunk && |Emitted()| > |before|
      ensures streamPart == index + 1 ==>
                Emitted() == [] && PartPlanned(codec, Data(), parts[index]) && PartBytes(codec, Data(), parts[index]) == before + chunk
    {
    }

    /** When every part has gone out, what was collected is the image's output. */
    lemma AllCollected(files: seq<(string, seq<byte>)>)
      requires StreamValid() && sizingDone && streamPart == |parts|
      requires Collected(codec, Data(), baseName, parts, streamPart, Emitted(), files)
      ensures IsOutput(codec, Data(), baseName, layout, files)
      ensures ManifestFits(outputManifest, files)
    {
      PlanReady();
      hide PartBytes, Flatten, Sizes, LayoutValid, OutputName;
      forall i | 0 <= i < |files| ensures IsOutputFile(codec, Data(), baseName, layout, i, files[i]) {
        assert PartPlanned(codec, Data(), parts[i]);
      }
    }

    lemma StreamBounds()
      requires StreamValid() && sizingDone
      ensures streamPart <= |parts|
      ensures streamPart < |parts| ==> |Emitted()| <= parts[streamPart].totalSize
      ensures streamPart == |parts| ==> Emitted() == []
    {
      if streamPart < |parts| {
        var part := parts[streamPart];
        EmittedBounded(codec, Data(), part, streamStage, streamBlobPos, streamSectorCursor);
      }
    }
  }

  // ----------------------------------------------------------------- whole conversions

  /**
   `files` is what an image must become: its sectors split as the rules demand, each part
   under its own name and complete with header, slots and index.
   */
  ghost predicate IsOutput(codec: Codec, data: seq<seq<byte>>, baseName: string,
                           layout: seq<seq<SlotInfo>>, files: seq<(string, seq<byte>)>) {
    && LayoutValid(layout)
    && Flatten(layout) == Sizes(codec, data)
    && |files| == |layout|
    && forall i :: 0 <= i < |files| ==> IsOutputFile(codec, data, baseName, layout, i, files[i])
  }

  ghost predicate IsOutputFile(codec: Codec, data: seq<seq<byte>>, baseName: string,
                               layout: seq<seq<SlotInfo>>, i: nat, file: (string, seq<byte>)) {
    && i < |layout|
    && FirstOf(layout, i) + |layout[i]| <= |data|
    && file == (OutputName(baseName, i, |layout|), PartBytes(codec, data, PartOf(FirstOf(layout, i), layout[i])))
  }

  /** The output depends on the image alone: not on batches, not on the sizes of the chunks asked for. */
  lemma OutputUnique(codec: Codec, data: seq<seq<byte>>, baseName: string,
                     a: seq<seq<SlotInfo>>, f: seq<(string, seq<byte>)>, b: seq<seq<SlotInfo>>, g: seq<(string, seq<byte>)>)
    requires IsOutput(codec, data, baseName, a, f) && IsOutput(codec, data, baseName, b, g)
    ensures a == b && f == g
  {
    LayoutUnique(a, b);
    forall i | 0 <= i < |f| ensures f[i] == g[i] {
      assert IsOutputFile(codec, data, baseName, a, i, f[i]) && IsOutputFile(codec, data, baseName, b, i, g[i]);
    }
  }

  /** Collected so far: the finished parts, then what has gone out of the current one. */
  ghost predicate Collected(codec: Codec, data: seq<seq<byte>>, baseName: string, parts: seq<CciPart>,
                            streamPart: nat, emitted: seq<byte>, files: seq<(string, seq<byte>)>) {
    && streamPart <= |parts|
    && |files| == (if emitted == [] then streamPart else streamPart + 1)
    && (emitted != [] ==> files[streamPart] == (OutputName(baseName, streamPart, |parts|), emitted))
    && forall i :: 0 <= i < streamPart ==>
         PartPlanned(codec, data, parts[i])
         && files[i] == (OutputName(baseName, i, |parts|), PartBytes(codec, data, parts[i]))
  }

  /** Adds a chunk to the file it is named after, opening the file if it is new. */
  function Append(files: seq<(string, seq<byte>)>, name: string, chunk: seq<byte>): seq<(string, seq<byte>)> {
    var n := |files|;
    if n > 0 && files[n - 1].0 == name then files[..n - 1] + [(name, files[n - 1].1 + chunk)] else files + [(name, chunk)]
  }

  lemma CollectedMore(codec: Codec, data: seq<seq<byte>>, baseName: string, parts: seq<CciPart>,
                      index: nat, before: seq<byte>, files: seq<(string, seq<byte>)>, chunk: seq<byte>)
    requires Collected(codec, data, baseName, parts, index, before, files) && index < |parts| && chunk != []
    ensures var more := Append(files, OutputName(baseName, index, |parts|), chunk);
            && Collected(codec, data, baseName, parts, index, before + chunk, more)
            && (PartPlanned(codec, data, parts[index]) && PartBytes(codec, data, parts[index]) == before + chunk ==>
                Collected(codec, data, baseName, parts, index + 1, [], more))
  {
    hide PartPlanned, PartBytes, OutputName;
    var name := OutputName(baseName, index, |parts|);
    var more := Append(files, name, chunk);
    if before == [] {
      if index > 0 {
        OutputNamesFollow(baseName, index, |parts|);
        assert files[index - 1].0 == OutputName(baseName, index - 1, |parts|);
      }
      assert before + chunk == chunk;
      assert more == files + [(name, before + chunk)];
    } else {
      assert more == files[..index] + [(name, before + chunk)];
    }
  }

  lemma OutputNamesFollow(baseName: string, index: nat, totalParts: nat)
    requires 0 < index < totalParts
    ensures OutputName(baseName, index - 1, totalParts) != OutputName(baseName, index, totalParts)
  {
    if OutputName(baseName, index - 1, totalParts) == OutputName(baseName, index, totalParts) {
      OutputNamesDistinct(baseName, index - 1, index, totalParts);
    }
  }

  /**
   The caller's loop: size everything, then ask for chunks of any positive size and gather
   them by the name each came with. What it gathers is the image's one correct output.
   */
  method Convert(session: CciSession, limit: nat -> nat) returns (r: Result<seq<(string, seq<byte>)>>)
    requires session.SizingValid() && session.InStep() && !session.sizingDone
    requires forall i :: limit(i) > 0
    modifies session, session.device
    ensures r.Ok? ==> IsOutput(session.codec, session.Data(), session.baseName, session.layout, r.value)
    ensures r.Ok? ==> session.sizingDone && ManifestFits(session.outputManifest, r.value)
    ensures (forall n :: !session.device.fails(n)) ==> r.Ok?
  {
    var sized := session.SizeAll();
    if sized.Err? {
      return Err(sized.error);
    }
    r := Stream(session, limit);
  }

  /** The manifest announced before streaming names every file and its exact length. */
  ghost predicate ManifestFits(manifest: seq<(string, nat)>, files: seq<(string, seq<byte>)>) {
    |manifest| == |files| && forall i :: 0 <= i < |files| ==> manifest[i] == (files[i].0, |files[i].1|)
  }

  method Stream(session: CciSession, limit: nat -> nat) returns (r: Result<seq<(string, seq<byte>)>>)
    requires session.StreamValid() && session.sizingDone && session.streamPart == 0 && session.Emitted() == []
    requires forall i :: limit(i) > 0
    modifies session, session.device
    ensures r.Ok? ==> IsOutput(session.codec, session.Data(), session.baseName, session.layout, r.value)
    ensures r.Ok? ==> session.sizingDone && ManifestFits(session.outputManifest, r.value)
    ensures (forall n :: !session.device.fails(n)) ==> r.Ok?
  {
    hide *;
    var files: seq<(string, seq<byte>)> := [];
    var asked := 0;
    session.StreamBounds();
    CollectedNothing(session.codec, session.Data(), session.baseName, session.parts);
    while true
      invariant session.StreamValid() && session.sizingDone && session.streamPart <= |session.parts|
      invariant Collected(session.codec, session.Data(), session.baseName, session.parts, session.streamPart, session.Emitted(), files)
      decreases |session.parts| - session.streamPart,
                if session.streamPart < |session.parts| then session.parts[session.streamPart].totalSize - |session.Emitted()| else 0
    {
      session.StreamBounds();
      ghost var index, before := session.streamPart, session.Emitted();
      var chunk := session.NextChunk(limit(asked));
      if chunk.Err? {
        return Err(chunk.error);
      }
      session.StreamBounds();
      if chunk.value.None? {
        break;
      }
      session.ChunkFollows(index, before, chunk.value.value);
      CollectedMore(session.codec, session.Data(), session.baseName, session.parts, index, before, files, chunk.value.value);
      files := Append(files, session.currentEntryName, chunk.value.value);
      asked := asked + 1;
    }
    session.AllCollected(files);
    return Ok(files);
  }

  lemma CollectedNothing(codec: Codec, data: seq<seq<byte>>, baseName: string, parts: seq<CciPart>)
    ensures Collected(codec, data, baseName, parts, 0, [], [])
  {
  }

  // --------------------------------------------- what a retried failure leaves behind

  /** Fails only the read numbered `k`. */
  function FailsOnce(k: nat): nat -> bool { n => n == k }

  /**
   Two sectors, and the second read of the batch fails. Calling again, as after any other
   error, succeeds, but the plan now holds three slots for the two sectors.
   */
  method RetriedBatchPlansTooMuch(codec: Codec, sector: seq<byte>) returns (session: CciSession)
    requires |sector| == SECTOR_SIZE
    ensures session.sizingDone && |session.Data()| == 2 && |session.Recorded()| == 3
    ensures !session.InStep()
  {
    var device := new SectorDevice([sector, sector], FailsOnce(1));
    session := new CciSession(codec, device, None, "game");
    hide CciSession.SizingValid, CciSession.Recorded, CciSession.StreamStarts, CciSession.ManifestMatches, SlotInfoOf, Sectors,
         Masked, Flatten, Sizes;
    assert session.device.fails(1);
    var first := session.HashNextPart();
    RetryBatch(session);
  }

  method RetryBatch(session: CciSession)
    requires session.SizingValid() && !session.sizingDone && session.sizingNextSector == 0
    requires |session.Data()| == session.totalDataSectors == 2 && |session.Recorded()| == 1
    requires session.device.attempts == 2 && session.device.fails == FailsOnce(1)
    modifies session, session.device
    ensures session.sizingDone && |session.Recorded()| == 3 && !session.InStep()
  {
    hide CciSession.SizingValid, CciSession.Recorded, CciSession.StreamStarts, CciSession.ManifestMatches, CciSession.Data, Sizes;
    var second := session.HashNextPart();
    assert second.Ok?;
  }

  /**
   Two sectors again, sized without trouble; while they are streamed the second read of one
   call fails. The call reports the error and hands out nothing, but the first sector's slot
   has left with it: the stream stands behind a slot that nobody received.
   */
  method FailedChunkDropsSlot(codec: Codec, sector: seq<byte>)
    returns (session: CciSession, lost: Result<Option<seq<byte>>>, ghost before: seq<byte>)
    requires |sector| == SECTOR_SIZE
    ensures lost.Err? && session.sizingDone && session.streamPart < |session.parts|
    ensures session.streamSectorCursor == 1 && session.Emitted() == before + session.SlotsBetween(0, 1) != before
  {
    session := SizedPair(codec, sector, FailsOnce(3));
    hide CciSession.StreamValid, CciSession.Emitted, CciSession.SizingValid, CciSession.Follows, CciSession.Completes,
         CciSession.NoFailures, CciSession.InStep, CciSession.ManifestMatches, OutputName, Masked;
    var header := session.NextChunk(2 * SECTOR_SIZE + 1);
    before := session.Emitted();
    lost := SecondReadFails(session);
  }

  method SecondReadFails(session: CciSession) returns (lost: Result<Option<seq<byte>>>)
    requires session.StreamValid() && session.sizingDone && session.InSectors() && session.streamSectorCursor == 0
    requires session.parts[session.streamPart].firstSector + session.parts[session.streamPart].sectorCount == 2
    requires session.device.fails == FailsOnce(session.device.attempts + 1)
    modifies session, session.device
    ensures lost.Err? && session.sizingDone && session.streamPart == old(session.streamPart) < |session.parts|
    ensures session.streamSectorCursor == 1
    ensures session.Emitted() == old(session.Emitted()) + session.SlotsBetween(0, 1) != old(session.Emitted())
  {
    hide CciSession.StreamValid, CciSession.Emitted, CciSession.SlotsBetween, CciSession.SizingValid, CciSession.Follows,
         CciSession.Completes, CciSession.Data, CciSession.InStep, CciSession.ManifestMatches, OutputName, Masked;
    assert session.device.fails(session.device.attempts + 1) && !session.device.fails(session.device.attempts);
    lost := session.NextChunk(2 * SECTOR_SIZE + 1);
  }

  /** Two sectors, sized and about to be streamed. */
  method SizedPair(codec: Codec, sector: seq<byte>, fails: nat -> bool) returns (session: CciSession)
    requires |sector| == SECTOR_SIZE && !fails(0) && !fails(1)
    ensures fresh(session) && fresh(session.device) && session.device.fails == fails && session.device.attempts == 2
    ensures session.StreamValid() && session.sizingDone && session.StreamStarts()
    ensures |session.parts| == 1 && session.parts[0].firstSector == 0 && session.parts[0].sectorCount == 2
  {
    assert Sectors([sector, sector]);
    hide *;
    var device := new SectorDevice([sector, sector], fails);
    session := new CciSession(codec, device, None, "game");
    var sized := session.HashNextPart();
    session.OnePart();
    PartIs(0, Sizes(codec, session.Data()));
    session.StreamReady();
  }
}
