/** Writing an image as CCI and reading it back. */
module CciRoundTrip {
  import opened Common
  import opened CciFormat
  import opened CciLayout
  import opened CciReader
  import CciWriter
  import DirectoryTable
  import Reader
  import Scrub

  // --------------------------------------------------------- bytes of an image

  lemma {:induction false} FlattenAt(data: seq<seq<byte>>, s: nat, k: nat)
    requires Sectors(data) && s < |data| && k < SECTOR_SIZE
    ensures |Flatten(data)| == |data| * SECTOR_SIZE
    ensures Flatten(data)[s * SECTOR_SIZE + k] == data[s][k]
    decreases |data|
  {
    FlattenLength(data);
    if s > 0 {
      FlattenAt(data[1..], s - 1, k);
      assert s * SECTOR_SIZE + k == |data[0]| + ((s - 1) * SECTOR_SIZE + k);
    }
  }

  lemma {:induction false} FlattenLength(data: seq<seq<byte>>)
    requires Sectors(data)
    ensures |Flatten(data)| == |data| * SECTOR_SIZE
  {
    if data != [] {
      FlattenLength(data[1..]);
    }
  }

  /** `index` is the opened form of a correct output of `data`. */
  ghost predicate OpensOutput(codec: Codec, data: seq<seq<byte>>, baseName: string, layout: seq<seq<SlotInfo>>,
                              files: seq<(string, seq<byte>)>, index: seq<PartIndex>) {
    && Sectors(data) && CciWriter.IsOutput(codec, data, baseName, layout, files)
    && |index| == |files| && SourceIndexed(index)
    && forall i :: 0 <= i < |files| ==> index[i].file == files[i].1
  }

  /** Any byte range of the opened output is that range of the image, and nothing lies past its end. */
  lemma HeldIsImage(codec: Codec, data: seq<seq<byte>>, baseName: string, layout: seq<seq<SlotInfo>>,
                    files: seq<(string, seq<byte>)>, index: seq<PartIndex>, offset: nat, bytes: seq<byte>)
    requires Lossless(codec) && OpensOutput(codec, data, baseName, layout, files, index)
    requires Holds(codec, index, offset, bytes) && bytes != []
    ensures offset + |bytes| <= |Flatten(data)| && bytes == Flatten(data)[offset..offset + |bytes|]
  {
    hide OpensOutput, Holds, HoldsAt, Flatten, Lossless;
    forall j | 0 <= j < |bytes|
      ensures offset + j < |Flatten(data)| && bytes[j] == Flatten(data)[offset + j]
    {
      HeldByteIsImage(codec, data, baseName, layout, files, index, offset, bytes, j);
    }
    HeldByteIsImage(codec, data, baseName, layout, files, index, offset, bytes, |bytes| - 1);
  }

  lemma HeldByteIsImage(codec: Codec, data: seq<seq<byte>>, baseName: string, layout: seq<seq<SlotInfo>>,
                        files: seq<(string, seq<byte>)>, index: seq<PartIndex>, offset: nat, bytes: seq<byte>, j: nat)
    requires Lossless(codec) && OpensOutput(codec, data, baseName, layout, files, index)
    requires Holds(codec, index, offset, bytes) && j < |bytes|
    ensures offset + j < |Flatten(data)| && bytes[j] == Flatten(data)[offset + j]
  {
    hide SectorAt, CciWriter.IsOutput, Lossless, Flatten, SourceIndexed;
    FlattenLength(data);
    assert HoldsAt(codec, index, offset + j, bytes[j]);
    SectorsReadBack(codec, data, baseName, layout, files, index, (offset + j) / SECTOR_SIZE);
    FlattenAt(data, (offset + j) / SECTOR_SIZE, (offset + j) % SECTOR_SIZE);
  }

  lemma ImageReadable(codec: Codec, data: seq<seq<byte>>, baseName: string, layout: seq<seq<SlotInfo>>,
                      files: seq<(string, seq<byte>)>, index: seq<PartIndex>, offset: nat, len: nat)
    requires Lossless(codec) && OpensOutput(codec, data, baseName, layout, files, index) && len > 0
    ensures SectorsReadable(codec, index, offset / SECTOR_SIZE, (offset + len - 1) / SECTOR_SIZE)
       <==> offset + len <= |Flatten(data)|
  {
    hide SectorAt, CciWriter.IsOutput, Lossless, Flatten;
    FlattenLength(data);
    var last := (offset + len - 1) / SECTOR_SIZE;
    forall k | offset / SECTOR_SIZE <= k <= last ensures SectorAt(codec, index, k).Ok? <==> k < |data| {
      SectorsReadBack(codec, data, baseName, layout, files, index, k);
    }
    assert SectorAt(codec, index, last).Ok? <==> last < |data|;
  }

  /**
   `read_bytes` on a source opened over the writer's files: every range inside the image
   comes back byte for byte, every range past its end is refused.
   */
  method ReadImage(source: CciSource, offset: nat, out: array<byte>, ghost data: seq<seq<byte>>, ghost baseName: string,
                   ghost layout: seq<seq<SlotInfo>>, ghost files: seq<(string, seq<byte>)>) returns (r: Result<()>)
    requires source.Valid() && Lossless(source.codec)
    requires OpensOutput(source.codec, data, baseName, layout, files, source.Index())
    modifies source.Readers(), source.Callbacks(), out
    ensures source.Valid()
    ensures r.Ok? && out.Length > 0 ==>
              offset + out.Length <= |Flatten(data)| && out[..] == Flatten(data)[offset..offset + out.Length]
    ensures source.AllReliable() ==> (r.Ok? <==> out.Length == 0 || offset + out.Length <= |Flatten(data)|)
  {
    hide *;
    r := source.ReadBytes(offset, out);
    if out.Length > 0 {
      ImageReadable(source.codec, data, baseName, layout, files, source.Index(), offset, out.Length);
      if r.Ok? {
        HeldIsImage(source.codec, data, baseName, layout, files, source.Index(), offset, out[..]);
      }
    }
  }

  // ------------------------------------------------------------- serving files

  /** A callback that serves `file` and throws past its end. */
  function Serving(file: seq<byte>): (nat, nat, nat) -> Reader.Response {
    (t: nat, off: nat, len: nat) => if off + len <= |file| then Reader.Bytes(file[off..off + len]) else Reader.Threw
  }

  lemma ServingIsReliable(fn: Reader.Callback, file: seq<byte>)
    requires fn.respond == Serving(file)
    ensures Reader.Honest(fn, 0, file) && Reader.Reliable(fn, 0, file)
  {
  }

  /** Part files stay far below what the reader can address. */
  lemma WrittenFileSmall(codec: Codec, data: seq<seq<byte>>, baseName: string, layout: seq<seq<SlotInfo>>,
                         files: seq<(string, seq<byte>)>, i: nat)
    requires Sectors(data) && CciWriter.IsOutput(codec, data, baseName, layout, files) && i < |files|
    ensures |files[i].1| <= Reader.MAX_EXACT_JS_INT
  {
    hide Flatten, Slots, Sizes, IndexWords, WordBytes, SerializeHeader, PartBytes;
    assert CciWriter.IsOutputFile(codec, data, baseName, layout, i, files[i]);
    LayoutClosed(layout, i);
    PartBytesFit(codec, data, layout, i, 0);
    IndexFitsWhole(layout[i]);
    DataEndBounds(layout[i]);
  }

  method Serve(files: seq<(string, seq<byte>)>) returns (parts: seq<OpenPart>, ghost images: seq<seq<byte>>)
    requires forall i :: 0 <= i < |files| ==> |files[i].1| <= Reader.MAX_EXACT_JS_INT
    ensures |parts| == |images| == |files| && forall i :: 0 <= i < |files| ==> images[i] == files[i].1
    ensures PartsHonest(parts, images) && PartsReliable(parts, images)
    ensures forall p :: p in parts ==> fresh(p.readFn)
  {
    hide Reader.Honest, Reader.Reliable;
    parts, images := [], [];
    for i := 0 to |files|
      invariant |parts| == |images| == i
      invariant forall k :: 0 <= k < i ==> images[k] == files[k].1
      invariant PartsHonest(parts, images) && PartsReliable(parts, images)
      invariant forall p :: p in parts ==> fresh(p.readFn)
    {
      var fn := new Reader.Callback(Serving(files[i].1));
      ServingIsReliable(fn, files[i].1);
      parts := parts + [OpenPart(fn, |files[i].1|)];
      images := images + [files[i].1];
    }
  }

  /**
   The whole way round: size, stream in chunks of any positive size, open the files as a
   source and read a range. What comes back is that range of the (masked) image.
   */
  method RoundTrip(codec: Codec, device: CciWriter.SectorDevice, zeroSectors: Option<set<nat>>, baseName: string,
                   limit: nat -> nat, window: nat, offset: nat, out: array<byte>) returns (r: Result<()>)
    requires Lossless(codec) && Sectors(device.image)
    requires forall i :: limit(i) > 0
    modifies device, out
    ensures var image := Flatten(CciWriter.Masked(device.image, zeroSectors));
            && (r.Ok? && out.Length > 0 ==>
                offset + out.Length <= |image| && out[..] == image[offset..offset + out.Length])
            && ((forall n :: !device.fails(n)) ==> (r.Ok? <==> out.Length == 0 || offset + out.Length <= |image|))
  {
    hide *;
    var session := new CciWriter.CciSession(codec, device, zeroSectors, baseName);
    var converted := CciWriter.Convert(session, limit);
    if converted.Err? {
      return Err(converted.error);
    }
    var files := converted.value;
    ghost var data := session.Data();
    MaskedSectors(device.image, zeroSectors);
    assert data == CciWriter.Masked(device.image, zeroSectors);
    forall i | 0 <= i < |files| ensures |files[i].1| <= Reader.MAX_EXACT_JS_INT {
      WrittenFileSmall(codec, data, baseName, session.layout, files, i);
    }
    var parts, images := Serve(files);
    var reopened := Open(codec, parts, window, images);
    OutputOpens(codec, data, baseName, session.layout, files, images);
    var source := reopened.value;
    OpenedOutput(source, data, baseName, session.layout, files, parts, images);
    r := ReadImage(source, offset, out, data, baseName, session.layout, files);
  }

  lemma MaskedSectors(image: seq<seq<byte>>, zeroSectors: Option<set<nat>>)
    requires Sectors(image)
    ensures Sectors(CciWriter.Masked(image, zeroSectors))
  {
  }

  lemma OutputOpens(codec: Codec, data: seq<seq<byte>>, baseName: string, layout: seq<seq<SlotInfo>>,
                    files: seq<(string, seq<byte>)>, images: seq<seq<byte>>)
    requires Sectors(data) && CciWriter.IsOutput(codec, data, baseName, layout, files)
    requires |images| == |files| && forall i :: 0 <= i < |files| ==> images[i] == files[i].1
    ensures images != [] && forall i :: 0 <= i < |images| ==> Parse(images[i]).Ok?
  {
    hide Parse;
    forall i | 0 <= i < |images| ensures Parse(images[i]).Ok? {
      WrittenPartOpens(codec, data, baseName, layout, files, i);
    }
  }

  lemma OpenedOutput(source: CciSource, data: seq<seq<byte>>, baseName: string, layout: seq<seq<SlotInfo>>,
                     files: seq<(string, seq<byte>)>, parts: seq<OpenPart>, images: seq<seq<byte>>)
    requires source.Valid() && OpenedAs(source.files, parts, images) && PartsReliable(parts, images)
    requires Sectors(data) && CciWriter.IsOutput(source.codec, data, baseName, layout, files)
    requires |images| == |files| && forall i :: 0 <= i < |files| ==> images[i] == files[i].1
    ensures OpensOutput(source.codec, data, baseName, layout, files, source.Index())
    ensures source.AllReliable()
    ensures forall c :: c in source.Callbacks() ==> exists p :: p in parts && p.readFn == c
  {
    hide CciWriter.IsOutput, IndexedBy, Reader.Reliable, Reader.JsReader.Valid;
  }

  // -------------------------------------------------------------- a scrubbed image

  /** The sectors a scrubbed conversion is given: the image cut at the planned count, masked as planned. */
  function Scrubbed(image: seq<seq<byte>>, plan: Scrub.Plan): (r: seq<seq<byte>>)
    requires plan.sectors <= |image|
    ensures |r| == plan.sectors
  {
    CciWriter.Masked(image[..plan.sectors], plan.zero)
  }

  /** The writer's mask is the planner's: it leaves every sector of an extent alone. */
  lemma SectorSurvives(table: DirectoryTable.Table, rootOffset: nat, fileSize: nat, data: seq<byte>, security: set<nat>, plan: Scrub.Plan,
                       image: seq<seq<byte>>, e: Scrub.Extent, s: nat)
    requires Scrub.PartialPlan(table, rootOffset, fileSize, data, security, plan) && e in Scrub.Extents(table)
    requires Sectors(image) && plan.sectors <= |image| == Scrub.FullSectors(rootOffset, fileSize) && s in Scrub.SectorsOf(e)
    ensures s < plan.sectors && Scrubbed(image, plan)[s] == image[s]
  {
    Scrub.ScrubKeepsContents(table, rootOffset, fileSize, data, security, plan, image);
    hide Scrub.PartialPlan, Scrub.Extents, Scrub.FullSectors, Scrub.SectorsOf;
    assert Scrub.Untouched(image, plan, s);
  }

  lemma ByteSurvives(table: DirectoryTable.Table, rootOffset: nat, fileSize: nat, data: seq<byte>, security: set<nat>, plan: Scrub.Plan,
                     image: seq<seq<byte>>, e: Scrub.Extent, k: nat)
    requires Scrub.PartialPlan(table, rootOffset, fileSize, data, security, plan) && e in Scrub.Extents(table)
    requires Sectors(image) && plan.sectors <= |image| == Scrub.FullSectors(rootOffset, fileSize)
    requires e.sector * SECTOR_SIZE <= k < e.sector * SECTOR_SIZE + e.size
    ensures k < |Flatten(Scrubbed(image, plan))| && k < |Flatten(image)| && Flatten(Scrubbed(image, plan))[k] == Flatten(image)[k]
  {
    MaskedSectors(image[..plan.sectors], plan.zero);
    FlattenLength(image);
    FlattenLength(Scrubbed(image, plan));
    hide Scrub.PartialPlan, Scrub.Extents, Scrub.FullSectors, Flatten, Scrubbed;
    var s := k / SECTOR_SIZE;
    assert s in Scrub.SectorsOf(e);
    SectorSurvives(table, rootOffset, fileSize, data, security, plan, image, e, s);
    FlattenAt(image, s, k % SECTOR_SIZE);
    FlattenAt(Scrubbed(image, plan), s, k % SECTOR_SIZE);
  }

  /** Scrubbing leaves the bytes of every file and directory table where they were. */
  lemma ExtentSurvives(table: DirectoryTable.Table, rootOffset: nat, fileSize: nat, data: seq<byte>, security: set<nat>, plan: Scrub.Plan,
                       image: seq<seq<byte>>, e: Scrub.Extent)
    requires Scrub.PartialPlan(table, rootOffset, fileSize, data, security, plan) && e in Scrub.Extents(table) && e.size > 0
    requires Sectors(image) && plan.sectors <= |image| == Scrub.FullSectors(rootOffset, fileSize)
    ensures var at: nat := e.sector * SECTOR_SIZE;
            && at + e.size <= |Flatten(Scrubbed(image, plan))| && at + e.size <= |Flatten(image)|
            && Flatten(Scrubbed(image, plan))[at..at + e.size] == Flatten(image)[at..at + e.size]
  {
    hide *;
    var at: nat := e.sector * SECTOR_SIZE;
    ByteSurvives(table, rootOffset, fileSize, data, security, plan, image, e, at + e.size - 1);
    forall k | at <= k < at + e.size ensures Flatten(Scrubbed(image, plan))[k] == Flatten(image)[k] {
      ByteSurvives(table, rootOffset, fileSize, data, security, plan, image, e, k);
    }
  }

  /**
   A partial scrub planned, converted and read back: any file or directory table of the
   original disc comes back as it was. `data` is what the planner's reader shows, in whatever
   coordinates. Empty extents past the end are excluded because their plan does not fit the image.
   */
  method ScrubRoundTrip(codec: Codec, image: seq<seq<byte>>, fails: nat -> bool, table: DirectoryTable.Table,
                        rootOffset: nat, fileSize: nat, data: seq<byte>, baseName: string, limit: nat -> nat, window: nat,
                        e: Scrub.Extent, out: array<byte>) returns (r: Result<()>)
    requires Lossless(codec) && forall i :: limit(i) > 0
    requires rootOffset <= fileSize && Sectors(image) && |image| == Scrub.FullSectors(rootOffset, fileSize)
    requires forall x :: x in Scrub.Extents(table) && x.size == 0 ==> x.sector <= |image|
    requires e in Scrub.Extents(table) && out.Length == e.size > 0
    modifies out
    ensures var at: nat := e.sector * SECTOR_SIZE;
            r.Ok? ==> at + e.size <= |Flatten(image)| && out[..] == Flatten(image)[at..at + e.size]
    ensures r.Ok? ==> !Scrub.ScrubFails(table, rootOffset, fileSize, data)
    ensures (forall n :: !fails(n)) ==> (r.Ok? <==> !Scrub.ScrubFails(table, rootOffset, fileSize, data))
  {
    hide *;
    ghost var security;
    var planned;
    planned, security := Scrub.PlanDirect(Scrub.Partial, table, rootOffset, fileSize, data);
    if planned.Err? {
      return Err(planned.error);
    }
    var plan := planned.value;
    Scrub.PlanFitsImage(table, rootOffset, fileSize, data, security, plan);
    ExtentSurvives(table, rootOffset, fileSize, data, security, plan, image, e);
    SectorsCut(image, plan.sectors);
    var device := new CciWriter.SectorDevice(image[..plan.sectors], fails);
    ScrubbedIsMasked(image, plan);
    r := RoundTrip(codec, device, plan.zero, baseName, limit, window, e.sector * SECTOR_SIZE, out);
  }

  lemma ScrubbedIsMasked(image: seq<seq<byte>>, plan: Scrub.Plan)
    requires plan.sectors <= |image|
    ensures Scrubbed(image, plan) == CciWriter.Masked(image[..plan.sectors], plan.zero)
  {
  }

  lemma SectorsCut(image: seq<seq<byte>>, n: nat)
    requires Sectors(image) && n <= |image|
    ensures Sectors(image[..n])
  {
  }
}
