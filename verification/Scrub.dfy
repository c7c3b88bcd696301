/**
 Planning a partial scrub: which sectors of a disc hold data, how far the image reaches, and
 which sectors in between may be written as zeros.
 */
module Scrub {
  import opened Common
  import opened DirectoryTable

  const SECTOR_SIZE: nat := 2048
  const VOLUME_DESCRIPTOR_SECTOR: nat := 0x20
  const REDUMP_VIDEO_SECTORS: nat := 0x30600
  const REDUMP_TOTAL_SECTORS: nat := 0x003A_4D50
  const REDUMP_GAME_SECTORS: nat := REDUMP_TOTAL_SECTORS - REDUMP_VIDEO_SECTORS
  const SECURITY_SCAN_END_SECTOR: nat := 0x0034_5B60
  const SECURITY_RUN_LEN: nat := 0x1000

  datatype Platform = Ogx | X360

  datatype ScrubMode = NoScrub | Partial

  datatype ScrubInfo = ScrubInfo(used: set<nat>, maxEnd: nat, platform: Platform)

  datatype Plan = Plan(sectors: nat, zero: Option<set<nat>>)

  // -------------------------------------------------------------------- extents

  /** A region of the image, as a directory entry gives it. */
  datatype Extent = Extent(sector: u32, size: u32)

  function EndSector(e: Extent): nat { e.sector + DivCeil(e.size, SECTOR_SIZE) }

  /** One past the extent's last byte, from the root. */
  function EndByte(e: Extent): nat { e.sector * SECTOR_SIZE + e.size }

  function SectorsOf(e: Extent): set<nat> {
    Range(e.sector, EndSector(e))
  }

  function Covered(es: seq<Extent>): set<nat> {
    if es == [] then {} else Covered(es[..|es| - 1]) + SectorsOf(es[|es| - 1])
  }

  /** One past the last sector, and the last byte, any extent reaches. */
  function LastEnd(es: seq<Extent>): nat {
    if es == [] then 0 else Max(LastEnd(es[..|es| - 1]), EndSector(es[|es| - 1]))
  }

  function LastByte(es: seq<Extent>): nat {
    if es == [] then 0 else Max(LastByte(es[..|es| - 1]), EndByte(es[|es| - 1]))
  }

  lemma {:induction false} CoveredMember(es: seq<Extent>, x: nat)
    ensures x in Covered(es) <==> exists e :: e in es && e.sector <= x < EndSector(e)
  {
    if es != [] {
      var init, last := es[..|es| - 1], es[|es| - 1];
      CoveredMember(init, x);
      assert forall e :: e in es <==> e in init || e == last;
    }
  }

  lemma {:induction false} LastEndIsMax(es: seq<Extent>)
    ensures forall e :: e in es ==> EndSector(e) <= LastEnd(es)
    ensures es != [] ==> exists e :: e in es && EndSector(e) == LastEnd(es)
  {
    if es != [] {
      var init, last := es[..|es| - 1], es[|es| - 1];
      LastEndIsMax(init);
      assert forall e :: e in es <==> e in init || e == last;
      assert last in es;
    }
  }

  lemma EndOfExtent(e: Extent)
    ensures DivCeil(EndByte(e), SECTOR_SIZE) == EndSector(e)
  {
  }

  /** Rounding the last byte up gives the last sector's end. */
  lemma {:induction false} LastByteRounds(es: seq<Extent>)
    ensures DivCeil(LastByte(es), SECTOR_SIZE) == LastEnd(es)
  {
    if es != [] {
      LastByteRounds(es[..|es| - 1]);
      EndOfExtent(es[|es| - 1]);
    }
  }

  // ------------------------------------------------------------- what is in use

  function FileExtents(entries: seq<Entry>): seq<Extent> {
    if entries == [] then []
    else
      var last := entries[|entries| - 1];
      FileExtents(entries[..|entries| - 1]) + (if last.directory then [] else [Extent(last.sector, last.size)])
  }

  function TableExtents(entries: seq<Entry>): seq<Extent> {
    if entries == [] then []
    else
      var last := entries[|entries| - 1];
      TableExtents(entries[..|entries| - 1]) + (if last.directory then [Extent(last.sector, last.size)] else [])
  }

  /** Every file, the root table and every other directory table. */
  function Extents(table: Table): seq<Extent> {
    FileExtents(table.entries) + ([Extent(table.rootSector, table.rootSize)] + TableExtents(table.entries))
  }

  /** Each entry is one of the extents, and each extent an entry or the root. */
  lemma {:induction false} ExtentsMeaning(table: Table, e: Extent)
    ensures e in Extents(table) <==>
              || e == Extent(table.rootSector, table.rootSize)
              || exists n :: n in table.entries && Extent(n.sector, n.size) == e
  {
    EntryExtents(table.entries, e);
  }

  lemma {:induction false} EntryExtents(entries: seq<Entry>, e: Extent)
    ensures e in FileExtents(entries) <==> exists n :: n in entries && !n.directory && Extent(n.sector, n.size) == e
    ensures e in TableExtents(entries) <==> exists n :: n in entries && n.directory && Extent(n.sector, n.size) == e
  {
    if entries != [] {
      var init, last := entries[..|entries| - 1], entries[|entries| - 1];
      EntryExtents(init, e);
      assert forall n :: n in entries <==> n in init || n == last;
    }
  }

  /** What has been marked after the extents of `es`. */
  ghost predicate Marked(es: seq<Extent>, rootOffset: nat, used: set<nat>, maxEnd: nat) {
    used == {VOLUME_DESCRIPTOR_SECTOR} + Covered(es) && maxEnd == rootOffset + LastByte(es)
  }

  /** `mark_region`. */
  method MarkRegion(sector: u32, size: u32, rootOffset: nat, usedIn: set<nat>, maxEndIn: nat, ghost es: seq<Extent>)
    returns (used: set<nat>, maxEnd: nat)
    requires Marked(es, rootOffset, usedIn, maxEndIn)
    ensures Marked(es + [Extent(sector, size)], rootOffset, used, maxEnd)
  {
    var start: nat := rootOffset + sector * SECTOR_SIZE;
    var end: nat := start + size;
    maxEnd := Max(maxEndIn, end);
    var startSector: nat := (start - rootOffset) / SECTOR_SIZE;
    var endSector := DivCeil(end - rootOffset, SECTOR_SIZE);
    var e := Extent(sector, size);
    EndOfExtent(e);
    assert startSector == sector && endSector == EndSector(e);
    var sectors := Range(startSector, endSector);
    assert sectors == SectorsOf(e);
    used := usedIn + sectors;
  }

  /** `mark_directory_table_sectors`: the root table, then every directory entry's own table. */
  method MarkDirectoryTableSectors(table: Table, rootOffset: nat, usedIn: set<nat>, maxEndIn: nat, ghost es: seq<Extent>)
    returns (used: set<nat>, maxEnd: nat)
    requires Marked(es, rootOffset, usedIn, maxEndIn)
    ensures Marked(es + ([Extent(table.rootSector, table.rootSize)] + TableExtents(table.entries)), rootOffset, used, maxEnd)
  {
    hide Marked;
    used, maxEnd := MarkRegion(table.rootSector, table.rootSize, rootOffset, usedIn, maxEndIn, es);
    ghost var root := Extent(table.rootSector, table.rootSize);
    ghost var seen := es + [root];
    for i := 0 to |table.entries|
      invariant seen == es + ([root] + TableExtents(table.entries[..i])) && Marked(seen, rootOffset, used, maxEnd)
    {
      var entry := table.entries[i];
      assert table.entries[..i + 1][..i] == table.entries[..i];
      if entry.directory {
        used, maxEnd := MarkRegion(entry.sector, entry.size, rootOffset, used, maxEnd, seen);
        ghost var e := Extent(entry.sector, entry.size);
        assert seen + [e] == es + ([root] + (TableExtents(table.entries[..i]) + [e]));
        seen := seen + [e];
      } else {
        assert TableExtents(table.entries[..i + 1]) == TableExtents(table.entries[..i]);
      }
    }
    assert table.entries[..|table.entries|] == table.entries;
  }

  // ------------------------------------------------------------------- platform

  /** What follows the last slash. */
  function LastComponent(path: string): string {
    if path == "" || path[|path| - 1] == '/' then ""
    else LastComponent(path[..|path| - 1]) + [path[|path| - 1]]
  }

  predicate MatchesAt(s: string, t: string, i: nat) {
    i + |t| <= |s| && SameIgnoringCase(s[i..i + |t|], t)
  }

  /** `case_insensitive_contains`. */
  predicate Contains(s: string, t: string) {
    exists i: nat :: i <= |s| && MatchesAt(s, t, i)
  }

  predicate IsLaunch(e: Entry) {
    && !e.directory
    && (Contains(LastComponent(e.path), "default.xex") || Contains(LastComponent(e.path), "default.xbe"))
  }

  function PlatformOf(e: Entry): Platform { if Contains(LastComponent(e.path), ".xex") then X360 else Ogx }

  /** The first launch executable, if any. */
  ghost predicate FirstLaunch(entries: seq<Entry>, e: Entry) {
    exists i :: 0 <= i < |entries| && entries[i] == e && IsLaunch(e) && forall j :: 0 <= j < i ==> !IsLaunch(entries[j])
  }

  lemma SuffixContained(s: string)
    ensures Contains(s, "default.xex") ==> Contains(s, ".xex")
    ensures Contains(s, "default.xbe") ==> Contains(s, ".xbe")
  {
    if i: nat :| i <= |s| && MatchesAt(s, "default.xex", i) {
      SuffixAt(s, i, "default.xex", ".xex");
    }
    if i: nat :| i <= |s| && MatchesAt(s, "default.xbe", i) {
      SuffixAt(s, i, "default.xbe", ".xbe");
    }
  }

  lemma SuffixAt(s: string, i: nat, long: string, short: string)
    requires |long| == 11 && |short| == 4 && long[7..] == short && MatchesAt(s, long, i)
    ensures Contains(s, short)
  {
    var a, b := s[i..i + 11], s[i + 7..i + 11];
    forall k | 0 <= k < 4 ensures Lower(b[k]) == Lower(short[k]) {
      assert b[k] == a[7 + k] && short[k] == long[7 + k];
    }
    assert MatchesAt(s, short, i + 7);
  }

  /** `detect_platform`: fails only when there is no launch executable. */
  method DetectPlatform(entries: seq<Entry>) returns (platform: Result<Platform>)
    ensures platform.Ok? ==> exists e :: FirstLaunch(entries, e) && platform.value == PlatformOf(e)
    ensures platform.Err? <==> forall e :: e in entries ==> !IsLaunch(e)
    ensures platform.Err? ==> platform.error == NoExecutable
  {
    hide IsLaunch, LastComponent, Contains;
    for i := 0 to |entries|
      invariant forall j :: 0 <= j < i ==> !IsLaunch(entries[j])
    {
      if IsLaunch(entries[i]) {
        assert FirstLaunch(entries, entries[i]) && entries[i] in entries;
        LaunchExtension(entries[i]);
        var name := LastComponent(entries[i].path);
        if Contains(name, ".xex") {
          return Ok(X360);
        } else if Contains(name, ".xbe") {
          return Ok(Ogx);
        }
        return Err(NoExecutable);
      }
    }
    platform := Err(NoExecutable);
  }

  lemma LaunchExtension(e: Entry)
    requires IsLaunch(e)
    ensures Contains(LastComponent(e.path), ".xex") || Contains(LastComponent(e.path), ".xbe")
    ensures PlatformOf(e) == if Contains(LastComponent(e.path), ".xex") then X360 else Ogx
  {
    SuffixContained(LastComponent(e.path));
  }

  /** The part of a path behind its last slash, or all of it if it has none. */
  lemma {:induction false} BehindSlash(front: string, name: string)
    requires '/' !in name
    ensures LastComponent(front + "/" + name) == name && LastComponent(name) == name
  {
    if name != "" {
      var path, init, last := front + "/" + name, name[..|name| - 1], name[|name| - 1];
      BehindSlash(front, init);
      assert path[..|path| - 1] == front + "/" + init;
      assert name == init + [last];
    }
  }

  /** The name has `part` in it somewhere, whatever the case of its letters. */
  ghost predicate Within(part: string, name: string) {
    exists a, b, c :: name == a + b + c && SameIgnoringCase(b, part)
  }

  lemma ContainsWithin(name: string, part: string)
    ensures Contains(name, part) <==> Within(part, name)
  {
    if i: nat :| i <= |name| && MatchesAt(name, part, i) {
      var a, b, c := name[..i], name[i..i + |part|], name[i + |part|..];
      assert name[i..] == b + c;
      assert name == a + (b + c) == a + b + c;
    }
    if a, b, c :| name == a + b + c && SameIgnoringCase(b, part) {
      assert name[|a|..|a| + |part|] == b;
      assert MatchesAt(name, part, |a|);
    }
  }

  /** Which entries launch, and what they say about the disc: `path` is the entry's name, alone or behind any folders. */
  lemma LaunchMeaning(e: Entry, front: string, name: string)
    requires '/' !in name && (e.path == name || e.path == front + "/" + name)
    ensures IsLaunch(e) <==> !e.directory && (Within("default.xbe", name) || Within("default.xex", name))
    ensures PlatformOf(e) == X360 <==> Within(".xex", name)
  {
    BehindSlash(front, name);
    ContainsWithin(name, "default.xbe");
    ContainsWithin(name, "default.xex");
    ContainsWithin(name, ".xex");
    hide Contains, Within, LastComponent;
  }

  // ----------------------------------------------------------------------- scan

  function FullSectors(rootOffset: nat, fileSize: nat): nat { DivCeil(Max(0, fileSize - rootOffset), SECTOR_SIZE) }

  /** The sectors a scrub must keep for the file system: the volume descriptor and every extent. */
  function UsedSectors(table: Table): set<nat> { {VOLUME_DESCRIPTOR_SECTOR} + Covered(Extents(table)) }

  /** Everything in use lies inside the image, and there is a launch executable. */
  ghost predicate Scannable(table: Table, rootOffset: nat, fileSize: nat) {
    && (forall s :: s in UsedSectors(table) ==> s < FullSectors(rootOffset, fileSize))
    && exists e :: e in table.entries && IsLaunch(e)
  }

  /** `scan`. */
  method Scan(table: Table, rootOffset: nat, fileSize: nat) returns (info: Result<ScrubInfo>)
    ensures info.Ok? ==>
              && info.value.used == UsedSectors(table)
              && info.value.maxEnd == rootOffset + LastByte(Extents(table))
              && exists e :: FirstLaunch(table.entries, e) && info.value.platform == PlatformOf(e)
    ensures info.Ok? <==> Scannable(table, rootOffset, fileSize)
  {
    hide Covered, LastByte, IsLaunch, Marked, FirstLaunch;
    var used: set<nat>, maxEnd := {VOLUME_DESCRIPTOR_SECTOR}, rootOffset;
    NothingMarked(rootOffset);
    ghost var seen: seq<Extent> := [];
    for i := 0 to |table.entries|
      invariant seen == FileExtents(table.entries[..i]) && Marked(seen, rootOffset, used, maxEnd)
    {
      var entry := table.entries[i];
      assert table.entries[..i + 1][..i] == table.entries[..i];
      if !entry.directory {
        used, maxEnd := MarkRegion(entry.sector, entry.size, rootOffset, used, maxEnd, seen);
        seen := seen + [Extent(entry.sector, entry.size)];
      } else {
        assert FileExtents(table.entries[..i + 1]) == FileExtents(table.entries[..i]);
      }
    }
    assert table.entries[..|table.entries|] == table.entries;
    used, maxEnd := MarkDirectoryTableSectors(table, rootOffset, used, maxEnd, seen);
    MarkedMeaning(table, rootOffset, used, maxEnd);
    var full := FullSectors(rootOffset, fileSize);
    if exists s :: s in used && s >= full {
      return Err(CorruptImage);
    }
    var platform := DetectPlatform(table.entries);
    if platform.Err? {
      return Err(platform.error);
    }
    ghost var e :| FirstLaunch(table.entries, e) && platform.value == PlatformOf(e);
    info := Ok(ScrubInfo(used, maxEnd, platform.value));
  }

  /** The sector with the extent's last byte begins before the image, seen from the root, is over. */
  ghost predicate Fits(e: Extent, rootOffset: nat, fileSize: nat) {
    e.size > 0 ==>
      var last := e.sector * 2048 + e.size - 1;
      rootOffset + last - last % 2048 < fileSize
  }

  lemma FitsMeaning(e: Extent, rootOffset: nat, fileSize: nat)
    ensures Fits(e, rootOffset, fileSize) <==> forall s :: s in SectorsOf(e) ==> s < FullSectors(rootOffset, fileSize)
  {
    if e.size > 0 {
      assert EndSector(e) - 1 in SectorsOf(e);
    }
  }

  /** Which images can be scanned: the volume descriptor and every file and table fit, and something launches. */
  lemma ScannableMeaning(table: Table, rootOffset: nat, fileSize: nat)
    ensures Scannable(table, rootOffset, fileSize) <==>
              && rootOffset + 0x20 * 2048 < fileSize
              && (forall e :: e in Extents(table) ==> Fits(e, rootOffset, fileSize))
              && exists e :: e in table.entries && IsLaunch(e)
  {
    var full := FullSectors(rootOffset, fileSize);
    var es := Extents(table);
    assert VOLUME_DESCRIPTOR_SECTOR < full <==> rootOffset + 0x20 * 2048 < fileSize;
    hide IsLaunch, Covered, Extents, Fits, FullSectors;
    if forall s :: s in UsedSectors(table) ==> s < full {
      assert VOLUME_DESCRIPTOR_SECTOR in UsedSectors(table);
      forall e | e in es ensures Fits(e, rootOffset, fileSize) {
        forall s | s in SectorsOf(e) ensures s < full {
          CoveredMember(es, s);
          assert s in UsedSectors(table);
        }
        FitsMeaning(e, rootOffset, fileSize);
      }
    }
    if VOLUME_DESCRIPTOR_SECTOR < full && forall e :: e in es ==> Fits(e, rootOffset, fileSize) {
      forall s | s in UsedSectors(table) ensures s < full {
        CoveredMember(es, s);
        if s != VOLUME_DESCRIPTOR_SECTOR {
          var e :| e in es && e.sector <= s < EndSector(e);
          FitsMeaning(e, rootOffset, fileSize);
          assert s in SectorsOf(e);
        }
      }
    }
  }

  lemma NothingMarked(rootOffset: nat)
    ensures Marked([], rootOffset, {VOLUME_DESCRIPTOR_SECTOR}, rootOffset)
  {
  }

  lemma MarkedMeaning(table: Table, rootOffset: nat, used: set<nat>, maxEnd: nat)
    requires Marked(Extents(table), rootOffset, used, maxEnd)
    ensures used == UsedSectors(table) && maxEnd == rootOffset + LastByte(Extents(table))
  {
  }

  // -------------------------------------------------------------- security sectors

  /** Sector `s` of the image reads as zeros and nothing claims it. */
  ghost predicate Candidate(data: seq<byte>, rootOffset: nat, used: set<nat>, s: nat) {
    ZeroSector(data, rootOffset, s) && s !in used
  }

  predicate ZeroSector(data: seq<byte>, rootOffset: nat, s: nat) {
    var at := rootOffset + s * SECTOR_SIZE;
    at + SECTOR_SIZE <= |data| && forall i :: at <= i < at + SECTOR_SIZE ==> data[i] == 0
  }

  /** A maximal run of candidates of exactly the security length, closed before the end of the scan. */
  ghost predicate SecurityRun(data: seq<byte>, rootOffset: nat, used: set<nat>, end: nat, start: nat) {
    && start + SECURITY_RUN_LEN <= end
    && (forall s: nat :: start <= s < start + SECURITY_RUN_LEN ==> Candidate(data, rootOffset, used, s))
    && !Candidate(data, rootOffset, used, start + SECURITY_RUN_LEN)
    && (start > 0 ==> !Candidate(data, rootOffset, used, start - 1))
  }

  /** Before sector `n`: no security run has been closed, and an open run is as long as it can be. */
  ghost predicate ScannedTo(data: seq<byte>, rootOffset: nat, used: set<nat>, end: nat, n: nat, runStart: Option<nat>) {
    && (forall start: nat :: start + SECURITY_RUN_LEN < n ==> !SecurityRun(data, rootOffset, used, end, start))
    && match runStart
       case None => n == 0 || !Candidate(data, rootOffset, used, n - 1)
       case Some(start) =>
         && start < n && (forall s: nat :: start <= s < n ==> Candidate(data, rootOffset, used, s))
         && (start > 0 ==> !Candidate(data, rootOffset, used, start - 1))
  }

  lemma ScanStep(data: seq<byte>, rootOffset: nat, used: set<nat>, end: nat, n: nat, runStart: Option<nat>)
    requires ScannedTo(data, rootOffset, used, end, n, runStart) && n <= end
    ensures Candidate(data, rootOffset, used, n) ==>
              ScannedTo(data, rootOffset, used, end, n + 1, if runStart.None? then Some(n) else runStart)
    ensures !Candidate(data, rootOffset, used, n) && runStart.None? ==> ScannedTo(data, rootOffset, used, end, n + 1, None)
    ensures !Candidate(data, rootOffset, used, n) && runStart.Some? && n - runStart.value != SECURITY_RUN_LEN ==>
              ScannedTo(data, rootOffset, used, end, n + 1, None)
    ensures !Candidate(data, rootOffset, used, n) && runStart.Some? && n - runStart.value == SECURITY_RUN_LEN ==>
              SecurityRun(data, rootOffset, used, end, runStart.value)
  {
    hide Candidate;
    if n >= SECURITY_RUN_LEN {
      var start: nat := n - SECURITY_RUN_LEN;
      if SecurityRun(data, rootOffset, used, end, start) {
        assert !Candidate(data, rootOffset, used, n);
        assert Candidate(data, rootOffset, used, n - 1);
      }
    }
  }

  /** `scan_for_zero_run`: the first security run, unless the image ends before it is decided. */
  method ScanForZeroRun(data: seq<byte>, rootOffset: nat, end: nat, used: set<nat>) returns (found: Result<Option<set<nat>>>)
    ensures found.Ok? && found.value.Some? ==>
              exists start: nat :: IsFirstRun(data, rootOffset, used, end, start) && found.value.value == SectorRange(start)
    ensures found.Ok? && found.value.None? ==> NoRun(data, rootOffset, used, end)
    ensures found.Err? <==> ScanFails(data, rootOffset, used, end)
    ensures found.Err? ==> found.error == UnexpectedEof
  {
    hide Candidate, ScannedTo, ZeroSector, SecurityRun, ScanFails, Readable;
    var runStart: Option<nat> := None;
    ScanStart(data, rootOffset, used, end);
    var n := 0;
    while n <= end
      invariant 0 <= n <= end + 1 && ScannedTo(data, rootOffset, used, end, n, runStart)
      invariant n > 0 ==> Readable(data, rootOffset, n - 1)
    {
      if !Readable(data, rootOffset, n) {
        ScanStops(data, rootOffset, used, end, n, runStart);
        return Err(UnexpectedEof);
      }
      ScanStep(data, rootOffset, used, end, n, runStart);
      IsCandidate(data, rootOffset, used, n);
      var candidate := ZeroSector(data, rootOffset, n) && n !in used;
      if candidate && runStart.None? {
        runStart := Some(n);
      } else if !candidate && runStart.Some? {
        var start, last := runStart.value, n - 1;
        if last - start == SECURITY_RUN_LEN - 1 {
          FirstRun(data, rootOffset, used, end, n, runStart, start);
          RunWasRead(data, rootOffset, used, end, start);
          var run := Range(start, last + 1);
          assert run == SectorRange(start);
          return Ok(Some(run));
        }
        runStart := None;
      }
      n := n + 1;
    }
    ScanOver(data, rootOffset, used, end, n, runStart);
    EndWasRead(data, rootOffset, used, end);
    found := Ok(None);
  }

  /** The read at sector `s` finds all its bytes. */
  predicate Readable(data: seq<byte>, rootOffset: nat, s: nat) {
    rootOffset + s * SECTOR_SIZE + SECTOR_SIZE <= |data|
  }

  /** The data ends before the scan does, and before any security run is closed. */
  ghost predicate ScanFails(data: seq<byte>, rootOffset: nat, used: set<nat>, end: nat) {
    && !Readable(data, rootOffset, end)
    && forall start: nat :: Readable(data, rootOffset, start + SECURITY_RUN_LEN) ==> !SecurityRun(data, rootOffset, used, end, start)
  }

  lemma RunWasRead(data: seq<byte>, rootOffset: nat, used: set<nat>, end: nat, start: nat)
    requires SecurityRun(data, rootOffset, used, end, start) && Readable(data, rootOffset, start + SECURITY_RUN_LEN)
    ensures !ScanFails(data, rootOffset, used, end)
  {
  }

  lemma EndWasRead(data: seq<byte>, rootOffset: nat, used: set<nat>, end: nat)
    requires Readable(data, rootOffset, end)
    ensures !ScanFails(data, rootOffset, used, end)
  {
  }

  /** At the first sector that cannot be read, no run whose end can be read is left undecided. */
  lemma ScanStops(data: seq<byte>, rootOffset: nat, used: set<nat>, end: nat, n: nat, runStart: Option<nat>)
    requires ScannedTo(data, rootOffset, used, end, n, runStart) && !Readable(data, rootOffset, n) && n <= end
    ensures ScanFails(data, rootOffset, used, end)
  {
    hide SecurityRun, Candidate;
  }

  function SectorRange(start: nat): set<nat> {
    Range(start, start + SECURITY_RUN_LEN)
  }

  ghost predicate IsFirstRun(data: seq<byte>, rootOffset: nat, used: set<nat>, end: nat, start: nat) {
    && SecurityRun(data, rootOffset, used, end, start)
    && forall earlier: nat :: earlier < start ==> !SecurityRun(data, rootOffset, used, end, earlier)
  }

  ghost predicate NoRun(data: seq<byte>, rootOffset: nat, used: set<nat>, end: nat) {
    forall start: nat :: !SecurityRun(data, rootOffset, used, end, start)
  }

  lemma IsCandidate(data: seq<byte>, rootOffset: nat, used: set<nat>, n: nat)
    ensures Candidate(data, rootOffset, used, n) <==> ZeroSector(data, rootOffset, n) && n !in used
  {
  }

  lemma ScanStart(data: seq<byte>, rootOffset: nat, used: set<nat>, end: nat)
    ensures ScannedTo(data, rootOffset, used, end, 0, None)
  {
  }

  lemma FirstRun(data: seq<byte>, rootOffset: nat, used: set<nat>, end: nat, n: nat, runStart: Option<nat>, start: nat)
    requires ScannedTo(data, rootOffset, used, end, n, runStart)
    requires start + SECURITY_RUN_LEN == n && SecurityRun(data, rootOffset, used, end, start)
    ensures IsFirstRun(data, rootOffset, used, end, start)
  {
  }

  lemma ScanOver(data: seq<byte>, rootOffset: nat, used: set<nat>, end: nat, n: nat, runStart: Option<nat>)
    requires ScannedTo(data, rootOffset, used, end, n, runStart) && n == end + 1
    ensures NoRun(data, rootOffset, used, end)
  {
    forall start: nat ensures !SecurityRun(data, rootOffset, used, end, start) {
      if start + SECURITY_RUN_LEN <= end {
        assert start + SECURITY_RUN_LEN < n;
      }
    }
  }

  /** Only images of these two sizes are searched. */
  predicate Searched(full: nat) { full == REDUMP_GAME_SECTORS || full == REDUMP_TOTAL_SECTORS }

  function ScanEnd(full: nat): nat { Min(SECURITY_SCAN_END_SECTOR, Max(0, full - 1)) }

  /** The security region a scrub leaves alone: the first run of an image of redump size, or nothing. */
  ghost predicate SecurityRegion(data: seq<byte>, rootOffset: nat, full: nat, used: set<nat>, security: set<nat>) {
    if !Searched(full) then security == {}
    else if security == {} then NoRun(data, rootOffset, used, ScanEnd(full))
    else exists start: nat :: IsFirstRun(data, rootOffset, used, ScanEnd(full), start) && security == SectorRange(start)
  }

  /** `find_security_sectors`: only the two redump sizes are searched. */
  method FindSecuritySectors(data: seq<byte>, rootOffset: nat, full: nat, used: set<nat>) returns (found: Result<Option<set<nat>>>)
    ensures found.Ok? && found.value.None? ==> SecurityRegion(data, rootOffset, full, used, {})
    ensures found.Ok? && found.value.Some? ==> found.value.value != {} && SecurityRegion(data, rootOffset, full, used, found.value.value)
    ensures found.Err? <==> Searched(full) && ScanFails(data, rootOffset, used, ScanEnd(full))
  {
    if full != REDUMP_GAME_SECTORS && full != REDUMP_TOTAL_SECTORS {
      return Ok(None);
    }
    hide IsFirstRun, NoRun, ScanFails;
    found := ScanForZeroRun(data, rootOffset, ScanEnd(full), used);
    if found.Ok? && found.value.Some? {
      ghost var start: nat :| IsFirstRun(data, rootOffset, used, ScanEnd(full), start) && found.value.value == SectorRange(start);
      assert start in found.value.value;
    }
  }

  /** Sector `s` of the image consists of zeros and belongs to nothing. */
  ghost predicate Blank(data: seq<byte>, rootOffset: nat, used: set<nat>, s: nat) {
    && s !in used && rootOffset + (s + 1) * 2048 <= |data|
    && forall i :: rootOffset + s * 2048 <= i < rootOffset + (s + 1) * 2048 ==> data[i] == 0
  }

  /** From `start` on, exactly 4096 blank sectors in a row, none of them past the end of the scan. */
  ghost predicate BlankRun(data: seq<byte>, rootOffset: nat, used: set<nat>, start: nat) {
    && start + 4096 <= 0x345B60
    && (forall s: nat :: start <= s < start + 4096 ==> Blank(data, rootOffset, used, s))
    && !Blank(data, rootOffset, used, start + 4096) && (start > 0 ==> !Blank(data, rootOffset, used, start - 1))
  }

  /** The first such run. */
  ghost predicate FirstBlankRun(data: seq<byte>, rootOffset: nat, used: set<nat>, start: nat) {
    BlankRun(data, rootOffset, used, start) && forall earlier: nat :: earlier < start ==> !BlankRun(data, rootOffset, used, earlier)
  }

  lemma BlankIsCandidate(data: seq<byte>, rootOffset: nat, used: set<nat>, s: nat)
    ensures Blank(data, rootOffset, used, s) <==> Candidate(data, rootOffset, used, s)
  {
  }

  lemma BlankRunIsSecurity(data: seq<byte>, rootOffset: nat, used: set<nat>, start: nat)
    ensures BlankRun(data, rootOffset, used, start) <==> SecurityRun(data, rootOffset, used, 0x345B60, start)
  {
    hide Blank, Candidate;
    forall s: nat ensures Blank(data, rootOffset, used, s) <==> Candidate(data, rootOffset, used, s) {
      BlankIsCandidate(data, rootOffset, used, s);
    }
  }

  /** The two disc sizes a security region is looked for on, and what is taken for it there. */
  lemma SecurityMeaning(data: seq<byte>, rootOffset: nat, full: nat, used: set<nat>, security: set<nat>)
    requires SecurityRegion(data, rootOffset, full, used, security)
    ensures full != 0x374750 && full != 0x3A4D50 ==> security == {}
    ensures full == 0x374750 || full == 0x3A4D50 ==>
              if security == {} then forall start: nat :: !BlankRun(data, rootOffset, used, start)
              else
                exists start: nat ::
                  FirstBlankRun(data, rootOffset, used, start) && forall s: nat :: s in security <==> start <= s < start + 4096
  {
    hide BlankRun, SecurityRun;
    forall start: nat ensures BlankRun(data, rootOffset, used, start) <==> SecurityRun(data, rootOffset, used, 0x345B60, start) {
      BlankRunIsSecurity(data, rootOffset, used, start);
    }
    if security != {} {
      var start: nat :| IsFirstRun(data, rootOffset, used, ScanEnd(full), start) && security == SectorRange(start);
      assert FirstBlankRun(data, rootOffset, used, start);
    }
  }

  /** The scan runs out of data on a disc of one of these sizes alone, before any such run has been closed. */
  lemma SecurityScanFails(data: seq<byte>, rootOffset: nat, full: nat, used: set<nat>)
    ensures Searched(full) <==> full == 0x374750 || full == 0x3A4D50
    ensures Searched(full) ==>
              (ScanFails(data, rootOffset, used, ScanEnd(full)) <==>
                 && |data| < rootOffset + (0x345B60 + 1) * 2048
                 && forall start: nat :: rootOffset + (start + 4096 + 1) * 2048 <= |data| ==> !BlankRun(data, rootOffset, used, start))
  {
    hide BlankRun, SecurityRun;
    forall start: nat ensures BlankRun(data, rootOffset, used, start) <==> SecurityRun(data, rootOffset, used, 0x345B60, start) {
      BlankRunIsSecurity(data, rootOffset, used, start);
    }
  }

  // --------------------------------------------------------------------- the plan

  /** One past the highest sector of a set. */
  ghost predicate EndsAt(s: set<nat>, end: nat) {
    if s == {} then end == 0 else end > 0 && end - 1 in s && forall x :: x in s ==> x < end
  }

  /** What a partial scrub plans for the image of `table`. */
  ghost predicate PartialPlan(table: Table, rootOffset: nat, fileSize: nat, data: seq<byte>, security: set<nat>, plan: Plan) {
    && (forall s :: s in UsedSectors(table) ==> s < FullSectors(rootOffset, fileSize))
    && exists e, securityEnd: nat ::
         && FirstLaunch(table.entries, e) && EndsAt(security, securityEnd)
         && plan.sectors == Max(LastEnd(Extents(table)), securityEnd)
         && match PlatformOf(e)
            case X360 => security == {} && plan.zero == None
            case Ogx =>
              && SecurityRegion(data, rootOffset, FullSectors(rootOffset, fileSize), UsedSectors(table), security)
              && plan.zero == Some(MaskOf(UsedSectors(table) + security, plan.sectors))
  }

  /** The image's launch executable is an original Xbox one. */
  ghost predicate IsOgx(table: Table) {
    exists e :: FirstLaunch(table.entries, e) && PlatformOf(e) == Ogx
  }

  /** A partial scrub is refused: the image is corrupt or has no launch executable, or the security scan runs out of data. */
  ghost predicate ScrubFails(table: Table, rootOffset: nat, fileSize: nat, data: seq<byte>) {
    var full := FullSectors(rootOffset, fileSize);
    || !Scannable(table, rootOffset, fileSize)
    || (IsOgx(table) && Searched(full) && ScanFails(data, rootOffset, UsedSectors(table), ScanEnd(full)))
  }

  lemma OneLaunch(table: Table, e: Entry)
    requires FirstLaunch(table.entries, e)
    ensures IsOgx(table) <==> PlatformOf(e) == Ogx
  {
    hide IsLaunch, PlatformOf;
  }

  /** The sectors below `n` that are not protected. */
  function MaskOf(protected: set<nat>, n: nat): set<nat> {
    set s | s in Range(0, n) && s !in protected
  }

  /** `plan_direct`. */
  method PlanDirect(mode: ScrubMode, table: Table, rootOffset: nat, fileSize: nat, data: seq<byte>)
    returns (plan: Result<Plan>, ghost security: set<nat>)
    requires rootOffset <= fileSize
    ensures mode.NoScrub? ==> plan == Ok(Plan(FullSectors(rootOffset, fileSize), None))
    ensures mode.Partial? && plan.Ok? ==>
              Scannable(table, rootOffset, fileSize) && PartialPlan(table, rootOffset, fileSize, data, security, plan.value)
    ensures mode.Partial? ==> (plan.Err? <==> ScrubFails(table, rootOffset, fileSize, data))
  {
    security := {};
    if mode.NoScrub? {
      return Ok(Plan(DivCeil(fileSize - rootOffset, SECTOR_SIZE), None)), security;
    }
    hide Covered, LastByte, LastEnd, FirstLaunch, IsFirstRun, Extents, SectorRange, UsedSectors, PartialPlan, SecurityRegion,
         EndsAt, PlatformOf, ScanFails, Scannable, IsOgx;
    var scanned := Scan(table, rootOffset, fileSize);
    if scanned.Err? {
      return Err(scanned.error), security;
    }
    var info := scanned.value;
    var protected := info.used;
    var trimmed: nat := info.maxEnd - rootOffset;
    LastByteRounds(Extents(table));
    ghost var e :| FirstLaunch(table.entries, e) && info.platform == PlatformOf(e);
    OneLaunch(table, e);
    ghost var securityEnd: nat := 0;
    if info.platform == Ogx {
      var full := FullSectors(rootOffset, fileSize);
      var found := FindSecuritySectors(data, rootOffset, full, info.used);
      if found.Err? {
        return Err(found.error), security;
      }
      if found.value.Some? {
        ghost var before := trimmed;
        trimmed, securityEnd := ReachSecurity(data, rootOffset, full, info.used, found.value.value, trimmed);
        protected := protected + found.value.value;
        security := found.value.value;
      }
    }
    var total := DivCeil(trimmed, SECTOR_SIZE);
    var zero := if info.platform == X360 then None else Some(MaskOf(protected, total));
    plan := Ok(Plan(total, zero));
    assert protected == UsedSectors(table) + security;
    Planned(table, rootOffset, fileSize, data, security, securityEnd, e, plan.value);
  }

  /** The trim point moved past the security region. */
  method ReachSecurity(data: seq<byte>, rootOffset: nat, full: nat, used: set<nat>, security: set<nat>, trimmedIn: nat)
    returns (trimmed: nat, ghost securityEnd: nat)
    requires security != {} && SecurityRegion(data, rootOffset, full, used, security)
    ensures EndsAt(security, securityEnd)
    ensures DivCeil(trimmed, SECTOR_SIZE) == Max(DivCeil(trimmedIn, SECTOR_SIZE), securityEnd)
  {
    hide IsFirstRun, SectorRange;
    ghost var start: nat :| IsFirstRun(data, rootOffset, used, ScanEnd(full), start) && security == SectorRange(start);
    RangeEnd(start);
    var last :| last in security && forall x :: x in security ==> x <= last;
    trimmed := Max(trimmedIn, (last + 1) * SECTOR_SIZE);
    securityEnd := last + 1;
  }

  lemma Planned(table: Table, rootOffset: nat, fileSize: nat, data: seq<byte>, security: set<nat>, securityEnd: nat, e: Entry, plan: Plan)
    requires forall s :: s in UsedSectors(table) ==> s < FullSectors(rootOffset, fileSize)
    requires FirstLaunch(table.entries, e) && EndsAt(security, securityEnd)
    requires plan.sectors == Max(LastEnd(Extents(table)), securityEnd)
    requires PlatformOf(e) == X360 ==> security == {} && plan.zero == None
    requires PlatformOf(e) == Ogx ==>
               && SecurityRegion(data, rootOffset, FullSectors(rootOffset, fileSize), UsedSectors(table), security)
               && plan.zero == Some(MaskOf(UsedSectors(table) + security, plan.sectors))
    ensures PartialPlan(table, rootOffset, fileSize, data, security, plan)
  {
    hide UsedSectors, FirstLaunch, LastEnd, Extents, SecurityRegion, EndsAt;
  }

  lemma RangeEnd(start: nat)
    ensures start + SECURITY_RUN_LEN - 1 in SectorRange(start)
    ensures forall x :: x in SectorRange(start) ==> x <= start + SECURITY_RUN_LEN - 1
  {
  }

  // -------------------------------------------------------------- what a plan keeps

  /** Every sector of every file and directory table is kept and not zeroed; so is the security region. */
  lemma PlanKeepsData(table: Table, rootOffset: nat, fileSize: nat, data: seq<byte>, security: set<nat>, plan: Plan)
    requires PartialPlan(table, rootOffset, fileSize, data, security, plan)
    ensures forall e, s :: e in Extents(table) && s in SectorsOf(e) ==> s < plan.sectors
    ensures forall s :: s in security ==> s < plan.sectors
    ensures plan.zero.Some? ==>
              forall s: nat :: s in plan.zero.value <==> s < plan.sectors && s !in UsedSectors(table) && s !in security
    ensures forall e, s :: e in Extents(table) && s in SectorsOf(e) ==> s in UsedSectors(table)
  {
    LastEndIsMax(Extents(table));
    forall e, s | e in Extents(table) && s in SectorsOf(e) ensures s in UsedSectors(table) {
      CoveredMember(Extents(table), s);
    }
    hide Extents, LastEnd, FirstLaunch, Covered, SecurityRegion;
  }

  /** Only an original Xbox image is ever zeroed or searched for a security region; a 360 image is trimmed. */
  lemma PlanByPlatform(table: Table, rootOffset: nat, fileSize: nat, data: seq<byte>, security: set<nat>, plan: Plan)
    requires PartialPlan(table, rootOffset, fileSize, data, security, plan)
    ensures IsOgx(table) <==> plan.zero.Some?
    ensures !IsOgx(table) ==>
              security == {} && forall image: seq<seq<byte>>, s: nat :: s < |image| ==> Served(image, plan, s) == image[s]
    ensures IsOgx(table) ==>
              SecurityRegion(data, rootOffset, FullSectors(rootOffset, fileSize), UsedSectors(table), security)
  {
    hide UsedSectors, LastEnd, Extents, PlatformOf, SecurityRegion, MaskOf, FullSectors, FirstLaunch, IsOgx;
    var e :| FirstLaunch(table.entries, e)
             && if PlatformOf(e) == X360 then security == {} && plan.zero == None
                else plan.zero.Some? && SecurityRegion(data, rootOffset, FullSectors(rootOffset, fileSize), UsedSectors(table), security);
    OneLaunch(table, e);
  }

  /** The sectors a direct backend hands out: zeros where the plan says so, the image's own otherwise. */
  function Served(image: seq<seq<byte>>, plan: Plan, s: nat): seq<byte> {
    if plan.zero.Some? && s in plan.zero.value then Zeros(SECTOR_SIZE)
    else if s < |image| then image[s] else []
  }

  predicate Untouched(image: seq<seq<byte>>, plan: Plan, s: nat) { s < |image| && Served(image, plan, s) == image[s] }

  /** Applying the mask changes nothing that any file, any directory table or the volume descriptor holds. */
  lemma ScrubKeepsContents(table: Table, rootOffset: nat, fileSize: nat, data: seq<byte>, security: set<nat>, plan: Plan,
                           image: seq<seq<byte>>)
    requires PartialPlan(table, rootOffset, fileSize, data, security, plan) && |image| == FullSectors(rootOffset, fileSize)
    ensures forall e, s :: e in Extents(table) && s in SectorsOf(e) ==>
              s < plan.sectors && Untouched(image, plan, s)
    ensures Untouched(image, plan, VOLUME_DESCRIPTOR_SECTOR)
  {
    PlanKeepsData(table, rootOffset, fileSize, data, security, plan);
    assert VOLUME_DESCRIPTOR_SECTOR in UsedSectors(table);
    hide Extents, LastEnd, FirstLaunch, Covered, SecurityRegion, SectorsOf, UsedSectors;
    forall s | s in UsedSectors(table) ensures Untouched(image, plan, s) {
      assert plan.zero.Some? ==> s !in plan.zero.value;
    }
    forall e, s | e in Extents(table) && s in SectorsOf(e)
      ensures s < plan.sectors && Untouched(image, plan, s)
    {
      assert s in UsedSectors(table);
    }
  }

  /** The plan stays inside the image exactly when no empty extent begins past its last sector. */
  lemma PlanFitsImage(table: Table, rootOffset: nat, fileSize: nat, data: seq<byte>, security: set<nat>, plan: Plan)
    requires PartialPlan(table, rootOffset, fileSize, data, security, plan)
    ensures var full := FullSectors(rootOffset, fileSize);
            plan.sectors <= full <==> forall e :: e in Extents(table) && e.size == 0 ==> e.sector <= full
  {
    var full := FullSectors(rootOffset, fileSize);
    var es := Extents(table);
    LastEndIsMax(es);
    forall e | e in es && e.size > 0 ensures EndSector(e) <= full {
      CoveredMember(es, EndSector(e) - 1);
      assert e.sector <= EndSector(e) - 1;
      assert EndSector(e) - 1 in UsedSectors(table);
    }
    hide Extents, LastEnd, FirstLaunch, Covered, SecurityRegion, UsedSectors;
    assert forall e :: e in es && e.size == 0 ==> EndSector(e) == e.sector;
  }

  /** The volume descriptor survives the trim exactly when something kept reaches past it. */
  lemma DescriptorKept(table: Table, rootOffset: nat, fileSize: nat, data: seq<byte>, security: set<nat>, plan: Plan)
    requires PartialPlan(table, rootOffset, fileSize, data, security, plan)
    ensures VOLUME_DESCRIPTOR_SECTOR < plan.sectors <==>
              || (exists e :: e in Extents(table) && EndSector(e) > VOLUME_DESCRIPTOR_SECTOR)
              || (exists x :: x in security && x >= VOLUME_DESCRIPTOR_SECTOR)
  {
    LastEndIsMax(Extents(table));
    assert Extents(table) != [];
    hide Extents, LastEnd, FirstLaunch, SecurityRegion, UsedSectors;
    var e, securityEnd: nat :| FirstLaunch(table.entries, e) && EndsAt(security, securityEnd)
                          && plan.sectors == Max(LastEnd(Extents(table)), securityEnd);
    if securityEnd > VOLUME_DESCRIPTOR_SECTOR {
      assert securityEnd - 1 in security;
    }
  }

  // ------------------------------------------------- what the protection is for

  /**
   Over a reader in the image's own coordinates every security sector is zeros already:
   protecting the region keeps it below the count, and changes no sector that is handed out.
   */
  lemma ProtectionServesTheSame(table: Table, fileSize: nat, data: seq<byte>, security: set<nat>, plan: Plan, image: seq<seq<byte>>, s: nat)
    requires PartialPlan(table, 0, fileSize, data, security, plan) && plan.zero.Some?
    requires |image| == FullSectors(0, fileSize) && forall i :: 0 <= i < |image| ==> SectorOf(data, i) == Some(image[i])
    requires s < plan.sectors
    ensures s in security ==> s < |image| && image[s] == Zeros(SECTOR_SIZE)
    ensures Served(image, plan, s) == Served(image, plan.(zero := Some(MaskOf(UsedSectors(table), plan.sectors))), s)
  {
    hide UsedSectors, FirstLaunch, LastEnd, Extents, PlatformOf;
    if s in security {
      SecuritySectorsZero(data, 0, |image|, UsedSectors(table), security, s);
      assert SectorOf(data, s) == Some(image[s]);
    }
  }

  /** Sector `i` of the bytes, if they have it. */
  function SectorOf(data: seq<byte>, i: nat): Option<seq<byte>> {
    if (i + 1) * SECTOR_SIZE <= |data| then Some(data[i * SECTOR_SIZE..(i + 1) * SECTOR_SIZE]) else None
  }

  lemma SecuritySectorsZero(data: seq<byte>, rootOffset: nat, full: nat, used: set<nat>, security: set<nat>, s: nat)
    requires SecurityRegion(data, rootOffset, full, used, security) && s in security
    ensures s < full && Candidate(data, rootOffset, used, s)
    ensures rootOffset == 0 ==> SectorOf(data, s) == Some(Zeros(SECTOR_SIZE))
  {
    var start: nat :| IsFirstRun(data, rootOffset, used, ScanEnd(full), start) && security == SectorRange(start);
    assert Candidate(data, rootOffset, used, s);
    if rootOffset == 0 {
      ZeroSectorReads(data, s);
    }
  }

  lemma ZeroSectorReads(data: seq<byte>, s: nat)
    requires ZeroSector(data, 0, s)
    ensures SectorOf(data, s) == Some(Zeros(SECTOR_SIZE))
  {
    var at := s * SECTOR_SIZE;
    assert (s + 1) * SECTOR_SIZE == at + SECTOR_SIZE;
    assert data[at..at + SECTOR_SIZE] == Zeros(SECTOR_SIZE);
  }

  // ------------------------------------------------- a reader that starts at the root

  /** What the scan hands the plan: it does not fail, and `security` is what it finds. */
  ghost predicate Protects(data: seq<byte>, rootOffset: nat, full: nat, used: set<nat>, security: set<nat>) {
    && SecurityRegion(data, rootOffset, full, used, security)
    && !(Searched(full) && ScanFails(data, rootOffset, used, ScanEnd(full)))
  }

  /**
   The scan adds the root offset to every sector, also over a reader that starts at the root.
   It judges a sector rightly for every volume exactly when that offset is zero.
   */
  lemma SectorsAgree(rootOffset: nat, s: nat)
    ensures (forall volume :: ZeroSector(volume, rootOffset, s) <==> ZeroSector(volume, 0, s)) <==> rootOffset == 0
  {
    var volume := Zeros((s + 1) * SECTOR_SIZE);
    assert ZeroSector(volume, 0, s);
    assert rootOffset > 0 ==> !ZeroSector(volume, rootOffset, s);
  }

  const HOLE: nat := 0x23

  /**
   The bytes of a game partition whose security run begins at sector `HOLE`. What lies below
   is free, so that a descriptor, tables and files can lie there; behind the run no byte is zero.
   */
  function HoledVolume(front: seq<byte>, full: nat): (r: seq<byte>)
    requires |front| == HOLE * SECTOR_SIZE && HOLE + SECURITY_RUN_LEN <= full
    ensures |r| == full * SECTOR_SIZE && r[..|front|] == front
    ensures forall i :: |front| <= i < |r| ==> (r[i] == 0 <==> i < (HOLE + SECURITY_RUN_LEN) * SECTOR_SIZE)
  {
    front + seq((full - HOLE) * SECTOR_SIZE, i => if i < SECURITY_RUN_LEN * SECTOR_SIZE then 0 else 1)
  }

  lemma HoleSectors(front: seq<byte>, full: nat, s: nat)
    requires |front| == HOLE * SECTOR_SIZE && HOLE + SECURITY_RUN_LEN <= full && s >= HOLE
    ensures ZeroSector(HoledVolume(front, full), 0, s) <==> s < HOLE + SECURITY_RUN_LEN
  {
    var volume, at := HoledVolume(front, full), s * SECTOR_SIZE;
    assert at >= |front|;
    if s < HOLE + SECURITY_RUN_LEN {
      assert at + SECTOR_SIZE <= (HOLE + SECURITY_RUN_LEN) * SECTOR_SIZE <= |volume|;
    } else if at + SECTOR_SIZE <= |volume| {
      assert volume[at] != 0;
    }
  }

  /** In the volume's own coordinates the run is found, at its place and as the first. */
  lemma HoleFound(front: seq<byte>, full: nat, used: set<nat>)
    requires |front| == HOLE * SECTOR_SIZE && Searched(full) && HOLE - 1 in used && forall s :: s in used ==> s < HOLE
    ensures IsFirstRun(HoledVolume(front, full), 0, used, ScanEnd(full), HOLE)
    ensures Protects(HoledVolume(front, full), 0, full, used, SectorRange(HOLE))
  {
    hide HoledVolume, ZeroSector;
    var volume := HoledVolume(front, full);
    forall s: nat | s >= HOLE - 1 ensures Candidate(volume, 0, used, s) <==> HOLE <= s < HOLE + SECURITY_RUN_LEN {
      if s >= HOLE {
        HoleSectors(front, full, s);
      }
    }
    forall start: nat | start < HOLE ensures !SecurityRun(volume, 0, used, ScanEnd(full), start) {
      assert !Candidate(volume, 0, used, HOLE - 1);
    }
    assert HOLE in SectorRange(HOLE);
    assert Readable(volume, 0, ScanEnd(full));
  }

  /** Where no byte from the root offset on is zero, the scan finds no run. */
  lemma NothingToFind(volume: seq<byte>, rootOffset: nat, used: set<nat>, end: nat)
    requires forall i :: rootOffset <= i < |volume| ==> volume[i] != 0
    ensures NoRun(volume, rootOffset, used, end)
  {
    forall start: nat ensures !SecurityRun(volume, rootOffset, used, end, start) {
      var at := rootOffset + start * SECTOR_SIZE;
      assert at < |volume| ==> volume[at] != 0;
      assert !Candidate(volume, rootOffset, used, start);
    }
  }

  /** Read with another root offset, the last sector of the run is no candidate. */
  lemma HoleMoved(front: seq<byte>, full: nat, rootOffset: nat, used: set<nat>, end: nat)
    requires |front| == HOLE * SECTOR_SIZE && HOLE + SECURITY_RUN_LEN <= full && rootOffset > 0
    ensures !SecurityRun(HoledVolume(front, full), rootOffset, used, end, HOLE)
  {
    var volume, s := HoledVolume(front, full), HOLE + SECURITY_RUN_LEN - 1;
    var lastByte := rootOffset + s * SECTOR_SIZE + SECTOR_SIZE - 1;
    assert lastByte >= (HOLE + SECURITY_RUN_LEN) * SECTOR_SIZE;
    assert lastByte < |volume| ==> volume[lastByte] != 0;
    hide HoledVolume;
    assert !Candidate(volume, rootOffset, used, s);
  }

  lemma RangesDiffer(a: nat, b: nat)
    requires SectorRange(a) == SectorRange(b)
    ensures a == b
  {
    assert a in SectorRange(a) && b in SectorRange(b);
  }

  /** The plan protects the region the volume has, for every volume, exactly when the root offset is zero. */
  lemma RegionsAgree(rootOffset: nat, full: nat)
    requires Searched(full)
    ensures (forall volume, used, security :: |volume| == full * SECTOR_SIZE ==>
               (Protects(volume, rootOffset, full, used, security) <==> Protects(volume, 0, full, used, security)))
       <==> rootOffset == 0
  {
    if rootOffset > 0 {
      var front, used := Zeros(HOLE * SECTOR_SIZE), {HOLE - 1};
      HoleFound(front, full, used);
      hide HoledVolume, SecurityRun, SectorRange, ScanFails, Zeros;
      if Protects(HoledVolume(front, full), rootOffset, full, used, SectorRange(HOLE)) {
        RegionIsRange(HoledVolume(front, full), rootOffset, full, used, HOLE);
        HoleMoved(front, full, rootOffset, used, ScanEnd(full));
      }
    }
  }

  lemma RegionIsRange(data: seq<byte>, rootOffset: nat, full: nat, used: set<nat>, at: nat)
    requires SecurityRegion(data, rootOffset, full, used, SectorRange(at))
    ensures SecurityRun(data, rootOffset, used, ScanEnd(full), at)
  {
    assert at in SectorRange(at);
    var start: nat :| IsFirstRun(data, rootOffset, used, ScanEnd(full), start) && SectorRange(at) == SectorRange(start);
    RangesDiffer(at, start);
  }

  // ---------------------------------------------------------------- at an input

  /** A disc with one file: the root table in one sector, the launch executable in another. */
  function SmallDisc(root: u32, file: u32): Table {
    Table(root, 2048, [Entry("default.xbe", "default.xbe", false, file, 2048)])
  }

  lemma SmallDiscFacts(root: u32, file: u32)
    ensures Extents(SmallDisc(root, file)) == [Extent(file, 2048), Extent(root, 2048)]
    ensures LastEnd(Extents(SmallDisc(root, file))) == Max(file + 1, root + 1)
    ensures UsedSectors(SmallDisc(root, file)) == {VOLUME_DESCRIPTOR_SECTOR, file as nat, root as nat}
  {
    var table := SmallDisc(root, file);
    var e := table.entries[0];
    var es := [Extent(file, 2048), Extent(root, 2048)];
    assert [e][..0] == [];
    assert FileExtents([e]) == [Extent(file, 2048)] && TableExtents([e]) == [];
    assert Extents(table) == es;
    TwoExtents(Extent(file, 2048), Extent(root, 2048));
    hide Covered, LastEnd;
    assert SectorsOf(es[0]) == {file as nat} && SectorsOf(es[1]) == {root as nat};
  }

  lemma TwoExtents(a: Extent, b: Extent)
    ensures Covered([a, b]) == SectorsOf(a) + SectorsOf(b)
    ensures LastEnd([a, b]) == Max(EndSector(a), EndSector(b))
  {
    assert [a, b][..1] == [a] && [a][..0] == [];
    assert Covered([a]) == SectorsOf(a) && LastEnd([a]) == EndSector(a);
  }

  lemma SmallDiscLaunches(root: u32, file: u32)
    ensures IsOgx(SmallDisc(root, file)) && IsLaunch(SmallDisc(root, file).entries[0])
  {
    XbeLaunches();
    hide Contains, LastComponent;
    var table := SmallDisc(root, file);
    assert IsLaunch(table.entries[0]) && PlatformOf(table.entries[0]) == Ogx;
    assert FirstLaunch(table.entries, table.entries[0]);
  }

  lemma XbeLaunches()
    ensures LastComponent("default.xbe") == "default.xbe"
    ensures Contains("default.xbe", "default.xbe") && !Contains("default.xbe", ".xex")
  {
    var name := "default.xbe";
    NoSlash(name);
    assert name[0..0 + |name|] == name;
    assert MatchesAt(name, name, 0);
    forall i: nat ensures !MatchesAt(name, ".xex", i) {
      DotAndX(name, i);
    }
  }

  lemma DotAndX(s: string, i: nat)
    ensures MatchesAt(s, ".xex", i) ==> i + 4 <= |s| && Lower(s[i]) == '.' && Lower(s[i + 3]) == 'x'
  {
    if MatchesAt(s, ".xex", i) {
      var piece := s[i..i + 4];
      assert piece[0] == s[i] && piece[3] == s[i + 3];
    }
  }

  lemma {:induction false} NoSlash(path: string)
    requires '/' !in path
    ensures LastComponent(path) == path
  {
    if path != "" {
      NoSlash(path[..|path| - 1]);
      assert path == path[..|path| - 1] + [path[|path| - 1]];
    }
  }

  const GAME_DISC: Table := SmallDisc(0x21, 0x22)

  /**
   A whole redump disc: the game partition behind the video partition, opened through a
   reader that starts at the root. Its security region is where the scan never looks for it;
   the scan runs off the end instead, and no partial scrub is planned.
   */
  method RedumpScrubRefused(front: seq<byte>) returns (plan: Result<Plan>)
    requires |front| == HOLE * SECTOR_SIZE
    ensures plan.Err?
    ensures Protects(HoledVolume(front, REDUMP_GAME_SECTORS), 0, REDUMP_GAME_SECTORS, UsedSectors(GAME_DISC), SectorRange(HOLE))
  {
    SmallDiscFacts(0x21, 0x22);
    HoleFound(front, REDUMP_GAME_SECTORS, UsedSectors(GAME_DISC));
    GameDiscFails(front);
    hide *;
    ghost var security;
    plan, security := PlanDirect(Partial, GAME_DISC, REDUMP_VIDEO_SECTORS * SECTOR_SIZE, REDUMP_TOTAL_SECTORS * SECTOR_SIZE,
                                 HoledVolume(front, REDUMP_GAME_SECTORS));
  }

  lemma GameDiscFails(front: seq<byte>)
    requires |front| == HOLE * SECTOR_SIZE
    ensures ScrubFails(GAME_DISC, REDUMP_VIDEO_SECTORS * SECTOR_SIZE, REDUMP_TOTAL_SECTORS * SECTOR_SIZE,
                       HoledVolume(front, REDUMP_GAME_SECTORS))
  {
    SmallDiscLaunches(0x21, 0x22);
    VideoScanFails(HoledVolume(front, REDUMP_GAME_SECTORS), UsedSectors(GAME_DISC));
    hide HoledVolume, ScanFails, UsedSectors, IsOgx;
    assert FullSectors(REDUMP_VIDEO_SECTORS * SECTOR_SIZE, REDUMP_TOTAL_SECTORS * SECTOR_SIZE) == REDUMP_GAME_SECTORS;
  }

  /** So does the scan of every game partition without a zero byte that far behind its beginning. */
  lemma VideoScanFails(volume: seq<byte>, used: set<nat>)
    requires |volume| == REDUMP_GAME_SECTORS * SECTOR_SIZE
    requires forall i :: REDUMP_VIDEO_SECTORS * SECTOR_SIZE <= i < |volume| ==> volume[i] != 0
    ensures ScanFails(volume, REDUMP_VIDEO_SECTORS * SECTOR_SIZE, used, ScanEnd(REDUMP_GAME_SECTORS))
  {
    NothingToFind(volume, REDUMP_VIDEO_SECTORS * SECTOR_SIZE, used, ScanEnd(REDUMP_GAME_SECTORS));
    hide SecurityRun;
  }

  /** A plan that finds no region to protect ends with the last extent. */
  lemma UnprotectedPlan(table: Table, rootOffset: nat, fileSize: nat, data: seq<byte>, security: set<nat>, plan: Plan)
    requires PartialPlan(table, rootOffset, fileSize, data, security, plan)
    requires var full := FullSectors(rootOffset, fileSize);
             !Searched(full) || NoRun(data, rootOffset, UsedSectors(table), ScanEnd(full))
    ensures security == {} && plan.sectors == LastEnd(Extents(table))
  {
    hide FullSectors, Searched, UsedSectors, LastEnd, Extents, PlatformOf, FirstLaunch, SecurityRun, ScanEnd;
  }

  const XGD3_ROOT_OFFSET: nat := 0x0208_0000

  /** The same volume behind a smaller offset: the scan ends, finds nothing, and the plan cuts the region off. */
  method SmallerOffsetCutsRegion(front: seq<byte>) returns (plan: Result<Plan>)
    requires |front| == HOLE * SECTOR_SIZE
    ensures plan.Ok? && plan.value.sectors == 0x23 && forall s :: s in SectorRange(HOLE) ==> s >= plan.value.sectors
    ensures Protects(HoledVolume(front, REDUMP_GAME_SECTORS), 0, REDUMP_GAME_SECTORS, UsedSectors(GAME_DISC), SectorRange(HOLE))
  {
    var full := REDUMP_GAME_SECTORS;
    var volume := HoledVolume(front, full);
    SmallDiscFacts(0x21, 0x22);
    HoleFound(front, full, UsedSectors(GAME_DISC));
    NothingToFind(volume, XGD3_ROOT_OFFSET, UsedSectors(GAME_DISC), ScanEnd(full));
    EndWasRead(volume, XGD3_ROOT_OFFSET, UsedSectors(GAME_DISC), ScanEnd(full));
    SmallDiscScrubs(0x21, 0x22, XGD3_ROOT_OFFSET, full, volume);
    assert FullSectors(XGD3_ROOT_OFFSET, XGD3_ROOT_OFFSET + full * SECTOR_SIZE) == full;
    assert forall s :: s in SectorRange(HOLE) ==> s >= 0x23;
    hide *;
    ghost var security;
    plan, security := PlanDirect(Partial, GAME_DISC, XGD3_ROOT_OFFSET, XGD3_ROOT_OFFSET + full * SECTOR_SIZE, volume);
    UnprotectedPlan(GAME_DISC, XGD3_ROOT_OFFSET, XGD3_ROOT_OFFSET + full * SECTOR_SIZE, volume, security, plan.value);
  }

  lemma SmallDiscScrubs(root: u32, file: u32, rootOffset: nat, full: nat, data: seq<byte>)
    requires root < full && file < full && VOLUME_DESCRIPTOR_SECTOR < full
    requires !Searched(full) || !ScanFails(data, rootOffset, UsedSectors(SmallDisc(root, file)), ScanEnd(full))
    ensures FullSectors(rootOffset, rootOffset + full * SECTOR_SIZE) == full
    ensures !ScrubFails(SmallDisc(root, file), rootOffset, rootOffset + full * SECTOR_SIZE, data)
  {
    SmallDiscFacts(root, file);
    SmallDiscLaunches(root, file);
    assert FullSectors(rootOffset, rootOffset + full * SECTOR_SIZE) == full;
    hide UsedSectors, IsLaunch, ScanFails, FullSectors, IsOgx;
    assert SmallDisc(root, file).entries[0] in SmallDisc(root, file).entries;
  }

  /** A disc that lies wholly below the volume descriptor: the plan ends before the descriptor. */
  method DescriptorCut(data: seq<byte>) returns (plan: Result<Plan>)
    ensures plan.Ok? && plan.value.sectors == 3 < VOLUME_DESCRIPTOR_SECTOR
  {
    var disc := SmallDisc(1, 2);
    SmallDiscFacts(1, 2);
    SmallDiscScrubs(1, 2, 0, 0x40, data);
    assert !Searched(0x40);
    hide *;
    ghost var security;
    plan, security := PlanDirect(Partial, disc, 0, 0x40 * SECTOR_SIZE, data);
    UnprotectedPlan(disc, 0, 0x40 * SECTOR_SIZE, data, security, plan.value);
  }

  /** The small disc with an empty file recorded at sector 1000. */
  function OverreachingDisc(): Table {
    Table(0x21, 2048, [Entry("default.xbe", "default.xbe", false, 0x22, 2048), Entry("empty", "empty", false, 1000, 0)])
  }

  /** Everything it holds lies in 35 sectors, and the plan is for 1000. */
  method EmptyFileOverreaches(data: seq<byte>) returns (plan: Result<Plan>)
    ensures plan.Ok? && plan.value.sectors == 1000 > FullSectors(0, 0x23 * SECTOR_SIZE) == 0x23
  {
    var disc := OverreachingDisc();
    OverreachingFacts();
    OverreachingScrubs(data);
    assert FullSectors(0, 0x23 * SECTOR_SIZE) == 0x23 && !Searched(0x23);
    hide *;
    ghost var security;
    plan, security := PlanDirect(Partial, disc, 0, 0x23 * SECTOR_SIZE, data);
    UnprotectedPlan(disc, 0, 0x23 * SECTOR_SIZE, data, security, plan.value);
  }

  lemma OverreachingScrubs(data: seq<byte>)
    ensures !ScrubFails(OverreachingDisc(), 0, 0x23 * SECTOR_SIZE, data)
  {
    OverreachingFacts();
    assert FullSectors(0, 0x23 * SECTOR_SIZE) == 0x23;
    hide UsedSectors, IsLaunch, ScanFails, FullSectors, IsOgx;
    assert OverreachingDisc().entries[0] in OverreachingDisc().entries;
  }

  lemma OverreachingFacts()
    ensures LastEnd(Extents(OverreachingDisc())) == 1000
    ensures forall s :: s in UsedSectors(OverreachingDisc()) ==> s < 0x23
    ensures IsLaunch(OverreachingDisc().entries[0])
  {
    var table := OverreachingDisc();
    var es := [Extent(0x22, 2048), Extent(1000, 0), Extent(0x21, 2048)];
    XbeLaunches();
    TwoFiles(table.entries[0], table.entries[1]);
    assert Extents(table) == es;
    assert es[..2] == [es[0], es[1]];
    TwoExtents(es[0], es[1]);
    hide Extents, Contains, LastComponent;
    assert LastEnd(es) == 1000;
    forall s | s in UsedSectors(table) ensures s < 0x23 {
      CoveredMember(es, s);
    }
  }

  lemma TwoFiles(a: Entry, b: Entry)
    requires !a.directory && !b.directory
    ensures FileExtents([a, b]) == [Extent(a.sector, a.size), Extent(b.sector, b.size)] && TableExtents([a, b]) == []
  {
    assert [a, b][..1] == [a] && [a][..0] == [];
    assert FileExtents([a]) == [Extent(a.sector, a.size)] && TableExtents([a]) == [];
  }
}
