/** The CCI container's byte layout: header, sector slots, index words, part names. */
module CciFormat {
  import opened Common

  const SECTOR_SIZE: nat := 2048
  const HEADER_SIZE: nat := 32
  const BLOCK_SIZE: nat := 2048
  const VERSION: nat := 1
  const INDEX_ALIGNMENT: nat := 2
  const ALIGN_MULT: nat := 4
  const FILE_SPLIT_POINT: nat := 0xFF00_0000
  const SIZING_BATCH_SECTORS: nat := 256
  const TWO_31: nat := 0x8000_0000
  const TWO_32: nat := 0x1_0000_0000
  const MAGIC: seq<byte> := [0x43, 0x43, 0x49, 0x4D]

  // ----------------------------------------------------------- little-endian words

  function LeBytes(v: nat, n: nat): (r: seq<byte>)
    ensures |r| == n
  {
    if n == 0 then [] else [v % 256] + LeBytes(v / 256, n - 1)
  }

  function LeValue(bs: seq<byte>): nat {
    if bs == [] then 0 else bs[0] + 256 * LeValue(bs[1..])
  }

  function Pow256(n: nat): nat { if n == 0 then 1 else 256 * Pow256(n - 1) }

  lemma {:induction false} LeRoundTrip(v: nat, n: nat)
    requires v < Pow256(n)
    ensures LeValue(LeBytes(v, n)) == v
  {
    if n > 0 {
      LeRoundTrip(v / 256, n - 1);
      assert LeBytes(v, n)[1..] == LeBytes(v / 256, n - 1);
    }
  }

  lemma Pow256Values()
    ensures Pow256(1) == 0x100 && Pow256(4) == TWO_32 && Pow256(8) == TWO_32 * TWO_32
  {
    assert Pow256(2) == 0x1_0000;
    assert Pow256(3) == 0x100_0000;
    assert Pow256(5) == 0x100 * TWO_32;
    assert Pow256(6) == 0x1_0000 * TWO_32;
    assert Pow256(7) == 0x100_0000 * TWO_32;
  }

  /** A 32-bit word, lowest byte first. */
  lemma LeWordBytes(v: nat)
    requires v < 0x1_0000_0000
    ensures var bs := LeBytes(v, 4);
            bs[0] == v % 256 && bs[1] == v / 0x100 % 256 && bs[2] == v / 0x1_0000 % 256 && bs[3] == v / 0x100_0000
  {
    var a, b, c := LeBytes(v / 256, 3), LeBytes(v / 256 / 256, 2), LeBytes(v / 256 / 256 / 256, 1);
    assert LeBytes(v, 4)[1..] == a && a[1..] == b && b[1..] == c;
    assert a[0] == v / 256 % 256 && b[0] == v / 256 / 256 % 256 && c[0] == v / 256 / 256 / 256 % 256;
  }

  lemma LeWordValue(bs: seq<byte>)
    requires |bs| == 4
    ensures LeValue(bs) == bs[0] as int + 0x100 * (bs[1] as int) + 0x1_0000 * (bs[2] as int) + 0x100_0000 * (bs[3] as int)
  {
    var b, c, d := bs[1..], bs[2..], bs[3..];
    assert b[1..] == c && c[1..] == d && d[1..] == [];
    assert LeValue(d) == bs[3] as int;
    assert LeValue(c) == bs[2] as int + 256 * LeValue(d);
    assert LeValue(b) == bs[1] as int + 256 * LeValue(c);
  }

  // ------------------------------------------------------------------- the header

  datatype Header = Header(headerSize: nat, uncompressedSize: nat, indexOffset: nat,
                           blockSize: nat, version: nat, indexAlignment: nat)

  function SerializeHeader(uncompressedSize: nat, indexOffset: nat): (r: seq<byte>)
    ensures |r| == HEADER_SIZE
  {
    MAGIC + LeBytes(HEADER_SIZE, 4) + LeBytes(uncompressedSize, 8) + LeBytes(indexOffset, 8)
    + LeBytes(BLOCK_SIZE, 4) + LeBytes(VERSION, 1) + LeBytes(INDEX_ALIGNMENT, 1) + [0, 0]
  }

  /** The header at the front of `file`; the two reserved bytes are not looked at. */
  function ReadHeader(file: seq<byte>): Result<Header> {
    if |file| < HEADER_SIZE || file[..4] != MAGIC then Err(BadHeader)
    else Ok(Header(LeValue(file[4..8]), LeValue(file[8..16]), LeValue(file[16..24]),
                   LeValue(file[24..28]), LeValue(file[28..29]), LeValue(file[29..30])))
  }

  lemma HeaderRoundTrip(uncompressedSize: nat, indexOffset: nat, rest: seq<byte>)
    requires uncompressedSize < TWO_32 * TWO_32 && indexOffset < TWO_32 * TWO_32
    ensures ReadHeader(SerializeHeader(uncompressedSize, indexOffset) + rest)
         == Ok(Header(HEADER_SIZE, uncompressedSize, indexOffset, BLOCK_SIZE, VERSION, INDEX_ALIGNMENT))
  {
    var f := SerializeHeader(uncompressedSize, indexOffset) + rest;
    Pow256Values();
    HeaderFields(uncompressedSize, indexOffset, rest);
    hide LeBytes, LeValue, Pow256;
    LeRoundTrip(HEADER_SIZE, 4);
    LeRoundTrip(uncompressedSize, 8);
    LeRoundTrip(indexOffset, 8);
    LeRoundTrip(BLOCK_SIZE, 4);
    LeRoundTrip(VERSION, 1);
    LeRoundTrip(INDEX_ALIGNMENT, 1);
  }

  lemma HeaderFields(uncompressedSize: nat, indexOffset: nat, rest: seq<byte>)
    ensures var f := SerializeHeader(uncompressedSize, indexOffset) + rest;
            && |f| >= HEADER_SIZE && f[..4] == MAGIC
            && f[4..8] == LeBytes(HEADER_SIZE, 4) && f[8..16] == LeBytes(uncompressedSize, 8)
            && f[16..24] == LeBytes(indexOffset, 8) && f[24..28] == LeBytes(BLOCK_SIZE, 4)
            && f[28..29] == LeBytes(VERSION, 1) && f[29..30] == LeBytes(INDEX_ALIGNMENT, 1)
  {
    hide LeBytes;
  }

  /** The header as it stands in the file: magic, its own length, the two sizes, and five constants. */
  lemma HeaderMeaning(uncompressedSize: nat, indexOffset: nat)
    ensures var h := SerializeHeader(uncompressedSize, indexOffset);
            && h[..8] == [0x43, 0x43, 0x49, 0x4D, 32, 0, 0, 0]
            && h[8..16] == LeBytes(uncompressedSize, 8) && h[16..24] == LeBytes(indexOffset, 8)
            && h[24..] == [0x00, 0x08, 0, 0, 1, 2, 0, 0]
  {
    LeWordBytes(32);
    LeWordBytes(2048);
    assert LeBytes(1, 1) == [1] && LeBytes(2, 1) == [2];
    hide LeBytes;
    assert LeBytes(32, 4) == [32, 0, 0, 0] && LeBytes(2048, 4) == [0x00, 0x08, 0, 0];
    var h := SerializeHeader(uncompressedSize, indexOffset);
    var front, tail := MAGIC + [32, 0, 0, 0], [0x00, 0x08, 0, 0] + [1] + [2] + [0, 0];
    assert h == front + LeBytes(uncompressedSize, 8) + LeBytes(indexOffset, 8) + tail;
    hide SerializeHeader;
    Sections(front, LeBytes(uncompressedSize, 8), LeBytes(indexOffset, 8), tail);
  }

  lemma Sections(a: seq<byte>, b: seq<byte>, c: seq<byte>, d: seq<byte>)
    requires |a| == |b| == |c| == 8
    ensures var h := a + b + c + d; h[..8] == a && h[8..16] == b && h[16..24] == c && h[24..] == d
  {
  }

  // ---------------------------------------------------------------- sector slots

  /** The LZ4 block codec, of which only losslessness on sectors matters. */
  datatype Codec = Codec(compress: seq<byte> -> seq<byte>, decompress: seq<byte> -> Option<seq<byte>>)

  ghost predicate Lossless(codec: Codec) {
    forall x: seq<byte> :: |x| == SECTOR_SIZE ==> codec.decompress(codec.compress(x)) == Some(x)
  }

  /** Keeps the compressed form only if it is non-empty and saves enough. */
  function CompressSector(codec: Codec, data: seq<byte>): (seq<byte>, bool) {
    var compressed := codec.compress(data);
    if compressed != [] && |compressed| < SECTOR_SIZE - (4 + ALIGN_MULT) then (compressed, true) else (data, false)
  }

  /** Total length and padding of a compressed slot: length byte, payload, zeros to a multiple of four. */
  function CompressedWrittenLen(compressedSize: nat): (r: (nat, nat))
    ensures r.0 % ALIGN_MULT == 0 && r.1 < ALIGN_MULT && r.0 == 1 + compressedSize + r.1
  {
    var raw := compressedSize + 1;
    var padded := DivCeil(raw, ALIGN_MULT) * ALIGN_MULT;
    (padded, padded - raw)
  }

  /** What sizing records for a sector: the slot's length and whether it is compressed. */
  datatype SlotInfo = SlotInfo(len: nat, compressed: bool)

  function SlotInfoOf(codec: Codec, sector: seq<byte>): SlotInfo {
    var (data, compressed) := CompressSector(codec, sector);
    SlotInfo(if compressed then CompressedWrittenLen(|data|).0 else SECTOR_SIZE, compressed)
  }

  /** The bytes streaming emits for a sector. */
  function SlotOf(codec: Codec, sector: seq<byte>): seq<byte> {
    var (data, compressed) := CompressSector(codec, sector);
    if compressed then
      var padding := CompressedWrittenLen(|data|).1;
      [padding] + data + seq(padding, _ => 0)
    else
      sector
  }

  /** Slot lengths are multiples of four up to a sector, and a full-length slot is never compressed. */
  ghost predicate SlotInfoValid(info: SlotInfo) {
    info.len % ALIGN_MULT == 0 && ALIGN_MULT <= info.len <= SECTOR_SIZE && (info.compressed <==> info.len < SECTOR_SIZE)
  }

  lemma SlotLength(codec: Codec, sector: seq<byte>)
    requires |sector| == SECTOR_SIZE
    ensures |SlotOf(codec, sector)| == SlotInfoOf(codec, sector).len
    ensures SlotInfoValid(SlotInfoOf(codec, sector))
  {
  }

  /**
   A sector is compressed exactly when the codec makes something of it shorter than 2040
   bytes. Its slot is then the padding count, the compressed bytes and that many zeros, up to
   a multiple of four; otherwise it is the sector itself.
   */
  lemma SlotMeaning(codec: Codec, sector: seq<byte>)
    ensures var c := codec.compress(sector);
            var slot, info := SlotOf(codec, sector), SlotInfoOf(codec, sector);
            if 0 < |c| < 2040 then
              var padding := (3 - |c| % 4) % 4;
              && info == SlotInfo(1 + |c| + padding, true)
              && |slot| == info.len && slot[0] == padding && slot[1..1 + |c|] == c && slot[1 + |c|..] == Zeros(padding)
            else info == SlotInfo(2048, false) && slot == sector
  {
    var c := codec.compress(sector);
    if 0 < |c| < 2040 {
      PaddingOf(|c|);
    }
  }

  lemma PaddingOf(size: nat)
    ensures CompressedWrittenLen(size).1 == (3 - size % 4) % 4
  {
  }

  // --------------------------------------------------------------- index and parts

  /** `position >> INDEX_ALIGNMENT`, with bit 31 set for a compressed slot. */
  function IndexWord(position: nat, compressed: bool): nat {
    var w := position / ALIGN_MULT;
    if compressed && w < TWO_31 then w + TWO_31 else w
  }

  /** Positions count in fours; the top bit of the word marks a compressed slot. */
  lemma IndexWordMeaning(position: nat, compressed: bool)
    requires position % 4 == 0 && position < 4 * 0x8000_0000
    ensures IndexWord(position, compressed) == position / 4 + if compressed then 0x8000_0000 else 0
  {
  }

  function DataEnd(infos: seq<SlotInfo>): nat {
    if infos == [] then HEADER_SIZE else DataEnd(infos[..|infos| - 1]) + infos[|infos| - 1].len
  }

  /** One word per slot with its start position, then one for where the data ends. */
  function IndexWords(infos: seq<SlotInfo>): (r: seq<nat>)
    ensures |r| == |infos| + 1
  {
    StartWords(infos) + [IndexWord(DataEnd(infos), false)]
  }

  function StartWords(infos: seq<SlotInfo>): (r: seq<nat>)
    ensures |r| == |infos|
  {
    if infos == [] then []
    else
      var init := infos[..|infos| - 1];
      StartWords(init) + [IndexWord(DataEnd(init), infos[|infos| - 1].compressed)]
  }

  function WordBytes(words: seq<nat>): (r: seq<byte>)
    ensures |r| == 4 * |words|
  {
    if words == [] then [] else WordBytes(words[..|words| - 1]) + LeBytes(words[|words| - 1], 4)
  }

  datatype CciPart = CciPart(firstSector: nat, sectorCount: nat, headerBytes: seq<byte>, indexBytes: seq<byte>, totalSize: nat)

  function PartOf(firstSector: nat, infos: seq<SlotInfo>): CciPart {
    var index := WordBytes(IndexWords(infos));
    CciPart(firstSector, |infos|, SerializeHeader(|infos| * SECTOR_SIZE, DataEnd(infos)), index, DataEnd(infos) + |index|)
  }

  // --------------------------------------------------------------------- names

  function Digits(n: nat): string {
    var d := ['0' + (n % 10) as char];
    if n < 10 then d else Digits(n / 10) + d
  }

  function SplitName(baseName: string, index: nat): string {
    baseName + "." + Digits(index + 1) + ".cci"
  }

  /** A single part keeps the bare name; only several parts are numbered from one. */
  function OutputName(baseName: string, index: nat, totalParts: nat): string {
    if totalParts <= 1 then baseName + ".cci" else SplitName(baseName, index)
  }

  /** The number a string of digits stands for. */
  function Decimal(s: string): int {
    if s == "" then 0 else 10 * Decimal(s[..|s| - 1]) + (s[|s| - 1] as int - '0' as int)
  }

  /** Digits only, with no zero in front of others, and they stand for the number. */
  lemma {:induction false} DigitsMeaning(n: nat)
    ensures Decimal(Digits(n)) == n && Digits(n) != "" && (n > 0 ==> Digits(n)[0] != '0')
    ensures forall i :: 0 <= i < |Digits(n)| ==> '0' <= Digits(n)[i] <= '9'
  {
    var s, last := Digits(n), '0' + (n % 10) as char;
    if n < 10 {
      assert s[..0] == "";
    } else {
      DigitsMeaning(n / 10);
      assert s == Digits(n / 10) + [last] && s[..|s| - 1] == Digits(n / 10);
    }
  }

  /** The names of the parts: one part keeps the bare name, several count from one. */
  lemma NamesMeaning(baseName: string, index: nat, totalParts: nat)
    ensures totalParts <= 1 ==> OutputName(baseName, index, totalParts) == baseName + ".cci"
    ensures totalParts > 1 ==>
              exists number :: OutputName(baseName, index, totalParts) == baseName + "." + number + ".cci" && Decimal(number) == index + 1
  {
    DigitsMeaning(index + 1);
  }

  lemma {:induction false} DigitsInjective(a: nat, b: nat)
    requires Digits(a) == Digits(b)
    ensures a == b
    decreases a
  {
    var da, db := Digits(a), Digits(b);
    assert da[|da| - 1] == '0' + (a % 10) as char && db[|db| - 1] == '0' + (b % 10) as char;
    assert a % 10 == b % 10;
    if a >= 10 && b >= 10 {
      assert Digits(a / 10) == da[..|da| - 1] == db[..|db| - 1] == Digits(b / 10);
      DigitsInjective(a / 10, b / 10);
    }
  }

  /** No two parts of one output share a name. */
  lemma OutputNamesDistinct(baseName: string, i: nat, j: nat, totalParts: nat)
    requires i < totalParts && j < totalParts
    requires OutputName(baseName, i, totalParts) == OutputName(baseName, j, totalParts)
    ensures i == j
  {
    if totalParts > 1 {
      var a, b := SplitName(baseName, i), SplitName(baseName, j);
      var n := |baseName| + 1;
      assert Digits(i + 1) == a[n..|a| - 4] == b[n..|b| - 4] == Digits(j + 1);
      DigitsInjective(i + 1, j + 1);
    }
  }
}
