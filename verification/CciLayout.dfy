/** How sectors fall into parts, and what each part's file must contain. */
module CciLayout {
  import opened Common
  import opened CciFormat

  // ------------------------------------------------------------- sectors and sizes

  ghost predicate Sectors(data: seq<seq<byte>>) {
    forall i :: 0 <= i < |data| ==> |data[i]| == SECTOR_SIZE
  }

  function Sizes(codec: Codec, data: seq<seq<byte>>): (r: seq<SlotInfo>)
    ensures |r| == |data|
  {
    seq(|data|, i requires 0 <= i < |data| => SlotInfoOf(codec, data[i]))
  }

  function Slots(codec: Codec, data: seq<seq<byte>>): seq<seq<byte>> {
    seq(|data|, i requires 0 <= i < |data| => SlotOf(codec, data[i]))
  }

  lemma SizesSplit(codec: Codec, data: seq<seq<byte>>, k: nat)
    requires k <= |data|
    ensures Sizes(codec, data) == Sizes(codec, data[..k]) + Sizes(codec, data[k..])
  {
  }

  // -------------------------------------------------------------- splitting rules

  ghost predicate InfosValid(infos: seq<SlotInfo>) {
    forall i :: 0 <= i < |infos| ==> SlotInfoValid(infos[i])
  }

  /** A part takes no sector once its data has passed the split point. */
  ghost predicate Closed(infos: seq<SlotInfo>) {
    InfosValid(infos) && (infos != [] ==> DataEnd(infos[..|infos| - 1]) <= FILE_SPLIT_POINT)
  }

  /** A part that another one follows: its last sector is the one that passed the split point. */
  ghost predicate Full(infos: seq<SlotInfo>) {
    Closed(infos) && infos != [] && DataEnd(infos) > FILE_SPLIT_POINT
  }

  /** How a whole image must be split: full parts, then one last part. */
  ghost predicate LayoutValid(layout: seq<seq<SlotInfo>>) {
    && |layout| > 0
    && (forall i :: 0 <= i < |layout| - 1 ==> Full(layout[i]))
    && Closed(layout[|layout| - 1])
    && (|layout| > 1 ==> layout[|layout| - 1] != [])
  }

  lemma {:induction false} DataEndBounds(infos: seq<SlotInfo>)
    requires InfosValid(infos)
    ensures DataEnd(infos) % ALIGN_MULT == 0
    ensures DataEnd(infos) >= HEADER_SIZE + ALIGN_MULT * |infos|
  {
    if infos != [] {
      DataEndBounds(infos[..|infos| - 1]);
      assert SlotInfoValid(infos[|infos| - 1]);
    }
  }

  lemma {:induction false} DataEndMonotone(infos: seq<SlotInfo>, k: nat)
    requires k <= |infos|
    ensures DataEnd(infos[..k]) <= DataEnd(infos)
  {
    if k < |infos| {
      DataEndMonotone(infos[..|infos| - 1], k);
      assert infos[..|infos| - 1][..k] == infos[..k];
    } else {
      assert infos[..k] == infos;
    }
  }

  /**
   The index arithmetic of every part is lossless: each position is a multiple of four, at
   most one sector past the split point, so its word fits in 31 bits beside the flag.
   */
  lemma IndexFits(infos: seq<SlotInfo>, k: nat)
    requires Closed(infos) && k <= |infos|
    ensures DataEnd(infos[..k]) % ALIGN_MULT == 0
    ensures DataEnd(infos[..k]) <= FILE_SPLIT_POINT + SECTOR_SIZE
    ensures DataEnd(infos[..k]) / ALIGN_MULT < TWO_31
    ensures |infos| * SECTOR_SIZE < TWO_32 * TWO_32
  {
    DataEndBounds(infos[..k]);
    DataEndBounds(infos);
    DataEndMonotone(infos, k);
    if infos != [] {
      assert SlotInfoValid(infos[|infos| - 1]);
    }
  }

  lemma IndexFitsWhole(infos: seq<SlotInfo>)
    requires Closed(infos)
    ensures DataEnd(infos) / ALIGN_MULT < TWO_31
    ensures DataEnd(infos) <= FILE_SPLIT_POINT + SECTOR_SIZE
  {
    assert infos[..|infos|] == infos;
    IndexFits(infos, |infos|);
  }

  /** The split is forced: an image's sectors fall into parts in one way only, however they were batched. */
  lemma {:induction false} LayoutUnique(a: seq<seq<SlotInfo>>, b: seq<seq<SlotInfo>>)
    requires LayoutValid(a) && LayoutValid(b) && Flatten(a) == Flatten(b)
    ensures a == b
    decreases |a|
  {
    FirstPartLonger(a, b);
    FirstPartLonger(b, a);
    assert a[0] == Flatten(a)[..|a[0]|] == b[0];
    assert Flatten(a[1..]) == Flatten(a)[|a[0]|..] == Flatten(b)[|b[0]|..] == Flatten(b[1..]);
    if |a| > 1 {
      LayoutUnique(a[1..], b[1..]);
    }
    assert a == [a[0]] + a[1..] && b == [b[0]] + b[1..];
  }

  lemma FirstPartLonger(a: seq<seq<SlotInfo>>, b: seq<seq<SlotInfo>>)
    requires LayoutValid(a) && LayoutValid(b) && Flatten(a) == Flatten(b)
    ensures |a[0]| <= |b[0]|
  {
    var all := Flatten(a);
    assert all == a[0] + Flatten(a[1..]) == b[0] + Flatten(b[1..]);
    assert forall i :: 0 <= i < |a[0]| ==> a[0][i] == all[i];
    assert forall i :: 0 <= i < |b[0]| ==> b[0][i] == all[i];
    if |b| > 1 && a[0] != [] && |b[0]| <= |a[0]| - 1 {
      PrefixEnd(b[0], a[0][..|a[0]| - 1]);
    }
  }

  lemma PrefixEnd(p: seq<SlotInfo>, q: seq<SlotInfo>)
    requires |p| <= |q| && forall i :: 0 <= i < |p| ==> p[i] == q[i]
    ensures DataEnd(p) <= DataEnd(q)
  {
    assert q[..|p|] == p;
    DataEndMonotone(q, |p|);
  }

  /** A sector goes into the part as long as the data in front of it has not passed 0xFF00_0000 bytes; another part follows only then. */
  lemma SplitMeaning(layout: seq<seq<SlotInfo>>, i: nat, k: nat)
    requires LayoutValid(layout) && i < |layout| && k < |layout[i]|
    ensures DataEnd(layout[i][..k]) <= 0xFF00_0000
    ensures i + 1 < |layout| ==> DataEnd(layout[i]) > 0xFF00_0000
  {
    var init := layout[i][..|layout[i]| - 1];
    assert Closed(layout[i]);
    DataEndMonotone(init, k);
    assert init[..k] == layout[i][..k];
  }

  // --------------------------------------------------------------- part contents

  /** The first sector of part `i`. */
  ghost function FirstOf(layout: seq<seq<SlotInfo>>, i: nat): nat
    requires i <= |layout|
  {
    |Flatten(layout[..i])|
  }

  ghost predicate PartsMatch(parts: seq<CciPart>, layout: seq<seq<SlotInfo>>) {
    |parts| == |layout| && forall i :: 0 <= i < |parts| ==> parts[i] == PartOf(FirstOf(layout, i), layout[i])
  }

  /** The complete bytes of a part's file: header, the slots of its sectors, index. */
  function PartBytes(codec: Codec, data: seq<seq<byte>>, part: CciPart): seq<byte>
    requires part.firstSector + part.sectorCount <= |data|
  {
    part.headerBytes
    + Flatten(Slots(codec, data[part.firstSector..part.firstSector + part.sectorCount]))
    + part.indexBytes
  }

  lemma {:induction false} FirstOfStep(layout: seq<seq<SlotInfo>>, i: nat)
    requires i < |layout|
    ensures FirstOf(layout, i + 1) == FirstOf(layout, i) + |layout[i]|
  {
    assert layout[..i + 1] == layout[..i] + [layout[i]];
    FlattenSnoc(layout[..i], layout[i]);
  }

  lemma {:induction false} FirstOfMonotone(layout: seq<seq<SlotInfo>>, i: nat, j: nat)
    requires i <= j <= |layout|
    ensures FirstOf(layout, i) <= FirstOf(layout, j)
    decreases j - i
  {
    if i < j {
      FirstOfStep(layout, j - 1);
      FirstOfMonotone(layout, i, j - 1);
    }
  }

  /** Each part describes exactly its own consecutive stretch of the sectors. */
  lemma PartStretch(layout: seq<seq<SlotInfo>>, i: nat)
    requires i < |layout|
    ensures FirstOf(layout, i) + |layout[i]| <= |Flatten(layout)|
    ensures Flatten(layout)[FirstOf(layout, i)..FirstOf(layout, i) + |layout[i]|] == layout[i]
  {
    assert layout == layout[..i] + ([layout[i]] + layout[i + 1..]);
    FlattenAppend(layout[..i], [layout[i]] + layout[i + 1..]);
    assert ([layout[i]] + layout[i + 1..])[1..] == layout[i + 1..];
  }

  lemma {:induction false} SlotsLength(codec: Codec, data: seq<seq<byte>>)
    requires Sectors(data)
    ensures HEADER_SIZE + |Flatten(Slots(codec, data))| == DataEnd(Sizes(codec, data))
  {
    if data != [] {
      var n := |data| - 1;
      SlotsLength(codec, data[..n]);
      assert Slots(codec, data) == Slots(codec, data[..n]) + [SlotOf(codec, data[n])];
      FlattenSnoc(Slots(codec, data[..n]), SlotOf(codec, data[n]));
      assert Sizes(codec, data)[..n] == Sizes(codec, data[..n]);
      SlotLength(codec, data[n]);
    }
  }

  lemma {:induction false} SizesValid(codec: Codec, data: seq<seq<byte>>)
    requires Sectors(data)
    ensures InfosValid(Sizes(codec, data))
  {
    forall i | 0 <= i < |data| ensures SlotInfoValid(Sizes(codec, data)[i]) {
      SlotLength(codec, data[i]);
    }
  }

  /** The part's own sectors, as sizing saw them. */
  lemma PartData(codec: Codec, data: seq<seq<byte>>, layout: seq<seq<SlotInfo>>, i: nat, k: nat)
    requires Flatten(layout) == Sizes(codec, data) && i < |layout| && k <= |layout[i]|
    ensures FirstOf(layout, i) + |layout[i]| <= |data|
    ensures layout[i][..k] == Sizes(codec, data[FirstOf(layout, i)..FirstOf(layout, i) + k])
  {
    PartStretch(layout, i);
    SubSlice(Sizes(codec, data), FirstOf(layout, i), FirstOf(layout, i) + |layout[i]|, 0, k);
  }

  /**
   Two-pass agreement: what streaming re-compresses for a part is exactly as long as
   sizing recorded, and every slot starts at the offset its index word names.
   */
  lemma PartBytesFit(codec: Codec, data: seq<seq<byte>>, layout: seq<seq<SlotInfo>>, i: nat, k: nat)
    requires Sectors(data) && Flatten(layout) == Sizes(codec, data) && i < |layout| && k <= |layout[i]|
    ensures var part := PartOf(FirstOf(layout, i), layout[i]);
            && part.firstSector + part.sectorCount <= |data|
            && |PartBytes(codec, data, part)| == part.totalSize
            && |part.headerBytes + Flatten(Slots(codec, data[part.firstSector..part.firstSector + k]))| == DataEnd(layout[i][..k])
  {
    hide Sizes, Slots, Flatten, WordBytes, IndexWords, SerializeHeader;
    var first, count := FirstOf(layout, i), |layout[i]|;
    PartData(codec, data, layout, i, count);
    SlotsLength(codec, data[first..first + count]);
    assert layout[i][..count] == layout[i];
    PartData(codec, data, layout, i, k);
    SlotsLength(codec, data[first..first + k]);
  }
}
