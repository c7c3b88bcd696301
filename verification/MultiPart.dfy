/**
 Several parts presented as one stream. At most one part's reader is open at a time;
 reads and seeks behave like one file holding the concatenation of the parts.
 */
module MultiPart {
  import opened Common
  import opened Reader

  datatype SourcePart = SourcePart(name: string, readFn: Callback, size: nat)

  // ------------------------------------------------------------- finding the part

  datatype SearchResult = Found(at: nat) | Insert(at: nat)

  /**
   What a binary search over `ends` may answer: any index holding `pos`, or the
   insertion point when there is none. Among equal entries the choice is free.
   */
  ghost predicate IsSearchResult(ends: seq<nat>, pos: nat, r: SearchResult) {
    match r
    case Found(i) => i < |ends| && ends[i] == pos
    case Insert(i) =>
      i <= |ends| && (forall j :: 0 <= j < i ==> ends[j] < pos) && (forall j :: i <= j < |ends| ==> ends[j] > pos)
  }

  ghost predicate Ascending(ends: seq<nat>) {
    forall i, j :: 0 <= i <= j < |ends| ==> ends[i] <= ends[j]
  }

  method BinarySearch(ends: seq<nat>, pos: nat) returns (r: SearchResult)
    requires Ascending(ends)
    ensures IsSearchResult(ends, pos, r)
  {
    var lo, hi := 0, |ends|;
    while lo < hi
      invariant 0 <= lo <= hi <= |ends|
      invariant forall j :: 0 <= j < lo ==> ends[j] < pos
      invariant forall j :: hi <= j < |ends| ==> ends[j] > pos
    {
      var mid := lo + (hi - lo) / 2;
      if ends[mid] == pos {
        return Found(mid);
      } else if ends[mid] < pos {
        lo := mid + 1;
      } else {
        hi := mid;
      }
    }
    return Insert(lo);
  }

  /** `locate_in` after its search: a hit on a boundary means the next part, clamped to the last. */
  function LocateIn(ends: seq<nat>, r: SearchResult): (located: (nat, nat))
    requires |ends| > 0
    requires r.at <= |ends|
    ensures located.0 < |ends|
  {
    var i := if r.Found? then r.at + 1 else r.at;
    var index := Min(i, |ends| - 1);
    (index, if index == 0 then 0 else ends[index - 1])
  }

  /** The part `index` starting at `start` contains `pos`. */
  ghost predicate Holds(ends: seq<nat>, pos: nat, index: nat, start: nat) {
    index < |ends| && start == (if index == 0 then 0 else ends[index - 1]) && start <= pos < ends[index]
  }

  /** Some part after the first has no bytes and begins at `pos`. */
  ghost predicate EmptyPartAt(ends: seq<nat>, pos: nat) {
    exists j :: 0 < j < |ends| && ends[j - 1] == pos && ends[j] == pos
  }

  lemma HolderUnique(ends: seq<nat>, pos: nat, i: nat, a: nat, j: nat, b: nat)
    requires Ascending(ends) && Holds(ends, pos, i, a) && Holds(ends, pos, j, b)
    ensures i == j && a == b
  {
  }

  /**
   Inside the stream, every answer the search may give leads to the part that holds the
   position exactly when no empty part begins there.
   */
  lemma LocateExact(ends: seq<nat>, pos: nat)
    requires |ends| > 0 && Ascending(ends) && pos < ends[|ends| - 1]
    ensures (forall r :: IsSearchResult(ends, pos, r) ==> Holds(ends, pos, LocateIn(ends, r).0, LocateIn(ends, r).1))
       <==> !EmptyPartAt(ends, pos)
  {
    if EmptyPartAt(ends, pos) {
      var j :| 0 < j < |ends| && ends[j - 1] == pos && ends[j] == pos;
      assert IsSearchResult(ends, pos, Found(j - 1));
      assert LocateIn(ends, Found(j - 1)).0 == j;
    } else {
      forall r | IsSearchResult(ends, pos, r)
        ensures Holds(ends, pos, LocateIn(ends, r).0, LocateIn(ends, r).1)
      {
        var i := LocateIn(ends, r).0;
        if r.Found? {
          assert i == r.at + 1 && ends[i - 1] == pos;
        }
      }
    }
  }

  /** One answer leads to the right part exactly when it is not a match that another match follows. */
  lemma AnswerExact(ends: seq<nat>, pos: nat, r: SearchResult)
    requires |ends| > 0 && Ascending(ends) && pos < ends[|ends| - 1] && IsSearchResult(ends, pos, r)
    ensures Holds(ends, pos, LocateIn(ends, r).0, LocateIn(ends, r).1) <==> !(r.Found? && r.at + 1 < |ends| && ends[r.at + 1] == pos)
  {
    var i := LocateIn(ends, r).0;
    assert r.Found? ==> i == r.at + 1 && ends[i - 1] == pos;
  }

  /** Three parts of 5, 0 and 3 bytes: at 5 the search may answer the empty middle part. */
  lemma LocateCanMiss()
    ensures IsSearchResult([5, 5, 8], 5, Found(0)) && !Holds([5, 5, 8], 5, LocateIn([5, 5, 8], Found(0)).0, 5)
  {
    assert LocateIn([5, 5, 8], Found(0)) == (1, 5);
  }

  // ------------------------------------------------------------------- seeking

  function AsSigned(n: int): (r: int)
    requires 0 <= n < TWO_64
    ensures -TWO_63 <= r < TWO_63
  {
    if n < TWO_63 then n else n - TWO_64
  }

  /** Two's-complement addition of 64-bit signed numbers. */
  function WrappingAdd(a: i64, b: i64): (r: i64)
    ensures (a + b - r) % 0x1_0000_0000_0000_0000 == 0
  {
    if a + b >= TWO_63 then a + b - TWO_64 else if a + b < -TWO_63 then a + b + TWO_64 else a + b
  }

  /** `seek_relative`: the bit patterns are reinterpreted as signed and added unchecked. */
  function SeekRelative(pos: SeekFrom, position: u64, size: u64): Result<nat> {
    var target: int :=
      match pos
      case Start(n) => AsSigned(n)
      case End(n) => WrappingAdd(AsSigned(size), n)
      case Current(n) => WrappingAdd(AsSigned(position), n);
    if target < 0 then Err(SeekBeforeStart) else Ok(target)
  }

  /**
   The unchecked seek and the checked one of the single-file reader accept the same
   requests with the same result; only the reason given for a refusal can differ.
   */
  lemma SeeksAgree(pos: SeekFrom, position: u64, size: u64)
    requires position < TWO_63 && size < TWO_63
    ensures SeekRelative(pos, position, size).Ok? <==> SeekTarget(pos, position, size).Ok?
    ensures SeekRelative(pos, position, size).Ok? ==> SeekRelative(pos, position, size) == SeekTarget(pos, position, size)
  {
  }

  // ----------------------------------------------------------- the concatenation

  /** `ends[i]` is where part `i` stops in the concatenation. */
  ghost predicate EndsOf(images: seq<seq<byte>>, ends: seq<nat>) {
    |ends| == |images| && forall i :: 0 <= i < |ends| ==> ends[i] == |Flatten(images[..i + 1])|
  }

  lemma {:induction false} PrefixLength(images: seq<seq<byte>>, i: nat, j: nat)
    requires i <= j <= |images|
    ensures |Flatten(images[..i])| <= |Flatten(images[..j])|
    decreases j - i
  {
    if i < j {
      PrefixStep(images, j - 1);
      PrefixLength(images, i, j - 1);
    }
  }

  lemma EndsAscend(images: seq<seq<byte>>, ends: seq<nat>)
    requires EndsOf(images, ends)
    ensures Ascending(ends)
  {
    forall i, j | 0 <= i <= j < |ends| ensures ends[i] <= ends[j] {
      PrefixLength(images, i + 1, j + 1);
    }
  }

  /** A stretch inside one part is the same stretch of the concatenation. */
  lemma PartSlice(images: seq<seq<byte>>, i: nat, a: nat, n: nat)
    requires i < |images| && a + n <= |images[i]|
    ensures |Flatten(images[..i])| + a + n <= |Flatten(images)|
    ensures Slice(images[i], a, n) == Slice(Flatten(images), |Flatten(images[..i])| + a, n)
  {
    var before, rest := Flatten(images[..i]), Flatten(images[i + 1..]);
    PartOfWhole(images, i);
    SliceInside(before, images[i], rest, a, n);
  }

  lemma SliceInside(before: seq<byte>, part: seq<byte>, rest: seq<byte>, a: nat, n: nat)
    requires a + n <= |part|
    ensures Slice(part, a, n) == Slice(before + part + rest, |before| + a, n)
  {
    var all := before + part + rest;
    assert all[|before|..|before| + |part|] == part;
    SubSlice(all, |before|, |before| + |part|, a, a + n);
  }

  /** Where any answer of the search leads: at or before the position, never past the part. */
  lemma LocateSafe(images: seq<seq<byte>>, ends: seq<nat>, pos: nat, r: SearchResult)
    requires EndsOf(images, ends) && |ends| > 0 && pos < ends[|ends| - 1] && IsSearchResult(ends, pos, r)
    ensures var (index, start) := LocateIn(ends, r);
            && start == |Flatten(images[..index])|
            && start <= pos <= start + |images[index]|
            && (!EmptyPartAt(ends, pos) ==> pos < start + |images[index]|)
            && (!EmptyPartAt(ends, pos) ==> Holds(ends, pos, index, start)) && ends[index] == start + |images[index]|
  {
    EndsAscend(images, ends);
    LocateExact(ends, pos);
    var (index, start) := LocateIn(ends, r);
    PrefixStep(images, index);
    if r.Found? {
      assert index == r.at + 1;
    }
  }

  // -------------------------------------------------------------------- runs

  ghost predicate StreamStep(image: seq<byte>, ends: seq<nat>, c: Cursor, op: Op, outcome: Outcome, c': Cursor) {
    && Moves(image, c, op, outcome, c')
    && (op.DoRead? && outcome.ReadOk? && op.len > 0 && c.position < |image| && !EmptyPartAt(ends, c.position)
        ==> outcome.bytes != [])
  }

  ghost predicate IsStreamRun(image: seq<byte>, ends: seq<nat>, ops: seq<Op>, outcomes: seq<Outcome>, states: seq<Cursor>) {
    && |outcomes| == |ops|
    && |states| == |ops| + 1
    && forall i :: 0 <= i < |ops| ==> StreamStep(image, ends, states[i], ops[i], outcomes[i], states[i + 1])
  }

  lemma IsStreamRunEmpty(image: seq<byte>, ends: seq<nat>, c: Cursor)
    ensures IsStreamRun(image, ends, [], [], [c])
  {
  }

  lemma IsStreamRunSnoc(image: seq<byte>, ends: seq<nat>, ops: seq<Op>, outcomes: seq<Outcome>, states: seq<Cursor>,
                        op: Op, outcome: Outcome, c: Cursor)
    requires IsStreamRun(image, ends, ops, outcomes, states)
    requires StreamStep(image, ends, states[|ops|], op, outcome, c)
    ensures IsStreamRun(image, ends, ops + [op], outcomes + [outcome], states + [c])
  {
    hide StreamStep;
  }

  /** Any seek-free run over the parts returns one unbroken slice of their concatenation. */
  lemma StreamReadsUnbroken(image: seq<byte>, ends: seq<nat>, ops: seq<Op>, outcomes: seq<Outcome>, states: seq<Cursor>)
    requires IsStreamRun(image, ends, ops, outcomes, states)
    requires forall op :: op in ops ==> !op.DoSeek?
    ensures states[|ops|].position == states[0].position + |Delivered(outcomes)|
    ensures Delivered(outcomes) == Slice(image, states[0].position, |Delivered(outcomes)|)
  {
    forall i | 0 <= i < |ops| ensures Moves(image, states[i], ops[i], outcomes[i], states[i + 1]) {
      assert StreamStep(image, ends, states[i], ops[i], outcomes[i], states[i + 1]);
    }
    RunReadsUnbroken(image, ops, outcomes, states);
  }

  class MultiPartReader {
    const parts: seq<SourcePart>
    const ends: seq<nat>
    const totalSize: nat
    const sequentialWindow: nat
    ghost const images: seq<seq<byte>>
    var active: JsReader?
    var activeIndex: nat
    var position: nat
    var sequentialMode: bool

    /** The stream the parts stand for. */
    ghost function Image(): seq<byte> { Flatten(images) }

    ghost function Callbacks(): set<object> { set p | p in parts :: p.readFn }

    ghost function Opened(): set<object>
      reads this
    {
      if active == null then {} else {active}
    }

    /** Facts about the parts that no operation changes. */
    ghost predicate PartsValid() {
      && |parts| == |images| > 0
      && (forall i :: 0 <= i < |parts| ==>
          |images[i]| == parts[i].size <= MAX_EXACT_JS_INT && Honest(parts[i].readFn, 0, images[i]))
      && EndsOf(images, ends)
      && totalSize == |Image()| < TWO_63
    }

    ghost predicate AllReliable() {
      |parts| == |images| && forall i :: 0 <= i < |parts| ==> Reliable(parts[i].readFn, 0, images[i])
    }

    ghost predicate ActiveValid()
      reads this, Opened()
    {
      active != null ==>
        && activeIndex < |parts| == |images|
        && active.Valid()
        && active.image == images[activeIndex]
        && active.baseOffset == 0
        && active.readFn == parts[activeIndex].readFn
        && (active.mode == Sequential <==> sequentialMode)
        && active.seqWindowSize == Window()
    }

    /** The window every part's reader gets: what was asked for, between one byte and 256 MiB. */
    function Window(): (bytes: nat)
      ensures 1 <= bytes <= 0x1000_0000 && (bytes < sequentialWindow ==> bytes == 0x1000_0000)
      ensures bytes > sequentialWindow ==> bytes == 1 && sequentialWindow == 0
    {
      Max(1, Min(sequentialWindow, 256 * 1024 * 1024))
    }

    /** What the open part's window has at a place of part `index`. */
    ghost function WindowLeft(index: nat, posInPart: nat): nat
      reads this, Opened()
    {
      if active != null && activeIndex == index then active.WindowLeft(posInPart) else 0
    }

    ghost predicate Valid()
      reads this, Opened()
    {
      PartsValid() && ActiveValid() && position < TWO_63
    }

    constructor (parts: seq<SourcePart>, sequentialWindow: nat, ghost images: seq<seq<byte>>)
      requires |parts| == |images| > 0 && |Flatten(images)| < TWO_63
      requires forall i :: 0 <= i < |parts| ==>
                 |images[i]| == parts[i].size <= MAX_EXACT_JS_INT && Honest(parts[i].readFn, 0, images[i])
      ensures Valid() && active == null
      ensures this.parts == parts && this.images == images
      ensures position == 0 && !sequentialMode
    {
      var ends: seq<nat> := [];
      var running := 0;
      for i := 0 to |parts|
        invariant |ends| == i
        invariant running == |Flatten(images[..i])|
        invariant forall k :: 0 <= k < i ==> ends[k] == |Flatten(images[..k + 1])|
      {
        PrefixStep(images, i);
        running := running + parts[i].size;
        ends := ends + [running];
      }
      assert images[..|parts|] == images;
      this.parts := parts;
      this.ends := ends;
      this.totalSize := running;
      this.sequentialWindow := sequentialWindow;
      this.images := images;
      active := null;
      activeIndex := 0;
      position := 0;
      sequentialMode := false;
    }

    /** `MultiPartReader::new`: refused only when there is no part at all. */
    static method OpenParts(parts: seq<SourcePart>, sequentialWindow: nat, ghost images: seq<seq<byte>>)
      returns (r: Result<MultiPartReader>)
      requires |parts| == |images| && |Flatten(images)| < TWO_63
      requires forall i :: 0 <= i < |parts| ==>
                 |images[i]| == parts[i].size <= MAX_EXACT_JS_INT && Honest(parts[i].readFn, 0, images[i])
      ensures r.Err? <==> parts == []
      ensures r.Err? ==> r.error == NoParts
      ensures r.Ok? ==> fresh(r.value) && r.value.Valid() && r.value.parts == parts && r.value.images == images
      ensures r.Ok? ==> r.value.active == null && r.value.position == 0 && !r.value.sequentialMode
    {
      if parts == [] {
        return Err(NoParts);
      }
      var reader := new MultiPartReader(parts, sequentialWindow, images);
      return Ok(reader);
    }

    method SetSequentialMode(enabled: bool)
      requires Valid()
      modifies this`sequentialMode, Opened()
      ensures Valid() && sequentialMode == enabled && active == old(active)
    {
      hide Honest, Reliable, PartsValid;
      sequentialMode := enabled;
      if active != null {
        active.SetSequentialMode(enabled);
      }
    }

    /** Opens part `index`, unless it is the one already open, in the mode last asked for. */
    method ReaderFor(index: nat) returns (reader: JsReader)
      requires Valid() && index < |parts|
      modifies this`active, this`activeIndex
      ensures Valid() && reader == active && activeIndex == index
      ensures if old(active) != null && old(activeIndex) == index then active == old(active)
              else fresh(active) && active.seqBuffer == []
    {
      if active == null || activeIndex != index {
        var part := parts[index];
        reader := new JsReader(part.readFn, part.size, 0, images[index]);
        reader.SetSequentialWindow(sequentialWindow);
        reader.SetSequentialMode(sequentialMode);
        active := reader;
        activeIndex := index;
      }
      reader := active;
    }

    /** `Read for MultiPartReader`; a read never crosses into the next part. */
    method Read(buf: array<byte>, at: nat, len: nat) returns (r: Result<nat>)
      requires Valid() && at + len <= buf.Length
      modifies this, Opened(), Callbacks(), buf
      ensures Valid() && sequentialMode == old(sequentialMode)
      ensures active == old(active) || fresh(active)
      ensures r.Err? ==> position == old(position) && buf[..] == old(buf[..]) && FetchFailure(r.error)
      ensures r.Ok? ==> position == old(position) + r.value && r.value <= Max(0, Min(len, totalSize - old(position)))
      ensures r.Ok? ==> buf[..] == Splice(old(buf[..]), at, Slice(Image(), old(position), r.value))
      ensures r.Ok? && len > 0 && old(position) < totalSize && !EmptyPartAt(ends, old(position)) ==> r.value > 0
      ensures r.Ok? && len > 0 && old(position) < totalSize && !EmptyPartAt(ends, old(position)) ==>
                forall i: nat, start: nat :: Holds(ends, old(position), i, start) ==>
                  var n := Min(len, ends[i] - old(position));
                  var left := old(WindowLeft(i, position - start));
                  r.value == if sequentialMode then Min(n, if left > 0 then left else Window()) else n
      ensures AllReliable() ==> r.Ok?
    {
      hide Honest, Reliable, Slice, Splice, FetchFailure, EmptyPartAt, LocateIn, Holds, IsSearchResult, EndsOf, Flatten, JsReader.Valid;
      SliceNothing(Image(), position);
      SpliceNothing(buf[..], at);
      var remainingTotal := Max(0, totalSize - position);
      if remainingTotal == 0 || len == 0 {
        return Ok(0);
      }
      var index, posInPart := Locate();
      var n := Min(len, parts[index].size - posInPart);
      r := ReadPart(index, posInPart, buf, at, n);
      if r.Ok? {
        PartSlice(images, index, posInPart, r.value);
        position := position + r.value;
      }
    }

    /** A read at an offset of one part, which becomes the open one. */
    method ReadPart(index: nat, posInPart: nat, buf: array<byte>, at: nat, n: nat) returns (r: Result<nat>)
      requires Valid() && index < |parts| && posInPart + n <= parts[index].size && at + n <= buf.Length
      modifies this`active, this`activeIndex, Opened(), Callbacks(), buf
      ensures Valid() && (active == old(active) || fresh(active))
      ensures r.Err? ==> buf[..] == old(buf[..]) && FetchFailure(r.error)
      ensures r.Ok? ==>
                var left := old(WindowLeft(index, posInPart));
                r.value == if sequentialMode then Min(n, if left > 0 then left else Window()) else n
      ensures r.Ok? ==> buf[..] == Splice(old(buf[..]), at, Slice(images[index], posInPart, r.value))
      ensures AllReliable() ==> r.Ok?
    {
      hide Honest, Reliable, Slice, Splice, FetchFailure, EndsOf, Flatten, JsReader.Valid;
      var reader := ReaderFor(index);
      var sought := reader.Seek(Start(posInPart));
      r := reader.Read(buf, at, n);
    }

    /** The part to read from at the current position, and the position inside it. */
    method Locate() returns (index: nat, posInPart: nat)
      requires Valid() && position < totalSize
      ensures index < |parts| && posInPart <= parts[index].size
      ensures position == |Flatten(images[..index])| + posInPart
      ensures !EmptyPartAt(ends, position) ==> posInPart < parts[index].size
      ensures |ends| == |parts| && ends[index] - position == parts[index].size - posInPart
      ensures !EmptyPartAt(ends, position) ==>
                forall i: nat, start: nat :: Holds(ends, position, i, start) ==> i == index && position - start == posInPart
    {
      EndsAscend(images, ends);
      assert images[..|images|] == images;
      var found := BinarySearch(ends, position);
      LocateSafe(images, ends, position, found);
      var (i, start) := LocateIn(ends, found);
      if !EmptyPartAt(ends, position) {
        forall j: nat, s: nat | Holds(ends, position, j, s) ensures j == i && s == start {
          HolderUnique(ends, position, j, s, i, start);
        }
      }
      return i, position - start;
    }

    method Seek(pos: SeekFrom) returns (r: Result<nat>)
      requires Valid()
      modifies this`position
      ensures Valid()
      ensures r == SeekRelative(pos, old(position), totalSize)
      ensures position == if r.Ok? then r.value else old(position)
    {
      r := SeekRelative(pos, position, totalSize);
      if r.Ok? {
        position := r.value;
      }
    }

    /**
     Drives the stream through any list of operations. Whatever the part sizes, mode
     changes and failing fetches, all it ever shows is the concatenation, and it makes
     progress before the end wherever no empty part begins.
     */
    method Replay(ops: seq<Op>) returns (outcomes: seq<Outcome>, ghost states: seq<Cursor>)
      requires Valid()
      requires forall op :: op in ops ==> !op.DoWindow?
      modifies this, Opened(), Callbacks()
      ensures Valid()
      ensures IsStreamRun(Image(), ends, ops, outcomes, states)
      ensures states[0] == Cursor(old(position), old(sequentialMode))
      ensures states[|ops|] == Cursor(position, sequentialMode)
      ensures AllReliable() ==> ReadFailed !in outcomes
    {
      hide *;
      outcomes := [];
      states := [Cursor(position, sequentialMode)];
      IsStreamRunEmpty(Image(), ends, states[0]);
      ghost var openBefore := Opened();
      for i := 0 to |ops|
        invariant Valid() && |outcomes| == i && |states| == i + 1
        invariant Opened() == openBefore || fresh(Opened())
        invariant IsStreamRun(Image(), ends, ops[..i], outcomes, states)
        invariant states[0] == Cursor(old(position), old(sequentialMode))
        invariant states[i] == Cursor(position, sequentialMode)
        invariant AllReliable() ==> ReadFailed !in outcomes
      {
        var outcome := Apply(ops[i]);
        IsStreamRunSnoc(Image(), ends, ops[..i], outcomes, states, ops[i], outcome, Cursor(position, sequentialMode));
        assert ops[..i] + [ops[i]] == ops[..i + 1];
        outcomes := outcomes + [outcome];
        states := states + [Cursor(position, sequentialMode)];
      }
      assert ops[..|ops|] == ops;
    }

    method Apply(op: Op) returns (outcome: Outcome)
      requires Valid() && !op.DoWindow?
      modifies this, Opened(), Callbacks()
      ensures Valid()
      ensures Opened() == old(Opened()) || fresh(Opened())
      ensures StreamStep(Image(), ends, Cursor(old(position), old(sequentialMode)), op, outcome,
                         Cursor(position, sequentialMode))
      ensures AllReliable() ==> outcome != ReadFailed
    {
      hide Honest, Reliable, ActiveValid, EmptyPartAt, EndsOf;
      match op {
        case DoRead(len) =>
          var buf := new byte[len];
          var got := Read(buf, 0, len);
          if got.Err? {
            return ReadFailed;
          }
          assert buf[..got.value] == buf[..][..got.value] == Slice(Image(), old(position), got.value);
          return ReadOk(buf[..got.value]);
        case DoSeek(pos) =>
          var target := Seek(pos);
          SeeksAgree(pos, old(position), totalSize);
          return SeekDone(target);
        case DoMode(sequential) =>
          SetSequentialMode(sequential);
          return Done;
      }
    }
  }
}
