/**
 The on-demand reader: a sparse block cache and a sequential window in front of a
 JavaScript callback, both refining "a slice of the file".
 */
module Reader {
  import opened Common

  const BLOCK_SIZE: nat := 65536
  const DEFAULT_SEQ_WINDOW: nat := 8 * 1024 * 1024
  const MAX_SEQ_WINDOW: nat := 256 * 1024 * 1024
  const MAX_STREAK_PREFETCH_BYTES: nat := 2 * 1024 * 1024
  const MAX_STREAK_PREFETCH_BLOCKS: nat := MAX_STREAK_PREFETCH_BYTES / BLOCK_SIZE
  const STREAK_THRESHOLD: nat := 3
  const MAX_RESIDENT_BLOCKS: nat := 512
  const MAX_EXACT_JS_INT: nat := 0x20_0000_0000_0000
  const TWO_63: int := 0x8000_0000_0000_0000
  const TWO_64: int := 0x1_0000_0000_0000_0000

  type u64 = n: int | 0 <= n < 0x1_0000_0000_0000_0000
  type i64 = n: int | -0x8000_0000_0000_0000 <= n < 0x8000_0000_0000_0000

  datatype ReadMode = Cached | Sequential

  datatype SeekFrom = Start(at: u64) | End(delta: i64) | Current(delta: i64)

  // ---------------------------------------------------------------- the callback

  /** What one call of the JavaScript read function may do. */
  datatype Response = Threw | NotAnArray | Bytes(data: seq<byte>)

  /**
   The JavaScript read function. Its answer may depend on how often it has been
   called, so any sequence of failures and short or overlong arrays is possible.
   */
  class Callback {
    const respond: (nat, nat, nat) -> Response
    var calls: nat

    constructor (respond: (nat, nat, nat) -> Response)
      ensures this.respond == respond && calls == 0
    {
      this.respond := respond;
      calls := 0;
    }

    method Call(offset: nat, length: nat) returns (r: Response)
      modifies this
      ensures calls == old(calls) + 1
      ensures r == respond(old(calls), offset, length)
    {
      r := respond(calls, offset, length);
      calls := calls + 1;
    }
  }

  /** The ways one round trip can fail. */
  predicate FetchFailure(e: Error) {
    e == OffsetTooLarge || e == CallbackThrew || e == NotBytes || e == OverlongRead || e == ShortRead
  }

  /** Whenever the callback delivers as many bytes as were asked for, they are the file's. */
  ghost predicate Honest(fn: Callback, base: nat, image: seq<byte>) {
    forall t: nat, off: nat, len: nat ::
      base <= off && off + len <= base + |image| &&
      fn.respond(t, off, len).Bytes? && |fn.respond(t, off, len).data| == len ==>
        fn.respond(t, off, len).data == image[off - base..off - base + len]
  }

  /** The callback never fails on a range inside the file. */
  ghost predicate Reliable(fn: Callback, base: nat, image: seq<byte>) {
    forall t: nat, off: nat, len: nat ::
      base <= off && off + len <= base + |image| ==>
        fn.respond(t, off, len).Bytes? && |fn.respond(t, off, len).data| == len
  }

  // ------------------------------------------------------------------ blocks

  /** The bytes block `b` must hold: its part of the image, clipped at the end. */
  function Block(image: seq<byte>, b: nat): seq<byte> {
    image[Min(b * BLOCK_SIZE, |image|)..Min((b + 1) * BLOCK_SIZE, |image|)]
  }

  /** Eviction order: older tick first, ties by block index; a block never stamped is oldest. */
  predicate Colder(touched: map<nat, nat>, a: nat, b: nat) {
    var ta := if a in touched then touched[a] else 0;
    var tb := if b in touched then touched[b] else 0;
    ta < tb || (ta == tb && a < b)
  }

  /** The block used longer ago goes first; two of the same tick go by index, and a block no request has stamped before any other. */
  lemma ColderMeaning(touched: map<nat, nat>, a: nat, b: nat)
    ensures a in touched && b in touched ==> (Colder(touched, a, b) <==> touched[a] < touched[b] || (touched[a] == touched[b] && a < b))
    ensures a !in touched && b in touched && touched[b] > 0 ==> Colder(touched, a, b) && !Colder(touched, b, a)
    ensures a !in touched && b !in touched ==> (Colder(touched, a, b) <==> a < b)
  {
  }

  ghost predicate ColdestFirst(touched: map<nat, nat>, order: seq<nat>) {
    forall i, j :: 0 <= i < j < |order| ==> Colder(touched, order[i], order[j])
  }

  /** Cutting a coldest-first order: no repetition, and the front is colder than the rest. */
  lemma ColdPrefix(touched: map<nat, nat>, order: seq<nat>, n: nat)
    requires ColdestFirst(touched, order) && n <= |order|
    ensures forall i, j :: 0 <= i < j < |order| ==> order[i] != order[j]
    ensures forall e, s :: e in order[..n] && s in order && s !in order[..n] ==> Colder(touched, e, s)
  {
    forall i, j | 0 <= i < j < |order| ensures order[i] != order[j] {
      assert Colder(touched, order[i], order[j]);
    }
    forall e, s | e in order[..n] && s in order && s !in order[..n] ensures Colder(touched, e, s) {
      var i :| 0 <= i < n && order[i] == e;
      assert order == order[..n] + order[n..];
      var j :| n <= j < |order| && order[j] == s;
    }
  }

  /** `candidates` as a sequence, coldest block first. */
  method SortColdestFirst(touched: map<nat, nat>, candidates: set<nat>) returns (order: seq<nat>)
    ensures ColdestFirst(touched, order)
    ensures forall k :: k in order <==> k in candidates
    ensures |order| == |candidates|
  {
    order := [];
    var rest := candidates;
    while rest != {}
      invariant rest <= candidates
      invariant ColdestFirst(touched, order)
      invariant forall k :: k in order <==> k in candidates - rest
      invariant |order| + |rest| == |candidates|
    {
      var k :| k in rest;
      assert k !in order;
      rest := rest - {k};
      var i := 0;
      while i < |order| && Colder(touched, order[i], k)
        invariant 0 <= i <= |order|
        invariant forall j :: 0 <= j < i ==> Colder(touched, order[j], k)
      {
        i := i + 1;
      }
      assert forall j :: i <= j < |order| ==> Colder(touched, k, order[j]) by {
        assert i < |order| ==> order[i] in order && order[i] != k && Colder(touched, k, order[i]);
      }
      ghost var before := order;
      order := order[..i] + [k] + order[i..];
      assert forall x :: x in order <==> x in before || x == k by {
        assert before == before[..i] + before[i..];
      }
    }
  }

  /** Every resident block holds exactly its bytes; ticks belong to resident blocks. */
  ghost predicate CacheValid(image: seq<byte>, blocks: map<nat, seq<byte>>, touched: map<nat, nat>, clock: nat) {
    && (forall b :: b in blocks ==> blocks[b] == Block(image, b))
    && (forall b :: b in touched ==> b in blocks)
    && (forall b :: b in touched ==> touched[b] <= clock)
  }

  /**
   `kept` is `blocks` after an eviction: `protect` was spared, every block that went is
   colder than every unprotected block that stayed, and the ticks followed the blocks.
   */
  ghost predicate Evicted(blocks: map<nat, seq<byte>>, touched: map<nat, nat>,
                          kept: map<nat, seq<byte>>, keptTouched: map<nat, nat>, protect: set<nat>) {
    && (forall k :: k in kept ==> k in blocks && kept[k] == blocks[k])
    && (forall k :: k in protect && k in blocks ==> k in kept)
    && (forall e, s :: e in blocks && e !in kept && s in kept && s !in protect ==> Colder(touched, e, s))
    && (forall k :: k in keptTouched <==> k in touched && (k in blocks ==> k in kept))
    && (forall k :: k in keptTouched ==> keptTouched[k] == touched[k])
  }

  lemma NothingEvicted(blocks: map<nat, seq<byte>>, touched: map<nat, nat>, protect: set<nat>)
    ensures Evicted(blocks, touched, blocks, touched, protect)
  {
  }

  /** Room for `incoming` more blocks, unless everything resident is protected. */
  ghost predicate Roomy(blocks: map<nat, seq<byte>>, incoming: nat, protect: set<nat>) {
    |blocks| + incoming <= MAX_RESIDENT_BLOCKS || (forall k :: k in blocks ==> k in protect)
  }

  /**
   Frees the coldest unprotected blocks, `need` of them or all there are. Every
   block removed is colder than every unprotected block that stays.
   */
  method EvictColdest(blocks: map<nat, seq<byte>>, touched: map<nat, nat>, need: nat, protect: set<nat>,
                      ghost image: seq<byte>, ghost clock: nat)
    returns (kept: map<nat, seq<byte>>, keptTouched: map<nat, nat>)
    requires CacheValid(image, blocks, touched, clock)
    ensures CacheValid(image, kept, keptTouched, clock)
    ensures Evicted(blocks, touched, kept, keptTouched, protect)
    ensures |kept| + need == |blocks| || (forall k :: k in kept ==> k in protect)
    ensures |kept| + need >= |blocks|
  {
    hide CacheValid, Evicted, ColdestFirst;
    var order := SortColdestFirst(touched, blocks.Keys - protect);
    var freed := Min(need, |order|);
    kept, keptTouched := blocks, touched;
    for i := 0 to freed
      invariant forall k :: k in kept <==> k in blocks && k !in order[..i]
      invariant forall k :: k in kept ==> kept[k] == blocks[k]
      invariant forall k :: k in keptTouched <==> k in touched && k !in order[..i]
      invariant forall k :: k in keptTouched ==> keptTouched[k] == touched[k]
    {
      assert order[..i + 1] == order[..i] + [order[i]];
      kept := kept - {order[i]};
      keptTouched := keptTouched - {order[i]};
    }
    EvictedInOrder(blocks, touched, kept, keptTouched, order, freed, protect);
    EvictedValid(image, clock, blocks, touched, kept, keptTouched, protect);
    assert freed == |order| ==> order[..freed] == order;
  }

  lemma EvictedInOrder(blocks: map<nat, seq<byte>>, touched: map<nat, nat>,
                       kept: map<nat, seq<byte>>, keptTouched: map<nat, nat>,
                       order: seq<nat>, freed: nat, protect: set<nat>)
    requires ColdestFirst(touched, order) && freed <= |order|
    requires forall k :: k in order <==> k in blocks && k !in protect
    requires forall k :: k in kept <==> k in blocks && k !in order[..freed]
    requires forall k :: k in kept ==> kept[k] == blocks[k]
    requires forall k :: k in keptTouched <==> k in touched && k !in order[..freed]
    requires forall k :: k in keptTouched ==> keptTouched[k] == touched[k]
    ensures Evicted(blocks, touched, kept, keptTouched, protect)
    ensures |kept| == |blocks| - freed
  {
    ColdPrefix(touched, order, freed);
    hide Colder, ColdestFirst;
    forall k | k in order[..freed] ensures k in order {}
    EvictionCount(blocks.Keys, kept.Keys, order[..freed]);
  }

  lemma EvictedValid(image: seq<byte>, clock: nat, blocks: map<nat, seq<byte>>, touched: map<nat, nat>,
                     kept: map<nat, seq<byte>>, keptTouched: map<nat, nat>, protect: set<nat>)
    requires CacheValid(image, blocks, touched, clock)
    requires Evicted(blocks, touched, kept, keptTouched, protect)
    ensures CacheValid(image, kept, keptTouched, clock)
  {
    hide Block, Colder;
  }

  lemma {:induction false} EvictionCount(all: set<nat>, kept: set<nat>, gone: seq<nat>)
    requires forall k :: k in kept <==> k in all && k !in gone
    requires forall k :: k in gone ==> k in all
    requires forall i, j :: 0 <= i < j < |gone| ==> gone[i] != gone[j]
    ensures |kept| == |all| - |gone|
    decreases |gone|
  {
    if gone == [] {
      assert kept == all;
    } else {
      var last := gone[|gone| - 1];
      var init := gone[..|gone| - 1];
      assert gone == init + [last];
      EvictionCount(all, kept + {last}, init);
    }
  }

  /** `grown` is `blocks` with blocks `[first, last]` added where they were missing. */
  ghost predicate Inserted(image: seq<byte>, blocks: map<nat, seq<byte>>, grown: map<nat, seq<byte>>, first: nat, last: nat) {
    && (forall k :: k in blocks ==> k in grown && grown[k] == blocks[k])
    && (forall k :: k in grown && k !in blocks ==> grown[k] == Block(image, k))
    && (forall k :: k in grown <==> k in blocks || first <= k <= last)
  }

  /**
   Cuts the first `n` fetched bytes into blocks `[first, last]` and caches those not
   yet resident; a block past the fetched bytes is cached empty.
   */
  method InsertBlocks(blocks: map<nat, seq<byte>>, scratch: seq<byte>, n: nat, first: nat, last: nat,
                      protect: set<nat>, ghost image: seq<byte>)
    returns (grown: map<nat, seq<byte>>, protected: set<nat>)
    requires first <= last && n <= |scratch|
    requires n == Max(0, Min((last + 1) * BLOCK_SIZE, |image|) - first * BLOCK_SIZE)
    requires n > 0 ==> scratch[..n] == image[first * BLOCK_SIZE..first * BLOCK_SIZE + n]
    ensures Inserted(image, blocks, grown, first, last)
    ensures protected == protect + Range(first, last + 1)
  {
    grown, protected := blocks, protect;
    for b := first to last + 1
      invariant forall k :: k in blocks ==> k in grown && grown[k] == blocks[k]
      invariant forall k :: k in grown && k !in blocks ==> grown[k] == Block(image, k)
      invariant forall k :: k in grown <==> k in blocks || first <= k < b
      invariant protected == protect + Range(first, b)
    {
      var startInRange := (b - first) * BLOCK_SIZE;
      var bytes: seq<byte> := [];
      if startInRange < n {
        bytes := scratch[startInRange..Min(startInRange + BLOCK_SIZE, n)];
      }
      BlockOfFetch(image, scratch, n, first, last, b);
      if b !in grown {
        grown := grown[b := bytes];
      }
      protected := protected + {b};
    }
  }

  /** The part of a coalesced fetch that belongs to block `b` is that block. */
  lemma BlockOfFetch(image: seq<byte>, scratch: seq<byte>, n: nat, first: nat, last: nat, b: nat)
    requires first <= b <= last && n <= |scratch|
    requires n == Max(0, Min((last + 1) * BLOCK_SIZE, |image|) - first * BLOCK_SIZE)
    requires n > 0 ==> scratch[..n] == image[first * BLOCK_SIZE..first * BLOCK_SIZE + n]
    ensures (b - first) * BLOCK_SIZE >= n ==> Block(image, b) == []
    ensures (b - first) * BLOCK_SIZE < n ==>
              Block(image, b) == scratch[(b - first) * BLOCK_SIZE..Min((b - first) * BLOCK_SIZE + BLOCK_SIZE, n)]
  {
    var start := (b - first) * BLOCK_SIZE;
    if start < n {
      var stop := Min(start + BLOCK_SIZE, n);
      SubSlice(scratch, 0, n, start, stop);
      SubSlice(image, first * BLOCK_SIZE, first * BLOCK_SIZE + n, start, stop);
    }
  }

  /** What one coalesced fetch may do to the cache, given what was resident before. */
  ghost predicate Fetched(before: map<nat, seq<byte>>, touched: map<nat, nat>,
                          after: map<nat, seq<byte>>, touchedAfter: map<nat, nat>,
                          first: nat, last: nat, protect: set<nat>) {
    && Evicted(before, touched, after - Range(first, last + 1), touchedAfter, protect)
    && (forall b :: first <= b <= last ==> b in after)
    && (|after| <= MAX_RESIDENT_BLOCKS || (forall k :: k in after ==> k in protect || first <= k <= last))
  }

  lemma FetchedBy(image: seq<byte>,
                  before: map<nat, seq<byte>>, touched: map<nat, nat>,
                  kept: map<nat, seq<byte>>, keptTouched: map<nat, nat>,
                  after: map<nat, seq<byte>>, first: nat, last: nat, protect: set<nat>)
    requires first <= last && forall b :: first <= b <= last ==> b !in before
    requires Evicted(before, touched, kept, keptTouched, protect)
    requires Roomy(kept, last - first + 1, protect)
    requires Inserted(image, kept, after, first, last)
    ensures Fetched(before, touched, after, keptTouched, first, last, protect)
    ensures |after| == |kept| + (last - first + 1)
  {
    hide Block;
    assert after - Range(first, last + 1) == kept by {
      assert forall k :: k in kept ==> !(first <= k <= last);
    }
    assert forall b :: first <= b <= last ==> b !in kept;
    hide Evicted;
    InsertedCount(image, kept, after, first, last);
  }

  lemma InsertedValid(image: seq<byte>, clock: nat, touched: map<nat, nat>,
                      blocks: map<nat, seq<byte>>, grown: map<nat, seq<byte>>, first: nat, last: nat)
    requires CacheValid(image, blocks, touched, clock) && Inserted(image, blocks, grown, first, last)
    ensures CacheValid(image, grown, touched, clock)
  {
  }

  lemma BlocksArrive(image: seq<byte>, clock: nat,
                     before: map<nat, seq<byte>>, touched: map<nat, nat>,
                     kept: map<nat, seq<byte>>, keptTouched: map<nat, nat>,
                     after: map<nat, seq<byte>>, first: nat, last: nat, protect: set<nat>)
    requires first <= last && forall b :: first <= b <= last ==> b !in before
    requires Evicted(before, touched, kept, keptTouched, protect) && CacheValid(image, kept, keptTouched, clock)
    requires Roomy(kept, last - first + 1, protect)
    requires Inserted(image, kept, after, first, last)
    ensures Fetched(before, touched, after, keptTouched, first, last, protect) && CacheValid(image, after, keptTouched, clock)
    ensures |after| == |kept| + (last - first + 1)
  {
    hide *;
    FetchedBy(image, before, touched, kept, keptTouched, after, first, last, protect);
    InsertedValid(image, clock, keptTouched, kept, after, first, last);
  }

  lemma InsertedCount(image: seq<byte>, blocks: map<nat, seq<byte>>, grown: map<nat, seq<byte>>, first: nat, last: nat)
    requires first <= last && Inserted(image, blocks, grown, first, last) && forall b :: first <= b <= last ==> b !in blocks
    ensures |grown| == |blocks| + (last - first + 1)
  {
    var r := Range(first, last + 1);
    RangeCount(first, last + 1);
    InsertedKeys(image, blocks, grown, first, last);
    assert |blocks| == |blocks.Keys| && |grown| == |grown.Keys|;
    hide *;
    assert |blocks.Keys + r| == |blocks.Keys| + |r|;
  }

  lemma InsertedKeys(image: seq<byte>, blocks: map<nat, seq<byte>>, grown: map<nat, seq<byte>>, first: nat, last: nat)
    requires first <= last && Inserted(image, blocks, grown, first, last) && forall b :: first <= b <= last ==> b !in blocks
    ensures grown.Keys == blocks.Keys + Range(first, last + 1) && blocks.Keys !! Range(first, last + 1)
  {
    hide Block;
  }

  // ------------------------------------------- one request over the cache

  /** First and last block of a request `[absPos, absPos + len)` clipped to the file. */
  function FirstBlock(absPos: nat): nat { absPos / BLOCK_SIZE }

  function LastBlock(absPos: nat, len: nat, size: nat): nat
    requires absPos < size && len > 0
  {
    (Min(absPos + len, size) - 1) / BLOCK_SIZE
  }

  ghost predicate Covered(blocks: map<nat, seq<byte>>, first: nat, last: nat) {
    forall k :: first <= k <= last ==> k in blocks
  }

  /**
   State of a request for `[first, last]` that started from cache `before` and has
   dealt with the blocks below `next`: nothing the request needs was or will be evicted.
   */
  ghost predicate Serving(before: map<nat, seq<byte>>, touched: map<nat, nat>,
                          blocks: map<nat, seq<byte>>, touchedNow: map<nat, nat>,
                          protect: set<nat>, first: nat, last: nat, next: nat) {
    && (forall k :: first <= k < next ==> k in blocks)
    && (forall k :: first <= k <= last && k in blocks ==> k in protect)
    && (forall k :: k in protect ==> k in blocks && first <= k)
    && ColderGone(before, touched, blocks, protect)
    && (forall k :: k in blocks && k !in protect ==> k in before && SameTick(touched, touchedNow, k))
  }

  predicate SameTick(touched: map<nat, nat>, touchedNow: map<nat, nat>, k: nat) {
    (k in touched <==> k in touchedNow) && (k in touched ==> touched[k] == touchedNow[k])
  }

  /** Whatever of `before` is gone is colder than every block this request did not touch. */
  ghost predicate ColderGone(before: map<nat, seq<byte>>, touched: map<nat, nat>,
                             blocks: map<nat, seq<byte>>, used: set<nat>) {
    forall e, s :: e in before && e !in blocks && s in blocks && s !in used ==> Colder(touched, e, s)
  }

  /** Residency after a request that fetched: the limit, or the request plus its prefetch. */
  ghost predicate Bounded(blocks: map<nat, seq<byte>>, first: nat, last: nat) {
    |blocks| <= Max(MAX_RESIDENT_BLOCKS, (last - first + 1) + MAX_STREAK_PREFETCH_BLOCKS)
  }

  lemma RequestInside(absPos: nat, len: nat, size: nat)
    requires absPos < size && len > 0
    ensures FirstBlock(absPos) <= LastBlock(absPos, len, size)
    ensures LastBlock(absPos, len, size) * BLOCK_SIZE < size
  {
  }

  lemma ServingStarts(blocks: map<nat, seq<byte>>, touched: map<nat, nat>, protect: set<nat>, first: nat, last: nat)
    requires forall k :: k in protect <==> first <= k <= last && k in blocks
    ensures Serving(blocks, touched, blocks, touched, protect, first, last, first)
  {
  }

  lemma ServingSkips(before: map<nat, seq<byte>>, touched: map<nat, nat>,
                     blocks: map<nat, seq<byte>>, touchedNow: map<nat, nat>, used: set<nat>,
                     first: nat, last: nat, b: nat)
    requires Serving(before, touched, blocks, touchedNow, used, first, last, b) && b in blocks
    ensures Serving(before, touched, blocks, touchedNow, used, first, last, b + 1)
  {
    hide ColderGone, SameTick;
  }

  /** Gives every block of `used` the tick of the request. */
  function Stamp(touched: map<nat, nat>, used: set<nat>, tick: nat): map<nat, nat> {
    touched + map k | k in used :: tick
  }

  ghost function StampedAt(touched: map<nat, nat>, tick: nat): set<nat> {
    set k | k in touched && touched[k] == tick
  }

  ghost predicate StampedFor(blocks: map<nat, seq<byte>>, touched: map<nat, nat>, tick: nat, first: nat, last: nat) {
    forall k :: first <= k <= last ==> k in touched && touched[k] == tick
  }

  lemma RequestServed(image: seq<byte>, before: map<nat, seq<byte>>, touched: map<nat, nat>,
                      blocks: map<nat, seq<byte>>, touchedNow: map<nat, nat>, used: set<nat>,
                      first: nat, last: nat, tick: nat)
    requires tick > 0 && CacheValid(image, blocks, touchedNow, tick - 1)
    requires Serving(before, touched, blocks, touchedNow, used, first, last, last + 1)
    ensures CacheValid(image, blocks, Stamp(touchedNow, used, tick), tick)
    ensures Covered(blocks, first, last)
    ensures StampedFor(blocks, Stamp(touchedNow, used, tick), tick, first, last)
    ensures ColderGone(before, touched, blocks, StampedAt(Stamp(touchedNow, used, tick), tick))
  {
    hide Block, Colder;
    assert StampedAt(Stamp(touchedNow, used, tick), tick) == used;
  }

  lemma ServingFetched(before: map<nat, seq<byte>>, touched: map<nat, nat>,
                       blocks: map<nat, seq<byte>>, touchedNow: map<nat, nat>, protect: set<nat>,
                       after: map<nat, seq<byte>>, touchedAfter: map<nat, nat>,
                       first: nat, last: nat, b: nat, runEnd: nat, fetchLast: nat)
    requires first <= b <= runEnd <= fetchLast && runEnd <= last
    requires Serving(before, touched, blocks, touchedNow, protect, first, last, b)
    requires forall k :: b <= k <= fetchLast ==> k !in blocks
    requires Fetched(blocks, touchedNow, after, touchedAfter, b, fetchLast, protect)
    ensures Serving(before, touched, after, touchedAfter, protect + Range(b, fetchLast + 1), first, last, runEnd + 1)
  {
    hide Colder;
    ServingSurvivors(before, touched, blocks, touchedNow, protect, after, touchedAfter, first, last, b, fetchLast);
    ServingLru(before, touched, blocks, touchedNow, protect, after, touchedAfter, first, last, b, fetchLast);
  }

  lemma ServingSurvivors(before: map<nat, seq<byte>>, touched: map<nat, nat>,
                         blocks: map<nat, seq<byte>>, touchedNow: map<nat, nat>, protect: set<nat>,
                         after: map<nat, seq<byte>>, touchedAfter: map<nat, nat>,
                         first: nat, last: nat, b: nat, fetchLast: nat)
    requires Serving(before, touched, blocks, touchedNow, protect, first, last, b)
    requires forall k :: b <= k <= fetchLast ==> k !in blocks
    requires Fetched(blocks, touchedNow, after, touchedAfter, b, fetchLast, protect)
    ensures forall k :: k in after && !(b <= k <= fetchLast) ==> k in blocks
    ensures forall k :: k in protect ==> k in after
    ensures forall k :: k in after && !(b <= k <= fetchLast) && k !in protect ==>
              k in before && SameTick(touched, touchedAfter, k)
  {
    hide ColderGone, Colder;
    var kept := after - Range(b, fetchLast + 1);
    assert forall k :: k in kept <==> k in after && !(b <= k <= fetchLast);
  }

  lemma ServingLru(before: map<nat, seq<byte>>, touched: map<nat, nat>,
                   blocks: map<nat, seq<byte>>, touchedNow: map<nat, nat>, protect: set<nat>,
                   after: map<nat, seq<byte>>, touchedAfter: map<nat, nat>,
                   first: nat, last: nat, b: nat, fetchLast: nat)
    requires Serving(before, touched, blocks, touchedNow, protect, first, last, b)
    requires forall k :: b <= k <= fetchLast ==> k !in blocks
    requires Fetched(blocks, touchedNow, after, touchedAfter, b, fetchLast, protect)
    ensures ColderGone(before, touched, after, protect + Range(b, fetchLast + 1))
  {
    var kept := after - Range(b, fetchLast + 1);
    forall e, s | e in before && e !in after && s in after && s !in protect + Range(b, fetchLast + 1)
      ensures Colder(touched, e, s)
    {
      assert s in kept && s in blocks;
      if e in blocks {
        assert e !in kept && e !in protect;
        assert Colder(touchedNow, e, s);
        assert SameTick(touched, touchedNow, e) && SameTick(touched, touchedNow, s);
      }
    }
  }

  lemma ServingBounded(blocks: map<nat, seq<byte>>, touched: map<nat, nat>,
                       after: map<nat, seq<byte>>, touchedAfter: map<nat, nat>, protect: set<nat>,
                       first: nat, last: nat, b: nat, fetchLast: nat)
    requires Fetched(blocks, touched, after, touchedAfter, b, fetchLast, protect)
    requires first <= b && first <= last && fetchLast <= last + MAX_STREAK_PREFETCH_BLOCKS
    requires forall k :: k in protect ==> first <= k <= last
    ensures Bounded(after, first, last)
  {
    hide Evicted;
    if |after| > MAX_RESIDENT_BLOCKS {
      IntervalBound(after.Keys, first, last + MAX_STREAK_PREFETCH_BLOCKS + 1);
      assert |after| == |after.Keys|;
    }
  }

  // -------------------------------------------------------------- round trips

  /** How many maximal runs of missing blocks `[first, last]` holds, counted at their ends. */
  function MissingRuns(blocks: map<nat, seq<byte>>, first: nat, last: nat): nat
    decreases last + 1 - first
  {
    if first > last then 0
    else (if first !in blocks && (first == last || first + 1 in blocks) then 1 else 0) + MissingRuns(blocks, first + 1, last)
  }

  /** No run is missing exactly when everything is resident. */
  lemma {:induction false} NoMissingRuns(blocks: map<nat, seq<byte>>, first: nat, last: nat)
    ensures MissingRuns(blocks, first, last) == 0 <==> Covered(blocks, first, last)
    decreases last + 1 - first
  {
    if first <= last {
      NoMissingRuns(blocks, first + 1, last);
    }
  }

  /** A whole run counts once. */
  lemma {:induction false} MissingRunCounts(blocks: map<nat, seq<byte>>, first: nat, runEnd: nat, last: nat)
    requires first <= runEnd <= last && (forall k :: first <= k <= runEnd ==> k !in blocks)
    requires runEnd < last ==> runEnd + 1 in blocks
    ensures MissingRuns(blocks, first, last) == 1 + MissingRuns(blocks, runEnd + 1, last)
    decreases runEnd - first
  {
    if first < runEnd {
      MissingRunCounts(blocks, first + 1, runEnd, last);
    }
  }

  /** What a cached read of `len` bytes at `position` costs. */
  function CachedTrips(blocks: map<nat, seq<byte>>, position: nat, len: nat, size: nat): nat {
    if len == 0 || position >= size then 0
    else MissingRuns(blocks, FirstBlock(position), LastBlock(position, Min(size - position, len), size))
  }

  /** Nothing if all its blocks are resident, and one round trip if none of them is. */
  lemma CachedTripsMeaning(blocks: map<nat, seq<byte>>, position: nat, len: nat, size: nat)
    ensures len == 0 || position >= size ==> CachedTrips(blocks, position, len, size) == 0
    ensures len > 0 && position < size ==>
              var first, last := position / 65536, (Min(position + len, size) - 1) / 65536;
              && (CachedTrips(blocks, position, len, size) == 0 <==> forall k :: first <= k <= last ==> k in blocks)
              && ((forall k :: first <= k <= last ==> k !in blocks) ==> CachedTrips(blocks, position, len, size) == 1)
  {
    if len > 0 && position < size {
      RequestInside(position, len, size);
      var first, last := FirstBlock(position), LastBlock(position, len, size);
      assert last == LastBlock(position, Min(size - position, len), size);
      NoMissingRuns(blocks, first, last);
      if forall k :: first <= k <= last ==> k !in blocks {
        MissingRunCounts(blocks, first, last, last);
      }
    }
  }

  /** What a sequential read delivers: no more than asked, than the file has left, than the window has, old or refilled. */
  function SequentialCount(windowLeft: nat, windowSize: nat, len: nat, fileLeft: nat): (n: nat)
    ensures n <= len && n <= fileLeft && (windowLeft > 0 ==> n <= windowLeft) && (windowLeft == 0 ==> n <= windowSize)
    ensures n == len || n == fileLeft || (windowLeft > 0 && n == windowLeft) || (windowLeft == 0 && n == windowSize)
  {
    Min(Min(len, fileLeft), if windowLeft > 0 then windowLeft else windowSize)
  }

  /** What a sequential read costs: one refill unless the window reaches the position. */
  function SequentialTrips(covered: bool, position: nat, len: nat, size: nat): (n: nat)
    ensures n <= 1 && (n == 1 <==> len > 0 && position < size && !covered)
  {
    if len == 0 || position >= size || covered then 0 else 1
  }

  /** From block `next` on, the request finds what it would have found at its start. */
  ghost predicate Ahead(before: map<nat, seq<byte>>, blocks: map<nat, seq<byte>>, next: nat, last: nat) {
    forall k :: next <= k <= last ==> (k in blocks <==> k in before)
  }

  /** Nothing has become resident but blocks of the request. */
  ghost predicate NothingBeyond(before: map<nat, seq<byte>>, blocks: map<nat, seq<byte>>, first: nat, last: nat) {
    forall k :: k in blocks ==> k in before || first <= k <= last
  }

  /**
   A cache that was full when the request came: it still is, any fetch has ended its streak,
   and without a streak nothing beyond the request has been fetched.
   */
  ghost predicate FullStays(before: map<nat, seq<byte>>, blocks: map<nat, seq<byte>>, streakBefore: nat, streak: nat, fetched: bool,
                            first: nat, last: nat) {
    |before| >= MAX_RESIDENT_BLOCKS ==>
      && |blocks| >= MAX_RESIDENT_BLOCKS && streak == (if fetched then 0 else streakBefore)
      && (streakBefore == 0 ==> NothingBeyond(before, blocks, first, last))
  }

  lemma FullStarts(blocks: map<nat, seq<byte>>, streak: nat, first: nat, last: nat)
    ensures FullStays(blocks, blocks, streak, streak, false, first, last)
  {
  }

  lemma FullFetches(before: map<nat, seq<byte>>, streakBefore: nat,
                    was: map<nat, seq<byte>>, touched: map<nat, nat>, streak: nat, fetched: bool,
                    after: map<nat, seq<byte>>, touchedAfter: map<nat, nat>, streakAfter: nat,
                    b: nat, runEnd: nat, fetchLast: nat, protect: set<nat>, first: nat, last: nat)
    requires FullStays(before, was, streakBefore, streak, fetched, first, last) && first <= b && runEnd <= last
    requires Fetched(was, touched, after, touchedAfter, b, fetchLast, protect)
    requires |was| >= MAX_RESIDENT_BLOCKS ==> streakAfter == 0 && |after| >= MAX_RESIDENT_BLOCKS
    requires streak == 0 ==> fetchLast == runEnd
    ensures FullStays(before, after, streakBefore, streakAfter, true, first, last)
  {
    var kept := after - Range(b, fetchLast + 1);
    assert forall k :: k in after && !(b <= k <= fetchLast) ==> k in kept;
  }

  // ----------------------------------------------------------------- reading ahead

  /** How many runs in a row a fetch at `b` makes: one more if it begins right behind the last one. */
  function RunsInARow(endedAt: Option<nat>, streak: nat, b: nat): nat {
    if endedAt == Some(if b == 0 then 0xFFFF_FFFF_FFFF_FFFF else b - 1) then streak + 1 else 1
  }

  /**
   The fetch of the missing run `[b, runEnd]` goes on to block `far`: from the third run in a row
   on, up to 32 more blocks, as long as they are missing and begin inside the file. The row is
   broken where the fetch does not fit into the cache.
   */
  ghost predicate RunFetched(blocks: map<nat, seq<byte>>, endedAt: Option<nat>, streak: nat, b: nat, runEnd: nat, size: nat,
                             far: nat, streakAfter: nat) {
    var row := RunsInARow(endedAt, streak, b);
    && runEnd <= far <= runEnd + 32 && (row < 3 ==> far == runEnd)
    && (forall k :: runEnd < k <= far ==> k !in blocks && k * 65536 < size)
    && (row >= 3 ==> far == runEnd + 32 || far + 1 in blocks || (far + 1) * 65536 >= size)
    && streakAfter == if |blocks| + (far - b + 1) > 512 then 0 else row
  }

  /**
   Reading on through missing blocks: of three runs fetched one behind the other the first two
   fetch themselves alone, and the third reads ahead as soon as there is anything to read.
   */
  lemma ThirdRunReadsAhead(c1: map<nat, seq<byte>>, c2: map<nat, seq<byte>>, c3: map<nat, seq<byte>>,
                           b: nat, e1: nat, e2: nat, e3: nat, size: nat, far1: nat, far2: nat, far3: nat, s1: nat, s2: nat, s3: nat)
    requires b <= e1 < e2 < e3
    requires RunFetched(c1, None, 0, b, e1, size, far1, s1) && |c1| + (e1 - b + 1) <= 512
    requires RunFetched(c2, Some(far1), s1, e1 + 1, e2, size, far2, s2) && |c2| + (e2 - e1) <= 512
    requires RunFetched(c3, Some(far2), s2, e2 + 1, e3, size, far3, s3)
    ensures far1 == e1 && far2 == e2 && (far3 > e3 || e3 + 1 in c3 || (e3 + 1) * 65536 >= size)
  {
  }

  /** A run fetched anywhere else starts a new row, and fetches itself alone. */
  lemma JumpFetchesAlone(blocks: map<nat, seq<byte>>, endedAt: nat, streak: nat, b: nat, runEnd: nat, size: nat, far: nat, streakAfter: nat)
    requires RunFetched(blocks, Some(endedAt), streak, b, runEnd, size, far, streakAfter)
    requires endedAt < 0xFFFF_FFFF_FFFF_FFFF && b != endedAt + 1
    ensures far == runEnd && streakAfter <= 1
  {
  }

  /** `[b, runEnd]` is what is missing of `[first, last]`, in one piece. */
  ghost predicate OnlyRun(blocks: map<nat, seq<byte>>, first: nat, last: nat, b: nat, runEnd: nat) {
    && first <= b <= runEnd <= last && forall k :: first <= k <= last ==> (k !in blocks <==> b <= k <= runEnd)
  }

  /** What a request for `[first, last]` does ahead of itself: nothing if it finds all it needs, else as its only run says. */
  ghost predicate ReadAhead(before: map<nat, seq<byte>>, endedAt: Option<nat>, streak: nat,
                            blocks: map<nat, seq<byte>>, endedNow: Option<nat>, streakNow: nat,
                            first: nat, last: nat, size: nat) {
    && (Covered(before, first, last) ==> blocks == before && endedNow == endedAt && streakNow == streak)
    && forall b: nat, runEnd: nat :: OnlyRun(before, first, last, b, runEnd) ==>
                             && endedNow.Some? && RunFetched(before, endedAt, streak, b, runEnd, size, endedNow.value, streakNow)
                             && forall k :: b <= k <= endedNow.value ==> k in blocks
  }

  lemma FetchedHolds(before: map<nat, seq<byte>>, touched: map<nat, nat>, after: map<nat, seq<byte>>, touchedAfter: map<nat, nat>,
                     first: nat, last: nat, protect: set<nat>)
    requires Fetched(before, touched, after, touchedAfter, first, last, protect)
    ensures forall k :: first <= k <= last ==> k in after
  {
    hide Evicted;
  }

  /** What has been missing of a request so far: nothing, one run, or more. */
  datatype Seen = NoRun | OneRun(b: nat, runEnd: nat) | MoreRuns

  /** What the request has done ahead of itself when it stands before block `next`. */
  ghost predicate AheadSoFar(before: map<nat, seq<byte>>, endedAt: Option<nat>, streak: nat,
                             blocks: map<nat, seq<byte>>, endedNow: Option<nat>, streakNow: nat,
                             first: nat, last: nat, size: nat, next: nat, seen: Seen) {
    match seen
    case NoRun =>
      (forall k :: first <= k < next ==> k in before) && blocks == before && endedNow == endedAt && streakNow == streak
    case OneRun(b, runEnd) =>
      && first <= b <= runEnd < next && (forall k :: first <= k < next ==> (k !in before <==> b <= k <= runEnd))
      && (runEnd < last ==> runEnd + 1 in before)
      && endedNow.Some? && RunFetched(before, endedAt, streak, b, runEnd, size, endedNow.value, streakNow)
      && forall k :: b <= k <= endedNow.value ==> k in blocks
    case MoreRuns => exists i, j, k :: first <= i < j < k < next && i !in before && j in before && k !in before
  }

  lemma AheadStarts(blocks: map<nat, seq<byte>>, endedAt: Option<nat>, streak: nat, first: nat, last: nat, size: nat)
    ensures AheadSoFar(blocks, endedAt, streak, blocks, endedAt, streak, first, last, size, first, NoRun)
  {
  }

  lemma AheadSkips(before: map<nat, seq<byte>>, endedAt: Option<nat>, streak: nat,
                   blocks: map<nat, seq<byte>>, endedNow: Option<nat>, streakNow: nat,
                   first: nat, last: nat, size: nat, next: nat, seen: Seen)
    requires AheadSoFar(before, endedAt, streak, blocks, endedNow, streakNow, first, last, size, next, seen)
    requires Ahead(before, blocks, next, last) && next <= last && next in blocks
    ensures AheadSoFar(before, endedAt, streak, blocks, endedNow, streakNow, first, last, size, next + 1, seen)
  {
    hide RunFetched;
    if seen.MoreRuns? {
      var i, j, k :| first <= i < j < k < next && i !in before && j in before && k !in before;
      assert first <= i < j < k < next + 1;
    }
  }

  /** One more run: the first is the request's only one so far, any other is behind a block that was there. */
  lemma AheadFetches(before: map<nat, seq<byte>>, endedAt: Option<nat>, streak: nat,
                     was: map<nat, seq<byte>>, endedWas: Option<nat>, streakWas: nat,
                     after: map<nat, seq<byte>>, endedNow: Option<nat>, streakNow: nat,
                     first: nat, last: nat, size: nat, b: nat, runEnd: nat, far: nat, seen: Seen)
    returns (more: Seen)
    requires AheadSoFar(before, endedAt, streak, was, endedWas, streakWas, first, last, size, b, seen)
    requires Ahead(before, was, b, last) && first <= b <= runEnd <= last && forall k :: b <= k <= runEnd ==> k !in was
    requires runEnd < last ==> runEnd + 1 in was
    requires endedNow == Some(far) && RunFetched(was, endedWas, streakWas, b, runEnd, size, far, streakNow)
    requires forall k :: b <= k <= far ==> k in after
    ensures AheadSoFar(before, endedAt, streak, after, endedNow, streakNow, first, last, size, runEnd + 1, more)
  {
    hide RunFetched;
    assert b !in was;
    match seen {
      case NoRun => more := OneRun(b, runEnd);
      case OneRun(b', runEnd') =>
        assert first <= b' < runEnd' + 1 < b < runEnd + 1 && b' !in before && runEnd' + 1 in before && b !in before;
        more := MoreRuns;
      case MoreRuns =>
        var i, j, k :| first <= i < j < k < b && i !in before && j in before && k !in before;
        assert first <= i < j < k < runEnd + 1;
        more := MoreRuns;
    }
  }

  lemma AheadEnds(before: map<nat, seq<byte>>, endedAt: Option<nat>, streak: nat,
                  blocks: map<nat, seq<byte>>, endedNow: Option<nat>, streakNow: nat,
                  first: nat, last: nat, size: nat, seen: Seen)
    requires AheadSoFar(before, endedAt, streak, blocks, endedNow, streakNow, first, last, size, last + 1, seen) && first <= last
    ensures ReadAhead(before, endedAt, streak, blocks, endedNow, streakNow, first, last, size)
  {
    hide RunFetched;
    match seen {
      case NoRun =>
        assert forall b: nat, runEnd: nat :: OnlyRun(before, first, last, b, runEnd) ==> b !in before;
      case OneRun(b, runEnd) =>
        assert b !in before && runEnd !in before;
        forall b': nat, runEnd': nat | OnlyRun(before, first, last, b', runEnd') ensures b' == b && runEnd' == runEnd {
          assert b' !in before && runEnd' !in before;
          assert b' <= b <= runEnd <= runEnd' && b <= b' <= runEnd' <= runEnd;
        }
      case MoreRuns =>
        var i, j, k :| first <= i < j < k < last + 1 && i !in before && j in before && k !in before;
        forall b: nat, runEnd: nat ensures !OnlyRun(before, first, last, b, runEnd) {
          assert OnlyRun(before, first, last, b, runEnd) ==> b <= i < j < k <= runEnd;
        }
    }
  }

  /** A request for `[first, last]` under way: what it keeps, what lies ahead of it, and how much is resident. */
  ghost predicate Requested(before: map<nat, seq<byte>>, touched: map<nat, nat>,
                            blocks: map<nat, seq<byte>>, touchedNow: map<nat, nat>,
                            used: set<nat>, first: nat, last: nat, next: nat) {
    && Serving(before, touched, blocks, touchedNow, used, first, last, next)
    && Ahead(before, blocks, next, last)
    && (forall k :: k in used ==> first <= k && (next <= last ==> k <= last))
    && (blocks == before || Bounded(blocks, first, last))
  }

  lemma RequestStarts(blocks: map<nat, seq<byte>>, touched: map<nat, nat>, used: set<nat>, first: nat, last: nat)
    requires forall k :: k in used <==> first <= k <= last && k in blocks
    ensures Requested(blocks, touched, blocks, touched, used, first, last, first)
  {
    ServingStarts(blocks, touched, used, first, last);
    hide Serving;
  }

  lemma RequestSkips(before: map<nat, seq<byte>>, touched: map<nat, nat>,
                     blocks: map<nat, seq<byte>>, touchedNow: map<nat, nat>, used: set<nat>, first: nat, last: nat, b: nat)
    requires Requested(before, touched, blocks, touchedNow, used, first, last, b) && b <= last && b in blocks
    ensures Requested(before, touched, blocks, touchedNow, used, first, last, b + 1)
    ensures Ahead(before, blocks, b, last)
    ensures MissingRuns(before, b, last) == MissingRuns(before, b + 1, last)
  {
    ServingSkips(before, touched, blocks, touchedNow, used, first, last, b);
    hide Serving;
  }

  lemma RequestUses(before: map<nat, seq<byte>>, touched: map<nat, nat>,
                    blocks: map<nat, seq<byte>>, touchedNow: map<nat, nat>, used: set<nat>, first: nat, last: nat, b: nat)
    requires Requested(before, touched, blocks, touchedNow, used, first, last, b) && b <= last
    ensures (forall k :: k in used ==> first <= k <= last) && Ahead(before, blocks, b, last)
  {
  }

  /** The run found missing now was one run of the request's start. */
  lemma RunCounts(before: map<nat, seq<byte>>, touched: map<nat, nat>,
                  blocks: map<nat, seq<byte>>, touchedNow: map<nat, nat>, used: set<nat>,
                  first: nat, last: nat, b: nat, runEnd: nat)
    requires Requested(before, touched, blocks, touchedNow, used, first, last, b)
    requires b <= runEnd <= last && (forall k :: b <= k <= runEnd ==> k !in blocks)
    requires runEnd < last ==> runEnd + 1 in blocks
    ensures MissingRuns(before, b, last) == 1 + MissingRuns(before, runEnd + 1, last)
  {
    hide Serving, MissingRuns;
    MissingRunCounts(before, b, runEnd, last);
  }

  /** Fetching one run leaves the rest of the request as it was. */
  lemma RequestFetches(before: map<nat, seq<byte>>, touched: map<nat, nat>,
                       blocks: map<nat, seq<byte>>, touchedNow: map<nat, nat>, protect: set<nat>,
                       after: map<nat, seq<byte>>, touchedAfter: map<nat, nat>,
                       first: nat, last: nat, b: nat, runEnd: nat, fetchLast: nat)
    requires first <= b <= runEnd <= fetchLast && runEnd <= last
    requires runEnd < last ==> fetchLast == runEnd && runEnd + 1 in blocks
    requires Requested(before, touched, blocks, touchedNow, protect, first, last, b)
    requires forall k :: b <= k <= fetchLast ==> k !in blocks
    requires Fetched(blocks, touchedNow, after, touchedAfter, b, fetchLast, protect) && Bounded(after, first, last)
    ensures Requested(before, touched, after, touchedAfter, protect + Range(b, fetchLast + 1), first, last, runEnd + 1)
  {
    ServingFetched(before, touched, blocks, touchedNow, protect, after, touchedAfter, first, last, b, runEnd, fetchLast);
    hide ColderGone, Colder, SameTick, Bounded;
    var kept := after - Range(b, fetchLast + 1);
    forall k | runEnd + 1 <= k <= last ensures k in after <==> k in blocks {
      assert k in kept <==> k in after;
    }
  }

  lemma RequestEnds(before: map<nat, seq<byte>>, touched: map<nat, nat>,
                    blocks: map<nat, seq<byte>>, touchedNow: map<nat, nat>, used: set<nat>, first: nat, last: nat)
    requires Requested(before, touched, blocks, touchedNow, used, first, last, last + 1)
    ensures Serving(before, touched, blocks, touchedNow, used, first, last, last + 1)
    ensures blocks == before || Bounded(blocks, first, last)
    ensures MissingRuns(before, last + 1, last) == 0
  {
  }

  // ------------------------------------------------------------------ seeking

  /** `Seek for JsReader`: checked signed arithmetic on unsigned positions. */
  function SeekTarget(pos: SeekFrom, position: nat, size: nat): (r: Result<nat>)
    ensures r.Ok? ==> r.value < TWO_63
  {
    var target: Result<int> :=
      match pos
      case Start(n) => if n < TWO_63 then Ok(n) else Err(SeekTooLarge)
      case End(n) =>
        if size >= TWO_63 then Err(SeekTooLarge)
        else if size + n >= TWO_63 then Err(SeekOverflow) else Ok(size + n)
      case Current(n) =>
        if position >= TWO_63 then Err(SeekTooLarge)
        else if position + n >= TWO_63 then Err(SeekOverflow) else Ok(position + n);
    if target.Err? then Err(target.error)
    else if target.value < 0 then Err(SeekBeforeStart)
    else Ok(target.value)
  }

  /** Where a seek is counted from. */
  function SeekBase(pos: SeekFrom, position: nat, size: nat): nat {
    match pos case Start(_) => 0 case End(_) => size case Current(_) => position
  }

  function SeekOffset(pos: SeekFrom): int {
    match pos case Start(n) => n case End(n) => n case Current(n) => n
  }

  /** A seek lands on the sum, if that is a position; which way it lies outside decides the error. */
  lemma SeekMeaning(pos: SeekFrom, position: nat, size: nat)
    requires position < 0x8000_0000_0000_0000 && size < 0x8000_0000_0000_0000
    ensures var sum := SeekBase(pos, position, size) + SeekOffset(pos);
            && (0 <= sum < 0x8000_0000_0000_0000 ==> SeekTarget(pos, position, size) == Ok(sum))
            && (sum < 0 ==> SeekTarget(pos, position, size) == Err(SeekBeforeStart))
            && (sum >= 0x8000_0000_0000_0000 ==>
                  SeekTarget(pos, position, size) == Err(if pos.Start? then SeekTooLarge else SeekOverflow))
  {
  }

  // ------------------------------------------------------- what a read promises

  /** `n` bytes of the image from `p`; empty when nothing is asked for. */
  ghost function Slice(image: seq<byte>, p: nat, n: nat): (r: seq<byte>)
    ensures |r| == if p + n <= |image| then n else 0
  {
    if n == 0 || p + n > |image| then [] else image[p..p + n]
  }

  /** From `p` to the end of its block, a block holds the image's bytes. */
  lemma BlockTail(image: seq<byte>, p: nat)
    requires p < |image|
    ensures var b := Block(image, p / BLOCK_SIZE);
            p % BLOCK_SIZE < |b| && p - p % BLOCK_SIZE + |b| <= |image|
            && b[p % BLOCK_SIZE..] == image[p..p - p % BLOCK_SIZE + |b|]
  {
    var index := p / BLOCK_SIZE;
    assert p == index * BLOCK_SIZE + p % BLOCK_SIZE;
  }

  lemma CoveredAt(blocks: map<nat, seq<byte>>, p: nat, len: nat, size: nat, q: nat)
    requires len > 0 && p <= q < Min(p + len, size)
    requires Covered(blocks, FirstBlock(p), LastBlock(p, Min(size - p, len), size))
    ensures q / BLOCK_SIZE in blocks
  {
    assert FirstBlock(p) <= q / BLOCK_SIZE <= LastBlock(p, Min(size - p, len), size);
  }

  lemma SliceIs(image: seq<byte>, p: nat, n: nat)
    requires n > 0 && p + n <= |image|
    ensures Slice(image, p, n) == image[p..p + n]
  {
  }

  lemma WindowSlice(image: seq<byte>, window: seq<byte>, start: nat, p: nat, n: nat)
    requires start + |window| <= |image| && window == image[start..start + |window|]
    requires 0 < n && start <= p && p - start + n <= |window|
    ensures window[p - start..p - start + n] == Slice(image, p, n)
  {
    SubSlice(image, start, start + |window|, p - start, p - start + n);
  }

  /** An adjacent stretch of the image, written behind one already in the buffer. */
  lemma SpliceMore(image: seq<byte>, was: seq<byte>, at: nat, p: nat, total: nat, n: nat)
    requires n > 0 && at + total + n <= |was| && p + total + n <= |image|
    ensures Splice(Splice(was, at, Slice(image, p, total)), at + total, Slice(image, p + total, n))
         == Splice(was, at, Slice(image, p, total + n))
  {
    assert Slice(image, p, total + n) == Slice(image, p, total) + Slice(image, p + total, n);
    SpliceSplice(was, at, Slice(image, p, total), Slice(image, p + total, n));
  }

  lemma SliceNothing(image: seq<byte>, p: nat)
    ensures Slice(image, p, 0) == []
  {
  }

  // -------------------------------------------------- the plain file, as a machine

  datatype Op = DoRead(len: nat) | DoSeek(to: SeekFrom) | DoMode(sequential: bool) | DoWindow(bytes: nat)

  datatype Outcome = ReadOk(bytes: seq<byte>) | ReadFailed | SeekDone(target: Result<nat>) | Done

  /** All a caller can tell about the reader: where it stands and which mode it is in. */
  datatype Cursor = Cursor(position: nat, sequential: bool)

  /**
   One operation on a plain file `image`, as far as safety goes: a read that succeeds
   returns the file's bytes at the cursor and moves past them, one that fails moves nothing.
   */
  ghost predicate Moves(image: seq<byte>, c: Cursor, op: Op, outcome: Outcome, c': Cursor) {
    match op
    case DoRead(len) =>
      (outcome == ReadFailed && c' == c)
      || (outcome.ReadOk?
          && c' == c.(position := c.position + |outcome.bytes|)
          && outcome.bytes == Slice(image, c.position, |outcome.bytes|)
          && |outcome.bytes| <= len)
    case DoSeek(pos) =>
      && outcome.SeekDone?
      && (outcome.target.Ok? <==> SeekTarget(pos, c.position, |image|).Ok?)
      && (outcome.target.Ok? ==> outcome.target == SeekTarget(pos, c.position, |image|))
      && c' == (if outcome.target.Ok? then c.(position := outcome.target.value) else c)
    case DoMode(sequential) => outcome == Done && c' == c.(sequential := sequential)
    case DoWindow(_) => outcome == Done && c' == c
  }

  /**
   What this reader adds: before the end a successful read returns something, outside
   Sequential mode it returns all that was asked for, and refusals to seek say why.
   */
  ghost predicate Step(image: seq<byte>, c: Cursor, op: Op, outcome: Outcome, c': Cursor) {
    && Moves(image, c, op, outcome, c')
    && (op.DoRead? && outcome.ReadOk? ==>
        && (op.len > 0 && c.position < |image| ==> outcome.bytes != [])
        && (!c.sequential ==> |outcome.bytes| == Max(0, Min(op.len, |image| - c.position))))
    && (op.DoSeek? ==> outcome == SeekDone(SeekTarget(op.to, c.position, |image|)))
  }

  /** `states[i]` is where the file stood before `ops[i]`; the last one is where the run ended. */
  ghost predicate IsRun(image: seq<byte>, ops: seq<Op>, outcomes: seq<Outcome>, states: seq<Cursor>) {
    && |outcomes| == |ops|
    && |states| == |ops| + 1
    && forall i :: 0 <= i < |ops| ==> Step(image, states[i], ops[i], outcomes[i], states[i + 1])
  }

  /** Everything the reads of a run returned, in order. */
  function Delivered(outcomes: seq<Outcome>): seq<byte> {
    if outcomes == [] then []
    else Delivered(outcomes[..|outcomes| - 1]) + BytesOf(outcomes[|outcomes| - 1])
  }

  /**
   Over every run without a seek, however modes and windows change and wherever fetches
   fail, the bytes read are one unbroken slice of the file, and the cursor is at its end.
   */
  lemma RunReadsUnbroken(image: seq<byte>, ops: seq<Op>, outcomes: seq<Outcome>, states: seq<Cursor>)
    requires |outcomes| == |ops| && |states| == |ops| + 1
    requires forall i :: 0 <= i < |ops| ==> Moves(image, states[i], ops[i], outcomes[i], states[i + 1])
    requires forall op :: op in ops ==> !op.DoSeek?
    ensures states[|ops|].position == states[0].position + |Delivered(outcomes)|
    ensures Delivered(outcomes) == Slice(image, states[0].position, |Delivered(outcomes)|)
  {
    assert outcomes[..|ops|] == outcomes;
    assert SeekFree(image, ops, outcomes, states);
    hide *;
    ReadsUnbrokenTo(image, ops, outcomes, states, |ops|);
  }

  /** A run in which nothing seeks. */
  ghost predicate SeekFree(image: seq<byte>, ops: seq<Op>, outcomes: seq<Outcome>, states: seq<Cursor>) {
    && |outcomes| == |ops| && |states| == |ops| + 1
    && (forall i :: 0 <= i < |ops| ==> Moves(image, states[i], ops[i], outcomes[i], states[i + 1]))
    && (forall op :: op in ops ==> !op.DoSeek?)
  }

  lemma {:induction false} ReadsUnbrokenTo(image: seq<byte>, ops: seq<Op>, outcomes: seq<Outcome>, states: seq<Cursor>, k: nat)
    requires SeekFree(image, ops, outcomes, states) && k <= |ops| == |outcomes| == |states| - 1
    ensures states[k].position == states[0].position + |Delivered(outcomes[..k])|
    ensures Delivered(outcomes[..k]) == Slice(image, states[0].position, |Delivered(outcomes[..k])|)
  {
    hide *;
    if k == 0 {
      NothingDelivered(image, states[0].position, outcomes[..0]);
    } else {
      var n: nat := k - 1;
      ReadsUnbrokenTo(image, ops, outcomes, states, n);
      MoveDelivers(image, ops, outcomes, states, n);
      DeliveredStep(outcomes, n);
      UnbrokenStep(image, states[0].position, Delivered(outcomes[..n]), BytesOf(outcomes[n]), Delivered(outcomes[..k]));
    }
  }

  lemma NothingDelivered(image: seq<byte>, p: nat, outcomes: seq<Outcome>)
    requires outcomes == []
    ensures Delivered(outcomes) == [] == Slice(image, p, 0)
  {
  }

  lemma UnbrokenStep(image: seq<byte>, p: nat, before: seq<byte>, bytes: seq<byte>, after: seq<byte>)
    requires before == Slice(image, p, |before|) && bytes == Slice(image, p + |before|, |bytes|) && after == before + bytes
    ensures after == Slice(image, p, |after|) && |after| == |before| + |bytes|
  {
    SliceJoin(image, p, before, bytes);
  }

  function BytesOf(outcome: Outcome): seq<byte> { if outcome.ReadOk? then outcome.bytes else [] }

  lemma DeliveredStep(outcomes: seq<Outcome>, k: nat)
    requires k < |outcomes|
    ensures Delivered(outcomes[..k + 1]) == Delivered(outcomes[..k]) + BytesOf(outcomes[k])
  {
    assert outcomes[..k + 1][..k] == outcomes[..k];
  }

  lemma MoveDelivers(image: seq<byte>, ops: seq<Op>, outcomes: seq<Outcome>, states: seq<Cursor>, k: nat)
    requires SeekFree(image, ops, outcomes, states) && k < |ops| == |outcomes| == |states| - 1
    ensures states[k + 1].position == states[k].position + |BytesOf(outcomes[k])|
    ensures BytesOf(outcomes[k]) == Slice(image, states[k].position, |BytesOf(outcomes[k])|)
  {
    assert Moves(image, states[k], ops[k], outcomes[k], states[k + 1]) && ops[k] in ops;
  }

  lemma SliceJoin(image: seq<byte>, p: nat, a: seq<byte>, b: seq<byte>)
    requires a == Slice(image, p, |a|) && b == Slice(image, p + |a|, |b|)
    ensures a + b == Slice(image, p, |a + b|)
  {
  }

  class JsReader {
    const readFn: Callback
    const size: nat
    const baseOffset: nat
    ghost const image: seq<byte>
    var position: nat
    var mode: ReadMode
    var blocks: map<nat, seq<byte>>
    var lastTouched: map<nat, nat>
    var touchClock: nat
    var lastRunEndBlock: Option<nat>
    var seqStreak: nat
    var seqWindowSize: nat
    var seqBuffer: seq<byte>
    var seqBufferStart: nat
    var fetchCount: nat
    var readScratch: seq<byte>

    ghost predicate Valid()
      reads this
    {
      && |image| == size
      && baseOffset + size <= MAX_EXACT_JS_INT
      && Honest(readFn, baseOffset, image)
      && position < TWO_63
      && 1 <= seqWindowSize <= MAX_SEQ_WINDOW
      && CacheValid(image, blocks, lastTouched, touchClock)
      && (seqBuffer != [] ==>
          seqBufferStart + |seqBuffer| <= size
          && seqBuffer == image[seqBufferStart..seqBufferStart + |seqBuffer|])
      && (mode == Cached ==> seqBuffer == [])
      && (mode == Sequential ==> blocks == map[] && readScratch == [])
    }

    constructor (readFn: Callback, size: nat, baseOffset: nat, ghost image: seq<byte>)
      requires |image| == size && baseOffset + size <= MAX_EXACT_JS_INT
      requires Honest(readFn, baseOffset, image)
      ensures Valid()
      ensures this.readFn == readFn && this.size == size && this.image == image
      ensures this.baseOffset == baseOffset
      ensures position == 0 && mode == Cached && blocks == map[] && seqBuffer == [] && seqWindowSize == 8 * 1024 * 1024
      ensures lastTouched == map[] && lastRunEndBlock == None && seqStreak == 0 && touchClock == 0
    {
      this.readFn := readFn;
      this.size := size;
      this.baseOffset := baseOffset;
      this.image := image;
      position := 0;
      mode := Cached;
      blocks := map[];
      lastTouched := map[];
      touchClock := 0;
      lastRunEndBlock := None;
      seqStreak := 0;
      seqWindowSize := DEFAULT_SEQ_WINDOW;
      seqBuffer := [];
      seqBufferStart := 0;
      fetchCount := 0;
      readScratch := [];
    }

    method SetSequentialMode(enabled: bool)
      requires Valid()
      modifies this
      ensures Valid() && position == old(position)
      ensures mode == if enabled then Sequential else Cached
      ensures mode == old(mode) ==> blocks == old(blocks) && lastTouched == old(lastTouched) && seqBuffer == old(seqBuffer)
      ensures mode == old(mode) ==> lastRunEndBlock == old(lastRunEndBlock) && seqStreak == old(seqStreak)
      ensures mode != old(mode) ==> blocks == map[] && seqBuffer == []
      ensures mode != old(mode) && enabled ==> lastTouched == map[] && lastRunEndBlock == None && seqStreak == 0
      ensures seqWindowSize == old(seqWindowSize)
    {
      var newMode := if enabled then Sequential else Cached;
      if newMode == mode {
        return;
      }
      mode := newMode;
      match newMode {
        case Sequential =>
          blocks := map[];
          lastTouched := map[];
          lastRunEndBlock := None;
          seqStreak := 0;
          readScratch := [];
        case Cached =>
          seqBuffer := [];
          seqBufferStart := 0;
      }
    }

    method SetSequentialWindow(bytes: nat)
      requires Valid()
      modifies this`seqWindowSize
      ensures Valid()
      ensures seqWindowSize == Max(1, Min(bytes, 256 * 1024 * 1024))
    {
      seqWindowSize := if bytes < 1 then 1 else if bytes > MAX_SEQ_WINDOW then MAX_SEQ_WINDOW else bytes;
    }

    /**
     One round trip. On success exactly the requested bytes are in `grown[..toFetch]`
     and the stale rest of a longer buffer is untouched; on failure nothing changed. Only a
     request past the end may be answered with fewer bytes, and those reach the end.
     */
    method CallReadFn(absPos: nat, toFetch: nat, out: seq<byte>) returns (r: Result<nat>, grown: seq<byte>)
      requires Valid()
      modifies this`fetchCount, readFn
      ensures Valid()
      ensures r.Ok? ==> r.value == toFetch || (r.value < toFetch && size <= absPos + r.value)
      ensures r.Ok? ==> fetchCount == old(fetchCount) + 1 && |grown| == Max(|out|, r.value)
      ensures r.Ok? && absPos + toFetch <= size ==> r.value == toFetch && grown[..toFetch] == image[absPos..absPos + toFetch]
      ensures r.Ok? ==> forall i :: r.value <= i < |grown| ==> grown[i] == out[i]
      ensures r.Err? ==> grown == out && fetchCount == old(fetchCount)
      ensures r.Err? ==> FetchFailure(r.error)
      ensures var answer := readFn.respond(old(readFn.calls), baseOffset + absPos, toFetch);
              if Max(baseOffset + absPos, toFetch) > 0x20_0000_0000_0000 then r == Err(OffsetTooLarge)
              else match answer
                case Threw => r == Err(CallbackThrew)
                case NotAnArray => r == Err(NotBytes)
                case Bytes(data) =>
                  r == if |data| > toFetch then Err(OverlongRead)
                       else if |data| < toFetch && absPos + |data| < size then Err(ShortRead) else Ok(|data|)
      ensures readFn.calls == old(readFn.calls) + if Max(baseOffset + absPos, toFetch) > 0x20_0000_0000_0000 then 0 else 1
      ensures Reliable(readFn, baseOffset, image) && absPos + toFetch <= size ==> r.Ok?
    {
      grown := out;
      if baseOffset + absPos > MAX_EXACT_JS_INT || toFetch > MAX_EXACT_JS_INT {
        return Err(OffsetTooLarge), out;
      }
      var response := readFn.Call(baseOffset + absPos, toFetch);
      match response {
        case Threw => return Err(CallbackThrew), out;
        case NotAnArray => return Err(NotBytes), out;
        case Bytes(data) =>
          var n := |data|;
          if n > toFetch {
            return Err(OverlongRead), out;
          }
          if n < toFetch {
            var reached := absPos + n;
            if reached < size {
              return Err(ShortRead), out;
            }
          }
          if |grown| < n {
            grown := grown + seq(n - |grown|, _ => 0);
          }
          grown := data + grown[n..];
          fetchCount := fetchCount + 1;
          return Ok(n), grown;
      }
    }

    /**
     Fetches blocks `[first, last]` in one round trip, evicting beforehand when the
     cache would grow past its limit.
     */
    method FetchBlockRange(first: nat, last: nat, protect: set<nat>)
      returns (r: Result<()>, protected: set<nat>)
      requires Valid() && mode == Cached && first <= last
      requires forall b :: first <= b <= last ==> b !in blocks
      modifies this, readFn
      ensures Valid() && mode == Cached && position == old(position)
      ensures seqWindowSize == old(seqWindowSize)
      ensures touchClock == old(touchClock)
      ensures r.Ok? ==> protected == protect + Range(first, last + 1)
      ensures r.Ok? ==> Fetched(old(blocks), old(lastTouched), blocks, lastTouched, first, last, protect)
      ensures r.Err? ==> protected == protect && Evicted(old(blocks), old(lastTouched), blocks, lastTouched, protect)
      ensures first * BLOCK_SIZE < size ==> readFn.calls == old(readFn.calls) + 1
      ensures seqStreak == if old(|blocks|) + (last - first + 1) > MAX_RESIDENT_BLOCKS then 0 else old(seqStreak)
      ensures r.Ok? && old(|blocks|) >= MAX_RESIDENT_BLOCKS ==> |blocks| >= MAX_RESIDENT_BLOCKS
      ensures r.Err? ==> FetchFailure(r.error)
      ensures Reliable(readFn, baseOffset, image) ==> r.Ok?
    {
      hide CacheValid, Evicted, Fetched, Roomy, Inserted, Honest, Reliable, Block, Range;
      MakeRoom(last - first + 1, protect);
      ghost var kept, keptTouched := blocks, lastTouched;
      var fetched := FetchBytes(first, last);
      if fetched.Err? {
        return Err(fetched.error), protect;
      }
      var grown;
      grown, protected := InsertBlocks(blocks, readScratch, fetched.value, first, last, protect, image);
      BlocksArrive(image, touchClock, old(blocks), old(lastTouched), kept, keptTouched, grown, first, last, protect);
      blocks := grown;
      return Ok(()), protected;
    }

    /** Reads what the file has of blocks `[first, last]` into the scratch buffer, nothing if that is nothing. */
    method FetchBytes(first: nat, last: nat) returns (r: Result<nat>)
      requires Valid() && mode == Cached && first <= last
      modifies this`readScratch, this`fetchCount, readFn
      ensures Valid()
      ensures r.Ok? ==>
                && r.value == Max(0, Min((last + 1) * BLOCK_SIZE, size) - first * BLOCK_SIZE) <= |readScratch|
                && (r.value > 0 ==> readScratch[..r.value] == image[first * BLOCK_SIZE..first * BLOCK_SIZE + r.value])
      ensures r.Err? ==> FetchFailure(r.error)
      ensures readFn.calls == old(readFn.calls) + if first * BLOCK_SIZE < size then 1 else 0
      ensures Reliable(readFn, baseOffset, image) ==> r.Ok?
    {
      hide CacheValid, Honest, Reliable;
      var rangeStart := first * BLOCK_SIZE;
      var rangeEnd := Min((last + 1) * BLOCK_SIZE, size);
      if rangeStart >= rangeEnd {
        return Ok(0);
      }
      var scratch;
      r, scratch := CallReadFn(rangeStart, rangeEnd - rangeStart, readScratch);
      readScratch := scratch;
    }

    /** Evicts before `incoming` blocks arrive, if they would take the cache past its limit. */
    method MakeRoom(incoming: nat, protect: set<nat>)
      requires Valid() && mode == Cached
      modifies this`blocks, this`lastTouched, this`lastRunEndBlock, this`seqStreak
      ensures Valid()
      ensures Evicted(old(blocks), old(lastTouched), blocks, lastTouched, protect)
      ensures Roomy(blocks, incoming, protect)
      ensures if old(|blocks|) + incoming > MAX_RESIDENT_BLOCKS then
                seqStreak == 0 && lastRunEndBlock == None && |blocks| + incoming >= MAX_RESIDENT_BLOCKS
              else seqStreak == old(seqStreak) && lastRunEndBlock == old(lastRunEndBlock)
    {
      hide CacheValid, Evicted, Honest;
      if |blocks| + incoming > MAX_RESIDENT_BLOCKS {
        var kept, keptTouched := EvictColdest(blocks, lastTouched, |blocks| + incoming - MAX_RESIDENT_BLOCKS, protect, image, touchClock);
        blocks, lastTouched := kept, keptTouched;
        lastRunEndBlock := None;
        seqStreak := 0;
      } else {
        NothingEvicted(blocks, lastTouched, protect);
      }
    }

    /** The end of the run of missing blocks that starts at `b`. */
    method MissingRun(b: nat, endBlock: nat) returns (runEnd: nat)
      requires b <= endBlock && b !in blocks
      ensures b <= runEnd <= endBlock
      ensures forall k :: b <= k <= runEnd ==> k !in blocks
      ensures runEnd < endBlock ==> runEnd + 1 in blocks
    {
      runEnd := b;
      while runEnd < endBlock && runEnd + 1 !in blocks
        invariant b <= runEnd <= endBlock
        invariant forall k :: b <= k <= runEnd ==> k !in blocks
      {
        runEnd := runEnd + 1;
      }
    }

    /** Speculative widening past `runEnd`: only over missing blocks inside the file. */
    method Widen(runEnd: nat) returns (widened: nat)
      requires runEnd * BLOCK_SIZE < size
      ensures runEnd <= widened <= runEnd + MAX_STREAK_PREFETCH_BLOCKS
      ensures widened * BLOCK_SIZE < size
      ensures forall k :: runEnd < k <= widened ==> k !in blocks
      ensures widened == runEnd + 32 || widened + 1 in blocks || (widened + 1) * BLOCK_SIZE >= size
    {
      var maxExtra := Max(MAX_STREAK_PREFETCH_BLOCKS, 1);
      var extra := Min(maxExtra, DivCeil(Max(0, size - (runEnd + 1) * BLOCK_SIZE), BLOCK_SIZE));
      widened := runEnd;
      var cap := runEnd + extra;
      while widened < cap && widened + 1 !in blocks
        invariant runEnd <= widened <= cap
        invariant widened * BLOCK_SIZE < size
        invariant forall k :: runEnd < k <= widened ==> k !in blocks
      {
        if (widened + 1) * BLOCK_SIZE >= size {
          break;
        }
        widened := widened + 1;
      }
    }

    /**
     Makes every block of the request resident. Evictions inside the call spare what the
     request needs and take the coldest of the rest; a failed fetch leaves the cache valid.
     Every run of missing blocks costs one round trip, and what is resident costs none. A
     full cache stays full, every fetch ends its streak, and without a streak nothing but the
     request is fetched: once full, the cache prefetches no more.
     */
    method EnsureRange(absPos: nat, len: nat) returns (r: Result<()>)
      requires Valid() && mode == Cached
      modifies this, readFn
      ensures Valid() && mode == Cached && position == old(position)
      ensures seqWindowSize == old(seqWindowSize)
      ensures len == 0 || absPos >= size ==> r.Ok? && blocks == old(blocks)
      ensures r.Ok? && len > 0 && absPos < size ==>
                Covered(blocks, FirstBlock(absPos), LastBlock(absPos, len, size))
      ensures r.Ok? && len > 0 && absPos < size ==>
                blocks == old(blocks) || Bounded(blocks, FirstBlock(absPos), LastBlock(absPos, len, size))
      ensures r.Ok? && len > 0 && absPos < size ==> touchClock == old(touchClock) + 1
      ensures r.Ok? && len > 0 && absPos < size ==>
                StampedFor(blocks, lastTouched, touchClock, FirstBlock(absPos), LastBlock(absPos, len, size))
      ensures r.Ok? && len > 0 && absPos < size ==>
                ColderGone(old(blocks), old(lastTouched), blocks, StampedAt(lastTouched, touchClock))
      ensures len == 0 || absPos >= size ==> readFn.calls == old(readFn.calls)
      ensures len > 0 && absPos < size ==>
                var runs := MissingRuns(old(blocks), FirstBlock(absPos), LastBlock(absPos, len, size));
                if r.Ok? then readFn.calls == old(readFn.calls) + runs
                else old(readFn.calls) < readFn.calls <= old(readFn.calls) + runs
      ensures r.Ok? && len > 0 && absPos < size ==>
                FullStays(old(blocks), blocks, old(seqStreak), seqStreak, readFn.calls > old(readFn.calls),
                          FirstBlock(absPos), LastBlock(absPos, len, size))
      ensures r.Ok? && len > 0 && absPos < size ==>
                ReadAhead(old(blocks), old(lastRunEndBlock), old(seqStreak), blocks, lastRunEndBlock, seqStreak,
                          FirstBlock(absPos), LastBlock(absPos, len, size), size)
      ensures r.Err? ==> FetchFailure(r.error)
      ensures Reliable(readFn, baseOffset, image) ==> r.Ok?
    {
      hide *;
      if len == 0 || absPos >= size {
        return Ok(());
      }
      var startBlock := FirstBlock(absPos);
      var endBlock := LastBlock(absPos, len, size);
      RequestInside(absPos, len, size);
      var used := set k | k in blocks && startBlock <= k <= endBlock;
      RequestStarts(blocks, lastTouched, used, startBlock, endBlock);
      ghost var runs := MissingRuns(blocks, startBlock, endBlock);
      FullStarts(blocks, seqStreak, startBlock, endBlock);
      ghost var seen := NoRun;
      AheadStarts(blocks, lastRunEndBlock, seqStreak, startBlock, endBlock, size);
      var b := startBlock;
      while b <= endBlock
        invariant startBlock <= b <= endBlock + 1
        invariant Valid() && mode == Cached && position == old(position) && seqWindowSize == old(seqWindowSize)
        invariant touchClock == old(touchClock)
        invariant Requested(old(blocks), old(lastTouched), blocks, lastTouched, used, startBlock, endBlock, b)
        invariant old(readFn.calls) <= readFn.calls == old(readFn.calls) + runs - MissingRuns(old(blocks), b, endBlock)
        invariant FullStays(old(blocks), blocks, old(seqStreak), seqStreak, readFn.calls > old(readFn.calls), startBlock, endBlock)
        invariant AheadSoFar(old(blocks), old(lastRunEndBlock), old(seqStreak), blocks, lastRunEndBlock, seqStreak,
                             startBlock, endBlock, size, b, seen)
      {
        if b in blocks {
          RequestSkips(old(blocks), old(lastTouched), blocks, lastTouched, used, startBlock, endBlock, b);
          AheadSkips(old(blocks), old(lastRunEndBlock), old(seqStreak), blocks, lastRunEndBlock, seqStreak,
                     startBlock, endBlock, size, b, seen);
          b := b + 1;
          continue;
        }
        RequestUses(old(blocks), old(lastTouched), blocks, lastTouched, used, startBlock, endBlock, b);
        ghost var was, wasTouched, wasUsed := blocks, lastTouched, used;
        ghost var wasStreak, wasEnd, hadFetched := seqStreak, lastRunEndBlock, readFn.calls > old(readFn.calls);
        var fetched, runEnd;
        ghost var fetchLast;
        fetched, runEnd, used, fetchLast := FetchRun(b, startBlock, endBlock, used);
        RunCounts(old(blocks), old(lastTouched), was, wasTouched, wasUsed, startBlock, endBlock, b, runEnd);
        if fetched.Err? {
          return fetched;
        }
        RequestFetches(old(blocks), old(lastTouched), was, wasTouched, wasUsed, blocks, lastTouched,
                       startBlock, endBlock, b, runEnd, fetchLast);
        FullFetches(old(blocks), old(seqStreak), was, wasTouched, wasStreak, hadFetched, blocks, lastTouched, seqStreak,
                    b, runEnd, fetchLast, wasUsed, startBlock, endBlock);
        seen := AheadFetches(old(blocks), old(lastRunEndBlock), old(seqStreak), was, wasEnd, wasStreak, blocks, lastRunEndBlock, seqStreak,
                             startBlock, endBlock, size, b, runEnd, fetchLast, seen);
        b := runEnd + 1;
      }
      RequestEnds(old(blocks), old(lastTouched), blocks, lastTouched, used, startBlock, endBlock);
      AheadEnds(old(blocks), old(lastRunEndBlock), old(seqStreak), blocks, lastRunEndBlock, seqStreak, startBlock, endBlock, size, seen);
      FinishRequest(used, old(blocks), old(lastTouched), startBlock, endBlock);
      return Ok(());
    }

    /** Stamps every block the request touched with a fresh tick. */
    method FinishRequest(used: set<nat>, ghost before: map<nat, seq<byte>>, ghost touched: map<nat, nat>,
                         ghost first: nat, ghost last: nat)
      requires Valid()
      requires Serving(before, touched, blocks, lastTouched, used, first, last, last + 1)
      modifies this`touchClock, this`lastTouched
      ensures Valid() && touchClock == old(touchClock) + 1
      ensures Covered(blocks, first, last)
      ensures StampedFor(blocks, lastTouched, touchClock, first, last)
      ensures ColderGone(before, touched, blocks, StampedAt(lastTouched, touchClock))
    {
      hide Honest, CacheValid, Serving, Covered, StampedFor, ColderGone, Stamp;
      touchClock := touchClock + 1;
      RequestServed(image, before, touched, blocks, lastTouched, used, first, last, touchClock);
      lastTouched := Stamp(lastTouched, used, touchClock);
    }

    /**
     Fetches the run of missing blocks at `b`, widened when runs have been contiguous. Every
     eviction ends the streak, so a full cache is left without one.
     */
    method FetchRun(b: nat, startBlock: nat, endBlock: nat, used: set<nat>)
      returns (r: Result<()>, runEnd: nat, protected: set<nat>, ghost fetchLast: nat)
      requires Valid() && mode == Cached
      requires startBlock <= b <= endBlock && b !in blocks && endBlock * BLOCK_SIZE < size
      requires forall k :: k in used ==> startBlock <= k <= endBlock
      modifies this, readFn
      ensures Valid() && mode == Cached && position == old(position)
      ensures seqWindowSize == old(seqWindowSize)
      ensures touchClock == old(touchClock)
      ensures b <= runEnd <= endBlock && runEnd <= fetchLast
      ensures forall k :: b <= k <= fetchLast ==> k !in old(blocks)
      ensures runEnd < endBlock ==> fetchLast == runEnd && runEnd + 1 in old(blocks)
      ensures fetchLast > runEnd ==>
                old(lastRunEndBlock) == Some(if b == 0 then TWO_64 - 1 else b - 1) && old(seqStreak) + 1 >= STREAK_THRESHOLD
      ensures old(seqStreak) == 0 ==> fetchLast == runEnd
      ensures RunFetched(old(blocks), old(lastRunEndBlock), old(seqStreak), b, runEnd, size, fetchLast, seqStreak)
      ensures r.Ok? ==> lastRunEndBlock == Some(fetchLast) && forall k :: b <= k <= fetchLast ==> k in blocks
      ensures old(|blocks|) >= MAX_RESIDENT_BLOCKS ==> seqStreak == 0
      ensures r.Ok? && old(|blocks|) >= MAX_RESIDENT_BLOCKS ==> |blocks| >= MAX_RESIDENT_BLOCKS
      ensures readFn.calls == old(readFn.calls) + 1
      ensures r.Ok? ==> protected == used + Range(b, fetchLast + 1)
      ensures r.Ok? ==> Fetched(old(blocks), old(lastTouched), blocks, lastTouched, b, fetchLast, used)
      ensures r.Ok? ==> Bounded(blocks, startBlock, endBlock)
      ensures r.Err? ==> FetchFailure(r.error)
      ensures Reliable(readFn, baseOffset, image) ==> r.Ok?
    {
      hide Honest, Reliable, CacheValid, Fetched, Evicted, Bounded, Range;
      runEnd := MissingRun(b, endBlock);
      var isContiguous := lastRunEndBlock == Some(if b == 0 then TWO_64 - 1 else b - 1);
      seqStreak := if isContiguous then seqStreak + 1 else 1;
      var last := runEnd;
      if seqStreak >= STREAK_THRESHOLD {
        last := Widen(runEnd);
      }
      fetchLast := last;
      r, protected := FetchBlockRange(b, last, used);
      if r.Ok? {
        ServingBounded(old(blocks), old(lastTouched), blocks, lastTouched, used, startBlock, endBlock, b, last);
        FetchedHolds(old(blocks), old(lastTouched), blocks, lastTouched, b, last, used);
        lastRunEndBlock := Some(last);
      }
    }

    method ReadCached(buf: array<byte>, at: nat, len: nat) returns (r: Result<nat>)
      requires Valid() && mode == Cached && at + len <= buf.Length
      modifies this, readFn, buf
      ensures Valid() && mode == Cached
      ensures seqWindowSize == old(seqWindowSize)
      ensures r.Err? ==> position == old(position) && buf[..] == old(buf[..])
      ensures r.Ok? ==> r.value == Max(0, Min(len, size - old(position))) && position == old(position) + r.value
      ensures r.Ok? ==> buf[..] == Splice(old(buf[..]), at, Slice(image, old(position), r.value))
      ensures r.Ok? ==> readFn.calls == old(readFn.calls) + CachedTrips(old(blocks), old(position), len, size)
      ensures r.Ok? && len > 0 && old(position) < size ==>
                ReadAhead(old(blocks), old(lastRunEndBlock), old(seqStreak), blocks, lastRunEndBlock, seqStreak,
                          FirstBlock(old(position)), LastBlock(old(position), Min(size - old(position), len), size), size)
      ensures r.Err? ==> FetchFailure(r.error)
      ensures Reliable(readFn, baseOffset, image) ==> r.Ok?
    {
      hide Honest, Reliable, CacheValid, Covered, StampedFor, Bounded, ColderGone, StampedAt, MissingRuns, ReadAhead;
      var want := 0;
      if position < size {
        want := Min(size - position, len);
        if want > 0 {
          var ensured := EnsureRange(position, want);
          if ensured.Err? {
            return Err(ensured.error);
          }
        }
      }
      r := CopyResident(buf, at, len);
    }

    /** Copies out of resident blocks until the buffer, the file or the cache ends. */
    method CopyResident(buf: array<byte>, at: nat, len: nat) returns (r: Result<nat>)
      requires Valid() && mode == Cached && at + len <= buf.Length
      requires len > 0 && position < size ==>
                 Covered(blocks, FirstBlock(position), LastBlock(position, Min(size - position, len), size))
      modifies this`position, buf
      ensures Valid()
      ensures r == Ok(Max(0, Min(len, size - old(position)))) && position == old(position) + r.value
      ensures buf[..] == Splice(old(buf[..]), at, Slice(image, old(position), r.value))
    {
      hide Honest, CacheValid, Block, Covered, Slice, Splice, FirstBlock, LastBlock;
      ghost var p := position;
      ghost var was := buf[..];
      SliceNothing(image, p);
      SpliceNothing(was, at);
      var total := 0;
      while total < len && position < size
        invariant 0 <= total <= len && position == p + total
        invariant total > 0 ==> position <= size
        invariant Valid() && mode == Cached
        invariant buf[..] == Splice(was, at, Slice(image, p, total))
        decreases len - total
      {
        CoveredAt(blocks, p, len, size, position);
        var piece := ResidentPiece(len - total);
        if piece == [] {
          break;
        }
        CopyInto(buf, at + total, piece);
        SliceIs(image, position, |piece|);
        SpliceMore(image, was, at, p, total, |piece|);
        total := total + |piece|;
        position := position + |piece|;
      }
      return Ok(total);
    }

    /** The resident bytes from `position` to the end of its block, at most `limit`. */
    method ResidentPiece(limit: nat) returns (piece: seq<byte>)
      requires Valid() && position < size && limit > 0
      ensures |piece| <= limit && position + |piece| <= size
      ensures piece == image[position..position + |piece|]
      ensures position / BLOCK_SIZE in blocks ==> piece != []
    {
      var offset := position % BLOCK_SIZE;
      if position / BLOCK_SIZE !in blocks {
        return [];
      }
      var block := blocks[position / BLOCK_SIZE];
      BlockTail(image, position);
      hide Block, Honest;
      if offset >= |block| {
        return [];
      }
      var n := Min(limit, |block| - offset);
      piece := block[offset..offset + n];
      assert piece == block[offset..][..n];
    }

    predicate SeqBufferCovers(absPos: nat)
      reads this
    {
      seqBuffer != [] && seqBufferStart <= absPos < seqBufferStart + |seqBuffer|
    }

    /** What the window has from `absPos` on; nothing unless it covers it. */
    ghost function WindowLeft(absPos: nat): (n: nat)
      reads this
      ensures SeqBufferCovers(absPos) <==> n > 0
      ensures n > 0 <==> seqBufferStart <= absPos < seqBufferStart + |seqBuffer|
      ensures n > 0 ==> absPos + n == seqBufferStart + |seqBuffer|
    {
      if SeqBufferCovers(absPos) then seqBufferStart + |seqBuffer| - absPos else 0
    }

    /** Refills the window at `absPos`, as much as it holds; the reused buffer is cut to what arrived. */
    method FillSequentialWindow(absPos: nat) returns (r: Result<()>)
      requires Valid() && mode == Sequential
      modifies this, readFn
      ensures Valid() && mode == Sequential && position == old(position)
      ensures r.Ok? && absPos < size ==> SeqBufferCovers(absPos)
      ensures r.Ok? ==> seqBufferStart == absPos && |seqBuffer| == Min(seqWindowSize, Max(0, size - absPos))
      ensures seqWindowSize == old(seqWindowSize)
      ensures r.Err? ==> seqBuffer == old(seqBuffer) && seqBufferStart == old(seqBufferStart)
      ensures readFn.calls == old(readFn.calls) + (if absPos < size then 1 else 0)
      ensures r.Err? ==> FetchFailure(r.error)
      ensures Reliable(readFn, baseOffset, image) ==> r.Ok?
    {
      hide Honest, Reliable, CacheValid, Block;
      var remaining := Max(0, size - absPos);
      var toFetch := Min(remaining, seqWindowSize);
      if toFetch == 0 {
        seqBuffer := [];
        seqBufferStart := absPos;
        return Ok(());
      }
      var fetched, grown := CallReadFn(absPos, toFetch, seqBuffer);
      if fetched.Err? {
        return Err(fetched.error);
      }
      seqBuffer := grown[..fetched.value];
      seqBufferStart := absPos;
      return Ok(());
    }

    method ReadSequential(buf: array<byte>, at: nat, len: nat) returns (r: Result<nat>)
      requires Valid() && mode == Sequential && at + len <= buf.Length && position <= size
      modifies this, readFn, buf
      ensures Valid() && mode == Sequential
      ensures r.Err? ==> position == old(position) && buf[..] == old(buf[..])
      ensures r.Ok? ==> position == old(position) + r.value
      ensures r.Ok? ==> r.value == SequentialCount(old(WindowLeft(position)), seqWindowSize, len, size - old(position))
      ensures seqWindowSize == old(seqWindowSize)
      ensures r.Ok? ==> buf[..] == Splice(old(buf[..]), at, Slice(image, old(position), r.value))
      ensures readFn.calls == old(readFn.calls) + SequentialTrips(old(SeqBufferCovers(position)), old(position), len, size)
      ensures r.Err? ==> FetchFailure(r.error)
      ensures Reliable(readFn, baseOffset, image) ==> r.Ok?
    {
      hide Honest, Reliable, CacheValid, Block, Slice, Splice, FetchFailure;
      SliceNothing(image, position);
      SpliceNothing(buf[..], at);
      var remaining := size - position;
      var want := Min(len, remaining);
      if want == 0 {
        return Ok(0);
      }
      if !SeqBufferCovers(position) {
        var filled := FillSequentialWindow(position);
        if filled.Err? {
          return Err(filled.error);
        }
      }
      r := Ok(0);
      if seqBuffer != [] {
        var n := CopyWindow(buf, at, want);
        r := Ok(n);
      }
    }

    /** Copies out of the window, up to its end. */
    method CopyWindow(buf: array<byte>, at: nat, want: nat) returns (n: nat)
      requires Valid() && mode == Sequential && SeqBufferCovers(position)
      requires want > 0 && at + want <= buf.Length && position + want <= size
      modifies this`position, buf
      ensures Valid() && position == old(position) + n && n == Min(want, old(WindowLeft(position)))
      ensures buf[..] == Splice(old(buf[..]), at, Slice(image, old(position), n))
    {
      hide Honest, CacheValid, Block, Slice, Splice;
      var offset := position - seqBufferStart;
      n := Min(want, |seqBuffer| - offset);
      WindowSlice(image, seqBuffer, seqBufferStart, position, n);
      CopyInto(buf, at, seqBuffer[offset..offset + n]);
      position := position + n;
    }

    /**
     `Read for JsReader`. In either mode a successful read delivers the file's bytes at the
     position; in Cached mode it delivers all that were asked for and exist. A failed read
     moves nothing and writes nothing.
     */
    method Read(buf: array<byte>, at: nat, len: nat) returns (r: Result<nat>)
      requires Valid() && at + len <= buf.Length
      modifies this, readFn, buf
      ensures Valid() && mode == old(mode)
      ensures r.Err? ==> position == old(position) && buf[..] == old(buf[..])
      ensures r.Ok? ==> position == old(position) + r.value && r.value <= Max(0, Min(len, size - old(position)))
      ensures r.Ok? && len > 0 && old(position) < size ==> r.value > 0
      ensures r.Ok? && mode == Cached ==> r.value == Max(0, Min(len, size - old(position)))
      ensures r.Ok? && mode == Sequential ==>
                r.value == SequentialCount(old(WindowLeft(position)), seqWindowSize, len, Max(0, size - old(position)))
      ensures seqWindowSize == old(seqWindowSize)
      ensures r.Ok? && mode == Cached ==> readFn.calls == old(readFn.calls) + CachedTrips(old(blocks), old(position), len, size)
      ensures r.Ok? && mode == Cached && len > 0 && old(position) < size ==>
                ReadAhead(old(blocks), old(lastRunEndBlock), old(seqStreak), blocks, lastRunEndBlock, seqStreak,
                          FirstBlock(old(position)), LastBlock(old(position), Min(size - old(position), len), size), size)
      ensures mode == Sequential ==>
                readFn.calls == old(readFn.calls) + SequentialTrips(old(SeqBufferCovers(position)), old(position), len, size)
      ensures r.Ok? ==> buf[..] == Splice(old(buf[..]), at, Slice(image, old(position), r.value))
      ensures r.Err? ==> FetchFailure(r.error)
      ensures Reliable(readFn, baseOffset, image) ==> r.Ok?
    {
      hide Honest, Reliable, CacheValid, Block, Slice, Splice, FetchFailure, ReadAhead;
      if len == 0 || position >= size {
        SliceNothing(image, position);
        SpliceNothing(buf[..], at);
        return Ok(0);
      }
      match mode {
        case Sequential => r := ReadSequential(buf, at, len);
        case Cached => r := ReadCached(buf, at, len);
      }
    }

    method Seek(pos: SeekFrom) returns (r: Result<nat>)
      requires Valid()
      modifies this`position
      ensures Valid()
      ensures r == SeekTarget(pos, old(position), size)
      ensures position == if r.Ok? then r.value else old(position)
    {
      var target: int;
      match pos {
        case Start(n) =>
          if n >= TWO_63 { return Err(SeekTooLarge); }
          target := n;
        case End(n) =>
          if size >= TWO_63 { return Err(SeekTooLarge); }
          if size + n >= TWO_63 { return Err(SeekOverflow); }
          target := size + n;
        case Current(n) =>
          if position >= TWO_63 { return Err(SeekTooLarge); }
          if position + n >= TWO_63 { return Err(SeekOverflow); }
          target := position + n;
      }
      if target < 0 {
        return Err(SeekBeforeStart);
      }
      position := target;
      return Ok(position);
    }

    /**
     `Read::read_exact`: reads until `buf[at..at + len]` is full. It fails only when the
     file ends first or a fetch fails, and then too whatever it wrote is the file's.
     */
    method ReadExact(buf: array<byte>, at: nat, len: nat) returns (r: Result<()>)
      requires Valid() && at + len <= buf.Length
      modifies this, readFn, buf
      ensures Valid() && mode == old(mode)
      ensures old(position) <= position <= old(position) + len
      ensures buf[..] == Splice(old(buf[..]), at, Slice(image, old(position), position - old(position)))
      ensures r.Ok? ==> position == old(position) + len && (len > 0 ==> position <= size)
      ensures r.Err? ==> FetchFailure(r.error) || (r.error == UnexpectedEof && position >= size)
      ensures Reliable(readFn, baseOffset, image) ==> (r.Ok? <==> len == 0 || old(position) + len <= size)
    {
      hide Honest, Reliable, CacheValid, Block, Slice, Splice, FetchFailure;
      ghost var p := position;
      ghost var was := buf[..];
      SliceNothing(image, p);
      SpliceNothing(was, at);
      var done := 0;
      while done < len
        invariant 0 <= done <= len && position == p + done
        invariant done > 0 ==> position <= size
        invariant Valid() && mode == old(mode)
        invariant buf[..] == Splice(was, at, Slice(image, p, done))
        decreases len - done
      {
        ghost var cur := buf[..];
        var got := Read(buf, at + done, len - done);
        if got.Err? {
          return Err(got.error);
        }
        if got.value == 0 {
          SliceNothing(image, position);
          SpliceNothing(cur, at + done);
          return Err(UnexpectedEof);
        }
        SpliceMore(image, was, at, p, done, got.value);
        done := done + got.value;
      }
      return Ok(());
    }

    /**
     Drives the reader through any list of operations and records what each returned. With
     fetches failing anywhere, what comes back is always a run of the plain file.
     */
    method Replay(ops: seq<Op>) returns (outcomes: seq<Outcome>, ghost states: seq<Cursor>)
      requires Valid()
      modifies this, readFn
      ensures Valid()
      ensures IsRun(image, ops, outcomes, states)
      ensures states[0] == Cursor(old(position), old(mode) == Sequential)
      ensures states[|ops|] == Cursor(position, mode == Sequential)
      ensures Reliable(readFn, baseOffset, image) ==> ReadFailed !in outcomes
    {
      hide Honest, Reliable, CacheValid, Block, Slice, Step;
      outcomes := [];
      states := [Cursor(position, mode == Sequential)];
      for i := 0 to |ops|
        invariant Valid() && |outcomes| == i && |states| == i + 1
        invariant IsRun(image, ops[..i], outcomes, states)
        invariant states[0] == Cursor(old(position), old(mode) == Sequential)
        invariant states[i] == Cursor(position, mode == Sequential)
        invariant Reliable(readFn, baseOffset, image) ==> ReadFailed !in outcomes
      {
        var outcome := Apply(ops[i]);
        outcomes := outcomes + [outcome];
        states := states + [Cursor(position, mode == Sequential)];
      }
      assert ops[..|ops|] == ops;
    }

    method Apply(op: Op) returns (outcome: Outcome)
      requires Valid()
      modifies this, readFn
      ensures Valid()
      ensures Step(image, Cursor(old(position), old(mode) == Sequential), op, outcome,
                   Cursor(position, mode == Sequential))
      ensures Reliable(readFn, baseOffset, image) ==> outcome != ReadFailed
    {
      hide Honest, Reliable, CacheValid, Block;
      match op {
        case DoRead(len) =>
          var buf := new byte[len];
          var got := Read(buf, 0, len);
          if got.Err? {
            return ReadFailed;
          }
          assert buf[..got.value] == buf[..][..got.value] == Slice(image, old(position), got.value);
          return ReadOk(buf[..got.value]);
        case DoSeek(pos) =>
          var target := Seek(pos);
          return SeekDone(target);
        case DoMode(sequential) =>
          SetSequentialMode(sequential);
          return Done;
        case DoWindow(bytes) =>
          SetSequentialWindow(bytes);
          return Done;
      }
    }
  }
}
