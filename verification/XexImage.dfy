/** The XEX "basic" decompressor: runs of copied bytes and zeros, with an early stop. */
module XexImage {
  import opened Common

  const MAX_XEX_IMAGE_SIZE: nat := 512 * 1024 * 1024

  /** So many bytes of the body, then so many zeros. */
  datatype Run = Run(data: nat, zero: nat)

  function DataLength(runs: seq<Run>): nat {
    if runs == [] then 0 else DataLength(runs[..|runs| - 1]) + runs[|runs| - 1].data
  }

  function ImageLength(runs: seq<Run>): nat {
    if runs == [] then 0 else ImageLength(runs[..|runs| - 1]) + runs[|runs| - 1].data + runs[|runs| - 1].zero
  }

  /** The whole image the runs describe, no limit applied. */
  function Image(body: seq<byte>, runs: seq<Run>): (r: seq<byte>)
    requires DataLength(runs) <= |body|
    ensures |r| == ImageLength(runs)
  {
    if runs == [] then []
    else
      var init, last := runs[..|runs| - 1], runs[|runs| - 1];
      Image(body, init) + body[DataLength(init)..DataLength(init) + last.data] + Zeros(last.zero)
  }

  lemma ImageUnfolds(body: seq<byte>, runs: seq<Run>, init: seq<Run>, last: Run)
    requires runs != [] && runs[..|runs| - 1] == init && runs[|runs| - 1] == last && DataLength(runs) <= |body|
    ensures DataLength(init) + last.data <= |body|
    ensures Image(body, runs) == Image(body, init) + body[DataLength(init)..DataLength(init) + last.data] + Zeros(last.zero)
  {
    hide ImageLength, Zeros;
  }

  lemma {:induction false} LengthsGrow(runs: seq<Run>, n: nat)
    requires n <= |runs|
    ensures DataLength(runs[..n]) <= DataLength(runs) && ImageLength(runs[..n]) <= ImageLength(runs)
    decreases |runs|
  {
    if n == |runs| {
      assert runs[..n] == runs;
    } else {
      LengthsGrow(runs[..|runs| - 1], n);
      assert runs[..|runs| - 1][..n] == runs[..n];
    }
  }

  /** Fewer runs describe a front piece of the same image. */
  lemma {:induction false} ImagePrefix(body: seq<byte>, runs: seq<Run>, n: nat)
    requires n <= |runs| && DataLength(runs) <= |body|
    ensures DataLength(runs[..n]) <= |body| && ImageLength(runs[..n]) <= ImageLength(runs)
    ensures Image(body, runs)[..ImageLength(runs[..n])] == Image(body, runs[..n])
    decreases |runs|
  {
    if n == |runs| {
      assert runs[..n] == runs;
    } else {
      var init := runs[..|runs| - 1];
      LengthsGrow(runs, |runs| - 1);
      ImagePrefix(body, init, n);
      assert init[..n] == runs[..n];
      ImageUnfolds(body, runs, init, runs[|runs| - 1]);
      hide *;
      FrontKept(Image(body, init), body[DataLength(init)..DataLength(init) + runs[|runs| - 1].data], Zeros(runs[|runs| - 1].zero),
                ImageLength(runs[..n]));
    }
  }

  lemma FrontKept(a: seq<byte>, b: seq<byte>, c: seq<byte>, n: nat)
    requires n <= |a|
    ensures (a + b + c)[..n] == a[..n]
  {
  }

  /** `out` is as much of the image of the first `n` runs as the cap lets through. */
  ghost predicate Decoded(body: seq<byte>, runs: seq<Run>, n: nat, cap: nat, out: seq<byte>) {
    && n <= |runs| && DataLength(runs[..n]) <= |body|
    && out == Image(body, runs[..n])[..Min(cap, ImageLength(runs[..n]))]
  }

  /** How many runs are decoded before the output has reached the cap. */
  ghost predicate RunsNeeded(runs: seq<Run>, cap: nat, n: nat) {
    && n <= |runs|
    && (forall m :: 0 <= m < n ==> ImageLength(runs[..m]) < cap)
    && (n < |runs| ==> ImageLength(runs[..n]) >= cap)
  }

  function Cap(target: Option<nat>): nat {
    match target case None => MAX_XEX_IMAGE_SIZE case Some(len) => Min(len, MAX_XEX_IMAGE_SIZE)
  }

  /** `Vec::resize`. */
  function Resize(out: seq<byte>, n: nat): seq<byte> {
    if n <= |out| then out[..n] else out + Zeros(n - |out|)
  }

  /** One run more: what it adds to the data used and to the length. */
  lemma LengthStep(runs: seq<Run>, n: nat)
    requires n < |runs|
    ensures DataLength(runs[..n + 1]) == DataLength(runs[..n]) + runs[n].data
    ensures ImageLength(runs[..n + 1]) == ImageLength(runs[..n]) + runs[n].data + runs[n].zero
  {
    FrontOf(runs, n);
  }

  lemma FrontOf(runs: seq<Run>, n: nat)
    requires n < |runs|
    ensures var front := runs[..n + 1]; front != [] && front[..|front| - 1] == runs[..n] && front[|front| - 1] == runs[n]
  {
  }

  /** What it adds to the image. */
  lemma ImageStep(body: seq<byte>, runs: seq<Run>, n: nat)
    requires n < |runs| && DataLength(runs[..n]) + runs[n].data <= |body|
    ensures DataLength(runs[..n + 1]) <= |body|
    ensures var from := DataLength(runs[..n]);
            Image(body, runs[..n + 1]) == Image(body, runs[..n]) + body[from..from + runs[n].data] + Zeros(runs[n].zero)
  {
    hide *;
    LengthStep(runs, n);
    FrontOf(runs, n);
    ImageUnfolds(body, runs[..n + 1], runs[..n], runs[n]);
  }

  /**
   What every run stands for in the image: its data, copied from where the runs before it have
   stopped reading, at the place where they have stopped writing, and then its zeros.
   */
  lemma ImageMeaning(body: seq<byte>, runs: seq<Run>, n: nat)
    requires n < |runs| && DataLength(runs) <= |body|
    ensures var at, from := ImageLength(runs[..n]), DataLength(runs[..n]);
            var data, zero := runs[n].data, runs[n].zero;
            && at + data + zero == ImageLength(runs[..n + 1]) <= |Image(body, runs)| && from + data == DataLength(runs[..n + 1]) <= |body|
            && Image(body, runs)[at..at + data] == body[from..from + data]
            && forall i :: at + data <= i < at + data + zero ==> Image(body, runs)[i] == 0
  {
    hide *;
    LengthStep(runs, n);
    LengthsGrow(runs, n + 1);
    ImageStep(body, runs, n);
    ImagePrefix(body, runs, n + 1);
    var from := DataLength(runs[..n]);
    RunInside(Image(body, runs), Image(body, runs[..n]), body[from..from + runs[n].data], runs[n].zero);
  }

  lemma RunInside(whole: seq<byte>, before: seq<byte>, data: seq<byte>, zero: nat)
    requires |before| + |data| + zero <= |whole| && whole[..|before| + |data| + zero] == before + data + Zeros(zero)
    ensures whole[|before|..|before| + |data|] == data
    ensures forall i :: |before| + |data| <= i < |before| + |data| + zero ==> whole[i] == 0
  {
    var front := whole[..|before| + |data| + zero];
    forall i | 0 <= i < |front| ensures whole[i] == front[i] {
    }
  }

  /** The output is cut at 512 MiB, or at the target if that is less. */
  lemma CapMeaning(len: nat)
    ensures Cap(None) == 0x2000_0000 && Cap(Some(len)) == if len < 0x2000_0000 then len else 0x2000_0000
  {
  }

  lemma ResizeKeeps(grown: seq<byte>, zero: nat, cap: nat)
    ensures Resize(grown, Min(|grown| + zero, cap)) == (grown + Zeros(zero))[..Min(cap, |grown| + zero)]
  {
  }

  lemma DecodeStep(body: seq<byte>, runs: seq<Run>, n: nat, cap: nat, out: seq<byte>)
    requires Decoded(body, runs, n, cap, out) && n < |runs| && |out| < cap
    requires DataLength(runs[..n]) + runs[n].data <= |body|
    ensures var from := DataLength(runs[..n]);
            var grown := out + body[from..from + runs[n].data];
            Decoded(body, runs, n + 1, cap, Resize(grown, Min(|grown| + runs[n].zero, cap)))
    ensures DataLength(runs[..n + 1]) == DataLength(runs[..n]) + runs[n].data
  {
    hide Image, DataLength, ImageLength, Zeros, Resize;
    LengthStep(runs, n);
    ImageStep(body, runs, n);
    assert out == Image(body, runs[..n]);
    var from := DataLength(runs[..n]);
    ResizeKeeps(out + body[from..from + runs[n].data], runs[n].zero, cap);
  }

  lemma DecodeStart(body: seq<byte>, runs: seq<Run>, cap: nat)
    ensures Decoded(body, runs, 0, cap, [])
  {
    assert runs[..0] == [];
  }

  /**
   What the decompressor promises of a result: the `n` runs up to the cap decide. Their data
   must be there, and without a target below the sanity limit their output must stay below it.
   */
  ghost predicate Decompressed(body: seq<byte>, runs: seq<Run>, target: Option<nat>, result: Result<seq<byte>>, n: nat) {
    && RunsNeeded(runs, Cap(target), n)
    && (result.Ok? <==>
          && DataLength(runs[..n]) <= |body|
          && (Cap(target) < MAX_XEX_IMAGE_SIZE || ImageLength(runs[..n]) < MAX_XEX_IMAGE_SIZE))
    && (result.Ok? ==> Decoded(body, runs, n, Cap(target), result.value))
    && (result.Err? ==> result.error == if DataLength(runs[..n]) > |body| then Truncated else TooLarge)
  }

  /** `decompress_basic`. */
  method DecompressBasic(body: seq<byte>, runs: seq<Run>, target: Option<nat>) returns (result: Result<seq<byte>>, ghost n: nat)
    ensures Decompressed(body, runs, target, result, n)
    ensures result.Ok? ==> |result.value| <= Cap(target)
  {
    hide Decoded, DataLength, ImageLength, Resize, Image;
    var input, out: seq<byte> := body, [];
    var cap := Cap(target);
    DecodeStart(body, runs, cap);
    var i := 0;
    DecodedMeaning(body, runs, 0, cap, out);
    while i < |runs| && |out| < cap
      invariant 0 <= i <= |runs| && Decoded(body, runs, i, cap, out)
      invariant DataLength(runs[..i]) <= |body| && input == body[DataLength(runs[..i])..]
      invariant |out| == Min(cap, ImageLength(runs[..i]))
      invariant forall m :: 0 <= m < i ==> ImageLength(runs[..m]) < cap
      invariant |out| < MAX_XEX_IMAGE_SIZE
    {
      var run := runs[i];
      if |input| < run.data {
        n := NeededRuns(runs, cap, i);
        MoreData(runs, i, n);
        return Err(Truncated), n;
      }
      DecodeStep(body, runs, i, cap, out);
      ghost var from := DataLength(runs[..i]);
      assert input[..run.data] == body[from..from + run.data] && input[run.data..] == body[from + run.data..];
      out := out + input[..run.data];
      out := Resize(out, Min(|out| + run.zero, cap));
      input := input[run.data..];
      DecodedMeaning(body, runs, i + 1, cap, out);
      if |out| >= MAX_XEX_IMAGE_SIZE {
        n := i + 1;
        return Err(TooLarge), n;
      }
      i := i + 1;
    }
    n := i;
    result := Ok(out);
  }

  lemma DecodedMeaning(body: seq<byte>, runs: seq<Run>, n: nat, cap: nat, out: seq<byte>)
    requires Decoded(body, runs, n, cap, out)
    ensures n <= |runs| && DataLength(runs[..n]) <= |body| && |out| == Min(cap, ImageLength(runs[..n])) && |out| <= cap
    ensures ImageLength([]) == 0 && DataLength([]) == 0
  {
  }

  /** The number of runs needed, known to be more than `i`. */
  lemma NeededRuns(runs: seq<Run>, cap: nat, i: nat) returns (n: nat)
    requires i < |runs| && forall m :: 0 <= m <= i ==> ImageLength(runs[..m]) < cap
    ensures RunsNeeded(runs, cap, n) && n > i
  {
    n := i + 1;
    while n < |runs| && ImageLength(runs[..n]) < cap
      invariant i < n <= |runs| && forall m :: 0 <= m < n ==> ImageLength(runs[..m]) < cap
    {
      n := n + 1;
    }
  }

  lemma MoreData(runs: seq<Run>, i: nat, n: nat)
    requires i < n <= |runs|
    ensures DataLength(runs[..n]) >= DataLength(runs[..i]) + runs[i].data
  {
    LengthsGrow(runs[..n], i + 1);
    assert runs[..n][..i + 1] == runs[..i + 1];
    assert runs[..i + 1][..i] == runs[..i];
  }

  /** Stopping early gives a front piece of the full image, and never fails where the full run succeeds. */
  lemma EarlyStopIsPrefix(body: seq<byte>, runs: seq<Run>, full: Result<seq<byte>>, nFull: nat,
                          t: nat, early: Result<seq<byte>>, nEarly: nat)
    requires Decompressed(body, runs, None, full, nFull) && full.Ok?
    requires t < MAX_XEX_IMAGE_SIZE && Decompressed(body, runs, Some(t), early, nEarly)
    ensures early == Ok(full.value[..Min(t, |full.value|)])
  {
    hide Image, DataLength, ImageLength;
    FullNeedsAll(body, runs, full, nFull);
    ImagePrefix(body, runs, nEarly);
    LengthsGrow(runs, nEarly);
    assert runs[..|runs|] == runs;
    var whole, len := Image(body, runs), ImageLength(runs[..nEarly]);
    assert full.value == whole;
    assert Min(t, len) == Min(t, |whole|);
    PrefixOfPrefix(whole, len, Min(t, len));
  }

  lemma PrefixOfPrefix(s: seq<byte>, n: nat, m: nat)
    requires m <= n <= |s|
    ensures s[..n][..m] == s[..m]
  {
  }

  /** Below the limit nothing stops a full run before its last run. */
  lemma FullNeedsAll(body: seq<byte>, runs: seq<Run>, full: Result<seq<byte>>, nFull: nat)
    requires Decompressed(body, runs, None, full, nFull) && full.Ok?
    ensures nFull == |runs| && ImageLength(runs) < MAX_XEX_IMAGE_SIZE && DataLength(runs) <= |body|
  {
    assert nFull == |runs|;
    assert runs[..|runs|] == runs;
  }

  /** `decompress_none` stops early in the same sense. */
  function DecompressNone(body: seq<byte>, target: Option<nat>): (r: seq<byte>)
    ensures r == body[..Min(|body|, if target.Some? then target.value else |body|)]
  {
    match target
    case Some(len) => if len < |body| then body[..len] else body
    case None => body
  }
}
