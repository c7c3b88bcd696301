/**
 Morton un-swizzling: the masks that interleave the axes, the scatter of coordinate bits
 into them, and the copy of every texel to its linear place.
 */
module Swizzle {
  import opened Common

  const U32: nat := 0x1_0000_0000
  const TWO_31: nat := 0x8000_0000

  // ----------------------------------------------------------------------- bits

  /** `n << k`, unbounded. */
  function Scale(k: nat, n: nat): nat {
    if k == 0 then n else 2 * Scale(k - 1, n)
  }

  lemma {:induction false} ScaleSum(k: nat, a: nat, b: nat)
    ensures Scale(k, a + b) == Scale(k, a) + Scale(k, b)
  {
    if k > 0 {
      ScaleSum(k - 1, a, b);
    }
  }

  lemma {:induction false} ScaleBasics(k: nat, n: nat)
    ensures Scale(k, 0) == 0 && Scale(k, 1) == Pow2(k) && Scale(k, 2 * n) == Scale(k + 1, n)
  {
    if k > 0 {
      ScaleBasics(k - 1, n);
    }
  }

  /** The lowest bit of a shifted number, and the number without it. */
  lemma ScaleSplit(k: nat, n: nat)
    ensures Scale(k, n) == (if n % 2 == 1 then Pow2(k) else 0) + Scale(k + 1, n / 2)
  {
    ScaleSum(k, n % 2, 2 * (n / 2));
    ScaleBasics(k, n / 2);
    assert n == n % 2 + 2 * (n / 2);
  }

  /** Bitwise or and and, bit by bit from the low end. */
  function Or(a: nat, b: nat): nat {
    if a == 0 && b == 0 then 0 else Max(a % 2, b % 2) + 2 * Or(a / 2, b / 2)
  }

  function And(a: nat, b: nat): nat {
    if a == 0 || b == 0 then 0 else Min(a % 2, b % 2) + 2 * And(a / 2, b / 2)
  }

  /** `bit << 1` on 32 bits. */
  function Shl(bit: nat): nat { (2 * bit) % U32 }

  function PopCount(p: nat): nat { if p == 0 then 0 else p % 2 + PopCount(p / 2) }

  /** The 32-bit value of `1 << n`: zero once the bit has left the word. */
  function BitAt(n: nat): nat { if n < 32 then Pow2(n) else 0 }

  lemma Pow2At32()
    ensures Pow2(32) == U32 && Pow2(31) == TWO_31
  {
    assert Pow2(8) == 256;
    assert Pow2(16) == 0x1_0000;
    assert Pow2(24) == 0x100_0000;
    assert Pow2(31) == TWO_31;
  }

  lemma {:induction false} Pow2Sum(a: nat, b: nat)
    ensures Pow2(a + b) == Pow2(a) * Pow2(b)
  {
    if a > 0 {
      Pow2Sum(a - 1, b);
      assert Pow2(a) == 2 * Pow2(a - 1) && Pow2(a + b) == 2 * Pow2(a - 1 + b);
      hide Pow2;
      DoubleFirst(Pow2(a - 1), Pow2(b));
    }
  }

  lemma DoubleFirst(a: nat, b: nat)
    ensures 2 * (a * b) == (2 * a) * b
  {
  }

  /** Shifting the running bit left: the next bit, or zero after the last. */
  lemma ShlBit(n: nat)
    ensures Shl(BitAt(n)) == BitAt(n + 1)
  {
    Pow2At32();
    if n < 31 {
      Pow2Monotone(n + 1, 31);
    }
  }

  /** Setting a bit above everything set so far adds it. */
  lemma {:induction false} OrAbove(x: nat, k: nat)
    requires x < Pow2(k)
    ensures Or(x, Pow2(k)) == x + Pow2(k)
  {
    if k == 0 {
      assert Or(0, 0) == 0;
      assert Or(0, 1) == 1;
    } else {
      OrAbove(x / 2, k - 1);
    }
  }

  lemma {:induction false} OrZero(x: nat)
    ensures Or(x, 0) == x
  {
    if x > 0 {
      OrZero(x / 2);
    }
  }

  /** Testing bit `k` of a number given as its bits below `k` and the rest. */
  lemma {:induction false} AndBit(low: nat, rest: nat, k: nat)
    requires low < Pow2(k)
    ensures And(low + Scale(k, rest), Pow2(k)) != 0 <==> rest % 2 == 1
  {
    if k == 0 {
      assert And(rest / 2, 0) == 0;
    } else {
      AndBit(low / 2, rest, k - 1);
      var p := low + Scale(k, rest);
      assert p / 2 == low / 2 + Scale(k - 1, rest) && Pow2(k) / 2 == Pow2(k - 1) && Pow2(k) % 2 == 0;
    }
  }

  // ---------------------------------------------------------------- fill_pattern

  /** `value`'s bits, lowest first, at the positions `pattern` marks. */
  function Fill(pattern: nat, value: nat): nat {
    if pattern == 0 then 0
    else if pattern % 2 == 1 then value % 2 + 2 * Fill(pattern / 2, value / 2)
    else 2 * Fill(pattern / 2, value)
  }

  lemma {:induction false} FillZero(pattern: nat)
    ensures Fill(pattern, 0) == 0
  {
    if pattern > 0 {
      FillZero(pattern / 2);
    }
  }

  /** The loop variables of `fill_pattern`, and one turn of its loop. */
  datatype Scatter = Scatter(bit: nat, value: nat, result: nat)

  function Turn(pattern: nat, s: Scatter): Scatter {
    if And(pattern, s.bit) != 0 then
      Scatter(Shl(s.bit), s.value / 2, Or(s.result, if s.value % 2 != 0 then s.bit else 0))
    else Scatter(Shl(s.bit), s.value, s.result)
  }

  function Turns(pattern: nat, s: Scatter, n: nat): Scatter {
    if n == 0 then s else Turn(pattern, Turns(pattern, s, n - 1))
  }

  /** The loop condition fails after some number of turns. */
  ghost predicate Halts(pattern: nat, value: nat) {
    exists n :: Turns(pattern, Scatter(1, value, 0), n).value == 0
  }

  /** Where the loop stands after `k` turns: the pattern is cut at bit `k`, and the rest is still to be filled. */
  ghost predicate Midway(pattern: nat, value: nat, k: nat, low: nat, rest: nat, s: Scatter) {
    && low < Pow2(k) && pattern == low + Scale(k, rest)
    && s.bit == BitAt(k) && s.result < Pow2(k)
    && s.result + Scale(k, Fill(rest, s.value)) == Fill(pattern, value)
    && (value < Pow2(PopCount(pattern)) <==> s.value < Pow2(PopCount(rest)))
  }

  function LowBit(k: nat, rest: nat): nat { if rest % 2 == 1 then Pow2(k) else 0 }

  lemma MidwayTurn(pattern: nat, value: nat, k: nat, low: nat, rest: nat, s: Scatter)
    requires k < 32 && Midway(pattern, value, k, low, rest, s)
    ensures Midway(pattern, value, k + 1, low + LowBit(k, rest), rest / 2, Turn(pattern, s))
  {
    AndBit(low, rest, k);
    ShlBit(k);
    OrAbove(s.result, k);
    OrZero(s.result);
    ScaleSplit(k, rest);
    ScaleSplit(k, Fill(rest, s.value));
    FillStep(rest, s.value);
    PopStep(rest, s.value);
    hide And, Or, Shl, Fill, PopCount, Scale;
  }

  lemma FillStep(rest: nat, v: nat)
    ensures Fill(rest, v) % 2 == if rest % 2 == 1 then v % 2 else 0
    ensures Fill(rest, v) / 2 == Fill(rest / 2, if rest % 2 == 1 then v / 2 else v)
  {
    if rest == 0 {
      assert Fill(0, v) == 0;
    }
  }

  lemma PopStep(rest: nat, v: nat)
    ensures v < Pow2(PopCount(rest)) <==> (if rest % 2 == 1 then v / 2 else v) < Pow2(PopCount(rest / 2))
  {
    hide Pow2, PopCount;
    PopHalf(rest);
    if rest % 2 == 1 {
      HalfBelow(v, PopCount(rest / 2));
    }
  }

  lemma PopHalf(rest: nat)
    ensures PopCount(rest) == if rest % 2 == 1 then PopCount(rest / 2) + 1 else PopCount(rest / 2)
  {
  }

  lemma HalfBelow(v: nat, k: nat)
    ensures v < Pow2(k + 1) <==> v / 2 < Pow2(k)
  {
  }

  /** A 32-bit pattern has no bits left after 32 turns. */
  lemma NothingAbove(pattern: nat, low: nat, rest: nat)
    requires pattern < U32 && low < Pow2(32) && pattern == low + Scale(32, rest)
    ensures rest == 0
  {
    Pow2At32();
    if rest > 0 {
      ScaleSum(32, 1, rest - 1);
      ScaleBasics(32, 0);
    }
  }

  /** After `n` turns, `n` at most 32, the loop stands midway. */
  lemma {:induction false} TurnsMidway(pattern: nat, value: nat, n: nat) returns (low: nat, rest: nat)
    requires n <= 32
    ensures Midway(pattern, value, n, low, rest, Turns(pattern, Scatter(1, value, 0), n))
  {
    if n == 0 {
      low, rest := 0, pattern;
    } else {
      low, rest := TurnsMidway(pattern, value, n - 1);
      MidwayTurn(pattern, value, n - 1, low, rest, Turns(pattern, Scatter(1, value, 0), n - 1));
      low, rest := low + LowBit(n - 1, rest), rest / 2;
    }
  }

  /** Once the bit has left the word nothing changes any more. */
  lemma {:induction false} TurnsStuck(pattern: nat, value: nat, n: nat)
    requires n >= 32
    ensures var s := Turns(pattern, Scatter(1, value, 0), n);
            s.bit == 0 && s.value == Turns(pattern, Scatter(1, value, 0), 32).value
  {
    if n == 32 {
      var low, rest := TurnsMidway(pattern, value, 32);
    } else {
      TurnsStuck(pattern, value, n - 1);
    }
  }

  /** `fill_pattern` ends exactly when the value has no more bits than the pattern has places. */
  lemma HaltsExactly(pattern: nat, value: nat)
    requires pattern < U32
    ensures Halts(pattern, value) <==> value < Pow2(PopCount(pattern))
  {
    var init := Scatter(1, value, 0);
    var low, rest := TurnsMidway(pattern, value, 32);
    NothingAbove(pattern, low, rest);
    assert value < Pow2(PopCount(pattern)) <==> Turns(pattern, init, 32).value == 0;
    if n :| Turns(pattern, init, n).value == 0 {
      if n >= 32 {
        TurnsStuck(pattern, value, n);
      } else {
        var l, r := TurnsMidway(pattern, value, n);
      }
    }
  }

  /** `fill_pattern`, called within its domain. */
  method FillPattern(pattern: nat, valueIn: nat) returns (result: nat)
    requires pattern < U32 && valueIn < Pow2(PopCount(pattern))
    ensures result == Fill(pattern, valueIn)
  {
    result := 0;
    var bit: nat, value: nat := 1, valueIn;
    ghost var k: nat, low: nat, rest: nat := 0, 0, pattern;
    while value != 0
      invariant k <= 32 && Midway(pattern, valueIn, k, low, rest, Scatter(bit, value, result))
      decreases 32 - k
    {
      hide Midway, And, Or, Shl;
      MidwayGoesOn(pattern, valueIn, k, low, rest, Scatter(bit, value, result));
      MidwayTurn(pattern, valueIn, k, low, rest, Scatter(bit, value, result));
      if And(pattern, bit) != 0 {
        result := Or(result, if value % 2 != 0 then bit else 0);
        value := value / 2;
      }
      bit := Shl(bit);
      low, rest := low + LowBit(k, rest), rest / 2;
      k := k + 1;
    }
    FillZero(rest);
    ScaleBasics(k, 0);
  }

  /** Bits of the value left over: bits of the pattern too. */
  lemma MidwayGoesOn(pattern: nat, value: nat, k: nat, low: nat, rest: nat, s: Scatter)
    requires k <= 32 && Midway(pattern, value, k, low, rest, s) && s.value != 0
    requires pattern < U32 && value < Pow2(PopCount(pattern))
    ensures k < 32
  {
    if k == 32 {
      NothingAbove(pattern, low, rest);
    }
  }

  // -------------------------------------------------------------------- the masks

  datatype Axis = X | Y | Z

  /** Which axis owns each bit of the swizzled offset, lowest bit first, from coordinate bit `bit` on. */
  function Plan(w: nat, h: nat, d: nat, bit: nat): seq<Axis>
    requires bit > 0
    decreases Max(w, Max(h, d)) - bit
  {
    if bit >= w && bit >= h && bit >= d then []
    else Round(w, h, d, bit) + Plan(w, h, d, 2 * bit)
  }

  function Round(w: nat, h: nat, d: nat, bit: nat): seq<Axis> {
    (if bit < w then [X] else []) + (if bit < h then [Y] else []) + (if bit < d then [Z] else [])
  }

  function MaskOf(axis: Axis, plan: seq<Axis>): nat {
    if plan == [] then 0 else (if plan[0] == axis then 1 else 0) + 2 * MaskOf(axis, plan[1..])
  }

  function Count(axis: Axis, plan: seq<Axis>): nat {
    if plan == [] then 0 else (if plan[0] == axis then 1 else 0) + Count(axis, plan[1..])
  }

  /** A plan cut to the 32 bits a mask can hold. */
  function Word(plan: seq<Axis>): seq<Axis> { plan[..Min(32, |plan|)] }

  lemma {:induction false} MaskSnoc(axis: Axis, plan: seq<Axis>, a: Axis)
    ensures MaskOf(axis, plan + [a]) == MaskOf(axis, plan) + (if a == axis then Pow2(|plan|) else 0)
  {
    if plan == [] {
      assert (plan + [a])[1..] == [];
    } else {
      assert (plan + [a])[1..] == plan[1..] + [a];
      MaskSnoc(axis, plan[1..], a);
    }
  }

  /** The masks together fill the low bits without overlap: every bit belongs to one axis. */
  lemma {:induction false} MasksPartition(plan: seq<Axis>)
    ensures MaskOf(X, plan) + MaskOf(Y, plan) + MaskOf(Z, plan) == Pow2(|plan|) - 1
    ensures forall a, b: Axis :: a != b ==> And(MaskOf(a, plan), MaskOf(b, plan)) == 0
  {
    if plan != [] {
      MasksPartition(plan[1..]);
      forall a, b: Axis | a != b ensures And(MaskOf(a, plan), MaskOf(b, plan)) == 0 {
        MasksApart(a, b, plan);
      }
    }
  }

  lemma {:induction false} MasksApart(a: Axis, b: Axis, plan: seq<Axis>)
    requires a != b
    ensures And(MaskOf(a, plan), MaskOf(b, plan)) == 0
  {
    if plan != [] {
      MasksApart(a, b, plan[1..]);
      hide MaskOf;
    }
  }

  lemma {:induction false} MaskBits(axis: Axis, plan: seq<Axis>)
    ensures PopCount(MaskOf(axis, plan)) == Count(axis, plan)
    ensures MaskOf(axis, plan) < Pow2(|plan|)
  {
    if plan != [] {
      MaskBits(axis, plan[1..]);
      PopHalf(MaskOf(axis, plan));
      hide PopCount;
    }
  }

  /** One axis bit written into the running masks. */
  lemma MaskStep(axis: Axis, plan: seq<Axis>, a: Axis)
    ensures MaskOf(axis, Word(plan + [a])) ==
            if a == axis then Or(MaskOf(axis, Word(plan)), BitAt(|plan|)) else MaskOf(axis, Word(plan))
  {
    if |plan| < 32 {
      assert Word(plan + [a]) == plan + [a] && Word(plan) == plan;
      MaskSnoc(axis, plan, a);
      MaskBits(axis, plan);
      OrAbove(MaskOf(axis, plan), |plan|);
    } else {
      assert Word(plan + [a]) == Word(plan);
      OrZero(MaskOf(axis, Word(plan)));
    }
  }

  /** The mask loop stops only if its 32-bit counter reaches every dimension: none may exceed 2^31. */
  lemma MaskLoopEnds(w: nat, h: nat, d: nat)
    ensures (exists n :: BitAt(n) >= w && BitAt(n) >= h && BitAt(n) >= d) <==> w <= TWO_31 && h <= TWO_31 && d <= TWO_31
  {
    Pow2At32();
    if w <= TWO_31 && h <= TWO_31 && d <= TWO_31 {
      assert BitAt(31) == TWO_31;
    }
    if n :| BitAt(n) >= w && BitAt(n) >= h && BitAt(n) >= d {
      if n < 32 {
        Pow2Monotone(n, 31);
      }
    }
  }

  /** `generate_swizzle_masks`: each axis gets the bits of the plan it owns, as far as they fit the word. */
  method GenerateSwizzleMasks(w: nat, h: nat, d: nat) returns (x: nat, y: nat, z: nat)
    requires w <= TWO_31 && h <= TWO_31 && d <= TWO_31
    ensures var plan := Word(Plan(w, h, d, 1)); x == MaskOf(X, plan) && y == MaskOf(Y, plan) && z == MaskOf(Z, plan)
  {
    hide MasksAre, Or, Shl, BitAt, Word, Round;
    Pow2At32();
    x, y, z := 0, 0, 0;
    var bit: nat, maskBit: nat := 1, 1;
    ghost var n: nat, plan: seq<Axis> := 0, [];
    NoMask();
    while true
      invariant n <= 31 && bit == Pow2(n)
      invariant MasksAre(plan, x, y, z, maskBit)
      invariant plan + Plan(w, h, d, bit) == Plan(w, h, d, 1)
      decreases 32 - n
    {
      var done := true;
      ghost var before := plan;
      if bit < w {
        AddBit(plan, X, x, y, z, maskBit);
        x := Or(x, maskBit);
        maskBit := Shl(maskBit);
        done := false;
        plan := plan + [X];
      }
      if bit < h {
        AddBit(plan, Y, x, y, z, maskBit);
        y := Or(y, maskBit);
        maskBit := Shl(maskBit);
        done := false;
        plan := plan + [Y];
      }
      if bit < d {
        AddBit(plan, Z, x, y, z, maskBit);
        z := Or(z, maskBit);
        maskBit := Shl(maskBit);
        done := false;
        plan := plan + [Z];
      }
      if done {
        assert plan + [] == plan;
        break;
      }
      RoundAdded(before, w, h, d, n, plan);
      bit := Shl(bit);
      n := n + 1;
    }
    MasksMeaning(plan, x, y, z, maskBit);
  }

  /** The running masks and mask bit after the bits of `plan` have been handed out. */
  ghost predicate MasksAre(plan: seq<Axis>, x: nat, y: nat, z: nat, maskBit: nat) {
    && x == MaskOf(X, Word(plan)) && y == MaskOf(Y, Word(plan)) && z == MaskOf(Z, Word(plan))
    && maskBit == BitAt(|plan|)
  }

  lemma MasksMeaning(plan: seq<Axis>, x: nat, y: nat, z: nat, maskBit: nat)
    requires MasksAre(plan, x, y, z, maskBit)
    ensures x == MaskOf(X, Word(plan)) && y == MaskOf(Y, Word(plan)) && z == MaskOf(Z, Word(plan))
  {
  }

  lemma NoMask()
    ensures MasksAre([], 0, 0, 0, 1)
  {
  }

  lemma AddBit(plan: seq<Axis>, a: Axis, x: nat, y: nat, z: nat, maskBit: nat)
    requires MasksAre(plan, x, y, z, maskBit)
    ensures MasksAre(plan + [a], if a == X then Or(x, maskBit) else x, if a == Y then Or(y, maskBit) else y,
                     if a == Z then Or(z, maskBit) else z, Shl(maskBit))
  {
    hide MaskOf, Or, Shl, BitAt, Word;
    MaskStep(X, plan, a);
    MaskStep(Y, plan, a);
    MaskStep(Z, plan, a);
    ShlBit(|plan|);
  }

  /** A whole turn of the loop hands out one round of the plan. */
  lemma RoundAdded(before: seq<Axis>, w: nat, h: nat, d: nat, n: nat, plan: seq<Axis>)
    requires n <= 31 && (Pow2(n) < w || Pow2(n) < h || Pow2(n) < d)
    requires w <= TWO_31 && h <= TWO_31 && d <= TWO_31
    requires plan == before + (if Pow2(n) < w then [X] else []) + (if Pow2(n) < h then [Y] else []) + (if Pow2(n) < d then [Z] else [])
    ensures n < 31 && Shl(Pow2(n)) == Pow2(n + 1)
    ensures plan + Plan(w, h, d, Pow2(n + 1)) == before + Plan(w, h, d, Pow2(n))
  {
    RoundFits(w, h, d, n);
    NextBit(n);
    hide Shl, Pow2;
    var round := Round(w, h, d, Pow2(n));
    assert plan == before + round;
    hide Round;
    assert before + (round + Plan(w, h, d, Pow2(n + 1))) == plan + Plan(w, h, d, Pow2(n + 1));
  }

  lemma RoundFits(w: nat, h: nat, d: nat, n: nat)
    requires n <= 31 && (Pow2(n) < w || Pow2(n) < h || Pow2(n) < d)
    requires w <= TWO_31 && h <= TWO_31 && d <= TWO_31
    ensures n < 31 && Pow2(n + 1) == 2 * Pow2(n)
  {
    Pow2At32();
  }

  lemma NextBit(n: nat)
    requires n < 31
    ensures Shl(Pow2(n)) == Pow2(n + 1)
  {
    ShlBit(n);
  }

  // -------------------------------------------------------------- the bijection

  datatype Coord = Coord(x: nat, y: nat, z: nat) {
    function On(axis: Axis): nat {
      match axis case X => x case Y => y case Z => z
    }

    function With(axis: Axis, v: nat): Coord {
      match axis case X => this.(x := v) case Y => this.(y := v) case Z => this.(z := v)
    }
  }

  /** The swizzled index of a coordinate: the plan says which coordinate gives the next bit. */
  function Interleave(plan: seq<Axis>, c: Coord): nat {
    if plan == [] then 0
    else c.On(plan[0]) % 2 + 2 * Interleave(plan[1..], c.With(plan[0], c.On(plan[0]) / 2))
  }

  /** The coordinate of a swizzled index. */
  function Deinterleave(plan: seq<Axis>, n: nat): Coord {
    if plan == [] then Coord(0, 0, 0)
    else
      var c := Deinterleave(plan[1..], n / 2);
      c.With(plan[0], n % 2 + 2 * c.On(plan[0]))
  }

  /** Each coordinate fits the bits its axis has. */
  ghost predicate Inside(plan: seq<Axis>, c: Coord) {
    forall axis: Axis :: c.On(axis) < Pow2(Count(axis, plan))
  }

  lemma InsideTail(plan: seq<Axis>, c: Coord)
    requires plan != [] && Inside(plan, c)
    ensures Inside(plan[1..], c.With(plan[0], c.On(plan[0]) / 2))
  {
    var half := c.With(plan[0], c.On(plan[0]) / 2);
    forall axis: Axis ensures half.On(axis) < Pow2(Count(axis, plan[1..])) {
      assert c.On(axis) < Pow2(Count(axis, plan));
    }
  }

  lemma InsideWider(plan: seq<Axis>, c: Coord, bit: nat)
    requires plan != [] && bit < 2 && Inside(plan[1..], c)
    ensures Inside(plan, c.With(plan[0], bit + 2 * c.On(plan[0])))
  {
    var d := c.With(plan[0], bit + 2 * c.On(plan[0]));
    forall axis: Axis ensures d.On(axis) < Pow2(Count(axis, plan)) {
      assert c.On(axis) < Pow2(Count(axis, plan[1..]));
    }
  }

  /** Coordinates are recovered from the index. */
  lemma {:induction false} InterleaveInverse(plan: seq<Axis>, c: Coord)
    requires Inside(plan, c)
    ensures Interleave(plan, c) < Pow2(|plan|) && Deinterleave(plan, Interleave(plan, c)) == c
  {
    if plan == [] {
      assert c.On(X) < 1 && c.On(Y) < 1 && c.On(Z) < 1;
    } else {
      InsideTail(plan, c);
      InterleaveInverse(plan[1..], c.With(plan[0], c.On(plan[0]) / 2));
    }
  }

  /** Indices are recovered from the coordinate. */
  lemma {:induction false} DeinterleaveInverse(plan: seq<Axis>, n: nat)
    requires n < Pow2(|plan|)
    ensures Inside(plan, Deinterleave(plan, n)) && Interleave(plan, Deinterleave(plan, n)) == n
  {
    if plan == [] {
      assert Deinterleave(plan, n) == Coord(0, 0, 0);
    } else {
      DeinterleaveInverse(plan[1..], n / 2);
      var c, d := Deinterleave(plan[1..], n / 2), Deinterleave(plan, n);
      InsideWider(plan, c, n % 2);
      assert d.With(plan[0], d.On(plan[0]) / 2) == c;
    }
  }

  /** A coordinate that is nowhere smaller has no smaller index. */
  lemma {:induction false} InterleaveMonotone(plan: seq<Axis>, c: Coord, d: Coord)
    requires Inside(plan, c) && Inside(plan, d) && c.x <= d.x && c.y <= d.y && c.z <= d.z
    ensures Interleave(plan, c) <= Interleave(plan, d)
  {
    if plan != [] {
      var a := plan[0];
      var c', d' := c.With(a, c.On(a) / 2), d.With(a, d.On(a) / 2);
      InsideTail(plan, c);
      InsideTail(plan, d);
      InterleaveMonotone(plan[1..], c', d');
      InterleaveInverse(plan[1..], c');
      InterleaveInverse(plan[1..], d');
      hide Inside, Pow2;
      if Interleave(plan[1..], c') == Interleave(plan[1..], d') {
        assert c.On(a) / 2 == c'.On(a) == d'.On(a) == d.On(a) / 2;
        assert c.On(a) <= d.On(a);
      }
    }
  }

  /** Scattering each coordinate into its mask and or-ing the three is the interleaving. */
  lemma {:induction false} FillsInterleave(plan: seq<Axis>, c: Coord)
    ensures Or(Or(Fill(MaskOf(X, plan), c.x), Fill(MaskOf(Y, plan), c.y)), Fill(MaskOf(Z, plan), c.z)) == Interleave(plan, c)
  {
    if plan == [] {
      assert Or(0, 0) == 0;
    } else {
      var a := plan[0];
      FillsInterleave(plan[1..], c.With(a, c.On(a) / 2));
      FillHead(X, plan, c.x);
      FillHead(Y, plan, c.y);
      FillHead(Z, plan, c.z);
      OrHalves(Fill(MaskOf(X, plan), c.x), Fill(MaskOf(Y, plan), c.y));
      OrHalves(Or(Fill(MaskOf(X, plan), c.x), Fill(MaskOf(Y, plan), c.y)), Fill(MaskOf(Z, plan), c.z));
      hide Or, Fill, MaskOf;
    }
  }

  lemma FillHead(axis: Axis, plan: seq<Axis>, v: nat)
    requires plan != []
    ensures Fill(MaskOf(axis, plan), v) % 2 == if plan[0] == axis then v % 2 else 0
    ensures Fill(MaskOf(axis, plan), v) / 2 == Fill(MaskOf(axis, plan[1..]), if plan[0] == axis then v / 2 else v)
  {
    FillStep(MaskOf(axis, plan), v);
  }

  lemma OrHalves(a: nat, b: nat)
    ensures Or(a, b) % 2 == Max(a % 2, b % 2) && Or(a, b) / 2 == Or(a / 2, b / 2)
  {
  }

  // ------------------------------------------------------------ dimensions and bits

  function Dim(axis: Axis, w: nat, h: nat, d: nat): nat {
    match axis case X => w case Y => h case Z => d
  }

  lemma {:induction false} CountAppend(axis: Axis, a: seq<Axis>, b: seq<Axis>)
    ensures Count(axis, a + b) == Count(axis, a) + Count(axis, b)
  {
    if a == [] {
      assert a + b == b;
    } else {
      assert (a + b)[1..] == a[1..] + b;
      CountAppend(axis, a[1..], b);
    }
  }

  lemma CountRound(axis: Axis, w: nat, h: nat, d: nat, bit: nat)
    ensures Count(axis, Round(w, h, d, bit)) == if bit < Dim(axis, w, h, d) then 1 else 0
  {
    CountAppend(axis, if bit < w then [X] else [], if bit < h then [Y] else []);
    CountAppend(axis, (if bit < w then [X] else []) + (if bit < h then [Y] else []), if bit < d then [Z] else []);
    assert Count(axis, [X]) == (if axis == X then 1 else 0) && Count(axis, [Y]) == (if axis == Y then 1 else 0);
    assert Count(axis, [Z]) == (if axis == Z then 1 else 0) && Count(axis, []) == 0;
  }

  lemma PlanCount(axis: Axis, w: nat, h: nat, d: nat, bit: nat)
    requires bit > 0 && (bit < w || bit < h || bit < d)
    ensures Count(axis, Plan(w, h, d, bit)) == (if bit < Dim(axis, w, h, d) then 1 else 0) + Count(axis, Plan(w, h, d, 2 * bit))
  {
    CountRound(axis, w, h, d, bit);
    CountAppend(axis, Round(w, h, d, bit), Plan(w, h, d, 2 * bit));
    hide Round;
  }

  /** An axis gets enough bits for its dimension. */
  lemma {:induction false} CountCovers(axis: Axis, w: nat, h: nat, d: nat, bit: nat)
    requires bit > 0
    ensures Dim(axis, w, h, d) <= Scale(Count(axis, Plan(w, h, d, bit)), bit)
    decreases Max(w, Max(h, d)) - bit
  {
    if bit >= w && bit >= h && bit >= d {
      assert Plan(w, h, d, bit) == [];
    } else {
      PlanCount(axis, w, h, d, bit);
      CountCovers(axis, w, h, d, 2 * bit);
      var c := Count(axis, Plan(w, h, d, 2 * bit));
      ScaleBasics(c, bit);
      ScaleGrows(c, bit);
    }
  }

  lemma {:induction false} ScaleGrows(k: nat, n: nat)
    ensures Scale(k, n) >= n
  {
    if k > 0 {
      ScaleGrows(k - 1, n);
    }
  }

  /** A dimension already reached gets no more bits. */
  lemma {:induction false} CountNone(axis: Axis, w: nat, h: nat, d: nat, bit: nat)
    requires bit > 0 && Dim(axis, w, h, d) <= bit
    ensures Count(axis, Plan(w, h, d, bit)) == 0
    decreases Max(w, Max(h, d)) - bit
  {
    if bit >= w && bit >= h && bit >= d {
      assert Plan(w, h, d, bit) == [];
    } else {
      PlanCount(axis, w, h, d, bit);
      CountNone(axis, w, h, d, 2 * bit);
    }
  }

  /** A power-of-two dimension gets exactly its exponent. */
  lemma {:induction false} CountExact(axis: Axis, w: nat, h: nat, d: nat, bit: nat, e: nat)
    requires bit > 0 && Dim(axis, w, h, d) == Scale(e, bit)
    ensures Count(axis, Plan(w, h, d, bit)) == e
    decreases e
  {
    if e == 0 {
      CountNone(axis, w, h, d, bit);
    } else {
      ScaleBasics(e - 1, bit);
      ScaleGrows(e - 1, 2 * bit);
      PlanCount(axis, w, h, d, bit);
      CountExact(axis, w, h, d, 2 * bit, e - 1);
    }
  }

  lemma {:induction false} CountsSum(plan: seq<Axis>)
    ensures Count(X, plan) + Count(Y, plan) + Count(Z, plan) == |plan|
  {
    if plan != [] {
      CountsSum(plan[1..]);
    }
  }

  // ------------------------------------------------------------------ the texture

  function TexturePlan(w: nat, h: nat): seq<Axis> { Plan(w, h, 1, 1) }

  /** The swizzled index of texel `(x, y)` of a `w` by `h` texture. */
  function Index(w: nat, h: nat, x: nat, y: nat): nat { Interleave(TexturePlan(w, h), Coord(x, y, 0)) }

  /** Texel coordinates fit the bits of their axes. */
  lemma TexelInside(w: nat, h: nat, x: nat, y: nat)
    requires x < w && y < h
    ensures Inside(TexturePlan(w, h), Coord(x, y, 0))
  {
    var plan := TexturePlan(w, h);
    forall axis: Axis ensures Coord(x, y, 0).On(axis) < Pow2(Count(axis, plan)) {
      CountCovers(axis, w, h, 1, 1);
      ScaleBasics(Count(axis, plan), 0);
    }
  }

  /** Different texels have different indices, whatever the dimensions. */
  lemma IndexInjective(w: nat, h: nat, x: nat, y: nat, x': nat, y': nat)
    requires x < w && y < h && x' < w && y' < h && Index(w, h, x, y) == Index(w, h, x', y')
    ensures x == x' && y == y'
  {
    TexelInside(w, h, x, y);
    TexelInside(w, h, x', y');
    InterleaveInverse(TexturePlan(w, h), Coord(x, y, 0));
    InterleaveInverse(TexturePlan(w, h), Coord(x', y', 0));
  }

  /** Powers of two: the plan has as many bits as the texture has texels. */
  lemma PowerPlan(w: nat, h: nat, a: nat, b: nat)
    requires w == Pow2(a) && h == Pow2(b)
    ensures var plan := TexturePlan(w, h);
            Count(X, plan) == a && Count(Y, plan) == b && Count(Z, plan) == 0 && Pow2(|plan|) == w * h
  {
    ScaleBasics(a, 0);
    ScaleBasics(b, 0);
    CountExact(X, w, h, 1, 1, a);
    CountExact(Y, w, h, 1, 1, b);
    CountExact(Z, w, h, 1, 1, 0);
    CountsSum(TexturePlan(w, h));
    Pow2Sum(a, b);
  }

  /** Powers of two: the index is a bijection from the texels onto `[0, w * h)`. */
  lemma IndexBijection(w: nat, h: nat, a: nat, b: nat)
    requires w == Pow2(a) && h == Pow2(b)
    ensures forall x: nat, y: nat :: x < w && y < h ==> Index(w, h, x, y) < w * h
    ensures forall n: nat :: n < w * h ==>
              var c := Deinterleave(TexturePlan(w, h), n); c.x < w && c.y < h && Index(w, h, c.x, c.y) == n
  {
    var plan := TexturePlan(w, h);
    PowerPlan(w, h, a, b);
    forall x: nat, y: nat | x < w && y < h ensures Index(w, h, x, y) < w * h {
      TexelInside(w, h, x, y);
      InterleaveInverse(plan, Coord(x, y, 0));
    }
    forall n: nat | n < w * h
      ensures var c := Deinterleave(plan, n); c.x < w && c.y < h && Index(w, h, c.x, c.y) == n
    {
      DeinterleaveInverse(plan, n);
      var c := Deinterleave(plan, n);
      assert c.On(X) < Pow2(a) && c.On(Y) < Pow2(b) && c.On(Z) < Pow2(0);
    }
  }

  lemma MulLess(i: nat, n: nat, k: nat)
    requires i < n
    ensures i * k + k <= n * k && k * i + k <= k * n
  {
    assert i * k + k == (i + 1) * k <= n * k;
  }

  /** Every texel is read from inside `length` bytes exactly when the last one is. */
  lemma NoneSkipped(w: nat, h: nat, bpp: nat, length: nat)
    requires w > 0 && h > 0
    ensures (forall x: nat, y: nat :: x < w && y < h ==> bpp * Index(w, h, x, y) + bpp <= length)
       <==> bpp * Index(w, h, w - 1, h - 1) + bpp <= length
  {
    hide Index;
    forall x: nat, y: nat | x < w && y < h ensures bpp * Index(w, h, x, y) <= bpp * Index(w, h, w - 1, h - 1) {
      LastIsHighest(w, h, x, y);
      MulLess(Index(w, h, x, y), Index(w, h, w - 1, h - 1) + 1, bpp);
    }
  }

  lemma LastIsHighest(w: nat, h: nat, x: nat, y: nat)
    requires x < w && y < h
    ensures Index(w, h, x, y) <= Index(w, h, w - 1, h - 1)
  {
    TexelInside(w, h, x, y);
    TexelInside(w, h, w - 1, h - 1);
    InterleaveMonotone(TexturePlan(w, h), Coord(x, y, 0), Coord(w - 1, h - 1, 0));
  }

  /** Powers of two and enough data: nothing is skipped. */
  lemma PowersNeverSkip(w: nat, h: nat, a: nat, b: nat, bpp: nat, length: nat)
    requires w == Pow2(a) && h == Pow2(b) && w * h * bpp <= length
    ensures forall x: nat, y: nat :: x < w && y < h ==> bpp * Index(w, h, x, y) + bpp <= length
  {
    IndexBijection(w, h, a, b);
    forall x: nat, y: nat | x < w && y < h ensures bpp * Index(w, h, x, y) + bpp <= length {
      hide Index;
      MulLess(Index(w, h, x, y), w * h, bpp);
    }
  }

  ghost predicate IsPower(n: nat) { exists k: nat :: Pow2(k) == n }

  /** The dimensions whose texels fill `[0, w * h)` without a gap. */
  ghost predicate Packs(w: nat, h: nat)
    requires w > 0 && h > 0
  {
    || (IsPower(h) && w % h == 0)
    || (IsPower(w) && (2 * h) % w == 0)
  }

  /**
   Data of exactly `w * h` texels: none is looked for past the end if and only if the height
   is a power of two that divides the width, or the width one that divides twice the height.
   */
  lemma ExactDataSuffices(w: nat, h: nat, bpp: nat)
    requires w > 0 && h > 0 && bpp > 0
    ensures (forall x: nat, y: nat :: x < w && y < h ==> bpp * Index(w, h, x, y) + bpp <= w * h * bpp) <==> Packs(w, h)
  {
    hide *;
    NoneSkipped(w, h, bpp, w * h * bpp);
    LastIndex(w, h);
    TexelFits(bpp, Index(w, h, w - 1, h - 1), w * h);
  }

  lemma TexelFits(bpp: nat, i: nat, n: nat)
    requires bpp > 0
    ensures bpp * i + bpp <= n * bpp <==> i < n
  {
    if i < n {
      MulLess(i, n, bpp);
    } else {
      assert i * bpp >= n * bpp;
    }
  }

  /** The last texel's index is never below `w * h - 1`, and is that number exactly for dimensions that pack. */
  lemma {:induction false} LastIndex(w: nat, h: nat)
    requires w > 0 && h > 0
    ensures Index(w, h, w - 1, h - 1) >= w * h - 1
    ensures Index(w, h, w - 1, h - 1) == w * h - 1 <==> Packs(w, h)
    decreases w + h
  {
    hide *;
    if w == 1 || h == 1 {
      LineOfTexels(w, h);
    } else {
      var u, v := (w + 1) / 2, (h + 1) / 2;
      assert (w - 1) / 2 == u - 1 && (h - 1) / 2 == v - 1;
      LastIndex(u, v);
      IndexHalves(w, h, w - 1, h - 1);
      PacksHalves(w, h);
      if u == 1 {
        LineOfTexels(u, v);
      }
      LastIndexGrows(w, h, Index(u, v, u - 1, v - 1));
    }
  }

  lemma LineOfTexels(w: nat, h: nat)
    requires w > 0 && h > 0 && (w == 1 || h == 1)
    ensures Index(w, h, w - 1, h - 1) == w * h - 1 && Packs(w, h)
  {
    assert Pow2(0) == 1;
    hide Index;
    if w == 1 {
      IndexColumn(h, h - 1);
    } else {
      IndexRow(w, w - 1);
    }
  }

  /** How the excess of the last index over `w * h - 1` grows with a low bit on each axis. */
  lemma LastIndexGrows(w: nat, h: nat, last: nat)
    requires w > 1 && h > 1 && last >= ((w + 1) / 2) * ((h + 1) / 2) - 1
    requires w == 2 ==> last == (h + 1) / 2 - 1
    ensures var full := (w - 1) % 2 + 2 * ((h - 1) % 2) + 4 * last;
            && full >= w * h - 1
            && (full == w * h - 1 <==> (w == 2 && h % 2 == 1) || (w % 2 == 0 && h % 2 == 0 && last == (w / 2) * (h / 2) - 1))
  {
    var u, v := (w + 1) / 2, (h + 1) / 2;
    var r, s := 2 * u - w, 2 * v - h;
    assert w == 2 * u - r && h == 2 * v - s && r < 2 && s < 2;
    assert w == 2 ==> u * v == v;
    TotalOfHalves(u, v, r, s);
    Excess(u * v, u, v, r == 1, s == 1, last, w * h);
  }

  lemma TotalOfHalves(u: nat, v: nat, r: nat, s: nat)
    requires r < 2 && s < 2
    ensures (2 * u - r) * (2 * v - s)
         == 4 * (u * v) - (if r == 1 then 2 * v else 0) - (if s == 1 then 2 * u else 0) + (if r == 1 && s == 1 then 1 else 0)
  {
    assert (2 * u - r) * (2 * v - s) == (2 * u) * (2 * v) - r * (2 * v) - (2 * u) * s + r * s;
  }

  lemma Excess(product: nat, u: nat, v: nat, oddWidth: bool, oddHeight: bool, last: nat, total: int)
    requires u >= 1 && v >= 1 && (oddWidth ==> u >= 2) && (oddHeight ==> v >= 2)
    requires last >= product - 1 && (u == 1 ==> last == v - 1 && product == v)
    requires total == 4 * product - (if oddWidth then 2 * v else 0) - (if oddHeight then 2 * u else 0)
                      + (if oddWidth && oddHeight then 1 else 0)
    ensures var full := (if oddWidth then 0 else 1) + (if oddHeight then 0 else 2) + 4 * last;
            && full >= total - 1
            && (full == total - 1 <==> (u == 1 && oddHeight) || (!oddWidth && !oddHeight && last == product - 1))
  {
  }

  lemma IndexColumn(h: nat, y: nat)
    requires y < h
    ensures Index(1, h, 0, y) == y
  {
    if h > 1 {
      PlanHalves(1, h, 1);
      IndexColumn((h + 1) / 2, y / 2);
    }
  }

  lemma IndexRow(w: nat, x: nat)
    requires x < w
    ensures Index(w, 1, x, 0) == x
  {
    if w > 1 {
      PlanHalves(w, 1, 1);
      IndexRow((w + 1) / 2, x / 2);
    }
  }

  /** Dropping the lowest bit of each axis leaves the index in a texture of half the size. */
  lemma IndexHalves(w: nat, h: nat, x: nat, y: nat)
    requires w > 1 && h > 1
    ensures Index(w, h, x, y) == x % 2 + 2 * (y % 2) + 4 * Index((w + 1) / 2, (h + 1) / 2, x / 2, y / 2)
  {
    PlanHalves(w, h, 1);
    var rest := Plan(w, h, 1, 2);
    assert TexturePlan(w, h) == [X, Y] + rest;
    assert ([X, Y] + rest)[1..] == [Y] + rest && ([Y] + rest)[1..] == rest;
    assert Interleave([Y] + rest, Coord(x / 2, y, 0)) == y % 2 + 2 * Interleave(rest, Coord(x / 2, y / 2, 0));
  }

  lemma {:induction false} PlanHalves(w: nat, h: nat, bit: nat)
    requires bit > 0
    ensures Plan(w, h, 1, 2 * bit) == Plan((w + 1) / 2, (h + 1) / 2, 1, bit)
    decreases Max(w, Max(h, 1)) - bit
  {
    if 2 * bit < w || 2 * bit < h {
      PlanHalves(w, h, 2 * bit);
    }
  }

  lemma PacksHalves(w: nat, h: nat)
    requires w > 1 && h > 1
    ensures w % 2 == 0 && h % 2 == 0 ==> (Packs(w, h) <==> Packs(w / 2, h / 2))
    ensures w == 2 ==> Packs(w, h)
    ensures (w % 2 == 1 || h % 2 == 1) && w != 2 ==> !Packs(w, h)
  {
    PowerHalves(w);
    PowerHalves(h);
    assert IsPower(1) by { assert Pow2(0) == 1; }
    hide IsPower;
    if w % 2 == 0 && h % 2 == 0 {
      DividesHalves(w / 2, h / 2);
      DividesHalves(h, w / 2);
    } else if h % 2 == 0 {
      OddMultiple(w, h);
    } else if w % 2 == 0 && IsPower(w) && w != 2 {
      PowerHalves(w / 2);
      OddMultiple(h, w / 2);
      DividesHalves(h, w / 2);
    }
  }

  /** Beyond one, the powers of two are the doubled ones. */
  lemma PowerHalves(n: nat)
    requires n > 1
    ensures IsPower(n) <==> n % 2 == 0 && IsPower(n / 2)
  {
    if k: nat :| Pow2(k) == n {
      assert k > 0 && Pow2(k - 1) == n / 2;
    }
    if n % 2 == 0 {
      if k: nat :| Pow2(k) == n / 2 {
        assert Pow2(k + 1) == n;
      }
    }
  }

  lemma DividesHalves(a: nat, b: nat)
    requires b > 0
    ensures (2 * a) % (2 * b) == 2 * (a % b)
  {
    var q := a / b;
    assert 2 * a == (2 * b) * q + 2 * (a % b);
    Remainder(2 * a, 2 * b, q, 2 * (a % b));
  }

  lemma Remainder(a: nat, b: nat, q: nat, r: nat)
    requires r < b && a == b * q + r
    ensures a % b == r
  {
    AtLeastOnce(b, a / b - q);
    assert b * (a / b - q) == r - a % b;
  }

  lemma AtLeastOnce(b: int, d: int)
    requires b >= 0
    ensures d >= 1 ==> b * d >= b
    ensures d <= -1 ==> b * d <= -b
  {
  }

  lemma EvenTimes(c: nat, q: nat)
    ensures ((2 * c) * q) % 2 == 0
  {
    assert (2 * c) * q == 2 * (c * q);
  }

  /** No odd number is a multiple of an even one. */
  lemma OddMultiple(a: nat, b: nat)
    requires a % 2 == 1 && b % 2 == 0 && b > 0
    ensures a % b != 0
  {
    EvenTimes(b / 2, a / b);
    assert 2 * (b / 2) == b && a == b * (a / b) + a % b;
  }

  /** A 3 by 2 texture: the last texel is looked for past the end of its six. */
  lemma ThreeByTwoSkips()
    ensures Index(3, 2, 2, 1) == 6
  {
    assert Plan(3, 2, 1, 4) == [];
    assert Plan(3, 2, 1, 2) == [X];
    assert TexturePlan(3, 2) == [X, Y, X];
    assert Interleave([X], Coord(1, 0, 0)) == 1;
    assert Interleave([Y, X], Coord(1, 1, 0)) == 3;
  }

  // ------------------------------------------------------------------- the copy

  /** The bytes texel `(x, y)` ends up with: those at its index, or zeros if they are not all there. */
  function Texel(w: nat, h: nat, bpp: nat, data: seq<byte>, x: nat, y: nat): (r: seq<byte>)
    ensures |r| == bpp
  {
    var at := bpp * Index(w, h, x, y);
    if at + bpp <= |data| then data[at..at + bpp] else Zeros(bpp)
  }

  /** The first `n` texels of row `y`, and the first `n` rows. */
  function RowBytes(w: nat, h: nat, bpp: nat, data: seq<byte>, y: nat, n: nat): seq<byte> {
    if n == 0 then [] else RowBytes(w, h, bpp, data, y, n - 1) + Texel(w, h, bpp, data, n - 1, y)
  }

  function ImageBytes(w: nat, h: nat, bpp: nat, data: seq<byte>, n: nat): seq<byte> {
    if n == 0 then [] else ImageBytes(w, h, bpp, data, n - 1) + RowBytes(w, h, bpp, data, n - 1, w)
  }

  /** What the copy is for: texel `(x, y)` at row `y`, column `x` of the linear image. */
  ghost predicate Unswizzled(w: nat, h: nat, bpp: nat, data: seq<byte>, linear: seq<byte>) {
    && |linear| == h * (w * bpp)
    && forall x: nat, y: nat :: x < w && y < h ==> TexelAt(w, h, bpp, linear, x, y) == Texel(w, h, bpp, data, x, y)
  }

  function TexelAt(w: nat, h: nat, bpp: nat, linear: seq<byte>, x: nat, y: nat): seq<byte> {
    var at := y * (w * bpp) + x * bpp;
    if at + bpp <= |linear| then linear[at..at + bpp] else []
  }

  lemma {:induction false} RowLength(w: nat, h: nat, bpp: nat, data: seq<byte>, y: nat, n: nat)
    ensures |RowBytes(w, h, bpp, data, y, n)| == n * bpp
  {
    hide Texel;
    if n > 0 {
      RowLength(w, h, bpp, data, y, n - 1);
    }
  }

  lemma {:induction false} ImageLength(w: nat, h: nat, bpp: nat, data: seq<byte>, n: nat)
    ensures |ImageBytes(w, h, bpp, data, n)| == n * (w * bpp)
  {
    hide RowBytes, Texel;
    if n > 0 {
      ImageLength(w, h, bpp, data, n - 1);
      RowLength(w, h, bpp, data, n - 1, w);
    }
  }

  lemma {:induction false} RowHolds(w: nat, h: nat, bpp: nat, data: seq<byte>, y: nat, n: nat, x: nat)
    requires x < n
    ensures var from := |RowBytes(w, h, bpp, data, y, x)|;
            && from + bpp <= |RowBytes(w, h, bpp, data, y, n)|
            && RowBytes(w, h, bpp, data, y, n)[from..from + bpp] == Texel(w, h, bpp, data, x, y)
    decreases n
  {
    hide Texel;
    var before, last := RowBytes(w, h, bpp, data, y, n - 1), Texel(w, h, bpp, data, n - 1, y);
    assert RowBytes(w, h, bpp, data, y, n) == before + last;
    hide RowBytes;
    if x < n - 1 {
      RowHolds(w, h, bpp, data, y, n - 1, x);
      var from := |RowBytes(w, h, bpp, data, y, x)|;
    }
  }

  lemma {:induction false} ImageHolds(w: nat, h: nat, bpp: nat, data: seq<byte>, n: nat, x: nat, y: nat)
    requires x < w && y < n
    ensures var from := |ImageBytes(w, h, bpp, data, y)| + |RowBytes(w, h, bpp, data, y, x)|;
            && from + bpp <= |ImageBytes(w, h, bpp, data, n)|
            && ImageBytes(w, h, bpp, data, n)[from..from + bpp] == Texel(w, h, bpp, data, x, y)
    decreases n
  {
    hide RowBytes, Texel;
    var before, row := ImageBytes(w, h, bpp, data, n - 1), RowBytes(w, h, bpp, data, n - 1, w);
    assert ImageBytes(w, h, bpp, data, n) == before + row;
    hide ImageBytes;
    var at := |RowBytes(w, h, bpp, data, y, x)|;
    if y < n - 1 {
      ImageHolds(w, h, bpp, data, n - 1, x, y);
      var from := |ImageBytes(w, h, bpp, data, y)| + at;
    } else {
      RowHolds(w, h, bpp, data, y, w, x);
    }
  }

  lemma ImageIsUnswizzled(w: nat, h: nat, bpp: nat, data: seq<byte>)
    ensures Unswizzled(w, h, bpp, data, ImageBytes(w, h, bpp, data, h))
  {
    hide ImageBytes, RowBytes, Texel;
    ImageLength(w, h, bpp, data, h);
    forall x: nat, y: nat | x < w && y < h
      ensures TexelAt(w, h, bpp, ImageBytes(w, h, bpp, data, h), x, y) == Texel(w, h, bpp, data, x, y)
    {
      ImageHolds(w, h, bpp, data, h, x, y);
      ImageLength(w, h, bpp, data, y);
      RowLength(w, h, bpp, data, y, x);
    }
  }

  /** `swizzled_offset`, in the 32-bit arithmetic of the source. */
  method SwizzledOffset(x: nat, y: nat, z: nat, maskX: nat, maskY: nat, maskZ: nat, bpp: nat) returns (offset: nat)
    requires maskX < U32 && maskY < U32 && maskZ < U32
    requires x < Pow2(PopCount(maskX)) && y < Pow2(PopCount(maskY)) && z < Pow2(PopCount(maskZ))
    ensures offset == (bpp * Or(Or(Fill(maskX, x), Fill(maskY, y)), Fill(maskZ, z))) % U32
  {
    var fx := FillPattern(maskX, x);
    var fy := FillPattern(maskY, y);
    var fz := FillPattern(maskZ, z);
    offset := (bpp * Or(Or(fx, fy), fz)) % U32;
  }

  /** Dimensions whose mask loop ends and whose byte offsets fit 32 bits. */
  ghost predicate Fits(w: nat, h: nat, bpp: nat) {
    && w <= TWO_31 && h <= TWO_31 && bpp > 0
    && bpp * Pow2(|TexturePlan(w, h)|) <= U32
  }

  /** The plan of dimensions that fit is a whole word at most, and its masks are words. */
  lemma FittingPlan(w: nat, h: nat, bpp: nat)
    requires Fits(w, h, bpp)
    ensures w <= TWO_31 && h <= TWO_31
    ensures Word(TexturePlan(w, h)) == TexturePlan(w, h) == Plan(w, h, 1, 1)
    ensures forall axis: Axis :: MaskOf(axis, TexturePlan(w, h)) < U32
  {
    var plan := TexturePlan(w, h);
    BelowWord(bpp, |plan|);
    forall axis: Axis ensures MaskOf(axis, plan) < U32 {
      MaskBits(axis, plan);
    }
  }

  lemma BelowWord(bpp: nat, n: nat)
    requires bpp > 0 && bpp * Pow2(n) <= U32
    ensures n <= 32 && Pow2(n) <= U32
  {
    Pow2At32();
    if n > 32 {
      Pow2Monotone(33, n);
      assert Pow2(33) == 2 * Pow2(32);
    }
    hide Pow2;
    MulLess(0, bpp, Pow2(n));
  }

  /** The masks of the texture: every texel's coordinates fit them, and its offset does not wrap. */
  lemma OffsetIsIndex(w: nat, h: nat, bpp: nat, x: nat, y: nat)
    requires Fits(w, h, bpp) && x < w && y < h
    ensures var plan := TexturePlan(w, h);
            && x < Pow2(PopCount(MaskOf(X, plan))) && y < Pow2(PopCount(MaskOf(Y, plan))) && 0 < Pow2(PopCount(MaskOf(Z, plan)))
            && Or(Or(Fill(MaskOf(X, plan), x), Fill(MaskOf(Y, plan), y)), Fill(MaskOf(Z, plan), 0)) == Index(w, h, x, y)
            && (bpp * Index(w, h, x, y)) % U32 == bpp * Index(w, h, x, y)
  {
    var plan := TexturePlan(w, h);
    TexelInside(w, h, x, y);
    FillsInterleave(plan, Coord(x, y, 0));
    MaskBits(X, plan);
    MaskBits(Y, plan);
    assert Coord(x, y, 0).On(X) < Pow2(Count(X, plan)) && Coord(x, y, 0).On(Y) < Pow2(Count(Y, plan));
    InterleaveInverse(plan, Coord(x, y, 0));
    NoWrap(bpp, Index(w, h, x, y), Pow2(|plan|));
  }

  lemma NoWrap(bpp: nat, i: nat, n: nat)
    requires i < n && bpp > 0 && bpp * n <= U32
    ensures (bpp * i) % U32 == bpp * i
  {
    MulLess(i, n, bpp);
  }

  /** No texture that fits has more bytes than 32 bits can address. */
  lemma FittingSize(w: nat, h: nat, bpp: nat)
    requires Fits(w, h, bpp)
    ensures h * (w * bpp) <= U32
  {
    var plan := TexturePlan(w, h);
    var cx, cy := Count(X, plan), Count(Y, plan);
    CountCovers(X, w, h, 1, 1);
    CountCovers(Y, w, h, 1, 1);
    ScaleBasics(cx, 0);
    ScaleBasics(cy, 0);
    CountsSum(plan);
    Pow2Sum(cx, cy);
    Pow2Monotone(cx + cy, |plan|);
    Product(w, h, bpp, Pow2(cx), Pow2(cy), Pow2(|plan|));
  }

  lemma Product(w: nat, h: nat, bpp: nat, px: nat, py: nat, n: nat)
    requires w <= px && h <= py && px * py <= n && bpp * n <= U32
    ensures h * (w * bpp) <= U32
  {
    assert w * h <= px * h <= px * py;
    assert bpp * (w * h) <= bpp * n;
    assert h * (w * bpp) == bpp * (w * h);
  }

  /** `done` written, the rest still zero. */
  ghost predicate Written(buf: seq<byte>, done: seq<byte>) {
    |done| <= |buf| && buf == done + Zeros(|buf| - |done|)
  }

  lemma WrittenMore(buf: seq<byte>, done: seq<byte>, more: seq<byte>)
    requires Written(buf, done) && |done| + |more| <= |buf|
    ensures Written(Splice(buf, |done|, more), done + more)
    ensures more == Zeros(|more|) ==> Written(buf, done + more)
  {
    assert Splice(buf, |done|, more) == done + more + Zeros(|buf| - |done| - |more|);
    if more == Zeros(|more|) {
      assert Zeros(|buf| - |done|) == more + Zeros(|buf| - |done| - |more|);
    }
  }

  /** `unswizzle_rect`: every texel copied from its swizzled offset if its bytes are there. */
  method UnswizzleRect(src: seq<byte>, w: nat, h: nat, dst: array<byte>, pitch: nat, bpp: nat)
    requires pitch == w * bpp && dst.Length == h * pitch && dst[..] == Zeros(dst.Length)
    requires w > 0 && h > 0 ==> Fits(w, h, bpp)
    modifies dst
    ensures Unswizzled(w, h, bpp, src, dst[..])
  {
    hide Fits, TexturePlan, Index, Texel, RowBytes, ImageBytes, Unswizzled, Fill, Or, MaskOf, Pow2, PopCount, Written, Word, Plan, Zeros;
    ImageIsUnswizzled(w, h, bpp, src);
    ImageLength(w, h, bpp, src, h);
    if w == 0 || h == 0 {
      assert dst.Length == 0;
      assert dst[..] == ImageBytes(w, h, bpp, src, h);
      return;
    }
    FittingPlan(w, h, bpp);
    var maskX, maskY, maskZ := GenerateSwizzleMasks(w, h, 1);
    WrittenStart(w, h, bpp, src, dst[..]);
    var y := 0;
    while y < h
      invariant 0 <= y <= h && Written(dst[..], ImageBytes(w, h, bpp, src, y))
    {
      ghost var rows := ImageBytes(w, h, bpp, src, y);
      CopyUnfolds(w, h, bpp, src, 0, y);
      var x := 0;
      while x < w
        invariant 0 <= x <= w && Written(dst[..], rows + RowBytes(w, h, bpp, src, y, x))
      {
        OffsetIsIndex(w, h, bpp, x, y);
        Placement(w, h, bpp, src, x, y);
        var srcOffset := SwizzledOffset(x, y, 0, maskX, maskY, maskZ, bpp);
        var dstOffset := (y * pitch + x * bpp) % U32;
        ghost var done := rows + RowBytes(w, h, bpp, src, y, x);
        CopyUnfolds(w, h, bpp, src, x, y);
        WrittenMore(dst[..], done, Texel(w, h, bpp, src, x, y));
        if srcOffset + bpp <= |src| && dstOffset + bpp <= dst.Length {
          CopyInto(dst, dstOffset, src[srcOffset..srcOffset + bpp]);
        }
        assert done + Texel(w, h, bpp, src, x, y) == rows + RowBytes(w, h, bpp, src, y, x + 1);
        x := x + 1;
      }
      CopyUnfolds(w, h, bpp, src, 0, y);
      y := y + 1;
    }
    WrittenAll(dst[..], ImageBytes(w, h, bpp, src, h));
  }

  lemma WrittenStart(w: nat, h: nat, bpp: nat, src: seq<byte>, buf: seq<byte>)
    requires buf == Zeros(|buf|)
    ensures Written(buf, ImageBytes(w, h, bpp, src, 0))
  {
    assert [] + Zeros(|buf|) == Zeros(|buf|);
  }

  /** Where a row and an image begin, how they grow, and the two cases of a texel. */
  lemma CopyUnfolds(w: nat, h: nat, bpp: nat, src: seq<byte>, x: nat, y: nat)
    ensures ImageBytes(w, h, bpp, src, y) + RowBytes(w, h, bpp, src, y, 0) == ImageBytes(w, h, bpp, src, y)
    ensures RowBytes(w, h, bpp, src, y, x + 1) == RowBytes(w, h, bpp, src, y, x) + Texel(w, h, bpp, src, x, y)
    ensures ImageBytes(w, h, bpp, src, y + 1) == ImageBytes(w, h, bpp, src, y) + RowBytes(w, h, bpp, src, y, w)
    ensures var at := bpp * Index(w, h, x, y);
            Texel(w, h, bpp, src, x, y) == if at + bpp <= |src| then src[at..at + bpp] else Zeros(bpp)
  {
  }

  lemma WrittenAll(buf: seq<byte>, done: seq<byte>)
    requires Written(buf, done) && |done| == |buf|
    ensures buf == done
  {
  }

  /** The write offset is how much is done, it does not wrap, and the texel fits behind it. */
  lemma Placement(w: nat, h: nat, bpp: nat, src: seq<byte>, x: nat, y: nat)
    requires Fits(w, h, bpp) && x < w && y < h
    ensures var at := y * (w * bpp) + x * bpp;
            && at == |ImageBytes(w, h, bpp, src, y) + RowBytes(w, h, bpp, src, y, x)|
            && at % U32 == at && at + bpp <= h * (w * bpp)
  {
    hide *;
    ImageLength(w, h, bpp, src, y);
    RowLength(w, h, bpp, src, y, x);
    PlacementFits(w, h, bpp, x, y);
  }

  lemma PlacementFits(w: nat, h: nat, bpp: nat, x: nat, y: nat)
    requires Fits(w, h, bpp) && x < w && y < h
    ensures var at := y * (w * bpp) + x * bpp; at % U32 == at && at + bpp <= h * (w * bpp)
  {
    FittingSize(w, h, bpp);
    MulLess(x, w, bpp);
    MulLess(y, h, w * bpp);
    assert bpp > 0;
    hide *;
    Below(y * (w * bpp), x * bpp, bpp, w * bpp, h * (w * bpp));
  }

  lemma Below(rows: nat, before: nat, bpp: nat, pitch: nat, total: nat)
    requires before + bpp <= pitch && rows + pitch <= total <= U32 && bpp > 0
    ensures (rows + before) % U32 == rows + before && rows + before + bpp <= total
  {
  }

  /** `unswizzle_bpp`. */
  method UnswizzleBpp(w: nat, h: nat, data: seq<byte>, bpp: nat) returns (linear: Option<seq<byte>>)
    requires w > 0 && h > 0 && w * h * bpp <= |data| && w * bpp < U32 ==> Fits(w, h, bpp)
    ensures linear.None? <==> w * h * bpp > |data| || w * bpp >= U32
    ensures linear.Some? ==> Unswizzled(w, h, bpp, data, linear.value)
  {
    var pixelBytes := w * h * bpp;
    if |data| < pixelBytes {
      return None;
    }
    var pitch := w * bpp;
    if pitch >= U32 {
      return None;
    }
    assert pixelBytes == h * pitch;
    var out := new byte[pixelBytes](_ => 0);
    assert out[..] == Zeros(out.Length);
    UnswizzleRect(data, w, h, out, pitch, bpp);
    linear := Some(out[..]);
  }

  /** Powers of two: the linear image is the source's texels, each moved to exactly one place. */
  lemma UnswizzlePermutes(w: nat, h: nat, a: nat, b: nat, bpp: nat, data: seq<byte>, linear: seq<byte>)
    requires w == Pow2(a) && h == Pow2(b) && w * h * bpp <= |data| && Unswizzled(w, h, bpp, data, linear)
    ensures forall x: nat, y: nat :: x < w && y < h ==>
              Index(w, h, x, y) < w * h && TexelAt(w, h, bpp, linear, x, y) == SourceTexel(bpp, data, Index(w, h, x, y))
    ensures forall n: nat :: n < w * h ==>
              var c := Deinterleave(TexturePlan(w, h), n);
              c.x < w && c.y < h && TexelAt(w, h, bpp, linear, c.x, c.y) == SourceTexel(bpp, data, n)
  {
    hide TexelAt, Deinterleave;
    IndexBijection(w, h, a, b);
    PowersNeverSkip(w, h, a, b, bpp, |data|);
    hide TexturePlan, Index;
    assert forall x: nat, y: nat :: x < w && y < h ==>
             TexelAt(w, h, bpp, linear, x, y) == Texel(w, h, bpp, data, x, y) == SourceTexel(bpp, data, Index(w, h, x, y));
  }

  function SourceTexel(bpp: nat, data: seq<byte>, n: nat): seq<byte> {
    if bpp * n + bpp <= |data| then data[bpp * n..bpp * n + bpp] else []
  }
}
