/**
 The pruned, budgeted subset-sum search over split fragments, against a brute-force
 definition of "every subset of a given size with a matching total".
 */
module SubsetSearch {
  import opened Common

  const MAX_SPLIT_FRAGMENTS_CEILING: nat := 8
  const MAX_SUBSET_SEARCH_STEPS: nat := 20_000

  datatype SizedFragment = SizedFragment(index: nat, size: nat)

  // ------------------------------------------------------ what is searched for

  predicate Matched(total: nat, target: nat, exact: bool) {
    if exact then total == target else total >= target
  }

  /** Total size of the fragments whose index is in `s`. */
  function SetTotal(fragments: seq<SizedFragment>, s: set<nat>): nat {
    if fragments == [] then 0
    else (if fragments[0].index in s then fragments[0].size else 0) + SetTotal(fragments[1..], s)
  }

  function Indices(fragments: seq<SizedFragment>): (r: set<nat>)
    ensures forall f :: f in fragments ==> f.index in r
  {
    if fragments == [] then {} else {fragments[0].index} + Indices(fragments[1..])
  }

  ghost predicate DistinctIndices(fragments: seq<SizedFragment>) {
    forall i, j :: 0 <= i < j < |fragments| ==> fragments[i].index != fragments[j].index
  }

  ghost predicate Distinct(s: seq<nat>) {
    forall i, j :: 0 <= i < j < |s| ==> s[i] != s[j]
  }

  function Members(s: seq<nat>): set<nat> {
    set x | x in s
  }

  /** `s` lists, without repetition, indices of fragments whose total matches. */
  ghost predicate IsMatch(fragments: seq<SizedFragment>, s: seq<nat>, target: nat, exact: bool) {
    && Distinct(s)
    && Members(s) <= Indices(fragments)
    && Matched(SetTotal(fragments, Members(s)), target, exact)
  }

  // --------------------------------------------- brute force over positions

  /** `c` is an increasing sequence of `k` positions in `[start, n)`. */
  ghost predicate Combo(c: seq<nat>, start: nat, k: nat, n: nat) {
    && |c| == k
    && (forall i :: 0 <= i < k ==> start <= c[i] < n)
    && (forall i, j :: 0 <= i < j < k ==> c[i] < c[j])
  }

  /** Total size of the fragments at positions `c`. */
  function SumAt(sorted: seq<SizedFragment>, c: seq<nat>): nat {
    if c == [] then 0 else SizeAt(sorted, c[0]) + SumAt(sorted, c[1..])
  }

  function SizeAt(sorted: seq<SizedFragment>, p: nat): nat { if p < |sorted| then sorted[p].size else 0 }

  function IndexAt(sorted: seq<SizedFragment>, p: nat): nat { if p < |sorted| then sorted[p].index else 0 }

  function Prepend(x: nat, cs: seq<seq<nat>>): seq<seq<nat>> {
    seq(|cs|, i requires 0 <= i < |cs| => [x] + cs[i])
  }

  /** Every choice of `k` positions from `start` on whose total with `running` matches, nothing pruned. */
  function Choices(sorted: seq<SizedFragment>, start: nat, k: nat, running: nat, target: nat, exact: bool): seq<seq<nat>>
    requires start <= |sorted|
    decreases |sorted| - start
  {
    if k == 0 then (if Matched(running, target, exact) then [[]] else [])
    else if |sorted| - start < k then []
    else
      Prepend(start, Choices(sorted, start + 1, k - 1, running + sorted[start].size, target, exact))
      + Choices(sorted, start + 1, k, running, target, exact)
  }

  /** Brute force finds exactly the matching choices. */
  lemma {:induction false} ChoicesExact(sorted: seq<SizedFragment>, start: nat, k: nat, running: nat, target: nat, exact: bool, c: seq<nat>)
    requires start <= |sorted|
    ensures c in Choices(sorted, start, k, running, target, exact)
       <==> Combo(c, start, k, |sorted|) && Matched(running + SumAt(sorted, c), target, exact)
    decreases |sorted| - start
  {
    if k == 0 {
      assert Combo(c, start, 0, |sorted|) <==> c == [];
    } else if |sorted| - start < k {
      if Combo(c, start, k, |sorted|) {
        ComboFits(c, start, k, |sorted|);
      }
    } else {
      ChoicesExact(sorted, start + 1, k, running, target, exact, c);
      if |c| > 0 {
        ChoicesExact(sorted, start + 1, k - 1, running + sorted[start].size, target, exact, c[1..]);
      }
      ChoicesStep(sorted, start, k, running, target, exact, c);
    }
  }

  lemma ChoicesStep(sorted: seq<SizedFragment>, start: nat, k: nat, running: nat, target: nat, exact: bool, c: seq<nat>)
    requires k > 0 && start + k <= |sorted|
    requires c in Choices(sorted, start + 1, k, running, target, exact)
        <==> Combo(c, start + 1, k, |sorted|) && Matched(running + SumAt(sorted, c), target, exact)
    requires |c| > 0 ==>
               (c[1..] in Choices(sorted, start + 1, k - 1, running + sorted[start].size, target, exact)
                <==> Combo(c[1..], start + 1, k - 1, |sorted|)
                     && Matched(running + sorted[start].size + SumAt(sorted, c[1..]), target, exact))
    ensures c in Choices(sorted, start, k, running, target, exact)
       <==> Combo(c, start, k, |sorted|) && Matched(running + SumAt(sorted, c), target, exact)
  {
    var with := Choices(sorted, start + 1, k - 1, running + sorted[start].size, target, exact);
    hide Choices, Combo, Matched;
    if |c| > 0 {
      PrependMember(start, with, c);
      assert c[0] == start ==>
          running + SumAt(sorted, c) == running + sorted[start].size + SumAt(sorted, c[1..]);
    } else {
      PrependNonEmpty(start, with);
    }
  }

  lemma PrependNonEmpty(x: nat, cs: seq<seq<nat>>)
    ensures [] !in Prepend(x, cs)
  {
  }

  /** The rest of a choice is a choice from behind its first position. */
  lemma ComboTail(c: seq<nat>, start: nat, k: nat, n: nat)
    requires Combo(c, start, k, n) && k > 0
    ensures start <= c[0] < n && Combo(c[1..], c[0] + 1, k - 1, n)
  {
    var rest := c[1..];
    forall i | 0 <= i < k - 1 ensures c[0] + 1 <= rest[i] < n {
      assert rest[i] == c[i + 1];
    }
    forall i, j | 0 <= i < j < k - 1 ensures rest[i] < rest[j] {
      assert rest[i] == c[i + 1] && rest[j] == c[j + 1];
    }
  }

  lemma {:induction false} ComboFits(c: seq<nat>, start: nat, k: nat, n: nat)
    requires Combo(c, start, k, n)
    ensures k == 0 || k + start <= n
    decreases k
  {
    if k > 0 {
      ComboTail(c, start, k, n);
      ComboFits(c[1..], c[0] + 1, k - 1, n);
    }
  }

  lemma PrependMember(x: nat, cs: seq<seq<nat>>, c: seq<nat>)
    requires |c| > 0
    ensures c in Prepend(x, cs) <==> c[0] == x && c[1..] in cs
  {
    if c[0] == x && c[1..] in cs {
      var i :| 0 <= i < |cs| && cs[i] == c[1..];
      assert Prepend(x, cs)[i] == c;
    }
    if c in Prepend(x, cs) {
      var i :| 0 <= i < |cs| && Prepend(x, cs)[i] == c;
      assert c[1..] == cs[i];
    }
  }

  ghost predicate NoRepeats<T>(s: seq<T>) {
    forall i, j :: 0 <= i < j < |s| ==> s[i] != s[j]
  }

  /** Brute force lists no choice twice. */
  lemma {:induction false} ChoicesDistinct(sorted: seq<SizedFragment>, start: nat, k: nat, running: nat, target: nat, exact: bool)
    requires start <= |sorted|
    ensures NoRepeats(Choices(sorted, start, k, running, target, exact))
    decreases |sorted| - start
  {
    if k > 0 && |sorted| - start >= k {
      var with := Choices(sorted, start + 1, k - 1, running + sorted[start].size, target, exact);
      var without := Choices(sorted, start + 1, k, running, target, exact);
      ChoicesDistinct(sorted, start + 1, k - 1, running + sorted[start].size, target, exact);
      ChoicesDistinct(sorted, start + 1, k, running, target, exact);
      var first: seq<seq<nat>> := Prepend(start, with);
      var all: seq<seq<nat>> := first + without;
      forall i: nat, j: nat | i < j < |all| ensures all[i] != all[j] {
        if j < |first| {
          assert first[i][1..] == with[i] && first[j][1..] == with[j];
        } else if i < |first| {
          ChoicesExact(sorted, start + 1, k, running, target, exact, without[j - |first|]);
          assert without[j - |first|] in without;
        }
      }
    }
  }

  // -------------------------------------------------------------- the two prunes

  ghost predicate Descending(sorted: seq<SizedFragment>) {
    forall i, j :: 0 <= i <= j < |sorted| ==> sorted[i].size >= sorted[j].size
  }

  /** `suffix[i]` is the total size from position `i` on. */
  ghost predicate SuffixSums(sorted: seq<SizedFragment>, suffix: seq<nat>) {
    && |suffix| == |sorted| + 1
    && suffix[|sorted|] == 0
    && forall i :: 0 <= i < |sorted| ==> suffix[i] == suffix[i + 1] + sorted[i].size
  }

  /** No choice beats the next `k` fragments, the largest left. */
  lemma {:induction false} BestCase(sorted: seq<SizedFragment>, suffix: seq<nat>, c: seq<nat>, start: nat, k: nat)
    requires Descending(sorted) && SuffixSums(sorted, suffix) && start + k <= |sorted|
    requires Combo(c, start, k, |sorted|)
    ensures SumAt(sorted, c) + suffix[start + k] <= suffix[start]
    decreases k
  {
    if k > 0 {
      ComboTail(c, start, k, |sorted|);
      BestCase(sorted, suffix, c[1..], start + 1, k - 1);
      assert sorted[c[0]].size <= sorted[start].size;
    }
  }

  /** No choice within the first `n` undercuts the last `k` of them, the smallest. */
  lemma {:induction false} WorstCase(sorted: seq<SizedFragment>, suffix: seq<nat>, c: seq<nat>, start: nat, k: nat, n: nat)
    requires Descending(sorted) && SuffixSums(sorted, suffix) && k <= n <= |sorted|
    requires Combo(c, start, k, n)
    ensures SumAt(sorted, c) + suffix[n] >= suffix[n - k]
    decreases k
  {
    if k > 0 {
      var init, last := c[..k - 1], c[k - 1];
      assert Combo(init, start, k - 1, n - 1);
      WorstCase(sorted, suffix, init, start, k - 1, n - 1);
      SumSnoc(sorted, init, last);
      assert c == init + [last];
      assert sorted[last].size >= sorted[n - 1].size;
    }
  }

  lemma {:induction false} SumSnoc(sorted: seq<SizedFragment>, c: seq<nat>, x: nat)
    ensures SumAt(sorted, c + [x]) == SumAt(sorted, c) + SizeAt(sorted, x)
  {
    if c == [] {
      assert c + [x] == [x];
    } else {
      SumSnoc(sorted, c[1..], x);
      assert (c + [x])[1..] == c[1..] + [x];
    }
  }

  /** A subtree cut off by either bound holds no match. */
  lemma PruneSound(sorted: seq<SizedFragment>, suffix: seq<nat>, start: nat, k: nat, running: nat, target: nat, exact: bool)
    requires Descending(sorted) && SuffixSums(sorted, suffix) && 0 < k && start + k <= |sorted|
    requires running + suffix[start] < target + suffix[start + k]
          || (exact && running + suffix[|sorted| - k] > target + suffix[|sorted|])
    ensures Choices(sorted, start, k, running, target, exact) == []
  {
    var all := Choices(sorted, start, k, running, target, exact);
    if all != [] {
      ChoicesExact(sorted, start, k, running, target, exact, all[0]);
      BestCase(sorted, suffix, all[0], start, k);
      WorstCase(sorted, suffix, all[0], start, k, |sorted|);
    }
  }

  // ------------------------------------------------------------------- the search

  /** The indices of the fragments at positions `chosen`. */
  function IndicesAt(sorted: seq<SizedFragment>, chosen: seq<nat>): seq<nat> {
    seq(|chosen|, i requires 0 <= i < |chosen| => IndexAt(sorted, chosen[i]))
  }

  /** What the search emits for choices extending `chosen`. */
  ghost function Emit(sorted: seq<SizedFragment>, chosen: seq<nat>, cs: seq<seq<nat>>): (r: seq<seq<nat>>)
    ensures |r| == |cs| && forall i :: 0 <= i < |cs| ==> r[i] == IndicesAt(sorted, chosen + cs[i])
  {
    seq(|cs|, i requires 0 <= i < |cs| => IndicesAt(sorted, chosen + cs[i]))
  }

  /** The full, unpruned output of one call of the search. */
  ghost function Output(sorted: seq<SizedFragment>, chosen: seq<nat>, start: nat, k: nat, running: nat, target: nat, exact: bool)
    : seq<seq<nat>>
    requires start <= |sorted|
  {
    Emit(sorted, chosen, Choices(sorted, start, k, running, target, exact))
  }

  /** Choosing position `i` next, or passing it over. */
  lemma OutputStep(sorted: seq<SizedFragment>, chosen: seq<nat>, i: nat, k: nat, running: nat, target: nat, exact: bool)
    requires k > 0 && i + k <= |sorted|
    ensures Output(sorted, chosen, i, k, running, target, exact)
         == Output(sorted, chosen + [i], i + 1, k - 1, running + sorted[i].size, target, exact)
            + Output(sorted, chosen, i + 1, k, running, target, exact)
  {
    var with := Choices(sorted, i + 1, k - 1, running + sorted[i].size, target, exact);
    var without := Choices(sorted, i + 1, k, running, target, exact);
    hide Choices;
    var left := Output(sorted, chosen, i, k, running, target, exact);
    var right := Emit(sorted, chosen + [i], with) + Emit(sorted, chosen, without);
    forall j | 0 <= j < |left| ensures left[j] == right[j] {
      if j < |with| {
        assert chosen + ([i] + with[j]) == chosen + [i] + with[j];
      }
    }
  }

  /** `found` grew by a front piece of `all`, and by all of it unless the budget is gone. */
  ghost predicate Extends(before: seq<seq<nat>>, found: seq<seq<nat>>, all: seq<seq<nat>>, budget: nat) {
    && before <= found <= before + all
    && (budget > 0 ==> found == before + all)
  }

  lemma ExtendsNone(before: seq<seq<nat>>, all: seq<seq<nat>>, budget: nat)
    requires budget == 0 || all == []
    ensures Extends(before, before, all, budget)
  {
  }

  /** A call inside the loop stays within what the whole loop may add. */
  lemma ExtendsInner(before: seq<seq<nat>>, all: seq<seq<nat>>, mid: seq<seq<nat>>, inner: seq<seq<nat>>,
                     later: seq<seq<nat>>, found: seq<seq<nat>>, budget: nat)
    requires before <= mid && mid + (inner + later) == before + all
    requires Extends(mid, found, inner, budget)
    ensures budget == 0 ==> Extends(before, found, all, budget)
    ensures budget > 0 ==> before <= found && found + later == before + all
  {
    assert mid + (inner + later) == mid + inner + later;
  }

  /** How many nodes the depth-first search has below one with `m` fragments left for `k` slots, nothing pruned. */
  function Below(m: nat, k: nat): nat
    decreases m
  {
    if k == 0 || m < k then 0 else 1 + Below(m - 1, k - 1) + Below(m - 1, k)
  }

  lemma {:induction false} BelowBound(m: nat, k: nat)
    ensures 1 + Below(m, k) <= Pow2(m)
    decreases m
  {
    if k > 0 && m >= k {
      BelowBound(m - 1, k - 1);
      BelowBound(m - 1, k);
    }
  }

  /** Too few fragments are left, or the largest of them fall short, or the smallest overshoot: nothing below is visited. */
  predicate OutOfReach(suffix: seq<nat>, start: nat, slotsLeft: nat, running: nat, target: nat, exact: bool) {
    var n := |suffix| - 1;
    || n < start + slotsLeft
    || running + suffix[start] - suffix[start + slotsLeft] < target
    || (exact && running + suffix[n - slotsLeft] > target + suffix[n])
  }

  /**
   Depth-first search. What it adds to `found` is always a front piece of the brute-force
   output, and all of it unless the budget ran out; `chosen` is left as it was.
   */
  method SearchSubsetSum(sorted: seq<SizedFragment>, suffix: seq<nat>, start: nat, slotsLeft: nat, chosenIn: seq<nat>,
                         running: nat, target: nat, exact: bool, budgetIn: nat, foundIn: seq<seq<nat>>)
    returns (chosen: seq<nat>, budget: nat, found: seq<seq<nat>>)
    requires Descending(sorted) && SuffixSums(sorted, suffix)
    requires start <= |sorted|
    ensures chosen == chosenIn && budget <= budgetIn
    ensures Extends(foundIn, found, Output(sorted, chosenIn, start, slotsLeft, running, target, exact), budget)
    ensures budgetIn == 0 ==> found == foundIn
    ensures budgetIn <= budget + 1 + Below(|sorted| - start, slotsLeft)
    ensures budgetIn > 0 && (slotsLeft == 0 || OutOfReach(suffix, start, slotsLeft, running, target, exact)) ==> budget == budgetIn - 1
    decreases slotsLeft
  {
    hide Descending, SuffixSums, Extends, Emit, Choices;
    chosen, budget, found := chosenIn, budgetIn, foundIn;
    ghost var all := Output(sorted, chosenIn, start, slotsLeft, running, target, exact);
    if budget == 0 {
      ExtendsNone(foundIn, all, 0);
      return;
    }
    budget := budget - 1;
    if slotsLeft == 0 {
      OutputLeaf(sorted, chosen, start, running, target, exact, foundIn, budget);
      if Matched(running, target, exact) {
        found := found + [IndicesAt(sorted, chosen)];
      }
      return;
    }
    var remaining := |sorted| - start;
    if remaining < slotsLeft {
      OutputTooFew(sorted, chosen, start, slotsLeft, running, target, exact);
      ExtendsNone(foundIn, all, budget);
      return;
    }
    SuffixMonotone(sorted, suffix, start, start + slotsLeft);
    SuffixMonotone(sorted, suffix, |sorted| - slotsLeft, |sorted|);
    var bestCase := running + (suffix[start] - suffix[start + slotsLeft]);
    if bestCase < target {
      PruneSound(sorted, suffix, start, slotsLeft, running, target, exact);
      ExtendsNone(foundIn, all, budget);
      return;
    }
    if exact {
      var worstCase := running + (suffix[|sorted| - slotsLeft] - suffix[|sorted|]);
      if worstCase > target {
        PruneSound(sorted, suffix, start, slotsLeft, running, target, exact);
        ExtendsNone(foundIn, all, budget);
        return;
      }
    }
    var i := start;
    while i <= |sorted| - slotsLeft
      invariant start <= i <= |sorted| - slotsLeft + 1
      invariant chosen == chosenIn && budget < budgetIn && foundIn <= found
      invariant found + Output(sorted, chosen, i, slotsLeft, running, target, exact) == foundIn + all
      invariant budgetIn + Below(|sorted| - i, slotsLeft) <= budget + 1 + Below(|sorted| - start, slotsLeft)
    {
      hide Output;
      OutputStep(sorted, chosen, i, slotsLeft, running, target, exact);
      ghost var before := found;
      chosen := chosen + [i];
      chosen, budget, found := SearchSubsetSum(sorted, suffix, i + 1, slotsLeft - 1, chosen, running + sorted[i].size,
                                               target, exact, budget, found);
      ExtendsInner(foundIn, all, before, Output(sorted, chosen, i + 1, slotsLeft - 1, running + sorted[i].size, target, exact),
                   Output(sorted, chosenIn, i + 1, slotsLeft, running, target, exact), found, budget);
      chosen := chosen[..|chosen| - 1];
      if budget == 0 {
        return;
      }
      i := i + 1;
    }
    OutputTooFew(sorted, chosen, i, slotsLeft, running, target, exact);
    ExtendsAll(foundIn, found, all, budget);
  }

  lemma ExtendsAll(before: seq<seq<nat>>, found: seq<seq<nat>>, all: seq<seq<nat>>, budget: nat)
    requires found == before + all
    ensures Extends(before, found, all, budget)
  {
  }

  lemma OutputLeaf(sorted: seq<SizedFragment>, chosen: seq<nat>, start: nat, running: nat, target: nat, exact: bool,
                   found: seq<seq<nat>>, budget: nat)
    requires start <= |sorted|
    ensures Extends(found, if Matched(running, target, exact) then found + [IndicesAt(sorted, chosen)] else found,
                    Output(sorted, chosen, start, 0, running, target, exact), budget)
  {
    assert chosen + [] == chosen;
  }

  lemma OutputTooFew(sorted: seq<SizedFragment>, chosen: seq<nat>, start: nat, k: nat, running: nat, target: nat, exact: bool)
    requires k > 0 && start <= |sorted| < start + k
    ensures Output(sorted, chosen, start, k, running, target, exact) == []
  {
  }

  lemma {:induction false} SuffixMonotone(sorted: seq<SizedFragment>, suffix: seq<nat>, i: nat, j: nat)
    requires SuffixSums(sorted, suffix) && i <= j <= |sorted|
    ensures |suffix| == |sorted| + 1 && suffix[i] >= suffix[j]
    decreases j - i
  {
    if i < j {
      SuffixMonotone(sorted, suffix, i + 1, j);
    }
  }

  // --------------------------------------------- positions and sets of fragments

  lemma {:induction false} IndicesMember(fragments: seq<SizedFragment>, x: nat)
    ensures x in Indices(fragments) <==> exists p :: 0 <= p < |fragments| && fragments[p].index == x
  {
    if fragments != [] {
      IndicesMember(fragments[1..], x);
      if x in Indices(fragments[1..]) {
        var p :| 0 <= p < |fragments[1..]| && fragments[1..][p].index == x;
        assert fragments[p + 1].index == x;
      }
      if exists p :: 0 < p < |fragments| && fragments[p].index == x {
        var p :| 0 < p < |fragments| && fragments[p].index == x;
        assert fragments[1..][p - 1].index == x;
      }
    }
  }

  /** The choice `c` takes exactly the positions from `start` on whose fragment is in `s`. */
  ghost predicate Picks(sorted: seq<SizedFragment>, s: set<nat>, start: nat, c: seq<nat>) {
    && Combo(c, start, |c|, |sorted|)
    && forall p :: start <= p < |sorted| ==> (p in c <==> sorted[p].index in s)
  }

  lemma {:induction false} PickedTotal(sorted: seq<SizedFragment>, s: set<nat>, start: nat, c: seq<nat>)
    requires start <= |sorted| && Picks(sorted, s, start, c)
    ensures SetTotal(sorted[start..], s) == SumAt(sorted, c)
    decreases |sorted| - start
  {
    if start < |sorted| {
      var rest := sorted[start..];
      assert rest[1..] == sorted[start + 1..];
      if c != [] && c[0] == start {
        ComboTail(c, start, |c|, |sorted|);
        assert forall p :: start < p ==> (p in c <==> p in c[1..]);
        PickedTotal(sorted, s, start + 1, c[1..]);
      } else {
        assert start !in c by {
          if c != [] { ComboTail(c, start, |c|, |sorted|); }
        }
        PickedTotal(sorted, s, start + 1, c);
      }
    }
  }

  /** The choice that picks `s`. */
  ghost function PickOf(sorted: seq<SizedFragment>, s: set<nat>, start: nat): (c: seq<nat>)
    requires start <= |sorted|
    ensures Picks(sorted, s, start, c)
    decreases |sorted| - start
  {
    if start == |sorted| then []
    else
      var rest := PickOf(sorted, s, start + 1);
      if sorted[start].index in s then [start] + rest else rest
  }

  /** A choice picks the set of its own fragments. */
  lemma ChoicePicks(sorted: seq<SizedFragment>, k: nat, c: seq<nat>)
    requires DistinctIndices(sorted) && Combo(c, 0, k, |sorted|)
    ensures Picks(sorted, Members(IndicesAt(sorted, c)), 0, c)
    ensures Distinct(IndicesAt(sorted, c)) && Members(IndicesAt(sorted, c)) <= Indices(sorted)
  {
    hide Indices;
    var r := IndicesAt(sorted, c);
    forall p | 0 <= p < |sorted| ensures p in c <==> sorted[p].index in Members(r) {
      if p in c {
        var i :| 0 <= i < |c| && c[i] == p;
        assert r[i] == sorted[p].index;
      }
      if sorted[p].index in r {
        var i :| 0 <= i < |r| && r[i] == sorted[p].index;
        assert c[i] == p;
      }
    }
    forall x | x in Members(r) ensures x in Indices(sorted) {
      var i :| 0 <= i < |r| && r[i] == x;
      assert sorted[c[i]] in sorted;
    }
  }

  lemma {:induction false} PicksUnique(sorted: seq<SizedFragment>, s: set<nat>, start: nat, c: seq<nat>, d: seq<nat>)
    requires Picks(sorted, s, start, c) && Picks(sorted, s, start, d)
    ensures c == d
    decreases |c|
  {
    if c == [] {
      assert forall i :: 0 <= i < |d| ==> d[i] in d;
    } else {
      assert c[0] in c;
      assert d != [];
      assert d[0] in d;
      ComboTail(c, start, |c|, |sorted|);
      ComboTail(d, start, |d|, |sorted|);
      assert c[0] == d[0];
      assert forall p :: c[0] < p ==> (p in c <==> p in c[1..]) && (p in d <==> p in d[1..]);
      PicksUnique(sorted, s, c[0] + 1, c[1..], d[1..]);
      assert c == [c[0]] + c[1..] && d == [d[0]] + d[1..];
    }
  }

  /** Distinct fragments: as many indices as entries. */
  lemma {:induction false} DistinctCount(s: seq<nat>)
    requires Distinct(s)
    ensures |Members(s)| == |s|
  {
    if s != [] {
      var init, last := s[..|s| - 1], s[|s| - 1];
      DistinctCount(init);
      assert s == init + [last];
      assert Members(s) == Members(init) + {last};
      assert last !in init;
    }
  }

  /** The picked choice of a set of fragments names exactly that set. */
  lemma PickNames(sorted: seq<SizedFragment>, s: set<nat>)
    requires DistinctIndices(sorted) && s <= Indices(sorted)
    ensures Members(IndicesAt(sorted, PickOf(sorted, s, 0))) == s
    ensures |PickOf(sorted, s, 0)| == |s|
  {
    var c := PickOf(sorted, s, 0);
    var r := IndicesAt(sorted, c);
    forall x ensures x in r <==> x in s {
      if x in r {
        var i :| 0 <= i < |r| && r[i] == x;
        assert c[i] in c;
      }
      if x in s {
        IndicesMember(sorted, x);
        var p :| 0 <= p < |sorted| && sorted[p].index == x;
        assert p in c;
        var i :| 0 <= i < |c| && c[i] == p;
        assert r[i] == x;
      }
    }
    ChoicePicks(sorted, |c|, c);
    DistinctCount(r);
  }

  // -------------------------------------------------- reordering the fragments

  lemma {:induction false} SetTotalSplit(a: seq<SizedFragment>, x: SizedFragment, b: seq<SizedFragment>, s: set<nat>)
    ensures SetTotal(a + [x] + b, s) == SetTotal(a + b, s) + (if x.index in s then x.size else 0)
  {
    if a == [] {
      assert a + [x] + b == [x] + b && a + b == b;
    } else {
      SetTotalSplit(a[1..], x, b, s);
      assert (a + [x] + b)[1..] == a[1..] + [x] + b && (a + b)[1..] == a[1..] + b;
    }
  }

  lemma SameRest<T>(a: seq<T>, b: seq<T>, i: nat)
    requires multiset(a) == multiset(b) && a != [] && i < |b| && b[i] == a[0]
    ensures multiset(a[1..]) == multiset(b[..i] + b[i + 1..])
  {
    MultisetRemove(a, 0);
    MultisetRemove(b, i);
    assert a[..0] + a[1..] == a[1..];
  }

  /** Totals do not depend on the order of the fragments. */
  lemma {:induction false} SetTotalReordered(a: seq<SizedFragment>, b: seq<SizedFragment>, s: set<nat>)
    requires multiset(a) == multiset(b)
    ensures SetTotal(a, s) == SetTotal(b, s)
    decreases |a|
  {
    if a == [] {
      assert |multiset(b)| == 0;
    } else {
      assert a[0] in multiset(b);
      var i :| 0 <= i < |b| && b[i] == a[0];
      SameRest(a, b, i);
      SetTotalReordered(a[1..], b[..i] + b[i + 1..], s);
      SetTotalSplit(b[..i], b[i], b[i + 1..], s);
      assert b == b[..i] + [b[i]] + b[i + 1..];
    }
  }

  lemma IndicesReordered(a: seq<SizedFragment>, b: seq<SizedFragment>)
    requires multiset(a) == multiset(b)
    ensures Indices(a) == Indices(b)
  {
    forall x ensures x in Indices(a) <==> x in Indices(b) {
      IndicesMember(a, x);
      IndicesMember(b, x);
      assert forall f :: f in a <==> f in multiset(a);
      assert forall f :: f in b <==> f in multiset(b);
      if x in Indices(a) {
        var p :| 0 <= p < |a| && a[p].index == x;
        assert a[p] in b;
      }
      if x in Indices(b) {
        var p :| 0 <= p < |b| && b[p].index == x;
        assert b[p] in a;
      }
    }
  }

  /** `f` put in behind everything at least as large. */
  method InsertDescending(sorted: seq<SizedFragment>, f: SizedFragment) returns (r: seq<SizedFragment>)
    requires Descending(sorted) && DistinctIndices(sorted) && forall g :: g in sorted ==> g.index != f.index
    ensures Descending(r) && DistinctIndices(r) && |r| == |sorted| + 1
    ensures multiset(r) == multiset(sorted) + multiset{f}
  {
    var i := 0;
    while i < |sorted| && sorted[i].size >= f.size
      invariant 0 <= i <= |sorted|
      invariant forall j :: 0 <= j < i ==> sorted[j].size >= f.size
    {
      i := i + 1;
    }
    MultisetInsert(sorted, i, f);
    r := sorted[..i] + [f] + sorted[i..];
  }

  /** `sort_unstable_by_key(Reverse(size))`: some descending order of the same fragments. */
  method SortDescending(fragments: seq<SizedFragment>) returns (sorted: seq<SizedFragment>)
    requires DistinctIndices(fragments)
    ensures Descending(sorted) && multiset(sorted) == multiset(fragments)
    ensures |sorted| == |fragments| && DistinctIndices(sorted)
  {
    hide Descending;
    NothingDescends();
    sorted := [];
    for n := 0 to |fragments|
      invariant |sorted| == n && Descending(sorted) && DistinctIndices(sorted)
      invariant multiset(sorted) == multiset(fragments[..n])
    {
      forall g | g in sorted ensures g.index != fragments[n].index {
        assert g in multiset(fragments[..n]);
      }
      MultisetSnoc(fragments, n);
      sorted := InsertDescending(sorted, fragments[n]);
    }
    assert fragments[..|fragments|] == fragments;
  }

  lemma NothingDescends()
    ensures Descending([])
  {
  }

  method BuildSuffixSums(sorted: seq<SizedFragment>) returns (suffix: seq<nat>)
    ensures SuffixSums(sorted, suffix)
  {
    suffix := seq(|sorted| + 1, _ => 0);
    var i := |sorted|;
    while i > 0
      invariant 0 <= i <= |sorted| && |suffix| == |sorted| + 1
      invariant suffix[|sorted|] == 0
      invariant forall j :: i <= j < |sorted| ==> suffix[j] == suffix[j + 1] + sorted[j].size
    {
      i := i - 1;
      suffix := suffix[i := suffix[i + 1] + sorted[i].size];
    }
  }

  // ------------------------------------------------------ one size, then all sizes

  /** A total the way `subsets_at_k` computes it: each index's size looked up and added. */
  function LookupTotal(fragments: seq<SizedFragment>, subset: seq<nat>): nat {
    if subset == [] then 0 else SizeOf(fragments, subset[0]) + LookupTotal(fragments, subset[1..])
  }

  function SizeOf(fragments: seq<SizedFragment>, index: nat): nat {
    if fragments == [] then 0
    else if fragments[0].index == index then fragments[0].size
    else SizeOf(fragments[1..], index)
  }

  lemma {:induction false} LookupIsSetTotal(fragments: seq<SizedFragment>, subset: seq<nat>)
    requires DistinctIndices(fragments) && Distinct(subset)
    ensures LookupTotal(fragments, subset) == SetTotal(fragments, Members(subset))
  {
    if subset == [] {
      SetTotalEmpty(fragments, Members(subset));
    } else {
      var rest := subset[1..];
      assert Distinct(rest);
      LookupIsSetTotal(fragments, rest);
      assert Members(subset) == Members(rest) + {subset[0]};
      assert forall i :: 0 <= i < |rest| ==> rest[i] == subset[i + 1];
      SetTotalAdd(fragments, Members(rest), subset[0]);
    }
  }

  lemma {:induction false} SetTotalEmpty(fragments: seq<SizedFragment>, s: set<nat>)
    requires s == {}
    ensures SetTotal(fragments, s) == 0
  {
    if fragments != [] {
      SetTotalEmpty(fragments[1..], s);
    }
  }

  lemma {:induction false} SetTotalAdd(fragments: seq<SizedFragment>, s: set<nat>, x: nat)
    requires DistinctIndices(fragments) && x !in s
    ensures SetTotal(fragments, s + {x}) == SetTotal(fragments, s) + SizeOf(fragments, x)
  {
    if fragments != [] {
      assert DistinctIndices(fragments[1..]);
      if fragments[0].index == x {
        SetTotalIgnores(fragments[1..], s, x);
      } else {
        SetTotalAdd(fragments[1..], s, x);
      }
    }
  }

  lemma {:induction false} SetTotalIgnores(fragments: seq<SizedFragment>, s: set<nat>, x: nat)
    requires forall f :: f in fragments ==> f.index != x
    ensures SetTotal(fragments, s + {x}) == SetTotal(fragments, s)
  {
    if fragments != [] {
      assert forall f :: f in fragments[1..] ==> f in fragments;
      assert fragments[0] in fragments;
      SetTotalIgnores(fragments[1..], s, x);
    }
  }

  /** No two entries stand for the same set of fragments. */
  ghost predicate DifferentSets(all: seq<seq<nat>>) {
    forall i, j :: 0 <= i < j < |all| ==> Members(all[i]) != Members(all[j])
  }

  /** Every entry is a match with `k` fragments, and no set comes twice. */
  ghost predicate MatchesOfSize(fragments: seq<SizedFragment>, all: seq<seq<nat>>, k: nat, target: nat, exact: bool) {
    && (forall i :: 0 <= i < |all| ==> |all[i]| == k && IsMatch(fragments, all[i], target, exact))
    && DifferentSets(all)
  }

  /** Every set of `k` fragments with a matching total is in the list. */
  ghost predicate CoversSize(fragments: seq<SizedFragment>, all: seq<seq<nat>>, k: nat, target: nat, exact: bool) {
    forall s: set<nat> {:trigger SetTotal(fragments, s)} ::
      s <= Indices(fragments) && |s| == k && Matched(SetTotal(fragments, s), target, exact) ==> Listed(all, s)
  }

  ghost predicate Listed(all: seq<seq<nat>>, s: set<nat>) {
    exists i :: 0 <= i < |all| && Members(all[i]) == s
  }

  ghost predicate TightestFirst(fragments: seq<SizedFragment>, all: seq<seq<nat>>) {
    forall i, j :: 0 <= i < j < |all| ==> SetTotal(fragments, Members(all[i])) <= SetTotal(fragments, Members(all[j]))
  }

  /** Any front piece of the brute-force output lists matches, each set once. */
  lemma OutputMatches(fragments: seq<SizedFragment>, sorted: seq<SizedFragment>, k: nat, target: nat, exact: bool, found: seq<seq<nat>>)
    requires multiset(fragments) == multiset(sorted) && DistinctIndices(sorted)
    requires found <= Output(sorted, [], 0, k, 0, target, exact)
    ensures MatchesOfSize(fragments, found, k, target, exact)
  {
    var cs := Choices(sorted, 0, k, 0, target, exact);
    forall i | 0 <= i < |found| ensures |found[i]| == k && IsMatch(fragments, found[i], target, exact) {
      OutputMatch(fragments, sorted, k, target, exact, i);
    }
    ChoicesDistinct(sorted, 0, k, 0, target, exact);
    forall i, j | 0 <= i < j < |found| ensures Members(found[i]) != Members(found[j]) {
      OutputMatch(fragments, sorted, k, target, exact, i);
      OutputMatch(fragments, sorted, k, target, exact, j);
      if Members(found[i]) == Members(found[j]) {
        PicksUnique(sorted, Members(found[i]), 0, cs[i], cs[j]);
      }
    }
  }

  lemma OutputMatch(fragments: seq<SizedFragment>, sorted: seq<SizedFragment>, k: nat, target: nat, exact: bool, i: nat)
    requires multiset(fragments) == multiset(sorted) && DistinctIndices(sorted)
    requires i < |Output(sorted, [], 0, k, 0, target, exact)|
    ensures var r := Output(sorted, [], 0, k, 0, target, exact)[i];
            && |r| == k && IsMatch(fragments, r, target, exact)
            && Picks(sorted, Members(r), 0, Choices(sorted, 0, k, 0, target, exact)[i])
  {
    OutputAt(sorted, k, target, exact);
    hide Choices, Output, Picks, SetTotal, Indices, DistinctIndices, SumAt, Matched;
    var c := Choices(sorted, 0, k, 0, target, exact)[i];
    var r := IndicesAt(sorted, c);
    ChoicesExact(sorted, 0, k, 0, target, exact, c);
    ChoicePicks(sorted, k, c);
    PickedTotal(sorted, Members(r), 0, c);
    assert sorted[0..] == sorted;
    SetTotalReordered(fragments, sorted, Members(r));
    IndicesReordered(fragments, sorted);
  }

  lemma OutputAt(sorted: seq<SizedFragment>, k: nat, target: nat, exact: bool)
    ensures var cs, all := Choices(sorted, 0, k, 0, target, exact), Output(sorted, [], 0, k, 0, target, exact);
            |all| == |cs| && forall i :: 0 <= i < |cs| ==> all[i] == IndicesAt(sorted, cs[i])
  {
    var cs := Choices(sorted, 0, k, 0, target, exact);
    forall i | 0 <= i < |cs| ensures [] + cs[i] == cs[i] {}
  }

  /** The whole brute-force output covers every matching set of its size. */
  lemma OutputCovers(fragments: seq<SizedFragment>, sorted: seq<SizedFragment>, k: nat, target: nat, exact: bool)
    requires multiset(fragments) == multiset(sorted) && DistinctIndices(sorted)
    ensures CoversSize(fragments, Output(sorted, [], 0, k, 0, target, exact), k, target, exact)
  {
    var all := Output(sorted, [], 0, k, 0, target, exact);
    IndicesReordered(fragments, sorted);
    forall s: set<nat> | s <= Indices(fragments) && |s| == k && Matched(SetTotal(fragments, s), target, exact)
      ensures Listed(all, s)
    {
      SetIsListed(fragments, sorted, k, target, exact, s);
    }
  }

  lemma SetIsListed(fragments: seq<SizedFragment>, sorted: seq<SizedFragment>, k: nat, target: nat, exact: bool, s: set<nat>)
    requires multiset(fragments) == multiset(sorted) && DistinctIndices(sorted)
    requires s <= Indices(sorted) && |s| == k && Matched(SetTotal(fragments, s), target, exact)
    ensures Listed(Output(sorted, [], 0, k, 0, target, exact), s)
  {
    OutputAt(sorted, k, target, exact);
    hide Choices, Output, Combo, SetTotal, Indices, DistinctIndices, SumAt, Matched, PickOf;
    var c := PickOf(sorted, s, 0);
    PickNames(sorted, s);
    PickedTotal(sorted, s, 0, c);
    assert sorted[0..] == sorted;
    SetTotalReordered(fragments, sorted, s);
    ChoicesExact(sorted, 0, k, 0, target, exact, c);
    var i :| 0 <= i < |Choices(sorted, 0, k, 0, target, exact)| && Choices(sorted, 0, k, 0, target, exact)[i] == c;
    assert Members(Output(sorted, [], 0, k, 0, target, exact)[i]) == s;
  }

  lemma DifferentInsert(all: seq<seq<nat>>, i: nat, x: seq<nat>)
    requires DifferentSets(all) && i <= |all| && forall y :: y in all ==> Members(y) != Members(x)
    ensures DifferentSets(all[..i] + [x] + all[i..])
  {
    hide Members;
    var r := all[..i] + [x] + all[i..];
    forall p, q | 0 <= p < q < |r| ensures Members(r[p]) != Members(r[q]) {
      if p < i < q { assert r[p] == all[p] && r[q] == all[q - 1]; }
    }
  }

  /** `sort_by_key` on the looked-up totals. */
  method SortByTotal(fragments: seq<SizedFragment>, found: seq<seq<nat>>) returns (r: seq<seq<nat>>)
    requires DistinctIndices(fragments) && DifferentSets(found)
    requires forall i :: 0 <= i < |found| ==> Distinct(found[i])
    ensures multiset(r) == multiset(found) && DifferentSets(r)
    ensures TightestFirst(fragments, r)
  {
    hide DifferentSets, TightestFirst, Members, DistinctIndices, LookupTotal, SetTotal;
    NothingListed(fragments);
    r := [];
    for n := 0 to |found|
      invariant multiset(r) == multiset(found[..n])
      invariant DifferentSets(r) && TightestFirst(fragments, r)
    {
      forall y | y in r ensures Distinct(y) && Members(y) != Members(found[n]) {
        assert y in multiset(found[..n]);
        var m :| 0 <= m < n && found[m] == y;
        DifferentAt(found, m, n);
      }
      MultisetSnoc(found, n);
      r := InsertByTotal(fragments, r, found[n]);
    }
    assert found[..|found|] == found;
  }

  lemma NothingListed(fragments: seq<SizedFragment>)
    ensures DifferentSets([]) && TightestFirst(fragments, [])
  {
  }

  lemma DifferentAt(all: seq<seq<nat>>, m: nat, n: nat)
    requires DifferentSets(all) && m < n < |all|
    ensures Members(all[m]) != Members(all[n])
  {
  }

  method InsertByTotal(fragments: seq<SizedFragment>, all: seq<seq<nat>>, x: seq<nat>) returns (r: seq<seq<nat>>)
    requires DistinctIndices(fragments) && Distinct(x) && DifferentSets(all) && TightestFirst(fragments, all)
    requires forall y :: y in all ==> Distinct(y) && Members(y) != Members(x)
    ensures multiset(r) == multiset(all) + multiset{x}
    ensures DifferentSets(r) && TightestFirst(fragments, r)
  {
    hide Distinct, DistinctIndices, DifferentSets, Members, SetTotal, LookupTotal;
    LookupIsSetTotal(fragments, x);
    var key := LookupTotal(fragments, x);
    var i := 0;
    while i < |all| && LookupTotal(fragments, all[i]) <= key
      invariant 0 <= i <= |all|
      invariant forall j :: 0 <= j < i ==> SetTotal(fragments, Members(all[j])) <= key
    {
      LookupIsSetTotal(fragments, all[i]);
      i := i + 1;
    }
    if i < |all| {
      LookupIsSetTotal(fragments, all[i]);
    }
    DifferentInsert(all, i, x);
    MultisetInsert(all, i, x);
    r := all[..i] + [x] + all[i..];
  }

  /** What a list of matches says does not depend on its order. */
  lemma MatchesReordered(fragments: seq<SizedFragment>, a: seq<seq<nat>>, b: seq<seq<nat>>, k: nat, target: nat, exact: bool)
    requires multiset(a) == multiset(b) && MatchesOfSize(fragments, a, k, target, exact) && DifferentSets(b)
    ensures MatchesOfSize(fragments, b, k, target, exact)
    ensures CoversSize(fragments, a, k, target, exact) ==> CoversSize(fragments, b, k, target, exact)
  {
    hide IsMatch, Members, DifferentSets;
    forall i | 0 <= i < |b| ensures |b[i]| == k && IsMatch(fragments, b[i], target, exact) {
      assert b[i] in multiset(a);
      var j :| 0 <= j < |a| && a[j] == b[i];
    }
    forall s | Listed(a, s) ensures Listed(b, s) {
      var i :| 0 <= i < |a| && Members(a[i]) == s;
      assert a[i] in multiset(b);
      var j :| 0 <= j < |b| && b[j] == a[i];
    }
  }

  /**
   The matches with exactly `k` fragments, tightest first. Whatever the budget, nothing
   wrong and nothing twice is listed; with budget left over, nothing is missing.
   */
  method SubsetsAtK(fragments: seq<SizedFragment>, sorted: seq<SizedFragment>, suffix: seq<nat>, k: nat, target: nat,
                    exact: bool, budgetIn: nat) returns (r: seq<seq<nat>>, budget: nat)
    requires multiset(fragments) == multiset(sorted) && DistinctIndices(fragments) && DistinctIndices(sorted)
    requires Descending(sorted) && SuffixSums(sorted, suffix)
    ensures budget <= budgetIn && (budgetIn == 0 ==> r == [])
    ensures budgetIn <= budget + Pow2(|fragments|)
    ensures MatchesOfSize(fragments, r, k, target, exact) && TightestFirst(fragments, r)
    ensures budget > 0 ==> CoversSize(fragments, r, k, target, exact)
  {
    hide DistinctIndices, Descending, SuffixSums, TightestFirst, Output, CoversSize, IsMatch, DifferentSets;
    var chosen, found;
    chosen, budget, found := SearchSubsetSum(sorted, suffix, 0, k, [], 0, target, exact, budgetIn, []);
    ghost var all := Output(sorted, [], 0, k, 0, target, exact);
    SameLength(fragments, sorted);
    BelowBound(|sorted|, k);
    FrontPiece(found, all, budget);
    OutputMatches(fragments, sorted, k, target, exact, found);
    MatchesDistinct(fragments, found, k, target, exact);
    r := SortByTotal(fragments, found);
    MatchesReordered(fragments, found, r, k, target, exact);
    OutputCovers(fragments, sorted, k, target, exact);
    if budgetIn == 0 {
      SameLength(r, found);
    }
  }

  lemma SameLength<T>(a: seq<T>, b: seq<T>)
    requires multiset(a) == multiset(b)
    ensures |a| == |b|
  {
    assert |a| == |multiset(a)| && |b| == |multiset(b)|;
  }

  lemma FrontPiece(found: seq<seq<nat>>, all: seq<seq<nat>>, budget: nat)
    requires Extends([], found, all, budget)
    ensures found <= all && (budget > 0 ==> found == all)
  {
    assert [] + all == all;
  }

  lemma MatchesDistinct(fragments: seq<SizedFragment>, all: seq<seq<nat>>, k: nat, target: nat, exact: bool)
    requires MatchesOfSize(fragments, all, k, target, exact)
    ensures forall i :: 0 <= i < |all| ==> Distinct(all[i])
    ensures DifferentSets(all)
  {
  }

  // ---------------------------------------------------------------- every size

  function MaxK(fragments: seq<SizedFragment>): nat { Min(|fragments|, MAX_SPLIT_FRAGMENTS_CEILING) }

  /** Entries are matches of between one and `top` fragments, each set once, by size and then by total. */
  ghost predicate MatchesUpTo(fragments: seq<SizedFragment>, all: seq<seq<nat>>, top: nat, target: nat, exact: bool) {
    && (forall i :: 0 <= i < |all| ==> 1 <= |all[i]| <= top && IsMatch(fragments, all[i], target, exact))
    && DifferentSets(all)
    && (forall i, j :: 0 <= i < j < |all| ==> InOrder(fragments, all[i], all[j]))
  }

  ghost predicate InOrder(fragments: seq<SizedFragment>, a: seq<nat>, b: seq<nat>) {
    |a| < |b| || (|a| == |b| && SetTotal(fragments, Members(a)) <= SetTotal(fragments, Members(b)))
  }

  ghost predicate CoversUpTo(fragments: seq<SizedFragment>, all: seq<seq<nat>>, top: nat, target: nat, exact: bool) {
    forall s: set<nat> {:trigger SetTotal(fragments, s)} ::
      s <= Indices(fragments) && 1 <= |s| <= top && Matched(SetTotal(fragments, s), target, exact) ==> Listed(all, s)
  }

  lemma MatchesGrow(fragments: seq<SizedFragment>, all: seq<seq<nat>>, more: seq<seq<nat>>, k: nat, target: nat, exact: bool)
    requires k > 0 && MatchesUpTo(fragments, all, k - 1, target, exact)
    requires MatchesOfSize(fragments, more, k, target, exact) && TightestFirst(fragments, more)
    ensures MatchesUpTo(fragments, all + more, k, target, exact)
  {
    hide SetTotal, Indices, Members;
    var r := all + more;
    forall i, j | 0 <= i < j < |r| ensures Members(r[i]) != Members(r[j]) && InOrder(fragments, r[i], r[j]) {
      if i < |all| <= j {
        DistinctCount(r[i]);
        DistinctCount(r[j]);
      }
    }
  }

  lemma CoversGrow(fragments: seq<SizedFragment>, all: seq<seq<nat>>, more: seq<seq<nat>>, k: nat, target: nat, exact: bool)
    requires k > 0 && CoversUpTo(fragments, all, k - 1, target, exact) && CoversSize(fragments, more, k, target, exact)
    ensures CoversUpTo(fragments, all + more, k, target, exact)
  {
    forall s: set<nat> | s <= Indices(fragments) && 1 <= |s| <= k && Matched(SetTotal(fragments, s), target, exact)
      ensures Listed(all + more, s)
    {
      if |s| == k {
        assert Listed(more, s);
        var i :| 0 <= i < |more| && Members(more[i]) == s;
        assert (all + more)[|all| + i] == more[i];
      } else {
        assert Listed(all, s);
        var i :| 0 <= i < |all| && Members(all[i]) == s;
        assert (all + more)[i] == all[i];
      }
    }
  }

  /**
   Every matching subset of up to eight fragments, smallest subsets first and tightest first
   among those. The pruned search agrees with brute force: if the budget lasts, the list
   is complete; if it does not, it is merely shorter.
   */
  method AllMatchingSubsets(fragments: seq<SizedFragment>, target: nat, exact: bool, budgetIn: nat)
    returns (all: seq<seq<nat>>, budget: nat)
    requires DistinctIndices(fragments)
    ensures budget <= budgetIn && (budgetIn == 0 ==> all == [])
    ensures budgetIn <= budget + 8 * Pow2(|fragments|)
    ensures MatchesUpTo(fragments, all, Min(|fragments|, 8), target, exact)
    ensures budget > 0 ==> CoversUpTo(fragments, all, Min(|fragments|, 8), target, exact)
  {
    hide DistinctIndices, Descending, SuffixSums, MatchesUpTo, MatchesOfSize, CoversUpTo, CoversSize, TightestFirst, Indices,
         SetTotal, Pow2;
    var maxK := MaxK(fragments);
    var sorted := SortDescending(fragments);
    var suffix := BuildSuffixSums(sorted);
    all, budget := [], budgetIn;
    NothingUpTo(fragments, target, exact);
    var k := 1;
    while k <= maxK
      invariant 1 <= k <= maxK + 1
      invariant budget <= budgetIn && (budgetIn == 0 ==> all == [])
      invariant budgetIn <= budget + (k - 1) * Pow2(|fragments|)
      invariant MatchesUpTo(fragments, all, k - 1, target, exact)
      invariant budget > 0 || k == 1 ==> CoversUpTo(fragments, all, k - 1, target, exact)
    {
      var more;
      more, budget := SubsetsAtK(fragments, sorted, suffix, k, target, exact, budget);
      MatchesGrow(fragments, all, more, k, target, exact);
      if budget > 0 {
        CoversGrow(fragments, all, more, k, target, exact);
      }
      all := all + more;
      if budget == 0 {
        MatchesLoosen(fragments, all, k, maxK, target, exact);
        return;
      }
      k := k + 1;
    }
  }

  lemma MatchesLoosen(fragments: seq<SizedFragment>, all: seq<seq<nat>>, k: nat, top: nat, target: nat, exact: bool)
    requires k <= top && MatchesUpTo(fragments, all, k, target, exact)
    ensures MatchesUpTo(fragments, all, top, target, exact)
  {
  }

  lemma NothingUpTo(fragments: seq<SizedFragment>, target: nat, exact: bool)
    ensures MatchesUpTo(fragments, [], 0, target, exact)
    ensures CoversUpTo(fragments, [], 0, target, exact)
  {
  }
}
