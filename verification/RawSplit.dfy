/**
 Finding which continuation files complete a truncated header: size-matching subsets in
 two tiers, every order of each, winners and ambiguity.
 */
module RawSplit {
  import opened Common
  import opened SubsetSearch
  import opened Permutations

  const MAX_ORDERING_CANDIDATES_TRIED: nat := 2000
  /** With this many continuations both tiers together take fewer steps than the budget has. */
  const AFFORDABLE_CONTINUATIONS: nat := 10

  /** A file of the batch. `content` stands for the bytes its read function serves. */
  datatype Part = Part(name: string, content: nat, size: nat)

  /**
   What the search learns by reading files: the total size the header's own directory asks
   for (none if it does not parse), which files are complete by themselves, which orderings
   verify, and which verified orderings can be reopened.
   */
  datatype Oracle = Oracle(requiredTotal: Part -> Option<nat>, selfContained: Part -> bool,
                           verifies: seq<Part> -> bool, reopens: seq<Part> -> bool)

  datatype Outcome =
    | Resolved(names: seq<string>, handle: Option<seq<Part>>)
    | Ambiguous(orderings: seq<seq<string>>)
    | Unresolved

  // ------------------------------------------------------------------- orderings

  /** The header followed by the continuations at `ordering`. */
  function Candidate(header: Part, continuations: seq<Part>, ordering: seq<nat>): seq<Part> {
    [header] + PartsAt(continuations, ordering)
  }

  function PartsAt(continuations: seq<Part>, ordering: seq<nat>): (r: seq<Part>)
    ensures |r| == |ordering|
    ensures forall i :: 0 <= i < |ordering| && ordering[i] < |continuations| ==> r[i] == continuations[ordering[i]]
  {
    seq(|ordering|, i requires 0 <= i < |ordering| =>
      if ordering[i] < |continuations| then continuations[ordering[i]] else Part("", 0, 0))
  }

  function NamesOf(parts: seq<Part>): seq<string> {
    seq(|parts|, i requires 0 <= i < |parts| => parts[i].name)
  }

  /** ASCII lower case, character by character. */
  function LowerName(s: string): string {
    if s == [] then [] else [Lower(s[0])] + LowerName(s[1..])
  }

  /** Two names fold to one exactly when they differ in ASCII case at most. */
  lemma {:induction false} LowerNameMeaning(a: string, b: string)
    ensures LowerName(a) == LowerName(b) <==>
            |a| == |b| && forall i :: 0 <= i < |a| ==> a[i] == b[i] || (IsLetterPair(a[i], b[i]) || IsLetterPair(b[i], a[i]))
  {
    LowerLength(a);
    LowerLength(b);
    if a != [] && b != [] {
      LowerNameMeaning(a[1..], b[1..]);
      LowerMeaning(a[0], b[0]);
      hide IsLetterPair, Lower;
      var x, y := LowerName(a), LowerName(b);
      assert x == y <==> x[0] == y[0] && x[1..] == y[1..];
    }
  }

  lemma {:induction false} LowerLength(s: string)
    ensures |LowerName(s)| == |s|
  {
    if s != [] {
      LowerLength(s[1..]);
    }
  }

  /** Which names, ignoring ASCII case and order; sorting both lists and comparing decides the same. */
  function Folded(names: seq<string>): multiset<string> {
    if names == [] then multiset{} else multiset{LowerName(names[0])} + Folded(names[1..])
  }

  /** `ordering` uses each eligible continuation at most once, and between one and eight of them. */
  ghost predicate Eligible(oracle: Oracle, continuations: seq<Part>, ordering: seq<nat>) {
    && Distinct(ordering)
    && 1 <= |ordering| <= 8
    && forall i :: 0 <= i < |ordering| ==>
         ordering[i] < |continuations| && !oracle.selfContained(continuations[ordering[i]])
  }

  function TotalSize(continuations: seq<Part>, ordering: seq<nat>): nat {
    if ordering == [] then 0
    else (if ordering[0] < |continuations| then continuations[ordering[0]].size else 0) + TotalSize(continuations, ordering[1..])
  }

  ghost predicate Verifies(oracle: Oracle, header: Part, continuations: seq<Part>, ordering: seq<nat>) {
    oracle.verifies(Candidate(header, continuations, ordering))
  }

  function OrderingNames(header: Part, continuations: seq<Part>, ordering: seq<nat>): seq<string> {
    NamesOf(Candidate(header, continuations, ordering))
  }

  // ------------------------------------------------------------------- fragments

  /** The continuations not complete by themselves, as sized fragments. */
  function FragmentsUpTo(oracle: Oracle, continuations: seq<Part>, n: nat): seq<SizedFragment>
    requires n <= |continuations|
  {
    if n == 0 then []
    else
      var before := FragmentsUpTo(oracle, continuations, n - 1);
      if oracle.selfContained(continuations[n - 1]) then before
      else before + [SizedFragment(n - 1, continuations[n - 1].size)]
  }

  lemma {:induction false} FragmentsMeaning(oracle: Oracle, continuations: seq<Part>, n: nat)
    requires n <= |continuations|
    ensures DistinctIndices(FragmentsUpTo(oracle, continuations, n))
    ensures forall f :: f in FragmentsUpTo(oracle, continuations, n) ==>
              f.index < n && !oracle.selfContained(continuations[f.index]) && f.size == continuations[f.index].size
    ensures forall i :: 0 <= i < n && !oracle.selfContained(continuations[i]) ==>
              SizedFragment(i, continuations[i].size) in FragmentsUpTo(oracle, continuations, n)
  {
    if n > 0 {
      FragmentsMeaning(oracle, continuations, n - 1);
    }
  }

  lemma {:induction false} SizeOfFragment(fragments: seq<SizedFragment>, f: SizedFragment)
    requires DistinctIndices(fragments) && f in fragments
    ensures SizeOf(fragments, f.index) == f.size
  {
    if fragments[0] != f {
      assert f in fragments[1..];
      var i :| 0 <= i < |fragments| && fragments[i] == f;
      assert fragments[0].index != f.index;
      SizeOfFragment(fragments[1..], f);
    }
  }

  /** An ordering's total is the total of its set of fragments. */
  lemma {:induction false} LookupIsTotalSize(oracle: Oracle, continuations: seq<Part>, ordering: seq<nat>)
    requires forall i :: 0 <= i < |ordering| ==>
               ordering[i] < |continuations| && !oracle.selfContained(continuations[ordering[i]])
    ensures LookupTotal(FragmentsUpTo(oracle, continuations, |continuations|), ordering) == TotalSize(continuations, ordering)
  {
    if ordering != [] {
      var fragments := FragmentsUpTo(oracle, continuations, |continuations|);
      FragmentsMeaning(oracle, continuations, |continuations|);
      SizeOfFragment(fragments, SizedFragment(ordering[0], continuations[ordering[0]].size));
      LookupIsTotalSize(oracle, continuations, ordering[1..]);
    }
  }

  /** What an eligible ordering is in the terms of the subset search, and back. */
  lemma EligibleIsSubset(oracle: Oracle, continuations: seq<Part>, ordering: seq<nat>)
    requires Eligible(oracle, continuations, ordering)
    ensures var fragments := FragmentsUpTo(oracle, continuations, |continuations|);
            && Members(ordering) <= Indices(fragments)
            && |Members(ordering)| == |ordering| <= MaxK(fragments)
            && SetTotal(fragments, Members(ordering)) == TotalSize(continuations, ordering)
  {
    var fragments := FragmentsUpTo(oracle, continuations, |continuations|);
    FragmentsMeaning(oracle, continuations, |continuations|);
    forall x | x in Members(ordering) ensures x in Indices(fragments) {
      var i :| 0 <= i < |ordering| && ordering[i] == x;
      assert SizedFragment(x, continuations[x].size) in fragments;
    }
    DistinctCount(ordering);
    IndicesCount(fragments);
    SubsetSize(Members(ordering), Indices(fragments));
    LookupIsSetTotal(fragments, ordering);
    LookupIsTotalSize(oracle, continuations, ordering);
  }

  lemma {:induction false} IndicesCount(fragments: seq<SizedFragment>)
    ensures |Indices(fragments)| <= |fragments|
  {
    if fragments != [] {
      IndicesCount(fragments[1..]);
      SubsetSize(Indices(fragments), {fragments[0].index} + Indices(fragments[1..]));
    }
  }

  lemma MatchIsEligible(oracle: Oracle, continuations: seq<Part>, subset: seq<nat>, target: nat, exact: bool, ordering: seq<nat>)
    requires IsMatch(FragmentsUpTo(oracle, continuations, |continuations|), subset, target, exact)
    requires 1 <= |subset| <= MAX_SPLIT_FRAGMENTS_CEILING && multiset(ordering) == multiset(subset)
    ensures Eligible(oracle, continuations, ordering) && |ordering| == |subset|
    ensures Matched(TotalSize(continuations, ordering), target, exact)
  {
    var fragments := FragmentsUpTo(oracle, continuations, |continuations|);
    FragmentsMeaning(oracle, continuations, |continuations|);
    ReorderedDistinct(subset, ordering);
    forall i | 0 <= i < |ordering|
      ensures ordering[i] < |continuations| && !oracle.selfContained(continuations[ordering[i]])
    {
      assert ordering[i] in Members(subset);
      IndicesMember(fragments, ordering[i]);
      var p :| 0 <= p < |fragments| && fragments[p].index == ordering[i];
      assert fragments[p] in fragments;
    }
    LookupIsSetTotal(fragments, ordering);
    LookupIsTotalSize(oracle, continuations, ordering);
  }

  lemma ReorderedDistinct(a: seq<nat>, b: seq<nat>)
    requires Distinct(a) && multiset(a) == multiset(b)
    ensures Distinct(b) && Members(b) == Members(a) && |b| == |a|
  {
    assert |multiset(a)| == |a| && |multiset(b)| == |b|;
    assert forall x :: x in a <==> x in multiset(a);
    assert forall x :: x in b <==> x in multiset(b);
    forall i, j | 0 <= i < j < |b| ensures b[i] != b[j] {
      CountOnce(a, b[i]);
      if b[i] == b[j] {
        CountTwice(b, i, j);
      }
    }
  }

  lemma {:induction false} CountOnce(a: seq<nat>, x: nat)
    requires Distinct(a)
    ensures multiset(a)[x] <= 1
  {
    if a != [] {
      MultisetHead(a);
      assert Distinct(a[1..]);
      CountOnce(a[1..], x);
      if a[0] == x {
        assert forall i :: 0 <= i < |a[1..]| ==> a[1..][i] == a[i + 1];
        assert x !in a[1..];
      }
    }
  }

  lemma CountTwice(b: seq<nat>, i: nat, j: nat)
    requires i < j < |b| && b[i] == b[j]
    ensures multiset(b)[b[i]] >= 2
  {
    assert b == b[..j] + b[j..];
    assert b[i] in b[..j] && b[j] in b[j..];
  }

  lemma {:induction false} SameMembersReordered(a: seq<nat>, b: seq<nat>)
    requires Distinct(a) && Distinct(b) && Members(a) == Members(b)
    ensures multiset(a) == multiset(b)
  {
    forall x ensures multiset(a)[x] == multiset(b)[x] {
      CountOnce(a, x);
      CountOnce(b, x);
      assert x in a <==> x in Members(a);
      assert x in b <==> x in Members(b);
    }
  }

  // ----------------------------------------------------------- the trial order

  /** Every order of every subset, subset by subset: what the nested loops go through. */
  function Queue(subsets: seq<seq<nat>>): seq<seq<nat>> {
    if subsets == [] then [] else Perms(subsets[0]) + Queue(subsets[1..])
  }

  lemma {:induction false} QueueAppend(a: seq<seq<nat>>, b: seq<seq<nat>>)
    ensures Queue(a + b) == Queue(a) + Queue(b)
  {
    if a == [] {
      assert a + b == b;
    } else {
      assert (a + b)[1..] == a[1..] + b;
      QueueAppend(a[1..], b);
      assert Perms(a[0]) + Queue(a[1..]) + Queue(b) == Perms(a[0]) + (Queue(a[1..]) + Queue(b));
    }
  }

  lemma QueueStep(subsets: seq<seq<nat>>, i: nat)
    requires i < |subsets|
    ensures Queue(subsets[..i + 1]) == Queue(subsets[..i]) + Perms(subsets[i])
  {
    OneQueue(subsets[i]);
    hide Perms, Queue;
    assert subsets[..i + 1] == subsets[..i] + [subsets[i]];
    QueueAppend(subsets[..i], [subsets[i]]);
  }

  /** The orders of subset `i` inside the queue. */
  lemma QueueAt(subsets: seq<seq<nat>>, i: nat)
    requires i < |subsets|
    ensures Queue(subsets) == Queue(subsets[..i]) + Perms(subsets[i]) + Queue(subsets[i + 1..])
  {
    hide Perms, Queue;
    var front, back := subsets[..i + 1], subsets[i + 1..];
    assert subsets == front + back;
    QueueAppend(front, back);
    QueueStep(subsets, i);
  }

  lemma OneQueue(subset: seq<nat>)
    ensures Queue([subset]) == Perms(subset)
  {
    hide Perms;
    assert Queue([subset]) == Perms(subset) + Queue([]);
  }

  lemma {:induction false} QueueMember(subsets: seq<seq<nat>>, o: seq<nat>)
    ensures o in Queue(subsets) <==> exists i :: 0 <= i < |subsets| && multiset(o) == multiset(subsets[i])
  {
    if subsets != [] {
      assert Queue(subsets) == Perms(subsets[0]) + Queue(subsets[1..]);
      PermsExact(subsets[0], o);
      hide Perms, Queue;
      QueueMember(subsets[1..], o);
      if o in Queue(subsets[1..]) {
        var i :| 0 <= i < |subsets[1..]| && multiset(o) == multiset(subsets[1..][i]);
        assert subsets[i + 1] == subsets[1..][i];
      }
      if i :| 0 < i < |subsets| && multiset(o) == multiset(subsets[i]) {
        assert subsets[1..][i - 1] == subsets[i];
      }
    }
  }

  ghost predicate Ascending(queue: seq<seq<nat>>) {
    forall i, j :: 0 <= i < j < |queue| ==> |queue[i]| <= |queue[j]|
  }

  lemma SameLength(a: seq<nat>, b: seq<nat>)
    requires multiset(a) == multiset(b)
    ensures |a| == |b|
  {
    assert |multiset(a)| == |a| && |multiset(b)| == |b|;
  }

  lemma {:induction false} QueueAscends(subsets: seq<seq<nat>>)
    requires Ascending(subsets)
    ensures Ascending(Queue(subsets))
  {
    if subsets != [] {
      var here, later := Perms(subsets[0]), Queue(subsets[1..]);
      QueueAscends(subsets[1..]);
      forall p: seq<nat> | p in here ensures |p| == |subsets[0]| {
        PermsExact(subsets[0], p);
        SameLength(p, subsets[0]);
      }
      forall p: seq<nat> | p in later ensures |subsets[0]| <= |p| {
        QueueMember(subsets[1..], p);
        var i :| 0 <= i < |subsets[1..]| && multiset(p) == multiset(subsets[1..][i]);
        SameLength(p, subsets[i + 1]);
      }
      hide Perms;
      var q := here + later;
      forall i, j | 0 <= i < j < |q| ensures |q[i]| <= |q[j]| {
        assert q[i] in here || q[i] in later;
        assert q[j] in here || q[j] in later;
      }
    }
  }

  /** Different sets of distinct fragments: no ordering comes twice in the queue. */
  lemma {:induction false} QueueDistinct(subsets: seq<seq<nat>>)
    requires DifferentSets(subsets) && forall i :: 0 <= i < |subsets| ==> Distinct(subsets[i])
    ensures AllDifferent(Queue(subsets))
  {
    if subsets != [] {
      var here, later := Perms(subsets[0]), Queue(subsets[1..]);
      QueueDistinct(subsets[1..]);
      PermsDistinct(subsets[0]);
      var rest := subsets[1..];
      forall i | 0 <= i < |rest| ensures multiset(subsets[0]) != multiset(rest[i]) {
        DifferentMembers(subsets[0], rest[i]);
      }
      forall p: seq<nat> | p in here ensures p !in later {
        PermsExact(subsets[0], p);
        QueueMember(rest, p);
      }
      hide Perms, Queue;
      AppendDistinct(here, later);
    }
  }

  lemma DifferentMembers(a: seq<nat>, b: seq<nat>)
    requires Members(a) != Members(b)
    ensures multiset(a) != multiset(b)
  {
    assert forall x :: x in a <==> x in multiset(a);
    assert forall x :: x in b <==> x in multiset(b);
  }

  lemma AppendDistinct(a: seq<seq<nat>>, b: seq<seq<nat>>)
    requires AllDifferent(a) && AllDifferent(b) && forall p :: p in a ==> p !in b
    ensures AllDifferent(a + b)
  {
    var all := a + b;
    forall i, j | 0 <= i < j < |all| ensures all[i] != all[j] {
      if i < |a| <= j {
        assert all[i] in a && all[j] in b;
      }
    }
  }

  // ------------------------------------------------------------- the two tiers

  /** A candidate of one tier: eligible, with the exact total or at least it. */
  ghost predicate InTier(oracle: Oracle, continuations: seq<Part>, needed: nat, exact: bool, o: seq<nat>) {
    Eligible(oracle, continuations, o) && Matched(TotalSize(continuations, o), needed, exact)
  }

  /** The queue of one tier: candidates only, shortest first, and all of them if the budget lasted. */
  ghost predicate TierQueue(oracle: Oracle, continuations: seq<Part>, needed: nat, exact: bool, full: bool, queue: seq<seq<nat>>) {
    && (forall o :: o in queue ==> InTier(oracle, continuations, needed, exact, o))
    && Ascending(queue) && AllDifferent(queue)
    && (full ==> forall o :: InTier(oracle, continuations, needed, exact, o) ==> o in queue)
  }

  lemma TierMeaning(oracle: Oracle, continuations: seq<Part>, needed: nat, exact: bool, full: bool, subsets: seq<seq<nat>>)
    requires var fragments := FragmentsUpTo(oracle, continuations, |continuations|);
             && MatchesUpTo(fragments, subsets, MaxK(fragments), needed, exact)
             && (full ==> CoversUpTo(fragments, subsets, MaxK(fragments), needed, exact))
    ensures TierQueue(oracle, continuations, needed, exact, full, Queue(subsets))
  {
    hide Queue, Perms, Eligible, Matched, Members, SetTotal, Indices;
    QueueAscends(subsets);
    QueueDistinct(subsets);
    var fragments := FragmentsUpTo(oracle, continuations, |continuations|);
    forall o: seq<nat> | o in Queue(subsets) ensures InTier(oracle, continuations, needed, exact, o) {
      QueueMember(subsets, o);
      var i :| 0 <= i < |subsets| && multiset(o) == multiset(subsets[i]);
      MatchIsEligible(oracle, continuations, subsets[i], needed, exact, o);
    }
    if full {
      forall o | InTier(oracle, continuations, needed, exact, o) ensures o in Queue(subsets) {
        CandidateListed(oracle, continuations, needed, exact, subsets, o);
      }
    }
  }

  lemma CandidateListed(oracle: Oracle, continuations: seq<Part>, needed: nat, exact: bool, subsets: seq<seq<nat>>, o: seq<nat>)
    requires var fragments := FragmentsUpTo(oracle, continuations, |continuations|);
             && MatchesUpTo(fragments, subsets, MaxK(fragments), needed, exact)
             && CoversUpTo(fragments, subsets, MaxK(fragments), needed, exact)
    requires InTier(oracle, continuations, needed, exact, o)
    ensures o in Queue(subsets)
  {
    var fragments := FragmentsUpTo(oracle, continuations, |continuations|);
    EligibleIsSubset(oracle, continuations, o);
    hide Queue, SetTotal, Indices, FragmentsUpTo, TotalSize, Members;
    assert Listed(subsets, Members(o));
    var i :| 0 <= i < |subsets| && Members(subsets[i]) == Members(o);
    assert IsMatch(fragments, subsets[i], needed, exact);
    SameMembersReordered(o, subsets[i]);
    QueueMember(subsets, o);
  }

  // ------------------------------------------------------------------- winners

  function FoldedNames(header: Part, continuations: seq<Part>, o: seq<nat>): multiset<string> {
    Folded(OrderingNames(header, continuations, o))
  }

  /**
   After the first `tried` orderings of the queue: the winners are the first that verifies
   and the first verifying one whose names differ from it; all verifying ones have one length.
   */
  ghost predicate Judged(oracle: Oracle, header: Part, continuations: seq<Part>, queue: seq<seq<nat>>, tried: nat, winners: seq<seq<nat>>) {
    && tried <= |queue| && tried <= MAX_ORDERING_CANDIDATES_TRIED && |winners| <= 2
    && (forall w :: w in winners ==> Verifies(oracle, header, continuations, w) && w in queue[..tried])
    && (forall p :: 0 <= p < tried && Verifies(oracle, header, continuations, queue[p]) ==>
          AmongWinners(header, continuations, winners, queue[p]) && |queue[p]| == |winners[0]|)
    && (winners != [] ==> FirstIn(oracle, header, continuations, queue[..tried], winners[0]))
    && (|winners| == 2 ==> FoldedNames(header, continuations, winners[0]) != FoldedNames(header, continuations, winners[1]))
  }

  ghost predicate AmongWinners(header: Part, continuations: seq<Part>, winners: seq<seq<nat>>, o: seq<nat>) {
    && winners != []
    && exists w :: w in winners && FoldedNames(header, continuations, w) == FoldedNames(header, continuations, o)
  }

  /** `w` is the first ordering of `queue` that verifies. */
  ghost predicate FirstIn(oracle: Oracle, header: Part, continuations: seq<Part>, queue: seq<seq<nat>>, w: seq<nat>) {
    exists f :: 0 <= f < |queue| && queue[f] == w
                && forall p :: 0 <= p < f ==> !Verifies(oracle, header, continuations, queue[p])
  }

  /** Why the search stopped: two winners, the cap, nothing left, or the next candidates are longer or shorter. */
  ghost predicate Stopped(queue: seq<seq<nat>>, tried: nat, winners: seq<seq<nat>>) {
    || |winners| >= 2
    || tried == MAX_ORDERING_CANDIDATES_TRIED
    || tried == |queue|
    || (|winners| == 1 && tried < |queue| && |queue[tried]| != |winners[0]|)
  }

  /** The first winner stands at `f`, nothing before it verifies, and everything tried since is as long. */
  ghost predicate SteadyFrom(oracle: Oracle, header: Part, continuations: seq<Part>, queue: seq<seq<nat>>, tried: nat,
                             w: seq<nat>, f: nat) {
    && f < tried <= |queue| && queue[f] == w
    && (forall p :: 0 <= p < f ==> !Verifies(oracle, header, continuations, queue[p]))
    && (forall p :: f <= p < tried ==> |queue[p]| == |w|)
  }

  lemma SteadyStart(oracle: Oracle, header: Part, continuations: seq<Part>, queue: seq<seq<nat>>, tried: nat)
    requires Judged(oracle, header, continuations, queue, tried, []) && tried < |queue|
    ensures SteadyFrom(oracle, header, continuations, queue, tried + 1, queue[tried], tried)
  {
    hide Verifies;
  }

  lemma SteadyMore(oracle: Oracle, header: Part, continuations: seq<Part>, queue: seq<seq<nat>>, tried: nat, w: seq<nat>, f: nat)
    requires SteadyFrom(oracle, header, continuations, queue, tried, w, f) && tried < |queue| && |queue[tried]| == |w|
    ensures SteadyFrom(oracle, header, continuations, queue, tried + 1, w, f)
  {
    hide Verifies;
  }

  lemma JudgeStart(oracle: Oracle, header: Part, continuations: seq<Part>, queue: seq<seq<nat>>)
    ensures Judged(oracle, header, continuations, queue, 0, [])
  {
  }

  lemma FirstStays(oracle: Oracle, header: Part, continuations: seq<Part>, queue: seq<seq<nat>>, o: seq<nat>, w: seq<nat>)
    requires FirstIn(oracle, header, continuations, queue, w)
    ensures FirstIn(oracle, header, continuations, queue + [o], w)
  {
    hide Verifies;
    var f :| 0 <= f < |queue| && queue[f] == w
             && forall p :: 0 <= p < f ==> !Verifies(oracle, header, continuations, queue[p]);
    assert (queue + [o])[f] == w;
  }

  lemma FirstFound(oracle: Oracle, header: Part, continuations: seq<Part>, queue: seq<seq<nat>>, o: seq<nat>)
    requires forall p :: 0 <= p < |queue| ==> !Verifies(oracle, header, continuations, queue[p])
    ensures FirstIn(oracle, header, continuations, queue + [o], o)
  {
    hide Verifies;
    assert (queue + [o])[|queue|] == o;
  }

  lemma JudgeLoser(oracle: Oracle, header: Part, continuations: seq<Part>, queue: seq<seq<nat>>, tried: nat, winners: seq<seq<nat>>)
    requires Judged(oracle, header, continuations, queue, tried, winners)
    requires tried < |queue| && tried < MAX_ORDERING_CANDIDATES_TRIED
    requires Verifies(oracle, header, continuations, queue[tried]) ==>
               AmongWinners(header, continuations, winners, queue[tried]) && |queue[tried]| == |winners[0]|
    ensures Judged(oracle, header, continuations, queue, tried + 1, winners)
  {
    hide Verifies, FoldedNames, AmongWinners, FirstIn;
    assert queue[..tried + 1] == queue[..tried] + [queue[tried]];
    if winners != [] {
      FirstStays(oracle, header, continuations, queue[..tried], queue[tried], winners[0]);
    }
  }

  lemma JudgeWinner(oracle: Oracle, header: Part, continuations: seq<Part>, queue: seq<seq<nat>>, tried: nat, winners: seq<seq<nat>>)
    requires Judged(oracle, header, continuations, queue, tried, winners)
    requires tried < |queue| && tried < MAX_ORDERING_CANDIDATES_TRIED && |winners| < 2
    requires Verifies(oracle, header, continuations, queue[tried])
    requires !AmongWinners(header, continuations, winners, queue[tried])
    requires winners != [] ==> |queue[tried]| == |winners[0]|
    ensures Judged(oracle, header, continuations, queue, tried + 1, winners + [queue[tried]])
  {
    hide Verifies, FoldedNames, FirstIn;
    var o := queue[tried];
    var more := winners + [o];
    assert queue[..tried + 1] == queue[..tried] + [o];
    forall p | 0 <= p <= tried && Verifies(oracle, header, continuations, queue[p])
      ensures AmongWinners(header, continuations, more, queue[p]) && |queue[p]| == |more[0]|
    {
      if p == tried {
        assert more[|winners|] == o;
        assert o in more;
      }
    }
    OneAmong(header, continuations, winners, o);
    hide AmongWinners, FoldedNames;
    if winners == [] {
      FirstFound(oracle, header, continuations, queue[..tried], o);
    } else {
      FirstStays(oracle, header, continuations, queue[..tried], o, winners[0]);
    }
  }

  lemma OneAmong(header: Part, continuations: seq<Part>, winners: seq<seq<nat>>, o: seq<nat>)
    requires !AmongWinners(header, continuations, winners, o)
    ensures |winners| == 1 ==> FoldedNames(header, continuations, winners[0]) != FoldedNames(header, continuations, o)
  {
    hide FoldedNames;
    if |winners| == 1 {
      assert winners[0] in winners;
    }
  }

  /** `winners.iter().any(...)`: some winner already has these names. */
  method AlreadySeen(header: Part, continuations: seq<Part>, winners: seq<seq<nat>>, o: seq<nat>) returns (seen: bool)
    ensures seen == AmongWinners(header, continuations, winners, o)
  {
    seen := false;
    for i := 0 to |winners|
      invariant forall j :: 0 <= j < i ==> FoldedNames(header, continuations, winners[j]) != FoldedNames(header, continuations, o)
    {
      if FoldedNames(header, continuations, winners[i]) == FoldedNames(header, continuations, o) {
        assert winners[i] in winners;
        return true;
      }
    }
  }

  /** The `'search` loops. */
  method TryOrderings(oracle: Oracle, header: Part, continuations: seq<Part>, subsets: seq<seq<nat>>)
    returns (winners: seq<seq<nat>>, tried: nat, ghost first: nat)
    ensures Judged(oracle, header, continuations, Queue(subsets), tried, winners)
    ensures Stopped(Queue(subsets), tried, winners)
    ensures winners != [] ==> SteadyFrom(oracle, header, continuations, Queue(subsets), tried, winners[0], first)
  {
    hide Judged, Queue, Perms, AmongWinners, FoldedNames, SteadyFrom;
    first := 0;
    ghost var queue := Queue(subsets);
    var winningK: Option<nat> := None;
    winners, tried := [], 0;
    JudgeStart(oracle, header, continuations, queue);
    QueueEmpty();
    var i := 0;
    label search: while i < |subsets|
      invariant 0 <= i <= |subsets| && |winners| < 2 && tried == |Queue(subsets[..i])|
      invariant Judged(oracle, header, continuations, queue, tried, winners)
      invariant winners != [] ==> SteadyFrom(oracle, header, continuations, queue, tried, winners[0], first)
      invariant winningK == if winners == [] then None else Some(|winners[0]|)
    {
      QueueStep(subsets, i);
      QueueAt(subsets, i);
      PermsNonEmpty(subsets[i]);
      if winningK.Some? && |subsets[i]| != winningK.value {
        break;
      }
      var orderings := IndexPermutations(subsets[i]);
      ghost var before := tried;
      var j := 0;
      while j < |orderings|
        invariant 0 <= j <= |orderings| && |winners| < 2 && tried == before + j
        invariant winners != [] ==> |winners[0]| == |subsets[i]|
        invariant Judged(oracle, header, continuations, queue, tried, winners)
        invariant winners != [] ==> SteadyFrom(oracle, header, continuations, queue, tried, winners[0], first)
        invariant winningK == if winners == [] then None else Some(|winners[0]|)
      {
        JudgedBounds(oracle, header, continuations, queue, tried, winners);
        if tried >= MAX_ORDERING_CANDIDATES_TRIED {
          break search;
        }
        ghost var at := tried;
        tried := tried + 1;
        var ordering := orderings[j];
        assert ordering == queue[at];
        if winners == [] {
          SteadyStart(oracle, header, continuations, queue, at);
        } else {
          SteadyMore(oracle, header, continuations, queue, at, winners[0], first);
        }
        var seen := AlreadySeen(header, continuations, winners, ordering);
        if oracle.verifies(Candidate(header, continuations, ordering)) {
          if winningK.None? {
            winningK := Some(|subsets[i]|);
          }
          if !seen {
            JudgeWinner(oracle, header, continuations, queue, at, winners);
            first := if winners == [] then at else first;
            winners := winners + [ordering];
            if |winners| >= 2 {
              break search;
            }
          } else {
            SeenHasWinner(header, continuations, winners, ordering);
            JudgeLoser(oracle, header, continuations, queue, at, winners);
          }
        } else {
          JudgeLoser(oracle, header, continuations, queue, at, winners);
        }
        j := j + 1;
      }
      i := i + 1;
    }
    if i == |subsets| {
      assert subsets[..i] == subsets;
    }
  }

  lemma SeenHasWinner(header: Part, continuations: seq<Part>, winners: seq<seq<nat>>, o: seq<nat>)
    requires AmongWinners(header, continuations, winners, o)
    ensures winners != []
  {
  }

  lemma JudgedBounds(oracle: Oracle, header: Part, continuations: seq<Part>, queue: seq<seq<nat>>, tried: nat, winners: seq<seq<nat>>)
    requires Judged(oracle, header, continuations, queue, tried, winners)
    ensures tried <= |queue| && tried <= MAX_ORDERING_CANDIDATES_TRIED
  {
  }

  lemma QueueEmpty()
    ensures Queue([]) == []
  {
  }

  /** A subset has at least one order, and every order has its length. */
  lemma PermsNonEmpty(subset: seq<nat>)
    ensures Perms(subset) != []
    ensures forall p :: 0 <= p < |Perms(subset)| ==> |Perms(subset)[p]| == |subset|
  {
    PermsExact(subset, subset);
    forall p | 0 <= p < |Perms(subset)| ensures |Perms(subset)[p]| == |subset| {
      assert Perms(subset)[p] in Perms(subset);
      PermsExact(subset, Perms(subset)[p]);
      SameLength(Perms(subset)[p], subset);
    }
  }

  // ------------------------------------------------------------- what is decided

  /**
   How a search went: the orderings tried, those of the exact tier before those of the other,
   the winners kept, and the step budget left after each tier.
   */
  datatype Search = Search(exactTrials: seq<seq<nat>>, paddedTrials: seq<seq<nat>>, winners: seq<seq<nat>>,
                           exactBudget: nat, budget: nat) {
    function Trials(): seq<seq<nat>> { exactTrials + paddedTrials }

    predicate Capped() { |Trials()| >= MAX_ORDERING_CANDIDATES_TRIED }

    /** The tier was enumerated to the end. */
    predicate Full(exact: bool) { if exact then exactBudget > 0 else budget > 0 }
  }

  /** What was tried: candidates of each tier, none twice, within the cap; nothing of the second tier if the first ran dry. */
  ghost predicate TriedFairly(oracle: Oracle, continuations: seq<Part>, needed: nat, s: Search) {
    && |s.Trials()| <= 2000
    && AllDifferent(s.exactTrials) && AllDifferent(s.paddedTrials)
    && (forall o :: o in s.exactTrials ==> InTier(oracle, continuations, needed, true, o))
    && (forall o :: o in s.paddedTrials ==> InTier(oracle, continuations, needed, false, o))
    && (s.exactBudget == 0 ==> s.paddedTrials == [])
  }

  /** Ten continuations or fewer never exhaust the step budget. */
  ghost predicate SpentFairly(continuations: seq<Part>, s: Search) {
    && s.budget <= s.exactBudget <= 20_000
    && (|continuations| <= AFFORDABLE_CONTINUATIONS ==> s.budget > 0)
  }

  function Needed(total: nat, header: Part): nat { Max(0, total - header.size) }

  /** A winner is a verified ordering of eligible continuations that supplies enough bytes. */
  ghost predicate Genuine(oracle: Oracle, header: Part, continuations: seq<Part>, needed: nat, w: seq<nat>) {
    InTier(oracle, continuations, needed, false, w) && Verifies(oracle, header, continuations, w)
  }

  /** A winner with bytes to spare means nothing of the exact size verifies, in any order. */
  ghost predicate Tightest(oracle: Oracle, header: Part, continuations: seq<Part>, needed: nat, w: seq<nat>) {
    TotalSize(continuations, w) > needed ==>
      forall o :: InTier(oracle, continuations, needed, true, o) ==> !Verifies(oracle, header, continuations, o)
  }

  /** No verifying candidate of the winner's tier is shorter than the winner. */
  ghost predicate Shortest(oracle: Oracle, header: Part, continuations: seq<Part>, needed: nat, w: seq<nat>) {
    forall o :: InTier(oracle, continuations, needed, TotalSize(continuations, w) == needed, o) ==>
                  Verifies(oracle, header, continuations, o) ==> |o| >= |w|
  }

  /** Every verifying candidate of the winner's tier and length has the winner's names. */
  ghost predicate Sole(oracle: Oracle, header: Part, continuations: seq<Part>, needed: nat, w: seq<nat>) {
    forall o :: InTier(oracle, continuations, needed, TotalSize(continuations, w) == needed, o) ==>
                  Verifies(oracle, header, continuations, o) && |o| == |w| ==>
                  FoldedNames(header, continuations, o) == FoldedNames(header, continuations, w)
  }

  ghost predicate NoneVerifies(oracle: Oracle, header: Part, continuations: seq<Part>, needed: nat, exact: bool) {
    forall o :: InTier(oracle, continuations, needed, exact, o) ==> !Verifies(oracle, header, continuations, o)
  }

  ghost predicate InStretch(queue: seq<seq<nat>>, lo: nat, hi: nat, o: seq<nat>) {
    exists p :: lo <= p < hi && p < |queue| && queue[p] == o
  }

  /** Where the first winner stands in the queue, and the stretch of the queue that is its whole tier. */
  lemma WinnerStretch(oracle: Oracle, header: Part, continuations: seq<Part>, needed: nat, q1: seq<seq<nat>>, full1: bool,
                      q2: seq<seq<nat>>, full2: bool, queue: seq<seq<nat>>, tried: nat, w: seq<nat>)
      returns (f: nat, lo: nat, hi: nat)
    requires TierQueue(oracle, continuations, needed, true, full1, q1)
    requires TierQueue(oracle, continuations, needed, false, full2, q2)
    requires queue == q1 + q2
    requires tried <= |queue| && FirstIn(oracle, header, continuations, queue[..tried], w)
    requires Verifies(oracle, header, continuations, w)
    requires if TotalSize(continuations, w) == needed then full1 else full2
    ensures lo <= f < hi <= |queue| && f < tried && queue[f] == w
    ensures forall p :: 0 <= p < f ==> !Verifies(oracle, header, continuations, queue[p])
    ensures forall i, j :: lo <= i < j < hi ==> |queue[i]| <= |queue[j]|
    ensures forall o :: InTier(oracle, continuations, needed, TotalSize(continuations, w) == needed, o) ==>
              InStretch(queue, lo, hi, o)
  {
    hide Verifies, TotalSize, Eligible, Matched;
    var front := queue[..tried];
    f :| 0 <= f < |front| && front[f] == w
         && forall p :: 0 <= p < f ==> !Verifies(oracle, header, continuations, front[p]);
    assert queue[f] == w;
    forall p | 0 <= p < f ensures !Verifies(oracle, header, continuations, queue[p]) {
      assert queue[p] == front[p];
    }
    assert w in q1 || w in q2;
    var exact := TotalSize(continuations, w) == needed;
    TierOfWinner(oracle, continuations, needed, q1, q2, w);
    if exact {
      lo, hi := 0, |q1|;
      var g :| 0 <= g < |q1| && q1[g] == w;
      assert queue[g] == w;
    } else {
      lo, hi := |q1|, |queue|;
      assert f >= |q1|;
    }
    forall o | InTier(oracle, continuations, needed, exact, o) ensures InStretch(queue, lo, hi, o) {
      if exact {
        var p :| 0 <= p < |q1| && q1[p] == o;
        assert queue[p] == o;
      } else {
        var p :| 0 <= p < |q2| && q2[p] == o;
        assert queue[|q1| + p] == o;
      }
    }
  }

  /** An ordering of either tier with exactly the needed total is an exact candidate, and only then in the exact tier. */
  lemma TierOfWinner(oracle: Oracle, continuations: seq<Part>, needed: nat, q1: seq<seq<nat>>, q2: seq<seq<nat>>, w: seq<nat>)
    requires forall o :: o in q1 ==> InTier(oracle, continuations, needed, true, o)
    requires forall o :: o in q2 ==> InTier(oracle, continuations, needed, false, o)
    requires w in q1 || w in q2
    ensures InTier(oracle, continuations, needed, TotalSize(continuations, w) == needed, w)
    ensures InTier(oracle, continuations, needed, false, w)
    ensures TotalSize(continuations, w) != needed ==> w !in q1 && w in q2 && TotalSize(continuations, w) > needed
  {
  }

  lemma WinnerIsTightest(oracle: Oracle, header: Part, continuations: seq<Part>, needed: nat, q1: seq<seq<nat>>, full1: bool,
                         q2: seq<seq<nat>>, full2: bool, tried: nat, w: seq<nat>)
    requires TierQueue(oracle, continuations, needed, true, full1, q1)
    requires TierQueue(oracle, continuations, needed, false, full2, q2)
    requires !full1 ==> q2 == []
    requires tried <= |q1 + q2| && FirstIn(oracle, header, continuations, (q1 + q2)[..tried], w)
    ensures Tightest(oracle, header, continuations, needed, w)
  {
    hide Verifies, TotalSize, Eligible, Matched;
    if TotalSize(continuations, w) > needed {
      var queue := q1 + q2;
      var front := queue[..tried];
      var f :| 0 <= f < |front| && front[f] == w
               && forall p :: 0 <= p < f ==> !Verifies(oracle, header, continuations, front[p]);
      assert queue[f] == w;
      assert w in q1 || w in q2;
      TierOfWinner(oracle, continuations, needed, q1, q2, w);
      forall o | InTier(oracle, continuations, needed, true, o) ensures !Verifies(oracle, header, continuations, o) {
        var p :| 0 <= p < |q1| && q1[p] == o;
        assert front[p] == o;
      }
    }
  }

  lemma WinnerIsShortest(oracle: Oracle, header: Part, continuations: seq<Part>, needed: nat, q1: seq<seq<nat>>, full1: bool,
                         q2: seq<seq<nat>>, full2: bool, tried: nat, w: seq<nat>)
    requires TierQueue(oracle, continuations, needed, true, full1, q1)
    requires TierQueue(oracle, continuations, needed, false, full2, q2)
    requires tried <= |q1 + q2| && FirstIn(oracle, header, continuations, (q1 + q2)[..tried], w)
    requires Verifies(oracle, header, continuations, w)
    requires if TotalSize(continuations, w) == needed then full1 else full2
    ensures Shortest(oracle, header, continuations, needed, w)
  {
    hide Verifies, TotalSize, InTier, TierQueue, FirstIn;
    var queue := q1 + q2;
    var f, lo, hi := WinnerStretch(oracle, header, continuations, needed, q1, full1, q2, full2, queue, tried, w);
    forall o | InTier(oracle, continuations, needed, TotalSize(continuations, w) == needed, o) && Verifies(oracle, header, continuations, o)
      ensures |o| >= |w|
    {
      assert InStretch(queue, lo, hi, o);
      var p :| lo <= p < hi && p < |queue| && queue[p] == o;
    }
  }

  lemma WinnerIsSole(oracle: Oracle, header: Part, continuations: seq<Part>, needed: nat, q1: seq<seq<nat>>, full1: bool,
                     q2: seq<seq<nat>>, full2: bool, tried: nat, winners: seq<seq<nat>>)
    requires TierQueue(oracle, continuations, needed, true, full1, q1)
    requires TierQueue(oracle, continuations, needed, false, full2, q2)
    requires Judged(oracle, header, continuations, q1 + q2, tried, winners) && |winners| == 1
    requires Stopped(q1 + q2, tried, winners) && tried < MAX_ORDERING_CANDIDATES_TRIED
    requires if TotalSize(continuations, winners[0]) == needed then full1 else full2
    ensures Sole(oracle, header, continuations, needed, winners[0])
  {
    var w := winners[0];
    assert w in winners;
    var f, lo, hi := WinnerStretch(oracle, header, continuations, needed, q1, full1, q2, full2, q1 + q2, tried, w);
    var queue := q1 + q2;
    hide Verifies, TotalSize, InTier, TierQueue, FirstIn, FoldedNames, Judged, Stopped;
    forall o | InTier(oracle, continuations, needed, TotalSize(continuations, w) == needed, o)
               && Verifies(oracle, header, continuations, o) && |o| == |w|
      ensures FoldedNames(header, continuations, o) == FoldedNames(header, continuations, w)
    {
      assert InStretch(queue, lo, hi, o);
      var p :| lo <= p < hi && p < |queue| && queue[p] == o;
      SameLengthTried(oracle, header, continuations, queue, tried, winners, f, lo, hi, p);
    }
  }

  /** In an ascending stretch, an ordering as long as the lone winner was tried before the search stopped. */
  lemma SameLengthTried(oracle: Oracle, header: Part, continuations: seq<Part>, queue: seq<seq<nat>>, tried: nat, winners: seq<seq<nat>>,
                        f: nat, lo: nat, hi: nat, p: nat)
    requires Judged(oracle, header, continuations, queue, tried, winners) && |winners| == 1
    requires Stopped(queue, tried, winners) && tried < MAX_ORDERING_CANDIDATES_TRIED
    requires lo <= f < hi <= |queue| && f < tried && queue[f] == winners[0]
    requires forall i, j :: lo <= i < j < hi ==> |queue[i]| <= |queue[j]|
    requires lo <= p < hi && |queue[p]| == |winners[0]| && Verifies(oracle, header, continuations, queue[p])
    ensures FoldedNames(header, continuations, queue[p]) == FoldedNames(header, continuations, winners[0])
  {
    hide Verifies, FirstIn, FoldedNames, Judged, AmongWinners;
    JudgedBounds(oracle, header, continuations, queue, tried, winners);
    LoneWinner(oracle, header, continuations, queue, tried, winners, p);
  }

  lemma LoneWinner(oracle: Oracle, header: Part, continuations: seq<Part>, queue: seq<seq<nat>>, tried: nat, winners: seq<seq<nat>>, p: nat)
    requires Judged(oracle, header, continuations, queue, tried, winners) && |winners| == 1
    requires p < tried && Verifies(oracle, header, continuations, queue[p])
    ensures FoldedNames(header, continuations, queue[p]) == FoldedNames(header, continuations, winners[0])
  {
    hide Verifies, FirstIn, FoldedNames;
    assert AmongWinners(header, continuations, winners, queue[p]);
  }

  // ---------------------------------------------------------------- ambiguity

  /** A verifying candidate as long as the winner, under other names. */
  ghost predicate Rivalled(oracle: Oracle, header: Part, continuations: seq<Part>, needed: nat, exact: bool, w: seq<nat>) {
    exists o :: InTier(oracle, continuations, needed, exact, o) && |o| == |w| && Verifies(oracle, header, continuations, o)
                && FoldedNames(header, continuations, o) != FoldedNames(header, continuations, w)
  }

  /**
   The search goes on from the exact tier into the other: no exact candidate is longer than
   the winner and no candidate at all shorter, so the length never changes in between.
   */
  ghost predicate TiersMeet(oracle: Oracle, continuations: seq<Part>, needed: nat, w: seq<nat>) {
    && (forall o :: InTier(oracle, continuations, needed, true, o) ==> |o| <= |w|)
    && (forall o :: InTier(oracle, continuations, needed, false, o) ==> |o| >= |w|)
  }

  /** What makes the first winner one of two: a rival in its own tier, or one in the other tier where the tiers meet. */
  ghost predicate Contested(oracle: Oracle, header: Part, continuations: seq<Part>, needed: nat, w: seq<nat>) {
    if TotalSize(continuations, w) == needed then
      || Rivalled(oracle, header, continuations, needed, true, w)
      || (TiersMeet(oracle, continuations, needed, w) && Rivalled(oracle, header, continuations, needed, false, w))
    else Rivalled(oracle, header, continuations, needed, false, w)
  }

  /** A search over two tiers listed to the end, with a winner and below the cap. */
  ghost predicate RanFully(oracle: Oracle, header: Part, continuations: seq<Part>, needed: nat, q1: seq<seq<nat>>, q2: seq<seq<nat>>,
                           tried: nat, winners: seq<seq<nat>>, f: nat) {
    && TierQueue(oracle, continuations, needed, true, true, q1) && TierQueue(oracle, continuations, needed, false, true, q2)
    && Judged(oracle, header, continuations, q1 + q2, tried, winners) && Stopped(q1 + q2, tried, winners)
    && tried < MAX_ORDERING_CANDIDATES_TRIED
    && winners != [] && SteadyFrom(oracle, header, continuations, q1 + q2, tried, winners[0], f)
  }

  /** An exact winner stands in the exact tier's part of the queue. */
  lemma ExactWinnerPlace(oracle: Oracle, header: Part, continuations: seq<Part>, needed: nat, q1: seq<seq<nat>>, q2: seq<seq<nat>>,
                         tried: nat, winners: seq<seq<nat>>, f: nat)
    requires RanFully(oracle, header, continuations, needed, q1, q2, tried, winners, f)
    requires TotalSize(continuations, winners[0]) == needed
    ensures f < |q1| && q1[f] == winners[0] && Verifies(oracle, header, continuations, winners[0])
  {
    hide Verifies, TotalSize, Eligible, Matched, Stopped, FirstIn, AmongWinners, FoldedNames;
    var w := winners[0];
    assert w in winners;
    assert (q1 + q2)[f] == w;
    assert w in q1 || w in q2;
    TierOfWinner(oracle, continuations, needed, q1, q2, w);
    var g :| 0 <= g < |q1| && q1[g] == w;
    assert (q1 + q2)[g] == w;
  }

  lemma TwoAreContested(oracle: Oracle, header: Part, continuations: seq<Part>, needed: nat, q1: seq<seq<nat>>, q2: seq<seq<nat>>,
                        tried: nat, winners: seq<seq<nat>>, f: nat)
    requires RanFully(oracle, header, continuations, needed, q1, q2, tried, winners, f) && |winners| == 2
    ensures Contested(oracle, header, continuations, needed, winners[0])
  {
    hide Verifies, TotalSize, Eligible, Matched, Stopped, FirstIn, AmongWinners, FoldedNames;
    var queue, w, o := q1 + q2, winners[0], winners[1];
    assert o in winners;
    SameLengths(oracle, header, continuations, queue, tried, winners);
    var front := queue[..tried];
    var p :| 0 <= p < |front| && front[p] == o;
    assert queue[p] == o;
    assert o in q1 || o in q2;
    TierOfWinner(oracle, continuations, needed, q1, q2, o);
    if TotalSize(continuations, w) == needed && TotalSize(continuations, o) != needed {
      ExactWinnerPlace(oracle, header, continuations, needed, q1, q2, tried, winners, f);
      assert p >= |q1|;
      forall x | InTier(oracle, continuations, needed, true, x) ensures |x| <= |w| {
        var g :| 0 <= g < |q1| && q1[g] == x;
        assert queue[g] == q1[g];
      }
      assert queue[|q1|] == q2[0];
      forall x | InTier(oracle, continuations, needed, false, x) ensures |x| >= |w| {
        var g :| 0 <= g < |q2| && q2[g] == x;
      }
    }
  }

  /** Where the tiers meet, the queue is ascending from the winner on. */
  lemma MeetAscending(q1: seq<seq<nat>>, q2: seq<seq<nat>>, w: seq<nat>, f: nat)
    requires Ascending(q1) && Ascending(q2) && f < |q1| && q1[f] == w
    requires (forall o :: o in q1 ==> |o| <= |w|) && (forall o :: o in q2 ==> |o| >= |w|)
    ensures forall i, j :: f <= i < j < |q1 + q2| ==> |(q1 + q2)[i]| <= |(q1 + q2)[j]|
  {
    forall i | 0 <= i < |q2| ensures |q2[i]| >= |w| {
      assert q2[i] in q2;
    }
    forall i | f <= i < |q1| ensures |q1[i]| == |w| {
      assert q1[i] in q1;
    }
  }

  lemma OneIsUncontested(oracle: Oracle, header: Part, continuations: seq<Part>, needed: nat, q1: seq<seq<nat>>, q2: seq<seq<nat>>,
                         tried: nat, winners: seq<seq<nat>>, f: nat)
    requires RanFully(oracle, header, continuations, needed, q1, q2, tried, winners, f) && |winners| == 1
    ensures !Contested(oracle, header, continuations, needed, winners[0])
  {
    var w := winners[0];
    WinnerIsSole(oracle, header, continuations, needed, q1, true, q2, true, tried, winners);
    hide Verifies, TotalSize, InTier, FoldedNames, TierQueue, Judged, Stopped, SteadyFrom, Rivalled, TiersMeet;
    var exact := TotalSize(continuations, w) == needed;
    Unrivalled(oracle, header, continuations, needed, exact, w);
    if exact && TiersMeet(oracle, continuations, needed, w) {
      MeetUncontested(oracle, header, continuations, needed, q1, q2, tried, winners, f);
    }
  }

  lemma MeetUncontested(oracle: Oracle, header: Part, continuations: seq<Part>, needed: nat, q1: seq<seq<nat>>, q2: seq<seq<nat>>,
                        tried: nat, winners: seq<seq<nat>>, f: nat)
    requires RanFully(oracle, header, continuations, needed, q1, q2, tried, winners, f) && |winners| == 1
    requires TotalSize(continuations, winners[0]) == needed && TiersMeet(oracle, continuations, needed, winners[0])
    ensures !Rivalled(oracle, header, continuations, needed, false, winners[0])
  {
    var queue, w := q1 + q2, winners[0];
    ExactWinnerPlace(oracle, header, continuations, needed, q1, q2, tried, winners, f);
    assert forall o :: o in q1 ==> |o| <= |w|;
    assert forall o :: o in q2 ==> |o| >= |w|;
    MeetAscending(q1, q2, w, f);
    hide Verifies, TotalSize, InTier, FoldedNames, AmongWinners, Stopped, Judged, Rivalled, FirstIn, TiersMeet, TierQueue;
    forall o | InTier(oracle, continuations, needed, false, o) && |o| == |w| && Verifies(oracle, header, continuations, o)
      ensures FoldedNames(header, continuations, o) == FoldedNames(header, continuations, w)
    {
      PaddedPlace(oracle, continuations, needed, q1, q2, f, o);
      var p :| f <= p < |queue| && queue[p] == o;
      SameLengthTried(oracle, header, continuations, queue, tried, winners, f, f, |queue|, p);
    }
    Unrivalled(oracle, header, continuations, needed, false, w);
  }

  lemma PaddedPlace(oracle: Oracle, continuations: seq<Part>, needed: nat, q1: seq<seq<nat>>, q2: seq<seq<nat>>, f: nat, o: seq<nat>)
    requires TierQueue(oracle, continuations, needed, false, true, q2) && f < |q1| && InTier(oracle, continuations, needed, false, o)
    ensures InStretch(q1 + q2, f, |q1 + q2|, o)
  {
    hide InTier;
    var g :| 0 <= g < |q2| && q2[g] == o;
    assert (q1 + q2)[|q1| + g] == o;
  }

  lemma Unrivalled(oracle: Oracle, header: Part, continuations: seq<Part>, needed: nat, exact: bool, w: seq<nat>)
    requires forall o :: InTier(oracle, continuations, needed, exact, o) && |o| == |w| && Verifies(oracle, header, continuations, o) ==>
               FoldedNames(header, continuations, o) == FoldedNames(header, continuations, w)
    ensures !Rivalled(oracle, header, continuations, needed, exact, w)
  {
    hide InTier, Verifies, FoldedNames;
  }

  lemma NothingVerifies(oracle: Oracle, header: Part, continuations: seq<Part>, needed: nat, q1: seq<seq<nat>>, full1: bool,
                        q2: seq<seq<nat>>, full2: bool, tried: nat)
    requires TierQueue(oracle, continuations, needed, true, full1, q1)
    requires TierQueue(oracle, continuations, needed, false, full2, q2)
    requires Judged(oracle, header, continuations, q1 + q2, tried, [])
    requires Stopped(q1 + q2, tried, []) && tried < MAX_ORDERING_CANDIDATES_TRIED
    ensures full1 ==> NoneVerifies(oracle, header, continuations, needed, true)
    ensures full2 ==> NoneVerifies(oracle, header, continuations, needed, false)
  {
    hide Verifies, InTier;
    var queue := q1 + q2;
    forall o | o in q1 || o in q2 ensures !Verifies(oracle, header, continuations, o) {
      assert o in queue;
      var p :| 0 <= p < |queue| && queue[p] == o;
    }
  }

  /** What every part of an outcome stands for, in terms of all orderings and not of how they are enumerated. */
  ghost predicate Answers(oracle: Oracle, header: Part, continuations: seq<Part>, buildHandle: bool, outcome: Outcome, s: Search) {
    match oracle.requiredTotal(header)
    case None => outcome == Unresolved
    case Some(total) =>
      var needed := Needed(total, header);
      && Decided(oracle, header, continuations, needed, s)
      && outcome == OutcomeOf(oracle, header, continuations, buildHandle, s.winners)
  }

  /** The winners are genuine, the first is tightest and shortest, a single one is sole, and none means none. */
  ghost predicate Decided(oracle: Oracle, header: Part, continuations: seq<Part>, needed: nat, s: Search) {
    && TriedFairly(oracle, continuations, needed, s) && SpentFairly(continuations, s) && |s.winners| <= 2
    && (forall w :: w in s.winners ==> w in s.Trials() && Genuine(oracle, header, continuations, needed, w))
    && (s.winners == [] ==> forall o :: o in s.Trials() ==> !Verifies(oracle, header, continuations, o))
    && (s.winners != [] ==> First(oracle, header, continuations, needed, s))
    && (|s.winners| == 1 ==> Only(oracle, header, continuations, needed, s))
    && (|s.winners| == 2 ==>
          && |s.winners[0]| == |s.winners[1]|
          && FoldedNames(header, continuations, s.winners[0]) != FoldedNames(header, continuations, s.winners[1]))
    && (s.winners != [] && !s.Capped() && s.Full(false) ==>
          (|s.winners| == 2 <==> Contested(oracle, header, continuations, needed, s.winners[0])))
    && (s.winners == [] && !s.Capped() ==>
          forall exact :: s.Full(exact) ==> NoneVerifies(oracle, header, continuations, needed, exact))
  }

  ghost predicate First(oracle: Oracle, header: Part, continuations: seq<Part>, needed: nat, s: Search)
    requires s.winners != []
  {
    var w := s.winners[0];
    && Tightest(oracle, header, continuations, needed, w)
    && (s.Full(TotalSize(continuations, w) == needed) ==> Shortest(oracle, header, continuations, needed, w))
  }

  ghost predicate Only(oracle: Oracle, header: Part, continuations: seq<Part>, needed: nat, s: Search)
    requires s.winners != []
  {
    var w := s.winners[0];
    && (forall o :: o in s.Trials() && Verifies(oracle, header, continuations, o) ==>
          FoldedNames(header, continuations, o) == FoldedNames(header, continuations, w))
    && (!s.Capped() && s.Full(TotalSize(continuations, w) == needed) ==> Sole(oracle, header, continuations, needed, w))
  }

  /** How winners become an outcome: the lone winner is verified once more when a handle is asked for. */
  function OutcomeOf(oracle: Oracle, header: Part, continuations: seq<Part>, buildHandle: bool, winners: seq<seq<nat>>): Outcome {
    if winners == [] then Unresolved
    else if |winners| == 1 then
      var parts := Candidate(header, continuations, winners[0]);
      Resolved(NamesOf(parts), if buildHandle && oracle.verifies(parts) && oracle.reopens(parts) then Some(parts) else None)
    else Ambiguous(seq(|winners|, i requires 0 <= i < |winners| => OrderingNames(header, continuations, winners[i])))
  }

  lemma SearchDecides(oracle: Oracle, header: Part, continuations: seq<Part>, needed: nat, q1: seq<seq<nat>>, q2: seq<seq<nat>>,
                      tried: nat, s: Search, f: nat)
    requires TierQueue(oracle, continuations, needed, true, s.exactBudget > 0, q1)
    requires TierQueue(oracle, continuations, needed, false, s.budget > 0, q2)
    requires s.exactBudget == 0 ==> q2 == []
    requires Judged(oracle, header, continuations, q1 + q2, tried, s.winners) && Stopped(q1 + q2, tried, s.winners)
    requires s.winners != [] ==> SteadyFrom(oracle, header, continuations, q1 + q2, tried, s.winners[0], f)
    requires s.Trials() == (q1 + q2)[..tried] && TriedFairly(oracle, continuations, needed, s) && SpentFairly(continuations, s)
    ensures Decided(oracle, header, continuations, needed, s)
  {
    var queue, winners := q1 + q2, s.winners;
    forall w | w in winners ensures Genuine(oracle, header, continuations, needed, w) {
      assert w in queue;
      assert w in q1 || w in q2;
      TierOfWinner(oracle, continuations, needed, q1, q2, w);
    }
    if winners == [] {
      NoTrialVerifies(oracle, header, continuations, queue, tried);
      if !s.Capped() {
        NothingVerifies(oracle, header, continuations, needed, q1, s.exactBudget > 0, q2, s.budget > 0, tried);
        assert forall exact :: s.Full(exact) ==> NoneVerifies(oracle, header, continuations, needed, exact);
      }
    } else {
      FirstDecided(oracle, header, continuations, needed, q1, q2, tried, s);
      if |winners| == 1 {
        OnlyDecided(oracle, header, continuations, needed, q1, q2, tried, s);
      } else {
        SameLengths(oracle, header, continuations, queue, tried, winners);
      }
      if !s.Capped() && s.Full(false) {
        ContestDecided(oracle, header, continuations, needed, q1, q2, tried, winners, f);
      }
    }
  }

  lemma ContestDecided(oracle: Oracle, header: Part, continuations: seq<Part>, needed: nat, q1: seq<seq<nat>>, q2: seq<seq<nat>>,
                       tried: nat, winners: seq<seq<nat>>, f: nat)
    requires RanFully(oracle, header, continuations, needed, q1, q2, tried, winners, f) && 1 <= |winners| <= 2
    ensures |winners| == 2 <==> Contested(oracle, header, continuations, needed, winners[0])
  {
    hide *;
    if |winners| == 2 {
      TwoAreContested(oracle, header, continuations, needed, q1, q2, tried, winners, f);
    } else {
      OneIsUncontested(oracle, header, continuations, needed, q1, q2, tried, winners, f);
    }
  }

  lemma NoTrialVerifies(oracle: Oracle, header: Part, continuations: seq<Part>, queue: seq<seq<nat>>, tried: nat)
    requires Judged(oracle, header, continuations, queue, tried, [])
    ensures forall o :: o in queue[..tried] ==> !Verifies(oracle, header, continuations, o)
  {
    hide Verifies;
    var front := queue[..tried];
    forall o | o in front ensures !Verifies(oracle, header, continuations, o) {
      var p :| 0 <= p < |front| && front[p] == o;
      assert queue[p] == o;
    }
  }

  lemma SameLengths(oracle: Oracle, header: Part, continuations: seq<Part>, queue: seq<seq<nat>>, tried: nat, winners: seq<seq<nat>>)
    requires Judged(oracle, header, continuations, queue, tried, winners) && |winners| == 2
    ensures |winners[0]| == |winners[1]|
  {
    hide AmongWinners, FoldedNames, FirstIn, Verifies;
    assert winners[1] in winners;
    var front := queue[..tried];
    var p :| 0 <= p < |front| && front[p] == winners[1];
    assert queue[p] == winners[1];
  }

  lemma FirstDecided(oracle: Oracle, header: Part, continuations: seq<Part>, needed: nat, q1: seq<seq<nat>>, q2: seq<seq<nat>>,
                     tried: nat, s: Search)
    requires TierQueue(oracle, continuations, needed, true, s.exactBudget > 0, q1)
    requires TierQueue(oracle, continuations, needed, false, s.budget > 0, q2)
    requires s.exactBudget == 0 ==> q2 == []
    requires Judged(oracle, header, continuations, q1 + q2, tried, s.winners) && s.winners != []
    ensures First(oracle, header, continuations, needed, s)
  {
    hide TierQueue, FirstIn, Verifies, Tightest, Shortest, TotalSize, AmongWinners;
    var w := s.winners[0];
    assert w in s.winners;
    WinnerIsTightest(oracle, header, continuations, needed, q1, s.exactBudget > 0, q2, s.budget > 0, tried, w);
    if s.Full(TotalSize(continuations, w) == needed) {
      WinnerIsShortest(oracle, header, continuations, needed, q1, s.exactBudget > 0, q2, s.budget > 0, tried, w);
    }
  }

  lemma OnlyDecided(oracle: Oracle, header: Part, continuations: seq<Part>, needed: nat, q1: seq<seq<nat>>, q2: seq<seq<nat>>,
                    tried: nat, s: Search)
    requires TierQueue(oracle, continuations, needed, true, s.exactBudget > 0, q1)
    requires TierQueue(oracle, continuations, needed, false, s.budget > 0, q2)
    requires Judged(oracle, header, continuations, q1 + q2, tried, s.winners) && Stopped(q1 + q2, tried, s.winners)
    requires |s.winners| == 1 && s.Trials() == (q1 + q2)[..tried]
    ensures Only(oracle, header, continuations, needed, s)
  {
    hide TierQueue, FirstIn, Verifies, Sole, TotalSize, FoldedNames;
    var queue, w := q1 + q2, s.winners[0];
    forall o | o in s.Trials() && Verifies(oracle, header, continuations, o)
      ensures FoldedNames(header, continuations, o) == FoldedNames(header, continuations, w)
    {
      var p :| 0 <= p < |s.Trials()| && s.Trials()[p] == o;
      assert queue[p] == o;
    }
    if !s.Capped() && s.Full(TotalSize(continuations, w) == needed) {
      WinnerIsSole(oracle, header, continuations, needed, q1, s.exactBudget > 0, q2, s.budget > 0, tried, s.winners);
    }
  }

  /** What an outcome stands for, without the history of the search. */
  ghost predicate Justified(oracle: Oracle, header: Part, continuations: seq<Part>, outcome: Outcome) {
    match oracle.requiredTotal(header)
    case None => outcome == Unresolved
    case Some(total) =>
      var needed := Needed(total, header);
      match outcome
      case Resolved(names, handle) =>
        exists w :: StandsFor(oracle, header, continuations, needed, w, names)
                    && (handle.Some? ==> handle.value == Candidate(header, continuations, w))
      case Ambiguous(orderings) =>
        && |orderings| == 2 && Folded(orderings[0]) != Folded(orderings[1])
        && exists v, w ::
             && StandsFor(oracle, header, continuations, needed, v, orderings[0])
             && Genuine(oracle, header, continuations, needed, w) && orderings[1] == OrderingNames(header, continuations, w)
             && |v| == |w|
      case Unresolved => true
  }

  /** The names of a genuine ordering, and of one of the exact size if any of that size verifies. */
  ghost predicate StandsFor(oracle: Oracle, header: Part, continuations: seq<Part>, needed: nat, w: seq<nat>, names: seq<string>) {
    && Genuine(oracle, header, continuations, needed, w) && Tightest(oracle, header, continuations, needed, w)
    && names == OrderingNames(header, continuations, w)
  }

  lemma AnswersJustify(oracle: Oracle, header: Part, continuations: seq<Part>, buildHandle: bool, outcome: Outcome, s: Search)
    requires Answers(oracle, header, continuations, buildHandle, outcome, s)
    ensures Justified(oracle, header, continuations, outcome)
  {
    hide Genuine, Tightest, Shortest, Sole, NoneVerifies, TriedFairly, SpentFairly, Candidate, OrderingNames, Folded, Needed;
    var total := oracle.requiredTotal(header);
    if total.Some? && s.winners != [] {
      var needed := Needed(total.value, header);
      var w := s.winners[0];
      assert w in s.winners && s.winners[|s.winners| - 1] in s.winners;
      NamesAreOrdering(header, continuations, w);
      assert StandsFor(oracle, header, continuations, needed, w, OrderingNames(header, continuations, w));
    }
  }

  /** With the header in front, the ordering has exactly what the directory asks for, or the header alone has more and it adds nothing. */
  predicate Completes(header: Part, continuations: seq<Part>, total: nat, o: seq<nat>) {
    header.size + TotalSize(continuations, o) == Max(total, header.size)
  }

  /** An answer in bytes: what it names reaches the total, and goes past it only if nothing that verifies meets it. */
  lemma ResolvedReaches(oracle: Oracle, header: Part, continuations: seq<Part>, buildHandle: bool, outcome: Outcome, s: Search, total: nat)
    requires Answers(oracle, header, continuations, buildHandle, outcome, s) && oracle.requiredTotal(header) == Some(total)
    requires outcome.Resolved?
    ensures exists w ::
              && outcome.names == OrderingNames(header, continuations, w)
              && Eligible(oracle, continuations, w) && Verifies(oracle, header, continuations, w)
              && header.size + TotalSize(continuations, w) >= total
              && (Completes(header, continuations, total, w)
                  || forall o :: Eligible(oracle, continuations, o) && Completes(header, continuations, total, o) ==>
                       !Verifies(oracle, header, continuations, o))
  {
    AnswersJustify(oracle, header, continuations, buildHandle, outcome, s);
    var needed := Needed(total, header);
    hide Answers, Verifies, TotalSize, Eligible, OrderingNames, Candidate;
    var w :| StandsFor(oracle, header, continuations, needed, w, outcome.names);
    if !Completes(header, continuations, total, w) {
      forall o | Eligible(oracle, continuations, o) && Completes(header, continuations, total, o)
        ensures !Verifies(oracle, header, continuations, o)
      {
        assert InTier(oracle, continuations, needed, true, o);
      }
    }
  }

  /** Nothing that completes the header and verifies is missed while the budget and the cap last, nor anything that has more. */
  lemma NothingMissed(oracle: Oracle, header: Part, continuations: seq<Part>, buildHandle: bool, outcome: Outcome, s: Search,
                      total: nat, o: seq<nat>)
    requires Answers(oracle, header, continuations, buildHandle, outcome, s) && oracle.requiredTotal(header) == Some(total)
    requires Eligible(oracle, continuations, o) && Verifies(oracle, header, continuations, o)
    requires |s.exactTrials| + |s.paddedTrials| < 2000
    requires (s.exactBudget > 0 && Completes(header, continuations, total, o))
             || (s.budget > 0 && header.size + TotalSize(continuations, o) >= total)
    ensures !outcome.Unresolved?
  {
    var needed := Needed(total, header);
    hide Verifies, TotalSize, Eligible, OrderingNames, Candidate, First, Only, Contested, Genuine, TriedFairly, SpentFairly, FoldedNames;
    var exact := s.exactBudget > 0 && Completes(header, continuations, total, o);
    assert s.Full(exact);
    assert InTier(oracle, continuations, needed, exact, o);
    assert s.winners == [] ==> NoneVerifies(oracle, header, continuations, needed, exact);
  }

  lemma NamesAreOrdering(header: Part, continuations: seq<Part>, w: seq<nat>)
    ensures NamesOf(Candidate(header, continuations, w)) == OrderingNames(header, continuations, w)
  {
  }

  /** `find_raw_split`. */
  method FindRawSplit(oracle: Oracle, header: Part, continuations: seq<Part>, buildHandle: bool)
    returns (outcome: Outcome, ghost s: Search)
    ensures Answers(oracle, header, continuations, buildHandle, outcome, s)
    ensures Justified(oracle, header, continuations, outcome)
  {
    hide Decided, Judged, Stopped, SteadyFrom, TierQueue, MatchesUpTo, CoversUpTo, FragmentsUpTo, Queue, DistinctIndices, Needed;
    s := Search([], [], [], 0, 0);
    var required := oracle.requiredTotal(header);
    if required.None? {
      return Unresolved, s;
    }
    var needed := Needed(required.value, header);
    var fragments := CollectFragments(oracle, continuations);
    FragmentsMeaning(oracle, continuations, |continuations|);
    var exact, exactBudget := AllMatchingSubsets(fragments, needed, true, MAX_SUBSET_SEARCH_STEPS);
    var atLeast, budget := AllMatchingSubsets(fragments, needed, false, exactBudget);
    var winners, tried;
    ghost var first;
    winners, tried, first := TryOrderings(oracle, header, continuations, exact + atLeast);
    TierMeaning(oracle, continuations, needed, true, exactBudget > 0, exact);
    TierMeaning(oracle, continuations, needed, false, budget > 0, atLeast);
    QueueAppend(exact, atLeast);
    QueueEmpty();
    ghost var queue := Queue(exact + atLeast);
    JudgedBounds(oracle, header, continuations, queue, tried, winners);
    s := SearchOf(oracle, continuations, needed, Queue(exact), Queue(atLeast), tried, winners, exactBudget, budget);
    FragmentCount(oracle, continuations, |continuations|);
    BudgetLasts(|continuations|, |fragments|, exactBudget, budget);
    SearchDecides(oracle, header, continuations, needed, Queue(exact), Queue(atLeast), tried, s, first);
    if |winners| == 0 {
      outcome := Unresolved;
    } else if |winners| == 1 {
      var names := OrderingNames(header, continuations, winners[0]);
      var handle: Option<seq<Part>> := None;
      if buildHandle {
        var candidate := Candidate(header, continuations, winners[0]);
        if oracle.verifies(candidate) && oracle.reopens(candidate) {
          handle := Some(candidate);
        }
      }
      outcome := Resolved(names, handle);
    } else {
      outcome := Ambiguous(seq(|winners|, i requires 0 <= i < |winners| => OrderingNames(header, continuations, winners[i])));
    }
    AnswersJustify(oracle, header, continuations, buildHandle, outcome, s);
  }

  /** The record of a search: the tried front of the queue, cut where the first tier ends. */
  lemma SearchOf(oracle: Oracle, continuations: seq<Part>, needed: nat, q1: seq<seq<nat>>, q2: seq<seq<nat>>, tried: nat,
                 winners: seq<seq<nat>>, exactBudget: nat, budget: nat) returns (s: Search)
    requires TierQueue(oracle, continuations, needed, true, exactBudget > 0, q1)
    requires TierQueue(oracle, continuations, needed, false, budget > 0, q2)
    requires exactBudget == 0 ==> q2 == []
    requires tried <= |q1 + q2| && tried <= MAX_ORDERING_CANDIDATES_TRIED
    ensures s.winners == winners && s.exactBudget == exactBudget && s.budget == budget
    ensures s.Trials() == (q1 + q2)[..tried] && TriedFairly(oracle, continuations, needed, s)
  {
    hide InTier;
    var n := Min(tried, |q1|);
    s := Search(q1[..n], q2[..tried - n], winners, exactBudget, budget);
    assert q1[..n] + q2[..tried - n] == (q1 + q2)[..tried];
  }

  lemma {:induction false} FragmentCount(oracle: Oracle, continuations: seq<Part>, n: nat)
    requires n <= |continuations|
    ensures |FragmentsUpTo(oracle, continuations, n)| <= n
  {
    if n > 0 {
      FragmentCount(oracle, continuations, n - 1);
    }
  }

  lemma BudgetLasts(continuations: nat, fragments: nat, exactBudget: nat, budget: nat)
    requires fragments <= continuations
    requires MAX_SUBSET_SEARCH_STEPS <= exactBudget + MAX_SPLIT_FRAGMENTS_CEILING * Pow2(fragments)
    requires exactBudget <= budget + MAX_SPLIT_FRAGMENTS_CEILING * Pow2(fragments)
    ensures continuations <= AFFORDABLE_CONTINUATIONS ==> budget > 0
  {
    if continuations <= AFFORDABLE_CONTINUATIONS {
      Pow2Monotone(fragments, AFFORDABLE_CONTINUATIONS);
      assert Pow2(5) == 32;
      assert Pow2(AFFORDABLE_CONTINUATIONS) == 1024;
    }
  }

  /** The `filter` over the continuations. */
  method CollectFragments(oracle: Oracle, continuations: seq<Part>) returns (fragments: seq<SizedFragment>)
    ensures fragments == FragmentsUpTo(oracle, continuations, |continuations|)
  {
    fragments := [];
    for i := 0 to |continuations|
      invariant fragments == FragmentsUpTo(oracle, continuations, i)
    {
      if !oracle.selfContained(continuations[i]) {
        fragments := fragments + [SizedFragment(i, continuations[i].size)];
      }
    }
  }

  // ------------------------------------------------------ ambiguity at an input

  /** A header that asks for ten bytes and has five; continuations of five and of seven; everything verifies. */
  const HEADER: Part := Part("h", 0, 5)
  const FIVE_OR_SEVEN: seq<Part> := [Part("f", 1, 5), Part("s", 2, 7)]

  function Accepting(): Oracle { Oracle(_ => Some(10), _ => false, _ => true, _ => true) }

  /** The exact continuation completes the header, and the answer is ambiguous all the same. */
  method ExactYetAmbiguous() returns (outcome: Outcome)
    ensures outcome.Ambiguous?
  {
    hide *;
    ghost var s;
    outcome, s := FindRawSplit(Accepting(), HEADER, FIVE_OR_SEVEN, false);
    AcceptingAnswer(outcome, s);
  }

  lemma AcceptingAnswer(outcome: Outcome, s: Search)
    requires Answers(Accepting(), HEADER, FIVE_OR_SEVEN, false, outcome, s)
    ensures outcome.Ambiguous?
  {
    assert Needed(10, HEADER) == 5;
    hide Decided;
    BothWin(s);
  }

  lemma BothWin(s: Search)
    requires Decided(Accepting(), HEADER, FIVE_OR_SEVEN, 5, s)
    ensures |s.winners| == 2
  {
    FewTrials(s);
    HasWinner(s);
    hide Verifies, FoldedNames, Only, InTier, TotalSize, Contested, Genuine, NoneVerifies, TriedFairly, Tightest, Shortest;
    var w := s.winners[0];
    assert w in s.winners;
    ExactWins(w);
    FiveIsContested();
    assert s.Full(false);
  }

  /** The orderings of two continuations. */
  lemma OfTwo(o: seq<nat>)
    requires Eligible(Accepting(), FIVE_OR_SEVEN, o)
    ensures o in [[0], [1], [0, 1], [1, 0]]
    ensures TotalSize(FIVE_OR_SEVEN, o) == if o == [0] then 5 else if o == [1] then 7 else 12
  {
    TwoIndices(o);
    var all: seq<seq<nat>> := [[0], [1], [0, 1], [1, 0]];
    assert all[0] in all && all[1] in all && all[2] in all && all[3] in all;
    assert o[1..] == if |o| == 1 then [] else [o[1]];
    if |o| == 1 {
      assert o == [o[0]];
    } else {
      assert o == [o[0], o[1]] && o[1..][1..] == [];
    }
  }

  lemma TwoIndices(o: seq<nat>)
    requires Eligible(Accepting(), FIVE_OR_SEVEN, o)
    ensures 1 <= |o| <= 2 && forall i :: 0 <= i < |o| ==> o[i] < 2
  {
    DistinctCount(o);
    IntervalBound(Members(o), 0, 2);
  }

  lemma {:induction false} DifferentCount<T>(q: seq<T>, all: seq<T>)
    requires AllDifferent(q) && forall x :: x in q ==> x in all
    ensures |q| <= |all|
    decreases |q|
  {
    if q != [] {
      var init, last := q[..|q| - 1], q[|q| - 1];
      assert last in q;
      var k :| 0 <= k < |all| && all[k] == last;
      var rest := all[..k] + all[k + 1..];
      forall x | x in init ensures x in rest {
        var i :| 0 <= i < |init| && init[i] == x;
        assert q[i] == x && q[i] in q && x != last;
        var j :| 0 <= j < |all| && all[j] == x;
        assert rest[if j < k then j else j - 1] == x;
      }
      DifferentCount(init, rest);
    }
  }

  lemma FewTrials(s: Search)
    requires TriedFairly(Accepting(), FIVE_OR_SEVEN, 5, s)
    ensures !s.Capped()
  {
    var all: seq<seq<nat>> := [[0], [1], [0, 1], [1, 0]];
    forall o | o in s.exactTrials || o in s.paddedTrials ensures o in all {
      OfTwo(o);
    }
    DifferentCount(s.exactTrials, all);
    DifferentCount(s.paddedTrials, all);
  }

  lemma FiveIsExact()
    ensures InTier(Accepting(), FIVE_OR_SEVEN, 5, true, [0]) && Verifies(Accepting(), HEADER, FIVE_OR_SEVEN, [0])
  {
    assert TotalSize(FIVE_OR_SEVEN, [0]) == 5;
  }

  lemma HasWinner(s: Search)
    requires Decided(Accepting(), HEADER, FIVE_OR_SEVEN, 5, s) && !s.Capped()
    ensures s.winners != []
  {
    FiveIsExact();
    assert s.Full(true);
    hide Verifies, FoldedNames, First, Only, InTier, TotalSize, Contested, Genuine, TriedFairly;
    assert s.winners == [] ==> NoneVerifies(Accepting(), HEADER, FIVE_OR_SEVEN, 5, true);
  }

  lemma ExactWins(w: seq<nat>)
    requires Genuine(Accepting(), HEADER, FIVE_OR_SEVEN, 5, w) && Tightest(Accepting(), HEADER, FIVE_OR_SEVEN, 5, w)
    ensures w == [0] && TotalSize(FIVE_OR_SEVEN, w) == 5
  {
    FiveIsExact();
    OfTwo(w);
    hide Verifies, InTier;
  }

  lemma FiveIsContested()
    ensures Contested(Accepting(), HEADER, FIVE_OR_SEVEN, 5, [0])
  {
    assert TotalSize(FIVE_OR_SEVEN, [0]) == 5;
    hide *;
    SevenIsRival();
    FiveTiersMeet();
    RivalAcross(Accepting(), HEADER, FIVE_OR_SEVEN, 5, [0]);
  }

  lemma RivalAcross(oracle: Oracle, header: Part, continuations: seq<Part>, needed: nat, w: seq<nat>)
    requires TotalSize(continuations, w) == needed && TiersMeet(oracle, continuations, needed, w)
    requires Rivalled(oracle, header, continuations, needed, false, w)
    ensures Contested(oracle, header, continuations, needed, w)
  {
    hide TotalSize, TiersMeet, Rivalled;
  }

  lemma FiveTiersMeet()
    ensures TiersMeet(Accepting(), FIVE_OR_SEVEN, 5, [0])
  {
    hide InTier;
    forall o | InTier(Accepting(), FIVE_OR_SEVEN, 5, true, o) ensures |o| <= 1 {
      CandidateOfTwo(o, true);
    }
    forall o | InTier(Accepting(), FIVE_OR_SEVEN, 5, false, o) ensures |o| >= 1 {
      CandidateOfTwo(o, false);
    }
  }

  lemma CandidateOfTwo(o: seq<nat>, exact: bool)
    requires InTier(Accepting(), FIVE_OR_SEVEN, 5, exact, o)
    ensures |o| >= 1 && (exact ==> |o| == 1)
  {
    OfTwo(o);
    hide TotalSize;
  }

  lemma SevenIsRival()
    ensures Rivalled(Accepting(), HEADER, FIVE_OR_SEVEN, 5, false, [0])
  {
    assert TotalSize(FIVE_OR_SEVEN, [1]) == 7;
    assert InTier(Accepting(), FIVE_OR_SEVEN, 5, false, [1]);
    OneName("f");
    OneName("s");
    assert OrderingNames(HEADER, FIVE_OR_SEVEN, [0]) == ["h", "f"];
    assert OrderingNames(HEADER, FIVE_OR_SEVEN, [1]) == ["h", "s"];
    assert FoldedNames(HEADER, FIVE_OR_SEVEN, [1])["s"] == 1 && FoldedNames(HEADER, FIVE_OR_SEVEN, [0])["s"] == 0;
  }

  /** The folded names of a candidate of the header and one more file. */
  lemma OneName(name: string)
    requires |name| == 1 && 'a' <= name[0] <= 'z'
    ensures Folded(["h", name]) == multiset{"h", name}
  {
    assert LowerName(name) == name && LowerName("h") == "h";
    assert ["h", name][1..] == [name] && [name][1..] == [];
    assert Folded([name]) == multiset{name};
  }
}
