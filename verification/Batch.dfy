/**
 Giving every fragment of a batch to a header: one header, several headers in every order,
 and the greedy fallback. Whatever branch is taken, no name is lost and none is made up.
 */
module Batch {
  import opened Common
  import opened Permutations
  import opened RawSplit

  const MAX_PERMUTED_HEADERS: nat := 6

  datatype UnresolvedKind = AmbiguousSplit | Generic

  datatype Resolution =
    | Split(parts: seq<string>, handle: Option<seq<Part>>)
    | Stranded(names: seq<string>, kind: UnresolvedKind)

  // ---------------------------------------------------------------------- names

  function NameBag(parts: seq<Part>): multiset<string> {
    if parts == [] then multiset{} else multiset{parts[0].name} + NameBag(parts[1..])
  }

  function Mentioned(r: Resolution): seq<string> {
    match r case Split(parts, _) => parts case Stranded(names, _) => names
  }

  /** Every name a list of resolutions mentions, as often as it does. */
  function AllNames(rs: seq<Resolution>): multiset<string> {
    if rs == [] then multiset{} else multiset(Mentioned(rs[0])) + AllNames(rs[1..])
  }

  lemma {:induction false} NameBagAppend(a: seq<Part>, b: seq<Part>)
    ensures NameBag(a + b) == NameBag(a) + NameBag(b)
  {
    if a == [] {
      assert a + b == b;
    } else {
      assert (a + b)[1..] == a[1..] + b;
      NameBagAppend(a[1..], b);
    }
  }

  lemma {:induction false} AllNamesAppend(a: seq<Resolution>, b: seq<Resolution>)
    ensures AllNames(a + b) == AllNames(a) + AllNames(b)
  {
    if a == [] {
      assert a + b == b;
    } else {
      assert (a + b)[1..] == a[1..] + b;
      AllNamesAppend(a[1..], b);
    }
  }

  lemma {:induction false} NameBagIsNames(parts: seq<Part>)
    ensures NameBag(parts) == multiset(NamesOf(parts))
  {
    if parts != [] {
      NameBagIsNames(parts[1..]);
      assert NamesOf(parts) == [parts[0].name] + NamesOf(parts[1..]);
    }
  }

  // ------------------------------------------------------------- what a split is

  /** A resolved split names its header first and then members of the pool, none more often than it is there. */
  ghost predicate SoundOutcome(header: Part, pool: seq<Part>, outcome: Outcome) {
    outcome.Resolved? ==>
      && outcome.names != [] && outcome.names[0] == header.name
      && Uses(outcome.names) <= NameBag(pool)
  }

  ghost predicate SoundSplitter(split: (Part, seq<Part>) -> Outcome) {
    forall header, pool :: SoundOutcome(header, pool, split(header, pool))
  }

  /** The split search as seen from here: a header and a pool in, a sound outcome out. */
  type Splitter = split: (Part, seq<Part>) -> Outcome | SoundSplitter(split) witness (_, _) => Unresolved

  /** How often each continuation name is used: the names behind the header's. */
  function Uses(names: seq<string>): multiset<string> {
    if names == [] then multiset{} else multiset(names[1..])
  }

  /** Whatever the split search answers is sound in this sense. */
  lemma SearchIsSound(oracle: Oracle, header: Part, pool: seq<Part>, buildHandle: bool, outcome: Outcome, s: Search)
    requires Answers(oracle, header, pool, buildHandle, outcome, s)
    ensures SoundOutcome(header, pool, outcome)
  {
    hide First, Only, NoneVerifies, Verifies, NameBag, Uses;
    if outcome.Resolved? {
      var w := s.winners[0];
      assert w in s.winners;
      assert outcome.names == OrderingNames(header, pool, w);
      assert outcome.names[1..] == NamesOf(PartsAt(pool, w));
      UsesOf(outcome.names);
      NameBagIsNames(PartsAt(pool, w));
      PartsAtBag(pool, w);
    }
  }

  lemma UsesOf(names: seq<string>)
    requires names != []
    ensures Uses(names) == multiset(names[1..])
  {
  }

  /** The later positions of `o`, counted in a pool without the part at the first. */
  function WithoutFirst(o: seq<nat>): seq<nat>
    requires o != []
  {
    seq(|o| - 1, i requires 0 <= i < |o| - 1 => if o[i + 1] > o[0] then (o[i + 1] - 1) as nat else o[i + 1])
  }

  lemma WithoutFirstSame(pool: seq<Part>, o: seq<nat>)
    requires SubsetSearch.Distinct(o) && o != [] && forall i :: 0 <= i < |o| ==> o[i] < |pool|
    ensures PartsAt(RemoveAt(pool, o[0]), WithoutFirst(o)) == PartsAt(pool, o[1..])
    ensures SubsetSearch.Distinct(WithoutFirst(o)) && forall i :: 0 <= i < |o| - 1 ==> WithoutFirst(o)[i] < |pool| - 1
  {
  }

  /** Taking each position at most once takes no name more often than the pool has it. */
  lemma {:induction false} PartsAtBag(pool: seq<Part>, o: seq<nat>)
    requires SubsetSearch.Distinct(o) && forall i :: 0 <= i < |o| ==> o[i] < |pool|
    ensures NameBag(PartsAt(pool, o)) <= NameBag(pool)
    decreases |o|
  {
    if o != [] {
      WithoutFirstSame(pool, o);
      PartsAtHead(pool, o);
      hide RemoveAt, WithoutFirst, NameBag, PartsAt;
      PartsAtBag(RemoveAt(pool, o[0]), WithoutFirst(o));
      NameBagRemove(pool, o[0]);
      ClaimHead(pool[o[0]], PartsAt(pool, o[1..]));
    }
  }

  lemma RemoveAtTail(pool: seq<Part>, i: nat)
    requires i < |pool|
    ensures RemoveAt(pool, i) == if i == 0 then pool[1..] else [pool[0]] + RemoveAt(pool[1..], i - 1)
  {
  }

  lemma {:induction false} NameBagRemove(pool: seq<Part>, i: nat)
    requires i < |pool|
    ensures NameBag(pool) == NameBag(RemoveAt(pool, i)) + multiset{pool[i].name}
    decreases i
  {
    var head, rest := pool[0], pool[1..];
    RemoveAtTail(pool, i);
    assert NameBag(pool) == multiset{head.name} + NameBag(rest);
    hide NameBag, RemoveAt;
    if i > 0 {
      NameBagRemove(rest, i - 1);
      ClaimHead(head, RemoveAt(rest, i - 1));
      assert rest[i - 1] == pool[i];
    }
  }

  // ------------------------------------------------------------- claiming by name

  /** The first parts of the pool whose names are still to be used. */
  function Claimed(uses: multiset<string>, pool: seq<Part>): seq<Part> {
    if pool == [] then []
    else if uses[pool[0].name] > 0 then [pool[0]] + Claimed(uses - multiset{pool[0].name}, pool[1..])
    else Claimed(uses, pool[1..])
  }

  /** The rest of the pool, in order. */
  function Unclaimed(uses: multiset<string>, pool: seq<Part>): seq<Part> {
    if pool == [] then []
    else if uses[pool[0].name] > 0 then Unclaimed(uses - multiset{pool[0].name}, pool[1..])
    else [pool[0]] + Unclaimed(uses, pool[1..])
  }

  /** Claiming splits the pool: every instance is claimed or left, never both. */
  lemma {:induction false} ClaimSplitsPool(uses: multiset<string>, pool: seq<Part>)
    ensures multiset(Claimed(uses, pool)) + multiset(Unclaimed(uses, pool)) == multiset(pool)
  {
    if pool != [] {
      var p, rest := pool[0], pool[1..];
      MultisetHead(pool);
      if uses[p.name] > 0 {
        ClaimSplitsPool(uses - multiset{p.name}, rest);
        ClaimHead(p, Claimed(uses - multiset{p.name}, rest));
        assert Claimed(uses, pool) == [p] + Claimed(uses - multiset{p.name}, rest);
        assert Unclaimed(uses, pool) == Unclaimed(uses - multiset{p.name}, rest);
        hide Claimed, Unclaimed;
      } else {
        ClaimSplitsPool(uses, rest);
        ClaimHead(p, Unclaimed(uses, rest));
        assert Claimed(uses, pool) == Claimed(uses, rest);
        assert Unclaimed(uses, pool) == [p] + Unclaimed(uses, rest);
        hide Claimed, Unclaimed;
      }
    }
  }

  lemma ClaimHead(p: Part, rest: seq<Part>)
    ensures multiset([p] + rest) == multiset(rest) + multiset{p}
    ensures NameBag([p] + rest) == NameBag(rest) + multiset{p.name}
  {
    assert ([p] + rest)[1..] == rest;
  }

  lemma {:induction false} ClaimSplitsNames(uses: multiset<string>, pool: seq<Part>)
    ensures NameBag(Claimed(uses, pool)) + NameBag(Unclaimed(uses, pool)) == NameBag(pool)
  {
    if pool != [] {
      if uses[pool[0].name] > 0 {
        ClaimSplitsNames(uses - multiset{pool[0].name}, pool[1..]);
        ClaimHead(pool[0], Claimed(uses - multiset{pool[0].name}, pool[1..]));
      } else {
        ClaimSplitsNames(uses, pool[1..]);
        ClaimHead(pool[0], Unclaimed(uses, pool[1..]));
      }
    }
  }

  /** What is claimed has exactly the names asked for. */
  lemma {:induction false} ClaimNames(uses: multiset<string>, pool: seq<Part>)
    requires uses <= NameBag(pool)
    ensures NameBag(Claimed(uses, pool)) == uses
  {
    if pool != [] {
      var p, rest := pool[0], pool[1..];
      NameBagHead(pool);
      OneUsed(uses, p.name, NameBag(rest));
      ClaimStep(uses, pool);
      hide *;
      if uses[p.name] > 0 {
        ClaimNames(uses - multiset{p.name}, rest);
        ClaimHead(p, Claimed(uses - multiset{p.name}, rest));
      } else {
        ClaimNames(uses, rest);
      }
    }
  }

  lemma ClaimStep(uses: multiset<string>, pool: seq<Part>)
    requires pool != []
    ensures var p, rest := pool[0], pool[1..];
            Claimed(uses, pool) == if uses[p.name] > 0 then [p] + Claimed(uses - multiset{p.name}, rest) else Claimed(uses, rest)
  {
  }

  lemma OneUsed<T>(uses: multiset<T>, x: T, rest: multiset<T>)
    requires uses <= multiset{x} + rest
    ensures uses[x] > 0 ==> uses - multiset{x} <= rest && uses - multiset{x} + multiset{x} == uses
    ensures uses[x] == 0 ==> uses <= rest
  {
    forall y ensures uses[y] <= (if y == x then 1 else 0) + rest[y] {
      assert uses[y] <= (multiset{x} + rest)[y];
    }
  }

  function RemoveFirst(pool: seq<Part>, name: string): seq<Part> {
    if pool == [] then []
    else if pool[0].name == name then pool[1..]
    else [pool[0]] + RemoveFirst(pool[1..], name)
  }

  lemma {:induction false} UnclaimedRemoveFirst(uses: multiset<string>, pool: seq<Part>, name: string)
    ensures Unclaimed(uses + multiset{name}, pool) == Unclaimed(uses, RemoveFirst(pool, name))
  {
    if pool != [] {
      if pool[0].name == name {
        assert uses + multiset{name} - multiset{name} == uses;
      } else if uses[pool[0].name] > 0 {
        assert uses + multiset{name} - multiset{pool[0].name} == uses - multiset{pool[0].name} + multiset{name};
        UnclaimedRemoveFirst(uses - multiset{pool[0].name}, pool[1..], name);
      } else {
        UnclaimedRemoveFirst(uses, pool[1..], name);
      }
    }
  }

  /** Claiming twice is claiming both lots at once. */
  lemma {:induction false} UnclaimedTwice(a: multiset<string>, b: multiset<string>, pool: seq<Part>)
    ensures Unclaimed(b, Unclaimed(a, pool)) == Unclaimed(a + b, pool)
  {
    if pool != [] {
      var n := pool[0].name;
      if a[n] > 0 {
        assert a + b - multiset{n} == a - multiset{n} + b;
        UnclaimedTwice(a - multiset{n}, b, pool[1..]);
      } else if b[n] > 0 {
        assert a + b - multiset{n} == a + (b - multiset{n});
        UnclaimedTwice(a, b - multiset{n}, pool[1..]);
      } else {
        UnclaimedTwice(a, b, pool[1..]);
      }
    }
  }

  /** A map of counts and the multiset it stands for. */
  ghost predicate Counts(uses: map<string, nat>, bag: multiset<string>) {
    forall n :: bag[n] == if n in uses then uses[n] else 0
  }

  /** The `remaining_uses` map built from a list of names. */
  method CountUses(names: seq<string>) returns (uses: map<string, nat>)
    ensures Counts(uses, multiset(names))
  {
    uses := map[];
    for i := 0 to |names|
      invariant Counts(uses, multiset(names[..i]))
    {
      MultisetSnoc(names, i);
      var n := names[i];
      uses := uses[n := (if n in uses then uses[n] else 0) + 1];
    }
    assert names[..|names|] == names;
  }

  /** The two `filter` closures: parts whose name still has a use are taken, the others kept. */
  method TakeByName(uses: map<string, nat>, pool: seq<Part>, ghost bag: multiset<string>)
    returns (taken: seq<Part>, kept: seq<Part>)
    requires Counts(uses, bag)
    ensures taken == Claimed(bag, pool) && kept == Unclaimed(bag, pool)
  {
    taken, kept := [], [];
    var remaining := uses;
    ghost var left := bag;
    var i := 0;
    while i < |pool|
      invariant 0 <= i <= |pool|
      invariant Counts(remaining, left)
      invariant taken + Claimed(left, pool[i..]) == Claimed(bag, pool)
      invariant kept + Unclaimed(left, pool[i..]) == Unclaimed(bag, pool)
    {
      var n := pool[i].name;
      assert pool[i..][0] == pool[i] && pool[i..][1..] == pool[i + 1..];
      if n in remaining && remaining[n] > 0 {
        remaining := remaining[n := remaining[n] - 1];
        left := left - multiset{n};
        taken := taken + [pool[i]];
      } else {
        kept := kept + [pool[i]];
      }
      i := i + 1;
    }
  }

  /** The pool loses, for every claimed part, its first part of that name. */
  method RemoveClaimed(pool: seq<Part>, claimed: seq<Part>) returns (r: seq<Part>)
    ensures r == Unclaimed(NameBag(claimed), pool)
  {
    r := pool;
    var i := 0;
    while i < |claimed|
      invariant 0 <= i <= |claimed|
      invariant Unclaimed(NameBag(claimed[i..]), r) == Unclaimed(NameBag(claimed), pool)
    {
      assert claimed[i..][0] == claimed[i] && claimed[i..][1..] == claimed[i + 1..];
      assert NameBag(claimed[i..]) == NameBag(claimed[i + 1..]) + multiset{claimed[i].name};
      UnclaimedRemoveFirst(NameBag(claimed[i + 1..]), r, claimed[i].name);
      r := RemoveNamed(r, claimed[i].name);
      i := i + 1;
    }
    NothingUnclaimed(r);
  }

  lemma {:induction false} NothingUnclaimed(pool: seq<Part>)
    ensures Unclaimed(multiset{}, pool) == pool
  {
    if pool != [] {
      NothingUnclaimed(pool[1..]);
    }
  }

  /** `position` by name, then `remove`. */
  method RemoveNamed(pool: seq<Part>, name: string) returns (r: seq<Part>)
    ensures r == RemoveFirst(pool, name)
  {
    hide RemoveFirst;
    var pos := 0;
    while pos < |pool| && pool[pos].name != name
      invariant 0 <= pos <= |pool| && forall i :: 0 <= i < pos ==> pool[i].name != name
    {
      pos := pos + 1;
    }
    RemoveFirstAt(pool, name, pos);
    if pos < |pool| {
      r := pool[..pos] + pool[pos + 1..];
    } else {
      r := pool;
    }
  }

  lemma {:induction false} RemoveFirstAt(pool: seq<Part>, name: string, pos: nat)
    requires pos <= |pool| && forall i :: 0 <= i < pos ==> pool[i].name != name
    requires pos < |pool| ==> pool[pos].name == name
    ensures RemoveFirst(pool, name) == if pos < |pool| then RemoveAt(pool, pos) else pool
  {
    if pos < |pool| {
      RemoveAtTail(pool, pos);
    }
    if pos > 0 {
      RemovePast(pool, name);
      hide RemoveFirst, RemoveAt;
      RemoveFirstAt(pool[1..], name, pos - 1);
    }
  }

  lemma RemovePast(pool: seq<Part>, name: string)
    requires pool != [] && pool[0].name != name
    ensures RemoveFirst(pool, name) == [pool[0]] + RemoveFirst(pool[1..], name)
    ensures [pool[0]] + pool[1..] == pool
  {
  }

  // ---------------------------------------------------------- one header at a time

  /** What one header gets out of a pool: nothing when the pool is empty or no split is found. */
  function Attempt(split: Splitter, header: Part, pool: seq<Part>): Option<Resolution> {
    if pool == [] then None
    else match split(header, pool)
      case Resolved(names, handle) => Some(Split(names, handle))
      case _ => None
  }

  /** A pass over headers in a fixed order: splits placed, headers that got none, parts claimed, parts left. */
  datatype Run = Run(placed: seq<Resolution>, failed: seq<string>, claimed: seq<Part>, left: seq<Part>)

  function Greedy(split: Splitter, headers: seq<Part>, pool: seq<Part>): Run
    decreases |headers|
  {
    if headers == [] then Run([], [], [], pool)
    else match Attempt(split, headers[0], pool)
      case Some(r) =>
        var uses := Uses(Mentioned(r));
        var rest := Greedy(split, headers[1..], Unclaimed(uses, pool));
        Run([r] + rest.placed, rest.failed, Claimed(uses, pool) + rest.claimed, rest.left)
      case None =>
        var rest := Greedy(split, headers[1..], pool);
        Run(rest.placed, [headers[0].name] + rest.failed, rest.claimed, rest.left)
  }

  /** A pass loses no name: placed, failed or left. */
  lemma {:induction false} GreedyConserves(split: Splitter, headers: seq<Part>, pool: seq<Part>)
    ensures var run := Greedy(split, headers, pool);
            AllNames(run.placed) + multiset(run.failed) + NameBag(run.left) == NameBag(headers) + NameBag(pool)
    decreases |headers|
  {
    if headers != [] {
      GreedyStep(split, headers, pool, 0);
      assert headers[0..] == headers;
      NameBagHead(headers);
      hide Greedy, NameBag, AllNames, SoundSplitter, Attempt;
      match Attempt(split, headers[0], pool) {
        case Some(r) =>
          var left := Unclaimed(Uses(Mentioned(r)), pool);
          GreedyConserves(split, headers[1..], left);
          PlacedNames(split, headers[0], pool, r);
          var rest := Greedy(split, headers[1..], left);
          PlacedStep(r, rest.placed);
          PlacedBalance(AllNames(rest.placed), multiset(rest.failed), NameBag(rest.left), NameBag(headers[1..]), NameBag(left),
                        multiset(Mentioned(r)), multiset{headers[0].name}, NameBag(pool));
        case None =>
          GreedyConserves(split, headers[1..], pool);
          var rest := Greedy(split, headers[1..], pool);
          FailedStep(headers[0].name, rest.failed);
          FailedBalance(AllNames(rest.placed), multiset(rest.failed), NameBag(rest.left), NameBag(headers[1..]), NameBag(pool),
                        multiset{headers[0].name});
      }
    }
  }

  lemma PlacedBalance<T>(placed: multiset<T>, failed: multiset<T>, left: multiset<T>, headers: multiset<T>, after: multiset<T>,
                         r: multiset<T>, header: multiset<T>, pool: multiset<T>)
    requires placed + failed + left == headers + after && r + after == header + pool
    ensures r + placed + failed + left == header + headers + pool
  {
    forall x ensures (r + placed + failed + left)[x] == (header + headers + pool)[x] {
      assert (placed + failed + left)[x] == (headers + after)[x];
      assert (r + after)[x] == (header + pool)[x];
    }
  }

  lemma FailedBalance<T>(placed: multiset<T>, failed: multiset<T>, left: multiset<T>, headers: multiset<T>, pool: multiset<T>,
                         header: multiset<T>)
    requires placed + failed + left == headers + pool
    ensures placed + (failed + header) + left == header + headers + pool
  {
    forall x ensures (placed + (failed + header) + left)[x] == (header + headers + pool)[x] {
      assert (placed + failed + left)[x] == (headers + pool)[x];
    }
  }

  lemma NameBagHead(parts: seq<Part>)
    requires parts != []
    ensures NameBag(parts) == multiset{parts[0].name} + NameBag(parts[1..])
  {
  }

  lemma FailedStep(name: string, rest: seq<string>)
    ensures multiset([name] + rest) == multiset(rest) + multiset{name}
  {
  }

  lemma PlacedStep(r: Resolution, rest: seq<Resolution>)
    ensures AllNames([r] + rest) == multiset(Mentioned(r)) + AllNames(rest)
  {
    assert ([r] + rest)[1..] == rest;
  }

  /** A placed split mentions its header and what leaves the pool. */
  lemma PlacedNames(split: Splitter, header: Part, pool: seq<Part>, r: Resolution)
    requires Attempt(split, header, pool) == Some(r)
    ensures multiset(Mentioned(r)) + NameBag(Unclaimed(Uses(Mentioned(r)), pool)) == multiset{header.name} + NameBag(pool)
    ensures NameBag(Claimed(Uses(Mentioned(r)), pool)) == Uses(Mentioned(r))
  {
    var names := Mentioned(r);
    assert SoundOutcome(header, pool, split(header, pool));
    MultisetHead(names);
    ClaimNames(Uses(names), pool);
    ClaimSplitsNames(Uses(names), pool);
  }

  /** The parts a pass leaves are those not claimed, counted over the whole pool at once. */
  lemma {:induction false} GreedyLeaves(split: Splitter, headers: seq<Part>, pool: seq<Part>)
    ensures var run := Greedy(split, headers, pool); run.left == Unclaimed(NameBag(run.claimed), pool)
    decreases |headers|
  {
    NothingUnclaimed(pool);
    if headers != [] {
      match Attempt(split, headers[0], pool) {
        case Some(r) =>
          var uses := Uses(Mentioned(r));
          GreedyLeaves(split, headers[1..], Unclaimed(uses, pool));
          PlacedNames(split, headers[0], pool, r);
          var rest := Greedy(split, headers[1..], Unclaimed(uses, pool));
          NameBagAppend(Claimed(uses, pool), rest.claimed);
          UnclaimedTwice(uses, NameBag(rest.claimed), pool);
        case None =>
          GreedyLeaves(split, headers[1..], pool);
      }
    }
  }

  lemma GreedyStep(split: Splitter, headers: seq<Part>, pool: seq<Part>, i: nat)
    requires i < |headers|
    ensures var run := Greedy(split, headers[i..], pool);
            match Attempt(split, headers[i], pool)
            case Some(r) =>
              var uses := Uses(Mentioned(r));
              var rest := Greedy(split, headers[i + 1..], Unclaimed(uses, pool));
              run == Run([r] + rest.placed, rest.failed, Claimed(uses, pool) + rest.claimed, rest.left)
            case None =>
              var rest := Greedy(split, headers[i + 1..], pool);
              run == Run(rest.placed, [headers[i].name] + rest.failed, rest.claimed, rest.left)
  {
    assert headers[i..][0] == headers[i] && headers[i..][1..] == headers[i + 1..];
  }

  /** `resolve_one_header`: a split and what it claims, or why there is none. */
  method ResolveOneHeader(split: Splitter, header: Part, pool: seq<Part>)
    returns (resolved: Option<Resolution>, claimed: seq<Part>, unresolved: Option<Resolution>)
    ensures resolved == Attempt(split, header, pool)
    ensures resolved.Some? ==> unresolved == None && claimed == Claimed(Uses(Mentioned(resolved.value)), pool)
    ensures resolved.None? ==>
              && claimed == []
              && unresolved == Some(Stranded([header.name] + NamesOf(pool),
                                             if pool != [] && split(header, pool).Ambiguous? then AmbiguousSplit else Generic))
  {
    if pool == [] {
      assert [header.name] + NamesOf(pool) == [header.name];
      return None, [], Some(Stranded([header.name], Generic));
    }
    match split(header, pool) {
      case Resolved(names, handle) =>
        var uses := CountUses(if names == [] then [] else names[1..]);
        var kept;
        claimed, kept := TakeByName(uses, pool, Uses(names));
        return Some(Split(names, handle)), claimed, None;
      case Ambiguous(orderings) =>
        return None, [], Some(Stranded([header.name] + NamesOf(pool), AmbiguousSplit));
      case Unresolved =>
        return None, [], Some(Stranded([header.name] + NamesOf(pool), Generic));
    }
  }

  /** One entry per part that nothing claimed. */
  function Leftovers(parts: seq<Part>): (r: seq<Resolution>)
    ensures |r| == |parts| && forall i :: 0 <= i < |parts| ==> r[i] == Stranded([parts[i].name], Generic)
  {
    seq(|parts|, i requires 0 <= i < |parts| => Stranded([parts[i].name], Generic))
  }

  lemma {:induction false} LeftoverNames(parts: seq<Part>)
    ensures AllNames(Leftovers(parts)) == NameBag(parts)
  {
    if parts != [] {
      NameBagHead(parts);
      assert Leftovers(parts) == [Stranded([parts[0].name], Generic)] + Leftovers(parts[1..]);
      hide Leftovers, AllNames, NameBag;
      LeftoverNames(parts[1..]);
      PlacedStep(Stranded([parts[0].name], Generic), Leftovers(parts[1..]));
      assert multiset([parts[0].name]) == multiset{parts[0].name};
    }
  }

  /** `unclaimed_leftovers`. */
  method UnclaimedLeftovers(pool: seq<Part>, claimed: seq<Part>) returns (rs: seq<Resolution>)
    ensures rs == Leftovers(Unclaimed(NameBag(claimed), pool))
  {
    NameBagIsNames(claimed);
    var uses := CountUses(NamesOf(claimed));
    var taken, kept := TakeByName(uses, pool, NameBag(claimed));
    rs := Leftovers(kept);
  }

  // -------------------------------------------------------------- every header order

  /** The fingerprint of a pass: which part lists it placed, in no order. */
  function Pairing(run: Run): multiset<seq<string>> { Lists(run.placed) }

  function Lists(rs: seq<Resolution>): multiset<seq<string>> {
    if rs == [] then multiset{} else multiset{Mentioned(rs[0])} + Lists(rs[1..])
  }

  /** The order `p` in which every header gets a split. */
  predicate Resolves(split: Splitter, headers: seq<Part>, pool: seq<Part>, p: seq<nat>) {
    Greedy(split, PartsAt(headers, p), pool).failed == []
  }

  function PairingOf(split: Splitter, headers: seq<Part>, pool: seq<Part>, p: seq<nat>): multiset<seq<string>> {
    Pairing(Greedy(split, PartsAt(headers, p), pool))
  }

  /** What is reported for a pass that resolved every header. */
  function Report(run: Run): seq<Resolution> { run.placed + Leftovers(run.left) }

  ghost predicate IsOrder(p: seq<nat>, n: nat) { multiset(p) == multiset(UpTo(n)) }

  function AmbiguousAnswer(headers: seq<Part>, pool: seq<Part>): seq<Resolution> {
    [Stranded(NamesOf(headers) + NamesOf(pool), AmbiguousSplit)]
  }

  /** One pairing, found by some order and by every order that resolves all headers. */
  ghost predicate OnePairing(split: Splitter, headers: seq<Part>, pool: seq<Part>, rs: seq<Resolution>) {
    && (exists p :: IsOrder(p, |headers|) && ReportOf(split, headers, pool, p, rs))
    && AllAgree(split, headers, pool)
  }

  ghost predicate ReportOf(split: Splitter, headers: seq<Part>, pool: seq<Part>, p: seq<nat>, rs: seq<Resolution>) {
    Resolves(split, headers, pool, p) && rs == Report(Greedy(split, PartsAt(headers, p), pool))
  }

  ghost predicate AllAgree(split: Splitter, headers: seq<Part>, pool: seq<Part>) {
    forall p, q ::
      && IsOrder(p, |headers|) && Resolves(split, headers, pool, p)
      && IsOrder(q, |headers|) && Resolves(split, headers, pool, q)
      ==> PairingOf(split, headers, pool, p) == PairingOf(split, headers, pool, q)
  }

  ghost predicate NoneResolves(split: Splitter, headers: seq<Part>, pool: seq<Part>) {
    forall p :: IsOrder(p, |headers|) ==> !Resolves(split, headers, pool, p)
  }

  /** One fully resolving order, as kept: its pairing and its report. */
  datatype Solution = Solution(pairing: multiset<seq<string>>, results: seq<Resolution>)

  /** The solutions are the distinct pairings of the resolving orders among `orders`. */
  ghost predicate Collected(split: Splitter, headers: seq<Part>, pool: seq<Part>, orders: seq<seq<nat>>, solutions: seq<Solution>) {
    && (forall i :: 0 <= i < |solutions| ==>
          Yielded(split, headers, pool, orders, solutions[i]))
    && (forall a :: 0 <= a < |orders| && Resolves(split, headers, pool, orders[a]) ==>
          Recorded(solutions, PairingOf(split, headers, pool, orders[a])))
    && (forall i, j :: 0 <= i < j < |solutions| ==> solutions[i].pairing != solutions[j].pairing)
  }

  ghost predicate Yields(split: Splitter, headers: seq<Part>, pool: seq<Part>, p: seq<nat>, s: Solution) {
    ReportOf(split, headers, pool, p, s.results) && PairingOf(split, headers, pool, p) == s.pairing
  }

  ghost predicate Yielded(split: Splitter, headers: seq<Part>, pool: seq<Part>, orders: seq<seq<nat>>, s: Solution) {
    exists p :: p in orders && Yields(split, headers, pool, p, s)
  }

  ghost predicate Recorded(solutions: seq<Solution>, pairing: multiset<seq<string>>) {
    exists i :: 0 <= i < |solutions| && solutions[i].pairing == pairing
  }

  method AlreadyRecorded(solutions: seq<Solution>, pairing: multiset<seq<string>>) returns (seen: bool)
    ensures seen == Recorded(solutions, pairing)
  {
    seen := false;
    for i := 0 to |solutions|
      invariant forall j :: 0 <= j < i ==> solutions[j].pairing != pairing
    {
      if solutions[i].pairing == pairing {
        return true;
      }
    }
  }

  /** The inner loop: headers in the order `p`, given up at the first that gets nothing. */
  method TryOrder(split: Splitter, headers: seq<Part>, pool: seq<Part>, p: seq<nat>)
    returns (results: Option<seq<Resolution>>, pairing: multiset<seq<string>>)
    ensures results.Some? <==> Resolves(split, headers, pool, p)
    ensures results.Some? ==> ReportOf(split, headers, pool, p, results.value) && pairing == PairingOf(split, headers, pool, p)
  {
    hide SoundSplitter, Attempt, Greedy, Claimed, Unclaimed, NameBag, Uses, Lists;
    var ordered := PartsAt(headers, p);
    ghost var run := Greedy(split, ordered, pool);
    var left, claimedAll, placed: seq<Resolution> := pool, [], [];
    var i := 0;
    assert ordered[0..] == ordered;
    while i < |ordered|
      invariant 0 <= i <= |ordered|
      invariant var rest := Greedy(split, ordered[i..], left);
                run == Run(placed + rest.placed, rest.failed, claimedAll + rest.claimed, rest.left)
    {
      var resolved, claimed, unresolved := ResolveOneHeader(split, ordered[i], left);
      GreedyStep(split, ordered, left, i);
      if resolved.None? {
        return None, multiset{};
      }
      PlacedNames(split, ordered[i], left, resolved.value);
      AppendOne(placed, resolved.value, Greedy(split, ordered[i + 1..], Unclaimed(Uses(Mentioned(resolved.value)), left)).placed);
      left := RemoveClaimed(left, claimed);
      claimedAll := claimedAll + claimed;
      placed := placed + [resolved.value];
      i := i + 1;
    }
    GreedyNothing(split, ordered[i..], left);
    assert placed + [] == placed && claimedAll + [] == claimedAll;
    GreedyLeaves(split, ordered, pool);
    var leftovers := UnclaimedLeftovers(pool, claimedAll);
    results := Some(placed + leftovers);
    pairing := Lists(placed);
  }

  lemma AppendOne<T>(a: seq<T>, x: T, b: seq<T>)
    ensures a + ([x] + b) == (a + [x]) + b
  {
  }

  lemma GreedyNothing(split: Splitter, headers: seq<Part>, pool: seq<Part>)
    requires headers == []
    ensures Greedy(split, headers, pool) == Run([], [], [], pool)
  {
  }

  /** `try_all_header_orderings`. */
  method TryAllHeaderOrderings(split: Splitter, headers: seq<Part>, pool: seq<Part>) returns (answer: Option<seq<Resolution>>)
    ensures answer.None? <==> headers == [] || |headers| > MAX_PERMUTED_HEADERS || NoneResolves(split, headers, pool)
    ensures answer.Some? ==>
              if AllAgree(split, headers, pool) then OnePairing(split, headers, pool, answer.value)
              else answer.value == AmbiguousAnswer(headers, pool)
  {
    if headers == [] || |headers| > MAX_PERMUTED_HEADERS {
      return None;
    }
    hide Collected, NoneResolves, AllAgree, OnePairing;
    var orders := AllPermutations(|headers|);
    var solutions := CollectSolutions(split, headers, pool, orders);
    AllCollected(split, headers, pool, orders, solutions);
    if |solutions| == 0 {
      answer := None;
    } else if |solutions| == 1 {
      answer := Some(solutions[0].results);
    } else {
      answer := Some([Stranded(NamesOf(headers) + NamesOf(pool), AmbiguousSplit)]);
    }
  }

  /** The loop over the orders. */
  method CollectSolutions(split: Splitter, headers: seq<Part>, pool: seq<Part>, orders: seq<seq<nat>>) returns (solutions: seq<Solution>)
    ensures Collected(split, headers, pool, orders, solutions)
  {
    hide SoundSplitter, Resolves, ReportOf, PairingOf, Collected, Recorded;
    solutions := [];
    NothingCollected(split, headers, pool, orders);
    for k := 0 to |orders|
      invariant Collected(split, headers, pool, orders[..k], solutions)
    {
      var results, pairing := TryOrder(split, headers, pool, orders[k]);
      assert orders[..k + 1] == orders[..k] + [orders[k]];
      if results.None? {
        CollectLoser(split, headers, pool, orders[..k], solutions, orders[k]);
      } else {
        var seen := AlreadyRecorded(solutions, pairing);
        if seen {
          CollectSeen(split, headers, pool, orders[..k], solutions, orders[k]);
        } else {
          CollectNew(split, headers, pool, orders[..k], solutions, orders[k], Solution(pairing, results.value));
          solutions := solutions + [Solution(pairing, results.value)];
        }
      }
    }
    assert orders[..|orders|] == orders;
  }

  lemma NothingCollected(split: Splitter, headers: seq<Part>, pool: seq<Part>, orders: seq<seq<nat>>)
    ensures Collected(split, headers, pool, orders[..0], [])
  {
  }

  lemma CollectLoser(split: Splitter, headers: seq<Part>, pool: seq<Part>, orders: seq<seq<nat>>, solutions: seq<Solution>, p: seq<nat>)
    requires Collected(split, headers, pool, orders, solutions) && !Resolves(split, headers, pool, p)
    ensures Collected(split, headers, pool, orders + [p], solutions)
  {
    hide Resolves, PairingOf, Recorded, Yields, Yielded;
    StillYields(split, headers, pool, orders, solutions, p);
  }

  lemma StillYields(split: Splitter, headers: seq<Part>, pool: seq<Part>, orders: seq<seq<nat>>, solutions: seq<Solution>, p: seq<nat>)
    requires forall i :: 0 <= i < |solutions| ==> Yielded(split, headers, pool, orders, solutions[i])
    ensures forall i :: 0 <= i < |solutions| ==> Yielded(split, headers, pool, orders + [p], solutions[i])
  {
    hide Yields;
    forall i | 0 <= i < |solutions| ensures Yielded(split, headers, pool, orders + [p], solutions[i]) {
      assert Yielded(split, headers, pool, orders, solutions[i]);
      var q :| q in orders && Yields(split, headers, pool, q, solutions[i]);
      assert q in orders + [p];
    }
  }

  lemma CollectSeen(split: Splitter, headers: seq<Part>, pool: seq<Part>, orders: seq<seq<nat>>, solutions: seq<Solution>, p: seq<nat>)
    requires Collected(split, headers, pool, orders, solutions) && Recorded(solutions, PairingOf(split, headers, pool, p))
    ensures Collected(split, headers, pool, orders + [p], solutions)
  {
    hide Resolves, PairingOf, Recorded, Yields, Yielded;
    StillYields(split, headers, pool, orders, solutions, p);
  }

  lemma CollectNew(split: Splitter, headers: seq<Part>, pool: seq<Part>, orders: seq<seq<nat>>, solutions: seq<Solution>,
                   p: seq<nat>, s: Solution)
    requires Collected(split, headers, pool, orders, solutions)
    requires Yields(split, headers, pool, p, s) && !Recorded(solutions, s.pairing)
    ensures Collected(split, headers, pool, orders + [p], solutions + [s])
  {
    hide Resolves, PairingOf, ReportOf;
    StillYields(split, headers, pool, orders, solutions, p);
    hide Yields;
    var more := orders + [p];
    assert more[|orders|] == p;
    assert Yielded(split, headers, pool, more, s);
    forall a | 0 <= a < |more| && Resolves(split, headers, pool, more[a])
      ensures Recorded(solutions + [s], PairingOf(split, headers, pool, more[a]))
    {
      if a < |orders| {
        var i :| 0 <= i < |solutions| && solutions[i].pairing == PairingOf(split, headers, pool, orders[a]);
        assert (solutions + [s])[i] == solutions[i];
      } else {
        YieldsPairing(split, headers, pool, p, s);
        assert (solutions + [s])[|solutions|] == s;
      }
    }
  }

  lemma YieldsPairing(split: Splitter, headers: seq<Part>, pool: seq<Part>, p: seq<nat>, s: Solution)
    requires Yields(split, headers, pool, p, s)
    ensures PairingOf(split, headers, pool, p) == s.pairing && ReportOf(split, headers, pool, p, s.results)
    ensures Resolves(split, headers, pool, p)
  {
  }

  /** Zero, one or more solutions over all orders: none resolves, all agree, or two differ. */
  lemma AllCollected(split: Splitter, headers: seq<Part>, pool: seq<Part>, orders: seq<seq<nat>>, solutions: seq<Solution>)
    requires Collected(split, headers, pool, orders, solutions)
    requires forall p: seq<nat> :: p in orders <==> multiset(p) == multiset(UpTo(|headers|))
    ensures |solutions| == 0 <==> NoneResolves(split, headers, pool)
    ensures |solutions| == 1 ==> OnePairing(split, headers, pool, solutions[0].results)
    ensures |solutions| <= 1 <==> AllAgree(split, headers, pool)
  {
    hide Resolves, PairingOf, ReportOf, Yields;
    forall i | 0 <= i < |solutions|
      ensures exists p :: IsOrder(p, |headers|) && Yields(split, headers, pool, p, solutions[i])
    {
      var p :| p in orders && Yields(split, headers, pool, p, solutions[i]);
      assert IsOrder(p, |headers|);
    }
    if |solutions| == 0 {
      forall p | IsOrder(p, |headers|) ensures !Resolves(split, headers, pool, p) {
        assert p in orders;
        var a :| 0 <= a < |orders| && orders[a] == p;
        assert Resolves(split, headers, pool, orders[a]) ==> Recorded(solutions, PairingOf(split, headers, pool, orders[a]));
      }
    } else {
      var p :| IsOrder(p, |headers|) && Yields(split, headers, pool, p, solutions[0]);
      YieldsPairing(split, headers, pool, p, solutions[0]);
      if |solutions| == 1 {
        LoneSolution(split, headers, pool, orders, solutions);
      } else {
        var q :| IsOrder(q, |headers|) && Yields(split, headers, pool, q, solutions[1]);
        YieldsPairing(split, headers, pool, q, solutions[1]);
      }
    }
  }

  lemma LoneSolution(split: Splitter, headers: seq<Part>, pool: seq<Part>, orders: seq<seq<nat>>, solutions: seq<Solution>)
    requires Collected(split, headers, pool, orders, solutions) && |solutions| <= 1
    requires forall p: seq<nat> :: p in orders <==> multiset(p) == multiset(UpTo(|headers|))
    ensures AllAgree(split, headers, pool)
  {
    hide Resolves, PairingOf, Yields;
    forall p | IsOrder(p, |headers|) && Resolves(split, headers, pool, p)
      ensures |solutions| == 1 && PairingOf(split, headers, pool, p) == solutions[0].pairing
    {
      assert p in orders;
      var a :| 0 <= a < |orders| && orders[a] == p;
      assert Recorded(solutions, PairingOf(split, headers, pool, p));
    }
  }

  /** The report of an order that resolves everything loses no name. */
  lemma ReportConserves(split: Splitter, headers: seq<Part>, pool: seq<Part>, p: seq<nat>, rs: seq<Resolution>)
    requires IsOrder(p, |headers|) && ReportOf(split, headers, pool, p, rs)
    ensures AllNames(rs) == NameBag(headers) + NameBag(pool)
  {
    hide SoundSplitter, Greedy, AllNames, NameBag;
    var run := Greedy(split, PartsAt(headers, p), pool);
    GreedyConserves(split, PartsAt(headers, p), pool);
    LeftoverNames(run.left);
    AllNamesAppend(run.placed, Leftovers(run.left));
    OrderBag(headers, p);
  }

  lemma OrderBag(headers: seq<Part>, p: seq<nat>)
    requires IsOrder(p, |headers|)
    ensures NameBag(PartsAt(headers, p)) == NameBag(headers)
  {
    assert PartsAt(headers, UpTo(|headers|)) == headers;
    PartsReordered(headers, p, UpTo(|headers|));
  }

  /** Picking the same positions in another order gives the same names. */
  lemma {:induction false} PartsReordered(parts: seq<Part>, a: seq<nat>, b: seq<nat>)
    requires multiset(a) == multiset(b)
    ensures NameBag(PartsAt(parts, a)) == NameBag(PartsAt(parts, b))
    decreases |a|
  {
    if a == [] {
      assert |multiset(b)| == 0;
      assert PartsAt(parts, a) == PartsAt(parts, b);
    } else {
      assert a[0] in multiset(b);
      var i :| 0 <= i < |b| && b[i] == a[0];
      MultisetHead(a);
      MultisetRemove(b, i);
      var rest := b[..i] + b[i + 1..];
      PartsReordered(parts, a[1..], rest);
      PartsAtHead(parts, a);
      PartsAtRemove(parts, b, i);
      hide NameBag, PartsAt, RemoveAt;
      ClaimHead(PartsAt(parts, a)[0], PartsAt(parts, a[1..]));
      NameBagRemove(PartsAt(parts, b), i);
    }
  }

  lemma PartsAtHead(parts: seq<Part>, a: seq<nat>)
    requires a != []
    ensures PartsAt(parts, a) == [PartsAt(parts, a)[0]] + PartsAt(parts, a[1..])
  {
  }

  lemma PartsAtRemove(parts: seq<Part>, b: seq<nat>, i: nat)
    requires i < |b|
    ensures RemoveAt(PartsAt(parts, b), i) == PartsAt(parts, b[..i] + b[i + 1..])
    ensures forall a: seq<nat> :: a != [] && a[0] == b[i] ==> PartsAt(parts, a)[0] == PartsAt(parts, b)[i]
  {
  }

  // ------------------------------------------------------------- sorting by name

  /** Character by character; a proper prefix comes first. */
  predicate NameLess(a: string, b: string) {
    if b == [] then false
    else if a == [] then true
    else a[0] < b[0] || (a[0] == b[0] && NameLess(a[1..], b[1..]))
  }

  lemma {:induction false} NameLessTotal(a: string, b: string)
    ensures NameLess(a, b) || a == b || NameLess(b, a)
  {
    if a != [] && b != [] {
      NameLessTotal(a[1..], b[1..]);
      if a[0] == b[0] && a[1..] == b[1..] {
        assert a == [a[0]] + a[1..] && b == [b[0]] + b[1..];
      }
    }
  }

  lemma {:induction false} NameLessTransitive(a: string, b: string, c: string)
    requires NameLess(a, b) && NameLess(b, c)
    ensures NameLess(a, c)
  {
    if a != [] && a[0] == b[0] && b[0] == c[0] {
      NameLessTransitive(a[1..], b[1..], c[1..]);
    }
  }

  /** The positions of `headers` in name order, equal names in their original order. */
  ghost predicate StablyByName(headers: seq<Part>, order: seq<nat>) {
    && (forall i :: 0 <= i < |order| ==> order[i] < |headers|)
    && (forall i, j :: 0 <= i < j < |order| ==> Before(headers, order[i], order[j]))
  }

  ghost predicate Before(headers: seq<Part>, a: nat, b: nat)
    requires a < |headers| && b < |headers|
  {
    NameLess(headers[a].name, headers[b].name) || (headers[a].name == headers[b].name && a < b)
  }

  lemma BeforeTransitive(headers: seq<Part>, a: nat, b: nat, c: nat)
    requires a < |headers| && b < |headers| && c < |headers|
    requires Before(headers, a, b) && Before(headers, b, c)
    ensures Before(headers, a, c)
  {
    if NameLess(headers[a].name, headers[b].name) && NameLess(headers[b].name, headers[c].name) {
      NameLessTransitive(headers[a].name, headers[b].name, headers[c].name);
    }
  }

  /** `headers.sort_by(name)`, as an insertion sort that remembers where everything came from. */
  method SortByName(headers: seq<Part>) returns (sorted: seq<Part>, ghost order: seq<nat>)
    ensures IsOrder(order, |headers|) && StablyByName(headers, order) && sorted == PartsAt(headers, order)
    ensures |sorted| == |headers| && forall i, j :: 0 <= i < j < |sorted| ==> !NameLess(sorted[j].name, sorted[i].name)
  {
    hide Before, NameLess, PartsAt, StablyByName;
    NothingSorted(headers);
    sorted, order := [], [];
    for n := 0 to |headers|
      invariant sorted == PartsAt(headers, order) && StablyByName(headers, order)
      invariant multiset(order) == multiset(UpTo(n)) && forall i :: 0 <= i < |order| ==> order[i] < n
    {
      var at := PlaceOf(headers, order, sorted, n);
      InsertKeepsOrder(headers, order, n, at);
      MultisetInsert(order, at, n);
      assert UpTo(n + 1) == UpTo(n) + [n];
      PartsAtInsert(headers, order, at, n);
      sorted := sorted[..at] + [headers[n]] + sorted[at..];
      order := order[..at] + [n] + order[at..];
    }
    StableIsSorted(headers, order);
  }

  lemma NothingSorted(headers: seq<Part>)
    ensures PartsAt(headers, []) == [] && StablyByName(headers, [])
  {
  }

  lemma PartsAtInsert(headers: seq<Part>, order: seq<nat>, at: nat, n: nat)
    requires at <= |order| && n < |headers|
    ensures var sorted := PartsAt(headers, order);
            PartsAt(headers, order[..at] + [n] + order[at..]) == sorted[..at] + [headers[n]] + sorted[at..]
  {
  }

  lemma StableIsSorted(headers: seq<Part>, order: seq<nat>)
    requires IsOrder(order, |headers|) && StablyByName(headers, order)
    ensures |order| == |headers|
    ensures var sorted := PartsAt(headers, order);
            forall i, j :: 0 <= i < j < |sorted| ==> !NameLess(sorted[j].name, sorted[i].name)
  {
    assert |multiset(order)| == |multiset(UpTo(|headers|))|;
    hide Before, NameLess;
    var sorted := PartsAt(headers, order);
    forall i, j | 0 <= i < j < |sorted| ensures !NameLess(sorted[j].name, sorted[i].name) {
      BeforeOnlyOneWay(headers, order[i], order[j]);
    }
  }

  lemma {:induction false} NameLessOneWay(a: string, b: string)
    requires NameLess(a, b)
    ensures !NameLess(b, a) && a != b
  {
    if a != [] && a[0] == b[0] {
      NameLessOneWay(a[1..], b[1..]);
    }
  }

  lemma BeforeOnlyOneWay(headers: seq<Part>, a: nat, b: nat)
    requires a < |headers| && b < |headers| && Before(headers, a, b)
    ensures !NameLess(headers[b].name, headers[a].name)
  {
    if NameLess(headers[b].name, headers[a].name) {
      NameLessOneWay(headers[b].name, headers[a].name);
    }
  }

  /** The place of header `n`: before the first sorted one whose name is greater. */
  method PlaceOf(headers: seq<Part>, ghost order: seq<nat>, sorted: seq<Part>, n: nat) returns (at: nat)
    requires sorted == PartsAt(headers, order) && n < |headers| && forall i :: 0 <= i < |order| ==> order[i] < n
    ensures at <= |order| && forall j :: 0 <= j < at ==> Before(headers, order[j], n)
    ensures at < |order| ==> NameLess(headers[n].name, headers[order[at]].name)
  {
    hide Before, NameLess;
    at := 0;
    while at < |sorted| && !NameLess(headers[n].name, sorted[at].name)
      invariant 0 <= at <= |sorted|
      invariant forall j :: 0 <= j < at ==> Before(headers, order[j], n)
    {
      NotLessIsBefore(headers, order[at], n);
      at := at + 1;
    }
  }

  lemma NotLessIsBefore(headers: seq<Part>, a: nat, n: nat)
    requires a < n < |headers| && !NameLess(headers[n].name, headers[a].name)
    ensures Before(headers, a, n)
  {
    NameLessTotal(headers[a].name, headers[n].name);
  }

  lemma InsertKeepsOrder(headers: seq<Part>, order: seq<nat>, n: nat, at: nat)
    requires StablyByName(headers, order) && n < |headers| && at <= |order|
    requires forall j :: 0 <= j < at ==> Before(headers, order[j], n)
    requires at < |order| ==> NameLess(headers[n].name, headers[order[at]].name)
    ensures StablyByName(headers, order[..at] + [n] + order[at..])
  {
    forall j | at <= j < |order| ensures Before(headers, n, order[j]) {
      assert Before(headers, n, order[at]);
      if at < j {
        BeforeTransitive(headers, n, order[at], order[j]);
      }
    }
    hide Before, NameLess;
    var r := order[..at] + [n] + order[at..];
    assert forall i :: 0 <= i < |r| ==> r[i] == if i < at then order[i] else if i == at then n else order[i - 1];
    forall i, j | 0 <= i < j < |r| ensures Before(headers, r[i], r[j]) {
      if i != at && j != at {
        assert Before(headers, order[if i < at then i else i - 1], order[if j < at then j else j - 1]);
      }
    }
  }

  // ---------------------------------------------------------------- the bucket

  /** The report of the greedy fallback: leftovers one by one, or one residue with every header that failed. */
  function FallbackReport(run: Run): seq<Resolution> {
    if run.failed == [] then run.placed + Leftovers(run.left)
    else run.placed + [Stranded(run.failed + NamesOf(run.left), Generic)]
  }

  lemma FallbackConserves(split: Splitter, headers: seq<Part>, pool: seq<Part>, order: seq<nat>)
    requires IsOrder(order, |headers|)
    ensures AllNames(FallbackReport(Greedy(split, PartsAt(headers, order), pool))) == NameBag(headers) + NameBag(pool)
  {
    hide SoundSplitter, Greedy, NameBag;
    var run := Greedy(split, PartsAt(headers, order), pool);
    GreedyConserves(split, PartsAt(headers, order), pool);
    OrderBag(headers, order);
    LeftoverNames(run.left);
    AllNamesAppend(run.placed, Leftovers(run.left));
    if run.failed != [] {
      var residue := Stranded(run.failed + NamesOf(run.left), Generic);
      AllNamesAppend(run.placed, [residue]);
      StrandedNames(run.failed, run.left, Generic);
      FailedBag(AllNames(run.placed), multiset(run.failed), NameBag(run.left));
    }
  }

  lemma StrandedNames(names: seq<string>, parts: seq<Part>, kind: UnresolvedKind)
    ensures AllNames([Stranded(names + NamesOf(parts), kind)]) == multiset(names) + NameBag(parts)
  {
    NameBagIsNames(parts);
    PlacedStep(Stranded(names + NamesOf(parts), kind), []);
  }

  lemma FailedBag<T>(a: multiset<T>, b: multiset<T>, c: multiset<T>)
    ensures a + (b + c) == a + b + c
  {
  }

  /** What the bucket of `headers` and `pool` reports. */
  ghost predicate BucketReport(split: Splitter, headers: seq<Part>, pool: seq<Part>, rs: seq<Resolution>) {
    if headers == [] then rs == if pool == [] then [] else [Stranded(NamesOf(pool), Generic)]
    else if |headers| == 1 then OneHeaderReport(split, headers[0], pool, rs)
    else if |headers| > MAX_PERMUTED_HEADERS || NoneResolves(split, headers, pool) then FellBack(split, headers, pool, rs)
    else if AllAgree(split, headers, pool) then OnePairing(split, headers, pool, rs)
    else rs == AmbiguousAnswer(headers, pool)
  }

  ghost predicate OneHeaderReport(split: Splitter, header: Part, pool: seq<Part>, rs: seq<Resolution>) {
    match Attempt(split, header, pool)
    case Some(r) => rs == [r] + Leftovers(Unclaimed(Uses(Mentioned(r)), pool))
    case None =>
      rs == [Stranded([header.name] + NamesOf(pool), if pool != [] && split(header, pool).Ambiguous? then AmbiguousSplit else Generic)]
  }

  ghost predicate FellBack(split: Splitter, headers: seq<Part>, pool: seq<Part>, rs: seq<Resolution>) {
    exists order :: IsOrder(order, |headers|) && StablyByName(headers, order)
                    && rs == FallbackReport(Greedy(split, PartsAt(headers, order), pool))
  }

  /** `resolve_raw_split_bucket`. */
  method ResolveRawSplitBucket(split: Splitter, headers: seq<Part>, pool: seq<Part>) returns (rs: seq<Resolution>)
    ensures BucketReport(split, headers, pool, rs)
    ensures AllNames(rs) == NameBag(headers) + NameBag(pool)
  {
    if headers == [] {
      rs := if pool == [] then [] else [Stranded(NamesOf(pool), Generic)];
      NoHeaderConserves(pool);
    } else if |headers| == 1 {
      rs := ReportOneHeader(split, headers[0], pool);
      NameBagOne(headers);
    } else {
      rs := ReportManyHeaders(split, headers, pool);
    }
  }

  lemma NameBagOne(headers: seq<Part>)
    requires |headers| == 1
    ensures NameBag(headers) == multiset{headers[0].name}
  {
  }

  lemma NoHeaderConserves(pool: seq<Part>)
    ensures pool != [] ==> AllNames([Stranded(NamesOf(pool), Generic)]) == NameBag(pool)
  {
    StrandedNames([], pool, Generic);
    assert [] + NamesOf(pool) == NamesOf(pool);
  }

  method ReportOneHeader(split: Splitter, header: Part, pool: seq<Part>) returns (rs: seq<Resolution>)
    ensures OneHeaderReport(split, header, pool, rs)
    ensures AllNames(rs) == multiset{header.name} + NameBag(pool)
  {
    hide SoundSplitter, Attempt, NameBag, AllNames, Claimed, Unclaimed, Uses;
    var resolved, claimed, unresolved := ResolveOneHeader(split, header, pool);
    if resolved.Some? {
      PlacedNames(split, header, pool, resolved.value);
      var leftovers := UnclaimedLeftovers(pool, claimed);
      rs := [resolved.value] + leftovers;
      PlacedStep(resolved.value, leftovers);
      LeftoverNames(Unclaimed(Uses(Mentioned(resolved.value)), pool));
    } else {
      rs := [unresolved.value];
      StrandedNames([header.name], pool, unresolved.value.kind);
    }
  }

  method ReportManyHeaders(split: Splitter, headers: seq<Part>, pool: seq<Part>) returns (rs: seq<Resolution>)
    requires |headers| >= 2
    ensures BucketReport(split, headers, pool, rs)
    ensures AllNames(rs) == NameBag(headers) + NameBag(pool)
  {
    hide SoundSplitter, AllAgree, NoneResolves, FellBack, AllNames, NameBag, ReportOf, IsOrder;
    var answer := TryAllHeaderOrderings(split, headers, pool);
    if answer.Some? {
      rs := answer.value;
      if AllAgree(split, headers, pool) {
        var p :| IsOrder(p, |headers|) && ReportOf(split, headers, pool, p, rs);
        ReportConserves(split, headers, pool, p, rs);
      } else {
        StrandedNames(NamesOf(headers), pool, AmbiguousSplit);
        NameBagIsNames(headers);
      }
      return;
    }
    rs := FallBack(split, headers, pool);
  }

  /** The greedy pass in name order. */
  method FallBack(split: Splitter, headers: seq<Part>, pool: seq<Part>) returns (rs: seq<Resolution>)
    ensures FellBack(split, headers, pool, rs)
    ensures AllNames(rs) == NameBag(headers) + NameBag(pool)
  {
    hide SoundSplitter, Attempt, Greedy, NameBag, AllNames, Claimed, Unclaimed, Uses, IsOrder, StablyByName;
    var sorted;
    ghost var order;
    sorted, order := SortByName(headers);
    ghost var run := Greedy(split, sorted, pool);
    var left, placed: seq<Resolution>, failed: seq<string> := pool, [], [];
    ghost var claimedAll: seq<Part> := [];
    var i := 0;
    assert sorted[0..] == sorted;
    while i < |sorted|
      invariant 0 <= i <= |sorted|
      invariant var rest := Greedy(split, sorted[i..], left);
                run == Run(placed + rest.placed, failed + rest.failed, claimedAll + rest.claimed, rest.left)
    {
      var resolved, claimed, unresolved := ResolveOneHeader(split, sorted[i], left);
      GreedyStep(split, sorted, left, i);
      if resolved.Some? {
        PlacedNames(split, sorted[i], left, resolved.value);
        ghost var rest := Greedy(split, sorted[i + 1..], Unclaimed(Uses(Mentioned(resolved.value)), left));
        AppendOne(placed, resolved.value, rest.placed);
        placed := placed + [resolved.value];
        left := RemoveClaimed(left, claimed);
        claimedAll := claimedAll + claimed;
      } else {
        AppendOne(failed, sorted[i].name, Greedy(split, sorted[i + 1..], left).failed);
        failed := failed + [unresolved.value.names[0]];
      }
      i := i + 1;
    }
    GreedyNothing(split, sorted[i..], left);
    assert placed + [] == placed && failed + [] == failed;
    FallbackConserves(split, headers, pool, order);
    if failed == [] {
      rs := placed + Leftovers(left);
    } else {
      rs := placed + [Stranded(failed + NamesOf(left), Generic)];
    }
  }

  /** The report ends in one residue that names a header no split was found for. */
  predicate EndsStranded(headers: seq<Part>, rs: seq<Resolution>) {
    && rs != []
    && var last := rs[|rs| - 1];
       last.Stranded? && last.kind == Generic && last.names != [] && last.names[0] in NamesOf(headers)
  }

  /**
   Up to six headers, every order has been tried before the greedy pass runs, and the pass is
   one of them: whenever the bucket falls back, its report strands a header.
   */
  lemma FallbackStrands(split: Splitter, headers: seq<Part>, pool: seq<Part>, rs: seq<Resolution>)
    requires 2 <= |headers| <= MAX_PERMUTED_HEADERS
    requires BucketReport(split, headers, pool, rs) && NoneResolves(split, headers, pool)
    ensures EndsStranded(headers, rs)
  {
    hide Greedy, PartsAt, NamesOf, SoundSplitter, IsOrder, StablyByName;
    var order :| IsOrder(order, |headers|) && StablyByName(headers, order)
                 && rs == FallbackReport(Greedy(split, PartsAt(headers, order), pool));
    assert !Resolves(split, headers, pool, order);
    var run := Greedy(split, PartsAt(headers, order), pool);
    FailedAreHeaders(split, PartsAt(headers, order), pool);
    NamesOfSome(headers, order);
    assert rs == run.placed + [Stranded(run.failed + NamesOf(run.left), Generic)];
    assert run.failed[0] in run.failed;
  }

  lemma {:induction false} FailedAreHeaders(split: Splitter, headers: seq<Part>, pool: seq<Part>)
    ensures forall n :: n in Greedy(split, headers, pool).failed ==> n in NamesOf(headers)
    decreases |headers|
  {
    if headers != [] {
      assert NamesOf(headers) == [headers[0].name] + NamesOf(headers[1..]);
      hide NamesOf, SoundSplitter, Attempt, Unclaimed, Claimed;
      match Attempt(split, headers[0], pool) {
        case Some(r) => FailedAreHeaders(split, headers[1..], Unclaimed(Uses(Mentioned(r)), pool));
        case None => FailedAreHeaders(split, headers[1..], pool);
      }
    }
  }

  lemma NamesOfSome(headers: seq<Part>, order: seq<nat>)
    requires StablyByName(headers, order)
    ensures forall n :: n in NamesOf(PartsAt(headers, order)) ==> n in NamesOf(headers)
  {
    hide Before;
    forall k | 0 <= k < |order| ensures NamesOf(PartsAt(headers, order))[k] in NamesOf(headers) {
      assert NamesOf(headers)[order[k]] == headers[order[k]].name;
    }
  }

  /** A search that pairs every header with the first part of its pool. */
  function TakeFirst(header: Part, pool: seq<Part>): Outcome {
    if pool == [] then Unresolved else Resolved([header.name, pool[0].name], None)
  }

  lemma TakeFirstIsSound()
    ensures SoundSplitter(TakeFirst)
  {
  }

  function FirstTaker(): Splitter {
    TakeFirstIsSound();
    TakeFirst
  }

  /**
   Beyond six headers no order has been tried, and the greedy pass may place them all:
   seven headers, say, and seven continuations, paired off one by one.
   */
  lemma FallbackMayResolve(headers: seq<Part>, pool: seq<Part>, rs: seq<Resolution>)
    requires MAX_PERMUTED_HEADERS < |headers| == |pool| && BucketReport(FirstTaker(), headers, pool, rs)
    ensures |rs| == |headers| && (forall r :: r in rs ==> r.Split?) && !EndsStranded(headers, rs)
  {
    hide Greedy, PartsAt, NamesOf, SoundSplitter, StablyByName, FirstTaker, IsOrder, OneHeaderReport, OnePairing, NoneResolves;
    var order :| IsOrder(order, |headers|) && StablyByName(headers, order)
                 && rs == FallbackReport(Greedy(FirstTaker(), PartsAt(headers, order), pool));
    OrderLength(order, |headers|);
    FirstTakerPlaces(PartsAt(headers, order), pool);
    assert rs[|rs| - 1] in rs;
  }

  lemma OrderLength(order: seq<nat>, n: nat)
    requires IsOrder(order, n)
    ensures |order| == n
  {
    assert |multiset(order)| == |multiset(UpTo(n))|;
  }

  lemma {:induction false} FirstTakerPlaces(headers: seq<Part>, pool: seq<Part>)
    requires |headers| <= |pool|
    ensures var run := Greedy(FirstTaker(), headers, pool);
            && run.failed == [] && |run.left| == |pool| - |headers| && |run.placed| == |headers|
            && forall r :: r in run.placed ==> r.Split?
    decreases |headers|
  {
    if headers != [] {
      assert Attempt(FirstTaker(), headers[0], pool) == Some(Split([headers[0].name, pool[0].name], None));
      assert Uses([headers[0].name, pool[0].name]) == multiset{pool[0].name};
      assert multiset{pool[0].name} - multiset{pool[0].name} == multiset{};
      NothingUnclaimed(pool[1..]);
      FirstTakerPlaces(headers[1..], pool[1..]);
    }
  }

  // ------------------------------------------------- the report, answer by answer

  /** No header: fragments that nothing leads are one residue. */
  lemma NoHeaderMeaning(split: Splitter, pool: seq<Part>, rs: seq<Resolution>)
    requires BucketReport(split, [], pool, rs)
    ensures rs == if pool == [] then [] else [Stranded(NamesOf(pool), Generic)]
  {
  }

  /** One header: a resolved split is reported first and as it is, anything else strands the header with the pool. */
  lemma OneHeaderMeaning(split: Splitter, header: Part, pool: seq<Part>, rs: seq<Resolution>)
    requires BucketReport(split, [header], pool, rs)
    ensures pool == [] ==> rs == [Stranded([header.name], Generic)]
    ensures pool != [] ==>
              match split(header, pool)
              case Resolved(names, handle) =>
                && rs != [] && rs[0] == Split(names, handle)
                && forall i :: 1 <= i < |rs| ==> exists p :: p in pool && rs[i] == Stranded([p.name], Generic)
              case Ambiguous(_) => rs == [Stranded([header.name] + NamesOf(pool), AmbiguousSplit)]
              case Unresolved => rs == [Stranded([header.name] + NamesOf(pool), Generic)]
  {
    hide SoundSplitter, Leftovers, Uses;
    if pool == [] {
      assert [header.name] + NamesOf(pool) == [header.name];
    } else if split(header, pool).Resolved? {
      hide NamesOf;
      var lone := Leftovers(Unclaimed(Uses(split(header, pool).names), pool));
      forall i | 1 <= i < |rs| ensures exists p :: p in pool && rs[i] == Stranded([p.name], Generic) {
        assert rs[i] == lone[i - 1];
        LeftoverOfPool(Uses(split(header, pool).names), pool, lone, i - 1);
      }
    }
  }

  /** A leftover is a part of the pool. */
  lemma LeftoverOfPool(uses: multiset<string>, pool: seq<Part>, lone: seq<Resolution>, i: nat)
    requires lone == Leftovers(Unclaimed(uses, pool)) && i < |lone|
    ensures exists p :: p in pool && lone[i] == Stranded([p.name], Generic)
  {
    ClaimSplitsPool(uses, pool);
    hide Unclaimed, Claimed;
    var left := Unclaimed(uses, pool);
    assert left[i] in multiset(left);
    assert left[i] in multiset(pool);
  }

  /** The pool when the turn comes to header `i`: every header before it that got a split has taken its parts out. */
  function PoolAt(split: Splitter, headers: seq<Part>, pool: seq<Part>, i: nat): seq<Part>
    requires i <= |headers|
  {
    if i == 0 then pool
    else
      var before := PoolAt(split, headers, pool, i - 1);
      if GetsSplit(split, headers[i - 1], before) then Unclaimed(Uses(split(headers[i - 1], before).names), before) else before
  }

  predicate GetsSplit(split: Splitter, header: Part, pool: seq<Part>) { pool != [] && split(header, pool).Resolved? }

  /** The splits of the first `n` headers, in turn. */
  function Got(split: Splitter, headers: seq<Part>, pool: seq<Part>, n: nat): seq<Resolution>
    requires n <= |headers|
  {
    if n == 0 then []
    else
      var left := PoolAt(split, headers, pool, n - 1);
      var answer := split(headers[n - 1], left);
      Got(split, headers, pool, n - 1)
      + (if GetsSplit(split, headers[n - 1], left) then [Split(answer.names, answer.handle)] else [])
  }

  /** Those of the first `n` headers that got none. */
  function Missed(split: Splitter, headers: seq<Part>, pool: seq<Part>, n: nat): seq<string>
    requires n <= |headers|
  {
    if n == 0 then []
    else
      Missed(split, headers, pool, n - 1)
      + (if GetsSplit(split, headers[n - 1], PoolAt(split, headers, pool, n - 1)) then [] else [headers[n - 1].name])
  }

  /** A pass over several headers: each gets the split the search answers for the pool left at its turn, or is missed. */
  lemma PassMeaning(split: Splitter, headers: seq<Part>, pool: seq<Part>)
    ensures var run := Greedy(split, headers, pool);
            && run.placed == Got(split, headers, pool, |headers|) && run.failed == Missed(split, headers, pool, |headers|)
            && run.left == PoolAt(split, headers, pool, |headers|)
  {
    PassTo(split, headers, pool, |headers|);
    hide SoundSplitter, Got, Missed, PoolAt;
    GreedyNothing(split, headers[|headers|..], PoolAt(split, headers, pool, |headers|));
  }

  lemma {:induction false} PassTo(split: Splitter, headers: seq<Part>, pool: seq<Part>, n: nat)
    requires n <= |headers|
    ensures var run := Greedy(split, headers, pool);
            var rest := Greedy(split, headers[n..], PoolAt(split, headers, pool, n));
            && run.placed == Got(split, headers, pool, n) + rest.placed && run.failed == Missed(split, headers, pool, n) + rest.failed
            && run.left == rest.left
  {
    hide *;
    if n == 0 {
      NothingGot(split, headers, pool);
      assert headers[0..] == headers;
    } else {
      PassTo(split, headers, pool, n - 1);
      PassTurn(split, headers, pool, n);
    }
  }

  lemma NothingGot(split: Splitter, headers: seq<Part>, pool: seq<Part>)
    ensures Got(split, headers, pool, 0) == [] && Missed(split, headers, pool, 0) == [] && PoolAt(split, headers, pool, 0) == pool
  {
  }

  /** What the passes from `n - 1` and from `n` on add to what was there is the same. */
  lemma PassTurn(split: Splitter, headers: seq<Part>, pool: seq<Part>, n: nat)
    requires 0 < n <= |headers|
    ensures var before := Greedy(split, headers[n - 1..], PoolAt(split, headers, pool, n - 1));
            var rest := Greedy(split, headers[n..], PoolAt(split, headers, pool, n));
            && Got(split, headers, pool, n - 1) + before.placed == Got(split, headers, pool, n) + rest.placed
            && Missed(split, headers, pool, n - 1) + before.failed == Missed(split, headers, pool, n) + rest.failed
            && before.left == rest.left
  {
    var left := PoolAt(split, headers, pool, n - 1);
    GreedyStep(split, headers, left, n - 1);
    TurnAnswered(split, headers, pool, n);
    var rest := Greedy(split, headers[n..], PoolAt(split, headers, pool, n));
    var r := Attempt(split, headers[n - 1], left);
    hide *;
    match r {
      case Some(placed) => AppendOne(Got(split, headers, pool, n - 1), placed, rest.placed);
      case None => AppendOne(Missed(split, headers, pool, n - 1), headers[n - 1].name, rest.failed);
    }
  }

  /** One turn, as a pass takes it and as it is counted here. */
  lemma TurnAnswered(split: Splitter, headers: seq<Part>, pool: seq<Part>, n: nat)
    requires 0 < n <= |headers|
    ensures var left := PoolAt(split, headers, pool, n - 1);
            match Attempt(split, headers[n - 1], left)
            case Some(r) =>
              && Got(split, headers, pool, n) == Got(split, headers, pool, n - 1) + [r]
              && Missed(split, headers, pool, n) == Missed(split, headers, pool, n - 1)
              && PoolAt(split, headers, pool, n) == Unclaimed(Uses(Mentioned(r)), left)
            case None =>
              && Got(split, headers, pool, n) == Got(split, headers, pool, n - 1)
              && Missed(split, headers, pool, n) == Missed(split, headers, pool, n - 1) + [headers[n - 1].name]
              && PoolAt(split, headers, pool, n) == left
  {
    hide SoundSplitter, Unclaimed, Uses;
  }

  /** In the order `p` every header gets a split. */
  ghost predicate AllGet(split: Splitter, headers: seq<Part>, pool: seq<Part>, p: seq<nat>) {
    IsOrder(p, |headers|) && Missed(split, PartsAt(headers, p), pool, |p|) == []
  }

  function GotBy(split: Splitter, headers: seq<Part>, pool: seq<Part>, p: seq<nat>): seq<Resolution> {
    Got(split, PartsAt(headers, p), pool, |PartsAt(headers, p)|)
  }

  function LeftBy(split: Splitter, headers: seq<Part>, pool: seq<Part>, p: seq<nat>): seq<Part> {
    PoolAt(split, PartsAt(headers, p), pool, |PartsAt(headers, p)|)
  }

  /** The two list the same parts together, split by split, in some order. */
  ghost predicate SamePairing(a: seq<Resolution>, b: seq<Resolution>) {
    multiset(seq(|a|, i requires 0 <= i < |a| => Mentioned(a[i]))) == multiset(seq(|b|, i requires 0 <= i < |b| => Mentioned(b[i])))
  }

  lemma {:induction false} ListsMentioned(rs: seq<Resolution>)
    ensures Lists(rs) == multiset(seq(|rs|, i requires 0 <= i < |rs| => Mentioned(rs[i])))
  {
    if rs != [] {
      ListsMentioned(rs[1..]);
      var head, rest := Mentioned(rs[0]), seq(|rs[1..]|, i requires 0 <= i < |rs[1..]| => Mentioned(rs[1..][i]));
      assert seq(|rs|, i requires 0 <= i < |rs| => Mentioned(rs[i])) == [head] + rest;
      MultisetHead([head] + rest);
    }
  }

  /** How a pass over the headers in the order `p` went, in these terms. */
  lemma OrderMeaning(split: Splitter, headers: seq<Part>, pool: seq<Part>, p: seq<nat>)
    requires IsOrder(p, |headers|)
    ensures Resolves(split, headers, pool, p) <==> AllGet(split, headers, pool, p)
    ensures var run := Greedy(split, PartsAt(headers, p), pool);
            && run.placed == GotBy(split, headers, pool, p) && run.left == LeftBy(split, headers, pool, p)
            && PairingOf(split, headers, pool, p) == Lists(run.placed)
  {
    PassMeaning(split, PartsAt(headers, p), pool);
    hide SoundSplitter, Greedy, PartsAt, IsOrder, Got, Missed, Lists, PoolAt;
  }

  /** Two orders that serve every header and pair them differently: everything is reported once, as ambiguous. */
  lemma DisagreementReported(split: Splitter, headers: seq<Part>, pool: seq<Part>, rs: seq<Resolution>, p: seq<nat>, q: seq<nat>)
    requires 2 <= |headers| <= 6 && BucketReport(split, headers, pool, rs)
    requires AllGet(split, headers, pool, p) && AllGet(split, headers, pool, q)
    requires !SamePairing(GotBy(split, headers, pool, p), GotBy(split, headers, pool, q))
    ensures rs == [Stranded(NamesOf(headers) + NamesOf(pool), AmbiguousSplit)]
  {
    hide SoundSplitter, Greedy, PartsAt, NamesOf, IsOrder, Missed, Lists, GotBy, SamePairing, PairingOf, Resolves, OnePairing, FellBack,
         OneHeaderReport;
    OrdersAgree(split, headers, pool, p, q);
    assert PairingOf(split, headers, pool, p) != PairingOf(split, headers, pool, q);
  }

  /** Some order serves every header and all that do agree: the report of one of them, and the parts it left one by one. */
  lemma AgreementReported(split: Splitter, headers: seq<Part>, pool: seq<Part>, rs: seq<Resolution>, p: seq<nat>)
    requires 2 <= |headers| <= 6 && BucketReport(split, headers, pool, rs) && AllGet(split, headers, pool, p)
    requires forall a, b :: AllGet(split, headers, pool, a) && AllGet(split, headers, pool, b)
                            ==> SamePairing(GotBy(split, headers, pool, a), GotBy(split, headers, pool, b))
    ensures exists q :: AllGet(split, headers, pool, q)
                        && rs == GotBy(split, headers, pool, q) + Leftovers(LeftBy(split, headers, pool, q))
  {
    hide SoundSplitter, Greedy, PartsAt, NamesOf, IsOrder, Missed, Lists, GotBy, LeftBy, SamePairing, FellBack, OneHeaderReport, Leftovers;
    OrderMeaning(split, headers, pool, p);
    forall a, b | IsOrder(a, |headers|) && Resolves(split, headers, pool, a) && IsOrder(b, |headers|) && Resolves(split, headers, pool, b)
      ensures PairingOf(split, headers, pool, a) == PairingOf(split, headers, pool, b)
    {
      OrdersAgree(split, headers, pool, a, b);
    }
    assert AllAgree(split, headers, pool);
    var q :| IsOrder(q, |headers|) && ReportOf(split, headers, pool, q, rs);
    OrderMeaning(split, headers, pool, q);
  }

  lemma OrdersAgree(split: Splitter, headers: seq<Part>, pool: seq<Part>, a: seq<nat>, b: seq<nat>)
    requires IsOrder(a, |headers|) && IsOrder(b, |headers|)
    ensures Resolves(split, headers, pool, a) <==> AllGet(split, headers, pool, a)
    ensures Resolves(split, headers, pool, b) <==> AllGet(split, headers, pool, b)
    ensures SamePairing(GotBy(split, headers, pool, a), GotBy(split, headers, pool, b))
            <==> PairingOf(split, headers, pool, a) == PairingOf(split, headers, pool, b)
  {
    hide SoundSplitter, Greedy, PartsAt, IsOrder, Missed, Lists, GotBy, PairingOf;
    OrderMeaning(split, headers, pool, a);
    OrderMeaning(split, headers, pool, b);
    ListsMentioned(GotBy(split, headers, pool, a));
    ListsMentioned(GotBy(split, headers, pool, b));
  }

  /** No order serves every header, or there are too many to try: the pass in name order, with what it missed and left as one residue. */
  lemma FallbackReported(split: Splitter, headers: seq<Part>, pool: seq<Part>, rs: seq<Resolution>)
    requires 2 <= |headers| && BucketReport(split, headers, pool, rs)
    requires |headers| <= 6 ==> forall p :: !AllGet(split, headers, pool, p)
    ensures exists p ::
              && IsOrder(p, |headers|) && StablyByName(headers, p)
              && var missed := Missed(split, PartsAt(headers, p), pool, |PartsAt(headers, p)|);
                 var left := LeftBy(split, headers, pool, p);
                 rs == GotBy(split, headers, pool, p)
                       + if missed == [] then Leftovers(left) else [Stranded(missed + NamesOf(left), Generic)]
  {
    if |headers| <= 6 {
      forall p | IsOrder(p, |headers|) ensures !Resolves(split, headers, pool, p) {
        OrderMeaning(split, headers, pool, p);
      }
      assert NoneResolves(split, headers, pool);
    }
    hide SoundSplitter, Greedy, PartsAt, NamesOf, IsOrder, Missed, LeftBy, GotBy, OnePairing, OneHeaderReport, Leftovers, StablyByName,
         NoneResolves, AllGet;
    var p :| IsOrder(p, |headers|) && StablyByName(headers, p)
             && rs == FallbackReport(Greedy(split, PartsAt(headers, p), pool));
    PassMeaning(split, PartsAt(headers, p), pool);
    OrderMeaning(split, headers, pool, p);
  }

  // ------------------------------------------------- what a placed split stands for

  /** A split search that answers as `find_raw_split` does. */
  ghost predicate Answering(oracle: Oracle, buildHandle: bool, split: (Part, seq<Part>) -> Outcome) {
    forall header, pool :: exists s :: Answers(oracle, header, pool, buildHandle, split(header, pool), s)
  }

  /** It may serve the bucket. */
  lemma AnsweringIsSound(oracle: Oracle, buildHandle: bool, split: (Part, seq<Part>) -> Outcome)
    requires Answering(oracle, buildHandle, split)
    ensures SoundSplitter(split)
  {
    hide Answers, SoundOutcome;
    forall header, pool ensures SoundOutcome(header, pool, split(header, pool)) {
      var s :| Answers(oracle, header, pool, buildHandle, split(header, pool), s);
      SearchIsSound(oracle, header, pool, buildHandle, split(header, pool), s);
    }
  }

  /**
   The split is an ordering of parts of `left` that verifies behind the header and is of the
   exact size if any ordering of that size verifies; its handle, if any, reopens these parts.
   */
  ghost predicate Stands(oracle: Oracle, header: Part, left: seq<Part>, r: Resolution) {
    && r.Split? && oracle.requiredTotal(header).Some?
    && exists w ::
         && StandsFor(oracle, header, left, Needed(oracle.requiredTotal(header).value, header), w, r.parts)
         && (r.handle.Some? ==> r.handle.value == Candidate(header, left, w))
  }

  /** It stands for one of the headers and the part of the pool left when that header's turn came. */
  ghost predicate StandsForOne(oracle: Oracle, headers: seq<Part>, pool: seq<Part>, r: Resolution) {
    exists header, left :: header in headers && multiset(left) <= multiset(pool) && Stands(oracle, header, left, r)
  }

  lemma AttemptStands(oracle: Oracle, buildHandle: bool, split: Splitter, header: Part, pool: seq<Part>, r: Resolution)
    requires Answering(oracle, buildHandle, split) && Attempt(split, header, pool) == Some(r)
    ensures Stands(oracle, header, pool, r)
  {
    hide Answers, StandsFor, SoundSplitter, Candidate, Needed;
    var s :| Answers(oracle, header, pool, buildHandle, split(header, pool), s);
    AnswersJustify(oracle, header, pool, buildHandle, split(header, pool), s);
  }

  /** Every split a pass places stands for one of its headers. */
  lemma {:induction false} PlacedStand(oracle: Oracle, buildHandle: bool, split: Splitter, headers: seq<Part>, pool: seq<Part>)
    requires Answering(oracle, buildHandle, split)
    ensures forall r :: r in Greedy(split, headers, pool).placed ==> StandsForOne(oracle, headers, pool, r)
    decreases |headers|
  {
    if headers != [] {
      GreedyStep(split, headers, pool, 0);
      assert headers[0..] == headers && headers[0] in headers;
      hide Greedy, Attempt, SoundSplitter, Answering, Stands, Claimed, Unclaimed;
      match Attempt(split, headers[0], pool) {
        case Some(first) =>
          var left := Unclaimed(Uses(Mentioned(first)), pool);
          AttemptStands(oracle, buildHandle, split, headers[0], pool, first);
          PlacedStand(oracle, buildHandle, split, headers[1..], left);
          ClaimSplitsPool(Uses(Mentioned(first)), pool);
          forall r | r in Greedy(split, headers[1..], left).placed ensures StandsForOne(oracle, headers, pool, r) {
            StandsLater(oracle, headers, pool, left, r);
          }
        case None =>
          PlacedStand(oracle, buildHandle, split, headers[1..], pool);
          forall r | r in Greedy(split, headers[1..], pool).placed ensures StandsForOne(oracle, headers, pool, r) {
            StandsLater(oracle, headers, pool, pool, r);
          }
      }
    }
  }

  lemma StandsLater(oracle: Oracle, headers: seq<Part>, pool: seq<Part>, left: seq<Part>, r: Resolution)
    requires headers != [] && multiset(left) <= multiset(pool) && StandsForOne(oracle, headers[1..], left, r)
    ensures StandsForOne(oracle, headers, pool, r)
  {
    hide Stands;
    var header, rest :| header in headers[1..] && multiset(rest) <= multiset(left) && Stands(oracle, header, rest, r);
    assert header in headers;
  }

  /**
   The bucket over the real search: in whichever branch it is reported, every split verifies,
   takes its parts from the pool and leaves no tighter one behind.
   */
  lemma ReportedStand(oracle: Oracle, buildHandle: bool, split: Splitter, headers: seq<Part>, pool: seq<Part>, rs: seq<Resolution>)
    requires Answering(oracle, buildHandle, split) && BucketReport(split, headers, pool, rs)
    ensures forall r :: r in rs && r.Split? ==> StandsForOne(oracle, headers, pool, r)
  {
    hide SoundSplitter, Answering, Greedy, Attempt, Stands, StandsForOne, PartsAt, AllAgree, NoneResolves, IsOrder, StablyByName,
         Unclaimed, NamesOf;
    if headers != [] {
      if |headers| == 1 {
        OneReportedStands(oracle, buildHandle, split, headers, pool, rs);
      } else if |headers| > MAX_PERMUTED_HEADERS || NoneResolves(split, headers, pool) {
        var order :| IsOrder(order, |headers|) && StablyByName(headers, order)
                     && rs == FallbackReport(Greedy(split, PartsAt(headers, order), pool));
        OrderedStand(oracle, buildHandle, split, headers, pool, order);
      } else if AllAgree(split, headers, pool) {
        var order :| IsOrder(order, |headers|) && ReportOf(split, headers, pool, order, rs);
        OrderedStand(oracle, buildHandle, split, headers, pool, order);
      }
    }
  }

  lemma OneReportedStands(oracle: Oracle, buildHandle: bool, split: Splitter, headers: seq<Part>, pool: seq<Part>, rs: seq<Resolution>)
    requires Answering(oracle, buildHandle, split) && |headers| == 1 && OneHeaderReport(split, headers[0], pool, rs)
    ensures forall r :: r in rs && r.Split? ==> StandsForOne(oracle, headers, pool, r)
  {
    hide SoundSplitter, Answering, Attempt, Stands, Unclaimed, NamesOf;
    var attempt := Attempt(split, headers[0], pool);
    if attempt.Some? {
      AttemptStands(oracle, buildHandle, split, headers[0], pool, attempt.value);
      assert headers[0] in headers;
    }
  }

  lemma OrderedStand(oracle: Oracle, buildHandle: bool, split: Splitter, headers: seq<Part>, pool: seq<Part>, order: seq<nat>)
    requires Answering(oracle, buildHandle, split) && IsOrder(order, |headers|)
    ensures forall r :: r in Greedy(split, PartsAt(headers, order), pool).placed ==> StandsForOne(oracle, headers, pool, r)
  {
    hide SoundSplitter, Answering, Greedy, Stands, PartsAt;
    var ordered := PartsAt(headers, order);
    PlacedStand(oracle, buildHandle, split, ordered, pool);
    OrderInside(headers, order);
    forall r | r in Greedy(split, ordered, pool).placed ensures StandsForOne(oracle, headers, pool, r) {
      var header, left :| header in ordered && multiset(left) <= multiset(pool) && Stands(oracle, header, left, r);
      assert header in headers;
    }
  }

  lemma OrderInside(headers: seq<Part>, order: seq<nat>)
    requires IsOrder(order, |headers|)
    ensures forall h :: h in PartsAt(headers, order) ==> h in headers
  {
    forall k | 0 <= k < |order| ensures order[k] < |headers| {
      assert order[k] in multiset(order);
      assert order[k] in UpTo(|headers|);
    }
  }

  // ------------------------------------------------- which instances are claimed

  /** Parts with the same name are the same part. */
  ghost predicate NamesTellApart(pool: seq<Part>) {
    forall i, j :: 0 <= i < j < |pool| && pool[i].name == pool[j].name ==> pool[i] == pool[j]
  }

  ghost predicate Selection(pool: seq<Part>, o: seq<nat>) {
    SubsetSearch.Distinct(o) && forall i :: 0 <= i < |o| ==> o[i] < |pool|
  }

  /** The parts claimed for a split are the parts it was verified with. */
  ghost predicate ClaimsWhatItUsed(pool: seq<Part>, o: seq<nat>) {
    multiset(Claimed(NameBag(PartsAt(pool, o)), pool)) == multiset(PartsAt(pool, o))
  }

  /** Claims go by name: they hit the verified instances for every split exactly when names tell parts apart. */
  lemma ClaimsExact(pool: seq<Part>)
    ensures (forall o :: Selection(pool, o) ==> ClaimsWhatItUsed(pool, o)) <==> NamesTellApart(pool)
  {
    if NamesTellApart(pool) {
      forall o | Selection(pool, o) ensures ClaimsWhatItUsed(pool, o) {
        ClaimsRight(pool, o);
      }
    } else {
      var i, j :| 0 <= i < j < |pool| && pool[i].name == pool[j].name && pool[i] != pool[j];
      ClaimsWrong(pool, i, j);
    }
  }

  lemma ClaimsRight(pool: seq<Part>, o: seq<nat>)
    requires NamesTellApart(pool) && Selection(pool, o)
    ensures ClaimsWhatItUsed(pool, o)
  {
    var used := PartsAt(pool, o);
    var claimed := Claimed(NameBag(used), pool);
    PartsAtBag(pool, o);
    ClaimNames(NameBag(used), pool);
    ClaimedFrom(NameBag(used), pool);
    forall x ensures multiset(claimed)[x] == multiset(used)[x] {
      CountByName(claimed, pool, x);
      CountByName(used, pool, x);
    }
  }

  lemma {:induction false} ClaimedFrom(uses: multiset<string>, pool: seq<Part>)
    ensures forall p :: p in Claimed(uses, pool) ==> p in pool
  {
    if pool != [] {
      ClaimedFrom(uses - multiset{pool[0].name}, pool[1..]);
      ClaimedFrom(uses, pool[1..]);
    }
  }

  lemma {:induction false} CountByName(parts: seq<Part>, pool: seq<Part>, x: Part)
    requires NamesTellApart(pool) && forall p :: p in parts ==> p in pool
    ensures multiset(parts)[x] == if x in pool then NameBag(parts)[x.name] else 0
  {
    if parts == [] {
    } else {
      MultisetHead(parts);
      CountByName(parts[1..], pool, x);
      assert parts[0] in pool;
    }
  }

  /** Two different parts of one name: some split of a single continuation claims the other one. */
  lemma ClaimsWrong(pool: seq<Part>, i: nat, j: nat)
    requires i < j < |pool| && pool[i].name == pool[j].name && pool[i] != pool[j]
    ensures exists o :: Selection(pool, o) && !ClaimsWhatItUsed(pool, o)
  {
    var first := Claimed(multiset{pool[i].name}, pool);
    ClaimOne(pool, pool[i].name);
    var k := if first == [pool[i]] then j else i;
    assert PartsAt(pool, [k]) == [pool[k]];
    assert NameBag([pool[k]]) == multiset{pool[k].name} by { NameBagOne([pool[k]]); }
    assert multiset([pool[k]])[pool[k]] == 1;
    assert Selection(pool, [k]) && !ClaimsWhatItUsed(pool, [k]);
  }

  lemma {:induction false} ClaimOne(pool: seq<Part>, name: string)
    requires exists p :: p in pool && p.name == name
    ensures |Claimed(multiset{name}, pool)| == 1
  {
    if pool[0].name == name {
      ClaimNothing(pool[1..], multiset{name} - multiset{name});
    } else {
      var p :| p in pool && p.name == name;
      assert p in pool[1..];
      ClaimOne(pool[1..], name);
    }
  }

  lemma {:induction false} ClaimNothing(pool: seq<Part>, uses: multiset<string>)
    requires uses == multiset{}
    ensures Claimed(uses, pool) == []
  {
    if pool != [] {
      ClaimNothing(pool[1..], uses);
    }
  }
}
