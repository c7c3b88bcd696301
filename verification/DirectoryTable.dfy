/**
 The walk over the directory tables of an image: a stack of regions still to scan and a set
 of sectors already met, over tables that may refer to each other in any way.
 */
module DirectoryTable {
  import opened Common

  const SECTOR_COUNT: nat := 0x1_0000_0000

  type u32 = x: int | 0 <= x < 0x1_0000_0000

  /** One directory entry as it stands in a table; no name when its bytes are not valid text. */
  datatype Node = Node(name: Option<string>, directory: bool, sector: u32, size: u32)

  /** A flattened entry: `path` is joined from the root. */
  datatype Entry = Entry(path: string, name: string, directory: bool, sector: u32, size: u32)

  datatype Table = Table(rootSector: u32, rootSize: u32, entries: seq<Entry>)

  /** A table to scan, under the path it was found at. */
  datatype Region = Region(path: string, sector: u32, size: u32)

  /** What one sequential pass over the table at a sector, of a size, yields. */
  type Scanner = (u32, u32) -> Result<seq<Node>>

  function Join(parent: string, name: string): string {
    if parent == "" then name else parent + "/" + name
  }

  function NameOf(node: Node): string { if node.name.Some? then node.name.value else "" }

  function EntryOf(path: string, node: Node): Entry {
    Entry(Join(path, NameOf(node)), NameOf(node), node.directory, node.sector, node.size)
  }

  /** The entries of one table. */
  function Listing(path: string, nodes: seq<Node>): seq<Entry> {
    seq(|nodes|, i requires 0 <= i < |nodes| => EntryOf(path, nodes[i]))
  }

  function RegionOf(path: string, node: Node): Region { Region(Join(path, NameOf(node)), node.sector, node.size) }

  predicate Descends(node: Node) { node.directory && node.size != 0 }

  /** The subdirectories of one table not met before, in order, each sector once. */
  function Fresh(path: string, nodes: seq<Node>, visited: set<nat>): seq<Region> {
    if nodes == [] then []
    else if Descends(nodes[0]) && nodes[0].sector !in visited then
      [RegionOf(path, nodes[0])] + Fresh(path, nodes[1..], visited + {nodes[0].sector as nat})
    else Fresh(path, nodes[1..], visited)
  }

  /** A table that scans, with every name valid. */
  predicate Sound(scan: Scanner, r: Region) {
    scan(r.sector, r.size).Ok? && forall n :: n in scan(r.sector, r.size).value ==> n.name.Some?
  }

  function NodesOf(scan: Scanner, r: Region): seq<Node> {
    match scan(r.sector, r.size) case Ok(nodes) => nodes case Err(_) => []
  }

  /** `c` is a non-empty subdirectory listed in the table of `p`. */
  ghost predicate ChildOf(scan: Scanner, p: Region, c: Region) {
    exists n :: n in NodesOf(scan, p) && Descends(n) && c == RegionOf(p.path, n)
  }

  function Sectors(rs: seq<Region>): (s: set<nat>)
    ensures forall r :: r in rs ==> r.sector as nat in s
    ensures forall x :: x in s ==> exists i :: 0 <= i < |rs| && rs[i].sector as nat == x
  {
    set i | 0 <= i < |rs| :: rs[i].sector as nat
  }

  ghost predicate OnceEach(rs: seq<Region>) {
    forall i, j :: 0 <= i < j < |rs| ==> rs[i].sector != rs[j].sector
  }

  // ------------------------------------------------------------ one table's entries

  /** `r` is a subdirectory of the table, starting at a sector not met before. */
  ghost predicate NewSubdirectory(path: string, nodes: seq<Node>, visited: set<nat>, r: Region) {
    && r.sector as nat !in visited
    && exists n :: n in nodes && Descends(n) && r == RegionOf(path, n)
  }

  /** Everything added is a new subdirectory of the table, each sector once. */
  lemma {:induction false} FreshMeaning(path: string, nodes: seq<Node>, visited: set<nat>)
    ensures OnceEach(Fresh(path, nodes, visited))
    ensures forall r :: r in Fresh(path, nodes, visited) ==> NewSubdirectory(path, nodes, visited, r)
  {
    if nodes != [] {
      var node, rest := nodes[0], nodes[1..];
      var met := if Descends(node) && node.sector as nat !in visited then visited + {node.sector as nat} else visited;
      FreshMeaning(path, rest, met);
      var more := Fresh(path, rest, met);
      FreshStep(path, nodes, 0, visited);
      assert nodes[0..] == nodes;
      hide Fresh;
      forall r | r in more ensures NewSubdirectory(path, nodes, visited, r) && r.sector as nat !in met {
        var n :| n in rest && Descends(n) && r == RegionOf(path, n);
        assert n in nodes;
      }
      assert node in nodes;
    }
  }

  /** All subdirectories of the table have been met afterwards. */
  lemma {:induction false} FreshCovers(path: string, nodes: seq<Node>, visited: set<nat>)
    ensures forall n :: n in nodes && Descends(n) ==> n.sector as nat in visited + Sectors(Fresh(path, nodes, visited))
  {
    if nodes != [] {
      var node, rest := nodes[0], nodes[1..];
      var met := if Descends(node) && node.sector as nat !in visited then visited + {node.sector as nat} else visited;
      FreshCovers(path, rest, met);
      FreshStep(path, nodes, 0, visited);
      assert nodes[0..] == nodes;
      SectorsHead(RegionOf(path, node), Fresh(path, rest, met));
      assert forall n :: n in nodes <==> n == node || n in rest;
      hide Fresh, Sectors;
    }
  }

  lemma SectorsHead(r: Region, rs: seq<Region>)
    ensures Sectors([r] + rs) == {r.sector as nat} + Sectors(rs)
  {
    var all := [r] + rs;
    forall x ensures x in Sectors(all) <==> x in {r.sector as nat} + Sectors(rs) {
      if x in Sectors(all) {
        var i :| 0 <= i < |all| && all[i].sector as nat == x;
        assert i > 0 ==> all[i] in rs;
      }
      if x in Sectors(rs) {
        var i :| 0 <= i < |rs| && rs[i].sector as nat == x;
        assert all[i + 1] in all;
      }
      assert all[0] in all;
    }
  }

  lemma SectorsAppend(a: seq<Region>, b: seq<Region>)
    ensures Sectors(a + b) == Sectors(a) + Sectors(b)
  {
    forall x ensures x in Sectors(a + b) <==> x in Sectors(a) + Sectors(b) {
      if x in Sectors(a + b) {
        var i :| 0 <= i < |a + b| && (a + b)[i].sector as nat == x;
        assert (a + b)[i] in a || (a + b)[i] in b;
      }
      if x in Sectors(a) {
        var i :| 0 <= i < |a| && a[i].sector as nat == x;
        assert a[i] in a + b;
      }
      if x in Sectors(b) {
        var i :| 0 <= i < |b| && b[i].sector as nat == x;
        assert b[i] in a + b;
      }
    }
  }

  /** The loop over one table's nodes. */
  method AddEntries(path: string, nodes: seq<Node>, entriesIn: seq<Entry>, stackIn: seq<Region>, visitedIn: set<nat>)
    returns (ok: bool, entries: seq<Entry>, stack: seq<Region>, visited: set<nat>)
    ensures ok <==> forall n :: n in nodes ==> n.name.Some?
    ensures ok ==> entries == entriesIn + Listing(path, nodes)
    ensures ok ==> stack == stackIn + Fresh(path, nodes, visitedIn)
    ensures ok ==> visited == visitedIn + Sectors(Fresh(path, nodes, visitedIn))
  {
    entries, stack, visited := entriesIn, stackIn, visitedIn;
    var i := 0;
    while i < |nodes|
      invariant 0 <= i <= |nodes|
      invariant forall j :: 0 <= j < i ==> nodes[j].name.Some?
      invariant entries == entriesIn + Listing(path, nodes)[..i]
      invariant stack + Fresh(path, nodes[i..], visited) == stackIn + Fresh(path, nodes, visitedIn)
      invariant visited + Sectors(Fresh(path, nodes[i..], visited)) == visitedIn + Sectors(Fresh(path, nodes, visitedIn))
    {
      var node := nodes[i];
      if node.name.None? {
        assert node in nodes;
        return false, entries, stack, visited;
      }
      FreshStep(path, nodes, i, visited);
      hide Fresh, Sectors;
      if node.directory && node.size != 0 && node.sector as nat !in visited {
        SectorsHead(RegionOf(path, node), Fresh(path, nodes[i + 1..], visited + {node.sector as nat}));
        assert stack + ([RegionOf(path, node)] + Fresh(path, nodes[i + 1..], visited + {node.sector as nat}))
            == stack + [RegionOf(path, node)] + Fresh(path, nodes[i + 1..], visited + {node.sector as nat});
        visited := visited + {node.sector as nat};
        stack := stack + [RegionOf(path, node)];
      }
      entries := entries + [EntryOf(path, node)];
      i := i + 1;
    }
    assert Fresh(path, nodes[i..], visited) == [];
    assert Listing(path, nodes)[..i] == Listing(path, nodes);
    ok := true;
  }

  lemma FreshStep(path: string, nodes: seq<Node>, i: nat, visited: set<nat>)
    requires i < |nodes|
    ensures Fresh(path, nodes[i..], visited) ==
            if Descends(nodes[i]) && nodes[i].sector as nat !in visited then
              [RegionOf(path, nodes[i])] + Fresh(path, nodes[i + 1..], visited + {nodes[i].sector as nat})
            else Fresh(path, nodes[i + 1..], visited)
  {
    assert nodes[i..][0] == nodes[i] && nodes[i..][1..] == nodes[i + 1..];
  }

  // ------------------------------------------------------------------- the walk

  /** The listings of the scanned tables, one after another. */
  function Listings(scan: Scanner, scans: seq<Region>): seq<Entry> {
    if scans == [] then []
    else Listings(scan, scans[..|scans| - 1]) + Listing(scans[|scans| - 1].path, NodesOf(scan, scans[|scans| - 1]))
  }

  /** Every scan but the first is a subdirectory found by an earlier one. */
  ghost predicate Discovered(scan: Scanner, root: Region, scans: seq<Region>) {
    && (scans != [] ==> scans[0] == root)
    && forall j :: 0 < j < |scans| ==> ChildOfSome(scan, scans[..j], scans[j])
  }

  ghost predicate ChildOfSome(scan: Scanner, scans: seq<Region>, c: Region) {
    exists p :: p in scans && ChildOf(scan, p, c)
  }

  /** Every subdirectory a scanned table lists has been met. */
  ghost predicate AllMet(scan: Scanner, scans: seq<Region>, met: set<nat>) {
    forall p, c :: p in scans && ChildOf(scan, p, c) ==> c.sector as nat in met
  }

  ghost predicate AllSound(scan: Scanner, scans: seq<Region>) {
    forall r :: r in scans ==> Sound(scan, r)
  }

  /** The state of the walk between two scans. */
  ghost predicate Walking(scan: Scanner, root: Region, stack: seq<Region>, visited: set<nat>, scans: seq<Region>) {
    && OnceEach(scans + stack) && visited == Sectors(scans + stack)
    && Discovered(scan, root, scans)
    && (if scans == [] then stack == [root] else forall r :: r in stack ==> ChildOfSome(scan, scans, r))
    && AllMet(scan, scans, visited) && AllSound(scan, scans)
  }

  lemma WalkStart(scan: Scanner, root: Region)
    ensures Walking(scan, root, [root], {root.sector as nat}, []) && Sectors([] + [root]) == {root.sector as nat}
  {
    assert [] + [root] == [root];
    SectorsHead(root, []);
    assert [root] + [] == [root];
  }

  lemma ScannedSnoc(scan: Scanner, root: Region, stack: seq<Region>, visited: set<nat>, scans: seq<Region>)
    requires Walking(scan, root, stack, visited, scans) && stack != []
    ensures Discovered(scan, root, scans + [stack[|stack| - 1]])
  {
    hide ChildOfSome, AllMet, AllSound, OnceEach, Sectors;
    var top := stack[|stack| - 1];
    var more := scans + [top];
    forall j | 0 < j < |more| ensures ChildOfSome(scan, more[..j], more[j]) {
      assert more[..j] == scans[..j];
      if j == |scans| {
        assert top in stack && scans[..j] == scans;
      }
    }
  }

  /** Scanning the top of the stack keeps the walk's state. */
  lemma WalkStep(scan: Scanner, root: Region, stack: seq<Region>, visited: set<nat>, scans: seq<Region>)
    requires Walking(scan, root, stack, visited, scans) && stack != [] && Sound(scan, stack[|stack| - 1])
    ensures var top := stack[|stack| - 1];
            var added := Fresh(top.path, NodesOf(scan, top), visited);
            Walking(scan, root, stack[..|stack| - 1] + added, visited + Sectors(added), scans + [top])
  {
    hide OnceEach, Sectors, Discovered, Fresh, ChildOfSome, AllMet, AllSound, NewSubdirectory, Sound;
    var top, below := stack[|stack| - 1], stack[..|stack| - 1];
    var nodes := NodesOf(scan, top);
    var added := Fresh(top.path, nodes, visited);
    FreshMeaning(top.path, nodes, visited);
    FreshCovers(top.path, nodes, visited);
    ScannedSnoc(scan, root, stack, visited, scans);
    TopOff(stack);
    OnceMoved(scans, below, top);
    NotMet(top.path, nodes, visited, added);
    OnceAppended(scans + [top] + below, added, visited);
    Regroup(scans + [top], below, added);
    StackKnown(scan, scans, below, top, visited, added, stack);
    MetMore(scan, scans, top, visited, visited + Sectors(added));
    SoundMore(scan, scans, top);
  }

  lemma TopOff(stack: seq<Region>)
    requires stack != []
    ensures stack == stack[..|stack| - 1] + [stack[|stack| - 1]]
  {
  }

  lemma Regroup(a: seq<Region>, b: seq<Region>, c: seq<Region>)
    ensures a + b + c == a + (b + c)
  {
  }

  lemma SoundMore(scan: Scanner, scans: seq<Region>, top: Region)
    requires AllSound(scan, scans) && Sound(scan, top)
    ensures AllSound(scan, scans + [top])
  {
  }

  lemma NotMet(path: string, nodes: seq<Node>, visited: set<nat>, added: seq<Region>)
    requires forall r :: r in added ==> NewSubdirectory(path, nodes, visited, r)
    ensures forall r :: r in added ==> r.sector as nat !in visited
  {
  }

  /** Moving the top of the stack to the scanned side changes neither distinctness nor what has been met. */
  lemma OnceMoved(scans: seq<Region>, below: seq<Region>, top: Region)
    requires OnceEach(scans + (below + [top]))
    ensures OnceEach(scans + [top] + below)
    ensures Sectors(scans + [top] + below) == Sectors(scans + (below + [top]))
  {
    SectorsAppend(scans, below + [top]);
    SectorsAppend(below, [top]);
    SectorsAppend(scans + [top], below);
    SectorsAppend(scans, [top]);
    hide Sectors;
    MovedDistinct(scans, below, top, scans + (below + [top]), scans + [top] + below);
  }

  lemma MovedDistinct(scans: seq<Region>, below: seq<Region>, top: Region, a: seq<Region>, b: seq<Region>)
    requires a == scans + (below + [top]) && b == scans + [top] + below && OnceEach(a)
    ensures OnceEach(b)
  {
    var n := |scans|;
    assert b[n] == a[|a| - 1];
    forall i | 0 <= i < |b| && i != n ensures b[i] == a[if i < n then i else i - 1] {
    }
    forall i, j | 0 <= i < j < |b| ensures b[i].sector != b[j].sector {
      var i', j' := if i < n then i else if i == n then |a| - 1 else i - 1, if j < n then j else if j == n then |a| - 1 else j - 1;
      assert a[i'] == b[i] && a[j'] == b[j];
    }
  }

  lemma OnceAppended(a: seq<Region>, added: seq<Region>, visited: set<nat>)
    requires OnceEach(a) && OnceEach(added) && visited == Sectors(a)
    requires forall r :: r in added ==> r.sector as nat !in visited
    ensures OnceEach(a + added) && Sectors(a + added) == visited + Sectors(added)
  {
    SectorsAppend(a, added);
    var all := a + added;
    forall i, j | 0 <= i < j < |all| ensures all[i].sector != all[j].sector {
      if i < |a| <= j {
        assert all[j] in added && all[i] in a;
      }
    }
  }

  lemma StackKnown(scan: Scanner, scans: seq<Region>, below: seq<Region>, top: Region, visited: set<nat>,
                   added: seq<Region>, stack: seq<Region>)
    requires stack == below + [top]
    requires if scans == [] then below == [] else forall r :: r in stack ==> ChildOfSome(scan, scans, r)
    requires forall r :: r in added ==> NewSubdirectory(top.path, NodesOf(scan, top), visited, r)
    ensures forall r :: r in below + added ==> ChildOfSome(scan, scans + [top], r)
  {
    forall r | r in below + added ensures ChildOfSome(scan, scans + [top], r) {
      if r in added {
        assert ChildOf(scan, top, r);
        assert top in scans + [top];
      } else {
        assert r in stack;
        assert ChildOfSome(scan, scans, r);
        var p :| p in scans && ChildOf(scan, p, r);
        assert p in scans + [top];
      }
    }
  }

  lemma MetMore(scan: Scanner, scans: seq<Region>, top: Region, visited: set<nat>, met: set<nat>)
    requires AllMet(scan, scans, visited) && visited <= met
    requires forall n :: n in NodesOf(scan, top) && Descends(n) ==> n.sector as nat in met
    ensures AllMet(scan, scans + [top], met)
  {
    forall p, c | p in scans + [top] && ChildOf(scan, p, c) ensures c.sector as nat in met {
      if p in scans {
        assert c.sector as nat in visited;
      }
    }
  }

  /** No more sectors can be met than 32 bits can number. */
  lemma VisitedBound(rs: seq<Region>)
    ensures |Sectors(rs)| <= SECTOR_COUNT
  {
    forall x | x in Sectors(rs) ensures 0 <= x < SECTOR_COUNT {
      var i :| 0 <= i < |rs| && rs[i].sector as nat == x;
    }
    IntervalBound(Sectors(rs), 0, SECTOR_COUNT);
  }

  /** The walk is over: nothing is left on the stack. */
  ghost predicate Walked(scan: Scanner, root: Region, scans: seq<Region>) {
    && scans != [] && OnceEach(scans) && Discovered(scan, root, scans)
    && AllMet(scan, scans, Sectors(scans)) && AllSound(scan, scans)
  }

  /** Some region the walk found does not scan, or holds an entry with no valid name. */
  ghost predicate FoundBroken(scan: Scanner, root: Region) {
    exists r :: Reachable(scan, root, r) && !Sound(scan, r)
  }

  /** A chain of subdirectories from the root. */
  ghost predicate Chain(scan: Scanner, root: Region, chain: seq<Region>) {
    && chain != [] && chain[0] == root
    && forall i :: 0 <= i < |chain| - 1 ==> ChildOf(scan, chain[i], chain[i + 1])
  }

  ghost predicate Reachable(scan: Scanner, root: Region, r: Region) {
    exists chain :: Chain(scan, root, chain) && chain[|chain| - 1] == r
  }

  lemma ReachableStep(scan: Scanner, root: Region, p: Region, c: Region)
    requires Reachable(scan, root, p) && ChildOf(scan, p, c)
    ensures Reachable(scan, root, c)
  {
    hide ChildOf;
    var chain :| Chain(scan, root, chain) && chain[|chain| - 1] == p;
    var more := chain + [c];
    forall i | 0 <= i < |more| - 1 ensures ChildOf(scan, more[i], more[i + 1]) {
    }
    assert Chain(scan, root, more) && more[|more| - 1] == c;
  }

  /** Everything scanned is reachable. */
  lemma {:induction false} ScansReachable(scan: Scanner, root: Region, scans: seq<Region>, j: nat)
    requires Discovered(scan, root, scans) && j < |scans|
    ensures Reachable(scan, root, scans[j])
    decreases j
  {
    if j == 0 {
      assert Chain(scan, root, [root]) && [root][|[root]| - 1] == root;
    } else {
      assert ChildOfSome(scan, scans[..j], scans[j]);
      var p :| p in scans[..j] && ChildOf(scan, p, scans[j]);
      var i :| 0 <= i < j && scans[i] == p;
      ScansReachable(scan, root, scans, i);
      ReachableStep(scan, root, p, scans[j]);
    }
  }

  lemma TopReachable(scan: Scanner, root: Region, stack: seq<Region>, visited: set<nat>, scans: seq<Region>)
    requires Walking(scan, root, stack, visited, scans) && stack != []
    ensures Reachable(scan, root, stack[|stack| - 1])
  {
    ScannedSnoc(scan, root, stack, visited, scans);
    ScansReachable(scan, root, scans + [stack[|stack| - 1]], |scans|);
  }

  /** What is still to scan after `scans`, the region found last at the end. */
  function Waiting(scan: Scanner, root: Region, scans: seq<Region>): seq<Region> {
    if scans == [] then [root]
    else
      var before, last := scans[..|scans| - 1], scans[|scans| - 1];
      var waiting := Waiting(scan, root, before);
      if waiting == [] then []
      else waiting[..|waiting| - 1] + Fresh(last.path, NodesOf(scan, last), Sectors(before + waiting))
  }

  lemma NothingScanned(scan: Scanner, root: Region)
    ensures Waiting(scan, root, []) == [root] && Listings(scan, []) == [] && DepthFirst(scan, root, [])
  {
  }

  lemma WaitingSnoc(scan: Scanner, root: Region, scans: seq<Region>, r: Region)
    requires Waiting(scan, root, scans) != []
    ensures var waiting := Waiting(scan, root, scans);
            Waiting(scan, root, scans + [r])
            == waiting[..|waiting| - 1] + Fresh(r.path, NodesOf(scan, r), Sectors(scans + waiting))
  {
    assert (scans + [r])[..|scans|] == scans;
  }

  /** Each scan is of the region found last: a subdirectory and all below it come before the one listed ahead of it. */
  ghost predicate DepthFirst(scan: Scanner, root: Region, scans: seq<Region>) {
    forall j :: 0 <= j < |scans| ==> NextUp(Waiting(scan, root, scans[..j]), scans[j])
  }

  predicate NextUp(waiting: seq<Region>, r: Region) { waiting != [] && waiting[|waiting| - 1] == r }

  lemma DepthFirstSnoc(scan: Scanner, root: Region, scans: seq<Region>, r: Region)
    requires DepthFirst(scan, root, scans) && NextUp(Waiting(scan, root, scans), r)
    ensures DepthFirst(scan, root, scans + [r])
  {
    hide Waiting, NextUp;
    var more := scans + [r];
    forall j | 0 <= j < |more| ensures NextUp(Waiting(scan, root, more[..j]), more[j]) {
      assert more[..j] == scans[..j];
      assert scans[..|scans|] == scans;
    }
  }

  /** Whatever waits is the root or has been found by a scan. */
  lemma {:induction false} WaitingFound(scan: Scanner, root: Region, scans: seq<Region>, r: Region)
    requires r in Waiting(scan, root, scans)
    ensures r == root || ChildOfSome(scan, scans, r)
  {
    if scans != [] {
      var before, last := scans[..|scans| - 1], scans[|scans| - 1];
      var waiting := Waiting(scan, root, before);
      var visited := Sectors(before + waiting);
      FreshMeaning(last.path, NodesOf(scan, last), visited);
      hide Fresh, Sectors, OnceEach;
      if r in waiting {
        WaitingFound(scan, root, before, r);
        if ChildOfSome(scan, before, r) {
          var p :| p in before && ChildOf(scan, p, r);
          assert p in scans;
        }
      } else {
        assert r in Fresh(last.path, NodesOf(scan, last), visited);
        assert last in scans && ChildOf(scan, last, r);
      }
    }
  }

  /** A table that lists a subdirectory no earlier scan has met or found is followed by one of its own. */
  lemma ChildrenFirst(scan: Scanner, root: Region, scans: seq<Region>, j: nat, c: Region)
    requires DepthFirst(scan, root, scans) && j + 1 < |scans| && ChildOf(scan, scans[j], c)
    requires forall i :: 0 <= i <= j ==> scans[i].sector != c.sector
    requires forall i, o: Region :: 0 <= i < j && ChildOf(scan, scans[i], o) ==> o.sector != c.sector
    ensures ChildOf(scan, scans[j], scans[j + 1])
  {
    hide *;
    var before, top := scans[..j], scans[j];
    var waiting := Waiting(scan, root, before);
    var visited := Sectors(before + waiting);
    NextAt(scan, root, scans, j);
    NextAt(scan, root, scans, j + 1);
    NotVisited(scan, root, scans, j, c);
    WaitingSnoc(scan, root, before, top);
    assert scans[..j + 1] == before + [top];
    ListedIsNew(scan, top, visited, c);
    FreshMeaning(top.path, NodesOf(scan, top), visited);
    var added := Fresh(top.path, NodesOf(scan, top), visited);
    assert scans[j + 1] == added[|added| - 1];
    NewIsChild(scan, top, visited, scans[j + 1]);
  }

  lemma NextAt(scan: Scanner, root: Region, scans: seq<Region>, j: nat)
    requires DepthFirst(scan, root, scans) && j < |scans|
    ensures var waiting := Waiting(scan, root, scans[..j]); waiting != [] && waiting[|waiting| - 1] == scans[j]
  {
    hide Waiting;
    assert NextUp(Waiting(scan, root, scans[..j]), scans[j]);
  }

  lemma ListedIsNew(scan: Scanner, top: Region, visited: set<nat>, c: Region)
    requires ChildOf(scan, top, c) && c.sector as nat !in visited
    ensures Fresh(top.path, NodesOf(scan, top), visited) != []
  {
    FreshCovers(top.path, NodesOf(scan, top), visited);
    hide Fresh;
  }

  lemma NewIsChild(scan: Scanner, top: Region, visited: set<nat>, r: Region)
    requires NewSubdirectory(top.path, NodesOf(scan, top), visited, r)
    ensures ChildOf(scan, top, r)
  {
  }

  lemma NotVisited(scan: Scanner, root: Region, scans: seq<Region>, j: nat, c: Region)
    requires DepthFirst(scan, root, scans) && j < |scans|
    requires forall i :: 0 <= i <= j ==> scans[i].sector != c.sector
    requires forall i, o: Region :: 0 <= i < j && ChildOf(scan, scans[i], o) ==> o.sector != c.sector
    ensures c.sector as nat !in Sectors(scans[..j] + Waiting(scan, root, scans[..j]))
  {
    var before := scans[..j];
    var waiting := Waiting(scan, root, before);
    assert NextUp(Waiting(scan, root, scans[..0]), scans[0]);
    assert scans[0] == root;
    hide Waiting, DepthFirst, ChildOf;
    forall r: Region | r in before + waiting ensures r.sector != c.sector {
      if r in waiting {
        WaitingFound(scan, root, before, r);
        if r != root {
          var p :| p in before && ChildOf(scan, p, r);
          var i :| 0 <= i < j && scans[i] == p;
        }
      }
    }
  }

  /** `DirectoryTable::read_root`, with the scans it makes in the order it makes them. */
  method ReadRoot(scan: Scanner, rootSector: u32, rootSize: u32) returns (table: Result<Table>, ghost scans: seq<Region>)
    ensures rootSize == 0 ==> table == Ok(Table(rootSector, rootSize, []))
    ensures rootSize != 0 && table.Ok? ==>
              && Walked(scan, Region("", rootSector, rootSize), scans)
              && table.value == Table(rootSector, rootSize, Listings(scan, scans))
    ensures DepthFirst(scan, Region("", rootSector, rootSize), scans)
    ensures table.Err? ==> FoundBroken(scan, Region("", rootSector, rootSize))
    ensures rootSize != 0 && SectorsTellApart(scan, Region("", rootSector, rootSize)) ==>
              (table.Err? <==> FoundBroken(scan, Region("", rootSector, rootSize)))
  {
    scans := [];
    if rootSize == 0 {
      return Ok(Table(rootSector, rootSize, [])), scans;
    }
    hide *;
    ghost var root := Region("", rootSector, rootSize);
    var entries: seq<Entry> := [];
    var stack: seq<Region> := [Region("", rootSector, rootSize)];
    var visited: set<nat> := {rootSector as nat};
    UnderWayStarts(scan, root);
    while stack != []
      invariant UnderWay(scan, root, stack, visited, scans, entries) && |visited| <= SECTOR_COUNT
      decreases SECTOR_COUNT - |visited| + |stack|
    {
      var region := stack[|stack| - 1];
      var nodes := scan(region.sector, region.size);
      BreaksOff(scan, root, stack, visited, scans, entries);
      if nodes.Err? {
        return Err(BadDirectory), scans;
      }
      ghost var stackBefore, visitedBefore, entriesBefore := stack, visited, entries;
      stack := stack[..|stack| - 1];
      var ok;
      ok, entries, stack, visited := AddEntries(region.path, nodes.value, entries, stack, visited);
      if !ok {
        return Err(BadDirectory), scans;
      }
      UnderWayStep(scan, root, stackBefore, visitedBefore, scans, entriesBefore, nodes.value);
      scans := scans + [region];
    }
    UnderWayEnds(scan, root, visited, scans, entries);
    table := Ok(Table(rootSector, rootSize, entries));
  }

  /** The walk between two scans, and what it has listed. */
  ghost predicate UnderWay(scan: Scanner, root: Region, stack: seq<Region>, visited: set<nat>, scans: seq<Region>, entries: seq<Entry>) {
    && Walking(scan, root, stack, visited, scans) && DepthFirst(scan, root, scans) && stack == Waiting(scan, root, scans)
    && entries == Listings(scan, scans)
  }

  lemma UnderWayStarts(scan: Scanner, root: Region)
    ensures UnderWay(scan, root, [root], {root.sector as nat}, [], []) && DepthFirst(scan, root, [])
    ensures |{root.sector as nat}| <= SECTOR_COUNT
  {
    WalkStart(scan, root);
    hide Walking;
    NothingScanned(scan, root);
  }

  /** A table that does not scan, or holds a node without a name, is reachable and broken. */
  lemma BreaksOff(scan: Scanner, root: Region, stack: seq<Region>, visited: set<nat>, scans: seq<Region>, entries: seq<Entry>)
    requires UnderWay(scan, root, stack, visited, scans, entries) && stack != []
    ensures DepthFirst(scan, root, scans)
    ensures var top := stack[|stack| - 1];
            var nodes := scan(top.sector, top.size);
            nodes.Err? || !(forall n :: n in nodes.value ==> n.name.Some?) ==> FoundBroken(scan, root)
  {
    hide Walking, DepthFirst, Waiting, Listings, Reachable;
    TopReachable(scan, root, stack, visited, scans);
    SoundMeaning(scan, stack[|stack| - 1]);
  }

  lemma UnderWayStep(scan: Scanner, root: Region, stack: seq<Region>, visited: set<nat>, scans: seq<Region>, entries: seq<Entry>,
                     nodes: seq<Node>)
    requires UnderWay(scan, root, stack, visited, scans, entries) && stack != []
    requires scan(stack[|stack| - 1].sector, stack[|stack| - 1].size) == Ok(nodes) && forall n :: n in nodes ==> n.name.Some?
    ensures var top := stack[|stack| - 1];
            var added := Fresh(top.path, nodes, visited);
            var stack', visited' := stack[..|stack| - 1] + added, visited + Sectors(added);
            && UnderWay(scan, root, stack', visited', scans + [top], entries + Listing(top.path, nodes))
            && |visited'| <= SECTOR_COUNT && |stack'| - |visited'| < |stack| - |visited|
  {
    var top := stack[|stack| - 1];
    SoundMeaning(scan, top);
    hide Walking, DepthFirst, Waiting, Listings, Fresh, Sectors, Sound, NextUp, NodesOf, Listing;
    WalkStep(scan, root, stack, visited, scans);
    FreshCount(top.path, nodes, visited);
    ListingsSnoc(scan, scans, top);
    WalkingBound(scan, root, stack, visited, scans);
    WaitingSnoc(scan, root, scans, top);
    IsNext(stack, top);
    DepthFirstSnoc(scan, root, scans, top);
    var added := Fresh(top.path, nodes, visited);
    WalkingBound(scan, root, stack[..|stack| - 1] + added, visited + Sectors(added), scans + [top]);
  }

  lemma IsNext(stack: seq<Region>, top: Region)
    requires stack != [] && top == stack[|stack| - 1]
    ensures NextUp(stack, top)
  {
  }

  lemma UnderWayEnds(scan: Scanner, root: Region, visited: set<nat>, scans: seq<Region>, entries: seq<Entry>)
    requires UnderWay(scan, root, [], visited, scans, entries)
    ensures Walked(scan, root, scans) && DepthFirst(scan, root, scans) && entries == Listings(scan, scans)
    ensures SectorsTellApart(scan, root) ==> !FoundBroken(scan, root)
  {
    hide Walking, Walked, DepthFirst, Waiting, Listings, SectorsTellApart, FoundBroken;
    WalkOver(scan, root, visited, scans);
    if SectorsTellApart(scan, root) {
      NothingBroken(scan, root, scans);
    }
  }

  lemma SoundMeaning(scan: Scanner, r: Region)
    ensures Sound(scan, r) <==> scan(r.sector, r.size).Ok? && forall n :: n in NodesOf(scan, r) ==> n.name.Some?
    ensures scan(r.sector, r.size).Ok? ==> NodesOf(scan, r) == scan(r.sector, r.size).value
  {
  }

  lemma ListingsSnoc(scan: Scanner, scans: seq<Region>, r: Region)
    ensures Listings(scan, scans + [r]) == Listings(scan, scans) + Listing(r.path, NodesOf(scan, r))
  {
    assert (scans + [r])[..|scans|] == scans;
  }

  /** Every region pushed is one more sector met. */
  lemma {:induction false} FreshCount(path: string, nodes: seq<Node>, visited: set<nat>)
    ensures var added := Fresh(path, nodes, visited); |visited + Sectors(added)| == |visited| + |added|
  {
    if nodes == [] {
      assert visited + Sectors([]) == visited;
    } else {
      var more := visited + {nodes[0].sector as nat};
      if Descends(nodes[0]) && nodes[0].sector as nat !in visited {
        FreshCount(path, nodes[1..], more);
        SectorsHead(RegionOf(path, nodes[0]), Fresh(path, nodes[1..], more));
        assert more + Sectors(Fresh(path, nodes[1..], more)) == visited + Sectors(Fresh(path, nodes, visited));
      } else {
        FreshCount(path, nodes[1..], visited);
      }
    }
  }

  lemma WalkingBound(scan: Scanner, root: Region, stack: seq<Region>, visited: set<nat>, scans: seq<Region>)
    requires Walking(scan, root, stack, visited, scans)
    ensures visited == Sectors(scans + stack) && |visited| <= SECTOR_COUNT
  {
    VisitedBound(scans + stack);
  }

  lemma WalkOver(scan: Scanner, root: Region, visited: set<nat>, scans: seq<Region>)
    requires Walking(scan, root, [], visited, scans)
    ensures Walked(scan, root, scans)
  {
    assert scans + [] == scans;
  }

  // ---------------------------------------------------- what the walk has covered

  /** The region is scanned, under whatever path it was found first. */
  ghost predicate Scanned(scans: seq<Region>, r: Region) {
    exists s :: s in scans && s.sector == r.sector && s.size == r.size
  }

  /** Reachable regions that start at the same sector are the same region. */
  ghost predicate SectorsTellApart(scan: Scanner, root: Region) {
    forall a, b :: Reachable(scan, root, a) && Reachable(scan, root, b) && a.sector == b.sector ==> a.size == b.size
  }

  /** Each reachable table is scanned, once, exactly when no two of them share a starting sector. */
  lemma CoversExactly(scan: Scanner, root: Region, scans: seq<Region>)
    requires Walked(scan, root, scans)
    ensures (forall r :: Reachable(scan, root, r) ==> Scanned(scans, r)) <==> SectorsTellApart(scan, root)
  {
    hide Reachable, AllMet, Discovered, AllSound;
    if SectorsTellApart(scan, root) {
      forall r | Reachable(scan, root, r) ensures Scanned(scans, r) {
        ReachableScanned(scan, root, scans, r);
      }
    }
    if forall r :: Reachable(scan, root, r) ==> Scanned(scans, r) {
      forall a, b | Reachable(scan, root, a) && Reachable(scan, root, b) && a.sector == b.sector ensures a.size == b.size {
        assert Scanned(scans, a) && Scanned(scans, b);
        var s :| s in scans && s.sector == a.sector && s.size == a.size;
        var t :| t in scans && t.sector == b.sector && t.size == b.size;
        var i :| 0 <= i < |scans| && scans[i] == s;
        var j :| 0 <= j < |scans| && scans[j] == t;
        assert i == j;
      }
    }
  }

  /** When starting sectors tell the tables apart, a walk that ended has passed over no broken one. */
  lemma NothingBroken(scan: Scanner, root: Region, scans: seq<Region>)
    requires Walked(scan, root, scans) && SectorsTellApart(scan, root)
    ensures !FoundBroken(scan, root)
  {
    hide Reachable, AllMet, Discovered, SectorsTellApart;
    CoversExactly(scan, root, scans);
    forall r | Reachable(scan, root, r) ensures Sound(scan, r) {
      var s :| s in scans && s.sector == r.sector && s.size == r.size;
      assert Sound(scan, s);
    }
  }

  lemma ReachableScanned(scan: Scanner, root: Region, scans: seq<Region>, r: Region)
    requires Walked(scan, root, scans) && SectorsTellApart(scan, root) && Reachable(scan, root, r)
    ensures Scanned(scans, r)
  {
    hide ChildOf;
    var chain :| Chain(scan, root, chain) && chain[|chain| - 1] == r;
    ChainScanned(scan, root, scans, chain, |chain| - 1);
  }

  lemma {:induction false} ChainScanned(scan: Scanner, root: Region, scans: seq<Region>, chain: seq<Region>, k: nat)
    requires Walked(scan, root, scans) && SectorsTellApart(scan, root) && Chain(scan, root, chain) && k < |chain|
    ensures Scanned(scans, chain[k])
    decreases k
  {
    hide *;
    if k == 0 {
      RootScanned(scan, root, scans, chain);
    } else {
      ChainScanned(scan, root, scans, chain, k - 1);
      ChainFront(scan, root, chain, k);
      ChildScanned(scan, root, scans, chain[k - 1], chain[k]);
    }
  }

  lemma RootScanned(scan: Scanner, root: Region, scans: seq<Region>, chain: seq<Region>)
    requires Walked(scan, root, scans) && Chain(scan, root, chain)
    ensures Scanned(scans, chain[0])
  {
    hide OnceEach, AllMet, AllSound, ChildOf, ChildOfSome;
    assert scans[0] == root && scans[0] in scans;
  }

  lemma ChainFront(scan: Scanner, root: Region, chain: seq<Region>, k: nat)
    requires Chain(scan, root, chain) && 0 < k < |chain|
    ensures ChildOf(scan, chain[k - 1], chain[k]) && Reachable(scan, root, chain[k])
  {
    hide ChildOf;
    var front := chain[..k + 1];
    assert ChildOf(scan, chain[k - 1], chain[k - 1 + 1]);
    assert Chain(scan, root, front) && front[|front| - 1] == chain[k];
  }

  lemma ChildScanned(scan: Scanner, root: Region, scans: seq<Region>, p: Region, c: Region)
    requires Walked(scan, root, scans) && SectorsTellApart(scan, root)
    requires Scanned(scans, p) && ChildOf(scan, p, c) && Reachable(scan, root, c)
    ensures Scanned(scans, c)
  {
    var s :| s in scans && s.sector == p.sector && s.size == p.size;
    var c' := SameTableChild(scan, p, s, c);
    hide ChildOf, OnceEach, Discovered, Reachable;
    assert c.sector as nat in Sectors(scans);
    var i :| 0 <= i < |scans| && scans[i].sector as nat == c.sector as nat;
    ScansReachable(scan, root, scans, i);
    assert scans[i] in scans;
  }

  /** The same table under another path lists the same subdirectories. */
  lemma SameTableChild(scan: Scanner, p: Region, s: Region, c: Region) returns (c': Region)
    requires ChildOf(scan, p, c) && s.sector == p.sector && s.size == p.size
    ensures ChildOf(scan, s, c') && c'.sector == c.sector
  {
    var n :| n in NodesOf(scan, p) && Descends(n) && c == RegionOf(p.path, n);
    assert NodesOf(scan, s) == NodesOf(scan, p);
    c' := RegionOf(s.path, n);
  }

  const SHALLOW: Region := Region("a", 5, 10)
  const DEEP: Region := Region("b", 5, 20)

  /** A root that lists two directories at one sector with different sizes. */
  function TwinDirectories(sector: u32, size: u32): Result<seq<Node>> {
    if sector == 1 then Ok([Node(Some("a"), true, 5, 10), Node(Some("b"), true, 5, 20)]) else Ok([])
  }

  /** The walk succeeds, both directories are reachable, and one of them is never scanned. */
  method TwinIsMissed() returns (table: Result<Table>, ghost scans: seq<Region>)
    ensures table.Ok? && Walked(TwinDirectories, Region("", 1, 100), scans)
    ensures Reachable(TwinDirectories, Region("", 1, 100), SHALLOW) && Reachable(TwinDirectories, Region("", 1, 100), DEEP)
    ensures !(Scanned(scans, SHALLOW) && Scanned(scans, DEEP))
  {
    TwinsReachable();
    assert forall r :: Sound(TwinDirectories, r);
    hide Reachable, Sound, AllMet, Discovered, AllSound, OnceEach, SectorsTellApart, TwinDirectories;
    table, scans := ReadRoot(TwinDirectories, 1, 100);
    NotBothScanned(scans);
  }

  lemma TwinsReachable()
    ensures Reachable(TwinDirectories, Region("", 1, 100), SHALLOW) && Reachable(TwinDirectories, Region("", 1, 100), DEEP)
  {
    var root := Region("", 1, 100);
    var nodes := NodesOf(TwinDirectories, root);
    assert nodes[0] in nodes && nodes[1] in nodes;
    assert ChildOf(TwinDirectories, root, SHALLOW) && ChildOf(TwinDirectories, root, DEEP);
    assert Chain(TwinDirectories, root, [root]) && [root][|[root]| - 1] == root;
    ReachableStep(TwinDirectories, root, root, SHALLOW);
    ReachableStep(TwinDirectories, root, root, DEEP);
  }

  lemma NotBothScanned(scans: seq<Region>)
    requires OnceEach(scans)
    ensures !(Scanned(scans, SHALLOW) && Scanned(scans, DEEP))
  {
    if Scanned(scans, SHALLOW) {
      var s :| s in scans && s.sector == 5 && s.size == 10;
      var i :| 0 <= i < |scans| && scans[i] == s;
      forall t | t in scans && t.sector == 5 ensures t.size == 10 {
        var j :| 0 <= j < |scans| && scans[j] == t;
        assert i == j;
      }
    }
  }

  // ---------------------------------------------------- what the table lists

  /** The node stands in the table at `sector`, of `size`. */
  predicate Holds(scan: Scanner, sector: u32, size: u32, n: Node) {
    scan(sector, size).Ok? && n in scan(sector, size).value
  }

  /** A way down: the first node stands in the root table, each later one in the subdirectory before it. */
  ghost predicate Trail(scan: Scanner, root: Region, trail: seq<Node>) {
    forall i :: 0 <= i < |trail| ==> StepDown(scan, root, trail, i)
  }

  predicate StepDown(scan: Scanner, root: Region, trail: seq<Node>, i: nat)
    requires i < |trail|
  {
    if i == 0 then Holds(scan, root.sector, root.size, trail[0])
    else trail[i - 1].directory && trail[i - 1].size != 0 && Holds(scan, trail[i - 1].sector, trail[i - 1].size, trail[i])
  }

  /** The names on the way, those without one as the empty name. */
  function NamesOn(trail: seq<Node>): seq<string> {
    seq(|trail|, i requires 0 <= i < |trail| => match trail[i].name case Some(name) => name case None => "")
  }

  /** The names with a slash between one and the next. */
  function Slashed(names: seq<string>): string {
    if names == [] then ""
    else if |names| == 1 then names[0]
    else Slashed(names[..|names| - 1]) + "/" + names[|names| - 1]
  }

  /** Without the empty names at the front: as long as the path is empty there is nothing to put a slash behind. */
  function Shorn(names: seq<string>): seq<string> {
    if names != [] && names[0] == "" then Shorn(names[1..]) else names
  }

  lemma {:induction false} ShornSnoc(names: seq<string>, name: string)
    ensures Shorn(names + [name]) == if Shorn(names) == [] && name == "" then [] else Shorn(names) + [name]
    ensures Shorn(names) != [] ==> Shorn(names)[0] != ""
  {
    if names == [] {
      assert [name][1..] == [];
    } else {
      assert (names + [name])[1..] == names[1..] + [name];
      ShornSnoc(names[1..], name);
    }
  }

  lemma {:induction false} SlashedEmpty(names: seq<string>)
    requires names != [] ==> names[0] != ""
    ensures Slashed(names) == "" <==> names == []
  {
    if |names| > 1 {
      SlashedEmpty(names[..|names| - 1]);
    }
  }

  lemma JoinPath(names: seq<string>, name: string)
    ensures Slashed(Shorn(names + [name])) == Join(Slashed(Shorn(names)), name)
  {
    ShornSnoc(names, name);
    SlashedEmpty(Shorn(names));
    assert (Shorn(names) + [name])[..|Shorn(names)|] == Shorn(names);
  }

  /** The region is the subdirectory at the end of the way, or the root itself, under the path the way spells. */
  ghost predicate LeadsTo(scan: Scanner, root: Region, trail: seq<Node>, r: Region) {
    && Trail(scan, root, trail) && r.path == Slashed(Shorn(NamesOn(trail)))
    && if trail == [] then r.sector == root.sector && r.size == root.size
       else
         var last := trail[|trail| - 1];
         last.directory && last.size != 0 && r.sector == last.sector && r.size == last.size
  }

  /** One node further, into the table of `r`. */
  lemma TrailSnoc(scan: Scanner, root: Region, trail: seq<Node>, r: Region, n: Node)
    requires LeadsTo(scan, root, trail, r) && n in NodesOf(scan, r)
    ensures Trail(scan, root, trail + [n]) && Slashed(Shorn(NamesOn(trail + [n]))) == Join(r.path, NameOf(n))
  {
    assert NamesOn(trail + [n]) == NamesOn(trail) + [NameOf(n)];
    JoinPath(NamesOn(trail), NameOf(n));
    hide Slashed, Shorn, Join, NamesOn;
    var more := trail + [n];
    forall i | 0 <= i < |more| ensures StepDown(scan, root, more, i) {
      if i < |trail| {
        assert StepDown(scan, root, trail, i);
      }
    }
  }

  lemma {:induction false} ScanTrail(scan: Scanner, root: Region, scans: seq<Region>, j: nat) returns (trail: seq<Node>)
    requires Discovered(scan, root, scans) && root.path == "" && j < |scans|
    ensures LeadsTo(scan, root, trail, scans[j])
    decreases j
  {
    if j == 0 {
      trail := [];
    } else {
      assert ChildOfSome(scan, scans[..j], scans[j]);
      var p :| p in scans[..j] && ChildOf(scan, p, scans[j]);
      var n :| n in NodesOf(scan, p) && Descends(n) && scans[j] == RegionOf(p.path, n);
      var i :| 0 <= i < j && scans[i] == p;
      var above := ScanTrail(scan, root, scans, i);
      TrailSnoc(scan, root, above, p, n);
      trail := above + [n];
    }
  }

  /** The entry is the node at the end of a way down from the root, under the path the way spells. */
  ghost predicate EndOf(scan: Scanner, root: Region, trail: seq<Node>, e: Entry) {
    && trail != [] && Trail(scan, root, trail) && e.path == Slashed(Shorn(NamesOn(trail)))
    && SameNode(trail[|trail| - 1], e)
  }

  predicate SameNode(n: Node, e: Entry) {
    n.name == Some(e.name) && n.directory == e.directory && n.sector == e.sector && n.size == e.size
  }

  lemma {:induction false} InListings(scan: Scanner, scans: seq<Region>, e: Entry) returns (j: nat, k: nat)
    requires e in Listings(scan, scans)
    ensures j < |scans| && k < |NodesOf(scan, scans[j])| && e == EntryOf(scans[j].path, NodesOf(scan, scans[j])[k])
  {
    var last := |scans| - 1;
    if e in Listings(scan, scans[..last]) {
      j, k := InListings(scan, scans[..last], e);
    } else {
      j := last;
      k :| 0 <= k < |NodesOf(scan, scans[last])| && Listing(scans[last].path, NodesOf(scan, scans[last]))[k] == e;
    }
  }

  lemma {:induction false} ListedAt(scan: Scanner, scans: seq<Region>, j: nat, k: nat)
    requires j < |scans| && k < |NodesOf(scan, scans[j])|
    ensures EntryOf(scans[j].path, NodesOf(scan, scans[j])[k]) in Listings(scan, scans)
  {
    var last := |scans| - 1;
    if j < last {
      ListedAt(scan, scans[..last], j, k);
    } else {
      assert Listing(scans[j].path, NodesOf(scan, scans[j]))[k] in Listing(scans[j].path, NodesOf(scan, scans[j]));
    }
  }

  lemma NodeTrail(scan: Scanner, root: Region, trail: seq<Node>, r: Region, n: Node)
    requires LeadsTo(scan, root, trail, r) && n in NodesOf(scan, r) && n.name.Some?
    ensures EndOf(scan, root, trail + [n], EntryOf(r.path, n))
  {
    hide Trail, Slashed, Shorn, NamesOn, Join, NodesOf;
    TrailSnoc(scan, root, trail, r, n);
  }

  /** Each entry of a finished walk is a node on some way down, with the names on the way as its path. */
  lemma EntryTrail(scan: Scanner, root: Region, scans: seq<Region>, e: Entry)
    requires Walked(scan, root, scans) && root.path == "" && e in Listings(scan, scans)
    ensures exists trail :: EndOf(scan, root, trail, e)
  {
    hide OnceEach, AllMet, Discovered, EndOf, LeadsTo, Listings, EntryOf;
    var j, k := InListings(scan, scans, e);
    assert scans[j] in scans;
    assert Sound(scan, scans[j]);
    var above := ScanTrail(scan, root, scans, j);
    NodeTrail(scan, root, above, scans[j], NodesOf(scan, scans[j])[k]);
  }

  /** The subdirectory at the end of a way, as a region. */
  function RegionAt(root: Region, trail: seq<Node>): Region {
    if trail == [] then root else RegionOf(RegionAt(root, trail[..|trail| - 1]).path, trail[|trail| - 1])
  }

  /** All but its last node is a way into subdirectories, and the last stands in the table there. */
  lemma TrailFront(scan: Scanner, root: Region, trail: seq<Node>)
    requires Trail(scan, root, trail) && trail != []
    ensures var front := trail[..|trail| - 1];
            && Trail(scan, root, front) && (forall i :: 0 <= i < |front| ==> Descends(front[i]))
            && trail[|trail| - 1] in NodesOf(scan, RegionAt(root, front))
  {
    var front := trail[..|trail| - 1];
    assert StepDown(scan, root, trail, |front|);
    forall i | 0 <= i < |front| ensures StepDown(scan, root, front, i) && Descends(front[i]) {
      assert StepDown(scan, root, trail, i) && StepDown(scan, root, trail, i + 1);
    }
  }

  lemma {:induction false} TrailReachable(scan: Scanner, root: Region, trail: seq<Node>)
    requires Trail(scan, root, trail) && forall i :: 0 <= i < |trail| ==> Descends(trail[i])
    ensures Reachable(scan, root, RegionAt(root, trail))
  {
    if trail == [] {
      assert Chain(scan, root, [root]) && [root][|[root]| - 1] == root;
    } else {
      var front, last := trail[..|trail| - 1], trail[|trail| - 1];
      TrailFront(scan, root, trail);
      TrailReachable(scan, root, front);
      hide Chain, Trail, NodesOf, Reachable;
      ReachableStep(scan, root, RegionAt(root, front), RegionAt(root, trail));
    }
  }

  lemma ScannedListed(scan: Scanner, scans: seq<Region>, r: Region, n: Node)
    requires AllSound(scan, scans) && Scanned(scans, r) && n in NodesOf(scan, r)
    ensures exists e :: e in Listings(scan, scans) && SameNode(n, e)
  {
    hide Listings;
    var s :| s in scans && s.sector == r.sector && s.size == r.size;
    var j :| 0 <= j < |scans| && scans[j] == s;
    assert Sound(scan, s);
    var k :| 0 <= k < |NodesOf(scan, s)| && NodesOf(scan, s)[k] == n;
    ListedAt(scan, scans, j, k);
    assert SameNode(n, EntryOf(s.path, n));
  }

  /** Where sectors tell tables apart, the node at the end of every way is listed. */
  lemma TrailListed(scan: Scanner, root: Region, scans: seq<Region>, trail: seq<Node>)
    requires Walked(scan, root, scans) && SectorsTellApart(scan, root) && Trail(scan, root, trail) && trail != []
    ensures exists e :: e in Listings(scan, scans) && SameNode(trail[|trail| - 1], e)
  {
    TrailFront(scan, root, trail);
    var front := trail[..|trail| - 1];
    hide Reachable, Trail, RegionAt, SectorsTellApart, Discovered, AllMet, AllSound, OnceEach, Listings, NodesOf, SameNode, Scanned;
    TrailReachable(scan, root, front);
    ReachableScanned(scan, root, scans, RegionAt(root, front));
    ScannedListed(scan, scans, RegionAt(root, front), trail[|trail| - 1]);
  }

  // ---------------------------------------------------------------------- lookup

  predicate SameIgnoringCase(a: string, b: string) {
    |a| == |b| && forall i :: 0 <= i < |a| ==> Lower(a[i]) == Lower(b[i])
  }

  /** Letter by letter the same but for ASCII case. */
  lemma IgnoringCaseMeaning(a: string, b: string)
    ensures SameIgnoringCase(a, b) <==>
              |a| == |b| && forall i :: 0 <= i < |a| ==> a[i] == b[i] || IsLetterPair(a[i], b[i]) || IsLetterPair(b[i], a[i])
  {
    if |a| == |b| {
      forall i | 0 <= i < |a| ensures Lower(a[i]) == Lower(b[i]) <==> a[i] == b[i] || IsLetterPair(a[i], b[i]) || IsLetterPair(b[i], a[i]) {
        LowerMeaning(a[i], b[i]);
      }
    }
  }

  /** `find`: the first entry with the path, whatever its case. */
  method Find(entries: seq<Entry>, path: string) returns (found: Option<nat>)
    ensures found.Some? ==>
              && found.value < |entries| && SameIgnoringCase(entries[found.value].path, path)
              && forall j :: 0 <= j < found.value ==> !SameIgnoringCase(entries[j].path, path)
    ensures found.None? <==> forall e :: e in entries ==> !SameIgnoringCase(e.path, path)
  {
    for i := 0 to |entries|
      invariant forall j :: 0 <= j < i ==> !SameIgnoringCase(entries[j].path, path)
    {
      if SameIgnoringCase(entries[i].path, path) {
        assert entries[i] in entries;
        return Some(i);
      }
    }
    found := None;
  }
}
