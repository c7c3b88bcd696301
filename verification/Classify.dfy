/**
 Grouping the complete images of a batch into disc sets: by title, disc count and container
 shape, with sets that contradict themselves taken apart again.
 */
module Classify {
  import opened Common
  import opened Permutations

  datatype Shape = File | God

  /**
   A complete image as the classifier knows it: what its executable says, and the files it is
   made of, one for a file and every data part for a GOD folder.
   */
  datatype Image = Image(names: seq<string>, titleId: nat, discCount: nat, discNumber: nat, mediaId: nat, shape: Shape)

  datatype Key = Key(titleId: nat, discCount: nat, shape: Shape)

  datatype Disc = Disc(name: string, mediaId: nat, number: nat)

  datatype Reason = DuplicateDiscClaim | InvalidDiscCount

  datatype Resolution =
    | MultiDiscSet(titleId: nat, discCount: nat, discs: seq<Disc>)
    | Standalone(titleId: nat, names: seq<string>)
    | Unplaced(names: seq<string>, reason: Reason)

  function KeyOf(image: Image): Key { Key(image.titleId, image.discCount, image.shape) }

  /** An image's first file name; every image has one. */
  function HeadName(image: Image): string { if image.names == [] then "" else image.names[0] }

  function DiscOf(image: Image): Disc { Disc(HeadName(image), image.mediaId, image.discNumber) }

  /** The images of one group, in the order they came. */
  function GroupOf(images: seq<Image>, key: Key): seq<Image> {
    if images == [] then []
    else GroupOf(images[..|images| - 1], key) + (if KeyOf(images[|images| - 1]) == key then [images[|images| - 1]] else [])
  }

  // ------------------------------------------------------------ deciding one group

  ghost predicate NumbersDiffer(group: seq<Image>) {
    forall i, j :: 0 <= i < j < |group| ==> group[i].discNumber != group[j].discNumber
  }

  ghost predicate NumbersInRange(group: seq<Image>, count: nat) {
    forall i :: 0 <= i < |group| ==> 1 <= group[i].discNumber <= count
  }

  /** A real set: several discs asked for and given, each number in range and claimed once. */
  ghost predicate FormsSet(key: Key, group: seq<Image>) {
    key.discCount > 1 && |group| > 1 && NumbersDiffer(group) && NumbersInRange(group, key.discCount)
  }

  function EachAlone(group: seq<Image>): seq<Resolution> {
    seq(|group|, i requires 0 <= i < |group| => Standalone(group[i].titleId, group[i].names))
  }

  function EachUnplaced(group: seq<Image>, reason: Reason): seq<Resolution> {
    seq(|group|, i requires 0 <= i < |group| => Unplaced(group[i].names, reason))
  }

  function Discs(group: seq<Image>): seq<Disc> {
    seq(|group|, i requires 0 <= i < |group| => DiscOf(group[i]))
  }

  /** What a group of images resolves to. */
  ghost predicate GroupResolved(key: Key, group: seq<Image>, rs: seq<Resolution>) {
    if FormsSet(key, group) then rs == [MultiDiscSet(key.titleId, key.discCount, Discs(group))]
    else if key.discCount <= 1 || |group| <= 1 then rs == EachAlone(group)
    else rs == EachUnplaced(group, if NumbersDiffer(group) then InvalidDiscCount else DuplicateDiscClaim)
  }

  /** Pigeonhole: different numbers in `1..=count` are at most `count`. */
  lemma NoMoreThanCount(group: seq<Image>, count: nat)
    requires NumbersDiffer(group) && NumbersInRange(group, count)
    ensures |group| <= count
  {
    var numbers := set i | 0 <= i < |group| :: group[i].discNumber;
    NumbersCount(group);
    IntervalBound(numbers, 1, count + 1);
  }

  lemma {:induction false} NumbersCount(group: seq<Image>)
    requires NumbersDiffer(group)
    ensures |set i | 0 <= i < |group| :: group[i].discNumber| == |group|
  {
    if group != [] {
      var init, last := group[..|group| - 1], group[|group| - 1];
      NumbersCount(init);
      var before, all := set i | 0 <= i < |init| :: init[i].discNumber, set i | 0 <= i < |group| :: group[i].discNumber;
      assert forall i :: 0 <= i < |init| ==> init[i] == group[i];
      assert all == before + {last.discNumber};
      assert last.discNumber !in before;
    }
  }

  /** The `any` over `seen_disc_numbers`. */
  method HasDuplicate(group: seq<Image>) returns (duplicate: bool)
    ensures duplicate == !NumbersDiffer(group)
  {
    var seen: set<nat> := {};
    for i := 0 to |group|
      invariant forall x :: x in seen <==> exists j :: 0 <= j < i && group[j].discNumber == x
      invariant forall j, k :: 0 <= j < k < i ==> group[j].discNumber != group[k].discNumber
    {
      if group[i].discNumber in seen {
        return true;
      }
      seen := seen + {group[i].discNumber};
    }
    duplicate := false;
  }

  method HasNumberOutOfRange(group: seq<Image>, count: nat) returns (out: bool)
    ensures out == !NumbersInRange(group, count)
  {
    for i := 0 to |group|
      invariant forall j :: 0 <= j < i ==> 1 <= group[j].discNumber <= count
    {
      if group[i].discNumber == 0 || group[i].discNumber > count {
        return true;
      }
    }
    out := false;
  }

  /** The body of the loop over the groups. */
  method ResolveGroup(key: Key, group: seq<Image>) returns (rs: seq<Resolution>)
    ensures GroupResolved(key, group, rs)
  {
    if key.discCount > 1 && |group| > 1 {
      var duplicate := HasDuplicate(group);
      if duplicate {
        return EachUnplaced(group, DuplicateDiscClaim);
      }
      var outOfRange := HasNumberOutOfRange(group, key.discCount);
      if !outOfRange {
        NoMoreThanCount(group, key.discCount);
      }
      if |group| > key.discCount || outOfRange {
        return EachUnplaced(group, InvalidDiscCount);
      }
      rs := [MultiDiscSet(key.titleId, key.discCount, Discs(group))];
    } else {
      rs := EachAlone(group);
    }
  }

  // ---------------------------------------------------------------- all the groups

  /** The names a list of resolutions accounts for, as `of` reads each of them. */
  function Accounted(rs: seq<Resolution>, of: Resolution -> multiset<string>): multiset<string> {
    if rs == [] then multiset{} else of(rs[0]) + Accounted(rs[1..], of)
  }

  /** One name per disc and per lone image: the first. */
  function HeadsOf(r: Resolution): multiset<string> {
    match r
    case MultiDiscSet(_, _, discs) => DiscNames(discs)
    case Standalone(_, names) => if names == [] then multiset{""} else multiset{names[0]}
    case Unplaced(names, _) => if names == [] then multiset{""} else multiset{names[0]}
  }

  /** Every name the resolution mentions. */
  function NamesIn(r: Resolution): multiset<string> {
    match r
    case MultiDiscSet(_, _, discs) => DiscNames(discs)
    case Standalone(_, names) => multiset(names)
    case Unplaced(names, _) => multiset(names)
  }

  function DiscNames(discs: seq<Disc>): multiset<string> {
    if discs == [] then multiset{} else multiset{discs[0].name} + DiscNames(discs[1..])
  }

  /** The names of a list of images, as `bag` reads each of them. */
  function Bags(images: seq<Image>, bag: Image -> multiset<string>): multiset<string> {
    if images == [] then multiset{} else bag(images[0]) + Bags(images[1..], bag)
  }

  function HeadBag(image: Image): multiset<string> { multiset{HeadName(image)} }

  function FileBag(image: Image): multiset<string> { multiset(image.names) }

  /** The names behind the first. */
  function TailBag(image: Image): multiset<string> { if image.names == [] then multiset{} else multiset(image.names[1..]) }

  lemma {:induction false} AccountedAppend(a: seq<Resolution>, b: seq<Resolution>, of: Resolution -> multiset<string>)
    ensures Accounted(a + b, of) == Accounted(a, of) + Accounted(b, of)
  {
    if a == [] {
      assert a + b == b;
    } else {
      assert (a + b)[1..] == a[1..] + b;
      AccountedAppend(a[1..], b, of);
    }
  }

  lemma AccountedHead(r: Resolution, rest: seq<Resolution>, of: Resolution -> multiset<string>)
    ensures Accounted([r] + rest, of) == of(r) + Accounted(rest, of)
  {
    assert ([r] + rest)[1..] == rest;
  }

  lemma BagsHead(images: seq<Image>)
    requires images != []
    ensures Bags(images, HeadBag) == HeadBag(images[0]) + Bags(images[1..], HeadBag)
    ensures Bags(images, FileBag) == FileBag(images[0]) + Bags(images[1..], FileBag)
  {
  }

  lemma {:induction false} BagsSnoc(images: seq<Image>, image: Image, bag: Image -> multiset<string>)
    ensures Bags(images + [image], bag) == Bags(images, bag) + bag(image)
  {
    if images == [] {
      assert (images + [image])[1..] == [];
    } else {
      assert (images + [image])[1..] == images[1..] + [image];
      BagsSnoc(images[1..], image, bag);
    }
  }

  lemma {:induction false} DiscHeads(group: seq<Image>)
    ensures DiscNames(Discs(group)) == Bags(group, HeadBag)
  {
    if group != [] {
      DiscHeads(group[1..]);
      assert Discs(group)[1..] == Discs(group[1..]);
    }
  }

  lemma {:induction false} AloneNames(group: seq<Image>)
    ensures Accounted(EachAlone(group), HeadsOf) == Bags(group, HeadBag)
    ensures Accounted(EachAlone(group), NamesIn) == Bags(group, FileBag)
  {
    if group != [] {
      AloneNames(group[1..]);
      var first := Standalone(group[0].titleId, group[0].names);
      assert EachAlone(group) == [first] + EachAlone(group[1..]);
      BagsHead(group);
      hide Accounted, EachAlone, Bags;
      AccountedHead(first, EachAlone(group[1..]), HeadsOf);
      AccountedHead(first, EachAlone(group[1..]), NamesIn);
    }
  }

  lemma {:induction false} UnplacedNames(group: seq<Image>, reason: Reason)
    ensures Accounted(EachUnplaced(group, reason), HeadsOf) == Bags(group, HeadBag)
    ensures Accounted(EachUnplaced(group, reason), NamesIn) == Bags(group, FileBag)
  {
    if group == [] {
      assert EachUnplaced(group, reason) == [];
    } else {
      hide Accounted, EachUnplaced, Bags;
      UnplacedNames(group[1..], reason);
      var first := Unplaced(group[0].names, reason);
      UnplacedHead(group, reason);
      BagsHead(group);
      AccountedHead(first, EachUnplaced(group[1..], reason), HeadsOf);
      AccountedHead(first, EachUnplaced(group[1..], reason), NamesIn);
    }
  }

  lemma UnplacedHead(group: seq<Image>, reason: Reason)
    requires group != []
    ensures EachUnplaced(group, reason) == [Unplaced(group[0].names, reason)] + EachUnplaced(group[1..], reason)
  {
  }

  /** Whatever a group resolves to, each of its images is in exactly one resolution; a formed set mentions first names only. */
  lemma GroupConserves(key: Key, group: seq<Image>, rs: seq<Resolution>)
    requires GroupResolved(key, group, rs)
    ensures Accounted(rs, HeadsOf) == Bags(group, HeadBag)
    ensures Accounted(rs, NamesIn) == if FormsSet(key, group) then Bags(group, HeadBag) else Bags(group, FileBag)
  {
    hide FormsSet, NumbersDiffer, Bags, DiscNames, Discs, EachAlone, EachUnplaced, Accounted;
    DiscHeads(group);
    AloneNames(group);
    UnplacedNames(group, InvalidDiscCount);
    UnplacedNames(group, DuplicateDiscClaim);
    OneSet(key.titleId, key.discCount, Discs(group));
  }

  lemma OneSet(titleId: nat, discCount: nat, discs: seq<Disc>)
    ensures Accounted([MultiDiscSet(titleId, discCount, discs)], HeadsOf) == DiscNames(discs)
    ensures Accounted([MultiDiscSet(titleId, discCount, discs)], NamesIn) == DiscNames(discs)
  {
    var r := MultiDiscSet(titleId, discCount, discs);
    assert [r][1..] == [];
    assert Accounted([], HeadsOf) == Accounted([], NamesIn) == multiset{};
  }

  /** The names of the images whose key is among `keys`. */
  function BagsUnder(images: seq<Image>, keys: seq<Key>, bag: Image -> multiset<string>): multiset<string> {
    if keys == [] then multiset{}
    else BagsUnder(images, keys[..|keys| - 1], bag) + Bags(GroupOf(images, keys[|keys| - 1]), bag)
  }

  lemma {:induction false} BagsUnderSnoc(images: seq<Image>, image: Image, keys: seq<Key>, bag: Image -> multiset<string>)
    requires AllDifferent(keys)
    ensures BagsUnder(images + [image], keys, bag) ==
            if KeyOf(image) in keys then BagsUnder(images, keys, bag) + bag(image) else BagsUnder(images, keys, bag)
  {
    if keys == [] {
    } else {
      hide BagsUnder, GroupOf, Bags;
      var init, last := keys[..|keys| - 1], keys[|keys| - 1];
      assert keys == init + [last];
      BagsUnderSnoc(images, image, init, bag);
      GroupSnoc(images, image, last);
      BagsSnoc(GroupOf(images, last), image, bag);
      BagShift(BagsUnder(images, init, bag), bag(image), Bags(GroupOf(images, last), bag));
      if KeyOf(image) == last {
        assert last !in init;
      } else {
        assert KeyOf(image) in keys <==> KeyOf(image) in init;
      }
    }
  }

  lemma BagShift(a: multiset<string>, m: multiset<string>, b: multiset<string>)
    ensures a + m + b == a + b + m && a + (b + m) == a + b + m
  {
  }

  lemma GroupSnoc(images: seq<Image>, image: Image, key: Key)
    ensures GroupOf(images + [image], key) == if KeyOf(image) == key then GroupOf(images, key) + [image] else GroupOf(images, key)
  {
    assert (images + [image])[..|images|] == images;
  }

  /** The groups of all keys together hold every image once. */
  lemma {:induction false} GroupsPartition(images: seq<Image>, keys: seq<Key>, bag: Image -> multiset<string>)
    requires AllDifferent(keys) && forall image :: image in images ==> KeyOf(image) in keys
    ensures BagsUnder(images, keys, bag) == Bags(images, bag)
    decreases |images|
  {
    if images == [] {
      NoImages(keys, bag);
    } else {
      var init, last := images[..|images| - 1], images[|images| - 1];
      assert images == init + [last];
      GroupsPartition(init, keys, bag);
      BagsUnderSnoc(init, last, keys, bag);
      BagsSnoc(init, last, bag);
    }
  }

  lemma {:induction false} NoImages(keys: seq<Key>, bag: Image -> multiset<string>)
    ensures BagsUnder([], keys, bag) == multiset{}
  {
    if keys != [] {
      NoImages(keys[..|keys| - 1], bag);
    }
  }

  lemma {:induction false} GroupMembers(images: seq<Image>, key: Key, image: Image)
    ensures image in GroupOf(images, key) <==> image in images && KeyOf(image) == key
  {
    if images != [] {
      var init, last := images[..|images| - 1], images[|images| - 1];
      GroupMembers(init, key, image);
      assert image in images <==> image in init || image == last;
    }
  }

  /** The results are the groups' resolutions, key after key. */
  ghost predicate Resolved(images: seq<Image>, keys: seq<Key>, results: seq<Resolution>)
    decreases |keys|
  {
    if keys == [] then results == []
    else exists before, rs ::
      && results == before + rs && Resolved(images, keys[..|keys| - 1], before)
      && GroupResolved(keys[|keys| - 1], GroupOf(images, keys[|keys| - 1]), rs)
  }

  /** Conservation over all groups. */
  lemma {:induction false} ResolvedConserves(images: seq<Image>, keys: seq<Key>, results: seq<Resolution>)
    requires Resolved(images, keys, results)
    ensures Accounted(results, HeadsOf) == BagsUnder(images, keys, HeadBag)
    decreases |keys|
  {
    if keys != [] {
      var init, last := keys[..|keys| - 1], keys[|keys| - 1];
      var before, rs :| results == before + rs && Resolved(images, init, before) && GroupResolved(last, GroupOf(images, last), rs);
      ResolvedConserves(images, init, before);
      GroupConserves(last, GroupOf(images, last), rs);
      AccountedAppend(before, rs, HeadsOf);
    }
  }

  // ------------------------------------------------------------ names behind the first

  /** What formed sets leave out: the names behind the first of every image in one. */
  ghost function Dropped(images: seq<Image>, keys: seq<Key>): multiset<string> {
    if keys == [] then multiset{}
    else
      var key := keys[|keys| - 1];
      var group := GroupOf(images, key);
      Dropped(images, keys[..|keys| - 1]) + (if FormsSet(key, group) then Bags(group, TailBag) else multiset{})
  }

  /** Every image of every formed set is a single file. */
  ghost predicate SetsOfSingleFiles(images: seq<Image>, keys: seq<Key>) {
    forall key, image :: key in keys && FormsSet(key, GroupOf(images, key)) && image in GroupOf(images, key) ==> |image.names| == 1
  }

  /** Every file name survives into the results exactly when no image of a formed set has more than one file. */
  lemma FilesSurvive(images: seq<Image>, keys: seq<Key>, results: seq<Resolution>)
    requires Resolved(images, keys, results) && AllDifferent(keys)
    requires forall image :: image in images ==> image.names != [] && KeyOf(image) in keys
    ensures Accounted(results, NamesIn) + Dropped(images, keys) == Bags(images, FileBag)
    ensures Accounted(results, NamesIn) == Bags(images, FileBag) <==> SetsOfSingleFiles(images, keys)
  {
    ResolvedMentions(images, keys, results);
    GroupsPartition(images, keys, FileBag);
    NothingDropped(images, keys);
    hide *;
    NothingAdded(Accounted(results, NamesIn), Dropped(images, keys));
  }

  lemma NothingAdded(a: multiset<string>, b: multiset<string>)
    ensures a == a + b <==> b == multiset{}
  {
    if a == a + b {
      forall x ensures b[x] == 0 {
        assert (a + b)[x] == a[x] + b[x];
      }
    }
  }

  lemma {:induction false} ResolvedMentions(images: seq<Image>, keys: seq<Key>, results: seq<Resolution>)
    requires Resolved(images, keys, results) && forall image :: image in images ==> image.names != []
    ensures Accounted(results, NamesIn) + Dropped(images, keys) == BagsUnder(images, keys, FileBag)
    decreases |keys|
  {
    if keys != [] {
      hide GroupResolved, GroupOf, FormsSet, Bags, Accounted;
      var init, last := keys[..|keys| - 1], keys[|keys| - 1];
      var before, rs :| results == before + rs && Resolved(images, init, before) && GroupResolved(last, GroupOf(images, last), rs);
      ResolvedMentions(images, init, before);
      GroupConserves(last, GroupOf(images, last), rs);
      AccountedAppend(before, rs, NamesIn);
      forall image | image in GroupOf(images, last) ensures image.names != [] {
        GroupMembers(images, last, image);
      }
      FilesSplit(GroupOf(images, last));
    } else {
      assert Accounted([], NamesIn) == multiset{};
    }
  }

  lemma {:induction false} FilesSplit(group: seq<Image>)
    requires forall image :: image in group ==> image.names != []
    ensures Bags(group, FileBag) == Bags(group, HeadBag) + Bags(group, TailBag)
  {
    if group != [] {
      FilesSplit(group[1..]);
      MultisetHead(group[0].names);
      assert group[0] in group;
    }
  }

  lemma {:induction false} NoTails(group: seq<Image>)
    requires forall image :: image in group ==> image.names != []
    ensures Bags(group, TailBag) == multiset{} <==> forall image :: image in group ==> |image.names| == 1
  {
    if group != [] {
      NoTails(group[1..]);
      assert group == [group[0]] + group[1..];
      assert |TailBag(group[0])| == |group[0].names| - 1;
    }
  }

  lemma {:induction false} NothingDropped(images: seq<Image>, keys: seq<Key>)
    requires forall image :: image in images ==> image.names != []
    ensures Dropped(images, keys) == multiset{} <==> SetsOfSingleFiles(images, keys)
  {
    if keys != [] {
      hide GroupOf, FormsSet, Bags;
      var init, last := keys[..|keys| - 1], keys[|keys| - 1];
      NothingDropped(images, init);
      forall image | image in GroupOf(images, last) ensures image.names != [] {
        GroupMembers(images, last, image);
      }
      NoTails(GroupOf(images, last));
      assert forall key :: key in keys <==> key in init || key == last;
    }
  }

  /** A set that is reported: the images of one group, two or more, numbered differently within the count. */
  ghost predicate GenuineSet(images: seq<Image>, r: Resolution) {
    r.MultiDiscSet? ==>
      exists key, group ::
        && group == GroupOf(images, key) && |group| >= 2 && |group| <= r.discCount
        && r == MultiDiscSet(key.titleId, key.discCount, Discs(group))
        && NumbersDiffer(group) && NumbersInRange(group, key.discCount)
  }

  lemma GroupSetsGenuine(images: seq<Image>, key: Key, rs: seq<Resolution>)
    requires GroupResolved(key, GroupOf(images, key), rs)
    ensures forall r :: r in rs ==> GenuineSet(images, r)
  {
    var group := GroupOf(images, key);
    if FormsSet(key, group) {
      NoMoreThanCount(group, key.discCount);
      assert GenuineSet(images, rs[0]);
    }
  }

  /** Every reported set is genuine. */
  lemma {:induction false} SetsAreGenuine(images: seq<Image>, keys: seq<Key>, results: seq<Resolution>)
    requires Resolved(images, keys, results)
    ensures forall r :: r in results ==> GenuineSet(images, r)
    decreases |keys|
  {
    hide GenuineSet, GroupResolved;
    if keys != [] {
      var init, last := keys[..|keys| - 1], keys[|keys| - 1];
      var before, rs :| results == before + rs && Resolved(images, init, before) && GroupResolved(last, GroupOf(images, last), rs);
      SetsAreGenuine(images, init, before);
      GroupSetsGenuine(images, last, rs);
    }
  }

  // ------------------------------------------------------ the report, entry by entry

  /** The two may be discs of one set. */
  predicate Mates(a: Image, b: Image) { a.titleId == b.titleId && a.discCount == b.discCount && a.shape == b.shape }

  /** `at` lists, in order, the places of all images that go with the one at its first. */
  ghost predicate PlacesOf(images: seq<Image>, at: seq<nat>) {
    && at != [] && (forall k :: 0 <= k < |at| ==> at[k] < |images|) && (forall j, k :: 0 <= j < k < |at| ==> at[j] < at[k])
    && forall i: nat :: i in at <==> i < |images| && Mates(images[i], images[at[0]])
  }

  ghost predicate ClaimedTwice(images: seq<Image>, at: seq<nat>)
    requires PlacesOf(images, at)
  {
    exists j, k :: 0 <= j < k < |at| && images[at[j]].discNumber == images[at[k]].discNumber
  }

  ghost predicate NumberedOutside(images: seq<Image>, at: seq<nat>)
    requires PlacesOf(images, at)
  {
    exists k :: 0 <= k < |at| && !(1 <= images[at[k]].discNumber <= images[at[0]].discCount)
  }

  /** The entry lists the disc as the image describes itself. */
  predicate Describes(d: Disc, image: Image) {
    image.names != [] ==> d.name == image.names[0] && d.number == image.discNumber && d.mediaId == image.mediaId
  }

  /** Why the images at these places are reported as `r`. */
  ghost predicate Explains(images: seq<Image>, at: seq<nat>, r: Resolution)
    requires PlacesOf(images, at)
  {
    var count := images[at[0]].discCount;
    match r
    case MultiDiscSet(titleId, discCount, discs) =>
      && |at| >= 2 && count >= 2 && !ClaimedTwice(images, at) && !NumberedOutside(images, at)
      && titleId == images[at[0]].titleId && discCount == count
      && |discs| == |at| && forall k :: 0 <= k < |at| ==> Describes(discs[k], images[at[k]])
    case Standalone(titleId, names) =>
      && (|at| == 1 || count <= 1)
      && titleId == images[at[0]].titleId && exists k :: 0 <= k < |at| && names == images[at[k]].names
    case Unplaced(names, reason) =>
      && |at| >= 2 && count >= 2 && (ClaimedTwice(images, at) || NumberedOutside(images, at))
      && (reason == DuplicateDiscClaim <==> ClaimedTwice(images, at))
      && exists k :: 0 <= k < |at| && names == images[at[k]].names
  }

  ghost predicate Explained(images: seq<Image>, r: Resolution) {
    exists at :: PlacesOf(images, at) && Explains(images, at, r)
  }

  /** `at` lists, in order, where the images with the key stand, and `group` the images. */
  ghost predicate Stand(images: seq<Image>, key: Key, group: seq<Image>, at: seq<nat>) {
    && |at| == |group| && (forall k :: 0 <= k < |at| ==> at[k] < |images| && images[at[k]] == group[k])
    && (forall j, k :: 0 <= j < k < |at| ==> at[j] < at[k])
    && forall i: nat :: i in at <==> i < |images| && KeyOf(images[i]) == key
  }

  lemma {:induction false} GroupPlaces(images: seq<Image>, key: Key) returns (at: seq<nat>)
    ensures Stand(images, key, GroupOf(images, key), at)
  {
    at := [];
    if images != [] {
      var init, last := images[..|images| - 1], images[|images| - 1];
      at := GroupPlaces(init, key);
      var group := GroupOf(init, key);
      assert GroupOf(images, key) == group + (if KeyOf(last) == key then [last] else []);
      hide GroupOf;
      StandOneMore(init, last, key, group, at);
      assert init + [last] == images;
      if KeyOf(last) == key {
        at := at + [|init|];
      }
    }
  }

  lemma StandOneMore(images: seq<Image>, image: Image, key: Key, group: seq<Image>, at: seq<nat>)
    requires Stand(images, key, group, at)
    ensures if KeyOf(image) == key then Stand(images + [image], key, group + [image], at + [|images|])
            else Stand(images + [image], key, group + [], at)
  {
    var all := images + [image];
    forall k | 0 <= k < |at| ensures at[k] < |images| && all[at[k]] == group[k] {
    }
    forall i: nat ensures i in at <==> i < |images| && KeyOf(all[i]) == key {
      assert i in at <==> i < |images| && KeyOf(images[i]) == key;
    }
    hide KeyOf;
    if KeyOf(image) == key {
      var more := at + [|images|];
      forall j, k | 0 <= j < k < |more| ensures more[j] < more[k] {
        assert more[j] == at[j];
      }
    } else {
      assert group + [] == group;
    }
  }

  lemma GroupExplained(images: seq<Image>, key: Key, rs: seq<Resolution>)
    requires GroupResolved(key, GroupOf(images, key), rs)
    ensures forall r :: r in rs ==> Explained(images, r)
  {
    var group := GroupOf(images, key);
    var at := GroupPlaces(images, key);
    assert group == [] ==> rs == [];
    hide GroupOf, GroupResolved;
    if group != [] {
      PlacesAndNumbers(images, key, group, at);
      hide Stand, PlacesOf, Explains;
      forall k | 0 <= k < |rs| ensures Explained(images, rs[k]) {
        EntryExplained(images, key, group, at, rs, k);
      }
    }
  }

  lemma EntryExplained(images: seq<Image>, key: Key, group: seq<Image>, at: seq<nat>, rs: seq<Resolution>, k: nat)
    requires GroupResolved(key, group, rs) && k < |rs|
    requires |at| == |group| && PlacesOf(images, at) && forall k :: 0 <= k < |at| ==> images[at[k]] == group[k] && KeyOf(group[k]) == key
    requires NumbersDiffer(group) <==> !ClaimedTwice(images, at)
    requires NumbersInRange(group, key.discCount) <==> !NumberedOutside(images, at)
    ensures Explains(images, at, rs[k])
  {
    hide ClaimedTwice, NumberedOutside, NumbersDiffer, NumbersInRange;
    assert images[at[0]] == group[0];
    if !FormsSet(key, group) {
      assert images[at[k]] == group[k];
    }
  }

  lemma PlacesAndNumbers(images: seq<Image>, key: Key, group: seq<Image>, at: seq<nat>)
    requires Stand(images, key, group, at) && at != []
    ensures |at| == |group| && PlacesOf(images, at)
    ensures forall k :: 0 <= k < |at| ==> images[at[k]] == group[k] && KeyOf(group[k]) == key
    ensures NumbersDiffer(group) <==> !ClaimedTwice(images, at)
    ensures NumbersInRange(group, key.discCount) <==> !NumberedOutside(images, at)
  {
    assert forall k :: 0 <= k < |at| ==> at[k] in at;
    forall i: nat ensures i in at <==> i < |images| && Mates(images[i], images[at[0]]) {
      assert i in at <==> i < |images| && KeyOf(images[i]) == key;
    }
  }

  /** Every entry of the report is explained by the images of one title, disc count and shape, all of them. */
  lemma {:induction false} AllExplained(images: seq<Image>, keys: seq<Key>, results: seq<Resolution>)
    requires Resolved(images, keys, results)
    ensures forall r :: r in results ==> Explained(images, r)
    decreases |keys|
  {
    hide Explained, GroupResolved;
    if keys != [] {
      var init, last := keys[..|keys| - 1], keys[|keys| - 1];
      var before, rs :| results == before + rs && Resolved(images, init, before) && GroupResolved(last, GroupOf(images, last), rs);
      AllExplained(images, init, before);
      GroupExplained(images, last, rs);
    }
  }

  /** The `groups` map: under each key its group, and no key without one. */
  ghost predicate Grouped(images: seq<Image>, groups: map<Key, seq<Image>>) {
    && (forall key :: key in groups ==> groups[key] == GroupOf(images, key))
    && (forall image :: image in images ==> KeyOf(image) in groups)
  }

  function Under(groups: map<Key, seq<Image>>, key: Key): seq<Image> { if key in groups then groups[key] else [] }

  /** The map after the first images: each key's group so far. */
  ghost predicate GroupedSoFar(images: seq<Image>, groups: map<Key, seq<Image>>) {
    && (forall key :: GroupOf(images, key) == Under(groups, key))
    && (forall image :: image in images ==> KeyOf(image) in groups)
  }

  lemma GroupOneMore(images: seq<Image>, groups: map<Key, seq<Image>>, image: Image)
    requires GroupedSoFar(images, groups)
    ensures GroupedSoFar(images + [image], groups[KeyOf(image) := Under(groups, KeyOf(image)) + [image]])
  {
    var more := groups[KeyOf(image) := Under(groups, KeyOf(image)) + [image]];
    forall key ensures GroupOf(images + [image], key) == Under(more, key) {
      GroupSnoc(images, image, key);
      assert GroupOf(images, key) == Under(groups, key);
    }
  }

  /** `groups.entry(key).or_default().push(image)`, image by image. */
  method GroupByKey(images: seq<Image>) returns (groups: map<Key, seq<Image>>)
    ensures Grouped(images, groups)
  {
    hide GroupOf;
    groups := map[];
    NothingGrouped();
    for i := 0 to |images|
      invariant GroupedSoFar(images[..i], groups)
    {
      hide GroupedSoFar;
      GroupOneMore(images[..i], groups, images[i]);
      assert images[..i + 1] == images[..i] + [images[i]];
      var key := KeyOf(images[i]);
      groups := groups[key := Under(groups, key) + [images[i]]];
    }
    assert images[..|images|] == images;
  }

  lemma NothingGrouped()
    ensures GroupedSoFar([], map[])
  {
  }

  /** `resolve_complete_images`; the groups come in whatever order the map gives. */
  method ResolveCompleteImages(images: seq<Image>) returns (results: seq<Resolution>, ghost keys: seq<Key>)
    requires forall image :: image in images ==> image.names != []
    ensures Resolved(images, keys, results) && AllDifferent(keys)
    ensures forall image :: image in images ==> KeyOf(image) in keys
    ensures Accounted(results, HeadsOf) == Bags(images, HeadBag)
    ensures Accounted(results, NamesIn) == Bags(images, FileBag) <==> SetsOfSingleFiles(images, keys)
    ensures forall r :: r in results ==> GenuineSet(images, r) && Explained(images, r)
  {
    hide Resolved, GenuineSet, GroupResolved, Explained;
    var groups := GroupByKey(images);
    results, keys := [], [];
    var left := groups.Keys;
    NothingResolved(images);
    while left != {}
      invariant left <= groups.Keys && AllDifferent(keys)
      invariant forall key :: key in groups ==> (key in left <==> key !in keys)
      invariant Resolved(images, keys, results)
      decreases |left|
    {
      var key :| key in left;
      left := left - {key};
      forall image | image in groups[key] ensures KeyOf(image) == key {
        GroupMembers(images, key, image);
      }
      var rs := ResolveGroup(key, groups[key]);
      MoreResolved(images, keys, results, key, rs);
      results := results + rs;
      keys := keys + [key];
    }
    ResolvedConserves(images, keys, results);
    GroupsPartition(images, keys, HeadBag);
    FilesSurvive(images, keys, results);
    SetsAreGenuine(images, keys, results);
    AllExplained(images, keys, results);
  }

  lemma NothingResolved(images: seq<Image>)
    ensures Resolved(images, [], [])
  {
  }

  lemma MoreResolved(images: seq<Image>, keys: seq<Key>, results: seq<Resolution>, key: Key, rs: seq<Resolution>)
    requires Resolved(images, keys, results) && GroupResolved(key, GroupOf(images, key), rs)
    ensures Resolved(images, keys + [key], results + rs)
  {
    hide GroupResolved, GroupOf;
    assert (keys + [key])[..|keys|] == keys;
  }

  /** Images that are files have one name, as the classifier builds them. */
  ghost predicate FilesAreSingle(images: seq<Image>) {
    forall image :: image in images && image.shape == File ==> |image.names| == 1
  }

  /** Only GOD folders can lose names: those of two or more parts that end up in a formed set. */
  lemma OnlyFoldersLose(images: seq<Image>, keys: seq<Key>)
    requires FilesAreSingle(images)
    ensures SetsOfSingleFiles(images, keys) <==>
            forall key, image :: key in keys && key.shape == God && FormsSet(key, GroupOf(images, key)) && image in GroupOf(images, key) ==>
              |image.names| == 1
  {
    hide GroupOf, FormsSet;
    forall key, image | key in keys && key.shape == File && image in GroupOf(images, key) ensures |image.names| == 1 {
      GroupMembers(images, key, image);
    }
  }

  /** Disc one in a GOD folder of two parts, disc two in one of a single part. */
  const GOD_PAIR: seq<Image> := [Image(["Data0000", "Data0001"], 7, 2, 1, 0, God), Image(["b/Data0000"], 7, 2, 2, 0, God)]

  /** They form a set, and the set does not mention the second part of disc one. */
  method FolderLosesName() returns (results: seq<Resolution>)
    ensures Accounted(results, NamesIn) != Bags(GOD_PAIR, FileBag)
  {
    GodPairForms();
    hide *;
    ghost var keys;
    results, keys := ResolveCompleteImages(GOD_PAIR);
    GodPairDrops(keys);
  }

  lemma GodPairForms()
    ensures GroupOf(GOD_PAIR, Key(7, 2, God)) == GOD_PAIR && FormsSet(Key(7, 2, God), GOD_PAIR)
    ensures forall image :: image in GOD_PAIR ==> image.names != []
  {
    var a, b := GOD_PAIR[0], GOD_PAIR[1];
    assert [a, b][..1] == [a] && [a][..0] == [];
    assert GroupOf([a], Key(7, 2, God)) == [a];
    assert GroupOf([a, b], Key(7, 2, God)) == [a, b];
  }

  lemma GodPairDrops(keys: seq<Key>)
    requires forall image :: image in GOD_PAIR ==> KeyOf(image) in keys
    ensures !SetsOfSingleFiles(GOD_PAIR, keys)
  {
    GodPairForms();
    hide GroupOf, FormsSet;
    assert GOD_PAIR[0] in GOD_PAIR && KeyOf(GOD_PAIR[0]) == Key(7, 2, God);
  }
}
