/** Four files for which the search for a group, once narrowed, tries other files than its candidates,
    and chooses another one than they lead to. */
module NarrowingExample {
  import opened Efficiency
  import opened Subsets
  import opened SubsetLimits
  import opened BestSubsets
  import opened CandidateSearch
  import opened Partition

  function FileWith(a: real, b: real, c: real, d: real, e: real): File {
    [Entry(1, 1, a), Entry(1, 2, b), Entry(1, 3, c), Entry(1, 4, d), Entry(1, 5, e)]
  }

  function Files(): seq<File> {
    [FileWith(0.1, 1.0, 0.1, 0.1, 0.1), FileWith(0.9, 1.0, 0.1, 0.1, 0.1),
     FileWith(0.9, 0.1, 0.95, 1.0, 0.1), FileWith(0.9, 0.1, 0.95, 0.1, 1.0)]
  }

  /** `f` are the files, and `all` is the remainder of all of them. */
  ghost predicate IsExample(f: seq<File>, all: seq<nat>) {
    f == Files() && all == First(4) && Comparable(f) && Known(f, all)
  }

  lemma FilesAreComparable()
    ensures Comparable(Files()) && IsExample(Files(), [0, 1, 2, 3])
  {
    assert First(4) == [0, 1, 2, 3];
  }

  lemma ExampleFacts(f: seq<File>, all: seq<nat>)
    requires IsExample(f, all)
    ensures all == [0, 1, 2, 3] && Places(all, 4) && Places([1, 2, 3], 4) && Places([1, 2], 4) && Places([2, 3], 4)
    ensures Known(f, [1, 2, 3]) && Known(f, [2, 3]) && Known(f, [])
    ensures Picked(all, all) == all && Picked(all, [1, 2, 3]) == [1, 2, 3] && Picked(all, [2, 3]) == [2, 3]
  {
  }

  // ---- the efficiency of pairs and triples ----

  lemma OneProduct(subset: seq<nat>)
    requires Known(Files(), subset) && |subset| >= 2
    ensures Comparable(Files())
    ensures OfSubset(Files(), subset) == Min(1.0, BestEntry(Files(), subset, 0, 5))
  {
    FilesAreComparable();
    var file := Files()[0];
    assert RunStart(file, 0) == 0;
    assert RunStart(file, 1) == 0;
    assert RunStart(file, 2) == 0;
    assert RunStart(file, 3) == 0;
    assert RunStart(file, 4) == 0;
    assert WorstRun(Files(), subset, 0) == 1.0;
  }

  lemma FiveEntries(subset: seq<nat>)
    requires Comparable(Files()) && Known(Files(), subset)
    ensures BestEntry(Files(), subset, 0, 5) ==
            Max(Max(Max(Max(Max(0.0, EntryEfficiency(Files(), subset, 0)), EntryEfficiency(Files(), subset, 1)),
                        EntryEfficiency(Files(), subset, 2)), EntryEfficiency(Files(), subset, 3)),
                EntryEfficiency(Files(), subset, 4))
  {
    hide EntryEfficiency;
    var f := Files();
    assert BestEntry(f, subset, 0, 1) == Max(BestEntry(f, subset, 0, 0), EntryEfficiency(f, subset, 0));
    assert BestEntry(f, subset, 0, 2) == Max(BestEntry(f, subset, 0, 1), EntryEfficiency(f, subset, 1));
    assert BestEntry(f, subset, 0, 3) == Max(BestEntry(f, subset, 0, 2), EntryEfficiency(f, subset, 2));
    assert BestEntry(f, subset, 0, 4) == Max(BestEntry(f, subset, 0, 3), EntryEfficiency(f, subset, 3));
  }

  lemma EntryOfPair(files: seq<File>, a: nat, b: nat, e: nat)
    requires Comparable(files) && a < |files| && b < |files| && e < |files[0]|
    ensures EntryEfficiency(files, [a, b], e) == Min(Min(1.0, files[a][e].efficiency), files[b][e].efficiency)
  {
    assert [a, b][..1] == [a] && [a][..0] == [];
    assert EntryEfficiency(files, [a], e) == Min(1.0, files[a][e].efficiency);
  }

  lemma EntryOfTriple(files: seq<File>, a: nat, b: nat, c: nat, e: nat)
    requires Comparable(files) && a < |files| && b < |files| && c < |files| && e < |files[0]|
    ensures EntryEfficiency(files, [a, b, c], e) ==
            Min(Min(Min(1.0, files[a][e].efficiency), files[b][e].efficiency), files[c][e].efficiency)
  {
    assert [a, b, c][..2] == [a, b];
    EntryOfPair(files, a, b, e);
  }

  lemma Pair(a: nat, b: nat)
    requires a < b < 4
    ensures Comparable(Files())
    ensures OfSubset(Files(), [a, b]) ==
            if a == 0 then (if b == 1 then 1.0 else 0.1) else if a == 1 then 0.9 else 0.95
  {
    hide EntryEfficiency, BestEntry, OfSubset;
    OneProduct([a, b]);
    FiveEntries([a, b]);
    EntryOfPair(Files(), a, b, 0);
    EntryOfPair(Files(), a, b, 1);
    EntryOfPair(Files(), a, b, 2);
    EntryOfPair(Files(), a, b, 3);
    EntryOfPair(Files(), a, b, 4);
  }

  lemma Triple(a: nat, b: nat, c: nat)
    requires a < b < c < 4
    ensures Comparable(Files())
    ensures OfSubset(Files(), [a, b, c]) == if a == 0 then 0.1 else 0.9
  {
    hide EntryEfficiency, BestEntry, OfSubset;
    OneProduct([a, b, c]);
    FiveEntries([a, b, c]);
    EntryOfTriple(Files(), a, b, c, 0);
    EntryOfTriple(Files(), a, b, c, 1);
    EntryOfTriple(Files(), a, b, c, 2);
    EntryOfTriple(Files(), a, b, c, 3);
    EntryOfTriple(Files(), a, b, c, 4);
  }

  // ---- what is best at each size ----

  lemma BestTriple()
    ensures Comparable(Files()) && IsBest(Files(), [], [0, 1, 2, 3], 3, 4, [1, 2, 3], 0.9)
  {
    FilesAreComparable();
    var all := [0, 1, 2, 3];
    forall t | IsSubset(t, 3, 4)
      ensures TrialEfficiency(Files(), [], all, t) == if t == [1, 2, 3] then 0.9 else 0.1
    {
      assert t == [t[0], t[1], t[2]] && [] + Picked(all, t) == t;
      Triple(t[0], t[1], t[2]);
    }
    assert IsSubset([1, 2, 3], 3, 4);
    forall t | IsSubset(t, 3, 4) && Before(t, [1, 2, 3])
      ensures t != [1, 2, 3]
    {
      BeforeIsAsymmetric(t, [1, 2, 3]);
    }
  }

  /** Of the first three places of the remainder. */
  lemma BestPair()
    ensures Comparable(Files()) && IsBest(Files(), [], [0, 1, 2, 3], 2, 3, [0, 1], 1.0)
  {
    FilesAreComparable();
    var all := [0, 1, 2, 3];
    forall t | IsSubset(t, 2, 3)
      ensures TrialEfficiency(Files(), [], all, t) == if t == [0, 1] then 1.0 else if t == [0, 2] then 0.1 else 0.9
    {
      assert t == [t[0], t[1]] && [] + Picked(all, t) == t;
      Pair(t[0], t[1]);
    }
    assert IsSubset([0, 1], 2, 3);
    forall t | IsSubset(t, 2, 3) && Before(t, [0, 1])
      ensures t != [0, 1]
    {
      BeforeIsAsymmetric(t, [0, 1]);
    }
  }

  /** Of the three files that have won. */
  lemma BestOwnPair()
    ensures Comparable(Files()) && IsBest(Files(), [], [1, 2, 3], 2, 3, [1, 2], 0.95)
  {
    FilesAreComparable();
    var own := [1, 2, 3];
    forall t | IsSubset(t, 2, 3)
      ensures TrialEfficiency(Files(), [], own, t) == if t == [1, 2] then 0.95 else 0.9
    {
      assert t == [t[0], t[1]] && [] + Picked(own, t) == [t[0] + 1, t[1] + 1];
      Pair(t[0] + 1, t[1] + 1);
    }
    assert IsSubset([1, 2], 2, 3);
    forall t | IsSubset(t, 2, 3) && Before(t, [1, 2])
      ensures t != [1, 2]
    {
      BeforeIsAsymmetric(t, [1, 2]);
    }
  }

  lemma BestSingle(remainder: seq<nat>)
    requires Known(Files(), remainder) && |remainder| >= 2
    ensures Comparable(Files()) && IsBest(Files(), [], remainder, 1, 2, [0], 1.0)
  {
    FilesAreComparable();
    forall t | IsSubset(t, 1, 2)
      ensures TrialEfficiency(Files(), [], remainder, t) == 1.0 && !Before(t, [0])
    {
      assert |[] + Picked(remainder, t)| == 1;
    }
    assert IsSubset([0], 1, 2);
  }

  // ---- the two searches ----

  /** With a threshold of 0 and an empty group, the files 1, 2 and 3 win. Of their places 0, 1 and 2,
      the files 0 and 1 of the remainder are best, so file 1 is chosen. */
  lemma SearchChoosesOne(f: seq<File>, all: seq<nat>)
    requires IsExample(f, all)
    ensures Known(f, []) && Search(f, [], all, 0.0, all, 3) == 1
    ensures !ReadsOwn(all, [1, 2, 3], 2)
  {
    hide IsBest, Narrowed, ReadsOwn, Files, IsSubset;
    ExampleFacts(f, all);
    BestTriple();
    NarrowedIs(f, [], all, 0.0, all, 3, [1, 2, 3], 0.9);
    BestPair();
    NarrowedIs(f, [], all, 0.0, [1, 2, 3], 2, [0, 1], 1.0);
    assert Picked([1, 2, 3], [0, 1]) == [1, 2];
    BestSingle(all);
    NarrowedIs(f, [], all, 0.0, [1, 2], 1, [0], 1.0);
    assert Picked([1, 2], [0]) == [1];
    ThreeSearches(f, all, [1, 2, 3], [1, 2], [1]);
    ReadsOwnExactly(all, [1, 2, 3], 2);
    assert First(3)[0] != [1, 2, 3][0];
  }

  lemma ThreeSearches(f: seq<File>, all: seq<nat>, three: seq<nat>, two: seq<nat>, one: seq<nat>)
    requires IsExample(f, all) && |three| == 3 && |two| == 2 && |one| == 1
    requires Known(f, []) && Places(all, 4) && Places(three, 4) && Places(two, 4)
    requires Narrowed(f, [], all, 0.0, all, 3) == three && Narrowed(f, [], all, 0.0, three, 2) == two
    requires Narrowed(f, [], all, 0.0, two, 1) == one
    ensures Search(f, [], all, 0.0, all, 3) == one[0]
  {
    hide Narrowed, Files;
    assert Search(f, [], all, 0.0, one, 0) == one[0];
    assert Search(f, [], all, 0.0, two, 1) == one[0];
    assert Search(f, [], all, 0.0, three, 2) == one[0];
  }

  /** Of the files 1, 2 and 3 themselves, 2 and 3 are best, and file 2 would be chosen. */
  lemma OwnSearchChoosesTwo(f: seq<File>, all: seq<nat>)
    requires IsExample(f, all)
    ensures Known(f, []) && OwnSearch(f, [], all, 0.0, all, 3) == 2
  {
    hide IsBest, OwnNarrowed, Files, IsSubset;
    ExampleFacts(f, all);
    BestTriple();
    OwnNarrowedIs(f, [], all, 0.0, all, 3, [1, 2, 3], 0.9);
    BestOwnPair();
    OwnNarrowedIs(f, [], all, 0.0, [1, 2, 3], 2, [1, 2], 0.95);
    assert Picked([1, 2, 3], [1, 2]) == [2, 3];
    BestSingle([2, 3]);
    OwnNarrowedIs(f, [], all, 0.0, [2, 3], 1, [0], 1.0);
    assert Picked([2, 3], [0]) == [2];
    ThreeOwnSearches(f, all, [1, 2, 3], [2, 3], [2]);
  }

  lemma ThreeOwnSearches(f: seq<File>, all: seq<nat>, three: seq<nat>, two: seq<nat>, one: seq<nat>)
    requires IsExample(f, all) && |three| == 3 && |two| == 2 && |one| == 1
    requires Known(f, []) && Places(all, 4) && Places(three, 4) && Places(two, 4)
    requires OwnNarrowed(f, [], all, 0.0, all, 3) == three && OwnNarrowed(f, [], all, 0.0, three, 2) == two
    requires OwnNarrowed(f, [], all, 0.0, two, 1) == one
    ensures OwnSearch(f, [], all, 0.0, all, 3) == one[0]
  {
    hide OwnNarrowed, Files;
    assert OwnSearch(f, [], all, 0.0, one, 0) == one[0];
    assert OwnSearch(f, [], all, 0.0, two, 1) == one[0];
    assert OwnSearch(f, [], all, 0.0, three, 2) == one[0];
  }

  lemma LimitOfFour(limit: nat)
    requires IsLimit(4, limit)
    ensures limit == 3
  {
    assert Choose(4, 1) == 4 && Choose(4, 2) == 6 && Choose(4, 3) == 4;
    forall j | 1 <= j <= 3
      ensures Choose(4, j) <= 100
    {
    }
  }

  /** So it is that the search chooses file 1. */
  method ChooseAmongFour() returns (place: nat)
    ensures place == 1
  {
    var files, all := Files(), [0, 1, 2, 3];
    FilesAreComparable();
    SearchChoosesOne(files, all);
    ghost var winner, limit;
    place, winner, limit := ChooseCandidate(files, [], all, 0.0);
    LimitOfFour(limit);
  }
}
