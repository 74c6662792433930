/** The `partition` action: better and better partitions, of which the ones that are beaten both in
    number of groups and in efficiency are dropped. */
module PartitionAction {
  import opened Sequences
  import opened Efficiency
  import opened Partition
  import opened SubsetLimits

  // ---- the efficiency of a partition ----

  function OfPartition(files: seq<File>, p: seq<seq<nat>>): real
    requires Comparable(files) && forall i | 0 <= i < |p| :: Known(files, p[i])
  {
    if p == [] then 1.0 else Min(OfPartition(files, p[..|p| - 1]), OfSubset(files, p[|p| - 1]))
  }

  method EfficiencyOfPartition(files: seq<File>, p: seq<seq<nat>>) returns (efficiency: real)
    requires Comparable(files) && AllKnown(files, p)
    ensures efficiency == OfPartition(files, p)
  {
    efficiency := 1.0;
    for i := 0 to |p|
      invariant efficiency == OfPartition(files, p[..i])
    {
      assert p[..i + 1][..i] == p[..i];
      var e := EfficiencyOfSubset(files, p[i]);
      efficiency := Min(efficiency, e);
    }
    assert p[..|p|] == p;
  }

  /** A partition beats t exactly when all of its groups do, and its efficiency is one of finitely
      many values between 0 and 1. */
  lemma {:induction false} PartitionBeats(files: seq<File>, p: seq<seq<nat>>, t: real)
    requires Comparable(files) && AllKnown(files, p) && t < 1.0
    ensures OfPartition(files, p) > t <==> forall i | 0 <= i < |p| :: OfSubset(files, p[i]) > t
    ensures OfPartition(files, p) in Values(files) && 0.0 <= OfPartition(files, p) <= 1.0
  {
    if p != [] {
      var rest, last := p[..|p| - 1], p[|p| - 1];
      PartitionBeats(files, rest, t);
      SubsetValue(files, last);
      assert forall i | 0 <= i < |p| :: p[i] == if i < |rest| then rest[i] else last;
    }
  }

  // ---- dropping the dominated partitions ----

  /** Every later partition has more groups. */
  predicate Undominated(list: seq<seq<seq<nat>>>, i: nat)
    requires i < |list|
  {
    forall j | i < j < |list| :: |list[i]| < |list[j]|
  }

  /** The partitions that no later one matches with as few groups. */
  function Frontier(list: seq<seq<seq<nat>>>): seq<seq<seq<nat>>> {
    if list == [] then [] else (if Undominated(list, 0) then [list[0]] else []) + Frontier(list[1..])
  }

  lemma WithoutAt(list: seq<seq<seq<nat>>>, i: nat)
    requires i < |list|
    ensures forall j | 0 <= j < |list| - 1 :: Without(list, i)[j] == list[if j < i then j else j + 1]
  {
  }

  lemma HeadStays(list: seq<seq<seq<nat>>>, i: nat)
    requires 0 < i && i + 1 < |list| && |list[i]| >= |list[i + 1]|
    ensures Undominated(list, 0) <==> Undominated(Without(list, i), 0)
  {
    hide Without;
    var shorter := Without(list, i);
    WithoutAt(list, i);
    if Undominated(shorter, 0) {
      forall j | 0 < j < |list|
        ensures |list[0]| < |list[j]|
      {
        var k := if j < i then j else if j == i then i else j - 1;
        assert |shorter[0]| < |shorter[k]|;
      }
    }
    if Undominated(list, 0) {
      forall k | 0 < k < |shorter|
        ensures |shorter[0]| < |shorter[k]|
      {
        var j := if k < i then k else k + 1;
        assert |list[0]| < |list[j]|;
      }
    }
  }

  /** Dropping a partition whose successor has no more groups leaves the frontier as it is. */
  lemma {:induction false} ErasingKeepsFrontier(list: seq<seq<seq<nat>>>, i: nat)
    requires i + 1 < |list| && |list[i]| >= |list[i + 1]|
    ensures Frontier(Without(list, i)) == Frontier(list)
  {
    var shorter := Without(list, i);
    if i == 0 {
      assert shorter == list[1..];
      assert !Undominated(list, 0);
    } else {
      ErasingKeepsFrontier(list[1..], i - 1);
      assert Without(list[1..], i - 1) == shorter[1..];
      HeadStays(list, i);
      hide Undominated, Without;
      assert shorter[0] == list[0] by { WithoutAt(list, i); }
    }
  }

  lemma {:induction false} Growing(list: seq<seq<seq<nat>>>, i: nat, j: nat)
    requires forall k | 0 <= k && k + 1 < |list| :: |list[k]| < |list[k + 1]|
    requires i < j < |list|
    ensures |list[i]| < |list[j]|
  {
    if i + 1 < j { Growing(list, i, j - 1); }
  }

  lemma {:induction false} GrowingIsFrontier(list: seq<seq<seq<nat>>>)
    requires forall k | 0 <= k && k + 1 < |list| :: |list[k]| < |list[k + 1]|
    ensures Frontier(list) == list
  {
    if list != [] {
      forall j | 0 < j < |list|
        ensures |list[0]| < |list[j]|
      {
        Growing(list, 0, j);
      }
      forall k | 0 <= k && k + 1 < |list[1..]|
        ensures |list[1..][k]| < |list[1..][k + 1]|
      {
        assert |list[k + 1]| < |list[k + 1 + 1]|;
      }
      GrowingIsFrontier(list[1..]);
    }
  }

  /** Looks for a partition whose successor has no more groups. */
  method FindDominated(list: seq<seq<seq<nat>>>) returns (i: nat, repeat: bool)
    requires list != []
    ensures repeat ==> i + 1 < |list| && |list[i]| >= |list[i + 1]|
    ensures !repeat ==> forall k | 0 <= k && k + 1 < |list| :: |list[k]| < |list[k + 1]|
  {
    i := 0;
    while i < |list| - 1
      invariant i <= |list| - 1
      invariant forall k | 0 <= k < i :: |list[k]| < |list[k + 1]|
    {
      if |list[i]| >= |list[i + 1]| {
        return i, true;
      }
      i := i + 1;
    }
    return i, false;
  }

  /** Erases such partitions one by one; what stays is the frontier. */
  method DropDominated(list: seq<seq<seq<nat>>>) returns (partitions: seq<seq<seq<nat>>>)
    requires list != []
    ensures partitions == Frontier(list)
    ensures forall i, j | 0 <= i < j < |partitions| :: |partitions[i]| < |partitions[j]|
  {
    partitions := list;
    while true
      invariant partitions != [] && Frontier(partitions) == Frontier(list)
      decreases |partitions|
    {
      var i, repeat := FindDominated(partitions);
      if !repeat {
        break;
      }
      ErasingKeepsFrontier(partitions, i);
      partitions := partitions[..i] + partitions[i + 1..];
    }
    GrowingIsFrontier(partitions);
    forall i, j | 0 <= i < j < |partitions|
      ensures |partitions[i]| < |partitions[j]|
    {
      Growing(partitions, i, j);
    }
  }

  // ---- the action ----

  datatype Outcome = Refused | Found(partitions: seq<seq<seq<nat>>>)

  /** One more partition of the search: a true partition, made greedily, better than required. */
  ghost predicate Improves(files: seq<File>, p: seq<seq<nat>>, required: real)
    requires Comparable(files)
  {
    && AllKnown(files, p) && IsPartition(p, |files|) && Greedy(files, p, required)
    && OfPartition(files, p) > required
  }

  /** The partitions tried: each of them has been required to beat the one before. */
  ghost predicate Tried(files: seq<File>, tried: seq<seq<seq<nat>>>)
    requires Comparable(files)
  {
    forall i | 0 <= i < |tried| :: TriedAt(files, tried, i)
  }

  ghost predicate TriedAt(files: seq<File>, tried: seq<seq<seq<nat>>>, i: nat)
    requires Comparable(files) && i < |tried|
  {
    if i == 0 then Improves(files, tried[0], 0.0)
    else AllKnown(files, tried[i - 1]) && Improves(files, tried[i], OfPartition(files, tried[i - 1]))
  }

  /** The values above t that an efficiency can take. */
  function Above(files: seq<File>, t: real): set<real> {
    set v | v in Values(files) && v > t
  }

  lemma FewerAbove(files: seq<File>, t: real, u: real)
    requires t < u && u in Values(files)
    ensures |Above(files, u)| < |Above(files, t)|
  {
    SmallerSet(Above(files, u), Above(files, t), u);
  }

  lemma SmallerSet(a: set<real>, b: set<real>, x: real)
    requires a <= b && x in b && x !in a
    ensures |a| < |b|
  {
    assert b == a + (b - a);
    assert x in b - a;
  }

  /** Tries partitions until one has as many groups as files, or efficiency 1. Each of them is better
      than the one before, so the search ends, and no search is ever asked to beat efficiency 1. */
  method SearchPartitions(files: seq<File>) returns (partitions: seq<seq<seq<nat>>>)
    requires Comparable(files) && |files| < UINT64_BOUND
    ensures partitions != [] && Tried(files, partitions)
    ensures var last := partitions[|partitions| - 1];
      AllKnown(files, last) && (|last| == |files| || OfPartition(files, last) == 1.0)
  {
    var required := 0.0;
    partitions := [];
    while true
      invariant 0.0 <= required < 1.0 && Tried(files, partitions)
      invariant partitions == [] ==> required == 0.0
      invariant partitions != [] ==>
        var last := partitions[|partitions| - 1]; AllKnown(files, last) && required == OfPartition(files, last)
      decreases |Above(files, required)|
    {
      var partition := FindPartition(files, required);
      var actual := EfficiencyOfPartition(files, partition);
      PartitionBeats(files, partition, required);
      OneMore(files, partitions, partition, required);
      partitions := partitions + [partition];
      if |partition| == |files| || actual == 1.0 {
        break;
      }
      FewerAbove(files, required, actual);
      required := actual;
    }
  }

  lemma OneMore(files: seq<File>, tried: seq<seq<seq<nat>>>, p: seq<seq<nat>>, required: real)
    requires Comparable(files) && Tried(files, tried) && Improves(files, p, required)
    requires tried == [] ==> required == 0.0
    requires tried != [] ==>
      var last := tried[|tried| - 1]; AllKnown(files, last) && required == OfPartition(files, last)
    ensures Tried(files, tried + [p])
  {
    var more := tried + [p];
    forall i | 0 <= i < |more|
      ensures TriedAt(files, more, i)
    {
      if i < |tried| {
        assert TriedAt(files, tried, i);
      }
    }
  }

  /** Later partitions are better. */
  lemma {:induction false} TriedImproves(files: seq<File>, tried: seq<seq<seq<nat>>>, i: nat, j: nat)
    requires Comparable(files) && Tried(files, tried) && i < j < |tried|
    ensures AllKnown(files, tried[i]) && AllKnown(files, tried[j])
    ensures OfPartition(files, tried[i]) < OfPartition(files, tried[j])
  {
    assert TriedAt(files, tried, j);
    if i + 1 < j { TriedImproves(files, tried, i, j - 1); }
  }

  /** What stays was tried, and no later partition dominates it. */
  lemma {:induction false} FrontierWhere(list: seq<seq<seq<nat>>>, i: nat) returns (at: nat)
    requires i < |Frontier(list)|
    ensures at < |list| && list[at] == Frontier(list)[i] && Undominated(list, at)
  {
    var kept := if Undominated(list, 0) then 1 else 0;
    if i < kept {
      at := 0;
    } else {
      at := FrontierWhere(list[1..], i - kept);
      forall j | at + 1 < j < |list|
        ensures |list[at + 1]| < |list[j]|
      {
        assert list[j] == list[1..][j - 1];
      }
      at := at + 1;
    }
  }

  /** Of what stays, the later ones are better. */
  lemma {:induction false} FrontierImproves(files: seq<File>, tried: seq<seq<seq<nat>>>, from: nat, i: nat, j: nat)
    requires Comparable(files) && Tried(files, tried) && from <= |tried| && i < j < |Frontier(tried[from..])|
    ensures var kept := Frontier(tried[from..]);
      AllKnown(files, kept[i]) && AllKnown(files, kept[j]) && OfPartition(files, kept[i]) < OfPartition(files, kept[j])
    decreases |tried| - from
  {
    hide OfPartition, IsPartition, Greedy, AllKnown, Comparable;
    var list := tried[from..];
    assert list[1..] == tried[from + 1..];
    if !Undominated(list, 0) {
      FrontierImproves(files, tried, from + 1, i, j);
    } else if i > 0 {
      FrontierImproves(files, tried, from + 1, i - 1, j - 1);
    } else {
      var at := FrontierWhere(list[1..], j - 1);
      TriedImproves(files, tried, from, from + 1 + at);
    }
  }

  /** Every partition tried is matched by one that stays: it has no more groups and is at least as
      efficient. */
  lemma {:induction false} FrontierDominates(files: seq<File>, tried: seq<seq<seq<nat>>>, from: nat, i: nat) returns (k: nat)
    requires Comparable(files) && Tried(files, tried) && from <= i < |tried|
    ensures var kept := Frontier(tried[from..]);
      && k < |kept| && |kept[k]| <= |tried[i]| && AllKnown(files, tried[i]) && AllKnown(files, kept[k])
      && OfPartition(files, kept[k]) >= OfPartition(files, tried[i])
    decreases |tried| - from, i
  {
    hide OfPartition, IsPartition, Greedy, AllKnown;
    var list := tried[from..];
    assert list[1..] == tried[from + 1..];
    assert TriedAt(files, tried, i);
    assert i == from ==> list[0] == tried[i];
    if i > from {
      k := FrontierDominates(files, tried, from + 1, i);
      k := k + if Undominated(list, 0) then 1 else 0;
    } else if Undominated(list, 0) {
      k := 0;
    } else {
      var j :| 0 < j < |list| && |list[j]| <= |list[0]|;
      TriedImproves(files, tried, from, from + j);
      k := FrontierDominates(files, tried, from + 1, from + j);
    }
  }

  /** The action: refuses to start without files or with files that differ in order, and otherwise
      prints partitions with more and more groups. */
  method Run(files: seq<File>) returns (outcome: Outcome, ghost tried: seq<seq<seq<nat>>>)
    requires |files| < UINT64_BOUND && (files != [] ==> files[0] != [])
    ensures outcome == Refused <==> files == [] || !SameOrder(files)
    ensures outcome.Found? ==> Comparable(files) && Tried(files, tried) && outcome.partitions == Frontier(tried)
    ensures outcome.Found? ==>
      forall i, j | 0 <= i < j < |outcome.partitions| :: |outcome.partitions[i]| < |outcome.partitions[j]|
  {
    tried := [];
    if files == [] {
      return Refused, tried;
    }
    var sameOrder := CheckAllFilesInSameExactOrder(files);
    if !sameOrder {
      return Refused, tried;
    }
    var partitions := SearchPartitions(files);
    tried := partitions;
    partitions := DropDominated(partitions);
    return Found(partitions), tried;
  }
}
