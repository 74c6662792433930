/** How well one choice of block sizes serves a group of measured machines. A file lists, for every
    product size in turn, the block sizes tried and how efficient each of them was. */
module Efficiency {

  datatype Entry = Entry(productSize: nat, blockSize: nat, efficiency: real)

  type File = seq<Entry>

  function Min(a: real, b: real): real {
    if b < a then b else a
  }

  function Max(a: real, b: real): real {
    if a < b then b else a
  }

  // ---- comparable files ----

  /** All files list the same products and blocks in the same order. */
  predicate SameOrder(files: seq<File>) {
    && (forall i | 0 <= i < |files| :: |files[i]| == |files[0]|)
    && forall i, e | 0 <= i < |files| && 0 <= e < |files[i]| :: SameSizes(files[i][e], files[0][e])
  }

  predicate SameSizes(a: Entry, b: Entry) {
    a.productSize == b.productSize && a.blockSize == b.blockSize
  }

  method CheckAllFilesInSameExactOrder(files: seq<File>) returns (ok: bool)
    ensures ok <==> SameOrder(files)
  {
    if files == [] {
      return true;
    }
    var numEntries := |files[0]|;
    for i := 0 to |files|
      invariant forall j | 0 <= j < i :: |files[j]| == numEntries
    {
      if |files[i]| != numEntries {
        return false;
      }
    }
    for e := 0 to numEntries
      invariant forall i, d | 0 <= i < |files| && 0 <= d < e :: SameSizes(files[i][d], files[0][d])
    {
      for i := 0 to |files|
        invariant forall j | 0 <= j < i :: SameSizes(files[j][e], files[0][e])
      {
        if files[i][e].productSize != files[0][e].productSize || files[i][e].blockSize != files[0][e].blockSize {
          assert !SameSizes(files[i][e], files[0][e]);
          return false;
        }
      }
    }
    return true;
  }

  predicate Comparable(files: seq<File>) {
    files != [] && files[0] != [] && SameOrder(files)
  }

  predicate Known(files: seq<File>, subset: seq<nat>) {
    forall i | 0 <= i < |subset| :: subset[i] < |files|
  }

  // ---- the efficiency of a group ----

  /** The worst efficiency of entry e within the group. */
  function EntryEfficiency(files: seq<File>, subset: seq<nat>, e: nat): real
    requires Comparable(files) && Known(files, subset) && e < |files[0]|
  {
    if subset == [] then 1.0
    else Min(EntryEfficiency(files, subset[..|subset| - 1], e), files[subset[|subset| - 1]][e].efficiency)
  }

  /** The best of the entries from lo to hi. */
  function BestEntry(files: seq<File>, subset: seq<nat>, lo: nat, hi: nat): real
    requires Comparable(files) && Known(files, subset) && hi <= |files[0]|
    decreases hi
  {
    if hi <= lo then 0.0 else Max(BestEntry(files, subset, lo, hi - 1), EntryEfficiency(files, subset, hi - 1))
  }

  /** The first of the entries, up to e, that are about e's product size without a break. */
  function RunStart(file: File, e: nat): (start: nat)
    requires e < |file|
    ensures start <= e
  {
    if e == 0 || file[e - 1].productSize != file[e].productSize then e else RunStart(file, e - 1)
  }

  /** The worst product size of those that end at hi. */
  function WorstRun(files: seq<File>, subset: seq<nat>, hi: nat): real
    requires Comparable(files) && Known(files, subset) && hi <= |files[0]|
  {
    if hi == 0 then 1.0
    else
      var lo := RunStart(files[0], hi - 1);
      Min(WorstRun(files, subset, lo), BestEntry(files, subset, lo, hi))
  }

  function OfSubset(files: seq<File>, subset: seq<nat>): real
    requires Comparable(files) && Known(files, subset)
  {
    if |subset| <= 1 then 1.0 else WorstRun(files, subset, |files[0]|)
  }

  lemma SameRuns(files: seq<File>, f: nat, e: nat)
    requires Comparable(files) && f < |files| && e < |files[0]|
    ensures |files[f]| == |files[0]| && RunStart(files[f], e) == RunStart(files[0], e)
  {
    assert SameSizes(files[f][e], files[0][e]);
    if e > 0 {
      assert SameSizes(files[f][e - 1], files[0][e - 1]);
      SameRuns(files, f, e - 1);
    }
  }

  /** The worst efficiency of entry e within the group. */
  method EfficiencyOfEntry(files: seq<File>, subset: seq<nat>, e: nat) returns (worst: real)
    requires Comparable(files) && Known(files, subset) && e < |files[0]|
    ensures worst == EntryEfficiency(files, subset, e)
  {
    worst := 1.0;
    for i := 0 to |subset|
      invariant worst == EntryEfficiency(files, subset[..i], e)
    {
      assert subset[..i + 1][..i] == subset[..i];
      worst := Min(worst, files[subset[i]][e].efficiency);
    }
    assert subset[..|subset|] == subset;
  }

  method EfficiencyOfSubset(files: seq<File>, subset: seq<nat>) returns (efficiency: real)
    requires Comparable(files) && Known(files, subset)
    ensures efficiency == OfSubset(files, subset)
  {
    if |subset| <= 1 {
      return 1.0;
    }
    var firstFile := files[subset[0]];
    var numEntries := |firstFile|;
    efficiency := 1.0;
    var entryIndex, firstEntry := 0, 0;
    SameRuns(files, subset[0], 0);
    var productSize := firstFile[0].productSize;
    while entryIndex < numEntries
      invariant 0 <= entryIndex <= numEntries
      invariant entryIndex < numEntries ==>
        && firstEntry == RunStart(firstFile, entryIndex) && productSize == firstFile[entryIndex].productSize
      invariant efficiency == WorstRun(files, subset, if entryIndex < numEntries then firstEntry else numEntries)
    {
      SameRuns(files, subset[0], entryIndex);
      entryIndex := entryIndex + 1;
      if entryIndex == numEntries || firstFile[entryIndex].productSize != productSize {
        var best := 0.0;
        for e := firstEntry to entryIndex
          invariant best == BestEntry(files, subset, firstEntry, e)
        {
          var worst := EfficiencyOfEntry(files, subset, e);
          best := Max(best, worst);
        }
        efficiency := Min(efficiency, best);
        if entryIndex < numEntries {
          firstEntry := entryIndex;
          productSize := firstFile[entryIndex].productSize;
        }
      }
    }
  }

  // ---- what it means ----

  /** Every file of the group does better than t with entry e. */
  predicate AllBeat(files: seq<File>, subset: seq<nat>, e: nat, t: real)
    requires Comparable(files) && Known(files, subset) && e < |files[0]|
  {
    forall i | 0 <= i < |subset| :: files[subset[i]][e].efficiency > t
  }

  lemma {:induction false} EntryBeats(files: seq<File>, subset: seq<nat>, e: nat, t: real)
    requires Comparable(files) && Known(files, subset) && e < |files[0]| && t < 1.0
    ensures EntryEfficiency(files, subset, e) > t <==> AllBeat(files, subset, e, t)
  {
    if subset != [] {
      var rest := subset[..|subset| - 1];
      EntryBeats(files, rest, e, t);
      assert AllBeat(files, subset, e, t) <==>
             AllBeat(files, rest, e, t) && files[subset[|subset| - 1]][e].efficiency > t by {
        assert forall i | 0 <= i < |rest| :: rest[i] == subset[i];
      }
    }
  }

  ghost predicate SomeEntryBeats(files: seq<File>, subset: seq<nat>, lo: nat, hi: nat, t: real)
    requires Comparable(files) && Known(files, subset) && hi <= |files[0]|
  {
    exists e | lo <= e < hi :: AllBeat(files, subset, e, t)
  }

  lemma {:induction false} RunBeats(files: seq<File>, subset: seq<nat>, lo: nat, hi: nat, t: real)
    requires Comparable(files) && Known(files, subset) && hi <= |files[0]| && 0.0 <= t < 1.0
    ensures BestEntry(files, subset, lo, hi) > t <==> SomeEntryBeats(files, subset, lo, hi, t)
    decreases hi
  {
    if lo < hi {
      RunBeats(files, subset, lo, hi - 1, t);
      EntryBeats(files, subset, hi - 1, t);
    }
  }

  /** For entry e's product size, some entry beats t on every file of the group. */
  ghost predicate Served(files: seq<File>, subset: seq<nat>, e: nat, t: real)
    requires Comparable(files) && Known(files, subset) && e < |files[0]|
  {
    exists d | 0 <= d < |files[0]| && RunStart(files[0], d) == RunStart(files[0], e) :: AllBeat(files, subset, d, t)
  }

  lemma {:induction false} RunIsInterval(file: File, a: nat, b: nat)
    requires a <= b < |file|
    ensures RunStart(file, a) == RunStart(file, b) <==> RunStart(file, b) <= a
    ensures RunStart(file, a) <= RunStart(file, b)
    decreases b
  {
    if a < b {
      RunIsInterval(file, a, b - 1);
    }
  }

  /** hi is where a run ends. */
  predicate Ends(file: File, hi: nat) {
    hi <= |file| && (0 < hi < |file| ==> file[hi - 1].productSize != file[hi].productSize)
  }

  lemma StartEnds(file: File, e: nat)
    requires e < |file|
    ensures Ends(file, RunStart(file, e))
  {
    if e > 0 && file[e - 1].productSize == file[e].productSize { StartEnds(file, e - 1); }
  }

  lemma AfterEnd(file: File, hi: nat, d: nat)
    requires Ends(file, hi) && hi <= d < |file|
    ensures RunStart(file, d) >= hi
    decreases d
  {
    if hi < d { AfterEnd(file, hi, d - 1); }
  }

  lemma RunServed(files: seq<File>, subset: seq<nat>, hi: nat, e: nat, t: real)
    requires Comparable(files) && Known(files, subset) && 0 < hi <= |files[0]| && Ends(files[0], hi)
    requires RunStart(files[0], hi - 1) <= e < hi
    ensures Served(files, subset, e, t) <==> SomeEntryBeats(files, subset, RunStart(files[0], hi - 1), hi, t)
  {
    var file, lo := files[0], RunStart(files[0], hi - 1);
    forall d | 0 <= d < |file|
      ensures RunStart(file, d) == RunStart(file, e) <==> lo <= d < hi
    {
      RunIsInterval(file, e, hi - 1);
      if d < hi {
        RunIsInterval(file, d, hi - 1);
      } else {
        AfterEnd(file, hi, d);
      }
    }
  }

  lemma {:induction false} WorstRunBeats(files: seq<File>, subset: seq<nat>, hi: nat, t: real)
    requires Comparable(files) && Known(files, subset) && Ends(files[0], hi) && 0.0 <= t < 1.0
    ensures WorstRun(files, subset, hi) > t <==> forall e | 0 <= e < hi :: Served(files, subset, e, t)
    decreases hi
  {
    hide Served, BestEntry;
    if hi > 0 {
      var lo := RunStart(files[0], hi - 1);
      StartEnds(files[0], hi - 1);
      WorstRunBeats(files, subset, lo, t);
      RunBeats(files, subset, lo, hi, t);
      forall e | lo <= e < hi
        ensures Served(files, subset, e, t) <==> SomeEntryBeats(files, subset, lo, hi, t)
      {
        RunServed(files, subset, hi, e, t);
      }
      assert Served(files, subset, hi - 1, t) <==> SomeEntryBeats(files, subset, lo, hi, t);
    }
  }

  /** A group of at least two files beats t exactly when, for every product size, one and the same
      block size beats t on all of its files. */
  lemma GroupBeats(files: seq<File>, subset: seq<nat>, t: real)
    requires Comparable(files) && Known(files, subset) && |subset| >= 2 && 0.0 <= t < 1.0
    ensures OfSubset(files, subset) > t <==> forall e | 0 <= e < |files[0]| :: Served(files, subset, e, t)
  {
    WorstRunBeats(files, subset, |files[0]|, t);
  }

  // ---- the values it can take ----

  function Values(files: seq<File>): set<real> {
    {0.0, 1.0} + set i, e | 0 <= i < |files| && 0 <= e < |files[i]| :: files[i][e].efficiency
  }

  lemma {:induction false} EntryValue(files: seq<File>, subset: seq<nat>, e: nat)
    requires Comparable(files) && Known(files, subset) && e < |files[0]|
    ensures EntryEfficiency(files, subset, e) in Values(files) && EntryEfficiency(files, subset, e) <= 1.0
  {
    if subset != [] { EntryValue(files, subset[..|subset| - 1], e); }
  }

  lemma {:induction false} BestValue(files: seq<File>, subset: seq<nat>, lo: nat, hi: nat)
    requires Comparable(files) && Known(files, subset) && hi <= |files[0]|
    ensures BestEntry(files, subset, lo, hi) in Values(files) && 0.0 <= BestEntry(files, subset, lo, hi)
    decreases hi
  {
    if lo < hi {
      BestValue(files, subset, lo, hi - 1);
      EntryValue(files, subset, hi - 1);
    }
  }

  lemma {:induction false} WorstValue(files: seq<File>, subset: seq<nat>, hi: nat)
    requires Comparable(files) && Known(files, subset) && hi <= |files[0]|
    ensures WorstRun(files, subset, hi) in Values(files) && 0.0 <= WorstRun(files, subset, hi) <= 1.0
    decreases hi
  {
    if hi > 0 {
      var lo := RunStart(files[0], hi - 1);
      WorstValue(files, subset, lo);
      BestValue(files, subset, lo, hi);
    }
  }

  /** An efficiency is 0, 1 or one that has been measured, and lies between 0 and 1. */
  lemma SubsetValue(files: seq<File>, subset: seq<nat>)
    requires Comparable(files) && Known(files, subset)
    ensures OfSubset(files, subset) in Values(files) && 0.0 <= OfSubset(files, subset) <= 1.0
  {
    WorstValue(files, subset, |files[0]|);
  }

  /** A group that is part of another one does at least as well. */
  lemma FewerFilesDoBetter(files: seq<File>, a: seq<nat>, b: seq<nat>)
    requires Comparable(files) && Known(files, a) && Known(files, b) && |a| <= |b|
    requires forall x :: x in a ==> x in b
    ensures OfSubset(files, a) >= OfSubset(files, b)
  {
    SubsetValue(files, a);
    SubsetValue(files, b);
    var t := OfSubset(files, a);
    if |a| >= 2 && t < 1.0 {
      GroupBeats(files, a, t);
      GroupBeats(files, b, t);
      forall e | 0 <= e < |files[0]| && Served(files, b, e, t)
        ensures Served(files, a, e, t)
      {
        var d :| 0 <= d < |files[0]| && RunStart(files[0], d) == RunStart(files[0], e) && AllBeat(files, b, d, t);
        PartBeats(files, a, b, d, t);
      }
    }
  }

  lemma PartBeats(files: seq<File>, a: seq<nat>, b: seq<nat>, d: nat, t: real)
    requires Comparable(files) && Known(files, a) && Known(files, b) && d < |files[0]|
    requires (forall x :: x in a ==> x in b) && AllBeat(files, b, d, t)
    ensures AllBeat(files, a, d, t)
  {
    forall i | 0 <= i < |a|
      ensures files[a[i]][d].efficiency > t
    {
      assert a[i] in b;
    }
  }
}
