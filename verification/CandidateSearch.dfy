/** The narrowing of the candidates for a group, from large subsets to small ones, and when it looks
    at the files that the candidates stand for. */
module CandidateSearch {
  import opened Efficiency
  import opened Subsets
  import opened BestSubsets

  predicate Places(candidates: seq<nat>, n: nat) {
    |candidates| <= n && forall i | 0 <= i < |candidates| :: candidates[i] < n
  }

  predicate Distinct(s: seq<nat>) {
    forall i, j | 0 <= i < j < |s| :: s[i] != s[j]
  }

  lemma KnownPicked(files: seq<File>, remainder: seq<nat>, candidates: seq<nat>)
    requires Known(files, remainder) && Places(candidates, |remainder|)
    ensures Known(files, Picked(remainder, candidates))
  {
  }

  /** The candidates after subsets of one size have been tried: narrowed to the first best subset, if it
      beats t. The subset's places are places among the candidates; what is tried are the files at
      these places of the remainder. */
  ghost function Narrowed(files: seq<File>, group: seq<nat>, remainder: seq<nat>, t: real, candidates: seq<nat>, size: nat)
      : (c: seq<nat>)
    requires Comparable(files) && Known(files, group) && Known(files, remainder) && t >= 0.0
    requires Places(candidates, |remainder|) && 1 <= size <= |candidates|
    ensures Places(c, |remainder|) && size <= |c|
  {
    BestIs(files, group, remainder, size, |candidates|);
    var b := Best(files, group, remainder, size, |candidates|);
    if b.1 > t then Picked(candidates, b.0) else candidates
  }

  /** The same, trying the files that the candidates stand for. */
  ghost function OwnNarrowed(files: seq<File>, group: seq<nat>, remainder: seq<nat>, t: real, candidates: seq<nat>, size: nat)
      : (c: seq<nat>)
    requires Comparable(files) && Known(files, group) && Known(files, remainder) && t >= 0.0
    requires Places(candidates, |remainder|) && 1 <= size <= |candidates|
    ensures Places(c, |remainder|) && size <= |c|
  {
    KnownPicked(files, remainder, candidates);
    BestIs(files, group, Picked(remainder, candidates), size, |candidates|);
    var b := Best(files, group, Picked(remainder, candidates), size, |candidates|);
    if b.1 > t then Picked(candidates, b.0) else candidates
  }

  /** The place that the search comes to, from subsets of `size` files down to single files. */
  ghost function Search(files: seq<File>, group: seq<nat>, remainder: seq<nat>, t: real, candidates: seq<nat>, size: nat): nat
    requires Comparable(files) && Known(files, group) && Known(files, remainder) && t >= 0.0
    requires Places(candidates, |remainder|) && candidates != [] && size <= |candidates|
    decreases size
  {
    if size == 0 then candidates[0]
    else Search(files, group, remainder, t, Narrowed(files, group, remainder, t, candidates, size), size - 1)
  }

  /** The candidates that are left when all sizes have been tried. */
  ghost function Remaining(files: seq<File>, group: seq<nat>, remainder: seq<nat>, t: real, candidates: seq<nat>, size: nat)
      : seq<nat>
    requires Comparable(files) && Known(files, group) && Known(files, remainder) && t >= 0.0
    requires Places(candidates, |remainder|) && candidates != [] && size <= |candidates|
    decreases size
  {
    if size == 0 then candidates
    else Remaining(files, group, remainder, t, Narrowed(files, group, remainder, t, candidates, size), size - 1)
  }

  ghost predicate Increases(s: seq<nat>) {
    forall i, j | 0 <= i < j < |s| :: s[i] < s[j]
  }

  lemma PickedIncreases(candidates: seq<nat>, s: seq<nat>, k: nat)
    requires Increases(candidates) && IsSubset(s, k, |candidates|)
    ensures Increases(Picked(candidates, s))
  {
    var p := Picked(candidates, s);
    forall i, j | 0 <= i < j < |p|
      ensures p[i] < p[j]
    {
      assert s[i] < s[j];
    }
  }

  /** Of the candidates that are left the least place is chosen. */
  lemma {:induction false} SearchIsLeast(files: seq<File>, group: seq<nat>, remainder: seq<nat>, t: real,
                                         candidates: seq<nat>, size: nat)
    requires Comparable(files) && Known(files, group) && Known(files, remainder) && t >= 0.0
    requires Places(candidates, |remainder|) && candidates != [] && size <= |candidates| && Increases(candidates)
    ensures var left := Remaining(files, group, remainder, t, candidates, size);
      var place := Search(files, group, remainder, t, candidates, size);
      place in left && forall c | c in left :: place <= c
    decreases size
  {
    hide Best, IsBest, Narrowed;
    if size > 0 {
      NarrowedIncreases(files, group, remainder, t, candidates, size);
      SearchIsLeast(files, group, remainder, t, Narrowed(files, group, remainder, t, candidates, size), size - 1);
    }
  }

  lemma NarrowedIncreases(files: seq<File>, group: seq<nat>, remainder: seq<nat>, t: real, candidates: seq<nat>, size: nat)
    requires Comparable(files) && Known(files, group) && Known(files, remainder) && t >= 0.0
    requires Places(candidates, |remainder|) && 1 <= size <= |candidates| && Increases(candidates)
    ensures Increases(Narrowed(files, group, remainder, t, candidates, size))
  {
    BestIs(files, group, remainder, size, |candidates|);
    var b := Best(files, group, remainder, size, |candidates|);
    hide Best, Increases;
    if b.1 > t {
      PickedIncreases(candidates, b.0, size);
    }
  }

  /** The place that it would come to if it tried the files that the candidates stand for. */
  ghost function OwnSearch(files: seq<File>, group: seq<nat>, remainder: seq<nat>, t: real, candidates: seq<nat>, size: nat): nat
    requires Comparable(files) && Known(files, group) && Known(files, remainder) && t >= 0.0
    requires Places(candidates, |remainder|) && candidates != [] && size <= |candidates|
    decreases size
  {
    if size == 0 then candidates[0]
    else OwnSearch(files, group, remainder, t, OwnNarrowed(files, group, remainder, t, candidates, size), size - 1)
  }

  // ---- which files are tried ----

  /** Every trial of this size reads the files that the candidates stand for. */
  ghost predicate ReadsOwn(remainder: seq<nat>, candidates: seq<nat>, size: nat)
    requires Places(candidates, |remainder|)
  {
    forall s | IsSubset(s, size, |candidates|) :: Picked(remainder, s) == Picked(remainder, Picked(candidates, s))
  }

  lemma SubsetWith(size: nat, n: nat, i: nat) returns (s: seq<nat>)
    requires 1 <= size <= n && i < n
    ensures IsSubset(s, size, n) && i in s
  {
    if i < size {
      s := First(size);
      assert s[i] == i;
    } else {
      s := First(size - 1) + [i];
      assert s[size - 1] == i;
    }
  }

  /** The trials of a size read the candidates' own files exactly when the candidates are the first
      places of the remainder: after a winner w, exactly when w is the first subset of its size. */
  lemma ReadsOwnExactly(remainder: seq<nat>, candidates: seq<nat>, size: nat)
    requires Distinct(remainder) && Places(candidates, |remainder|) && 1 <= size <= |candidates|
    ensures ReadsOwn(remainder, candidates, size) <==> candidates == First(|candidates|)
  {
    if candidates == First(|candidates|) {
      forall s | IsSubset(s, size, |candidates|)
        ensures Picked(candidates, s) == s
      {
      }
    }
    if ReadsOwn(remainder, candidates, size) {
      forall i | 0 <= i < |candidates|
        ensures candidates[i] == i
      {
        var s := SubsetWith(size, |candidates|, i);
        var j :| 0 <= j < |s| && s[j] == i;
        assert Picked(remainder, s)[j] == Picked(remainder, Picked(candidates, s))[j];
      }
    }
  }

  /** All trials of the whole search read the candidates' own files. */
  ghost predicate AllReadOwn(files: seq<File>, group: seq<nat>, remainder: seq<nat>, t: real, candidates: seq<nat>, size: nat)
    requires Comparable(files) && Known(files, group) && Known(files, remainder) && t >= 0.0
    requires Places(candidates, |remainder|) && candidates != [] && size <= |candidates|
    decreases size
  {
    if size == 0 then true
    else
      && ReadsOwn(remainder, candidates, size)
      && AllReadOwn(files, group, remainder, t, Narrowed(files, group, remainder, t, candidates, size), size - 1)
  }

  /** The candidates are the first places of the remainder whenever a size is tried. */
  ghost predicate StaysFirst(files: seq<File>, group: seq<nat>, remainder: seq<nat>, t: real, candidates: seq<nat>, size: nat)
    requires Comparable(files) && Known(files, group) && Known(files, remainder) && t >= 0.0
    requires Places(candidates, |remainder|) && candidates != [] && size <= |candidates|
    decreases size
  {
    if size == 0 then true
    else
      && candidates == First(|candidates|)
      && StaysFirst(files, group, remainder, t, Narrowed(files, group, remainder, t, candidates, size), size - 1)
  }

  lemma {:induction false} AllReadOwnExactly(files: seq<File>, group: seq<nat>, remainder: seq<nat>, t: real,
                                             candidates: seq<nat>, size: nat)
    requires Comparable(files) && Known(files, group) && Known(files, remainder) && t >= 0.0 && Distinct(remainder)
    requires Places(candidates, |remainder|) && candidates != [] && size <= |candidates|
    ensures AllReadOwn(files, group, remainder, t, candidates, size) <==>
            StaysFirst(files, group, remainder, t, candidates, size)
    decreases size
  {
    hide Narrowed, ReadsOwn;
    if size > 0 {
      ReadsOwnExactly(remainder, candidates, size);
      AllReadOwnExactly(files, group, remainder, t, Narrowed(files, group, remainder, t, candidates, size), size - 1);
    }
  }

  lemma SameNarrowing(files: seq<File>, group: seq<nat>, remainder: seq<nat>, t: real, candidates: seq<nat>, size: nat)
    requires Comparable(files) && Known(files, group) && Known(files, remainder) && t >= 0.0
    requires Places(candidates, |remainder|) && 1 <= size <= |candidates| && candidates == First(|candidates|)
    ensures Narrowed(files, group, remainder, t, candidates, size) == OwnNarrowed(files, group, remainder, t, candidates, size)
  {
    hide BestFrom, IsBest, OfSubset, TrialEfficiency;
    var n, own := |candidates|, Picked(remainder, candidates);
    KnownPicked(files, remainder, candidates);
    BestIs(files, group, own, size, n);
    assert own[..n] == remainder[..n];
    FirstIsSubset(size, n);
    BestFromPrefix(files, group, own, remainder, First(size), size, n);
  }

  /** Then the search comes to the place that the candidates' own files lead to. */
  lemma {:induction false} SearchesAgree(files: seq<File>, group: seq<nat>, remainder: seq<nat>, t: real,
                                         candidates: seq<nat>, size: nat)
    requires Comparable(files) && Known(files, group) && Known(files, remainder) && t >= 0.0
    requires Places(candidates, |remainder|) && candidates != [] && size <= |candidates|
    requires StaysFirst(files, group, remainder, t, candidates, size)
    ensures Search(files, group, remainder, t, candidates, size) == OwnSearch(files, group, remainder, t, candidates, size)
    decreases size
  {
    hide Narrowed, OwnNarrowed;
    if size > 0 {
      SameNarrowing(files, group, remainder, t, candidates, size);
      SearchesAgree(files, group, remainder, t, Narrowed(files, group, remainder, t, candidates, size), size - 1);
    }
  }

  /** A narrowing by a subset that has been found to be the best. */
  lemma NarrowedIs(files: seq<File>, group: seq<nat>, remainder: seq<nat>, t: real, candidates: seq<nat>, size: nat,
                   first: seq<nat>, best: real)
    requires Comparable(files) && Known(files, group) && Known(files, remainder) && t >= 0.0
    requires Places(candidates, |remainder|) && 1 <= size <= |candidates|
    requires IsBest(files, group, remainder, size, |candidates|, first, best)
    ensures best > t ==> IsSubset(first, size, |candidates|)
    ensures Narrowed(files, group, remainder, t, candidates, size) ==
            if best > t then Picked(candidates, first) else candidates
  {
    IsBestIsBest(files, group, remainder, size, |candidates|, first, best);
  }

  lemma OwnNarrowedIs(files: seq<File>, group: seq<nat>, remainder: seq<nat>, t: real, candidates: seq<nat>, size: nat,
                      first: seq<nat>, best: real)
    requires Comparable(files) && Known(files, group) && Known(files, remainder) && t >= 0.0
    requires Places(candidates, |remainder|) && 1 <= size <= |candidates|
    requires Known(files, Picked(remainder, candidates))
    requires IsBest(files, group, Picked(remainder, candidates), size, |candidates|, first, best)
    ensures best > t ==> IsSubset(first, size, |candidates|)
    ensures OwnNarrowed(files, group, remainder, t, candidates, size) ==
            if best > t then Picked(candidates, first) else candidates
  {
    IsBestIsBest(files, group, Picked(remainder, candidates), size, |candidates|, first, best);
  }

  lemma FirstIsSubset(k: nat, n: nat)
    requires k <= n
    ensures IsSubset(First(k), k, n)
  {
  }
}
