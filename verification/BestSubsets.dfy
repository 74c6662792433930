/** Trying every subset of one size, and keeping the first best one. */
module BestSubsets {
  import opened Efficiency
  import opened Subsets

  /** The entries of `from` at the places `s`. */
  function Picked(from: seq<nat>, s: seq<nat>): (p: seq<nat>)
    requires forall i | 0 <= i < |s| :: s[i] < |from|
    ensures |p| == |s|
  {
    seq(|s|, i requires 0 <= i < |s| => from[s[i]])
  }

  /** How efficient the group becomes with the files at the places `s` of the remainder. */
  ghost function TrialEfficiency(files: seq<File>, group: seq<nat>, remainder: seq<nat>, s: seq<nat>): real
    requires Comparable(files) && Known(files, group) && Known(files, remainder)
    requires forall i | 0 <= i < |s| :: s[i] < |remainder|
  {
    OfSubset(files, group + Picked(remainder, s))
  }

  /** Every k-subset before `s` does no better than `best`, and those before `first` do worse. */
  ghost predicate BestSoFar(files: seq<File>, group: seq<nat>, remainder: seq<nat>, k: nat, n: nat,
                            s: seq<nat>, inclusive: bool, first: seq<nat>, best: real)
    requires Comparable(files) && Known(files, group) && Known(files, remainder) && n <= |remainder|
  {
    && (forall t | IsSubset(t, k, n) && (Before(t, s) || (inclusive && t == s)) ::
          TrialEfficiency(files, group, remainder, t) <= best)
    && if first == [] then best == 0.0
       else
         && IsSubset(first, k, n) && best == TrialEfficiency(files, group, remainder, first) && best > 0.0
         && forall t | IsSubset(t, k, n) && Before(t, first) :: TrialEfficiency(files, group, remainder, t) < best
  }

  /** The first k-subset with the highest efficiency, if any has one above 0. */
  ghost predicate IsBest(files: seq<File>, group: seq<nat>, remainder: seq<nat>, k: nat, n: nat, first: seq<nat>, best: real)
    requires Comparable(files) && Known(files, group) && Known(files, remainder) && n <= |remainder|
  {
    && (forall t | IsSubset(t, k, n) :: TrialEfficiency(files, group, remainder, t) <= best)
    && if first == [] then best == 0.0
       else
         && IsSubset(first, k, n) && best == TrialEfficiency(files, group, remainder, first) && best > 0.0
         && forall t | IsSubset(t, k, n) && Before(t, first) :: TrialEfficiency(files, group, remainder, t) < best
  }

  /** Overwrites the end of the trial group with the files at the places `s`. */
  method FillTrial(trial: array<nat>, group: seq<nat>, remainder: seq<nat>, s: array<nat>)
    requires trial.Length == |group| + s.Length && trial != s && trial[..|group|] == group
    requires forall i | 0 <= i < s.Length :: s[i] < |remainder|
    modifies trial
    ensures trial[..] == group + Picked(remainder, s[..])
  {
    for i := 0 to s.Length
      invariant trial[..|group|] == group
      invariant forall j | 0 <= j < i :: trial[|group| + j] == remainder[s[j]]
    {
      trial[|group| + i] := remainder[s[i]];
    }
    forall j | 0 <= j < trial.Length
      ensures trial[j] == (group + Picked(remainder, s[..]))[j]
    {
      if j < |group| {
        assert trial[j] == trial[..|group|][j];
      } else {
        assert trial[|group| + (j - |group|)] == remainder[s[j - |group|]];
      }
    }
  }

  lemma PlacesKnown(files: seq<File>, group: seq<nat>, remainder: seq<nat>, s: seq<nat>, k: nat, n: nat)
    requires Known(files, group) && Known(files, remainder) && IsSubset(s, k, n) && n <= |remainder|
    ensures forall i | 0 <= i < |s| :: s[i] < |remainder|
    ensures Known(files, group + Picked(remainder, s))
  {
  }

  /** The first k-subset with the highest efficiency above 0, if any has one. */
  method BestSubset(files: seq<File>, group: seq<nat>, remainder: seq<nat>, k: nat, n: nat)
    returns (best: seq<nat>, bestEfficiency: real)
    requires Comparable(files) && Known(files, group) && Known(files, remainder) && 1 <= k <= n <= |remainder|
    ensures IsBest(files, group, remainder, k, n, best, bestEfficiency)
  {
    hide BestSoFar, IsBest, IsSubset, Before, OfSubset;
    var candidate := MakeFirstSubset(k, n);
    best, bestEfficiency := [], 0.0;
    var trial := new nat[|group| + k](i => if 0 <= i < |group| then group[i] else 0);
    assert trial[..|group|] == group;
    FirstSeesAll(files, group, remainder, k, n);
    while true
      invariant fresh(candidate) && fresh(trial) && candidate.Length == k && IsSubset(candidate[..], k, n)
      invariant trial.Length == |group| + k && trial[..|group|] == group
      invariant BestSoFar(files, group, remainder, k, n, candidate[..], false, best, bestEfficiency)
      decreases Left(candidate[..], k, n)
    {
      ghost var current := candidate[..];
      ghost var first, firstEfficiency := best, bestEfficiency;
      PlacesKnown(files, group, remainder, current, k, n);
      assert forall i | 0 <= i < k :: current[i] == candidate[i];
      FillTrial(trial, group, remainder, candidate);
      var trialEfficiency := EfficiencyOfSubset(files, trial[..]);
      if trialEfficiency > bestEfficiency {
        bestEfficiency := trialEfficiency;
        best := candidate[..];
      }
      TriedSeesAll(files, group, remainder, k, n, current, first, firstEfficiency, best, bestEfficiency);
      var last := IsLastSubset(candidate, n);
      if last {
        LastSeesAll(files, group, remainder, k, n, current, best, bestEfficiency);
        break;
      }
      LessLeft(current, k, n);
      SuccessorSeesAll(files, group, remainder, k, n, current, best, bestEfficiency);
      NextSubset(candidate, n);
      assert trial[..|group|] == group;
    }
  }

  lemma FirstSeesAll(files: seq<File>, group: seq<nat>, remainder: seq<nat>, k: nat, n: nat)
    requires Comparable(files) && Known(files, group) && Known(files, remainder) && 1 <= k <= n <= |remainder|
    ensures BestSoFar(files, group, remainder, k, n, First(k), false, [], 0.0)
  {
    forall t | IsSubset(t, k, n)
      ensures !Before(t, First(k))
    {
      FirstIsLeast(t, k, n);
      if t != First(k) { BeforeIsAsymmetric(First(k), t); }
    }
  }

  lemma TriedSeesAll(files: seq<File>, group: seq<nat>, remainder: seq<nat>, k: nat, n: nat, s: seq<nat>,
                     first: seq<nat>, firstEfficiency: real, best: seq<nat>, bestEfficiency: real)
    requires Comparable(files) && Known(files, group) && Known(files, remainder) && 1 <= k <= n <= |remainder|
    requires IsSubset(s, k, n) && BestSoFar(files, group, remainder, k, n, s, false, first, firstEfficiency)
    requires var e := TrialEfficiency(files, group, remainder, s);
      if e > firstEfficiency then best == s && bestEfficiency == e else best == first && bestEfficiency == firstEfficiency
    ensures BestSoFar(files, group, remainder, k, n, s, true, best, bestEfficiency)
  {
    SubsetValue(files, group + Picked(remainder, s));
  }

  lemma LastSeesAll(files: seq<File>, group: seq<nat>, remainder: seq<nat>, k: nat, n: nat,
                    s: seq<nat>, first: seq<nat>, best: real)
    requires Comparable(files) && Known(files, group) && Known(files, remainder) && 1 <= k <= n <= |remainder|
    requires IsSubset(s, k, n) && IsLast(s, n) && BestSoFar(files, group, remainder, k, n, s, true, first, best)
    ensures IsBest(files, group, remainder, k, n, first, best)
  {
    LastIsGreatest(s, k, n);
    forall t | IsSubset(t, k, n)
      ensures TrialEfficiency(files, group, remainder, t) <= best
    {
      FirstDifference(s, t, 0);
    }
  }

  lemma SuccessorSeesAll(files: seq<File>, group: seq<nat>, remainder: seq<nat>, k: nat, n: nat,
                         s: seq<nat>, first: seq<nat>, best: real)
    requires Comparable(files) && Known(files, group) && Known(files, remainder) && 1 <= k <= n <= |remainder|
    requires IsSubset(s, k, n) && !IsLast(s, n) && BestSoFar(files, group, remainder, k, n, s, true, first, best)
    ensures BestSoFar(files, group, remainder, k, n, Successor(s, k, n), false, first, best)
  {
    var next := Successor(s, k, n);
    forall t | IsSubset(t, k, n) && Before(t, next)
      ensures TrialEfficiency(files, group, remainder, t) <= best
    {
      SuccessorIsImmediate(s, k, n, t);
      FirstDifference(s, t, 0);
      BeforeIsAsymmetric(t, next);
    }
  }

  // ---- the best subset, as a function ----

  /** Which of two IsBest claims about the same subsets are true: only one. */
  lemma BestIsUnique(files: seq<File>, group: seq<nat>, remainder: seq<nat>, k: nat, n: nat,
                     a: seq<nat>, x: real, b: seq<nat>, y: real)
    requires Comparable(files) && Known(files, group) && Known(files, remainder) && n <= |remainder|
    requires IsBest(files, group, remainder, k, n, a, x) && IsBest(files, group, remainder, k, n, b, y)
    ensures a == b && x == y
  {
    if a != [] && b != [] { FirstDifference(a, b, 0); }
  }

  /** The first best subset of those from `s` on, and its efficiency. */
  ghost function BestFrom(files: seq<File>, group: seq<nat>, remainder: seq<nat>, s: seq<nat>, k: nat, n: nat): (seq<nat>, real)
    requires Comparable(files) && Known(files, group) && Known(files, remainder) && 1 <= k <= n <= |remainder|
    requires IsSubset(s, k, n)
    decreases Left(s, k, n)
  {
    var e := TrialEfficiency(files, group, remainder, s);
    if IsLast(s, n) then if e > 0.0 then (s, e) else ([], 0.0)
    else
      LessLeft(s, k, n);
      var later := BestFrom(files, group, remainder, Successor(s, k, n), k, n);
      if e > 0.0 && e >= later.1 then (s, e) else later
  }

  ghost predicate FromOn(s: seq<nat>, t: seq<nat>, k: nat, n: nat) {
    IsSubset(t, k, n) && (t == s || Before(s, t))
  }

  /** `first` is the first best subset of those from `s` on. */
  ghost predicate IsBestFrom(files: seq<File>, group: seq<nat>, remainder: seq<nat>, s: seq<nat>, k: nat, n: nat,
                             first: seq<nat>, best: real)
    requires Comparable(files) && Known(files, group) && Known(files, remainder) && n <= |remainder|
  {
    && (forall t | FromOn(s, t, k, n) :: TrialEfficiency(files, group, remainder, t) <= best)
    && if first == [] then best == 0.0
       else
         && FromOn(s, first, k, n) && best == TrialEfficiency(files, group, remainder, first) && best > 0.0
         && forall t | FromOn(s, t, k, n) && Before(t, first) :: TrialEfficiency(files, group, remainder, t) < best
  }

  lemma {:induction false} BestFromIs(files: seq<File>, group: seq<nat>, remainder: seq<nat>, s: seq<nat>, k: nat, n: nat)
    requires Comparable(files) && Known(files, group) && Known(files, remainder) && 1 <= k <= n <= |remainder|
    requires IsSubset(s, k, n)
    ensures var b := BestFrom(files, group, remainder, s, k, n); IsBestFrom(files, group, remainder, s, k, n, b.0, b.1)
    decreases Left(s, k, n)
  {
    hide Comparable, Known, TrialEfficiency;
    if IsLast(s, n) {
      LastIsGreatest(s, k, n);
    } else {
      LessLeft(s, k, n);
      var next := Successor(s, k, n);
      BestFromIs(files, group, remainder, next, k, n);
      forall t
        ensures FromOn(s, t, k, n) <==> t == s || FromOn(next, t, k, n)
        ensures FromOn(next, t, k, n) ==> !Before(t, s)
      {
        if IsSubset(t, k, n) {
          SuccessorIsImmediate(s, k, n, t);
          if Before(s, t) { BeforeIsAsymmetric(s, t); }
        }
      }
      if Before(s, s) { BeforeIsAsymmetric(s, s); }
    }
  }

  /** The first best of all k-subsets, and its efficiency. */
  ghost function Best(files: seq<File>, group: seq<nat>, remainder: seq<nat>, k: nat, n: nat): (seq<nat>, real)
    requires Comparable(files) && Known(files, group) && Known(files, remainder) && 1 <= k <= n <= |remainder|
  {
    BestFrom(files, group, remainder, First(k), k, n)
  }

  lemma BestIs(files: seq<File>, group: seq<nat>, remainder: seq<nat>, k: nat, n: nat)
    requires Comparable(files) && Known(files, group) && Known(files, remainder) && 1 <= k <= n <= |remainder|
    ensures var b := Best(files, group, remainder, k, n); IsBest(files, group, remainder, k, n, b.0, b.1)
  {
    hide Comparable, Known, TrialEfficiency;
    BestFromIs(files, group, remainder, First(k), k, n);
    forall t | IsSubset(t, k, n)
      ensures FromOn(First(k), t, k, n)
    {
      FirstIsLeast(t, k, n);
    }
  }

  lemma IsBestIsBest(files: seq<File>, group: seq<nat>, remainder: seq<nat>, k: nat, n: nat, first: seq<nat>, best: real)
    requires Comparable(files) && Known(files, group) && Known(files, remainder) && 1 <= k <= n <= |remainder|
    requires IsBest(files, group, remainder, k, n, first, best)
    ensures Best(files, group, remainder, k, n) == (first, best)
  {
    BestIs(files, group, remainder, k, n);
    var b := Best(files, group, remainder, k, n);
    BestIsUnique(files, group, remainder, k, n, first, best, b.0, b.1);
  }

  /** Only the places below n of the remainder matter. */
  lemma {:induction false} BestFromPrefix(files: seq<File>, group: seq<nat>, remainder: seq<nat>, other: seq<nat>,
                                          s: seq<nat>, k: nat, n: nat)
    requires Comparable(files) && Known(files, group) && Known(files, remainder) && Known(files, other)
    requires 1 <= k <= n <= |remainder| && n <= |other| && remainder[..n] == other[..n] && IsSubset(s, k, n)
    ensures BestFrom(files, group, remainder, s, k, n) == BestFrom(files, group, other, s, k, n)
    decreases Left(s, k, n)
  {
    hide OfSubset;
    assert Picked(remainder, s) == Picked(other, s) by {
      assert forall i | 0 <= i < n :: remainder[..n][i] == other[..n][i];
    }
    if !IsLast(s, n) {
      LessLeft(s, k, n);
      BestFromPrefix(files, group, remainder, other, Successor(s, k, n), k, n);
    }
  }
}
