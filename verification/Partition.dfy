/** The greedy search for groups of files that one choice of block sizes serves well. */
module Partition {
  import opened Sequences
  import opened Efficiency
  import opened Subsets
  import opened SubsetLimits
  import opened BestSubsets
  import opened CandidateSearch

  // ---- choosing one candidate ----

  /** Replaces each of the first candidates by the one at its chosen place, in place. */
  method Narrow(candidates: array<nat>, chosen: seq<nat>, n: nat)
    requires n <= candidates.Length && IsSubset(chosen, |chosen|, n)
    modifies candidates
    ensures |chosen| <= n
    ensures candidates[..|chosen|] == Picked(old(candidates[..n]), chosen)
  {
    ghost var before := candidates[..];
    forall i | 0 <= i < |chosen|
      ensures i <= chosen[i]
    {
      Gap(chosen, |chosen|, n, 0, i);
    }
    if chosen != [] { RoomAbove(chosen, |chosen|, n, 0); }
    for i := 0 to |chosen|
      invariant forall j | 0 <= j < i :: candidates[j] == before[chosen[j]]
      invariant forall j | i <= j < candidates.Length :: candidates[j] == before[j]
    {
      candidates[i] := candidates[chosen[i]];
    }
    assert before[..n] == old(candidates[..n]);
  }

  /** Some file of the remainder can join the group. */
  ghost predicate CanGrow(files: seq<File>, group: seq<nat>, remainder: seq<nat>, t: real)
    requires Comparable(files) && Known(files, group) && Known(files, remainder)
  {
    exists x | 0 <= x < |remainder| :: OfSubset(files, group + [remainder[x]]) > t
  }

  /** `winner` is a best subset of its size and beats t together with the group; no larger one does. */
  ghost predicate IsWinner(files: seq<File>, group: seq<nat>, remainder: seq<nat>, t: real, winner: seq<nat>, size: nat)
    requires Comparable(files) && Known(files, group) && Known(files, remainder)
  {
    && 0 < |winner| <= size && IsSubset(winner, |winner|, |remainder|)
    && TrialEfficiency(files, group, remainder, winner) > t
    && IsBest(files, group, remainder, |winner|, |remainder|, winner, TrialEfficiency(files, group, remainder, winner))
    && NoneBeats(files, group, remainder, t, |winner|, size)
  }

  /** All of the candidates belong to the winner. */
  ghost predicate InWinner(files: seq<File>, group: seq<nat>, remainder: seq<nat>, t: real,
                           candidates: seq<nat>, winner: seq<nat>, size: nat)
    requires Comparable(files) && Known(files, group) && Known(files, remainder)
  {
    && IsWinner(files, group, remainder, t, winner, size)
    && forall i | 0 <= i < |candidates| :: candidates[i] in winner
  }

  /** A file of a subset that beats t can join the group alone. */
  lemma WinnerJoins(files: seq<File>, group: seq<nat>, remainder: seq<nat>, t: real, candidates: seq<nat>,
                    winner: seq<nat>, size: nat)
    requires Comparable(files) && Known(files, group) && Known(files, remainder)
    requires InWinner(files, group, remainder, t, candidates, winner, size) && candidates != []
    ensures candidates[0] in winner && candidates[0] < |remainder| && OfSubset(files, group + [remainder[candidates[0]]]) > t
  {
    assert candidates[0] in winner;
    var i :| 0 <= i < |winner| && winner[i] == candidates[0];
    var p := Picked(remainder, winner);
    assert p[i] == remainder[candidates[0]];
    assert p[i] in p;
    FewerFilesDoBetter(files, group + [remainder[candidates[0]]], group + p);
  }

  /** No subset of more than k and at most `size` files beats t together with the group. */
  ghost predicate NoneBeats(files: seq<File>, group: seq<nat>, remainder: seq<nat>, t: real, k: nat, size: nat)
    requires Comparable(files) && Known(files, group) && Known(files, remainder)
  {
    forall s | k < |s| <= size && IsSubset(s, |s|, |remainder|) :: TrialEfficiency(files, group, remainder, s) <= t
  }

  lemma NoSingleBeats(files: seq<File>, group: seq<nat>, remainder: seq<nat>, t: real, size: nat)
    requires Comparable(files) && Known(files, group) && Known(files, remainder)
    requires NoneBeats(files, group, remainder, t, 0, size) && 1 <= size
    ensures !CanGrow(files, group, remainder, t)
  {
    forall x: nat | x < |remainder|
      ensures OfSubset(files, group + [remainder[x]]) <= t
    {
      assert IsSubset([x], |[x]|, |remainder|);
      assert Picked(remainder, [x]) == [remainder[x]];
      assert TrialEfficiency(files, group, remainder, [x]) <= t;
    }
  }

  /** The state of the choice before subsets of k files are tried: either the candidates are still
      all of the remainder and no larger subset has won, or they belong to a winner. */
  ghost predicate Choosing(files: seq<File>, group: seq<nat>, remainder: seq<nat>, t: real,
                           candidates: seq<nat>, k: nat, size: nat, winner: seq<nat>)
    requires Comparable(files) && Known(files, group) && Known(files, remainder)
  {
    if winner == [] then
      && |candidates| == |remainder| && (forall i | 0 <= i < |remainder| :: candidates[i] == i)
      && NoneBeats(files, group, remainder, t, k, size)
    else InWinner(files, group, remainder, t, candidates, winner, size)
  }

  lemma StillChoosing(files: seq<File>, group: seq<nat>, remainder: seq<nat>, t: real,
                      candidates: seq<nat>, k: nat, size: nat, winner: seq<nat>, first: seq<nat>, best: real)
    requires Comparable(files) && Known(files, group) && Known(files, remainder) && 1 <= k
    requires |candidates| <= |remainder| && Choosing(files, group, remainder, t, candidates, k, size, winner)
    requires IsBest(files, group, remainder, k, |candidates|, first, best) && best <= t
    ensures Choosing(files, group, remainder, t, candidates, k - 1, size, winner)
  {
    if winner == [] {
      forall s | k - 1 < |s| <= size && IsSubset(s, |s|, |remainder|)
        ensures TrialEfficiency(files, group, remainder, s) <= t
      {
        assert |s| == k ==> IsSubset(s, k, |candidates|);
      }
    }
  }

  lemma NarrowedChoosing(files: seq<File>, group: seq<nat>, remainder: seq<nat>, t: real,
                         candidates: seq<nat>, k: nat, size: nat, winner: seq<nat>, best: seq<nat>, bestEfficiency: real)
    requires Comparable(files) && Known(files, group) && Known(files, remainder) && 1 <= k
    requires |candidates| <= |remainder| && Choosing(files, group, remainder, t, candidates, k, size, winner)
    requires IsBest(files, group, remainder, k, |candidates|, best, bestEfficiency)
    requires k <= size && bestEfficiency > t >= 0.0
    ensures IsSubset(best, k, |candidates|)
    ensures Choosing(files, group, remainder, t, Picked(candidates, best), k - 1, size, if winner == [] then best else winner)
  {
    var narrowed := Picked(candidates, best);
    var won := if winner == [] then best else winner;
    forall i | 0 <= i < |narrowed|
      ensures narrowed[i] in won
    {
      assert narrowed[i] == candidates[best[i]];
      assert winner == [] ==> narrowed[i] == best[i];
    }
  }

  /** The state of the search before subsets of `size` files are tried. */
  ghost predicate Trying(files: seq<File>, group: seq<nat>, remainder: seq<nat>, t: real,
                         candidates: seq<nat>, size: nat, limit: nat, winner: seq<nat>)
    requires Comparable(files) && Known(files, group) && Known(files, remainder) && remainder != [] && t >= 0.0
  {
    && Places(candidates, |remainder|) && candidates != [] && size <= |candidates| && size <= limit <= |remainder|
    && Choosing(files, group, remainder, t, candidates, size, limit, winner)
    && Search(files, group, remainder, t, candidates, size) == Search(files, group, remainder, t, First(|remainder|), limit)
  }

  lemma TryingStart(files: seq<File>, group: seq<nat>, remainder: seq<nat>, t: real, candidates: seq<nat>, limit: nat)
    requires Comparable(files) && Known(files, group) && Known(files, remainder) && remainder != [] && t >= 0.0
    requires candidates == First(|remainder|) && limit <= |remainder|
    ensures Trying(files, group, remainder, t, candidates, limit, limit, [])
  {
  }

  lemma TryingStep(files: seq<File>, group: seq<nat>, remainder: seq<nat>, t: real, candidates: seq<nat>, size: nat,
                   limit: nat, winner: seq<nat>, best: seq<nat>, bestEfficiency: real)
    requires Comparable(files) && Known(files, group) && Known(files, remainder) && remainder != [] && t >= 0.0
    requires Trying(files, group, remainder, t, candidates, size, limit, winner) && 1 <= size
    requires IsBest(files, group, remainder, size, |candidates|, best, bestEfficiency)
    ensures bestEfficiency > t ==>
      && IsSubset(best, size, |candidates|)
      && Trying(files, group, remainder, t, Picked(candidates, best), size - 1, limit, if winner == [] then best else winner)
    ensures bestEfficiency <= t ==> Trying(files, group, remainder, t, candidates, size - 1, limit, winner)
  {
    hide IsBest, Choosing, Narrowed;
    NarrowedIs(files, group, remainder, t, candidates, size, best, bestEfficiency);
    if bestEfficiency > t {
      NarrowedChoosing(files, group, remainder, t, candidates, size, limit, winner, best, bestEfficiency);
      PickedPlaces(candidates, best, size, |remainder|);
    } else {
      StillChoosing(files, group, remainder, t, candidates, size, limit, winner, best, bestEfficiency);
    }
  }

  lemma PickedPlaces(candidates: seq<nat>, best: seq<nat>, size: nat, n: nat)
    requires Places(candidates, n) && IsSubset(best, size, |candidates|)
    ensures Places(Picked(candidates, best), n) && |Picked(candidates, best)| == size
  {
    if size > 0 { RoomAbove(best, size, |candidates|, 0); }
  }

  lemma TryingEnd(files: seq<File>, group: seq<nat>, remainder: seq<nat>, t: real, candidates: seq<nat>,
                  limit: nat, winner: seq<nat>)
    requires Comparable(files) && Known(files, group) && Known(files, remainder) && remainder != [] && t >= 0.0
    requires Trying(files, group, remainder, t, candidates, 0, limit, winner) && (limit >= 1 || |remainder| == 1)
    ensures var place := candidates[0];
      && place < |remainder| && place == Search(files, group, remainder, t, First(|remainder|), limit)
      && (if winner == [] then place == 0 && NoneBeats(files, group, remainder, t, 0, limit)
          else place in winner && IsWinner(files, group, remainder, t, winner, limit))
      && (OfSubset(files, group + [remainder[place]]) > t <==> CanGrow(files, group, remainder, t))
  {
    hide IsWinner, NoneBeats, OfSubset;
    if winner != [] {
      WinnerJoins(files, group, remainder, t, candidates, winner, limit);
    } else if limit >= 1 {
      NoSingleBeats(files, group, remainder, t, limit);
    }
  }

  /** Picks the place of a file of the remainder: one of the first best subset of the largest size of
      which some subset beats t together with the group, or else the first place. If any file can
      join the group, this one can. */
  method ChooseCandidate(files: seq<File>, group: seq<nat>, remainder: seq<nat>, t: real)
    returns (place: nat, ghost winner: seq<nat>, ghost limit: nat)
    requires Comparable(files) && Known(files, group) && Known(files, remainder) && remainder != []
    requires |remainder| < UINT64_BOUND && 0.0 <= t < 1.0
    ensures place < |remainder| && IsLimit(|remainder|, limit)
    ensures if winner == [] then place == 0 && NoneBeats(files, group, remainder, t, 0, limit)
            else place in winner && IsWinner(files, group, remainder, t, winner, limit)
    ensures place == Search(files, group, remainder, t, First(|remainder|), limit)
    ensures OfSubset(files, group + [remainder[place]]) > t <==> CanGrow(files, group, remainder, t)
  {
    hide IsBest, IsWinner, NoneBeats, OfSubset, Choosing, Search, CanGrow;
    var candidates := new nat[|remainder|](i => i);
    var n := candidates.Length;
    var size := MaxFeasibleSubsetSize(n);
    limit := size;
    winner := [];
    assert candidates[..n] == First(|remainder|);
    TryingStart(files, group, remainder, t, candidates[..n], limit);
    while size >= 1
      invariant size <= n <= candidates.Length == |remainder| && n >= 1 && fresh(candidates)
      invariant Trying(files, group, remainder, t, candidates[..n], size, limit, winner)
    {
      var best, bestEfficiency := BestSubset(files, group, remainder, size, n);
      TryingStep(files, group, remainder, t, candidates[..n], size, limit, winner, best, bestEfficiency);
      if bestEfficiency > t {
        Narrow(candidates, best, n);
        winner := if winner == [] then best else winner;
        n := |best|;
      }
      size := size - 1;
    }
    place := candidates[0];
    TryingEnd(files, group, remainder, t, candidates[..n], limit, winner);
  }

  // ---- one group ----

  /** Moves one file from the remainder into the group, if one can join. */
  method JoinOne(files: seq<File>, t: real, remainder: seq<nat>, group: seq<nat>)
    returns (joined: bool, rest: seq<nat>, larger: seq<nat>)
    requires Comparable(files) && Known(files, remainder) && Known(files, group) && remainder != []
    requires |remainder| < UINT64_BOUND && 0.0 <= t < 1.0
    ensures joined <==> CanGrow(files, group, remainder, t)
    ensures !joined ==> rest == remainder && larger == group
    ensures joined ==>
      && |rest| == |remainder| - 1 && multiset(rest) + multiset(larger) == multiset(remainder) + multiset(group)
      && Known(files, rest) && Known(files, larger) && larger != [] && OfSubset(files, larger) > t
  {
    hide IsWinner, NoneBeats, IsLimit, Search, OfSubset, CanGrow, Comparable;
    var place; ghost var winner, limit;
    place, winner, limit := ChooseCandidate(files, group, remainder, t);
    var trial := group + [remainder[place]];
    var trialEfficiency := EfficiencyOfSubset(files, trial);
    if trialEfficiency > t {
      WithoutMembers(remainder, place);
      rest := Without(remainder, place);
      assert forall i | 0 <= i < |rest| :: rest[i] in rest;
      return true, rest, trial;
    }
    return false, remainder, group;
  }

  /** Moves files from the remainder into a new group as long as one can join. */
  method FindSubset(files: seq<File>, t: real, remainder: seq<nat>) returns (rest: seq<nat>, group: seq<nat>)
    requires Comparable(files) && Known(files, remainder) && |remainder| < UINT64_BOUND && 0.0 <= t < 1.0
    ensures multiset(rest) + multiset(group) == multiset(remainder)
    ensures Known(files, rest) && Known(files, group)
    ensures remainder != [] ==> group != []
    ensures OfSubset(files, group) > t
    ensures !CanGrow(files, group, rest, t)
  {
    hide Comparable, Known;
    rest, group := remainder, [];
    EmptyIsKnown(files);
    while rest != []
      invariant multiset(rest) + multiset(group) == multiset(remainder)
      invariant Known(files, rest) && Known(files, group) && |rest| <= |remainder|
      invariant group == [] ==> rest == remainder
      invariant OfSubset(files, group) > t
      decreases |rest|
    {
      FirstCanJoin(files, group, rest, t);
      var joined;
      joined, rest, group := JoinOne(files, t, rest, group);
      if !joined {
        return;
      }
    }
  }

  lemma EmptyIsKnown(files: seq<File>)
    ensures Known(files, [])
  {
  }

  /** Any file alone has efficiency 1. */
  lemma FirstCanJoin(files: seq<File>, group: seq<nat>, rest: seq<nat>, t: real)
    requires Comparable(files) && Known(files, rest) && Known(files, group) && rest != [] && t < 1.0
    ensures group == [] ==> CanGrow(files, group, rest, t)
  {
    if group == [] { assert OfSubset(files, group + [rest[0]]) == 1.0; }
  }

  // ---- a partition ----

  function Members(p: seq<seq<nat>>): multiset<nat> {
    if p == [] then multiset{} else Members(p[..|p| - 1]) + multiset(p[|p| - 1])
  }

  /** No group is empty, and every file is in exactly one of them. */
  ghost predicate IsPartition(p: seq<seq<nat>>, n: nat) {
    (forall i | 0 <= i < |p| :: p[i] != []) && Members(p) == multiset(First(n))
  }

  ghost predicate AllKnown(files: seq<File>, p: seq<seq<nat>>) {
    forall i | 0 <= i < |p| :: Known(files, p[i])
  }

  /** Every group beats t, and no file of a later group can join an earlier one. */
  ghost predicate Greedy(files: seq<File>, p: seq<seq<nat>>, t: real)
    requires Comparable(files) && AllKnown(files, p)
  {
    && (forall i | 0 <= i < |p| :: OfSubset(files, p[i]) > t)
    && forall i, j | 0 <= i < j < |p| :: !CanGrow(files, p[i], p[j], t)
  }

  lemma StillStuck(files: seq<File>, group: seq<nat>, remainder: seq<nat>, part: seq<nat>, t: real)
    requires Comparable(files) && Known(files, group) && Known(files, remainder) && Known(files, part)
    requires !CanGrow(files, group, remainder, t) && forall x :: x in part ==> x in remainder
    ensures !CanGrow(files, group, part, t)
  {
    forall x: nat | x < |part|
      ensures OfSubset(files, group + [part[x]]) <= t
    {
      assert part[x] in remainder;
      var y :| 0 <= y < |remainder| && remainder[y] == part[x];
      assert OfSubset(files, group + [remainder[y]]) <= t;
    }
  }

  lemma PartsAreIn(a: seq<nat>, b: seq<nat>, c: seq<nat>)
    requires multiset(a) + multiset(b) == multiset(c)
    ensures forall x :: x in a || x in b ==> x in c
  {
    forall x | x in a || x in b
      ensures x in c
    {
      assert x in multiset(a) + multiset(b);
    }
  }

  /** The groups so far and the files that remain. */
  ghost predicate Partitioning(files: seq<File>, p: seq<seq<nat>>, remainder: seq<nat>, t: real)
    requires Comparable(files)
  {
    && Known(files, remainder) && AllKnown(files, p)
    && (forall i | 0 <= i < |p| :: p[i] != [] && !CanGrow(files, p[i], remainder, t))
    && Members(p) + multiset(remainder) == multiset(First(|files|)) && Greedy(files, p, t)
  }

  lemma OneMoreGroup(files: seq<File>, p: seq<seq<nat>>, remainder: seq<nat>, rest: seq<nat>, group: seq<nat>, t: real)
    requires Comparable(files) && Partitioning(files, p, remainder, t)
    requires multiset(rest) + multiset(group) == multiset(remainder) && Known(files, rest) && Known(files, group)
    requires group != [] && OfSubset(files, group) > t && !CanGrow(files, group, rest, t)
    ensures Partitioning(files, p + [group], rest, t) && |rest| < |remainder|
  {
    hide OfSubset, CanGrow, Comparable, Known;
    var more := p + [group];
    PartsAreIn(rest, group, remainder);
    assert |multiset(rest)| + |multiset(group)| == |multiset(remainder)|;
    forall i | 0 <= i < |p|
      ensures Known(files, p[i]) && !CanGrow(files, p[i], group, t) && !CanGrow(files, p[i], rest, t)
    {
      StillStuck(files, p[i], remainder, group, t);
      StillStuck(files, p[i], remainder, rest, t);
    }
    assert more[..|p|] == p;
  }

  method FindPartition(files: seq<File>, t: real) returns (partition: seq<seq<nat>>)
    requires Comparable(files) && |files| < UINT64_BOUND && 0.0 <= t < 1.0
    ensures IsPartition(partition, |files|) && AllKnown(files, partition) && Greedy(files, partition, t)
  {
    hide OfSubset, CanGrow, Comparable;
    partition := [];
    var remainder := First(|files|);
    while remainder != []
      invariant Partitioning(files, partition, remainder, t) && |remainder| <= |files|
      decreases |remainder|
    {
      var rest, group := FindSubset(files, t, remainder);
      OneMoreGroup(files, partition, remainder, rest, group, t);
      partition, remainder := partition + [group], rest;
    }
  }
}
