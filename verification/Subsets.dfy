/** Enumerating the k-element subsets of {0, ..., n - 1}, kept as increasing sequences, in
    lexicographic order. */
module Subsets {

  predicate IsSubset(s: seq<nat>, k: nat, n: nat) {
    && |s| == k
    && (forall i | 0 <= i < k :: s[i] < n)
    && forall i, j | 0 <= i < j < k :: s[i] < s[j]
  }

  /** The sequences agree before index i, where the first one is smaller. */
  predicate DiffersAt(a: seq<nat>, b: seq<nat>, i: nat) {
    i < |a| && i < |b| && a[i] < b[i] && forall j | 0 <= j < i :: a[j] == b[j]
  }

  /** The lexicographic order on sequences of one length. */
  ghost predicate Before(a: seq<nat>, b: seq<nat>) {
    |a| == |b| && exists i: nat :: DiffersAt(a, b, i)
  }

  lemma {:induction false} Gap(s: seq<nat>, k: nat, n: nat, i: nat, j: nat)
    requires IsSubset(s, k, n) && i <= j < k
    ensures s[i] + (j - i) <= s[j]
    decreases j - i
  {
    if i < j { Gap(s, k, n, i, j - 1); }
  }

  /** Entry i leaves room for the entries after it. */
  lemma RoomAbove(s: seq<nat>, k: nat, n: nat, i: nat)
    requires IsSubset(s, k, n) && i < k
    ensures s[i] <= n - k + i && k <= n
  {
    Gap(s, k, n, i, k - 1);
    Gap(s, k, n, 0, i);
  }

  // ---- the order ----

  lemma {:induction false} FirstDifference(a: seq<nat>, b: seq<nat>, i: nat)
    requires i <= |a| == |b| && forall j | 0 <= j < i :: a[j] == b[j]
    ensures a == b || Before(a, b) || Before(b, a)
    decreases |a| - i
  {
    if i < |a| {
      if a[i] == b[i] {
        FirstDifference(a, b, i + 1);
      } else {
        assert DiffersAt(a, b, i) || DiffersAt(b, a, i);
      }
    }
  }

  lemma BeforeIsTransitive(a: seq<nat>, b: seq<nat>, c: seq<nat>)
    requires Before(a, b) && Before(b, c)
    ensures Before(a, c)
  {
    var i: nat :| DiffersAt(a, b, i);
    var j: nat :| DiffersAt(b, c, j);
    assert DiffersAt(a, c, if i < j then i else j);
  }

  lemma BeforeIsAsymmetric(a: seq<nat>, b: seq<nat>)
    requires Before(a, b)
    ensures !Before(b, a) && a != b
  {
    var i: nat :| DiffersAt(a, b, i);
    forall j: nat
      ensures !DiffersAt(b, a, j)
    {
      assert j < i || i <= j;
    }
  }

  // ---- the first and the last subset ----

  function First(k: nat): (s: seq<nat>)
    ensures |s| == k
  {
    seq(k, i requires 0 <= i < k => i)
  }

  /** The first subset comes before every other one. */
  lemma FirstIsLeast(t: seq<nat>, k: nat, n: nat)
    requires IsSubset(t, k, n)
    ensures k <= n && IsSubset(First(k), k, n) && (t == First(k) || Before(First(k), t))
  {
    if k > 0 { RoomAbove(t, k, n, 0); }
    forall i | 0 <= i < k
      ensures i <= t[i]
    {
      Gap(t, k, n, 0, i);
    }
    FirstDifference(First(k), t, 0);
  }

  predicate IsLast(s: seq<nat>, n: nat)
    requires 1 <= |s| <= n
  {
    s[0] == n - |s|
  }

  // ---- the successor ----

  /** The last index whose entry can still grow. */
  predicate IsPivot(s: seq<nat>, k: nat, n: nat, p: nat) {
    && p < k == |s| <= n && s[p] != n - k + p
    && forall q | p < q < k :: s[q] == n - k + q
  }

  /** The last index below `len` whose entry can still grow. */
  function Pivot(s: seq<nat>, k: nat, n: nat, len: nat): (p: nat)
    requires IsSubset(s, k, n) && 1 <= len <= k <= n && !IsLast(s, n)
    requires forall q | len <= q < k :: s[q] == n - k + q
    ensures IsPivot(s, k, n, p)
  {
    if s[len - 1] != n - k + (len - 1) then len - 1
    else
      Gap(s, k, n, 0, len - 1);
      Pivot(s, k, n, len - 1)
  }

  /** Entry p grows by one, and the later entries follow it closely. */
  function Advance(s: seq<nat>, p: nat): (t: seq<nat>)
    requires p < |s|
    ensures |t| == |s|
  {
    seq(|s|, j requires 0 <= j < |s| => if j < p then s[j] else s[p] + 1 + (j - p))
  }

  function Successor(s: seq<nat>, k: nat, n: nat): (t: seq<nat>)
    requires IsSubset(s, k, n) && 1 <= k <= n && !IsLast(s, n)
  {
    Advance(s, Pivot(s, k, n, k))
  }

  lemma AdvanceIsLater(s: seq<nat>, k: nat, n: nat, p: nat)
    requires IsSubset(s, k, n) && IsPivot(s, k, n, p)
    ensures IsSubset(Advance(s, p), k, n) && Before(s, Advance(s, p))
  {
    RoomAbove(s, k, n, p);
    assert DiffersAt(s, Advance(s, p), p);
  }

  /** Nothing comes between a subset and its successor. */
  lemma SuccessorIsImmediate(s: seq<nat>, k: nat, n: nat, t: seq<nat>)
    requires IsSubset(s, k, n) && 1 <= k <= n && !IsLast(s, n) && IsSubset(t, k, n)
    ensures IsSubset(Successor(s, k, n), k, n) && Before(s, Successor(s, k, n))
    ensures Before(s, t) <==> t == Successor(s, k, n) || Before(Successor(s, k, n), t)
  {
    var p := Pivot(s, k, n, k);
    var next := Advance(s, p);
    AdvanceIsLater(s, k, n, p);
    if Before(s, t) {
      var i: nat :| DiffersAt(s, t, i);
      RoomAbove(t, k, n, i);
      FirstDifference(next, t, 0);
      if i < p {
        assert DiffersAt(next, t, i);
      } else if Before(t, next) {
        var j: nat :| DiffersAt(t, next, j);
        Gap(t, k, n, p, if j < p then p else j);
      }
    }
    if Before(next, t) {
      BeforeIsTransitive(s, next, t);
    }
  }

  /** The test for the last subset holds exactly when no subset comes after. */
  lemma LastIsGreatest(s: seq<nat>, k: nat, n: nat)
    requires IsSubset(s, k, n) && 1 <= k <= n
    ensures IsLast(s, n) <==> !exists t :: IsSubset(t, k, n) && Before(s, t)
  {
    if IsLast(s, n) {
      forall t | IsSubset(t, k, n)
        ensures !Before(s, t)
      {
        if Before(s, t) {
          var i: nat :| DiffersAt(s, t, i);
          RoomAbove(t, k, n, i);
          Gap(s, k, n, 0, i);
        }
      }
    } else {
      SuccessorIsImmediate(s, k, n, s);
    }
  }

  // ---- the operations ----

  method MakeFirstSubset(k: nat, n: nat) returns (s: array<nat>)
    requires 1 <= k <= n
    ensures fresh(s) && s[..] == First(k) && IsSubset(s[..], k, n)
  {
    s := new nat[k];
    for i := 0 to k
      invariant forall j | 0 <= j < i :: s[j] == j
    {
      s[i] := i;
    }
  }

  method IsLastSubset(s: array<nat>, n: nat) returns (last: bool)
    requires 1 <= s.Length <= n && IsSubset(s[..], s.Length, n)
    ensures last <==> !exists t :: IsSubset(t, s.Length, n) && Before(s[..], t)
    ensures last == IsLast(s[..], n)
  {
    LastIsGreatest(s[..], s.Length, n);
    last := s[0] == n - s.Length;
  }

  /** The scan for the entry to change; it stays inside the array. */
  method FirstIndexToChange(s: array<nat>, n: nat) returns (index: nat)
    requires 1 <= s.Length <= n && IsSubset(s[..], s.Length, n) && !IsLast(s[..], n)
    ensures index == Pivot(s[..], s.Length, n, s.Length)
  {
    hide IsSubset;
    ghost var k := s.Length;
    var i := 1;
    while s[s.Length - i] == n - i
      invariant 1 <= i <= s.Length
      invariant forall q | k - i < q < k :: s[..][q] == n - k + q
      invariant Pivot(s[..], k, n, k - i + 1) == Pivot(s[..], k, n, k)
      decreases s.Length - i
    {
      assert s[..][k - i] == n - i;
      i := i + 1;
      assert i <= s.Length;
    }
    assert s[..][k - i] == s[k - i];
    index := s.Length - i;
  }

  /** Moves on to the next subset. */
  method NextSubset(s: array<nat>, n: nat)
    requires 1 <= s.Length <= n && IsSubset(s[..], s.Length, n) && !IsLast(s[..], n)
    modifies s
    ensures s[..] == Successor(old(s[..]), s.Length, n)
  {
    ghost var before := s[..];
    var firstIndexToChange := FirstIndexToChange(s, n);
    hide IsSubset, Pivot, IsPivot;
    s[firstIndexToChange] := s[firstIndexToChange] + 1;
    var p := s[firstIndexToChange];
    for j := firstIndexToChange + 1 to s.Length
      invariant p == before[firstIndexToChange] + (j - firstIndexToChange)
      invariant forall q | 0 <= q < firstIndexToChange :: s[q] == before[q]
      invariant forall q | firstIndexToChange <= q < j :: s[q] == before[firstIndexToChange] + 1 + (q - firstIndexToChange)
    {
      p := p + 1;
      s[j] := p;
    }
    assert s[..] == Advance(before, firstIndexToChange);
  }

  // ---- the whole enumeration ----

  function Power(n: nat, k: nat): nat {
    if k == 0 then 1 else Power(n, k - 1) * n
  }

  /** The subset read as a number with digits below n. */
  function Value(s: seq<nat>, n: nat): nat {
    if s == [] then 0 else Value(s[..|s| - 1], n) * n + s[|s| - 1]
  }

  lemma DigitOrder(x: nat, y: nat, n: nat, a: nat, b: nat)
    requires x < y && a < n
    ensures x * n + a < y * n + b
  {
    Multiples(x, y - x, n);
    NotNegative(y - x - 1, n);
    Multiples(1, y - x - 1, n);
  }

  lemma Multiples(x: int, d: int, n: int)
    ensures (x + d) * n == x * n + d * n
  {
  }

  lemma NotNegative(x: nat, n: nat)
    ensures x * n >= 0
  {
  }

  lemma {:induction false} ValueBounded(s: seq<nat>, n: nat)
    requires forall i | 0 <= i < |s| :: s[i] < n
    ensures Value(s, n) < Power(n, |s|)
  {
    if s != [] {
      ValueBounded(s[..|s| - 1], n);
      DigitOrder(Value(s[..|s| - 1], n), Power(n, |s| - 1), n, s[|s| - 1], 0);
    }
  }

  lemma {:induction false} ValueFollowsOrder(a: seq<nat>, b: seq<nat>, n: nat)
    requires Before(a, b) && forall i | 0 <= i < |a| :: a[i] < n
    ensures Value(a, n) < Value(b, n)
    decreases |a|
  {
    var i: nat :| DiffersAt(a, b, i);
    var a', b' := a[..|a| - 1], b[..|b| - 1];
    if i == |a| - 1 {
      assert a' == b';
    } else {
      assert DiffersAt(a', b', i);
      ValueFollowsOrder(a', b', n);
      DigitOrder(Value(a', n), Value(b', n), n, a[|a| - 1], b[|b| - 1]);
    }
  }

  /** How far the enumeration still can go. */
  function Left(s: seq<nat>, k: nat, n: nat): (left: nat)
    requires IsSubset(s, k, n)
  {
    ValueBounded(s, n);
    Power(n, k) - Value(s, n)
  }

  lemma LessLeft(s: seq<nat>, k: nat, n: nat)
    requires IsSubset(s, k, n) && 1 <= k <= n && !IsLast(s, n)
    ensures IsSubset(Successor(s, k, n), k, n) && Left(Successor(s, k, n), k, n) < Left(s, k, n)
  {
    SuccessorIsImmediate(s, k, n, s);
    ValueFollowsOrder(s, Successor(s, k, n), n);
  }

  /** The subsets visited from `s` on, until the last one. */
  function Visited(s: seq<nat>, k: nat, n: nat): (v: seq<seq<nat>>)
    requires IsSubset(s, k, n) && 1 <= k <= n
    decreases Left(s, k, n)
  {
    if IsLast(s, n) then [s]
    else
      LessLeft(s, k, n);
      [s] + Visited(Successor(s, k, n), k, n)
  }

  /** From `s` on, every subset from `s` on is visited, and nothing else. */
  lemma {:induction false} VisitedExactly(s: seq<nat>, k: nat, n: nat, t: seq<nat>)
    requires IsSubset(s, k, n) && 1 <= k <= n
    ensures t in Visited(s, k, n) <==> IsSubset(t, k, n) && (t == s || Before(s, t))
    decreases Left(s, k, n)
  {
    if IsLast(s, n) {
      LastIsGreatest(s, k, n);
    } else {
      LessLeft(s, k, n);
      var next := Successor(s, k, n);
      VisitedExactly(next, k, n, t);
      assert t in Visited(s, k, n) <==> t == s || t in Visited(next, k, n);
      if IsSubset(t, k, n) {
        SuccessorIsImmediate(s, k, n, t);
      }
    }
  }

  lemma {:induction false} VisitedInOrder(s: seq<nat>, k: nat, n: nat, i: nat, j: nat)
    requires IsSubset(s, k, n) && 1 <= k <= n && i < j < |Visited(s, k, n)|
    ensures Before(Visited(s, k, n)[i], Visited(s, k, n)[j])
    decreases Left(s, k, n)
  {
    if !IsLast(s, n) {
      LessLeft(s, k, n);
      var next := Successor(s, k, n);
      var rest := Visited(next, k, n);
      if i > 0 {
        VisitedInOrder(next, k, n, i - 1, j - 1);
      } else {
        assert rest[j - 1] in rest;
        VisitedExactly(next, k, n, rest[j - 1]);
        SuccessorIsImmediate(s, k, n, rest[j - 1]);
      }
    }
  }

  // ---- how many there are ----

  /** The binomial coefficient. */
  function Choose(n: nat, k: nat): nat {
    if k == 0 then 1 else if n == 0 then 0 else Choose(n - 1, k) + Choose(n - 1, k - 1)
  }

  function Extended(ss: set<seq<nat>>, x: nat): set<seq<nat>> {
    set t | t in ss :: t + [x]
  }

  lemma {:induction false} ExtendedCount(ss: set<seq<nat>>, x: nat)
    ensures |Extended(ss, x)| == |ss|
  {
    if ss != {} {
      var t :| t in ss;
      ExtendedCount(ss - {t}, x);
      assert (t + [x])[..|t|] == t;
      forall u | u in ss - {t}
        ensures u + [x] != t + [x]
      {
        assert (u + [x])[..|u + [x]| - 1] == u;
        assert (t + [x])[..|t + [x]| - 1] == t;
      }
      assert Extended(ss, x) == Extended(ss - {t}, x) + {t + [x]};
    }
  }

  lemma InExtended(ss: set<seq<nat>>, x: nat, s: seq<nat>)
    ensures s in Extended(ss, x) <==> s != [] && s[|s| - 1] == x && s[..|s| - 1] in ss
  {
    if s != [] && s[|s| - 1] == x && s[..|s| - 1] in ss {
      assert s == s[..|s| - 1] + [x];
    }
    if s in Extended(ss, x) {
      var t :| t in ss && s == t + [x];
      assert s[..|s| - 1] == t;
    }
  }

  function AllSubsets(k: nat, n: nat): set<seq<nat>> {
    if k == 0 then {[]} else if n == 0 then {} else AllSubsets(k, n - 1) + Extended(AllSubsets(k - 1, n - 1), n - 1)
  }

  /** A subset of {0, ..., n - 1} either leaves n - 1 out or ends with it. */
  lemma LeavesOutOrEnds(k: nat, n: nat, s: seq<nat>)
    requires 0 < k && 0 < n
    ensures IsSubset(s, k, n) <==>
            IsSubset(s, k, n - 1) || (s != [] && s[|s| - 1] == n - 1 && IsSubset(s[..|s| - 1], k - 1, n - 1))
  {
    if IsSubset(s, k, n) {
      forall i | 0 <= i < k
        ensures s[i] <= s[k - 1]
      {
        Gap(s, k, n, i, k - 1);
      }
    }
  }

  lemma {:induction false} AllSubsetsAre(k: nat, n: nat, s: seq<nat>)
    ensures s in AllSubsets(k, n) <==> IsSubset(s, k, n)
    decreases n
  {
    if 0 < k && 0 < n {
      hide IsSubset;
      AllSubsetsAre(k, n - 1, s);
      InExtended(AllSubsets(k - 1, n - 1), n - 1, s);
      LeavesOutOrEnds(k, n, s);
      if s != [] { AllSubsetsAre(k - 1, n - 1, s[..|s| - 1]); }
    }
  }

  lemma PartsAreDisjoint(k: nat, n: nat)
    requires 0 < k && 0 < n
    ensures AllSubsets(k, n - 1) !! Extended(AllSubsets(k - 1, n - 1), n - 1)
  {
    var small, ending := AllSubsets(k, n - 1), Extended(AllSubsets(k - 1, n - 1), n - 1);
    forall s | s in small
      ensures s !in ending
    {
      AllSubsetsAre(k, n - 1, s);
      InExtended(AllSubsets(k - 1, n - 1), n - 1, s);
    }
  }

  lemma {:induction false} AllSubsetsCount(k: nat, n: nat)
    ensures |AllSubsets(k, n)| == Choose(n, k)
    decreases n
  {
    hide AllSubsets;
    if 0 < k && 0 < n {
      AllSubsetsCount(k, n - 1);
      AllSubsetsCount(k - 1, n - 1);
      CountParts(k, n);
    } else {
      CountNone(k, n);
    }
  }

  lemma CountNone(k: nat, n: nat)
    requires k == 0 || n == 0
    ensures |AllSubsets(k, n)| == if k == 0 then 1 else 0
  {
  }

  lemma CountParts(k: nat, n: nat)
    requires 0 < k && 0 < n
    ensures |AllSubsets(k, n)| == |AllSubsets(k, n - 1)| + |AllSubsets(k - 1, n - 1)|
  {
    hide AllSubsets, Extended;
    AllSubsetsParts(k, n);
    PartsAreDisjoint(k, n);
    ExtendedCount(AllSubsets(k - 1, n - 1), n - 1);
    UnionCount(AllSubsets(k, n), AllSubsets(k, n - 1), Extended(AllSubsets(k - 1, n - 1), n - 1));
  }

  lemma AllSubsetsParts(k: nat, n: nat)
    requires 0 < k && 0 < n
    ensures AllSubsets(k, n) == AllSubsets(k, n - 1) + Extended(AllSubsets(k - 1, n - 1), n - 1)
  {
  }

  lemma UnionCount<T>(all: set<T>, a: set<T>, b: set<T>)
    requires all == a + b && a !! b
    ensures |all| == |a| + |b|
  {
  }

  lemma {:induction false} DistinctCount(v: seq<seq<nat>>)
    requires forall i, j | 0 <= i < j < |v| :: v[i] != v[j]
    ensures |set s | s in v| == |v|
  {
    if v != [] {
      var rest := v[..|v| - 1];
      DistinctCount(rest);
      assert (set s | s in v) == (set s | s in rest) + {v[|v| - 1]};
    }
  }

  /** The enumeration visits every k-subset once, in increasing order, and nothing else. */
  lemma VisitsEachSubsetOnce(k: nat, n: nat)
    requires 1 <= k <= n
    ensures IsSubset(First(k), k, n)
    ensures var v := Visited(First(k), k, n);
      && (forall t :: t in v <==> IsSubset(t, k, n))
      && (forall i, j | 0 <= i < j < |v| :: Before(v[i], v[j]))
      && |v| == Choose(n, k)
  {
    var v := Visited(First(k), k, n);
    forall t
      ensures t in v <==> IsSubset(t, k, n)
    {
      VisitedExactly(First(k), k, n, t);
      if IsSubset(t, k, n) { FirstIsLeast(t, k, n); }
    }
    forall i, j | 0 <= i < j < |v|
      ensures Before(v[i], v[j]) && v[i] != v[j]
    {
      VisitedInOrder(First(k), k, n, i, j);
      BeforeIsAsymmetric(v[i], v[j]);
    }
    DistinctCount(v);
    forall s: seq<nat>
      ensures s in v <==> s in AllSubsets(k, n)
    {
      AllSubsetsAre(k, n, s);
    }
    assert (set s | s in v) == AllSubsets(k, n);
    AllSubsetsCount(k, n);
  }
}
