/** The rule table, edited in place: splitting two rules, and the passes over a run of rules of one
    name. */
module TzTable {
  import opened Sequences
  import opened TzCalendar
  import opened TzRule
  import opened TzSplit
  import opened TzPass
  import opened TzPieces

  /** The finished part `done` of a run, whose last range is `s..f`. */
  ghost predicate Finished(done: seq<Rule>, s: int, f: int) {
    && Canonical(done)
    && forall r | r in done :: (r.start == s && r.end == f) || r.end < s
  }

  lemma FinishOne(done: seq<Rule>, r: Rule, s: int, f: int)
    requires Finished(done, s, f) && s <= f && r.start <= r.end
    requires r.start > f || (r.start == s && r.end == f)
    ensures Finished(done + [r], r.start, r.end)
  {
    var all := done + [r];
    forall a, b | 0 <= a < b < |all|
      ensures Identical(all[a], all[b]) || all[a].end < all[b].start
    {
      assert all[a] in done;
    }
  }

  /** The invariant of the outer loop: a finished part, and the rest of the run. */
  ghost predicate RunInv(done: seq<Rule>, run: seq<Rule>, name: nat, s: int, f: int) {
    && Finished(done, s, f) && NonEmptyRanges(done) && SameName(done, name)
    && GoodRun(run, name) && Follows(run, s, f)
    && DaysInOrder(done) && AllNoLater(done, run)
  }

  /** No finished rule comes later in its first year than a rule still to be split. */
  ghost predicate AllNoLater(done: seq<Rule>, run: seq<Rule>) {
    forall q, r | q in done && r in run :: NoLater(q, r)
  }

  /** A pass leaves that so: what starts in the last finished year has been there before. */
  lemma PassKeepsDays(done: seq<Rule>, run: seq<Rule>, passed: seq<Rule>, name: nat, k: nat, s: int, f: int)
    requires RunInv(done, run, name, s, f) && PassInv(passed, name, k, s, f) && SameCover(passed, run)
    ensures AllNoLater(done, passed)
  {
    hide Canonical, Sorted, Marked, Less, InYearOrder;
    forall q, r | q in done && r in passed && q.start == r.start
      ensures InYearOrder(q, r)
    {
      assert r.start == s && Clear(r, s, f);
      var p := PayloadOf(r);
      ActiveSource(passed, p, s);
      ActiveSource(run, p, s);
      assert Total(passed, ActiveIn(p, s)) == Total(run, ActiveIn(p, s));
      var old' :| old' in run && PayloadOf(old') == p && old'.start <= s <= old'.end;
      assert NoLater(q, old');
      SameDays(q, old', r);
    }
  }

  lemma SameDays(q: Rule, a: Rule, b: Rule)
    requires a.at == b.at && InYearOrder(q, a)
    ensures InYearOrder(q, b)
  {
  }

  /** Inside a table: the rules from i0 to i are finished, those from i to e still to be split. */
  ghost predicate Splitting(rules: seq<Rule>, i0: nat, i: nat, e: nat, name: nat)
    requires i0 <= i <= e <= |rules|
  {
    exists s, f :: RunInv(rules[i0..i], rules[i..e], name, s, f)
  }

  /** Every run follows the year before its first rule. */
  lemma FollowsNothing(rules: seq<Rule>, i0: nat, e: nat, name: nat)
    requires i0 <= e <= |rules| && GoodRun(rules[i0..e], name)
    ensures Splitting(rules, i0, i0, e, name)
  {
    var run := rules[i0..e];
    var s := if run == [] then 0 else run[0].start - 1;
    forall r | r in run
      ensures Clear(r, s, s)
    {
      var j :| 0 <= j < |run| && run[j] == r;
      StartsInOrder(run, name, 0, j);
    }
    assert RunInv(rules[i0..i0], run, name, s, s);
  }

  lemma FinishPass(done: seq<Rule>, passed: seq<Rule>, name: nat, s: int, f: int)
    requires RunInv(done, passed, name, s, f) || RunInv(done, [], name, s, f)
    requires passed != [] && PassInv(passed, name, |passed|, s, f) && AllNoLater(done, passed)
    ensures RunInv(done + [passed[0]], passed[1..], name, passed[0].start, passed[0].end)
  {
    hide InYearOrder, Canonical;
    PassDone(passed, name, s, f);
    assert passed[0] in passed;
    FinishOne(done, passed[0], s, f);
    DaysAppend(done, passed[0]);
  }

  lemma DaysAppend(done: seq<Rule>, r: Rule)
    requires DaysInOrder(done) && forall q | q in done :: NoLater(q, r)
    ensures DaysInOrder(done + [r])
  {
    hide InYearOrder;
    var all := done + [r];
    forall a, b | 0 <= a < b < |all| && all[a].start == all[b].start
      ensures InYearOrder(all[a], all[b])
    {
      assert done[a] in done && NoLater(done[a], r);
    }
  }

  lemma RunWithinYears(rules: seq<Rule>, i0: nat, i: nat, e: nat, all: seq<Rule>, name: nat)
    requires i0 <= i <= e <= |rules| && Splitting(rules, i0, i, e, name)
    requires SameCover(rules[i0..e], all)
    ensures e - i0 <= YearsCovered(all)
  {
    assert rules[i0..e] == rules[i0..i] + rules[i..e];
    CountWithinYears(rules[i0..e]);
    assert Total(rules[i0..e], Years) == Total(all, Years);
  }

  lemma PassWithinYears(run: seq<Rule>, name: nat, k: nat, s: int, f: int, all: seq<Rule>)
    requires PassInv(run, name, k, s, f) && SameCover(run, all)
    ensures |run| <= YearsCovered(all)
  {
    CountWithinYears(run);
    assert Total(run, Years) == Total(all, Years);
  }

  lemma KeepsPrefix(was: seq<Rule>, now: seq<Rule>, i0: nat, i: nat)
    requires i0 <= i <= |was| && i <= |now| && was[..i] == now[..i]
    ensures was[..i0] == now[..i0] && was[i0..i] == now[i0..i]
  {
    assert was[..i0] == was[..i][..i0] && now[..i0] == now[..i][..i0];
    assert was[i0..i] == was[..i][i0..] && now[i0..i] == now[..i][i0..];
  }

  /** The last rule of a run needs no pass: nothing is left that could overlap it. */
  lemma LastRule(rules: seq<Rule>, i0: nat, i: nat, e: nat, name: nat)
    requires i0 <= i <= e <= |rules| && e <= i + 1
    requires Splitting(rules, i0, i, e, name)
    ensures Canonical(rules[i0..e]) && NonEmptyRanges(rules[i0..e]) && SameName(rules[i0..e], name)
    ensures DaysInOrder(rules[i0..e])
  {
    hide InYearOrder;
    var done, run := rules[i0..i], rules[i..e];
    var s, f :| RunInv(done, run, name, s, f);
    assert rules[i0..e] == done + run;
    if run == [] {
      assert done + run == done;
    } else {
      assert run == [run[0]];
      assert run[0] in run;
      FinishOne(done, run[0], s, f);
      DaysAppend(done, run[0]);
    }
  }

  lemma SortedSplitCovers(run: seq<Rule>, name: nat, k: nat, s: int, f: int, after: seq<Rule>)
    requires PassInv(run, name, k, s, f) && k < |run| && Splittable(run[0], run[k])
    requires multiset(after) == multiset(SplitRun(run, k))
    ensures SameCover(after, run)
  {
    hide Splittable, Follows, Marked;
    CoverPermutation(after, SplitRun(run, k));
    assert run[0] in run && run[k] in run;
    SplitKeepsCuts(run, k);
    forall w: Weight
      ensures Total(after, w) == Total(run, w)
    {
      SplitConserves(run, k, w);
      assert Total(after, w) == Total(SplitRun(run, k), w);
    }
    forall at: nat, year: int
      ensures IsCut(after, at, year) <==> IsCut(run, at, year)
    {
      assert IsCut(after, at, year) <==> IsCut(SplitRun(run, k), at, year);
    }
  }

  class RuleTable {
    var rules: seq<Rule>

    constructor (rs: seq<Rule>)
      ensures rules == rs
    {
      rules := rs;
    }

    /** `std::vector::insert` of `r` between `front` and `back`. */
    method Insert(k: nat, r: Rule, ghost front: seq<Rule>, ghost back: seq<Rule>)
      requires rules == front + back && k == |front|
      modifies this
      ensures rules == front + [r] + back
    {
      rules := rules[..k] + [r] + rules[k..];
    }

    /** Assignment of `r` to the element between `front` and `back`. */
    method Set(k: nat, r: Rule, ghost front: seq<Rule>, ghost back: seq<Rule>)
      requires k == |front| && |rules| == k + 1 + |back| && rules == front + [rules[k]] + back
      modifies this
      ensures rules == front + [r] + back
    {
      rules := rules[k := r];
    }

    /** Splitting two rules of the same first year. */
    method SplitSameStart(i: nat, k: nat, e0: nat) returns (e: nat)
      requires i < k < e0 <= |rules|
      requires Splittable(rules[i], rules[k]) && rules[i].start == rules[k].start
      modifies this
      ensures e == e0 - 1 + |TailPieces(old(rules)[i], old(rules)[k])|
      ensures rules == old(rules)[..i] + [HeadPiece(old(rules)[i], old(rules)[k])] + old(rules)[i + 1..k]
        + TailPieces(old(rules)[i], old(rules)[k]) + old(rules)[k + 1..]
    {
      e := e0;
      ghost var pre, mid, rest := rules[..i], rules[i + 1..k], rules[k + 1..];
      var x, y := rules[i], rules[k];
      assert rules == pre + [x] + mid + [y] + rest;
      if rules[k].end < rules[i].end {
        var z := x.(start := y.end + 1);
        Insert(k + 1, z, pre + [x] + mid + [y], rest);
        e := e + 1;
        assert rules == pre + [x] + (mid + [y] + [z] + rest);
        Set(i, x.(end := y.end), pre, mid + [y] + [z] + rest);
        assert [y] + [z] == TailPieces(x, y);
      } else {
        var z := y.(start := x.end + 1);
        Insert(k + 1, z, pre + [x] + mid + [y], rest);
        e := e + 1;
        assert rules == pre + [x] + mid + [y] + ([z] + rest);
        Set(k, y.(end := x.end), pre + [x] + mid, [z] + rest);
        assert [y.(end := x.end)] + [z] == TailPieces(x, y);
      }
    }

    /** Splitting two rules of which the first starts in an earlier year. */
    method SplitLaterStart(i: nat, k0: nat, e0: nat) returns (e: nat)
      requires i < k0 < e0 <= |rules|
      requires Splittable(rules[i], rules[k0]) && rules[i].start < rules[k0].start
      modifies this
      ensures e == e0 - 1 + |TailPieces(old(rules)[i], old(rules)[k0])|
      ensures rules == old(rules)[..i] + [HeadPiece(old(rules)[i], old(rules)[k0])] + old(rules)[i + 1..k0]
        + TailPieces(old(rules)[i], old(rules)[k0]) + old(rules)[k0 + 1..]
    {
      var k := k0;
      ghost var was := rules;
      ghost var rest := rules[k + 1..];
      var x, y := rules[i], rules[k];
      ghost var left := rules[..k];
      assert rules == left + [y] + rest;
      // the part of the first rule that the second one overlaps
      var u := x.(start := y.start, end := if y.end < x.end then y.end else x.end);
      assert rules == left + ([y] + rest);
      Insert(k, u, left, [y] + rest);
      k := k + 1;
      assert rules == left + [u] + [y] + rest;
      ghost var t := [u] + [y];
      e := e0 + 1;
      if y.end < x.end {
        var z := x.(start := y.end + 1);
        Insert(k + 1, z, left + [u] + [y], rest);
        e := e + 1;
        t := [u] + [y] + [z];
      } else if y.end > x.end {
        var z := y.(start := x.end + 1);
        Insert(k + 1, z, left + [u] + [y], rest);
        e := e + 1;
        assert rules == left + [u] + [y] + ([z] + rest);
        Set(k, y.(end := x.end), left + [u], [z] + rest);
        t := [u] + [y.(end := x.end)] + [z];
      }
      assert rules == left + t + rest;
      ShortenFirst(i, y.start - 1, left, t, rest);
      assert t == TailPieces(x, y);
      assert left[..i] == was[..i] && left[i + 1..] == was[i + 1..k0];
    }

    /** Gives rule i a new last year. */
    method ShortenFirst(i: nat, year: int, ghost left: seq<Rule>, ghost t: seq<Rule>, ghost rest: seq<Rule>)
      requires i < |left| && rules == left + t + rest
      modifies this
      ensures rules == left[..i] + [left[i].(end := year)] + left[i + 1..] + t + rest
    {
      rules := rules[i := rules[i].(end := year)];
    }

    /** Replaces rules i and k of a run that ends before e0 by pieces that no longer partly
        overlap, and returns the new end of the run. */
    method Split(i: nat, k: nat, e0: nat) returns (e: nat)
      requires i < k < e0 <= |rules|
      requires Splittable(rules[i], rules[k])
      modifies this
      ensures e == i + |SplitRun(old(rules)[i..e0], k - i)|
      ensures rules == old(rules)[..i] + SplitRun(old(rules)[i..e0], k - i) + old(rules)[e0..]
    {
      ghost var was := rules;
      SplitInside(was, i, k, e0);
      if rules[i].start == rules[k].start {
        e := SplitSameStart(i, k, e0);
      } else {
        e := SplitLaterStart(i, k, e0);
      }
    }

    /** `std::sort` of the rules from i to e; the order of equal rules is left open. */
    method Sort(i: nat, e: nat)
      requires i <= e <= |rules|
      modifies this
      ensures |rules| == |old(rules)| && rules[..i] == old(rules)[..i] && rules[e..] == old(rules)[e..]
      ensures multiset(rules[i..e]) == multiset(old(rules)[i..e]) && Sorted(rules[i..e])
    {
      ghost var was := rules;
      var sorted: seq<Rule> := [];
      for n := i to e
        invariant rules == was
        invariant multiset(sorted) == multiset(was[i..n]) && |sorted| == n - i && Sorted(sorted)
      {
        sorted := InsertSorted(sorted, rules[n]);
        assert was[i..n + 1] == was[i..n] + [was[n]];
      }
      rules := rules[..i] + sorted + rules[e..];
      assert rules[i..e] == sorted;
    }

    /** The inner loop of a pass: compares rule i with every later rule of its run, splitting
        and re-sorting as it goes. The run ends before e, and grows at each split; what bounds it
        is the number of years its rules cover, which no split changes. */
    method Pass(i: nat, e0: nat, ghost name: nat, ghost s: int, ghost f: int) returns (e: nat)
      requires i < e0 <= |rules|
      requires GoodRun(rules[i..e0], name) && Follows(rules[i..e0], s, f)
      modifies this
      ensures i < e <= |rules| && rules[..i] == old(rules)[..i] && rules[e..] == old(rules)[e0..]
      ensures PassInv(rules[i..e], name, e - i, s, f)
      ensures SameCover(rules[i..e], old(rules)[i..e0])
    {
      e := e0;
      ghost var all := rules[i..e0];
      var k := i + 1;
      while k < e
        invariant i < k <= e <= |rules|
        invariant rules[..i] == old(rules)[..i] && rules[e..] == old(rules)[e0..]
        invariant PassInv(rules[i..e], name, k - i, s, f)
        invariant SameCover(rules[i..e], all)
        decreases YearsCovered(all) - (k - i)
      {
        PassWithinYears(rules[i..e], name, k - i, s, f, all);
        e := Compare(i, k, e, name, s, f);
        k := k + 1;
      }
    }

    /** One comparison of a pass. */
    method Compare(i: nat, k: nat, e0: nat, ghost name: nat, ghost s: int, ghost f: int) returns (e: nat)
      requires i < k < e0 <= |rules| && PassInv(rules[i..e0], name, k - i, s, f)
      modifies this
      ensures k < e <= |rules| && rules[..i] == old(rules)[..i] && rules[e..] == old(rules)[e0..]
      ensures PassInv(rules[i..e], name, k - i + 1, s, f)
      ensures SameCover(rules[i..e], old(rules)[i..e0])
    {
      e := e0;
      ghost var run := rules[i..e];
      StartsInOrder(run, name, 0, k - i);
      assert run[0] == rules[i] && run[k - i] == rules[k];
      if Overlaps(rules[i], rules[k]) {
        e := SplitAndSort(i, k, e, name, s, f);
      } else {
        StepOver(run, name, k - i, s, f);
      }
    }

    method SplitAndSort(i: nat, k: nat, e0: nat, ghost name: nat, ghost s: int, ghost f: int) returns (e: nat)
      requires i < k < e0 <= |rules|
      requires PassInv(rules[i..e0], name, k - i, s, f) && Splittable(rules[i], rules[k])
      modifies this
      ensures e0 < e <= |rules| && rules[..i] == old(rules)[..i] && rules[e..] == old(rules)[e0..]
      ensures PassInv(rules[i..e], name, k - i + 1, s, f)
      ensures SameCover(rules[i..e], old(rules)[i..e0])
    {
      hide PassInv, SameCover, Splittable, SplitRun;
      ghost var was, run := rules, rules[i..e0];
      assert run[0] == rules[i] && run[k - i] == rules[k];
      e := Split(i, k, e0);
      ghost var split := SplitRun(run, k - i);
      SplitGrows(run, k - i);
      PartsOf(was[..i], split, was[e0..]);
      Sort(i, e);
      ghost var after := rules[i..e];
      StepSplit(run, name, k - i, s, f, after);
      SortedSplitCovers(run, name, k - i, s, f, after);
    }

    /** One pass of the outer loop, with rule i as the first of the rules still to be split. */
    method FinishRule(i0: nat, i: nat, e0: nat, ghost name: nat) returns (e: nat)
      requires i0 <= i < e0 <= |rules| && Splitting(rules, i0, i, e0, name)
      modifies this
      ensures i < e <= |rules| && rules[..i0] == old(rules)[..i0] && rules[e..] == old(rules)[e0..]
      ensures Splitting(rules, i0, i + 1, e, name)
      ensures SameCover(rules[i0..e], old(rules)[i0..e0])
    {
      hide GoodRun, Follows, PassInv, Finished, SameCover, NonEmptyRanges, SameName, DaysInOrder, AllNoLater;
      ghost var was := rules;
      ghost var done, run := rules[i0..i], rules[i..e0];
      ghost var s, f :| RunInv(done, run, name, s, f);
      e := Pass(i, e0, name, s, f);
      ghost var passed := rules[i..e];
      KeepsPrefix(was, rules, i0, i);
      PassKeepsDays(done, run, passed, name, e - i, s, f);
      FinishPass(done, passed, name, s, f);
      JoinAt(rules, i0, i, e);
      JoinAt(was, i0, i, e0);
      assert RunInv(rules[i0..i + 1], rules[i + 1..e], name, passed[0].start, passed[0].end);
      CoverAfter(done, run, passed);
    }

    /** The passes over the run of rules of one name from i0 to e0; returns its new end. */
    method SplitPasses(i0: nat, e0: nat, ghost name: nat) returns (e: nat)
      requires i0 <= e0 <= |rules| && GoodRun(rules[i0..e0], name)
      modifies this
      ensures i0 <= e <= |rules| && rules[..i0] == old(rules)[..i0] && rules[e..] == old(rules)[e0..]
      ensures Canonical(rules[i0..e]) && NonEmptyRanges(rules[i0..e]) && SameName(rules[i0..e], name)
      ensures DaysInOrder(rules[i0..e])
      ensures SameCover(rules[i0..e], old(rules)[i0..e0])
    {
      hide GoodRun, Splitting, Canonical, NonEmptyRanges, SameName, DaysInOrder;
      e := e0;
      var i := i0;
      ghost var all := rules[i0..e0];
      FollowsNothing(rules, i0, e0, name);
      while i + 1 < e
        invariant i0 <= i <= e <= |rules|
        invariant rules[..i0] == old(rules)[..i0] && rules[e..] == old(rules)[e0..]
        invariant Splitting(rules, i0, i, e, name)
        invariant SameCover(rules[i0..e], all)
        decreases YearsCovered(all) - (i - i0)
      {
        RunWithinYears(rules, i0, i, e, all, name);
        e := FinishRule(i0, i, e, name);
        i := i + 1;
      }
      LastRule(rules, i0, i, e, name);
    }

    /** Rewrites the day of every rule from j0 to e that is in force in a single year. */
    method CanonicalizeRun(cal: Calendar, j0: nat, e: nat)
      requires j0 <= e <= |rules|
      modifies this
      ensures |rules| == |old(rules)| && rules[..j0] == old(rules)[..j0] && rules[e..] == old(rules)[e..]
      ensures rules[j0..e] == CanonicalRun(cal, old(rules)[j0..e])
    {
      ghost var was := rules;
      var j := j0;
      while j < e
        invariant j0 <= j <= e && |rules| == |was|
        invariant forall m | 0 <= m < |rules| ::
          rules[m] == if j0 <= m < j then CanonicalRule(cal, was[m]) else was[m]
      {
        if rules[j].start == rules[j].end {
          rules := rules[j := rules[j].(at := Canonicalize(cal, rules[j].at, rules[j].start))];
        }
        j := j + 1;
      }
    }

    /** `split_overlaps` on the run of rules of one name from i to e0; returns its new end. */
    method SplitOverlapsRun(cal: Calendar, i: nat, e0: nat, ghost name: nat) returns (e: nat, ghost split: seq<Rule>)
      requires i <= e0 <= |rules| && GoodRun(rules[i..e0], name)
      modifies this
      ensures i <= e <= |rules| && rules[..i] == old(rules)[..i] && rules[e..] == old(rules)[e0..]
      ensures rules[i..e] == CanonicalRun(cal, split)
      ensures Canonical(split) && NonEmptyRanges(split) && SameName(split, name) && DaysInOrder(split)
      ensures SameCover(split, old(rules)[i..e0])
    {
      e := SplitPasses(i, e0, name);
      split := rules[i..e];
      CanonicalizeRun(cal, i, e);
    }
  }

  lemma SliceOfSlice(s: seq<Rule>, i: nat, e: nat, a: nat, b: nat)
    requires i <= e <= |s| && a <= b <= e - i
    ensures s[i..e][a..b] == s[i + a..i + b]
  {
    var u, v := s[i..e][a..b], s[i + a..i + b];
    assert |u| == |v|;
    forall m | 0 <= m < |u|
      ensures u[m] == v[m]
    {
      assert u[m] == s[i..e][a + m] == s[i + a + m];
    }
  }

  lemma JoinAt(s: seq<Rule>, a: nat, b: nat, c: nat)
    requires a <= b <= c <= |s|
    ensures s[a..c] == s[a..b] + s[b..c]
    ensures b < c ==> s[a..b + 1] == s[a..b] + [s[b..c][0]] && s[b + 1..c] == s[b..c][1..]
  {
  }

  lemma PartsOf(a: seq<Rule>, b: seq<Rule>, c: seq<Rule>)
    ensures var s := a + b + c; s[..|a|] == a && s[|a|..|a| + |b|] == b && s[|a| + |b|..] == c
  {
  }

  /** Splitting inside a table, seen as splitting a run of it. */
  lemma SplitInside(was: seq<Rule>, i: nat, k: nat, e: nat)
    requires i < k < e <= |was|
    ensures was[..i] + [HeadPiece(was[i], was[k])] + was[i + 1..k] + TailPieces(was[i], was[k]) + was[k + 1..]
         == was[..i] + SplitRun(was[i..e], k - i) + was[e..]
  {
    hide HeadPiece, TailPieces;
    var run := was[i..e];
    var h, t, mid, rest := [HeadPiece(was[i], was[k])], TailPieces(was[i], was[k]), was[i + 1..k], was[k + 1..e];
    SliceOfSlice(was, i, e, 1, k - i);
    SliceOfSlice(was, i, e, k - i + 1, e - i);
    assert run[k - i + 1..] == run[k - i + 1..e - i] == rest;
    assert SplitRun(run, k - i) == h + mid + t + rest;
    JoinAt(was, k + 1, e, |was|);
    assert was[k + 1..|was|] == was[k + 1..] && was[e..|was|] == was[e..];
    Regroup(was[..i], h, mid, t, rest, was[e..]);
  }

  lemma Regroup(a: seq<Rule>, b: seq<Rule>, c: seq<Rule>, d: seq<Rule>, e: seq<Rule>, f: seq<Rule>)
    ensures a + b + c + d + (e + f) == a + (b + c + d + e) + f
  {
    assert a + b + c + d + (e + f) == a + b + c + d + e + f;
    assert a + (b + c + d + e) == a + b + c + d + e;
  }

  lemma NotLessTransitive(x: Rule, y: Rule, z: Rule)
    requires !Less(y, x) && !Less(z, y)
    ensures !Less(z, x)
  {
  }

  lemma InsertKeepsSorted(s: seq<Rule>, j: nat, r: Rule)
    requires Sorted(s) && j <= |s|
    requires j > 0 ==> !Less(r, s[j - 1])
    requires j < |s| ==> Less(r, s[j])
    ensures Sorted(s[..j] + [r] + s[j..])
  {
    forall a | 0 <= a < j
      ensures !Less(r, s[a])
    {
      if a < j - 1 { NotLessTransitive(s[a], s[j - 1], r); }
    }
    forall b | j <= b < |s|
      ensures !Less(s[b], r)
    {
      if b > j { NotLessTransitive(r, s[j], s[b]); }
    }
  }

  method InsertSorted(s: seq<Rule>, r: Rule) returns (t: seq<Rule>)
    requires Sorted(s)
    ensures Sorted(t) && multiset(t) == multiset(s) + multiset{r} && |t| == |s| + 1
  {
    var j := |s|;
    while j > 0 && Less(r, s[j - 1])
      invariant 0 <= j <= |s|
      invariant j < |s| ==> Less(r, s[j])
    {
      j := j - 1;
    }
    InsertKeepsSorted(s, j, r);
    t := s[..j] + [r] + s[j..];
    assert s == s[..j] + s[j..];
  }
}
