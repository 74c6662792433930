/** The whole rule table: every name's run is split, rewritten and trimmed to the configured
    years; and exactly when what fires in those years is what fired before. */
module TzRuleTable {
  import opened TzCalendar
  import opened TzRule
  import opened TzPieces
  import opened TzTable
  import opened TzTrim

  /** A table whose runs are in name order and each in canonical form. */
  ghost predicate CanonicalTable(s: seq<Rule>) {
    forall a, b | 0 <= a < b < |s| ::
      s[a].name < s[b].name || (s[a].name == s[b].name && (Identical(s[a], s[b]) || s[a].end < s[b].start))
  }

  /** Of two rules of one name and one range of more than one year, the first does not come later in
      the year: by month, and in one month by the day that it is sorted by. */
  ghost predicate LongInOrder(s: seq<Rule>) {
    forall a, b | 0 <= a < b < |s| && s[a].name == s[b].name && Identical(s[a], s[b]) && s[a].start < s[a].end ::
      s[a].at.month < s[b].at.month || (s[a].at.month == s[b].at.month && s[a].at.Day() <= s[b].at.Day())
  }

  /** Rewriting leaves rules of more than one year, and so their order, alone. */
  lemma LongStayInOrder(cal: Calendar, split: seq<Rule>, a: nat, b: nat)
    requires DaysInOrder(split) && a <= b <= |split|
    ensures LongInOrder(CanonicalRun(cal, split)[a..b])
  {
    var run := CanonicalRun(cal, split);
    forall m, n | a <= m < n < b && Identical(run[m], run[n]) && run[m].start < run[m].end
      ensures InYearOrder(run[m], run[n])
    {
      assert run[m] == split[m] && run[n] == split[n];
    }
  }

  lemma {:induction false} OutOfWindow(cal: Calendar, s: seq<Rule>, lo: int, hi: int)
    requires forall r | r in s :: r.end < lo || r.start > hi
    ensures SameEvents(cal, s, [], lo, hi)
  {
    if s != [] {
      assert s[0] in s;
      forall r | r in s[1..]
        ensures r.end < lo || r.start > hi
      {
        assert r in s;
      }
      OutOfWindow(cal, s[1..], lo, hi);
      forall event: Event, year: int | lo <= year <= hi
        ensures Total(s, Fires(cal, event, year)) == Total([], Fires(cal, event, year))
      {
        assert Total(s[1..], Fires(cal, event, year)) == Total([], Fires(cal, event, year));
      }
    }
  }

  lemma SameEventsJoin(cal: Calendar, a: seq<Rule>, a': seq<Rule>, b: seq<Rule>, b': seq<Rule>, lo: int, hi: int)
    requires SameEvents(cal, a, a', lo, hi) && SameEvents(cal, b, b', lo, hi)
    ensures SameEvents(cal, a + b, a' + b', lo, hi)
  {
    forall event: Event, year: int | lo <= year <= hi
      ensures Total(a + b, Fires(cal, event, year)) == Total(a' + b', Fires(cal, event, year))
    {
      TotalAppend(a, b, Fires(cal, event, year));
      TotalAppend(a', b', Fires(cal, event, year));
    }
  }

  /** Dropping a prefix before the window and a suffix after it. */
  lemma TrimKeepsEvents(cal: Calendar, s: seq<Rule>, i: nat, j: nat, lo: int, hi: int)
    requires i <= j <= |s|
    requires forall m | 0 <= m < i :: s[m].end < lo
    requires forall m | j <= m < |s| :: s[m].start > hi
    ensures SameEvents(cal, s[i..j], s, lo, hi)
  {
    var front, mid, back := s[..i], s[i..j], s[j..];
    OutOfWindow(cal, front, lo, hi);
    OutOfWindow(cal, back, lo, hi);
    assert SameEvents(cal, mid, mid, lo, hi);
    hide SameEvents;
    SameEventsJoin(cal, [], front, mid, mid, lo, hi);
    SameEventsJoin(cal, [] + mid, front + mid, [], back, lo, hi);
    assert [] + mid + [] == mid && front + mid + back == s;
  }

  lemma CanonicalRunKeepsRanges(cal: Calendar, split: seq<Rule>, name: nat)
    requires Canonical(split) && NonEmptyRanges(split) && SameName(split, name)
    ensures Canonical(CanonicalRun(cal, split))
    ensures NonEmptyRanges(CanonicalRun(cal, split)) && SameName(CanonicalRun(cal, split), name)
  {
    var run := CanonicalRun(cal, split);
    forall j | 0 <= j < |run|
      ensures run[j].start <= run[j].end && run[j].name == name
    {
      assert split[j] in split;
    }
  }

  // ---- one name after the other ----

  /** No rule of the list bears the event's name, so none fires it. */
  lemma {:induction false} OtherName(cal: Calendar, s: seq<Rule>, event: Event, year: int)
    requires forall r | r in s :: r.name != event.name
    ensures Total(s, Fires(cal, event, year)) == 0
  {
    if s != [] {
      assert s[0] in s;
      assert forall r | r in s[1..] :: r in s;
      OtherName(cal, s[1..], event, year);
    }
  }

  /** Every name of the first list comes before every name of the second. */
  ghost predicate NamesBefore(a: seq<Rule>, b: seq<Rule>) {
    forall x, y | x in a && y in b :: x.name < y.name
  }

  /** Lists of different names agree on all transitions exactly when their parts do. */
  lemma SameEventsByName(cal: Calendar, a: seq<Rule>, a': seq<Rule>, b: seq<Rule>, b': seq<Rule>, name: nat, lo: int, hi: int)
    requires (forall r | r in a || r in a' :: r.name < name) && (forall r | r in b || r in b' :: r.name == name)
    ensures SameEvents(cal, a + b, a' + b', lo, hi) <==> SameEvents(cal, a, a', lo, hi) && SameEvents(cal, b, b', lo, hi)
  {
    if SameEvents(cal, a + b, a' + b', lo, hi) {
      forall event: Event, year: int | lo <= year <= hi
        ensures Total(a, Fires(cal, event, year)) == Total(a', Fires(cal, event, year))
        ensures Total(b, Fires(cal, event, year)) == Total(b', Fires(cal, event, year))
      {
        var w := Fires(cal, event, year);
        TotalAppend(a, b, w);
        TotalAppend(a', b', w);
        assert Total(a + b, w) == Total(a' + b', w);
        if event.name == name {
          OtherName(cal, a, event, year);
          OtherName(cal, a', event, year);
        } else {
          OtherName(cal, b, event, year);
          OtherName(cal, b', event, year);
        }
      }
    }
    if SameEvents(cal, a, a', lo, hi) && SameEvents(cal, b, b', lo, hi) {
      SameEventsJoin(cal, a, a', b, b', lo, hi);
    }
  }

  lemma LeavesSingleByName(a: seq<Rule>, b: seq<Rule>, q: Rule, year: int)
    requires forall x, y | x in a && y in b :: x.name != y.name
    ensures LeavesSingle(a + b, q, year) <==> LeavesSingle(a, q, year) || LeavesSingle(b, q, year)
  {
    CutsAppend(a, b, q.name, year);
    CutsAppend(a, b, q.name, year + 1);
  }

  lemma OwnDaysByName(cal: Calendar, a: seq<Rule>, b: seq<Rule>, lo: int, hi: int)
    requires forall x, y | x in a && y in b :: x.name != y.name
    ensures LeavesOwnDays(cal, a + b, lo, hi) <==> LeavesOwnDays(cal, a, lo, hi) && LeavesOwnDays(cal, b, lo, hi)
  {
    forall q, year
      ensures LeavesSingle(a + b, q, year) <==> LeavesSingle(a, q, year) || LeavesSingle(b, q, year)
    {
      LeavesSingleByName(a, b, q, year);
    }
  }

  /** In the years from lo to hi, what fired is kept exactly when no rule leaves a single-year piece
      whose day falls into another year. */
  ghost predicate KeptExactly(cal: Calendar, now: seq<Rule>, was: seq<Rule>, lo: int, hi: int) {
    Lawful(cal) ==> (SameEvents(cal, now, was, lo, hi) <==> LeavesOwnDays(cal, was, lo, hi))
  }

  lemma KeptByName(cal: Calendar, a: seq<Rule>, a': seq<Rule>, b: seq<Rule>, b': seq<Rule>, name: nat, lo: int, hi: int)
    requires (forall r | r in a || r in a' :: r.name < name) && (forall r | r in b || r in b' :: r.name == name)
    requires KeptExactly(cal, a, a', lo, hi) && KeptExactly(cal, b, b', lo, hi)
    ensures KeptExactly(cal, a + b, a' + b', lo, hi)
  {
    SameEventsByName(cal, a, a', b, b', name, lo, hi);
    OwnDaysByName(cal, a', b', lo, hi);
  }

  /** The end of the run of rules that have the name of rule i. */
  method EndOfRun(rules: seq<Rule>, i: nat) returns (e: nat)
    requires i < |rules| && Sorted(rules[i..])
    ensures i < e <= |rules|
    ensures forall m | i <= m < e :: rules[m].name == rules[i].name
    ensures forall r | r in rules[e..] :: r.name > rules[i].name
  {
    ghost var rest := rules[i..];
    e := i;
    while e < |rules| && rules[e].name <= rules[i].name
      invariant i <= e <= |rules|
      invariant forall m | i <= m < e :: rules[m].name == rules[i].name
    {
      assert rest[0] == rules[i] && rest[e - i] == rules[e];
      e := e + 1;
    }
    forall r | r in rules[e..]
      ensures r.name > rules[i].name
    {
      var m :| e <= m < |rules| && rules[m] == r;
      assert rest[e - i] == rules[e] && rest[m - i] == rules[m];
    }
  }

  /** What trimming leaves of a split run keeps the transitions exactly when the whole of it does. */
  lemma SliceInWindow(cal: Calendar, split: seq<Rule>, before: seq<Rule>, a: nat, b: nat, name: nat, lo: int, hi: int)
    requires SameCover(split, before) && SameName(before, name)
    requires Canonical(split) && NonEmptyRanges(split) && SameName(split, name)
    requires a <= b <= |split|
    requires forall m | 0 <= m < a :: CanonicalRun(cal, split)[m].end < lo
    requires forall m | b <= m < |split| :: CanonicalRun(cal, split)[m].start > hi
    ensures KeptExactly(cal, CanonicalRun(cal, split)[a..b], before, lo, hi)
  {
    hide Canonical, NonEmptyRanges, SameName, SameCover, LeavesOwnDays;
    if Lawful(cal) {
      var run := CanonicalRun(cal, split);
      SplittingKeepsEvents(cal, before, split, name, lo, hi);
      TrimKeepsEvents(cal, run, a, b, lo, hi);
      CompareWith(cal, run, run[a..b], run, lo, hi);
      CompareWith(cal, before, run[a..b], run, lo, hi);
      Symmetric(cal, before, run[a..b], lo, hi);
      Symmetric(cal, before, run, lo, hi);
    }
  }

  lemma Symmetric(cal: Calendar, a: seq<Rule>, b: seq<Rule>, lo: int, hi: int)
    ensures SameEvents(cal, a, b, lo, hi) <==> SameEvents(cal, b, a, lo, hi)
  {
  }

  /** Splits, rewrites and trims the run of rules that starts at i; `o` is where the run ended. */
  method SplitOneName(t: RuleTable, cal: Calendar, i: nat, minYear: int, maxYear: int)
      returns (e: nat, ghost o: nat)
    requires i < |t.rules| && Sorted(t.rules[i..]) && NonEmptyRanges(t.rules[i..])
    modifies t
    ensures i < o <= |old(t.rules)| && i <= e <= |t.rules|
    ensures t.rules[..i] == old(t.rules)[..i] && t.rules[e..] == old(t.rules)[o..]
    ensures Canonical(t.rules[i..e]) && NonEmptyRanges(t.rules[i..e]) && SameName(t.rules[i..e], old(t.rules)[i].name)
    ensures Trimmed(t.rules[i..e], minYear, maxYear)
    ensures SameName(old(t.rules)[i..o], old(t.rules)[i].name)
    ensures forall r | r in old(t.rules)[o..] :: r.name > old(t.rules)[i].name
    ensures CutOnly(t.rules[i..e], old(t.rules)[i..o])
    ensures KeptExactly(cal, t.rules[i..e], old(t.rules)[i..o], minYear, maxYear)
    ensures LongInOrder(t.rules[i..e])
  {
    hide LongInOrder, DaysInOrder, KeptExactly, Trimmed, SameCover, Canonical, BetweenCuts;
    ghost var was, name := t.rules, t.rules[i].name;
    var e0 := EndOfRun(t.rules, i);
    o := e0;
    assert was[i..o] == was[i..][..o - i];
    var e1, split := t.SplitOverlapsRun(cal, i, e0, name);
    ghost var run := CanonicalRun(cal, split);
    CanonicalRunKeepsRanges(cal, split, name);
    ghost var a, b;
    e, a, b := TrimRun(t, i, e1, name, minYear, maxYear);
    assert t.rules[i..e] == run[a..b];
    CanonicalSlice(run, a, b, name);
    LongStayInOrder(cal, split, a, b);
    SliceInWindow(cal, split, was[i..o], a, b, name, minYear, maxYear);
    RunIsCutOnly(was[i..o], split, name, cal);
    assert forall r | r in run[a..b] :: r in run;
  }

  lemma AppendRun(done: seq<Rule>, run: seq<Rule>, name: nat, minYear: int, maxYear: int)
    requires CanonicalTable(done) && (forall r | r in done :: r.name < name)
    requires Canonical(run) && SameName(run, name)
    requires Trimmed(done, minYear, maxYear) && Trimmed(run, minYear, maxYear)
    requires LongInOrder(done) && LongInOrder(run)
    ensures CanonicalTable(done + run) && Trimmed(done + run, minYear, maxYear) && LongInOrder(done + run)
    ensures forall r | r in done + run :: r.name <= name
  {
    var all := done + run;
    forall a, b | 0 <= a < b < |all|
      ensures all[a].name < all[b].name
        || (all[a].name == all[b].name && (Identical(all[a], all[b]) || all[a].end < all[b].start))
      ensures all[a].name == all[b].name ==> all[b].end >= minYear
      ensures all[a].name == all[b].name && Identical(all[a], all[b]) && all[a].start < all[a].end ==>
        InYearOrder(all[a], all[b])
    {
      if a >= |done| {
        assert run[a - |done|] in run && run[b - |done|] in run;
      } else if b >= |done| {
        assert all[a] in done && all[b] in run;
      } else {
        assert all[a] == done[a] && all[b] == done[b];
      }
    }
  }

  /** Between two runs: the rules before i are done, those from i on are the input's from o on,
      and they bear greater names. */
  ghost predicate Progress(was: seq<Rule>, rules: seq<Rule>, i: nat, o: nat, minYear: int, maxYear: int) {
    && i <= |rules| && o <= |was| && rules[i..] == was[o..]
    && CanonicalTable(rules[..i]) && NonEmptyRanges(rules[..i]) && Trimmed(rules[..i], minYear, maxYear)
    && LongInOrder(rules[..i])
    && NamesBefore(rules[..i], rules[i..]) && NamesBefore(was[..o], was[o..]) && CutOnly(rules[..i], was[..o])
  }

  /** One round: the run from i to e has taken the place of the input's from o0 to o. */
  ghost predicate Round(was: seq<Rule>, before: seq<Rule>, after: seq<Rule>, i: nat, e: nat, o0: nat, o: nat, lo: int, hi: int) {
    && i < |before| && i <= e <= |after| && o0 < o <= |was|
    && after[..i] == before[..i] && after[e..] == was[o..]
    && Canonical(after[i..e]) && NonEmptyRanges(after[i..e]) && Trimmed(after[i..e], lo, hi) && LongInOrder(after[i..e])
    && SameName(after[i..e], before[i].name) && SameName(was[o0..o], before[i].name) && CutOnly(after[i..e], was[o0..o])
    && forall r | r in was[o..] :: r.name > before[i].name
  }

  lemma OneNameDone(was: seq<Rule>, before: seq<Rule>, after: seq<Rule>, i: nat, e: nat, o0: nat, o: nat, lo: int, hi: int)
    requires Progress(was, before, i, o0, lo, hi) && Round(was, before, after, i, e, o0, o, lo, hi)
    ensures Progress(was, after, e, o, lo, hi)
  {
    hide LongInOrder, Canonical, CanonicalTable, Trimmed, Sorted, CutOnly;
    assert before[i] in before[i..];
    AppendRun(after[..i], after[i..e], before[i].name, lo, hi);
    assert after[..e] == after[..i] + after[i..e];
    assert was[..o] == was[..o0] + was[o0..o];
    assert was[o0] in was[o0..] && was[o0] in was[o0..o];
    CutOnlyByName(after[..i], was[..o0], after[i..e], was[o0..o], before[i].name);
  }

  lemma EventsDone(cal: Calendar, was: seq<Rule>, before: seq<Rule>, after: seq<Rule>, i: nat, e: nat, o0: nat, o: nat,
                   lo: int, hi: int)
    requires Progress(was, before, i, o0, lo, hi) && Round(was, before, after, i, e, o0, o, lo, hi)
    requires KeptExactly(cal, before[..i], was[..o0], lo, hi) && KeptExactly(cal, after[i..e], was[o0..o], lo, hi)
    ensures KeptExactly(cal, after[..e], was[..o], lo, hi)
  {
    hide LongInOrder, Canonical, CanonicalTable, Trimmed, Sorted, NonEmptyRanges, KeptExactly, CutOnly;
    assert before[i] in before[i..];
    assert was[o0] in was[o0..] && was[o0] in was[o0..o];
    KeptByName(cal, after[..i], was[..o0], after[i..e], was[o0..o], before[i].name, lo, hi);
    assert after[..e] == after[..i] + after[i..e];
    assert was[..o] == was[..o0] + was[o0..o];
  }

  /** One round of the loop over names. */
  method NextName(t: RuleTable, cal: Calendar, i: nat, ghost was: seq<Rule>, ghost o0: nat, minYear: int, maxYear: int)
      returns (e: nat, ghost o: nat)
    requires Sorted(was) && NonEmptyRanges(was)
    requires i < |t.rules| && Progress(was, t.rules, i, o0, minYear, maxYear)
    requires KeptExactly(cal, t.rules[..i], was[..o0], minYear, maxYear)
    modifies t
    ensures o0 < o && Progress(was, t.rules, e, o, minYear, maxYear) && e <= |t.rules| && o <= |was|
    ensures KeptExactly(cal, t.rules[..e], was[..o], minYear, maxYear)
  {
    hide LongInOrder, Canonical, CanonicalTable, Trimmed, SameName, KeptExactly, NamesBefore, CutOnly;
    ghost var before := t.rules;
    SuffixGood(was, o0);
    e, o := SplitOneName(t, cal, i, minYear, maxYear);
    OneNameParts(was, before, i, o0, o);
    o := o + o0 - i;
    OneNameDone(was, before, t.rules, i, e, o0, o, minYear, maxYear);
    EventsDone(cal, was, before, t.rules, i, e, o0, o, minYear, maxYear);
  }

  /** `split_overlaps` on the whole table: afterwards the rules of each name are in canonical form,
      trimmed to the configured years, and what fires in these years is what fired before exactly
      when no rule leaves a single-year piece whose day falls into another year. */
  method SplitOverlaps(t: RuleTable, cal: Calendar, minYear: int, maxYear: int)
    requires Sorted(t.rules) && NonEmptyRanges(t.rules)
    modifies t
    ensures CanonicalTable(t.rules) && NonEmptyRanges(t.rules) && Trimmed(t.rules, minYear, maxYear)
    ensures LongInOrder(t.rules)
    ensures CutOnly(t.rules, old(t.rules))
    ensures Lawful(cal) ==>
      (SameEvents(cal, t.rules, old(t.rules), minYear, maxYear) <==>
       LeavesOwnDays(cal, old(t.rules), minYear, maxYear))
  {
    ghost var was := t.rules;
    var i: nat := 0;
    ghost var o: nat := 0;
    while i < |t.rules|
      invariant Progress(was, t.rules, i, o, minYear, maxYear)
      invariant KeptExactly(cal, t.rules[..i], was[..o], minYear, maxYear)
      decreases |was| - o
    {
      i, o := NextName(t, cal, i, was, o, minYear, maxYear);
    }
    assert t.rules[..i] == t.rules;
    assert was[..o] == was;
  }

  lemma SuffixGood(was: seq<Rule>, o: nat)
    requires Sorted(was) && NonEmptyRanges(was) && o <= |was|
    ensures Sorted(was[o..]) && NonEmptyRanges(was[o..])
  {
    assert forall r | r in was[o..] :: r in was;
  }

  lemma OneNameParts(was: seq<Rule>, before: seq<Rule>, i: nat, o0: nat, o: nat)
    requires i <= o <= |before| && o0 <= |was| && before[i..] == was[o0..]
    ensures o + o0 - i <= |was|
    ensures before[i..o] == was[o0..o + o0 - i] && before[o..] == was[o + o0 - i..]
    ensures i < |before| ==> o0 < |was| && before[i] == was[o0]
  {
    assert |before| - i == |was| - o0;
    assert before[i..o] == before[i..][..o - i];
    assert was[o0..o + o0 - i] == was[o0..][..o - i];
    assert before[o..] == before[i..][o - i..];
    assert was[o + o0 - i..] == was[o0..][o - i..];
    if i < |before| {
      assert before[i..][0] == was[o0..][0];
    }
  }
}
