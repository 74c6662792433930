/** What splitting and rewriting a run of rules makes of it: which pieces come out, and when the
    transitions of its rules stay as they were. */
module TzPieces {
  import opened Sequences
  import opened TzCalendar
  import opened TzRule

  // ---- which pieces come out ----

  /** The years from `first` to `last` lie between two neighbouring cuts. */
  ghost predicate BetweenCuts(s: seq<Rule>, name: nat, first: int, last: int) {
    && first <= last && IsCut(s, name, first) && IsCut(s, name, last + 1)
    && forall year | first < year <= last :: !IsCut(s, name, year)
  }

  /** Every range of a canonical run lies between two neighbouring cuts. */
  lemma CanonicalBetweenCuts(split: seq<Rule>, name: nat, r: Rule)
    requires Canonical(split) && NonEmptyRanges(split) && SameName(split, name) && r in split
    ensures BetweenCuts(split, name, r.start, r.end)
  {
    forall year | r.start < year <= r.end
      ensures !IsCut(split, name, year)
    {
      forall q | q in split
        ensures q.start != year && q.end + 1 != year
      {
        TwoOf(split, q, r);
      }
    }
  }

  lemma TwoOf(split: seq<Rule>, q: Rule, r: Rule)
    requires Canonical(split) && NonEmptyRanges(split) && q in split && r in split
    ensures Identical(q, r) || q.end < r.start || r.end < q.start
  {
    var i :| 0 <= i < |split| && split[i] == q;
    var j :| 0 <= j < |split| && split[j] == r;
  }

  /** Ranges between the same cuts that share a year are the same. */
  lemma BetweenCutsUnique(s: seq<Rule>, name: nat, a: int, b: int, c: int, d: int, year: int)
    requires BetweenCuts(s, name, a, b) && BetweenCuts(s, name, c, d) && a <= year <= b && c <= year <= d
    ensures a == c && b == d
  {
  }

  lemma {:induction false} CountActive(s: seq<Rule>, r: Rule)
    requires forall q | q in s :: q == r <==> PayloadOf(q) == PayloadOf(r) && q.start <= r.start <= q.end
    ensures ActiveCount(s, PayloadOf(r), r.start) == multiset(s)[r]
  {
    if s != [] {
      assert s == [s[0]] + s[1..] && s[0] in s;
      assert forall q | q in s[1..] :: q in s;
      CountActive(s[1..], r);
    }
  }

  lemma SamePieceCuts(before: seq<Rule>, split: seq<Rule>, name: nat, first: int, last: int)
    requires SameCuts(split, before)
    ensures BetweenCuts(split, name, first, last) <==> BetweenCuts(before, name, first, last)
  {
  }

  /** The pieces that come out are determined: a payload that is in force when a range between two
      neighbouring cuts of the input begins has that range, as often as it is in force, and there is
      nothing else. No range is cut where no input range begins or ends. */
  lemma PiecesAreDetermined(before: seq<Rule>, split: seq<Rule>, name: nat, r: Rule)
    requires SameCover(split, before) && r.name == name
    requires Canonical(split) && NonEmptyRanges(split) && SameName(split, name)
    ensures multiset(split)[r] ==
            if BetweenCuts(before, name, r.start, r.end) then ActiveCount(before, PayloadOf(r), r.start) else 0
  {
    SamePieceCuts(before, split, name, r.start, r.end);
    if BetweenCuts(before, name, r.start, r.end) {
      forall q | q in split
        ensures q == r <==> PayloadOf(q) == PayloadOf(r) && q.start <= r.start <= q.end
      {
        CanonicalBetweenCuts(split, name, q);
        if q.start <= r.start <= q.end {
          BetweenCutsUnique(split, name, q.start, q.end, r.start, r.end, r.start);
        }
      }
      CountActive(split, r);
      assert Total(split, ActiveIn(PayloadOf(r), r.start)) == Total(before, ActiveIn(PayloadOf(r), r.start));
    } else if r in split {
      CanonicalBetweenCuts(split, name, r);
    }
  }

  /** The ranges of the rules are those between neighbouring cuts of the input. */
  ghost predicate CutOnly(now: seq<Rule>, was: seq<Rule>) {
    forall r | r in now :: BetweenCuts(was, r.name, r.start, r.end)
  }

  lemma RunIsCutOnly(before: seq<Rule>, split: seq<Rule>, name: nat, cal: Calendar)
    requires SameCover(split, before)
    requires Canonical(split) && NonEmptyRanges(split) && SameName(split, name)
    ensures CutOnly(CanonicalRun(cal, split), before)
  {
    var run := CanonicalRun(cal, split);
    forall j | 0 <= j < |run|
      ensures BetweenCuts(before, run[j].name, run[j].start, run[j].end)
    {
      assert split[j] in split;
      CanonicalBetweenCuts(split, name, split[j]);
      SamePieceCuts(before, split, name, split[j].start, split[j].end);
    }
  }

  /** Rules of other names make no cuts. */
  lemma CutOnlyByName(a: seq<Rule>, a': seq<Rule>, b: seq<Rule>, b': seq<Rule>, name: nat)
    requires (forall r | r in a || r in a' :: r.name < name) && (forall r | r in b || r in b' :: r.name == name)
    requires CutOnly(a, a') && CutOnly(b, b')
    ensures CutOnly(a + b, a' + b')
  {
    forall r | r in a + b
      ensures BetweenCuts(a' + b', r.name, r.start, r.end)
    {
      forall year
        ensures IsCut(a' + b', r.name, year) <==> if r in a then IsCut(a', r.name, year) else IsCut(b', r.name, year)
      {
        CutsAppend(a', b', r.name, year);
      }
    }
  }

  lemma {:induction false} ActiveSource(s: seq<Rule>, p: Payload, year: int)
    ensures ActiveCount(s, p, year) >= 0
    ensures ActiveCount(s, p, year) > 0 <==> exists r | r in s :: PayloadOf(r) == p && r.start <= year <= r.end
  {
    if s != [] {
      ActiveSource(s[1..], p, year);
      assert s == [s[0]] + s[1..];
    }
  }

  /** A rule is in force in `year`, and its ranges are cut on both sides of that year. */
  ghost predicate LeavesSingle(s: seq<Rule>, q: Rule, year: int) {
    q in s && q.start <= year <= q.end && IsCut(s, q.name, year) && IsCut(s, q.name, year + 1)
  }

  /** So a rule leaves a piece of a single year exactly where the ranges of its name are cut on both
      sides of that year. */
  lemma SinglePieces(before: seq<Rule>, split: seq<Rule>, name: nat, p: Payload, year: int)
    requires SameCover(split, before) && p.name == name
    requires Canonical(split) && NonEmptyRanges(split) && SameName(split, name)
    ensures Rule(p.name, year, year, p.at, p.save, p.abbrev) in split <==>
            exists q :: LeavesSingle(before, q, year) && PayloadOf(q) == p
  {
    var r := Rule(p.name, year, year, p.at, p.save, p.abbrev);
    PiecesAreDetermined(before, split, name, r);
    ActiveSource(before, p, year);
    assert r in split <==> multiset(split)[r] > 0;
    if r in split {
      var q :| q in before && PayloadOf(q) == p && q.start <= year <= q.end;
      assert LeavesSingle(before, q, year);
    }
  }

  // ---- when the transitions stay as they were ----

  /** The two lists agree on every transition of the years from lo to hi. */
  ghost predicate SameEvents(cal: Calendar, a: seq<Rule>, b: seq<Rule>, lo: int, hi: int) {
    forall event: Event, year: int | lo <= year <= hi ::
      Total(a, Fires(cal, event, year)) == Total(b, Fires(cal, event, year))
  }

  /** The single-year rules of these years name days of their own years. */
  ghost predicate SinglesStay(cal: Calendar, s: seq<Rule>, lo: int, hi: int) {
    forall r | r in s && r.start == r.end && lo <= r.start <= hi :: NamesOwnYear(cal, r.at, r.start)
  }

  lemma OneRuleStays(cal: Calendar, r: Rule, event: Event, year: int)
    requires Lawful(cal) && (r.start == r.end ==> r.start != year || NamesOwnYear(cal, r.at, year))
    ensures WeightOf(CanonicalRule(cal, r), Fires(cal, event, year)) == WeightOf(r, Fires(cal, event, year))
  {
    CanonicalizeNamesSameDay(cal, r.at, year);
  }

  lemma {:induction false} RunStays(cal: Calendar, s: seq<Rule>, event: Event, year: int)
    requires Lawful(cal) && SinglesStay(cal, s, year, year)
    ensures Total(CanonicalRun(cal, s), Fires(cal, event, year)) == Total(s, Fires(cal, event, year))
  {
    hide WeightOf;
    if s != [] {
      assert s[0] in s;
      assert forall r | r in s[1..] :: r in s;
      assert CanonicalRun(cal, s)[1..] == CanonicalRun(cal, s[1..]);
      OneRuleStays(cal, s[0], event, year);
      RunStays(cal, s[1..], event, year);
    }
  }

  /** A rewritten rule never fires outside its own year. */
  lemma OneRuleLoses(cal: Calendar, r: Rule, event: Event, year: int)
    requires Lawful(cal) && cal.civil(event.day).0 != year
    ensures WeightOf(CanonicalRule(cal, r), Fires(cal, event, year)) <= WeightOf(r, Fires(cal, event, year))
    ensures r.start == r.end == year && !NamesOwnYear(cal, r.at, year) && event == EventOf(cal, r, year) ==>
      WeightOf(CanonicalRule(cal, r), Fires(cal, event, year)) < WeightOf(r, Fires(cal, event, year))
  {
    CanonicalizeNamesSameDay(cal, r.at, year);
  }

  lemma {:induction false} RunLoses(cal: Calendar, s: seq<Rule>, event: Event, year: int, moved: Rule)
    requires Lawful(cal) && cal.civil(event.day).0 != year
    requires moved.start == moved.end == year && !NamesOwnYear(cal, moved.at, year) && event == EventOf(cal, moved, year)
    ensures var before, after := Total(s, Fires(cal, event, year)), Total(CanonicalRun(cal, s), Fires(cal, event, year));
      after <= before && (moved in s ==> after < before)
  {
    hide WeightOf, EventOf;
    if s != [] {
      assert s == [s[0]] + s[1..];
      assert CanonicalRun(cal, s)[1..] == CanonicalRun(cal, s[1..]);
      OneRuleLoses(cal, s[0], event, year);
      RunLoses(cal, s[1..], event, year, moved);
    }
  }

  /** Rewriting the days of a run keeps the transitions of the years from lo to hi exactly when every
      single-year rule of these years names a day of its own year. */
  lemma RewritingKeepsEvents(cal: Calendar, s: seq<Rule>, lo: int, hi: int)
    requires Lawful(cal)
    ensures SameEvents(cal, CanonicalRun(cal, s), s, lo, hi) <==> SinglesStay(cal, s, lo, hi)
  {
    if SinglesStay(cal, s, lo, hi) {
      forall event: Event, year: int | lo <= year <= hi
        ensures Total(CanonicalRun(cal, s), Fires(cal, event, year)) == Total(s, Fires(cal, event, year))
      {
        RunStays(cal, s, event, year);
      }
    } else {
      var r :| r in s && r.start == r.end && lo <= r.start <= hi && !NamesOwnYear(cal, r.at, r.start);
      var event := EventOf(cal, r, r.start);
      RunLoses(cal, s, event, r.start, r);
      assert Total(CanonicalRun(cal, s), Fires(cal, event, r.start)) != Total(s, Fires(cal, event, r.start));
    }
  }

  /** Wherever a rule leaves a piece of a single year from lo to hi, it names a day of that year. */
  ghost predicate LeavesOwnDays(cal: Calendar, s: seq<Rule>, lo: int, hi: int) {
    forall q, year | lo <= year <= hi && LeavesSingle(s, q, year) :: NamesOwnYear(cal, q.at, year)
  }

  lemma SinglesStayFrom(cal: Calendar, before: seq<Rule>, split: seq<Rule>, name: nat, lo: int, hi: int)
    requires SameCover(split, before) && SameName(before, name)
    requires Canonical(split) && NonEmptyRanges(split) && SameName(split, name)
    ensures SinglesStay(cal, split, lo, hi) <==> LeavesOwnDays(cal, before, lo, hi)
  {
    if SinglesStay(cal, split, lo, hi) {
      forall q, year | lo <= year <= hi && LeavesSingle(before, q, year)
        ensures NamesOwnYear(cal, q.at, year)
      {
        SinglePieces(before, split, name, PayloadOf(q), year);
        assert Rule(q.name, year, year, q.at, q.save, q.abbrev) in split;
      }
    }
    if LeavesOwnDays(cal, before, lo, hi) {
      forall r | r in split && r.start == r.end && lo <= r.start <= hi
        ensures NamesOwnYear(cal, r.at, r.start)
      {
        SinglePieces(before, split, name, PayloadOf(r), r.start);
        assert r == Rule(r.name, r.start, r.start, r.at, r.save, r.abbrev);
        var q :| LeavesSingle(before, q, r.start) && PayloadOf(q) == PayloadOf(r);
      }
    }
  }

  /** Splitting a run and rewriting its days keeps the transitions of the years from lo to hi exactly
      when no rule leaves, in these years, a single-year piece whose day falls into another year. */
  lemma SplittingKeepsEvents(cal: Calendar, before: seq<Rule>, split: seq<Rule>, name: nat, lo: int, hi: int)
    requires Lawful(cal) && SameCover(split, before) && SameName(before, name)
    requires Canonical(split) && NonEmptyRanges(split) && SameName(split, name)
    ensures SameEvents(cal, CanonicalRun(cal, split), before, lo, hi) <==> LeavesOwnDays(cal, before, lo, hi)
  {
    RewritingKeepsEvents(cal, split, lo, hi);
    SinglesStayFrom(cal, before, split, name, lo, hi);
    forall event: Event, year: int
      ensures Total(split, Fires(cal, event, year)) == Total(before, Fires(cal, event, year))
    {
    }
    CompareWith(cal, CanonicalRun(cal, split), split, before, lo, hi);
  }

  lemma CompareWith(cal: Calendar, a: seq<Rule>, b: seq<Rule>, c: seq<Rule>, lo: int, hi: int)
    requires SameEvents(cal, b, c, lo, hi)
    ensures SameEvents(cal, a, b, lo, hi) <==> SameEvents(cal, a, c, lo, hi)
    ensures SameEvents(cal, c, b, lo, hi)
  {
  }
}
