/** Local times in a period driven by rules: which interval `find_rule` answers with, and that the two
    queries that follow tell a unique local time from an ambiguous and a nonexistent one. */
module TzLocalInfo {
  import opened TzCalendar
  import opened TzRule
  import opened TzTraverse
  import opened TzFindRule

  const DAY := 86400

  /** The offset from UTC in the i-th interval. */
  function OffsetAt(d: Period, walk: seq<Pair>, i: nat): int
    requires i <= |walk| && forall p | p in walk :: p.rule < |d.rules|
  {
    d.offset + SaveAt(d, walk, i)
  }

  /** Transitions more than two days apart that change the saving by at most a day. */
  ghost predicate SpacedWalk(d: Period, walk: seq<Pair>) {
    && Increasing(d, walk)
    && (forall i | 0 < i < |walk| :: Instant(d, walk, i) - Instant(d, walk, i - 1) > 2 * DAY)
    && (forall i | 0 < i <= |walk| :: -DAY <= SaveAt(d, walk, i) - SaveAt(d, walk, i - 1) <= DAY)
  }

  /** Under every saving, the local time is an instant inside the time line, and not of its last day. */
  ghost predicate InTime(d: Period, walk: seq<Pair>, local: int)
    requires forall p | p in walk :: p.rule < |d.rules|
  {
    forall i: nat | i <= |walk| :: d.minInstant <= local - OffsetAt(d, walk, i) < d.maxInstant - DAY
  }

  /** The i-th interval holds an instant that reads `local`. */
  ghost predicate ReadIn(d: Period, walk: seq<Pair>, i: nat, local: int)
    requires i <= |walk| && forall p | p in walk :: p.rule < |d.rules|
  {
    Interval(d, walk, i).begin <= local - OffsetAt(d, walk, i) < Interval(d, walk, i).end
  }

  lemma {:induction false} SpacedFar(d: Period, walk: seq<Pair>, i: nat, j: nat)
    requires SpacedWalk(d, walk) && i <= j <= |walk|
    ensures -DAY * (j - i) <= SaveAt(d, walk, j) - SaveAt(d, walk, i) <= DAY * (j - i)
    ensures j < |walk| ==> Instant(d, walk, j) - Instant(d, walk, i) >= 2 * DAY * (j - i)
    ensures i < j < |walk| ==> Instant(d, walk, j) - Instant(d, walk, i) > 2 * DAY * (j - i)
    decreases j
  {
    hide Instant, SaveAt;
    if i < j {
      SpacedFar(d, walk, i, j - 1);
    }
  }

  // ---- the interval that a local time is answered with ----

  /** The interval that `find_rule` answers with when its loop stops at the n-th transition. */
  ghost function Answer(d: Period, walk: seq<Pair>, at: MonthDayTime, year: int, n: nat): nat
    requires StopsAt(d, walk, at, year, n)
  {
    if Asked(d, at, year, SaveAt(d, walk, n)) < Instant(d, walk, n) then n else n + 1
  }

  lemma AskedIs(d: Period, walk: seq<Pair>, at: MonthDayTime, year: int, i: nat)
    requires i <= |walk| && at.zone.Local? && forall p | p in walk :: p.rule < |d.rules|
    ensures Asked(d, at, year, SaveAt(d, walk, i)) == TimePoint(d.cal, at, year) - OffsetAt(d, walk, i)
  {
  }

  /** The intervals before the answer have ended by the local time, and the answer has not. */
  lemma AnswerEnds(d: Period, walk: seq<Pair>, at: MonthDayTime, year: int, n: nat)
    requires SpacedWalk(d, walk) && at.zone.Local? && StopsAt(d, walk, at, year, n)
    requires InTime(d, walk, TimePoint(d.cal, at, year))
    ensures var m, local := Answer(d, walk, at, year, n), TimePoint(d.cal, at, year);
      && m <= |walk| && local - OffsetAt(d, walk, m) < Interval(d, walk, m).end
      && forall i | 0 <= i < m :: local - OffsetAt(d, walk, i) >= Interval(d, walk, i).end
  {
    hide Instant, SaveAt, Interval, Asked;
    var m, local := Answer(d, walk, at, year, n), TimePoint(d.cal, at, year);
    forall i | 0 <= i < m
      ensures local - OffsetAt(d, walk, i) >= Interval(d, walk, i).end
    {
      AskedIs(d, walk, at, year, i);
      IntervalEnds(d, walk, i);
    }
    AskedIs(d, walk, at, year, n);
    IntervalEnds(d, walk, m);
    if m == n + 1 && m < |walk| {
      SpacedFar(d, walk, n, m);
    }
  }

  /** No later interval reads the local time, save perhaps the next one after the answer; and that one
      only if the answer ends within a day. If the answer itself begins later, nothing reads it. */
  lemma LaterIntervals(d: Period, walk: seq<Pair>, local: int, m: nat, i: nat)
    requires SpacedWalk(d, walk) && m < i <= |walk|
    requires local - OffsetAt(d, walk, m) < Interval(d, walk, m).end
    ensures i > m + 1 ==> local - OffsetAt(d, walk, i) < Interval(d, walk, i).begin
    ensures Interval(d, walk, m).end - (local - OffsetAt(d, walk, m)) > DAY ==>
      local - OffsetAt(d, walk, i) < Interval(d, walk, i).begin
    ensures m > 0 && local - OffsetAt(d, walk, m) < Interval(d, walk, m).begin ==>
      local - OffsetAt(d, walk, i) < Interval(d, walk, i).begin
  {
    hide Instant, SaveAt, Interval;
    IntervalEnds(d, walk, m);
    IntervalEnds(d, walk, i);
    SpacedFar(d, walk, m, i);
    SpacedFar(d, walk, m, i - 1);
    if m > 0 { SpacedFar(d, walk, m - 1, i - 1); }
  }

  /** A local query gets the first interval that reads the local time; or, if none does, the interval
      after the gap. */
  lemma FindRuleAnswersLocal(d: Period, walk: seq<Pair>, at: MonthDayTime, year: int, n: nat)
    requires SpacedWalk(d, walk) && at.zone.Local? && StopsAt(d, walk, at, year, n)
    requires InTime(d, walk, TimePoint(d.cal, at, year))
    ensures var m, local := Answer(d, walk, at, year, n), TimePoint(d.cal, at, year);
      && m <= |walk|
      && (forall i | 0 <= i < m :: !ReadIn(d, walk, i, local))
      && (ReadIn(d, walk, m, local) <==> local - OffsetAt(d, walk, m) >= Interval(d, walk, m).begin)
      && (!ReadIn(d, walk, m, local) ==>
            && m > 0 && (forall i: nat | i <= |walk| :: !ReadIn(d, walk, i, local))
            && local - OffsetAt(d, walk, m) < Interval(d, walk, m).begin <= local - OffsetAt(d, walk, m - 1))
  {
    var m, local := Answer(d, walk, at, year, n), TimePoint(d.cal, at, year);
    AnswerEnds(d, walk, at, year, n);
    if local - OffsetAt(d, walk, m) < Interval(d, walk, m).begin {
      assert m > 0;
      forall i: nat | m < i <= |walk|
        ensures !ReadIn(d, walk, i, local)
      {
        LaterIntervals(d, walk, local, m, i);
      }
    }
  }

  // ---- the three answers ----

  datatype LocalAnswer = Unique(first: SysInfo) | Nonexistent(first: SysInfo, second: SysInfo) | Ambiguous(first: SysInfo, second: SysInfo)

  /** A point of time as the plain date and time of day that a query is made of, and its year. */
  function Named(cal: Calendar, t: int, zone: Zone): (MonthDayTime, int) {
    var date := cal.civil(t / DAY);
    (MonthDayTime(MonthDay, date.1, date.2, 0, t % DAY, zone), date.0)
  }

  lemma NamedIs(cal: Calendar, t: int, zone: Zone)
    requires Lawful(cal)
    ensures var (at, year) := Named(cal, t, zone); TimePoint(cal, at, year) == t && at.zone == zone
  {
    assert Redated(cal, t / DAY, cal.civil(t / DAY).0) == t / DAY;
  }

  /** The answer is unique, ambiguous or nonexistent as one, two or no intervals read the local time. */
  ghost predicate AnswersLocal(d: Period, walk: seq<Pair>, local: int, a: LocalAnswer, m: nat)
    requires m <= |walk| && forall p | p in walk :: p.rule < |d.rules|
  {
    match a
    case Unique(x) => x == Interval(d, walk, m) && forall i: nat | i <= |walk| :: ReadIn(d, walk, i, local) <==> i == m
    case Ambiguous(x, y) =>
      && m < |walk| && x == Interval(d, walk, m) && y == Interval(d, walk, m + 1)
      && forall i: nat | i <= |walk| :: ReadIn(d, walk, i, local) <==> i == m || i == m + 1
    case Nonexistent(x, y) =>
      && 0 < m && x == Interval(d, walk, m - 1) && y == Interval(d, walk, m)
      && (forall i: nat | i <= |walk| :: !ReadIn(d, walk, i, local))
      && local - OffsetAt(d, walk, m) < y.begin == x.end <= local - OffsetAt(d, walk, m - 1)
  }

  /** The clocks read `local` at the instant `t`. */
  ghost predicate Reads(d: Period, walk: seq<Pair>, t: int, local: int)
    requires forall p | p in walk :: p.rule < |d.rules|
  {
    exists x :: HoldsAt(d, walk, x, t) && t + d.offset + x.save == local
  }

  /** What the answer means: the instants at which the clocks read the local time are one, two or none;
      what is answered is in force at them, earlier one first, or on both sides of the gap. */
  ghost predicate MeansLocal(d: Period, walk: seq<Pair>, local: int, a: LocalAnswer)
    requires forall p | p in walk :: p.rule < |d.rules|
  {
    var x := a.first;
    var t := local - d.offset - x.save;
    match a
    case Unique(_) =>
      && HoldsAt(d, walk, x, t)
      && forall u :: Reads(d, walk, u, local) <==> u == t
    case Ambiguous(_, y) =>
      && HoldsAt(d, walk, x, t) && HoldsAt(d, walk, y, local - d.offset - y.save)
      && t < x.end == y.begin <= local - d.offset - y.save
      && forall u :: Reads(d, walk, u, local) <==> u == t || u == local - d.offset - y.save
    case Nonexistent(_, y) =>
      && HoldsAt(d, walk, x, x.end - 1) && HoldsAt(d, walk, y, y.begin)
      && local - d.offset - y.save < y.begin == x.end <= t
      && forall u :: !Reads(d, walk, u, local)
  }

  lemma ReadsIs(d: Period, walk: seq<Pair>, t: int, local: int)
    requires forall p | p in walk :: p.rule < |d.rules|
    ensures Reads(d, walk, t, local) <==> exists i: nat | i <= |walk| :: ReadIn(d, walk, i, local) && t == local - OffsetAt(d, walk, i)
  {
    hide Says, Interval, OffsetAt;
    if Reads(d, walk, t, local) {
      var x :| HoldsAt(d, walk, x, t) && t + d.offset + x.save == local;
      var i: nat :| i <= |walk| && Says(d, walk, i, x);
      IntervalSays(d, walk, i, x);
      IntervalSaves(d, walk, i);
      assert ReadIn(d, walk, i, local);
    }
    if i: nat :| i <= |walk| && ReadIn(d, walk, i, local) && t == local - OffsetAt(d, walk, i) {
      IntervalSays(d, walk, i, Interval(d, walk, i));
      IntervalSaves(d, walk, i);
      assert HoldsAt(d, walk, Interval(d, walk, i), t);
    }
  }

  lemma AnswerHolds(d: Period, walk: seq<Pair>, i: nat, t: int)
    requires i <= |walk| && forall p | p in walk :: p.rule < |d.rules|
    ensures Interval(d, walk, i).begin <= t < Interval(d, walk, i).end ==> HoldsAt(d, walk, Interval(d, walk, i), t)
  {
    hide Says, Interval;
    IntervalSays(d, walk, i, Interval(d, walk, i));
  }

  /** The instants that read the local time, if the intervals m and n are those that do. */
  lemma ReadsOf(d: Period, walk: seq<Pair>, local: int, m: nat, n: nat)
    requires m <= |walk| && n <= |walk| && forall p | p in walk :: p.rule < |d.rules|
    requires forall i: nat | i <= |walk| :: ReadIn(d, walk, i, local) <==> i == m || i == n
    ensures forall u :: Reads(d, walk, u, local) <==> u == local - OffsetAt(d, walk, m) || u == local - OffsetAt(d, walk, n)
  {
    hide Reads, OffsetAt, ReadIn;
    assert ReadIn(d, walk, m, local) && ReadIn(d, walk, n, local);
    forall u
      ensures Reads(d, walk, u, local) <==> u == local - OffsetAt(d, walk, m) || u == local - OffsetAt(d, walk, n)
    {
      ReadsIs(d, walk, u, local);
    }
  }

  lemma NothingReads(d: Period, walk: seq<Pair>, local: int)
    requires forall p | p in walk :: p.rule < |d.rules|
    requires forall i: nat | i <= |walk| :: !ReadIn(d, walk, i, local)
    ensures forall u :: !Reads(d, walk, u, local)
  {
    hide Reads, OffsetAt, ReadIn;
    forall u
      ensures !Reads(d, walk, u, local)
    {
      ReadsIs(d, walk, u, local);
    }
  }

  lemma UniqueMeans(d: Period, walk: seq<Pair>, local: int, x: SysInfo, m: nat)
    requires Increasing(d, walk) && m <= |walk| && AnswersLocal(d, walk, local, Unique(x), m)
    ensures MeansLocal(d, walk, local, Unique(x))
  {
    assert ReadIn(d, walk, m, local);
    hide HoldsAt, Reads, Interval, OffsetAt, Increasing;
    IntervalSaves(d, walk, m);
    ReadsOf(d, walk, local, m, m);
    AnswerHolds(d, walk, m, local - OffsetAt(d, walk, m));
  }

  lemma AmbiguousMeans(d: Period, walk: seq<Pair>, local: int, x: SysInfo, y: SysInfo, m: nat)
    requires Increasing(d, walk) && m <= |walk| && AnswersLocal(d, walk, local, Ambiguous(x, y), m)
    ensures MeansLocal(d, walk, local, Ambiguous(x, y))
  {
    assert ReadIn(d, walk, m, local) && ReadIn(d, walk, m + 1, local);
    hide HoldsAt, Reads, Interval, OffsetAt, Increasing;
    IntervalSaves(d, walk, m);
    IntervalSaves(d, walk, m + 1);
    IntervalsAbut(d, walk, m);
    ReadsOf(d, walk, local, m, m + 1);
    AnswerHolds(d, walk, m, local - OffsetAt(d, walk, m));
    AnswerHolds(d, walk, m + 1, local - OffsetAt(d, walk, m + 1));
  }

  lemma NonexistentMeans(d: Period, walk: seq<Pair>, local: int, x: SysInfo, y: SysInfo, m: nat)
    requires Increasing(d, walk) && m <= |walk| && AnswersLocal(d, walk, local, Nonexistent(x, y), m)
    ensures MeansLocal(d, walk, local, Nonexistent(x, y))
  {
    NothingReads(d, walk, local);
    hide HoldsAt, Reads, ReadIn, Interval, OffsetAt, Increasing;
    IntervalSaves(d, walk, m - 1);
    IntervalSaves(d, walk, m);
    IntervalsAbut(d, walk, m);
    IntervalsAbut(d, walk, m - 1);
    AnswerHolds(d, walk, m - 1, x.end - 1);
    AnswerHolds(d, walk, m, y.begin);
  }

  /** `find_rule` for an instant in UTC. */
  method FindAt(d: Period, first: Pair, last: Pair, t: int, ghost lo: nat, ghost hi: nat, ghost walk: seq<Pair>, ghost i: nat)
      returns (x: SysInfo)
    requires Lawful(d.cal) && Increasing(d, walk)
    requires Transitions(d.rules, lo, hi, walk) && first == walk[0] && last == walk[|walk| - 1]
    requires d.minInstant <= t < d.maxInstant && i <= |walk| && Interval(d, walk, i).begin <= t < Interval(d, walk, i).end
    ensures x == Interval(d, walk, i) && HoldsAt(d, walk, x, t)
  {
    hide Increasing, Interval, Instant, SaveAt, Says;
    var (at, year) := Named(d.cal, t, Utc);
    NamedIs(d.cal, t, Utc);
    ghost var n;
    x, n := FindRule(d, Some(first), last, at, year, lo, hi, walk);
    FindRuleAnswersUtc(d, walk, at, year, n);
    IntervalSays(d, walk, i, x);
  }

  lemma Neighbours(d: Period, walk: seq<Pair>, m: nat)
    requires Increasing(d, walk) && m < |walk|
    ensures var t := Interval(d, walk, m).end;
      && t == Interval(d, walk, m + 1).begin && d.minInstant < t < d.maxInstant
      && Interval(d, walk, m).begin <= t - 1 < t < Interval(d, walk, m + 1).end
  {
    IntervalsAbut(d, walk, m);
    IntervalsAbut(d, walk, m + 1);
    IncreasingFar(d, walk, m, m);
  }

  /** `get_info_impl` for a local time, inside one period. */
  method GetInfoLocal(d: Period, first: Pair, last: Pair, local: int, ghost lo: nat, ghost hi: nat, ghost walk: seq<Pair>)
      returns (a: LocalAnswer)
    requires Lawful(d.cal) && SpacedWalk(d, walk) && InTime(d, walk, local)
    requires Transitions(d.rules, lo, hi, walk) && first == walk[0] && last == walk[|walk| - 1]
    ensures exists m: nat :: m <= |walk| && AnswersLocal(d, walk, local, a, m)
    ensures MeansLocal(d, walk, local, a)
  {
    hide MeansLocal, Says, Increasing, SpacedWalk, Instant, Transitions, InTime, StopsAt, ReadIn, AnswersLocal, Interval, SaveAt, Named;
    WalkIsInTable(d.rules, lo, hi, walk);
    SpacedIsIncreasing(d, walk);
    var (at, year) := Named(d.cal, local, Local);
    NamedIs(d.cal, local, Local);
    var x;
    ghost var n;
    x, n := FindRule(d, Some(first), last, at, year, lo, hi, walk);
    ghost var m := Answer(d, walk, at, year, n);
    AnswerEnds(d, walk, at, year, n);
    FindRuleAnswersLocal(d, walk, at, year, n);
    IntervalSaves(d, walk, m);
    var tps := local - (d.offset + x.save);
    if tps < x.begin {
      Neighbours(d, walk, m - 1);
      var before := FindAt(d, first, last, x.begin - 1, lo, hi, walk, m - 1);
      a := Nonexistent(before, x);
      NonexistentAnswers(d, walk, local, m);
      NonexistentMeans(d, walk, local, before, x, m);
      return;
    }
    a := Unique(x);
    if x.end - tps <= DAY {
      EndsInside(d, walk, local, m);
      Neighbours(d, walk, m);
      IntervalSaves(d, walk, m + 1);
      var after := FindAt(d, first, last, x.end, lo, hi, walk, m + 1);
      tps := local - (d.offset + after.save);
      if tps >= after.begin {
        a := Ambiguous(x, after);
        AmbiguousAnswers(d, walk, local, m);
        AmbiguousMeans(d, walk, local, x, after, m);
        return;
      }
    }
    UniqueAnswers(d, walk, local, m);
    UniqueMeans(d, walk, local, x, m);
  }

  lemma SpacedIsIncreasing(d: Period, walk: seq<Pair>)
    requires SpacedWalk(d, walk)
    ensures Increasing(d, walk)
  {
  }

  lemma IntervalSaves(d: Period, walk: seq<Pair>, i: nat)
    requires i <= |walk| && forall p | p in walk :: p.rule < |d.rules|
    ensures d.offset + Interval(d, walk, i).save == OffsetAt(d, walk, i)
  {
  }

  lemma NonexistentAnswers(d: Period, walk: seq<Pair>, local: int, m: nat)
    requires Increasing(d, walk) && 0 < m <= |walk| && forall i: nat | i <= |walk| :: !ReadIn(d, walk, i, local)
    requires local - OffsetAt(d, walk, m) < Interval(d, walk, m).begin <= local - OffsetAt(d, walk, m - 1)
    ensures AnswersLocal(d, walk, local, Nonexistent(Interval(d, walk, m - 1), Interval(d, walk, m)), m)
  {
    IntervalsAbut(d, walk, m - 1);
  }

  lemma UniqueAnswers(d: Period, walk: seq<Pair>, local: int, m: nat)
    requires SpacedWalk(d, walk) && InTime(d, walk, local) && m <= |walk|
    requires ReadIn(d, walk, m, local) && forall i | 0 <= i < m :: !ReadIn(d, walk, i, local)
    requires Interval(d, walk, m).end - (local - OffsetAt(d, walk, m)) <= DAY && m < |walk| ==>
      local - OffsetAt(d, walk, m + 1) < Interval(d, walk, m + 1).begin
    ensures AnswersLocal(d, walk, local, Unique(Interval(d, walk, m)), m)
  {
    hide Instant, SaveAt;
    forall i: nat | m < i <= |walk|
      ensures !ReadIn(d, walk, i, local)
    {
      LaterIntervals(d, walk, local, m, i);
    }
  }

  lemma AmbiguousAnswers(d: Period, walk: seq<Pair>, local: int, m: nat)
    requires SpacedWalk(d, walk) && InTime(d, walk, local) && m < |walk|
    requires ReadIn(d, walk, m, local) && forall i | 0 <= i < m :: !ReadIn(d, walk, i, local)
    requires local - OffsetAt(d, walk, m + 1) >= Interval(d, walk, m + 1).begin
    ensures AnswersLocal(d, walk, local, Ambiguous(Interval(d, walk, m), Interval(d, walk, m + 1)), m)
  {
    hide Instant, SaveAt, Interval;
    forall i: nat | m + 1 < i <= |walk|
      ensures !ReadIn(d, walk, i, local)
    {
      LaterIntervals(d, walk, local, m, i);
    }
    SpacedFar(d, walk, m, m + 1);
    IntervalEnds(d, walk, m);
    IntervalEnds(d, walk, m + 1);
  }

  lemma EndsInside(d: Period, walk: seq<Pair>, local: int, m: nat)
    requires SpacedWalk(d, walk) && InTime(d, walk, local) && m <= |walk|
    requires Interval(d, walk, m).end - (local - OffsetAt(d, walk, m)) <= DAY
    ensures m < |walk|
  {
  }
}
