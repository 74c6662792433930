/** Which rule is in force: at the end of a zone's period, and at an instant inside it. */
module TzFindRule {
  import opened TzCalendar
  import opened TzRule
  import opened TzTraverse

  // ---- comparing a period's end with a transition ----

  function Sign(a: int, b: int): int {
    if a < b then -1 else if a == b then 0 else 1
  }

  /** `MonthDayTime::compare`: `x` in `year` against `z` in `zYear`, where `prevSave` is the saving
      in force before `z`. Days more than one apart decide without looking at the clocks. */
  function Compare(cal: Calendar, x: MonthDayTime, year: int, z: MonthDayTime, zYear: int, offset: int, prevSave: int): int {
    var t0, t1 := TimePoint(cal, x, year), TimePoint(cal, z, zYear);
    if x.zone == z.zone then Sign(t0, t1)
    else
      var d0, d1 := ToDays(cal, x, year), ToDays(cal, z, zYear);
      if d0 - d1 > 1 || d1 - d0 > 1 then if d0 < d1 then -1 else 1
      else
        match x.zone
        case Local => Sign(t0 - prevSave - (if z.zone.Utc? then offset else 0), t1)
        case Standard =>
          if z.zone.Local? then Sign(t0, t1 - prevSave) else Sign(t0 - offset, t1)
        case Utc => Sign(t0, t1 - offset - if z.zone.Local? then prevSave else 0)
  }

  /** What the clock of a zone is ahead of UTC. */
  function Ahead(zone: Zone, offset: int, save: int): int {
    match zone
    case Utc => 0
    case Standard => offset
    case Local => offset + save
  }

  /** Whatever the days are, if they are two or more apart the instants come in their order. */
  predicate ClocksClose(x: MonthDayTime, z: MonthDayTime, offset: int, prevSave: int) {
    || x.zone == z.zone
    || -172800 < x.time - Ahead(x.zone, offset, prevSave) - (z.time - Ahead(z.zone, offset, prevSave)) < 172800
  }

  /** A comparison is the comparison of the two UTC instants, under the saving in force before the
      transition, as long as the times of day and the shifts between the clocks stay below two days. */
  lemma CompareIsInstantOrder(cal: Calendar, x: MonthDayTime, year: int, z: MonthDayTime, zYear: int, offset: int, prevSave: int)
    requires ClocksClose(x, z, offset, prevSave)
    ensures Compare(cal, x, year, z, zYear, offset, prevSave)
      == Sign(ToSys(cal, x, year, offset, prevSave), ToSys(cal, z, zYear, offset, prevSave))
  {
  }

  /** Two days apart is the bound: beyond it, some days are compared the wrong way round. */
  lemma FarClocks(cal: Calendar, x: MonthDayTime, year: int, z: MonthDayTime, zYear: int, offset: int, prevSave: int)
    requires !ClocksClose(x, z, offset, prevSave)
    requires var ahead := x.time - Ahead(x.zone, offset, prevSave) - (z.time - Ahead(z.zone, offset, prevSave));
      ToDays(cal, x, year) - ToDays(cal, z, zYear) == if ahead < 0 then 2 else -2
    ensures Compare(cal, x, year, z, zYear, offset, prevSave)
      != Sign(ToSys(cal, x, year, offset, prevSave), ToSys(cal, z, zYear, offset, prevSave))
  {
  }

  // ---- the rule in force when a period ends ----

  /** The saving in force just before a pair, zero before the first. */
  function SaveBefore(rules: seq<Rule>, lo: nat, hi: nat, p: Pair): int
    requires lo <= p.rule < hi <= |rules|
  {
    match PreviousPair(rules, lo, hi, p)
    case None => 0
    case Some(q) => if lo <= q.rule < hi then rules[q.rule].save else 0
  }

  /** Before the first pair nothing is saved; before any other, what the rule of the one before it saves. */
  lemma SaveBeforeIs(rules: seq<Rule>, lo: nat, hi: nat, p: Pair, q: Pair)
    requires RunAt(rules, lo, hi) && InForce(rules, lo, hi, p) && InForce(rules, lo, hi, q)
    ensures SaveBefore(rules, lo, hi, Pair(lo, rules[lo].start)) == 0
    ensures NextPair(rules, lo, hi, p) == Some(q) ==> SaveBefore(rules, lo, hi, q) == rules[p.rule].save
  {
    PreviousInvertsNext(rules, lo, hi, p, q);
  }

  /** The transition `p` is not before the end of the period. */
  predicate Reached(rules: seq<Rule>, lo: nat, hi: nat, cal: Calendar, until: MonthDayTime, year: int, offset: int, p: Pair)
    requires lo <= p.rule < hi <= |rules|
  {
    Compare(cal, until, year, rules[p.rule].at, p.year, offset, SaveBefore(rules, lo, hi, p)) <= 0
  }

  lemma FirstIsFirst(rules: seq<Rule>, lo: nat, hi: nat)
    requires RunAt(rules, lo, hi)
    ensures lo < hi <= |rules| && InForce(rules, lo, hi, Pair(lo, rules[lo].start))
    ensures PreviousPair(rules, lo, hi, Pair(lo, rules[lo].start)) == None
  {
  }

  /** `prev` is the last pair of those before the first transition that is not before the end. */
  ghost predicate IsLastBeforeEnd(rules: seq<Rule>, first: nat, last: nat, cal: Calendar, until: MonthDayTime,
                                  year: int, offset: int, prev: Option<Pair>)
    requires RunAt(rules, first, last)
  {
    match prev
    case None => Reached(rules, first, last, cal, until, year, offset, Pair(first, rules[first].start))
    case Some(p) =>
      && InForce(rules, first, last, p)
      && (forall x | InForce(rules, first, last, x) && (x == p || Before(x, p)) ::
            !Reached(rules, first, last, cal, until, year, offset, x))
      && match NextPair(rules, first, last, p)
         case None => true
         case Some(q) => first <= q.rule < last && Reached(rules, first, last, cal, until, year, offset, q)
  }

  /** `find_rule_for_zone` for a period's end: the last pair of the transitions that come before it. */
  method FindRuleForZone(rules: seq<Rule>, first: nat, last: nat, cal: Calendar, year: int, offset: int, until: MonthDayTime)
      returns (prev: Option<Pair>)
    requires RunAt(rules, first, last)
    ensures IsLastBeforeEnd(rules, first, last, cal, until, year, offset, prev)
  {
    hide NextPair, RunAt, Compare;
    FirstIsFirst(rules, first, last);
    var r := Some(Pair(first, rules[first].start));
    var prevSave := 0;
    prev := None;
    while r.Some?
      invariant prev.None? ==> r == Some(Pair(first, rules[first].start)) && prevSave == 0
      invariant r.Some? ==> InForce(rules, first, last, r.value) && PreviousPair(rules, first, last, r.value) == prev
      invariant prev.Some? ==>
        && InForce(rules, first, last, prev.value) && NextPair(rules, first, last, prev.value) == r
        && prevSave == rules[prev.value.rule].save
        && forall x | InForce(rules, first, last, x) && (x == prev.value || Before(x, prev.value)) ::
             !Reached(rules, first, last, cal, until, year, offset, x)
      decreases if r.Some? then 1 else 0, if r.Some? then rules[last - 1].end - r.value.year else 0,
        if r.Some? then last - r.value.rule else 0
    {
      var p := r.value;
      if Compare(cal, until, year, rules[p.rule].at, p.year, offset, prevSave) <= 0 {
        break;
      }
      NextPairIsNext(rules, first, last, p);
      YearsBounded(rules, first, last, p);
      PreviousPairIsPrevious(rules, first, last, p);
      prev := r;
      prevSave := rules[p.rule].save;
      r := FindNextRule(rules, first, last, p.rule, p.year);
      if r.Some? {
        YearsBounded(rules, first, last, r.value);
        PreviousInvertsNext(rules, first, last, p, r.value);
      }
    }
  }

  /** A pair's transition and the end of the period, as instants under the saving in force before the pair. */
  ghost predicate EndsBy(rules: seq<Rule>, lo: nat, hi: nat, cal: Calendar, until: MonthDayTime, year: int, offset: int, p: Pair)
    requires lo <= p.rule < hi <= |rules|
  {
    var save := SaveBefore(rules, lo, hi, p);
    ToSys(cal, until, year, offset, save) <= ToSys(cal, rules[p.rule].at, p.year, offset, save)
  }

  /** The end of the period and every transition are read on clocks that are close. */
  ghost predicate AllClose(rules: seq<Rule>, first: nat, last: nat, until: MonthDayTime, offset: int)
    requires RunAt(rules, first, last)
  {
    forall x | InForce(rules, first, last, x) :: ClocksClose(until, rules[x.rule].at, offset, SaveBefore(rules, first, last, x))
  }

  /** So `find_rule_for_zone` finds the last of the transitions whose instants come before the end's. */
  lemma LastBeforeEndIsInstant(rules: seq<Rule>, first: nat, last: nat, cal: Calendar, until: MonthDayTime,
                               year: int, offset: int, prev: Option<Pair>)
    requires RunAt(rules, first, last) && AllClose(rules, first, last, until, offset)
    requires IsLastBeforeEnd(rules, first, last, cal, until, year, offset, prev)
    ensures match prev
      case None => EndsBy(rules, first, last, cal, until, year, offset, Pair(first, rules[first].start))
      case Some(p) =>
        && InForce(rules, first, last, p)
        && (forall x | InForce(rules, first, last, x) && (x == p || Before(x, p)) ::
              !EndsBy(rules, first, last, cal, until, year, offset, x))
        && match NextPair(rules, first, last, p)
           case None => true
           case Some(q) => InForce(rules, first, last, q) && EndsBy(rules, first, last, cal, until, year, offset, q)
  {
    hide Compare;
    forall x | InForce(rules, first, last, x)
      ensures Reached(rules, first, last, cal, until, year, offset, x) <==>
              EndsBy(rules, first, last, cal, until, year, offset, x)
    {
      CompareIsInstantOrder(cal, until, year, rules[x.rule].at, x.year, offset, SaveBefore(rules, first, last, x));
    }
    match prev
    case None => assert InForce(rules, first, last, Pair(first, rules[first].start));
    case Some(p) => NextPairIsNext(rules, first, last, p);
  }

  /** A transition is after the given instant, which comes as UTC, standard and local time. */
  predicate IsAfter(rules: seq<Rule>, cal: Calendar, utc: int, std: int, loc: int, p: Pair)
    requires p.rule < |rules|
  {
    var at := rules[p.rule].at;
    (match at.zone case Utc => utc case Standard => std case Local => loc) < TimePoint(cal, at, p.year)
  }

  /** If the three times are one instant, under an offset and a saving, the transition is after it. */
  lemma AfterIsInstant(rules: seq<Rule>, cal: Calendar, utc: int, offset: int, save: int, p: Pair)
    requires p.rule < |rules|
    ensures IsAfter(rules, cal, utc, utc + offset, utc + offset + save, p) <==>
            utc < ToSys(cal, rules[p.rule].at, p.year, offset, save)
  {
  }

  /** `find_rule_for_zone` for an instant: the last pair of the transitions up to it. */
  method FindRuleAt(rules: seq<Rule>, first: nat, last: nat, cal: Calendar, utc: int, std: int, loc: int)
      returns (prev: Option<Pair>)
    requires RunAt(rules, first, last)
    ensures match prev
            case None => IsAfter(rules, cal, utc, std, loc, Pair(first, rules[first].start))
            case Some(p) =>
              && InForce(rules, first, last, p)
              && (forall x | InForce(rules, first, last, x) && (x == p || Before(x, p)) ::
                    !IsAfter(rules, cal, utc, std, loc, x))
              && match NextPair(rules, first, last, p)
                 case None => true
                 case Some(q) => q.rule < |rules| && IsAfter(rules, cal, utc, std, loc, q)
  {
    hide NextPair, PreviousPair, RunAt, TimePoint;
    FirstIsFirst(rules, first, last);
    var r := Some(Pair(first, rules[first].start));
    prev := None;
    while r.Some?
      invariant prev.None? ==> r == Some(Pair(first, rules[first].start))
      invariant r.Some? ==> InForce(rules, first, last, r.value) && PreviousPair(rules, first, last, r.value) == prev
      invariant prev.Some? ==>
        && InForce(rules, first, last, prev.value) && NextPair(rules, first, last, prev.value) == r
        && forall x | InForce(rules, first, last, x) && (x == prev.value || Before(x, prev.value)) ::
             !IsAfter(rules, cal, utc, std, loc, x)
      decreases if r.Some? then 1 else 0, if r.Some? then rules[last - 1].end - r.value.year else 0,
        if r.Some? then last - r.value.rule else 0
    {
      var p := r.value;
      var at := rules[p.rule].at;
      var found;
      match at.zone {
        case Utc => found := utc < TimePoint(cal, at, p.year);
        case Standard => found := std < TimePoint(cal, at, p.year);
        case Local => found := loc < TimePoint(cal, at, p.year);
      }
      if found {
        break;
      }
      NextPairIsNext(rules, first, last, p);
      YearsBounded(rules, first, last, p);
      PreviousPairIsPrevious(rules, first, last, p);
      prev := r;
      r := FindNextRule(rules, first, last, p.rule, p.year);
      if r.Some? {
        YearsBounded(rules, first, last, r.value);
        PreviousInvertsNext(rules, first, last, p, r.value);
      }
    }
  }

  // ---- the rule in force at an instant ----

  datatype SysInfo = SysInfo(begin: int, end: int, save: int, abbrev: string)

  /** A period's transitions: consecutive pairs of a run, from the first of the period to its last. */
  ghost predicate Transitions(rules: seq<Rule>, lo: nat, hi: nat, walk: seq<Pair>) {
    && NameRun(rules, lo, hi) && RunAt(rules, lo, hi) && walk != []
    && (forall i | 0 <= i < |walk| :: InForce(rules, lo, hi, walk[i]))
    && (forall i | 0 <= i < |walk| - 1 :: NextPair(rules, lo, hi, walk[i]) == Some(walk[i + 1]))
  }

  /** A period: the table, its calendar, the zone's offset, what is in force before the first
      transition, and the ends of the time line. */
  datatype Period = Period(rules: seq<Rule>, cal: Calendar, offset: int, save: int, abbrev: string,
                           minInstant: int, maxInstant: int)

  /** What is in force before the i-th transition. */
  function SaveAt(d: Period, walk: seq<Pair>, i: nat): int
    requires i <= |walk| && forall p | p in walk :: p.rule < |d.rules|
  {
    if i == 0 then d.save else d.rules[walk[i - 1].rule].save
  }

  /** The i-th transition's instant, under the saving in force before it. */
  function Instant(d: Period, walk: seq<Pair>, i: nat): int
    requires i < |walk| && forall p | p in walk :: p.rule < |d.rules|
  {
    ToSys(d.cal, d.rules[walk[i].rule].at, walk[i].year, d.offset, SaveAt(d, walk, i))
  }

  /** The i-th interval between transitions, the 0-th being the time before the first. */
  function Interval(d: Period, walk: seq<Pair>, i: nat): SysInfo
    requires i <= |walk| && forall p | p in walk :: p.rule < |d.rules|
  {
    SysInfo(if i == 0 then d.minInstant else Instant(d, walk, i - 1),
            if i == |walk| then d.maxInstant else Instant(d, walk, i),
            SaveAt(d, walk, i),
            if i == 0 then d.abbrev else d.rules[walk[i - 1].rule].abbrev)
  }

  /** `x` says what is in force from the (i-1)-th transition of the walk on, under the saving of its
      rule, up to the i-th; before the first transition, what is in force is given by the period. Each
      transition happens under the saving of the one before it. */
  ghost predicate Says(d: Period, walk: seq<Pair>, i: nat, x: SysInfo)
    requires i <= |walk| && forall p | p in walk :: p.rule < |d.rules|
  {
    && (i == 0 ==> x.begin == d.minInstant && x.save == d.save && x.abbrev == d.abbrev)
    && (i > 0 ==>
          var r := d.rules[walk[i - 1].rule];
          && x.begin == ToSys(d.cal, r.at, walk[i - 1].year, d.offset,
                              if i == 1 then d.save else d.rules[walk[i - 2].rule].save)
          && x.save == r.save && x.abbrev == r.abbrev)
    && (i < |walk| ==> x.end == ToSys(d.cal, d.rules[walk[i].rule].at, walk[i].year, d.offset, x.save))
    && (i == |walk| ==> x.end == d.maxInstant)
  }

  lemma IntervalSays(d: Period, walk: seq<Pair>, i: nat, x: SysInfo)
    requires i <= |walk| && forall p | p in walk :: p.rule < |d.rules|
    ensures Says(d, walk, i, x) <==> x == Interval(d, walk, i)
  {
    hide ToSys;
  }

  /** `x` says what is in force at `t`, between the last transition up to it and the first one after it. */
  ghost predicate HoldsAt(d: Period, walk: seq<Pair>, x: SysInfo, t: int)
    requires forall p | p in walk :: p.rule < |d.rules|
  {
    x.begin <= t < x.end && exists i | 0 <= i <= |walk| :: Says(d, walk, i, x)
  }

  lemma IntervalEnds(d: Period, walk: seq<Pair>, i: nat)
    requires i <= |walk| && forall p | p in walk :: p.rule < |d.rules|
    ensures Interval(d, walk, i).end == if i == |walk| then d.maxInstant else Instant(d, walk, i)
    ensures Interval(d, walk, i).begin == if i == 0 then d.minInstant else Instant(d, walk, i - 1)
  {
  }

  /** Successive transitions happen at later and later instants, inside the time line. */
  ghost predicate Increasing(d: Period, walk: seq<Pair>) {
    && walk != [] && (forall p | p in walk :: p.rule < |d.rules|)
    && d.minInstant < Instant(d, walk, 0) && Instant(d, walk, |walk| - 1) < d.maxInstant
    && (forall i | 0 < i < |walk| :: Instant(d, walk, i - 1) < Instant(d, walk, i))
  }

  lemma {:induction false} IncreasingFar(d: Period, walk: seq<Pair>, i: nat, j: nat)
    requires Increasing(d, walk) && i <= j < |walk|
    ensures d.minInstant < Instant(d, walk, i) <= Instant(d, walk, j) < d.maxInstant
    decreases |walk| - i
  {
    if i < j {
      IncreasingFar(d, walk, i + 1, j);
      IncreasingDown(d, walk, i);
    } else {
      IncreasingDown(d, walk, i);
      if i < |walk| - 1 { IncreasingFar(d, walk, i + 1, |walk| - 1); }
    }
  }

  lemma {:induction false} IncreasingDown(d: Period, walk: seq<Pair>, i: nat)
    requires Increasing(d, walk) && i < |walk|
    ensures d.minInstant < Instant(d, walk, i)
  {
    if i > 0 { IncreasingDown(d, walk, i - 1); }
  }

  /** The intervals abut, none is empty, and they begin and end where the time line does. */
  lemma IntervalsAbut(d: Period, walk: seq<Pair>, i: nat)
    requires Increasing(d, walk) && i <= |walk|
    ensures Interval(d, walk, 0).begin == d.minInstant && Interval(d, walk, |walk|).end == d.maxInstant
    ensures i < |walk| ==> Interval(d, walk, i).end == Interval(d, walk, i + 1).begin
    ensures Interval(d, walk, i).begin < Interval(d, walk, i).end
  {
    IncreasingFar(d, walk, 0, |walk| - 1);
  }

  /** So the intervals tile the time line: every instant lies in exactly one of them. */
  lemma IntervalsTile(d: Period, walk: seq<Pair>, t: int) returns (n: nat)
    requires Increasing(d, walk) && d.minInstant <= t < d.maxInstant
    ensures n <= |walk| && Interval(d, walk, n).begin <= t < Interval(d, walk, n).end
    ensures forall i | 0 <= i <= |walk| && Interval(d, walk, i).begin <= t < Interval(d, walk, i).end :: i == n
  {
    hide Interval, Instant;
    n := 0;
    IntervalEnds(d, walk, 0);
    while n < |walk| && Instant(d, walk, n) <= t
      invariant n <= |walk| && Interval(d, walk, n).begin <= t
    {
      n := n + 1;
      IntervalEnds(d, walk, n);
    }
    IntervalEnds(d, walk, n);
    forall i | 0 <= i <= |walk| && i != n
      ensures !(Interval(d, walk, i).begin <= t < Interval(d, walk, i).end)
    {
      IntervalEnds(d, walk, i);
      if i < n { IncreasingFar(d, walk, i, n - 1); } else { IncreasingFar(d, walk, n, i - 1); }
    }
  }

  /** Walks go strictly forward in time order. */
  lemma {:induction false} TransitionsForward(rules: seq<Rule>, lo: nat, hi: nat, walk: seq<Pair>, i: nat, j: nat)
    requires Transitions(rules, lo, hi, walk) && i < j < |walk|
    ensures Before(walk[i], walk[j])
    decreases j - i
  {
    NextPairIsNext(rules, lo, hi, walk[i]);
    if i + 1 < j {
      TransitionsForward(rules, lo, hi, walk, i + 1, j);
    }
  }

  /** The instant asked for, given the saving in force; it does not depend on it for a UTC query. */
  function Asked(d: Period, at: MonthDayTime, year: int, save: int): int {
    ToSys(d.cal, at, year, d.offset, save)
  }

  /** The loop of `find_rule` stops at the first transition not before the instant asked for, both
      taken under the saving in force before it, and at the last one in any case. */
  ghost predicate StopsAt(d: Period, walk: seq<Pair>, at: MonthDayTime, year: int, n: nat) {
    && n < |walk| && (forall p | p in walk :: p.rule < |d.rules|)
    && (forall i | 0 <= i < n :: Asked(d, at, year, SaveAt(d, walk, i)) > Instant(d, walk, i))
    && (Asked(d, at, year, SaveAt(d, walk, n)) <= Instant(d, walk, n) || n == |walk| - 1)
  }

  /** The answer when the instant asked for is at or after the transition `p`, the m-th of the walk. */
  method FromTransition(d: Period, first: Pair, last: Pair, p: Pair,
                        ghost lo: nat, ghost hi: nat, ghost walk: seq<Pair>, ghost m: nat)
      returns (x: SysInfo)
    requires Transitions(d.rules, lo, hi, walk) && first == walk[0] && last == walk[|walk| - 1]
    requires m < |walk| && p == walk[m]
    ensures x == Interval(d, walk, m + 1) && Says(d, walk, m + 1, x)
  {
    WalkEnds(d.rules, lo, hi, walk, m);
    var prevSave := d.save;
    if p != first {
      WalkStep(d.rules, lo, hi, walk, m - 1);
      var before := FindPreviousRule(d.rules, p.rule, p.year, lo, hi);
      prevSave := d.rules[before.value.rule].save;
    }
    var begin := ToSys(d.cal, d.rules[p.rule].at, p.year, d.offset, prevSave);
    var save := d.rules[p.rule].save;
    var end := d.maxInstant;
    if p != last {
      var next := FindNextRuleByName(d.rules, p.rule, p.year, lo, hi);
      assert next == Some(walk[m + 1]);
      end := ToSys(d.cal, d.rules[next.value.rule].at, next.value.year, d.offset, save);
    }
    x := SysInfo(begin, end, save, d.rules[p.rule].abbrev);
    IntervalSays(d, walk, m + 1, x);
  }

  /** Only the ends of a walk are equal to its first and its last pair. */
  lemma WalkEnds(rules: seq<Rule>, lo: nat, hi: nat, walk: seq<Pair>, n: nat)
    requires Transitions(rules, lo, hi, walk) && n < |walk|
    ensures walk[n] == walk[0] <==> n == 0
    ensures walk[n] == walk[|walk| - 1] <==> n == |walk| - 1
  {
    if n > 0 { TransitionsForward(rules, lo, hi, walk, 0, n); }
    if n < |walk| - 1 { TransitionsForward(rules, lo, hi, walk, n, |walk| - 1); }
  }

  lemma WalkStep(rules: seq<Rule>, lo: nat, hi: nat, walk: seq<Pair>, n: nat)
    requires Transitions(rules, lo, hi, walk) && n + 1 < |walk|
    ensures PreviousPair(rules, lo, hi, walk[n + 1]) == Some(walk[n])
  {
    PreviousInvertsNext(rules, lo, hi, walk[n], walk[n + 1]);
  }

  lemma WalkIsInTable(rules: seq<Rule>, lo: nat, hi: nat, walk: seq<Pair>)
    requires Transitions(rules, lo, hi, walk)
    ensures forall p | p in walk :: lo <= p.rule < hi <= |rules|
  {
  }

  /** The answer once the loop of `find_rule` has stopped at the n-th transition. */
  method Conclude(d: Period, first: Pair, last: Pair, p: Pair, x: SysInfo, tx: int, tr: int,
                  ghost lo: nat, ghost hi: nat, ghost walk: seq<Pair>, ghost n: nat) returns (y: SysInfo)
    requires Transitions(d.rules, lo, hi, walk) && first == walk[0] && last == walk[|walk| - 1]
    requires n < |walk| && p == walk[n] && tr == Instant(d, walk, n)
    requires n == 0 ==> x == SysInfo(d.minInstant, d.maxInstant, d.save, d.abbrev)
    ensures y == Interval(d, walk, if tx < tr then n else n + 1)
  {
    hide NextPair, PreviousPair, ToSys, RunAt, NameRun;
    WalkIsInTable(d.rules, lo, hi, walk);
    WalkEnds(d.rules, lo, hi, walk, n);
    if tx < tr && p == first {
      return x.(end := tr);
    }
    if tx < tr {
      WalkStep(d.rules, lo, hi, walk, n - 1);
      var prev := FindPreviousRule(d.rules, p.rule, p.year, lo, hi);
      y := FromTransition(d, first, last, prev.value, lo, hi, walk, n - 1);
    } else {
      y := FromTransition(d, first, last, p, lo, hi, walk, n);
    }
  }

  /** `find_rule`. The answer is one of the period's intervals: the one that ends with the
      transition the loop stops at, or begins with it. A period without a first rule has no
      transition at all. */
  method FindRule(d: Period, firstRule: Option<Pair>, last: Pair, at: MonthDayTime, year: int,
                  ghost lo: nat, ghost hi: nat, ghost walk: seq<Pair>)
      returns (x: SysInfo, ghost n: nat)
    requires firstRule.Some? ==>
      Transitions(d.rules, lo, hi, walk) && firstRule.value == walk[0] && last == walk[|walk| - 1]
    ensures firstRule.None? ==> x == SysInfo(d.minInstant, d.maxInstant, d.save, d.abbrev)
    ensures firstRule.Some? ==> StopsAt(d, walk, at, year, n) && x == Interval(d, walk,
      if Asked(d, at, year, SaveAt(d, walk, n)) < Instant(d, walk, n) then n else n + 1)
    ensures firstRule.Some? ==> exists i | 0 <= i <= |walk| :: Says(d, walk, i, x)
  {
    hide NextPair, ToSys, RunAt, NameRun, Interval, Says;
    n := 0;
    x := SysInfo(d.minInstant, d.maxInstant, d.save, d.abbrev);
    if firstRule.None? { return; }
    WalkIsInTable(d.rules, lo, hi, walk);
    var first := firstRule.value;
    var p := first;
    while true
      invariant n < |walk| && p == walk[n] && x.save == SaveAt(d, walk, n)
      invariant n == 0 ==> x == SysInfo(d.minInstant, d.maxInstant, d.save, d.abbrev)
      invariant forall i | 0 <= i < n :: Asked(d, at, year, SaveAt(d, walk, i)) > Instant(d, walk, i)
      decreases |walk| - n
    {
      var tr := ToSys(d.cal, d.rules[p.rule].at, p.year, d.offset, x.save);
      var tx := ToSys(d.cal, at, year, d.offset, x.save);
      WalkEnds(d.rules, lo, hi, walk, n);
      if tx <= tr || p == last {
        x := Conclude(d, first, last, p, x, tx, tr, lo, hi, walk, n);
        IntervalSays(d, walk, if tx < tr then n else n + 1, x);
        return;
      }
      x := x.(save := d.rules[p.rule].save);
      var next := FindNextRuleByName(d.rules, p.rule, p.year, lo, hi);
      assert next == Some(walk[n + 1]);
      p := next.value;
      n := n + 1;
    }
  }

  /** At every instant of the time line, there is one thing in force. */
  lemma HoldsOnce(d: Period, walk: seq<Pair>, t: int) returns (n: nat)
    requires Increasing(d, walk) && d.minInstant <= t < d.maxInstant
    ensures n <= |walk| && Interval(d, walk, n).begin <= t < Interval(d, walk, n).end
    ensures forall x :: HoldsAt(d, walk, x, t) <==> x == Interval(d, walk, n)
  {
    n := IntervalsTile(d, walk, t);
    hide Says, Interval, Increasing, Instant;
    IntervalSays(d, walk, n, Interval(d, walk, n));
    forall x | HoldsAt(d, walk, x, t)
      ensures x == Interval(d, walk, n)
    {
      var i :| 0 <= i <= |walk| && Says(d, walk, i, x);
      IntervalSays(d, walk, i, x);
    }
  }

  /** So what `find_rule` answers for an instant given in UTC is what is in force at it. */
  lemma FindRuleSaysUtc(d: Period, walk: seq<Pair>, at: MonthDayTime, year: int, n: nat, x: SysInfo)
    requires Increasing(d, walk) && at.zone.Utc? && StopsAt(d, walk, at, year, n)
    requires d.minInstant <= TimePoint(d.cal, at, year) < d.maxInstant
    requires x == Interval(d, walk, if Asked(d, at, year, SaveAt(d, walk, n)) < Instant(d, walk, n) then n else n + 1)
    ensures HoldsAt(d, walk, x, TimePoint(d.cal, at, year))
    ensures forall y | HoldsAt(d, walk, y, TimePoint(d.cal, at, year)) :: y == x
  {
    hide Instant, Interval, SaveAt, TimePoint, Asked, HoldsAt;
    FindRuleAnswersUtc(d, walk, at, year, n);
    var m := HoldsOnce(d, walk, TimePoint(d.cal, at, year));
  }

  /** For an instant given in UTC, the answer of `find_rule` is the one interval that holds it. */
  lemma FindRuleAnswersUtc(d: Period, walk: seq<Pair>, at: MonthDayTime, year: int, n: nat)
    requires Increasing(d, walk) && at.zone.Utc? && StopsAt(d, walk, at, year, n)
    requires d.minInstant <= TimePoint(d.cal, at, year) < d.maxInstant
    ensures var t := TimePoint(d.cal, at, year);
      var x := Interval(d, walk, if Asked(d, at, year, SaveAt(d, walk, n)) < Instant(d, walk, n) then n else n + 1);
      && x.begin <= t < x.end
      && forall i | 0 <= i <= |walk| && Interval(d, walk, i).begin <= t < Interval(d, walk, i).end ::
           Interval(d, walk, i) == x
  {
    var t := TimePoint(d.cal, at, year);
    var m := IntervalsTile(d, walk, t);
    if n + 1 < |walk| { IncreasingFar(d, walk, n, n + 1); }
  }

  /** Between any two pairs of a run there is a walk, so the periods above exist. */
  lemma {:induction false} TransitionsExist(rules: seq<Rule>, lo: nat, hi: nat, first: Pair, last: Pair) returns (walk: seq<Pair>)
    requires NameRun(rules, lo, hi) && RunAt(rules, lo, hi)
    requires InForce(rules, lo, hi, first) && InForce(rules, lo, hi, last)
    requires first == last || Before(first, last)
    ensures Transitions(rules, lo, hi, walk) && walk[0] == first && walk[|walk| - 1] == last
    decreases rules[hi - 1].end - first.year, hi - first.rule
  {
    if first == last {
      walk := [first];
    } else {
      NextPairIsNext(rules, lo, hi, first);
      var next := NextPair(rules, lo, hi, first).value;
      YearsBounded(rules, lo, hi, first);
      YearsBounded(rules, lo, hi, next);
      var rest := TransitionsExist(rules, lo, hi, next, last);
      walk := [first] + rest;
    }
  }
}
