/** The Gregorian calendar is lawful, and a rule whose transition `split_overlaps` moves by a year. */
module TzGregorian {
  import opened TzCalendar
  import opened TzRule
  import opened TzPieces
  import opened TzTable
  import opened TzRuleTable

  // ---- days, months and years ----

  predicate IsLeap(year: int) {
    year % 4 == 0 && (year % 100 != 0 || year % 400 == 0)
  }

  /** The number of the first day of a year; day 0 is the first day of 1970. */
  function YearStart(year: int): int {
    365 * year + (year - 1) / 4 - (year - 1) / 100 + (year - 1) / 400 - 719527
  }

  /** The days of a year before a month. */
  function MonthStart(month: int, leap: bool): int {
    var february := if leap then 29 else 28;
    match month
    case 1 => 0
    case 2 => 31
    case 3 => 31 + february
    case 4 => 62 + february
    case 5 => 92 + february
    case 6 => 123 + february
    case 7 => 153 + february
    case 8 => 184 + february
    case 9 => 215 + february
    case 10 => 245 + february
    case 11 => 276 + february
    case 12 => 306 + february
    case _ => 337 + february
  }

  function Day(year: int, month: int, date: int): int {
    YearStart(year) + MonthStart(month, IsLeap(year)) + date - 1
  }

  lemma NextYear(year: int)
    ensures YearStart(year + 1) == YearStart(year) + if IsLeap(year) then 366 else 365
  {
    Quarters(year);
    Centuries(year);
    FourCenturies(year);
    if year % 400 == 0 { FourHundreds(year / 400); }
    if year % 100 == 0 { Hundreds(year / 100); }
  }

  lemma Quarters(year: int)
    ensures year / 4 == (year - 1) / 4 + if year % 4 == 0 then 1 else 0
  {
  }

  lemma Centuries(year: int)
    ensures year / 100 == (year - 1) / 100 + if year % 100 == 0 then 1 else 0
  {
  }

  lemma FourCenturies(year: int)
    ensures year / 400 == (year - 1) / 400 + if year % 400 == 0 then 1 else 0
  {
  }

  lemma FourHundreds(k: int)
    ensures (400 * k) % 100 == 0
  {
    assert 400 * k == 100 * (4 * k);
  }

  lemma Hundreds(k: int)
    ensures (100 * k) % 4 == 0
  {
    assert 100 * k == 4 * (25 * k);
  }

  lemma {:induction false} YearsInOrder(a: int, b: int)
    requires a < b
    ensures YearStart(a + 1) <= YearStart(b)
    decreases b - a
  {
    if a + 1 < b {
      YearsInOrder(a, b - 1);
      NextYear(b - 1);
    }
  }

  /** The year that a day is in, searched for from a first guess. */
  function YearOf(n: int, guess: int): (year: int)
    ensures YearStart(year) <= n < YearStart(year + 1)
    decreases n < YearStart(guess), if n < YearStart(guess) then YearStart(guess) - n else n - YearStart(guess)
  {
    NextYear(guess);
    NextYear(guess - 1);
    if n < YearStart(guess) then YearOf(n, guess - 1)
    else if n >= YearStart(guess + 1) then YearOf(n, guess + 1)
    else guess
  }

  lemma YearOfIs(n: int, guess: int, year: int)
    requires YearStart(year) <= n < YearStart(year + 1)
    ensures YearOf(n, guess) == year
  {
    var found := YearOf(n, guess);
    if found < year {
      YearsInOrder(found, year);
    } else if year < found {
      YearsInOrder(year, found);
    }
  }

  /** The month that the day of a year is in. */
  function MonthOf(day: int, leap: bool): (month: int)
    requires 0 <= day < if leap then 366 else 365
    ensures 1 <= month <= 12 && MonthStart(month, leap) <= day < MonthStart(month + 1, leap)
  {
    if day < MonthStart(2, leap) then 1
    else if day < MonthStart(3, leap) then 2
    else if day < MonthStart(4, leap) then 3
    else if day < MonthStart(5, leap) then 4
    else if day < MonthStart(6, leap) then 5
    else if day < MonthStart(7, leap) then 6
    else if day < MonthStart(8, leap) then 7
    else if day < MonthStart(9, leap) then 8
    else if day < MonthStart(10, leap) then 9
    else if day < MonthStart(11, leap) then 10
    else if day < MonthStart(12, leap) then 11
    else 12
  }

  function Civil(n: int): (int, int, int) {
    var year := YearOf(n, 1970 + n / 366);
    NextYear(year);
    var day, leap := n - YearStart(year), IsLeap(year);
    var month := MonthOf(day, leap);
    (year, month, day - MonthStart(month, leap) + 1)
  }

  function Gregorian(): Calendar {
    Calendar((year, month, date) => Day(year, month, date),
             (year, month) => Day(year, month + 1, 0),
             n => Civil(n))
  }

  /** A month and day of one year, a 29th of February too, is inside any other year. */
  lemma InsideYear(month: int, date: int, leap: bool, other: bool)
    requires 1 <= month <= 12 && 1 <= date <= MonthStart(month + 1, leap) - MonthStart(month, leap)
    ensures 0 <= MonthStart(month, other) + date - 1 < if other then 366 else 365
  {
  }

  lemma RedatedIsInYear(n: int, year: int)
    ensures Civil(Redated(Gregorian(), n, year)).0 == year
  {
    CivilIsDate(n);
    hide YearStart, MonthStart, YearOf, MonthOf, Civil;
    var d := Civil(n);
    NextYear(year);
    InsideYear(d.1, d.2, IsLeap(d.0), IsLeap(year));
    var m := Day(year, d.1, d.2);
    CivilYear(m, year);
  }

  lemma CivilYear(n: int, year: int)
    requires YearStart(year) <= n < YearStart(year + 1)
    ensures Civil(n).0 == year
  {
    hide YearStart, MonthStart, MonthOf;
    YearOfIs(n, 1970 + n / 366, year);
  }

  lemma CivilIsDate(n: int)
    ensures var d := Civil(n); var leap := IsLeap(d.0);
      && 1 <= d.1 <= 12 && 1 <= d.2 <= MonthStart(d.1 + 1, leap) - MonthStart(d.1, leap)
      && Day(d.0, d.1, d.2) == n
  {
    hide YearStart, MonthStart, YearOf, MonthOf, IsLeap;
    NextYear(Civil(n).0);
  }

  lemma GregorianIsLawful()
    ensures Lawful(Gregorian())
  {
    hide YearStart, MonthStart, Civil;
    var cal := Gregorian();
    forall n
      ensures Redated(cal, n, cal.civil(n).0) == n
    {
      CivilIsDate(n);
    }
    forall n, year
      ensures cal.civil(Redated(cal, n, year)).0 == year
    {
      RedatedIsInYear(n, year);
    }
  }

  // ---- a transition that moves ----

  /** On the first Sunday on or after 29 December, in 2003 only: that is 4 January 2004. */
  function MovedRule(): Rule {
    Rule(0, 2003, 2003, MonthDayTime(WeekdayOnOrAfter, 12, 29, 0, 7200, Local), 3600, "S")
  }

  /** It is rewritten to 4 January, of 2003: its transition is lost. */
  lemma MovedRuleMoves()
    ensures var cal, r := Gregorian(), MovedRule();
      && cal.civil(ToDays(cal, r.at, 2003)) == (2004, 1, 4)
      && cal.civil(ToDays(cal, CanonicalRule(cal, r).at, 2003)) == (2003, 1, 4)
      && Total([r], Fires(cal, EventOf(cal, r, 2003), 2003)) == 1
      && Total(CanonicalRun(cal, [r]), Fires(cal, EventOf(cal, r, 2003), 2003)) == 0
      && !LeavesOwnDays(cal, [r], 2003, 2003)
  {
    var cal, r := Gregorian(), MovedRule();
    assert Day(2003, 12, 29) == 12415 && Day(2003, 1, 4) == 12056;
    assert ToDays(cal, r.at, 2003) == 12421;
    YearOfIs(12421, 1970 + 12421 / 366, 2004);
    YearOfIs(12056, 1970 + 12056 / 366, 2003);
    assert Civil(12421) == (2004, 1, 4) && Civil(12056) == (2003, 1, 4);
    var c := CanonicalRule(cal, r);
    assert ToDays(cal, c.at, 2003) == 12056;
    assert [r][1..] == [] && CanonicalRun(cal, [r]) == [c] && [c][1..] == [];
    assert r in [r];
    assert LeavesSingle([r], r, 2003);
  }

  lemma MovedTable()
    ensures Sorted([MovedRule()]) && NonEmptyRanges([MovedRule()])
  {
  }

  /** So `split_overlaps` on a table of that rule alone does not keep what fires. */
  method SplitMovedRule() returns (t: RuleTable)
    ensures fresh(t) && !SameEvents(Gregorian(), t.rules, [MovedRule()], 2003, 2003)
  {
    MovedTable();
    hide MovedRule, Gregorian, SameEvents, LeavesOwnDays, Sorted, NonEmptyRanges, CutOnly, CanonicalTable;
    t := new RuleTable([MovedRule()]);
    GregorianIsLawful();
    MovedRuleMoves();
    SplitOverlaps(t, Gregorian(), 2003, 2003);
  }
}
