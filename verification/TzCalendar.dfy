/** Days named by a rule, over any civil calendar: day numbers, and the rewriting of a day form
    into the plain date it names in one year. */
module TzCalendar {
  /** Which clock a wall time is read on. */
  datatype Zone = Utc | Local | Standard

  /** How a day inside a year is named. */
  datatype DateForm = MonthDay | LastWeekday | WeekdayOnOrBefore | WeekdayOnOrAfter

  /** `date` is the day of the month, unused by LastWeekday; `weekday` counts from Sunday = 0;
      `time` is the time of day in seconds. */
  datatype MonthDayTime = MonthDayTime(form: DateForm, month: int, date: int, weekday: int, time: int, zone: Zone) {

    /** The day used as a sort key: a last-weekday form counts as day 31. */
    function Day(): int {
      if form.LastWeekday? then 31 else date
    }
  }

  /** A civil calendar: the day number of a year, month and day; the number of a month's last
      day; and the year, month and day of a day number. */
  datatype Calendar = Calendar(day: (int, int, int) -> int, lastDay: (int, int) -> int, civil: int -> (int, int, int))

  /** The day, in `year`, of the month and day that day `n` falls on. */
  function Redated(cal: Calendar, n: int, year: int): int {
    var date := cal.civil(n);
    cal.day(year, date.1, date.2)
  }

  /** `civil` inverts `day`, and the same month and day in another year fall into that year. */
  ghost predicate Lawful(cal: Calendar) {
    && (forall n :: Redated(cal, n, cal.civil(n).0) == n)
    && (forall n, year :: cal.civil(Redated(cal, n, year)).0 == year)
  }

  function Weekday(n: int): int {
    (n + 4) % 7
  }

  /** A rule's day in a year. The weekday of a day number is `(n + 4) % 7`, day 0 being a Thursday. */
  function ToDays(cal: Calendar, at: MonthDayTime, year: int): int {
    match at.form
    case MonthDay => cal.day(year, at.month, at.date)
    case LastWeekday =>
      var last := cal.lastDay(year, at.month);
      last - (Weekday(last) - at.weekday) % 7
    case WeekdayOnOrBefore =>
      var x := cal.day(year, at.month, at.date);
      x - (Weekday(x) - at.weekday) % 7
    case WeekdayOnOrAfter =>
      var x := cal.day(year, at.month, at.date);
      x + (at.weekday - Weekday(x)) % 7
  }

  /** Weekdays follow each other; day 0 is a Thursday. */
  lemma WeekdaysFollow(n: int)
    ensures Weekday(0) == 4 && 0 <= Weekday(n) < 7
    ensures Weekday(n + 1) == if Weekday(n) == 6 then 0 else Weekday(n) + 1
  {
  }

  /** The day that is named: a day of the month; or the asked weekday among the seven days up to the
      last day of the month, or up to or from a day of the month. */
  lemma NamedDay(cal: Calendar, at: MonthDayTime, year: int)
    requires 0 <= at.weekday < 7
    ensures var n := ToDays(cal, at, year);
      var anchor := if at.form.LastWeekday? then cal.lastDay(year, at.month) else cal.day(year, at.month, at.date);
      && (at.form.MonthDay? ==> n == anchor)
      && (!at.form.MonthDay? ==> Weekday(n) == at.weekday)
      && (at.form.LastWeekday? || at.form.WeekdayOnOrBefore? ==> anchor - 7 < n <= anchor)
      && (at.form.WeekdayOnOrAfter? ==> anchor <= n < anchor + 7)
  {
    var anchor := if at.form.LastWeekday? then cal.lastDay(year, at.month) else cal.day(year, at.month, at.date);
    BackToWeekday(anchor, at.weekday);
    OnToWeekday(anchor, at.weekday);
  }

  lemma BackToWeekday(n: int, weekday: int)
    requires 0 <= weekday < 7
    ensures Weekday(n - (Weekday(n) - weekday) % 7) == weekday
  {
  }

  lemma OnToWeekday(n: int, weekday: int)
    requires 0 <= weekday < 7
    ensures Weekday(n + (weekday - Weekday(n)) % 7) == weekday
  {
  }

  /** The instant named in a year, in seconds, as read on the clock of `at.zone`. */
  function TimePoint(cal: Calendar, at: MonthDayTime, year: int): int {
    ToDays(cal, at, year) * 86400 + at.time
  }

  /** The same instant in UTC, given the offset from UTC and the saving in force. */
  function ToSys(cal: Calendar, at: MonthDayTime, year: int, offset: int, save: int): int {
    match at.zone
    case Utc => TimePoint(cal, at, year)
    case Standard => TimePoint(cal, at, year) - offset
    case Local => TimePoint(cal, at, year) - (offset + save)
  }

  /** The plain date that a day form names in `year`; only its month and day are kept. */
  function Canonicalize(cal: Calendar, at: MonthDayTime, year: int): MonthDayTime {
    if at.form.MonthDay? then at
    else
      var date := cal.civil(ToDays(cal, at, year));
      at.(form := MonthDay, month := date.1, date := date.2)
  }

  /** The form is a plain date, or names a day of the year it is asked for. */
  predicate NamesOwnYear(cal: Calendar, at: MonthDayTime, year: int) {
    at.form.MonthDay? || cal.civil(ToDays(cal, at, year)).0 == year
  }

  /** A rewritten form names the same day exactly when that day falls in the year it was
      rewritten for: the year is dropped, so a form that reaches back into December or on
      into January moves by a year. Either way the day it names is in its own year. */
  lemma CanonicalizeNamesSameDay(cal: Calendar, at: MonthDayTime, year: int)
    requires Lawful(cal)
    ensures ToDays(cal, Canonicalize(cal, at, year), year) == ToDays(cal, at, year) <==> NamesOwnYear(cal, at, year)
    ensures !at.form.MonthDay? ==> cal.civil(ToDays(cal, Canonicalize(cal, at, year), year)).0 == year
  {
    var n := ToDays(cal, at, year);
    assert Redated(cal, n, cal.civil(n).0) == n;
    assert cal.civil(Redated(cal, n, year)).0 == year;
  }
}
