/** Recurring time-zone rules: the value types behind the rule table, their sort key,
    and weights that are additive over year ranges. */
module TzRule {

  import opened Sequences
  import opened TzCalendar

  /** A rule fires once in every year from `start` to `end`, both included.
      `name` stands for the rule's name by its rank in string order. */
  datatype Rule = Rule(name: nat, start: int, end: int, at: MonthDayTime, save: int, abbrev: string)

  /** Everything of a rule but its years. */
  datatype Payload = Payload(name: nat, at: MonthDayTime, save: int, abbrev: string)

  function PayloadOf(r: Rule): Payload {
    Payload(r.name, r.at, r.save, r.abbrev)
  }

  /** The order of rules: name, first year, month, last year, day. */
  predicate Less(x: Rule, y: Rule) {
    if x.name != y.name then x.name < y.name
    else if x.start != y.start then x.start < y.start
    else if x.at.month != y.at.month then x.at.month < y.at.month
    else if x.end != y.end then x.end < y.end
    else x.at.Day() < y.at.Day()
  }

  /** The first rule's day does not come after the second one's, by month and day of the month. */
  predicate InYearOrder(x: Rule, y: Rule) {
    x.at.month < y.at.month || (x.at.month == y.at.month && x.at.Day() <= y.at.Day())
  }

  /** Rules that start in the same year are in order of their days. */
  ghost predicate DaysInOrder(s: seq<Rule>) {
    forall a, b | 0 <= a < b < |s| && s[a].start == s[b].start :: InYearOrder(s[a], s[b])
  }

  ghost predicate Sorted(s: seq<Rule>) {
    forall a, b | 0 <= a < b < |s| :: !Less(s[b], s[a])
  }

  /** The last weekday of a month counts as its latest day. */
  lemma LastWeekdayIsLate(x: Rule, y: Rule)
    requires x.at.month == y.at.month && x.at.date <= 31 && y.at.form.LastWeekday?
    ensures InYearOrder(x, y) && (InYearOrder(y, x) <==> x.at.form.LastWeekday? || x.at.date == 31)
  {
  }

  /** In a sorted list names do not fall; for one name first years do not, for one first year months,
      for one month last years, and for one last year days. */
  lemma SortedBy(s: seq<Rule>, a: nat, b: nat)
    requires Sorted(s) && a < b < |s|
    ensures s[a].name <= s[b].name
    ensures s[a].name == s[b].name ==> s[a].start <= s[b].start
    ensures s[a].name == s[b].name && s[a].start == s[b].start ==> s[a].at.month <= s[b].at.month
    ensures s[a].name == s[b].name && s[a].start == s[b].start && s[a].at.month == s[b].at.month ==>
      s[a].end < s[b].end || (s[a].end == s[b].end && s[a].at.Day() <= s[b].at.Day())
  {
    assert !Less(s[b], s[a]);
  }

  ghost predicate SameName(s: seq<Rule>, name: nat) {
    forall r | r in s :: r.name == name
  }

  ghost predicate NonEmptyRanges(s: seq<Rule>) {
    forall r | r in s :: r.start <= r.end
  }

  ghost predicate Identical(x: Rule, y: Rule) {
    x.start == y.start && x.end == y.end
  }

  /** A list in canonical form: ranges are in order of first year, and any two of them
      are either identical or disjoint. */
  ghost predicate Canonical(s: seq<Rule>) {
    forall a, b | 0 <= a < b < |s| :: Identical(s[a], s[b]) || s[a].end < s[b].start
  }

  // ---- weights ----

  /** A transition: the day and the time of day at which a rule fires, as read on its own clock, and
      what it sets. */
  datatype Event = Event(name: nat, day: int, time: int, zone: Zone, save: int, abbrev: string)

  function EventOf(cal: Calendar, r: Rule, year: int): Event {
    Event(r.name, ToDays(cal, r.at, year), r.at.time, r.at.zone, r.save, r.abbrev)
  }

  /** Quantities a rule contributes to: the years it covers, being in force with a given payload
      in a given year, or firing a given transition in a given year. */
  datatype Weight = Years | ActiveIn(payload: Payload, year: int) | Fires(cal: Calendar, event: Event, year: int)

  ghost function WeightOf(r: Rule, w: Weight): int {
    match w
    case Years => r.end - r.start + 1
    case ActiveIn(p, year) => if PayloadOf(r) == p && r.start <= year <= r.end then 1 else 0
    case Fires(cal, event, year) => if EventOf(cal, r, year) == event && r.start <= year <= r.end then 1 else 0
  }

  ghost function Total(s: seq<Rule>, w: Weight): int {
    if s == [] then 0 else WeightOf(s[0], w) + Total(s[1..], w)
  }

  ghost predicate SameTotals(a: seq<Rule>, b: seq<Rule>) {
    forall w: Weight :: Total(a, w) == Total(b, w)
  }

  ghost function YearsCovered(s: seq<Rule>): int {
    Total(s, Years)
  }

  /** How many rules with payload `p` are in force in `year`. */
  ghost function ActiveCount(s: seq<Rule>, p: Payload, year: int): int {
    Total(s, ActiveIn(p, year))
  }

  /** A rule in force in a single year has its day rewritten as a plain date. */
  function CanonicalRule(cal: Calendar, r: Rule): Rule {
    if r.start == r.end then r.(at := Canonicalize(cal, r.at, r.start)) else r
  }

  function CanonicalRun(cal: Calendar, s: seq<Rule>): (t: seq<Rule>)
    ensures |t| == |s| && forall j | 0 <= j < |s| :: t[j] == CanonicalRule(cal, s[j])
  {
    seq(|s|, j requires 0 <= j < |s| => CanonicalRule(cal, s[j]))
  }

  lemma {:induction false} TotalAppend(a: seq<Rule>, b: seq<Rule>, w: Weight)
    ensures Total(a + b, w) == Total(a, w) + Total(b, w)
  {
    if a == [] {
      assert a + b == b;
    } else {
      assert (a + b)[1..] == a[1..] + b;
      TotalAppend(a[1..], b, w);
    }
  }

  lemma TotalWithout(s: seq<Rule>, j: nat, w: Weight)
    requires j < |s|
    ensures Total(s, w) == WeightOf(s[j], w) + Total(Without(s, j), w)
  {
    hide WeightOf;
    assert s == s[..j] + s[j..];
    TotalAppend(s[..j], s[j..], w);
    assert s[j..][1..] == s[j + 1..];
    TotalAppend(s[..j], s[j + 1..], w);
  }

  lemma {:induction false} TotalPermutation(a: seq<Rule>, b: seq<Rule>, w: Weight)
    requires multiset(a) == multiset(b)
    ensures Total(a, w) == Total(b, w)
  {
    hide WeightOf;
    if a == [] {
      SameMembers(a, b);
    } else {
      var j := PermutationStep(a, b);
      TotalWithout(b, j, w);
      TotalPermutation(a[1..], Without(b, j), w);
    }
  }

  /** Every rule covers at least one year, so there are never more rules than years covered. */
  lemma {:induction false} CountWithinYears(s: seq<Rule>)
    requires NonEmptyRanges(s)
    ensures |s| <= YearsCovered(s)
  {
    if s != [] {
      assert s[0] in s;
      CountWithinYears(s[1..]);
    }
  }

  // ---- where ranges begin and end ----

  /** A range of the list's rules of this name begins in `year`, or ended in the year before. */
  ghost predicate IsCut(s: seq<Rule>, name: nat, year: int) {
    exists r :: r in s && r.name == name && (r.start == year || r.end + 1 == year)
  }

  ghost predicate SameCuts(a: seq<Rule>, b: seq<Rule>) {
    forall name: nat, year: int :: IsCut(a, name, year) <==> IsCut(b, name, year)
  }

  /** The lists agree on every additive quantity, and their ranges begin and end in the same years. */
  ghost predicate SameCover(a: seq<Rule>, b: seq<Rule>) {
    SameTotals(a, b) && SameCuts(a, b)
  }

  lemma CutsAppend(a: seq<Rule>, b: seq<Rule>, name: nat, year: int)
    ensures IsCut(a + b, name, year) <==> IsCut(a, name, year) || IsCut(b, name, year)
  {
    if r :| r in a && r.name == name && (r.start == year || r.end + 1 == year) {
      assert r in a + b;
    }
    if r :| r in b && r.name == name && (r.start == year || r.end + 1 == year) {
      assert r in a + b;
    }
  }

  lemma CoverPermutation(a: seq<Rule>, b: seq<Rule>)
    requires multiset(a) == multiset(b)
    ensures SameCover(a, b)
  {
    SameMembers(a, b);
    forall w: Weight
      ensures Total(a, w) == Total(b, w)
    {
      TotalPermutation(a, b, w);
    }
  }

  lemma CoverAfter(front: seq<Rule>, a: seq<Rule>, b: seq<Rule>)
    requires SameCover(b, a)
    ensures SameCover(front + b, front + a)
  {
    forall w: Weight
      ensures Total(front + b, w) == Total(front + a, w)
    {
      TotalAppend(front, a, w);
      TotalAppend(front, b, w);
    }
    forall name: nat, year: int
      ensures IsCut(front + b, name, year) <==> IsCut(front + a, name, year)
    {
      CutsAppend(front, a, name, year);
      CutsAppend(front, b, name, year);
    }
  }
}
