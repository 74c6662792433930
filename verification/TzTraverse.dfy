/** Walking the rules of one name in time order, as an implicit sequence of (rule, year) pairs. */
module TzTraverse {
  import opened TzCalendar
  import opened TzRule
  import opened TzRuleTable

  datatype Option<T> = None | Some(value: T)

  /** A rule, by its position in the table, and a year in which it is in force. */
  datatype Pair = Pair(rule: nat, year: int)

  /** The rules from lo to hi are a run in canonical form. */
  ghost predicate RunAt(rules: seq<Rule>, lo: nat, hi: nat) {
    && lo < hi <= |rules|
    && (forall a | lo <= a < hi :: rules[a].start <= rules[a].end)
    && (forall a, b | lo <= a < b < hi :: Identical(rules[a], rules[b]) || rules[a].end < rules[b].start)
  }

  ghost predicate InForce(rules: seq<Rule>, lo: nat, hi: nat, p: Pair)
    requires lo <= hi <= |rules|
  {
    lo <= p.rule < hi && rules[p.rule].start <= p.year <= rules[p.rule].end
  }

  /** Time order: by year, and within a year by position. */
  predicate Before(p: Pair, q: Pair) {
    p.year < q.year || (p.year == q.year && p.rule < q.rule)
  }

  /** `q` is the least pair in force after `p`. */
  ghost predicate IsNext(rules: seq<Rule>, lo: nat, hi: nat, p: Pair, q: Pair)
    requires lo <= hi <= |rules|
  {
    && InForce(rules, lo, hi, q) && Before(p, q)
    && forall x | InForce(rules, lo, hi, x) && Before(p, x) :: x == q || Before(q, x)
  }

  /** The first rule at or before r, and not before lo, of an unbroken stretch starting in the same year. */
  function FirstOf(rules: seq<Rule>, lo: nat, r: nat): nat
    requires lo <= r < |rules|
    decreases r
  {
    if r > lo && rules[r].start == rules[r - 1].start then FirstOf(rules, lo, r - 1) else r
  }

  function LastOf(rules: seq<Rule>, hi: nat, r: nat): nat
    requires r < hi <= |rules|
    decreases hi - r
  {
    if r < hi - 1 && rules[r].start == rules[r + 1].start then LastOf(rules, hi, r + 1) else r
  }

  lemma {:induction false} FirstOfStretch(rules: seq<Rule>, lo: nat, hi: nat, r: nat)
    requires RunAt(rules, lo, hi) && lo <= r < hi
    ensures lo <= FirstOf(rules, lo, r) <= r && Identical(rules[FirstOf(rules, lo, r)], rules[r])
    ensures forall a | lo <= a < FirstOf(rules, lo, r) :: rules[a].end < rules[r].start
    decreases r
  {
    if r > lo && rules[r].start == rules[r - 1].start {
      FirstOfStretch(rules, lo, hi, r - 1);
    } else if r > lo {
      forall a | lo <= a < r
        ensures rules[a].end < rules[r].start
      {
        assert a < r - 1 ==> Identical(rules[a], rules[r - 1]) || rules[a].end < rules[r - 1].start;
      }
    }
  }

  lemma {:induction false} LastOfStretch(rules: seq<Rule>, lo: nat, hi: nat, r: nat)
    requires RunAt(rules, lo, hi) && lo <= r < hi
    ensures r <= LastOf(rules, hi, r) < hi && Identical(rules[LastOf(rules, hi, r)], rules[r])
    ensures forall b | LastOf(rules, hi, r) < b < hi :: rules[r].end < rules[b].start
    decreases hi - r
  {
    if r < hi - 1 && rules[r].start == rules[r + 1].start {
      LastOfStretch(rules, lo, hi, r + 1);
    } else if r < hi - 1 {
      forall b | r < b < hi
        ensures rules[r].end < rules[b].start
      {
        assert b > r + 1 ==> Identical(rules[r + 1], rules[b]) || rules[r + 1].end < rules[b].start;
      }
    }
  }

  /** The next pair, as `find_next_rule` computes it from the rules around `p.rule`. */
  function NextPair(rules: seq<Rule>, lo: nat, hi: nat, p: Pair): Option<Pair>
    requires lo <= p.rule < hi <= |rules|
  {
    var r, y := p.rule, p.year;
    if y == rules[r].end then
      if r == hi - 1 then None
      else if y == rules[r + 1].end then Some(Pair(r + 1, y))
      else Some(Pair(r + 1, rules[r + 1].start))
    else if r == hi - 1 || rules[r].end < rules[r + 1].end then Some(Pair(FirstOf(rules, lo, r), y + 1))
    else Some(Pair(r + 1, y))
  }

  /** The previous pair, as `find_previous_rule` computes it. */
  function PreviousPair(rules: seq<Rule>, lo: nat, hi: nat, p: Pair): Option<Pair>
    requires lo <= p.rule < hi <= |rules|
  {
    var r, y := p.rule, p.year;
    if y == rules[r].start then
      if r == lo then None
      else if y == rules[r - 1].start then Some(Pair(r - 1, y))
      else Some(Pair(r - 1, rules[r - 1].end))
    else if r == lo || rules[r - 1].start < rules[r].start then Some(Pair(LastOf(rules, hi, r), y - 1))
    else Some(Pair(r - 1, y))
  }

  /** On a canonical run the local rule finds the least later pair, or there is none. */
  lemma NextPairIsNext(rules: seq<Rule>, lo: nat, hi: nat, p: Pair)
    requires RunAt(rules, lo, hi) && InForce(rules, lo, hi, p)
    ensures match NextPair(rules, lo, hi, p)
            case Some(q) => IsNext(rules, lo, hi, p, q)
            case None => forall x | InForce(rules, lo, hi, x) :: x == p || Before(x, p)
  {
    FirstOfStretch(rules, lo, hi, p.rule);
    LastOfStretch(rules, lo, hi, p.rule);
    hide FirstOf, LastOf;
    var next := NextPair(rules, lo, hi, p);
    forall x | InForce(rules, lo, hi, x) && Before(p, x)
      ensures next.Some? && (x == next.value || Before(next.value, x))
    {
      if x.rule > p.rule {
        assert p.rule + 1 < x.rule ==>
          Identical(rules[p.rule + 1], rules[x.rule]) || rules[p.rule + 1].end < rules[x.rule].start;
      }
    }
  }

  /** On a canonical run the local rule finds the greatest earlier pair, or there is none. */
  lemma PreviousPairIsPrevious(rules: seq<Rule>, lo: nat, hi: nat, q: Pair)
    requires RunAt(rules, lo, hi) && InForce(rules, lo, hi, q)
    ensures match PreviousPair(rules, lo, hi, q)
            case Some(p) => InForce(rules, lo, hi, p) && IsNext(rules, lo, hi, p, q)
            case None => forall x | InForce(rules, lo, hi, x) :: x == q || Before(q, x)
  {
    FirstOfStretch(rules, lo, hi, q.rule);
    LastOfStretch(rules, lo, hi, q.rule);
    hide FirstOf, LastOf;
    var prev := PreviousPair(rules, lo, hi, q);
    forall x | InForce(rules, lo, hi, x) && Before(x, q)
      ensures prev.Some? && (x == prev.value || Before(x, prev.value))
    {
      if x.rule < q.rule {
        assert x.rule < q.rule - 1 ==>
          Identical(rules[x.rule], rules[q.rule - 1]) || rules[x.rule].end < rules[q.rule - 1].start;
      }
    }
  }

  /** `find_previous_rule` and `find_next_rule` undo each other wherever both are defined. */
  lemma PreviousInvertsNext(rules: seq<Rule>, lo: nat, hi: nat, p: Pair, q: Pair)
    requires RunAt(rules, lo, hi) && InForce(rules, lo, hi, p) && InForce(rules, lo, hi, q)
    ensures NextPair(rules, lo, hi, p) == Some(q) <==> PreviousPair(rules, lo, hi, q) == Some(p)
  {
    NextPairIsNext(rules, lo, hi, p);
    PreviousPairIsPrevious(rules, lo, hi, q);
  }

  // ---- the whole walk ----

  lemma YearsBounded(rules: seq<Rule>, lo: nat, hi: nat, p: Pair)
    requires RunAt(rules, lo, hi) && InForce(rules, lo, hi, p)
    ensures p.year <= rules[hi - 1].end
  {
    assert p.rule < hi - 1 ==>
      Identical(rules[p.rule], rules[hi - 1]) || rules[p.rule].end < rules[hi - 1].start;
  }

  /** The pairs that repeated calls of `find_next_rule` reach from `p`. */
  ghost function Walk(rules: seq<Rule>, lo: nat, hi: nat, p: Pair): seq<Pair>
    requires RunAt(rules, lo, hi) && InForce(rules, lo, hi, p)
    decreases rules[hi - 1].end - p.year, hi - p.rule
  {
    NextPairIsNext(rules, lo, hi, p);
    YearsBounded(rules, lo, hi, p);
    match NextPair(rules, lo, hi, p)
    case None => [p]
    case Some(q) => YearsBounded(rules, lo, hi, q); [p] + Walk(rules, lo, hi, q)
  }

  /** The walk from `p` meets `p` and every later pair in force, each exactly once and in time order. */
  lemma {:induction false} WalkVisitsAll(rules: seq<Rule>, lo: nat, hi: nat, p: Pair)
    requires RunAt(rules, lo, hi) && InForce(rules, lo, hi, p)
    ensures var w := Walk(rules, lo, hi, p);
      && w != [] && w[0] == p
      && (forall x :: x in w <==> InForce(rules, lo, hi, x) && (x == p || Before(p, x)))
      && (forall i, j | 0 <= i < j < |w| :: Before(w[i], w[j]))
    decreases rules[hi - 1].end - p.year, hi - p.rule
  {
    NextPairIsNext(rules, lo, hi, p);
    YearsBounded(rules, lo, hi, p);
    match NextPair(rules, lo, hi, p)
    case None =>
    case Some(q) =>
      YearsBounded(rules, lo, hi, q);
      WalkVisitsAll(rules, lo, hi, q);
      var rest := Walk(rules, lo, hi, q);
      assert Walk(rules, lo, hi, p) == [p] + rest;
      forall j | 0 <= j < |rest|
        ensures Before(p, rest[j])
      {
        assert rest[j] in rest;
      }
  }

  /** The first pair of a run comes before every other. */
  lemma FirstPairIsFirst(rules: seq<Rule>, lo: nat, hi: nat, x: Pair)
    requires RunAt(rules, lo, hi) && InForce(rules, lo, hi, x)
    ensures InForce(rules, lo, hi, Pair(lo, rules[lo].start))
    ensures x == Pair(lo, rules[lo].start) || Before(Pair(lo, rules[lo].start), x)
  {
    assert x.rule > lo ==> Identical(rules[lo], rules[x.rule]) || rules[lo].end < rules[x.rule].start;
  }

  /** Walking from the first pair of a run meets every pair in force. */
  lemma WalkCoversRun(rules: seq<Rule>, lo: nat, hi: nat)
    requires RunAt(rules, lo, hi)
    ensures InForce(rules, lo, hi, Pair(lo, rules[lo].start))
    ensures forall x :: x in Walk(rules, lo, hi, Pair(lo, rules[lo].start)) <==> InForce(rules, lo, hi, x)
  {
    var p := Pair(lo, rules[lo].start);
    WalkVisitsAll(rules, lo, hi, p);
    forall x | InForce(rules, lo, hi, x)
      ensures x in Walk(rules, lo, hi, p)
    {
      FirstPairIsFirst(rules, lo, hi, x);
    }
  }

  /** Within a year, the walk meets the rules of more than one year in the order of their months. */
  lemma WalkInYearOrder(rules: seq<Rule>, lo: nat, hi: nat, p: Pair, i: nat, j: nat)
    requires RunAt(rules, lo, hi) && InForce(rules, lo, hi, p) && NameRun(rules, lo, hi) && LongInOrder(rules)
    requires i < j < |Walk(rules, lo, hi, p)|
    ensures var x, y := Walk(rules, lo, hi, p)[i], Walk(rules, lo, hi, p)[j];
      x.rule < |rules| && y.rule < |rules| &&
      (x.year == y.year && rules[x.rule].start < rules[x.rule].end ==>
        && Identical(rules[x.rule], rules[y.rule])
        && rules[x.rule].at.month <= rules[y.rule].at.month
        && (rules[x.rule].at.month == rules[y.rule].at.month ==> rules[x.rule].at.Day() <= rules[y.rule].at.Day()))
  {
    WalkVisitsAll(rules, lo, hi, p);
    var w := Walk(rules, lo, hi, p);
    assert w[i] in w && w[j] in w && Before(w[i], w[j]);
  }

  // ---- the loops of the source ----

  /** `find_next_rule` with the bounds of the run given. */
  method FindNextRule(rules: seq<Rule>, first: nat, last: nat, r0: nat, y: int) returns (next: Option<Pair>)
    requires first <= r0 < last <= |rules|
    ensures next == NextPair(rules, first, last, Pair(r0, y))
  {
    var r := r0;
    if y == rules[r].end {
      if r == last - 1 {
        return None;
      }
      r := r + 1;
      if y == rules[r].end {
        return Some(Pair(r, y));
      }
      return Some(Pair(r, rules[r].start));
    }
    if r == last - 1 || rules[r].end < rules[r + 1].end {
      while r > first && rules[r].start == rules[r - 1].start
        invariant first <= r <= r0
        invariant FirstOf(rules, first, r) == FirstOf(rules, first, r0)
      {
        r := r - 1;
      }
      return Some(Pair(r, y + 1));
    }
    return Some(Pair(r + 1, y));
  }

  /** The rules from lo to hi are all the rules of one name. */
  ghost predicate NameRun(rules: seq<Rule>, lo: nat, hi: nat) {
    && lo < hi <= |rules|
    && (forall a | lo <= a < hi :: rules[a].name == rules[lo].name)
    && (lo > 0 ==> rules[lo - 1].name != rules[lo].name)
    && (hi < |rules| ==> rules[hi].name != rules[lo].name)
  }

  /** In a table in canonical form every run of one name is in canonical form. */
  lemma NameRunIsCanonical(rules: seq<Rule>, lo: nat, hi: nat)
    requires CanonicalTable(rules) && NonEmptyRanges(rules) && NameRun(rules, lo, hi)
    ensures RunAt(rules, lo, hi)
  {
    forall a | lo <= a < hi
      ensures rules[a].start <= rules[a].end
    {
      assert rules[a] in rules;
    }
  }

  /** `find_next_rule` on the whole table, which finds the bounds of the run by name. */
  method FindNextRuleByName(rules: seq<Rule>, r0: nat, y: int, ghost lo: nat, ghost hi: nat)
      returns (next: Option<Pair>)
    requires NameRun(rules, lo, hi) && lo <= r0 < hi
    ensures next == NextPair(rules, lo, hi, Pair(r0, y))
  {
    var r := r0;
    if y == rules[r].end {
      if r == |rules| - 1 || rules[r].name != rules[r + 1].name {
        return None;
      }
      r := r + 1;
      if y == rules[r].end {
        return Some(Pair(r, y));
      }
      return Some(Pair(r, rules[r].start));
    }
    if r == |rules| - 1 || rules[r].name != rules[r + 1].name || rules[r].end < rules[r + 1].end {
      while r > 0 && rules[r].name == rules[r - 1].name && rules[r].start == rules[r - 1].start
        invariant lo <= r <= r0
        invariant FirstOf(rules, lo, r) == FirstOf(rules, lo, r0)
      {
        r := r - 1;
      }
      return Some(Pair(r, y + 1));
    }
    return Some(Pair(r + 1, y));
  }

  /** `find_previous_rule`; None stands for the call of `std::terminate`, on the first pair. */
  method FindPreviousRule(rules: seq<Rule>, r0: nat, y: int, ghost lo: nat, ghost hi: nat)
      returns (prev: Option<Pair>)
    requires NameRun(rules, lo, hi) && lo <= r0 < hi
    ensures prev == PreviousPair(rules, lo, hi, Pair(r0, y))
  {
    var r := r0;
    if y == rules[r].start {
      if r == 0 || rules[r].name != rules[r - 1].name {
        return None;
      }
      r := r - 1;
      if y == rules[r].start {
        return Some(Pair(r, y));
      }
      return Some(Pair(r, rules[r].end));
    }
    if r == 0 || rules[r].name != rules[r - 1].name || rules[r - 1].start < rules[r].start {
      while r < |rules| - 1 && rules[r].name == rules[r + 1].name && rules[r].start == rules[r + 1].start
        invariant r0 <= r < hi
        invariant LastOf(rules, hi, r) == LastOf(rules, hi, r0)
        decreases hi - r
      {
        r := r + 1;
      }
      return Some(Pair(r, y - 1));
    }
    return Some(Pair(r - 1, y));
  }

  /** `find_first_std_rule`: the rule of the earliest pair without saving; None when the source throws. */
  method FindFirstStdRule(rules: seq<Rule>, first: nat, last: nat) returns (std: Option<nat>, ghost year: int)
    requires RunAt(rules, first, last)
    ensures std.None? <==> forall r | first <= r < last :: rules[r].save != 0
    ensures std.Some? ==>
      && InForce(rules, first, last, Pair(std.value, year)) && rules[std.value].save == 0
      && forall x | InForce(rules, first, last, x) && Before(x, Pair(std.value, year)) :: rules[x.rule].save != 0
  {
    hide NextPair;
    var r, ry := first, rules[first].start;
    forall x | InForce(rules, first, last, x)
      ensures !Before(x, Pair(r, ry))
    {
      FirstPairIsFirst(rules, first, last, x);
    }
    while rules[r].save != 0
      invariant InForce(rules, first, last, Pair(r, ry))
      invariant forall x | InForce(rules, first, last, x) && Before(x, Pair(r, ry)) :: rules[x.rule].save != 0
      decreases rules[last - 1].end - ry, last - r
    {
      ghost var p := Pair(r, ry);
      NextPairIsNext(rules, first, last, p);
      var next := FindNextRule(rules, first, last, r, ry);
      if next.None? {
        forall a | first <= a < last
          ensures rules[a].save != 0
        {
          assert InForce(rules, first, last, Pair(a, rules[a].start));
        }
        return None, ry;
      }
      r, ry := next.value.rule, next.value.year;
      YearsBounded(rules, first, last, Pair(r, ry));
    }
    return Some(r), ry;
  }
}
