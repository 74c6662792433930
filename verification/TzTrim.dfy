/** Trimming a canonical run of rules to the configured years. */
module TzTrim {
  import opened TzRule
  import opened TzTable

  lemma CanonicalSlice(s: seq<Rule>, a: nat, b: nat, name: nat)
    requires a <= b <= |s| && Canonical(s) && NonEmptyRanges(s) && SameName(s, name)
    ensures Canonical(s[a..b]) && NonEmptyRanges(s[a..b]) && SameName(s[a..b], name)
  {
    var u := s[a..b];
    assert forall m | 0 <= m < |u| :: u[m] == s[a + m];
    assert forall r | r in u :: r in s;
  }

  /** How many rules at the front of a run end before the first configured year. */
  function EndedBefore(run: seq<Rule>, minYear: int): (c: nat)
    ensures c <= |run| && (forall m | 0 <= m < c :: run[m].end < minYear) && (c < |run| ==> run[c].end >= minYear)
  {
    if run == [] || run[0].end >= minYear then 0 else 1 + EndedBefore(run[1..], minYear)
  }

  /** How many rules are erased at the front: the ended ones, but the last of them stays if the next
      rule starts no earlier than the first configured year. */
  function FrontCut(run: seq<Rule>, minYear: int): (a: nat)
    ensures a <= EndedBefore(run, minYear) <= a + 1
  {
    var c := EndedBefore(run, minYear);
    if c <= 1 then 0 else if c == |run| || run[c].start >= minYear then c - 1 else c
  }

  /** A single ended rule is left alone. */
  lemma SingleStays(run: seq<Rule>, minYear: int)
    requires |run| < 2 || run[1].end >= minYear
    ensures EndedBefore(run, minYear) <= 1 && FrontCut(run, minYear) == 0
  {
    assert |run| > 1 ==> run[1..][0] == run[1];
  }

  /** So the first configured year begins with a rule, if there was one, and of the rules that ended
      before it at most the first is left. */
  lemma FrontCutKeepsYear(run: seq<Rule>, minYear: int)
    requires Canonical(run) && NonEmptyRanges(run)
    ensures var kept := run[FrontCut(run, minYear)..];
      && (forall m | 0 < m < |kept| :: kept[m].end >= minYear)
      && ((exists r :: r in run && r.start < minYear) ==> kept != [] && kept[0].start < minYear)
  {
    hide EndedBefore, Canonical;
    var c, a := EndedBefore(run, minYear), FrontCut(run, minYear);
    var kept := run[a..];
    LaterEnds(run, c, minYear);
    if r :| r in run && r.start < minYear {
      FirstStarts(run, r);
      assert kept != [] && kept[0] == run[a] && run[a] in run;
    }
    forall m | 0 < m < |kept|
      ensures kept[m].end >= minYear
    {
      assert kept[m] == run[a + m];
    }
  }

  lemma FirstStarts(run: seq<Rule>, r: Rule)
    requires Canonical(run) && NonEmptyRanges(run) && r in run
    ensures run != [] && run[0].start <= r.start
  {
    var j :| 0 <= j < |run| && run[j] == r;
    assert run[0] in run;
  }

  lemma LaterEnds(run: seq<Rule>, c: nat, minYear: int)
    requires Canonical(run) && NonEmptyRanges(run) && c <= |run| && (c < |run| ==> run[c].end >= minYear)
    ensures forall m | c <= m < |run| :: run[m].end >= minYear
  {
    forall m | c <= m < |run|
      ensures run[m].end >= minYear
    {
      assert run[m] in run;
    }
  }

  /** `lower_bound` by year: the first rule from i on that does not end before the first configured year. */
  method FirstNotEnded(rules: seq<Rule>, i: nat, e: nat, minYear: int) returns (first: nat)
    requires i <= e <= |rules|
    ensures first == i + EndedBefore(rules[i..e], minYear)
  {
    ghost var run := rules[i..e];
    first := i;
    while first < e && rules[first].end < minYear
      invariant i <= first <= e
      invariant EndedBefore(run, minYear) == first - i + EndedBefore(run[first - i..], minYear)
    {
      assert run[first - i..][0] == rules[first];
      assert run[first - i..][1..] == run[first + 1 - i..];
      first := first + 1;
    }
    assert first < e ==> run[first - i..][0] == rules[first];
  }

  /** Erases the rules of the run from i to e0 that end before the first configured year, keeping
      the last of them if that year would otherwise start without a rule. */
  method TrimFront(t: RuleTable, i: nat, e0: nat, minYear: int) returns (e: nat, ghost a: nat)
    requires i <= e0 <= |t.rules|
    modifies t
    ensures a == FrontCut(old(t.rules)[i..e0], minYear) <= e0 - i && e == e0 - a <= |t.rules|
    ensures t.rules[..i] == old(t.rules)[..i] && t.rules[e..] == old(t.rules)[e0..]
    ensures t.rules[i..e] == old(t.rules)[i..e0][a..]
  {
    hide EndedBefore;
    e := e0;
    ghost var was, run := t.rules, t.rules[i..e0];
    var first := FirstNotEnded(t.rules, i, e0, minYear);
    a := FrontCut(run, minYear);
    FrontCutIs(run, minYear);
    hide FrontCut;
    assert first < e ==> run[first - i] == t.rules[first];
    if first > i + 1 {
      if first == e || t.rules[first].start >= minYear {
        first := first - 1;
      }
      t.rules := t.rules[..i] + t.rules[first..];
      e := e - (first - i);
      EraseFront(was, i, e0, a);
    } else {
      assert run[0..] == run;
    }
  }

  lemma FrontCutIs(run: seq<Rule>, minYear: int)
    ensures var c := EndedBefore(run, minYear);
      FrontCut(run, minYear) == if c <= 1 then 0 else if c == |run| || run[c].start >= minYear then c - 1 else c
  {
    hide EndedBefore;
  }

  lemma EraseFront(was: seq<Rule>, i: nat, e0: nat, a: nat)
    requires i + a <= e0 <= |was|
    ensures var now := was[..i] + was[i + a..];
      && now[..i] == was[..i] && e0 - a <= |now| && now[e0 - a..] == was[e0..] && now[i..e0 - a] == was[i..e0][a..]
  {
    var front, mid, back := was[..i], was[i + a..e0], was[e0..];
    assert was[i + a..] == mid + back;
    assert front + (mid + back) == front + mid + back;
    assert was[i..e0][a..] == mid;
    assert (front + mid + back)[i..e0 - a] == mid;
  }

  /** Erases the rules of the run from i to e0 that start after the last configured year. */
  method TrimBack(t: RuleTable, i: nat, e0: nat, maxYear: int) returns (e: nat)
    requires i <= e0 <= |t.rules| && Canonical(t.rules[i..e0]) && NonEmptyRanges(t.rules[i..e0])
    modifies t
    ensures i <= e <= e0 && e <= |t.rules|
    ensures t.rules[..i] == old(t.rules)[..i] && t.rules[e..] == old(t.rules)[e0..]
    ensures t.rules[i..e] == old(t.rules)[i..e0][..e - i]
    ensures forall m | 0 <= m < e0 - i :: m < e - i <==> old(t.rules)[i..e0][m].start <= maxYear
  {
    hide Canonical, NonEmptyRanges;
    ghost var was, run := t.rules, t.rules[i..e0];
    var last := i;
    while last < e0 && t.rules[last].start <= maxYear
      invariant i <= last <= e0 && t.rules == was
      invariant forall m | 0 <= m < last - i :: run[m].start <= maxYear
    {
      assert run[last - i] == was[last];
      last := last + 1;
    }
    e := last;
    if last != e0 {
      assert run[last - i] == was[last];
      LaterStarts(run, last - i);
      t.rules := t.rules[..last] + t.rules[e0..];
    }
    EraseBack(was, i, last, e0);
  }

  lemma EraseBack(was: seq<Rule>, i: nat, last: nat, e0: nat)
    requires i <= last <= e0 <= |was|
    ensures was[i..e0][..last - i] == was[i..last]
    ensures var now := was[..last] + was[e0..];
      now[..i] == was[..i] && now[last..] == was[e0..] && now[i..last] == was[i..last]
  {
    assert was[..last] == was[..i] + was[i..last];
  }

  /** No rule starts after the last configured year, and of each name at most the first rule ends
      before the first one. */
  ghost predicate Trimmed(s: seq<Rule>, minYear: int, maxYear: int) {
    && (forall m | 0 <= m < |s| :: s[m].start <= maxYear)
    && forall m, n | 0 <= m < n < |s| && s[m].name == s[n].name :: s[n].end >= minYear
  }

  /** Trims the run from i to e0 at both ends; `a..b` is the part of it that stays. */
  method TrimRun(t: RuleTable, i: nat, e0: nat, ghost name: nat, minYear: int, maxYear: int)
      returns (e: nat, ghost a: nat, ghost b: nat)
    requires i <= e0 <= |t.rules|
    requires Canonical(t.rules[i..e0]) && NonEmptyRanges(t.rules[i..e0]) && SameName(t.rules[i..e0], name)
    modifies t
    ensures a <= b <= e0 - i && e == i + (b - a) <= |t.rules|
    ensures t.rules[..i] == old(t.rules)[..i] && t.rules[e..] == old(t.rules)[e0..]
    ensures t.rules[i..e] == old(t.rules)[i..e0][a..b] && Trimmed(t.rules[i..e], minYear, maxYear)
    ensures forall m | 0 <= m < a :: old(t.rules)[i..e0][m].end < minYear
    ensures forall m | b <= m < e0 - i :: old(t.rules)[i..e0][m].start > maxYear
  {
    hide FrontCut, Trimmed, Canonical, NonEmptyRanges, SameName;
    ghost var run := t.rules[i..e0];
    var e1;
    e1, a := TrimFront(t, i, e0, minYear);
    ghost var mid := t.rules[i..e1];
    CanonicalBack(run, a, name);
    e := TrimBack(t, i, e1, maxYear);
    b := e - i + a;
    TrimmedRun(run, a, b, minYear, maxYear);
  }

  lemma CanonicalBack(run: seq<Rule>, a: nat, name: nat)
    requires a <= |run| && Canonical(run) && NonEmptyRanges(run) && SameName(run, name)
    ensures Canonical(run[a..]) && NonEmptyRanges(run[a..])
  {
    assert run[a..|run|] == run[a..];
    CanonicalSlice(run, a, |run|, name);
  }

  /** What trimming leaves of a run. */
  lemma TrimmedRun(run: seq<Rule>, a: nat, b: nat, minYear: int, maxYear: int)
    requires Canonical(run) && NonEmptyRanges(run) && a == FrontCut(run, minYear) && a <= b <= |run|
    requires forall m | 0 <= m < |run| - a :: m < b - a <==> run[a..][m].start <= maxYear
    ensures run[a..][..b - a] == run[a..b] && Trimmed(run[a..b], minYear, maxYear)
    ensures forall m | 0 <= m < a :: run[m].end < minYear
    ensures forall m | b <= m < |run| :: run[m].start > maxYear
  {
    hide EndedBefore, Canonical, NonEmptyRanges, FrontCut;
    var kept, part := run[a..], run[a..b];
    FrontCutKeepsYear(run, minYear);
    FrontEnded(run, minYear);
    forall m | b <= m < |run|
      ensures run[m].start > maxYear
    {
      assert run[m] == kept[m - a];
    }
    forall m | 0 <= m < b - a
      ensures part[m].start <= maxYear && (m > 0 ==> part[m].end >= minYear)
    {
      assert part[m] == kept[m];
    }
  }

  lemma FrontEnded(run: seq<Rule>, minYear: int)
    ensures forall m | 0 <= m < FrontCut(run, minYear) :: run[m].end < minYear
  {
  }

  lemma LaterStarts(run: seq<Rule>, b: nat)
    requires b < |run| && Canonical(run) && NonEmptyRanges(run)
    ensures forall m | b <= m < |run| :: run[m].start >= run[b].start
  {
    assert run[b] in run;
  }
}
