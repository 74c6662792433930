/** Splitting overlapping rules: what one split does to a run of rules, and what it keeps. */
module TzSplit {
  import opened Sequences
  import opened TzRule

  /** The overlap test. */
  predicate Overlaps(x: Rule, y: Rule)
    requires x.start <= y.start
  {
    y.start <= x.end && !(x.start == y.start && x.end == y.end)
  }

  /** What a split needs of the two rules it is given. */
  predicate Splittable(x: Rule, y: Rule) {
    x.start <= y.start <= x.end && (x.start != y.start || x.end != y.end)
  }

  /** The pieces that take the place of the first rule and of the k-th rule of a run. */
  function HeadPiece(x: Rule, y: Rule): Rule {
    if x.start == y.start then
      if y.end < x.end then x.(end := y.end) else x
    else x.(end := y.start - 1)
  }

  function TailPieces(x: Rule, y: Rule): seq<Rule> {
    if x.start == y.start then
      if y.end < x.end then [y, x.(start := y.end + 1)]
      else [y.(end := x.end), y.(start := x.end + 1)]
    else if y.end < x.end then
      [x.(start := y.start, end := y.end), y, x.(start := y.end + 1)]
    else if y.end > x.end then
      [x.(start := y.start), y.(end := x.end), y.(start := x.end + 1)]
    else
      [x.(start := y.start), y]
  }

  /** A run after its first rule was split against its k-th. */
  function SplitRun(run: seq<Rule>, k: nat): seq<Rule>
    requires 0 < k < |run|
  {
    [HeadPiece(run[0], run[k])] + run[1..k] + TailPieces(run[0], run[k]) + run[k + 1..]
  }

  // ---- one split conserves ----

  lemma TotalFew(t: seq<Rule>, w: Weight)
    requires |t| == 2 || |t| == 3
    ensures Total(t, w) == WeightOf(t[0], w) + WeightOf(t[1], w) + if |t| == 3 then WeightOf(t[2], w) else 0
  {
    var u := t[1..];
    assert Total(u, w) == WeightOf(u[0], w) + Total(u[1..], w);
    if |t| == 3 {
      var v := u[1..];
      assert Total(v, w) == WeightOf(v[0], w) + Total(v[1..], w);
    }
  }

  lemma TotalParts(a: seq<Rule>, b: seq<Rule>, c: seq<Rule>, d: seq<Rule>, w: Weight)
    ensures Total(a + b + c + d, w) == Total(a, w) + Total(b, w) + Total(c, w) + Total(d, w)
  {
    TotalAppend(a + b + c, d, w);
    TotalAppend(a + b, c, w);
    TotalAppend(a, b, w);
  }

  lemma PiecesConserve(x: Rule, y: Rule, w: Weight)
    requires Splittable(x, y) && x.start <= x.end && y.start <= y.end
    ensures WeightOf(HeadPiece(x, y), w) + Total(TailPieces(x, y), w) == WeightOf(x, w) + WeightOf(y, w)
  {
    TotalFew(TailPieces(x, y), w);
  }

  /** A split changes no additive quantity: not the years covered, and not the number of rules
      with a given payload in force in a given year. */
  lemma SplitConserves(run: seq<Rule>, k: nat, w: Weight)
    requires 0 < k < |run| && NonEmptyRanges(run) && Splittable(run[0], run[k])
    ensures Total(SplitRun(run, k), w) == Total(run, w)
  {
    var x, y := run[0], run[k];
    assert x in run && y in run;
    assert run == [x] + run[1..k] + [y] + run[k + 1..];
    TotalParts([x], run[1..k], [y], run[k + 1..], w);
    TotalParts([HeadPiece(x, y)], run[1..k], TailPieces(x, y), run[k + 1..], w);
    PiecesConserve(x, y, w);
  }

  lemma CutOfOne(r: Rule, name: nat, year: int)
    ensures IsCut([r], name, year) <==> r.name == name && (r.start == year || r.end + 1 == year)
  {
    assert r in [r];
  }

  /** Cutting two rules at each other's ends makes no cut anywhere else, and none is lost. */
  lemma PiecesKeepCuts(x: Rule, y: Rule, name: nat, year: int)
    requires Splittable(x, y) && x.name == y.name
    ensures IsCut([HeadPiece(x, y)], name, year) || IsCut(TailPieces(x, y), name, year) <==>
            IsCut([x], name, year) || IsCut([y], name, year)
  {
    var h, t := HeadPiece(x, y), TailPieces(x, y);
    CutOfOne(h, name, year);
    CutOfOne(x, name, year);
    CutOfOne(y, name, year);
    CutOfOne(t[0], name, year);
    CutOfOne(t[1], name, year);
    CutsAppend([t[0]], [t[1]], name, year);
    if |t| == 3 {
      CutOfOne(t[2], name, year);
      CutsAppend([t[0]] + [t[1]], [t[2]], name, year);
      assert t == [t[0]] + [t[1]] + [t[2]];
    } else {
      assert t == [t[0]] + [t[1]];
    }
  }

  lemma SplitKeepsCuts(run: seq<Rule>, k: nat)
    requires 0 < k < |run| && Splittable(run[0], run[k]) && run[0].name == run[k].name
    ensures SameCuts(SplitRun(run, k), run)
  {
    var x, y := run[0], run[k];
    hide HeadPiece, TailPieces, IsCut, Splittable;
    var h, t, mid, rest := HeadPiece(x, y), TailPieces(x, y), run[1..k], run[k + 1..];
    assert run == [x] + mid + [y] + rest;
    forall name: nat, year: int
      ensures IsCut(SplitRun(run, k), name, year) <==> IsCut(run, name, year)
    {
      CutsOfParts([h], mid, t, rest, name, year);
      CutsOfParts([x], mid, [y], rest, name, year);
      PiecesKeepCuts(x, y, name, year);
    }
  }

  lemma CutsOfParts(a: seq<Rule>, b: seq<Rule>, c: seq<Rule>, d: seq<Rule>, name: nat, year: int)
    ensures IsCut(a + b + c + d, name, year) <==>
            IsCut(a, name, year) || IsCut(b, name, year) || IsCut(c, name, year) || IsCut(d, name, year)
  {
    CutsAppend(a + b + c, d, name, year);
    CutsAppend(a + b, c, name, year);
    CutsAppend(a, b, name, year);
  }

  // ---- sorting after a split ----

  /** How a rule looks to a pass whose current rule has the range `s..f`: a rule starting in
      `s` reaches at least `f`, and any other rule starts after `f`. */
  predicate Clear(r: Rule, s: int, f: int) {
    if r.start == s then r.end >= f else r.start > f
  }

  ghost predicate SameKey(x: Rule, y: Rule) {
    x.name == y.name && Identical(x, y) && x.at.month == y.at.month && x.at.Day() == y.at.Day()
  }

  /** The property only looks at what rules are sorted by. */
  ghost predicate Keyed(p: Rule -> bool) {
    forall x, y | SameKey(x, y) :: p(x) == p(y)
  }

  /** If the first `n` rules of `before` have such a property and none of them comes after any of the
      others in the sort order, then the first `n` rules have it after sorting too, no matter how
      ties are broken. */
  lemma SortKeeps(before: seq<Rule>, after: seq<Rule>, name: nat, n: nat, p: Rule -> bool)
    requires n <= |before| && multiset(before) == multiset(after) && Sorted(after)
    requires SameName(before, name) && Keyed(p)
    requires forall m | 0 <= m < n :: p(before[m])
    requires forall m, j | 0 <= m < n <= j < |before| :: !Less(before[j], before[m])
    ensures |after| == |before|
    ensures forall m | 0 <= m < n :: p(after[m])
  {
    SameMembers(before, after);
    forall m | 0 <= m < n
      ensures p(after[m])
    {
      if !p(after[m]) {
        assert after[m] in before;
        var j :| 0 <= j < |before| && before[j] == after[m];
        forall a | a in before[..n]
          ensures a !in after[m..]
        {
          var i :| 0 <= i < n && before[i] == a;
          assert before[i] in before && before[j] in before;
          assert !Less(before[j], before[i]) && !SameKey(a, after[m]);
          assert Less(a, after[m]);
        }
        PrefixFits(before, after, n, m);
        assert false;
      }
    }
  }

  lemma SortKeepsClear(before: seq<Rule>, after: seq<Rule>, name: nat, n: nat, s: int, f: int)
    requires n <= |before| && multiset(before) == multiset(after) && Sorted(after)
    requires SameName(before, name)
    requires forall m | 0 <= m < n :: Clear(before[m], s, f)
    requires forall m, j | 0 <= m < n <= j < |before| :: !Less(before[j], before[m])
    ensures |after| == |before|
    ensures forall m | 0 <= m < n :: Clear(after[m], s, f)
  {
    hide Less;
    SortKeeps(before, after, name, n, r => Clear(r, s, f));
  }

  lemma PrefixFits(before: seq<Rule>, after: seq<Rule>, n: nat, m: nat)
    requires n <= |before| && m <= |after| && multiset(before) == multiset(after)
    requires forall a | a in before[..n] :: a !in after[m..]
    ensures n <= m
  {
    var head, tail := multiset(before[..n]), multiset(before[n..]);
    var early, late := multiset(after[..m]), multiset(after[m..]);
    assert before == before[..n] + before[n..];
    assert after == after[..m] + after[m..];
    assert head + tail == early + late;
    forall a | a in head
      ensures head[a] <= early[a]
    {
      assert a in before[..n];
      assert a !in after[m..];
      assert (head + tail)[a] == (early + late)[a];
    }
    assert head <= early;
    assert |early| == |head| + |early - head|;
  }
}
