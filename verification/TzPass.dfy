/** What one pass of the splitting loop keeps true, step by step. A pass compares the first
    rule of a sorted run with every later rule; a split re-sorts the run, and may shorten the
    first rule after earlier rules were already compared with its longer range. */
module TzPass {
  import opened Sequences
  import opened TzRule
  import opened TzSplit

  /** A rule that makes sure that a range starting in `s` is cut back to `f`: it has the range
      `s..f` itself, or it starts right after `f`. */
  predicate Marks(r: Rule, s: int, f: int) {
    (r.start == s && r.end == f) || r.start == f + 1
  }

  ghost predicate Marked(run: seq<Rule>, s: int, f: int) {
    exists r | r in run :: Marks(r, s, f)
  }

  /** A run whose rules come after a finished range `s..f`: no rule of it overlaps the range
      unless it starts with it, and then some rule makes sure that it will end with it too. */
  ghost predicate Follows(run: seq<Rule>, s: int, f: int) {
    && s <= f
    && (forall r | r in run :: Clear(r, s, f))
    && (run != [] && run[0].start == s ==> Marked(run, s, f))
  }

  ghost predicate GoodRun(run: seq<Rule>, name: nat) {
    Sorted(run) && NonEmptyRanges(run) && SameName(run, name)
  }

  /** Comes no later in the year than the rule, if that starts in the same year. */
  predicate NoLater(h: Rule, r: Rule) {
    r.start == h.start ==> InYearOrder(h, r)
  }

  /** The invariant of a pass: the rules at 1..k have been compared with the first. */
  ghost predicate PassInv(run: seq<Rule>, name: nat, k: nat, s: int, f: int) {
    && 1 <= k <= |run|
    && GoodRun(run, name)
    && Follows(run, s, f)
    && (forall m | 1 <= m < k :: Clear(run[m], run[0].start, run[0].end))
    && (forall m | 1 <= m < k :: NoLater(run[0], run[m]))
    && ((forall m | 1 <= m < k :: run[m].start != run[0].start) || Marked(run[1..], run[0].start, run[0].end))
  }

  lemma StartsInOrder(run: seq<Rule>, name: nat, a: nat, b: nat)
    requires Sorted(run) && SameName(run, name) && a <= b < |run|
    ensures run[a].start <= run[b].start
  {
    assert run[a] in run && run[b] in run;
  }

  /** A step of a pass that finds no overlap. */
  lemma StepOver(run: seq<Rule>, name: nat, k: nat, s: int, f: int)
    requires PassInv(run, name, k, s, f) && k < |run|
    requires run[0].start <= run[k].start && !Overlaps(run[0], run[k])
    ensures PassInv(run, name, k + 1, s, f)
  {
    assert run[0] in run && run[k] in run;
    if run[k].start == run[0].start {
      assert run[1..][k - 1] == run[k];
      assert Marks(run[k], run[0].start, run[0].end);
    }
  }

  /** Where the rules of a run are after a split. */
  lemma SplitAt(run: seq<Rule>, k: nat)
    requires 0 < k < |run|
    ensures |SplitRun(run, k)| == |run| + |TailPieces(run[0], run[k])| - 1
    ensures SplitRun(run, k)[0] == HeadPiece(run[0], run[k])
    ensures forall m | 1 <= m < k :: SplitRun(run, k)[m] == run[m]
    ensures forall i | 0 <= i < |TailPieces(run[0], run[k])| ::
      SplitRun(run, k)[k + i] == TailPieces(run[0], run[k])[i]
    ensures forall j | k + |TailPieces(run[0], run[k])| <= j < |SplitRun(run, k)| ::
      SplitRun(run, k)[j] == run[j + 1 - |TailPieces(run[0], run[k])|]
  {
    hide HeadPiece, TailPieces;
    var h, t, mid, rest := HeadPiece(run[0], run[k]), TailPieces(run[0], run[k]), run[1..k], run[k + 1..];
    var split := SplitRun(run, k);
    assert split == [h] + mid + t + rest;
    forall j | k + |t| <= j < |split|
      ensures split[j] == run[j + 1 - |t|]
    {
      assert split[j] == rest[j - k - |t|];
    }
  }

  /** The pieces keep the name, are not empty, start no earlier, and respect a finished range. */
  lemma PieceFacts(x: Rule, y: Rule, s: int, f: int)
    requires Splittable(x, y) && x.start <= x.end && y.start <= y.end && x.name == y.name
    requires s <= f && Clear(x, s, f) && Clear(y, s, f)
    ensures forall r | r in [HeadPiece(x, y)] + TailPieces(x, y) ::
      r.name == x.name && r.start <= r.end && Clear(r, s, f) && r.start >= x.start
  {
  }

  /** The range `s..f` finished earlier is respected by a split. */
  lemma SplitFollows(run: seq<Rule>, name: nat, k: nat, s: int, f: int)
    requires GoodRun(run, name) && Follows(run, s, f)
    requires 0 < k < |run| && Splittable(run[0], run[k])
    ensures forall r | r in SplitRun(run, k) ::
      r.name == name && r.start <= r.end && Clear(r, s, f) && r.start >= run[0].start
  {
    var x, y, split := run[0], run[k], SplitRun(run, k);
    assert x in run && y in run;
    PieceFacts(x, y, s, f);
    var pieces := [HeadPiece(x, y)] + TailPieces(x, y);
    forall j | 0 <= j < |split|
      ensures split[j].name == name && split[j].start <= split[j].end
      ensures Clear(split[j], s, f) && split[j].start >= run[0].start
    {
      SplitAt(run, k);
      if 0 < j < k {
        StartsInOrder(run, name, 0, j);
        assert run[j] in run;
      } else if j >= k + |TailPieces(x, y)| {
        StartsInOrder(run, name, 0, j + 1 - |TailPieces(x, y)|);
        assert run[j + 1 - |TailPieces(x, y)|] in run;
      } else {
        assert split[j] == pieces[if j == 0 then 0 else j - k + 1];
        assert split[j] in pieces;
      }
    }
  }

  /** A rule that marks the finished range `s..f` outlives a split. */
  lemma SplitKeepsMark(run: seq<Rule>, k: nat, s: int, f: int)
    requires 0 < k < |run| && Splittable(run[0], run[k])
    requires Clear(run[0], s, f) && Clear(run[k], s, f) && s <= f && run[0].start == s
    requires Marked(run, s, f)
    ensures Marked(SplitRun(run, k), s, f)
  {
    var split, t := SplitRun(run, k), TailPieces(run[0], run[k]);
    SplitAt(run, k);
    SplitGrows(run, k);
    var j :| 0 <= j < |run| && Marks(run[j], s, f);
    if j == 0 {
      HeadKeepsMark(run[0], run[k], s, f);
      assert split[0] in split;
    } else if j < k {
      assert split[j] in split;
    } else if j > k {
      assert split[j + |t| - 1] in split;
    } else {
      var i := SecondKeepsMark(run[0], run[k], s, f);
      assert split[k + i] in split;
    }
  }

  lemma SplitGrows(run: seq<Rule>, k: nat)
    requires 0 < k < |run|
    ensures |SplitRun(run, k)| == |run| + |TailPieces(run[0], run[k])| - 1 > |run|
  {
    SplitAt(run, k);
  }

  lemma HeadKeepsMark(x: Rule, y: Rule, s: int, f: int)
    requires Splittable(x, y) && Clear(x, s, f) && Clear(y, s, f) && x.start == s <= f && Marks(x, s, f)
    ensures Marks(HeadPiece(x, y), s, f)
  {
  }

  lemma SecondKeepsMark(x: Rule, y: Rule, s: int, f: int) returns (i: nat)
    requires Splittable(x, y) && Clear(x, s, f) && Clear(y, s, f) && x.start == s <= f && Marks(y, s, f)
    ensures i < |TailPieces(x, y)| && Marks(TailPieces(x, y)[i], s, f)
  {
    i := if x.start == y.start then 0 else 1;
  }

  lemma HeadBeatsLater(x: Rule, y: Rule, r: Rule)
    requires Splittable(x, y) && x.name == r.name && !Less(r, x)
    requires !Less(HeadPiece(x, y), r)
    ensures Identical(r, HeadPiece(x, y))
  {
  }

  lemma HeadBeatsPieces(x: Rule, y: Rule, i: nat)
    requires Splittable(x, y) && x.name == y.name && !Less(y, x) && i < |TailPieces(x, y)|
    requires x.start <= x.end && y.start <= y.end
    requires !Less(HeadPiece(x, y), TailPieces(x, y)[i])
    ensures Identical(TailPieces(x, y)[i], HeadPiece(x, y))
  {
  }

  /** No rule comes before the head piece in the sort order, save one of the same range. */
  lemma HeadIsLeast(run: seq<Rule>, name: nat, k: nat, j: nat)
    requires GoodRun(run, name) && 0 < k < |run| && Splittable(run[0], run[k]) && j < |SplitRun(run, k)|
    requires !Less(SplitRun(run, k)[0], SplitRun(run, k)[j])
    ensures Identical(SplitRun(run, k)[j], HeadPiece(run[0], run[k]))
  {
    hide SplitRun, HeadPiece, TailPieces, Less, Splittable;
    var x, y, t := run[0], run[k], |TailPieces(run[0], run[k])|;
    SplitAt(run, k);
    assert x in run && y in run && !Less(y, x);
    if 0 < j < k {
      assert run[j] in run;
      HeadBeatsLater(x, y, run[j]);
    } else if j >= k + t {
      var i := j + 1 - t;
      assert run[i] in run;
      HeadBeatsLater(x, y, run[i]);
    } else if j >= k {
      HeadBeatsPieces(x, y, j - k);
    }
  }

  /** After splitting and sorting, the run starts with a rule of the range the split left. */
  lemma SortedHead(run: seq<Rule>, name: nat, k: nat, after: seq<Rule>)
    requires GoodRun(run, name) && 0 < k < |run| && Splittable(run[0], run[k])
    requires multiset(after) == multiset(SplitRun(run, k)) && Sorted(after)
    ensures |after| == |SplitRun(run, k)|
    ensures Identical(after[0], HeadPiece(run[0], run[k]))
  {
    var split := SplitRun(run, k);
    SameMembers(split, after);
    assert split[0] in after && after[0] in split;
    var i :| 0 <= i < |after| && after[i] == split[0];
    var j :| 0 <= j < |split| && split[j] == after[0];
    assert !Less(split[0], split[j]);
    HeadIsLeast(run, name, k, j);
  }

  /** When the two rules start in the same year, the rules up to the split one do not come
      after the later rules in the sort order. */
  lemma SplitKeepsOrder(run: seq<Rule>, name: nat, k: nat, m: nat, j: nat)
    requires GoodRun(run, name) && 0 < k < |run| && Splittable(run[0], run[k]) && run[0].start == run[k].start
    requires m <= k < j < |SplitRun(run, k)|
    ensures !Less(SplitRun(run, k)[j], SplitRun(run, k)[m])
  {
    SplitAt(run, k);
    assert run[0] in run && run[m] in run && run[k] in run;
    assert m > 0 ==> !Less(run[m], run[0]);
    assert m < k ==> !Less(run[k], run[m]);
    if j > k + 1 {
      assert run[j - 1] in run && !Less(run[j - 1], run[m]);
    }
  }

  lemma PiecesClear(run: seq<Rule>, name: nat, k: nat)
    requires GoodRun(run, name) && 0 < k < |run| && Splittable(run[0], run[k])
    requires forall m | 1 <= m < k :: Clear(run[m], run[0].start, run[0].end)
    ensures forall m | 0 <= m <= k :: Clear(SplitRun(run, k)[m], run[0].start, HeadPiece(run[0], run[k]).end)
    ensures run[0].start < run[k].start ==>
      forall m | 0 <= m < |SplitRun(run, k)| ::
        Clear(SplitRun(run, k)[m], run[0].start, HeadPiece(run[0], run[k]).end)
  {
    var x, y, split := run[0], run[k], SplitRun(run, k);
    var g, t := HeadPiece(x, y).end, |TailPieces(x, y)|;
    assert x in run && y in run;
    SplitAt(run, k);
    forall m | 0 <= m < |split| && (m <= k || x.start < y.start)
      ensures Clear(split[m], x.start, g)
    {
      if m >= k + t {
        StartsInOrder(run, name, k, m + 1 - t);
      }
    }
  }

  /** The rules compared so far are clear of the range the split left. */
  lemma SplitKeepsClear(run: seq<Rule>, name: nat, k: nat, after: seq<Rule>)
    requires GoodRun(run, name) && 0 < k < |run| && Splittable(run[0], run[k])
    requires forall m | 1 <= m < k :: Clear(run[m], run[0].start, run[0].end)
    requires multiset(after) == multiset(SplitRun(run, k)) && Sorted(after)
    requires SameName(SplitRun(run, k), name)
    ensures |after| == |SplitRun(run, k)|
    ensures forall m | 0 <= m <= k :: Clear(after[m], run[0].start, HeadPiece(run[0], run[k]).end)
  {
    var split, s, g := SplitRun(run, k), run[0].start, HeadPiece(run[0], run[k]).end;
    PiecesClear(run, name, k);
    if run[0].start == run[k].start {
      forall m, j | 0 <= m <= k < j < |split|
        ensures !Less(split[j], split[m])
      {
        SplitKeepsOrder(run, name, k, m, j);
      }
      SortKeepsClear(split, after, name, k + 1, s, g);
    } else {
      SameMembers(split, after);
      forall m | 0 <= m <= k
        ensures Clear(after[m], s, g)
      {
        assert after[m] in split;
      }
    }
  }

  lemma MovesBack(before: seq<Rule>, after: seq<Rule>, r: Rule)
    requires multiset(before) == multiset(after) && r in before && r != after[0] && after != []
    ensures r in after[1..]
  {
    SameMembers(before, after);
    assert after == [after[0]] + after[1..];
  }

  /** After a split, some later rule marks the range the split left. */
  lemma SplitMarks(run: seq<Rule>, k: nat, after: seq<Rule>)
    requires 0 < k < |run| && Splittable(run[0], run[k]) && run[0].start <= run[0].end
    requires multiset(after) == multiset(SplitRun(run, k)) && |after| == |SplitRun(run, k)|
    requires Identical(after[0], HeadPiece(run[0], run[k]))
    ensures Marked(after[1..], after[0].start, after[0].end)
  {
    var x, y, split := run[0], run[k], SplitRun(run, k);
    var h, late := HeadPiece(x, y), TailPieces(x, y)[0];
    SplitAt(run, k);
    assert split[k + 0] == late;
    assert late in split && Marks(late, h.start, h.end);
    if x.start == y.start {
      TwoStay(split, after, k);
      assert Marks(h, h.start, h.end);
    } else {
      MovesBack(split, after, late);
    }
  }

  /** Of two rules of a list, at least one is not the first of a permutation of the list. */
  lemma TwoStay(before: seq<Rule>, after: seq<Rule>, j: nat)
    requires 0 < j < |before| && multiset(before) == multiset(after)
    ensures |after| == |before|
    ensures before[0] in after[1..] || before[j] in after[1..]
  {
    assert |after| == |multiset(after)| == |multiset(before)| == |before|;
    assert before == [before[0]] + before[1..] && after == [after[0]] + after[1..];
    SameMembers(before, after);
    assert before[0] in after;
    if before[0] == after[0] {
      assert multiset(after[1..]) == multiset(after) - multiset{after[0]};
      assert multiset(before[1..]) == multiset(before) - multiset{before[0]};
      SameMembers(before[1..], after[1..]);
      assert before[1..][j - 1] == before[j];
    }
  }

  /** The first rule after sorting, `h`, comes no later in the year than the rules compared so far. */
  lemma PiecesNoLater(run: seq<Rule>, name: nat, k: nat, h: Rule)
    requires GoodRun(run, name) && 0 < k < |run| && Splittable(run[0], run[k])
    requires forall m | 1 <= m < k :: NoLater(run[0], run[m])
    requires h.name == name && Identical(h, HeadPiece(run[0], run[k]))
    requires forall m | 0 <= m < |SplitRun(run, k)| :: !Less(SplitRun(run, k)[m], h)
    ensures forall m | 0 <= m <= k :: NoLater(h, SplitRun(run, k)[m])
    ensures run[0].start < run[k].start ==> forall m | 0 <= m < |SplitRun(run, k)| :: NoLater(h, SplitRun(run, k)[m])
  {
    var x, y, split := run[0], run[k], SplitRun(run, k);
    assert x in run && y in run;
    SplitAt(run, k);
    SplitGrows(run, k);
    assert split[0] == HeadPiece(x, y) && !Less(split[0], h);
    assert InYearOrder(h, x);
    forall m | 0 <= m < |split| && (m <= k || x.start < y.start)
      ensures NoLater(h, split[m])
    {
      var t := |TailPieces(x, y)|;
      if 0 < m < k {
        assert split[m] == run[m];
      } else if m >= k + t {
        StartsInOrder(run, name, k, m + 1 - t);
      } else if m >= k {
        assert split[m] == split[k + (m - k)] == TailPieces(x, y)[m - k];
        assert split[m] in [split[m]] && !Less(split[m], h);
        PieceNoLater(x, y, m - k, h);
      }
    }
  }

  lemma PieceNoLater(x: Rule, y: Rule, i: nat, h: Rule)
    requires Splittable(x, y) && x.name == y.name == h.name && Identical(h, HeadPiece(x, y)) && i < |TailPieces(x, y)|
    requires x.start <= x.end && y.start <= y.end && (i == 0 || x.start < y.start) && !Less(TailPieces(x, y)[i], h)
    ensures NoLater(h, TailPieces(x, y)[i])
  {
  }

  lemma FirstIsLeast(before: seq<Rule>, after: seq<Rule>)
    requires multiset(before) == multiset(after) && Sorted(after) && after != []
    ensures forall m | 0 <= m < |before| :: !Less(before[m], after[0])
  {
    SameMembers(before, after);
    forall m | 0 <= m < |before|
      ensures !Less(before[m], after[0])
    {
      assert before[m] in after;
      var i :| 0 <= i < |after| && after[i] == before[m];
    }
  }

  lemma SplitKeepsDays(run: seq<Rule>, name: nat, k: nat, after: seq<Rule>)
    requires GoodRun(run, name) && 0 < k < |run| && Splittable(run[0], run[k])
    requires forall m | 1 <= m < k :: NoLater(run[0], run[m])
    requires multiset(after) == multiset(SplitRun(run, k)) && Sorted(after) && SameName(SplitRun(run, k), name)
    ensures |after| == |SplitRun(run, k)|
    ensures forall m | 1 <= m <= k :: NoLater(after[0], after[m])
  {
    var split := SplitRun(run, k);
    SameMembers(split, after);
    SortedHead(run, name, k, after);
    var h := after[0];
    assert h in after && h in split;
    FirstIsLeast(split, after);
    PiecesNoLater(run, name, k, h);
    hide SplitRun, HeadPiece, TailPieces, Splittable;
    if run[0].start == run[k].start {
      forall m, j | 0 <= m <= k < j < |split|
        ensures !Less(split[j], split[m])
      {
        SplitKeepsOrder(run, name, k, m, j);
      }
      SortKeeps(split, after, name, k + 1, r => NoLater(h, r));
    } else {
      StartsInOrder(run, name, 0, k);
      forall m | 1 <= m <= k
        ensures NoLater(h, after[m])
      {
        assert after[m] in split;
      }
    }
  }

  /** A step of a pass that splits and sorts. */
  lemma StepSplit(run: seq<Rule>, name: nat, k: nat, s: int, f: int, after: seq<Rule>)
    requires PassInv(run, name, k, s, f) && k < |run| && Splittable(run[0], run[k])
    requires multiset(after) == multiset(SplitRun(run, k)) && Sorted(after)
    ensures PassInv(after, name, k + 1, s, f)
  {
    SortedHead(run, name, k, after);
    SplitGrows(run, k);
    HeadStart(run[0], run[k]);
    SplitIsGood(run, name, k, s, f, after);
    assert run[0] in run;
    hide Less, NoLater, Splittable, TailPieces, HeadPiece, SplitRun, GoodRun, Follows, Marked;
    SplitKeepsClear(run, name, k, after);
    SplitKeepsDays(run, name, k, after);
    SplitMarks(run, k, after);
  }

  lemma HeadStart(x: Rule, y: Rule)
    ensures HeadPiece(x, y).start == x.start
  {
  }

  lemma SplitIsGood(run: seq<Rule>, name: nat, k: nat, s: int, f: int, after: seq<Rule>)
    requires GoodRun(run, name) && Follows(run, s, f) && 0 < k < |run| && Splittable(run[0], run[k])
    requires multiset(after) == multiset(SplitRun(run, k)) && Sorted(after)
    requires after != [] && after[0].start == run[0].start
    ensures GoodRun(after, name) && Follows(after, s, f) && SameName(SplitRun(run, k), name) && run[0].start <= run[0].end
  {
    hide Less, Splittable, TailPieces, HeadPiece, SplitRun, Clear, Marks;
    var split := SplitRun(run, k);
    assert run[0] in run && run[k] in run;
    SplitFollows(run, name, k, s, f);
    SameMembers(split, after);
    if after[0].start == s {
      SplitKeepsMark(run, k, s, f);
    }
  }

  /** When a pass ends, the rest of the run follows its first rule; and if that rule starts with
      the previous finished range, it has become identical to it. */
  lemma PassDone(run: seq<Rule>, name: nat, s: int, f: int)
    requires PassInv(run, name, |run|, s, f)
    ensures GoodRun(run[1..], name) && Follows(run[1..], run[0].start, run[0].end)
    ensures run[0].start > f || (run[0].start == s && run[0].end == f)
    ensures forall r | r in run[1..] :: NoLater(run[0], r)
  {
    assert run[0] in run;
    forall r | r in run[1..]
      ensures Clear(r, run[0].start, run[0].end) && r in run
    {
    }
    if run[0].start == s {
      var r :| r in run && Marks(r, s, f);
      var j :| 0 <= j < |run| && run[j] == r;
      assert j > 0 ==> Clear(run[j], s, run[0].end);
    }
  }
}
