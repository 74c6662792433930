/** The rows of a compressed matrix: sorting each by column, adding up duplicates in place, and the
    whole conversion. */
module CsrRows {
  import opened Csr

  /** What the two buffers hold, slot by slot. */
  ghost function Zip(aj: seq<int>, ax: seq<real>): (e: seq<Entry>)
    requires |aj| == |ax|
    ensures |e| == |aj| && forall p | 0 <= p < |aj| :: e[p] == (aj[p], ax[p])
  {
    seq(|aj|, p requires 0 <= p < |aj| => (aj[p], ax[p]))
  }

  /** The rows end in order, inside the buffers. */
  ghost predicate RowEnds(ap: seq<int>, nRow: nat, n: nat) {
    |ap| == nRow + 1 && ap[0] == 0 && ap[nRow] <= n && forall i, j | 0 <= i <= j <= nRow :: ap[i] <= ap[j]
  }

  ghost predicate SortedRow(row: seq<Entry>) {
    forall i, j | 0 <= i < j < |row| :: row[i].0 <= row[j].0
  }

  ghost predicate StrictRow(row: seq<Entry>) {
    forall i, j | 0 <= i < j < |row| :: row[i].0 < row[j].0
  }

  // ---- sorting ----

  /** `std::sort` by column; the order of entries of one column is left open. */
  method SortEntries(s: seq<Entry>) returns (t: seq<Entry>)
    ensures SortedRow(t) && multiset(t) == multiset(s) && |t| == |s|
  {
    t := [];
    for n := 0 to |s|
      invariant SortedRow(t) && multiset(t) == multiset(s[..n]) && |t| == n
    {
      assert s[..n + 1] == s[..n] + [s[n]];
      t := InsertEntry(t, s[n]);
    }
    assert s[..|s|] == s;
  }

  method InsertEntry(s: seq<Entry>, e: Entry) returns (t: seq<Entry>)
    requires SortedRow(s)
    ensures SortedRow(t) && multiset(t) == multiset(s) + multiset{e} && |t| == |s| + 1
  {
    var j := |s|;
    while j > 0 && e.0 < s[j - 1].0
      invariant 0 <= j <= |s|
      invariant j < |s| ==> e.0 < s[j].0
    {
      j := j - 1;
    }
    InsertKeepsSorted(s, j, e);
    assert s == s[..j] + s[j..];
    t := s[..j] + [e] + s[j..];
  }

  lemma InsertKeepsSorted(s: seq<Entry>, j: nat, e: Entry)
    requires SortedRow(s) && j <= |s|
    requires (j > 0 ==> s[j - 1].0 <= e.0) && (j < |s| ==> e.0 <= s[j].0)
    ensures SortedRow(s[..j] + [e] + s[j..])
  {
    assert forall i | 0 <= i < j :: s[i].0 <= e.0;
    assert forall i | j <= i < |s| :: e.0 <= s[i].0;
  }

  /** Row `r` is a sorted rearrangement of what it was. */
  ghost predicate SortedFrom(e: seq<Entry>, e0: seq<Entry>, ends: seq<int>, r: int) {
    && 0 <= r < |ends| - 1 && 0 <= ends[r] <= ends[r + 1] <= |e| == |e0|
    && SortedRow(e[ends[r]..ends[r + 1]])
    && multiset(e[ends[r]..ends[r + 1]]) == multiset(e0[ends[r]..ends[r + 1]])
  }

  /** From slot `lo` on nothing has changed. */
  ghost predicate SameFrom(e: seq<Entry>, e0: seq<Entry>, lo: int) {
    |e| == |e0| && 0 <= lo <= |e| && e[lo..] == e0[lo..]
  }

  lemma SameLater(e: seq<Entry>, e0: seq<Entry>, lo: int, hi: int)
    requires SameFrom(e, e0, lo) && lo <= hi <= |e|
    ensures SameFrom(e, e0, hi) && e[lo..hi] == e0[lo..hi]
  {
    assert e[hi..] == e[lo..][hi - lo..] && e0[hi..] == e0[lo..][hi - lo..];
    assert e[lo..hi] == e[lo..][..hi - lo] && e0[lo..hi] == e0[lo..][..hi - lo];
  }

  lemma SameEarlier(e: seq<Entry>, e1: seq<Entry>, a: int, b: int, lo: int)
    requires 0 <= a <= b <= lo <= |e| == |e1| && e[..lo] == e1[..lo]
    ensures e[a..b] == e1[a..b]
  {
    assert e[a..b] == e[..lo][a..b] && e1[a..b] == e1[..lo][a..b];
  }

  /** `csr_sort_indices`. */
  method SortIndices(nRow: nat, ap: array<int>, aj: array<int>, ax: array<real>)
    requires Distinct(ap, aj, ax) && aj.Length == ax.Length && RowEnds(ap[..], nRow, aj.Length)
    modifies aj, ax
    ensures forall r | 0 <= r < nRow :: SortedFrom(Zip(aj[..], ax[..]), Zip(old(aj[..]), old(ax[..])), ap[..], r)
  {
    ghost var ends, e0 := ap[..], Zip(aj[..], ax[..]);
    for i := 0 to nRow
      invariant ap[..] == ends
      invariant SameFrom(Zip(aj[..], ax[..]), e0, ends[i])
      invariant forall r | 0 <= r < i :: SortedFrom(Zip(aj[..], ax[..]), e0, ends, r)
    {
      ghost var e1 := Zip(aj[..], ax[..]);
      SortOneRow(ap[i], ap[i + 1], aj, ax);
      RowSorted(e1, Zip(aj[..], ax[..]), e0, ends, i);
    }
  }

  /** Sorts the row from lo to hi. */
  method SortOneRow(lo: int, hi: int, aj: array<int>, ax: array<real>)
    requires 0 <= lo <= hi <= aj.Length == ax.Length && aj as object != ax
    modifies aj, ax
    ensures var e, e0 := Zip(aj[..], ax[..]), Zip(old(aj[..]), old(ax[..]));
      && e[..lo] == e0[..lo] && e[hi..] == e0[hi..]
      && SortedRow(e[lo..hi]) && multiset(e[lo..hi]) == multiset(e0[lo..hi])
  {
    ghost var e0 := Zip(aj[..], ax[..]);
    var temp: seq<Entry> := [];
    for jj := lo to hi
      invariant temp == e0[lo..jj]
    {
      temp := temp + [(aj[jj], ax[jj])];
    }
    temp := SortEntries(temp);
    WriteBack(lo, hi, aj, ax, temp);
  }

  method WriteBack(lo: int, hi: int, aj: array<int>, ax: array<real>, temp: seq<Entry>)
    requires 0 <= lo <= hi <= aj.Length == ax.Length && aj as object != ax && |temp| == hi - lo
    modifies aj, ax
    ensures var e0 := Zip(old(aj[..]), old(ax[..])); Zip(aj[..], ax[..]) == e0[..lo] + temp + e0[hi..]
  {
    var n := 0;
    for jj := lo to hi
      invariant n == jj - lo
      invariant forall p | 0 <= p < aj.Length ::
        (aj[p], ax[p]) == if lo <= p < jj then temp[p - lo] else (old(aj[p]), old(ax[p]))
    {
      aj[jj] := temp[n].0;
      ax[jj] := temp[n].1;
      n := n + 1;
    }
  }

  lemma RowSorted(e1: seq<Entry>, e: seq<Entry>, e0: seq<Entry>, ends: seq<int>, i: nat)
    requires i + 1 < |ends| && |e| == |e1| && RowEnds(ends, |ends| - 1, |e|) && SameFrom(e1, e0, ends[i])
    requires var lo, hi := ends[i], ends[i + 1];
      && e[..lo] == e1[..lo] && e[hi..] == e1[hi..]
      && SortedRow(e[lo..hi]) && multiset(e[lo..hi]) == multiset(e1[lo..hi])
    requires forall r | 0 <= r < i :: SortedFrom(e1, e0, ends, r)
    ensures SameFrom(e, e0, ends[i + 1])
    ensures forall r | 0 <= r <= i :: SortedFrom(e, e0, ends, r)
  {
    SameLater(e1, e0, ends[i], ends[i + 1]);
    forall r | 0 <= r < i
      ensures SortedFrom(e, e0, ends, r)
    {
      assert SortedFrom(e1, e0, ends, r);
      SameEarlier(e, e1, ends[r], ends[r + 1], ends[i]);
    }
  }

  // ---- adding up duplicates ----

  /** How many entries at the front of a row are in the same column. */
  ghost function SameColumn(row: seq<Entry>): (k: nat)
    requires row != []
    ensures 0 < k <= |row|
    ensures forall i | 0 <= i < k :: row[i].0 == row[0].0
    ensures k < |row| ==> row[k].0 != row[0].0
  {
    if |row| > 1 && row[1].0 == row[0].0 then 1 + SameColumn(row[1..]) else 1
  }

  ghost function ValueSum(row: seq<Entry>): real {
    if row == [] then 0.0 else ValueSum(row[..|row| - 1]) + row[|row| - 1].1
  }

  /** Each stretch of entries in one column, as one entry. */
  ghost function Merged(row: seq<Entry>): (m: seq<Entry>)
    ensures |m| <= |row|
  {
    if row == [] then []
    else
      var k := SameColumn(row);
      [(row[0].0, ValueSum(row[..k]))] + Merged(row[k..])
  }

  lemma {:induction false} OneColumnSum(row: seq<Entry>, c: int, d: int)
    requires forall e | e in row :: e.0 == c
    ensures EntrySum(row, d) == if d == c then ValueSum(row) else 0.0
  {
    if row != [] {
      var front, last := row[..|row| - 1], row[|row| - 1];
      assert forall e | e in front :: e in row;
      OneColumnSum(front, c, d);
      assert row == front + [last] && last in row;
      EntrySumAppend(front, [last], d);
    }
  }

  /** Adding up duplicates does not change what a row denotes. */
  lemma {:induction false} MergedDenotesTheSame(row: seq<Entry>, c: int)
    ensures EntrySum(Merged(row), c) == EntrySum(row, c)
    decreases |row|
  {
    if row != [] {
      var k := SameColumn(row);
      var first: Entry := (row[0].0, ValueSum(row[..k]));
      assert Merged(row) == [first] + Merged(row[k..]);
      assert row[..k] + row[k..] == row;
      OneEntrySum(first, c);
      hide EntrySum, ValueSum, Merged, SameColumn;
      OneColumnSum(row[..k], row[0].0, c);
      MergedDenotesTheSame(row[k..], c);
      EntrySumAppend(row[..k], row[k..], c);
      EntrySumAppend([first], Merged(row[k..]), c);
    }
  }

  lemma OneEntrySum(e: Entry, c: int)
    ensures EntrySum([e], c) == if e.0 == c then e.1 else 0.0
  {
    assert [e][1..] == [];
  }

  /** In a sorted row no duplicates are left. */
  lemma {:induction false} MergedIsStrict(row: seq<Entry>)
    requires SortedRow(row)
    ensures StrictRow(Merged(row))
    ensures row != [] ==> forall i | 0 <= i < |Merged(row)| :: Merged(row)[i].0 >= row[0].0
    decreases |row|
  {
    if row != [] {
      var k := SameColumn(row);
      MergedIsStrict(row[k..]);
      PrependStrict((row[0].0, ValueSum(row[..k])), Merged(row[k..]), if k < |row| then row[k].0 else row[0].0 + 1);
    }
  }

  lemma PrependStrict(first: Entry, rest: seq<Entry>, least: int)
    requires StrictRow(rest) && first.0 < least && forall i | 0 <= i < |rest| :: rest[i].0 >= least
    ensures StrictRow([first] + rest)
    ensures forall i | 0 <= i < |[first] + rest| :: ([first] + rest)[i].0 >= first.0
  {
  }

  lemma {:induction false} SameColumnIs(row: seq<Entry>, k: nat)
    requires 0 < k <= |row| && (forall i | 0 <= i < k :: row[i].0 == row[0].0)
    requires k < |row| ==> row[k].0 != row[0].0
    ensures SameColumn(row) == k
  {
    if k > 1 {
      SameColumnIs(row[1..], k - 1);
    }
  }

  lemma ValueSumPush(e: seq<Entry>, lo: nat, hi: nat)
    requires lo <= hi < |e|
    ensures ValueSum(e[lo..hi + 1]) == ValueSum(e[lo..hi]) + e[hi].1
  {
    assert e[lo..hi + 1][..hi - lo] == e[lo..hi];
  }

  /** Adds up the entries from jj0 on that are in its column. */
  method SumColumn(aj: array<int>, ax: array<real>, jj0: int, hi: int) returns (jj: int, x: real)
    requires 0 <= jj0 < hi <= aj.Length == ax.Length
    ensures jj == jj0 + SameColumn(Zip(aj[..], ax[..])[jj0..hi]) <= hi
    ensures x == ValueSum(Zip(aj[..], ax[..])[jj0..jj])
  {
    ghost var e := Zip(aj[..], ax[..]);
    jj := jj0;
    var j := aj[jj];
    x := ax[jj];
    assert e[jj0..jj0 + 1] == [(j, x)] && ValueSum([(j, x)]) == x;
    hide ValueSum;
    jj := jj + 1;
    while jj < hi && aj[jj] == j
      invariant jj0 < jj <= hi
      invariant forall p | jj0 <= p < jj :: aj[p] == j
      invariant x == ValueSum(e[jj0..jj])
    {
      ValueSumPush(e, jj0, jj);
      assert e[jj].1 == ax[jj];
      x := x + ax[jj];
      jj := jj + 1;
    }
    SameColumnIs(e[jj0..hi], jj - jj0);
  }

  /** The inner loop of `csr_sum_duplicates`: moves a row, merged, to the front part of the buffers.
      What is written never gets ahead of what is still to be read. */
  method MergeRow(aj: array<int>, ax: array<real>, nnz0: int, lo: int, hi: int) returns (nnz: int)
    requires 0 <= nnz0 <= lo <= hi <= aj.Length == ax.Length && aj as object != ax
    modifies aj, ax
    ensures nnz0 <= nnz <= hi
    ensures var e, e0 := Zip(aj[..], ax[..]), Zip(old(aj[..]), old(ax[..]));
      && e[..nnz0] == e0[..nnz0] && e[hi..] == e0[hi..] && e[nnz0..nnz] == Merged(e0[lo..hi])
  {
    hide Merged, Merging;
    ghost var e0 := Zip(aj[..], ax[..]);
    MergingStart(e0, nnz0, lo, hi);
    nnz := nnz0;
    var jj := lo;
    while jj < hi
      invariant nnz0 <= nnz <= jj && lo <= jj <= hi
      invariant Merging(Zip(aj[..], ax[..]), e0, nnz0, nnz, lo, jj, hi)
    {
      nnz, jj := MergeColumn(aj, ax, nnz0, nnz, lo, jj, hi, e0);
    }
    MergingEnd(Zip(aj[..], ax[..]), e0, nnz0, nnz, lo, hi);
  }

  lemma MergingStart(e0: seq<Entry>, nnz0: int, lo: int, hi: int)
    requires 0 <= nnz0 <= lo <= hi <= |e0|
    ensures Merging(e0, e0, nnz0, nnz0, lo, lo, hi)
  {
    hide Merged;
  }

  lemma MergingEnd(e: seq<Entry>, e0: seq<Entry>, nnz0: int, nnz: int, lo: int, hi: int)
    requires 0 <= nnz0 <= nnz <= |e| && 0 <= lo <= hi <= |e0| && Merging(e, e0, nnz0, nnz, lo, hi, hi)
    ensures |e| == |e0| && e[..nnz0] == e0[..nnz0] && e[hi..] == e0[hi..] && e[nnz0..nnz] == Merged(e0[lo..hi])
  {
    assert e0[hi..hi] == [];
  }

  /** Part of a row is merged: what is written, and what is still to be read. */
  ghost predicate Merging(e: seq<Entry>, e0: seq<Entry>, nnz0: int, nnz: int, lo: int, jj: int, hi: int)
    requires 0 <= nnz0 <= nnz <= |e| && 0 <= lo <= jj <= hi <= |e0|
  {
    SameFrom(e, e0, jj) && e[..nnz0] == e0[..nnz0] && e[nnz0..nnz] + Merged(e0[jj..hi]) == Merged(e0[lo..hi])
  }

  /** One entry of a merged row. */
  method MergeColumn(aj: array<int>, ax: array<real>, ghost nnz0: int, nnz1: int, ghost lo: int, jj1: int, hi: int,
                     ghost e0: seq<Entry>) returns (nnz: int, jj: int)
    requires 0 <= nnz0 <= nnz1 <= jj1 < hi <= aj.Length == ax.Length == |e0| && aj as object != ax && 0 <= lo <= jj1
    requires Merging(Zip(aj[..], ax[..]), e0, nnz0, nnz1, lo, jj1, hi)
    modifies aj, ax
    ensures nnz0 <= nnz <= jj && jj1 < jj <= hi
    ensures Merging(Zip(aj[..], ax[..]), e0, nnz0, nnz, lo, jj, hi)
  {
    hide Merging, SameColumn, ValueSum;
    ghost var e1 := Zip(aj[..], ax[..]);
    var j := aj[jj1];
    var x;
    jj, x := SumColumn(aj, ax, jj1, hi);
    aj[nnz1] := j;
    ax[nnz1] := x;
    nnz := nnz1 + 1;
    assert Zip(aj[..], ax[..]) == e1[nnz1 := (j, x)];
    MergeStep(e1, e0, nnz0, nnz1, lo, jj1, jj, hi);
  }

  lemma MergeStep(e1: seq<Entry>, e0: seq<Entry>, nnz0: int, nnz: int, lo: int, jj1: int, jj: int, hi: int)
    requires 0 <= nnz0 <= nnz <= jj1 < hi <= |e1| == |e0| && 0 <= lo <= jj1
    requires Merging(e1, e0, nnz0, nnz, lo, jj1, hi)
    requires jj == jj1 + SameColumn(e1[jj1..hi]) <= hi
    ensures Merging(e1[nnz := (e1[jj1].0, ValueSum(e1[jj1..jj]))], e0, nnz0, nnz + 1, lo, jj, hi)
  {
    var x: Entry := (e1[jj1].0, ValueSum(e1[jj1..jj]));
    var e, rest := e1[nnz := x], Merged(e0[jj..hi]);
    SameLater(e1, e0, jj1, hi);
    MergedFront(e1, e0, jj1, jj, hi);
    hide Merged, SameColumn, ValueSum;
    SameLater(e1, e0, jj1, jj);
    WriteOne(e1, nnz0, nnz, x);
    WriteBefore(e1, nnz, jj, x);
    Regroup(e1[nnz0..nnz], [x], rest);
  }

  lemma Regroup(a: seq<Entry>, b: seq<Entry>, c: seq<Entry>)
    ensures a + b + c == a + (b + c)
  {
  }

  lemma WriteBefore(e: seq<Entry>, nnz: int, jj: int, x: Entry)
    requires 0 <= nnz < jj <= |e|
    ensures e[nnz := x][jj..] == e[jj..]
  {
  }

  lemma WriteOne(e: seq<Entry>, nnz0: int, nnz: int, x: Entry)
    requires 0 <= nnz0 <= nnz < |e|
    ensures e[nnz := x][..nnz0] == e[..nnz0]
    ensures e[nnz := x][nnz0..nnz + 1] == e[nnz0..nnz] + [x]
  {
  }

  lemma MergedFront(e1: seq<Entry>, e0: seq<Entry>, jj1: int, jj: int, hi: int)
    requires 0 <= jj1 < hi <= |e1| == |e0| && e1[jj1..hi] == e0[jj1..hi]
    requires jj == jj1 + SameColumn(e1[jj1..hi]) <= hi
    ensures Merged(e0[jj1..hi]) == [(e1[jj1].0, ValueSum(e1[jj1..jj]))] + Merged(e0[jj..hi])
  {
    var row := e0[jj1..hi];
    assert row[..jj - jj1] == e1[jj1..hi][..jj - jj1] == e1[jj1..jj];
    assert row[jj - jj1..] == e0[jj..hi];
    assert row[0] == e1[jj1..hi][0] == e1[jj1];
  }

  /** Row `r`, between its new ends, is what was between its old ones, with duplicates added up. */
  ghost predicate MergedFrom(ap: seq<int>, e: seq<Entry>, ends: seq<int>, e0: seq<Entry>, r: int) {
    && 0 <= r < |ap| - 1 && |ap| == |ends| && |e| == |e0|
    && 0 <= ap[r] <= ap[r + 1] <= |e| && 0 <= ends[r] <= ends[r + 1] <= |e|
    && e[ap[r]..ap[r + 1]] == Merged(e0[ends[r]..ends[r + 1]])
  }

  /** `csr_sum_duplicates`. */
  method SumDuplicates(nRow: nat, ap: array<int>, aj: array<int>, ax: array<real>)
    requires Distinct(ap, aj, ax) && aj.Length == ax.Length && RowEnds(ap[..], nRow, aj.Length)
    modifies ap, aj, ax
    ensures ap[0] == 0
    ensures forall r | 0 <= r < nRow ::
      MergedFrom(ap[..], Zip(aj[..], ax[..]), old(ap[..]), Zip(old(aj[..]), old(ax[..])), r)
  {
    ghost var ends, e0 := ap[..], Zip(aj[..], ax[..]);
    var nnz := 0;
    var rowEnd := 0;
    for i := 0 to nRow
      invariant Compacted(i, nnz, rowEnd, ap[..], Zip(aj[..], ax[..]), ends, e0)
    {
      ghost var ap1, e1, nnz1 := ap[..], Zip(aj[..], ax[..]), nnz;
      var jj := rowEnd;
      rowEnd := ap[i + 1];
      assert ap1[i + 1..][0] == ends[i + 1..][0];
      nnz := MergeRow(aj, ax, nnz, jj, rowEnd);
      ap[i + 1] := nnz;
      assert ap[..] == ap1[i + 1 := nnz];
      CompactOne(i, nnz1, nnz, jj, rowEnd, ap1, e1, Zip(aj[..], ax[..]), ends, e0);
    }
  }

  /** After `i` rows: the new ends so far, and the rows between them; the rest is as it was. */
  ghost predicate Compacted(i: nat, nnz: int, rowEnd: int, ap: seq<int>, e: seq<Entry>, ends: seq<int>, e0: seq<Entry>) {
    && |ap| == |ends| > i && RowEnds(ends, |ends| - 1, |e0|) && ap[0] == 0
    && ap[i] == nnz && 0 <= nnz <= rowEnd == ends[i] && ap[i + 1..] == ends[i + 1..]
    && SameFrom(e, e0, rowEnd)
    && (forall r | 0 <= r <= i :: ap[r] <= nnz)
    && (forall r | 0 <= r < i :: MergedFrom(ap, e, ends, e0, r))
  }

  lemma CompactOne(i: nat, nnz1: int, nnz: int, lo: int, hi: int, ap1: seq<int>, e1: seq<Entry>, e: seq<Entry>,
                   ends: seq<int>, e0: seq<Entry>)
    requires Compacted(i, nnz1, lo, ap1, e1, ends, e0) && i + 1 < |ends|
    requires hi == ends[i + 1] && |e| == |e1| && nnz1 <= nnz <= hi && lo <= hi
    requires e[..nnz1] == e1[..nnz1] && e[hi..] == e1[hi..] && e[nnz1..nnz] == Merged(e1[lo..hi])
    ensures Compacted(i + 1, nnz, hi, ap1[i + 1 := nnz], e, ends, e0)
  {
    var ap := ap1[i + 1 := nnz];
    SameLater(e1, e0, lo, hi);
    forall r | 0 <= r < i
      ensures MergedFrom(ap, e, ends, e0, r)
    {
      assert MergedFrom(ap1, e1, ends, e0, r);
      SameEarlier(e, e1, ap1[r], ap1[r + 1], nnz1);
    }
    assert ap[i + 2..] == ap1[i + 1..][1..] && ends[i + 2..] == ends[i + 1..][1..];
  }

  // ---- the whole conversion ----

  /** Row `r`, between its ends, holds the entries `row`. */
  ghost predicate RowIs(e: seq<Entry>, ends: seq<int>, r: int, row: seq<Entry>) {
    && 0 <= r < |ends| - 1 && 0 <= ends[r] <= ends[r + 1] <= |e|
    && e[ends[r]..ends[r + 1]] == row
  }

  lemma StartsInOrder(nRow: nat, ts: seq<Triple>, bp: seq<int>)
    requires forall t | t in ts :: t.row < nRow
    requires |bp| == nRow + 1 && forall r | 0 <= r <= nRow :: bp[r] == RowStart(ts, r)
    ensures RowEnds(bp, nRow, |ts|) && bp[nRow] == |ts|
  {
    RowStartAll(ts, nRow);
    forall i, j | 0 <= i <= j <= nRow
      ensures bp[i] <= bp[j]
    {
      RowStartMonotone(ts, i, j);
    }
  }

  lemma OneRowIs(e: seq<Entry>, ends: seq<int>, bj: seq<int>, bx: seq<real>, r: nat, row: seq<Entry>)
    requires |bj| == |bx| && e == Zip(bj, bx) && r + 1 < |ends|
    requires 0 <= ends[r] && ends[r + 1] == ends[r] + |row| && Holds(bj, bx, ends[r], row)
    ensures RowIs(e, ends, r, row)
  {
  }

  /** After the counting sort, the rows hold the entries of the triples, in their order. */
  lemma RowsAreTriples(nRow: nat, ts: seq<Triple>, bp: seq<int>, bj: seq<int>, bx: seq<real>)
    requires forall t | t in ts :: t.row < nRow
    requires |bp| == nRow + 1 && |bj| == |bx| == |ts|
    requires forall r | 0 <= r <= nRow :: bp[r] == RowStart(ts, r)
    requires forall r | 0 <= r < nRow :: Holds(bj, bx, RowStart(ts, r), RowOf(ts, r))
    ensures RowEnds(bp, nRow, |ts|) && bp[nRow] == |ts|
    ensures forall r | 0 <= r < nRow :: RowIs(Zip(bj, bx), bp, r, RowOf(ts, r))
  {
    forall r | 0 <= r < nRow
      ensures RowIs(Zip(bj, bx), bp, r, RowOf(ts, r))
    {
      assert RowStart(ts, r + 1) == RowStart(ts, r) + |RowOf(ts, r)|;
      OneRowIs(Zip(bj, bx), bp, bj, bx, r, RowOf(ts, r));
    }
    StartsInOrder(nRow, ts, bp);
  }

  /** Row `r` of the result denotes row `r` of the triples, with strictly increasing columns. */
  ghost predicate Compressed(ts: seq<Triple>, e: seq<Entry>, ends: seq<int>, r: int) {
    && 0 <= r < |ends| - 1 && 0 <= ends[r] <= ends[r + 1] <= |e|
    && StrictRow(e[ends[r]..ends[r + 1]])
    && forall c :: EntrySum(e[ends[r]..ends[r + 1]], c) == TripleSum(ts, r, c)
  }

  lemma RowConverted(ts: seq<Triple>, r: int, e0: seq<Entry>, e1: seq<Entry>, ends: seq<int>, e2: seq<Entry>, ends2: seq<int>)
    requires RowIs(e0, ends, r, RowOf(ts, r)) && SortedFrom(e1, e0, ends, r) && MergedFrom(ends2, e2, ends, e1, r)
    ensures Compressed(ts, e2, ends2, r)
  {
    var sorted := e1[ends[r]..ends[r + 1]];
    MergedIsStrict(sorted);
    forall c
      ensures EntrySum(e2[ends2[r]..ends2[r + 1]], c) == TripleSum(ts, r, c)
    {
      MergedDenotesTheSame(sorted, c);
      EntrySumPermutation(sorted, RowOf(ts, r), c);
      RowsDenoteTriples(ts, r, c);
    }
  }

  /** The three steps of `setrand_scipy`: the rows denote the matrix that the triples denote, each
      with strictly increasing columns. */
  method SetrandScipy(n: nat, ts: seq<Triple>) returns (ap: array<int>, aj: array<int>, ax: array<real>)
    requires forall t | t in ts :: t.row < n
    ensures ap.Length == n + 1 && aj.Length == ax.Length == |ts| && ap[0] == 0
    ensures forall r | 0 <= r < n :: Compressed(ts, Zip(aj[..], ax[..]), ap[..], r)
  {
    ap := new int[n + 1];
    aj := new int[|ts|];
    ax := new real[|ts|];
    CooToCsr(n, ts, ap, aj, ax);
    ghost var ends, e0 := ap[..], Zip(aj[..], ax[..]);
    RowsAreTriples(n, ts, ends, aj[..], ax[..]);
    SortIndices(n, ap, aj, ax);
    ghost var e1 := Zip(aj[..], ax[..]);
    assert ap[..] == ends;
    SumDuplicates(n, ap, aj, ax);
    forall r | 0 <= r < n
      ensures Compressed(ts, Zip(aj[..], ax[..]), ap[..], r)
    {
      RowConverted(ts, r, e0, e1, ends, Zip(aj[..], ax[..]), ap[..]);
    }
  }
}
