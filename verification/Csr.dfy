/** Converting a matrix given by triples to compressed rows: a counting sort by row, a sort of each
    row by column, and adding up duplicates, all in place. */
module Csr {
  import opened Sequences

  /** An entry's column and value. */
  type Entry = (int, real)

  datatype Triple = Triple(row: nat, col: int, value: real)

  // ---- what triples and rows denote ----

  /** The sum of the values of a row's entries in column `c`. */
  ghost function EntrySum(row: seq<Entry>, c: int): real {
    if row == [] then 0.0 else (if row[0].0 == c then row[0].1 else 0.0) + EntrySum(row[1..], c)
  }

  /** The sum of the values of all triples at (r, c). */
  ghost function TripleSum(ts: seq<Triple>, r: int, c: int): real {
    if ts == [] then 0.0
    else
      var last := ts[|ts| - 1];
      TripleSum(ts[..|ts| - 1], r, c) + (if last.row == r && last.col == c then last.value else 0.0)
  }

  /** The entries of row `r`, in the order in which their triples come. */
  ghost function RowOf(ts: seq<Triple>, r: int): seq<Entry> {
    if ts == [] then []
    else
      var front, last := RowOf(ts[..|ts| - 1], r), ts[|ts| - 1];
      if last.row == r then front + [(last.col, last.value)] else front
  }

  /** How many triples are in the rows before `r`. */
  ghost function RowStart(ts: seq<Triple>, r: nat): nat {
    if r == 0 then 0 else RowStart(ts, r - 1) + |RowOf(ts, r - 1)|
  }

  lemma {:induction false} EntrySumAppend(a: seq<Entry>, b: seq<Entry>, c: int)
    ensures EntrySum(a + b, c) == EntrySum(a, c) + EntrySum(b, c)
  {
    if a == [] {
      assert a + b == b;
    } else {
      assert (a + b)[1..] == a[1..] + b;
      EntrySumAppend(a[1..], b, c);
    }
  }

  lemma EntrySumWithout(s: seq<Entry>, j: nat, c: int)
    requires j < |s|
    ensures EntrySum(s, c) == EntrySum([s[j]], c) + EntrySum(Without(s, j), c)
  {
    assert s == s[..j] + s[j..] && s[j..] == [s[j]] + s[j + 1..];
    EntrySumAppend(s[..j], s[j..], c);
    EntrySumAppend([s[j]], s[j + 1..], c);
    EntrySumAppend(s[..j], s[j + 1..], c);
  }

  lemma {:induction false} EntrySumPermutation(a: seq<Entry>, b: seq<Entry>, c: int)
    requires multiset(a) == multiset(b)
    ensures EntrySum(a, c) == EntrySum(b, c)
  {
    if a == [] {
      SameMembers(a, b);
    } else {
      var j := PermutationStep(a, b);
      EntrySumWithout(b, j, c);
      assert [a[0]][1..] == [];
      EntrySumPermutation(a[1..], Without(b, j), c);
    }
  }

  /** The rows of a list of triples denote the same matrix. */
  lemma {:induction false} RowsDenoteTriples(ts: seq<Triple>, r: int, c: int)
    ensures EntrySum(RowOf(ts, r), c) == TripleSum(ts, r, c)
  {
    if ts != [] {
      var last := ts[|ts| - 1];
      RowsDenoteTriples(ts[..|ts| - 1], r, c);
      if last.row == r {
        EntrySumAppend(RowOf(ts[..|ts| - 1], r), [(last.col, last.value)], c);
      }
    }
  }

  lemma RowPush(ts: seq<Triple>, n: nat, r: int)
    requires n < |ts|
    ensures RowOf(ts[..n + 1], r)
      == if ts[n].row == r then RowOf(ts[..n], r) + [(ts[n].col, ts[n].value)] else RowOf(ts[..n], r)
  {
    assert ts[..n + 1][..n] == ts[..n];
  }

  lemma {:induction false} RowGrows(ts: seq<Triple>, n: nat, r: int)
    requires n <= |ts|
    ensures |RowOf(ts[..n], r)| <= |RowOf(ts, r)|
    decreases |ts| - n
  {
    if n == |ts| {
      assert ts[..n] == ts;
    } else {
      RowPush(ts, n, r);
      RowGrows(ts, n + 1, r);
    }
  }

  lemma {:induction false} RowStartMonotone(ts: seq<Triple>, q: nat, r: nat)
    requires q <= r
    ensures RowStart(ts, q) <= RowStart(ts, r)
    decreases r
  {
    if q < r { RowStartMonotone(ts, q, r - 1); }
  }

  lemma {:induction false} RowStartPush(ts: seq<Triple>, r: nat)
    requires ts != []
    ensures RowStart(ts, r) == RowStart(ts[..|ts| - 1], r) + if ts[|ts| - 1].row < r then 1 else 0
  {
    if r > 0 { RowStartPush(ts, r - 1); }
  }

  /** The rows hold all the triples. */
  lemma {:induction false} RowStartAll(ts: seq<Triple>, nRow: nat)
    requires forall t | t in ts :: t.row < nRow
    ensures RowStart(ts, nRow) == |ts|
  {
    if ts == [] {
      NoRows(nRow);
    } else {
      assert ts[|ts| - 1] in ts;
      RowStartAll(ts[..|ts| - 1], nRow);
      RowStartPush(ts, nRow);
    }
  }

  lemma {:induction false} NoRows(r: nat)
    ensures RowStart([], r) == 0
  {
    if r > 0 { NoRows(r - 1); }
  }

  // ---- counting sort ----

  /** The slots of row `r` that hold entries hold `row`. */
  ghost predicate Holds(bj: seq<int>, bx: seq<real>, start: nat, row: seq<Entry>) {
    start + |row| <= |bj| == |bx|
    && forall p | start <= p < start + |row| :: (bj[p], bx[p]) == row[p - start]
  }

  /** The three buffers of a matrix do not overlap. */
  ghost predicate Distinct(bp: array<int>, bj: array<int>, bx: array<real>) {
    bp != bj && bp as object != bx && bj as object != bx
  }

  /** `coo_tocsr`: row `r` ends up between bp[r] and bp[r + 1], its entries in the order of their triples. */
  method CooToCsr(nRow: nat, ts: seq<Triple>, bp: array<int>, bj: array<int>, bx: array<real>)
    requires forall t | t in ts :: t.row < nRow
    requires bp.Length == nRow + 1 && bj.Length == |ts| && bx.Length == |ts| && Distinct(bp, bj, bx)
    modifies bp, bj, bx
    ensures forall r | 0 <= r <= nRow :: bp[r] == RowStart(ts, r)
    ensures forall r | 0 <= r < nRow :: Holds(bj[..], bx[..], RowStart(ts, r), RowOf(ts, r))
  {
    CountRows(nRow, ts, bp);
    SumCounts(nRow, ts, bp);
    PlaceEntries(nRow, ts, bp, bj, bx);
    assert ts[..|ts|] == ts;
    ShiftRows(nRow, ts, bp);
  }

  /** The first two loops: how many entries each row has. */
  method CountRows(nRow: nat, ts: seq<Triple>, bp: array<int>)
    requires forall t | t in ts :: t.row < nRow
    requires bp.Length == nRow + 1
    modifies bp
    ensures forall r | 0 <= r < nRow :: bp[r] == |RowOf(ts, r)|
  {
    for i := 0 to nRow
      invariant forall r | 0 <= r < i :: bp[r] == 0
    {
      bp[i] := 0;
    }
    for n := 0 to |ts|
      invariant forall r | 0 <= r < nRow :: bp[r] == |RowOf(ts[..n], r)|
    {
      assert ts[n] in ts;
      RowsPush(ts, n, nRow);
      bp[ts[n].row] := bp[ts[n].row] + 1;
    }
    assert ts[..|ts|] == ts;
  }

  lemma RowsPush(ts: seq<Triple>, n: nat, nRow: nat)
    requires n < |ts|
    ensures forall r | 0 <= r < nRow ::
      |RowOf(ts[..n + 1], r)| == |RowOf(ts[..n], r)| + (if ts[n].row == r then 1 else 0)
  {
    forall r | 0 <= r < nRow
      ensures |RowOf(ts[..n + 1], r)| == |RowOf(ts[..n], r)| + (if ts[n].row == r then 1 else 0)
    {
      RowPush(ts, n, r);
    }
  }

  ghost function Counts(ts: seq<Triple>, nRow: nat): (counts: seq<int>)
    ensures |counts| == nRow && forall r | 0 <= r < nRow :: counts[r] == |RowOf(ts, r)|
  {
    seq(nRow, r requires 0 <= r < nRow => |RowOf(ts, r)|)
  }

  ghost function Starts(ts: seq<Triple>, nRow: nat): (starts: seq<int>)
    ensures |starts| == nRow + 1 && starts[0] == 0 && forall r | 0 <= r <= nRow :: starts[r] == RowStart(ts, r)
    ensures forall r | 0 <= r < nRow :: starts[r + 1] == starts[r] + |RowOf(ts, r)|
  {
    seq(nRow + 1, r requires 0 <= r <= nRow => RowStart(ts, r))
  }

  /** The third loop: the running sums of the counts. */
  method SumCounts(nRow: nat, ts: seq<Triple>, bp: array<int>)
    requires forall t | t in ts :: t.row < nRow
    requires bp.Length == nRow + 1
    requires forall r | 0 <= r < nRow :: bp[r] == |RowOf(ts, r)|
    modifies bp
    ensures forall r | 0 <= r <= nRow :: bp[r] == RowStart(ts, r)
  {
    ghost var counts := Counts(ts, nRow);
    ghost var starts := Starts(ts, nRow);
    hide RowOf, RowStart;
    RunningSums(nRow, bp, counts, starts);
    RowStartAll(ts, nRow);
    bp[nRow] := |ts|;
  }

  method RunningSums(nRow: nat, bp: array<int>, ghost counts: seq<int>, ghost starts: seq<int>)
    requires bp.Length == nRow + 1 == |starts| && |counts| == nRow
    requires starts[0] == 0 && forall r | 0 <= r < nRow :: starts[r + 1] == starts[r] + counts[r]
    requires forall r | 0 <= r < nRow :: bp[r] == counts[r]
    modifies bp
    ensures forall r | 0 <= r < nRow :: bp[r] == starts[r]
  {
    var cumsum := 0;
    for i := 0 to nRow
      invariant cumsum == starts[i]
      invariant forall r | 0 <= r < i :: bp[r] == starts[r]
      invariant forall r | i <= r < nRow :: bp[r] == counts[r]
    {
      var temp := bp[i];
      bp[i] := cumsum;
      cumsum := cumsum + temp;
    }
  }

  /** After `n` triples: each row's next slot, and what its slots hold. */
  ghost predicate Placed(ts: seq<Triple>, n: nat, nRow: nat, bp: seq<int>, bj: seq<int>, bx: seq<real>)
    requires n <= |ts|
  {
    && |bp| == nRow + 1 && |bj| == |bx| == |ts| && bp[nRow] == RowStart(ts, nRow)
    && forall r | 0 <= r < nRow ::
      bp[r] == RowStart(ts, r) + |RowOf(ts[..n], r)| && Holds(bj, bx, RowStart(ts, r), RowOf(ts[..n], r))
  }

  /** The loop that writes each triple into the next slot of its row. */
  method PlaceEntries(nRow: nat, ts: seq<Triple>, bp: array<int>, bj: array<int>, bx: array<real>)
    requires forall t | t in ts :: t.row < nRow
    requires bp.Length == nRow + 1 && bj.Length == |ts| && bx.Length == |ts| && Distinct(bp, bj, bx)
    requires forall r | 0 <= r <= nRow :: bp[r] == RowStart(ts, r)
    modifies bp, bj, bx
    ensures Placed(ts, |ts|, nRow, bp[..], bj[..], bx[..])
  {
    NothingPlaced(ts, nRow, bp[..], bj[..], bx[..]);
    for n := 0 to |ts|
      invariant Placed(ts, n, nRow, bp[..], bj[..], bx[..])
    {
      PlaceEntry(nRow, ts, n, bp, bj, bx);
    }
  }

  method PlaceEntry(nRow: nat, ts: seq<Triple>, n: nat, bp: array<int>, bj: array<int>, bx: array<real>)
    requires n < |ts| && forall t | t in ts :: t.row < nRow
    requires Distinct(bp, bj, bx) && Placed(ts, n, nRow, bp[..], bj[..], bx[..])
    modifies bp, bj, bx
    ensures Placed(ts, n + 1, nRow, bp[..], bj[..], bx[..])
  {
    ghost var bp0, bj0, bx0 := bp[..], bj[..], bx[..];
    assert ts[n] in ts;
    var row := ts[n].row;
    assert bp0[row] == bp[row];
    var dest := bp[row];
    PlaceOne(ts, n, nRow, bp0, bj0, bx0, dest);
    bj[dest] := ts[n].col;
    bx[dest] := ts[n].value;
    bp[row] := bp[row] + 1;
    assert bp[..] == bp0[row := dest + 1];
    assert bj[..] == bj0[dest := ts[n].col];
    assert bx[..] == bx0[dest := ts[n].value];
  }

  lemma NothingPlaced(ts: seq<Triple>, nRow: nat, bp: seq<int>, bj: seq<int>, bx: seq<real>)
    requires forall t | t in ts :: t.row < nRow
    requires |bp| == nRow + 1 && |bj| == |bx| == |ts|
    requires forall r | 0 <= r <= nRow :: bp[r] == RowStart(ts, r)
    ensures Placed(ts, 0, nRow, bp, bj, bx)
  {
    RowStartAll(ts, nRow);
    assert ts[..0] == [];
    forall r | 0 <= r < nRow
      ensures RowStart(ts, r) <= |ts|
    {
      RowStartMonotone(ts, r, nRow);
    }
  }

  lemma PlaceOne(ts: seq<Triple>, n: nat, nRow: nat, bp: seq<int>, bj: seq<int>, bx: seq<real>, dest: int)
    requires forall t | t in ts :: t.row < nRow
    requires n < |ts| && ts[n].row < nRow && Placed(ts, n, nRow, bp, bj, bx) && dest == bp[ts[n].row]
    ensures 0 <= dest < |ts|
    ensures Placed(ts, n + 1, nRow, bp[ts[n].row := dest + 1], bj[dest := ts[n].col], bx[dest := ts[n].value])
  {
    var row := ts[n].row;
    FreeSlot(ts, n, nRow);
    hide Holds, RowOf, RowStart;
    forall r | 0 <= r < nRow
      ensures bp[row := dest + 1][r] == RowStart(ts, r) + |RowOf(ts[..n + 1], r)|
      ensures Holds(bj[dest := ts[n].col], bx[dest := ts[n].value], RowStart(ts, r), RowOf(ts[..n + 1], r))
    {
      OneMoreEntry(ts, n, r, nRow, dest, bj, bx);
    }
  }

  /** A row ends where the next one starts. */
  lemma RowEnd(ts: seq<Triple>, r: nat)
    ensures RowStart(ts, r + 1) == RowStart(ts, r) + |RowOf(ts, r)|
  {
  }

  /** The next slot of the row of triple n is inside the buffers. */
  lemma FreeSlot(ts: seq<Triple>, n: nat, nRow: nat)
    requires (forall t | t in ts :: t.row < nRow) && n < |ts| && ts[n].row < nRow
    ensures RowStart(ts, ts[n].row) + |RowOf(ts[..n], ts[n].row)| < |ts|
  {
    var row := ts[n].row;
    hide RowOf, RowStart;
    RowPush(ts, n, row);
    RowEnd(ts, row);
    RowGrows(ts, n + 1, row);
    RowStartMonotone(ts, row + 1, nRow);
    RowStartAll(ts, nRow);
  }

  lemma OneMoreEntry(ts: seq<Triple>, n: nat, r: nat, nRow: nat, dest: nat, bj: seq<int>, bx: seq<real>)
    requires n < |ts| == |bj| == |bx| && r < nRow && ts[n].row < nRow
    requires dest == RowStart(ts, ts[n].row) + |RowOf(ts[..n], ts[n].row)| < |ts|
    requires Holds(bj, bx, RowStart(ts, r), RowOf(ts[..n], r))
    ensures |RowOf(ts[..n + 1], r)| == |RowOf(ts[..n], r)| + if ts[n].row == r then 1 else 0
    ensures Holds(bj[dest := ts[n].col], bx[dest := ts[n].value], RowStart(ts, r), RowOf(ts[..n + 1], r))
  {
    hide Holds, RowOf, RowStart;
    RowPush(ts, n, r);
    RowEnd(ts, r);
    if r < ts[n].row {
      RowGrows(ts, n, r);
      RowStartMonotone(ts, r + 1, ts[n].row);
      OtherSlot(bj, bx, RowStart(ts, r), RowOf(ts[..n], r), dest, ts[n].col, ts[n].value);
    } else if r > ts[n].row {
      RowPush(ts, n, ts[n].row);
      RowEnd(ts, ts[n].row);
      RowGrows(ts, n + 1, ts[n].row);
      RowStartMonotone(ts, ts[n].row + 1, r);
      OtherSlot(bj, bx, RowStart(ts, r), RowOf(ts[..n], r), dest, ts[n].col, ts[n].value);
    } else {
      NextSlot(bj, bx, RowStart(ts, r), RowOf(ts[..n], r), ts[n].col, ts[n].value);
    }
  }

  lemma NextSlot(bj: seq<int>, bx: seq<real>, start: nat, row: seq<Entry>, col: int, value: real)
    requires Holds(bj, bx, start, row) && start + |row| < |bj|
    ensures Holds(bj[start + |row| := col], bx[start + |row| := value], start, row + [(col, value)])
  {
  }

  lemma OtherSlot(bj: seq<int>, bx: seq<real>, start: nat, row: seq<Entry>, dest: nat, col: int, value: real)
    requires Holds(bj, bx, start, row) && dest < |bj| == |bx| && (dest < start || start + |row| <= dest)
    ensures Holds(bj[dest := col], bx[dest := value], start, row)
  {
  }

  /** The last loop, which moves the row ends back by one. */
  method ShiftRows(nRow: nat, ts: seq<Triple>, bp: array<int>)
    requires bp.Length == nRow + 1
    requires forall r | 0 <= r < nRow :: bp[r] == RowStart(ts, r + 1)
    modifies bp
    ensures forall r | 0 <= r <= nRow :: bp[r] == RowStart(ts, r)
  {
    hide RowOf, RowStart;
    ShiftBack(nRow, bp, Starts(ts, nRow));
  }

  method ShiftBack(nRow: nat, bp: array<int>, ghost starts: seq<int>)
    requires bp.Length == nRow + 1 == |starts| && starts[0] == 0
    requires forall r | 0 <= r < nRow :: bp[r] == starts[r + 1]
    modifies bp
    ensures forall r | 0 <= r <= nRow :: bp[r] == starts[r]
  {
    var last := 0;
    for i := 0 to nRow + 1
      invariant i <= nRow ==> last == starts[i]
      invariant forall r | 0 <= r < i :: bp[r] == starts[r]
      invariant forall r | i <= r < nRow :: bp[r] == starts[r + 1]
    {
      var temp := bp[i];
      bp[i] := last;
      last := temp;
    }
  }
}
