/** The kernels that solve with a packed or a band triangular matrix. Each walks its storage with a
    running offset, row by row or column by column, and overwrites the right-hand side. */
module PackedSolve {
  import opened Scalars
  import opened Triangular
  import opened TriangularSolve

  /** The stretch of storage from `p` on is row i's part of the triangle, and `d` is the place of its
      diagonal entry. */
  ghost predicate HoldsRow(m: Matrix, i: nat, p: int, d: int)
    requires i < m.n
  {
    var lo, hi := LeftEnd(m, i), RightEnd(m, i);
    && lo <= hi && 0 <= p && p + (hi - lo) <= |m.data| && d == Index(m, i, i)
    && forall j | lo <= j < hi :: InTriangle(m, i, j) && Index(m, i, j) == p + (j - lo)
  }

  /** What a row step leaves of entry i: its value less the given stretch's share, divided by the
      diagonal entry. */
  function RowResult(m: Matrix, x: seq<Complex>, i: nat, p: int, lo: nat, len: nat, d: int): Complex
    requires i < |x| && 0 <= p <= p + len <= |m.data| && lo + len <= |x| && 0 <= d < |m.data|
    requires !m.diagonal.Unit? ==> ConjIf(m.conj, m.data[d]) != ZERO
  {
    var rest := if len > 0 then Sub(x[i], VecDot(m.conj, m.data[p..p + len], x[lo..lo + len])) else x[i];
    if m.diagonal.Unit? then rest else Div(rest, ConjIf(m.conj, m.data[d]))
  }

  lemma DiagonalStored(m: Matrix, i: nat, d: int)
    requires Solvable(m) && i < m.n && d == Index(m, i, i)
    ensures 0 <= d < |m.data|
    ensures if m.diagonal.Unit? then At(m, i, i) == ONE else ConjIf(m.conj, m.data[d]) == At(m, i, i) != ZERO
  {
    IndexInBounds(m, i, i);
  }

  /** Only the stretch's share is taken away, even when there is none. */
  lemma RestIsDifference(m: Matrix, x: seq<Complex>, i: nat, p: int, lo: nat, len: nat)
    requires WellStored(m) && i < m.n == |x| && 0 <= p <= p + len <= |m.data| && lo + len <= m.n
    requires forall j | lo <= j < lo + len :: InTriangle(m, i, j) && Index(m, i, j) == p + (j - lo)
    ensures var dot := RowDot(m, x, i, lo, lo + len);
      Sub(x[i], dot) ==
      if len > 0 then Sub(x[i], VecDot(m.conj, m.data[p..p + len], x[lo..lo + len])) else x[i]
  {
    hide Add, Sub, Mul, WellStored;
    if len > 0 {
      StretchIsRowDot(m, x, i, lo, lo + len, p);
    } else {
      AddLaws(x[i], ZERO, ZERO);
    }
  }

  /** The result of a row step is what is left of its right-hand side, divided by the diagonal. */
  lemma RowResultIs(m: Matrix, x: seq<Complex>, i: nat, p: int, lo: nat, len: nat, d: int)
    requires Solvable(m) && i < m.n == |x| && HoldsRow(m, i, p, d)
    requires lo == LeftEnd(m, i) && lo + len == RightEnd(m, i)
    ensures 0 <= d < |m.data| && (!m.diagonal.Unit? ==> ConjIf(m.conj, m.data[d]) != ZERO)
    ensures At(m, i, i) != ZERO
    ensures var rest := Sub(x[i], RowDot(m, x, i, lo, lo + len));
      RowResult(m, x, i, p, lo, len, d) == if m.diagonal.Unit? then rest else Div(rest, At(m, i, i))
  {
    DiagonalStored(m, i, d);
    hide Add, Sub, Mul, Div, WellStored, ConjIf, At, RowDot, VecDot, Solvable;
    RestIsDifference(m, x, i, p, lo, len);
  }

  /** So it solves its equation. */
  lemma RowResultSolves(m: Matrix, x: seq<Complex>, i: nat, p: int, lo: nat, len: nat, d: int)
    requires Solvable(m) && i < m.n == |x| && HoldsRow(m, i, p, d)
    requires lo == LeftEnd(m, i) && lo + len == RightEnd(m, i)
    ensures 0 <= d < |m.data| && (!m.diagonal.Unit? ==> ConjIf(m.conj, m.data[d]) != ZERO)
    ensures Add(RowDot(m, x, i, lo, lo + len), Mul(At(m, i, i), RowResult(m, x, i, p, lo, len, d))) == x[i]
  {
    RowResultIs(m, x, i, p, lo, len, d);
    DiagonalStored(m, i, d);
    hide Add, Sub, Mul, Div, WellStored, At, RowDot, RowResult, Solvable, HoldsRow, Index;
    DividedSolves(x[i], RowDot(m, x, i, lo, lo + len), At(m, i, i), RowResult(m, x, i, p, lo, len, d));
  }

  /** A row step solves one more equation. */
  lemma RowKernel(m: Matrix, b: seq<Complex>, x: seq<Complex>, steps: nat, p: int, d: int, lo: nat, len: nat)
    requires Solvable(m) && steps < m.n && RowsSolved(m, b, x, steps)
    requires HoldsRow(m, RowAt(m, steps), p, d)
    requires lo == LeftEnd(m, RowAt(m, steps)) && lo + len == RightEnd(m, RowAt(m, steps))
    ensures 0 <= d < |m.data| && (!m.diagonal.Unit? ==> ConjIf(m.conj, m.data[d]) != ZERO)
    ensures RowsSolved(m, b, x[RowAt(m, steps) := RowResult(m, x, RowAt(m, steps), p, lo, len, d)], steps + 1)
  {
    hide Add, Sub, Mul, Div, RowResult, WellStored, At, Index;
    var i := RowAt(m, steps);
    RowResultSolves(m, x, i, p, lo, len, d);
    RowStep(m, b, x, steps, RowResult(m, x, i, p, lo, len, d));
  }

  /** One row of a row-major kernel. */
  method StepRow(m: Matrix, rhs: array<Complex>, ghost b: seq<Complex>, ghost steps: nat,
                 i: nat, p: int, lo: nat, len: nat, d: int)
    requires Solvable(m) && steps < m.n == rhs.Length && RowsSolved(m, b, rhs[..], steps)
    requires i == RowAt(m, steps) && HoldsRow(m, i, p, d) && lo == LeftEnd(m, i) && lo + len == RightEnd(m, i)
    modifies rhs
    ensures RowsSolved(m, b, rhs[..], steps + 1)
  {
    ghost var x := rhs[..];
    RowKernel(m, b, x, steps, p, d, lo, len);
    if len > 0 {
      rhs[i] := Sub(rhs[i], VecDot(m.conj, m.data[p..p + len], rhs[lo..lo + len]));
    }
    if !m.diagonal.Unit? {
      rhs[i] := Div(rhs[i], ConjIf(m.conj, m.data[d]));
    }
    assert rhs[..] == x[i := RowResult(m, x, i, p, lo, len, d)];
  }

  lemma PackedRow(m: Matrix, i: nat)
    requires m.Packed? && m.rowMajor && WellStored(m) && i < m.n
    ensures var off := if m.lower then Tri(i) else Tri(m.n) - Tri(m.n - i);
      HoldsRow(m, i, off + (if m.lower then 0 else 1), off + (if m.lower then i else 0))
  {
    IndexInBounds(m, i, i);
    if m.lower {
      TriMonotone(i + 1, m.n);
    } else {
      TriMonotone(m.n - i, m.n);
    }
  }

  /** Packed, row by row. */
  method SolvePackedRowMajor(m: Matrix, rhs: array<Complex>)
    requires m.Packed? && m.rowMajor && Solvable(m) && rhs.Length == m.n
    modifies rhs
    ensures forall i | 0 <= i < m.n :: Product(m, rhs[..], i) == old(rhs[i])
  {
    hide Add, Sub, Mul, At, Index, WellStored, RowDot, HoldsRow;
    var size: int := m.n;
    ghost var b := rhs[..];
    TriClosed(size);
    var off: int := if m.lower then 0 else size * (size + 1) / 2 - 1;
    for pi := 0 to size
      invariant m.lower ==> off == Tri(pi)
      invariant !m.lower ==> off == Tri(size) - Tri(pi + 1)
      invariant RowsSolved(m, b, rhs[..], pi)
    {
      var i := if m.lower then pi else size - pi - 1;
      PackedRow(m, i);
      var s := if m.lower then 0 else 1;
      StepRow(m, rhs, b, pi, i, off + s, if m.lower then 0 else i + 1, pi, off + (if m.lower then i else 0));
      off := if m.lower then off + pi + 1 else off - (pi + 2);
    }
  }

  lemma BandRow(m: Matrix, i: nat, step: nat)
    requires m.Band? && m.rowMajor && WellStored(m) && step < m.n && i == RowAt(m, step)
    ensures var actualK := if m.k < step then m.k else step;
      && LeftEnd(m, i) == (if m.lower then i - actualK else i + 1) && RightEnd(m, i) == LeftEnd(m, i) + actualK
      && HoldsRow(m, i, i * m.stride + (if m.lower then m.k - actualK else 1), i * m.stride + (if m.lower then m.k else 0))
  {
    var actualK := if m.k < step then m.k else step;
    SlotInBounds(i, m.n, m.stride, m.k, m.k);
  }

  /** Band, row by row. */
  method SolveBandRowMajor(m: Matrix, other: array<Complex>)
    requires m.Band? && m.rowMajor && Solvable(m) && other.Length == m.n
    modifies other
    ensures forall i | 0 <= i < m.n :: Product(m, other[..], i) == old(other[i])
  {
    var size, k := m.n, m.k;
    ghost var b := other[..];
    for ii := 0 to size
      invariant RowsSolved(m, b, other[..], ii)
    {
      var i := if m.lower then ii else size - ii - 1;
      var actualK := if k < ii then k else ii;
      var actualStart := if m.lower then k - actualK else 1;
      BandRow(m, i, ii);
      var row := i * m.stride;
      StepRow(m, other, b, ii, i, row + actualStart, if m.lower then i - actualK else i + 1, actualK,
              row + (if m.lower then k else 0));
    }
  }

  // ---- column by column ----

  /** The rows of column c's triangle outside the diagonal that hold anything. */
  function TopEnd(m: Matrix, c: nat): nat {
    if m.lower then c + 1 else if m.Band? && c > m.k then c - m.k else 0
  }

  function BottomEnd(m: Matrix, c: nat): nat
    requires c < m.n
  {
    if !m.lower then c else if m.Band? && c + 1 + m.k < m.n then c + 1 + m.k else m.n
  }

  /** The stretch of storage from `p` on is column c's part of the triangle, and `d` is the place of
      its diagonal entry. */
  ghost predicate HoldsColumn(m: Matrix, c: nat, p: int, d: int)
    requires c < m.n
  {
    var lo, hi := TopEnd(m, c), BottomEnd(m, c);
    && lo <= hi && 0 <= p && p + (hi - lo) <= |m.data| && d == Index(m, c, c)
    && forall r | lo <= r < hi :: InTriangle(m, r, c) && Index(m, r, c) == p + (r - lo)
  }

  /** Entry r after the unknown x[c] has been taken away from the rows lo to hi. */
  function Reduced(m: Matrix, x: seq<Complex>, c: nat, p: int, lo: nat, hi: nat, r: nat): Complex
    requires c < |x| && r < |x| && lo <= hi && 0 <= p && p + (hi - lo) <= |m.data|
  {
    if lo <= r < hi then Sub(x[r], Mul(x[c], ConjIf(m.conj, m.data[p + (r - lo)]))) else x[r]
  }

  /** x[c] divided by the diagonal entry. */
  function Scaled(m: Matrix, x: seq<Complex>, c: nat, d: int): Complex
    requires c < |x| && 0 <= d < |m.data| && (!m.diagonal.Unit? ==> ConjIf(m.conj, m.data[d]) != ZERO)
  {
    if m.diagonal.Unit? then x[c] else Div(x[c], ConjIf(m.conj, m.data[d]))
  }

  /** What a column step does to an entry of another row. */
  lemma ReducedIs(m: Matrix, z: seq<Complex>, c: nat, p: int, d: int, r: nat)
    requires WellStored(m) && c < m.n == |z| && HoldsColumn(m, c, p, d) && r < m.n && r != c
    ensures Reduced(m, z, c, p, TopEnd(m, c), BottomEnd(m, c), r) ==
            if InTriangle(m, r, c) then Sub(z[r], Mul(z[c], At(m, r, c))) else z[r]
  {
    hide Add, Sub, Mul, WellStored;
    assert InTriangle(m, r, c) <==> TopEnd(m, c) <= r < BottomEnd(m, c);
  }

  /** A column step solves one more equation. */
  lemma ColumnKernel(m: Matrix, b: seq<Complex>, x: seq<Complex>, y: seq<Complex>, steps: nat, p: int, d: int)
    requires Solvable(m) && steps < m.n && ColumnsSolved(m, b, x, steps) && |y| == m.n
    requires HoldsColumn(m, RowAt(m, steps), p, d)
    requires 0 <= d < |m.data| && (!m.diagonal.Unit? ==> ConjIf(m.conj, m.data[d]) != ZERO)
    requires var c := RowAt(m, steps); var z := x[c := Scaled(m, x, c, d)];
      forall r | 0 <= r < m.n :: y[r] == Reduced(m, z, c, p, TopEnd(m, c), BottomEnd(m, c), r)
    ensures ColumnsSolved(m, b, y, steps + 1)
  {
    hide Add, Sub, Mul, Div, WellStored;
    assert ColumnStepped(m, x, y, steps) by {
      hide ColumnsSolved;
      var c := RowAt(m, steps);
      DiagonalStored(m, c, d);
      var z := x[c := Scaled(m, x, c, d)];
      forall r | 0 <= r < m.n && r != c
        ensures y[r] == if InTriangle(m, r, c) then Sub(x[r], Mul(z[c], At(m, r, c))) else x[r]
      {
        ReducedIs(m, z, c, p, d, r);
      }
    }
    ColumnStep(m, b, x, y, steps);
  }

  lemma NothingTaken(m: Matrix, b: seq<Complex>)
    requires WellStored(m) && |b| == m.n
    ensures ColumnsSolved(m, b, b, 0)
  {
    hide Add, Sub, Mul, At, WellStored;
    forall i | 0 <= i < m.n
      ensures b[i] == Sub(b[i], Taken(m, b, 0, i))
    {
      AddLaws(b[i], ZERO, ZERO);
    }
  }

  /** One column of a column-major kernel. */
  method StepColumn(m: Matrix, rhs: array<Complex>, ghost b: seq<Complex>, ghost steps: nat,
                    i: nat, p: int, lo: nat, len: nat, d: int)
    requires Solvable(m) && steps < m.n == rhs.Length && ColumnsSolved(m, b, rhs[..], steps)
    requires i == RowAt(m, steps) && HoldsColumn(m, i, p, d) && lo == TopEnd(m, i) && lo + len == BottomEnd(m, i)
    modifies rhs
    ensures ColumnsSolved(m, b, rhs[..], steps + 1)
  {
    ghost var x := rhs[..];
    DiagonalStored(m, i, d);
    if !m.diagonal.Unit? {
      rhs[i] := Div(rhs[i], ConjIf(m.conj, m.data[d]));
    }
    ghost var z := rhs[..];
    assert z == x[i := Scaled(m, x, i, d)];
    SubtractColumn(m, rhs, i, p, lo, len);
    ColumnKernel(m, b, x, rhs[..], steps, p, d);
  }

  /** Takes rhs[i] times a column away from the entries from lo on. */
  method SubtractColumn(m: Matrix, rhs: array<Complex>, i: nat, p: int, lo: nat, len: nat)
    requires i < rhs.Length && lo + len <= rhs.Length && !(lo <= i < lo + len)
    requires 0 <= p && p + len <= |m.data|
    modifies rhs
    ensures forall r | 0 <= r < rhs.Length :: rhs[r] == Reduced(m, old(rhs[..]), i, p, lo, lo + len, r)
  {
    for k := 0 to len
      invariant forall r | 0 <= r < rhs.Length :: rhs[r] == Reduced(m, old(rhs[..]), i, p, lo, lo + k, r)
    {
      rhs[lo + k] := Sub(rhs[lo + k], Mul(rhs[i], ConjIf(m.conj, m.data[p + k])));
    }
  }

  lemma PackedColumn(m: Matrix, c: nat)
    requires m.Packed? && !m.rowMajor && WellStored(m) && c < m.n
    ensures var off := if m.lower then Tri(m.n) - Tri(m.n - c) else Tri(c);
      HoldsColumn(m, c, off + (if m.lower then 1 else 0), off + (if m.lower then 0 else c))
  {
    IndexInBounds(m, c, c);
    if m.lower {
      TriMonotone(m.n - c, m.n);
    } else {
      TriMonotone(c + 1, m.n);
    }
  }

  lemma TriBefore(n: nat)
    ensures n * (n - 1) / 2 == Tri(n) - n
  {
    TriClosed(n);
    assert n * (n + 1) == n * (n - 1) + 2 * n;
  }

  /** Packed, column by column. */
  method SolvePackedColMajor(m: Matrix, rhs: array<Complex>)
    requires m.Packed? && !m.rowMajor && Solvable(m) && rhs.Length == m.n
    modifies rhs
    ensures forall i | 0 <= i < m.n :: Product(m, rhs[..], i) == old(rhs[i])
  {
    hide Add, Sub, Mul, At, Index, WellStored, RowDot, HoldsColumn;
    var size: int := m.n;
    ghost var b := rhs[..];
    NothingTaken(m, b);
    TriBefore(size);
    var off: int := if m.lower then 0 else size * (size - 1) / 2;
    for pi := 0 to size
      invariant m.lower ==> off == Tri(size) - Tri(size - pi)
      invariant !m.lower ==> off == Tri(size - pi) - (size - pi)
      invariant ColumnsSolved(m, b, rhs[..], pi)
    {
      var i := if m.lower then pi else size - pi - 1;
      var r := size - pi - 1;
      PackedColumn(m, i);
      StepColumn(m, rhs, b, pi, i, off + (if m.lower then 1 else 0), if m.lower then i + 1 else 0, r,
                 off + (if m.lower then 0 else i));
      off := if m.lower then off + (size - pi) else off - r;
    }
  }

  lemma BandColumn(m: Matrix, i: nat, step: nat)
    requires m.Band? && !m.rowMajor && WellStored(m) && step < m.n && i == RowAt(m, step)
    ensures var actualK := if m.k < m.n - step - 1 then m.k else m.n - step - 1;
      && TopEnd(m, i) == (if m.lower then i + 1 else i - actualK) && BottomEnd(m, i) == TopEnd(m, i) + actualK
      && HoldsColumn(m, i, i * m.stride + (if m.lower then 1 else m.k - actualK),
                     i * m.stride + (if m.lower then 0 else m.k))
  {
    SlotInBounds(i, m.n, m.stride, m.k, m.k);
  }

  /** Band, column by column. */
  method SolveBandColMajor(m: Matrix, other: array<Complex>)
    requires m.Band? && !m.rowMajor && Solvable(m) && other.Length == m.n
    modifies other
    ensures forall i | 0 <= i < m.n :: Product(m, other[..], i) == old(other[i])
  {
    var size, k := m.n, m.k;
    ghost var b := other[..];
    for ii := 0 to size
      invariant ColumnsSolved(m, b, other[..], ii)
    {
      var i := if m.lower then ii else size - ii - 1;
      var actualK := if k < size - ii - 1 then k else size - ii - 1;
      var actualStart := if m.lower then 1 else k - actualK;
      BandColumn(m, i, ii);
      var column := i * m.stride;
      StepColumn(m, other, b, ii, i, column + actualStart, if m.lower then i + 1 else i - actualK, actualK,
                 column + (if m.lower then 0 else k));
    }
  }

  // ---- from the right ----

  /** The same storage read with the other triangle and the other order. */
  function Transposed(m: Matrix): Matrix {
    m.(lower := !m.lower, rowMajor := !m.rowMajor)
  }

  /** It denotes the transposed matrix. */
  lemma TransposedAt(m: Matrix, i: nat, j: nat)
    requires WellStored(m) && i < m.n && j < m.n
    ensures WellStored(Transposed(m)) && At(Transposed(m), i, j) == At(m, j, i)
  {
  }

  /** Entry j of the row vector `x` times the matrix, summed over the first `rows` rows. */
  ghost function LeftProduct(m: Matrix, x: seq<Complex>, j: nat, rows: nat): Complex
    requires WellStored(m) && j < m.n == |x| && rows <= m.n
  {
    if rows == 0 then ZERO else Add(LeftProduct(m, x, j, rows - 1), Mul(At(m, rows - 1, j), x[rows - 1]))
  }

  lemma {:induction false} LeftProductIsTransposed(m: Matrix, x: seq<Complex>, j: nat, rows: nat)
    requires WellStored(m) && j < m.n == |x| && rows <= m.n
    ensures WellStored(Transposed(m)) && LeftProduct(m, x, j, rows) == RowDot(Transposed(m), x, j, 0, rows)
  {
    TransposedAt(m, j, j);
    hide Add, Mul, At, WellStored;
    if rows > 0 {
      LeftProductIsTransposed(m, x, j, rows - 1);
      TransposedAt(m, j, rows - 1);
    }
  }

  method SolvePacked(m: Matrix, rhs: array<Complex>)
    requires m.Packed? && Solvable(m) && rhs.Length == m.n
    modifies rhs
    ensures forall i | 0 <= i < m.n :: Product(m, rhs[..], i) == old(rhs[i])
  {
    if m.rowMajor {
      SolvePackedRowMajor(m, rhs);
    } else {
      SolvePackedColMajor(m, rhs);
    }
  }

  /** Solves x M = b, by solving from the left with the same storage read the other way. */
  method SolvePackedOnTheRight(m: Matrix, rhs: array<Complex>)
    requires m.Packed? && Solvable(m) && rhs.Length == m.n
    modifies rhs
    ensures forall j | 0 <= j < m.n :: LeftProduct(m, rhs[..], j, m.n) == old(rhs[j])
  {
    forall i | 0 <= i < m.n
      ensures At(Transposed(m), i, i) == At(m, i, i)
    {
      TransposedAt(m, i, i);
    }
    SolvePacked(Transposed(m), rhs);
    forall j | 0 <= j < m.n
      ensures LeftProduct(m, rhs[..], j, m.n) == old(rhs[j])
    {
      LeftProductIsTransposed(m, rhs[..], j, m.n);
    }
  }
}
