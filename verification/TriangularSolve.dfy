/** Solving with a triangular matrix kept in packed or band storage, in place of the right-hand side. */
module TriangularSolve {
  import opened Scalars
  import opened Triangular

  /** Every diagonal entry can be divided by; with ones on the diagonal none is looked at. */
  ghost predicate Solvable(m: Matrix) {
    WellStored(m) && !m.diagonal.Zero? && forall i | 0 <= i < m.n :: At(m, i, i) != ZERO
  }

  /** The rows in which elimination goes: downwards for a lower matrix, upwards for an upper one. */
  function RowAt(m: Matrix, step: nat): nat
    requires step < m.n
  {
    if m.lower then step else m.n - step - 1
  }

  /** Row i belongs to the first `steps` rows. */
  predicate Done(m: Matrix, steps: nat, i: nat) {
    if m.lower then i < steps else i >= m.n - steps
  }

  // ---- row by row ----

  /** The first `steps` equations hold, and the other right-hand sides are untouched. */
  ghost predicate RowsSolved(m: Matrix, b: seq<Complex>, x: seq<Complex>, steps: nat)
    requires WellStored(m)
  {
    && |b| == |x| == m.n
    && forall i | 0 <= i < m.n :: if Done(m, steps, i) then Product(m, x, i) == b[i] else x[i] == b[i]
  }

  /** The columns of row i's triangle outside the diagonal that hold anything. */
  function LeftEnd(m: Matrix, i: nat): nat {
    if !m.lower then i + 1 else if m.Band? && i > m.k then i - m.k else 0
  }

  function RightEnd(m: Matrix, i: nat): nat
    requires i < m.n
  {
    if m.lower then i else if m.Band? && i + 1 + m.k < m.n then i + 1 + m.k else m.n
  }

  lemma RowParts(m: Matrix, x: seq<Complex>, i: nat)
    requires WellStored(m) && i < m.n == |x|
    ensures LeftEnd(m, i) <= RightEnd(m, i)
    ensures Product(m, x, i) == Add(RowDot(m, x, i, LeftEnd(m, i), RightEnd(m, i)), Mul(At(m, i, i), x[i]))
  {
    ProductParts(m, x, i, LeftEnd(m, i), RightEnd(m, i));
  }

  /** What is left of a right-hand side, divided by the diagonal, solves its equation. */
  lemma DividedSolves(b: Complex, dot: Complex, d: Complex, x: Complex)
    requires if d == ONE then x == Sub(b, dot) || x == Div(Sub(b, dot), d) else d != ZERO && x == Div(Sub(b, dot), d)
    ensures Add(dot, Mul(d, x)) == b
  {
    AddLaws(b, dot, ZERO);
    if d == ONE && x == Sub(b, dot) {
      MulZeroOne(x);
    } else {
      DivMul(Sub(b, dot), d);
    }
  }

  /** Replacing entry i by the solution of equation i solves one more equation. */
  lemma RowStep(m: Matrix, b: seq<Complex>, x: seq<Complex>, steps: nat, xi: Complex)
    requires Solvable(m) && steps < m.n && RowsSolved(m, b, x, steps)
    requires var i := RowAt(m, steps);
      Add(RowDot(m, x, i, LeftEnd(m, i), RightEnd(m, i)), Mul(At(m, i, i), xi)) == b[i]
    ensures RowsSolved(m, b, x[RowAt(m, steps) := xi], steps + 1)
  {
    hide Add, Sub, Mul, At, WellStored;
    var i := RowAt(m, steps);
    var y := x[i := xi];
    forall r | 0 <= r < m.n
      ensures if Done(m, steps + 1, r) then Product(m, y, r) == b[r] else y[r] == b[r]
    {
      RowParts(m, x, r);
      RowParts(m, y, r);
      if Done(m, steps + 1, r) {
        RowDotFrame(m, x, y, r, LeftEnd(m, r), RightEnd(m, r));
      }
    }
  }

  // ---- column by column ----

  /** The columns from which the first `steps` unknowns have been taken away, in row i. */
  ghost function Taken(m: Matrix, x: seq<Complex>, steps: nat, i: nat): Complex
    requires WellStored(m) && i < m.n == |x| && steps <= m.n
  {
    if m.lower then RowDot(m, x, i, 0, steps) else RowDot(m, x, i, m.n - steps, m.n)
  }

  /** The first `steps` equations hold, and the others are left with what those unknowns leave. */
  ghost predicate ColumnsSolved(m: Matrix, b: seq<Complex>, x: seq<Complex>, steps: nat)
    requires WellStored(m)
  {
    && |b| == |x| == m.n && steps <= m.n
    && forall i | 0 <= i < m.n ::
      if Done(m, steps, i) then Product(m, x, i) == b[i] else x[i] == Sub(b[i], Taken(m, x, steps, i))
  }

  /** Taking one more unknown away. */
  lemma TakeOne(m: Matrix, x: seq<Complex>, steps: nat, i: nat)
    requires WellStored(m) && steps < m.n && i < m.n == |x|
    ensures var c := RowAt(m, steps);
      Taken(m, x, steps + 1, i) == Add(Taken(m, x, steps, i), Mul(At(m, i, c), x[c]))
  {
    hide Add, Sub, Mul, At, WellStored;
    if m.lower {
      assert RowDot(m, x, i, 0, steps + 1) == Add(RowDot(m, x, i, 0, steps), Mul(At(m, i, steps), x[steps]));
    } else {
      RowDotFront(m, x, i, m.n - steps - 1);
    }
  }

  lemma RowDotFront(m: Matrix, x: seq<Complex>, i: nat, c: nat)
    requires WellStored(m) && i < m.n == |x| && c < m.n
    ensures RowDot(m, x, i, c, m.n) == Add(RowDot(m, x, i, c + 1, m.n), Mul(At(m, i, c), x[c]))
  {
    hide Add, Sub, Mul, At, WellStored;
    var t, rest := Mul(At(m, i, c), x[c]), RowDot(m, x, i, c + 1, m.n);
    RowDotSplit(m, x, i, c, c + 1, m.n);
    assert RowDot(m, x, i, c, c) == ZERO;
    assert RowDot(m, x, i, c, c + 1) == Add(ZERO, t);
    AddLaws(t, rest, ZERO);
    AddLaws(t, ZERO, ZERO);
  }

  /** What is taken from the row of the current unknown is all there is to take. */
  lemma TakenIsAll(m: Matrix, x: seq<Complex>, steps: nat)
    requires WellStored(m) && steps < m.n == |x|
    ensures var i := RowAt(m, steps); Product(m, x, i) == Add(Taken(m, x, steps, i), Mul(At(m, i, i), x[i]))
  {
    var i := RowAt(m, steps);
    ProductParts(m, x, i, if m.lower then 0 else i + 1, if m.lower then i else m.n);
  }

  /** What one step does to the right-hand sides: the current one becomes its unknown, and the later
      ones lose what that unknown contributes. */
  ghost predicate ColumnStepped(m: Matrix, x: seq<Complex>, y: seq<Complex>, steps: nat)
    requires WellStored(m) && steps < m.n
  {
    var i := RowAt(m, steps);
    && |x| == |y| == m.n
    && (if m.diagonal.Unit? then y[i] == x[i] else At(m, i, i) != ZERO && y[i] == Div(x[i], At(m, i, i)))
    && forall r | 0 <= r < m.n && r != i ::
      y[r] == if InTriangle(m, r, i) then Sub(x[r], Mul(y[i], At(m, r, i))) else x[r]
  }

  lemma DoneUnchanged(m: Matrix, x: seq<Complex>, y: seq<Complex>, steps: nat, r: nat)
    requires WellStored(m) && steps < m.n && ColumnStepped(m, x, y, steps) && r < m.n && Done(m, steps, r)
    ensures Product(m, y, r) == Product(m, x, r)
  {
    hide Add, Sub, Mul, At, WellStored;
    RowParts(m, x, r);
    RowParts(m, y, r);
    RowDotFrame(m, x, y, r, LeftEnd(m, r), RightEnd(m, r));
  }

  lemma TakenUnchanged(m: Matrix, x: seq<Complex>, y: seq<Complex>, steps: nat, r: nat)
    requires WellStored(m) && steps < m.n && ColumnStepped(m, x, y, steps) && r < m.n
    ensures Taken(m, y, steps, r) == Taken(m, x, steps, r)
  {
    hide Add, Sub, Mul, At, WellStored;
    if m.lower {
      RowDotFrame(m, x, y, r, 0, steps);
    } else {
      RowDotFrame(m, x, y, r, m.n - steps, m.n);
    }
  }

  lemma OutsideIsZero(m: Matrix, i: nat, j: nat)
    requires WellStored(m) && i < m.n && j < m.n && i != j && !InTriangle(m, i, j)
    ensures At(m, i, j) == ZERO
  {
  }

  /** The unknown of the current row solves its equation. */
  lemma CurrentRowStep(m: Matrix, b: seq<Complex>, x: seq<Complex>, y: seq<Complex>, steps: nat)
    requires Solvable(m) && ColumnsSolved(m, b, x, steps) && steps < m.n && ColumnStepped(m, x, y, steps)
    ensures Product(m, y, RowAt(m, steps)) == b[RowAt(m, steps)]
  {
    var i := RowAt(m, steps);
    assert m.diagonal.Unit? ==> At(m, i, i) == ONE;
    hide Add, Sub, Mul, Div, At, WellStored, Taken, Product;
    var taken := Taken(m, x, steps, i);
    TakenUnchanged(m, x, y, steps, i);
    TakenIsAll(m, y, steps);
    DividedSolves(b[i], taken, At(m, i, i), y[i]);
  }

  lemma LaterRowStep(m: Matrix, b: seq<Complex>, x: seq<Complex>, y: seq<Complex>, steps: nat, r: nat)
    requires WellStored(m) && ColumnsSolved(m, b, x, steps) && steps < m.n && ColumnStepped(m, x, y, steps)
    requires r < m.n && !Done(m, steps + 1, r)
    ensures y[r] == Sub(b[r], Taken(m, y, steps + 1, r))
  {
    hide Add, Sub, Mul, At, WellStored;
    var i := RowAt(m, steps);
    var taken, t := Taken(m, x, steps, r), Mul(At(m, r, i), y[i]);
    TakenUnchanged(m, x, y, steps, r);
    TakeOne(m, y, steps, r);
    MulCommutes(At(m, r, i), y[i]);
    AddLaws(b[r], taken, t);
    if !InTriangle(m, r, i) {
      OutsideIsZero(m, r, i);
      MulZeroOne(y[i]);
      AddLaws(taken, ZERO, ZERO);
      AddLaws(b[r], taken, ZERO);
    }
  }

  /** One step of the elimination by columns. */
  lemma ColumnStep(m: Matrix, b: seq<Complex>, x: seq<Complex>, y: seq<Complex>, steps: nat)
    requires Solvable(m) && ColumnsSolved(m, b, x, steps) && steps < m.n && ColumnStepped(m, x, y, steps)
    ensures ColumnsSolved(m, b, y, steps + 1)
  {
    hide Add, Sub, Mul, At, WellStored;
    var i := RowAt(m, steps);
    forall r | 0 <= r < m.n
      ensures if Done(m, steps + 1, r) then Product(m, y, r) == b[r] else y[r] == Sub(b[r], Taken(m, y, steps + 1, r))
    {
      if r == i {
        CurrentRowStep(m, b, x, y, steps);
      } else if Done(m, steps, r) {
        DoneUnchanged(m, x, y, steps, r);
      } else {
        LaterRowStep(m, b, x, y, steps, r);
      }
    }
  }

  // ---- vector operations ----

  /** The sum of the products of two vectors, the first one conjugated if asked for. */
  function VecDot(conj: bool, a: seq<Complex>, x: seq<Complex>): Complex
    requires |a| == |x|
  {
    if a == [] then ZERO
    else Add(VecDot(conj, a[..|a| - 1], x[..|a| - 1]), Mul(ConjIf(conj, a[|a| - 1]), x[|a| - 1]))
  }

  /** The entries that are read from the storage. */
  predicate Kept(m: Matrix, i: nat, j: nat) {
    InTriangle(m, i, j) || (i == j && m.diagonal.Stored?)
  }

  /** A stretch of the storage that holds a stretch of a row makes up that part of the row's product. */
  lemma {:induction false} StretchIsRowDot(m: Matrix, x: seq<Complex>, i: nat, lo: nat, hi: nat, p: int)
    requires WellStored(m) && i < m.n == |x| && lo <= hi <= m.n && 0 <= p && p + (hi - lo) <= |m.data|
    requires forall j | lo <= j < hi :: Kept(m, i, j) && Index(m, i, j) == p + (j - lo)
    ensures VecDot(m.conj, m.data[p..p + (hi - lo)], x[lo..hi]) == RowDot(m, x, i, lo, hi)
    decreases hi
  {
    hide Add, Mul, At, Index, WellStored;
    if lo < hi {
      var a, y := m.data[p..p + (hi - lo)], x[lo..hi];
      StretchIsRowDot(m, x, i, lo, hi - 1, p);
      SliceTake(m.data, p, p + (hi - lo), hi - 1 - lo);
      SliceTake(x, lo, hi, hi - 1 - lo);
      assert a[|a| - 1] == m.data[p + (hi - 1 - lo)] && y[|a| - 1] == x[hi - 1];
      KeptAt(m, i, hi - 1, p + (hi - 1 - lo));
    }
  }

  lemma KeptAt(m: Matrix, i: nat, j: nat, p: int)
    requires WellStored(m) && i < m.n && j < m.n && Kept(m, i, j) && Index(m, i, j) == p && 0 <= p < |m.data|
    ensures At(m, i, j) == ConjIf(m.conj, m.data[p])
  {
  }

  lemma SliceTake(s: seq<Complex>, p: int, q: int, k: nat)
    requires 0 <= p <= p + k <= q <= |s|
    ensures s[p..q][..k] == s[p..p + k]
  {
  }
}
