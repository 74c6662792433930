/** What the packed kernels have in common: both storage orders of a matrix give the same product, and
    multiplying and solving undo each other. */
module PackedRoundTrip {
  import opened Scalars
  import opened Triangular
  import opened TriangularSolve
  import opened PackedSolve
  import opened PackedMultiply

  // ---- one matrix in both orders ----

  /** The same matrix type with other contents; and with the other storage order. */
  function WithData(m: Matrix, data: seq<Complex>): Matrix
    requires m.Packed?
  {
    Packed(m.n, m.lower, m.rowMajor, m.diagonal, m.conj, data)
  }

  function Reordered(m: Matrix, data: seq<Complex>): Matrix
    requires m.Packed?
  {
    Packed(m.n, m.lower, !m.rowMajor, m.diagonal, m.conj, data)
  }

  /** The packings hold the same triangle, one by rows and the other by columns. */
  ghost predicate Repacks(a: Matrix, b: Matrix) {
    && a.Packed? && b.Packed? && WellStored(a) && WellStored(b)
    && b == Reordered(a, b.data)
    && forall i, j | 0 <= i < a.n && 0 <= j < a.n && (i == j || InTriangle(a, i, j)) :: SameEntry(a, b, i, j)
  }

  ghost predicate SameEntry(a: Matrix, b: Matrix, i: nat, j: nat)
    requires a.Packed? && b.Packed? && WellStored(a) && WellStored(b) && a.n == b.n && a.lower == b.lower
    requires i < a.n && j < a.n && (i == j || InTriangle(a, i, j))
  {
    IndexInBounds(a, i, j);
    IndexInBounds(b, i, j);
    b.data[PackedIndex(b, i, j)] == a.data[PackedIndex(a, i, j)]
  }

  lemma RepackedAt(a: Matrix, b: Matrix, i: nat, j: nat)
    requires Repacks(a, b) && i < a.n && j < a.n
    ensures At(b, i, j) == At(a, i, j)
  {
    assert i == j || InTriangle(a, i, j) ==> SameEntry(a, b, i, j);
  }

  /** Packs the same triangle in the other order. */
  method Repack(m: Matrix) returns (r: Matrix)
    requires m.Packed? && WellStored(m)
    ensures Repacks(m, r)
  {
    var data := new Complex[|m.data|](_ => ZERO);
    var n := m.n;
    CopiedNone(m, Reordered(m, data[..]));
    hide Copied, SameEntry, Repacks, PackedIndex;
    for i := 0 to n
      invariant Copied(m, Reordered(m, data[..]), i, 0)
    {
      CopiedStart(m, Reordered(m, data[..]), i);
      var lo, hi := if m.lower then 0 else i, if m.lower then i + 1 else n;
      for j := lo to hi
        invariant Copied(m, Reordered(m, data[..]), i, j)
      {
        var p := PackedIndex(Reordered(m, []), i, j);
        IndexInBounds(m, i, j);
        IndexInBounds(Reordered(m, data[..]), i, j);
        SameShape(Reordered(m, data[..]), Reordered(m, []), i, j);
        CopyOne(m, Reordered(m, data[..]), i, j, p, m.data[PackedIndex(m, i, j)]);
        data[p] := m.data[PackedIndex(m, i, j)];
      }
      CopiedRow(m, Reordered(m, data[..]), i, hi);
    }
    r := Reordered(m, data[..]);
    CopiedAll(m, r);
  }

  /** The entries before (row, col) are where the other order has them. */
  ghost predicate Copied(m: Matrix, r: Matrix, row: nat, col: nat) {
    && m.Packed? && r.Packed? && WellStored(m) && WellStored(r) && m.n == r.n && m.lower == r.lower
    && forall i, j | 0 <= i < m.n && 0 <= j < m.n && (i == j || InTriangle(m, i, j)) && (i < row || (i == row && j < col)) ::
      SameEntry(m, r, i, j)
  }

  lemma CopiedNone(m: Matrix, r: Matrix)
    requires m.Packed? && r.Packed? && WellStored(m) && WellStored(r) && m.n == r.n && m.lower == r.lower
    ensures Copied(m, r, 0, 0)
  {
  }

  lemma CopiedStart(m: Matrix, r: Matrix, row: nat)
    requires Copied(m, r, row, 0) && row < m.n
    ensures Copied(m, r, row, if m.lower then 0 else row)
  {
  }

  lemma CopiedRow(m: Matrix, r: Matrix, row: nat, hi: nat)
    requires Copied(m, r, row, hi) && row < m.n && hi == if m.lower then row + 1 else m.n
    ensures Copied(m, r, row + 1, 0)
  {
  }

  lemma CopiedAll(m: Matrix, r: Matrix)
    requires Copied(m, r, m.n, 0) && r == Reordered(m, r.data)
    ensures Repacks(m, r)
  {
  }

  /** Writing one entry leaves the others. */
  lemma CopyOne(m: Matrix, r: Matrix, row: nat, col: nat, p: nat, value: Complex)
    requires Copied(m, r, row, col) && row < m.n && col < m.n && (row == col || InTriangle(m, row, col))
    requires p == PackedIndex(r, row, col) && p < |r.data| && 0 <= PackedIndex(m, row, col) < |m.data|
    requires value == m.data[PackedIndex(m, row, col)]
    ensures Copied(m, WithData(r, r.data[p := value]), row, col + 1)
  {
    hide PackedIndex;
    var q := WithData(r, r.data[p := value]);
    forall i, j | 0 <= i < m.n && 0 <= j < m.n && (i == j || InTriangle(m, i, j)) && (i < row || (i == row && j < col + 1))
      ensures SameEntry(m, q, i, j)
    {
      IndexInBounds(r, i, j);
      SameShape(r, q, i, j);
      SameShape(r, q, row, col);
      if i != row || j != col {
        assert SameEntry(m, r, i, j);
        if PackedIndex(r, i, j) == p { PlacesAreDistinct(r, i, j, row, col); }
      }
    }
  }

  /** Places do not depend on what is stored. */
  lemma SameShape(r: Matrix, q: Matrix, i: nat, j: nat)
    requires r.Packed? && q == WithData(r, q.data) && i < r.n && j < r.n
    ensures PackedIndex(q, i, j) == PackedIndex(r, i, j)
  {
  }

  /** Storages that denote the same matrix give the same product, whatever their order. */
  lemma {:induction false} SameEntriesSameProduct(a: Matrix, b: Matrix, x: seq<Complex>, i: nat, cols: nat)
    requires WellStored(a) && WellStored(b) && a.n == b.n == |x| && i < a.n && cols <= a.n
    requires forall r, c | 0 <= r < a.n && 0 <= c < a.n :: At(a, r, c) == At(b, r, c)
    ensures RowDot(a, x, i, 0, cols) == RowDot(b, x, i, 0, cols)
  {
    hide Add, Mul, WellStored;
    if cols > 0 {
      SameEntriesSameProduct(a, b, x, i, cols - 1);
    }
  }

  /** Both kernels, each on the packing of its order, add the same product. */
  method MultiplyInBothOrders(m: Matrix, rhs: seq<Complex>, conjRhs: bool, a: array<Complex>, b: array<Complex>, alpha: Complex)
    requires m.Packed? && m.rowMajor && WellStored(m) && |rhs| == m.n == a.Length == b.Length && a != b && a[..] == b[..]
    modifies a, b
    ensures a[..] == b[..]
  {
    hide Product, Add, Mul;
    ghost var was, x := a[..], ConjAll(conjRhs, rhs);
    var r := Repack(m);
    MultiplyRowMajor(m, rhs, conjRhs, a, alpha);
    MultiplyColMajor(r, rhs, conjRhs, b, alpha);
    forall i | 0 <= i < m.n
      ensures a[i] == b[i]
    {
      RepackedProduct(m, r, x, i);
      assert a[i] == Add(was[i], Mul(alpha, Product(m, x, i)));
      assert b[i] == Add(was[i], Mul(alpha, Product(r, x, i)));
    }
  }

  lemma RepackedProduct(m: Matrix, r: Matrix, x: seq<Complex>, i: nat)
    requires Repacks(m, r) && i < m.n == |x|
    ensures Product(r, x, i) == Product(m, x, i)
  {
    forall a, b | 0 <= a < m.n && 0 <= b < m.n
      ensures At(m, a, b) == At(r, a, b)
    {
      RepackedAt(m, r, a, b);
    }
    SameEntriesSameProduct(m, r, x, i, m.n);
  }

  // ---- multiplying and solving ----

  /** A system with a nonzero diagonal has one solution at most. */
  lemma {:induction false} SolutionIsUnique(m: Matrix, x: seq<Complex>, y: seq<Complex>, steps: nat)
    requires Solvable(m) && |x| == |y| == m.n && steps <= m.n
    requires forall i | 0 <= i < m.n :: Product(m, x, i) == Product(m, y, i)
    ensures forall i | 0 <= i < m.n && Done(m, steps, i) :: x[i] == y[i]
  {
    hide Add, Mul, WellStored;
    if steps > 0 {
      var i := RowAt(m, steps - 1);
      SolutionIsUnique(m, x, y, steps - 1);
      RowParts(m, x, i);
      RowParts(m, y, i);
      var lo, hi := LeftEnd(m, i), RightEnd(m, i);
      RowDotFrame(m, x, y, i, lo, hi);
      AddCancels(RowDot(m, x, i, lo, hi), Mul(At(m, i, i), x[i]), Mul(At(m, i, i), y[i]));
      MulCancels(At(m, i, i), x[i], y[i]);
    }
  }

  lemma AddCancels(a: Complex, x: Complex, y: Complex)
    requires Add(a, x) == Add(a, y)
    ensures x == y
  {
    assert x == Complex(x.re, x.im) && y == Complex(y.re, y.im);
  }

  /** Solving with the product of the matrix and x gives x back. */
  lemma SolvingUndoesMultiplying(m: Matrix, x: seq<Complex>, b: seq<Complex>, y: seq<Complex>)
    requires Solvable(m) && |x| == |b| == |y| == m.n
    requires forall i | 0 <= i < m.n :: b[i] == Add(ZERO, Mul(ONE, Product(m, ConjAll(false, x), i)))
    requires forall i | 0 <= i < m.n :: Product(m, y, i) == b[i]
    ensures y == x
  {
    hide Add, Mul, WellStored;
    assert ConjAll(false, x) == x;
    forall i | 0 <= i < m.n
      ensures Product(m, y, i) == Product(m, x, i)
    {
      MulZeroOne(Product(m, x, i));
      AddLaws(Product(m, x, i), ZERO, ZERO);
    }
    SolutionIsUnique(m, y, x, m.n);
  }

  /** Multiplying a solution gives the right-hand side back. */
  lemma MultiplyingUndoesSolving(m: Matrix, b: seq<Complex>, x: seq<Complex>, res: seq<Complex>)
    requires Solvable(m) && |x| == |b| == |res| == m.n
    requires forall i | 0 <= i < m.n :: Product(m, x, i) == b[i]
    requires forall i | 0 <= i < m.n :: res[i] == Add(ZERO, Mul(ONE, Product(m, ConjAll(false, x), i)))
    ensures res == b
  {
    hide Add, Mul, WellStored;
    assert ConjAll(false, x) == x;
    forall i | 0 <= i < m.n
      ensures res[i] == b[i]
    {
      MulZeroOne(b[i]);
      AddLaws(b[i], ZERO, ZERO);
    }
  }

  /** The product of a matrix and x, solved for in place, is x again. */
  method MultiplyThenSolve(m: Matrix, x: seq<Complex>) returns (y: array<Complex>)
    requires m.Packed? && Solvable(m) && |x| == m.n
    ensures fresh(y) && y[..] == x
  {
    hide Product, Add, Mul, Solvable;
    assert WellStored(m) by { SolvableIsStored(m); }
    y := new Complex[m.n](_ => ZERO);
    Multiply(m, x, false, y, ONE);
    ghost var b := y[..];
    SolvePacked(m, y);
    SolvingUndoesMultiplying(m, x, b, y[..]);
  }

  /** A solution, multiplied, is the right-hand side again. */
  method SolveThenMultiply(m: Matrix, b: seq<Complex>) returns (res: array<Complex>)
    requires m.Packed? && Solvable(m) && |b| == m.n
    ensures fresh(res) && res[..] == b
  {
    hide Product, Add, Mul, Solvable;
    assert WellStored(m) by { SolvableIsStored(m); }
    var x := new Complex[m.n](i => if 0 <= i < |b| then b[i] else ZERO);
    assert x[..] == b;
    SolvePacked(m, x);
    res := new Complex[m.n](_ => ZERO);
    Multiply(m, x[..], false, res, ONE);
    MultiplyingUndoesSolving(m, b, x[..], res[..]);
  }

  lemma SolvableIsStored(m: Matrix)
    requires Solvable(m)
    ensures WellStored(m)
  {
  }
}
