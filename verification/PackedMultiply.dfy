/** Multiplying a vector by a packed triangular matrix. */
module PackedMultiply {
  import opened Scalars
  import opened Triangular
  import opened TriangularSolve

  function ConjAll(conj: bool, x: seq<Complex>): (y: seq<Complex>)
    ensures |y| == |x| && forall i | 0 <= i < |x| :: y[i] == ConjIf(conj, x[i])
  {
    seq(|x|, i requires 0 <= i < |x| => ConjIf(conj, x[i]))
  }

  /** Conjugating the matrix and the vector conjugates the product. */
  lemma {:induction false} ConjugatedRowDot(m: Matrix, c: Matrix, x: seq<Complex>, y: seq<Complex>, i: nat, lo: nat, hi: nat)
    requires WellStored(m) && WellStored(c) && c.n == m.n && i < m.n == |x| == |y| && hi <= m.n
    requires forall j | 0 <= j < m.n :: At(c, i, j) == Conj(At(m, i, j)) && y[j] == Conj(x[j])
    ensures RowDot(c, y, i, lo, hi) == Conj(RowDot(m, x, i, lo, hi))
    decreases hi
  {
    ConjZero();
    hide Add, Mul, Conj, At, WellStored;
    if lo < hi {
      var rest, a := RowDot(m, x, i, lo, hi - 1), At(m, i, hi - 1);
      ConjugatedRowDot(m, c, x, y, i, lo, hi - 1);
      ConjMul(a, x[hi - 1]);
      ConjAdd(rest, Mul(a, x[hi - 1]));
    }
  }

  lemma ConjZero()
    ensures Conj(ZERO) == ZERO
  {
  }

  lemma ConjAllIs(x: seq<Complex>)
    ensures forall i | 0 <= i < |x| :: ConjAll(true, x)[i] == Conj(x[i])
    ensures ConjAll(false, x) == x
  {
    hide Conj;
  }

  lemma ConjugatedProduct(m: Matrix, x: seq<Complex>, i: nat)
    requires WellStored(m) && i < m.n == |x|
    ensures var c := m.(conj := !m.conj);
      WellStored(c) && Product(c, ConjAll(true, x), i) == Conj(Product(m, x, i)) && ConjAll(false, x) == x
  {
    var c := m.(conj := !m.conj);
    hide Add, Mul, Conj, At, RowDot, WellStored, ConjAll;
    ConjAllIs(x);
    ConjugatedAt(m, i, i);
    forall j | 0 <= j < m.n
      ensures At(c, i, j) == Conj(At(m, i, j))
    {
      ConjugatedAt(m, i, j);
    }
    ConjugatedRowDot(m, c, x, ConjAll(true, x), i, 0, m.n);
  }

  /** An entry of the result: its value before, and alpha times the row's product. */
  ghost function Updated(m: Matrix, before: Complex, alpha: Complex, x: seq<Complex>, i: nat, cols: nat): Complex
    requires WellStored(m) && i < m.n == |x| && cols <= m.n
  {
    Add(before, Mul(alpha, RowDot(m, x, i, 0, cols)))
  }

  // ---- row by row ----

  /** The columns of row i that are read from the storage. */
  function FirstKept(m: Matrix, i: nat): nat {
    if m.lower then 0 else if m.diagonal.Stored? then i else i + 1
  }

  function KeptEnd(m: Matrix, i: nat): nat {
    if !m.lower then m.n else if m.diagonal.Stored? then i + 1 else i
  }

  lemma KeptRow(m: Matrix, i: nat)
    requires m.Packed? && m.rowMajor && WellStored(m) && i < m.n
    ensures var off := if m.lower then Tri(i) else Tri(m.n) - Tri(m.n - i);
      var lo, hi := FirstKept(m, i), KeptEnd(m, i); var p := off + (if m.lower || m.diagonal.Stored? then 0 else 1);
      && lo <= hi <= m.n && 0 <= p && p + (hi - lo) <= |m.data|
      && forall j | lo <= j < hi :: Kept(m, i, j) && Index(m, i, j) == p + (j - lo)
  {
    if m.lower {
      TriMonotone(i + 1, m.n);
    } else {
      TriMonotone(m.n - i, m.n);
    }
  }

  /** What is read from the storage, with the ones of a unit diagonal, is the whole row. */
  lemma RowIsKeptPart(m: Matrix, x: seq<Complex>, i: nat)
    requires m.Packed? && WellStored(m) && i < m.n == |x| && FirstKept(m, i) <= KeptEnd(m, i)
    ensures Product(m, x, i) ==
            Add(RowDot(m, x, i, FirstKept(m, i), KeptEnd(m, i)), if m.diagonal.Unit? then x[i] else ZERO)
  {
    hide Add, Mul, WellStored;
    var lo, hi := FirstKept(m, i), KeptEnd(m, i);
    MulZeroOne(x[i]);
    AddLaws(RowDot(m, x, i, lo, hi), ZERO, ZERO);
    if m.diagonal.Stored? {
      RowDotSplit(m, x, i, 0, lo, m.n);
      RowDotSplit(m, x, i, lo, hi, m.n);
      RowDotZero(m, x, i, 0, lo);
      RowDotZero(m, x, i, hi, m.n);
      AddLaws(Product(m, x, i), ZERO, ZERO);
    } else {
      ProductParts(m, x, i, lo, hi);
    }
  }

  /** The two additions of a row step. */
  lemma AddedTwice(before: Complex, alpha: Complex, dot: Complex, rest: Complex)
    ensures Add(Add(before, Mul(alpha, dot)), Mul(alpha, rest)) == Add(before, Mul(alpha, Add(dot, rest)))
    ensures Mul(alpha, ZERO) == ZERO
  {
    hide Add, Mul, WellStored;
    MulDistributes(alpha, dot, rest);
    AddLaws(before, Mul(alpha, dot), Mul(alpha, rest));
    MulZeroOne(alpha);
  }

  /** An entry of the result after its row: alpha times the stretch's share is added, if there is a
      stretch to read, and alpha times x[i] for a unit diagonal. */
  function RowAdded(m: Matrix, before: Complex, alpha: Complex, x: seq<Complex>, i: nat, p: nat, lo: nat, r: nat): Complex
    requires i < |x| && p + r <= |m.data| && lo + r <= |x|
  {
    var sum := if m.diagonal.Stored? || r > 0
               then Add(before, Mul(alpha, VecDot(m.conj, m.data[p..p + r], x[lo..lo + r])))
               else before;
    if m.diagonal.Unit? then Add(sum, Mul(alpha, x[i])) else sum
  }

  lemma RowAddedIsProduct(m: Matrix, before: Complex, alpha: Complex, x: seq<Complex>, i: nat, p: nat, lo: nat, r: nat)
    requires m.Packed? && WellStored(m) && i < m.n == |x| && p + r <= |m.data| && lo + r <= m.n
    requires lo == FirstKept(m, i) && lo + r == KeptEnd(m, i)
    requires forall j | lo <= j < lo + r :: Kept(m, i, j) && Index(m, i, j) == p + (j - lo)
    ensures RowAdded(m, before, alpha, x, i, p, lo, r) == Add(before, Mul(alpha, Product(m, x, i)))
  {
    hide Add, Mul, VecDot, Product, At, Index, ConjIf, WellStored;
    var dot := RowDot(m, x, i, lo, lo + r);
    StretchIsRowDot(m, x, i, lo, lo + r, p);
    RowIsKeptPart(m, x, i);
    AddedTwice(before, alpha, dot, if m.diagonal.Unit? then x[i] else ZERO);
    AddLaws(before, ZERO, ZERO);
    AddLaws(Add(before, Mul(alpha, dot)), ZERO, ZERO);
  }

  lemma ConjSlice(conj: bool, x: seq<Complex>, lo: nat, hi: nat)
    requires lo <= hi <= |x|
    ensures ConjAll(conj, x[lo..hi]) == ConjAll(conj, x)[lo..hi]
  {
    hide ConjAll, ConjIf;
  }

  /** One row of the product. */
  method MultiplyRow(m: Matrix, rhs: seq<Complex>, conjRhs: bool, res: array<Complex>, alpha: Complex,
                     i: nat, off: nat)
    requires m.Packed? && m.rowMajor && WellStored(m) && |rhs| == res.Length == m.n && i < m.n
    requires off == if m.lower then Tri(i) else Tri(m.n) - Tri(m.n - i)
    modifies res
    ensures res[..] ==
            old(res[..])[i := Add(old(res[i]), Mul(alpha, Product(m, ConjAll(conjRhs, rhs), i)))]
  {
    hide Add, Mul, VecDot, Product, At, Index, Kept, WellStored, ConjAll;
    ghost var x := ConjAll(conjRhs, rhs);
    ghost var before := res[i];
    KeptRow(m, i);
    var trims := !m.diagonal.Stored?;
    var s: nat := if !m.lower && trims then 1 else 0;
    var r := (if m.lower then i + 1 else m.n - i) - (if trims then 1 else 0);
    var lo: nat := if m.lower then 0 else s + i;
    RowAddedIsProduct(m, before, alpha, x, i, off + s, lo, r);
    ConjSlice(conjRhs, rhs, lo, lo + r);
    if !trims || r > 0 {
      res[i] := Add(res[i], Mul(alpha, VecDot(m.conj, m.data[off + s..off + s + r], ConjAll(conjRhs, rhs[lo..lo + r]))));
    }
    if m.diagonal.Unit? {
      res[i] := Add(res[i], Mul(alpha, ConjIf(conjRhs, rhs[i])));
    }
    assert res[i] == RowAdded(m, before, alpha, x, i, off + s, lo, r);
  }

  /** res += alpha * M * rhs, row by row. */
  method MultiplyRowMajor(m: Matrix, rhs: seq<Complex>, conjRhs: bool, res: array<Complex>, alpha: Complex)
    requires m.Packed? && m.rowMajor && WellStored(m) && |rhs| == res.Length == m.n
    modifies res
    ensures forall i | 0 <= i < m.n ::
      res[i] == Add(old(res[i]), Mul(alpha, Product(m, ConjAll(conjRhs, rhs), i)))
  {
    hide Add, Mul, Product, WellStored;
    ghost var x := ConjAll(conjRhs, rhs);
    ghost var before := res[..];
    var size: int := m.n;
    var off: int := 0;
    for i := 0 to size
      invariant m.lower ==> off == Tri(i)
      invariant !m.lower ==> off == Tri(size) - Tri(size - i)
      invariant forall j | 0 <= j < i :: res[j] == Add(before[j], Mul(alpha, Product(m, x, j)))
      invariant forall j | i <= j < m.n :: res[j] == before[j]
    {
      TriMonotone(size - i, size);
      MultiplyRow(m, rhs, conjRhs, res, alpha, i, off);
      off := off + (if m.lower then i + 1 else size - i);
    }
  }

  // ---- column by column ----

  /** One more column. */
  lemma ColumnAdds(m: Matrix, before: Complex, alpha: Complex, x: seq<Complex>, i: nat, c: nat)
    requires WellStored(m) && i < m.n == |x| && c < m.n
    ensures Updated(m, before, alpha, x, i, c + 1) ==
            Add(Updated(m, before, alpha, x, i, c), Mul(Mul(alpha, x[c]), At(m, i, c)))
  {
    hide Add, Mul, WellStored;
    AddedTwice(before, alpha, RowDot(m, x, i, 0, c), Mul(At(m, i, c), x[c]));
    MulCommutes(At(m, i, c), x[c]);
    MulAssociates(alpha, x[c], At(m, i, c));
  }

  /** A column step adds the scaled column to the result. */
  lemma ColumnAdded(m: Matrix, before: seq<Complex>, y: seq<Complex>, z: seq<Complex>,
                    alpha: Complex, x: seq<Complex>, c: nat)
    requires WellStored(m) && c < m.n == |x| == |before| == |y| == |z|
    requires forall i | 0 <= i < m.n :: y[i] == Updated(m, before[i], alpha, x, i, c)
    requires forall i | 0 <= i < m.n ::
      z[i] == if Kept(m, i, c) || (i == c && m.diagonal.Unit?) then Add(y[i], Mul(Mul(alpha, x[c]), At(m, i, c))) else y[i]
    ensures forall i | 0 <= i < m.n :: z[i] == Updated(m, before[i], alpha, x, i, c + 1)
  {
    hide Add, Mul, WellStored;
    forall i | 0 <= i < m.n
      ensures z[i] == Updated(m, before[i], alpha, x, i, c + 1)
    {
      ColumnAdds(m, before[i], alpha, x, i, c);
      MulZeroOne(Mul(alpha, x[c]));
      AddLaws(y[i], ZERO, ZERO);
    }
  }

  /** Where column c's kept entries are. */
  lemma KeptColumn(m: Matrix, c: nat)
    requires m.Packed? && !m.rowMajor && WellStored(m) && c < m.n
    ensures var off := if m.lower then Tri(m.n) - Tri(m.n - c) else Tri(c);
      var trim := if m.diagonal.Stored? then 0 else 1;
      var s := if m.lower then trim else 0; var r := (if m.lower then m.n - c else c + 1) - trim;
      var lo := if m.lower then s + c else 0;
      && 0 <= off && off + s + r <= |m.data| && lo + r <= m.n
      && (forall i | 0 <= i < m.n :: Kept(m, i, c) <==> lo <= i < lo + r)
      && forall i | lo <= i < lo + r :: Index(m, i, c) == off + s + (i - lo)
  {
    if m.lower {
      TriMonotone(m.n - c, m.n);
    } else {
      TriMonotone(c + 1, m.n);
    }
  }

  /** Adds a multiple of a stretch of the storage to the entries from `lo` on. */
  method AddStretch(m: Matrix, res: array<Complex>, factor: Complex, p: nat, lo: nat, len: nat)
    requires lo + len <= res.Length && p + len <= |m.data|
    modifies res
    ensures forall i | 0 <= i < res.Length ::
      res[i] == if lo <= i < lo + len then Add(old(res[i]), Mul(factor, ConjIf(m.conj, m.data[p + (i - lo)]))) else old(res[i])
  {
    for k := 0 to len
      invariant forall i | 0 <= i < res.Length ::
        res[i] ==
        if lo <= i < lo + k then Add(old(res[i]), Mul(factor, ConjIf(m.conj, m.data[p + (i - lo)]))) else old(res[i])
    {
      res[lo + k] := Add(res[lo + k], Mul(factor, ConjIf(m.conj, m.data[p + k])));
    }
  }

  /** One column of the product. */
  method MultiplyColumn(m: Matrix, rhs: seq<Complex>, conjRhs: bool, res: array<Complex>, alpha: Complex,
                        i: nat, off: nat)
    requires m.Packed? && !m.rowMajor && WellStored(m) && |rhs| == res.Length == m.n && i < m.n
    requires off == if m.lower then Tri(m.n) - Tri(m.n - i) else Tri(i)
    modifies res
    ensures var x := ConjAll(conjRhs, rhs);
      forall j | 0 <= j < m.n ::
        res[j] ==
        if Kept(m, j, i) || (j == i && m.diagonal.Unit?) then Add(old(res[j]), Mul(Mul(alpha, x[i]), At(m, j, i)))
        else old(res[j])
  {
    hide Add, Mul, WellStored;
    var trims := !m.diagonal.Stored?;
    var s: nat := if m.lower && trims then 1 else 0;
    var r := (if m.lower then m.n - i else i + 1) - (if trims then 1 else 0);
    KeptColumn(m, i);
    var factor := Mul(alpha, ConjIf(conjRhs, rhs[i]));
    MulZeroOne(factor);
    if !trims || r > 0 {
      AddStretch(m, res, factor, off + s, if m.lower then s + i else 0, r);
    }
    if m.diagonal.Unit? {
      res[i] := Add(res[i], factor);
    }
  }

  /** res += alpha * M * rhs, column by column. */
  method MultiplyColMajor(m: Matrix, rhs: seq<Complex>, conjRhs: bool, res: array<Complex>, alpha: Complex)
    requires m.Packed? && !m.rowMajor && WellStored(m) && |rhs| == res.Length == m.n
    modifies res
    ensures forall i | 0 <= i < m.n ::
      res[i] == Add(old(res[i]), Mul(alpha, Product(m, ConjAll(conjRhs, rhs), i)))
  {
    hide Add, Mul, WellStored;
    ghost var x := ConjAll(conjRhs, rhs);
    ghost var before := res[..];
    var size: int := m.n;
    var off: int := 0;
    MulZeroOne(alpha);
    forall i | 0 <= i < m.n
      ensures before[i] == Updated(m, before[i], alpha, x, i, 0)
    {
      AddLaws(before[i], ZERO, ZERO);
    }
    for i := 0 to size
      invariant m.lower ==> off == Tri(size) - Tri(size - i)
      invariant !m.lower ==> off == Tri(i)
      invariant forall j | 0 <= j < m.n :: res[j] == Updated(m, before[j], alpha, x, j, i)
    {
      ghost var y := res[..];
      KeptColumn(m, i);
      MultiplyColumn(m, rhs, conjRhs, res, alpha, i, off);
      ColumnAdded(m, before, y, res[..], alpha, x, i);
      off := off + (if m.lower then size - i else i + 1);
    }
  }

  method Multiply(m: Matrix, rhs: seq<Complex>, conjRhs: bool, res: array<Complex>, alpha: Complex)
    requires m.Packed? && WellStored(m) && |rhs| == res.Length == m.n
    modifies res
    ensures forall i | 0 <= i < m.n ::
      res[i] == Add(old(res[i]), Mul(alpha, Product(m, ConjAll(conjRhs, rhs), i)))
  {
    if m.rowMajor {
      MultiplyRowMajor(m, rhs, conjRhs, res, alpha);
    } else {
      MultiplyColMajor(m, rhs, conjRhs, res, alpha);
    }
  }
}
