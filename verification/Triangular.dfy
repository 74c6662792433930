/** Triangular matrices in packed and band storage, and what it means to multiply by one and to
    solve a system with one. */
module Triangular {
  import opened Scalars

  /** What stands on the diagonal: the stored entries, ones, or zeros. */
  datatype Diagonal = Stored | Unit | Zero

  /** A triangular matrix of `n` rows. Packed storage holds the triangle row by row or column by
      column; band storage holds, in rows or columns `stride` apart, the diagonal and its k neighbours. */
  datatype Matrix =
    | Packed(n: nat, lower: bool, rowMajor: bool, diagonal: Diagonal, conj: bool, data: seq<Complex>)
    | Band(n: nat, lower: bool, rowMajor: bool, diagonal: Diagonal, conj: bool, data: seq<Complex>, k: nat, stride: nat)

  /** The n-th triangular number. */
  function Tri(n: nat): nat {
    if n == 0 then 0 else Tri(n - 1) + n
  }

  lemma {:induction false} TriClosed(n: nat)
    ensures 2 * Tri(n) == n * (n + 1)
  {
    if n > 0 { TriClosed(n - 1); }
  }

  lemma {:induction false} TriMonotone(a: nat, b: nat)
    requires a <= b
    ensures Tri(a) <= Tri(b)
    decreases b
  {
    if a < b { TriMonotone(a, b - 1); }
  }

  /** Where packed storage keeps the entry (i, j) of the triangle. */
  function PackedIndex(m: Matrix, i: nat, j: nat): int
    requires m.Packed? && i < m.n && j < m.n
  {
    if m.rowMajor then
      if m.lower then Tri(i) + j else Tri(m.n) - Tri(m.n - i) + j - i
    else
      if m.lower then Tri(m.n) - Tri(m.n - j) + i - j else Tri(j) + i
  }

  /** Where band storage keeps the entry (i, j) of the band. */
  function BandIndex(m: Matrix, i: nat, j: nat): int
    requires m.Band?
  {
    if m.rowMajor then
      i * m.stride + if m.lower then m.k + j - i else j - i
    else
      j * m.stride + if m.lower then i - j else m.k + i - j
  }

  /** Off the diagonal, which entries are stored. */
  predicate InTriangle(m: Matrix, i: nat, j: nat) {
    && (if m.lower then j < i else i < j)
    && (m.Band? ==> if m.lower then i - j <= m.k else j - i <= m.k)
  }

  function Index(m: Matrix, i: nat, j: nat): int
    requires i < m.n && j < m.n
  {
    if m.Packed? then PackedIndex(m, i, j) else BandIndex(m, i, j)
  }

  /** The storage is large enough. */
  ghost predicate WellStored(m: Matrix) {
    if m.Packed? then |m.data| == Tri(m.n)
    else m.n > 0 ==> (m.n - 1) * m.stride + m.k < |m.data|
  }

  lemma SlotInBounds(r: nat, n: nat, stride: nat, c: nat, k: nat)
    requires r < n && c <= k
    ensures 0 <= r * stride + c <= (n - 1) * stride + k
  {
    Scaled(r, n - 1, stride);
  }

  lemma Scaled(a: nat, b: nat, stride: nat)
    requires a <= b
    ensures a * stride <= b * stride
  {
    assert b * stride == a * stride + (b - a) * stride;
  }

  lemma PackedInBounds(m: Matrix, i: nat, j: nat)
    requires m.Packed? && i < m.n && j < m.n && (i == j || InTriangle(m, i, j))
    ensures 0 <= PackedIndex(m, i, j) < Tri(m.n)
  {
    var r := if m.rowMajor then i else j;
    if m.rowMajor == m.lower {
      TriMonotone(r + 1, m.n);
    } else {
      TriMonotone(m.n - r, m.n);
      assert Tri(m.n - r) == Tri(m.n - r - 1) + m.n - r;
    }
  }

  /** Every entry of the triangle, and of the diagonal, is kept inside the storage. */
  lemma IndexInBounds(m: Matrix, i: nat, j: nat)
    requires WellStored(m) && i < m.n && j < m.n && (i == j || InTriangle(m, i, j))
    ensures 0 <= Index(m, i, j) < |m.data|
  {
    if m.Packed? {
      PackedInBounds(m, i, j);
    } else {
      var r, c := if m.rowMajor then i else j, if m.rowMajor then j else i;
      SlotInBounds(r, m.n, m.stride, if m.rowMajor == m.lower then m.k + c - r else c - r, m.k);
    }
  }

  /** No two entries of a packed triangle share a place. */
  lemma PlacesAreDistinct(m: Matrix, i: nat, j: nat, r: nat, c: nat)
    requires m.Packed? && i < m.n && j < m.n && r < m.n && c < m.n
    requires (i == j || InTriangle(m, i, j)) && (r == c || InTriangle(m, r, c))
    requires PackedIndex(m, i, j) == PackedIndex(m, r, c)
    ensures i == r && j == c
  {
    var a, b := if m.rowMajor then i else j, if m.rowMajor then r else c;
    if a < b {
      LaterStretch(m, a, b);
    } else if b < a {
      LaterStretch(m, b, a);
    }
  }

  /** The packed triangle is stored without gaps from place 0 on: after an entry comes the next one of
      its row (of its column), and after the last one of a row comes the first one of the next. */
  lemma PackedIsDense(m: Matrix, i: nat, j: nat)
    requires m.Packed? && i < m.n && j < m.n && (i == j || InTriangle(m, i, j))
    ensures var r, c := if m.rowMajor then i else j, if m.rowMajor then j else i;
      var first, last := if m.rowMajor == m.lower then 0 else r, if m.rowMajor == m.lower then r else m.n - 1;
      && first <= c <= last
      && (r == 0 && c == first ==> PackedIndex(m, i, j) == 0)
      && (c < last ==> PackedIndex(m, if m.rowMajor then i else i + 1, if m.rowMajor then j + 1 else j) == PackedIndex(m, i, j) + 1)
      && (c == last && r + 1 < m.n ==>
            var next := if m.rowMajor == m.lower then 0 else r + 1;
            PackedIndex(m, if m.rowMajor then r + 1 else next, if m.rowMajor then next else r + 1) == PackedIndex(m, i, j) + 1)
  {
    var r := if m.rowMajor then i else j;
    assert Tri(r + 1) == Tri(r) + r + 1;
    assert Tri(m.n - r) == Tri(m.n - r - 1) + m.n - r;
  }

  /** A later row or column of the storage begins where an earlier one has ended. */
  lemma LaterStretch(m: Matrix, a: nat, b: nat)
    requires a < b < m.n
    ensures Tri(a) + a + 1 <= Tri(b)
    ensures Tri(m.n) - Tri(m.n - a) + (m.n - a) <= Tri(m.n) - Tri(m.n - b)
  {
    TriMonotone(a + 1, b);
    TriMonotone(m.n - b, m.n - a - 1);
  }

  /** The entry (i, j) of the dense matrix that the storage denotes. */
  ghost function At(m: Matrix, i: nat, j: nat): Complex
    requires WellStored(m) && i < m.n && j < m.n
  {
    if i == j && m.diagonal.Unit? then ONE
    else if i == j && m.diagonal.Zero? then ZERO
    else if i == j || InTriangle(m, i, j) then
      IndexInBounds(m, i, j);
      ConjIf(m.conj, m.data[Index(m, i, j)])
    else ZERO
  }

  /** Conjugated storage denotes the conjugated matrix. */
  lemma ConjugatedAt(m: Matrix, i: nat, j: nat)
    requires WellStored(m) && i < m.n && j < m.n
    ensures var c := m.(conj := !m.conj); WellStored(c) && At(c, i, j) == Conj(At(m, i, j))
  {
    hide Tri, BandIndex;
    SameIndex(m, i, j);
    assert WellStored(m.(conj := !m.conj));
  }

  lemma SameIndex(m: Matrix, i: nat, j: nat)
    requires i < m.n && j < m.n
    ensures Index(m.(conj := !m.conj), i, j) == Index(m, i, j)
    ensures InTriangle(m.(conj := !m.conj), i, j) == InTriangle(m, i, j)
    ensures WellStored(m) ==> WellStored(m.(conj := !m.conj))
  {
  }

  /** The part of row i's product with `x` that the columns from lo to hi make up. */
  ghost function RowDot(m: Matrix, x: seq<Complex>, i: nat, lo: nat, hi: nat): Complex
    requires WellStored(m) && i < m.n == |x| && hi <= m.n
    decreases hi
  {
    if hi <= lo then ZERO else Add(RowDot(m, x, i, lo, hi - 1), Mul(At(m, i, hi - 1), x[hi - 1]))
  }

  /** Row i of the product of the matrix with `x`. */
  ghost function Product(m: Matrix, x: seq<Complex>, i: nat): Complex
    requires WellStored(m) && i < m.n == |x|
  {
    RowDot(m, x, i, 0, m.n)
  }

  /** A product only depends on the part of the vector that it uses. */
  lemma {:induction false} RowDotFrame(m: Matrix, x: seq<Complex>, y: seq<Complex>, i: nat, lo: nat, hi: nat)
    requires WellStored(m) && i < m.n == |x| == |y| && hi <= m.n
    requires forall j | lo <= j < hi :: x[j] == y[j]
    ensures RowDot(m, x, i, lo, hi) == RowDot(m, y, i, lo, hi)
    decreases hi
  {
    hide Add, Mul, At, WellStored;
    if lo < hi {
      RowDotFrame(m, x, y, i, lo, hi - 1);
    }
  }

  lemma {:induction false} RowDotSplit(m: Matrix, x: seq<Complex>, i: nat, lo: nat, mid: nat, hi: nat)
    requires WellStored(m) && i < m.n == |x| && lo <= mid <= hi <= m.n
    ensures RowDot(m, x, i, lo, hi) == Add(RowDot(m, x, i, lo, mid), RowDot(m, x, i, mid, hi))
    decreases hi
  {
    hide Add, Mul, At, WellStored;
    var front := RowDot(m, x, i, lo, mid);
    if mid == hi {
      AddLaws(front, ZERO, ZERO);
    } else {
      RowDotSplit(m, x, i, lo, mid, hi - 1);
      AddLaws(front, RowDot(m, x, i, mid, hi - 1), Mul(At(m, i, hi - 1), x[hi - 1]));
    }
  }

  lemma {:induction false} RowDotZero(m: Matrix, x: seq<Complex>, i: nat, lo: nat, hi: nat)
    requires WellStored(m) && i < m.n == |x| && hi <= m.n
    requires forall j | lo <= j < hi :: At(m, i, j) == ZERO
    ensures RowDot(m, x, i, lo, hi) == ZERO
    decreases hi
  {
    hide Add, Mul, At, WellStored;
    if lo < hi {
      RowDotZero(m, x, i, lo, hi - 1);
      MulZeroOne(x[hi - 1]);
      AddLaws(ZERO, ZERO, ZERO);
    }
  }

  /** Row i's product is what its diagonal makes of x[i], and what the rest of its triangle from lo
      to hi makes of the rest. */
  lemma ProductParts(m: Matrix, x: seq<Complex>, i: nat, lo: nat, hi: nat)
    requires WellStored(m) && i < m.n == |x| && lo <= hi <= m.n
    requires if m.lower then hi == i else lo == i + 1
    requires forall j | 0 <= j < m.n && j != i && !(lo <= j < hi) :: At(m, i, j) == ZERO
    ensures Product(m, x, i) == Add(RowDot(m, x, i, lo, hi), Mul(At(m, i, i), x[i]))
  {
    hide Add, Mul, At, WellStored;
    var dot, t := RowDot(m, x, i, lo, hi), Mul(At(m, i, i), x[i]);
    RowDotSplit(m, x, i, 0, i, m.n);
    RowDotSplit(m, x, i, i, i + 1, m.n);
    RowDotOne(m, x, i);
    AddLaws(dot, t, ZERO);
    AddLaws(t, ZERO, ZERO);
    if m.lower {
      RowDotSplit(m, x, i, 0, lo, i);
      RowDotZero(m, x, i, 0, lo);
      RowDotZero(m, x, i, i + 1, m.n);
    } else {
      RowDotSplit(m, x, i, i + 1, hi, m.n);
      RowDotZero(m, x, i, hi, m.n);
      RowDotZero(m, x, i, 0, i);
      AddLaws(Add(t, dot), ZERO, ZERO);
    }
  }

  lemma RowDotOne(m: Matrix, x: seq<Complex>, i: nat)
    requires WellStored(m) && i < m.n == |x|
    ensures RowDot(m, x, i, i, i + 1) == Mul(At(m, i, i), x[i])
  {
    hide Add, Mul, At, WellStored;
    var t := Mul(At(m, i, i), x[i]);
    assert RowDot(m, x, i, i, i) == ZERO;
    AddLaws(t, ZERO, ZERO);
  }
}
