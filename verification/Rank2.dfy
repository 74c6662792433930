/** The rank-two update of a selfadjoint matrix, of which one triangle is stored, densely or packed. */
module Rank2 {
  import opened Scalars
  import opened Triangular

  /** What the update adds to the entry (r, c): alpha u v' + conj(alpha) v u'. */
  function Term(u: seq<Complex>, v: seq<Complex>, alpha: Complex, r: nat, c: nat): Complex
    requires r < |u| == |v| && c < |u|
  {
    Add(Mul(Mul(Conj(alpha), Conj(u[c])), v[r]), Mul(Mul(alpha, Conj(v[c])), u[r]))
  }

  /** The entries of the stored triangle. */
  predicate InUpdate(n: nat, lower: bool, r: nat, c: nat) {
    r < n && c < n && if lower then c <= r else r <= c
  }

  // ---- selfadjointness ----

  lemma ConjTerm(a: Complex, x: Complex, y: Complex)
    ensures Conj(Mul(Mul(Conj(a), Conj(x)), y)) == Mul(Mul(a, Conj(y)), x)
  {
    hide Mul, Conj;
    ConjMul(Mul(Conj(a), Conj(x)), y);
    ConjMul(Conj(a), Conj(x));
    ConjMul(a, a);
    ConjMul(x, x);
    MulAssociates(a, x, Conj(y));
    MulCommutes(x, Conj(y));
    MulAssociates(a, Conj(y), x);
  }

  /** The update adds a selfadjoint matrix. */
  lemma TermIsSelfadjoint(u: seq<Complex>, v: seq<Complex>, alpha: Complex, r: nat, c: nat)
    requires r < |u| == |v| && c < |u|
    ensures Term(u, v, alpha, r, c) == Conj(Term(u, v, alpha, c, r))
  {
    hide Mul, Conj, Add;
    var a, b := Mul(Mul(Conj(alpha), Conj(u[r])), v[c]), Mul(Mul(alpha, Conj(v[r])), u[c]);
    ConjTerm(alpha, u[r], v[c]);
    ConjTerm(alpha, u[c], v[r]);
    ConjMul(Mul(Mul(Conj(alpha), Conj(u[c])), v[r]), ONE);
    ConjAdd(a, b);
    AddLaws(Conj(a), Conj(b), ZERO);
  }

  /** The product of a conjugated vector with another one, over the first n entries. */
  ghost function Inner(v: seq<Complex>, x: seq<Complex>, n: nat): Complex
    requires n <= |v| == |x|
  {
    if n == 0 then ZERO else Add(Inner(v, x, n - 1), Mul(Conj(v[n - 1]), x[n - 1]))
  }

  /** Row r of what is added, times a vector, over the first n columns. */
  ghost function TermRow(u: seq<Complex>, v: seq<Complex>, alpha: Complex, x: seq<Complex>, r: nat, n: nat): Complex
    requires r < |u| == |v| == |x| && n <= |u|
  {
    if n == 0 then ZERO else Add(TermRow(u, v, alpha, x, r, n - 1), Mul(Term(u, v, alpha, r, n - 1), x[n - 1]))
  }

  lemma Rearrange(a: Complex, b: Complex, c: Complex, x: Complex)
    ensures Mul(Mul(Mul(a, b), c), x) == Mul(Mul(a, c), Mul(b, x))
  {
    hide Mul;
    MulAssociates(a, b, c);
    MulCommutes(b, c);
    MulAssociates(a, c, b);
    MulAssociates(Mul(a, c), b, x);
  }

  lemma AddToBoth(p: Complex, q: Complex, dp: Complex, dq: Complex)
    ensures Add(Add(p, q), Add(dq, dp)) == Add(Add(p, dp), Add(q, dq))
  {
  }

  lemma {:induction false} TermRowIs(u: seq<Complex>, v: seq<Complex>, alpha: Complex, x: seq<Complex>, r: nat, n: nat)
    requires r < |u| == |v| == |x| && n <= |u|
    ensures TermRow(u, v, alpha, x, r, n) ==
            Add(Mul(Mul(alpha, u[r]), Inner(v, x, n)), Mul(Mul(Conj(alpha), v[r]), Inner(u, x, n)))
  {
    hide Mul, Add, Conj;
    var a, b := Mul(alpha, u[r]), Mul(Conj(alpha), v[r]);
    if n == 0 {
      MulZeroOne(a);
      MulZeroOne(b);
      AddLaws(ZERO, ZERO, ZERO);
    } else {
      var c := n - 1;
      var dv, du := Mul(Conj(v[c]), x[c]), Mul(Conj(u[c]), x[c]);
      TermRowIs(u, v, alpha, x, r, c);
      Rearrange(alpha, Conj(v[c]), u[r], x[c]);
      Rearrange(Conj(alpha), Conj(u[c]), v[r], x[c]);
      MulAdded(Mul(Mul(Conj(alpha), Conj(u[c])), v[r]), Mul(Mul(alpha, Conj(v[c])), u[r]), x[c]);
      MulDistributes(a, Inner(v, x, c), dv);
      MulDistributes(b, Inner(u, x, c), du);
      AddToBoth(Mul(a, Inner(v, x, c)), Mul(b, Inner(u, x, c)), Mul(a, dv), Mul(b, du));
    }
  }

  lemma MulAdded(a: Complex, b: Complex, x: Complex)
    ensures Mul(Add(a, b), x) == Add(Mul(a, x), Mul(b, x))
  {
    hide Mul;
    MulDistributes(x, a, b);
    MulCommutes(x, a);
    MulCommutes(x, b);
    MulCommutes(x, Add(a, b));
  }

  /** The added matrix is alpha u v' + conj(alpha) v u': times x it is alpha (v'x) u + conj(alpha) (u'x) v. */
  lemma TermIsRankTwo(u: seq<Complex>, v: seq<Complex>, alpha: Complex, x: seq<Complex>, r: nat)
    requires r < |u| == |v| == |x|
    ensures TermRow(u, v, alpha, x, r, |u|) ==
            Add(Mul(Mul(alpha, Inner(v, x, |u|)), u[r]), Mul(Mul(Conj(alpha), Inner(u, x, |u|)), v[r]))
  {
    hide Mul, Add, Conj;
    TermRowIs(u, v, alpha, x, r, |u|);
    Swap(alpha, u[r], Inner(v, x, |u|));
    Swap(Conj(alpha), v[r], Inner(u, x, |u|));
  }

  lemma Swap(a: Complex, b: Complex, c: Complex)
    ensures Mul(Mul(a, b), c) == Mul(Mul(a, c), b)
  {
    hide Mul;
    MulAssociates(a, b, c);
    MulCommutes(b, c);
    MulAssociates(a, c, b);
  }

  /** So what it adds to the diagonal is real. */
  lemma DiagonalTermIsReal(u: seq<Complex>, v: seq<Complex>, alpha: Complex, c: nat)
    requires c < |u| == |v|
    ensures Term(u, v, alpha, c, c).im == 0.0
  {
    TermIsSelfadjoint(u, v, alpha, c, c);
  }

  // ---- the kernels ----

  /** Column i's terms, from row `lo` on, have been added to the stretch from `p` on. */
  ghost predicate ColumnAdded(y: seq<Complex>, z: seq<Complex>, u: seq<Complex>, v: seq<Complex>, alpha: Complex,
                              i: nat, p: nat, lo: nat, len: nat)
    requires i < |u| == |v| && lo + len <= |u| && p + len <= |y| == |z|
  {
    forall q | 0 <= q < |y| ::
      z[q] == if p <= q < p + len then Add(y[q], Term(u, v, alpha, lo + (q - p), i)) else y[q]
  }

  /** Adds column i's terms, from row `lo` on, to a stretch of the storage. */
  method AddColumn(mat: array<Complex>, u: seq<Complex>, v: seq<Complex>, alpha: Complex, i: nat,
                   p: nat, lo: nat, len: nat)
    requires i < |u| == |v| && lo + len <= |u| && p + len <= mat.Length
    modifies mat
    ensures ColumnAdded(old(mat[..]), mat[..], u, v, alpha, i, p, lo, len)
  {
    hide Term;
    for k := 0 to len
      invariant forall q | 0 <= q < mat.Length ::
        mat[q] == if p <= q < p + k then Add(old(mat[q]), Term(u, v, alpha, lo + (q - p), i)) else old(mat[q])
    {
      mat[p + k] := Add(mat[p + k], Term(u, v, alpha, lo + k, i));
    }
  }

  function DenseIndex(stride: nat, r: nat, c: nat): nat {
    stride * c + r
  }

  /** The storage is large enough; the last column may end with its last entry. */
  predicate DenseRoom(stride: nat, n: nat, length: nat) {
    n <= stride && (n > 0 ==> stride * (n - 1) + n <= length)
  }

  lemma DenseColumn(stride: nat, i: nat, r: nat, c: nat)
    requires r < stride
    ensures stride * i <= DenseIndex(stride, r, c) < stride * i + stride <==> c == i
  {
    if c < i {
      ColumnsApart(stride, c, i);
    } else if i < c {
      ColumnsApart(stride, i, c);
    }
  }

  lemma ColumnsApart(stride: nat, a: nat, b: nat)
    requires a < b
    ensures stride * a + stride <= stride * b
  {
    var d := b - a - 1;
    Spread(stride, a, d);
    NotNegative(stride, d);
    assert a + 1 + d == b;
  }

  lemma NotNegative(x: nat, y: nat)
    ensures x * y >= 0
  {
  }

  lemma Spread(stride: nat, a: nat, d: nat)
    ensures stride * (a + 1 + d) == stride * a + stride + stride * d
  {
    Distributes(stride, a, 1 + d);
    Distributes(stride, 1, d);
  }

  lemma Distributes(x: int, y: int, z: int)
    ensures x * (y + z) == x * y + x * z
  {
  }

  lemma DenseInBounds(stride: nat, n: nat, length: nat, r: nat, c: nat)
    requires DenseRoom(stride, n, length) && r < n && c < n
    ensures DenseIndex(stride, r, c) < length
  {
    if c < n - 1 { ColumnsApart(stride, c, n - 1); }
  }

  /** The place of (r, c) has got its term, if its column is one of the first `cols`. */
  ghost predicate DenseEntryUpdated(lower: bool, stride: nat, before: seq<Complex>, after: seq<Complex>,
                                    u: seq<Complex>, v: seq<Complex>, alpha: Complex, cols: nat, r: nat, c: nat)
    requires |u| == |v| && DenseRoom(stride, |u|, |before|) && |before| == |after| && r < |u| && c < |u|
  {
    var p := DenseIndex(stride, r, c);
    DenseInBounds(stride, |u|, |before|, r, c);
    after[p] == if c < cols then Add(before[p], Term(u, v, alpha, r, c)) else before[p]
  }

  /** The place of an entry of the stored triangle. */
  ghost predicate DensePlace(lower: bool, stride: nat, n: nat, p: nat) {
    exists r, c :: InUpdate(n, lower, r, c) && p == DenseIndex(stride, r, c)
  }

  /** Dense storage after the first `cols` columns have been updated: the stored triangle has got its
      terms, and no other place has changed. */
  ghost predicate DenseUpdated(lower: bool, stride: nat, before: seq<Complex>, after: seq<Complex>,
                               u: seq<Complex>, v: seq<Complex>, alpha: Complex, cols: nat)
    requires |u| == |v| && DenseRoom(stride, |u|, |before|) && |before| == |after|
  {
    && (forall r, c | InUpdate(|u|, lower, r, c) :: DenseEntryUpdated(lower, stride, before, after, u, v, alpha, cols, r, c))
    && forall p: nat | p < |before| && !DensePlace(lower, stride, |u|, p) :: after[p] == before[p]
  }

  /** Dense storage: the stored triangle gets its terms, and nothing else changes. */
  method UpdateDense(lower: bool, mat: array<Complex>, stride: nat, u: seq<Complex>, v: seq<Complex>, alpha: Complex)
    requires |u| == |v| && DenseRoom(stride, |u|, mat.Length)
    modifies mat
    ensures DenseUpdated(lower, stride, old(mat[..]), mat[..], u, v, alpha, |u|)
  {
    hide ColumnAdded, DenseUpdated;
    var size := |u|;
    ghost var before := mat[..];
    DenseStart(lower, stride, before, u, v, alpha);
    for i := 0 to size
      invariant DenseUpdated(lower, stride, before, mat[..], u, v, alpha, i)
    {
      ghost var y := mat[..];
      var start := if lower then i else 0;
      var len := if lower then size - i else i + 1;
      DenseInBounds(stride, size, mat.Length, start + len - 1, i);
      AddColumn(mat, u, v, alpha, i, stride * i + start, start, len);
      DenseStep(lower, stride, before, y, mat[..], u, v, alpha, i, stride * i + start, start, len);
    }
  }

  lemma DenseStart(lower: bool, stride: nat, before: seq<Complex>, u: seq<Complex>, v: seq<Complex>, alpha: Complex)
    requires |u| == |v| && DenseRoom(stride, |u|, |before|)
    ensures DenseUpdated(lower, stride, before, before, u, v, alpha, 0)
  {
  }

  lemma DenseEntryStep(lower: bool, stride: nat, before: seq<Complex>, y: seq<Complex>, z: seq<Complex>, u: seq<Complex>,
                       v: seq<Complex>, alpha: Complex, i: nat, p: nat, start: nat, len: nat, r: nat, c: nat)
    requires i < |u| == |v| && DenseRoom(stride, |u|, |before|) && |before| == |y| == |z|
    requires InUpdate(|u|, lower, r, c) && DenseEntryUpdated(lower, stride, before, y, u, v, alpha, i, r, c)
    requires start == (if lower then i else 0) && len == (if lower then |u| - i else i + 1) && p == stride * i + start
    requires p + len <= |z| && ColumnAdded(y, z, u, v, alpha, i, p, start, len)
    ensures DenseEntryUpdated(lower, stride, before, z, u, v, alpha, i + 1, r, c)
  {
    hide Term;
    var q := DenseIndex(stride, r, c);
    DenseInBounds(stride, |u|, |before|, r, c);
    DenseColumn(stride, i, r, c);
    if c == i {
      assert p <= q < p + len && start + (q - p) == r;
    } else {
      assert !(p <= q < p + len);
    }
  }

  lemma DenseStep(lower: bool, stride: nat, before: seq<Complex>, y: seq<Complex>, z: seq<Complex>,
                  u: seq<Complex>, v: seq<Complex>, alpha: Complex, i: nat, p: nat, start: nat, len: nat)
    requires i < |u| == |v| && DenseRoom(stride, |u|, |before|) && |before| == |y| == |z|
    requires DenseUpdated(lower, stride, before, y, u, v, alpha, i)
    requires start == (if lower then i else 0) && len == (if lower then |u| - i else i + 1) && p == stride * i + start
    requires p + len <= |z| && ColumnAdded(y, z, u, v, alpha, i, p, start, len)
    ensures DenseUpdated(lower, stride, before, z, u, v, alpha, i + 1)
  {
    hide Term, DensePlace, DenseEntryUpdated, DenseRoom;
    var cols := i + 1;
    forall r, c | InUpdate(|u|, lower, r, c)
      ensures DenseEntryUpdated(lower, stride, before, z, u, v, alpha, cols, r, c)
    {
      DenseEntryStep(lower, stride, before, y, z, u, v, alpha, i, p, start, len, r, c);
    }
    forall q: nat | q < |before| && !DensePlace(lower, stride, |u|, q)
      ensures z[q] == before[q]
    {
      if p <= q < p + len {
        ColumnIsStored(lower, stride, |u|, i, start + (q - p));
      }
    }
  }

  lemma ColumnIsStored(lower: bool, stride: nat, n: nat, i: nat, r: nat)
    requires InUpdate(n, lower, r, i)
    ensures DensePlace(lower, stride, n, stride * i + r)
  {
    assert DenseIndex(stride, r, i) == stride * i + r;
  }

  /** A packed triangle's columns. */
  function Shape(n: nat, lower: bool): Matrix {
    Packed(n, lower, false, Stored, false, [])
  }

  function PackedPlace(n: nat, lower: bool, r: nat, c: nat): (p: nat)
    requires InUpdate(n, lower, r, c)
    ensures p < Tri(n)
  {
    PackedInBounds(Shape(n, lower), r, c);
    PackedIndex(Shape(n, lower), r, c)
  }

  function RealPart(a: Complex): Complex {
    Complex(a.re, 0.0)
  }

  /** An entry of packed storage after its column has been updated. */
  function PackedEntry(a: Complex, u: seq<Complex>, v: seq<Complex>, alpha: Complex, r: nat, c: nat): Complex
    requires r < |u| == |v| && c < |u|
  {
    var sum := Add(a, Term(u, v, alpha, r, c));
    if r == c then RealPart(sum) else sum
  }

  /** Packed storage after the first `cols` columns have been updated. */
  ghost predicate PackedUpdated(lower: bool, before: seq<Complex>, after: seq<Complex>,
                                u: seq<Complex>, v: seq<Complex>, alpha: Complex, cols: nat)
    requires |u| == |v| && |before| == |after| == Tri(|u|)
  {
    forall r, c | 0 <= r < |u| && 0 <= c < |u| && InUpdate(|u|, lower, r, c) ::
      var p := PackedPlace(|u|, lower, r, c);
      after[p] == if c < cols then PackedEntry(before[p], u, v, alpha, r, c) else before[p]
  }

  /** Packed storage: as dense storage, but the diagonal keeps no imaginary part. */
  method UpdatePacked(lower: bool, mat: array<Complex>, u: seq<Complex>, v: seq<Complex>, alpha: Complex)
    requires |u| == |v| && mat.Length == Tri(|u|)
    modifies mat
    ensures PackedUpdated(lower, old(mat[..]), mat[..], u, v, alpha, |u|)
  {
    hide Term;
    var size: int := |u|;
    ghost var before := mat[..];
    var offset: int := 0;
    for i := 0 to size
      invariant offset == if lower then Tri(size) - Tri(size - i) else Tri(i)
      invariant PackedUpdated(lower, before, mat[..], u, v, alpha, i)
    {
      ghost var y := mat[..];
      var start := if lower then i else 0;
      var len := if lower then size - i else i + 1;
      var d := offset + (if lower then 0 else i);
      PackedColumn(size, lower, i);
      AddColumn(mat, u, v, alpha, i, offset, start, len);
      ghost var x := mat[..];
      mat[d] := RealPart(mat[d]);
      PackedStep(lower, before, y, x, mat[..], u, v, alpha, i, offset, start, len, d);
      offset := offset + len;
    }
  }

  lemma PackedColumn(n: nat, lower: bool, i: nat)
    requires i < n
    ensures var offset := if lower then Tri(n) - Tri(n - i) else Tri(i);
      0 <= offset && offset + (if lower then n - i else i + 1) <= Tri(n)
  {
    if lower {
      TriMonotone(n - i, n);
    } else {
      TriMonotone(i + 1, n);
    }
  }

  /** The stretch from `offset` on is column i. */
  lemma PackedColumnHolds(n: nat, lower: bool, i: nat, offset: int, r: nat, c: nat)
    requires i < n && InUpdate(n, lower, r, c)
    requires offset == if lower then Tri(n) - Tri(n - i) else Tri(i)
    ensures var p := PackedPlace(n, lower, r, c); var start, len := if lower then i else 0, if lower then n - i else i + 1;
      && (offset <= p < offset + len <==> c == i)
      && (c == i ==> start + (p - offset) == r)
      && (p == offset + (if lower then 0 else i) <==> c == i && r == i)
  {
    if i < c {
      LaterStretch(Shape(n, lower), i, c);
    } else if c < i {
      LaterStretch(Shape(n, lower), c, i);
    }
  }

  lemma PackedStep(lower: bool, before: seq<Complex>, y: seq<Complex>, x: seq<Complex>, z: seq<Complex>,
                   u: seq<Complex>, v: seq<Complex>, alpha: Complex, i: nat, offset: nat, start: nat, len: nat, d: nat)
    requires i < |u| == |v| && |before| == |y| == |x| == |z| == Tri(|u|)
    requires offset == if lower then Tri(|u|) - Tri(|u| - i) else Tri(i)
    requires PackedUpdated(lower, before, y, u, v, alpha, i)
    requires start == (if lower then i else 0) && len == (if lower then |u| - i else i + 1) && offset + len <= |z|
    requires d == offset + (if lower then 0 else i)
    requires ColumnAdded(y, x, u, v, alpha, i, offset, start, len) && z == x[d := RealPart(x[d])]
    ensures PackedUpdated(lower, before, z, u, v, alpha, i + 1)
  {
    hide Term;
    forall r, c | 0 <= r < |u| && 0 <= c < |u| && InUpdate(|u|, lower, r, c)
      ensures var p := PackedPlace(|u|, lower, r, c);
        z[p] == if c < i + 1 then PackedEntry(before[p], u, v, alpha, r, c) else before[p]
    {
      PackedColumnHolds(|u|, lower, i, offset, r, c);
      var p := PackedPlace(|u|, lower, r, c);
      assert y[p] == if c < i then PackedEntry(before[p], u, v, alpha, r, c) else before[p];
    }
  }

  // ---- the two kernels agree ----

  /** An entry comes out the same from both kernels exactly when it is off the diagonal or was real. */
  lemma KernelsAgree(a: Complex, u: seq<Complex>, v: seq<Complex>, alpha: Complex, r: nat, c: nat)
    requires r < |u| == |v| && c < |u|
    ensures PackedEntry(a, u, v, alpha, r, c) == Add(a, Term(u, v, alpha, r, c)) <==> r != c || a.im == 0.0
  {
    if r == c {
      DiagonalTermIsReal(u, v, alpha, c);
    }
  }

  /** Started from the same triangle with a real diagonal, both kernels store the same triangle, and
      the diagonal is real again. */
  lemma StoragesAgree(lower: bool, stride: nat, dense: seq<Complex>, dense': seq<Complex>,
                      packed: seq<Complex>, packed': seq<Complex>,
                      u: seq<Complex>, v: seq<Complex>, alpha: Complex, r: nat, c: nat)
    requires |u| == |v| && DenseRoom(stride, |u|, |dense|) && |dense| == |dense'| && |packed| == |packed'| == Tri(|u|)
    requires DenseUpdated(lower, stride, dense, dense', u, v, alpha, |u|)
    requires PackedUpdated(lower, packed, packed', u, v, alpha, |u|)
    requires InUpdate(|u|, lower, r, c) && DenseIndex(stride, r, c) < |dense|
    requires dense[DenseIndex(stride, r, c)] == packed[PackedPlace(|u|, lower, r, c)]
    ensures dense'[DenseIndex(stride, r, c)] == packed'[PackedPlace(|u|, lower, r, c)] <==>
            r != c || dense[DenseIndex(stride, r, c)].im == 0.0
    ensures r == c ==> packed'[PackedPlace(|u|, lower, r, c)].im == 0.0
  {
    hide Term;
    assert DenseEntryUpdated(lower, stride, dense, dense', u, v, alpha, |u|, r, c);
    KernelsAgree(packed[PackedPlace(|u|, lower, r, c)], u, v, alpha, r, c);
  }
}
