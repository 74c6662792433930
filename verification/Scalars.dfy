/** Complex scalars, exactly. */
module Scalars {

  datatype Complex = Complex(re: real, im: real)

  const ZERO := Complex(0.0, 0.0)
  const ONE := Complex(1.0, 0.0)

  function Add(a: Complex, b: Complex): Complex {
    Complex(a.re + b.re, a.im + b.im)
  }

  function Sub(a: Complex, b: Complex): Complex {
    Complex(a.re - b.re, a.im - b.im)
  }

  function Times(x: real, y: real): real {
    x * y
  }

  function Mul(a: Complex, b: Complex): Complex {
    Complex(Times(a.re, b.re) - Times(a.im, b.im), Times(a.re, b.im) + Times(a.im, b.re))
  }

  function Conj(a: Complex): Complex {
    Complex(a.re, -a.im)
  }

  function ConjIf(conj: bool, a: Complex): Complex {
    if conj then Conj(a) else a
  }

  // ---- real products ----

  lemma TimesPositive(x: real, y: real)
    requires x > 0.0 && y > 0.0
    ensures Times(x, y) > 0.0
  {
  }

  lemma TimesNegated(x: real, y: real)
    ensures Times(-x, -y) == Times(x, y)
  {
  }

  lemma TimesZero(x: real)
    ensures Times(0.0, x) == Times(x, 0.0) == 0.0
  {
  }

  lemma TimesOne(x: real)
    ensures Times(1.0, x) == Times(x, 1.0) == x
  {
  }

  lemma SquareIsPositive(x: real)
    ensures Times(x, x) >= 0.0
    ensures x != 0.0 ==> Times(x, x) > 0.0
  {
    hide Times;
    if x > 0.0 {
      TimesPositive(x, x);
    } else if x < 0.0 {
      TimesPositive(-x, -x);
      TimesNegated(x, x);
    } else {
      TimesZero(x);
    }
  }

  lemma TimesDistributes(x: real, y: real, z: real)
    ensures Times(x, y + z) == Times(x, y) + Times(x, z)
    ensures Times(x, y - z) == Times(x, y) - Times(x, z)
  {
  }

  lemma TimesCommutes(x: real, y: real)
    ensures Times(x, y) == Times(y, x)
  {
  }

  lemma TimesAssociates(x: real, y: real, z: real)
    ensures Times(x, Times(y, z)) == Times(Times(x, y), z) == Times(y, Times(x, z))
  {
  }

  lemma TimesCancels(n: real, x: real, y: real)
    requires n != 0.0 && Times(n, x) == Times(n, y)
    ensures x == y
  {
  }

  function Quotient(x: real, n: real): real
    requires n != 0.0
  {
    x / n
  }

  lemma QuotientTimes(x: real, n: real)
    requires n != 0.0
    ensures Times(n, Quotient(x, n)) == x
  {
  }

  // ---- complex numbers ----

  function Norm(d: Complex): real {
    Times(d.re, d.re) + Times(d.im, d.im)
  }

  lemma NormIsPositive(d: Complex)
    requires d != ZERO
    ensures Norm(d) > 0.0
  {
    hide Times;
    SquareIsPositive(d.re);
    SquareIsPositive(d.im);
    assert d == Complex(d.re, d.im);
  }

  function Div(a: Complex, d: Complex): Complex
    requires d != ZERO
  {
    NormIsPositive(d);
    Complex(Quotient(Times(a.re, d.re) + Times(a.im, d.im), Norm(d)),
            Quotient(Times(a.im, d.re) - Times(a.re, d.im), Norm(d)))
  }

  /** A number times its conjugate is its norm, and conjugation undoes itself. */
  lemma ConjIsMirror(a: Complex)
    ensures Mul(a, Conj(a)) == Complex(Norm(a), 0.0) && Conj(Conj(a)) == a
    ensures a.im != 0.0 ==> Conj(a) != a
  {
  }

  lemma MulCommutes(a: Complex, b: Complex)
    ensures Mul(a, b) == Mul(b, a)
  {
    hide Times;
    TimesCommutes(a.re, b.re);
    TimesCommutes(a.im, b.im);
    TimesCommutes(a.re, b.im);
    TimesCommutes(a.im, b.re);
  }

  lemma AddLaws(a: Complex, b: Complex, c: Complex)
    ensures Add(Add(a, b), c) == Add(a, Add(b, c))
    ensures Add(a, b) == Add(b, a)
    ensures Add(a, ZERO) == a == Add(ZERO, a)
    ensures Sub(Sub(a, b), c) == Sub(a, Add(b, c))
    ensures Add(b, Sub(a, b)) == a && Sub(a, ZERO) == a
  {
  }

  lemma MulDistributes(a: Complex, b: Complex, c: Complex)
    ensures Mul(a, Add(b, c)) == Add(Mul(a, b), Mul(a, c))
  {
    hide Times;
    TimesDistributes(a.re, b.re, c.re);
    TimesDistributes(a.re, b.im, c.im);
    TimesDistributes(a.im, b.re, c.re);
    TimesDistributes(a.im, b.im, c.im);
  }

  /** The two products of a sum of two products by c, regrouped. */
  lemma ProductTimes(p: real, q: real, r: real, s: real, c: real)
    ensures Times(Times(p, q) - Times(r, s), c) == Times(p, Times(q, c)) - Times(r, Times(s, c))
    ensures Times(Times(p, q) + Times(r, s), c) == Times(p, Times(q, c)) + Times(r, Times(s, c))
  {
    hide Times;
    TimesDistributesLeft(Times(p, q), Times(r, s), c);
    TimesAssociates(p, q, c);
    TimesAssociates(r, s, c);
  }

  lemma TimesDistributesLeft(x: real, y: real, z: real)
    ensures Times(x + y, z) == Times(x, z) + Times(y, z)
    ensures Times(x - y, z) == Times(x, z) - Times(y, z)
  {
    hide Times;
    TimesDistributes(z, x, y);
    TimesCommutes(x + y, z);
    TimesCommutes(x - y, z);
    TimesCommutes(x, z);
    TimesCommutes(y, z);
  }

  lemma MulAssociates(a: Complex, b: Complex, c: Complex)
    ensures Mul(Mul(a, b), c) == Mul(a, Mul(b, c))
  {
    hide Times;
    ProductTimes(a.re, b.re, a.im, b.im, c.re);
    ProductTimes(a.re, b.re, a.im, b.im, c.im);
    ProductTimes(a.re, b.im, a.im, b.re, c.re);
    ProductTimes(a.re, b.im, a.im, b.re, c.im);
    TimesDistributes(a.re, Times(b.re, c.re), Times(b.im, c.im));
    TimesDistributes(a.re, Times(b.re, c.im), Times(b.im, c.re));
    TimesDistributes(a.im, Times(b.re, c.re), Times(b.im, c.im));
    TimesDistributes(a.im, Times(b.re, c.im), Times(b.im, c.re));
  }

  // ---- conjugation ----

  lemma ConjMul(a: Complex, b: Complex)
    ensures Conj(Mul(a, b)) == Mul(Conj(a), Conj(b))
    ensures Conj(Conj(a)) == a
  {
    hide Times;
    TimesNegated(a.im, b.im);
    TimesNegatedOnce(a.re, b.im);
    TimesNegatedOnce(b.re, a.im);
    TimesCommutes(a.im, b.re);
    TimesCommutes(-a.im, b.re);
  }

  lemma TimesNegatedOnce(x: real, y: real)
    ensures Times(x, -y) == -Times(x, y)
  {
  }

  lemma ConjAdd(a: Complex, b: Complex)
    ensures Conj(Add(a, b)) == Add(Conj(a), Conj(b))
  {
  }

  lemma MulZeroOne(a: Complex)
    ensures Mul(ZERO, a) == Mul(a, ZERO) == ZERO
    ensures Mul(ONE, a) == Mul(a, ONE) == a
  {
    hide Times;
    TimesZero(a.re);
    TimesZero(a.im);
    TimesOne(a.re);
    TimesOne(a.im);
  }

  /** Division undoes multiplication. */
  lemma DivMul(a: Complex, d: Complex)
    requires d != ZERO
    ensures Mul(d, Div(a, d)) == a
  {
    NormIsPositive(d);
    hide Times, Norm;
    var n, z := Norm(d), Div(a, d);
    var p, q := Times(a.re, d.re) + Times(a.im, d.im), Times(a.im, d.re) - Times(a.re, d.im);
    QuotientTimes(p, n);
    QuotientTimes(q, n);
    RealPart(a, d, p, q, n);
    TimesAssociates(n, d.re, z.re);
    TimesAssociates(n, d.im, z.im);
    TimesAssociates(n, d.re, z.im);
    TimesAssociates(n, d.im, z.re);
    TimesDistributes(n, Times(d.re, z.re), Times(d.im, z.im));
    TimesDistributes(n, Times(d.re, z.im), Times(d.im, z.re));
    TimesCancels(n, Mul(d, z).re, a.re);
    TimesCancels(n, Mul(d, z).im, a.im);
  }

  lemma RealPart(a: Complex, d: Complex, p: real, q: real, n: real)
    requires p == Times(a.re, d.re) + Times(a.im, d.im) && q == Times(a.im, d.re) - Times(a.re, d.im)
    requires n == Norm(d)
    ensures Times(d.re, p) - Times(d.im, q) == Times(n, a.re)
    ensures Times(d.re, q) + Times(d.im, p) == Times(n, a.im)
  {
    hide Times;
    TimesDistributes(d.re, Times(a.re, d.re), Times(a.im, d.im));
    TimesDistributes(d.im, Times(a.im, d.re), Times(a.re, d.im));
    TimesDistributes(d.re, Times(a.im, d.re), Times(a.re, d.im));
    TimesDistributes(d.im, Times(a.re, d.re), Times(a.im, d.im));
    TimesDistributesLeft(Times(d.re, d.re), Times(d.im, d.im), a.re);
    TimesDistributesLeft(Times(d.re, d.re), Times(d.im, d.im), a.im);
    Regroup(d.re, d.re, a.re);
    Regroup(d.im, d.im, a.re);
    Regroup(d.re, d.re, a.im);
    Regroup(d.im, d.im, a.im);
    Crossed(d.re, a.im, d.im);
    Crossed(d.re, a.re, d.im);
  }

  lemma Regroup(x: real, y: real, z: real)
    ensures Times(x, Times(z, y)) == Times(Times(x, y), z)
  {
    hide Times;
    TimesCommutes(z, y);
    TimesAssociates(x, y, z);
  }

  lemma Crossed(x: real, y: real, z: real)
    ensures Times(x, Times(y, z)) == Times(z, Times(y, x))
  {
    hide Times;
    TimesAssociates(x, y, z);
    TimesAssociates(z, y, x);
    TimesCommutes(Times(x, y), z);
    TimesCommutes(x, y);
  }

  /** A nonzero factor cancels. */
  lemma MulCancels(d: Complex, x: Complex, y: Complex)
    requires d != ZERO && Mul(d, x) == Mul(d, y)
    ensures x == y
  {
    DivMulLeft(x, d);
    DivMulLeft(y, d);
  }

  lemma DivMulLeft(x: Complex, d: Complex)
    requires d != ZERO
    ensures Mul(Div(ONE, d), Mul(d, x)) == x
  {
    MulAssociates(Div(ONE, d), d, x);
    MulCommutes(Div(ONE, d), d);
    DivMul(ONE, d);
    MulZeroOne(x);
  }
}
