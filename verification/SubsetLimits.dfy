/** How large subsets the search may try: the bound on the number of subsets of a size, and the
    unsigned 64-bit arithmetic that decides it. */
module SubsetLimits {
  import opened Subsets

  const UINT64_BOUND := 0x1_0000_0000_0000_0000
  const NUMBER_OF_SUBSETS_LIMIT := 100
  const ALWAYS_SEARCH_SUBSETS_OF_SIZE_AT_LEAST := 2

  // ---- binomial coefficients as quotients ----

  function Factorial(k: nat): nat {
    if k == 0 then 1 else Factorial(k - 1) * k
  }

  /** n (n - 1) ... (n - k + 1) */
  function Falling(n: nat, k: nat): nat
    requires k <= n
  {
    if k == 0 then 1 else Falling(n, k - 1) * (n - k + 1)
  }

  lemma NextFalling(n: nat, k: nat)
    requires k < n
    ensures Falling(n, k + 1) == Falling(n, k) * (n - k) && Falling(n, 1) == n
  {
    assert Falling(n, 0) == 1;
  }

  lemma {:induction false} FallingFromTheTop(n: nat, k: nat)
    requires 1 <= k <= n
    ensures Falling(n, k) == n * Falling(n - 1, k - 1)
  {
    if k > 1 {
      FallingFromTheTop(n, k - 1);
      Associates(n, Falling(n - 1, k - 2), n - k + 1);
    }
  }

  lemma Associates(a: int, b: int, c: int)
    ensures a * b * c == a * (b * c)
  {
  }

  lemma {:induction false} ChooseNone(n: nat, k: nat)
    requires n < k
    ensures Choose(n, k) == 0
  {
    if n > 0 {
      ChooseNone(n - 1, k);
      ChooseNone(n - 1, k - 1);
    }
  }

  lemma QuotientStep(c: nat, d: nat, f: nat, k: nat, n: nat, low: nat)
    requires k <= n && c * (f * k) == low * (n - k) && d * f == low
    ensures (c + d) * (f * k) == n * low
  {
    Associates(d, f, k);
    Distributes(c, d, f * k);
    Distributes(n - k, k, low);
  }

  lemma Distributes(a: int, b: int, c: int)
    ensures (a + b) * c == a * c + b * c
  {
  }

  lemma {:induction false} ChooseIsQuotient(n: nat, k: nat)
    requires k <= n
    ensures Choose(n, k) * Factorial(k) == Falling(n, k)
    decreases n
  {
    if 0 < k {
      ChooseIsQuotient(n - 1, k - 1);
      FallingFromTheTop(n, k);
      if k < n {
        ChooseIsQuotient(n - 1, k);
      } else {
        ChooseNone(n - 1, k);
      }
      QuotientStep(Choose(n - 1, k), Choose(n - 1, k - 1), Factorial(k - 1), k, n, Falling(n - 1, k - 1));
    }
  }

  lemma {:induction false} FactorialPositive(k: nat)
    ensures Factorial(k) > 0
  {
    if k > 0 { FactorialPositive(k - 1); }
  }

  /** Comparing numerator and denominator compares the binomial coefficient with the limit. */
  lemma ComparesChoose(n: nat, k: nat)
    requires k <= n
    ensures Falling(n, k) > Factorial(k) * NUMBER_OF_SUBSETS_LIMIT <==> Choose(n, k) > NUMBER_OF_SUBSETS_LIMIT
  {
    hide Choose, Factorial, Falling;
    ChooseIsQuotient(n, k);
    FactorialPositive(k);
    ScaledOrder(Choose(n, k), Factorial(k), NUMBER_OF_SUBSETS_LIMIT);
  }

  lemma ScaledOrder(c: nat, f: nat, limit: nat)
    requires f > 0
    ensures c * f > f * limit <==> c > limit
  {
    if c > limit {
      assert c * f == limit * f + (c - limit) * f;
    } else {
      assert limit * f == c * f + (limit - c) * f;
    }
  }

  // ---- no overflow ----

  /** There are at most a hundred subsets of every size up to p. */
  ghost predicate Feasible(n: nat, p: nat) {
    forall j | 1 <= j <= p :: Choose(n, j) <= NUMBER_OF_SUBSETS_LIMIT
  }

  lemma ChooseTwo(n: nat)
    ensures Choose(n, 1) == n && 2 * Choose(n, 2) == n * (n - 1)
  {
    if n > 0 { ChooseTwo(n - 1); }
  }

  lemma {:induction false} FactorialMonotone(a: nat, b: nat)
    requires a <= b
    ensures Factorial(a) <= Factorial(b)
    decreases b
  {
    FactorialPositive(b);
    if a < b {
      FactorialMonotone(a, b - 1);
      assert Factorial(b) == Factorial(b - 1) + Factorial(b - 1) * (b - 1);
    }
  }

  lemma MoreThanFourteen(n: nat)
    ensures n > 14 ==> n * (n - 1) > 200
  {
    if n > 14 { assert n * (n - 1) >= 15 * 14; }
  }

  lemma ProductBound(a: nat, b: nat, x: nat, y: nat)
    requires a <= x && b <= y
    ensures a * b <= x * y
  {
    assert x * y == a * b + (x - a) * b + x * (y - b);
  }

  lemma FactorialFits(k: nat)
    requires k <= 14
    ensures Factorial(k) <= 87178291200
  {
    FactorialMonotone(k, 14);
    assert Factorial(14) == 87178291200;
  }

  /** The next numerator and the scaled next denominator fit in 64 bits. */
  lemma NextFits(n: nat, i: nat)
    requires i < n < UINT64_BOUND && Feasible(n, i)
    ensures Falling(n, i + 1) < UINT64_BOUND && Factorial(i + 1) * NUMBER_OF_SUBSETS_LIMIT < UINT64_BOUND
  {
    hide Factorial, Falling, Choose;
    if i == 0 {
      NextFalling(n, 0);
      FactorialFits(1);
    } else {
      ChooseTwo(n);
      assert Choose(n, 1) <= NUMBER_OF_SUBSETS_LIMIT;
      NextFalling(n, i);
      ComparesChoose(n, i);
      if i == 1 {
        FactorialFits(1);
        FactorialFits(2);
        ProductBound(Falling(n, 1), n - 1, 87178291200 * NUMBER_OF_SUBSETS_LIMIT, NUMBER_OF_SUBSETS_LIMIT);
      } else {
        assert Choose(n, 2) <= NUMBER_OF_SUBSETS_LIMIT;
        MoreThanFourteen(n);
        FactorialFits(i);
        FactorialFits(i + 1);
        ProductBound(Falling(n, i), n - i, 87178291200 * NUMBER_OF_SUBSETS_LIMIT, 14);
      }
    }
  }

  // ---- the operations ----

  /** Says, without overflow, whether there are at most a hundred subsets of every size up to p. */
  method IsNumberOfSubsetsFeasible(n: nat, p: nat) returns (feasible: bool)
    requires 0 < p <= n < UINT64_BOUND
    ensures feasible <==> Feasible(n, p)
  {
    var numerator: nat, denominator: nat := 1, 1;
    for i := 0 to p
      invariant numerator == Falling(n, i) && denominator == Factorial(i)
      invariant Feasible(n, i)
    {
      NextFits(n, i);
      ComparesChoose(n, i + 1);
      FactorialPositive(i + 1);
      assert numerator * (n - i) == Falling(n, i + 1) < UINT64_BOUND;
      numerator := numerator * (n - i);
      assert denominator * (i + 1) == Factorial(i + 1) < UINT64_BOUND;
      denominator := denominator * (i + 1);
      assert denominator * NUMBER_OF_SUBSETS_LIMIT < UINT64_BOUND;
      if numerator > denominator * NUMBER_OF_SUBSETS_LIMIT {
        return false;
      }
    }
    return true;
  }

  /** The largest feasible size short of n, but two whenever there are two. */
  ghost predicate IsLimit(n: nat, size: nat) {
    && (if n < 3 then n - 1 else 2) <= size < n
    && (size <= 2 || Feasible(n, size))
    && (size < n - 1 ==> !Feasible(n, size + 1))
  }

  method MaxFeasibleSubsetSize(n: nat) returns (size: nat)
    requires 0 < n < UINT64_BOUND
    ensures IsLimit(n, size)
  {
    var minResult := if n - 1 < ALWAYS_SEARCH_SUBSETS_OF_SIZE_AT_LEAST then n - 1
                     else ALWAYS_SEARCH_SUBSETS_OF_SIZE_AT_LEAST;
    for p := 1 to n
      invariant p == 1 || Feasible(n, p)
    {
      var feasible := IsNumberOfSubsetsFeasible(n, p + 1);
      if !feasible {
        return if p > minResult then p else minResult;
      }
    }
    return n - 1;
  }
}
