/** Binomial coefficients: the exact combinatorial definition (Pascal's rule)
    and the multiplicative loop `binomialCoefficient` of index.js. */
module Binomial {

  /** C(n, k), the number of k-element subsets of an n-element set; 0 outside 0 <= k <= n. */
  function Choose(n: int, k: int): nat
    decreases n
  {
    if k < 0 || k > n then 0
    else if k == 0 then 1
    else Choose(n - 1, k - 1) + Choose(n - 1, k)
  }

  /** Pascal's rule holds for every k once n >= 1, including the edges k = 0 and k = n. */
  lemma ChoosePascal(n: int, k: int)
    requires n >= 1
    ensures Choose(n, k) == Choose(n - 1, k - 1) + Choose(n - 1, k)
  {
    if k == 0 {
      assert Choose(n - 1, 0) == 1;
    }
  }

  lemma {:induction false} ChooseSymmetric(n: int, k: int)
    requires n >= 0
    ensures Choose(n, k) == Choose(n, n - k)
    decreases n
  {
    if n > 0 {
      ChoosePascal(n, k);
      ChoosePascal(n, n - k);
      ChooseSymmetric(n - 1, k - 1);
      ChooseSymmetric(n - 1, k);
    }
  }

  /** The absorption identity k C(n, k) = n C(n - 1, k - 1). */
  lemma {:induction false} ChooseAbsorb(n: int, k: int)
    requires k >= 1
    ensures k * Choose(n, k) == n * Choose(n - 1, k - 1)
    decreases n
  {
    if k > n {
      assert Choose(n, k) == 0 && Choose(n - 1, k - 1) == 0;
    } else if n == 1 {
      assert k == 1 && Choose(1, 1) == 1 && Choose(0, 0) == 1;
    } else {
      ChoosePascal(n, k);
      ChoosePascal(n - 1, k - 1);
      ChooseAbsorb(n - 1, k);
      var a, b := Choose(n - 1, k - 1), Choose(n - 1, k);
      var a2, b2 := Choose(n - 2, k - 2), Choose(n - 2, k - 1);
      assert k * b == (n - 1) * b2;
      if k >= 2 {
        ChooseAbsorb(n - 1, k - 1);
        assert (k - 1) * a == (n - 1) * a2;
      } else {
        assert a2 == 0;
      }
      AbsorbAlgebra(n, k, Choose(n, k), a, b, a2, b2);
    }
  }

  /** The arithmetic step of ChooseAbsorb, kept apart from the unfoldings of Choose. */
  lemma AbsorbAlgebra(n: int, k: int, c: int, a: int, b: int, a2: int, b2: int)
    requires c == a + b && a == a2 + b2
    requires k * b == (n - 1) * b2 && (k - 1) * a == (n - 1) * a2
    ensures k * c == n * a
  {
    calc {
      k * c;
      k * a + k * b;
      a + (k - 1) * a + (n - 1) * b2;
      a + (n - 1) * a2 + (n - 1) * b2;
      a + (n - 1) * (a2 + b2);
      n * a;
    }
  }

  /** The ratio of consecutive coefficients: i C(n, i) = (n - i + 1) C(n, i - 1). */
  lemma ChooseStep(n: int, i: int)
    requires 1 <= i <= n
    ensures i * Choose(n, i) == (n - i + 1) * Choose(n, i - 1)
  {
    ChooseAbsorb(n, i);
    ChooseSymmetric(n, i - 1);
    ChooseAbsorb(n, n - i + 1);
    ChooseSymmetric(n - 1, i - 1);
  }

  lemma {:induction false} ChooseDiagonal(n: int)
    requires n >= 0
    ensures Choose(n, n) == 1
  {
    ChooseSymmetric(n, n);
  }

  /** binomialCoefficient(n, k): 0 outside 0 <= k <= n, 1 at k = 0 and k = n,
      otherwise the product of (n - i + 1) / i for i = 1..k, accumulated in a loop.
      Floating-point division is idealised as exact real division. */
  method BinomialCoefficient(n: int, k: int) returns (coefficient: real)
    ensures coefficient == Choose(n, k) as real
  {
    if k > n || k < 0 {
      return 0.0;
    }
    if k == 0 || k == n {
      ChooseDiagonal(n);
      return 1.0;
    }
    coefficient := 1.0;
    var i := 1;
    while i <= k
      invariant 1 <= i <= k + 1
      invariant coefficient == Choose(n, i - 1) as real
    {
      ChooseRatio(n, i);
      coefficient := coefficient * ((n - i + 1) as real / i as real);
      i := i + 1;
    }
  }

  /** One step of the loop in reals: C(n, i - 1) (n - i + 1) / i = C(n, i). */
  lemma {:induction false} ChooseRatio(n: int, i: int)
    requires 1 <= i <= n
    ensures Choose(n, i - 1) as real * ((n - i + 1) as real / i as real) == Choose(n, i) as real
  {
    var b, a := Choose(n, i - 1), Choose(n, i);
    assert i * a == (n - i + 1) * b by {
      ChooseStep(n, i);
    }
    RatioAsReal(b, a, n - i + 1, i);
  }

  /** The integer identity d a = m b read in reals, as b (m / d) = a. */
  lemma RatioAsReal(b: int, a: int, m: int, d: int)
    requires d >= 1 && d * a == m * b
    ensures b as real * (m as real / d as real) == a as real
  {
    ProductAsReal(m, b);
    ProductAsReal(d, a);
    ScaleByRatio(b as real, a as real, m as real, d as real);
  }

  lemma ProductAsReal(x: int, y: int)
    ensures (x * y) as real == x as real * y as real
  {
  }

  /** If m b = d a with d > 0, then b (m / d) = a. */
  lemma ScaleByRatio(b: real, a: real, m: real, d: real)
    requires d > 0.0 && m * b == d * a
    ensures b * (m / d) == a
  {
    calc {
      b * (m / d);
      (m * b) / d;
      (d * a) / d;
      a;
    }
  }
}
