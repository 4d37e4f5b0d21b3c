/** The distribution of the longest run of successes in n independent slots, each a
    success with probability p: `calculateCDF` and `calculatePMF` of index.js, over
    exact reals in place of JavaScript doubles. */
module RunDistribution {
  import opened Binomial
  import opened RunCounter

  /** Math.pow for a natural exponent. */
  function Pow(b: real, e: nat): real
  {
    if e == 0 then 1.0 else b * Pow(b, e - 1)
  }

  lemma {:induction false} PowNonNegative(b: real, e: nat)
    requires b >= 0.0
    ensures Pow(b, e) >= 0.0
  {
    if e > 0 {
      PowNonNegative(b, e - 1);
    }
  }

  lemma {:induction false} PowOfOne(e: nat)
    ensures Pow(1.0, e) == 1.0
  {
    if e > 0 {
      PowOfOne(e - 1);
    }
  }

  lemma PowOfZero(e: nat)
    requires e >= 1
    ensures Pow(0.0, e) == 0.0
  {
  }

  // ---------------------------------------------------------------------------
  // The binomial theorem, needed for cdf[n] = 1

  function BinomialTerm(n: int, k: int, p: real, q: real): real
  {
    if 0 <= k <= n then Choose(n, k) as real * Pow(p, k) * Pow(q, n - k) else 0.0
  }

  /** The terms of row n, as a function of k. */
  function BinomialRow(n: int, p: real, q: real): int -> real
  {
    k => BinomialTerm(n, k, p, q)
  }

  /** f(0) + ... + f(m - 1). */
  function SumBelow(f: int -> real, m: int): real
    decreases m
  {
    if m <= 0 then 0.0 else SumBelow(f, m - 1) + f(m - 1)
  }

  /** Pascal's rule for the terms: C(n, k) p^k q^(n-k) = p C(n-1, k-1) p^(k-1) q^(n-k) + q C(n-1, k) p^k q^(n-1-k). */
  lemma BinomialTermPascal(n: int, k: int, p: real, q: real)
    requires n >= 1
    ensures BinomialTerm(n, k, p, q) == p * BinomialTerm(n - 1, k - 1, p, q) + q * BinomialTerm(n - 1, k, p, q)
  {
    if 0 <= k <= n {
      InnerTermPascal(n, k, p, q);
    } else {
      assert BinomialTerm(n, k, p, q) == 0.0;
      assert BinomialTerm(n - 1, k - 1, p, q) == 0.0 && BinomialTerm(n - 1, k, p, q) == 0.0;
    }
  }

  lemma InnerTermPascal(n: int, k: int, p: real, q: real)
    requires n >= 1 && 0 <= k <= n
    ensures BinomialTerm(n, k, p, q) == p * BinomialTerm(n - 1, k - 1, p, q) + q * BinomialTerm(n - 1, k, p, q)
  {
    assert BinomialTerm(n, k, p, q) == Choose(n, k) as real * Pow(p, k) * Pow(q, n - k);
    PartsPascal(n, k, p, q);
  }

  /** The two terms of row n - 1 that row n's k-th term is built from, weighted by p and q. */
  lemma PartsPascal(n: int, k: int, p: real, q: real)
    requires n >= 1 && 0 <= k <= n
    ensures p * BinomialTerm(n - 1, k - 1, p, q) + q * BinomialTerm(n - 1, k, p, q)
         == Choose(n, k) as real * Pow(p, k) * Pow(q, n - k)
  {
    BothTermsPascal(n, k, p, q);
    TermSplits(n, k, p, q);
  }

  lemma BothTermsPascal(n: int, k: int, p: real, q: real)
    requires n >= 1 && 0 <= k <= n
    ensures p * BinomialTerm(n - 1, k - 1, p, q) + q * BinomialTerm(n - 1, k, p, q)
         == Choose(n - 1, k - 1) as real * Pow(p, k) * Pow(q, n - k) + Choose(n - 1, k) as real * Pow(p, k) * Pow(q, n - k)
  {
    LeftTermPascal(n, k, p, q);
    RightTermPascal(n, k, p, q);
  }

  /** C(n, k) p^k q^(n-k) splits along C(n, k) = C(n-1, k-1) + C(n-1, k). */
  lemma TermSplits(n: int, k: int, p: real, q: real)
    requires n >= 1 && 0 <= k <= n
    ensures Choose(n, k) as real * Pow(p, k) * Pow(q, n - k)
         == Choose(n - 1, k - 1) as real * Pow(p, k) * Pow(q, n - k) + Choose(n - 1, k) as real * Pow(p, k) * Pow(q, n - k)
  {
    ChoosePascal(n, k);
    SumOfParts(Choose(n, k) as real, Choose(n - 1, k - 1) as real, Choose(n - 1, k) as real, Pow(p, k), Pow(q, n - k));
  }

  /** The "one first" half of Pascal's rule for the terms: p C(n-1, k-1) p^(k-1) q^(n-k). */
  lemma LeftTermPascal(n: int, k: int, p: real, q: real)
    requires n >= 1 && 0 <= k <= n
    ensures p * BinomialTerm(n - 1, k - 1, p, q) == Choose(n - 1, k - 1) as real * Pow(p, k) * Pow(q, n - k)
  {
    if k >= 1 {
      ShiftFactor(Choose(n - 1, k - 1) as real, p, Pow(p, k - 1), Pow(q, n - k));
    }
  }

  /** The "zero first" half of Pascal's rule for the terms: q C(n-1, k) p^k q^(n-1-k). */
  lemma RightTermPascal(n: int, k: int, p: real, q: real)
    requires n >= 1 && 0 <= k <= n
    ensures q * BinomialTerm(n - 1, k, p, q) == Choose(n - 1, k) as real * Pow(p, k) * Pow(q, n - k)
  {
    if k <= n - 1 {
      var b, pk, qk1 := Choose(n - 1, k) as real, Pow(p, k), Pow(q, n - 1 - k);
      assert Pow(q, n - k) == q * qk1;
      MoveFactor(b * pk, q, qk1);
    }
  }

  /** f(k) = p g(k - 1) + q g(k) for every k: f is the row after g in Pascal's triangle
      weighted by p and q. */
  ghost predicate PascalPair(f: int -> real, g: int -> real, p: real, q: real)
  {
    forall k {:trigger f(k)} :: f(k) == p * g(k - 1) + q * g(k)
  }

  /** Row n of the terms is p times row n - 1 shifted by one plus q times row n - 1. */
  lemma RowPascal(n: int, p: real, q: real)
    requires n >= 1
    ensures PascalPair(BinomialRow(n, p, q), BinomialRow(n - 1, p, q), p, q)
  {
    RowPascalPointwise(n, p, q);
    PascalPairIntro(BinomialRow(n, p, q), BinomialRow(n - 1, p, q), p, q);
  }

  lemma RowPascalPointwise(n: int, p: real, q: real)
    requires n >= 1
    ensures forall k {:trigger BinomialRow(n, p, q)(k)}
      :: BinomialRow(n, p, q)(k) == p * BinomialRow(n - 1, p, q)(k - 1) + q * BinomialRow(n - 1, p, q)(k)
  {
    forall k
      ensures BinomialRow(n, p, q)(k) == p * BinomialRow(n - 1, p, q)(k - 1) + q * BinomialRow(n - 1, p, q)(k)
    {
      RowPascalAt(n, k, p, q);
    }
  }

  lemma PascalPairIntro(f: int -> real, g: int -> real, p: real, q: real)
    requires forall k {:trigger f(k)} :: f(k) == p * g(k - 1) + q * g(k)
    ensures PascalPair(f, g, p, q)
  {
  }

  lemma RowPascalAt(n: int, k: int, p: real, q: real)
    requires n >= 1
    ensures BinomialRow(n, p, q)(k) == p * BinomialRow(n - 1, p, q)(k - 1) + q * BinomialRow(n - 1, p, q)(k)
  {
    BinomialTermPascal(n, k, p, q);
    Substitute(p, q, BinomialTerm(n, k, p, q), BinomialTerm(n - 1, k - 1, p, q), BinomialTerm(n - 1, k, p, q),
               BinomialRow(n, p, q)(k), BinomialRow(n - 1, p, q)(k - 1), BinomialRow(n - 1, p, q)(k));
  }

  /** Summing a Pascal-like family: if f(k) = p g(k - 1) + q g(k) and g(-1) = 0, the
      first m values of f add up to p times the first m - 1 of g plus q times the first m. */
  lemma {:induction false} PascalSum(f: int -> real, g: int -> real, p: real, q: real, m: int)
    requires forall k {:trigger f(k)} :: f(k) == p * g(k - 1) + q * g(k)
    requires g(-1) == 0.0
    requires m >= 1
    ensures SumBelow(f, m) == p * SumBelow(g, m - 1) + q * SumBelow(g, m)
    decreases m
  {
    if m == 1 {
      PascalSumBase(f, g, p, q);
    } else {
      PascalSum(f, g, p, q, m - 1);
      PascalSumStep(f, g, p, q, m);
    }
  }

  lemma PascalSumBase(f: int -> real, g: int -> real, p: real, q: real)
    requires f(0) == p * g(-1) + q * g(0)
    requires g(-1) == 0.0
    ensures SumBelow(f, 1) == p * SumBelow(g, 0) + q * SumBelow(g, 1)
  {
    assert SumBelow(f, 1) == 0.0 + f(0) && SumBelow(g, 1) == 0.0 + g(0) && SumBelow(g, 0) == 0.0;
    FirstSummand(p, q, f(0), g(-1), g(0), SumBelow(f, 1), SumBelow(g, 0), SumBelow(g, 1));
  }

  lemma PascalSumStep(f: int -> real, g: int -> real, p: real, q: real, m: int)
    requires m >= 2
    requires f(m - 1) == p * g(m - 1 - 1) + q * g(m - 1)
    requires SumBelow(f, m - 1) == p * SumBelow(g, m - 1 - 1) + q * SumBelow(g, m - 1)
    ensures SumBelow(f, m) == p * SumBelow(g, m - 1) + q * SumBelow(g, m)
  {
    assert SumBelow(f, m) == SumBelow(f, m - 1) + f(m - 1);
    assert SumBelow(g, m) == SumBelow(g, m - 1) + g(m - 1);
    assert SumBelow(g, m - 1) == SumBelow(g, m - 1 - 1) + g(m - 1 - 1);
    Regroup(p, q, SumBelow(f, m - 1), f(m - 1), SumBelow(g, m - 1 - 1), SumBelow(g, m - 1),
            g(m - 1 - 1), g(m - 1), SumBelow(g, m - 1), SumBelow(g, m), SumBelow(f, m));
  }

  /** One step of the binomial theorem, for any Pascal-like pair of rows: if the first
      m - 1 values of g sum to s and g(m - 1) = 0, the first m values of f sum to (p + q) s. */
  lemma PascalRowSum(f: int -> real, g: int -> real, p: real, q: real, m: int, s: real, t: real)
    requires m >= 2
    requires PascalPair(f, g, p, q)
    requires g(-1) == 0.0 && g(m - 1) == 0.0
    requires SumBelow(g, m - 1) == s && t == (p + q) * s
    ensures SumBelow(f, m) == t
  {
    PascalPairSum(f, g, p, q, m);
    assert SumBelow(g, m) == SumBelow(g, m - 1) + g(m - 1);
    Factor(p, q, SumBelow(f, m), SumBelow(g, m - 1), SumBelow(g, m), g(m - 1), t);
  }

  lemma PascalPairSum(f: int -> real, g: int -> real, p: real, q: real, m: int)
    requires PascalPair(f, g, p, q)
    requires g(-1) == 0.0 && m >= 1
    ensures SumBelow(f, m) == p * SumBelow(g, m - 1) + q * SumBelow(g, m)
  {
    PascalSum(f, g, p, q, m);
  }

  /** The binomial theorem: the sum over k of C(n, k) p^k q^(n-k) is (p + q)^n. */
  lemma {:induction false} BinomialTheorem(n: nat, p: real, q: real)
    ensures SumBelow(BinomialRow(n, p, q), n + 1) == Pow(p + q, n)
  {
    if n == 0 {
      assert SumBelow(BinomialRow(0, p, q), 1) == SumBelow(BinomialRow(0, p, q), 0) + BinomialRow(0, p, q)(0);
      assert BinomialRow(0, p, q)(0) == 1.0;
    } else {
      BinomialTheorem(n - 1, p, q);
      BinomialTheoremStep(n, p, q);
    }
  }

  lemma BinomialTheoremStep(n: nat, p: real, q: real)
    requires n >= 1
    requires SumBelow(BinomialRow(n - 1, p, q), n) == Pow(p + q, n - 1)
    ensures SumBelow(BinomialRow(n, p, q), n + 1) == Pow(p + q, n)
  {
    RowPascal(n, p, q);
    assert BinomialRow(n - 1, p, q)(-1) == 0.0 && BinomialRow(n - 1, p, q)(n) == 0.0;
    assert Pow(p + q, n) == (p + q) * Pow(p + q, n - 1);
    PascalRowSum(BinomialRow(n, p, q), BinomialRow(n - 1, p, q), p, q, n + 1, Pow(p + q, n - 1), Pow(p + q, n));
  }

  // ---------------------------------------------------------------------------
  // Steps of real arithmetic
  //
  // Each lemma below states one step of real arithmetic over plain variables. The
  // callers above pass terms built from Choose, Pow and SumBelow as the arguments, so
  // the solver checks the step without the definitions of those functions in view;
  // with them in view it unfolds them into further products and the nonlinear search
  // runs out of resource. Arguments spelled `m - 1 - 1` repeat the caller's own terms
  // so that they match without any arithmetic.

  lemma MoveFactor(a: real, f: real, u: real)
    ensures f * (a * u) == a * (f * u)
  {
  }

  lemma ShiftFactor(a: real, f: real, u: real, v: real)
    ensures a * (f * u) * v == f * (a * u * v)
  {
  }

  /** (a + b) u v splits into a u v and b u v. */
  lemma SumOfParts(c: real, a: real, b: real, u: real, v: real)
    requires c == a + b
    ensures c * u * v == a * u * v + b * u * v
  {
  }

  /** t = p l + q r carries over to equal values t', l', r'. */
  lemma Substitute(p: real, q: real, t: real, l: real, r: real, t': real, l': real, r': real)
    requires t == p * l + q * r
    requires t' == t && l' == l && r' == r
    ensures t' == p * l' + q * r'
  {
  }

  /** With nothing before the first summand, w = t = p 0 + q r = p e + q z. */
  lemma FirstSummand(p: real, q: real, t: real, l: real, r: real, w: real, e: real, z: real)
    requires t == p * l + q * r
    requires l == 0.0 && e == 0.0
    requires w == 0.0 + t && z == 0.0 + r
    ensures w == p * e + q * z
  {
  }

  /** Two sums of the form p a + q b add up to p (a + c) + q (b + d). */
  lemma Regroup(p: real, q: real, x: real, t: real, a: real, b: real, c: real, d: real, y: real, z: real, w: real)
    requires x == p * a + q * b && t == p * c + q * d
    requires y == a + c && z == b + d && w == x + t
    ensures w == p * y + q * z
  {
  }

  /** p a + q (a + 0) = (p + q) a. */
  lemma Factor(p: real, q: real, w: real, a: real, b: real, z: real, s: real)
    requires w == p * a + q * b && b == a + z && z == 0.0
    requires s == (p + q) * a
    ensures w == s
  {
  }

  // ---------------------------------------------------------------------------
  // The cumulative distribution

  /** The k-th summand of cdf[x]: C_n^k(x) p^k (1 - p)^(n - k). */
  function CdfTerm(n: nat, p: real, x: int, k: nat): real
    requires k <= n
  {
    CalculateC(n, k, x) as real * Pow(p, k) * Pow(1.0 - p, n - k)
  }

  /** The sum of CdfTerm(n, p, x, k) for k = 0..m-1. */
  function PartialCdf(n: nat, p: real, x: int, m: nat): real
    requires m <= n + 1
  {
    if m == 0 then 0.0 else PartialCdf(n, p, x, m - 1) + CdfTerm(n, p, x, m - 1)
  }

  /** cdf[x]: the probability that no run of successes is longer than x. */
  function Cdf(n: nat, p: real, x: int): real
  {
    PartialCdf(n, p, x, n + 1)
  }

  /** calculateCDF(n, p): one entry per threshold x = 0..n, each accumulated over k = 0..n. */
  method CalculateCdf(n: nat, p: real) returns (cdf: seq<real>)
    ensures |cdf| == n + 1
    ensures forall x :: 0 <= x <= n ==> cdf[x] == Cdf(n, p, x)
  {
    cdf := [];
    var x := 0;
    while x <= n
      invariant 0 <= x <= n + 1
      invariant |cdf| == x
      invariant forall y :: 0 <= y < x ==> cdf[y] == Cdf(n, p, y)
    {
      var cumulativeProbability := CumulativeProbability(n, p, x);
      cdf := cdf + [cumulativeProbability];
      x := x + 1;
    }
  }

  /** The inner loop of calculateCDF: cdf[x] accumulated over k = 0..n. */
  method CumulativeProbability(n: nat, p: real, x: int) returns (cumulativeProbability: real)
    ensures cumulativeProbability == Cdf(n, p, x)
  {
    cumulativeProbability := 0.0;
    var k := 0;
    while k <= n
      invariant 0 <= k <= n + 1
      invariant cumulativeProbability == PartialCdf(n, p, x, k)
    {
      var term := CdfSummand(n, p, x, k);
      cumulativeProbability := cumulativeProbability + term;
      k := k + 1;
    }
  }

  /** One term of the inner loop of calculateCDF: calculateC(n, k, x) p^k (1 - p)^(n - k). */
  method CdfSummand(n: nat, p: real, x: int, k: nat) returns (term: real)
    requires k <= n
    ensures term == CdfTerm(n, p, x, k)
  {
    var cnk := ComputeC(n, k, x);
    term := cnk * Pow(p, k) * Pow(1.0 - p, n - k);
  }

  /** With the cap at n, the k-th CDF summand is the k-th binomial term. */
  lemma TermUncapped(n: nat, p: real, k: nat)
    requires k <= n
    ensures CdfTerm(n, p, n, k) == BinomialRow(n, p, 1.0 - p)(k)
  {
    CalculateCUncapped(n, k);
  }

  lemma {:induction false} PartialCdfUncapped(n: nat, p: real, m: nat)
    requires m <= n + 1
    ensures PartialCdf(n, p, n, m) == SumBelow(BinomialRow(n, p, 1.0 - p), m)
  {
    if m > 0 {
      PartialCdfUncapped(n, p, m - 1);
      TermUncapped(n, p, m - 1);
      assert SumBelow(BinomialRow(n, p, 1.0 - p), m)
          == SumBelow(BinomialRow(n, p, 1.0 - p), m - 1) + BinomialRow(n, p, 1.0 - p)(m - 1);
    }
  }

  /** cdf[n] = 1: with the cap at n every string counts and the binomial theorem applies. */
  lemma CdfAtFullEpoch(n: nat, p: real)
    ensures Cdf(n, p, n) == 1.0
  {
    PartialCdfUncapped(n, p, n + 1);
    BinomialTheorem(n, p, 1.0 - p);
    PowOfOne(n);
  }

  lemma {:induction false} PartialCdfNoRuns(n: nat, p: real, m: nat)
    requires 1 <= m <= n + 1
    ensures PartialCdf(n, p, 0, m) == Pow(1.0 - p, n)
  {
    CalculateCNoRuns(n, m - 1);
    if m > 1 {
      PartialCdfNoRuns(n, p, m - 1);
    }
  }

  /** cdf[0] = (1 - p)^n: only the all-failure string has no run at all. */
  lemma CdfAtZero(n: nat, p: real)
    ensures Cdf(n, p, 0) == Pow(1.0 - p, n)
  {
    PartialCdfNoRuns(n, p, n + 1);
  }

  /** For p in [0, 1] each summand is nonnegative and grows with the cap x. */
  lemma TermMonotone(n: nat, p: real, x: nat, k: nat)
    requires k <= n && 0.0 <= p <= 1.0
    ensures 0.0 <= CdfTerm(n, p, x, k) <= CdfTerm(n, p, x + 1, k)
  {
    var lo, hi := CalculateC(n, k, x), CalculateC(n, k, x + 1);
    assert lo <= hi by {
      CalculateCMonotone(n, k, x);
    }
    PowNonNegative(p, k);
    PowNonNegative(1.0 - p, n - k);
    ScaleMonotone(lo as real, hi as real, Pow(p, k), Pow(1.0 - p, n - k));
  }

  lemma ScaleMonotone(lo: real, hi: real, u: real, v: real)
    requires 0.0 <= lo <= hi && u >= 0.0 && v >= 0.0
    ensures 0.0 <= lo * u * v <= hi * u * v
  {
    assert 0.0 <= u * v;
    assert lo * u * v == lo * (u * v) && hi * u * v == hi * (u * v);
  }

  lemma {:induction false} PartialCdfMonotone(n: nat, p: real, x: nat, m: nat)
    requires m <= n + 1 && 0.0 <= p <= 1.0
    ensures 0.0 <= PartialCdf(n, p, x, m) <= PartialCdf(n, p, x + 1, m)
  {
    if m > 0 {
      PartialCdfMonotone(n, p, x, m - 1);
      TermMonotone(n, p, x, m - 1);
    }
  }

  /** For p in [0, 1] the CDF is nonnegative and nondecreasing in the threshold. */
  lemma CdfMonotone(n: nat, p: real, x: nat)
    requires 0.0 <= p <= 1.0
    ensures 0.0 <= Cdf(n, p, x) <= Cdf(n, p, x + 1)
  {
    PartialCdfMonotone(n, p, x, n + 1);
  }

  /** For p in [0, 1] every CDF entry lies in [0, 1]. */
  lemma {:induction false} CdfIsProbability(n: nat, p: real, x: nat)
    requires 0.0 <= p <= 1.0 && x <= n
    ensures 0.0 <= Cdf(n, p, x) <= 1.0
    decreases n - x
  {
    CdfMonotone(n, p, x);
    if x == n {
      CdfAtFullEpoch(n, p);
    } else {
      CdfIsProbability(n, p, x + 1);
    }
  }

  lemma {:induction false} PartialCdfNeverSucceeds(n: nat, x: nat, m: nat)
    requires 1 <= m <= n + 1
    ensures PartialCdf(n, 0.0, x, m) == 1.0
  {
    if m == 1 {
      PowOfOne(n);
      if n > 0 {
        assert 0 < x || 0 < n;
      }
    } else {
      PartialCdfNeverSucceeds(n, x, m - 1);
      PowOfZero(m - 1);
    }
  }

  /** p = 0: the longest run is always 0, so every CDF entry is 1. */
  lemma CdfNeverSucceeds(n: nat, x: nat)
    ensures Cdf(n, 0.0, x) == 1.0
  {
    PartialCdfNeverSucceeds(n, x, n + 1);
  }

  lemma {:induction false} PartialCdfAlwaysSucceeds(n: nat, x: int, m: nat)
    requires m <= n
    ensures PartialCdf(n, 1.0, x, m) == 0.0
  {
    if m > 0 {
      PartialCdfAlwaysSucceeds(n, x, m - 1);
      PowOfZero(n - (m - 1));
    }
  }

  /** p = 1: the epoch is one run of n successes, so cdf[x] is 0 below n and 1 at n. */
  lemma CdfAlwaysSucceeds(n: nat, x: nat)
    requires x <= n
    ensures Cdf(n, 1.0, x) == if x == n then 1.0 else 0.0
  {
    PartialCdfAlwaysSucceeds(n, x, n);
    PowOfOne(n);
    if x == n {
      ChooseDiagonal(n);
    }
  }

  // ---------------------------------------------------------------------------
  // The probability mass function

  /** calculatePMF(n, p): pmf[0] = cdf[0], pmf[i] = cdf[i] - cdf[i - 1]. */
  method CalculatePmf(n: nat, p: real) returns (pmf: seq<real>)
    ensures |pmf| == n + 1
    ensures pmf[0] == Cdf(n, p, 0)
    ensures forall i :: 1 <= i <= n ==> pmf[i] == Cdf(n, p, i) - Cdf(n, p, i - 1)
  {
    var cdf := CalculateCdf(n, p);
    pmf := [cdf[0]];
    var i := 1;
    while i < |cdf|
      invariant 1 <= i <= |cdf|
      invariant |pmf| == i
      invariant pmf[0] == Cdf(n, p, 0)
      invariant forall j :: 1 <= j < i ==> pmf[j] == Cdf(n, p, j) - Cdf(n, p, j - 1)
    {
      var pmfValue := cdf[i] - cdf[i - 1];
      pmf := pmf + [pmfValue];
      i := i + 1;
    }
  }

  /** The sum of a sequence of reals, adding from the front. */
  function Sum(s: seq<real>): real
  {
    if s == [] then 0.0 else Sum(s[..|s| - 1]) + s[|s| - 1]
  }

  /** First differences telescope: the prefix sums of d give back c. */
  lemma {:induction false} PrefixSumsTelescope(d: seq<real>, c: seq<real>, m: nat)
    requires |d| == |c| && 1 <= m <= |d|
    requires d[0] == c[0]
    requires forall i :: 1 <= i < |d| ==> d[i] == c[i] - c[i - 1]
    ensures Sum(d[..m]) == c[m - 1]
  {
    if m > 1 {
      PrefixSumsTelescope(d, c, m - 1);
      assert d[..m][..m - 1] == d[..m - 1];
    } else {
      assert d[..1][..0] == [];
    }
  }

  /** What calculatePMF returns is a distribution: its prefix sums are the CDF,
      it sums to 1, and for p in [0, 1] no entry is negative. */
  lemma PmfIsDistribution(n: nat, p: real, pmf: seq<real>)
    requires |pmf| == n + 1
    requires pmf[0] == Cdf(n, p, 0)
    requires forall i :: 1 <= i <= n ==> pmf[i] == Cdf(n, p, i) - Cdf(n, p, i - 1)
    ensures forall m :: 1 <= m <= n + 1 ==> Sum(pmf[..m]) == Cdf(n, p, m - 1)
    ensures Sum(pmf) == 1.0
    ensures 0.0 <= p <= 1.0 ==> forall i :: 0 <= i <= n ==> pmf[i] >= 0.0
  {
    var cdf := seq(n + 1, x => Cdf(n, p, x));
    forall m | 1 <= m <= n + 1
      ensures Sum(pmf[..m]) == Cdf(n, p, m - 1)
    {
      PrefixSumsTelescope(pmf, cdf, m);
    }
    assert pmf[..n + 1] == pmf;
    CdfAtFullEpoch(n, p);
    if 0.0 <= p <= 1.0 {
      forall i | 0 <= i <= n
        ensures pmf[i] >= 0.0
      {
        if i == 0 {
          CdfMonotone(n, p, 0);
        } else {
          CdfMonotone(n, p, i - 1);
        }
      }
    }
  }
}
