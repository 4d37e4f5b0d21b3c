/** The restricted run counter `calculateC` of index.js and its meaning: the number of
    0/1 strings of length n with exactly k ones and no run of ones longer than x. */
module RunCounter {
  import opened Binomial

  /** calculateC(n, k, x), with the same branches in the same order as the source.
      The general case sums over the length j + 1 of the block "j ones, then a zero"
      that opens the string. */
  function CalculateC(n: int, k: int, x: int): nat
    decreases n - k, 1, 0
  {
    if n < k || (x < k && k == n) then 0
    else if k <= x && k == n then 1
    else if k <= x && k < n then Choose(n, k)
    else if x < k && k < n then SumOverFirstRun(n, k, x, 0)
    else 0
  }

  /** The accumulation loop of the general case: the sum of
      calculateC(n - 1 - i, k - i, x) for i = j..x. */
  function SumOverFirstRun(n: int, k: int, x: int, j: int): nat
    requires x < k < n
    decreases n - k, 0, x + 1 - j
  {
    if j > x then 0
    else CalculateC(n - 1 - j, k - j, x) + SumOverFirstRun(n, k, x, j + 1)
  }

  /** calculateC as index.js runs it: the same branches, binomialCoefficient for the
      uncapped case, and a loop accumulating the general case's sum in `sum`. */
  method ComputeC(n: int, k: int, x: int) returns (c: real)
    ensures c == CalculateC(n, k, x) as real
    decreases n - k
  {
    if n < k || (x < k && k == n) {
      return 0.0;
    }
    if k <= x {
      if k == n {
        return 1.0;
      }
      if k < n {
        c := BinomialCoefficient(n, k);
        return;
      }
    }
    if x < k && k < n {
      var sum := 0.0;
      var j := 0;
      while j <= x
        invariant 0 <= j && (j <= x + 1 || j == 0)
        invariant sum + SumOverFirstRun(n, k, x, j) as real == SumOverFirstRun(n, k, x, 0) as real
      {
        var term := ComputeC(n - 1 - j, k - j, x);
        sum := sum + term;
        j := j + 1;
      }
      return sum;
    }
    return 0.0;
  }

  // ---------------------------------------------------------------------------
  // The strings being counted

  /** Number of ones (successful slots) in a 0/1 string. */
  function CountOnes(s: seq<bool>): (r: nat)
    ensures r <= |s|
  {
    if s == [] then 0 else (if s[0] then 1 else 0) + CountOnes(s[1..])
  }

  /** Length of the run of ones that opens the string. */
  function LeadingOnes(s: seq<bool>): (r: nat)
    ensures r <= |s|
  {
    if s == [] || !s[0] then 0 else 1 + LeadingOnes(s[1..])
  }

  /** Length of the longest run of consecutive ones: the longest run starting at any position. */
  function LongestRun(s: seq<bool>): nat
  {
    if s == [] then 0
    else if !s[0] then LongestRun(s[1..])
    else Max(LeadingOnes(s), LongestRun(s[1..]))
  }

  function Max(a: int, b: int): int { if a < b then b else a }

  /** The string of j ones. */
  function OnesRun(j: nat): (r: seq<bool>)
    ensures |r| == j
  {
    seq(j, _ => true)
  }

  /** Every 0/1 string of length n. */
  ghost function Strings(n: nat): set<seq<bool>>
  {
    if n == 0 then {[]}
    else Prefixed([false], Strings(n - 1)) + Prefixed([true], Strings(n - 1))
  }

  /** The strings `p + r` for r in A. */
  ghost function Prefixed(p: seq<bool>, A: set<seq<bool>>): set<seq<bool>>
  {
    set r | r in A :: p + r
  }

  /** The strings calculateC(n, k, x) is meant to count. */
  ghost function Restricted(n: nat, k: int, x: int): set<seq<bool>>
  {
    set s | s in Strings(n) && CountOnes(s) == k && LongestRun(s) <= x
  }

  /** The strings of length n with exactly k ones, whatever their runs. */
  ghost function WithOnes(n: nat, k: int): set<seq<bool>>
  {
    set s | s in Strings(n) && CountOnes(s) == k
  }

  /** The strings of Restricted(n, k, x) whose opening run has at least j ones. */
  ghost function Tail(n: nat, k: int, x: int, j: int): set<seq<bool>>
  {
    set s | s in Restricted(n, k, x) && LeadingOnes(s) >= j
  }

  // ---------------------------------------------------------------------------
  // Facts about single strings

  lemma {:induction false} StringsExact(n: nat)
    ensures forall s :: s in Strings(n) <==> |s| == n
  {
    if n > 0 {
      StringsExact(n - 1);
      forall s | |s| == n
        ensures s in Strings(n)
      {
        ConsInStrings(s);
      }
    }
  }

  /** A string of length n >= 1 is its first slot prefixed to a string of length n - 1. */
  lemma ConsInStrings(s: seq<bool>)
    requires |s| >= 1
    requires forall t :: t in Strings(|s| - 1) <==> |t| == |s| - 1
    ensures s in Strings(|s|)
  {
    assert s == [s[0]] + s[1..];
    assert s[1..] in Strings(|s| - 1);
    if s[0] {
      assert s in Prefixed([true], Strings(|s| - 1));
    } else {
      assert s in Prefixed([false], Strings(|s| - 1));
    }
  }

  lemma {:induction false} LongestRunBounds(s: seq<bool>)
    ensures LeadingOnes(s) <= LongestRun(s) <= CountOnes(s)
  {
    if s != [] {
      LongestRunBounds(s[1..]);
      if s[0] {
        LeadingAtMostOnes(s);
      }
    }
  }

  lemma {:induction false} LeadingAtMostOnes(s: seq<bool>)
    ensures LeadingOnes(s) <= CountOnes(s)
  {
    if s != [] && s[0] {
      LeadingAtMostOnes(s[1..]);
    }
  }

  /** A string that is not all ones splits as "leading ones, a zero, the rest". */
  lemma {:induction false} SplitAtFirstZero(s: seq<bool>)
    requires CountOnes(s) < |s|
    ensures LeadingOnes(s) < |s|
    ensures s == OnesRun(LeadingOnes(s)) + [false] + s[LeadingOnes(s) + 1..]
  {
    if s[0] {
      SplitAtFirstZero(s[1..]);
      var j := LeadingOnes(s[1..]);
      assert s[1..] == OnesRun(j) + [false] + s[1..][j + 1..];
      assert OnesRun(j + 1) == [true] + OnesRun(j);
      assert s[1..][j + 1..] == s[j + 2..];
      assert s == [s[0]] + s[1..];
    } else {
      assert s == [false] + s[1..];
    }
  }

  /** Ones, a zero, then r: counts, opening run and longest run. */
  lemma {:induction false} Compose(j: nat, r: seq<bool>)
    ensures CountOnes(OnesRun(j) + [false] + r) == j + CountOnes(r)
    ensures LeadingOnes(OnesRun(j) + [false] + r) == j
    ensures LongestRun(OnesRun(j) + [false] + r) == Max(j, LongestRun(r))
  {
    var s := OnesRun(j) + [false] + r;
    if j == 0 {
      assert s == [false] + r;
      assert s[1..] == r;
    } else {
      Compose(j - 1, r);
      assert s[1..] == OnesRun(j - 1) + [false] + r;
      assert s[0];
    }
  }

  lemma {:induction false} AllOnes(n: nat)
    ensures CountOnes(OnesRun(n)) == n && LeadingOnes(OnesRun(n)) == n
    ensures LongestRun(OnesRun(n)) == n
  {
    if n > 0 {
      AllOnes(n - 1);
      assert OnesRun(n)[1..] == OnesRun(n - 1);
      LongestRunBounds(OnesRun(n));
    }
  }

  lemma {:induction false} OnlyAllOnes(s: seq<bool>)
    requires CountOnes(s) == |s|
    ensures s == OnesRun(|s|)
  {
    if s != [] {
      OnlyAllOnes(s[1..]);
      assert s == [s[0]] + s[1..];
    }
  }

  // ---------------------------------------------------------------------------
  // Counting

  /** Prefixing with a fixed string is injective, so it preserves the number of strings. */
  lemma {:induction false} PrefixedCard(p: seq<bool>, A: set<seq<bool>>)
    ensures |Prefixed(p, A)| == |A|
    decreases |A|
  {
    if A == {} {
      assert Prefixed(p, A) == {};
    } else {
      var a :| a in A;
      var B := A - {a};
      PrefixedCard(p, B);
      assert Prefixed(p, A) == Prefixed(p, B) + {p + a};
      forall r | r in B
        ensures p + r != p + a
      {
        assert (p + r)[|p|..] == r;
        assert (p + a)[|p|..] == a;
      }
    }
  }

  /** There are C(n, k) strings of length n with k ones. */
  lemma {:induction false} WithOnesCount(n: nat, k: int)
    ensures |WithOnes(n, k)| == Choose(n, k)
  {
    if n == 0 {
      if k == 0 {
        assert WithOnes(n, k) == {[]};
      } else {
        assert WithOnes(n, k) == {};
      }
    } else {
      var zeros, ones := Prefixed([false], WithOnes(n - 1, k)), Prefixed([true], WithOnes(n - 1, k - 1));
      assert |zeros| == Choose(n - 1, k) by {
        WithOnesCount(n - 1, k);
        PrefixedCard([false], WithOnes(n - 1, k));
      }
      assert |ones| == Choose(n - 1, k - 1) by {
        WithOnesCount(n - 1, k - 1);
        PrefixedCard([true], WithOnes(n - 1, k - 1));
      }
      WithOnesSplit(n, k);
      DisjointUnionCard(zeros, ones);
      ChoosePascal(n, k);
    }
  }

  /** A string with k ones starts with a zero followed by k ones, or with a one followed by k - 1. */
  lemma WithOnesSplit(n: nat, k: int)
    requires n > 0
    ensures WithOnes(n, k) == Prefixed([false], WithOnes(n - 1, k)) + Prefixed([true], WithOnes(n - 1, k - 1))
    ensures Prefixed([false], WithOnes(n - 1, k)) * Prefixed([true], WithOnes(n - 1, k - 1)) == {}
  {
    var zeros := Prefixed([false], WithOnes(n - 1, k));
    var ones := Prefixed([true], WithOnes(n - 1, k - 1));
    StringsExact(n);
    StringsExact(n - 1);
    forall s | s in WithOnes(n, k)
      ensures s in zeros + ones
    {
      assert s == [s[0]] + s[1..];
    }
    forall s | s in zeros + ones
      ensures s in WithOnes(n, k)
    {
      assert s[1..] in Strings(n - 1);
      assert s == [s[0]] + s[1..];
    }
    forall s | s in zeros
      ensures s !in ones
    {
      assert !s[0];
    }
  }

  /** The strings whose opening run is exactly j ones followed by a zero. */
  lemma FirstRunSplit(n: nat, k: nat, x: nat, j: nat)
    requires x < k < n && j <= x
    ensures Tail(n, k, x, j)
         == Prefixed(OnesRun(j) + [false], Restricted(n - 1 - j, k - j, x)) + Tail(n, k, x, j + 1)
    ensures Prefixed(OnesRun(j) + [false], Restricted(n - 1 - j, k - j, x)) * Tail(n, k, x, j + 1) == {}
  {
    FirstRunCovers(n, k, x, j);
    FirstRunBlock(n, k, x, j);
  }

  /** A string of Tail(n, k, x, j) whose opening run is exactly j ones is j ones, a zero and
      a string of Restricted(n - 1 - j, k - j, x). */
  lemma FirstRunCovers(n: nat, k: nat, x: nat, j: nat)
    requires x < k < n && j <= x
    ensures forall s :: s in Tail(n, k, x, j) ==>
      s in Prefixed(OnesRun(j) + [false], Restricted(n - 1 - j, k - j, x)) || s in Tail(n, k, x, j + 1)
  {
    var p := OnesRun(j) + [false];
    StringsExact(n - 1 - j);
    forall s | s in Tail(n, k, x, j) && LeadingOnes(s) == j
      ensures s in Prefixed(p, Restricted(n - 1 - j, k - j, x))
    {
      StringsExact(n);
      SplitAtFirstZero(s);
      var r := s[j + 1..];
      Compose(j, r);
      assert s == p + r;
      assert r in Restricted(n - 1 - j, k - j, x);
    }
  }

  /** j ones, a zero and a string of Restricted(n - 1 - j, k - j, x) is in Tail(n, k, x, j)
      and opens with exactly j ones. */
  lemma FirstRunBlock(n: nat, k: nat, x: nat, j: nat)
    requires x < k < n && j <= x
    ensures forall s :: s in Prefixed(OnesRun(j) + [false], Restricted(n - 1 - j, k - j, x)) ==>
      s in Tail(n, k, x, j) && LeadingOnes(s) == j
  {
    var p := OnesRun(j) + [false];
    StringsExact(n);
    StringsExact(n - 1 - j);
    forall s | s in Prefixed(p, Restricted(n - 1 - j, k - j, x))
      ensures s in Tail(n, k, x, j) && LeadingOnes(s) == j
    {
      var r :| r in Restricted(n - 1 - j, k - j, x) && s == p + r;
      Compose(j, r);
    }
  }

  lemma {:induction false} SumOverFirstRunCounts(n: nat, k: nat, x: nat, j: nat)
    requires x < k < n && j <= x + 1
    ensures SumOverFirstRun(n, k, x, j) == |Tail(n, k, x, j)|
    decreases n - k, 0, x + 1 - j
  {
    if j > x {
      TailBeyondCap(n, k, x, j);
    } else {
      var block := Prefixed(OnesRun(j) + [false], Restricted(n - 1 - j, k - j, x));
      var rest := Tail(n, k, x, j + 1);
      assert |block| == CalculateC(n - 1 - j, k - j, x) by {
        CalculateCCounts(n - 1 - j, k - j, x);
        PrefixedCard(OnesRun(j) + [false], Restricted(n - 1 - j, k - j, x));
      }
      assert |rest| == SumOverFirstRun(n, k, x, j + 1) by {
        SumOverFirstRunCounts(n, k, x, j + 1);
      }
      assert Tail(n, k, x, j) == block + rest && block * rest == {} by {
        FirstRunSplit(n, k, x, j);
      }
      DisjointUnionCard(block, rest);
    }
  }

  /** No string of Restricted(n, k, x) opens with more than x ones. */
  lemma TailBeyondCap(n: nat, k: nat, x: nat, j: nat)
    requires x < j
    ensures Tail(n, k, x, j) == {}
  {
    forall s | s in Restricted(n, k, x)
      ensures LeadingOnes(s) < j
    {
      LongestRunBounds(s);
    }
  }

  lemma DisjointUnionCard(A: set<seq<bool>>, B: set<seq<bool>>)
    requires A * B == {}
    ensures |A + B| == |A| + |B|
  {
  }

  /** calculateC counts exactly the length-n strings with k ones and longest run at most x. */
  lemma {:induction false} CalculateCCounts(n: nat, k: nat, x: nat)
    ensures CalculateC(n, k, x) == |Restricted(n, k, x)|
    decreases n - k, 1, 0
  {
    StringsExact(n);
    if n < k {
      assert Restricted(n, k, x) == {};
    } else if x < k && k == n {
      forall s | s in Restricted(n, k, x)
        ensures false
      {
        OnlyAllOnes(s);
        AllOnes(n);
      }
      assert Restricted(n, k, x) == {};
    } else if k <= x && k == n {
      AllOnes(n);
      forall s | s in Restricted(n, k, x)
        ensures s == OnesRun(n)
      {
        OnlyAllOnes(s);
      }
      assert Restricted(n, k, x) == {OnesRun(n)};
    } else if k <= x {
      forall s | s in WithOnes(n, k)
        ensures s in Restricted(n, k, x)
      {
        LongestRunBounds(s);
      }
      assert Restricted(n, k, x) == WithOnes(n, k);
      WithOnesCount(n, k);
    } else {
      SumOverFirstRunCounts(n, k, x, 0);
      assert Tail(n, k, x, 0) == Restricted(n, k, x);
    }
  }

  // ---------------------------------------------------------------------------
  // Consequences used by the distribution

  /** Raising the cap never loses a string, so calculateC is nondecreasing in x. */
  lemma CalculateCMonotone(n: nat, k: nat, x: nat)
    ensures CalculateC(n, k, x) <= CalculateC(n, k, x + 1)
  {
    CalculateCCounts(n, k, x);
    CalculateCCounts(n, k, x + 1);
    var small, large := Restricted(n, k, x), Restricted(n, k, x + 1);
    assert large == small + (large - small);
  }

  /** With the cap at n every string qualifies: calculateC(n, k, n) = C(n, k). */
  lemma CalculateCUncapped(n: nat, k: nat)
    requires k <= n
    ensures CalculateC(n, k, n) == Choose(n, k)
  {
    if k == n {
      ChooseDiagonal(n);
    }
  }

  /** With the cap at 0 only the all-zero string qualifies. */
  lemma {:induction false} CalculateCNoRuns(n: nat, k: nat)
    ensures CalculateC(n, k, 0) == if k == 0 then 1 else 0
    decreases n
  {
    if 0 < k < n {
      CalculateCNoRuns(n - 1, k);
      assert SumOverFirstRun(n, k, 0, 0) == CalculateC(n - 1, k, 0) + SumOverFirstRun(n, k, 0, 1);
    }
  }

  /** A full epoch of 32 ones is excluded by a cap of 31 and admitted by a cap of 32. */
  lemma FullEpochRun()
    ensures CalculateC(32, 32, 31) == 0 && |Restricted(32, 32, 31)| == 0
    ensures CalculateC(32, 32, 32) == 1 && |Restricted(32, 32, 32)| == 1
  {
    CalculateCCounts(32, 32, 31);
    CalculateCCounts(32, 32, 32);
  }
}
