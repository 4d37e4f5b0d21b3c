/** The median reduction of index.js: `getMedian` sorts its argument in place with a
    numeric comparator and picks the middle element, or the mean of the two middle
    elements; `getDoubleArrayMedian` does this for a copy of every row of a table. */
module Median {
  import opened Options

  predicate Sorted(s: seq<int>)
  {
    forall i, j :: 0 <= i < j < |s| ==> s[i] <= s[j]
  }

  // ---------------------------------------------------------------------------
  // Sorting as a function: the reference the in-place sort is proved against

  /** x placed in front of the first element of s that is not smaller than x. */
  function Insert(x: int, s: seq<int>): (r: seq<int>)
    ensures multiset(r) == multiset(s) + multiset{x}
    ensures Sorted(s) ==> Sorted(r)
  {
    if s == [] || x <= s[0] then [x] + s
    else
      assert s == [s[0]] + s[1..];
      var t := Insert(x, s[1..]);
      assert Sorted(s) ==> Sorted([s[0]] + t) by {
        if Sorted(s) {
          assert LowerBound(s[0], s[1..]);
          LowerBoundPreserved(s[0], s[1..], x, t);
          SortedCons(s[0], t);
        }
      }
      [s[0]] + t
  }

  lemma SortedCons(b: int, t: seq<int>)
    requires LowerBound(b, t) && Sorted(t)
    ensures Sorted([b] + t)
  {
  }

  /** b is not larger than any element of s. */
  predicate LowerBound(b: int, s: seq<int>)
  {
    forall k :: 0 <= k < |s| ==> b <= s[k]
  }

  lemma LowerBoundPreserved(b: int, s: seq<int>, x: int, t: seq<int>)
    requires LowerBound(b, s) && b <= x
    requires multiset(t) == multiset(s) + multiset{x}
    ensures LowerBound(b, t)
  {
    forall k | 0 <= k < |t|
      ensures b <= t[k]
    {
      assert t[k] in multiset(t);
      if t[k] != x {
        assert t[k] in multiset(s);
        var i :| 0 <= i < |s| && s[i] == t[k];
      }
    }
  }

  /** The ascending arrangement of s. */
  function SortSeq(s: seq<int>): (r: seq<int>)
    ensures Sorted(r)
    ensures multiset(r) == multiset(s)
  {
    if s == [] then []
    else
      assert s == [s[0]] + s[1..];
      Insert(s[0], SortSeq(s[1..]))
  }

  /** There is only one ascending arrangement of a multiset of numbers. */
  lemma {:induction false} SortedUnique(a: seq<int>, b: seq<int>)
    requires Sorted(a) && Sorted(b)
    requires multiset(a) == multiset(b)
    ensures a == b
    decreases |a|
  {
    assert |a| == |multiset(a)| == |multiset(b)| == |b|;
    if a != [] {
      SameHead(a, b);
      SortedTail(a);
      SortedTail(b);
      SortedUnique(a[1..], b[1..]);
      assert a == [a[0]] + a[1..];
      assert b == [b[0]] + b[1..];
    }
  }

  lemma SameHead(a: seq<int>, b: seq<int>)
    requires Sorted(a) && Sorted(b) && a != [] && b != []
    requires multiset(a) == multiset(b)
    ensures a[0] == b[0]
    ensures multiset(a[1..]) == multiset(b[1..])
  {
    assert a[0] in multiset(a) && b[0] in multiset(b);
    SmallestFirst(a, b[0]);
    SmallestFirst(b, a[0]);
    HeadAndTail(a);
    HeadAndTail(b);
    assert multiset(a[1..]) == multiset(a) - multiset{a[0]};
  }

  lemma HeadAndTail(a: seq<int>)
    requires a != []
    ensures multiset(a) == multiset{a[0]} + multiset(a[1..])
  {
    assert a == [a[0]] + a[1..];
  }

  lemma SortedTail(a: seq<int>)
    requires Sorted(a) && a != []
    ensures Sorted(a[1..])
  {
  }

  /** The first element of an ascending sequence is not larger than any of its elements. */
  lemma SmallestFirst(s: seq<int>, x: int)
    requires Sorted(s) && x in multiset(s)
    ensures s[0] <= x
  {
    var i :| 0 <= i < |s| && s[i] == x;
  }

  /** Sorting an ascending sequence changes nothing. */
  lemma SortSeqOfSorted(s: seq<int>)
    requires Sorted(s)
    ensures SortSeq(s) == s
  {
    SortedUnique(SortSeq(s), s);
  }

  // ---------------------------------------------------------------------------
  // The median

  /** The median of an ascending sequence: its middle element when the length is odd,
      the mean of its two middle elements when it is even, and nothing (NaN in index.js)
      when it is empty. */
  function MedianOfSorted(s: seq<int>): (m: Option<real>)
    ensures m.None? <==> |s| == 0
  {
    if |s| % 2 == 1 then Some(s[|s| / 2] as real)
    else if |s| == 0 then None
    else Some((s[|s| / 2 - 1] as real + s[|s| / 2] as real) / 2.0)
  }

  /** The median of the numbers in s, whatever their order. */
  function Median(s: seq<int>): Option<real>
  {
    MedianOfSorted(SortSeq(s))
  }

  /** The median does not depend on the order of the input. */
  lemma MedianOrderIndependent(a: seq<int>, b: seq<int>)
    requires multiset(a) == multiset(b)
    ensures Median(a) == Median(b)
  {
    SortedUnique(SortSeq(a), SortSeq(b));
  }

  /** The median of the numbers of s is one of them or lies between two of them. */
  lemma MedianBounds(s: seq<int>)
    requires |s| > 0
    ensures Median(s).Some?
    ensures exists i :: 0 <= i < |s| && s[i] as real <= Median(s).value
    ensures exists j :: 0 <= j < |s| && Median(s).value <= s[j] as real
  {
    var t := SortSeq(s);
    var lo, hi := (|t| - 1) / 2, |t| / 2;
    MedianBetween(t);
    assert t[lo] in multiset(s) && t[hi] in multiset(s);
    var i :| 0 <= i < |s| && s[i] == t[lo];
    var j :| 0 <= j < |s| && s[j] == t[hi];
  }

  /** The median of an ascending sequence lies between its two middle elements, which
      coincide when the length is odd. */
  lemma MedianBetween(t: seq<int>)
    requires Sorted(t) && |t| > 0
    ensures t[(|t| - 1) / 2] as real <= MedianOfSorted(t).value <= t[|t| / 2] as real
  {
  }

  /** At least half of the numbers are at most the median, and at least half are at
      least the median. */
  lemma MedianSplits(s: seq<int>)
    requires |s| > 0
    ensures Median(s).Some?
    ensures 2 * CountAtMost(s, Median(s).value) >= |s|
    ensures 2 * CountAtLeast(s, Median(s).value) >= |s|
  {
    var t := SortSeq(s);
    var m := MedianOfSorted(t).value;
    SortedAroundMedian(t);
    CountPrefix(t, m, (|t| + 1) / 2);
    CountSuffix(t, m, |t| / 2);
    CountSort(s, m);
  }

  /** In an ascending sequence, the first half (rounded up) is at most the median and the
      second half (rounded up) is at least the median. */
  lemma SortedAroundMedian(t: seq<int>)
    requires Sorted(t) && |t| > 0
    ensures forall i :: 0 <= i < (|t| + 1) / 2 ==> t[i] as real <= MedianOfSorted(t).value
    ensures forall i :: |t| / 2 <= i < |t| ==> t[i] as real >= MedianOfSorted(t).value
  {
    var lo, hi := (|t| - 1) / 2, |t| / 2;
    MedianBetween(t);
    forall i | 0 <= i < (|t| + 1) / 2
      ensures t[i] as real <= MedianOfSorted(t).value
    {
      assert t[i] <= t[lo];
    }
    forall i | hi <= i < |t|
      ensures t[i] as real >= MedianOfSorted(t).value
    {
      assert t[hi] <= t[i];
    }
  }

  /** How many elements of s are at most m. */
  function CountAtMost(s: seq<int>, m: real): (c: nat)
    ensures c <= |s|
  {
    if s == [] then 0 else (if s[0] as real <= m then 1 else 0) + CountAtMost(s[1..], m)
  }

  /** How many elements of s are at least m. */
  function CountAtLeast(s: seq<int>, m: real): (c: nat)
    ensures c <= |s|
  {
    if s == [] then 0 else (if s[0] as real >= m then 1 else 0) + CountAtLeast(s[1..], m)
  }

  lemma {:induction false} CountPrefix(t: seq<int>, m: real, h: nat)
    requires h <= |t|
    requires forall i :: 0 <= i < h ==> t[i] as real <= m
    ensures CountAtMost(t, m) >= h
    decreases h
  {
    if h > 0 {
      CountPrefix(t[1..], m, h - 1);
    }
  }

  lemma {:induction false} CountSuffix(t: seq<int>, m: real, h: nat)
    requires h <= |t|
    requires forall i :: h <= i < |t| ==> t[i] as real >= m
    ensures CountAtLeast(t, m) >= |t| - h
    decreases |t|
  {
    if t != [] {
      CountSuffix(t[1..], m, if h == 0 then 0 else h - 1);
    }
  }

  lemma {:induction false} CountInsert(x: int, s: seq<int>, m: real)
    ensures CountAtMost(Insert(x, s), m) == CountAtMost(s, m) + (if x as real <= m then 1 else 0)
    ensures CountAtLeast(Insert(x, s), m) == CountAtLeast(s, m) + (if x as real >= m then 1 else 0)
    decreases |s|
  {
    if s != [] && x > s[0] {
      CountInsert(x, s[1..], m);
      assert Insert(x, s)[1..] == Insert(x, s[1..]);
    }
  }

  /** Sorting does not change how many elements lie on either side of m. */
  lemma {:induction false} CountSort(s: seq<int>, m: real)
    ensures CountAtMost(SortSeq(s), m) == CountAtMost(s, m)
    ensures CountAtLeast(SortSeq(s), m) == CountAtLeast(s, m)
    decreases |s|
  {
    if s != [] {
      CountSort(s[1..], m);
      CountInsert(s[0], SortSeq(s[1..]), m);
    }
  }

  // ---------------------------------------------------------------------------
  // The in-place operations

  /** `array.sort((a, b) => a - b)`: ascending, in place. */
  method SortInPlace(a: array<int>)
    modifies a
    ensures a[..] == SortSeq(old(a[..]))
  {
    var i := 0;
    while i < a.Length
      invariant 0 <= i <= a.Length
      invariant Sorted(a[..i])
      invariant multiset(a[..]) == multiset(old(a[..]))
    {
      InsertionStep(a, i);
      i := i + 1;
    }
    assert a[..a.Length] == a[..];
    SortedUnique(a[..], SortSeq(old(a[..])));
  }

  /** One pass of the insertion sort: a[i] moves left past every larger element, so
      that a[..i + 1] is ascending. */
  method InsertionStep(a: array<int>, i: int)
    requires 0 <= i < a.Length && Sorted(a[..i])
    modifies a
    ensures Sorted(a[..i + 1])
    ensures multiset(a[..]) == multiset(old(a[..]))
  {
    var j := i;
    SortedExceptStart(a[..], i);
    while j > 0 && a[j - 1] > a[j]
      invariant 0 <= j <= i
      invariant SortedExcept(a[..], i, j)
      invariant multiset(a[..]) == multiset(old(a[..]))
    {
      ghost var s := a[..];
      SwapDown(s, i, j);
      a[j - 1], a[j] := a[j], a[j - 1];
      assert a[..] == s[j - 1 := s[j]][j := s[j - 1]];
      j := j - 1;
    }
    SortedExceptEnd(a[..], i, j);
  }

  /** s[..i + 1] is ascending except that s[j] may be smaller than the elements before it. */
  predicate SortedExcept(s: seq<int>, i: int, j: int)
    requires 0 <= j <= i < |s|
  {
    forall k, l :: 0 <= k < l <= i && l != j ==> s[k] <= s[l]
  }

  lemma SortedExceptStart(s: seq<int>, i: int)
    requires 0 <= i < |s| && Sorted(s[..i])
    ensures SortedExcept(s, i, i)
  {
    forall k, l | 0 <= k < l <= i && l != i
      ensures s[k] <= s[l]
    {
      assert s[k] == s[..i][k] && s[l] == s[..i][l];
    }
  }

  /** Swapping s[j] with the larger s[j - 1] moves the exception one place left. */
  lemma SwapDown(s: seq<int>, i: int, j: int)
    requires 0 < j <= i < |s| && SortedExcept(s, i, j) && s[j - 1] > s[j]
    ensures SortedExcept(s[j - 1 := s[j]][j := s[j - 1]], i, j - 1)
  {
  }

  lemma SortedExceptEnd(s: seq<int>, i: int, j: int)
    requires 0 <= j <= i < |s| && SortedExcept(s, i, j)
    requires j == 0 || s[j - 1] <= s[j]
    ensures Sorted(s[..i + 1])
  {
    forall k, l | 0 <= k < l <= i
      ensures s[k] <= s[l]
    {
      if l == j && k < j - 1 {
        assert s[k] <= s[j - 1];
      }
    }
  }

  /** `getMedian(array)`: sorts the array in place and returns its median. */
  method GetMedian(a: array<int>) returns (median: Option<real>)
    modifies a
    ensures a[..] == SortSeq(old(a[..]))
    ensures median == Median(old(a[..]))
  {
    SortInPlace(a);
    median := MiddleValue(a);
  }

  /** The middle element of the sorted array, or the mean of its two middle elements;
      NaN (here None) for an empty array. */
  method MiddleValue(a: array<int>) returns (median: Option<real>)
    ensures median == MedianOfSorted(a[..])
  {
    var length := a.Length;
    if length % 2 == 1 {
      median := Some(a[length / 2] as real);
    } else if length == 0 {
      median := None;
    } else {
      var middleIndex := length / 2;
      median := Some((a[middleIndex - 1] as real + a[middleIndex] as real) / 2.0);
    }
  }

  /** Row r of a table. */
  function Row(table: array2<int>, r: int): seq<int>
    reads table
    requires 0 <= r < table.Length0
  {
    seq(table.Length1, c reads table requires 0 <= c < table.Length1 => table[r, c])
  }

  /** A fresh array holding row r of the table. */
  method CopyRow(table: array2<int>, r: int) returns (copy: array<int>)
    requires 0 <= r < table.Length0
    ensures fresh(copy)
    ensures copy[..] == Row(table, r)
  {
    copy := new int[table.Length1];
    var c := 0;
    while c < table.Length1
      invariant 0 <= c <= table.Length1
      invariant forall d :: 0 <= d < c ==> copy[d] == table[r, d]
    {
      copy[c] := table[r, c];
      c := c + 1;
    }
  }

  /** The median of row r, computed on a copy that is sorted and then handed to
      GetMedian, which sorts it once more. */
  method RowMedian(table: array2<int>, r: int) returns (median: Option<real>)
    requires 0 <= r < table.Length0
    ensures median == Median(Row(table, r))
  {
    var copy := CopyRow(table, r);
    SortInPlace(copy);
    ghost var sorted := copy[..];
    median := GetMedian(copy);
    SortSeqOfSorted(sorted);
  }

  /** `getDoubleArrayMedian(table)`: the median of every row, each computed on a sorted
      copy, so that the table itself is left as it was. */
  method GetDoubleArrayMedian(table: array2<int>) returns (medians: seq<Option<real>>)
    ensures |medians| == table.Length0
    ensures forall r :: 0 <= r < table.Length0 ==> medians[r] == Median(Row(table, r))
  {
    medians := [];
    var r := 0;
    while r < table.Length0
      invariant 0 <= r <= table.Length0
      invariant |medians| == r
      invariant forall i :: 0 <= i < r ==> medians[i] == Median(Row(table, i))
    {
      var median := RowMedian(table, r);
      medians := medians + [median];
      r := r + 1;
    }
  }
}
