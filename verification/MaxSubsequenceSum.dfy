/** MaxSubsequenceSum/MaxSubsequenceSum01.c, 02.c and 03.c: the cubic, the quadratic and the
    divide-and-conquer algorithm for the largest sum of a contiguous stretch, with the sums that their ints
    cannot hold. */
module MaxSubsequenceSum {
  import opened CTypes

  ghost function Sum(s: seq<int>, i: nat, j: nat): int
    requires i <= j <= |s|
    decreases j
  {
    if i == j then 0 else Sum(s, i, j - 1) + s[j - 1]
  }

  lemma {:induction false} SumSplit(s: seq<int>, i: nat, k: nat, j: nat)
    requires i <= k <= j <= |s|
    ensures Sum(s, i, j) == Sum(s, i, k) + Sum(s, k, j)
    decreases j
  {
    if k < j {
      SumSplit(s, i, k, j - 1);
    }
  }

  /** m is the sum of a stretch inside [lo, hi), the empty one included. */
  ghost predicate Attained(s: seq<int>, lo: nat, hi: nat, m: int)
    requires lo <= hi <= |s|
  {
    exists i, j :: lo <= i <= j <= hi && Sum(s, i, j) == m
  }

  ghost predicate Bounds(s: seq<int>, lo: nat, hi: nat, m: int)
    requires lo <= hi <= |s|
  {
    forall i, j :: lo <= i <= j <= hi ==> Sum(s, i, j) <= m
  }

  /** m is the largest sum of a stretch inside [lo, hi); being empty counts as the sum 0. */
  ghost predicate IsMax(s: seq<int>, lo: nat, hi: nat, m: int)
    requires lo <= hi <= |s|
  {
    Attained(s, lo, hi, m) && Bounds(s, lo, hi, m)
  }

  lemma MaxIsUnique(s: seq<int>, lo: nat, hi: nat, m: int, n: int)
    requires lo <= hi <= |s| && IsMax(s, lo, hi, m) && IsMax(s, lo, hi, n)
    ensures m == n
  {
  }

  /** Every stretch that starts before i, or at i and ends before j, is accounted for. */
  ghost predicate Covered(s: seq<int>, i: nat, j: nat, m: int)
    requires i <= |s| && j <= |s|
  {
    && m >= 0
    && forall p, q :: 0 <= p <= q <= |s| && (p < i || (p == i && q <= j)) ==> Sum(s, p, q) <= m
  }

  lemma CoverEnd(s: seq<int>, m: int)
    requires Covered(s, |s|, |s|, m)
    ensures Bounds(s, 0, |s|, m)
  {
  }

  predicate FitsInt(x: int) {
    -INT_END <= x < INT_END
  }

  /** Every contiguous sum fits an int. */
  ghost predicate AllFit(s: seq<int>) {
    forall i, j :: 0 <= i <= j <= |s| ==> FitsInt(Sum(s, i, j))
  }

  /** The ends of the ints: one element more overflows. */
  lemma LargestInt(s: seq<int>)
    requires s == [0x7fff_ffff, 1] || s == [-0x8000_0000, -1]
    ensures AllFit(s[..1]) && !AllFit(s)
  {
    assert Sum(s, 0, 0) == 0 && Sum(s, 0, 1) == s[0] && Sum(s, 0, 2) == s[0] + s[1];
    assert Sum(s[..1], 0, 0) == 0 == Sum(s[..1], 1, 1) && Sum(s[..1], 0, 1) == s[0];
  }

  /** The sums that have been formed by then fit. */
  ghost predicate FitSoFar(s: seq<int>, i: nat, j: nat)
    requires i <= |s| && j <= |s|
  {
    forall p, q :: 0 <= p <= q <= |s| && (p < i || (p == i && q <= j)) ==> FitsInt(Sum(s, p, q))
  }

  /** The sums of the stretches that start at `mid` and end by `hi` fit. */
  ghost predicate RightFits(s: seq<int>, mid: nat, hi: nat)
    requires mid <= hi <= |s|
  {
    forall j :: mid <= j <= hi ==> FitsInt(Sum(s, mid, j))
  }

  /** The innermost loop of the cubic program: whether it overflows, and the sum. */
  method Stretch(arr: seq<int>, i: nat, j: nat) returns (fits: bool, thisSum: int)
    requires i <= j < |arr|
    ensures fits <==> RightFits(arr, i, j + 1)
    ensures fits ==> thisSum == Sum(arr, i, j + 1)
  {
    thisSum := 0;
    for k := i to j + 1
      invariant thisSum == Sum(arr, i, k)
      invariant RightFits(arr, i, k)
    {
      thisSum := thisSum + arr[k];
      if !FitsInt(thisSum) {
        assert !FitsInt(Sum(arr, i, k + 1));
        return false, 0;
      }
    }
    fits := true;
  }

  /** MaxSubsequenceSum01.c: every stretch is summed afresh.  No addition overflows exactly if all sums fit. */
  method Cubic(arr: seq<int>) returns (fits: bool, maxSum: int)
    ensures fits <==> AllFit(arr)
    ensures fits ==> IsMax(arr, 0, |arr|, maxSum)
  {
    maxSum := 0;
    assert Sum(arr, 0, 0) == 0;
    for i := 0 to |arr|
      invariant Covered(arr, i, i, maxSum) && Attained(arr, 0, |arr|, maxSum) && FitSoFar(arr, i, i)
    {
      for j := i to |arr|
        invariant Covered(arr, i, j, maxSum) && Attained(arr, 0, |arr|, maxSum) && FitSoFar(arr, i, j)
      {
        var thisSum;
        fits, thisSum := Stretch(arr, i, j);
        if !fits {
          return;
        }
        if thisSum > maxSum {
          maxSum := thisSum;
        }
      }
    }
    CoverEnd(arr, maxSum);
    fits := true;
  }

  /** MaxSubsequenceSum02.c: each sum extends the one before it. */
  method Quadratic(arr: seq<int>) returns (fits: bool, maxSum: int)
    ensures fits <==> AllFit(arr)
    ensures fits ==> IsMax(arr, 0, |arr|, maxSum)
  {
    maxSum := 0;
    assert Sum(arr, 0, 0) == 0;
    for i := 0 to |arr|
      invariant Covered(arr, i, i, maxSum) && Attained(arr, 0, |arr|, maxSum) && FitSoFar(arr, i, i)
    {
      var thisSum := 0;
      for j := i to |arr|
        invariant Covered(arr, i, j, maxSum) && Attained(arr, 0, |arr|, maxSum) && FitSoFar(arr, i, j)
        invariant thisSum == Sum(arr, i, j)
      {
        thisSum := thisSum + arr[j];
        assert thisSum == Sum(arr, i, j + 1);
        if !FitsInt(thisSum) {
          return false, 0;
        }
        if thisSum > maxSum {
          maxSum := thisSum;
        }
      }
    }
    CoverEnd(arr, maxSum);
    fits := true;
  }

  // ----- Divide and conquer

  function Max3(a: int, b: int, c: int): (r: int)
    ensures r >= a && r >= b && r >= c && (r == a || r == b || r == c)
  {
    var max := if a > b then a else b;
    if max > c then max else c
  }

  /** m is the largest sum of a stretch that ends at `mid`, inside [lo, mid). */
  ghost predicate IsLeftBorder(s: seq<int>, lo: nat, mid: nat, m: int)
    requires lo <= mid <= |s|
  {
    (forall i :: lo <= i <= mid ==> Sum(s, i, mid) <= m) && exists i :: lo <= i <= mid && Sum(s, i, mid) == m
  }

  /** m is the largest sum of a stretch that starts at `mid`, inside [mid, hi). */
  ghost predicate IsRightBorder(s: seq<int>, mid: nat, hi: nat, m: int)
    requires mid <= hi <= |s|
  {
    (forall j :: mid <= j <= hi ==> Sum(s, mid, j) <= m) && exists j :: mid <= j <= hi && Sum(s, mid, j) == m
  }

  /** The sums of the stretches that start from `lo` on and end at `mid` fit. */
  ghost predicate LeftFits(s: seq<int>, lo: nat, mid: nat)
    requires lo <= mid <= |s|
  {
    forall i :: lo <= i <= mid ==> FitsInt(Sum(s, i, mid))
  }

  method LeftBorder(arr: seq<int>, lo: nat, mid: nat) returns (fits: bool, m: int)
    requires lo <= mid <= |arr|
    ensures fits <==> LeftFits(arr, lo, mid)
    ensures fits ==> IsLeftBorder(arr, lo, mid, m)
  {
    m := 0;
    var sum := 0;
    var i := mid;
    assert Sum(arr, mid, mid) == 0;
    while i > lo
      invariant lo <= i <= mid && sum == Sum(arr, i, mid)
      invariant LeftFits(arr, i, mid) && IsLeftBorder(arr, i, mid, m)
    {
      SumSplit(arr, i - 1, i, mid);
      i := i - 1;
      sum := sum + arr[i];
      if !FitsInt(sum) {
        return false, 0;
      }
      if sum > m {
        m := sum;
      }
    }
    fits := true;
  }

  method RightBorder(arr: seq<int>, mid: nat, hi: nat) returns (fits: bool, m: int)
    requires mid <= hi <= |arr|
    ensures fits <==> RightFits(arr, mid, hi)
    ensures fits ==> IsRightBorder(arr, mid, hi, m)
  {
    m := 0;
    var sum := 0;
    assert Sum(arr, mid, mid) == 0;
    for i := mid to hi
      invariant sum == Sum(arr, mid, i)
      invariant RightFits(arr, mid, i) && IsRightBorder(arr, mid, i, m)
    {
      sum := sum + arr[i];
      assert sum == Sum(arr, mid, i + 1);
      if !FitsInt(sum) {
        return false, 0;
      }
      if sum > m {
        m := sum;
      }
    }
    fits := true;
  }

  /** A stretch lies in the left half, in the right half, or is a left border followed by a right border. */
  lemma Combine(s: seq<int>, lo: nat, mid: nat, hi: nat, l: int, r: int, lb: int, rb: int)
    requires lo <= mid <= hi <= |s| && IsMax(s, lo, mid, l) && IsMax(s, mid, hi, r)
    requires IsLeftBorder(s, lo, mid, lb) && IsRightBorder(s, mid, hi, rb)
    ensures IsMax(s, lo, hi, Max3(l, r, lb + rb))
  {
    var m := Max3(l, r, lb + rb);
    forall i, j | lo <= i <= j <= hi
      ensures Sum(s, i, j) <= m
    {
      if i <= mid <= j {
        SumSplit(s, i, mid, j);
      }
    }
    var i :| lo <= i <= mid && Sum(s, i, mid) == lb;
    var j :| mid <= j <= hi && Sum(s, mid, j) == rb;
    SumSplit(s, i, mid, j);
    assert Sum(s, i, j) == lb + rb;
  }

  lemma SumEmpty(s: seq<int>, i: nat)
    requires i <= |s|
    ensures Sum(s, i, i) == 0
  {
  }

  lemma SingleElement(s: seq<int>, i: nat)
    requires i < |s|
    ensures IsMax(s, i, i + 1, if s[i] > 0 then s[i] else 0)
  {
    SumEmpty(s, i);
    SumEmpty(s, i + 1);
    assert Sum(s, i, i + 1) == s[i];
  }

  /** The sums of the stretches across `mid` are below the end of the ints. */
  ghost predicate AcrossFits(s: seq<int>, lo: nat, mid: nat, hi: nat)
    requires lo <= mid <= hi <= |s|
  {
    forall i, j :: lo <= i <= mid <= j <= hi ==> Sum(s, i, j) < INT_END
  }

  lemma AcrossIff(s: seq<int>, lo: nat, mid: nat, hi: nat, lb: int, rb: int)
    requires lo <= mid <= hi <= |s| && IsLeftBorder(s, lo, mid, lb) && IsRightBorder(s, mid, hi, rb)
    ensures AcrossFits(s, lo, mid, hi) <==> lb + rb < INT_END
  {
    var i :| lo <= i <= mid && Sum(s, i, mid) == lb;
    var j :| mid <= j <= hi && Sum(s, mid, j) == rb;
    SumSplit(s, i, mid, j);
    forall p, q | lo <= p <= mid <= q <= hi
      ensures Sum(s, p, q) <= Sum(s, i, j)
    {
      SumSplit(s, p, mid, q);
    }
  }

  /** What MaxSubSum computes on the closed range left..right fits ints: the sum of its indices, its borders, the
      largest sum across its centre, and all of that in its halves. */
  ghost predicate DivideFits(s: seq<int>, left: nat, right: nat)
    requires left <= right < |s|
    decreases right - left
  {
    left == right ||
    var mid := (left + right) / 2 + 1;
    && left + right < INT_END
    && DivideFits(s, left, mid - 1) && DivideFits(s, mid, right)
    && LeftFits(s, left, mid) && RightFits(s, mid, right + 1) && AcrossFits(s, left, mid, right + 1)
  }

  /** If all sums fit and the array has no more than 2^30 elements, nothing overflows. */
  lemma {:induction false} AllFitDivides(s: seq<int>, left: nat, right: nat)
    requires left <= right < |s| <= INT_END / 2 && AllFit(s)
    ensures DivideFits(s, left, right)
    decreases right - left
  {
    if left < right {
      AllFitDivides(s, left, (left + right) / 2);
      AllFitDivides(s, (left + right) / 2 + 1, right);
    }
  }

  /** The two loops of MaxSubSum and the addition behind them. */
  method Borders(arr: seq<int>, lo: nat, mid: nat, hi: nat) returns (fits: bool, left: int, right: int)
    requires lo <= mid <= hi <= |arr|
    ensures fits <==> LeftFits(arr, lo, mid) && RightFits(arr, mid, hi) && AcrossFits(arr, lo, mid, hi)
    ensures fits ==> IsLeftBorder(arr, lo, mid, left) && IsRightBorder(arr, mid, hi, right)
  {
    right := 0;
    fits, left := LeftBorder(arr, lo, mid);
    if fits {
      fits, right := RightBorder(arr, mid, hi);
    }
    if fits {
      AcrossIff(arr, lo, mid, hi, left, right);
      fits := left + right < INT_END;
    }
  }

  /** MaxSubSum of MaxSubsequenceSum03.c, on the closed range left..right. */
  method MaxSubSum(arr: seq<int>, left: nat, right: nat) returns (fits: bool, m: int)
    requires left <= right < |arr|
    ensures fits <==> DivideFits(arr, left, right)
    ensures fits ==> IsMax(arr, left, right + 1, m)
    decreases right - left
  {
    m := 0;
    if left == right {
      SingleElement(arr, left);
      return true, if arr[left] > 0 then arr[left] else 0;
    }
    if left + right >= INT_END {
      return false, 0;
    }
    var center := (left + right) / 2;
    var maxLeftSum, maxRightSum, maxLeftBorderSum, maxRightBorderSum;
    fits, maxLeftSum := MaxSubSum(arr, left, center);
    if fits {
      fits, maxRightSum := MaxSubSum(arr, center + 1, right);
    }
    if fits {
      fits, maxLeftBorderSum, maxRightBorderSum := Borders(arr, left, center + 1, right + 1);
    }
    if fits {
      Combine(arr, left, center + 1, right + 1, maxLeftSum, maxRightSum, maxLeftBorderSum, maxRightBorderSum);
      m := Max3(maxLeftSum, maxRightSum, maxLeftBorderSum + maxRightBorderSum);
    }
  }

  /** MaxSubsequenceSum03.c.  On an empty array its recursion has no base case. */
  method DivideAndConquer(arr: seq<int>) returns (fits: bool, m: int)
    requires |arr| > 0
    ensures fits <==> DivideFits(arr, 0, |arr| - 1)
    ensures AllFit(arr) && |arr| <= 0x4000_0000 ==> fits
    ensures fits ==> IsMax(arr, 0, |arr|, m)
  {
    fits, m := MaxSubSum(arr, 0, |arr| - 1);
    if AllFit(arr) && |arr| <= 0x4000_0000 {
      AllFitDivides(arr, 0, |arr| - 1);
    }
  }

  /** On every non-empty array the programs that do not overflow return the same sum, and none of them overflows
      if all sums fit an int and there are no more than 2^30 elements. */
  method AllThree(arr: seq<int>) returns (fits: (bool, bool, bool), sums: (int, int, int))
    requires |arr| > 0
    ensures AllFit(arr) && |arr| <= 0x4000_0000 ==> fits == (true, true, true)
    ensures fits.0 && fits.1 ==> sums.0 == sums.1
    ensures fits.1 && fits.2 ==> sums.1 == sums.2
    ensures fits.0 && fits.2 ==> sums.0 == sums.2
  {
    var fits0, cubic := Cubic(arr);
    var fits1, quadratic := Quadratic(arr);
    var fits2, halving := DivideAndConquer(arr);
    fits, sums := (fits0, fits1, fits2), (cubic, quadratic, halving);
  }
}
