/** lcs/lcs.cpp: lis, the length of a longest strictly increasing subsequence. */
module Lis {

  /** Positions, increasing, at which the values increase strictly. */
  ghost predicate Increasing(s: seq<int>, at: seq<int>) {
    && (forall k :: 0 <= k < |at| ==> 0 <= at[k] < |s|)
    && (forall k, l :: 0 <= k < l < |at| ==> at[k] < at[l] && s[at[k]] < s[at[l]])
  }

  /** Some increasing subsequence has length n, and none is longer. */
  ghost predicate IsLongest(n: nat, s: seq<int>) {
    (exists at: seq<int> :: Increasing(s, at) && |at| == n) && forall at: seq<int> :: Increasing(s, at) ==> |at| <= n
  }

  /** The longest that ends at i, when only positions before j may precede it. */
  ghost function Ending(s: seq<int>, i: nat, j: nat): (n: nat)
    requires j <= i < |s|
    ensures n >= 1
    decreases i, j
  {
    if j == 0 then 1
    else
      var rest, via := Ending(s, i, j - 1), Ending(s, j - 1, j - 1) + 1;
      if s[j - 1] < s[i] && via > rest then via else rest
  }

  lemma {:induction false} EndingReached(s: seq<int>, i: nat, j: nat) returns (at: seq<int>)
    requires j <= i < |s|
    ensures Increasing(s, at) && |at| == Ending(s, i, j) && at[|at| - 1] == i
    decreases i, j
  {
    if j == 0 {
      at := [i];
    } else if s[j - 1] < s[i] && Ending(s, j - 1, j - 1) + 1 > Ending(s, i, j - 1) {
      var before := EndingReached(s, j - 1, j - 1);
      at := before + [i];
      forall k | 0 <= k < |before|
        ensures before[k] < i && s[before[k]] < s[i]
      {
        assert k < |before| - 1 ==> before[k] < before[|before| - 1] && s[before[k]] < s[before[|before| - 1]];
      }
    } else {
      at := EndingReached(s, i, j - 1);
    }
  }

  lemma {:induction false} EndingMonotonic(s: seq<int>, i: nat, j: nat, k: nat)
    requires k < j <= i < |s| && s[k] < s[i]
    ensures Ending(s, i, j) >= Ending(s, k, k) + 1
    decreases j
  {
    if k < j - 1 {
      EndingMonotonic(s, i, j - 1, k);
    }
  }

  lemma {:induction false} NoneLonger(s: seq<int>, at: seq<int>)
    requires Increasing(s, at) && at != []
    ensures var i := at[|at| - 1]; |at| <= Ending(s, i, i)
    decreases |at|
  {
    var n := |at| - 1;
    if n > 0 {
      NoneLonger(s, at[..n]);
      EndingMonotonic(s, at[n], at[n], at[n - 1]);
    }
  }

  /** The inner loop. */
  method Extend(a: array<int>, d: array<int>, i: nat, ghost s: seq<int>)
    requires a != d && a.Length == d.Length && i < a.Length && s == a[..]
    requires forall k :: 0 <= k < i ==> d[k] == Ending(s, k, k)
    modifies d
    ensures d[i] == Ending(s, i, i) && forall k :: 0 <= k < i ==> d[k] == old(d[k])
  {
    d[i] := 1;
    for j := 0 to i
      invariant d[i] == Ending(s, i, j) && forall k :: 0 <= k < i ==> d[k] == old(d[k])
    {
      assert d[j] == Ending(s, j, j);
      if a[j] < a[i] && d[j] + 1 > d[i] {
        d[i] := d[j] + 1;
      }
    }
  }

  /** lis.  Right for every non-empty array; for the empty one it returns 1 although no such element exists. */
  method Compute(a: array<int>) returns (len: int)
    ensures len >= 0 && (a.Length > 0 <==> IsLongest(len, a[..]))
  {
    ghost var s := a[..];
    var d := new int[a.Length];
    len := 1;
    for i := 0 to a.Length
      invariant a[..] == s && len >= 1
      invariant forall k :: 0 <= k < i ==> d[k] == Ending(s, k, k) <= len
      invariant len == 1 || exists k :: 0 <= k < i && len == Ending(s, k, k)
    {
      Extend(a, d, i, s);
      if d[i] > len {
        len := d[i];
      }
    }
    Conclude(s, len);
  }

  lemma FoundSomewhere(s: seq<int>, at: seq<int>)
    requires Increasing(s, at) && at != []
    ensures s != []
  {
    assert 0 <= at[0] < |s|;
  }

  lemma Conclude(s: seq<int>, len: nat)
    requires forall k :: 0 <= k < |s| ==> Ending(s, k, k) <= len
    requires len == 1 || exists k :: 0 <= k < |s| && len == Ending(s, k, k)
    ensures |s| > 0 <==> IsLongest(len, s)
  {
    if |s| > 0 {
      forall at: seq<int> | Increasing(s, at)
        ensures |at| <= len
      {
        if at != [] {
          NoneLonger(s, at);
        }
      }
      var k :| 0 <= k < |s| && len == Ending(s, k, k);
      var at := EndingReached(s, k, k);
    } else {
      forall at: seq<int> | Increasing(s, at)
        ensures |at| != 1
      {
        if at != [] {
          FoundSomewhere(s, at);
        }
      }
    }
  }
}
