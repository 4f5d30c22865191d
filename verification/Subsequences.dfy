/** Subsequences, by the positions at which their elements are found. */
module Subsequences {

  /** The positions increase strictly and hold the elements of a. */
  ghost predicate Embeds<T(!new)>(a: seq<T>, s: seq<T>, at: seq<int>) {
    && |at| == |a|
    && (forall k :: 0 <= k < |at| ==> 0 <= at[k] < |s| && s[at[k]] == a[k])
    && (forall k, l :: 0 <= k < l < |at| ==> at[k] < at[l])
  }

  ghost predicate IsSubsequence<T(!new)>(a: seq<T>, s: seq<T>) {
    exists at: seq<int> :: Embeds(a, s, at)
  }

  lemma EmptyIsSubsequence<T(!new)>(s: seq<T>)
    ensures IsSubsequence([], s)
  {
    assert Embeds([], s, []);
  }

  lemma SubsequenceOfLonger<T(!new)>(a: seq<T>, s: seq<T>, t: seq<T>)
    requires IsSubsequence(a, s)
    ensures IsSubsequence(a, s + t)
  {
    var at: seq<int> :| Embeds(a, s, at);
    assert Embeds(a, s + t, at);
  }

  lemma SubsequenceAppend<T(!new)>(a: seq<T>, s: seq<T>, x: T)
    requires IsSubsequence(a, s)
    ensures IsSubsequence(a + [x], s + [x])
  {
    var at: seq<int> :| Embeds(a, s, at);
    assert Embeds(a + [x], s + [x], at + [|s|]);
  }

  /** The last element of a subsequence of s + [x] is that x, or x is not used. */
  lemma SubsequenceLast<T(!new)>(a: seq<T>, s: seq<T>, x: T)
    requires a != [] && IsSubsequence(a, s + [x])
    ensures IsSubsequence(a[..|a| - 1], s)
    ensures a[|a| - 1] == x || IsSubsequence(a, s)
  {
    var at: seq<int> :| Embeds(a, s + [x], at);
    var n := |a| - 1;
    forall k | 0 <= k < n
      ensures at[k] < |s|
    {
      assert at[k] < at[n];
    }
    assert Embeds(a[..n], s, at[..n]);
    if at[n] < |s| {
      assert Embeds(a, s, at);
    }
  }

  lemma SubsequenceOfSomething<T(!new)>(a: seq<T>, s: seq<T>)
    requires a != [] && IsSubsequence(a, s)
    ensures s != []
  {
    var at: seq<int> :| Embeds(a, s, at);
    assert 0 <= at[0] < |s|;
  }
}
