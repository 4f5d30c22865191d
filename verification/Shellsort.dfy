/** sort/Shellsort.c: insertion passes over shrinking gaps.  The point of the algorithm, that a
    pass destroys none of the order earlier passes made, is proved by counting. */
module Shellsort {

  /** Elements a gap apart are in order. */
  ghost predicate GapSorted(s: seq<int>, gap: nat) {
    forall i, j :: 0 <= i <= j < |s| && j - i == gap ==> s[i] <= s[j]
  }

  /** Only the elements before `end` are looked at. */
  ghost predicate GapSortedTo(s: seq<int>, gap: nat, end: nat)
    requires end <= |s|
  {
    forall i, j :: 0 <= i <= j < end && j - i == gap ==> s[i] <= s[j]
  }

  ghost predicate Sorted(s: seq<int>) {
    forall i, j :: 0 <= i < j < |s| ==> s[i] <= s[j]
  }

  /** How many of the elements at j, j + gap, j + 2 * gap, ... are at most v. */
  ghost function Count(s: seq<int>, gap: nat, j: nat, v: int): nat
    requires gap > 0
    decreases |s| - j
  {
    if j >= |s| then 0 else (if s[j] <= v then 1 else 0) + Count(s, gap, j + gap, v)
  }

  /** Each of the chains of elements a gap apart holds the same values in s and in t. */
  ghost predicate SameChains(s: seq<int>, t: seq<int>, gap: nat)
    requires gap > 0
  {
    |s| == |t| && forall r, v :: 0 <= r < gap ==> Count(s, gap, r, v) == Count(t, gap, r, v)
  }

  // ----- Counting in ordered chains

  lemma {:induction false} AtLeast(t: seq<int>, gap: nat, j: nat, n: nat, v: int)
    requires gap > 0 && GapSorted(t, gap) && j + n * gap < |t| && t[j + n * gap] <= v
    ensures t[j] <= v && Count(t, gap, j, v) >= n + 1
    decreases n
  {
    if n > 0 {
      assert j + gap + (n - 1) * gap == j + n * gap;
      AtLeast(t, gap, j + gap, n - 1, v);
    }
  }

  lemma {:induction false} NoneFrom(t: seq<int>, gap: nat, j: nat, v: int)
    requires gap > 0 && GapSorted(t, gap) && j < |t| && t[j] > v
    ensures Count(t, gap, j, v) == 0
    decreases |t| - j
  {
    if j + gap < |t| {
      NoneFrom(t, gap, j + gap, v);
    }
  }

  lemma {:induction false} AtMost(t: seq<int>, gap: nat, j: nat, n: nat, v: int)
    requires gap > 0 && GapSorted(t, gap) && j + n * gap < |t| && t[j + n * gap] > v
    ensures Count(t, gap, j, v) <= n
    decreases n
  {
    if n == 0 {
      NoneFrom(t, gap, j, v);
    } else {
      assert j + gap + (n - 1) * gap == j + n * gap;
      AtMost(t, gap, j + gap, n - 1, v);
    }
  }

  lemma {:induction false} Skip(s: seq<int>, gap: nat, j: nat, m: nat, v: int)
    requires gap > 0
    ensures Count(s, gap, j, v) <= m + Count(s, gap, j + m * gap, v)
    decreases m
  {
    if m > 0 {
      assert j + gap + (m - 1) * gap == j + m * gap;
      Skip(s, gap, j + gap, m - 1, v);
      Beyond(s, gap, j, v);
    }
  }

  lemma Beyond(s: seq<int>, gap: nat, j: nat, v: int)
    requires gap > 0
    ensures Count(s, gap, j, v) <= 1 + Count(s, gap, j + gap, v)
  {
  }

  /** In an h-sorted sequence a chain that starts h earlier has at least as many small elements. */
  lemma {:induction false} Earlier(s: seq<int>, gap: nat, h: nat, j: nat, v: int)
    requires gap > 0 && GapSorted(s, h) && j >= h
    ensures Count(s, gap, j, v) <= Count(s, gap, j - h, v)
    decreases |s| - j
  {
    if j < |s| {
      Earlier(s, gap, h, j + gap, v);
    }
  }

  /** A pass with one gap keeps every order by another gap: rearranging the gap-chains of an h-sorted
      sequence into sorted chains leaves it h-sorted. */
  lemma PassKeepsOrder(s: seq<int>, t: seq<int>, gap: nat, h: nat)
    requires gap > 0 && GapSorted(s, h) && GapSorted(t, gap) && SameChains(s, t, gap)
    ensures GapSorted(t, h)
  {
    forall i, j | 0 <= i <= j < |t| && j - i == h
      ensures t[i] <= t[j]
    {
      PassKeepsPair(s, t, gap, h, i);
    }
  }

  lemma PassKeepsPair(s: seq<int>, t: seq<int>, gap: nat, h: nat, i: nat)
    requires gap > 0 && GapSorted(s, h) && GapSorted(t, gap) && SameChains(s, t, gap)
    requires i + h < |t|
    ensures t[i] <= t[i + h]
  {
    DivMod(i, gap);
    DivMod(i + h, gap);
    DivMonotonic(i, i + h, gap);
    Distribute(i / gap, (i + h) / gap, gap);
    PassKeepsAligned(s, t, gap, h, i, i % gap, i / gap, (i + h) % gap, (i + h) / gap);
  }

  /** The pair as the elements number a and b of the chains that start at r and u. */
  lemma PassKeepsAligned(s: seq<int>, t: seq<int>, gap: nat, h: nat, i: nat, r: nat, a: nat, u: nat, b: nat)
    requires gap > 0 && GapSorted(s, h) && GapSorted(t, gap) && SameChains(s, t, gap)
    requires r < gap && u < gap && a <= b && i + h < |t|
    requires i == r + a * gap && i + h == u + b * gap && r + h == u + (b - a) * gap
    ensures t[i] <= t[i + h]
  {
    var v := t[i + h];
    AtLeast(t, gap, u, b, v);
    Skip(s, gap, u, b - a, v);
    Earlier(s, gap, h, r + h, v);
    if t[i] > v {
      AtMost(t, gap, r, a, v);
    }
  }

  lemma DivMod(n: nat, d: nat)
    requires d > 0
    ensures n == n % d + (n / d) * d && 0 <= n % d < d && n / d >= 0
  {
  }

  lemma DivMonotonic(m: nat, n: nat, d: nat)
    requires d > 0 && m <= n
    ensures m / d <= n / d
  {
    DivMod(m, d);
    DivMod(n, d);
    if n / d < m / d {
      Distribute(n / d, m / d, d);
      AtLeastOnce(m / d - n / d, d);
    }
  }

  lemma Distribute(a: int, b: int, d: int)
    ensures (b - a) * d == b * d - a * d
  {
  }

  lemma AtLeastOnce(n: nat, d: nat)
    requires n > 0
    ensures n * d >= d
  {
  }

  // ----- Exchanging two neighbours of a chain

  function Exchanged(s: seq<int>, x: nat, y: nat): (r: seq<int>)
    requires x < |s| && y < |s|
    ensures |r| == |s|
  {
    s[x := s[y]][y := s[x]]
  }

  lemma {:induction false} CountFromAgrees(s: seq<int>, t: seq<int>, gap: nat, j: nat, v: int)
    requires gap > 0 && |s| == |t| && forall i :: j <= i < |s| ==> s[i] == t[i]
    ensures Count(s, gap, j, v) == Count(t, gap, j, v)
    decreases |s| - j
  {
    if j < |s| {
      CountFromAgrees(s, t, gap, j + gap, v);
    }
  }

  lemma {:induction false} ExchangeKeepsCount(s: seq<int>, gap: nat, x: nat, r: nat, v: int)
    requires gap > 0 && x + gap < |s| && r < x + gap
    ensures Count(Exchanged(s, x, x + gap), gap, r, v) == Count(s, gap, r, v)
    decreases |s| - r
  {
    var t := Exchanged(s, x, x + gap);
    if r < x {
      ExchangeKeepsCount(s, gap, x, r + gap, v);
    } else if r == x {
      CountFromAgrees(s, t, gap, x + gap + gap, v);
    } else {
      CountFromAgrees(s, t, gap, r + gap, v);
    }
  }

  /** An exchange of neighbours in a chain is one of the rearrangements a pass may make. */
  lemma ExchangeIsRearrangement(s: seq<int>, gap: nat, x: nat)
    requires gap > 0 && x + gap < |s|
    ensures Rearranged(s, Exchanged(s, x, x + gap), gap)
  {
    forall r, v | 0 <= r < gap
      ensures Count(s, gap, r, v) == Count(Exchanged(s, x, x + gap), gap, r, v)
    {
      ExchangeKeepsCount(s, gap, x, r, v);
    }
  }

  // ----- The code

  /** The values are those of s, chain by chain. */
  ghost predicate Rearranged(s: seq<int>, t: seq<int>, gap: nat)
    requires gap > 0
  {
    SameChains(s, t, gap) && multiset(s) == multiset(t)
  }

  /** The chain up to i is in order, except that the value at j is still to be found a place further down. */
  ghost predicate Sinking(s: seq<int>, gap: nat, i: nat, j: nat)
    requires j <= i < |s|
  {
    && (forall p, q :: 0 <= p <= q <= i && q - p == gap && q != j ==> s[p] <= s[q])
    && (0 <= j - gap && j + gap <= i ==> s[j - gap] <= s[j + gap])
  }

  /** The value at j exchanged with its predecessors in the chain until none is larger. */
  ghost function Sink(s: seq<int>, gap: nat, j: nat): (r: seq<int>)
    requires gap > 0 && j < |s|
    ensures |r| == |s|
    decreases j
  {
    if j >= gap && s[j] < s[j - gap] then Sink(Exchanged(s, j - gap, j), gap, j - gap) else s
  }

  lemma {:induction false} SinkSorts(s: seq<int>, gap: nat, i: nat, j: nat)
    requires gap > 0 && j <= i < |s| && Sinking(s, gap, i, j)
    ensures GapSortedTo(Sink(s, gap, j), gap, i + 1)
    decreases j
  {
    if j >= gap && s[j] < s[j - gap] {
      SinkingStep(s, gap, i, j);
      SinkSorts(Exchanged(s, j - gap, j), gap, i, j - gap);
    }
  }

  lemma SinkingStep(s: seq<int>, gap: nat, i: nat, j: nat)
    requires 0 < gap <= j <= i < |s| && Sinking(s, gap, i, j) && s[j] < s[j - gap]
    ensures Sinking(Exchanged(s, j - gap, j), gap, i, j - gap)
  {
  }

  lemma {:induction false} SinkRearranges(s: seq<int>, gap: nat, j: nat)
    requires gap > 0 && j < |s|
    ensures Rearranged(s, Sink(s, gap, j), gap)
    decreases j
  {
    if j >= gap && s[j] < s[j - gap] {
      var t := Exchanged(s, j - gap, j);
      ExchangeIsRearrangement(s, gap, j - gap);
      SinkRearranges(t, gap, j - gap);
      RearrangedTwice(s, t, Sink(t, gap, j - gap), gap);
    } else {
      NotRearranged(s, gap);
    }
  }

  lemma RearrangedTwice(s: seq<int>, t: seq<int>, u: seq<int>, gap: nat)
    requires gap > 0 && Rearranged(s, t, gap) && Rearranged(t, u, gap)
    ensures Rearranged(s, u, gap)
  {
  }

  lemma NotRearranged(s: seq<int>, gap: nat)
    requires gap > 0
    ensures Rearranged(s, s, gap)
  {
  }

  /** The inner loop: the value at i sinks to its place in its chain; the others move up without exchanges. */
  method Insert(a: array<int>, gap: nat, i: nat)
    requires 0 < gap <= i < a.Length
    modifies a
    ensures a[..] == Sink(old(a[..]), gap, i)
  {
    var tmp := a[i];
    var j := i;
    ghost var s := a[..];
    while j >= gap && tmp < a[j - gap]
      invariant 0 <= j <= i && |s| == a.Length && s[j] == tmp
      invariant forall p :: 0 <= p < |s| && p != j ==> s[p] == a[p]
      invariant Sink(s, gap, j) == Sink(old(a[..]), gap, i)
    {
      s := Exchanged(s, j - gap, j);
      a[j] := a[j - gap];
      j := j - gap;
    }
    a[j] := tmp;
    assert a[..] == s;
  }

  /** One pass of the outer loop. */
  method Pass(a: array<int>, gap: nat)
    requires gap > 0
    modifies a
    ensures GapSorted(a[..], gap)
    ensures forall h: nat :: GapSorted(old(a[..]), h) ==> GapSorted(a[..], h)
    ensures Rearranged(old(a[..]), a[..], gap)
  {
    var i := gap;
    while i < a.Length
      invariant gap <= i && (i <= a.Length ==> GapSortedTo(a[..], gap, i))
      invariant a.Length < i ==> gap == i
      invariant Rearranged(old(a[..]), a[..], gap)
    {
      ghost var s := a[..];
      Insert(a, gap, i);
      SinkSorts(s, gap, i, i);
      SinkRearranges(s, gap, i);
      i := i + 1;
    }
    forall h: nat | GapSorted(old(a[..]), h)
      ensures GapSorted(a[..], h)
    {
      PassKeepsOrder(old(a[..]), a[..], gap, h);
    }
  }

  lemma {:induction false} GapOneIsSorted(s: seq<int>, i: nat, j: nat)
    requires GapSorted(s, 1) && i < j < |s|
    ensures s[i] <= s[j]
  {
    if i + 1 < j {
      GapOneIsSorted(s, i, j - 1);
    }
  }

  /** Shellsort.  At every point of the run the array is in order for every gap used so far. */
  method Sort(a: array<int>)
    modifies a
    ensures Sorted(a[..]) && multiset(a[..]) == multiset(old(a[..]))
  {
    var gap := a.Length / 2;
    ghost var used: set<nat> := {};
    while gap > 0
      invariant 0 <= gap <= a.Length / 2
      invariant multiset(a[..]) == multiset(old(a[..]))
      invariant forall h :: h in used ==> GapSorted(a[..], h)
      invariant gap == 0 && a.Length >= 2 ==> 1 in used
    {
      Pass(a, gap);
      used := used + {gap};
      gap := gap / 2;
    }
    forall i, j | 0 <= i < j < a.Length
      ensures a[..][i] <= a[..][j]
    {
      GapOneIsSorted(a[..], i, j);
    }
  }
}
