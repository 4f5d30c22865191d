/** sort/Mergesort.c: recursive merging through a temporary array.  The source sorts ints; the model
    sorts items by an int key, so that what happens to items of equal key can be seen. */
module Mergesort {

  datatype Item = Item(key: int, tag: int)

  ghost predicate Sorted(s: seq<Item>) {
    forall i, j :: 0 <= i < j < |s| ==> s[i].key <= s[j].key
  }

  /** The items with one key, in the order in which they stand. */
  ghost function WithKey(s: seq<Item>, key: int): seq<Item> {
    if s == [] then []
    else if s[0].key == key then [s[0]] + WithKey(s[1..], key)
    else WithKey(s[1..], key)
  }

  /** No item overtakes another with the same key. */
  ghost predicate Stable(s: seq<Item>, t: seq<Item>) {
    forall key :: WithKey(s, key) == WithKey(t, key)
  }

  // ----- Merging and sorting on values

  /** Ties take the item from the left. */
  ghost function Merged(l: seq<Item>, r: seq<Item>): (m: seq<Item>)
    ensures |m| == |l| + |r|
    decreases |l| + |r|
  {
    if l == [] then r
    else if r == [] then l
    else if l[0].key <= r[0].key then [l[0]] + Merged(l[1..], r)
    else [r[0]] + Merged(l, r[1..])
  }

  /** t is s in order: sorted, the same items, and none overtaking another with the same key. */
  ghost predicate IsSortOf(t: seq<Item>, s: seq<Item>) {
    Sorted(t) && multiset(t) == multiset(s) && Stable(s, t)
  }

  /** Every key of s is at least k. */
  ghost predicate AtLeast(s: seq<Item>, k: int) {
    forall i :: 0 <= i < |s| ==> k <= s[i].key
  }

  lemma {:induction false} MergedAtLeast(l: seq<Item>, r: seq<Item>, k: int)
    requires AtLeast(l, k) && AtLeast(r, k)
    ensures AtLeast(Merged(l, r), k)
    decreases |l| + |r|
  {
    if l != [] && r != [] {
      if l[0].key <= r[0].key {
        MergedAtLeast(l[1..], r, k);
      } else {
        MergedAtLeast(l, r[1..], k);
      }
    }
  }

  lemma {:induction false} MergedSorted(l: seq<Item>, r: seq<Item>)
    requires Sorted(l) && Sorted(r)
    ensures Sorted(Merged(l, r))
    decreases |l| + |r|
  {
    if l != [] && r != [] {
      if l[0].key <= r[0].key {
        MergedSorted(l[1..], r);
        MergedAtLeast(l[1..], r, l[0].key);
      } else {
        MergedSorted(l, r[1..]);
        MergedAtLeast(l, r[1..], r[0].key);
      }
    }
  }

  lemma HeadMultiset(s: seq<Item>)
    requires s != []
    ensures multiset(s) == multiset{s[0]} + multiset(s[1..])
  {
    assert s == [s[0]] + s[1..];
  }

  lemma {:induction false} MergedMultiset(l: seq<Item>, r: seq<Item>)
    ensures multiset(Merged(l, r)) == multiset(l) + multiset(r)
    decreases |l| + |r|
  {
    if l != [] && r != [] {
      var m := Merged(l, r);
      HeadMultiset(m);
      if l[0].key <= r[0].key {
        assert m[0] == l[0] && m[1..] == Merged(l[1..], r);
        MergedMultiset(l[1..], r);
        HeadMultiset(l);
      } else {
        assert m[0] == r[0] && m[1..] == Merged(l, r[1..]);
        MergedMultiset(l, r[1..]);
        HeadMultiset(r);
      }
    }
  }

  lemma {:induction false} WithKeyConcat(s: seq<Item>, t: seq<Item>, key: int)
    ensures WithKey(s + t, key) == WithKey(s, key) + WithKey(t, key)
    decreases |s|
  {
    if s == [] {
      assert s + t == t;
    } else {
      assert (s + t)[1..] == s[1..] + t;
      WithKeyConcat(s[1..], t, key);
    }
  }

  lemma {:induction false} WithKeyNone(s: seq<Item>, key: int)
    requires forall i :: 0 <= i < |s| ==> s[i].key != key
    ensures WithKey(s, key) == []
  {
    if s != [] {
      WithKeyNone(s[1..], key);
    }
  }

  lemma WithKeyHead(s: seq<Item>, key: int)
    requires s != []
    ensures WithKey(s, key) == (if s[0].key == key then [s[0]] else []) + WithKey(s[1..], key)
  {
  }

  lemma {:induction false} MergedStable(l: seq<Item>, r: seq<Item>, key: int)
    requires Sorted(l) && Sorted(r)
    ensures WithKey(Merged(l, r), key) == WithKey(l, key) + WithKey(r, key)
    decreases |l| + |r|
  {
    if l == [] || r == [] {
      assert WithKey([], key) == [];
    } else {
      var m := Merged(l, r);
      WithKeyHead(m, key);
      if l[0].key <= r[0].key {
        assert m[0] == l[0] && m[1..] == Merged(l[1..], r);
        MergedStable(l[1..], r, key);
        WithKeyHead(l, key);
      } else {
        assert m[0] == r[0] && m[1..] == Merged(l, r[1..]);
        MergedStable(l, r[1..], key);
        WithKeyHead(r, key);
        if r[0].key == key {
          WithKeyNone(l, key);
        }
      }
    }
  }

  /** Merging sorted halves sorts the whole. */
  lemma MergedIsSort(l: seq<Item>, r: seq<Item>, sl: seq<Item>, sr: seq<Item>)
    requires IsSortOf(sl, l) && IsSortOf(sr, r)
    ensures IsSortOf(Merged(sl, sr), l + r)
  {
    MergedSorted(sl, sr);
    MergedMultiset(sl, sr);
    forall key
      ensures WithKey(l + r, key) == WithKey(Merged(sl, sr), key)
    {
      MergedStable(sl, sr, key);
      WithKeyConcat(l, r, key);
    }
  }

  // ----- The code

  /** Moving the smaller head over, with ties and exhausted sides as the code treats them. */
  lemma TakeLeft(put: seq<Item>, l: seq<Item>, r: seq<Item>)
    requires l != [] && (r == [] || l[0].key <= r[0].key)
    ensures put + Merged(l, r) == (put + [l[0]]) + Merged(l[1..], r)
  {
    if r == [] {
      assert Merged(l[1..], r) == l[1..];
    }
  }

  lemma TakeRight(put: seq<Item>, l: seq<Item>, r: seq<Item>)
    requires r != [] && (l == [] || l[0].key > r[0].key)
    ensures put + Merged(l, r) == (put + [r[0]]) + Merged(l, r[1..])
  {
  }

  method Put(tmp: array<Item>, ghost lpos: nat, pos: nat, x: Item)
    requires lpos <= pos < tmp.Length
    modifies tmp
    ensures tmp[lpos..pos + 1] == old(tmp[lpos..pos]) + [x]
  {
    tmp[pos] := x;
  }

  /** What is in tmp and what is still to be merged make up the merged range. */
  ghost predicate Merging(put: seq<Item>, l: seq<Item>, r: seq<Item>, goal: seq<Item>) {
    put + Merged(l, r) == goal
  }

  /** The state of Merge's loops: s is the array being merged, [lpos, pos) of tmp is filled. */
  ghost predicate State(s: seq<Item>, put: seq<Item>, l: nat, rpos: nat, r: nat, end: nat, goal: seq<Item>)
    requires l <= rpos <= r <= end <= |s|
  {
    Merging(put, s[l..rpos], s[r..end], goal)
  }

  lemma StateLeft(s: seq<Item>, put: seq<Item>, l: nat, rpos: nat, r: nat, end: nat, goal: seq<Item>)
    requires l < rpos <= r <= end <= |s| && State(s, put, l, rpos, r, end, goal)
    requires r == end || s[l].key <= s[r].key
    ensures State(s, put + [s[l]], l + 1, rpos, r, end, goal)
  {
    TakeLeft(put, s[l..rpos], s[r..end]);
    assert s[l..rpos][1..] == s[l + 1..rpos];
  }

  lemma StateRight(s: seq<Item>, put: seq<Item>, l: nat, rpos: nat, r: nat, end: nat, goal: seq<Item>)
    requires l <= rpos <= r < end <= |s| && State(s, put, l, rpos, r, end, goal)
    requires l == rpos || s[l].key > s[r].key
    ensures State(s, put + [s[r]], l, rpos, r + 1, end, goal)
  {
    TakeRight(put, s[l..rpos], s[r..end]);
    assert s[r..end][1..] == s[r + 1..end];
  }

  lemma StateStart(s: seq<Item>, lpos: nat, rpos: nat, end: nat)
    requires lpos <= rpos <= end <= |s|
    ensures State(s, [], lpos, rpos, rpos, end, Merged(s[lpos..rpos], s[rpos..end]))
  {
  }

  lemma StateDone(s: seq<Item>, put: seq<Item>, rpos: nat, end: nat, goal: seq<Item>)
    requires rpos <= end <= |s| && State(s, put, rpos, rpos, end, end, goal)
    ensures put == goal
  {
  }

  method PutLeft(a: array<Item>, tmp: array<Item>, ghost lpos: nat, pos: nat, l: nat,
                 ghost rpos: nat, ghost r: nat, ghost end: nat, ghost goal: seq<Item>, ghost s: seq<Item>)
    requires a != tmp && a[..] == s && lpos <= pos < tmp.Length && l < rpos <= r <= end <= a.Length
    requires r == end || a[l].key <= a[r].key
    requires State(s, tmp[lpos..pos], l, rpos, r, end, goal)
    modifies tmp
    ensures State(s, tmp[lpos..pos + 1], l + 1, rpos, r, end, goal)
  {
    StateLeft(s, tmp[lpos..pos], l, rpos, r, end, goal);
    Put(tmp, lpos, pos, a[l]);
  }

  method PutRight(a: array<Item>, tmp: array<Item>, ghost lpos: nat, pos: nat, ghost l: nat,
                  ghost rpos: nat, r: nat, ghost end: nat, ghost goal: seq<Item>, ghost s: seq<Item>)
    requires a != tmp && a[..] == s && lpos <= pos < tmp.Length && l <= rpos <= r < end <= a.Length
    requires l == rpos || a[l].key > a[r].key
    requires State(s, tmp[lpos..pos], l, rpos, r, end, goal)
    modifies tmp
    ensures State(s, tmp[lpos..pos + 1], l, rpos, r + 1, end, goal)
  {
    StateRight(s, tmp[lpos..pos], l, rpos, r, end, goal);
    Put(tmp, lpos, pos, a[r]);
  }

  /** The body of the first loop of Merge. */
  method PutSmaller(a: array<Item>, tmp: array<Item>, ghost lpos: nat, pos: nat, l: nat,
                    ghost rpos: nat, r: nat, ghost end: nat, ghost goal: seq<Item>, ghost s: seq<Item>)
    returns (l': nat, r': nat)
    requires a != tmp && a[..] == s && lpos <= pos < tmp.Length && l < rpos <= r < end <= a.Length
    requires State(s, tmp[lpos..pos], l, rpos, r, end, goal)
    modifies tmp
    ensures (l' == l + 1 && r' == r) || (l' == l && r' == r + 1)
    ensures State(s, tmp[lpos..pos + 1], l', rpos, r', end, goal)
  {
    if a[l].key <= a[r].key {
      PutLeft(a, tmp, lpos, pos, l, rpos, r, end, goal, s);
      return l + 1, r;
    } else {
      PutRight(a, tmp, lpos, pos, l, rpos, r, end, goal, s);
      return l, r + 1;
    }
  }

  /** The first loop of Merge: while both sides have items. */
  method MergeBoth(a: array<Item>, tmp: array<Item>, lpos: nat, rpos: nat, rightEnd: nat,
                   ghost goal: seq<Item>, ghost s: seq<Item>)
    returns (l: nat, r: nat)
    requires a != tmp && a[..] == s && tmp.Length == a.Length && lpos <= rpos <= rightEnd + 1 <= a.Length
    requires State(s, tmp[lpos..lpos], lpos, rpos, rpos, rightEnd + 1, goal)
    modifies tmp
    ensures lpos <= l <= rpos <= r <= rightEnd + 1 && (l == rpos || r == rightEnd + 1)
    ensures State(s, tmp[lpos..l + r - rpos], l, rpos, r, rightEnd + 1, goal)
  {
    l, r := lpos, rpos;
    var pos := lpos;
    while l < rpos && r <= rightEnd
      invariant lpos <= l <= rpos <= r <= rightEnd + 1 && pos == l + r - rpos && a[..] == s
      invariant State(s, tmp[lpos..pos], l, rpos, r, rightEnd + 1, goal)
      decreases rpos + rightEnd - l - r
    {
      l, r := PutSmaller(a, tmp, lpos, pos, l, rpos, r, rightEnd + 1, goal, s);
      pos := pos + 1;
    }
  }

  /** The second loop of Merge: what is left on the left, if the right side has run out. */
  method RestLeft(a: array<Item>, tmp: array<Item>, lpos: nat, l0: nat, rpos: nat, r: nat,
                  ghost end: nat, ghost goal: seq<Item>, ghost s: seq<Item>)
    requires a != tmp && a[..] == s && tmp.Length == a.Length && lpos <= l0 <= rpos <= r <= end <= a.Length
    requires l0 == rpos || r == end
    requires State(s, tmp[lpos..l0 + r - rpos], l0, rpos, r, end, goal)
    modifies tmp
    ensures State(s, tmp[lpos..r], rpos, rpos, r, end, goal)
  {
    var l, pos := l0, l0 + r - rpos;
    while l < rpos
      invariant l0 <= l <= rpos && pos == l + r - rpos && a[..] == s
      invariant State(s, tmp[lpos..pos], l, rpos, r, end, goal)
    {
      PutLeft(a, tmp, lpos, pos, l, rpos, r, end, goal, s);
      l, pos := l + 1, pos + 1;
    }
  }

  /** The third loop of Merge: what is left on the right. */
  method RestRight(a: array<Item>, tmp: array<Item>, lpos: nat, rpos: nat, r0: nat, end: nat,
                   ghost goal: seq<Item>, ghost s: seq<Item>)
    requires a != tmp && a[..] == s && tmp.Length == a.Length && lpos <= rpos <= r0 <= end <= a.Length
    requires State(s, tmp[lpos..r0], rpos, rpos, r0, end, goal)
    modifies tmp
    ensures tmp[lpos..end] == goal
  {
    var r := r0;
    while r < end
      invariant r0 <= r <= end && a[..] == s
      invariant State(s, tmp[lpos..r], rpos, rpos, r, end, goal)
    {
      PutRight(a, tmp, lpos, r, rpos, rpos, r, end, goal, s);
      r := r + 1;
    }
    StateDone(s, tmp[lpos..r], rpos, end, goal);
  }

  /** The range [lo, hi) has become the merge of its two parts, and nothing else has changed. */
  ghost predicate MergesRange(before: seq<Item>, after: seq<Item>, lo: nat, mid: nat, hi: nat) {
    && |before| == |after| && lo <= mid <= hi <= |after|
    && after[lo..hi] == Merged(before[lo..mid], before[mid..hi])
    && after[..lo] == before[..lo] && after[hi..] == before[hi..]
  }

  /** The range [lo, hi) has been sorted, and nothing else has changed. */
  ghost predicate SortsRange(before: seq<Item>, after: seq<Item>, lo: nat, hi: nat) {
    && |before| == |after| && lo <= hi <= |after|
    && IsSortOf(after[lo..hi], before[lo..hi])
    && after[..lo] == before[..lo] && after[hi..] == before[hi..]
  }

  /** Merge: the copying loop runs from the right. */
  method Merge(a: array<Item>, tmp: array<Item>, lpos: nat, rpos: nat, rightEnd: nat)
    requires a != tmp && tmp.Length == a.Length && lpos <= rpos <= rightEnd + 1 <= a.Length
    modifies a, tmp
    ensures MergesRange(old(a[..]), a[..], lpos, rpos, rightEnd + 1)
  {
    ghost var goal := Merged(a[..][lpos..rpos], a[..][rpos..rightEnd + 1]);
    StateStart(a[..], lpos, rpos, rightEnd + 1);
    assert tmp[lpos..lpos] == [];
    var l, r := MergeBoth(a, tmp, lpos, rpos, rightEnd, goal, a[..]);
    RestLeft(a, tmp, lpos, l, rpos, r, rightEnd + 1, goal, a[..]);
    RestRight(a, tmp, lpos, rpos, r, rightEnd + 1, goal, a[..]);
    CopyBack(a, tmp, lpos, rightEnd);
  }

  /** The last loop of Merge: copies the range back, from the right. */
  method CopyBack(a: array<Item>, tmp: array<Item>, lpos: nat, rightEnd: nat)
    requires a != tmp && tmp.Length == a.Length && lpos <= rightEnd + 1 <= a.Length
    modifies a
    ensures a[..][lpos..rightEnd + 1] == tmp[lpos..rightEnd + 1]
    ensures a[..][..lpos] == old(a[..])[..lpos] && a[..][rightEnd + 1..] == old(a[..])[rightEnd + 1..]
  {
    var numElements, end := rightEnd + 1 - lpos, rightEnd + 1;
    for i := 0 to numElements
      invariant end == rightEnd + 1 - i
      invariant a[end..rightEnd + 1] == tmp[end..rightEnd + 1]
      invariant a[..lpos] == old(a[..lpos]) && a[rightEnd + 1..] == old(a[rightEnd + 1..])
    {
      end := end - 1;
      a[end] := tmp[end];
    }
  }

  /** MSort on the closed range left..right; right is one less than left when the range is empty. */
  method MSort(a: array<Item>, tmp: array<Item>, left: nat, right: int)
    requires a != tmp && tmp.Length == a.Length && left <= right + 1 <= a.Length
    modifies a, tmp
    ensures SortsRange(old(a[..]), a[..], left, right + 1)
    decreases right - left
  {
    if left < right {
      var center := (left + right) / 2;
      ghost var s0 := a[..];
      MSort(a, tmp, left, center);
      ghost var s1 := a[..];
      MSort(a, tmp, center + 1, right);
      ghost var s2 := a[..];
      Merge(a, tmp, left, center + 1, right);
      SortStep(s0, s1, s2, a[..], left, center + 1, right + 1);
    } else {
      assert |a[..][left..right + 1]| <= 1;
    }
  }

  /** The left half sorted, then the right half: merging them sorts the range, and nothing else has changed. */
  lemma SortStep(s0: seq<Item>, s1: seq<Item>, s2: seq<Item>, s3: seq<Item>, lo: nat, mid: nat, hi: nat)
    requires SortsRange(s0, s1, lo, mid) && SortsRange(s1, s2, mid, hi) && MergesRange(s2, s3, lo, mid, hi)
    ensures SortsRange(s0, s3, lo, hi)
  {
    Halves(s0, s1, s2, lo, mid, hi);
    Join(s0, lo, mid, hi);
    MergedIsSort(s0[lo..mid], s0[mid..hi], s2[lo..mid], s2[mid..hi]);
  }

  lemma Join(s: seq<Item>, lo: nat, mid: nat, hi: nat)
    requires lo <= mid <= hi <= |s|
    ensures s[lo..mid] + s[mid..hi] == s[lo..hi]
  {
  }

  /** Sorting the left half and then the right half leaves both sorted and the rest alone. */
  lemma Halves(s0: seq<Item>, s1: seq<Item>, s2: seq<Item>, lo: nat, mid: nat, hi: nat)
    requires |s0| == |s1| == |s2| && lo <= mid <= hi <= |s0|
    requires s1[..lo] == s0[..lo] && s1[mid..] == s0[mid..]
    requires s2[..mid] == s1[..mid] && s2[hi..] == s1[hi..]
    ensures s2[..lo] == s0[..lo] && s2[hi..] == s0[hi..]
    ensures s1[mid..hi] == s0[mid..hi] && s2[lo..mid] == s1[lo..mid]
  {
    assert s1[mid..hi] == s1[mid..][..hi - mid] == s0[mid..][..hi - mid];
    assert s2[lo..mid] == s2[..mid][lo..] == s1[..mid][lo..];
    assert s2[..lo] == s2[..mid][..lo] == s1[..mid][..lo] == s1[..lo];
    assert s1[hi..] == s1[mid..][hi - mid..] == s0[mid..][hi - mid..];
  }

  /** Mergesort: sorted, a permutation, and stable. */
  method Sort(a: array<Item>)
    modifies a
    ensures Sorted(a[..]) && multiset(a[..]) == multiset(old(a[..])) && Stable(old(a[..]), a[..])
  {
    var tmp := new Item[a.Length](i => Item(0, 0));
    MSort(a, tmp, 0, a.Length - 1);
    assert a[..][0..a.Length] == a[..] && old(a[..])[0..a.Length] == old(a[..]);
  }
}
