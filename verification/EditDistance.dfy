/** editDistance/editDistance.c: the table of EditDistance holds the length of a shortest chain of
    single-character edits between two strings. */
module EditDistance {
  import opened CTypes

  // ----- Edits, independently of the algorithm

  /** One edit: a stretch x of at most one character is replaced by a different such stretch y,
      that is, a character is inserted, deleted or substituted somewhere. */
  ghost predicate EditAt(s: string, t: string, u: string, x: string, y: string, w: string) {
    |x| <= 1 && |y| <= 1 && x != y && s == u + x + w && t == u + y + w
  }

  ghost predicate Edit(s: string, t: string) {
    exists u, x, y, w :: EditAt(s, t, u, x, y, w)
  }

  /** t can be reached from s by exactly n edits. */
  ghost predicate Reaches(s: string, t: string, n: nat)
    decreases n
  {
    if n == 0 then s == t else exists m :: Edit(s, m) && Reaches(m, t, n - 1)
  }

  /** d is the least number of edits from s to t. */
  ghost predicate IsDistance(s: string, t: string, d: nat) {
    Reaches(s, t, d) && forall n: nat :: Reaches(s, t, n) ==> d <= n
  }

  lemma EditSymmetric(s: string, t: string)
    requires Edit(s, t)
    ensures Edit(t, s)
  {
    var u, x, y, w :| EditAt(s, t, u, x, y, w);
    assert EditAt(t, s, u, y, x, w);
  }

  lemma EditAppend(s: string, t: string, c: char)
    requires Edit(s, t)
    ensures Edit(s + [c], t + [c])
  {
    var u, x, y, w :| EditAt(s, t, u, x, y, w);
    assert u + x + w + [c] == u + x + (w + [c]) && u + y + w + [c] == u + y + (w + [c]);
    assert EditAt(s + [c], t + [c], u, x, y, w + [c]);
  }

  lemma {:induction false} ReachesAppend(s: string, t: string, n: nat, c: char)
    requires Reaches(s, t, n)
    ensures Reaches(s + [c], t + [c], n)
    decreases n
  {
    if n > 0 {
      var m :| Edit(s, m) && Reaches(m, t, n - 1);
      EditAppend(s, m, c);
      ReachesAppend(m, t, n - 1, c);
    }
  }

  lemma {:induction false} ReachesJoin(a: string, b: string, c: string, m: nat, n: nat)
    requires Reaches(a, b, m) && Reaches(b, c, n)
    ensures Reaches(a, c, m + n)
    decreases m
  {
    if m > 0 {
      var e :| Edit(a, e) && Reaches(e, b, m - 1);
      ReachesJoin(e, b, c, m - 1, n);
    }
  }

  lemma ReachesOne(s: string, t: string)
    requires Edit(s, t)
    ensures Reaches(s, t, 1)
  {
    assert Reaches(t, t, 0);
  }

  lemma {:induction false} ReachesSymmetric(s: string, t: string, n: nat)
    requires Reaches(s, t, n)
    ensures Reaches(t, s, n)
    decreases n
  {
    if n > 0 {
      var m :| Edit(s, m) && Reaches(m, t, n - 1);
      EditSymmetric(s, m);
      ReachesSymmetric(m, t, n - 1);
      ReachesOne(m, s);
      ReachesJoin(t, m, s, n - 1, 1);
    }
  }

  // ----- The recurrence of the table

  function Minimum3(a: int, b: int, c: int): (r: int)
    ensures r <= a && r <= b && r <= c && (r == a || r == b || r == c)
  {
    var minimum := if a < b then a else b;
    if minimum < c then minimum else c
  }

  function Front(s: string): (r: string)
    requires s != ""
    ensures |r| == |s| - 1
  {
    s[..|s| - 1]
  }

  function Last(s: string): char
    requires s != ""
  {
    s[|s| - 1]
  }

  ghost function Lev(s: string, t: string): (d: nat)
    ensures d <= if |s| < |t| then |t| else |s|
    ensures d >= |s| - |t| && d >= |t| - |s|
    decreases |s| + |t|
  {
    if s == "" then |t|
    else if t == "" then |s|
    else if Last(s) == Last(t) then Lev(Front(s), Front(t))
    else Minimum3(Lev(Front(s), t) + 1, Lev(s, Front(t)) + 1, Lev(Front(s), Front(t)) + 1)
  }

  /** Neighbouring cells differ by at most one; so copying the diagonal on a match loses nothing. */
  lemma {:induction false} Neighbours(s: string, t: string)
    ensures s != "" ==> Lev(s, t) <= Lev(Front(s), t) + 1 && Lev(Front(s), t) <= Lev(s, t) + 1
    ensures t != "" ==> Lev(s, t) <= Lev(s, Front(t)) + 1 && Lev(s, Front(t)) <= Lev(s, t) + 1
    ensures s != "" && t != "" ==> Lev(s, t) <= Lev(Front(s), Front(t)) + 1
    decreases |s| + |t|
  {
    if s != "" && t != "" {
      Neighbours(Front(s), t);
      Neighbours(s, Front(t));
      Neighbours(Front(s), Front(t));
    }
  }

  /** Two strings one edit apart are within one of each other as seen from any third. */
  lemma {:induction false} EditMovesByOne(u: string, x: string, y: string, w: string, t: string)
    requires |x| <= 1 && |y| <= 1
    ensures Lev(u + x + w, t) <= Lev(u + y + w, t) + 1
    decreases |w| + |t|
  {
    var a, b := u + x + w, u + y + w;
    if w == "" {
      assert a == u + x && b == u + y;
      EditAtEnd(u, x, y, t);
    } else if t != "" {
      var v := Front(w);
      assert Front(a) == u + x + v && Front(b) == u + y + v && Last(a) == Last(b) == Last(w);
      EditMovesByOne(u, x, y, v, t);
      EditMovesByOne(u, x, y, w, Front(t));
      EditMovesByOne(u, x, y, v, Front(t));
    }
  }

  lemma {:induction false} EditAtEnd(u: string, x: string, y: string, t: string)
    requires |x| <= 1 && |y| <= 1
    ensures Lev(u + x, t) <= Lev(u + y, t) + 1
    decreases |t|
  {
    assert x == "" ==> u + x == u;
    assert y == "" ==> u + y == u;
    assert x != "" ==> Front(u + x) == u;
    assert y != "" ==> Front(u + y) == u;
    Neighbours(u + x, t);
    Neighbours(u + y, t);
    if x != "" && y != "" && t != "" {
      EditAtEnd(u, x, y, Front(t));
    }
  }

  /** No chain of edits is shorter than the recurrence says. */
  lemma {:induction false} LevIsLowerBound(s: string, t: string, n: nat)
    requires Reaches(s, t, n)
    ensures Lev(s, t) <= n
    decreases n
  {
    if n == 0 {
      LevOfSame(s);
    } else {
      var m :| Edit(s, m) && Reaches(m, t, n - 1);
      var u, x, y, w :| EditAt(s, m, u, x, y, w);
      EditMovesByOne(u, x, y, w, t);
      LevIsLowerBound(m, t, n - 1);
    }
  }

  lemma {:induction false} LevOfSame(s: string)
    ensures Lev(s, s) == 0
  {
    if s != "" {
      LevOfSame(Front(s));
    }
  }

  /** The last edit inserts, the first deletes, or the last characters are dealt with by themselves. */
  lemma ReachesByInsert(s: string, t: string, n: nat)
    requires t != "" && Reaches(s, Front(t), n)
    ensures Reaches(s, t, n + 1)
  {
    EditLast(Front(t), "", [Last(t)]);
    assert Front(t) + [Last(t)] == t && Front(t) + "" == Front(t);
    ReachesJoin(s, Front(t), t, n, 1);
  }

  lemma ReachesByDelete(s: string, t: string, n: nat)
    requires s != "" && Reaches(Front(s), t, n)
    ensures Reaches(s, t, n + 1)
  {
    EditLast(Front(s), [Last(s)], "");
    assert Front(s) + [Last(s)] == s && Front(s) + "" == Front(s);
    ReachesJoin(s, Front(s), t, 1, n);
  }

  lemma ReachesByLast(s: string, t: string, n: nat)
    requires s != "" && t != "" && Reaches(Front(s), Front(t), n)
    ensures Reaches(s, t, if Last(s) == Last(t) then n else n + 1)
  {
    ReachesAppend(Front(s), Front(t), n, Last(s));
    assert Front(s) + [Last(s)] == s && Front(t) + [Last(t)] == t;
    if Last(s) != Last(t) {
      EditLast(Front(t), [Last(s)], [Last(t)]);
      ReachesJoin(s, Front(t) + [Last(s)], t, n, 1);
    }
  }

  /** One chain of edits is as short as the recurrence says. */
  lemma {:induction false} LevIsReached(s: string, t: string)
    ensures Reaches(s, t, Lev(s, t))
    decreases |s| + |t|
  {
    if t != "" {
      LevIsReached(s, Front(t));
      ReachesByInsert(s, t, Lev(s, Front(t)));
    }
    if s != "" {
      LevIsReached(Front(s), t);
      ReachesByDelete(s, t, Lev(Front(s), t));
    }
    if s != "" && t != "" {
      LevIsReached(Front(s), Front(t));
      ReachesByLast(s, t, Lev(Front(s), Front(t)));
    }
  }

  lemma EditLast(u: string, x: string, y: string)
    requires |x| <= 1 && |y| <= 1 && x != y
    ensures Reaches(u + x, u + y, 1)
  {
    assert u + x + "" == u + x && u + y + "" == u + y;
    assert EditAt(u + x, u + y, u, x, y, "");
    ReachesOne(u + x, u + y);
  }

  /** The recurrence gives the least number of edits. */
  lemma LevIsDistance(s: string, t: string)
    ensures IsDistance(s, t, Lev(s, t))
  {
    LevIsReached(s, t);
    forall n: nat | Reaches(s, t, n)
      ensures Lev(s, t) <= n
    {
      LevIsLowerBound(s, t, n);
    }
  }

  lemma {:induction false} LevSymmetric(s: string, t: string)
    ensures Lev(s, t) == Lev(t, s)
  {
    LevIsReached(s, t);
    LevIsReached(t, s);
    ReachesSymmetric(s, t, Lev(s, t));
    ReachesSymmetric(t, s, Lev(t, s));
    LevIsLowerBound(s, t, Lev(t, s));
    LevIsLowerBound(t, s, Lev(s, t));
  }

  lemma {:induction false} LevTriangle(a: string, b: string, c: string)
    ensures Lev(a, c) <= Lev(a, b) + Lev(b, c)
  {
    LevIsReached(a, b);
    LevIsReached(b, c);
    ReachesJoin(a, b, c, Lev(a, b), Lev(b, c));
    LevIsLowerBound(a, c, Lev(a, b) + Lev(b, c));
  }

  lemma {:induction false} LevZeroOnlyIfEqual(s: string, t: string)
    ensures Lev(s, t) == 0 <==> s == t
  {
    LevIsReached(s, t);
    LevOfSame(s);
  }

  // ----- The code

  predicate Fits(s: string, n: string) {
    |s| <= 127 && |n| <= 127
  }

  /** One more than the least of three neighbours, as stored. */
  function OneMore(a: int, b: int, c: int): (r: int)
    ensures -128 <= r <= 127
  {
    Narrow(Minimum3(a + 1, b + 1, c + 1))
  }

  /** The recurrence as the code evaluates it, every value squeezed into a char. */
  ghost function CharLev(s: string, t: string): (d: int)
    ensures -128 <= d <= 127
    decreases |s| + |t|
  {
    if s == "" then Narrow(|t|)
    else if t == "" then Narrow(|s|)
    else if Last(s) == Last(t) then CharLev(Front(s), Front(t))
    else OneMore(CharLev(Front(s), t), CharLev(s, Front(t)), CharLev(Front(s), Front(t)))
  }

  lemma {:induction false} CharLevFits(s: string, t: string)
    requires Fits(s, t)
    ensures CharLev(s, t) == Lev(s, t)
    decreases |s| + |t|
  {
    if s != "" && t != "" {
      CharLevFits(Front(s), t);
      CharLevFits(s, Front(t));
      CharLevFits(Front(s), Front(t));
    }
  }

  lemma CharLevStep(s: string, n: string, i: nat, j: nat)
    requires i < |s| && j < |n|
    ensures CharLev(s[..i + 1], n[..j + 1]) ==
            if s[i] == n[j] then CharLev(s[..i], n[..j])
            else OneMore(CharLev(s[..i], n[..j + 1]), CharLev(s[..i + 1], n[..j]), CharLev(s[..i], n[..j]))
  {
    assert Front(s[..i + 1]) == s[..i] && Front(n[..j + 1]) == n[..j];
  }

  /** Column q holds the values of the recurrence, down to row i. */
  ghost predicate ColumnTo(d: array2<int>, s: string, n: string, q: nat, i: nat)
    requires d.Length0 == |s| + 1 && d.Length1 == |n| + 1 && q <= |n| && i <= |s|
    reads d
  {
    forall p :: 0 <= p <= i ==> d[p, q] == CharLev(s[..p], n[..q])
  }

  /** The two loops that fill the borders. */
  method Borders(s: string, n: string) returns (d: array2<int>)
    ensures fresh(d) && d.Length0 == |s| + 1 && d.Length1 == |n| + 1
    ensures forall p :: 0 <= p <= |s| ==> d[p, 0] == Narrow(p)
    ensures forall q :: 0 <= q <= |n| ==> d[0, q] == Narrow(q)
  {
    d := new int[|s| + 1, |n| + 1]((i, j) => 0);
    for i := 0 to |s| + 1
      invariant forall p :: 0 <= p < i ==> d[p, 0] == Narrow(p)
    {
      d[i, 0] := Narrow(i);
    }
    for j := 0 to |n| + 1
      invariant forall p :: 0 <= p <= |s| ==> d[p, 0] == Narrow(p)
      invariant forall q :: 0 <= q < j ==> d[0, q] == Narrow(q)
    {
      d[0, j] := Narrow(j);
    }
  }

  /** The body of the nested loops. */
  method Cell(d: array2<int>, s: string, n: string, i: nat, j: nat)
    requires i < |s| && j < |n| && d.Length0 == |s| + 1 && d.Length1 == |n| + 1
    requires d[i, j] == CharLev(s[..i], n[..j])
    requires d[i + 1, j] == CharLev(s[..i + 1], n[..j])
    requires d[i, j + 1] == CharLev(s[..i], n[..j + 1])
    modifies d
    ensures d[i + 1, j + 1] == CharLev(s[..i + 1], n[..j + 1])
    ensures forall p, q :: 0 <= p <= |s| && 0 <= q <= |n| && (p != i + 1 || q != j + 1) ==> d[p, q] == old(d[p, q])
  {
    CharLevStep(s, n, i, j);
    if s[i] == n[j] {
      d[i + 1, j + 1] := d[i, j];
    } else {
      d[i + 1, j + 1] := OneMore(d[i, j + 1], d[i + 1, j], d[i, j]);
    }
  }

  /** The inner loop: fills column j + 1 from column j. */
  method Column(d: array2<int>, s: string, n: string, j: nat)
    requires j < |n| && d.Length0 == |s| + 1 && d.Length1 == |n| + 1
    requires ColumnTo(d, s, n, j, |s|) && ColumnTo(d, s, n, j + 1, 0)
    modifies d
    ensures ColumnTo(d, s, n, j + 1, |s|)
    ensures forall p, q :: 0 <= p <= |s| && 0 <= q <= |n| && q != j + 1 ==> d[p, q] == old(d[p, q])
  {
    for i := 0 to |s|
      invariant ColumnTo(d, s, n, j + 1, i)
      invariant forall p, q :: 0 <= p <= |s| && 0 <= q <= |n| && q != j + 1 ==> d[p, q] == old(d[p, q])
    {
      Cell(d, s, n, i, j);
    }
  }

  /** EditDistance, with its table of chars.  For lengths up to 127 it returns the distance. */
  method Compute(s: string, n: string) returns (r: int)
    ensures r == CharLev(s, n)
    ensures Fits(s, n) ==> r >= 0 && IsDistance(s, n, r)
  {
    var d := Borders(s, n);
    for j := 0 to |n|
      invariant ColumnTo(d, s, n, j, |s|)
      invariant forall q :: j < q <= |n| ==> d[0, q] == Narrow(q)
    {
      Column(d, s, n, j);
    }
    r := d[|s|, |n|];
    assert s[..|s|] == s && n[..|n|] == n;
    if Fits(s, n) {
      CharLevFits(s, n);
      LevIsDistance(s, n);
    }
  }

  /** The bound on the lengths is exact: beyond it, some strings of those lengths are further apart
      than any value a char can hold. */
  lemma CharTableIsRightIff(m: nat, n: nat)
    ensures (m <= 127 && n <= 127) <==>
            forall s: string, t: string :: |s| == m && |t| == n ==> CharLev(s, t) == Lev(s, t)
  {
    if m <= 127 && n <= 127 {
      forall s: string, t: string | |s| == m && |t| == n
        ensures CharLev(s, t) == Lev(s, t)
      {
        CharLevFits(s, t);
      }
    } else {
      var s, t := seq(m, _ => 'a'), seq(n, _ => 'b');
      NothingShared(s, t);
      assert |s| == m && |t| == n && CharLev(s, t) != Lev(s, t);
    }
  }

  lemma {:induction false} NothingShared(s: string, t: string)
    requires forall i, j :: 0 <= i < |s| && 0 <= j < |t| ==> s[i] != t[j]
    ensures Lev(s, t) == if |s| < |t| then |t| else |s|
    decreases |s| + |t|
  {
    if s != "" && t != "" {
      NothingShared(Front(s), t);
      NothingShared(s, Front(t));
      NothingShared(Front(s), Front(t));
    }
  }
}
