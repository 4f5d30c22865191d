/** lcs/longest_common_subsequence.c: the value table and the direction table of lcs_length. */
module Lcs {
  import opened CTypes
  import opened Subsequences

  ghost predicate Common(a: string, x: string, y: string) {
    IsSubsequence(a, x) && IsSubsequence(a, y)
  }

  /** Some common subsequence has length n, and none is longer. */
  ghost predicate IsLongest(n: nat, x: string, y: string) {
    (exists a :: Common(a, x, y) && |a| == n) && forall a :: Common(a, x, y) ==> |a| <= n
  }

  // ----- The recurrence of the table

  ghost function Length(x: string, y: string): (n: nat)
    ensures n <= |x| && n <= |y|
    decreases |x| + |y|
  {
    if x == "" || y == "" then 0
    else
      var x0, y0 := x[..|x| - 1], y[..|y| - 1];
      if x[|x| - 1] == y[|y| - 1] then Length(x0, y0) + 1
      else if Length(x0, y) >= Length(x, y0) then Length(x0, y)
      else Length(x, y0)
  }

  lemma {:induction false} NoneLonger(a: string, x: string, y: string)
    requires Common(a, x, y)
    ensures |a| <= Length(x, y)
    decreases |x| + |y|
  {
    if a != "" {
      SubsequenceOfSomething(a, x);
      SubsequenceOfSomething(a, y);
      var p, q := |x| - 1, |y| - 1;
      var x0, y0 := x[..p], y[..q];
      assert x == x0 + [x[p]] && y == y0 + [y[q]];
      SubsequenceLast(a, x0, x[p]);
      SubsequenceLast(a, y0, y[q]);
      if x[p] == y[q] {
        NoneLonger(a[..|a| - 1], x0, y0);
      } else if a[|a| - 1] != x[p] {
        NoneLonger(a, x0, y);
      } else {
        NoneLonger(a, x, y0);
      }
    }
  }

  // ----- The tables as the code fills them, every value squeezed into a char

  ghost function CharLength(x: string, y: string): (n: int)
    ensures -128 <= n <= 127
    decreases |x| + |y|
  {
    if x == "" || y == "" then 0
    else
      var x0, y0 := x[..|x| - 1], y[..|y| - 1];
      if x[|x| - 1] == y[|y| - 1] then Narrow(CharLength(x0, y0) + 1)
      else if CharLength(x0, y) >= CharLength(x, y0) then CharLength(x0, y)
      else CharLength(x, y0)
  }

  /** The direction written beside that value. */
  ghost function Direction(x: string, y: string): char
    requires x != "" && y != ""
  {
    var x0, y0 := x[..|x| - 1], y[..|y| - 1];
    if x[|x| - 1] == y[|y| - 1] then '\\'
    else if CharLength(x0, y) >= CharLength(x, y0) then '|'
    else '-'
  }

  /** No value can pass 127. */
  predicate Fits(x: string, y: string) {
    |x| <= 127 || |y| <= 127
  }

  lemma {:induction false} CharLengthFits(x: string, y: string)
    requires Fits(x, y)
    ensures CharLength(x, y) == Length(x, y)
    decreases |x| + |y|
  {
    if x != "" && y != "" {
      CharLengthFits(x[..|x| - 1], y);
      CharLengthFits(x, y[..|y| - 1]);
      CharLengthFits(x[..|x| - 1], y[..|y| - 1]);
    }
  }

  /** The bound is exact: with both lengths above 127, some strings have more in common than a char can count. */
  lemma CharTableIsRightIff(m: nat, n: nat)
    ensures (m <= 127 || n <= 127) <==>
            forall x: string, y: string :: |x| == m && |y| == n ==> CharLength(x, y) == Length(x, y)
  {
    if m <= 127 || n <= 127 {
      forall x: string, y: string | |x| == m && |y| == n
        ensures CharLength(x, y) == Length(x, y)
      {
        CharLengthFits(x, y);
      }
    } else {
      var x, y := seq(m, _ => 'a'), seq(n, _ => 'a');
      AllShared(x, y);
      assert |x| == m && |y| == n && CharLength(x, y) != Length(x, y);
    }
  }

  lemma {:induction false} AllShared(x: string, y: string)
    requires forall i, j :: 0 <= i < |x| && 0 <= j < |y| ==> x[i] == y[j]
    ensures Length(x, y) == if |x| < |y| then |x| else |y|
    decreases |x|
  {
    if x != "" && y != "" {
      AllShared(x[..|x| - 1], y[..|y| - 1]);
    }
  }

  // ----- Following the directions back

  /** The string spelled by following the directions back from cell (i, j). */
  function Spell(b: array2<char>, x: string, i: nat, j: nat): string
    requires i < b.Length0 && j < b.Length1 && i <= |x|
    reads b
    decreases i + j
  {
    if i == 0 || j == 0 then ""
    else if b[i, j] == '\\' then Spell(b, x, i - 1, j - 1) + [x[i - 1]]
    else if b[i, j] == '|' then Spell(b, x, i - 1, j)
    else Spell(b, x, i, j - 1)
  }

  ghost predicate AllDirected(b: array2<char>, x: string, y: string)
    requires b.Length0 == |x| + 1 && b.Length1 == |y| + 1
    reads b
  {
    forall i, j :: 1 <= i <= |x| && 1 <= j <= |y| ==> b[i, j] == Direction(x[..i], y[..j])
  }

  /** It has exactly the length the values say. */
  lemma {:induction false} SpellLength(b: array2<char>, x: string, y: string, i: nat, j: nat)
    requires b.Length0 == |x| + 1 && b.Length1 == |y| + 1 && AllDirected(b, x, y) && Fits(x, y)
    requires i <= |x| && j <= |y|
    ensures |Spell(b, x, i, j)| == CharLength(x[..i], y[..j])
    decreases i + j
  {
    if i > 0 && j > 0 {
      assert x[..i][..i - 1] == x[..i - 1] && y[..j][..j - 1] == y[..j - 1];
      if b[i, j] == '\\' {
        SpellLength(b, x, y, i - 1, j - 1);
        CharLengthFits(x[..i - 1], y[..j - 1]);
      } else if b[i, j] == '|' {
        SpellLength(b, x, y, i - 1, j);
      } else {
        SpellLength(b, x, y, i, j - 1);
      }
    }
  }

  /** It is a common subsequence, whatever the values. */
  lemma {:induction false} SpellIsCommon(b: array2<char>, x: string, y: string, i: nat, j: nat)
    requires b.Length0 == |x| + 1 && b.Length1 == |y| + 1 && AllDirected(b, x, y)
    requires i <= |x| && j <= |y|
    ensures Common(Spell(b, x, i, j), x[..i], y[..j])
    decreases i + j
  {
    if i == 0 || j == 0 {
      EmptyIsSubsequence(x[..i]);
      EmptyIsSubsequence(y[..j]);
    } else {
      var x0, y0 := x[..i - 1], y[..j - 1];
      assert x[..i] == x0 + [x[i - 1]] && y[..j] == y0 + [y[j - 1]];
      if b[i, j] == '\\' {
        SpellIsCommon(b, x, y, i - 1, j - 1);
        SubsequenceAppend(Spell(b, x, i - 1, j - 1), x0, x[i - 1]);
        SubsequenceAppend(Spell(b, x, i - 1, j - 1), y0, y[j - 1]);
      } else if b[i, j] == '|' {
        SpellIsCommon(b, x, y, i - 1, j);
        SubsequenceOfLonger(Spell(b, x, i - 1, j), x0, [x[i - 1]]);
      } else {
        SpellIsCommon(b, x, y, i, j - 1);
        SubsequenceOfLonger(Spell(b, x, i, j - 1), y0, [y[j - 1]]);
      }
    }
  }

  // ----- The code

  /** Row i holds the values and directions of the recurrence, up to column j. */
  ghost predicate Row(c: array2<int>, b: array2<char>, x: string, y: string, i: nat, j: nat)
    requires c.Length0 == b.Length0 == |x| + 1 && c.Length1 == b.Length1 == |y| + 1
    requires i <= |x| && j <= |y|
    reads c, b
  {
    forall q :: 0 <= q <= j ==>
      c[i, q] == CharLength(x[..i], y[..q]) && (i > 0 && q > 0 ==> b[i, q] == Direction(x[..i], y[..q]))
  }

  lemma CellStep(x: string, y: string, i: nat, j: nat)
    requires 0 < i <= |x| && 0 < j <= |y|
    ensures x[i - 1] == y[j - 1] ==>
              && CharLength(x[..i], y[..j]) == Narrow(CharLength(x[..i - 1], y[..j - 1]) + 1)
              && Direction(x[..i], y[..j]) == '\\'
    ensures x[i - 1] != y[j - 1] && CharLength(x[..i - 1], y[..j]) >= CharLength(x[..i], y[..j - 1]) ==>
              CharLength(x[..i], y[..j]) == CharLength(x[..i - 1], y[..j]) && Direction(x[..i], y[..j]) == '|'
    ensures x[i - 1] != y[j - 1] && CharLength(x[..i - 1], y[..j]) < CharLength(x[..i], y[..j - 1]) ==>
              CharLength(x[..i], y[..j]) == CharLength(x[..i], y[..j - 1]) && Direction(x[..i], y[..j]) == '-'
  {
    assert x[..i][..i - 1] == x[..i - 1] && y[..j][..j - 1] == y[..j - 1];
  }

  /** The body of the nested loops. */
  method Cell(c: array2<int>, b: array2<char>, x: string, y: string, i: nat, j: nat)
    requires c.Length0 == b.Length0 == |x| + 1 && c.Length1 == b.Length1 == |y| + 1
    requires 0 < i <= |x| && 0 < j <= |y|
    requires c[i - 1, j - 1] == CharLength(x[..i - 1], y[..j - 1])
    requires c[i - 1, j] == CharLength(x[..i - 1], y[..j])
    requires c[i, j - 1] == CharLength(x[..i], y[..j - 1])
    modifies c, b
    ensures c[i, j] == CharLength(x[..i], y[..j]) && b[i, j] == Direction(x[..i], y[..j])
    ensures forall p, q :: 0 <= p <= |x| && 0 <= q <= |y| && (p != i || q != j) ==>
              c[p, q] == old(c[p, q]) && b[p, q] == old(b[p, q])
  {
    CellStep(x, y, i, j);
    if x[i - 1] == y[j - 1] {
      c[i, j] := Narrow(c[i - 1, j - 1] + 1);
      b[i, j] := '\\';
    } else if c[i - 1, j] >= c[i, j - 1] {
      c[i, j] := c[i - 1, j];
      b[i, j] := '|';
    } else {
      c[i, j] := c[i, j - 1];
      b[i, j] := '-';
    }
  }

  /** The inner loop: fills row i from row i - 1. */
  method FillRow(c: array2<int>, b: array2<char>, x: string, y: string, i: nat)
    requires c.Length0 == b.Length0 == |x| + 1 && c.Length1 == b.Length1 == |y| + 1
    requires 0 < i <= |x| && c[i, 0] == 0 && Row(c, b, x, y, i - 1, |y|)
    modifies c, b
    ensures Row(c, b, x, y, i, |y|)
    ensures forall p, q :: 0 <= p <= |x| && 0 <= q <= |y| && p != i ==>
              c[p, q] == old(c[p, q]) && b[p, q] == old(b[p, q])
  {
    for j := 1 to |y| + 1
      invariant Row(c, b, x, y, i, j - 1)
      invariant forall p, q :: 0 <= p <= |x| && 0 <= q <= |y| && p != i ==>
                  c[p, q] == old(c[p, q]) && b[p, q] == old(b[p, q])
    {
      Cell(c, b, x, y, i, j);
    }
  }

  /** The loops that fill the borders. */
  method Borders(x: string, y: string) returns (c: array2<int>)
    ensures fresh(c) && c.Length0 == |x| + 1 && c.Length1 == |y| + 1
    ensures forall p :: 1 <= p <= |x| ==> c[p, 0] == 0
    ensures forall q :: 0 <= q <= |y| ==> c[0, q] == 0
  {
    c := new int[|x| + 1, |y| + 1]((i, j) => 1);
    for i := 1 to |x| + 1
      invariant forall p :: 1 <= p < i ==> c[p, 0] == 0
    {
      c[i, 0] := 0;
    }
    for i := 0 to |y| + 1
      invariant forall p :: 1 <= p <= |x| ==> c[p, 0] == 0
      invariant forall q :: 0 <= q < i ==> c[0, q] == 0
    {
      c[0, i] := 0;
    }
  }

  /** The loops of lcs_length on the ranges they read. */
  method Tables(x: string, y: string) returns (c: array2<int>, b: array2<char>)
    ensures fresh(c) && fresh(b)
    ensures c.Length0 == b.Length0 == |x| + 1 && c.Length1 == b.Length1 == |y| + 1
    ensures forall i :: 0 <= i <= |x| ==> Row(c, b, x, y, i, |y|)
  {
    b := new char[|x| + 1, |y| + 1]((i, j) => ' ');
    c := Borders(x, y);
    for i := 1 to |x| + 1
      invariant forall p :: i <= p <= |x| ==> c[p, 0] == 0
      invariant forall p :: 0 <= p < i ==> Row(c, b, x, y, p, |y|)
    {
      label before:
      FillRow(c, b, x, y, i);
      forall p | 0 <= p < i
        ensures Row(c, b, x, y, p, |y|)
      {
        assert old@before(Row(c, b, x, y, p, |y|));
      }
    }
  }

  /** lcs_length.  It compares x[1..xLength] with y[1..yLength], so the strings passed in have at least
      one more character than the lengths say. */
  method LcsLength(x: string, xLength: nat, y: string, yLength: nat) returns (r: int, b: array2<char>)
    requires xLength < |x| && yLength < |y|
    ensures b.Length0 == xLength + 1 && b.Length1 == yLength + 1
    ensures var xs, ys := x[1..xLength + 1], y[1..yLength + 1];
            && r == CharLength(xs, ys)
            && Common(Spell(b, xs, xLength, yLength), xs, ys)
            && (Fits(xs, ys) ==> r >= 0 && IsLongest(r, xs, ys) && |Spell(b, xs, xLength, yLength)| == r)
  {
    var xs, ys := x[1..xLength + 1], y[1..yLength + 1];
    var c;
    c, b := Tables(xs, ys);
    r := c[xLength, yLength];
    assert Row(c, b, xs, ys, xLength, |ys|);
    assert xs[..xLength] == xs && ys[..yLength] == ys;
    forall i, j | 1 <= i <= |xs| && 1 <= j <= |ys|
      ensures b[i, j] == Direction(xs[..i], ys[..j])
    {
      assert Row(c, b, xs, ys, i, |ys|);
    }
    SpellIsCommon(b, xs, ys, xLength, yLength);
    if Fits(xs, ys) {
      SpellLength(b, xs, ys, xLength, yLength);
      CharLengthFits(xs, ys);
      forall a | Common(a, xs, ys)
        ensures |a| <= r
      {
        NoneLonger(a, xs, ys);
      }
    }
  }
}
