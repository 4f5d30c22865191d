/** gitpack_parse/parse_index.c: the check that the fan-out table of a pack index agrees with the object
    names it indexes. */
module PackIndex {
  import opened CTypes

  // ----- Tables and names, apart from their layout in the file

  /** The 256 entries of a fan-out table. */
  type Table = t: seq<nat> | |t| == 256 witness seq(256, _ => 0)

  /** Where the names of bucket b start. */
  function Low(fan: seq<nat>, b: nat): nat
    requires b < |fan|
  {
    if b == 0 then 0 else fan[b - 1]
  }

  /** How many of the names start with a byte of at most b; a name is given by its first byte. */
  ghost function CountUpTo(names: seq<Byte>, b: int): (k: nat)
    ensures k <= |names|
  {
    if names == [] then 0
    else CountUpTo(names[..|names| - 1], b) + if names[|names| - 1] <= b then 1 else 0
  }

  /** What the index is for: entry b counts the names starting with at most b, and the names starting with b
      are exactly those in the slots of bucket b. */
  ghost predicate Agrees(fan: Table, names: seq<Byte>) {
    && (forall b :: 0 <= b < 256 ==> fan[b] == CountUpTo(names, b))
    && (forall b, m :: 0 <= b < 256 && 0 <= m < |names| ==> (names[m] == b <==> Low(fan, b) <= m < fan[b]))
  }

  /** What the first loop checks. */
  ghost predicate Monotone(fan: seq<nat>, n: nat)
    requires n <= |fan|
  {
    forall b :: 0 <= b < n ==> Low(fan, b) <= fan[b]
  }

  /** What the second loop checks. */
  ghost predicate BucketsRight(fan: Table, names: seq<Byte>, n: nat)
    requires n <= 256
  {
    forall b :: 0 <= b < n ==> BucketRight(fan, names, b)
  }

  ghost predicate BucketRight(fan: Table, names: seq<Byte>, b: nat)
    requires b < 256
  {
    fan[b] <= |names| && forall m :: Low(fan, b) <= m < fan[b] ==> names[m] == b
  }

  lemma {:induction false} MonotoneOrder(fan: Table, a: nat, b: nat)
    requires Monotone(fan, 256) && a <= b < 256
    ensures fan[a] <= fan[b]
    decreases b
  {
    if a < b {
      MonotoneOrder(fan, a, b - 1);
      assert Low(fan, b) <= fan[b];
    }
  }

  /** Every slot belongs to a bucket. */
  lemma {:induction false} BucketOf(fan: Table, m: nat, top: nat) returns (b: nat)
    requires top < 256 && m < fan[top]
    ensures b <= top && Low(fan, b) <= m < fan[b]
    decreases top
  {
    if top > 0 && m < fan[top - 1] {
      b := BucketOf(fan, m, top - 1);
    } else {
      b := top;
    }
  }

  lemma {:induction false} CountBelow(names: seq<Byte>, b: int, limit: nat)
    requires forall m :: 0 <= m < |names| ==> (names[m] <= b <==> m < limit)
    ensures CountUpTo(names, b) == if |names| < limit then |names| else limit
    decreases |names|
  {
    if names != [] {
      CountBelow(names[..|names| - 1], b, limit);
    }
  }

  lemma {:induction false} CountMonotone(names: seq<Byte>, a: int, b: int)
    requires a <= b
    ensures CountUpTo(names, a) <= CountUpTo(names, b)
    decreases |names|
  {
    if names != [] {
      CountMonotone(names[..|names| - 1], a, b);
    }
  }

  lemma SlotIsBucket(fan: Table, names: seq<Byte>, b: nat, m: nat)
    requires |names| == fan[255] && Monotone(fan, 256) && BucketsRight(fan, names, 256)
    requires b < 256 && m < |names|
    ensures names[m] == b <==> Low(fan, b) <= m < fan[b]
    ensures names[m] <= b <==> m < fan[b]
  {
    var c := BucketOf(fan, m, 255);
    assert BucketRight(fan, names, c);
    if c < b {
      MonotoneOrder(fan, c, b - 1);
      MonotoneOrder(fan, c, b);
    } else if b < c {
      MonotoneOrder(fan, b, c - 1);
    }
  }

  /** The two checks succeed exactly on the tables that agree with their names. */
  lemma CheckedIffAgrees(fan: Table, names: seq<Byte>)
    requires |names| == fan[255]
    ensures Agrees(fan, names) <==> Monotone(fan, 256) && BucketsRight(fan, names, 256)
  {
    if Monotone(fan, 256) && BucketsRight(fan, names, 256) {
      forall b | 0 <= b < 256
        ensures fan[b] == CountUpTo(names, b)
      {
        forall m | 0 <= m < |names|
          ensures names[m] <= b <==> m < fan[b]
        {
          SlotIsBucket(fan, names, b, m);
        }
        MonotoneOrder(fan, b, 255);
        CountBelow(names, b, fan[b]);
      }
      forall b, m | 0 <= b < 256 && 0 <= m < |names|
        ensures names[m] == b <==> Low(fan, b) <= m < fan[b]
      {
        SlotIsBucket(fan, names, b, m);
      }
    }
    if Agrees(fan, names) {
      AgreesMeansChecked(fan, names);
    }
  }

  lemma AgreesMeansChecked(fan: Table, names: seq<Byte>)
    requires |names| == fan[255] && Agrees(fan, names)
    ensures Monotone(fan, 256) && BucketsRight(fan, names, 256)
  {
    forall b | 0 <= b < 256
      ensures Low(fan, b) <= fan[b]
    {
      if b > 0 {
        CountMonotone(names, b - 1, b);
        assert fan[b - 1] == CountUpTo(names, b - 1) && fan[b] == CountUpTo(names, b);
      }
    }
    forall b | 0 <= b < 256
      ensures BucketRight(fan, names, b)
    {
      MonotoneOrder(fan, b, 255);
    }
  }

  // ----- The layout in the file

  const TABLE: nat := 8
  const NAMES: nat := 8 + 256 * 4

  /** ntohl of the four bytes at a place. */
  function Word(mem: seq<Byte>, at: nat): nat
    requires at + 4 <= |mem|
  {
    var b0: int, b1: int, b2: int, b3: int := mem[at], mem[at + 1], mem[at + 2], mem[at + 3];
    b0 * 0x100_0000 + b1 * 0x1_0000 + b2 * 0x100 + b3
  }

  /** The entries of the fan-out table, as far as the file goes; there are 256 if it goes far enough. */
  ghost function FanOf(mem: seq<Byte>): (r: seq<nat>)
    ensures |r| <= 256 && forall i: nat :: i < |r| <==> i < 256 && TABLE + 4 * i + 4 <= |mem|
    ensures |r| == 256 <==> NAMES <= |mem|
  {
    var n := if |mem| < TABLE then 0 else Min(256, (|mem| - TABLE) / 4);
    seq(n, b requires 0 <= b < n => Word(mem, TABLE + 4 * b))
  }

  /** The first bytes of the object names, 20 bytes each, as far as the file goes. */
  ghost function NamesOf(mem: seq<Byte>): (r: seq<Byte>)
    requires NAMES <= |mem|
    ensures forall m: nat :: m < |r| <==> NAMES + 20 * m < |mem|
  {
    var n := (|mem| - NAMES + 19) / 20;
    seq(n, m requires 0 <= m < n => mem[NAMES + 20 * m])
  }

  // ----- The code

  datatype Verdict = Passed | Refused | Outside

  /** Storing an unsigned difference in an int. */
  function ToInt(d: int): int {
    if d < INT_END then d else d - 0x1_0000_0000
  }

  function Size(fan: Table, b: nat): int
    requires b < 256
  {
    fan[b] - Low(fan, b)
  }

  /** A bucket that passes: its size fits an int, and its names are there and right. */
  ghost predicate Good(fan: Table, names: seq<Byte>, b: nat)
    requires b < 256
  {
    Size(fan, b) < INT_END && BucketRight(fan, names, b)
  }

  /** All buckets before b pass, and the file ends inside b without a wrong name. */
  ghost predicate RunsOut(fan: Table, names: seq<Byte>, b: nat)
    requires b < 256
  {
    && (forall a :: 0 <= a < b ==> Good(fan, names, a))
    && Size(fan, b) < INT_END && fan[b] > |names| && forall m :: Low(fan, b) <= m < |names| ==> names[m] == b
  }

  ghost function Sum(s: seq<int>): int {
    if s == [] then 0 else Sum(s[..|s| - 1]) + s[|s| - 1]
  }

  lemma {:induction false} SumOfSizes(fan: Table, table: seq<int>, n: nat)
    requires 0 < n <= |table| <= 256 && forall b :: 0 <= b < n ==> table[b] == Size(fan, b)
    ensures Sum(table[..n]) == fan[n - 1]
    decreases n
  {
    assert table[..n][..n - 1] == table[..n - 1];
    if n > 1 {
      SumOfSizes(fan, table, n - 1);
    }
  }

  method Entry(mem: seq<Byte>, i: nat, ghost fan: seq<nat>) returns (inside: bool, entry: nat)
    requires fan == FanOf(mem) && i < 256
    ensures inside <==> i < |fan|
    ensures inside ==> entry == fan[i]
  {
    inside, entry := TABLE + 4 * i + 4 <= |mem|, 0;
    if inside {
      entry := Word(mem, TABLE + 4 * i);
    }
  }

  /** The sizes of the first n buckets, as ints. */
  ghost predicate AreSizes(table: seq<int>, fan: seq<nat>, n: nat)
    requires n <= |fan|
  {
    |table| == n && forall b :: 0 <= b < n ==> table[b] == ToInt(fan[b] - Low(fan, b))
  }

  /** The state of the first loop: the first n entries do not decrease, and their bucket sizes are in the table. */
  ghost predicate Filled(table: seq<int>, fan: seq<nat>, n: nat, frontValue: nat) {
    n <= |fan| && Monotone(fan, n) && AreSizes(table, fan, n) && frontValue == if n == 0 then 0 else fan[n - 1]
  }

  lemma FilledStep(table: seq<int>, fan: seq<nat>, n: nat, frontValue: nat)
    requires n < |fan| && Filled(table, fan, n, frontValue)
    ensures if frontValue > fan[n] then !Monotone(fan, |fan|)
            else Filled(table + [ToInt(fan[n] - frontValue)], fan, n + 1, fan[n])
  {
    assert frontValue == Low(fan, n);
  }

  /** One pass of the first loop. */
  method AddSize(table0: seq<int>, frontValue: nat, entry: nat, ghost fan: seq<nat>, ghost i: nat)
    returns (ok: bool, table: seq<int>)
    requires i < |fan| && entry == fan[i] && Filled(table0, fan, i, frontValue)
    ensures !ok ==> !Monotone(fan, |fan|)
    ensures ok ==> Filled(table, fan, i + 1, entry)
  {
    table := table0;
    FilledStep(table, fan, i, frontValue);
    ok := frontValue <= entry;
    if ok {
      table := table + [ToInt(entry - frontValue)];
    }
  }

  lemma SizesAddUp(table: seq<int>, fan: Table)
    requires AreSizes(table, fan, 256)
    ensures forall b :: 0 <= b < 256 ==> table[b] == ToInt(Size(fan, b))
    ensures (forall b :: 0 <= b < 256 ==> Size(fan, b) < INT_END) ==> Sum(table) == fan[255]
  {
    if forall b :: 0 <= b < 256 ==> Size(fan, b) < INT_END {
      SumOfSizes(fan, table, |table|);
      assert table[..|table|] == table;
    }
  }

  method BucketSizes(mem: seq<Byte>, ghost fan: seq<nat>) returns (v: Verdict, table: seq<int>)
    requires fan == FanOf(mem)
    ensures v.Refused? <==> !Monotone(fan, |fan|)
    ensures v.Outside? <==> Monotone(fan, |fan|) && |fan| < 256
    ensures v.Passed? ==> AreSizes(table, fan, 256)
  {
    var frontValue, i := 0, 0;
    table := [];
    while i < 256
      invariant i <= 256 && Filled(table, fan, i, frontValue)
    {
      var inside, entry := Entry(mem, i, fan);
      if !inside {
        return Outside, table;
      }
      var ok;
      ok, table := AddSize(table, frontValue, entry, fan, i);
      if !ok {
        return Refused, table;
      }
      frontValue, i := entry, i + 1;
    }
    v := Passed;
  }

  /** The first loop: bucket sizes, which add up to the last entry, or failure on a table that decreases; it reads
      past the file exactly if the file ends inside a table that does not decrease. */
  method Differences(mem: seq<Byte>, ghost fan: seq<nat>) returns (v: Verdict, table: seq<int>)
    requires fan == FanOf(mem)
    ensures v.Refused? <==> !Monotone(fan, |fan|)
    ensures v.Outside? <==> Monotone(fan, |fan|) && |fan| < 256
    ensures v.Passed? ==> |table| == 256 && forall b :: 0 <= b < 256 ==> table[b] == ToInt(Size(fan, b))
    ensures v.Passed? && (forall b :: 0 <= b < 256 ==> Size(fan, b) < INT_END) ==> Sum(table) == fan[255]
  {
    v, table := BucketSizes(mem, fan);
    if v.Passed? {
      SizesAddUp(table, fan);
    }
  }

  /** The inner loop over one bucket and the test behind it: the cursor moves one name at a time, and a negative
      count is refused. */
  method CheckBucket(mem: seq<Byte>, cur0: nat, i: nat, count: int, ghost names: seq<Byte>, ghost from: nat)
    returns (v: Verdict, cur: nat)
    requires i < 256 && from <= |names| && NAMES <= |mem| && names == NamesOf(mem) && cur0 == NAMES + 20 * from
    ensures v.Passed? <==> 0 <= count <= |names| - from && forall m :: from <= m < from + count ==> names[m] == i
    ensures v.Outside? <==> count > |names| - from && forall m :: from <= m < |names| ==> names[m] == i
    ensures v.Passed? ==> cur == NAMES + 20 * (from + count)
  {
    cur := cur0;
    var j := 0;
    while j < count
      invariant 0 <= j && (j <= count || j == 0) && from + j <= |names| && cur == NAMES + 20 * (from + j)
      invariant forall m :: from <= m < from + j ==> names[m] == i
    {
      assert from + j < |names| <==> cur < |mem|;
      if cur >= |mem| {
        return Outside, cur;
      }
      assert names[from + j] == mem[cur];
      if mem[cur] != i {
        return Refused, cur;
      }
      cur := cur + 20;
      j := j + 1;
    }
    v := if j == count then Passed else Refused;
  }

  /** One pass of the outer loop. */
  method CheckOne(mem: seq<Byte>, cur0: nat, i: nat, size: int, ghost fan: Table, ghost names: seq<Byte>)
    returns (v: Verdict, cur: nat)
    requires i < 256 && Low(fan, i) <= |names| && NAMES <= |mem| && names == NamesOf(mem)
    requires cur0 == NAMES + 20 * Low(fan, i) && 0 <= Size(fan, i) < 0x1_0000_0000 && size == ToInt(Size(fan, i))
    ensures v.Passed? <==> Good(fan, names, i)
    ensures v.Outside? <==> Size(fan, i) < INT_END && fan[i] > |names|
                            && forall m :: Low(fan, i) <= m < |names| ==> names[m] == i
    ensures v.Passed? ==> cur == NAMES + 20 * fan[i]
  {
    v, cur := CheckBucket(mem, cur0, i, size, names, Low(fan, i));
  }

  /** The first bucket that does not pass decides. */
  lemma FirstBad(fan: Table, names: seq<Byte>, i: nat)
    requires i < 256 && !Good(fan, names, i) && forall b :: 0 <= b < i ==> Good(fan, names, b)
    ensures RunsOut(fan, names, i) <==> exists b :: 0 <= b < 256 && RunsOut(fan, names, b)
  {
    forall b | 0 <= b < 256 && RunsOut(fan, names, b)
      ensures b == i
    {
      assert b < i ==> Good(fan, names, b);
    }
  }

  /** The outer loop over the buckets. */
  method CheckNames(mem: seq<Byte>, table: seq<int>, ghost fan: Table, ghost names: seq<Byte>) returns (v: Verdict)
    requires NAMES <= |mem| && names == NamesOf(mem) && Monotone(fan, 256) && fan[255] < 0x1_0000_0000
    requires |table| == 256 && forall b :: 0 <= b < 256 ==> table[b] == ToInt(Size(fan, b))
    ensures v.Passed? <==> forall b :: 0 <= b < 256 ==> Good(fan, names, b)
    ensures v.Outside? <==> exists b :: 0 <= b < 256 && RunsOut(fan, names, b)
  {
    var cur := NAMES;
    for i := 0 to 256
      invariant i < 256 ==> Low(fan, i) <= |names| && cur == NAMES + 20 * Low(fan, i)
      invariant forall b :: 0 <= b < i ==> Good(fan, names, b)
    {
      MonotoneOrder(fan, i, 255);
      assert Low(fan, i) <= fan[i] && table[i] == ToInt(Size(fan, i));
      v, cur := CheckOne(mem, cur, i, table[i], fan, names);
      if !v.Passed? {
        FirstBad(fan, names, i);
        return;
      }
    }
    forall b | 0 <= b < 256
      ensures !RunsOut(fan, names, b)
    {
      assert Good(fan, names, b);
    }
    v := Passed;
  }

  /** The names that the table speaks of are all in the file, and the buckets fit ints. */
  ghost predicate Readable(fan: Table, names: seq<Byte>) {
    fan[255] <= |names| && forall b :: 0 <= b < 256 ==> Size(fan, b) < INT_END
  }

  lemma GoodMeansAgrees(fan: Table, names: seq<Byte>)
    requires Monotone(fan, 256) && forall b :: 0 <= b < 256 ==> Good(fan, names, b)
    ensures Readable(fan, names) && Agrees(fan, names[..fan[255]])
  {
    assert Good(fan, names, 255);
    var front := names[..fan[255]];
    forall b | 0 <= b < 256
      ensures Size(fan, b) < INT_END && BucketRight(fan, front, b)
    {
      MonotoneOrder(fan, b, 255);
      assert Good(fan, names, b);
    }
    CheckedIffAgrees(fan, front);
  }

  lemma AgreesMeansGood(fan: Table, names: seq<Byte>)
    requires Readable(fan, names) && Agrees(fan, names[..fan[255]])
    ensures Monotone(fan, 256) && forall b :: 0 <= b < 256 ==> Good(fan, names, b)
  {
    var front := names[..fan[255]];
    CheckedIffAgrees(fan, front);
    assert forall m :: 0 <= m < |front| ==> front[m] == names[m];
    forall b | 0 <= b < 256
      ensures Good(fan, names, b)
    {
      assert BucketRight(fan, front, b);
    }
  }

  /** The check of main: it passes exactly if table and names are there and agree, and reads past the file exactly if
      the file ends before anything wrong is found. */
  method Check(mem: seq<Byte>) returns (v: Verdict)
    ensures var fan := FanOf(mem);
            if |fan| < 256 then v == (if Monotone(fan, |fan|) then Outside else Refused)
            else
              var names := NamesOf(mem);
              && (v.Passed? <==> Readable(fan, names) && Agrees(fan, names[..fan[255]]))
              && (v.Outside? <==> Monotone(fan, 256) && exists b :: 0 <= b < 256 && RunsOut(fan, names, b))
  {
    ghost var fan := FanOf(mem);
    var table;
    v, table := Differences(mem, fan);
    if v.Passed? {
      v := CheckNames(mem, table, fan, NamesOf(mem));
    }
    if |fan| == 256 {
      PassedMeans(fan, NamesOf(mem));
    }
  }

  lemma PassedMeans(fan: Table, names: seq<Byte>)
    ensures Monotone(fan, 256) && (forall b :: 0 <= b < 256 ==> Good(fan, names, b))
       <==> Readable(fan, names) && Agrees(fan, names[..fan[255]])
  {
    if Monotone(fan, 256) && forall b :: 0 <= b < 256 ==> Good(fan, names, b) {
      GoodMeansAgrees(fan, names);
    }
    if Readable(fan, names) && Agrees(fan, names[..fan[255]]) {
      AgreesMeansGood(fan, names);
    }
  }

  // ----- The layout of an index, written out

  /** A number below 2^32 as four bytes, most significant first. */
  function FourBytes(x: nat): (r: seq<Byte>)
    requires x < 0x1_0000_0000
    ensures |r| == 4
  {
    [x / 0x100_0000, x / 0x1_0000 % 256, x / 0x100 % 256, x % 256]
  }

  predicate AllFourBytes(fan: seq<nat>) {
    forall i :: 0 <= i < |fan| ==> fan[i] < 0x1_0000_0000
  }

  function TableBytes(fan: seq<nat>): (r: seq<Byte>)
    requires AllFourBytes(fan)
    ensures |r| == 4 * |fan|
  {
    if fan == [] then [] else TableBytes(fan[..|fan| - 1]) + FourBytes(fan[|fan| - 1])
  }

  predicate AllNames(names: seq<seq<Byte>>) {
    forall i :: 0 <= i < |names| ==> |names[i]| == 20
  }

  function NameBytes(names: seq<seq<Byte>>): (r: seq<Byte>)
    requires AllNames(names)
    ensures |r| == 20 * |names|
  {
    if names == [] then [] else NameBytes(names[..|names| - 1]) + names[|names| - 1]
  }

  function Firsts(names: seq<seq<Byte>>): (r: seq<Byte>)
    requires AllNames(names)
    ensures |r| == |names|
  {
    seq(|names|, i requires 0 <= i < |names| => names[i][0])
  }

  /** Eight bytes of flag and version, the fan-out table, the object names, and the parts that are not checked. */
  function IndexFile(header: seq<Byte>, fan: seq<nat>, names: seq<seq<Byte>>, rest: seq<Byte>): seq<Byte>
    requires AllFourBytes(fan) && AllNames(names)
  {
    header + (TableBytes(fan) + (NameBytes(names) + rest))
  }

  lemma WordOfFour(x: nat)
    requires x < 0x1_0000_0000
    ensures Word(FourBytes(x), 0) == x
  {
    assert x / 0x100 == x / 0x1_0000 * 256 + x / 0x100 % 256;
    assert x / 0x1_0000 == x / 0x100_0000 * 256 + x / 0x1_0000 % 256;
  }

  lemma WordInside(mem: seq<Byte>, at: nat, four: seq<Byte>)
    requires at + 4 <= |mem| && |four| == 4 && mem[at..at + 4] == four
    ensures Word(mem, at) == Word(four, 0)
  {
    assert mem[at] == mem[at..at + 4][0] && mem[at + 1] == mem[at..at + 4][1];
    assert mem[at + 2] == mem[at..at + 4][2] && mem[at + 3] == mem[at..at + 4][3];
  }

  lemma {:induction false} TableAt(fan: seq<nat>, b: nat)
    requires AllFourBytes(fan) && b < |fan|
    ensures TableBytes(fan)[4 * b..4 * b + 4] == FourBytes(fan[b])
  {
    if b < |fan| - 1 {
      var front := fan[..|fan| - 1];
      TableAt(front, b);
      assert TableBytes(fan)[4 * b..4 * b + 4] == TableBytes(front)[4 * b..4 * b + 4];
    }
  }

  lemma {:induction false} NameAt(names: seq<seq<Byte>>, m: nat)
    requires AllNames(names) && m < |names|
    ensures NameBytes(names)[20 * m] == names[m][0]
  {
    if m < |names| - 1 {
      NameAt(names[..|names| - 1], m);
    }
  }

  lemma InsideOf(header: seq<Byte>, table: seq<Byte>, rest: seq<Byte>, i: nat)
    requires i + 4 <= |table|
    ensures (header + (table + rest))[|header| + i..|header| + i + 4] == table[i..i + 4]
  {
  }

  /** The layout read back: the entries are those of the table, and the first bytes those of the names. */
  lemma LayoutRoundTrip(header: seq<Byte>, fan: seq<nat>, names: seq<seq<Byte>>, rest: seq<Byte>)
    requires |header| == 8 && |fan| == 256 && AllFourBytes(fan) && AllNames(names)
    ensures var mem := IndexFile(header, fan, names, rest);
            && FanOf(mem) == fan
            && NAMES <= |mem| && |names| <= |NamesOf(mem)| && NamesOf(mem)[..|names|] == Firsts(names)
  {
    var mem := IndexFile(header, fan, names, rest);
    forall b | 0 <= b < 256
      ensures FanOf(mem)[b] == fan[b]
    {
      TableAt(fan, b);
      InsideOf(header, TableBytes(fan), NameBytes(names) + rest, 4 * b);
      WordInside(mem, 8 + 4 * b, FourBytes(fan[b]));
      WordOfFour(fan[b]);
    }
    forall m | 0 <= m < |names|
      ensures m < |NamesOf(mem)| && NamesOf(mem)[m] == Firsts(names)[m]
    {
      NameAt(names, m);
      assert mem[1032 + 20 * m] == NameBytes(names)[20 * m];
    }
  }

  method CheckKnown(mem: seq<Byte>, ghost fan: seq<nat>, ghost firsts: seq<Byte>) returns (v: Verdict)
    requires NAMES <= |mem| && FanOf(mem) == fan && fan[255] == |firsts| <= |NamesOf(mem)|
    requires NamesOf(mem)[..|firsts|] == firsts
    ensures v.Passed? <==> Agrees(fan, firsts) && forall b :: 0 <= b < 256 ==> fan[b] - Low(fan, b) < 0x8000_0000
  {
    v := Check(mem);
    ReadableIff(fan, NamesOf(mem));
  }

  lemma ReadableIff(fan: Table, names: seq<Byte>)
    requires fan[255] <= |names|
    ensures Readable(fan, names) <==> forall b :: 0 <= b < 256 ==> fan[b] - Low(fan, b) < 0x8000_0000
  {
    forall b | 0 <= b < 256
      ensures Size(fan, b) == fan[b] - Low(fan, b)
    {
    }
  }

  /** Checking an index whose last entry counts its names: it passes exactly if no bucket has 2^31 names and the table
      agrees with the names. */
  method CheckWritten(header: seq<Byte>, fan: seq<nat>, names: seq<seq<Byte>>, rest: seq<Byte>) returns (v: Verdict)
    requires |header| == 8 && |fan| == 256 && AllFourBytes(fan) && AllNames(names) && fan[255] == |names|
    ensures v.Passed? <==>
            Agrees(fan, Firsts(names)) && forall b :: 0 <= b < 256 ==> fan[b] - Low(fan, b) < 0x8000_0000
  {
    LayoutRoundTrip(header, fan, names, rest);
    v := CheckKnown(IndexFile(header, fan, names, rest), fan, Firsts(names));
  }
}
