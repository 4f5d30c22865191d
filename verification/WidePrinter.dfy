/** The printer of wide-string initialisers: the loop in main of wide_char/make_complex_chinese.c. */
module WidePrinter {
  import opened CTypes

  // ----- The format

  function Digit(d: nat): char
    requires d < 16
  {
    "0123456789abcdef"[d]
  }

  function Digits(u: nat): (r: string)
    ensures u > 0 ==> r != ""
  {
    if u == 0 then "" else Digits(u / 16) + [Digit(u % 16)]
  }

  /** printf's %#x. */
  function Hex(u: nat): string {
    if u == 0 then "0" else "0x" + Digits(u)
  }

  const PREFIX: string := "static const wchar_t "

  /** The units as the printer lists them, each followed by a comma and a space. */
  function Listed(units: seq<nat>): string {
    if units == [] then "" else Hex(units[0]) + ", " + Listed(units[1..])
  }

  /** What stands between the braces. */
  function Inside(units: seq<nat>): string {
    Listed(units) + "0x00"
  }

  /** The text before the list. */
  function Header(name: string): string {
    PREFIX + "str_" + name + "[] = {"
  }

  function Line(name: string, units: seq<nat>): string {
    Header(name) + Inside(units) + "};\n"
  }

  // ----- Its lengths

  lemma Regroup4(h: string, c: string, l: string, x: string)
    ensures h + c + (l + x + c) == (h + c + l) + x + c
  {
  }

  lemma {:induction false} ListedConcat(a: seq<nat>, u: nat)
    ensures Listed(a + [u]) == Listed(a) + Hex(u) + ", "
    decreases |a|
  {
    if a == [] {
      assert a + [u] == [u] && [u][1..] == [];
    } else {
      assert (a + [u])[0] == a[0] && (a + [u])[1..] == a[1..] + [u];
      ListedConcat(a[1..], u);
      Regroup4(Hex(a[0]), ", ", Listed(a[1..]), Hex(u));
    }
  }

  lemma {:induction false} ListedGrows(a: seq<nat>, b: seq<nat>)
    ensures |Listed(a)| <= |Listed(a + b)|
    decreases |a|
  {
    if a != [] {
      assert (a + b)[0] == a[0] && (a + b)[1..] == a[1..] + b;
      ListedGrows(a[1..], b);
    }
  }

  lemma {:induction false} ListedLength(units: seq<nat>, k: nat)
    requires forall i :: 0 <= i < |units| ==> |Hex(units[i])| == k
    ensures |Listed(units)| == |units| * (k + 2)
    decreases |units|
  {
    if units != [] {
      ListedLength(units[1..], k);
      assert |units| * (k + 2) == (|units| - 1) * (k + 2) + k + 2;
    }
  }

  lemma LineLength(name: string, units: seq<nat>)
    ensures |Line(name, units)| == 38 + |name| + |Listed(units)|
  {
  }

  /** Nothing keeps wide strings of ordinary length out of the printer that do not fit its buffer. */
  lemma LongLine(u: nat)
    requires u == 0x4e2d
    ensures |Line("a", seq(199, _ => u))| == 1631
  {
    var units := seq(199, _ => u);
    assert u / 16 == 0x4e2 && 0x4e2 / 16 == 0x4e;
    assert |Digits(0x4e2)| == 3;
    assert |Digits(u)| == 4;
    ListedLength(units, 6);
    LineLength("a", units);
  }

  // ----- The print buffer

  /** What the buffer holds up to and including the terminator. */
  ghost predicate Holds(buf: array<char>, text: string)
    reads buf
  {
    |text| < buf.Length && buf[..|text|] == text && buf[|text|] == '\0'
  }

  /** snprintf to a position of the array with a limit of its own: whether it stays inside.
      At most size - 1 characters and a terminator are written, and nothing if the size is zero. */
  method Snprintf(buf: array<char>, at: nat, size: nat, text: string) returns (inside: bool)
    modifies buf
    ensures inside <==> at <= buf.Length && (size > 0 ==> at + Min(|text|, size - 1) < buf.Length)
    ensures inside && size > 0 ==> Holds(buf, old(buf[..at]) + text[..Min(|text|, size - 1)])
    ensures inside && size == 0 ==> buf[..] == old(buf[..])
  {
    if at > buf.Length {
      return false;
    }
    if size == 0 {
      return true;
    }
    var k := Min(|text|, size - 1);
    if at + k >= buf.Length {
      return false;
    }
    for i := 0 to k
      invariant buf[..at + i] == old(buf[..at]) + text[..i]
    {
      buf[at + i] := text[i];
      assert buf[..at + i + 1] == buf[..at + i] + [text[i]];
    }
    buf[at + k] := '\0';
    inside := true;
  }

  const CAPACITY: nat := 1280

  /** The state of the printing loop: n characters are due, and they are in the buffer unless it was too short. */
  ghost predicate Printed(buf: array<char>, n: nat, text: string)
    reads buf
  {
    buf.Length == CAPACITY && n == |text| && (n < CAPACITY ==> Holds(buf, text))
  }

  lemma Prefixes(a: string, b: string)
    ensures (a + b)[..|a|] == a && b[..|b|] == b
  {
  }

  /** One pass of the loop.  The size left is computed in size_t. */
  method PrintUnit(buf: array<char>, n0: nat, u: nat, ghost text: string) returns (inside: bool, n: nat)
    requires Printed(buf, n0, text)
    modifies buf
    ensures inside <==> |text| <= CAPACITY
    ensures inside ==> Printed(buf, n, text + (Hex(u) + ", "))
  {
    var piece := Hex(u) + ", ";
    n := n0;
    inside := Snprintf(buf, n, SizeT(CAPACITY - n), piece);
    n := n + |piece|;
    if inside && n < CAPACITY {
      Prefixes(text, piece);
    }
  }

  lemma Regroup(a: string, b: string, c: string, d: string)
    ensures (a + b) + (c + d) == a + (b + c + d)
  {
  }

  lemma ListedStep(front: string, units: seq<nat>, i: nat)
    requires i < |units|
    ensures (front + Listed(units[..i])) + (Hex(units[i]) + ", ") == front + Listed(units[..i + 1])
  {
    assert units[..i + 1] == units[..i] + [units[i]];
    ListedConcat(units[..i], units[i]);
    Regroup(front, Listed(units[..i]), Hex(units[i]), ", ");
  }

  lemma ListedFront(units: seq<nat>, i: nat)
    requires i < |units|
    ensures |Listed(units[..i])| <= |Listed(units)|
  {
    ListedGrows(units[..i], units[i..]);
    assert units[..i] + units[i..] == units;
  }

  method PrintUnits(buf: array<char>, n0: nat, units: seq<nat>, ghost front: string) returns (inside: bool, n: nat)
    requires Printed(buf, n0, front)
    modifies buf
    ensures !inside ==> |front + Listed(units)| > CAPACITY
    ensures inside ==> Printed(buf, n, front + Listed(units))
  {
    n := n0;
    assert front + Listed(units[..0]) == front;
    for i := 0 to |units|
      invariant Printed(buf, n, front + Listed(units[..i]))
    {
      ListedStep(front, units, i);
      ListedFront(units, i);
      inside, n := PrintUnit(buf, n, units[i], front + Listed(units[..i]));
      if !inside {
        return;
      }
    }
    assert units[..|units|] == units;
    inside := true;
  }

  lemma Closing(front: string, list: string)
    ensures (front + list) + "0x00};\n" == front + (list + "0x00") + "};\n"
  {
  }

  /** The start of the line.  The size given is four times that of the buffer. */
  method PrintHeader(buf: array<char>, front: string) returns (inside: bool, n: nat)
    requires buf.Length == CAPACITY
    modifies buf
    ensures inside <==> |front| < CAPACITY
    ensures inside ==> Printed(buf, n, front)
  {
    inside := Snprintf(buf, 0, SizeT(CAPACITY * 4), front);
    n := |front|;
    if inside {
      Prefixes("", front);
      assert buf[..0] + front == front;
    }
  }

  /** The end of the line, with the size left in four times the buffer. */
  method PrintEnd(buf: array<char>, n0: nat, end: string, ghost text: string) returns (inside: bool, n: nat)
    requires Printed(buf, n0, text) && 0 < |end| < CAPACITY
    modifies buf
    ensures inside <==> |text + end| < CAPACITY
    ensures inside ==> Printed(buf, n, text + end)
  {
    inside := Snprintf(buf, n0, SizeT(CAPACITY * 4 - n0), end);
    n := n0 + |end|;
    if inside {
      Prefixes(text, end);
    }
  }

  /** The body of the loop over the strings: whether every write stays inside buf, and what fwrite puts out. */
  method PrintLine(name: string, units: seq<nat>) returns (inside: bool, line: string)
    ensures inside <==> |Line(name, units)| < 1280
    ensures inside ==> line == Line(name, units)
  {
    var buf := new char[1280];
    var n;
    line := "";
    Closing(Header(name), Listed(units));
    inside, n := PrintHeader(buf, Header(name));
    if inside {
      inside, n := PrintUnits(buf, n, units, Header(name));
    }
    if inside {
      inside, n := PrintEnd(buf, n, "0x00};\n", Header(name) + Listed(units));
    }
    if inside {
      line := buf[..n];
    }
  }
}
