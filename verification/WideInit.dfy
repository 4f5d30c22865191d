/** Wide strings printed by WidePrinter and read back by WideParser, as single lines and as whole files. */
module WideInit {
  import opened CTypes
  import opened WidePrinter
  import opened WideParser
  import C = CConstants

  // ----- One number

  lemma DigitValue(num: nat, d: nat)
    requires d < 16
    ensures Accumulate(num, Digit(d)) == num * 16 + d
  {
    assert d == 0 || d == 1 || d == 2 || d == 3 || d == 4 || d == 5 || d == 6 || d == 7
        || d == 8 || d == 9 || d == 10 || d == 11 || d == 12 || d == 13 || d == 14 || d == 15;
  }

  lemma {:induction false} ValueOfDigits(u: nat)
    ensures Value("0x" + Digits(u)) == u
  {
    var s := "0x" + Digits(u);
    if u == 0 {
      assert s == "0x" && s[..1] == "0" && "0"[..0] == "";
      assert Value("0") == Accumulate(Value(""), '0');
    } else {
      assert s[..|s| - 1] == "0x" + Digits(u / 16) && s[|s| - 1] == Digit(u % 16);
      ValueOfDigits(u / 16);
      DigitValue(u / 16, u % 16);
    }
  }

  lemma ValueOfHex(u: nat)
    requires u > 0
    ensures Value(Hex(u)) == u
  {
    ValueOfDigits(u);
  }

  // ----- The list of units

  lemma {:induction false} DigitsArePlain(u: nat)
    ensures forall i :: 0 <= i < |Digits(u)| ==> !Delim(Digits(u)[i])
  {
    if u > 0 {
      DigitsArePlain(u / 16);
    }
  }

  lemma HexIsPlain(u: nat)
    ensures Plain(Hex(u))
  {
    DigitsArePlain(u);
  }

  function HexAll(units: seq<nat>): seq<string> {
    seq(|units|, i requires 0 <= i < |units| => Hex(units[i]))
  }

  lemma HexAllStep(units: seq<nat>)
    requires units != []
    ensures HexAll(units) == [Hex(units[0])] + HexAll(units[1..])
  {
  }

  lemma InsideStep(units: seq<nat>)
    requires units != []
    ensures Inside(units) == Hex(units[0]) + ", " + Inside(units[1..])
  {
    var h, l := Hex(units[0]), Listed(units[1..]);
    assert (h + ", " + l) + "0x00" == h + ", " + (l + "0x00");
  }

  /** The tokens of the printed list are the printed units and the closing zero. */
  lemma {:induction false} TokensOfInside(units: seq<nat>)
    ensures Tokens(Inside(units)) == HexAll(units) + ["0x00"]
    decreases |units|
  {
    if units == [] {
      assert "" + "0x00" == "0x00";
      TokensFront("0x00", "");
    } else {
      HexIsPlain(units[0]);
      TokensFront(Hex(units[0]), Inside(units[1..]));
      InsideStep(units);
      HexAllStep(units);
      TokensOfInside(units[1..]);
    }
  }

  lemma RowOfUnit(rows: seq<string>, i: nat, u: nat)
    requires i < |rows| && rows[i] == Hex(u) && u > 0 && |Hex(u)| < 200
    ensures Value(RowText(rows, i)) == u
  {
    ValueOfHex(u);
  }

  lemma RowOfZero(rows: seq<string>, i: nat)
    requires i < |rows| && rows[i] == "0x00"
    ensures |rows[i]| < 200 && Value(RowText(rows, i)) == 0
  {
    ZeroValue();
  }

  /** The units come back, with the closing zero, when there are fewer than 200; more are cut off there. */
  lemma ValuesOfInside(units: seq<nat>)
    requires forall i :: 0 <= i < |units| ==> units[i] > 0 && |Hex(units[i])| < 200
    ensures ValuesOf(Inside(units)) == if |units| < 200 then units + [0] else units[..200]
  {
    RowsOfInside(units);
    var data := Inside(units);
    forall i | 0 <= i < |Rows(data)|
      ensures ValuesOf(data)[i] == if i < |units| then units[i] else 0
    {
      if i < |units| {
        RowOfUnit(Rows(data), i, units[i]);
      } else {
        RowOfZero(Rows(data), i);
      }
    }
  }

  /** Each of the first 200 units and the closing zero is a row of its own. */
  lemma RowsOfInside(units: seq<nat>)
    ensures |Rows(Inside(units))| == Min(200, |units| + 1)
    ensures forall i :: 0 <= i < |Rows(Inside(units))| ==>
              Rows(Inside(units))[i] == if i < |units| then Hex(units[i]) else "0x00"
  {
    TokensOfInside(units);
  }

  lemma ZeroValue()
    ensures Value("0x00") == 0
  {
    assert "0x00"[..3] == "0x0" && "0x0"[..2] == "0x" && "0x"[..1] == "0" && "0"[..0] == "";
    assert Value("0") == 0;
    assert Value("0x") == 0;
    assert Value("0x0") == 0;
  }

  // ----- What a C compiler makes of it

  lemma {:induction false} DigitsInC(u: nat)
    ensures C.AllHexadecimal(Digits(u)) && C.ValueIn(16, Digits(u)) == u
  {
    if u > 0 {
      DigitsInC(u / 16);
      DigitInC(u % 16);
      var s := Digits(u);
      assert s[..|s| - 1] == Digits(u / 16) && s[|s| - 1] == Digit(u % 16);
    }
  }

  lemma DigitInC(d: nat)
    requires d < 16
    ensures C.Hexadecimal(Digit(d)) && C.DigitValue(Digit(d)) == d
  {
    assert d == 0 || d == 1 || d == 2 || d == 3 || d == 4 || d == 5 || d == 6 || d == 7
        || d == 8 || d == 9 || d == 10 || d == 11 || d == 12 || d == 13 || d == 14 || d == 15;
  }

  /** A printed number is a constant of that value. */
  lemma HexInC(u: nat)
    ensures C.ConstantOf(Hex(u)) == C.Constant(u)
  {
    DigitsInC(u);
    if u == 0 {
      assert "0"[..0] == "";
    } else {
      assert Hex(u)[2..] == Digits(u);
    }
  }

  lemma ZeroInC()
    ensures C.ConstantOf("0x00") == C.Constant(0)
  {
    assert "0x00"[2..] == "00" && "00"[..1] == "0" && "0"[..0] == "";
  }

  lemma CommasFront(token: string, others: seq<string>)
    requires others != []
    ensures C.Commas([token] + others) == token + ", " + C.Commas(others)
  {
    assert ([token] + others)[1..] == others;
  }

  lemma {:induction false} InsideInC(units: seq<nat>)
    ensures Inside(units) == C.Commas(HexAll(units) + ["0x00"])
    decreases |units|
  {
    if units == [] {
      assert HexAll(units) + ["0x00"] == ["0x00"] && "" + "0x00" == "0x00";
    } else {
      var others := HexAll(units[1..]) + ["0x00"];
      InsideStep(units);
      HexAllStep(units);
      InsideInC(units[1..]);
      CommasFront(Hex(units[0]), others);
      assert HexAll(units) + ["0x00"] == [Hex(units[0])] + others;
    }
  }

  /** Every printed line defines an array of wide characters, and its constants have the values of the units and of the
      zero behind them. */
  lemma LineInC(name: string, units: seq<nat>) returns (tokens: seq<string>)
    ensures Line(name, units) == "static const wchar_t " + "str_" + name + "[] = {" + C.Commas(tokens) + "};\n"
    ensures |tokens| == |units| + 1
    ensures forall i :: 0 <= i <= |units| ==>
              C.ConstantOf(tokens[i]) == C.Constant(if i < |units| then units[i] else 0)
  {
    tokens := HexAll(units) + ["0x00"];
    InsideInC(units);
    ZeroInC();
    forall i | 0 <= i < |units|
      ensures C.ConstantOf(tokens[i]) == C.Constant(units[i])
    {
      HexInC(units[i]);
    }
  }

  /** The line for one letter, written out. */
  lemma ExampleLine(u: nat)
    requires u == 0x41
    ensures Line("a", [u]) == "static const wchar_t str_a[] = {0x41, 0x00};\n" && Hex(0) == "0"
  {
    assert u / 16 == 4 && u % 16 == 1 && 4 / 16 == 0;
    assert Digits(4) == "4" by {
      assert "" + [Digit(4)] == "4";
    }
    assert Digits(u) == "41";
    assert Listed([u]) == Hex(u) + ", " + "" by {
      assert [u][1..] == [];
    }
    assert Hex(u) == "0x41";
  }

  // ----- One line

  lemma DataShape(inside: string)
    requires inside != ""
    ensures var data := inside + "};\n"; CutLast(data, '}', |data|) == inside
  {
    var data := inside + "};\n";
    CutLastIs(data, '}', |inside|, |data|);
    assert data[..|inside|] == inside;
  }

  lemma RestShape(full: string, tail: string)
    requires '[' !in full
    ensures var rest := full + ("[] = {" + tail);
            IndexOf(rest, '[') == |full| && |full| + 6 <= |rest| && rest[|full| + 6..] == tail
  {
    var rest := full + ("[] = {" + tail);
    assert rest[|full|] == '[' && rest[..|full|] == full;
    FirstIndex(rest, '[', |full|);
  }

  lemma LineShape(front: string, full: string, inside: string)
    requires '[' !in full && inside != "" && front == PREFIX
    ensures var line := front + (full + ("[] = {" + (inside + "};\n")));
            Complete(line) && NodeOf(line).data == inside && full + "\0" <= FieldOf(line)
  {
    var tail := inside + "};\n";
    var rest := full + ("[] = {" + tail);
    var line := front + rest;
    assert line[|front|..] == rest && front <= line;
    RestShape(full, tail);
    assert line[|front| + |full| + 6..] == rest[|full| + 6..];
    DataShape(inside);
    assert rest[|full| := '\0'][..|full| + 1] == full + "\0";
  }

  /** The name in an array that starts with it and a terminator. */
  lemma NameShape(node: Node, name: string)
    requires '\0' !in name && "str_" + name + "\0" <= node.field
    ensures node.FullName() == "str_" + name && node.Shown() == name
  {
    var full := "str_" + name;
    StringOf(node.field, full);
    assert node.field[..|full| + 1] == full + "\0";
    assert node.field[4..][..|name| + 1] == node.field[..|full| + 1][4..] == name + "\0";
    StringOf(node.field[4..], name);
  }

  /** Parsing a printed line gives the name with its prefix and the list between the braces. */
  lemma ParsedLine(name: string, units: seq<nat>)
    requires '[' !in name && '\0' !in name
    ensures Complete(Line(name, units))
    ensures var node := NodeOf(Line(name, units));
            node.FullName() == "str_" + name && node.Shown() == name && node.data == Inside(units)
  {
    LineShape(PREFIX, "str_" + name, Inside(units));
    LineGroups(PREFIX, name, Inside(units));
    NameShape(NodeOf(Line(name, units)), name);
  }

  lemma LineGroups(front: string, name: string, inside: string)
    ensures front + "str_" + name + "[] = {" + inside + "};\n"
         == front + (("str_" + name) + ("[] = {" + (inside + "};\n")))
  {
  }

  // ----- Lines of a file

  /** Nothing in it ends a line or a string. */
  predicate Unbroken(s: string) {
    '\n' !in s && '\0' !in s
  }

  lemma {:induction false} DigitsUnbroken(u: nat)
    ensures Unbroken(Digits(u))
  {
    if u > 0 {
      DigitsUnbroken(u / 16);
    }
  }

  lemma {:induction false} ListedUnbroken(units: seq<nat>)
    ensures Unbroken(Listed(units))
    decreases |units|
  {
    if units != [] {
      DigitsUnbroken(units[0]);
      ListedUnbroken(units[1..]);
    }
  }

  /** A text of one line. */
  predicate OneLine(s: string) {
    0 < |s| <= LIMIT && s[|s| - 1] == '\n' && Unbroken(s[..|s| - 1])
  }

  lemma Ended(a: string, b: string)
    requires Unbroken(a) && Unbroken(b) && |a| + |b| + 3 <= LIMIT
    ensures OneLine(a + b + "};\n")
  {
    var s := a + b + "};\n";
    assert s[..|s| - 1] == a + b + "};";
  }

  lemma HeaderUnbroken(front: string, name: string)
    requires Unbroken(front) && Unbroken(name)
    ensures Unbroken(front + "str_" + name + "[] = {")
  {
  }

  lemma PrefixUnbroken()
    ensures Unbroken(PREFIX)
  {
  }

  lemma InsideUnbroken(units: seq<nat>)
    ensures Unbroken(Inside(units))
  {
    ListedUnbroken(units);
  }

  lemma LineIsOne(name: string, units: seq<nat>)
    requires Unbroken(name) && |Line(name, units)| < CAPACITY
    ensures OneLine(Line(name, units))
  {
    PrefixUnbroken();
    HeaderUnbroken(PREFIX, name);
    InsideUnbroken(units);
    Ended(Header(name), Inside(units));
  }

  /** fgets takes a line as it is, and goes on behind it. */
  lemma BufferOfLine(line: string, rest: string, was: string)
    requires OneLine(line)
    ensures HoldsLine(Overlay(was, line), line)
    ensures Buffers(line + rest, was) == [Overlay(was, line)] + Buffers(rest, Overlay(was, line))
  {
    var text, n := line + rest, |line|;
    assert text[..n - 1] == line[..n - 1] && text[n - 1] == '\n' && text[..n] == line && text[n..] == rest;
    TakenIs(text, n);
    assert line[..n - 1] + ['\n'] == line;
  }

  /** The text of a file made of lines. */
  function Text(lines: seq<string>): string {
    if lines == [] then "" else lines[0] + Text(lines[1..])
  }

  /** Reading such a file gives the lines, whatever was in the buffer. */
  lemma {:induction false} BuffersOfText(lines: seq<string>, was: string)
    requires forall i :: 0 <= i < |lines| ==> OneLine(lines[i])
    ensures var bufs := Buffers(Text(lines), was);
            |bufs| == |lines| && forall i :: 0 <= i < |lines| ==> HoldsLine(bufs[i], lines[i])
    decreases |lines|
  {
    if lines != [] {
      var first := Overlay(was, lines[0]);
      BufferOfLine(lines[0], Text(lines[1..]), was);
      BuffersOfText(lines[1..], first);
      Shift(Buffers(Text(lines), was), first, Buffers(Text(lines[1..]), first), lines);
    }
  }

  lemma Shift(bufs: seq<string>, first: string, others: seq<string>, lines: seq<string>)
    requires lines != [] && bufs == [first] + others && |others| == |lines| - 1 && HoldsLine(first, lines[0])
    requires forall i :: 0 <= i < |others| ==> HoldsLine(others[i], lines[1..][i])
    ensures forall i :: 0 <= i < |lines| ==> HoldsLine(bufs[i], lines[i])
  {
    forall i | 0 < i < |lines|
      ensures HoldsLine(bufs[i], lines[i])
    {
      assert bufs[i] == others[i - 1] && lines[i] == lines[1..][i - 1];
    }
  }

  lemma {:induction false} TextConcat(lines: seq<string>, line: string)
    ensures Text(lines + [line]) == Text(lines) + line
    decreases |lines|
  {
    if lines == [] {
      assert lines + [line] == [line] && [line][1..] == [] && line + "" == "" + line;
    } else {
      assert (lines + [line])[0] == lines[0] && (lines + [line])[1..] == lines[1..] + [line];
      TextConcat(lines[1..], line);
      assert lines[0] + (Text(lines[1..]) + line) == (lines[0] + Text(lines[1..])) + line;
    }
  }

  lemma TextStep(lines: seq<string>, i: nat)
    requires i < |lines|
    ensures Text(lines[..i + 1]) == Text(lines[..i]) + lines[i]
  {
    assert lines[..i + 1] == lines[..i] + [lines[i]];
    TextConcat(lines[..i], lines[i]);
  }

  // ----- Whole files

  datatype Entry = Entry(name: string, units: seq<nat>) {

    function Line(): string {
      WidePrinter.Line(name, units)
    }

    /** A name that the format can carry, and a wide string of unsigned ints. */
    predicate Sound() {
      '[' !in name && Unbroken(name) && forall i :: 0 <= i < |units| ==> 0 < units[i] < 0x1_0000_0000
    }

    /** The line fits the printer's buffer. */
    predicate Fits() {
      |Line()| < CAPACITY
    }

    /** The units that the parser looks at are in the range of its int. */
    predicate Small() {
      forall i :: 0 <= i < |units| && i < 200 ==> units[i] < INT_END
    }

    /** The units that come back: all of them and a closing zero, or the first 200. */
    function Returned(): seq<nat> {
      if |units| < 200 then units + [0] else units[..200]
    }
  }

  function Lines(entries: seq<Entry>): (r: seq<string>)
    ensures |r| == |entries| && forall i {:trigger entries[i]} :: 0 <= i < |entries| ==> r[i] == entries[i].Line()
  {
    seq(|entries|, i requires 0 <= i < |entries| => entries[i].Line())
  }

  function Pow16(k: nat): nat {
    if k == 0 then 1 else 16 * Pow16(k - 1)
  }

  lemma {:induction false} DigitsShort(u: nat, k: nat)
    requires u < Pow16(k)
    ensures |Digits(u)| <= k
    decreases k
  {
    if u > 0 {
      DigitsShort(u / 16, k - 1);
    }
  }

  lemma HexShort(u: nat)
    requires u < 0x1_0000_0000
    ensures |Hex(u)| < 200
  {
    assert Pow16(8) == 0x1_0000_0000;
    DigitsShort(u, 8);
  }

  lemma InsideConvertible(e: Entry)
    requires e.Sound()
    ensures Convertible(Inside(e.units)) <==> e.Small()
  {
    RowsOfInside(e.units);
    var rows := Rows(Inside(e.units));
    forall i | 0 <= i < |rows|
      ensures |rows[i]| < 200 && Value(RowText(rows, i)) == if i < |e.units| then e.units[i] else 0
    {
      if i < |e.units| {
        HexShort(e.units[i]);
        RowOfUnit(rows, i, e.units[i]);
      } else {
        RowOfZero(rows, i);
      }
    }
  }

  /** A node that carries the entry. */
  ghost predicate Carries(node: Node, e: Entry) {
    && node.FullName() == "str_" + e.name && node.Shown() == e.name
    && ValuesOf(node.data) == e.Returned() && (Convertible(node.data) <==> e.Small())
  }

  lemma LineCarries(e: Entry)
    requires e.Sound()
    ensures Complete(e.Line()) && Carries(NodeOf(e.Line()), e)
  {
    ParsedLine(e.name, e.units);
    forall i | 0 <= i < |e.units|
      ensures |Hex(e.units[i])| < 200
    {
      HexShort(e.units[i]);
    }
    ValuesOfInside(e.units);
    InsideConvertible(e);
  }

  /** The nodes of the first k lines, the last one first. */
  function Nodes(lines: seq<string>, k: nat): seq<Node>
    requires k <= |lines| && forall i {:trigger Complete(lines[i])} :: 0 <= i < |lines| ==> Complete(lines[i])
  {
    if k == 0 then [] else [NodeOf(lines[k - 1])] + Nodes(lines, k - 1)
  }

  lemma {:induction false} NodesAt(lines: seq<string>, k: nat)
    requires k <= |lines| && forall i {:trigger Complete(lines[i])} :: 0 <= i < |lines| ==> Complete(lines[i])
    ensures |Nodes(lines, k)| == k && forall i :: 0 <= i < k ==> Nodes(lines, k)[i] == NodeOf(lines[k - 1 - i])
  {
    if k > 0 {
      NodesAt(lines, k - 1);
    }
  }

  lemma CollectedNext(all: seq<string>, front: seq<string>, buf: string, line: string)
    requires AllWithin(front) && HoldsLine(buf, line) && Complete(line) && all == front + [buf]
    ensures AllWithin(all) && Collected(all) == [NodeOf(line)] + Collected(front)
  {
    NodeIsOfLine(buf, line);
    CollectedStep(front, buf);
  }

  lemma OneMore(bufs: seq<string>, k: nat)
    requires k < |bufs|
    ensures bufs[..k + 1] == bufs[..k] + [bufs[k]]
  {
  }

  lemma {:induction false} CollectedAll(bufs: seq<string>, lines: seq<string>, k: nat)
    requires k <= |bufs| == |lines|
    requires forall i {:trigger HoldsLine(bufs[i], lines[i])} :: 0 <= i < |lines| ==> HoldsLine(bufs[i], lines[i])
    requires forall i {:trigger Complete(lines[i])} :: 0 <= i < |lines| ==> Complete(lines[i])
    ensures AllWithin(bufs[..k]) && Collected(bufs[..k]) == Nodes(lines, k)
    decreases k
  {
    if k > 0 {
      OneMore(bufs, k - 1);
      CollectedAll(bufs, lines, k - 1);
      CollectedNext(bufs[..k], bufs[..k - 1], bufs[k - 1], lines[k - 1]);
    }
  }

  lemma FileOfLines(lines: seq<string>, bufs: seq<string>, n: nat)
    requires forall i {:trigger OneLine(lines[i])} :: 0 <= i < |lines| ==> OneLine(lines[i])
    requires forall i {:trigger Complete(lines[i])} :: 0 <= i < |lines| ==> Complete(lines[i])
    requires bufs == Buffers(Text(lines), "") && n == |lines|
    ensures AllWithin(bufs) && Collected(bufs) == Nodes(lines, n)
  {
    BuffersOfText(lines, "");
    CollectedAll(bufs, lines, n);
    AllOfThem(bufs);
  }

  lemma AllOfThem(bufs: seq<string>)
    ensures bufs[..|bufs|] == bufs
  {
  }

  /** Reading the file of all the lines gives one node for each entry, the last one first. */
  lemma FileRoundTrip(entries: seq<Entry>)
    requires forall i :: 0 <= i < |entries| ==> entries[i].Sound() && entries[i].Fits()
    ensures var bufs := Buffers(Text(Lines(entries)), "");
            AllWithin(bufs) && |Collected(bufs)| == |entries|
            && forall i :: 0 <= i < |entries| ==> Carries(Collected(bufs)[i], entries[|entries| - 1 - i])
  {
    var lines := Lines(entries);
    forall i | 0 <= i < |entries|
      ensures OneLine(lines[i]) && Complete(lines[i]) && Carries(NodeOf(lines[i]), entries[i])
    {
      LineIsOne(entries[i].name, entries[i].units);
      LineCarries(entries[i]);
    }
    FileOfLines(lines, Buffers(Text(lines), ""), |lines|);
    NodesAt(lines, |lines|);
  }

  // ----- The two programs

  /** The body of the loop over the strings in main of the printer. */
  method PrintEntry(e: Entry, text: string, ghost line: string) returns (inside: bool, more: string)
    requires line == e.Line()
    ensures inside <==> |line| < CAPACITY
    ensures inside ==> more == text + line
  {
    var printed;
    inside, printed := PrintLine(e.name, e.units);
    more := text + printed;
  }

  lemma FitIffShort(entries: seq<Entry>)
    ensures (forall i :: 0 <= i < |entries| ==> entries[i].Fits())
       <==> (forall i :: 0 <= i < |entries| ==> |Lines(entries)[i]| < CAPACITY)
  {
    var lines := Lines(entries);
    forall i | 0 <= i < |entries|
      ensures entries[i].Fits() <==> |lines[i]| < CAPACITY
    {
    }
  }

  /** That loop, in terms of the lines it prints. */
  method PrintLines(entries: seq<Entry>, ghost lines: seq<string>) returns (inside: bool, text: string)
    requires |lines| == |entries|
    requires forall i {:trigger entries[i]} :: 0 <= i < |entries| ==> lines[i] == entries[i].Line()
    ensures inside <==> forall i :: 0 <= i < |lines| ==> |lines[i]| < CAPACITY
    ensures inside ==> text == Text(lines)
  {
    text := "";
    for i := 0 to |entries|
      invariant text == Text(lines[..i]) && forall k :: 0 <= k < i ==> |lines[k]| < CAPACITY
    {
      TextStep(lines, i);
      inside, text := PrintEntry(entries[i], text, lines[i]);
      if !inside {
        return;
      }
    }
    assert lines[..|entries|] == lines;
    inside := true;
  }

  method PrintFile(entries: seq<Entry>) returns (inside: bool, text: string)
    ensures inside <==> forall i :: 0 <= i < |entries| ==> entries[i].Fits()
    ensures inside ==> text == Text(Lines(entries))
  {
    inside, text := PrintLines(entries, Lines(entries));
    FitIffShort(entries);
  }

  /** The loop over the nodes in main of the parser. */
  method ShowAll(root: seq<Node>) returns (defined: bool, shown: seq<Entry>)
    ensures defined <==> forall i :: 0 <= i < |root| ==> Convertible(root[i].data)
    ensures defined ==> |shown| == |root|
    ensures defined ==> forall i :: 0 <= i < |root| ==> shown[i] == Entry(root[i].Shown(), ValuesOf(root[i].data))
  {
    shown := [];
    for i := 0 to |root|
      invariant |shown| == i
      invariant forall k :: 0 <= k < i ==> Convertible(root[k].data)
      invariant forall k :: 0 <= k < i ==> shown[k] == Entry(root[k].Shown(), ValuesOf(root[k].data))
    {
      var units;
      defined, units := Convert(root[i].data);
      if !defined {
        return;
      }
      shown := shown + [Entry(root[i].Shown(), units)];
    }
    defined := true;
  }

  /** Printing a file and showing it again: defined exactly if every line fits the print buffer and every unit
      an int, and then the names and units come back, the last entry first. */
  method PrintAndShow(entries: seq<Entry>) returns (defined: bool, shown: seq<Entry>)
    requires forall i :: 0 <= i < |entries| ==> entries[i].Sound()
    ensures defined <==> forall i :: 0 <= i < |entries| ==> entries[i].Fits() && entries[i].Small()
    ensures defined ==> |shown| == |entries|
    ensures defined ==> forall i :: 0 <= i < |entries| ==>
              var e := entries[|entries| - 1 - i]; shown[i] == Entry(e.name, e.Returned())
  {
    var text, root;
    shown := [];
    defined, text := PrintFile(entries);
    if !defined {
      return;
    }
    FileRoundTrip(entries);
    defined, root := ReadConf(text);
    defined, shown := ShowAll(root);
    ConvertibleIffSmall(root, entries);
  }

  lemma ConvertibleIffSmall(root: seq<Node>, entries: seq<Entry>)
    requires |root| == |entries| && forall i :: 0 <= i < |entries| ==> Carries(root[i], entries[|entries| - 1 - i])
    ensures (forall i :: 0 <= i < |root| ==> Convertible(root[i].data))
       <==> (forall i :: 0 <= i < |entries| ==> entries[i].Small())
  {
    var n := |root|;
    if forall i :: 0 <= i < n ==> Convertible(root[i].data) {
      forall i | 0 <= i < n
        ensures entries[i].Small()
      {
        assert Convertible(root[n - 1 - i].data);
      }
    }
  }
}
