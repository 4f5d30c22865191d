/** The parser of wide-string initialisers: wide_char/hex_to_str.c. */
module WideParser {
  import opened CTypes
  import opened WidePrinter
  import C = CConstants

  // ----- Hexadecimal numbers

  /** The effect of one character in hex_str_to_bin; anything but a lower-case hexadecimal digit is passed over. */
  function Accumulate(num: nat, c: char): nat {
    if '0' <= c <= '9' then num * 16 + (c as int - '0' as int)
    else if 'a' <= c <= 'f' then num * 16 + (c as int - 'a' as int + 10)
    else num
  }

  function Value(s: string): nat {
    if s == "" then 0 else Accumulate(Value(s[..|s| - 1]), s[|s| - 1])
  }

  /** The characters that count. */
  function Counting(s: string): (r: string)
    ensures forall i :: 0 <= i < |r| ==> C.Hexadecimal(r[i])
  {
    if s == "" then ""
    else
      var c := s[|s| - 1];
      Counting(s[..|s| - 1]) + if '0' <= c <= '9' || 'a' <= c <= 'f' then [c] else ""
  }

  /** The number is that of the lower-case hexadecimal digits, whatever stands between them. */
  lemma {:induction false} ValueIsOfDigits(s: string)
    ensures Value(s) == C.ValueIn(16, Counting(s))
  {
    if s != "" {
      var front, c := s[..|s| - 1], s[|s| - 1];
      ValueIsOfDigits(front);
      if '0' <= c <= '9' || 'a' <= c <= 'f' {
        assert Counting(s)[..|Counting(s)| - 1] == Counting(front);
      } else {
        assert Counting(s) == Counting(front);
      }
    }
  }

  lemma {:induction false} ValueGrows(s: string, j: nat)
    requires j <= |s|
    ensures Value(s[..j]) <= Value(s)
    decreases |s|
  {
    if j < |s| {
      var front := s[..|s| - 1];
      assert front[..j] == s[..j];
      ValueGrows(front, j);
    } else {
      assert s[..j] == s;
    }
  }

  /** hex_str_to_bin: whether its int never overflows, and the number. */
  method HexStrToBin(hex: string) returns (defined: bool, num: nat)
    ensures defined <==> Value(hex) < INT_END
    ensures defined ==> num == Value(hex)
  {
    num := 0;
    for j := 0 to |hex|
      invariant num == Value(hex[..j]) < INT_END
    {
      assert hex[..j + 1][..j] == hex[..j];
      ValueGrows(hex, j + 1);
      if '0' <= hex[j] <= '9' {
        num := num * 16;
        num := num + (hex[j] as int - '0' as int);
      } else if 'a' <= hex[j] <= 'f' {
        num := num * 16;
        num := num + (hex[j] as int - 'a' as int + 10);
      }
      if num >= INT_END {
        return false, num;
      }
    }
    assert hex[..|hex|] == hex;
    defined := true;
  }

  // ----- Tokens

  predicate Delim(c: char) {
    c == ',' || c == ' '
  }

  /** The length of the token at the front. */
  function Run(s: string): (n: nat)
    ensures n <= |s| && (forall i :: 0 <= i < n ==> !Delim(s[i])) && (n < |s| ==> Delim(s[n]))
  {
    if s == "" || Delim(s[0]) then 0 else 1 + Run(s[1..])
  }

  /** All the tokens strtok finds. */
  function Tokens(s: string): seq<string>
    decreases |s|
  {
    if s == "" then []
    else if Delim(s[0]) then Tokens(s[1..])
    else [s[..Run(s)]] + Tokens(s[Run(s)..])
  }

  predicate Plain(w: string) {
    w != "" && forall i :: 0 <= i < |w| ==> !Delim(w[i])
  }

  lemma {:induction false} RunOfToken(w: string, rest: string)
    requires (forall i :: 0 <= i < |w| ==> !Delim(w[i])) && (rest == "" || Delim(rest[0]))
    ensures Run(w + rest) == |w|
    decreases |w|
  {
    if w == "" {
      assert w + rest == rest;
    } else {
      assert (w + rest)[0] == w[0] && (w + rest)[1..] == w[1..] + rest;
      RunOfToken(w[1..], rest);
    }
  }

  lemma TokensFront(w: string, rest: string)
    requires Plain(w)
    ensures Tokens(w + ", " + rest) == [w] + Tokens(rest)
    ensures Tokens(w) == [w]
  {
    var s := w + ", " + rest;
    assert s[|w|] == ',' && s[0] == w[0];
    RunOfToken(w, ", " + rest);
    assert w + (", " + rest) == s;
    RunOfToken(w, "");
    assert w + "" == w;
    assert s[..|w|] == w && s[|w|..] == ", " + rest;
    assert (", " + rest)[1..] == " " + rest && (" " + rest)[1..] == rest;
    assert Tokens(s[|w|..]) == Tokens(" " + rest) == Tokens(rest);
    assert w[..|w|] == w && w[|w|..] == "";
  }

  /** A string without its commas and spaces. */
  function Undelimited(s: string): string {
    if s == "" then "" else (if s[0] == ',' || s[0] == ' ' then "" else [s[0]]) + Undelimited(s[1..])
  }

  /** How many runs of other characters it has. */
  function RunsIn(s: string, after: bool): nat
    decreases |s|
  {
    if s == "" then 0
    else if s[0] == ',' || s[0] == ' ' then RunsIn(s[1..], true)
    else (if after then 1 else 0) + RunsIn(s[1..], false)
  }

  function Concat(tokens: seq<string>): string {
    if tokens == [] then "" else tokens[0] + Concat(tokens[1..])
  }

  lemma Shifted(s: string, n: nat)
    requires n + 1 <= |s|
    ensures s[..n + 1] == [s[0]] + s[1..][..n] && s[1..][n..] == s[n + 1..]
  {
  }

  lemma {:induction false} RunKept(s: string)
    ensures Undelimited(s) == s[..Run(s)] + Undelimited(s[Run(s)..])
    decreases |s|
  {
    if Run(s) == 0 {
      assert s[..0] == "" && s[0..] == s;
    } else {
      var n := Run(s) - 1;
      RunKept(s[1..]);
      Shifted(s, n);
      UndelimitedStep(s, s[1..][..n], Undelimited(s[n + 1..]));
    }
  }

  lemma UndelimitedStep(s: string, front: string, rest: string)
    requires s != "" && !Delim(s[0]) && Undelimited(s[1..]) == front + rest
    ensures Undelimited(s) == ([s[0]] + front) + rest
  {
  }

  lemma {:induction false} RunCounts(s: string, after: bool)
    ensures RunsIn(s, after) == RunsIn(s[Run(s)..], after && Run(s) == 0) + if after && Run(s) > 0 then 1 else 0
    decreases |s|
  {
    if Run(s) == 0 {
      assert s[0..] == s;
    } else {
      Shifted(s, Run(s) - 1);
      RunCounts(s[1..], false);
    }
  }

  /** The tokens are the runs of characters that are neither comma nor space: without these the tokens make up the
      string, none is empty or holds one, and there are as many as runs. */
  lemma {:induction false} TokensAreRuns(s: string)
    ensures Concat(Tokens(s)) == Undelimited(s) && |Tokens(s)| == RunsIn(s, true)
    ensures forall i :: 0 <= i < |Tokens(s)| ==>
              Tokens(s)[i] != "" && ',' !in Tokens(s)[i] && ' ' !in Tokens(s)[i]
    decreases |s|
  {
    if s != "" {
      if Delim(s[0]) {
        TokensAreRuns(s[1..]);
      } else {
        var rest := s[Run(s)..];
        RunKept(s);
        RunCounts(s, true);
        TokensAreRuns(rest);
        assert Tokens(s) == [s[..Run(s)]] + Tokens(rest);
        assert rest == "" || Delim(rest[0]);
        assert RunsIn(rest, false) == RunsIn(rest, true);
      }
    }
  }

  method SkipDelims(s: string, from: nat) returns (i: nat)
    requires from <= |s|
    ensures from <= i <= |s| && Tokens(s[i..]) == Tokens(s[from..]) && (i < |s| ==> !Delim(s[i]))
  {
    i := from;
    while i < |s| && Delim(s[i])
      invariant from <= i <= |s| && Tokens(s[i..]) == Tokens(s[from..])
    {
      assert s[i..][1..] == s[i + 1..];
      i := i + 1;
    }
  }

  method EndOfToken(s: string, i: nat) returns (next: nat)
    requires i <= |s|
    ensures i <= next <= |s| && Run(s[i..]) == next - i
  {
    next := i;
    while next < |s| && !Delim(s[next])
      invariant i <= next <= |s| && Run(s[i..]) == next - i + Run(s[next..])
    {
      assert s[next..][1..] == s[next + 1..];
      next := next + 1;
    }
  }

  /** strtok from a position: whether there is a token, which, and where to go on. */
  method StrTok(s: string, from: nat) returns (found: bool, tok: string, next: nat)
    requires from <= |s|
    ensures from <= next <= |s|
    ensures found <==> Tokens(s[from..]) != []
    ensures found ==> Tokens(s[from..]) == [tok] + Tokens(s[next..])
  {
    var i := SkipDelims(s, from);
    if i == |s| {
      return false, "", i;
    }
    next := EndOfToken(s, i);
    found, tok := true, s[i..next];
    assert s[i..][..next - i] == tok && s[i..][next - i..] == s[next..];
  }

  lemma Regrouped(got: seq<string>, tok: string, rest: seq<string>)
    ensures (got + [tok]) + rest == got + ([tok] + rest)
  {
  }

  /** split: the tokens copied, and what *num becomes. */
  method Split(s: string, limit: int) returns (got: seq<string>, num: int)
    ensures Tokens(s) == [] ==> got == [] && num == limit
    ensures Tokens(s) != [] ==> got == Tokens(s)[..Min(if limit < 1 then 1 else limit, |Tokens(s)|)] && num == |got|
  {
    got, num := [], limit;
    ghost var all := Tokens(s);
    assert s[0..] == s;
    var found, tok, next := StrTok(s, 0);
    if found {
      got := [tok];
      var i := 1;
      while i < limit
        invariant |got| == i && next <= |s| && got + Tokens(s[next..]) == all
        invariant i <= limit || i == 1
      {
        found, tok, next := StrTok(s, next);
        if !found {
          break;
        }
        Regrouped(got, tok, Tokens(s[next..]));
        got := got + [tok];
        i := i + 1;
      }
      num := i;
    }
  }

  /** The rows of get_str that are written for a list: its first 200 tokens. */
  function Rows(data: string): (r: seq<string>)
    ensures |r| <= 200
  {
    Tokens(data)[..Min(200, |Tokens(data)|)]
  }

  /** A row as a C string.  It has 200 characters: a longer token leaves no terminator in it, so that the string
      goes on in the next row. */
  function RowText(rows: seq<string>, i: nat): string
    requires i < |rows|
    decreases |rows| - i
  {
    if |rows[i]| < 200 then rows[i]
    else rows[i][..200] + if i + 1 < |rows| then RowText(rows, i + 1) else ""
  }

  /** The numbers that main gets from a list. */
  function ValuesOf(data: string): seq<nat> {
    var rows := Rows(data);
    seq(|rows|, i requires 0 <= i < |rows| => Value(RowText(rows, i)))
  }

  /** The list has a first token, the last row that is written has a terminator, and the numbers fit an int. */
  predicate Convertible(data: string) {
    var rows := Rows(data);
    && rows != [] && |rows[|rows| - 1]| < 200
    && forall i :: 0 <= i < |rows| ==> Value(RowText(rows, i)) < INT_END
  }

  /** What is still to be read at row j. */
  ghost function RowRest(rows: seq<string>, j: nat): string {
    if j < |rows| then RowText(rows, j) else ""
  }

  lemma Glue(a: string, b: string, c: string)
    ensures a + (b + c) == (a + b) + c
  {
  }

  /** Reading a row: whether a terminator is found in the rows that are written, and the string before it. */
  method ReadRow(rows: seq<string>, i: nat) returns (ends: bool, text: string)
    requires i < |rows|
    ensures ends <==> exists j :: i <= j < |rows| && |rows[j]| < 200
    ensures ends ==> text == RowText(rows, i)
  {
    text := "";
    var j := i;
    while j < |rows| && |rows[j]| >= 200
      invariant i <= j <= |rows| && forall k :: i <= k < j ==> |rows[k]| >= 200
      invariant RowText(rows, i) == text + RowRest(rows, j)
    {
      Glue(text, rows[j][..200], RowRest(rows, j + 1));
      text := text + rows[j][..200];
      j := j + 1;
    }
    ends := j < |rows|;
    if ends {
      text := text + rows[j];
    }
  }

  /** What main makes of the data of one node.  Without any token it would go on to read 200 rows that were
      never written. */
  method Convert(data: string) returns (defined: bool, units: seq<nat>)
    ensures defined <==> Convertible(data)
    ensures defined ==> units == ValuesOf(data)
  {
    units := [];
    var rows, n := Split(data, 200);
    if n > |rows| {
      return false, units;
    }
    assert rows == Rows(data);
    for i := 0 to n
      invariant |units| == i && forall k :: 0 <= k < i ==> units[k] == Value(RowText(rows, k)) < INT_END
      invariant i == n ==> |rows[n - 1]| < 200
    {
      var ends, text := ReadRow(rows, i);
      if !ends {
        return false, units;
      }
      var fits, num := HexStrToBin(text);
      if !fits {
        return false, units;
      }
      units := units + [num];
    }
    defined := true;
  }

  // ----- Lines

  function IndexOf(s: string, c: char): (i: nat)
    ensures i <= |s| && (forall j :: 0 <= j < i ==> s[j] != c) && (i < |s| ==> s[i] == c)
  {
    if s == "" || s[0] == c then 0 else 1 + IndexOf(s[1..], c)
  }

  /** Everything before the last occurrence of c that is not in front; everything if there is none. */
  function CutLast(s: string, c: char, i: nat): string
    requires i <= |s|
  {
    if i <= 1 then s else if s[i - 1] == c then s[..i - 1] else CutLast(s, c, i - 1)
  }

  /** A character array seen as a C string. */
  function AsString(s: string): string {
    s[..IndexOf(s, '\0')]
  }

  /** A node: the characters in its name array, which the name need not fill, and its data. */
  datatype Node = Node(field: string, data: string) {

    function FullName(): string {
      AsString(field)
    }

    /** The name as main puts it out, without its first four characters; the array is filled up with zeros. */
    function Shown(): string {
      if |field| < 4 then "" else AsString(field[4..])
    }
  }

  /** A line the parser takes. */
  predicate Wanted(line: string) {
    PREFIX <= line
  }

  /** Where it takes the data from: six characters behind the name, which ends before the first '['. */
  function DataAt(line: string): nat
    requires Wanted(line)
  {
    |PREFIX| + IndexOf(line[|PREFIX|..], '[') + 6
  }

  /** The name array: the rest of the line, its first '[' overwritten. */
  function FieldOf(line: string): string
    requires Wanted(line)
  {
    var rest := line[|PREFIX|..];
    var k := IndexOf(rest, '[');
    if k < |rest| then rest[k := '\0'] else rest
  }

  /** What was ever written to the line buffer ends in a terminator. */
  predicate Terminated(buf: string) {
    buf != "" && buf[|buf| - 1] == '\0'
  }

  /** The data that a line calls for starts in the part of the buffer that was ever written, maybe behind the
      line. */
  predicate Within(buf: string) {
    Wanted(AsString(buf)) ==> DataAt(AsString(buf)) < |buf|
  }

  function Parsed(buf: string): Node
    requires Wanted(AsString(buf)) && Within(buf)
  {
    var line := AsString(buf);
    var data := AsString(buf[DataAt(line)..]);
    Node(FieldOf(line), CutLast(data, '}', |data|))
  }

  /** The C string at a place of the buffer. */
  method StringAt(buf: string, from: nat) returns (s: string)
    requires Terminated(buf) && from < |buf|
    ensures s == AsString(buf[from..])
  {
    s := "";
    var j := from;
    while buf[j] != '\0'
      invariant from <= j < |buf| && s == buf[from..j] && '\0' !in s
      decreases |buf| - j
    {
      s := s + [buf[j]];
      j := j + 1;
    }
    assert buf[from..][..j - from] == s;
    FirstIndex(buf[from..], '\0', j - from);
  }

  method LineOf(buf: string) returns (line: string)
    requires Terminated(buf)
    ensures line == AsString(buf)
  {
    line := StringAt(buf, 0);
    assert buf[0..] == buf;
  }

  /** The loop that ends the name. */
  method EndName(rest: string) returns (field: string, length: nat)
    ensures length == IndexOf(rest, '[')
    ensures field == if length < |rest| then rest[length := '\0'] else rest
  {
    field, length := rest, 0;
    while length < |rest| && field[length] != '['
      invariant length <= |rest| && field == rest && '[' !in rest[..length]
    {
      length := length + 1;
    }
    if length < |rest| {
      FirstIndex(rest, '[', length);
      field := rest[length := '\0'];
    }
    assert rest[..|rest|] == rest;
  }

  /** The loop that ends the data. */
  method EndData(whole: string) returns (data: string)
    ensures data == CutLast(whole, '}', |whole|)
  {
    data := whole;
    var i: int := |data| - 1;
    while i > 0
      invariant -1 <= i < |whole| && data == whole && CutLast(whole, '}', |whole|) == CutLast(whole, '}', i + 1)
      decreases i
    {
      if data[i] == '}' {
        data := data[..i];
        break;
      }
      i := i - 1;
    }
  }

  lemma ParsedIs(buf: string, line: string, data: string)
    requires line == AsString(buf) && Wanted(line) && Within(buf) && data == AsString(buf[DataAt(line)..])
    ensures Parsed(buf) == Node(FieldOf(line), CutLast(data, '}', |data|))
  {
  }

  /** The body of the loop of read_conf, for a line with the prefix. */
  method ParseLine(buf: string) returns (node: Node)
    requires Terminated(buf) && Wanted(AsString(buf)) && Within(buf)
    ensures node == Parsed(buf)
  {
    var line := LineOf(buf);
    var field, length := EndName(line[|PREFIX|..]);
    assert field == FieldOf(line) && |PREFIX| + length + 6 == DataAt(line);
    var data := StringAt(buf, |PREFIX| + length + 6);
    ParsedIs(buf, line, data);
    data := EndData(data);
    node := Node(field, data);
  }

  lemma {:induction false} FirstIndex(s: string, c: char, i: nat)
    requires i < |s| && s[i] == c && c !in s[..i]
    ensures IndexOf(s, c) == i
    decreases i
  {
    if i > 0 {
      assert s[..i][0] == s[0] && s[1..][..i - 1] == s[..i][1..];
      FirstIndex(s[1..], c, i - 1);
    }
  }

  lemma {:induction false} CutLastNone(s: string, c: char, i: nat)
    requires i <= |s| && forall j :: 0 < j < i ==> s[j] != c
    ensures CutLast(s, c, i) == s
    decreases i
  {
    if i > 1 {
      CutLastNone(s, c, i - 1);
    }
  }

  lemma {:induction false} CutLastIs(s: string, c: char, k: nat, i: nat)
    requires 0 < k < i <= |s| && s[k] == c && forall j :: k < j < i ==> s[j] != c
    ensures CutLast(s, c, i) == s[..k]
    decreases i
  {
    if i > k + 1 {
      CutLastIs(s, c, k, i - 1);
    }
  }

  // ----- Whole files

  /** The most fgets takes at once: the array less the terminator. */
  const LIMIT: nat := 10239

  /** The number of characters fgets takes: to the end of the line, of the array or of the file. */
  function Taken(text: string): (n: nat)
    ensures n <= |text| && n <= LIMIT && (text != "" ==> n > 0)
  {
    Min(Min(IndexOf(text, '\n') + 1, LIMIT), |text|)
  }

  /** What fgets leaves in the array: the characters and a terminator, over what was written there before. */
  function Overlay(was: string, chunk: string): (b: string)
    ensures chunk + "\0" <= b && (was == "" || Terminated(was) ==> Terminated(b))
  {
    chunk + "\0" + if |chunk| + 1 < |was| then was[|chunk| + 1..] else ""
  }

  /** The contents of the array, as far as it was ever written, after each call of fgets on a text. */
  function Buffers(text: string, was: string): seq<string>
    decreases |text|
  {
    if text == "" then []
    else
      var n := Taken(text);
      var b := Overlay(was, text[..n]);
      [b] + Buffers(text[n..], b)
  }

  /** Where fgets stops: n characters, the last one a newline unless the array or the file is at its end. */
  ghost predicate Stops(rest: string, n: nat) {
    0 < n <= |rest| && n <= 10239 && '\n' !in rest[..n - 1] && (rest[n - 1] == '\n' || n == 10239 || n == |rest|)
  }

  lemma TakenIs(rest: string, n: nat)
    requires Stops(rest, n)
    ensures Taken(rest) == n
  {
    assert forall i :: 0 <= i < n - 1 ==> rest[i] == rest[..n - 1][i] != '\n';
    if rest[n - 1] == '\n' {
      FirstIndex(rest, '\n', n - 1);
    }
  }

  /** fgets from a position of the file: whether it gets anything, what, and where to go on. */
  method Fgets(text: string, pos: nat) returns (got: bool, buf: string, next: nat)
    requires pos <= |text|
    ensures got <==> pos < |text|
    ensures got ==> pos < next <= |text| && buf == text[pos..next] && Stops(text[pos..], next - pos)
  {
    buf, next := "", pos;
    while next < |text| && |buf| < LIMIT
      invariant pos <= next <= |text| && buf == text[pos..next] && '\n' !in buf && |buf| <= LIMIT
    {
      var c := text[next];
      assert text[pos..][..next - pos] == buf;
      buf, next := buf + [c], next + 1;
      if c == '\n' {
        return true, buf, next;
      }
    }
    got := next > pos;
    if got {
      assert text[pos..][..next - pos - 1] == buf[..next - pos - 1];
    }
  }

  lemma NextBuffer(text: string, pos: nat, next: nat, was: string)
    requires pos < next <= |text| && Stops(text[pos..], next - pos)
    ensures var b := Overlay(was, text[pos..next]);
            Buffers(text[pos..], was) == [b] + Buffers(text[next..], b)
  {
    TakenIs(text[pos..], next - pos);
    assert text[pos..][..next - pos] == text[pos..next] && text[pos..][next - pos..] == text[next..];
  }

  predicate AllWithin(bufs: seq<string>) {
    forall i :: 0 <= i < |bufs| ==> Within(bufs[i])
  }

  /** The list read_conf builds: every line with the prefix, the last one first. */
  function Collected(bufs: seq<string>): seq<Node>
    requires AllWithin(bufs)
  {
    if bufs == [] then []
    else
      var n := |bufs| - 1;
      if Wanted(AsString(bufs[n])) then [Parsed(bufs[n])] + Collected(bufs[..n]) else Collected(bufs[..n])
  }

  lemma CollectedStep(bufs: seq<string>, buf: string)
    requires AllWithin(bufs) && Within(buf)
    ensures AllWithin(bufs + [buf])
    ensures Collected(bufs + [buf]) == (if Wanted(AsString(buf)) then [Parsed(buf)] else []) + Collected(bufs)
  {
    assert (bufs + [buf])[..|bufs|] == bufs;
  }

  /** A line that starts as a definition becomes a node in front of the others; any other line is passed over. */
  lemma LineCounts(bufs: seq<string>, buf: string)
    requires AllWithin(bufs) && Within(buf)
    ensures AllWithin(bufs + [buf])
    ensures "static const wchar_t " <= AsString(buf) ==>
              Collected(bufs + [buf]) == [Parsed(buf)] + Collected(bufs)
    ensures !("static const wchar_t " <= AsString(buf)) ==> Collected(bufs + [buf]) == Collected(bufs)
  {
    CollectedStep(bufs, buf);
  }

  /** The body of the loop of read_conf. */
  method TakeLine(buf: string, list: seq<Node>, ghost bufs: seq<string>) returns (within: bool, root: seq<Node>)
    requires Terminated(buf) && AllWithin(bufs) && list == Collected(bufs)
    ensures within <==> Within(buf)
    ensures within ==> AllWithin(bufs + [buf]) && root == Collected(bufs + [buf])
  {
    root := list;
    within := Within(buf);
    if within {
      CollectedStep(bufs, buf);
      if Wanted(AsString(buf)) {
        var node := ParseLine(buf);
        root := [node] + root;
      }
    }
  }

  lemma NotWithin(front: seq<string>, buf: string, rest: seq<string>)
    requires !Within(buf)
    ensures !AllWithin(front + ([buf] + rest))
  {
    assert (front + ([buf] + rest))[|front|] == buf;
  }

  /** The state of the loop of read_conf: the lines before pos are in the list. */
  ghost predicate Reading(text: string, pos: nat, buf: string, bufs: seq<string>, root: seq<Node>) {
    && pos <= |text| && (buf == "" || Terminated(buf))
    && bufs + Buffers(text[pos..], buf) == Buffers(text, "") && AllWithin(bufs) && root == Collected(bufs)
  }

  lemma AllRead(text: string, pos: nat, buf: string, bufs: seq<string>, root: seq<Node>)
    requires Reading(text, pos, buf, bufs, root) && pos == |text|
    ensures AllWithin(Buffers(text, "")) && root == Collected(Buffers(text, ""))
  {
    assert bufs + [] == bufs;
  }

  /** One pass of that loop. */
  method ReadLine(text: string, pos: nat, was: string, list: seq<Node>, ghost bufs: seq<string>)
    returns (got: bool, within: bool, root: seq<Node>, next: nat, buf: string, ghost more: seq<string>)
    requires Reading(text, pos, was, bufs, list)
    ensures got <==> pos < |text|
    ensures !got ==> root == list && more == bufs
    ensures got && within ==> pos < next && Reading(text, next, buf, more, root)
    ensures got && !within ==> !AllWithin(Buffers(text, ""))
  {
    var chunk;
    within, root, buf, more := false, list, was, bufs;
    got, chunk, next := Fgets(text, pos);
    if got {
      buf := Overlay(was, chunk);
      NextBuffer(text, pos, next, was);
      within, root := TakeLine(buf, list, bufs);
      more := bufs + [buf];
      Regrouped(bufs, buf, Buffers(text[next..], buf));
      if !within {
        NotWithin(bufs, buf, Buffers(text[next..], buf));
      }
    }
  }

  /** read_conf on the text of a file: whether it only ever reads what was written to its line buffer, and the list
      it builds. */
  method ReadConf(text: string) returns (defined: bool, root: seq<Node>)
    ensures defined <==> AllWithin(Buffers(text, ""))
    ensures defined ==> root == Collected(Buffers(text, ""))
  {
    root := [];
    ghost var bufs: seq<string> := [];
    var pos, buf := 0, "";
    assert text[0..] == text;
    while true
      invariant Reading(text, pos, buf, bufs, root)
      decreases |text| - pos
    {
      var got, within, list, next, b;
      ghost var more;
      got, within, list, next, b, more := ReadLine(text, pos, buf, root, bufs);
      root := list;
      if !got {
        AllRead(text, pos, buf, bufs, root);
        return true, root;
      }
      if !within {
        return false, root;
      }
      pos, buf, bufs := next, b, more;
    }
  }

  // ----- Lines that are long enough

  /** The buffer holds a line. */
  predicate HoldsLine(buf: string, line: string) {
    line + "\0" <= buf && '\0' !in line
  }

  /** Six characters follow the name. */
  predicate Complete(line: string) {
    Wanted(line) && DataAt(line) <= |line|
  }

  /** The node of a line that is long enough. */
  function NodeOf(line: string): Node
    requires Complete(line)
  {
    var data := line[DataAt(line)..];
    Node(FieldOf(line), CutLast(data, '}', |data|))
  }

  lemma StringOf(buf: string, line: string)
    requires HoldsLine(buf, line)
    ensures AsString(buf) == line
  {
    assert buf[|line|] == '\0' && buf[..|line|] == line;
    FirstIndex(buf, '\0', |line|);
  }

  /** What an earlier line left in the buffer does not matter to it. */
  lemma NodeIsOfLine(buf: string, line: string)
    requires HoldsLine(buf, line) && Complete(line)
    ensures Wanted(AsString(buf)) && Within(buf) && Parsed(buf) == NodeOf(line)
  {
    StringOf(buf, line);
    var from := DataAt(line);
    assert line[from..] + "\0" <= buf[from..] by {
      assert (line + "\0")[from..] == line[from..] + "\0";
      assert buf[..|line| + 1] == line + "\0";
      assert buf[from..][..|line| + 1 - from] == buf[..|line| + 1][from..];
    }
    StringOf(buf[from..], line[from..]);
  }
}
