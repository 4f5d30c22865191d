/** mxml_node_read_data of wide_char/make_complex_chinese.c: character data up to the next tag, with
    entities replaced in the buffer as they are completed. */
module XmlData {
  import opened Refil
  import opened XmlEntities

  datatype Problem = UnclosedEntity | WrongEntity | Io

  /** What has been gathered; amper is where an entity has been opened, or -1. */
  datatype Scan = Scan(text: string, amper: int) | Malformed(problem: Problem)

  /** Underrun: the reader goes on to read in front of its buffer. */
  datatype Result = Text(text: string) | Bad(problem: Problem) | Underrun

  // ----- The meaning of a stretch of character data

  predicate Consistent(s: Scan) {
    s.Scan? ==> -1 <= s.amper < |s.text|
  }

  /** The effect of one character other than '<'. */
  function Step(s: Scan, c: char, noEscape: bool): (r: Scan)
    requires Consistent(s)
    ensures Consistent(r)
  {
    if s.Malformed? then s
    else if c == '&' && !noEscape then
      if s.amper == -1 then Scan(s.text + [c], |s.text|) else Malformed(UnclosedEntity)
    else if c == ';' && s.amper != -1 then
      var name := s.text[s.amper + 1..];
      if |name| <= 1 then Malformed(WrongEntity)
      else if EntityChar(name) == ';' then Scan(s.text + [c], -1)
      else Scan(s.text[..s.amper] + [EntityChar(name)], -1)
    else Scan(s.text + [c], s.amper)
  }

  function Feed(s: Scan, t: string, noEscape: bool): (r: Scan)
    requires Consistent(s)
    ensures Consistent(r)
    decreases |t|
  {
    if t == "" then s else Feed(Step(s, t[0], noEscape), t[1..], noEscape)
  }

  lemma {:induction false} FeedMalformed(s: Scan, t: string, noEscape: bool)
    requires s.Malformed?
    ensures Feed(s, t, noEscape) == s
    decreases |t|
  {
    if t != "" {
      FeedMalformed(s, t[1..], noEscape);
    }
  }

  lemma {:induction false} FeedConcat(s: Scan, t: string, u: string, noEscape: bool)
    requires Consistent(s)
    ensures Feed(s, t + u, noEscape) == Feed(Feed(s, t, noEscape), u, noEscape)
    decreases |t|
  {
    if t == "" {
      assert t + u == u;
    } else {
      assert (t + u)[1..] == t[1..] + u;
      FeedConcat(Step(s, t[0], noEscape), t[1..], u, noEscape);
    }
  }

  /** The character data at the front of a stream: everything before the next '<'. */
  function DataPart(stream: string): (r: string)
    ensures r <= stream && '<' !in r
    ensures |r| < |stream| ==> stream[|r|] == '<'
  {
    if stream == "" || stream[0] == '<' then "" else [stream[0]] + DataPart(stream[1..])
  }

  predicate Blank(c: char) {
    c == ' ' || c == '\t'
  }

  function TrimEnd(t: string): string {
    if t != "" && Blank(t[|t| - 1]) then TrimEnd(t[..|t| - 1]) else t
  }

  /** What is left of a text: without its trailing blanks, but a text of nothing but blanks that starts with a
      space keeps that space. */
  function Trimmed(t: string): string {
    if TrimEnd(t) == "" && t != "" && t[0] == ' ' then " " else TrimEnd(t)
  }

  function Finished(text: string): Result {
    if Trimmed(text) == "" then Underrun else Text(Trimmed(text))
  }

  /** What the reader makes of a stream. */
  function Meaning(stream: string, noEscape: bool, failed: bool): Result {
    match Feed(Scan("", -1), DataPart(stream), noEscape)
    case Malformed(p) => Bad(p)
    case Scan(text, amper) =>
      if amper != -1 then Bad(UnclosedEntity)
      else if failed then Bad(Io)
      else Finished(text)
  }

  // ----- Escaped text comes back

  lemma {:induction false} FeedPlain(text: string, amper: int, w: string)
    requires -1 <= amper < |text| && '&' !in w && ';' !in w
    ensures Feed(Scan(text, amper), w, false) == Scan(text + w, amper)
    decreases |w|
  {
    if w == "" {
      assert text + w == text;
    } else {
      assert text + w == (text + [w[0]]) + w[1..];
      FeedPlain(text + [w[0]], amper, w[1..]);
    }
  }

  lemma FeedEntity(text: string, c: char)
    requires MayEscape(c)
    ensures Feed(Scan(text, -1), "&" + NameOf(c) + ";", false) == Scan(text + [c], -1)
  {
    var name, start := NameOf(c), Scan(text, -1);
    NamesAreRecognised(c);
    FeedConcat(start, "&" + name, ";", false);
    FeedConcat(start, "&", name, false);
    var begun := Scan(text + "&", |text|);
    assert Feed(start, "&", false) == begun by {
      assert "&"[1..] == "";
    }
    FeedPlain(text + "&", |text|, name);
    var named := Scan(text + "&" + name, |text|);
    assert named.text[|text| + 1..] == name && named.text[..|text|] == text;
    assert Feed(named, ";", false) == Step(named, ';', false) by {
      assert ";"[1..] == "";
    }
  }

  lemma FeedEscape(text: string, c: char, chosen: bool)
    ensures Feed(Scan(text, -1), Escape(c, chosen), false) == Scan(text + [c], -1)
  {
    if MustEscape(c) || (MayEscape(c) && chosen) {
      FeedEntity(text, c);
    } else {
      assert [c][1..] == "";
      assert Feed(Scan(text, -1), [c], false) == Step(Scan(text, -1), c, false);
    }
  }

  lemma OneMore(text: string, t: string, k: nat)
    requires k < |t|
    ensures (text + t[..k]) + [t[k]] == text + t[..k + 1]
  {
  }

  lemma FeedOneMore(start: Scan, e: string, text: string, c: char, chosen: bool)
    requires Consistent(start) && Feed(start, e, false) == Scan(text, -1)
    ensures Feed(start, e + Escape(c, chosen), false) == Scan(text + [c], -1)
  {
    FeedConcat(start, e, Escape(c, chosen), false);
    FeedEscape(text, c, chosen);
  }

  lemma {:induction false} FeedEscapeTo(text: string, t: string, chosen: seq<bool>, k: nat)
    requires |t| == |chosen| && k <= |t|
    ensures Feed(Scan(text, -1), EscapeTo(t, chosen, k), false) == Scan(text + t[..k], -1)
  {
    if k > 0 {
      FeedEscapeTo(text, t, chosen, k - 1);
      FeedOneMore(Scan(text, -1), EscapeTo(t, chosen, k - 1), text + t[..k - 1], t[k - 1], chosen[k - 1]);
      OneMore(text, t, k - 1);
    } else {
      assert text + t[..0] == text;
    }
  }

  lemma EscapeHasNoTag(c: char, chosen: bool)
    ensures '<' !in Escape(c, chosen)
  {
    if MayEscape(c) {
      NamesAreRecognised(c);
    }
  }

  lemma NeitherHasTag(e: string, f: string)
    requires '<' !in e && '<' !in f
    ensures '<' !in e + f
  {
  }

  lemma {:induction false} EscapedHasNoTag(t: string, chosen: seq<bool>, k: nat)
    requires |t| == |chosen| && k <= |t|
    ensures '<' !in EscapeTo(t, chosen, k)
  {
    if k > 0 {
      EscapedHasNoTag(t, chosen, k - 1);
      EscapeHasNoTag(t[k - 1], chosen[k - 1]);
      NeitherHasTag(EscapeTo(t, chosen, k - 1), Escape(t[k - 1], chosen[k - 1]));
    }
  }

  lemma {:induction false} DataPartEnds(e: string, rest: string)
    requires '<' !in e
    ensures DataPart(e + "<" + rest) == e
    decreases |e|
  {
    var s := e + "<" + rest;
    if e != "" {
      assert s[0] == e[0] && s[1..] == e[1..] + "<" + rest;
      DataPartEnds(e[1..], rest);
    }
  }

  /** Reading escaped text that a tag follows gives the text back, with its trailing blanks trimmed, unless nothing
      would be left of it. */
  lemma RoundTrip(t: string, chosen: seq<bool>, rest: string)
    requires |t| == |chosen|
    ensures Meaning(EscapeAll(t, chosen) + "<" + rest, false, false) == Finished(t)
  {
    EscapedHasNoTag(t, chosen, |t|);
    DataPartEnds(EscapeAll(t, chosen), rest);
    FeedEscapeTo("", t, chosen, |t|);
    assert "" + t[..|t|] == t;
  }

  /** An entity that is not recognised stays as it is written. */
  lemma UnknownStays(text: string, name: string, written: string)
    requires |name| >= 2 && '&' !in name && ';' !in name && EntityChar(name) == ';' && written == "&" + name + ";"
    ensures Feed(Scan(text, -1), written, false) == Scan(text + written, -1)
  {
    var start := Scan(text, -1);
    FeedConcat(start, "&" + name, ";", false);
    FeedConcat(start, "&", name, false);
    assert Feed(start, "&", false) == Scan(text + "&", |text|) by {
      assert "&"[1..] == "";
    }
    FeedPlain(text + "&", |text|, name);
    var named := Scan(text + "&" + name, |text|);
    assert named.text[|text| + 1..] == name;
    assert Feed(named, ";", false) == Step(named, ';', false) by {
      assert ";"[1..] == "";
    }
    assert text + "&" + name + ";" == text + written;
  }

  /** So does a numeric character reference. */
  lemma NumericStays(text: string, name: string, written: string)
    requires |name| >= 2 && name[0] == '#' && '&' !in name && ';' !in name && written == "&" + name + ";"
    ensures Feed(Scan(text, -1), written, false) == Scan(text + written, -1)
  {
    UnknownStays(text, name, written);
  }

  // ----- What is not text

  /** Escaped text and then an ampersand and characters that do not close it. */
  lemma FeedOpen(t: string, chosen: seq<bool>, w: string)
    requires |t| == |chosen| && '&' !in w && ';' !in w
    ensures Feed(Scan("", -1), EscapeAll(t, chosen) + ("&" + w), false) == Scan(t + ("&" + w), |t|)
  {
    FeedEscapeTo("", t, chosen, |t|);
    assert "" + t[..|t|] == t;
    FeedConcat(Scan("", -1), EscapeAll(t, chosen), "&" + w, false);
    FeedConcat(Scan(t, -1), "&", w, false);
    assert Feed(Scan(t, -1), "&", false) == Scan(t + "&", |t|) by {
      assert "&"[1..] == "";
    }
    FeedPlain(t + "&", |t|, w);
    assert (t + "&") + w == t + ("&" + w);
  }

  /** An ampersand that no semicolon follows before the tag or the end is an unclosed entity. */
  lemma UnclosedAtEnd(t: string, chosen: seq<bool>, w: string, tail: string, failed: bool)
    requires |t| == |chosen| && '&' !in w && ';' !in w && '<' !in w && (tail == "" || tail[0] == '<')
    ensures Meaning(EscapeAll(t, chosen) + ("&" + w) + tail, false, failed) == Bad(UnclosedEntity)
  {
    var e := EscapeAll(t, chosen) + ("&" + w);
    EscapedHasNoTag(t, chosen, |t|);
    DataPartOf(e, tail);
    FeedOpen(t, chosen, w);
  }

  lemma DataPartOf(e: string, tail: string)
    requires '<' !in e && (tail == "" || tail[0] == '<')
    ensures DataPart(e + tail) == e
  {
    if tail == "" {
      assert e + tail == e;
      DataPartWhole(e);
    } else {
      assert e + tail == e + "<" + tail[1..];
      DataPartEnds(e, tail[1..]);
    }
  }

  lemma {:induction false} DataPartWhole(e: string)
    requires '<' !in e
    ensures DataPart(e) == e
  {
    if e != "" {
      DataPartWhole(e[1..]);
    }
  }

  /** A second ampersand before the semicolon is an unclosed entity too, and a semicolon after no or one character
      a wrong one; whatever follows. */
  lemma BadEntity(t: string, chosen: seq<bool>, w: string, c: char, rest: string)
    requires |t| == |chosen| && '&' !in w && ';' !in w && (c == '&' || (c == ';' && |w| <= 1))
    ensures Feed(Scan("", -1), EscapeAll(t, chosen) + ("&" + w) + ([c] + rest), false)
            == Malformed(if c == '&' then UnclosedEntity else WrongEntity)
  {
    FeedOpen(t, chosen, w);
    FeedConcat(Scan("", -1), EscapeAll(t, chosen) + ("&" + w), [c] + rest, false);
    var named := Scan(t + ("&" + w), |t|);
    assert named.text[|t| + 1..] == w;
    assert ([c] + rest)[0] == c && ([c] + rest)[1..] == rest;
    FeedMalformed(Step(named, c, false), rest, false);
  }

  /** Text that ends without a tag is read if the source is at its end, and an error if reading failed. */
  lemma EndOfSource(t: string, chosen: seq<bool>, failed: bool)
    requires |t| == |chosen|
    ensures Meaning(EscapeAll(t, chosen), false, failed) == if failed then Bad(Io) else Finished(t)
  {
    EscapedHasNoTag(t, chosen, |t|);
    DataPartWhole(EscapeAll(t, chosen));
    FeedEscapeTo("", t, chosen, |t|);
    assert "" + t[..|t|] == t;
  }

  /** Without escapes text before a tag is read as it stands. */
  lemma RawRoundTrip(t: string, rest: string)
    requires '<' !in t
    ensures Meaning(t + "<" + rest, true, false) == Finished(t)
  {
    DataPartEnds(t, rest);
    FeedRaw("", t);
    assert "" + t == t;
  }

  lemma {:induction false} FeedRaw(text: string, t: string)
    ensures Feed(Scan(text, -1), t, true) == Scan(text + t, -1)
    decreases |t|
  {
    if t == "" {
      assert text + t == text;
    } else {
      assert text + t == (text + [t[0]]) + t[1..];
      FeedRaw(text + [t[0]], t[1..]);
    }
  }

  /** What trimming leaves: the text up to its last character that is neither a space nor a tab. */
  lemma {:induction false} TrimEndIs(t: string)
    ensures var r := TrimEnd(t);
            && r <= t && (r != "" ==> r[|r| - 1] != ' ' && r[|r| - 1] != '\t')
            && forall i :: |r| <= i < |t| ==> t[i] == ' ' || t[i] == '\t'
  {
    if t != "" && Blank(t[|t| - 1]) {
      TrimEndIs(t[..|t| - 1]);
    }
  }

  // ----- What the caller establishes

  /** Nothing blank stands first, so that trimming stops. */
  predicate StartsWell(s: Scan) {
    s.Scan? ==> s.text != "" && !Blank(s.text[0])
  }

  lemma StepStartsWell(s: Scan, c: char, noEscape: bool)
    requires Consistent(s) && (StartsWell(s) || (s == Scan("", -1) && !Blank(c)))
    ensures StartsWell(Step(s, c, noEscape))
  {
    if s.Scan? && s.amper != -1 && c == ';' {
      var name := s.text[s.amper + 1..];
      if |name| > 1 {
        NotBlank(name);
        ReplacedStartsWell(s.text, s.amper, EntityChar(name));
      }
    }
  }

  lemma NotBlank(name: string)
    requires |name| >= 2
    ensures !Blank(EntityChar(name))
  {
  }

  lemma ReplacedStartsWell(text: string, amper: nat, c: char)
    requires amper < |text| && !Blank(text[0]) && !Blank(c)
    ensures StartsWell(Scan(text[..amper] + [c], -1))
  {
    assert amper > 0 ==> text[..amper][0] == text[0];
  }

  lemma {:induction false} FeedStartsWell(s: Scan, t: string, noEscape: bool)
    requires Consistent(s) && StartsWell(s)
    ensures StartsWell(Feed(s, t, noEscape))
    decreases |t|
  {
    if t != "" {
      StepStartsWell(s, t[0], noEscape);
      FeedStartsWell(Step(s, t[0], noEscape), t[1..], noEscape);
    }
  }

  lemma {:induction false} TrimStops(t: string)
    requires t != "" && !Blank(t[0])
    ensures TrimEnd(t) != ""
  {
    if Blank(t[|t| - 1]) {
      TrimStops(t[..|t| - 1]);
    }
  }

  /** The only caller has seen a character that is neither blank nor the start of a tag: then the reader never reads
      in front of its buffer, and the text is only trimmed at its end. */
  lemma NeverUnderruns(stream: string, noEscape: bool, failed: bool)
    requires stream != "" && !Blank(stream[0]) && stream[0] != '<'
    ensures var r := Meaning(stream, noEscape, failed);
            match Feed(Scan("", -1), DataPart(stream), noEscape)
            case Malformed(p) => r == Bad(p)
            case Scan(text, _) => r.Bad? || r == Text(TrimEnd(text))
  {
    var d := DataPart(stream);
    assert d[0] == stream[0];
    StepStartsWell(Scan("", -1), d[0], noEscape);
    FeedStartsWell(Step(Scan("", -1), d[0], noEscape), d[1..], noEscape);
    var s := Feed(Scan("", -1), d, noEscape);
    if s.Scan? {
      TrimStops(s.text);
    }
  }

  // ----- The code

  const ALLOC_BLOCK: nat := 128

  /** The variables of the reader: an allocated buffer, how much of it is text, and the open entity. */
  datatype Buffer = Buffer(buf: string, iPos: nat, iStatus: nat, iPosAmper: nat)

  /** buf[0..iPos) is the text; what lies beyond is left over from entities or never written. */
  predicate Holds(b: Buffer, s: Scan) {
    && b.iPos < |b.buf| && b.iStatus <= 1 && s.Scan? && Consistent(s) && s.text == b.buf[..b.iPos]
    && (if b.iStatus == 0 then s.amper == -1 else s.amper == b.iPosAmper)
  }

  /** Writing at iPos, and reallocating when the buffer is full. */
  method Store(buf: string, iPos: nat, chr: char) returns (buf': string, iPos': nat)
    requires iPos < |buf|
    ensures iPos' == iPos + 1 < |buf'| && buf'[..iPos'] == buf[..iPos] + [chr]
  {
    buf', iPos' := buf[iPos := chr], iPos + 1;
    if iPos' >= |buf'| {
      buf' := buf' + seq(ALLOC_BLOCK, _ => '\0');
    }
  }

  /** The loop body for a character other than '<': the entity just closed is overwritten in place. */
  method PutChar(b: Buffer, c: char, noEscape: bool, ghost s: Scan) returns (b': Buffer, problem: Result)
    requires Holds(b, s)
    ensures var r := Step(s, c, noEscape);
            if r.Malformed? then problem == Bad(r.problem) else problem == Text("") && Holds(b', r)
  {
    var chr, buf, iPos, iStatus, iPosAmper := c, b.buf, b.iPos, b.iStatus, b.iPosAmper;
    b', problem := b, Text("");
    if chr == '&' && !noEscape {
      if iStatus != 0 {
        problem := Bad(UnclosedEntity);
        return;
      }
      iStatus, iPosAmper := 1, iPos;
    }
    if chr == ';' && iStatus == 1 {
      var name := buf[iPosAmper + 1..iPos];
      assert name == s.text[s.amper + 1..];
      if iPos - iPosAmper - 2 <= 0 {
        problem := Bad(WrongEntity);
        return;
      }
      iStatus := 0;
      chr := EntityChar(name);
      if chr != ';' {
        iPos := iPosAmper;
      }
    }
    buf, iPos := Store(buf, iPos, chr);
    b' := Buffer(buf, iPos, iStatus, iPosAmper);
  }

  /** The trimming loop: whether it stops before it reads in front of the buffer, and where. */
  method Trim(buf: string, iPos: nat) returns (inside: bool, n: nat)
    requires iPos <= |buf|
    ensures inside <==> Trimmed(buf[..iPos]) != ""
    ensures inside ==> n <= iPos && buf[..n] == Trimmed(buf[..iPos])
  {
    ghost var t := buf[..iPos];
    n := iPos;
    while n > 0 && ((n > 1 && buf[n - 1] == ' ') || buf[n - 1] == '\t')
      invariant n <= iPos && TrimEnd(buf[..n]) == TrimEnd(t)
      invariant n == 0 ==> t == "" || t[0] == '\t'
    {
      assert buf[..n][..n - 1] == buf[..n - 1];
      n := n - 1;
    }
    inside := n > 0;
    if inside && Blank(buf[n - 1]) {
      assert buf[..n] == " " && " "[..0] == "";
      assert TrimEnd(" ") == TrimEnd("");
    }
  }

  /** s is what the part of the stream before `left` has been read as, and that part is all data. */
  ghost predicate Reading(stream: string, left: string, s: Scan, noEscape: bool) {
    && Consistent(s)
    && |left| <= |stream| && stream[|stream| - |left|..] == left
    && |DataPart(stream)| == |stream| - |left| + |DataPart(left)|
    && Feed(s, DataPart(left), noEscape) == Feed(Scan("", -1), DataPart(stream), noEscape)
  }

  lemma ReadingStep(stream: string, left: string, s: Scan, noEscape: bool)
    requires Reading(stream, left, s, noEscape) && left != "" && left[0] != '<'
    ensures Reading(stream, left[1..], Step(s, left[0], noEscape), noEscape)
  {
    var d := DataPart(left);
    assert d[0] == left[0] && d[1..] == DataPart(left[1..]);
    assert stream[|stream| - |left| + 1..] == stream[|stream| - |left|..][1..];
  }

  lemma ReadingMalformed(stream: string, left: string, s: Scan, noEscape: bool, failed: bool)
    requires Reading(stream, left, s, noEscape) && s.Malformed?
    ensures Meaning(stream, noEscape, failed) == Bad(s.problem)
  {
    FeedMalformed(s, DataPart(left), noEscape);
  }

  lemma ReadingEnd(stream: string, left: string, s: Scan, noEscape: bool)
    requires Reading(stream, left, s, noEscape) && (left == "" || left[0] == '<')
    ensures Feed(Scan("", -1), DataPart(stream), noEscape) == s
    ensures left == stream[|DataPart(stream)|..] && (DataPart(stream) == stream <==> left == "")
  {
    assert DataPart(left) == "";
  }

  /** The source has just given chr, the first character of `left`, or has reached the end. */
  ghost predicate Given(src: Source, chr: Chr, left: string, fails: bool)
    reads src
  {
    && src.Valid() && Fails(src.chunks) == fails && src.sparechar == Eof
    && (if left == "" then chr == Eof && src.Rest() == "" else chr == Chr(left[0]) && src.Rest() == left[1..])
    && src.status == if left == "" && fails then Error else Ok
  }

  method Next(src: Source, ghost left: string, ghost fails: bool) returns (chr: Chr)
    requires src.Valid() && src.status == Ok && src.Rest() == left && Fails(src.chunks) == fails
    modifies src
    ensures Given(src, chr, left, fails)
  {
    chr := src.GetC();
  }

  /** How the loop leaves the source: at the tag, or at the end with the status telling why. */
  ghost predicate Stopped(src: Source, left: string, fails: bool)
    reads src
  {
    && src.Valid() && src.Rest() == left && (left == "" || left[0] == '<')
    && src.status == if left == "" && fails then Error else Ok
  }

  method PushBack(src: Source, chr: Chr, ghost left: string, ghost fails: bool)
    requires Given(src, chr, left, fails) && left != "" && left[0] == '<'
    modifies src
    ensures Stopped(src, left, fails)
  {
    src.UngetC(chr);
  }

  /** The reading loop. */
  method Gather(src: Source, noEscape: bool, ghost stream: string, ghost fails: bool)
    returns (r: Result, b: Buffer, ghost s: Scan, ghost left: string)
    requires src.Valid() && src.status == Ok && stream == src.Rest() && fails == Fails(src.chunks)
    modifies src
    ensures src.Valid() && Reading(stream, left, s, noEscape)
    ensures if r.Bad? then s == Malformed(r.problem) else Stopped(src, left, fails) && Holds(b, s)
  {
    b, r := Buffer(seq(ALLOC_BLOCK, _ => '\0'), 0, 0, 0), Text("");
    s, left := Scan("", -1), stream;
    var chr := Next(src, left, fails);
    while chr != Eof && chr.c != '<'
      invariant Given(src, chr, left, fails)
      invariant r.Text? && Holds(b, s) && Reading(stream, left, s, noEscape)
      decreases |left|
    {
      ReadingStep(stream, left, s, noEscape);
      b, r := PutChar(b, chr.c, noEscape, s);
      s, left := Step(s, chr.c, noEscape), left[1..];
      if r.Bad? {
        return;
      }
      chr := Next(src, left, fails);
    }
    if chr != Eof {
      PushBack(src, chr, left, fails);
    }
  }

  /** mxml_node_read_data. */
  method ReadData(src: Source, noEscape: bool) returns (r: Result)
    requires src.Valid() && src.status == Ok
    modifies src
    ensures src.Valid()
    ensures var stream := old(src.Rest()); var data := DataPart(stream);
            && r == Meaning(stream, noEscape, data == stream && Fails(old(src.chunks)))
            && (!r.Bad? ==> src.Rest() == stream[|data|..])
  {
    ghost var stream, fails := src.Rest(), Fails(src.chunks);
    ghost var s, left;
    var b;
    r, b, s, left := Gather(src, noEscape, stream, fails);
    if r.Bad? {
      ReadingMalformed(stream, left, s, noEscape, DataPart(stream) == stream && fails);
      return;
    }
    ReadingEnd(stream, left, s, noEscape);
    if b.iStatus != 0 {
      return Bad(UnclosedEntity);
    }
    if src.status != Ok {
      return Bad(Io);
    }
    var inside, n := Trim(b.buf, b.iPos);
    r := if inside then Text(b.buf[..n]) else Underrun;
  }

  // ----- From chunks to text

  /** What the reader needs to know of a stream that starts with escaped text and a tag. */
  lemma EscapedStream(s: string, t: string, chosen: seq<bool>, rest: string)
    requires |t| == |chosen| && s == EscapeAll(t, chosen) + "<" + rest
    ensures DataPart(s) != s && s[|DataPart(s)|..] == "<" + rest
    ensures Meaning(s, false, false) == Finished(t)
  {
    EscapedHasNoTag(t, chosen, |t|);
    DataPartEnds(EscapeAll(t, chosen), rest);
    RoundTrip(t, chosen, rest);
  }

  /** Any escaped text before a tag, cut into chunks anyhow, is read as the trimmed text, and the tag is read next. */
  method ReadEscaped(chunks: seq<Chunk>, ghost t: string, ghost chosen: seq<bool>, ghost rest: string)
    returns (r: Result, next: Chr)
    requires Proper(chunks) && |t| == |chosen|
    requires Before(chunks) == EscapeAll(t, chosen) + "<" + rest
    ensures r == Finished(t) && next == Chr('<')
  {
    EscapedStream(Before(chunks), t, chosen, rest);
    var src := new Source("", chunks);
    assert src.Rest() == Before(chunks);
    r := ReadData(src, false);
    next := src.GetC();
  }
}
