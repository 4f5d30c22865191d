/** mxml_attribute_read of wide_char/make_complex_chinese.c: name, '=', quoted value, with fixed limits
    on both lengths and entities replaced in the value buffer. */
module XmlAttribute {
  import opened Refil
  import opened XmlEntities

  const MAX_NAME: nat := 128
  const MAX_VALUE: nat := 256

  datatype Problem = InvalidStart | Malformed | WrongEntity | UnclosedEntity | NameTooLong | ValueTooLong

  /** iStatus of the reader, with its buffers. */
  datatype Scan =
    | Begin
    | InName(name: string)
    | BeforeEquals(name: string)
    | BeforeQuote(name: string)
    | InValue(name: string, quote: char, value: string)
    | InEntity(name: string, quote: char, value: string, amper: nat)
    | Done(name: string, value: string)
    | Absent
    | Failed(problem: Problem)

  datatype Result = NoAttribute | Attribute(name: string, value: string) | Bad(problem: Problem)

  predicate Alpha(c: char) {
    'a' <= c <= 'z' || 'A' <= c <= 'Z'
  }

  predicate NameChar(c: char) {
    Alpha(c) || '0' <= c <= '9' || c == '_' || c == '-' || c == ':'
  }

  predicate Space(c: char) {
    c == ' ' || c == '\t' || c == '\n' || c == '\r'
  }

  predicate Consistent(s: Scan) {
    s.InEntity? ==> s.amper < |s.value|
  }

  /** One pass of the switch. */
  function Step(s: Scan, c: char, noEscape: bool): (r: Scan)
    requires Consistent(s)
    ensures Consistent(r)
  {
    match s
    case Begin =>
      if Space(c) then s
      else if c == '>' || c == '/' then Absent
      else if Alpha(c) then InName([c])
      else Failed(InvalidStart)
    case InName(name) =>
      if NameChar(c) then InName(name + [c])
      else if Space(c) then BeforeEquals(name)
      else if c == '=' then BeforeQuote(name)
      else Failed(Malformed)
    case BeforeEquals(name) =>
      if c == '=' then BeforeQuote(name) else if Space(c) then s else Failed(Malformed)
    case BeforeQuote(name) =>
      if c == '\'' || c == '"' then InValue(name, c, "") else if Space(c) then s else Failed(Malformed)
    case InValue(name, quote, value) =>
      if c == '&' && !noEscape then InEntity(name, quote, value + [c], |value|)
      else if c == quote then Done(name, value)
      else InValue(name, quote, value + [c])
    case InEntity(name, quote, value, amper) =>
      if c == quote then Done(name, value)
      else if c == ';' then
        var entity := value[amper + 1..];
        if |entity| <= 1 then Failed(WrongEntity)
        else InValue(name, quote, value[..amper] + [EntityChar(entity)])
      else if !Alpha(c) then Failed(UnclosedEntity)
      else InEntity(name, quote, value + [c], amper)
    case _ => s
  }

  /** The loop reads on in this state. */
  predicate Reads(s: Scan) {
    match s
    case Begin => true
    case InName(name) => |name| <= MAX_NAME
    case BeforeEquals(name) => |name| <= MAX_NAME
    case BeforeQuote(name) => |name| <= MAX_NAME
    case InValue(name, _, value) => |name| <= MAX_NAME && |value| <= MAX_VALUE
    case InEntity(name, _, value, _) => |name| <= MAX_NAME && |value| <= MAX_VALUE
    case _ => false
  }

  /** The state in which the loop ends on a stream. */
  function Scanned(s: Scan, stream: string, noEscape: bool): (r: Scan)
    requires Consistent(s)
    ensures Consistent(r)
    decreases |stream|
  {
    if stream == "" || !Reads(s) then s else Scanned(Step(s, stream[0], noEscape), stream[1..], noEscape)
  }

  /** What is left of the stream then. */
  function Left(s: Scan, stream: string, noEscape: bool): string
    requires Consistent(s)
    decreases |stream|
  {
    if stream == "" || !Reads(s) then stream else Left(Step(s, stream[0], noEscape), stream[1..], noEscape)
  }

  /** What the reader returns when the loop has ended in a state. */
  function Outcome(s: Scan): Result {
    match s
    case Done(name, value) => Attribute(name, value)
    case Absent => NoAttribute
    case Failed(p) => Bad(p)
    case Begin => Bad(Malformed)
    case InName(name) => Bad(if |name| > MAX_NAME then NameTooLong else Malformed)
    case BeforeEquals(name) => Bad(if |name| > MAX_NAME then NameTooLong else Malformed)
    case BeforeQuote(name) => Bad(if |name| > MAX_NAME then NameTooLong else Malformed)
    case InValue(name, _, value) =>
      Bad(if |name| > MAX_NAME then NameTooLong else if |value| > MAX_VALUE then ValueTooLong else Malformed)
    case InEntity(name, _, value, _) =>
      Bad(if |name| > MAX_NAME then NameTooLong else if |value| > MAX_VALUE then ValueTooLong else Malformed)
  }

  // ----- Escaped values come back exactly when the buffer position never passes the limit

  /** How far beyond the start of a character its escaped form takes the buffer position, before the ';'. */
  function Reach(c: char, chosen: bool): nat {
    if MustEscape(c) || (MayEscape(c) && chosen) then 1 + |NameOf(c)| else 1
  }

  predicate FitsTo(v: string, chosen: seq<bool>, k: nat)
    requires |v| == |chosen| && k <= |v|
  {
    forall i :: 0 <= i < k ==> i + Reach(v[i], chosen[i]) <= MAX_VALUE
  }

  predicate Fits(v: string, chosen: seq<bool>)
    requires |v| == |chosen|
  {
    FitsTo(v, chosen, |v|)
  }

  /** Running the loop over one character at a time. */
  lemma {:induction false} ScannedConcat(s: Scan, t: string, u: string, noEscape: bool)
    requires Consistent(s) && Reads(Scanned(s, t, noEscape))
    ensures Scanned(s, t + u, noEscape) == Scanned(Scanned(s, t, noEscape), u, noEscape)
    ensures Left(s, t + u, noEscape) == Left(Scanned(s, t, noEscape), u, noEscape)
    decreases |t|
  {
    if t == "" {
      assert t + u == u;
    } else {
      assert (t + u)[0] == t[0] && (t + u)[1..] == t[1..] + u;
      ScannedConcat(Step(s, t[0], noEscape), t[1..], u, noEscape);
    }
  }

  lemma {:induction false} ScannedStops(s: Scan, t: string, u: string, noEscape: bool)
    requires Consistent(s) && !Reads(Scanned(s, t, noEscape))
    ensures Scanned(s, t + u, noEscape) == Scanned(s, t, noEscape)
    decreases |t|
  {
    if t != "" && Reads(s) {
      assert (t + u)[0] == t[0] && (t + u)[1..] == t[1..] + u;
      ScannedStops(Step(s, t[0], noEscape), t[1..], u, noEscape);
    }
  }

  /** The value buffer has passed its limit, which ends the loop. */
  predicate TooLong(s: Scan) {
    (s.InValue? || s.InEntity?) && |s.name| <= MAX_NAME && |s.value| > MAX_VALUE
  }

  /** Letters of an entity name pile up in the buffer until it is full. */
  lemma {:induction false} ScannedLetters(name: string, quote: char, value: string, amper: nat, w: string)
    requires amper < |value| && |name| <= MAX_NAME && |value| <= MAX_VALUE && !Alpha(quote)
    requires forall i :: 0 <= i < |w| ==> Alpha(w[i])
    ensures |value| + |w| <= MAX_VALUE ==>
              Scanned(InEntity(name, quote, value, amper), w, false) == InEntity(name, quote, value + w, amper)
    ensures |value| + |w| > MAX_VALUE ==>
              TooLong(Scanned(InEntity(name, quote, value, amper), w, false))
    decreases |w|
  {
    if w == "" {
      assert value + w == value;
    } else {
      assert value + w == (value + [w[0]]) + w[1..];
      if |value| < MAX_VALUE {
        ScannedLetters(name, quote, value + [w[0]], amper, w[1..]);
      } else {
        var next := InEntity(name, quote, value + [w[0]], amper);
        assert Step(InEntity(name, quote, value, amper), w[0], false) == next && !Reads(next);
        assert Scanned(next, w[1..], false) == next;
      }
    }
  }

  lemma NamesAreLetters(c: char)
    requires MayEscape(c)
    ensures forall i :: 0 <= i < |NameOf(c)| ==> Alpha(NameOf(c)[i])
  {
  }

  predicate Quote(c: char) {
    c == '\'' || c == '"'
  }

  /** An entity is replaced by its character if there is room for all of it before the ';'. */
  lemma ScannedEntity(name: string, quote: char, value: string, c: char)
    requires MayEscape(c) && Quote(quote) && |name| <= MAX_NAME && |value| <= MAX_VALUE
    ensures var r := Scanned(InValue(name, quote, value), "&" + NameOf(c) + ";", false);
            if |value| + 1 + |NameOf(c)| <= MAX_VALUE then r == InValue(name, quote, value + [c]) else TooLong(r)
  {
    var w, start := NameOf(c), InValue(name, quote, value);
    var begun := InEntity(name, quote, value + "&", |value|);
    NamesAreRecognised(c);
    NamesAreLetters(c);
    assert Scanned(start, "&", false) == begun by {
      assert "&"[1..] == "" && Step(start, '&', false) == begun;
    }
    assert "&" + w + ";" == "&" + (w + ";");
    if |value| + 1 > MAX_VALUE {
      ScannedStops(start, "&", w + ";", false);
    } else {
      ScannedConcat(start, "&", w + ";", false);
      ScannedLetters(name, quote, value + "&", |value|, w);
      if |value| + 1 + |w| > MAX_VALUE {
        ScannedStops(begun, w, ";", false);
      } else {
        var named := InEntity(name, quote, value + "&" + w, |value|);
        ScannedConcat(begun, w, ";", false);
        assert named.value[|value| + 1..] == w && named.value[..|value|] == value;
        assert Scanned(named, ";", false) == Step(named, ';', false) by {
          assert ";"[1..] == "";
        }
      }
    }
  }

  lemma ScannedEscape(name: string, quote: char, value: string, c: char, chosen: bool)
    requires Quote(quote) && |name| <= MAX_NAME && |value| <= MAX_VALUE && (c == quote ==> chosen)
    ensures var r := Scanned(InValue(name, quote, value), Escape(c, chosen), false);
            if |value| + Reach(c, chosen) <= MAX_VALUE then r == InValue(name, quote, value + [c]) else TooLong(r)
  {
    if MustEscape(c) || (MayEscape(c) && chosen) {
      ScannedEntity(name, quote, value, c);
    } else {
      var start := InValue(name, quote, value);
      assert Step(start, c, false) == InValue(name, quote, value + [c]);
      assert [c][1..] == "";
      assert Scanned(start, [c], false) == Step(start, c, false);
    }
  }

  /** The quote character does not stand in the value unescaped. */
  predicate Quotable(v: string, chosen: seq<bool>, quote: char)
    requires |v| == |chosen|
  {
    Quote(quote) && forall i :: 0 <= i < |v| ==> v[i] == quote ==> chosen[i]
  }

  /** The state after a value has been read from escaped form. */
  predicate ReadBack(r: Scan, name: string, quote: char, v: string, fits: bool) {
    if fits then r == InValue(name, quote, v) && |v| <= MAX_VALUE else TooLong(r)
  }

  lemma ReadBackStep(name: string, quote: char, e: string, w: string, fits: bool, c: char, chosen: bool)
    requires Quote(quote) && |name| <= MAX_NAME && (c == quote ==> chosen)
    requires ReadBack(Scanned(InValue(name, quote, ""), e, false), name, quote, w, fits)
    ensures ReadBack(Scanned(InValue(name, quote, ""), e + Escape(c, chosen), false), name, quote, w + [c],
                     fits && |w| + Reach(c, chosen) <= MAX_VALUE)
  {
    var start := InValue(name, quote, "");
    if fits {
      ScannedConcat(start, e, Escape(c, chosen), false);
      ScannedEscape(name, quote, w, c, chosen);
    } else {
      ScannedStops(start, e, Escape(c, chosen), false);
    }
  }

  lemma OneFurther(v: string, chosen: seq<bool>, k: nat)
    requires |v| == |chosen| && k < |v|
    ensures v[..k + 1] == v[..k] + [v[k]]
    ensures FitsTo(v, chosen, k + 1) <==> FitsTo(v, chosen, k) && k + Reach(v[k], chosen[k]) <= MAX_VALUE
    ensures EscapeTo(v, chosen, k + 1) == EscapeTo(v, chosen, k) + Escape(v[k], chosen[k])
  {
  }

  ghost predicate ReadBackTo(name: string, quote: char, v: string, chosen: seq<bool>, k: nat)
    requires |v| == |chosen| && k <= |v|
  {
    ReadBack(Scanned(InValue(name, quote, ""), EscapeTo(v, chosen, k), false),
             name, quote, v[..k], FitsTo(v, chosen, k))
  }

  lemma ReadBackOneFurther(name: string, quote: char, v: string, chosen: seq<bool>, k: nat)
    requires |v| == |chosen| && k < |v| && Quote(quote) && (v[k] == quote ==> chosen[k]) && |name| <= MAX_NAME
    requires ReadBackTo(name, quote, v, chosen, k)
    ensures ReadBackTo(name, quote, v, chosen, k + 1)
  {
    ReadBackStep(name, quote, EscapeTo(v, chosen, k), v[..k], FitsTo(v, chosen, k), v[k], chosen[k]);
    OneFurther(v, chosen, k);
  }

  lemma {:induction false} ScannedValue(name: string, quote: char, v: string, chosen: seq<bool>, k: nat)
    requires |v| == |chosen| && k <= |v| && Quotable(v, chosen, quote) && |name| <= MAX_NAME
    ensures ReadBackTo(name, quote, v, chosen, k)
    decreases k
  {
    if k > 0 {
      ScannedValue(name, quote, v, chosen, k - 1);
      ReadBackOneFurther(name, quote, v, chosen, k - 1);
    }
  }

  // ----- The characters of the format, spelled out

  predicate Letter(c: char) {
    'a' <= c <= 'z' || 'A' <= c <= 'Z'
  }

  predicate Blank(c: char) {
    c == ' ' || c == '\t' || c == '\n' || c == '\r'
  }

  predicate Blanks(w: string) {
    forall i :: 0 <= i < |w| ==> Blank(w[i])
  }

  predicate InNames(c: char) {
    Letter(c) || '0' <= c <= '9' || c == '_' || c == '-' || c == ':'
  }

  /** A name of any length. */
  predicate ValidName(name: string) {
    name != "" && Letter(name[0]) && forall i :: 0 <= i < |name| ==> InNames(name[i])
  }

  lemma {:induction false} ScannedName(seen: string, w: string)
    requires |seen| <= MAX_NAME && forall i :: 0 <= i < |w| ==> InNames(w[i])
    ensures |seen| + |w| <= MAX_NAME ==> Scanned(InName(seen), w, false) == InName(seen + w)
    ensures |seen| + |w| > MAX_NAME ==>
              Scanned(InName(seen), w, false) == InName(seen + w[..MAX_NAME + 1 - |seen|])
    decreases |w|
  {
    if w == "" {
      assert seen + w == seen;
    } else if |seen| < MAX_NAME {
      assert seen + w == (seen + [w[0]]) + w[1..];
      ScannedName(seen + [w[0]], w[1..]);
      if |seen| + |w| > MAX_NAME {
        assert w[..MAX_NAME + 1 - |seen|] == [w[0]] + w[1..][..MAX_NAME - |seen|];
      }
    } else {
      var next := InName(seen + [w[0]]);
      assert Step(InName(seen), w[0], false) == next && !Reads(next);
      assert Scanned(next, w[1..], false) == next;
      assert w[..1] == [w[0]];
    }
  }

  /** Blanks are passed over before the name, before the '=' and before the quote. */
  lemma {:induction false} ScannedBlanks(s: Scan, w: string)
    requires Blanks(w) && (s.Begin? || ((s.BeforeEquals? || s.BeforeQuote?) && |s.name| <= MAX_NAME))
    ensures Scanned(s, w, false) == s
    decreases |w|
  {
    if w != "" {
      assert Step(s, w[0], false) == s;
      ScannedBlanks(s, w[1..]);
    }
  }

  lemma OneStep(s: Scan, c: char)
    requires Consistent(s) && Reads(s)
    ensures Scanned(s, [c], false) == Step(s, c, false)
  {
    assert [c][1..] == "";
  }

  /** Blanks and a name that is not too long. */
  lemma ScannedNamed(before: string, name: string)
    requires Blanks(before) && ValidName(name) && |name| <= MAX_NAME
    ensures Scanned(Begin, before + name, false) == InName(name)
  {
    ScannedBlanks(Begin, before);
    ScannedConcat(Begin, before, name, false);
    assert name == [name[0]] + name[1..];
    ScannedName([name[0]], name[1..]);
  }

  /** Blanks between the name and the '='. */
  lemma ScannedEquals(name: string, blanks: string)
    requires Blanks(blanks) && |name| <= MAX_NAME
    ensures Scanned(InName(name), blanks + "=", false) == BeforeQuote(name)
  {
    if blanks == "" {
      assert blanks + "=" == ['='];
      OneStep(InName(name), '=');
    } else {
      var w := blanks[1..];
      assert blanks + "=" == [blanks[0]] + (w + ['=']);
      OneStep(InName(name), blanks[0]);
      ScannedConcat(InName(name), [blanks[0]], w + ['='], false);
      ScannedBlanks(BeforeEquals(name), w);
      ScannedConcat(BeforeEquals(name), w, ['='], false);
      OneStep(BeforeEquals(name), '=');
    }
  }

  lemma ScannedQuote(name: string, blanks: string, quote: char)
    requires Blanks(blanks) && |name| <= MAX_NAME && Quote(quote)
    ensures Scanned(BeforeQuote(name), blanks + [quote], false) == InValue(name, quote, "")
  {
    ScannedBlanks(BeforeQuote(name), blanks);
    ScannedConcat(BeforeQuote(name), blanks, [quote], false);
    OneStep(BeforeQuote(name), quote);
  }

  /** The blanks of an attribute: before its name, before the '=' and before the quote. */
  datatype Gaps = Gaps(before: string, equals: string, quote: string)

  predicate AllBlanks(g: Gaps) {
    Blanks(g.before) && Blanks(g.equals) && Blanks(g.quote)
  }

  /** An attribute up to its opening quote. */
  function Front(g: Gaps, name: string, quote: char): string {
    (g.before + name) + ((g.equals + "=") + (g.quote + [quote]))
  }

  lemma ScannedFront(g: Gaps, name: string, quote: char)
    requires AllBlanks(g) && ValidName(name) && |name| <= MAX_NAME && Quote(quote)
    ensures Scanned(Begin, Front(g, name, quote), false) == InValue(name, quote, "")
  {
    ScannedNamed(g.before, name);
    ScannedEquals(name, g.equals);
    ScannedQuote(name, g.quote, quote);
    ScannedConcat(Begin, g.before + name, (g.equals + "=") + (g.quote + [quote]), false);
    ScannedConcat(InName(name), g.equals + "=", g.quote + [quote], false);
  }

  /** A whole attribute and what follows it. */
  function Written(g: Gaps, name: string, quote: char, v: string, chosen: seq<bool>, rest: string): string
    requires |v| == |chosen|
  {
    Front(g, name, quote) + (EscapeAll(v, chosen) + ([quote] + rest))
  }

  /** An attribute written with its value escaped and with any blanks is read back if and only if its name is not too
      long and every escaped character of the value fits below the limit before it is replaced; otherwise the name or
      the value is reported as too long. */
  lemma RoundTripIff(g: Gaps, name: string, quote: char, v: string, chosen: seq<bool>, rest: string)
    requires AllBlanks(g) && ValidName(name) && |v| == |chosen| && Quotable(v, chosen, quote)
    ensures Outcome(Scanned(Begin, Written(g, name, quote, v, chosen, rest), false))
            == if |name| > 128 then Bad(NameTooLong)
               else if Fits(v, chosen) then Attribute(name, v)
               else Bad(ValueTooLong)
    ensures |name| <= 128 && Fits(v, chosen) ==>
              Left(Begin, Written(g, name, quote, v, chosen, rest), false) == rest
  {
    var e, tail := EscapeAll(v, chosen), [quote] + rest;
    if |name| > MAX_NAME {
      LongName(g.before, name, ((g.equals + "=") + (g.quote + [quote])) + (e + tail));
      assert Written(g, name, quote, v, chosen, rest)
          == g.before + name + (((g.equals + "=") + (g.quote + [quote])) + (e + tail));
    } else {
      var start := InValue(name, quote, "");
      ScannedFront(g, name, quote);
      ScannedConcat(Begin, Front(g, name, quote), e + tail, false);
      ScannedValue(name, quote, v, chosen, |v|);
      assert v[..|v|] == v;
      if Fits(v, chosen) {
        ScannedConcat(start, e, tail, false);
        Closed(name, quote, v, rest);
      } else {
        ScannedStops(start, e, tail, false);
      }
    }
  }

  lemma Closed(name: string, quote: char, v: string, rest: string)
    requires |name| <= MAX_NAME && |v| <= MAX_VALUE && Quote(quote)
    ensures Scanned(InValue(name, quote, v), [quote] + rest, false) == Done(name, v)
    ensures Left(InValue(name, quote, v), [quote] + rest, false) == rest
  {
    var tail, done := [quote] + rest, Done(name, v);
    assert tail[0] == quote && tail[1..] == rest;
    assert Step(InValue(name, quote, v), quote, false) == done;
    assert Scanned(done, rest, false) == done && Left(done, rest, false) == rest;
  }

  lemma LongName(before: string, name: string, rest: string)
    requires Blanks(before) && ValidName(name) && |name| > MAX_NAME
    ensures Outcome(Scanned(Begin, before + name + rest, false)) == Bad(NameTooLong)
  {
    ScannedBlanks(Begin, before);
    ScannedConcat(Begin, before, name, false);
    assert name == [name[0]] + name[1..];
    ScannedName([name[0]], name[1..]);
    ScannedStops(Begin, before + name, rest, false);
  }

  // ----- What is not an attribute

  lemma StopsAfter(t: string, s: Scan, c: char, rest: string)
    requires Scanned(Begin, t, false) == s && Reads(s) && !Reads(Step(s, c, false))
    ensures Scanned(Begin, t + ([c] + rest), false) == Step(s, c, false)
  {
    ScannedConcat(Begin, t, [c] + rest, false);
    assert ([c] + rest)[0] == c && ([c] + rest)[1..] == rest;
  }

  /** The end of a tag means that there is no attribute; any other first character but a letter is an error. */
  lemma NotAName(before: string, c: char, rest: string)
    requires Blanks(before) && !Blank(c) && !Letter(c)
    ensures Outcome(Scanned(Begin, before + ([c] + rest), false))
            == if c == '>' || c == '/' then NoAttribute else Bad(InvalidStart)
  {
    ScannedBlanks(Begin, before);
    StopsAfter(before, Begin, c, rest);
  }

  /** A name has to be followed by an '=', and that by a quote, with nothing but blanks between them. */
  lemma NoEquals(before: string, name: string, blanks: string, c: char, rest: string)
    requires Blanks(before) && Blanks(blanks) && ValidName(name) && |name| <= MAX_NAME
    requires !Blank(c) && c != '=' && (blanks == "" ==> !InNames(c))
    ensures Outcome(Scanned(Begin, before + name + blanks + ([c] + rest), false)) == Bad(Malformed)
  {
    ScannedNamed(before, name);
    if blanks == "" {
      assert before + name + blanks == before + name;
      StopsAfter(before + name, InName(name), c, rest);
    } else {
      ScannedConcat(Begin, before + name, blanks, false);
      assert blanks == [blanks[0]] + blanks[1..];
      OneStep(InName(name), blanks[0]);
      ScannedConcat(InName(name), [blanks[0]], blanks[1..], false);
      ScannedBlanks(BeforeEquals(name), blanks[1..]);
      StopsAfter(before + name + blanks, BeforeEquals(name), c, rest);
    }
  }

  lemma NoQuote(before: string, name: string, equals: string, blanks: string, c: char, rest: string)
    requires Blanks(before) && Blanks(equals) && Blanks(blanks) && ValidName(name) && |name| <= MAX_NAME
    requires !Blank(c) && c != '\'' && c != '"'
    ensures Outcome(Scanned(Begin, (before + name) + (equals + "=") + blanks + ([c] + rest), false)) == Bad(Malformed)
  {
    ScannedNamed(before, name);
    ScannedEquals(name, equals);
    ScannedConcat(Begin, before + name, equals + "=", false);
    ScannedBlanks(BeforeQuote(name), blanks);
    ScannedConcat(Begin, (before + name) + (equals + "="), blanks, false);
    StopsAfter((before + name) + (equals + "=") + blanks, BeforeQuote(name), c, rest);
  }

  /** A stream that ends before the closing quote, with blanks, with the name or inside the value. */
  lemma EndsEarly(g: Gaps, name: string, quote: char, v: string, chosen: seq<bool>)
    requires AllBlanks(g) && ValidName(name) && |name| <= 128
    requires |v| == |chosen| && Quotable(v, chosen, quote) && Fits(v, chosen)
    ensures Outcome(Scanned(Begin, g.before, false)) == Bad(Malformed)
    ensures Outcome(Scanned(Begin, g.before + name, false)) == Bad(Malformed)
    ensures Outcome(Scanned(Begin, Front(g, name, quote) + EscapeAll(v, chosen), false)) == Bad(Malformed)
  {
    ScannedBlanks(Begin, g.before);
    ScannedNamed(g.before, name);
    ScannedFront(g, name, quote);
    ScannedValue(name, quote, v, chosen, |v|);
    assert v[..|v|] == v;
    ScannedConcat(Begin, Front(g, name, quote), EscapeAll(v, chosen), false);
  }

  /** How an entity that is not completed ends: the quote closes the value with what has been read of it, a semicolon
      after no or one letter is an error, and so is anything else but a letter. */
  lemma EntityCutShort(name: string, quote: char, value: string, w: string, c: char, rest: string)
    requires Quote(quote) && |name| <= MAX_NAME && |value| + 1 + |w| <= MAX_VALUE
    requires (forall i :: 0 <= i < |w| ==> Letter(w[i])) && !Letter(c) && (c == ';' ==> |w| <= 1)
    ensures Scanned(InValue(name, quote, value), "&" + w + ([c] + rest), false)
            == if c == quote then Done(name, value + "&" + w)
               else if c == ';' then Failed(WrongEntity)
               else Failed(UnclosedEntity)
  {
    var start, begun := InValue(name, quote, value), InEntity(name, quote, value + "&", |value|);
    var named := InEntity(name, quote, value + "&" + w, |value|);
    assert "&" + w + ([c] + rest) == ['&'] + (w + ([c] + rest));
    OneStep(start, '&');
    ScannedConcat(start, ['&'], w + ([c] + rest), false);
    ScannedLetters(name, quote, value + "&", |value|, w);
    ScannedConcat(begun, w, [c] + rest, false);
    assert named.value[|value| + 1..] == w;
    var s := Step(named, c, false);
    assert ([c] + rest)[0] == c && ([c] + rest)[1..] == rest && Scanned(s, rest, false) == s;
  }

  /** Where nothing is escaped, the style makes no difference. */
  lemma {:induction false} NoAmpersand(s: Scan, t: string)
    requires Consistent(s) && !s.InEntity? && '&' !in t
    ensures Scanned(s, t, true) == Scanned(s, t, false) && Left(s, t, true) == Left(s, t, false)
    decreases |t|
  {
    if t != "" && Reads(s) {
      NoAmpersand(Step(s, t[0], false), t[1..]);
    }
  }

  lemma {:induction false} RawValue(name: string, quote: char, value: string, v: string, rest: string)
    requires quote !in v && |name| <= MAX_NAME && |value| + |v| <= MAX_VALUE
    ensures Scanned(InValue(name, quote, value), v + ([quote] + rest), true) == Done(name, value + v)
    decreases |v|
  {
    var t := v + ([quote] + rest);
    if v == "" {
      assert t[0] == quote && t[1..] == rest && value + v == value;
      assert Scanned(Done(name, value), rest, true) == Done(name, value);
    } else {
      assert t[0] == v[0] && t[1..] == v[1..] + ([quote] + rest);
      assert value + v == (value + [v[0]]) + v[1..];
      RawValue(name, quote, value + [v[0]], v[1..], rest);
    }
  }

  /** Without escapes any value of up to 256 characters comes back as it stands. */
  lemma RawRoundTrip(g: Gaps, name: string, quote: char, v: string, rest: string)
    requires AllBlanks(g) && ValidName(name) && |name| <= 128 && Quote(quote) && quote !in v && |v| <= 256
    ensures Outcome(Scanned(Begin, Front(g, name, quote) + (v + ([quote] + rest)), true)) == Attribute(name, v)
  {
    ScannedFront(g, name, quote);
    NoAmpersand(Begin, Front(g, name, quote));
    ScannedConcat(Begin, Front(g, name, quote), v + ([quote] + rest), true);
    RawValue(name, quote, "", v, rest);
    assert "" + v == v;
  }

  /** Letters and then an ampersand: 252 letters leave room for its escaped form, 253 do not, although a value of
      254 characters would fit. */
  lemma LastThatFits(g: Gaps, letters: string, rest: string)
    requires AllBlanks(g) && forall i :: 0 <= i < |letters| ==> 'a' <= letters[i] <= 'z'
    requires |letters| == 252 || |letters| == 253
    ensures var v := letters + "&"; var chosen := seq(|v|, _ => false);
            Outcome(Scanned(Begin, Written(g, "a", '"', v, chosen, rest), false))
            == if |letters| == 252 then Attribute("a", v) else Bad(ValueTooLong)
  {
    var v := letters + "&";
    var chosen := seq(|v|, _ => false);
    RoundTripIff(g, "a", '"', v, chosen, rest);
    assert v[|letters|] == '&' && Reach('&', false) == 4;
    forall i | 0 <= i < |letters|
      ensures v[i] == letters[i] && Reach(v[i], chosen[i]) == 1
    {
    }
  }

  /** A numeric character reference is refused. */
  lemma NumericRefused(name: string, quote: char, value: string, rest: string)
    requires Quote(quote) && |name| <= MAX_NAME && |value| < MAX_VALUE
    ensures Scanned(InValue(name, quote, value), "&#" + rest, false) == Failed(UnclosedEntity)
  {
    var s := "&#" + rest;
    assert s[0] == '&' && s[1..][0] == '#' && s[1..][1..] == rest;
    assert Step(InValue(name, quote, value), '&', false) == InEntity(name, quote, value + "&", |value|);
    assert Scanned(Failed(UnclosedEntity), rest, false) == Failed(UnclosedEntity);
  }

  // ----- The code

  /** The variables of the reader next to its two arrays. */
  datatype Vars = Vars(iStatus: nat, iPosn: nat, iPosa: nat, iPosAmper: nat, quotechr: char)

  function StatusOf(s: Scan): nat {
    match s
    case Begin => 0
    case InName(_) => 1
    case BeforeEquals(_) => 2
    case BeforeQuote(_) => 3
    case InValue(_, _, _) => 4
    case InEntity(_, _, _, _) => 5
    case _ => 6
  }

  /** The two buffers of the reader, and positions in them that no write passes. */
  ghost predicate Bounded(bufName: array<char>, bufAttrib: array<char>, v: Vars) {
    && bufName != bufAttrib && bufName.Length == MAX_NAME + 1 && bufAttrib.Length == MAX_VALUE * 2 + 1
    && v.iPosn <= MAX_NAME + 1 && v.iPosa <= MAX_VALUE + 1
  }

  /** The arrays up to their positions hold the strings of the scan; what lies beyond does not matter. */
  ghost predicate Holds(bufName: array<char>, bufAttrib: array<char>, v: Vars, s: Scan)
    reads bufName, bufAttrib
  {
    && Bounded(bufName, bufAttrib, v) && v.iStatus == StatusOf(s) && Consistent(s)
    && match s
       case Begin => v.iPosn == 0 && v.iPosa == 0
       case InName(name) => name == bufName[..v.iPosn] && v.iPosa == 0
       case BeforeEquals(name) => name == bufName[..v.iPosn] && v.iPosa == 0
       case BeforeQuote(name) => name == bufName[..v.iPosn] && v.iPosa == 0
       case InValue(name, quote, value) =>
         name == bufName[..v.iPosn] && value == bufAttrib[..v.iPosa] && quote == v.quotechr
       case InEntity(name, quote, value, amper) =>
         && name == bufName[..v.iPosn] && value == bufAttrib[..v.iPosa]
         && quote == v.quotechr && amper == v.iPosAmper
       case Done(name, value) => name == bufName[..v.iPosn] && value == bufAttrib[..v.iPosa]
       case _ => false
  }

  /** What one pass of the loop leaves: the next state in the buffers, or the result returned at once. */
  ghost predicate Passed(bufName: array<char>, bufAttrib: array<char>, v: Vars, s: Scan, stop: bool, r: Result)
    reads bufName, bufAttrib
  {
    if s.Absent? || s.Failed? then stop && r == Outcome(s) else !stop && Holds(bufName, bufAttrib, v, s)
  }

  method Put(buf: array<char>, at: nat, c: char) returns (next: nat)
    requires at < buf.Length
    modifies buf
    ensures next == at + 1 && buf[..next] == old(buf[..at]) + [c]
  {
    buf[at] := c;
    next := at + 1;
  }

  /** The first four cases of the switch. */
  method PassName(bufName: array<char>, bufAttrib: array<char>, v: Vars, c: char, noEscape: bool, ghost s: Scan)
    returns (v': Vars, stop: bool, r: Result)
    requires Holds(bufName, bufAttrib, v, s) && Reads(s) && v.iStatus < 4
    modifies bufName
    ensures Passed(bufName, bufAttrib, v', Step(s, c, noEscape), stop, r)
  {
    v', stop, r := v, false, NoAttribute;
    match v.iStatus
    case 0 =>
      if !Space(c) {
        if c == '>' || c == '/' {
          stop := true;
        } else if Alpha(c) {
          var iPosn := Put(bufName, v.iPosn, c);
          v' := v.(iStatus := 1, iPosn := iPosn);
        } else {
          stop, r := true, Bad(InvalidStart);
        }
      }
    case 1 =>
      if NameChar(c) {
        var iPosn := Put(bufName, v.iPosn, c);
        v' := v.(iPosn := iPosn);
      } else if Space(c) {
        v' := v.(iStatus := 2);
      } else if c == '=' {
        v' := v.(iStatus := 3);
      } else {
        stop, r := true, Bad(Malformed);
      }
    case 2 =>
      if c == '=' {
        v' := v.(iStatus := 3);
      } else if !Space(c) {
        stop, r := true, Bad(Malformed);
      }
    case _ =>
      if c == '\'' || c == '"' {
        v' := v.(iStatus := 4, quotechr := c);
      } else if !Space(c) {
        stop, r := true, Bad(Malformed);
      }
  }

  /** The case inside the value. */
  method PassValue(bufName: array<char>, bufAttrib: array<char>, v: Vars, c: char, noEscape: bool, ghost s: Scan)
    returns (v': Vars)
    requires Holds(bufName, bufAttrib, v, s) && Reads(s) && v.iStatus == 4
    modifies bufAttrib
    ensures Holds(bufName, bufAttrib, v', Step(s, c, noEscape))
  {
    if c == '&' && !noEscape {
      var iPosa := Put(bufAttrib, v.iPosa, c);
      v' := v.(iStatus := 5, iPosAmper := v.iPosa, iPosa := iPosa);
    } else if c == v.quotechr {
      v' := v.(iStatus := 6);
    } else {
      var iPosa := Put(bufAttrib, v.iPosa, c);
      v' := v.(iPosa := iPosa);
    }
  }

  /** The case inside an entity: when it is closed, its character overwrites the ampersand. */
  method PassEntity(bufName: array<char>, bufAttrib: array<char>, v: Vars, c: char, noEscape: bool, ghost s: Scan)
    returns (v': Vars, stop: bool, r: Result)
    requires Holds(bufName, bufAttrib, v, s) && Reads(s) && v.iStatus == 5
    modifies bufAttrib
    ensures Passed(bufName, bufAttrib, v', Step(s, c, noEscape), stop, r)
  {
    v', stop, r := v, false, NoAttribute;
    if c == v.quotechr {
      v' := v.(iStatus := 6);
    } else if c == ';' {
      if v.iPosa - v.iPosAmper - 2 <= 0 {
        stop, r := true, Bad(WrongEntity);
      } else {
        var chr := EntityChar(bufAttrib[v.iPosAmper + 1..v.iPosa]);
        assert bufAttrib[v.iPosAmper + 1..v.iPosa] == s.value[s.amper + 1..];
        assert bufAttrib[..v.iPosAmper] == s.value[..s.amper];
        var iPosa := Put(bufAttrib, v.iPosAmper, chr);
        v' := v.(iStatus := 4, iPosa := iPosa);
      }
    } else if !Alpha(c) {
      stop, r := true, Bad(UnclosedEntity);
    } else {
      var iPosa := Put(bufAttrib, v.iPosa, c);
      v' := v.(iPosa := iPosa);
    }
  }

  /** One pass of the loop. */
  method Pass(bufName: array<char>, bufAttrib: array<char>, v: Vars, c: char, noEscape: bool, ghost s: Scan)
    returns (v': Vars, stop: bool, r: Result)
    requires Holds(bufName, bufAttrib, v, s) && Reads(s)
    modifies bufName, bufAttrib
    ensures Passed(bufName, bufAttrib, v', Step(s, c, noEscape), stop, r)
  {
    if v.iStatus < 4 {
      v', stop, r := PassName(bufName, bufAttrib, v, c, noEscape, s);
    } else if v.iStatus == 4 {
      v' := PassValue(bufName, bufAttrib, v, c, noEscape, s);
      stop, r := false, NoAttribute;
    } else {
      v', stop, r := PassEntity(bufName, bufAttrib, v, c, noEscape, s);
    }
  }

  /** What follows the loop. */
  method Finish(bufName: array<char>, bufAttrib: array<char>, v: Vars, ghost s: Scan) returns (r: Result)
    requires Holds(bufName, bufAttrib, v, s)
    ensures r == Outcome(s)
  {
    if v.iStatus < 6 {
      if v.iPosn > MAX_NAME {
        return Bad(NameTooLong);
      } else if v.iPosa > MAX_VALUE {
        return Bad(ValueTooLong);
      }
      return Bad(Malformed);
    }
    r := Attribute(bufName[..v.iPosn], bufAttrib[..v.iPosa]);
  }

  /** The loop has read from the stream up to what is left, and is in state s. */
  ghost predicate Reading(s: Scan, left: string, stream: string, noEscape: bool) {
    && Consistent(s)
    && Scanned(s, left, noEscape) == Scanned(Begin, stream, noEscape)
    && Left(s, left, noEscape) == Left(Begin, stream, noEscape)
  }

  lemma ReadingStep(s: Scan, left: string, stream: string, noEscape: bool)
    requires Reading(s, left, stream, noEscape) && Reads(s) && left != ""
    ensures Reading(Step(s, left[0], noEscape), left[1..], stream, noEscape)
  {
  }

  lemma ReadingEnd(s: Scan, left: string, stream: string, noEscape: bool)
    requires Reading(s, left, stream, noEscape) && (!Reads(s) || left == "")
    ensures s == Scanned(Begin, stream, noEscape) && left == Left(Begin, stream, noEscape)
  {
  }

  lemma LoopGoesOn(bufName: array<char>, bufAttrib: array<char>, v: Vars, s: Scan)
    requires Holds(bufName, bufAttrib, v, s)
    ensures v.iStatus < 6 && v.iPosn <= MAX_NAME && v.iPosa <= MAX_VALUE <==> Reads(s)
  {
  }

  lemma StoppedReads(bufName: array<char>, bufAttrib: array<char>, v: Vars, s: Scan, r: Result)
    requires Passed(bufName, bufAttrib, v, s, true, r)
    ensures !Reads(s) && r == Outcome(s)
  {
  }

  /** The state of the loop: what the source still gives, what the arrays hold, and what has been read. */
  ghost predicate Looping(src: Source, bufName: array<char>, bufAttrib: array<char>, v: Vars, s: Scan,
                          stream: string, noEscape: bool)
    reads src, bufName, bufAttrib
  {
    src.Valid() && Holds(bufName, bufAttrib, v, s) && Reading(s, src.Rest(), stream, noEscape)
  }

  /** One pass of the loop: it reads on, or it is over with a result or at the end of the stream. */
  method ReadNext(src: Source, bufName: array<char>, bufAttrib: array<char>, v: Vars, noEscape: bool,
                  ghost s: Scan, ghost stream: string)
    returns (over: bool, stop: bool, v': Vars, r: Result, ghost s': Scan)
    requires Looping(src, bufName, bufAttrib, v, s, stream, noEscape) && Reads(s)
    modifies src, bufName, bufAttrib
    ensures src.Valid() && Reading(s', src.Rest(), stream, noEscape)
    ensures stop ==> over && !Reads(s') && r == Outcome(s')
    ensures !stop ==> Looping(src, bufName, bufAttrib, v', s', stream, noEscape)
    ensures over && !stop ==> src.Rest() == ""
    ensures !over ==> |src.Rest()| < old(|src.Rest()|)
  {
    over, stop, v', r, s' := true, false, v, NoAttribute, s;
    ghost var left := src.Rest();
    var chr := src.GetC();
    if chr != Eof {
      ReadingStep(s, left, stream, noEscape);
      v', stop, r := Pass(bufName, bufAttrib, v, chr.c, noEscape, s);
      s' := Step(s, chr.c, noEscape);
      over := stop;
      if stop {
        StoppedReads(bufName, bufAttrib, v', s', r);
      }
    }
  }

  /** mxml_attribute_read. */
  method ReadAttribute(src: Source, noEscape: bool) returns (r: Result)
    requires src.Valid()
    modifies src
    ensures src.Valid() && r == Outcome(Scanned(Begin, old(src.Rest()), noEscape))
    ensures src.Rest() == Left(Begin, old(src.Rest()), noEscape)
  {
    var bufName, bufAttrib := new char[129], new char[513];
    var v := Vars(0, 0, 0, 0, '\0');
    ghost var stream, s := src.Rest(), Begin;
    while v.iStatus < 6 && v.iPosn <= MAX_NAME && v.iPosa <= MAX_VALUE
      invariant Looping(src, bufName, bufAttrib, v, s, stream, noEscape)
      decreases |src.Rest()|
    {
      LoopGoesOn(bufName, bufAttrib, v, s);
      var over, stop;
      over, stop, v, r, s := ReadNext(src, bufName, bufAttrib, v, noEscape, s, stream);
      if stop {
        ReadingEnd(s, src.Rest(), stream, noEscape);
        return;
      }
      if over {
        break;
      }
    }
    LoopGoesOn(bufName, bufAttrib, v, s);
    ReadingEnd(s, src.Rest(), stream, noEscape);
    r := Finish(bufName, bufAttrib, v, s);
  }

  /** An attribute written to a stream, cut into chunks anyhow, and read; what follows it is left in the source. */
  method ReadWritten(chunks: seq<Chunk>, ghost g: Gaps, ghost name: string, ghost quote: char,
                     ghost v: string, ghost chosen: seq<bool>, ghost rest: string)
    returns (r: Result, src: Source)
    requires Proper(chunks) && AllBlanks(g) && ValidName(name) && |v| == |chosen| && Quotable(v, chosen, quote)
    requires Before(chunks) == Written(g, name, quote, v, chosen, rest)
    ensures r == if |name| > 128 then Bad(NameTooLong)
                 else if Fits(v, chosen) then Attribute(name, v)
                 else Bad(ValueTooLong)
    ensures src.Valid() && (|name| <= 128 && Fits(v, chosen) ==> src.Rest() == rest)
  {
    src := new Source("", chunks);
    assert src.Rest() == Before(chunks);
    RoundTripIff(g, name, quote, v, chosen, rest);
    r := ReadAttribute(src, false);
  }
}
