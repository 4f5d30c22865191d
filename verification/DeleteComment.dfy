/** fsm/delete_comment.c: the five-state comment remover.  The source keeps getchar's result in a char, so
    the byte 0xFF ends the input just as the end of the file does. */
module DeleteComment {
  import opened Subsequences
  import C = CLexer

  const EOF_BYTE: char := 0xFF as char

  /** The states of the source: 0, 1, 2, 3 and 4. */
  datatype State = Code | Slash | LineComment | BlockComment | Star

  function Next(s: State, c: char): State {
    match s
    case Code => if c == '/' then Slash else Code
    case Slash => if c == '/' then LineComment else if c == '*' then BlockComment else Code
    case LineComment => if c == '\n' then Code else LineComment
    case BlockComment => if c == '*' then Star else BlockComment
    case Star => if c == '/' then Code else BlockComment
  }

  function Emit(s: State, c: char): string {
    match s
    case Code => if c == '/' then "" else [c]
    case Slash => if c == '/' || c == '*' then "" else ['/', c]
    case LineComment => if c == '\n' then [c] else ""
    case _ => ""
  }

  /** The state after the first k characters, and what has been put out. */
  function StateAt(s: string, k: nat): State
    requires k <= |s|
  {
    if k == 0 then Code else Next(StateAt(s, k - 1), s[k - 1])
  }

  function Output(s: string, k: nat): string
    requires k <= |s|
  {
    if k == 0 then "" else Output(s, k - 1) + Emit(StateAt(s, k - 1), s[k - 1])
  }

  /** Where the reading loop stops. */
  function End(s: string): (n: nat)
    ensures n <= |s| && (forall i :: 0 <= i < n ==> s[i] as int != 0xFF) && (n < |s| ==> s[n] as int == 0xFF)
  {
    if s == "" || s[0] == EOF_BYTE then 0 else 1 + End(s[1..])
  }

  function Strip(s: string): string {
    Output(s, End(s))
  }

  /** The program. */
  method Run(input: string) returns (output: string)
    ensures output == Strip(input)
  {
    output := "";
    var state, i := 0, 0;
    ghost var n := End(input);
    while i < |input| && input[i] != EOF_BYTE
      invariant 0 <= i <= n && 0 <= state <= 4
      invariant state == Number(StateAt(input, i)) && output == Output(input, i)
    {
      var c := input[i];
      i := i + 1;
      match state
      case 0 =>
        if c == '/' {
          state := 1;
        } else {
          output := output + [c];
        }
      case 1 =>
        if c == '/' {
          state := 2;
        } else if c == '*' {
          state := 3;
        } else {
          state := 0;
          output := output + ['/'];
          output := output + [c];
        }
      case 2 =>
        if c == '\n' {
          state := 0;
          output := output + [c];
        }
      case 3 =>
        if c == '*' {
          state := 4;
        }
      case _ =>
        if c == '/' {
          state := 0;
        } else {
          state := 3;
        }
    }
  }

  function Number(s: State): int {
    match s
    case Code => 0
    case Slash => 1
    case LineComment => 2
    case BlockComment => 3
    case Star => 4
  }

  // ----- What comes out

  /** No comment starts anywhere, and no slash stands last: every slash is followed by something else. */
  ghost predicate Clean(t: string) {
    && EOF_BYTE !in t
    && forall i :: 0 <= i < |t| && t[i] == '/' ==> i + 1 < |t| && t[i + 1] != '/' && t[i + 1] != '*'
  }

  lemma CleanJoin(a: string, b: string)
    requires Clean(a) && Clean(b)
    ensures Clean(a + b)
  {
  }

  lemma EmitIsClean(s: State, c: char)
    requires c != EOF_BYTE
    ensures Clean(Emit(s, c))
  {
  }

  lemma {:induction false} OutputIsClean(s: string, k: nat)
    requires k <= |s| && EOF_BYTE !in s[..k]
    ensures Clean(Output(s, k))
  {
    if k > 0 {
      assert s[..k][k - 1] == s[k - 1] && s[..k - 1] == s[..k][..k - 1];
      OutputIsClean(s, k - 1);
      EmitIsClean(StateAt(s, k - 1), s[k - 1]);
      CleanJoin(Output(s, k - 1), Emit(StateAt(s, k - 1), s[k - 1]));
    }
  }

  /** What has come out is made of input characters in their order; in state 1 one slash is held back. */
  lemma {:induction false} OutputIsSubsequence(s: string, k: nat)
    requires k <= |s|
    ensures IsSubsequence(Output(s, k), s[..k])
    ensures StateAt(s, k) == Slash ==> IsSubsequence(Output(s, k) + "/", s[..k])
  {
    if k == 0 {
      EmptyIsSubsequence(s[..0]);
    } else {
      var t, c, before := s[..k - 1], s[k - 1], Output(s, k - 1);
      assert s[..k] == t + [c];
      OutputIsSubsequence(s, k - 1);
      SubsequenceOfLonger(before, t, [c]);
      SubsequenceAppend(before, t, c);
      match StateAt(s, k - 1)
      case Code =>
        assert before + "" == before;
      case Slash =>
        SubsequenceAppend(before + "/", t, c);
        assert before + ['/', c] == before + "/" + [c];
        assert before + "" == before;
      case _ =>
        assert before + "" == before;
    }
  }

  lemma SubsequencePrefix(a: string, s: string, n: nat)
    requires n <= |s| && IsSubsequence(a, s[..n])
    ensures IsSubsequence(a, s)
  {
    assert s == s[..n] + s[n..];
    SubsequenceOfLonger(a, s[..n], s[n..]);
  }

  /** On clean text the machine is only ever in its first two states, and holds back at most one slash. */
  lemma {:induction false} CleanPasses(t: string, k: nat)
    requires Clean(t) && k <= |t|
    ensures if k > 0 && t[k - 1] == '/' then StateAt(t, k) == Slash && Output(t, k) == t[..k - 1]
            else StateAt(t, k) == Code && Output(t, k) == t[..k]
  {
    if k > 0 {
      CleanPasses(t, k - 1);
      assert t[..k] == t[..k - 1] + [t[k - 1]];
      if k > 1 {
        assert t[..k - 1] == t[..k - 2] + [t[k - 2]];
      }
    }
  }

  lemma {:induction false} CleanEnd(t: string)
    requires EOF_BYTE !in t
    ensures End(t) == |t|
  {
    if t != "" {
      CleanEnd(t[1..]);
    }
  }

  /** The texts the remover leaves alone are exactly those without a comment start or a dangling slash. */
  lemma FixedIffClean(t: string)
    ensures Strip(t) == t <==> Clean(t)
  {
    OutputIsClean(t, End(t));
    if Clean(t) {
      CleanEnd(t);
      CleanPasses(t, |t|);
      assert t[..|t|] == t;
    }
  }

  /** For every input: the output is a subsequence of it, clean, and left alone by a second run. */
  lemma StripCorrect(s: string)
    ensures IsSubsequence(Strip(s), s) && Clean(Strip(s)) && Strip(Strip(s)) == Strip(s)
  {
    OutputIsSubsequence(s, End(s));
    SubsequencePrefix(Strip(s), s, End(s));
    OutputIsClean(s, End(s));
    FixedIffClean(Strip(s));
  }

  // ----- What is removed

  /** The state after a string, from a given state. */
  function After(s: State, t: string): State {
    if t == "" then s else Next(After(s, t[..|t| - 1]), t[|t| - 1])
  }

  /** What comes out over a string, from a given state. */
  function From(s: State, t: string): string {
    if t == "" then "" else From(s, t[..|t| - 1]) + Emit(After(s, t[..|t| - 1]), t[|t| - 1])
  }

  lemma {:induction false} StripIsFrom(t: string, k: nat)
    requires k <= |t|
    ensures StateAt(t, k) == After(Code, t[..k]) && Output(t, k) == From(Code, t[..k])
  {
    if k > 0 {
      StripIsFrom(t, k - 1);
      assert t[..k][..k - 1] == t[..k - 1];
    }
  }

  lemma {:induction false} Split(s: State, a: string, b: string)
    ensures After(s, a + b) == After(After(s, a), b)
    ensures From(s, a + b) == From(s, a) + From(After(s, a), b)
    decreases |b|
  {
    if b == "" {
      assert a + b == a;
    } else {
      var n := |b| - 1;
      Split(s, a, b[..n]);
      LastApart(a, b);
      Extended(s, a + b, a + b[..n], b[n]);
      Extended(After(s, a), b, b[..n], b[n]);
      Associative(From(s, a), From(After(s, a), b[..n]), Emit(After(After(s, a), b[..n]), b[n]));
    }
  }

  lemma LastApart(a: string, b: string)
    requires b != ""
    ensures b == b[..|b| - 1] + [b[|b| - 1]] && a + b == (a + b[..|b| - 1]) + [b[|b| - 1]]
  {
  }

  lemma Extended(s: State, t: string, front: string, c: char)
    requires t == front + [c]
    ensures After(s, t) == Next(After(s, front), c)
    ensures From(s, t) == From(s, front) + Emit(After(s, front), c)
  {
    assert t[..|t| - 1] == front;
  }

  lemma Associative(a: string, b: string, c: string)
    ensures (a + b) + c == a + (b + c)
  {
  }

  lemma {:induction false} InsideLine(w: string)
    requires '\n' !in w
    ensures After(LineComment, w) == LineComment && From(LineComment, w) == ""
  {
    if w != "" {
      InsideLine(w[..|w| - 1]);
    }
  }

  lemma TwoSteps(s: State, c: char, d: char)
    ensures After(s, [c, d]) == Next(Next(s, c), d)
    ensures From(s, [c, d]) == Emit(s, c) + Emit(Next(s, c), d)
  {
    assert [c, d][..1] == [c] && [c][..0] == "";
    assert After(s, [c]) == Next(s, c) && From(s, [c]) == Emit(s, c);
  }

  /** From code, a line comment goes and its newline stays. */
  lemma LineCommentRemoved(w: string, v: string)
    requires '\n' !in w
    ensures From(Code, "//" + w + "\n" + v) == "\n" + From(Code, v)
  {
    TwoSteps(Code, '/', '/');
    InsideLine(w);
    Split(Code, "//", w);
    Split(Code, "//" + w, "\n");
    Split(Code, "//" + w + "\n", v);
    assert "\n"[..0] == "";
    assert After(LineComment, "\n") == Next(LineComment, '\n') && From(LineComment, "\n") == Emit(LineComment, '\n');
  }

  // ----- Where a block comment ends

  /** The text of a block comment: C finds no end in it. */
  predicate NoEnd(w: string) {
    forall i :: 0 < i < |w| ==> !(w[i - 1] == '*' && w[i] == '/')
  }

  /** The number of stars at the end. */
  function Trailing(w: string): nat {
    if w == "" || w[|w| - 1] != '*' then 0 else 1 + Trailing(w[..|w| - 1])
  }

  /** The machine takes the stars before an end in pairs. */
  lemma {:induction false} InsideBlock(w: string)
    requires NoEnd(w)
    ensures From(BlockComment, w) == ""
    ensures After(BlockComment, w) == if Trailing(w) % 2 == 0 then BlockComment else Star
  {
    if w != "" {
      InsideBlock(w[..|w| - 1]);
    }
  }

  /** From code, a block comment goes entirely if the number of stars before its end is even; if it is odd,
      the machine misses the end and stays inside. */
  lemma BlockCommentRemovedIff(w: string, v: string)
    requires NoEnd(w)
    ensures From(Code, "/*" + w + "*/" + v) == if Trailing(w) % 2 == 0 then From(Code, v) else From(BlockComment, v)
  {
    TwoSteps(Code, '/', '*');
    InsideBlock(w);
    Split(Code, "/*", w);
    TwoSteps(After(BlockComment, w), '*', '/');
    Split(Code, "/*" + w, "*/");
    Split(Code, "/*" + w + "*/", v);
  }

  /** A slash ends a block comment if and only if an odd run of stars is before it; C ends it after any run. */
  lemma BlockEndsIffOdd(w: string)
    requires NoEnd(w)
    ensures After(BlockComment, w + "/") == Code <==> Trailing(w) % 2 == 1
  {
    InsideBlock(w);
    assert (w + "/")[..|w|] == w;
  }

  /** The shortest comment that the machine does not see the end of. */
  lemma OddCommentSwallows(v: string)
    ensures From(Code, "/*" + "*" + "*/" + v) == From(BlockComment, v)
  {
    OneStar("*", v);
  }

  lemma OneStar(w: string, v: string)
    requires |w| == 1 && w[0] == '*'
    ensures From(Code, "/*" + w + "*/" + v) == From(BlockComment, v)
  {
    assert Trailing(w[..0]) == 0;
    BlockCommentRemovedIff(w, v);
  }

  // ----- Comments as C defines them

  /** After the first k characters the machine is inside a comment. */
  predicate Inside(s: string, k: nat)
    requires k <= |s|
  {
    StateAt(s, k) == LineComment || StateAt(s, k) == BlockComment || StateAt(s, k) == Star
  }

  /** At every position the machine is inside a comment exactly if C is. */
  predicate Agrees(s: string) {
    forall k :: 0 <= k <= |s| ==> (Inside(s, k) <==> C.Inside(s, k))
  }

  /** The number of stars before k in the text of the block comment that is open there. */
  function Stars(s: string, k: nat): nat
    requires k <= |s|
  {
    if k == 0 || s[k - 1] != '*' || !C.StateAt(s, k - 1).token.Block? then 0 else 1 + Stars(s, k - 1)
  }

  /** What the machine does not know of C, met at character k: two characters in a literal that look like the start
      of a comment, such a start with a continued line in it, a line comment that is continued on the next line, and
      the end of a block comment after an even number of stars (none, if a continued line is in between). */
  predicate Trouble(s: string, k: nat)
    requires k < |s|
  {
    var lexer := C.StateAt(s, k);
    match lexer.token
    case Plain => false
    case Opening => !lexer.held && s[k] in "/*" && k > 0 && s[k - 1] != '/'
    case Line => lexer.held && s[k] == '\n'
    case Block(star) => !lexer.held && star && s[k] == '/' && Stars(s, k) % 2 == 0
    case Literal(_, _) => s[k] in "/*" && k > 0 && s[k - 1] == '/'
  }

  predicate Regular(s: string) {
    forall k :: 0 <= k < |s| ==> !Trouble(s, k)
  }

  /** The state of the machine as long as it has met no trouble. */
  function Expected(s: string, k: nat): State
    requires k <= |s|
  {
    var lexer, slash := C.StateAt(s, k), k > 0 && s[k - 1] == '/';
    match lexer.token
    case Plain => Code
    case Opening => if !lexer.held && slash then Slash else Code
    case Line => LineComment
    case Block(_) => if Stars(s, k) % 2 == 0 then BlockComment else Star
    case Literal(_, _) => if slash then Slash else Code
  }

  /** What the last character tells of the lexer's state. */
  lemma LastCharacter(s: string, k: nat)
    requires k <= |s|
    ensures var lexer := C.StateAt(s, k);
            && (lexer.held ==> k > 0 && s[k - 1] == '\\')
            && (lexer.token.Opening? ==> k > 0)
            && (lexer.token.Block? && Stars(s, k) > 0 ==> lexer == C.State(C.Block(true), false))
  {
  }

  /** Without trouble the machine stays as expected; trouble is a disagreement. */
  lemma ExpectedStep(s: string, k: nat)
    requires k < |s| && StateAt(s, k) == Expected(s, k)
    ensures if Trouble(s, k) then Inside(s, k + 1) != C.Inside(s, k + 1) else StateAt(s, k + 1) == Expected(s, k + 1)
  {
    LastCharacter(s, k);
  }

  lemma {:induction false} NoTroubleBefore(s: string, k: nat)
    requires k <= |s| && forall i :: 0 <= i < k ==> !Trouble(s, i)
    ensures StateAt(s, k) == Expected(s, k) && (Inside(s, k) <==> C.Inside(s, k))
  {
    if k > 0 {
      NoTroubleBefore(s, k - 1);
      ExpectedStep(s, k - 1);
    }
  }

  lemma FirstTrouble(s: string) returns (k: nat)
    requires !Regular(s)
    ensures k < |s| && Trouble(s, k) && forall i :: 0 <= i < k ==> !Trouble(s, i)
  {
    k := 0;
    while !Trouble(s, k)
      invariant k < |s| && forall i :: 0 <= i < k ==> !Trouble(s, i)
      invariant exists i :: k <= i < |s| && Trouble(s, i)
      decreases |s| - k
    {
      k := k + 1;
    }
  }

  /** The machine is inside comments exactly where C is, if and only if the text is regular. */
  lemma AgreesIffRegular(s: string)
    ensures Agrees(s) <==> Regular(s)
  {
    if Regular(s) {
      forall k | 0 <= k <= |s|
        ensures Inside(s, k) <==> C.Inside(s, k)
      {
        NoTroubleBefore(s, k);
      }
    } else {
      var k := FirstTrouble(s);
      NoTroubleBefore(s, k);
      ExpectedStep(s, k);
    }
  }

  // ----- What is left of a regular text

  /** In a regular text the start of a comment is never split by a continued line. */
  lemma {:induction false} NeverSplit(s: string, k: nat)
    requires k <= |s| && Regular(s) && C.StateAt(s, k).token.Opening?
    requires C.StateAt(s, k).held || (k > 0 && s[k - 1] != '/')
    ensures !C.Leads(s, k)
    decreases |s| - k
  {
    if k < |s| {
      assert !Trouble(s, k);
      LastCharacter(s, k);
      if s[k] == (if C.StateAt(s, k).held then '\n' else '\\') {
        NeverSplit(s, k + 1);
      }
    }
  }

  /** A slash that the machine holds back belongs to a comment exactly if the next character starts one. */
  lemma HeldSlash(s: string, k: nat)
    requires 0 < k <= |s| && Regular(s) && StateAt(s, k) == Slash && Expected(s, k) == Slash
    ensures s[k - 1] == '/' && (C.InComment(s, k - 1) <==> k < |s| && C.Inside(s, k + 1))
  {
    LastCharacter(s, k);
    assert s[k - 1] == '/';
    assert !C.Inside(s, k) && !C.StateAt(s, k - 1).token.Block? by {
      assert !C.StateAt(s, k).token.Plain?;
    }
    if k < |s| {
      assert !Trouble(s, k);
      if C.StateAt(s, k).token.Opening? && s[k] == '\\' {
        NeverSplit(s, k + 1);
      }
    }
  }

  /** A character that leaves the machine in code, other than the end of a block comment, is in no comment. */
  lemma CodeCharacter(s: string, k: nat)
    requires k < |s| && Regular(s) && !C.StateAt(s, k).token.Block?
    requires StateAt(s, k + 1) == Expected(s, k + 1) == Code
    ensures !C.InComment(s, k)
  {
    LastCharacter(s, k + 1);
    if C.StateAt(s, k + 1).token.Opening? {
      NeverSplit(s, k + 1);
    }
  }

  /** What has been put out of a regular text: what is outside comments, but for a slash held back. */
  lemma {:induction false} OutputSoFar(s: string, k: nat)
    requires k <= |s| && Regular(s)
    ensures StateAt(s, k) == Slash ==> k > 0
    ensures Output(s, k) == C.Uncommented(s, if StateAt(s, k) == Slash then k - 1 else k)
    decreases k
  {
    if k > 0 {
      OutputSoFar(s, k - 1);
      OutputStep(s, k - 1);
    }
  }

  lemma OutputStep(s: string, k: nat)
    requires k < |s| && Regular(s) && (StateAt(s, k) == Slash ==> k > 0)
    requires Output(s, k) == C.Uncommented(s, if StateAt(s, k) == Slash then k - 1 else k)
    ensures Output(s, k + 1) == C.Uncommented(s, if StateAt(s, k + 1) == Slash then k else k + 1)
  {
    NoTroubleBefore(s, k);
    NoTroubleBefore(s, k + 1);
    if StateAt(s, k) == Slash {
      SlashStep(s, k);
    } else {
      PlainStep(s, k);
    }
  }

  lemma SlashStep(s: string, k: nat)
    requires 0 < k < |s| && Regular(s) && StateAt(s, k) == Expected(s, k) == Slash
    requires StateAt(s, k + 1) == Expected(s, k + 1) && Output(s, k) == C.Uncommented(s, k - 1)
    ensures StateAt(s, k + 1) != Slash && Output(s, k + 1) == C.Uncommented(s, k + 1)
  {
    HeldSlash(s, k);
    if StateAt(s, k + 1) == Code {
      CodeCharacter(s, k);
    }
  }

  lemma PlainStep(s: string, k: nat)
    requires k < |s| && Regular(s) && StateAt(s, k) == Expected(s, k) != Slash
    requires StateAt(s, k + 1) == Expected(s, k + 1) && Output(s, k) == C.Uncommented(s, k)
    ensures Output(s, k + 1) == C.Uncommented(s, if StateAt(s, k + 1) == Slash then k else k + 1)
  {
    if StateAt(s, k + 1) == Code && !C.StateAt(s, k).token.Block? {
      CodeCharacter(s, k);
    }
  }

  /** Of a regular text the machine puts out exactly what is outside comments, except a slash that stands last. */
  lemma RemovesComments(s: string, n: nat)
    requires Regular(s) && n == |s|
    ensures Output(s, n) + (if StateAt(s, n) == Slash then "/" else "") == C.Uncommented(s, n)
  {
    OutputSoFar(s, n);
    if StateAt(s, n) == Slash {
      NoTroubleBefore(s, n);
      HeldSlash(s, n);
    }
  }

  /** The same for the program, whose input ends at the byte 0xFF. */
  lemma StripRemovesComments(s: string)
    requires Regular(s[..End(s)])
    ensures var t := s[..End(s)];
            Strip(s) + (if StateAt(t, |t|) == Slash then "/" else "") == C.Uncommented(t, |t|)
  {
    StripIsFrom(s, End(s));
    var t := s[..End(s)];
    StripIsFrom(t, |t|);
    assert t[..|t|] == t;
    RemovesComments(t, |t|);
  }

  /** Program text is lost: the end of a string literal with two slashes in it. */
  lemma LiteralCut()
    ensures Output("\"//\"", 4) == "\"" && C.Uncommented("\"//\"", 4) == "\"//\""
  {
  }

  /** Program text is lost: what follows a comment with an odd number of stars. */
  lemma CodeSwallowed()
    ensures Output("/***/x", 6) == "" && C.Uncommented("/***/x", 6) == "x"
  {
  }

  /** Comment text is kept: a line comment that is continued on the next line. */
  lemma CommentKept()
    ensures Output("//\\\nx", 5) == "\nx" && C.Uncommented("//\\\nx", 5) == ""
  {
  }
}
