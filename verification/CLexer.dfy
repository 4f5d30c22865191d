/** Comments as C defines them: the phases of translation 2 and 3 of ISO C99 (section 5.1.1.2) as far as they decide
    which characters belong to comments.  There are no trigraphs, and a newline ends a literal that is not closed. */
module CLexer {

  /** What a literal begins and ends with. */
  type Quote = c: char | c == '"' || c == '\'' witness '"'

  /** Where the text stands: in ordinary tokens, behind a slash in them, in a comment or in a literal. */
  datatype Token =
    | Plain
    | Opening
    | Line
    | Block(star: bool)
    | Literal(quote: Quote, escaped: bool)

  /** The effect of one character, once backslashes before newlines are gone. */
  function Step(t: Token, c: char): Token {
    match t
    case Plain => if c == '/' then Opening else Begin(c)
    case Opening => if c == '/' then Line else if c == '*' then Block(false) else Begin(c)
    case Line => if c == '\n' then Plain else Line
    case Block(star) => if star && c == '/' then Plain else Block(c == '*')
    case Literal(quote, escaped) =>
      if escaped then Literal(quote, false)
      else if c == '\\' then Literal(quote, true)
      else if c == quote || c == '\n' then Plain
      else t
  }

  function Begin(c: char): Token {
    if c == '"' || c == '\'' then Literal(c, false) else Plain
  }

  /** A token and whether a backslash has been read that may yet turn out to continue the line. */
  datatype State = State(token: Token, held: bool)

  function Next(s: State, c: char): State {
    var t := if s.held && c != '\n' then Step(s.token, '\\') else s.token;
    if c == '\\' then State(t, true)
    else if s.held && c == '\n' then State(t, false)
    else State(Step(t, c), false)
  }

  /** The state after the first k characters. */
  function StateAt(s: string, k: nat): State
    requires k <= |s|
  {
    if k == 0 then State(Plain, false) else Next(StateAt(s, k - 1), s[k - 1])
  }

  /** After the first k characters the text is inside a comment. */
  predicate Inside(s: string, k: nat)
    requires k <= |s|
  {
    StateAt(s, k).token.Line? || StateAt(s, k).token.Block?
  }

  /** The slash before k is followed by the second character of a comment's start, perhaps on a continued line. */
  predicate Leads(s: string, k: nat)
    requires k <= |s| && StateAt(s, k).token.Opening?
    decreases |s| - k
  {
    k < |s| && (Inside(s, k + 1) || (s[k] == (if StateAt(s, k).held then '\n' else '\\') && Leads(s, k + 1)))
  }

  /** Character i is part of a comment: one that is open behind it, the end of a block comment, or the first slash
      of a comment.  The newline behind a line comment is not. */
  predicate InComment(s: string, i: nat)
    requires i < |s|
  {
    || Inside(s, i + 1)
    || StateAt(s, i).token.Block?
    || (StateAt(s, i + 1).token.Opening? && Leads(s, i + 1))
  }

  /** The first k characters without those in comments. */
  function Uncommented(s: string, k: nat): string
    requires k <= |s|
  {
    if k == 0 then "" else Uncommented(s, k - 1) + if InComment(s, k - 1) then "" else [s[k - 1]]
  }
}
