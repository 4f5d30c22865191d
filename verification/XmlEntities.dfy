/** How wide_char/make_complex_chinese.c recognises the predefined entities of section 4.6 of XML 1.0,
    and the escaping of text that it has to undo. */
module XmlEntities {

  /** strncmp(a, lit, n) == 0, where at least n characters of a are there and lit is a C literal. */
  predicate SameFirst(a: string, lit: string, n: nat)
    requires n <= |a|
  {
    if n == 0 then true
    else if lit == "" then a[0] == '\0'
    else a[0] == lit[0] && SameFirst(a[1..], lit[1..], n - 1)
  }

  lemma {:induction false} SameFirstIsPrefix(a: string, lit: string, n: nat)
    requires n <= |a| && '\0' !in a
    ensures SameFirst(a, lit, n) <==> n <= |lit| && a[..n] == lit[..n]
    decreases n
  {
    if n > 0 && lit != "" {
      SameFirstIsPrefix(a[1..], lit[1..], n - 1);
      if n <= |lit| {
        assert a[..n] == [a[0]] + a[1..][..n - 1] && lit[..n] == [lit[0]] + lit[1..][..n - 1];
        if a[..n] == lit[..n] {
          assert a[..n][0] == a[0] && lit[..n][0] == lit[0];
          assert a[1..][..n - 1] == a[..n][1..] && lit[1..][..n - 1] == lit[..n][1..];
        }
      }
    }
  }

  /** The character the code takes for &name; or ';' when it takes none.  The code compares all but the
      last character of the name. */
  function EntityChar(name: string): char
    requires |name| >= 2
  {
    var n := |name| - 1;
    if SameFirst(name, "amp", n) then '&'
    else if SameFirst(name, "lt", n) then '<'
    else if SameFirst(name, "gt", n) then '>'
    else if SameFirst(name, "quot", n) then '"'
    else if SameFirst(name, "apos", n) then '\''
    else ';'
  }

  /** Exactly which names are taken for which character: those that agree with an entity name in all but
      their last letter. */
  lemma EntityCharExactly(name: string)
    requires |name| >= 2 && '\0' !in name
    ensures var w := name[..|name| - 1];
            EntityChar(name) ==
              if w <= "amp" then '&'
              else if w <= "lt" then '<'
              else if w <= "gt" then '>'
              else if w <= "quot" then '"'
              else if w <= "apos" then '\''
              else ';'
  {
    var n := |name| - 1;
    SameFirstIsPrefix(name, "amp", n);
    SameFirstIsPrefix(name, "lt", n);
    SameFirstIsPrefix(name, "gt", n);
    SameFirstIsPrefix(name, "quot", n);
    SameFirstIsPrefix(name, "apos", n);
  }

  // ----- Escaping

  predicate MustEscape(c: char) {
    c == '&' || c == '<'
  }

  predicate MayEscape(c: char) {
    MustEscape(c) || c == '>' || c == '"' || c == '\''
  }

  function NameOf(c: char): (r: string)
    requires MayEscape(c)
    ensures 2 <= |r| <= 4
  {
    match c
    case '&' => "amp"
    case '<' => "lt"
    case '>' => "gt"
    case '"' => "quot"
    case _ => "apos"
  }

  /** One character, as an entity if it has to be or if the writer chose so. */
  function Escape(c: char, chosen: bool): string {
    if MustEscape(c) || (MayEscape(c) && chosen) then "&" + NameOf(c) + ";" else [c]
  }

  /** The first k characters of a text in which the writer chose freely which of the optional ones to escape. */
  function EscapeTo(t: string, chosen: seq<bool>, k: nat): string
    requires |t| == |chosen| && k <= |t|
  {
    if k == 0 then "" else EscapeTo(t, chosen, k - 1) + Escape(t[k - 1], chosen[k - 1])
  }

  function EscapeAll(t: string, chosen: seq<bool>): string
    requires |t| == |chosen|
  {
    EscapeTo(t, chosen, |t|)
  }

  /** Each proper entity is taken for its character. */
  lemma NamesAreRecognised(c: char)
    requires MayEscape(c)
    ensures EntityChar(NameOf(c)) == c
    ensures forall i :: 0 <= i < |NameOf(c)| ==> NameOf(c)[i] != '&' && NameOf(c)[i] != ';' && NameOf(c)[i] != '<'
  {
    assert "amp"[0] == 'a' && "amp"[1] == 'm' && "lt"[0] == 'l' && "gt"[0] == 'g' && "quot"[0] == 'q';
    var w := NameOf(c)[..|NameOf(c)| - 1];
    assert w[0] == NameOf(c)[0];
    match c
    case '&' => assert w == "am" == "amp"[..2];
    case '<' => assert w == "l" == "lt"[..1];
    case '>' => assert w == "g" == "gt"[..1];
    case '"' => assert w == "quo" == "quot"[..3];
    case _ => assert w == "apo" == "apos"[..3] && w[1] == 'p';
    EntityCharExactly(NameOf(c));
  }

  /** The last letter of a name does not matter. */
  lemma LastLetterIgnored(w: string, c: char, d: char)
    requires w != "" && '\0' !in w + [c, d]
    ensures EntityChar(w + [c]) == EntityChar(w + [d])
  {
    assert '\0' !in w && c in w + [c, d] && d in w + [c, d];
    assert (w + [c])[..|w|] == w && (w + [d])[..|w|] == w;
    EntityCharExactly(w + [c]);
    EntityCharExactly(w + [d]);
  }

  /** A name that XML does not know is taken for an ampersand. */
  lemma UnknownNameTaken()
    ensures EntityChar("amx") == '&'
  {
    assert "amx"[..2] == "am" <= "amp";
    EntityCharExactly("amx");
  }
}
