/** The integer constants of C without suffixes, section 6.4.4.1 of ISO C99. */
module CConstants {

  datatype Constant = Constant(value: nat) | NotAConstant

  predicate Decimal(c: char) {
    '0' <= c <= '9'
  }

  predicate Octal(c: char) {
    '0' <= c <= '7'
  }

  predicate Hexadecimal(c: char) {
    '0' <= c <= '9' || 'a' <= c <= 'f' || 'A' <= c <= 'F'
  }

  function DigitValue(c: char): nat
    requires Hexadecimal(c)
  {
    if c <= '9' then c as int - '0' as int
    else if c <= 'F' then c as int - 'A' as int + 10
    else c as int - 'a' as int + 10
  }

  /** The value of digits, the last one being the least significant. */
  function ValueIn(base: nat, s: string): nat
    requires forall i :: 0 <= i < |s| ==> Hexadecimal(s[i])
  {
    if s == "" then 0 else ValueIn(base, s[..|s| - 1]) * base + DigitValue(s[|s| - 1])
  }

  predicate AllHexadecimal(s: string) {
    forall i :: 0 <= i < |s| ==> Hexadecimal(s[i])
  }

  /** What C makes of a token: hexadecimal behind 0x or 0X, octal if it starts with 0, decimal otherwise. */
  function ConstantOf(s: string): Constant {
    if |s| >= 3 && s[0] == '0' && (s[1] == 'x' || s[1] == 'X') && AllHexadecimal(s[2..]) then
      Constant(ValueIn(16, s[2..]))
    else if |s| >= 1 && s[0] == '0' && (forall i :: 0 <= i < |s| ==> Octal(s[i])) then
      Constant(ValueIn(8, s))
    else if |s| >= 1 && '1' <= s[0] <= '9' && (forall i :: 0 <= i < |s| ==> Decimal(s[i])) then
      Constant(ValueIn(10, s))
    else
      NotAConstant
  }

  /** Tokens with a comma and a space between them. */
  function Commas(tokens: seq<string>): string {
    if tokens == [] then "" else if |tokens| == 1 then tokens[0] else tokens[0] + ", " + Commas(tokens[1..])
  }
}
