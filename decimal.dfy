/** Record identities are the decimal rendering of a counter
    (`fmt.Sprint(FirstFreeId)` in Server.go).  This module gives that
    rendering and its inverse, and proves the rendering injective, which is
    what makes freshly minted identities distinct. */
module Decimal {

  function DigitChar(d: nat): (c: char)
    requires d < 10
    ensures '0' <= c <= '9'
  {
    ('0' as int + d) as char
  }

  /** `fmt.Sprint(n)` for a non-negative integer: most significant digit
      first, no leading zeros, no sign. */
  function NatToString(n: nat): (s: string)
    ensures |s| >= 1
    ensures forall i :: 0 <= i < |s| ==> '0' <= s[i] <= '9'
    ensures n > 0 ==> s[0] != '0'
    decreases n
  {
    if n < 10 then [DigitChar(n)] else NatToString(n / 10) + [DigitChar(n % 10)]
  }

  function DigitValue(c: char): nat
  {
    if '0' <= c <= '9' then c as int - '0' as int else 0
  }

  /** Reads a string of decimal digits back as a number. */
  function ParseDecimal(s: string): nat
    decreases |s|
  {
    if s == [] then 0 else ParseDecimal(s[..|s| - 1]) * 10 + DigitValue(s[|s| - 1])
  }

  /** Parsing undoes rendering. */
  lemma {:induction false} ParseFormat(n: nat)
    ensures ParseDecimal(NatToString(n)) == n
  {
    if n >= 10 {
      var p := NatToString(n / 10);
      var s := p + [DigitChar(n % 10)];
      assert NatToString(n) == s;
      assert s[..|s| - 1] == p;
      ParseFormat(n / 10);
    }
  }

  /** Distinct counter values render as distinct identities. */
  lemma FormatInjective(a: nat, b: nat)
    ensures NatToString(a) == NatToString(b) <==> a == b
  {
    ParseFormat(a);
    ParseFormat(b);
  }

  /** A rendered number contains no space, so space-terminated listings of
      identities can be split back. */
  lemma FormatHasNoSpace(n: nat)
    ensures ' ' !in NatToString(n)
  {
  }
}
