/** Decimal rendering of a natural number, as JavaScript's template literal
    `${n}` prints a non-negative integer, and its inverse. */
module Decimal {

  predicate IsDigit(c: char) {
    '0' <= c <= '9'
  }

  predicate AllDigits(s: string) {
    forall i :: 0 <= i < |s| ==> IsDigit(s[i])
  }

  function DigitChar(n: nat): (c: char)
    requires n < 10
    ensures IsDigit(c)
  {
    ('0' as int + n) as char
  }

  function DigitValue(c: char): (n: nat)
    requires IsDigit(c)
    ensures n < 10
  {
    c as int - '0' as int
  }

  /** The shortest decimal text of `n`: digits only, no leading zero. */
  function Show(n: nat): (s: string)
    ensures |s| >= 1
    ensures AllDigits(s)
    ensures n > 0 ==> s[0] != '0'
    ensures n < 10 <==> |s| == 1
    decreases n
  {
    if n < 10 then [DigitChar(n)] else Show(n / 10) + [DigitChar(n % 10)]
  }

  /** Reads a string of digits as a decimal number (the empty string reads as 0). */
  function Parse(s: string): nat
    requires AllDigits(s)
    decreases |s|
  {
    if |s| == 0 then 0 else Parse(s[..|s| - 1]) * 10 + DigitValue(s[|s| - 1])
  }

  /** Reading back the printed text gives the number again, so `Show` is injective. */
  lemma {:induction false} ParseShow(n: nat)
    ensures Parse(Show(n)) == n
    decreases n
  {
    var s := Show(n);
    if n < 10 {
      assert s[..0] == [];
    } else {
      ParseShow(n / 10);
      assert s[..|s| - 1] == Show(n / 10);
    }
  }

}
