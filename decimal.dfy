/** Decimal text of a message id, as JavaScript's Number.prototype.toString
    writes a non-negative integer, and its inverse. */
module Decimal {

  predicate IsDigit(c: char) {
    '0' <= c <= '9'
  }

  predicate AllDigits(s: string) {
    forall i :: 0 <= i < |s| ==> IsDigit(s[i])
  }

  function DigitChar(d: nat): (c: char)
    requires d < 10
    ensures IsDigit(c)
  {
    (48 + d) as char
  }

  function DigitValue(c: char): (d: nat)
    requires IsDigit(c)
    ensures d < 10
  {
    (c as int) - 48
  }

  /** The id as the server sends it: shortest decimal form, no sign,
      no leading zero except for the id 0 itself. */
  function IdString(n: nat): (s: string)
    ensures |s| >= 1 && AllDigits(s)
    ensures n >= 1 ==> s[0] != '0'
    decreases n
  {
    if n < 10 then [DigitChar(n)] else IdString(n / 10) + [DigitChar(n % 10)]
  }

  /** Reading a digit string back as a number, as a client does when it
      keeps the last id it saw as its offset. */
  function ParseDecimal(s: string): nat
    requires AllDigits(s)
    decreases |s|
  {
    if |s| == 0 then 0 else ParseDecimal(s[..|s| - 1]) * 10 + DigitValue(s[|s| - 1])
  }

  lemma {:induction false} ParseIdString(n: nat)
    ensures ParseDecimal(IdString(n)) == n
    decreases n
  {
    var s := IdString(n);
    if n < 10 {
      assert s[..|s| - 1] == [];
    } else {
      assert s[..|s| - 1] == IdString(n / 10);
      ParseIdString(n / 10);
    }
  }

  /** Distinct ids are sent as distinct strings. */
  lemma IdStringInjective(a: nat, b: nat)
    ensures IdString(a) == IdString(b) ==> a == b
  {
    ParseIdString(a);
    ParseIdString(b);
  }
}
