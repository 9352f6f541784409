/** Base-10 rendering of the random draw that becomes a new movie's id. */
module Decimal {

  predicate IsDigit(c: char) {
    '0' <= c <= '9'
  }

  predicate AllDigits(s: string) {
    forall k :: 0 <= k < |s| ==> IsDigit(s[k])
  }

  function DigitValue(c: char): (d: nat)
    requires IsDigit(c)
    ensures d < 10
  {
    c as int - '0' as int
  }

  function DigitChar(d: nat): (c: char)
    requires d < 10
    ensures IsDigit(c) && DigitValue(c) == d
  {
    ('0' as int + d) as char
  }

  /** Decimal rendering of a non-negative integer, as `strconv.Itoa` produces it:
      at least one digit, no sign, and no leading zero except for zero itself. */
  function Itoa(n: nat): (s: string)
    ensures 0 < |s| && AllDigits(s)
    ensures s[0] == '0' <==> n == 0
    ensures 1 < |s| ==> s[0] != '0'
    decreases n
  {
    if n < 10 then [DigitChar(n)] else Itoa(n / 10) + [DigitChar(n % 10)]
  }

  /** Reference reading of a digit string as a number, most significant digit first. */
  function Atoi(s: string): (n: nat)
    requires AllDigits(s)
    decreases |s|
  {
    if |s| == 0 then 0 else Atoi(s[..|s| - 1]) * 10 + DigitValue(s[|s| - 1])
  }

  /** Reading back a rendered number gives the number. */
  lemma {:induction false} AtoiItoa(n: nat)
    ensures Atoi(Itoa(n)) == n
    decreases n
  {
    if n >= 10 {
      AtoiItoa(n / 10);
      var s := Itoa(n);
      assert s[..|s| - 1] == Itoa(n / 10);
    }
  }

  /** Distinct draws render to distinct ids. */
  lemma ItoaInjective(a: nat, b: nat)
    ensures Itoa(a) == Itoa(b) <==> a == b
  {
    if Itoa(a) == Itoa(b) {
      AtoiItoa(a);
      AtoiItoa(b);
    }
  }

  /** A number below 10^k renders to at most k digits (six for a draw below 1,000,000). */
  lemma {:induction false} ItoaLength(n: nat, k: nat)
    requires 0 < k && n < Pow10(k)
    ensures |Itoa(n)| <= k
    decreases n
  {
    if n >= 10 {
      ItoaLength(n / 10, k - 1);
    }
  }

  function Pow10(k: nat): (p: nat)
    ensures 1 <= p && (0 < k ==> 10 <= p)
  {
    if k == 0 then 1 else 10 * Pow10(k - 1)
  }
}
