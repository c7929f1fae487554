/** Decimal text of an integer, as Python's str(int) renders it (an optional
    leading '-', then the digits without leading zeros), and the parser that
    reads such text back. */
module Decimal {
  import opened Wrappers

  function DigitChar(k: nat): (c: char)
    requires k < 10
  {
    "0123456789"[k]
  }

  function DigitValue(c: char): Option<nat>
  {
    if '0' <= c <= '9' then Some(c as int - '0' as int) else None
  }

  /** The digits of n, most significant first. */
  function NatToString(n: nat): (s: string)
    ensures |s| > 0
    ensures forall i :: 0 <= i < |s| ==> '0' <= s[i] <= '9'
  {
    if n < 10 then [DigitChar(n)] else NatToString(n / 10) + [DigitChar(n % 10)]
  }

  /** str(n) for any integer n. */
  function IntToString(n: int): (s: string)
    ensures |s| > 0
    ensures (s[0] == '-') <==> n < 0
    ensures n >= 0 ==> '-' !in s
  {
    if n < 0 then "-" + NatToString(-n) else NatToString(n)
  }

  /** The value of a non-empty run of digits; None for anything else. */
  function ParseNat(s: string): Option<nat>
  {
    if |s| == 0 then None
    else
      match DigitValue(s[|s| - 1])
      case None => None
      case Some(d) =>
        if |s| == 1 then Some(d)
        else
          match ParseNat(s[..|s| - 1])
          case None => None
          case Some(p) => Some(10 * p + d)
  }

  /** The value of an optionally signed run of digits; None for anything else. */
  function ParseInt(s: string): Option<int>
  {
    if |s| > 0 && s[0] == '-' then
      match ParseNat(s[1..])
      case None => None
      case Some(p) => Some(0 - p as int)
    else
      match ParseNat(s)
      case None => None
      case Some(p) => Some(p)
  }

  lemma {:induction false} ParseNatToString(n: nat)
    ensures ParseNat(NatToString(n)) == Some(n)
  {
    var s := NatToString(n);
    if n >= 10 {
      assert s[..|s| - 1] == NatToString(n / 10);
      ParseNatToString(n / 10);
    }
  }

  /** Reading back str(n) gives n: the rendering loses nothing. */
  lemma {:induction false} ParseIntToString(n: int)
    ensures ParseInt(IntToString(n)) == Some(n)
  {
    var s := IntToString(n);
    if n < 0 {
      assert s[0] == '-' && s[1..] == NatToString(-n);
      ParseNatToString(-n);
    } else {
      assert s == NatToString(n) && '0' <= s[0] <= '9';
      ParseNatToString(n);
    }
  }

  /** Two integers render to the same text only if they are equal. */
  lemma {:induction false} IntToStringInjective(m: int, n: int)
    requires IntToString(m) == IntToString(n)
    ensures m == n
  {
    ParseIntToString(m);
    ParseIntToString(n);
  }
}
