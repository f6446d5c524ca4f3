/** Decimal rendering as %d, %lld, %lu and std::to_string print it, and its inverse. */
module Decimal {
  import opened Bytes

  const DIGITS := "0123456789"

  function Dec(n: nat): (s: string)
    ensures |s| >= 1
    ensures forall i :: 0 <= i < |s| ==> '0' <= s[i] <= '9'
  {
    if n < 10 then [DIGITS[n]] else Dec(n / 10) + [DIGITS[n % 10]]
  }

  function DecInt(i: int): string {
    if i < 0 then "-" + Dec(-i) else Dec(i)
  }

  /** Reads a run of digits; None when a character is not a digit. */
  function ParseDec(s: string): (n: int) {
    if s == "" then 0
    else
      var last := s[|s| - 1];
      if '0' <= last <= '9'
      then var front := ParseDec(s[..|s| - 1]);
           if front < 0 then -1 else 10 * front + (last as int - '0' as int)
      else -1
  }

  lemma {:induction false} ParseOfDec(n: nat)
    ensures ParseDec(Dec(n)) == n
  {
    if n < 10 {
      assert Dec(n) == [DIGITS[n]];
      assert Dec(n)[..0] == "";
    } else {
      var s := Dec(n);
      assert s[..|s| - 1] == Dec(n / 10);
      ParseOfDec(n / 10);
    }
  }

  /** Reads a number with its sign; None for anything else. */
  function ParseInt(s: string): Option<int> {
    var signed := s != "" && s[0] == '-';
    var digits := if signed then s[1..] else s;
    var n := ParseDec(digits);
    if digits == "" || n < 0 then None else Some(if signed then -n else n)
  }

  lemma ParseOfInt(i: int)
    ensures ParseInt(DecInt(i)) == Some(i)
  {
    if i < 0 {
      ParseOfDec(-i);
      assert ("-" + Dec(-i))[1..] == Dec(-i);
    } else {
      ParseOfDec(i);
    }
  }

  lemma DecIntChars(i: int, c: char)
    requires c != '-' && !('0' <= c <= '9')
    ensures c !in DecInt(i)
  {
  }

  function Pow10(k: nat): nat {
    if k == 0 then 1 else 10 * Pow10(k - 1)
  }

  lemma {:induction false} Pow10Add(a: nat, b: nat)
    ensures Pow10(a + b) == Pow10(a) * Pow10(b)
  {
    if a > 0 {
      Pow10Add(a - 1, b);
    }
  }

  /** A number below 10^k takes at most k digits. */
  lemma {:induction false} DecLength(n: nat, k: nat)
    requires k >= 1 && n < Pow10(k)
    ensures |Dec(n)| <= k
  {
    if n >= 10 {
      assert k >= 2 by { assert Pow10(1) == 10; }
      assert n / 10 < Pow10(k - 1);
      DecLength(n / 10, k - 1);
    }
  }
}
