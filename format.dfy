/** Decimal text of unsigned integers, as Rust's `{}` formatting writes an integer. */
module Format {

  predicate IsDigitChar(c: char) {
    '0' <= c <= '9'
  }

  /** The ASCII digit for d. */
  function DigitChar(d: nat): (c: char)
    requires d < 10
    ensures IsDigitChar(c) && c as int - '0' as int == d
  {
    ('0' as int + d) as char
  }

  /** Decimal representation of n: digits only, no leading zero, "0" for zero. */
  function Dec(n: nat): (s: string)
    ensures 1 <= |s|
    ensures forall k :: 0 <= k < |s| ==> IsDigitChar(s[k])
    ensures s[0] == '0' <==> n == 0
    ensures n < 10 <==> |s| == 1
    decreases n
  {
    if n < 10 then [DigitChar(n)] else Dec(n / 10) + [DigitChar(n % 10)]
  }

  /** The value of a string of decimal digits (most significant first). */
  function ParseDec(s: string): nat
    requires forall k :: 0 <= k < |s| ==> IsDigitChar(s[k])
  {
    if s == [] then 0 else ParseDec(s[..|s| - 1]) * 10 + DigitValue(s[|s| - 1])
  }

  function DigitValue(c: char): (d: nat)
    requires IsDigitChar(c)
    ensures d < 10 && DigitChar(d) == c
  {
    c as int - '0' as int
  }

  /** Reading the decimal text back gives the number. */
  lemma {:induction false} DecRoundTrip(n: nat)
    ensures ParseDec(Dec(n)) == n
    decreases n
  {
    var s := Dec(n);
    if n < 10 {
      assert s[..|s| - 1] == [];
    } else {
      assert s[..|s| - 1] == Dec(n / 10);
      DecRoundTrip(n / 10);
    }
  }

  /** Distinct numbers print differently. */
  lemma DecInjective(a: nat, b: nat)
    ensures Dec(a) == Dec(b) ==> a == b
  {
    DecRoundTrip(a);
    DecRoundTrip(b);
  }

  /** A common prefix can be cancelled. */
  lemma CancelPrefix(p: string, r1: string, r2: string)
    requires p + r1 == p + r2
    ensures r1 == r2
  {
    assert r1 == (p + r1)[|p|..];
  }

  /** The shorter of two such texts cannot stop before the other's digits end. */
  lemma DecLengthsAgree(a: nat, b: nat, r1: string, r2: string)
    requires Dec(a) + r1 == Dec(b) + r2 && |Dec(a)| <= |Dec(b)|
    requires |r1| > 0 && !IsDigitChar(r1[0])
    ensures |Dec(a)| == |Dec(b)|
  {
    var s := Dec(a) + r1;
    // the first character after Dec(a) is no digit, so Dec(b) is over by then
    assert s[|Dec(a)|] == r1[0];
  }

  /**
   * Decimal text followed by a non-digit can be read off unambiguously: equal
   * strings of this shape agree on the number and on what follows it.
   */
  lemma DecPrefix(a: nat, b: nat, r1: string, r2: string)
    requires Dec(a) + r1 == Dec(b) + r2
    requires |r1| > 0 && |r2| > 0 && !IsDigitChar(r1[0]) && !IsDigitChar(r2[0])
    ensures a == b && r1 == r2
  {
    var s, da, db := Dec(a) + r1, Dec(a), Dec(b);
    if |da| <= |db| {
      DecLengthsAgree(a, b, r1, r2);
    } else {
      DecLengthsAgree(b, a, r2, r1);
    }
    assert da == s[..|da|] == db;
    DecInjective(a, b);
    assert r1 == s[|da|..] == r2;
  }
}
