/** Decimal rendering of natural numbers and comma-separated joining. */
module Strings {

  function DigitChar(d: nat): (c: char)
    requires d < 10
    ensures '0' <= c <= '9'
  {
    (48 + d) as char
  }

  /** The decimal digits of `n`, most significant first, without leading zeros. */
  function NatToString(n: nat): (s: string)
    ensures |s| >= 1
    ensures forall i :: 0 <= i < |s| ==> '0' <= s[i] <= '9'
    ensures n < 10 <==> |s| == 1
    ensures s[|s| - 1] == DigitChar(n % 10)
  {
    if n < 10 then [DigitChar(n)] else NatToString(n / 10) + [DigitChar(n % 10)]
  }

  /** Different numbers are rendered differently. */
  lemma {:induction false} NatToStringInjective(a: nat, b: nat)
    requires NatToString(a) == NatToString(b)
    ensures a == b
  {
    var s := NatToString(a);
    assert a % 10 == b % 10 by {
      assert DigitChar(a % 10) == DigitChar(b % 10);
    }
    if a >= 10 {
      assert b >= 10;
      assert NatToString(a / 10) == s[..|s| - 1] == NatToString(b / 10);
      NatToStringInjective(a / 10, b / 10);
    }
  }

  function Pow10(k: nat): (p: nat)
    ensures p >= 1
  {
    if k == 0 then 1 else 10 * Pow10(k - 1)
  }

  /** A number is below ten to the power of its digit count. */
  lemma {:induction false} NatToStringBound(n: nat)
    ensures n < Pow10(|NatToString(n)|)
  {
    if n >= 10 {
      NatToStringBound(n / 10);
    }
  }

  /** Each of `parts` followed by ", ", in order. */
  function Separated(parts: seq<string>): (s: string)
    ensures parts == [] <==> s == []
  {
    if parts == [] then "" else Separated(parts[..|parts| - 1]) + parts[|parts| - 1] + ", "
  }

  /** One more part appends that part and a separator. */
  lemma SeparatedSnoc(parts: seq<string>, i: nat)
    requires i < |parts|
    ensures Separated(parts[..i + 1]) == Separated(parts[..i]) + parts[i] + ", "
  {
    assert parts[..i + 1][..i] == parts[..i];
  }

  /** `parts` separated by ", ", as a stream prints all but the last with a separator. */
  function Join(parts: seq<string>): (s: string)
    requires |parts| >= 1
    ensures |parts| == 1 ==> s == parts[0]
    ensures |s| >= |parts[|parts| - 1]| && s[|s| - |parts[|parts| - 1]|..] == parts[|parts| - 1]
  {
    Separated(parts[..|parts| - 1]) + parts[|parts| - 1]
  }
}
