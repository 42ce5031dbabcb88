/** Decimal text of integers, `strconv.FormatInt(i, 10)`, as bytes. */
module Decimal {
  import opened Bytes

  const MINUS: byte := 0x2D

  predicate IsDigit(b: byte) { 0x30 <= b <= 0x39 }

  function Digits(n: nat): (s: seq<byte>)
    ensures |s| >= 1 && (forall i | 0 <= i < |s| :: IsDigit(s[i])) && ParseDigits(s) == n
  {
    if n < 10 then [0x30 + n] else Digits(n / 10) + [0x30 + n % 10]
  }

  function ParseDigits(s: seq<byte>): nat
    requires forall i | 0 <= i < |s| :: IsDigit(s[i])
  {
    if s == [] then 0
    else
      assert IsDigit(s[|s| - 1]);
      10 * ParseDigits(s[..|s| - 1]) + (s[|s| - 1] - 0x30)
  }

  function FormatInt(i: int): (s: seq<byte>)
    ensures |s| >= 1 && forall k | 0 <= k < |s| :: IsDigit(s[k]) || s[k] == MINUS
  {
    if i < 0 then [MINUS] + Digits(-i) else Digits(i)
  }

  /** Different numbers have different texts. */
  lemma FormatIntInjective(i: int, j: int)
    requires FormatInt(i) == FormatInt(j)
    ensures i == j
  {
    assert i >= 0 ==> IsDigit(Digits(i)[0]) && FormatInt(i)[0] != MINUS;
    assert j >= 0 ==> IsDigit(Digits(j)[0]) && FormatInt(j)[0] != MINUS;
    if i < 0 && j < 0 {
      assert Digits(-i) == FormatInt(i)[1..] == FormatInt(j)[1..] == Digits(-j);
    }
  }
}
