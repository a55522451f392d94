/** Decimal text of integers, as JavaScript's template literals print an
    integral number (`${n}`): an optional minus sign followed by the digits
    without leading zeros. The inverse parser exists so that the request
    URL can be shown to determine the query it was built from. */
module Decimal {
  import opened Nullable

  predicate IsDigit(c: char) {
    '0' <= c <= '9'
  }

  predicate AllDigits(s: string) {
    forall i :: 0 <= i < |s| ==> IsDigit(s[i])
  }

  function DigitChar(d: nat): (c: char)
    requires d < 10
    ensures IsDigit(c)
    ensures DigitValue(c) == d
  {
    ('0' as int + d) as char
  }

  function DigitValue(c: char): (d: nat)
    requires IsDigit(c)
    ensures d < 10
  {
    c as int - '0' as int
  }

  /** Digits of `n`, most significant first, without leading zeros. */
  function NatToString(n: nat): (s: string)
    ensures |s| > 0
    ensures AllDigits(s)
    ensures |s| > 1 ==> s[0] != '0'
    decreases n
  {
    if n < 10 then [DigitChar(n)] else NatToString(n / 10) + [DigitChar(n % 10)]
  }

  /** The number a string of digits denotes. */
  function DigitsValue(s: string): nat
    requires AllDigits(s)
  {
    if |s| == 0 then 0 else DigitsValue(s[..|s| - 1]) * 10 + DigitValue(s[|s| - 1])
  }

  lemma {:induction false} DigitsValueOfNatToString(n: nat)
    ensures DigitsValue(NatToString(n)) == n
    decreases n
  {
    if n >= 10 {
      var s := NatToString(n);
      assert s[..|s| - 1] == NatToString(n / 10);
      DigitsValueOfNatToString(n / 10);
    }
  }

  /** `${i}` for an integral JavaScript number `i`. */
  function IntToString(i: int): (s: string)
    ensures |s| > 0
    ensures forall k :: 0 <= k < |s| ==> IsDigit(s[k]) || s[k] == '-'
    ensures i >= 0 <==> AllDigits(s)
  {
    if i < 0 then
      var s := "-" + NatToString(-i);
      assert !IsDigit(s[0]);
      s
    else
      NatToString(i)
  }

  function ParseNat(s: string): (r: Nullable<nat>)
    ensures r.Present? <==> |s| > 0 && AllDigits(s)
  {
    if |s| > 0 && AllDigits(s) then Present(DigitsValue(s)) else Absent
  }

  /** Reads back what `IntToString` prints; `Absent` for anything else
      that is not an optional minus sign followed by digits. */
  function ParseInt(s: string): Nullable<int> {
    if |s| > 0 && s[0] == '-' then
      match ParseNat(s[1..])
      case Present(n) => Present(-(n as int))
      case Absent => Absent
    else
      match ParseNat(s)
      case Present(n) => Present(n)
      case Absent => Absent
  }

  lemma IntToStringRoundTrip(i: int)
    ensures ParseInt(IntToString(i)) == Present(i)
  {
    if i < 0 {
      var s := IntToString(i);
      assert s[1..] == NatToString(-i);
      DigitsValueOfNatToString(-i);
      assert ParseNat(s[1..]) == Present(-i);
    } else {
      var s := IntToString(i);
      DigitsValueOfNatToString(i);
      assert s == NatToString(i) && IsDigit(s[0]);
      assert ParseNat(s) == Present(i);
    }
  }

  /** Distinct integers print as distinct strings. */
  lemma IntToStringInjective(i: int, j: int)
    ensures IntToString(i) == IntToString(j) <==> i == j
  {
    IntToStringRoundTrip(i);
    IntToStringRoundTrip(j);
  }
}
