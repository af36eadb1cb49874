/**
 * Java's 32-bit `int` with its decimal rendering (`String.valueOf(int)`)
 * and parsing (`Integer.parseInt`).
 */
module JavaInt {
  import opened Wrappers

  const MinInt32: int := -0x8000_0000
  const MaxInt32: int := 0x7FFF_FFFF

  newtype int32 = x: int | -0x8000_0000 <= x < 0x8000_0000

  predicate IsDigit(c: char) {
    '0' <= c <= '9'
  }

  predicate AllDigits(s: string) {
    forall i :: 0 <= i < |s| ==> IsDigit(s[i])
  }

  function DigitValue(c: char): nat
    requires IsDigit(c)
  {
    (c as int) - ('0' as int)
  }

  function DigitChar(d: nat): (c: char)
    requires d < 10
    ensures IsDigit(c) && DigitValue(c) == d
  {
    (('0' as int) + d) as char
  }

  /** The number a string of decimal digits denotes (leading zeros allowed). */
  function DigitsValue(s: string): nat
    requires AllDigits(s)
  {
    if s == [] then 0 else DigitsValue(s[..|s| - 1]) * 10 + DigitValue(s[|s| - 1])
  }

  /** The decimal rendering of `n`, without leading zeros; it denotes `n`. */
  function NatToDigits(n: nat): (s: string)
    ensures s != [] && AllDigits(s)
    ensures DigitsValue(s) == n
    ensures s[0] == '0' <==> n == 0
    ensures n == 0 ==> s == "0"
  {
    if n < 10 then [DigitChar(n)]
    else
      var s := NatToDigits(n / 10) + [DigitChar(n % 10)];
      assert s[..|s| - 1] == NatToDigits(n / 10);
      s
  }

  /** `String.valueOf(int)`: a minus sign for negative numbers, then the digits. */
  function IntToString(n: int32): (s: string)
    ensures s != [] && ',' !in s
    ensures s[0] == '-' <==> n < 0
  {
    var digits := NatToDigits(if n < 0 then -(n as int) else n as int);
    assert forall i :: 0 <= i < |digits| ==> digits[i] != ',' && digits[i] != '-';
    if n < 0 then "-" + digits else digits
  }

  /**
   * `Integer.parseInt(s)`: an optional `-` or `+`, then at least one decimal
   * digit, denoting a value in the range of `int`; otherwise the call throws
   * `NumberFormatException`, which is `None` here.
   */
  function ParseInt(s: string): (r: Option<int32>)
    ensures r.Some? ==> s != [] && (IsDigit(s[0]) || (|s| >= 2 && (s[0] == '-' || s[0] == '+')))
    ensures r.Some? ==> forall i :: 1 <= i < |s| ==> IsDigit(s[i])
    ensures r.Some? ==> (r.value < 0 ==> s[0] == '-')
    ensures s != [] && AllDigits(s) ==>
      && (r.Some? <==> DigitsValue(s) <= MaxInt32)
      && (r.Some? ==> r.value as int == DigitsValue(s))
    ensures |s| >= 2 && s[0] == '+' && AllDigits(s[1..]) ==>
      && (r.Some? <==> DigitsValue(s[1..]) <= MaxInt32)
      && (r.Some? ==> r.value as int == DigitsValue(s[1..]))
    ensures |s| >= 2 && s[0] == '-' && AllDigits(s[1..]) ==>
      && (r.Some? <==> DigitsValue(s[1..]) <= -MinInt32)
      && (r.Some? ==> r.value as int == -(DigitsValue(s[1..]) as int))
  {
    if s == [] then None
    else
      var digits := if s[0] == '-' || s[0] == '+' then s[1..] else s;
      if digits == [] || !AllDigits(digits) then None
      else
        var magnitude: int := DigitsValue(digits);
        var v := if s[0] == '-' then -magnitude else magnitude;
        if MinInt32 <= v <= MaxInt32 then Some(v as int32) else None
  }

  /** Parsing the decimal rendering of an `int` gives the `int` back. */
  lemma ParseIntToString(n: int32)
    ensures ParseInt(IntToString(n)) == Some(n)
  {
    var s := IntToString(n);
    if n < 0 {
      assert s[1..] == NatToDigits(-(n as int));
    }
  }

  /** A string starting with something other than a sign or a digit never parses. */
  lemma ParseIntRejectsWord(s: string)
    requires s != [] && !IsDigit(s[0]) && s[0] != '-' && s[0] != '+'
    ensures ParseInt(s) == None
  {
    assert !IsDigit(s[0]);
  }
}
