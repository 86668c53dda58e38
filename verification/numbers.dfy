/**
 Java's fixed-width integers and the two JDK operations the converters lean on:
 `Byte/Short/Integer/Long.parseX` (decimal text to a bounded integer, a
 NumberFormatException when the text is not a number or out of range) and
 `Integer/Long.toString` (the canonical decimal text of a value).
 */
module Numbers {
  import opened Optional
  import opened Strings
  import opened Utility

  const BYTE_MIN: int := -0x80
  const BYTE_MAX: int := 0x7F
  const SHORT_MIN: int := -0x8000
  const SHORT_MAX: int := 0x7FFF
  const INT_MIN: int := -0x8000_0000
  const INT_MAX: int := 0x7FFF_FFFF
  const LONG_MIN: int := -0x8000_0000_0000_0000
  const LONG_MAX: int := 0x7FFF_FFFF_FFFF_FFFF

  type Int8 = x: int | BYTE_MIN <= x <= BYTE_MAX
  type Int16 = x: int | SHORT_MIN <= x <= SHORT_MAX
  type Int32 = x: int | INT_MIN <= x <= INT_MAX
  type Int64 = x: int | LONG_MIN <= x <= LONG_MAX

  function DigitValue(c: char): nat
    requires IsDigit(c)
  {
    c as int - '0' as int
  }

  /** The value of a run of decimal digits, most significant first. */
  function DigitsValue(ds: string): nat
    requires AllDigits(ds)
  {
    if |ds| == 0 then 0 else DigitsValue(DropLast(ds)) * 10 + DigitValue(Last(ds))
  }

  /** The value of an optionally signed digit run. */
  function WholeValue(s: string): int
    requires IsWholeNumber(s)
  {
    if s[0] == '-' then -(DigitsValue(s[1..]) as int)
    else if s[0] == '+' then DigitsValue(s[1..])
    else DigitsValue(s)
  }

  /** The JDK's parseInt/parseLong/parseShort/parseByte on ASCII input: the text must be
      an optionally signed run of digits whose value lies in [lo, hi]; anything else is
      a NumberFormatException, here absent. Leading zeros and a `+` are accepted. */
  function Parse(s: string, lo: int, hi: int): (r: Option<int>)
    ensures r.Some? ==> IsWholeNumber(s) && lo <= r.value <= hi && r.value == WholeValue(s)
    ensures IsWholeNumber(s) && lo <= WholeValue(s) <= hi ==> r.Some?
  {
    if IsWholeNumber(s) && lo <= WholeValue(s) <= hi then Some(WholeValue(s)) else None
  }

  function DigitChar(n: nat): (c: char)
    requires n < 10
    ensures IsDigit(c) && DigitValue(c) == n
  {
    ('0' as int + n) as char
  }

  /** Decimal text of a natural number, without leading zeros. */
  function NatToString(n: nat): (s: string)
    ensures IsDigits(s)
    ensures |s| > 1 ==> s[0] != '0'
    decreases n
  {
    if n < 10 then [DigitChar(n)] else NatToString(n / 10) + [DigitChar(n % 10)]
  }

  /** Integer.toString / Long.toString: a `-` for negative values, then the digits. */
  function IntToString(n: int): (s: string)
    ensures IsWholeNumber(s)
    ensures |s| > 0 && (s[0] == '-' <==> n < 0) && s[0] != '+'
  {
    if n < 0 then "-" + NatToString(-n) else NatToString(n)
  }

  function Pow10(k: nat): nat {
    if k == 0 then 1 else 10 * Pow10(k - 1)
  }

  /** Reading back the decimal text of `n` gives `n`. */
  lemma {:induction false} NatToStringValue(n: nat)
    ensures DigitsValue(NatToString(n)) == n
    decreases n
  {
    if n >= 10 {
      NatToStringValue(n / 10);
      var s := NatToString(n);
      assert DropLast(s) == NatToString(n / 10);
    }
  }

  /** A number below 10^k has at most k digits. */
  lemma {:induction false} NatToStringLength(n: nat, k: nat)
    requires 1 <= k && n < Pow10(k)
    ensures |NatToString(n)| <= k
    decreases n
  {
    if n >= 10 {
      assert n / 10 < Pow10(k - 1);
      NatToStringLength(n / 10, k - 1);
    }
  }

  lemma IntToStringValue(n: int)
    ensures WholeValue(IntToString(n)) == n
  {
    if n < 0 {
      NatToStringValue(-n);
      assert IntToString(n)[1..] == NatToString(-n);
    } else {
      NatToStringValue(n);
      var s := NatToString(n);
      assert s[0] != '-' && s[0] != '+';
    }
  }

  /** The parse functions accept the canonical text of every value in their range. */
  lemma ParseToString(n: int, lo: int, hi: int)
    requires lo <= n <= hi
    ensures Parse(IntToString(n), lo, hi) == Some(n)
  {
    IntToStringValue(n);
  }

  /** A leading zero does not change the value, so "007" reads as 7. */
  lemma {:induction false} LeadingZero(ds: string)
    requires AllDigits(ds)
    ensures AllDigits("0" + ds) && DigitsValue("0" + ds) == DigitsValue(ds)
    decreases |ds|
  {
    if |ds| > 0 {
      LeadingZero(DropLast(ds));
      assert DropLast("0" + ds) == "0" + DropLast(ds);
    }
  }

  /** Every 32-bit value prints in at most 11 characters, the guard of IntegerConverter. */
  lemma IntToStringLength32(n: Int32)
    ensures |IntToString(n)| <= 11
  {
    assert Pow10(10) == 10_000_000_000;
    if n < 0 {
      NatToStringLength(-(n as int), 10);
    } else {
      NatToStringLength(n, 10);
    }
  }

  /** Every 64-bit value prints in at most 20 characters, within LongConverter's guard of 21. */
  lemma IntToStringLength64(n: Int64)
    ensures |IntToString(n)| <= 20
  {
    assert Pow10(10) == 10_000_000_000;
    assert Pow10(15) == 1_000_000_000_000_000;
    assert Pow10(19) == 10_000_000_000_000_000_000;
    if n < 0 {
      NatToStringLength(-(n as int), 19);
    } else {
      NatToStringLength(n, 19);
    }
  }
}
