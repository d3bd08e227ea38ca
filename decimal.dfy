/** Decimal conversion of integers as Go's strconv package does it:
    `Itoa` renders an int in base 10, `Atoi` parses one back (optional sign,
    at least one digit, nothing else, result within the 64-bit range). */
module Decimal {
  import opened Base

  const MinInt64: int := -0x8000_0000_0000_0000
  const MaxInt64: int := 0x7FFF_FFFF_FFFF_FFFF

  const TwoTo64: int := 0x1_0000_0000_0000_0000

  /** Two's-complement 64-bit wrap-around of a Go int computation: the
      value in the int64 range that is congruent to x modulo 2^64. */
  function WrapInt64(x: int): (r: int)
    ensures MinInt64 <= r <= MaxInt64
    ensures (x - r) % TwoTo64 == 0
    ensures MinInt64 <= x <= MaxInt64 ==> r == x
  {
    var m := x % TwoTo64;
    if m > MaxInt64 then m - TwoTo64 else m
  }

  predicate IsDigit(c: char) { '0' <= c <= '9' }

  predicate AllDigits(s: string) { forall i :: 0 <= i < |s| ==> IsDigit(s[i]) }

  function DigitChar(d: nat): (c: char)
    requires d < 10
    ensures IsDigit(c) && c as int - '0' as int == d
  {
    (d + '0' as int) as char
  }

  /** The digits of n, most significant first, without leading zeros. */
  function Digits(n: nat): (s: string)
    ensures |s| > 0 && AllDigits(s)
    ensures n > 0 ==> s[0] != '0'
  {
    if n < 10 then [DigitChar(n)] else Digits(n / 10) + [DigitChar(n % 10)]
  }

  /** strconv.Itoa: a minus sign for negative values, then the digits. */
  function Itoa(n: int): (s: string)
    ensures |s| > 0
    ensures forall i :: 0 <= i < |s| ==> IsDigit(s[i]) || (i == 0 && s[i] == '-')
    ensures s[0] == '-' <==> n < 0
  {
    if n < 0 then "-" + Digits(-n) else Digits(n)
  }

  /** The value of a string of digits, read left to right. */
  function DigitsValue(s: string): nat
    requires AllDigits(s)
  {
    if s == [] then 0
    else DigitsValue(s[..|s| - 1]) * 10 + (s[|s| - 1] as int - '0' as int)
  }

  /** strconv.Atoi: None stands for the returned error (syntax or range). */
  function Atoi(s: string): (r: Option<int>)
    ensures r.Some? ==> MinInt64 <= r.value <= MaxInt64
    ensures s == [] ==> r.None?
  {
    if s == [] then None
    else
      var body := if s[0] == '-' || s[0] == '+' then s[1..] else s;
      if body == [] || !AllDigits(body) then None
      else
        var v: int := if s[0] == '-' then 0 - (DigitsValue(body) as int) else DigitsValue(body);
        if MinInt64 <= v <= MaxInt64 then Some(v) else None
  }

  lemma {:induction false} DigitsValueOfDigits(n: nat)
    ensures DigitsValue(Digits(n)) == n
  {
    if n >= 10 {
      var s := Digits(n);
      assert s[..|s| - 1] == Digits(n / 10);
      DigitsValueOfDigits(n / 10);
    }
  }

  /** Parsing what Itoa printed gives the number back, for every 64-bit int. */
  lemma AtoiItoa(n: int)
    requires MinInt64 <= n <= MaxInt64
    ensures Atoi(Itoa(n)) == Some(n)
  {
    if n < 0 {
      var s := Itoa(n);
      assert s[1..] == Digits(-n);
      DigitsValueOfDigits(-n);
    } else {
      DigitsValueOfDigits(n);
    }
  }
}
