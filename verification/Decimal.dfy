/**
Decimal text: strconv.ParseUint in base 10, fmt's %02d, and the bounded positive integers of the
title and query parsers.
*/
module Decimal {
  import opened Common
  import opened Runes

  const MAX_UINT64: nat := 0xffff_ffff_ffff_ffff

  predicate AllDigits(s: string) {
    forall i :: 0 <= i < |s| ==> IsAsciiDigit(s[i])
  }

  function DigitValue(r: char): nat
    requires IsAsciiDigit(r)
  {
    r as int - '0' as int
  }

  /** The number a run of digits spells, leading zeros included. */
  function Value(s: string): nat
    requires AllDigits(s)
  {
    if s == "" then 0 else 10 * Value(s[..|s| - 1]) + DigitValue(s[|s| - 1])
  }

  /** strconv.ParseUint(s, 10, 64). */
  function ParseUint(s: string): Option<nat> {
    if s == "" || !AllDigits(s) || Value(s) > MAX_UINT64 then None else Some(Value(s))
  }

  /** boundedPositiveInteger. */
  function BoundedPositive(raw: string, maximum: nat): (r: Option<nat>)
    ensures r.Some? ==> 1 <= r.value <= maximum
  {
    match ParseUint(raw)
    case None => None
    case Some(value) => if value == 0 || value > maximum then None else Some(value)
  }

  function Digit(d: nat): char
    requires d < 10
  {
    ('0' as int + d) as char
  }

  /** fmt.Sprintf("%d", n). */
  function Decimal(n: nat): string {
    if n < 10 then [Digit(n)] else Decimal(n / 10) + [Digit(n % 10)]
  }

  /** fmt.Sprintf("%02d", n): padded to two digits, never cut. */
  function Padded(n: nat): string {
    if n < 10 then "0" + Decimal(n) else Decimal(n)
  }

  lemma {:induction false} DecimalReadsBack(n: nat)
    ensures Decimal(n) != "" && AllDigits(Decimal(n)) && Value(Decimal(n)) == n
  {
    if n < 10 {
      assert Decimal(n)[..0] == "";
    } else {
      DecimalReadsBack(n / 10);
      assert Decimal(n)[..|Decimal(n)| - 1] == Decimal(n / 10);
    }
  }

  /** A padded number is read back as the same number, whatever the bound it is read against. */
  lemma PaddedReadsBack(n: nat, maximum: nat)
    requires 1 <= n <= maximum <= MAX_UINT64
    ensures Padded(n) != "" && AllDigits(Padded(n)) && BoundedPositive(Padded(n), maximum) == Some(n)
  {
    DecimalReadsBack(n);
    if n < 10 {
      assert Padded(n)[..1] == "0" && "0"[..0] == "";
      assert Value("0") == 0;
    }
  }

  /** Two numbers are never printed alike. */
  lemma PaddedIsInjective(m: nat, n: nat)
    requires 1 <= m <= MAX_UINT64 && 1 <= n <= MAX_UINT64 && Padded(m) == Padded(n)
    ensures m == n
  {
    PaddedReadsBack(m, MAX_UINT64);
    PaddedReadsBack(n, MAX_UINT64);
  }

  function Pow10(n: nat): nat {
    if n == 0 then 1 else 10 * Pow10(n - 1)
  }

  /** The first digit counts most: places go down from left to right. */
  lemma {:induction false} ValueByPlaces(s: string)
    requires s != "" && AllDigits(s)
    ensures Value(s) == (s[0] as int - 0x30) * Pow10(|s| - 1) + Value(s[1..])
  {
    var front := s[..|s| - 1];
    if front != "" {
      ValueByPlaces(front);
      assert s[1..][..|s| - 2] == front[1..];
      var first := s[0] as int - 0x30;
      assert 10 * (first * Pow10(|s| - 2)) == first * (10 * Pow10(|s| - 2));
    } else {
      assert s[1..] == "";
    }
  }

  /** Which texts are accepted: digits only, at least one, with a value from one to the maximum. */
  lemma BoundedExactly(raw: string, maximum: nat, n: nat)
    requires maximum <= MAX_UINT64
    ensures BoundedPositive(raw, maximum) == Some(n) <==>
              raw != "" && AllDigits(raw) && Value(raw) == n && 1 <= n <= maximum
  {
  }

  /** Numbers of seasons and episodes are printed with two digits, or with as many as they have. */
  lemma PaddedWidth(n: nat)
    requires n <= 9999
    ensures |Padded(n)| == if n < 100 then 2 else if n < 1000 then 3 else 4
  {
    assert n >= 10 ==> Decimal(n) == Decimal(n / 10) + [Digit(n % 10)];
    assert n >= 100 ==> Decimal(n / 10) == Decimal(n / 10 / 10) + [Digit(n / 10 % 10)];
    assert n >= 1000 ==> Decimal(n / 10 / 10) == Decimal(n / 10 / 10 / 10) + [Digit(n / 10 / 10 % 10)];
  }
}
