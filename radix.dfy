/**
 * Positional notation in the bases 2 to 16 as Convert.ToString(n, base)
 * writes it: no leading zeros, "0" for zero, lower-case letters for the digits
 * ten to fifteen.
 */
module Radix {
  import opened Bytes
  import opened Text

  /** The character of digit d: 0-9, then a-f. */
  function DigitChar(d: nat): (c: char)
    requires d < 16
    ensures IsHexChar(c) && DigitOf(c) == d
  {
    if d < 10 then ('0' as int + d) as char else ('a' as int + d - 10) as char
  }

  predicate IsHexChar(c: char)
  {
    ('0' <= c <= '9') || ('a' <= c <= 'f') || ('A' <= c <= 'F')
  }

  /** The value of a digit character, either case. */
  function DigitOf(c: char): (d: nat)
    requires IsHexChar(c)
    ensures d < 16
  {
    if c <= '9' then c as int - '0' as int
    else if c <= 'F' then c as int - 'A' as int + 10
    else c as int - 'a' as int + 10
  }

  /** c is one of the digits of the base. */
  predicate IsDigitIn(c: char, base: nat)
  {
    IsHexChar(c) && DigitOf(c) < base
  }

  predicate AllDigitsIn(s: string, base: nat)
  {
    forall i :: 0 <= i < |s| ==> IsDigitIn(s[i], base)
  }

  /** Convert.ToString(n, base) of a non-negative value. */
  function Digits(n: nat, base: nat): (r: string)
    requires 2 <= base <= 16
    ensures |r| >= 1 && AllDigitsIn(r, base)
    ensures n > 0 ==> r[0] != '0'
    decreases n
  {
    if n < base then [DigitChar(n)]
    else
      DivBase(n, base);
      Digits(n / base, base) + [DigitChar(n % base)]
  }

  lemma DivBase(n: nat, base: nat)
    requires 2 <= base <= n
    ensures n == base * (n / base) + n % base && n % base < base && 1 <= n / base < n
  {
    DivMod(n, base);
    var q := n / base;
    assert q >= 1;
    MulMono(base, 2, q);
  }

  lemma MulMono(a: int, b: int, c: int)
    requires a >= b && c >= 0
    ensures a * c >= b * c
  {}

  /** The value of a string of digits of the base. */
  function ValueIn(s: string, base: nat): nat
    requires 2 <= base <= 16 && AllDigitsIn(s, base)
  {
    if s == [] then 0 else ValueIn(s[..|s| - 1], base) * base + DigitOf(s[|s| - 1])
  }

  /** Reading the digits back gives the number. */
  lemma {:induction false} DigitsValue(n: nat, base: nat)
    requires 2 <= base <= 16
    ensures ValueIn(Digits(n, base), base) == n
    decreases n
  {
    if n >= base {
      DivBase(n, base);
      var s := Digits(n, base);
      assert s[..|s| - 1] == Digits(n / base, base);
      DigitsValue(n / base, base);
      assert ValueIn(s, base) == ValueIn(Digits(n / base, base), base) * base + n % base;
      assert (n / base) * base == base * (n / base);
    }
  }

  /** Leading zeros do not change the value. */
  lemma {:induction false} LeadingZeros(k: nat, s: string, base: nat)
    requires 2 <= base <= 16 && AllDigitsIn(s, base)
    ensures AllDigitsIn(Repeat('0', k) + s, base)
    ensures ValueIn(Repeat('0', k) + s, base) == ValueIn(s, base)
    decreases |s|
  {
    var t := Repeat('0', k) + s;
    if s == [] {
      ZerosValue(k, base);
      assert t == Repeat('0', k);
    } else {
      LeadingZeros(k, s[..|s| - 1], base);
      assert t[..|t| - 1] == Repeat('0', k) + s[..|s| - 1];
    }
  }

  lemma {:induction false} ZerosValue(k: nat, base: nat)
    requires 2 <= base <= 16
    ensures AllDigitsIn(Repeat('0', k), base) && ValueIn(Repeat('0', k), base) == 0
  {
    if k > 0 {
      ZerosValue(k - 1, base);
      var z := Repeat('0', k);
      assert z[..k - 1] == Repeat('0', k - 1);
    }
  }

  /** A number below 2^k has at most k binary digits. */
  lemma {:induction false} BinaryLength(n: nat, k: nat)
    requires k >= 1 && n < Pow2(k)
    ensures |Digits(n, 2)| <= k
    decreases n
  {
    if n >= 2 {
      BinaryLength(n / 2, k - 1);
    }
  }
}
