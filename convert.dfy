/**
 * Convert.ToInt32(s, fromBase), Convert.ToByte(s, fromBase) and
 * Convert.ToString(v, toBase) of .NET, which the tools call: only the bases 2,
 * 8, 10 and 16 are accepted, a sign is read first (a minus only in base 10), "0x"
 * may come before hexadecimal digits, nothing may follow the digits, and values
 * in the bases other than 10 are the 32 bits of the integer read or written as
 * unsigned.
 */
module DotNetConvert {
  import opened Text
  import Radix

  /** The exceptions the two library calls throw. */
  datatype Exception = FormatException | OverflowException | ArgumentException(message: string)

  datatype Outcome<T> = Value(value: T) | Thrown(exception: Exception)

  /** The messages of the ArgumentExceptions, as .NET words them. */
  const InvalidBase := "Invalid Base."
  const MinusOutsideBase10 := "String cannot contain a minus sign if the base is not 10."

  /** The bases Convert.ToInt32 and Convert.ToString accept. */
  predicate IsConvertBase(base: int)
  {
    base == 2 || base == 8 || base == 10 || base == 16
  }

  // ---- Convert.ToInt32(s, fromBase) ----

  /** The length of the longest prefix of s made of digits of the base. */
  function DigitRun(s: string, base: nat): (n: nat)
    ensures n <= |s| && Radix.AllDigitsIn(s[..n], base)
    ensures n < |s| ==> !Radix.IsDigitIn(s[n], base)
  {
    if s == [] || !Radix.IsDigitIn(s[0], base) then 0
    else
      var n := 1 + DigitRun(s[1..], base);
      assert s[..n] == [s[0]] + s[1..][..n - 1];
      n
  }

  /** Where the digits start: after a sign, and in base 16 after a "0x" or "0X". */
  function DigitsStart(s: string, base: int): (i: nat)
    requires s != ""
    ensures i <= |s|
  {
    var i := if s[0] == '-' || s[0] == '+' then 1 else 0;
    if base == 16 && i + 1 < |s| && s[i] == '0' && (s[i + 1] == 'x' || s[i + 1] == 'X') then i + 2 else i
  }

  /**
   * Convert.ToInt32(s, base) for a non-empty s. The digits are read while they
   * last; a value past the range (2^31 in base 10, 2^32 - 1 in the others) is an
   * overflow found before anything after the digits is looked at, and anything
   * after them is a format error. In base 10 the sign applies and 2^31 itself
   * is only allowed with a minus; in the other bases the 32 bits are read as
   * unsigned and then taken as a signed integer.
   */
  function ToInt32(s: string, base: int): (r: Outcome<int>)
    requires s != ""
    ensures r.Value? ==> IsInt32(r.value)
  {
    if !IsConvertBase(base) then Thrown(ArgumentException(InvalidBase))
    else
      var negative := s[0] == '-';
      if negative && base != 10 then Thrown(ArgumentException(MinusOutsideBase10))
      else
        var body := s[DigitsStart(s, base)..];
        var n := DigitRun(body, base);
        if n == 0 then Thrown(FormatException)
        else
          var v := Radix.ValueIn(body[..n], base);
          if (base == 10 && v > 0x8000_0000) || (base != 10 && v > 0xFFFF_FFFF) then Thrown(OverflowException)
          else if n < |body| then Thrown(FormatException)
          else if base == 10 then
            if negative then Value(-(v as int))
            else if v == 0x8000_0000 then Thrown(OverflowException)
            else Value(v)
          else if v >= 0x8000_0000 then Value(v - 0x1_0000_0000)
          else Value(v)
  }

  /**
   * Convert.ToByte(s, 16): the digits read as for Convert.ToInt32, as unsigned,
   * and a value past 255 is an overflow.
   */
  function ToByteHex(s: string): (r: Outcome<int>)
    requires s != ""
    ensures r.Value? ==> 0 <= r.value <= 255
  {
    match ToInt32(s, 16)
    case Thrown(e) => Thrown(e)
    case Value(v) =>
      var u := if v < 0 then v + 0x1_0000_0000 else v;
      if u > 255 then Thrown(OverflowException) else Value(u)
  }

  // ---- Convert.ToString(v, base) ----

  /** The digits Convert.ToString writes: decimal with a sign in base 10, the unsigned 32 bits otherwise. */
  function BaseString(v: int, base: int): string
    requires IsInt32(v) && IsConvertBase(base)
  {
    if base == 10 then IntToString(v)
    else Radix.Digits(if v < 0 then v + 0x1_0000_0000 else v, base)
  }

  function ToStringIn(v: int, base: int): (r: Outcome<string>)
    requires IsInt32(v)
    ensures r.Thrown? <==> !IsConvertBase(base)
  {
    if IsConvertBase(base) then Value(BaseString(v, base)) else Thrown(ArgumentException(InvalidBase))
  }

  // ---- properties ----

  /** Every 32-bit integer written in a base (upper-cased, as the tool shows it) reads back as itself. */
  lemma RoundTrip(v: int, base: int)
    requires IsInt32(v) && IsConvertBase(base)
    ensures ToInt32(ToUpper(BaseString(v, base)), base) == Value(v)
  {
    if base == 10 {
      DecimalRoundTrip(v);
    } else {
      UnsignedRoundTrip(v, base);
    }
  }

  lemma DecimalRoundTrip(v: int)
    requires IsInt32(v)
    ensures ToInt32(ToUpper(IntToString(v)), 10) == Value(v)
  {
    var m: nat := if v < 0 then -v else v;
    var digits := NatToString(m);
    var s := IntToString(v);
    DecimalDigits(digits);
    NatToStringValue(m);
    UpperOfDigits(s);
    DecimalBody(v, m);
    ReadsDigits(s, 10, m);
  }

  /** The digits of a decimal rendering start after its sign. */
  lemma DecimalBody(v: int, m: nat)
    requires m == if v < 0 then -v else v
    ensures IntToString(v)[DigitsStart(IntToString(v), 10)..] == NatToString(m)
  {
    var s := IntToString(v);
    if v < 0 {
      assert s == "-" + NatToString(m);
      assert s[1..] == NatToString(m);
    } else {
      assert s[0..] == s;
    }
  }

  lemma UnsignedRoundTrip(v: int, base: int)
    requires IsInt32(v) && (base == 2 || base == 8 || base == 16)
    ensures ToInt32(ToUpper(BaseString(v, base)), base) == Value(v)
  {
    var u: nat := if v < 0 then v + 0x1_0000_0000 else v;
    var digits := Radix.Digits(u, base);
    UpperDigits(digits, base);
    Radix.DigitsValue(u, base);
    UpperStart(u, base);
    UnsignedDigits(ToUpper(digits), base, u);
  }

  /** The upper-cased digits of u neither start with a sign nor with "0x". */
  lemma UpperStart(u: nat, base: int)
    requires base == 2 || base == 8 || base == 16
    ensures var s := ToUpper(Radix.Digits(u, base));
      s != "" && s[0] != '-' && DigitsStart(s, base) == 0
  {
    var digits := Radix.Digits(u, base);
    ToUpperAt(digits);
    if u == 0 {
      assert |digits| == 1;
    }
  }

  /** A string of digits alone, in base 2, 8 or 16, reads as its value taken as 32 signed bits. */
  lemma UnsignedDigits(s: string, base: int, u: nat)
    requires base == 2 || base == 8 || base == 16
    requires s != "" && s[0] != '-' && DigitsStart(s, base) == 0
    requires Radix.AllDigitsIn(s, base) && Radix.ValueIn(s, base) == u && u <= 0xFFFF_FFFF
    ensures ToInt32(s, base) == Value(if u >= 0x8000_0000 then u - 0x1_0000_0000 else u)
  {
    assert s[0..] == s;
    ReadsDigits(s, base, u);
  }

  /** A string of digits is read to its end. */
  lemma {:induction false} DigitRunAll(s: string, base: nat)
    requires Radix.AllDigitsIn(s, base)
    ensures DigitRun(s, base) == |s|
  {
    if s != [] {
      DigitRunAll(s[1..], base);
    }
  }

  /** Decimal digits are the digits of base 10, with the same value. */
  lemma {:induction false} DecimalDigits(s: string)
    requires forall i :: 0 <= i < |s| ==> IsDigit(s[i])
    ensures Radix.AllDigitsIn(s, 10) && Radix.ValueIn(s, 10) == DigitsValue(s)
  {
    if s != [] {
      DecimalDigits(s[..|s| - 1]);
    }
  }

  /** Upper-casing decimal text changes nothing. */
  lemma UpperOfDigits(s: string)
    requires forall i :: 0 <= i < |s| ==> s[i] == '-' || IsDigit(s[i])
    ensures ToUpper(s) == s
  {
    ToUpperAt(s);
  }

  /** Upper-casing digits keeps them digits of the base, with the same value. */
  lemma {:induction false} UpperDigits(s: string, base: nat)
    requires 2 <= base <= 16 && Radix.AllDigitsIn(s, base)
    ensures Radix.AllDigitsIn(ToUpper(s), base) && Radix.ValueIn(ToUpper(s), base) == Radix.ValueIn(s, base)
  {
    ToUpperAt(s);
    if s != [] {
      var n := |s| - 1;
      UpperDigits(s[..n], base);
      ToUpperAt(s[..n]);
      assert ToUpper(s)[..n] == ToUpper(s[..n]);
    }
  }

  /** Digits after the prefix, and nothing else, are read as their value: as signed in base 10, as 32 unsigned bits otherwise. */
  lemma ReadsDigits(s: string, base: int, v: nat)
    requires s != "" && IsConvertBase(base) && (s[0] == '-' ==> base == 10)
    requires Radix.AllDigitsIn(s[DigitsStart(s, base)..], base) && DigitsStart(s, base) < |s|
    requires v == Radix.ValueIn(s[DigitsStart(s, base)..], base)
    ensures base == 10 && s[0] == '-' && v <= 0x8000_0000 ==> ToInt32(s, base) == Value(-(v as int))
    ensures base == 10 && s[0] != '-' && v < 0x8000_0000 ==> ToInt32(s, base) == Value(v)
    ensures base != 10 && v <= 0xFFFF_FFFF ==> ToInt32(s, base) == Value(if v >= 0x8000_0000 then v - 0x1_0000_0000 else v)
    ensures (base == 10 && v > 0x8000_0000) || (base != 10 && v > 0xFFFF_FFFF) ==> ToInt32(s, base) == Thrown(OverflowException)
  {
    var body := s[DigitsStart(s, base)..];
    DigitRunAll(body, base);
    assert body[..|body|] == body;
  }

  /** Two digits are worth the first times the base plus the second. */
  lemma TwoDigits(s: string, base: nat)
    requires 2 <= base <= 16 && |s| == 2 && Radix.AllDigitsIn(s, base)
    ensures Radix.ValueIn(s, base) == Radix.DigitOf(s[0]) * base + Radix.DigitOf(s[1])
  {
    var first := s[..1];
    assert first[..0] == [] && first[0] == s[0];
    assert Radix.ValueIn(first, base) == Radix.DigitOf(s[0]);
  }

  /** Lower-case hexadecimal digits. */
  lemma LowerHexExample()
    ensures ToInt32("ff", 16) == Value(255)
  {
    assert "ff"[0..] == "ff";
    TwoDigits("ff", 16);
    ReadsDigits("ff", 16, 255);
  }

  /** "0x" before the digits. */
  lemma PrefixedHexExample()
    ensures ToInt32("0xFF", 16) == Value(255)
  {
    assert "0xFF"[2..] == "FF";
    TwoDigits("FF", 16);
    ReadsDigits("0xFF", 16, 255);
  }

  /** A minus sign in base 10. */
  lemma NegativeExample()
    ensures ToInt32("-12", 10) == Value(-12)
  {
    assert "-12"[1..] == "12";
    TwoDigits("12", 10);
    ReadsDigits("-12", 10, 12);
  }

  /** A minus sign outside base 10. */
  lemma MinusExample()
    ensures ToInt32("-1", 2) == Thrown(ArgumentException(MinusOutsideBase10))
  {}

  /** Only the four bases. */
  lemma BaseExample()
    ensures ToInt32("12", 3) == Thrown(ArgumentException(InvalidBase))
  {}

  /** A digit outside the base is a format error. */
  lemma FormatExample()
    ensures ToInt32("12", 2) == Thrown(FormatException)
  {
    var body := "12"[DigitsStart("12", 2)..];
    assert body == "12";
    assert body[1..] == "2";
    assert !Radix.IsDigitIn('2', 2);
    assert DigitRun("2", 2) == 0;
    assert DigitRun(body, 2) == 1;
    assert body[..1] == "1";
    assert Radix.ValueIn("1", 2) == 1 by { assert "1"[..0] == []; }
  }
}
