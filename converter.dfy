/**
 * The IPv4 address converter: one address in dotted form, and its 32-bit
 * decimal value, hexadecimal and binary digits, and the IPv4-mapped IPv6
 * address of section 2.5.5.2 of RFC 4291, in full and with the zero groups
 * compressed.
 */
module IPv4AddressConverter {
  import opened Wrappers
  import opened Text
  import opened IpAddress
  import Radix
  import Bytes

  /** The request body; IPv4 is null when the JSON says so. */
  datatype AddressRequest = AddressRequest(ipv4: Option<string>)

  /** The dictionary the tool returns, one field per key. */
  datatype Conversion = Conversion(
    decimalValue: bv32,
    hexadecimal: string,
    binary: string,
    ipv6: string,
    ipv6Short: string)

  datatype Reply = Message(text: string) | Converted(conversion: Conversion)

  // ---- formatting one byte ----

  /** A hexadecimal digit, upper case (format "X") or lower case (format "x"). */
  function HexDigit(d: nat, upper: bool): (c: char)
    requires d < 16
    ensures Radix.IsHexChar(c) && Radix.DigitOf(c) == d
    ensures upper ==> !IsAsciiLower(c)
    ensures !upper ==> !IsAsciiUpper(c)
  {
    if d < 10 then ('0' as int + d) as char
    else if upper then ('A' as int + d - 10) as char
    else ('a' as int + d - 10) as char
  }

  /** b.ToString("X2") when upper, {b:x2} otherwise: two digits, high one first. */
  function Hex2(b: bv8, upper: bool): (r: string)
    ensures |r| == 2
  {
    [HexDigit(b as int / 16, upper), HexDigit(b as int % 16, upper)]
  }

  /** The two digits are digits of base 16, of the requested case, and their value is the byte. */
  lemma Hex2Value(b: bv8, upper: bool)
    ensures var r := Hex2(b, upper);
      Radix.AllDigitsIn(r, 16) && Radix.ValueIn(r, 16) == b as int &&
      (upper ==> !IsAsciiLower(r[0]) && !IsAsciiLower(r[1])) &&
      (!upper ==> !IsAsciiUpper(r[0]) && !IsAsciiUpper(r[1]))
  {
    Hex2Digits(b, upper);
    Hex2Number(b as int, upper, Hex2(b, upper));
  }

  lemma Hex2Digits(b: bv8, upper: bool)
    ensures var r := Hex2(b, upper);
      Radix.AllDigitsIn(r, 16) && Radix.DigitOf(r[0]) == b as int / 16 && Radix.DigitOf(r[1]) == b as int % 16 &&
      (upper ==> !IsAsciiLower(r[0]) && !IsAsciiLower(r[1])) &&
      (!upper ==> !IsAsciiUpper(r[0]) && !IsAsciiUpper(r[1]))
  {}

  lemma Hex2Number(n: int, upper: bool, r: string)
    requires 0 <= n < 256 && |r| == 2 && Radix.AllDigitsIn(r, 16)
    requires Radix.DigitOf(r[0]) == n / 16 && Radix.DigitOf(r[1]) == n % 16
    ensures Radix.ValueIn(r, 16) == n
  {
    assert r[..1] == [r[0]] && r[..1][..0] == [];
    assert Radix.ValueIn(r[..1], 16) == n / 16;
    DivMod(n, 16);
  }

  /** Convert.ToString(b, 2).PadLeft(8, '0'): the eight bits of the byte, high one first. */
  function Bits8(b: bv8): (r: string)
    ensures |r| == 8
  {
    var digits := Radix.Digits(b as int, 2);
    Bits8Length(b);
    PadLeft(digits, 8, '0')
  }

  lemma Bits8Length(b: bv8)
    ensures |Radix.Digits(b as int, 2)| <= 8
  {
    Bytes.Pow2Values();
    Radix.BinaryLength(b as int, 8);
  }

  /** The eight characters are binary digits whose value is the byte. */
  lemma Bits8Value(b: bv8)
    ensures Radix.AllDigitsIn(Bits8(b), 2) && Radix.ValueIn(Bits8(b), 2) == b as int
  {
    var digits := Radix.Digits(b as int, 2);
    Bits8Length(b);
    Radix.DigitsValue(b as int, 2);
    Radix.LeadingZeros(8 - |digits|, digits, 2);
  }

  // ---- the four fields ----

  /** (uint)(bytes[0] << 24 | bytes[1] << 16 | bytes[2] << 8 | bytes[3]). */
  function DecimalValue(bytes: seq<bv8>): bv32
    requires |bytes| == 4
  {
    Word(bytes[0], bytes[1], bytes[2], bytes[3])
  }

  /** string.Concat(bytes.Select(format)) for a format of two characters per byte. */
  function Concat2(bytes: seq<bv8>, format: bv8 -> string): (r: string)
    requires forall b :: |format(b)| == 2
    ensures |r| == 2 * |bytes|
    ensures forall i :: 0 <= i < |bytes| ==> r[2 * i..2 * i + 2] == format(bytes[i])
  {
    if bytes == [] then ""
    else
      var n := |bytes| - 1;
      var front := Concat2(bytes[..n], format);
      var last := format(bytes[n]);
      var r := front + last;
      forall i | 0 <= i < |bytes|
        ensures r[2 * i..2 * i + 2] == format(bytes[i])
      {
        if i < n {
          FrontSlice(front, last, 2 * i, 2 * i + 2);
        } else {
          assert r[2 * i..2 * i + 2] == last;
        }
      }
      r
  }

  /** string.Concat(bytes.Select(format)) for a format of eight characters per byte. */
  function Concat8(bytes: seq<bv8>, format: bv8 -> string): (r: string)
    requires forall b :: |format(b)| == 8
    ensures |r| == 8 * |bytes|
    ensures forall i :: 0 <= i < |bytes| ==> r[8 * i..8 * i + 8] == format(bytes[i])
  {
    if bytes == [] then ""
    else
      var n := |bytes| - 1;
      var front := Concat8(bytes[..n], format);
      var last := format(bytes[n]);
      var r := front + last;
      forall i | 0 <= i < |bytes|
        ensures r[8 * i..8 * i + 8] == format(bytes[i])
      {
        if i < n {
          FrontSlice(front, last, 8 * i, 8 * i + 8);
        } else {
          assert r[8 * i..8 * i + 8] == last;
        }
      }
      r
  }

  /** string.Concat(bytes.Select(b => b.ToString("X2"))). */
  function HexString(bytes: seq<bv8>): (r: string)
    ensures |r| == 2 * |bytes|
    ensures forall i :: 0 <= i < |bytes| ==> r[2 * i..2 * i + 2] == Hex2(bytes[i], true)
  {
    Concat2(bytes, b => Hex2(b, true))
  }

  /** string.Concat(bytes.Select(b => Convert.ToString(b, 2).PadLeft(8, '0'))). */
  function BinaryString(bytes: seq<bv8>): (r: string)
    ensures |r| == 8 * |bytes|
    ensures forall i :: 0 <= i < |bytes| ==> r[8 * i..8 * i + 8] == Bits8(bytes[i])
  {
    Concat8(bytes, Bits8)
  }

  lemma FrontSlice(front: string, last: string, a: nat, b: nat)
    requires a <= b <= |front|
    ensures (front + last)[a..b] == front[a..b]
  {}

  /** The last two groups of the mapped address: {b0:x2}{b1:x2}:{b2:x2}{b3:x2}. */
  function MappedTail(bytes: seq<bv8>): string
    requires |bytes| == 4
  {
    Hex2(bytes[0], false) + Hex2(bytes[1], false) + ":" + Hex2(bytes[2], false) + Hex2(bytes[3], false)
  }

  function Ipv6(bytes: seq<bv8>): string
    requires |bytes| == 4
  {
    "0000:0000:0000:0000:0000:ffff:" + MappedTail(bytes)
  }

  function Ipv6Short(bytes: seq<bv8>): string
    requires |bytes| == 4
  {
    "::ffff:" + MappedTail(bytes)
  }

  function Convert(bytes: seq<bv8>): Conversion
    requires |bytes| == 4
  {
    Conversion(DecimalValue(bytes), HexString(bytes), BinaryString(bytes), Ipv6(bytes), Ipv6Short(bytes))
  }

  /** Execute, with IPAddress.TryParse and the deserializer given. */
  function Execute(
    input: Option<string>,
    deserialize: string -> Result<Option<AddressRequest>>,
    parseAddress: string -> Option<AddressBytes>): (r: Reply)
    ensures (input.None? || IsBlank(input.value)) ==> r == Message("Invalid Request")
    ensures input.Some? && !IsBlank(input.value) && deserialize(input.value).Error? ==>
      r == Message("Error: " + deserialize(input.value).message)
    ensures r.Converted? <==>
      input.Some? && !IsBlank(input.value) && deserialize(input.value).Ok? &&
      var request := deserialize(input.value).value;
      request.Some? && request.value.ipv4.Some? && !IsBlank(request.value.ipv4.value) &&
      var parsed := parseAddress(request.value.ipv4.value);
      parsed.Some? && |parsed.value| == 4
    ensures r.Converted? ==>
      r.conversion == Convert(parseAddress(deserialize(input.value).value.value.ipv4.value).value)
  {
    if input.None? || IsBlank(input.value) then Message("Invalid Request")
    else
      match deserialize(input.value)
      case Error(e) => Message("Error: " + e)
      case Ok(request) =>
        if request.None? || request.value.ipv4.None? || IsBlank(request.value.ipv4.value) then
          Message("Invalid input")
        else
          match parseAddress(request.value.ipv4.value)
          case None => Message("Invalid IPv4 address")
          case Some(bytes) =>
            if |bytes| != 4 then Message("Only IPv4 addresses are supported")
            else Converted(Convert(bytes))
  }

  // ---- properties ----

  /** An address that parses to sixteen bytes is refused. */
  lemma OnlyIPv4(text: string, parseAddress: string -> Option<AddressBytes>)
    requires !IsBlank(text) && parseAddress(text).Some? && |parseAddress(text).value| == 16
    ensures Execute(Some("{}"), _ => Ok(Some(AddressRequest(Some(text)))), parseAddress) ==
      Message("Only IPv4 addresses are supported")
  {
    var deserialize := _ => Ok(Some(AddressRequest(Some(text))));
    assert deserialize("{}") == Ok(Some(AddressRequest(Some(text))));
    assert !IsBlank("{}") by { assert !IsWhiteSpace("{}"[0]); }
  }

  /** The decimal value is the big-endian reading of the four bytes; no term overflows 32 bits. */
  lemma DecimalIsBigEndian(bytes: seq<bv8>)
    requires |bytes| == 4
    ensures DecimalValue(bytes) ==
      bytes[0] as bv32 * 0x100_0000 + bytes[1] as bv32 * 0x1_0000 + bytes[2] as bv32 * 0x100 + bytes[3] as bv32
  {}

  /** 192.168.1.1 is 3232235777. */
  lemma DecimalExample()
    ensures DecimalValue([192, 168, 1, 1]) as int == 3232235777
  {}

  /** Eight upper-case hexadecimal digits, two per byte in order. */
  lemma HexShape(bytes: seq<bv8>)
    requires |bytes| == 4
    ensures var h := HexString(bytes);
      |h| == 8 && Radix.AllDigitsIn(h, 16) && (forall k :: 0 <= k < 8 ==> !IsAsciiLower(h[k])) &&
      forall i :: 0 <= i < 4 ==> Radix.ValueIn(h[2 * i..2 * i + 2], 16) == bytes[i] as int
  {
    var h := HexString(bytes);
    forall k | 0 <= k < 8
      ensures Radix.IsDigitIn(h[k], 16) && !IsAsciiLower(h[k])
    {
      var i := k / 2;
      var pair := h[2 * i..2 * i + 2];
      assert pair == Hex2(bytes[i], true);
      Hex2Value(bytes[i], true);
      assert h[k] == pair[k - 2 * i];
    }
    forall i | 0 <= i < 4
      ensures Radix.ValueIn(h[2 * i..2 * i + 2], 16) == bytes[i] as int
    {
      Hex2Value(bytes[i], true);
    }
  }

  /** Thirty-two binary digits, eight per byte in order. */
  lemma BinaryShape(bytes: seq<bv8>)
    requires |bytes| == 4
    ensures var s := BinaryString(bytes);
      |s| == 32 && Radix.AllDigitsIn(s, 2) &&
      forall i :: 0 <= i < 4 ==> Radix.ValueIn(s[8 * i..8 * i + 8], 2) == bytes[i] as int
  {
    var s := BinaryString(bytes);
    forall k | 0 <= k < 32
      ensures Radix.IsDigitIn(s[k], 2)
    {
      var i := k / 8;
      assert s[8 * i..8 * i + 8] == Bits8(bytes[i]);
      Bits8Value(bytes[i]);
      assert s[k] == Bits8(bytes[i])[k - 8 * i];
    }
    forall i | 0 <= i < 4
      ensures Radix.ValueIn(s[8 * i..8 * i + 8], 2) == bytes[i] as int
    {
      Bits8Value(bytes[i]);
    }
  }

  /** The value of four hexadecimal digits, high one first. */
  lemma QuadValue(s: string)
    requires |s| == 4 && Radix.AllDigitsIn(s, 16)
    ensures Radix.ValueIn(s, 16) == Radix.ValueIn(s[..2], 16) * 256 + Radix.ValueIn(s[2..], 16)
  {
    var d0, d1, d2, d3 := Radix.DigitOf(s[0]), Radix.DigitOf(s[1]), Radix.DigitOf(s[2]), Radix.DigitOf(s[3]);
    assert s[..1][..0] == [] && s[..2][..1] == s[..1] && s[..3][..2] == s[..2];
    assert Radix.ValueIn(s[..1], 16) == d0;
    assert Radix.ValueIn(s[..2], 16) == d0 * 16 + d1;
    assert Radix.ValueIn(s[..3], 16) == (d0 * 16 + d1) * 16 + d2;
    var t := s[2..];
    assert t[..1][..0] == [] && t[..1] == [s[2]] && t[1] == s[3];
    assert Radix.ValueIn(t, 16) == d2 * 16 + d3;
  }

  /** Two bytes as one group of four digits: the group's value is high * 256 + low. */
  lemma GroupValue(hi: bv8, lo: bv8)
    ensures var g := Hex2(hi, false) + Hex2(lo, false);
      |g| == 4 && Radix.AllDigitsIn(g, 16) &&
      Radix.ValueIn(g, 16) == hi as int * 256 + lo as int
  {
    var g := Hex2(hi, false) + Hex2(lo, false);
    Hex2Value(hi, false);
    Hex2Value(lo, false);
    assert g[..2] == Hex2(hi, false) && g[2..] == Hex2(lo, false);
    QuadValue(g);
  }

  /** Where the pieces of the full form sit. */
  lemma Layout(high: string, low: string, tail: string)
    requires |high| == 4 && |low| == 4 && tail == high + ":" + low
    ensures var s := "0000:0000:0000:0000:0000:ffff:" + tail;
      |s| == 39 && s[..29] == "0000:0000:0000:0000:0000:ffff" &&
      s[29] == ':' && s[30..34] == high && s[34] == ':' && s[35..] == low
  {}

  /**
   * The full form is eight groups of four digits separated by colons: five
   * zero groups, a group of ones, then the address as two groups, high word
   * first, as section 2.5.5.2 of RFC 4291 lays out an IPv4-mapped address.
   */
  lemma MappedLayout(bytes: seq<bv8>)
    requires |bytes| == 4
    ensures var s := Ipv6(bytes);
      |s| == 39 && s[..29] == "0000:0000:0000:0000:0000:ffff" && s[29] == ':' && s[34] == ':' &&
      Radix.AllDigitsIn(s[30..34], 16) && Radix.AllDigitsIn(s[35..], 16) &&
      Radix.ValueIn(s[30..34], 16) == bytes[0] as int * 256 + bytes[1] as int &&
      Radix.ValueIn(s[35..], 16) == bytes[2] as int * 256 + bytes[3] as int
  {
    var high := Hex2(bytes[0], false) + Hex2(bytes[1], false);
    var low := Hex2(bytes[2], false) + Hex2(bytes[3], false);
    assert MappedTail(bytes) == high + ":" + low;
    GroupValue(bytes[0], bytes[1]);
    GroupValue(bytes[2], bytes[3]);
    Layout(high, low, MappedTail(bytes));
  }

  /** The short form is the full form with the five zero groups compressed to "::". */
  lemma ShortForm(bytes: seq<bv8>)
    requires |bytes| == 4
    ensures Ipv6(bytes) == "0000:0000:0000:0000:0000" + Ipv6Short(bytes)[1..]
  {
    var tail := MappedTail(bytes);
    assert Ipv6Short(bytes)[1..] == ":ffff:" + tail;
  }

  predicate NoUpper(s: string)
  {
    forall i :: 0 <= i < |s| ==> !IsAsciiUpper(s[i])
  }

  lemma NoUpperAppend(a: string, b: string)
    requires NoUpper(a) && NoUpper(b)
    ensures NoUpper(a + b)
  {
    forall i | 0 <= i < |a + b|
      ensures !IsAsciiUpper((a + b)[i])
    {
      if i >= |a| {
        assert (a + b)[i] == b[i - |a|];
      }
    }
  }

  lemma Hex2NoUpper(b: bv8)
    ensures NoUpper(Hex2(b, false))
  {
    Hex2Value(b, false);
  }

  /** Every letter of both IPv6 forms is lower case. */
  lemma MappedLowerCase(bytes: seq<bv8>)
    requires |bytes| == 4
    ensures NoUpper(Ipv6(bytes)) && NoUpper(Ipv6Short(bytes))
  {
    var a, b, c, d := Hex2(bytes[0], false), Hex2(bytes[1], false), Hex2(bytes[2], false), Hex2(bytes[3], false);
    Hex2NoUpper(bytes[0]);
    Hex2NoUpper(bytes[1]);
    Hex2NoUpper(bytes[2]);
    Hex2NoUpper(bytes[3]);
    NoUpperAppend(a, b);
    NoUpperAppend(a + b, ":");
    NoUpperAppend(a + b + ":", c);
    NoUpperAppend(a + b + ":" + c, d);
    NoUpperAppend("0000:0000:0000:0000:0000:ffff:", MappedTail(bytes));
    NoUpperAppend("::ffff:", MappedTail(bytes));
  }
}
