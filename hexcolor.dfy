/**
 * The colour parsing shared by the two QR code tools: an optional '#', then
 * three or six characters, each channel read by Convert.ToByte(text, 16).
 * The tools differ only in what happens when Convert.ToByte throws: the WiFi
 * tool catches the exception and answers false, the plain QR tool lets it
 * reach Execute.
 */
module HexColor {
  import opened Wrappers
  import opened Text
  import opened DotNetConvert
  import Radix

  /** Color.FromArgb(r, g, b): an opaque colour. */
  datatype Color = Color(r: int, g: int, b: int)

  /** Color.Black, the value the out parameter holds when parsing fails. */
  const Black := Color(0, 0, 0)

  /** The text after one leading '#', if there is one. */
  function Body(hex: string): (r: string)
    ensures |r| <= |hex|
  {
    if StartsWith(hex, "#") then hex[1..] else hex
  }

  /** The three channels read one after the other; the first that throws decides. */
  function Channels(red: string, green: string, blue: string): (r: Outcome<Color>)
    requires red != "" && green != "" && blue != ""
    ensures r.Value? ==> 0 <= r.value.r <= 255 && 0 <= r.value.g <= 255 && 0 <= r.value.b <= 255
  {
    match ToByteHex(red)
    case Thrown(e) => Thrown(e)
    case Value(rv) =>
      match ToByteHex(green)
      case Thrown(e) => Thrown(e)
      case Value(gv) =>
        match ToByteHex(blue)
        case Thrown(e) => Thrown(e)
        case Value(bv) => Value(Color(rv, gv, bv))
  }

  /**
   * TryParseHexColor before any catch: Value(None) where it returns false,
   * Value(Some(c)) where it returns true with colour c, and the exception of
   * Convert.ToByte otherwise.
   */
  function Parse(hex: Option<string>): (r: Outcome<Option<Color>>)
    ensures r.Value? && r.value.Some? ==> hex.Some? && (|Body(hex.value)| == 3 || |Body(hex.value)| == 6)
    ensures hex.None? || IsBlank(hex.value) ==> r == Value(None)
    ensures hex.Some? && |Body(hex.value)| != 3 && |Body(hex.value)| != 6 ==> r == Value(None)
  {
    if hex.None? || IsBlank(hex.value) then Value(None)
    else
      var body := Body(hex.value);
      if |body| == 3 then
        match Channels([body[0], body[0]], [body[1], body[1]], [body[2], body[2]])
        case Thrown(e) => Thrown(e)
        case Value(c) => Value(Some(c))
      else if |body| == 6 then
        match Channels(body[0..2], body[2..4], body[4..6])
        case Thrown(e) => Thrown(e)
        case Value(c) => Value(Some(c))
      else Value(None)
  }

  // ---- properties ----

  predicate AllHex(s: string)
  {
    forall i :: 0 <= i < |s| ==> Radix.IsHexChar(s[i])
  }

  /** The value of two hexadecimal digits. */
  function PairValue(hi: char, lo: char): int
    requires Radix.IsHexChar(hi) && Radix.IsHexChar(lo)
  {
    Radix.DigitOf(hi) * 16 + Radix.DigitOf(lo)
  }

  /** Two hexadecimal digits read as a byte. */
  lemma HexPair(hi: char, lo: char)
    requires Radix.IsHexChar(hi) && Radix.IsHexChar(lo)
    ensures ToByteHex([hi, lo]) == Value(PairValue(hi, lo))
  {
    var s := [hi, lo];
    assert DigitsStart(s, 16) == 0;
    assert s[0..] == s;
    TwoDigits(s, 16);
    ReadsDigits(s, 16, PairValue(hi, lo));
  }

  /** A doubled character that is not a hexadecimal digit makes Convert.ToByte throw. */
  lemma DoubledNonHex(c: char)
    requires !Radix.IsHexChar(c)
    ensures ToByteHex([c, c]).Thrown?
  {
    var s := [c, c];
    if c == '+' {
      assert s[1..] == [c];
    } else if c != '-' {
      assert s[0..] == s;
    }
  }

  /** Six hexadecimal digits are the three channels, two digits each. */
  lemma SixDigits(hex: string)
    requires |Body(hex)| == 6 && AllHex(Body(hex))
    ensures var d := Body(hex);
      Parse(Some(hex)) == Value(Some(Color(PairValue(d[0], d[1]), PairValue(d[2], d[3]), PairValue(d[4], d[5]))))
  {
    var d := Body(hex);
    HexNotBlank(hex);
    assert d[0..2] == [d[0], d[1]] && d[2..4] == [d[2], d[3]] && d[4..6] == [d[4], d[5]];
    HexPair(d[0], d[1]);
    HexPair(d[2], d[3]);
    HexPair(d[4], d[5]);
    SixChannels(hex);
  }

  /** A six-character body is read as three pairs. */
  lemma SixChannels(hex: string)
    requires !IsBlank(hex) && |Body(hex)| == 6
    ensures var d := Body(hex);
      Parse(Some(hex)) == match Channels(d[0..2], d[2..4], d[4..6])
        case Thrown(e) => Thrown(e)
        case Value(c) => Value(Some(c))
  {}

  /** Three hexadecimal digits are the short form: each digit doubled, so a channel is the digit times 17. */
  lemma ThreeDigits(hex: string)
    requires |Body(hex)| == 3 && AllHex(Body(hex))
    ensures var d := Body(hex);
      Parse(Some(hex)) == Value(Some(Color(Radix.DigitOf(d[0]) * 17, Radix.DigitOf(d[1]) * 17, Radix.DigitOf(d[2]) * 17)))
  {
    var d := Body(hex);
    HexNotBlank(hex);
    HexPair(d[0], d[0]);
    HexPair(d[1], d[1]);
    HexPair(d[2], d[2]);
  }

  /** In the short form, a character that is not a hexadecimal digit makes the parse throw. */
  lemma ThreeWithNonHex(hex: string, i: nat)
    requires !IsBlank(hex) && |Body(hex)| == 3 && i < 3 && !Radix.IsHexChar(Body(hex)[i])
    ensures Parse(Some(hex)).Thrown?
  {
    var d := Body(hex);
    DoubledNonHex(d[i]);
    ChannelThrows([d[0], d[0]], [d[1], d[1]], [d[2], d[2]]);
  }

  /** One channel that throws makes the colour throw. */
  lemma ChannelThrows(red: string, green: string, blue: string)
    requires red != "" && green != "" && blue != ""
    requires ToByteHex(red).Thrown? || ToByteHex(green).Thrown? || ToByteHex(blue).Thrown?
    ensures Channels(red, green, blue).Thrown?
  {}

  /** A body that starts with a hexadecimal digit is not blank text. */
  lemma HexNotBlank(hex: string)
    requires |Body(hex)| > 0 && Radix.IsHexChar(Body(hex)[0])
    ensures !IsBlank(hex)
  {
    if StartsWith(hex, "#") {
      assert !IsWhiteSpace(hex[0]);
    } else {
      assert hex[0] == Body(hex)[0];
    }
  }

  /** Convert.ToByte reads a leading '+': a six-character body of signed digits is taken as well. */
  lemma PlusSignsAccepted()
    ensures Parse(Some("#+F+F+F")) == Value(Some(Color(15, 15, 15)))
  {
    var d := Body("#+F+F+F");
    assert d == "+F+F+F";
    assert d[0..2] == "+F" && d[2..4] == "+F" && d[4..6] == "+F";
    assert "+F"[1..] == "F" && "F"[..0] == [];
    assert !IsWhiteSpace("#+F+F+F"[0]);
    ReadsDigits("+F", 16, 15);
  }
}
