/**
 * Convert.ToBase64String: the base 64 encoding of section 4 of RFC 4648, with
 * the standard alphabet and '=' padding, and a decoder that inverts it.
 */
module Base64 {
  import opened Bytes
  import opened Wrappers

  /** The character of a 6-bit value: A-Z, a-z, 0-9, '+', '/'. */
  function CharOf(v: nat): (c: char)
    requires v < 64
    ensures IsAlphabet(c) && IndexOf(c) == v
  {
    if v < 26 then ('A' as int + v) as char
    else if v < 52 then ('a' as int + (v - 26)) as char
    else if v < 62 then ('0' as int + (v - 52)) as char
    else if v == 62 then '+'
    else '/'
  }

  predicate IsAlphabet(c: char)
  {
    ('A' <= c <= 'Z') || ('a' <= c <= 'z') || ('0' <= c <= '9') || c == '+' || c == '/'
  }

  function IndexOf(c: char): (v: nat)
    requires IsAlphabet(c)
    ensures v < 64
  {
    if 'A' <= c <= 'Z' then c as int - 'A' as int
    else if 'a' <= c <= 'z' then c as int - 'a' as int + 26
    else if '0' <= c <= '9' then c as int - '0' as int + 52
    else if c == '+' then 62
    else 63
  }

  /** Three bytes as four characters of six bits each. */
  function Group3(b0: byte, b1: byte, b2: byte): (g: string)
    ensures |g| == 4 && forall i :: 0 <= i < 4 ==> IsAlphabet(g[i])
  {
    [CharOf(b0 / 4), CharOf((b0 % 4) * 16 + b1 / 16), CharOf((b1 % 16) * 4 + b2 / 64), CharOf(b2 % 64)]
  }

  /** Two bytes as three characters and one '='. */
  function Group2(b0: byte, b1: byte): (g: string)
    ensures |g| == 4 && g[3] == '=' && forall i :: 0 <= i < 3 ==> IsAlphabet(g[i])
  {
    [CharOf(b0 / 4), CharOf((b0 % 4) * 16 + b1 / 16), CharOf((b1 % 16) * 4), '=']
  }

  /** One byte as two characters and two '='. */
  function Group1(b0: byte): (g: string)
    ensures |g| == 4 && g[2] == '=' && g[3] == '=' && IsAlphabet(g[0]) && IsAlphabet(g[1])
  {
    [CharOf(b0 / 4), CharOf((b0 % 4) * 16), '=', '=']
  }

  /** Each group of three bytes becomes four characters; a final short group is padded with '='. */
  function Encode(b: seq<byte>): (r: string)
    ensures |r| == 4 * ((|b| + 2) / 3)
    ensures forall i :: 0 <= i < |r| ==> IsAlphabet(r[i]) || r[i] == '='
  {
    if |b| == 0 then ""
    else if |b| == 1 then Group1(b[0])
    else if |b| == 2 then Group2(b[0], b[1])
    else Group3(b[0], b[1], b[2]) + Encode(b[3..])
  }

  /** Decodes one group of four characters, of which the last one or two may be padding. */
  function DecodeGroup(g: string): (r: Option<seq<byte>>)
    requires |g| == 4
    ensures r.Some? ==> 1 <= |r.value| <= 3
  {
    if !IsAlphabet(g[0]) || !IsAlphabet(g[1]) then None
    else
      var v0, v1 := IndexOf(g[0]), IndexOf(g[1]);
      if g[2] == '=' && g[3] == '=' then Some([v0 * 4 + v1 / 16])
      else if !IsAlphabet(g[2]) then None
      else
        var v2 := IndexOf(g[2]);
        if g[3] == '=' then Some([v0 * 4 + v1 / 16, (v1 % 16) * 16 + v2 / 4])
        else if !IsAlphabet(g[3]) then None
        else
          var v3 := IndexOf(g[3]);
          Some([v0 * 4 + v1 / 16, (v1 % 16) * 16 + v2 / 4, (v2 % 4) * 64 + v3])
  }

  /** The inverse of Encode: groups of four characters, padding only in the last group. */
  function Decode(s: string): Option<seq<byte>>
    decreases |s|
  {
    if s == [] then Some([])
    else if |s| < 4 then None
    else
      match DecodeGroup(s[..4])
      case None => None
      case Some(g) =>
        if |g| < 3 && |s| > 4 then None
        else
          match Decode(s[4..])
          case None => None
          case Some(rest) => Some(g + rest)
  }

  /** Decoding an encoding gives back the bytes. */
  lemma {:induction false} DecodeEncode(b: seq<byte>)
    ensures Decode(Encode(b)) == Some(b)
    decreases |b|
  {
    if |b| == 1 {
      Group1Decodes(b[0]);
      assert Encode(b)[..4] == Group1(b[0]) && Encode(b)[4..] == [];
      assert [b[0]] + [] == b;
    } else if |b| == 2 {
      Group2Decodes(b[0], b[1]);
      assert Encode(b)[..4] == Group2(b[0], b[1]) && Encode(b)[4..] == [];
      assert [b[0], b[1]] + [] == b;
    } else if |b| >= 3 {
      Group3Decodes(b[0], b[1], b[2]);
      DecodeEncode(b[3..]);
      DecodeCons(Group3(b[0], b[1], b[2]), Encode(b[3..]), [b[0], b[1], b[2]], b[3..]);
      SplitThree(b);
    }
  }

  lemma SplitThree(b: seq<byte>)
    requires |b| >= 3
    ensures b == [b[0], b[1], b[2]] + b[3..]
  {
    assert b[..3] == [b[0], b[1], b[2]];
    assert b == b[..3] + b[3..];
  }

  /** A full group followed by a decodable rest decodes to the group's bytes and then the rest's. */
  lemma DecodeCons(g: string, rest: string, bs: seq<byte>, r: seq<byte>)
    requires |g| == 4 && DecodeGroup(g) == Some(bs) && |bs| == 3 && Decode(rest) == Some(r)
    ensures Decode(g + rest) == Some(bs + r)
  {
    assert (g + rest)[..4] == g && (g + rest)[4..] == rest;
  }

  lemma Group3Decodes(b0: byte, b1: byte, b2: byte)
    ensures DecodeGroup(Group3(b0, b1, b2)) == Some([b0, b1, b2])
  {
    SplitByte(b0, b1, b2);
  }

  lemma Group2Decodes(b0: byte, b1: byte)
    ensures DecodeGroup(Group2(b0, b1)) == Some([b0, b1])
  {
    SplitByte(b0, b1, 0);
  }

  lemma Group1Decodes(b0: byte)
    ensures DecodeGroup(Group1(b0)) == Some([b0])
  {
    SplitByte(b0, 0, 0);
  }

  /** The 6-bit pieces of three bytes put back together. */
  lemma SplitByte(b0: byte, b1: byte, b2: byte)
    ensures ((b0 % 4) * 16 + b1 / 16) / 16 == b0 % 4
    ensures ((b0 % 4) * 16 + b1 / 16) % 16 == b1 / 16
    ensures ((b1 % 16) * 4 + b2 / 64) / 4 == b1 % 16
    ensures ((b1 % 16) * 4 + b2 / 64) % 4 == b2 / 64
    ensures (b0 / 4) * 4 + b0 % 4 == b0
    ensures (b1 / 16) * 16 + b1 % 16 == b1
    ensures (b2 / 64) * 64 + b2 % 64 == b2
  {}

  /** Encoding is injective: different byte strings never share an encoding. */
  lemma EncodeInjective(a: seq<byte>, b: seq<byte>)
    requires Encode(a) == Encode(b)
    ensures a == b
  {
    DecodeEncode(a);
    DecodeEncode(b);
  }
}
