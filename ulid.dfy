/**
 * ULIDGenerator: sixteen bytes (the low 48 bits of the Unix time in
 * milliseconds, big-endian, then ten random bytes) written as 26 characters of
 * Crockford's base 32 alphabet by a bit packer that pads the last 5-bit group
 * with zero bits at its end.
 */
module Ulid {
  import opened Wrappers
  import opened Bytes
  import opened Text

  /** A single bit. */
  type bit = b: int | 0 <= b < 2

  /** Crockford's base 32 alphabet: the digits and the capitals without I, L, O and U. */
  const Base32Chars: string := "0123456789ABCDEFGHJKMNPQRSTVWXYZ"

  // ---- bit strings ----

  /** The n low bits of v, most significant first. */
  function NatBits(v: nat, n: nat): (r: seq<bit>)
    ensures |r| == n
  {
    if n == 0 then [] else NatBits(v / 2, n - 1) + [v % 2]
  }

  /** The value of a bit string read most significant bit first. */
  function ValueOf(bits: seq<bit>): (v: nat)
    ensures v < Pow2(|bits|)
  {
    if bits == [] then 0 else ValueOf(bits[..|bits| - 1]) * 2 + bits[|bits| - 1]
  }

  lemma {:induction false} NatBitsValue(v: nat, n: nat)
    requires v < Pow2(n)
    ensures ValueOf(NatBits(v, n)) == v
  {
    if n > 0 {
      NatBitsValue(v / 2, n - 1);
      var r := NatBits(v, n);
      assert r[..n - 1] == NatBits(v / 2, n - 1);
    }
  }

  lemma {:induction false} ValueBits(bits: seq<bit>)
    ensures NatBits(ValueOf(bits), |bits|) == bits
  {
    if bits != [] {
      var init := bits[..|bits| - 1];
      ValueBits(init);
      assert bits == init + [bits[|bits| - 1]];
    }
  }

  /** Appending t shifts the value of s left by |t| bits. */
  lemma {:induction false} ValueAppend(s: seq<bit>, t: seq<bit>)
    ensures ValueOf(s + t) == ValueOf(s) * Pow2(|t|) + ValueOf(t)
    decreases |t|
  {
    if t == [] {
      assert s + t == s;
    } else {
      var t', x := t[..|t| - 1], t[|t| - 1];
      assert (s + t)[..|s + t| - 1] == s + t';
      assert ValueOf(s + t) == ValueOf(s + t') * 2 + x;
      ValueAppend(s, t');
      ShiftOne(ValueOf(s), Pow2(|t'|), ValueOf(t'), x);
    }
  }

  lemma ShiftOne(a: int, p: int, b: int, x: int)
    ensures (a * p + b) * 2 + x == a * (p * 2) + (b * 2 + x)
  {}

  lemma MulAssoc(a: int, b: int, c: int)
    ensures (a * b) * c == a * (b * c)
  {}

  function Zeros(n: nat): (r: seq<bit>)
    ensures |r| == n && ValueOf(r) == 0
  {
    if n == 0 then [] else
      var r := Zeros(n - 1) + [0];
      assert r[..n - 1] == Zeros(n - 1);
      r
  }

  /** The eight bits of a byte, most significant first. */
  function ByteBits(b: byte): (r: seq<bit>)
    ensures |r| == 8 && ValueOf(r) == b
  {
    Pow2Values();
    NatBitsValue(b, 8);
    NatBits(b, 8)
  }

  /** The bits of a byte string, each byte most significant bit first. */
  function BitsOf(bytes: seq<byte>): (r: seq<bit>)
    ensures |r| == 8 * |bytes|
  {
    if bytes == [] then [] else BitsOf(bytes[..|bytes| - 1]) + ByteBits(bytes[|bytes| - 1])
  }

  lemma BitsOfAppend(bytes: seq<byte>, b: byte)
    ensures BitsOf(bytes + [b]) == BitsOf(bytes) + ByteBits(b)
  {
    assert (bytes + [b])[..|bytes|] == bytes;
  }

  /** The bytes of a bit string whose length is a multiple of 8. */
  function BytesOf(bits: seq<bit>): (r: seq<byte>)
    requires |bits| % 8 == 0
    ensures |r| == |bits| / 8
  {
    if bits == [] then []
    else
      var last := bits[|bits| - 8..];
      Pow2Values();
      BytesOf(bits[..|bits| - 8]) + [ValueOf(last)]
  }

  /** Reading the bits of a byte string back as bytes gives the byte string. */
  lemma {:induction false} BytesOfBits(bytes: seq<byte>)
    ensures BytesOf(BitsOf(bytes)) == bytes
  {
    if bytes != [] {
      var init, b := bytes[..|bytes| - 1], bytes[|bytes| - 1];
      var p := BitsOf(bytes);
      assert p[..|p| - 8] == BitsOf(init) && p[|p| - 8..] == ByteBits(b);
      BytesOfBits(init);
      assert bytes == init + [b];
    }
  }

  // ---- the base 32 text ----

  predicate IsBase32Char(c: char)
  {
    ('0' <= c <= '9') || ('A' <= c <= 'H') || c == 'J' || c == 'K' || c == 'M' || c == 'N'
    || ('P' <= c <= 'T') || ('V' <= c <= 'Z')
  }

  /** The position of a character in Base32Chars. */
  function CharValue(c: char): (v: nat)
    requires IsBase32Char(c)
  {
    if c <= '9' then c as int - '0' as int
    else if c <= 'H' then c as int - 'A' as int + 10
    else if c <= 'K' then c as int - 'J' as int + 18
    else if c <= 'N' then c as int - 'M' as int + 20
    else if c <= 'T' then c as int - 'P' as int + 22
    else c as int - 'V' as int + 27
  }

  /** CharValue inverts the alphabet table. */
  lemma Base32Table()
    ensures forall v :: 0 <= v < 32 ==> IsBase32Char(Base32Chars[v]) && CharValue(Base32Chars[v]) == v
  {}

  lemma InAlphabet(c: char)
    requires c in Base32Chars
    ensures IsBase32Char(c) && CharValue(c) < 32 && Base32Chars[CharValue(c)] == c
  {
    Base32Table();
    var v :| 0 <= v < 32 && Base32Chars[v] == c;
  }

  /** One character per 5-bit group, in order: the text the packer promises. */
  function Chars(p: seq<bit>): (s: string)
    requires |p| % 5 == 0
    ensures |s| == |p| / 5
    ensures forall i :: 0 <= i < |s| ==> s[i] in Base32Chars
  {
    if p == [] then ""
    else
      var g := p[|p| - 5..];
      Pow2Values();
      Chars(p[..|p| - 5]) + [Base32Chars[ValueOf(g)]]
  }

  lemma CharsAppend(p: seq<bit>, g: seq<bit>)
    requires |p| % 5 == 0 && |g| == 5
    ensures ValueOf(g) < 32
    ensures Chars(p + g) == Chars(p) + [Base32Chars[ValueOf(g)]]
  {
    Pow2Values();
    var q := p + g;
    assert q[..|q| - 5] == p && q[|q| - 5..] == g;
  }

  /** The number of zero bits that complete the last 5-bit group of n bits. */
  function PadLength(n: nat): (k: nat)
    ensures k < 5 && (n + k) % 5 == 0
  {
    (5 - n % 5) % 5
  }

  /** The bits of the bytes, zero-padded at the end to whole 5-bit groups. */
  function Padded(bytes: seq<byte>): (p: seq<bit>)
    ensures |p| % 5 == 0
  {
    BitsOf(bytes) + Zeros(PadLength(8 * |bytes|))
  }

  /** Each character back to its five bits. */
  function Unpack(s: string): (bits: seq<bit>)
    requires forall i :: 0 <= i < |s| ==> s[i] in Base32Chars
    ensures |bits| == 5 * |s|
  {
    if s == [] then []
    else
      InAlphabet(s[|s| - 1]);
      Unpack(s[..|s| - 1]) + NatBits(CharValue(s[|s| - 1]), 5)
  }

  /** Unpacking the characters gives back the bit string. */
  lemma {:induction false} UnpackChars(p: seq<bit>)
    requires |p| % 5 == 0
    ensures Unpack(Chars(p)) == p
  {
    if p != [] {
      var init, g := p[..|p| - 5], p[|p| - 5..];
      var s := Chars(p);
      var c := Base32Chars[ValueOf(g)];
      assert s == Chars(init) + [c];
      assert s[..|s| - 1] == Chars(init);
      CharsAppend(init, g);
      Base32Table();
      assert CharValue(c) == ValueOf(g);
      ValueBits(g);
      UnpackChars(init);
      assert p == init + g;
    }
  }

  /** The text's bytes: the first whole bytes of its unpacked bits. */
  function Decode(s: string): (r: seq<byte>)
    requires forall i :: 0 <= i < |s| ==> s[i] in Base32Chars
    ensures |r| == 5 * |s| / 8
  {
    var n := 5 * |s| / 8;
    WholeBytes(5 * |s|, n);
    BytesOf(Unpack(s)[..8 * n])
  }

  lemma WholeBytes(m: nat, n: nat)
    requires n == m / 8
    ensures 8 * n <= m && (8 * n) % 8 == 0 && (8 * n) / 8 == n
  {}

  /** The encoding has ceil(8n/5) characters, 26 for the sixteen bytes of a ULID. */
  lemma EncodedLength(bytes: seq<byte>)
    ensures |Chars(Padded(bytes))| == (8 * |bytes| + 4) / 5
    ensures |bytes| == 16 ==> |Chars(Padded(bytes))| == 26
  {
    var m := 8 * |bytes|;
    var k, r := m / 5, m % 5;
    if r == 0 {
      DivModUnique(m + 4, k, 5, 4);
    } else {
      DivModUnique(m + 5 - r, k + 1, 5, 0);
      DivModUnique(m + 4, k + 1, 5, r - 1);
    }
  }

  /** Unpacking the encoding gives the input bits, then the zero padding. */
  lemma UnpackEncoding(bytes: seq<byte>)
    ensures Unpack(Chars(Padded(bytes))) == BitsOf(bytes) + Zeros(PadLength(8 * |bytes|))
  {
    UnpackChars(Padded(bytes));
  }

  /** Decoding the encoding gives back the bytes. */
  lemma DecodeEncoding(bytes: seq<byte>)
    ensures Decode(Chars(Padded(bytes))) == bytes
  {
    var p := Padded(bytes);
    var s := Chars(p);
    var n := |bytes|;
    UnpackChars(p);
    assert 5 * |s| / 8 == n by {
      EncodedLength(bytes);
      LengthBytes(n, |s|);
    }
    assert p[..8 * n] == BitsOf(bytes);
    BytesOfBits(bytes);
  }

  lemma LengthBytes(n: nat, c: nat)
    requires c == (8 * n + 4) / 5
    ensures 5 * c / 8 == n
  {}

  // ---- the packer ----

  /**
   * ToBase32String: each byte is shifted into the C# int `bits`; while at
   * least five bits are pending, the top five pending bits become a
   * character; a final partial group is shifted left to five bits.
   */
  method ToBase32String(bytes: array<byte>) returns (r: string)
    ensures r == Chars(Padded(bytes[..]))
  {
    r := "";
    var bits: int := 0;
    var bitsRemaining := 0;
    ghost var done: seq<bit> := [];
    ghost var pending: seq<bit> := [];
    ghost var high: int := 0;
    for k := 0 to bytes.Length
      invariant 0 <= bitsRemaining < 5 && |pending| == bitsRemaining
      invariant BitsOf(bytes[..k]) == done + pending
      invariant |done| % 5 == 0 && r == Chars(done)
      invariant IsInt32(bits) && bits == high * Pow2(bitsRemaining) + ValueOf(pending)
    {
      var b := bytes[k];
      high := PushByte(bits, bitsRemaining, high, pending, b);
      // (bits << 8) | b: the shift discards the top bits and clears the low eight
      bits := WrapInt32(bits * 256) + b;
      bitsRemaining := bitsRemaining + 8;
      PushBits(bytes[..], k, done, pending);
      pending := pending + ByteBits(b);
      r, bitsRemaining, done, pending, high := EmitGroups(bits, bitsRemaining, r, done, pending, high);
    }
    if bitsRemaining > 0 {
      Flush(bits, bitsRemaining, high, pending);
      // bits << (5 - bitsRemaining)
      bits := WrapInt32(bits * Pow2(5 - bitsRemaining));
      var index := bits % 32;
      r := r + [Base32Chars[index]];
      assert bytes[..bytes.Length] == bytes[..];
      LastGroupPartial(bytes[..], done, pending);
    } else {
      assert bytes[..bytes.Length] == bytes[..];
      assert done + pending == done;
      LastGroupEmpty(bytes[..], done);
    }
  }

  /** The inner loop of ToBase32String: every whole group of five pending bits becomes a character. */
  method EmitGroups(bits: int, rem0: int, r0: string, ghost done0: seq<bit>, ghost pending0: seq<bit>, ghost high0: int)
    returns (r: string, bitsRemaining: int, ghost done: seq<bit>, ghost pending: seq<bit>, ghost high: int)
    requires 0 <= rem0 <= 12 && |pending0| == rem0
    requires |done0| % 5 == 0 && r0 == Chars(done0)
    requires IsInt32(bits) && bits == high0 * Pow2(rem0) + ValueOf(pending0)
    ensures 0 <= bitsRemaining < 5 && |pending| == bitsRemaining
    ensures done + pending == done0 + pending0
    ensures |done| % 5 == 0 && r == Chars(done)
    ensures bits == high * Pow2(bitsRemaining) + ValueOf(pending)
  {
    r, bitsRemaining, done, pending, high := r0, rem0, done0, pending0, high0;
    while bitsRemaining >= 5
      invariant 0 <= bitsRemaining <= 12 && |pending| == bitsRemaining
      invariant done + pending == done0 + pending0
      invariant |done| % 5 == 0 && r == Chars(done)
      invariant bits == high * Pow2(bitsRemaining) + ValueOf(pending)
    {
      bitsRemaining := bitsRemaining - 5;
      // (bits >> bitsRemaining) & 0x1F: an arithmetic shift floors, and & 0x1F is the remainder mod 32
      var index := (bits / Pow2(bitsRemaining)) % 32;
      high := EmitStep(bits, bitsRemaining, high, done, pending);
      r := r + [Base32Chars[index]];
      done := done + pending[..5];
      pending := pending[5..];
    }
  }

  /** One turn of EmitGroups: the top five pending bits are the character's index. */
  lemma EmitStep(bits: int, rem: nat, high: int, done: seq<bit>, pending: seq<bit>) returns (high': int)
    requires |pending| == rem + 5 && |done| % 5 == 0
    requires bits == high * Pow2(rem + 5) + ValueOf(pending)
    ensures (bits / Pow2(rem)) % 32 == ValueOf(pending[..5]) < 32
    ensures bits == high' * Pow2(rem) + ValueOf(pending[5..])
    ensures Chars(done + pending[..5]) == Chars(done) + [Base32Chars[ValueOf(pending[..5])]]
    ensures (done + pending[..5]) + pending[5..] == done + pending
    ensures |done + pending[..5]| % 5 == 0
  {
    high' := TakeFive(bits, rem, high, pending);
    TakeBits(done, pending);
    SplitFive(done, pending);
  }

  /** The bits so far, then the next byte's. */
  lemma PushBits(bs: seq<byte>, k: nat, done: seq<bit>, pending: seq<bit>)
    requires k < |bs| && BitsOf(bs[..k]) == done + pending
    ensures BitsOf(bs[..k + 1]) == done + (pending + ByteBits(bs[k]))
  {
    assert bs[..k + 1] == bs[..k] + [bs[k]];
    BitsOfAppend(bs[..k], bs[k]);
  }

  /** Moving five pending bits to the emitted ones emits their character. */
  lemma TakeBits(done: seq<bit>, pending: seq<bit>)
    requires |done| % 5 == 0 && |pending| >= 5
    ensures ValueOf(pending[..5]) < 32
    ensures Chars(done + pending[..5]) == Chars(done) + [Base32Chars[ValueOf(pending[..5])]]
  {
    CharsAppend(done, pending[..5]);
  }

  lemma SplitFive(done: seq<bit>, pending: seq<bit>)
    requires |pending| >= 5
    ensures done + pending == (done + pending[..5]) + pending[5..]
  {
    assert pending == pending[..5] + pending[5..];
    AppendAssoc(done, pending[..5], pending[5..]);
  }

  lemma AppendAssoc<T>(a: seq<T>, b: seq<T>, c: seq<T>)
    ensures (a + b) + c == a + (b + c)
  {}

  /** After the last byte with no bit pending, nothing more is emitted. */
  lemma LastGroupEmpty(bs: seq<byte>, done: seq<bit>)
    requires BitsOf(bs) == done && |done| % 5 == 0
    ensures Chars(Padded(bs)) == Chars(done)
  {
    PadNone(8 * |bs|);
    assert Zeros(0) == [];
    assert Padded(bs) == done + Zeros(0);
    assert done + [] == done;
  }

  lemma PadNone(n: nat)
    requires n % 5 == 0
    ensures PadLength(n) == 0
  {}

  /** After the last byte with bits pending, one more character: those bits followed by zeros. */
  lemma LastGroupPartial(bs: seq<byte>, done: seq<bit>, pending: seq<bit>)
    requires BitsOf(bs) == done + pending && |done| % 5 == 0 && 0 < |pending| < 5
    ensures ValueOf(pending + Zeros(5 - |pending|)) < 32
    ensures Chars(Padded(bs)) == Chars(done) + [Base32Chars[ValueOf(pending + Zeros(5 - |pending|))]]
  {
    FinalPadding(done, pending, 8 * |bs|);
    var z := Zeros(5 - |pending|);
    assert Padded(bs) == (done + pending) + z;
    AppendAssoc(done, pending, z);
    CharsAppend(done, pending + z);
  }

  /** bits << 8 | b keeps the pending bits, now followed by the byte. */
  lemma PushByte(bits: int, rem: nat, high: int, pending: seq<bit>, b: byte) returns (high': int)
    requires rem < 5 && |pending| == rem
    requires IsInt32(bits) && bits == high * Pow2(rem) + ValueOf(pending)
    ensures IsInt32(WrapInt32(bits * 256) + b)
    ensures WrapInt32(bits * 256) + b == high' * Pow2(rem + 8) + ValueOf(pending + ByteBits(b))
  {
    var q := WrapInt32Multiple(bits * 256);
    var x := WrapInt32(bits * 256);
    ShiftedByte(bits - q * 0x100_0000, b);
    var p, p8, r, v := Pow2(rem), Pow2(rem + 8), Pow2(24 - rem), ValueOf(pending);
    assert p8 == p * 256 by { Pow2Values(); Pow2Split(rem, 8, rem + 8); }
    assert r * p8 == 0x1_0000_0000 by { Pow2Values(); Pow2Split(24 - rem, rem + 8, 32); }
    assert ValueOf(pending + ByteBits(b)) == v * 256 + b by { Pow2Values(); ValueAppend(pending, ByteBits(b)); }
    high' := high - q * r;
    PushArith(high, p, v, q, r, p8, b, high');
  }

  /** Shifting left by eight bits leaves room for a byte below. */
  lemma ShiftedByte(m: int, b: byte)
    requires IsInt32(256 * m)
    ensures IsInt32(256 * m + b)
  {}

  lemma PushArith(high: int, p: int, v: int, q: int, r: int, p8: int, b: int, high': int)
    requires p8 == p * 256 && high' == high - q * r
    ensures (high * p + v) * 256 - q * (r * p8) + b == high' * p8 + (v * 256 + b)
  {}

  /** (bits >> rem) & 0x1F is the value of the first five pending bits, and the rest stay pending. */
  lemma TakeFive(bits: int, rem: nat, high: int, pending: seq<bit>) returns (high': int)
    requires |pending| == rem + 5
    requires bits == high * Pow2(rem + 5) + ValueOf(pending)
    ensures (bits / Pow2(rem)) % 32 == ValueOf(pending[..5])
    ensures bits == high' * Pow2(rem) + ValueOf(pending[5..])
  {
    var hi, lo := ValueOf(pending[..5]), ValueOf(pending[5..]);
    assert pending == pending[..5] + pending[5..];
    ValueAppend(pending[..5], pending[5..]);
    Pow2Values();
    Pow2Add(5, rem);
    high' := high * 32 + hi;
    TakeArith(high, Pow2(rem), hi, lo);
    DivModUnique(bits, high', Pow2(rem), lo);
    DivModUnique(high', high, 32, hi);
  }

  lemma TakeArith(high: int, p: int, hi: int, lo: int)
    ensures high * (32 * p) + (hi * p + lo) == (high * 32 + hi) * p + lo
  {}

  /** bits << (5 - rem), masked to five bits, is the last pending bits followed by zeros. */
  lemma Flush(bits: int, rem: nat, high: int, pending: seq<bit>)
    requires 0 < rem < 5 && |pending| == rem
    requires bits == high * Pow2(rem) + ValueOf(pending)
    ensures WrapInt32(bits * Pow2(5 - rem)) % 32 == ValueOf(pending + Zeros(5 - rem))
  {
    var z := Pow2(5 - rem);
    var q := WrapInt32Multiple(bits * z);
    ValueAppend(pending, Zeros(5 - rem));
    Pow2Values();
    Pow2Add(rem, 5 - rem);
    FlushArith(high, Pow2(rem), ValueOf(pending), z, q, Pow2(27));
    DivModUnique(WrapInt32(bits * z), high - q * Pow2(27), 32, ValueOf(pending) * z);
  }

  lemma FlushArith(high: int, p: int, v: int, z: int, q: int, t: int)
    requires p * z == 32
    ensures (high * p + v) * z - q * (t * 32) == (high - q * t) * 32 + v * z
  {}

  /** After the last byte, the pending bits plus the padding complete the padded input. */
  lemma FinalPadding(done: seq<bit>, pending: seq<bit>, n: nat)
    requires |done| % 5 == 0 && 0 < |pending| < 5 && |done| + |pending| == n
    ensures PadLength(n) == 5 - |pending|
  {
    var k := |done| / 5;
    DivModUnique(n, k, 5, |pending|);
  }

  // ---- the identifier ----

  /** The n low bytes of v, most significant first. */
  function BigEndianBytes(v: nat, n: nat): (r: seq<byte>)
    ensures |r| == n
  {
    if n == 0 then [] else BigEndianBytes(v / 256, n - 1) + [v % 256]
  }

  /** The bytes read back big-endian are v reduced to n bytes. */
  lemma {:induction false} BigEndianBytesValue(v: nat, n: nat)
    ensures BigEndian(BigEndianBytes(v, n)) == v % Pow2(8 * n)
  {
    if n > 0 {
      var r := BigEndianBytes(v, n);
      assert r[..n - 1] == BigEndianBytes(v / 256, n - 1);
      BigEndianBytesValue(v / 256, n - 1);
      var p := Pow2(8 * (n - 1));
      assert Pow2(8 * n) == p * 256 by { Pow2Values(); Pow2Split(8 * (n - 1), 8, 8 * n); }
      var d, e := v / 256, v % 256;
      var q, m := d / p, d % p;
      DivMod(d, p);
      assert BigEndian(r) == m * 256 + e;
      ByteArith(v, d, e, p, q, m);
      DivModUnique(v, q, p * 256, m * 256 + e);
    }
  }

  lemma ByteArith(v: int, d: int, e: int, p: int, q: int, m: int)
    requires v == 256 * d + e && d == p * q + m
    ensures v == (p * 256) * q + (m * 256 + e)
  {}

  /** The last m of n + m bytes are the m-byte form of the same value. */
  lemma {:induction false} BigEndianBytesSplit(v: nat, n: nat, m: nat)
    ensures BigEndianBytes(v, n + m)[n..] == BigEndianBytes(v, m)
  {
    if m > 0 {
      BigEndianBytesSplit(v / 256, n, m - 1);
    }
  }

  /** (x mod ab) mod a is x mod a. */
  lemma ModMod(x: int, a: int, b: int)
    requires a > 0 && b > 0
    ensures (x % (a * b)) % a == x % a
  {
    var r := x % (a * b);
    var q := x / (a * b);
    calc {
      x;
      (a * b) * q + r;
      { MulAssoc(a, b, q); }
      a * (b * q) + a * (r / a) + r % a;
      a * (b * q + r / a) + r % a;
    }
    DivModUnique(x, b * q + r / a, a, r % a);
  }

  /**
   * The sixteen bytes of GenerateULID: BitConverter.GetBytes of the 64-bit
   * millisecond count, put in big-endian order, keeps its last six bytes; the
   * ten random bytes follow.
   */
  function UlidBytes(ms: int, random: seq<byte>): (r: seq<byte>)
  {
    BigEndianBytes(ms % Pow2(64), 8)[2..] + random
  }

  /** The first six bytes hold the low 48 bits of the timestamp, the last ten the random bytes. */
  lemma UlidLayout(ms: int, random: seq<byte>)
    requires |random| == 10
    ensures |UlidBytes(ms, random)| == 16
    ensures BigEndian(UlidBytes(ms, random)[..6]) == ms % Pow2(48)
    ensures UlidBytes(ms, random)[6..] == random
  {
    var u := UlidBytes(ms, random);
    BigEndianBytesSplit(ms % Pow2(64), 2, 6);
    assert u[..6] == BigEndianBytes(ms % Pow2(64), 6);
    BigEndianBytesValue(ms % Pow2(64), 6);
    Pow2Add(48, 16);
    ModMod(ms, Pow2(48), Pow2(16));
  }

  /**
   * GenerateULID, with the clock reading `ms` and the generator's ten bytes
   * `random` given: the bytes are laid out in arrays and packed.
   */
  method GenerateUlid(ms: int, random: seq<byte>) returns (r: string)
    requires |random| == 10
    ensures r == Chars(Padded(UlidBytes(ms, random)))
  {
    var timestampBytes := BigEndianBytes(ms % Pow2(64), 8);
    var timestampPart := new byte[6](i requires 0 <= i < 6 => timestampBytes[i + 2]);
    var randomBytes := new byte[10](i requires 0 <= i < 10 => random[i]);
    var ulidBytes := new byte[16];
    forall i | 0 <= i < 6 {
      ulidBytes[i] := timestampPart[i];
    }
    forall i | 6 <= i < 16 {
      ulidBytes[i] := randomBytes[i - 6];
    }
    assert ulidBytes[..] == UlidBytes(ms, random);
    r := ToBase32String(ulidBytes);
  }

  /** Every identifier has 26 characters of the alphabet and decodes to its sixteen bytes. */
  lemma UlidShape(ms: int, random: seq<byte>)
    requires |random| == 10
    ensures |Chars(Padded(UlidBytes(ms, random)))| == 26
    ensures Decode(Chars(Padded(UlidBytes(ms, random)))) == UlidBytes(ms, random)
  {
    UlidLayout(ms, random);
    EncodedLength(UlidBytes(ms, random));
    DecodeEncoding(UlidBytes(ms, random));
  }

  // ---- Execute ----

  /** A JSON value as Execute inspects it. */
  datatype JsonValue =
    | JsonNumber(asInt: Option<int>)   // the integer the number denotes, None when it has a fraction
    | JsonString(text: string)
    | JsonOther

  datatype Options = Options(count: int, format: string)

  /**
   * The requested count and format. A JSON number that GetInt32 cannot
   * read (a fraction, or outside 32 bits) throws, with `numberError` as the
   * message; a string count that int.TryParse rejects, and a missing or
   * non-string format, keep the defaults 1 and "raw".
   */
  function ReadOptions(parameters: Option<map<string, JsonValue>>, numberError: string): (r: Result<Options>)
    ensures r.Error? <==> (parameters.Some? && "count" in parameters.value && parameters.value["count"].JsonNumber?
      && !(parameters.value["count"].asInt.Some? && IsInt32(parameters.value["count"].asInt.value)))
    ensures r.Error? ==> r.message == numberError
  {
    if parameters.None? then Ok(Options(1, "raw"))
    else
      var p := parameters.value;
      var format := if "format" in p && p["format"].JsonString? then ToLower(p["format"].text) else "raw";
      if "count" !in p then Ok(Options(1, format))
      else
        match p["count"]
        case JsonNumber(n) =>
          if n.Some? && IsInt32(n.value) then Ok(Options(n.value, format)) else Error(numberError)
        case JsonString(s) =>
          var parsed := TryParseInt32(s);
          Ok(Options(if parsed.Some? then parsed.value else 1, format))
        case JsonOther => Ok(Options(1, format))
  }

  /** The count limited to 1..100. */
  function ClampCount(count: int): (r: int)
    ensures 1 <= r <= 100
    ensures 1 <= count <= 100 ==> r == count
    ensures count < 1 ==> r == 1
    ensures count > 100 ==> r == 100
  {
    if count < 1 then 1 else if count > 100 then 100 else count
  }

  datatype Reply =
    | JsonReply(count: int, timestamp: string, ulids: seq<string>)
    | RawReply(count: int, timestamp: string, text: string)
    | ErrorReply(error: string)

  /** The identifiers for the first n clock readings and random draws. */
  function Ulids(clock: seq<int>, random: seq<seq<byte>>, n: nat): (r: seq<string>)
    requires n <= |clock| && n <= |random|
    ensures |r| == n
  {
    seq(n, i requires 0 <= i < n => Chars(Padded(UlidBytes(clock[i], random[i]))))
  }

  lemma UlidsStep(clock: seq<int>, random: seq<seq<byte>>, n: nat)
    requires n < |clock| && n < |random|
    ensures Ulids(clock, random, n + 1) == Ulids(clock, random, n) + [Chars(Padded(UlidBytes(clock[n], random[n])))]
  {}

  /** What Execute answers for deserialised parameters. */
  function Answer(parameters: Option<map<string, JsonValue>>, numberError: string, timestamp: string,
                  clock: seq<int>, random: seq<seq<byte>>): (r: Reply)
    requires |clock| >= 100 && |random| >= 100
  {
    match ReadOptions(parameters, numberError)
    case Error(m) => ErrorReply(m)
    case Ok(o) =>
      var ulids := Ulids(clock, random, ClampCount(o.count));
      if o.format == "json" then JsonReply(|ulids|, timestamp, ulids)
      else RawReply(|ulids|, timestamp, Join("\n", ulids))
  }

  /**
   * Execute, with JSON deserialisation, the clock (one reading per
   * identifier, and the formatted timestamp) and the random generator (ten
   * bytes per identifier) given. A null input reads as "{}".
   */
  method Execute(input: Option<string>, deserialize: string -> Result<Option<map<string, JsonValue>>>,
                 numberError: string, timestamp: string, clock: seq<int>, random: seq<seq<byte>>)
    returns (r: Reply)
    requires |clock| >= 100 && |random| >= 100
    requires forall i :: 0 <= i < |random| ==> |random[i]| == 10
    ensures var parsed := deserialize(input.GetOr("{}"));
      r == (if parsed.Error? then ErrorReply(parsed.message)
            else Answer(parsed.value, numberError, timestamp, clock, random))
  {
    var json := input.GetOr("{}");
    var parsed := deserialize(json);
    if parsed.Error? {
      return ErrorReply(parsed.message);
    }
    var options := ReadOptions(parsed.value, numberError);
    if options.Error? {
      return ErrorReply(options.message);
    }
    var count := ClampCount(options.value.count);
    var ulids: seq<string> := [];
    for i := 0 to count
      invariant ulids == Ulids(clock, random, i)
    {
      var u := GenerateUlid(clock[i], random[i]);
      UlidsStep(clock, random, i);
      ulids := ulids + [u];
    }
    if options.value.format == "json" {
      r := JsonReply(|ulids|, timestamp, ulids);
    } else {
      r := RawReply(|ulids|, timestamp, Join("\n", ulids));
    }
  }

  /**
   * A successful reply carries between 1 and 100 identifiers, Count is their
   * number, and the raw text splits on line feeds back into them.
   */
  lemma AnswerCount(parameters: Option<map<string, JsonValue>>, numberError: string, timestamp: string,
                    clock: seq<int>, random: seq<seq<byte>>)
    requires |clock| >= 100 && |random| >= 100
    requires forall i :: 0 <= i < |random| ==> |random[i]| == 10
    ensures var r := Answer(parameters, numberError, timestamp, clock, random);
      var options := ReadOptions(parameters, numberError);
      && (r.ErrorReply? <==> options.Error?)
      && (options.Ok? ==>
            var n := ClampCount(options.value.count);
            && (r.JsonReply? <==> options.value.format == "json")
            && (r.JsonReply? ==> r.count == |r.ulids| == n)
            && (r.RawReply? ==> r.count == n && Split(r.text, '\n') == Ulids(clock, random, n)))
  {
    var options := ReadOptions(parameters, numberError);
    if options.Ok? {
      var n := ClampCount(options.value.count);
      var ulids := Ulids(clock, random, n);
      forall k | 0 <= k < n
        ensures '\n' !in ulids[k]
      {
        assert '\n' !in Base32Chars;
      }
      SplitJoin(ulids, '\n');
    }
  }
}
