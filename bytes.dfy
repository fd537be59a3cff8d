/** Bytes and the big-endian reading of a byte string. */
module Bytes {

  /** A C# byte. */
  type byte = b: int | 0 <= b < 256

  function Pow2(k: nat): (r: nat)
    ensures r >= 1
  {
    if k == 0 then 1 else 2 * Pow2(k - 1)
  }

  /** The value of a byte string read most significant byte first. */
  function BigEndian(b: seq<byte>): (v: nat)
    ensures v < Pow2(8 * |b|)
  {
    if b == [] then 0
    else
      var v := BigEndian(b[..|b| - 1]) * 256 + b[|b| - 1];
      Pow2Add(8 * (|b| - 1), 8);
      v
  }

  lemma {:induction false} Pow2Add(a: nat, b: nat)
    ensures Pow2(a + b) == Pow2(a) * Pow2(b)
    decreases a
  {
    if a > 0 { Pow2Add(a - 1, b); }
  }

  lemma Pow2Split(a: nat, b: nat, n: nat)
    requires a + b == n
    ensures Pow2(n) == Pow2(a) * Pow2(b)
  {
    Pow2Add(a, b);
  }

  /** The powers of two the packers use. */
  lemma Pow2Values()
    ensures Pow2(5) == 32 && Pow2(8) == 256 && Pow2(16) == 0x1_0000
    ensures Pow2(27) == 0x800_0000 && Pow2(32) == 0x1_0000_0000
  {
    assert Pow2(8) == 256;
    Pow2Add(8, 8);
    Pow2Add(16, 8);
    Pow2Add(24, 3);
    Pow2Add(24, 8);
  }
}
