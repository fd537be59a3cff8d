/**
 * The 32-bit view of an IPv4 address that the networking tools share: the
 * bytes an address parses to, the unsigned value they are read into, the byte
 * swap that turns such a value back into an address, and the dotted-decimal
 * rendering of System.Net.IPAddress.
 */
module IpAddress {
  import opened Text

  /** IPAddress.GetAddressBytes(): four bytes for IPv4, sixteen for IPv6. */
  type AddressBytes = b: seq<bv8> | |b| == 4 || |b| == 16 witness [0, 0, 0, 0]

  /** Byte k of a value, counting from the least significant one. */
  function Octet(v: bv32, k: nat): bv8
    requires k < 4
  {
    if k == 0 then (v & 0xFF) as bv8
    else if k == 1 then ((v >> 8) & 0xFF) as bv8
    else if k == 2 then ((v >> 16) & 0xFF) as bv8
    else ((v >> 24) & 0xFF) as bv8
  }

  /** Four bytes read most significant first. */
  function Word(b0: bv8, b1: bv8, b2: bv8, b3: bv8): (w: bv32)
    ensures Octet(w, 3) == b0 && Octet(w, 2) == b1 && Octet(w, 1) == b2 && Octet(w, 0) == b3
  {
    (b0 as bv32 << 24) | (b1 as bv32 << 16) | (b2 as bv32 << 8) | b3 as bv32
  }

  /** Two values with the same four octets are equal. */
  lemma OctetsDetermine(v: bv32, w: bv32)
    requires Octet(v, 0) == Octet(w, 0) && Octet(v, 1) == Octet(w, 1)
    requires Octet(v, 2) == Octet(w, 2) && Octet(v, 3) == Octet(w, 3)
    ensures v == w
  {}

  /**
   * BitConverter.ToUInt32(bytes.Reverse().ToArray(), 0) on a little-endian
   * machine: the first four bytes of the reversed array, least significant
   * first, which are the last four bytes of the address, most significant first.
   */
  function ToUInt(address: AddressBytes): (v: bv32)
    ensures Octet(v, 3) == address[|address| - 4] && Octet(v, 2) == address[|address| - 3]
    ensures Octet(v, 1) == address[|address| - 2] && Octet(v, 0) == address[|address| - 1]
  {
    var n := |address|;
    Word(address[n - 4], address[n - 3], address[n - 2], address[n - 1])
  }

  /** The byte swap the tools apply before handing a value to new IPAddress(long). */
  function Swap(v: bv32): (r: bv32)
    ensures Octet(r, 0) == Octet(v, 3) && Octet(r, 1) == Octet(v, 2)
    ensures Octet(r, 2) == Octet(v, 1) && Octet(r, 3) == Octet(v, 0)
  {
    (v >> 24) | ((v >> 8) & 0xFF00) | ((v << 8) & 0xFF_0000) | (v << 24)
  }

  /** Swapping twice gives the value back. */
  lemma SwapInvolution(v: bv32)
    ensures Swap(Swap(v)) == v
  {
    OctetsDetermine(Swap(Swap(v)), v);
  }

  function OctetString(o: bv8): string
  {
    NatToString(o as int)
  }

  /** Four octets in dotted-decimal notation. */
  function DottedQuad(a: bv8, b: bv8, c: bv8, d: bv8): string
  {
    OctetString(a) + "." + OctetString(b) + "." + OctetString(c) + "." + OctetString(d)
  }

  /**
   * new IPAddress(v).ToString(): IPAddress keeps the long in memory order, so
   * the least significant byte is printed first.
   */
  function AddressString(v: bv32): string
  {
    DottedQuad(Octet(v, 0), Octet(v, 1), Octet(v, 2), Octet(v, 3))
  }

  /** The address whose value, read most significant octet first, is v. */
  function Dotted(v: bv32): string
  {
    DottedQuad(Octet(v, 3), Octet(v, 2), Octet(v, 1), Octet(v, 0))
  }

  /** Printing the swapped value shows the value's own octets, most significant first. */
  lemma SwapString(v: bv32)
    ensures AddressString(Swap(v)) == Dotted(v)
  {}

  /**
   * Net(v).ToString() in the subnet calculator, ToIP(v).ToString() in the range
   * expander: the value swapped, then printed.
   */
  function Net(v: bv32): (r: string)
    ensures r == Dotted(v)
  {
    SwapString(v);
    AddressString(Swap(v))
  }

  /** Swapping the value read from an address prints the address's last four bytes in order. */
  lemma RoundTrip(address: AddressBytes)
    ensures AddressString(Swap(ToUInt(address))) ==
      DottedQuad(address[|address| - 4], address[|address| - 3], address[|address| - 2], address[|address| - 1])
  {
    SwapString(ToUInt(address));
  }
}
