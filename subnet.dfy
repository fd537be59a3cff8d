/**
 * The IPv4 subnet calculator: "address/prefix" in, the mask, network,
 * broadcast, first and last addresses, size and class of the block out, all
 * computed on 32-bit unsigned values.
 */
module IPv4SubnetCalculator {
  import opened Wrappers
  import opened Text
  import opened IpAddress
  import Radix
  import Bytes

  /** The request body; AddressWithMask is null when the JSON says so. */
  datatype SubnetRequest = SubnetRequest(addressWithMask: Option<string>)

  /** The dictionary the tool returns, one field per key. */
  datatype Subnet = Subnet(
    netmask: string,
    networkAddress: string,
    networkMask: string,
    networkMaskBinary: string,
    cidrNotation: string,
    wildcardMask: string,
    networkSize: bv32,
    firstAddress: string,
    lastAddress: string,
    broadcastAddress: string,
    ipClass: string)

  datatype Reply = Message(text: string) | Details(subnet: Subnet)

  /** C# uses only the low five bits of a shift count: (32 - cidr) & 0x1F. */
  function ShiftCount(cidr: int): (k: bv8)
    ensures k < 32
  {
    ((32 - cidr) % 32) as bv8
  }

  /** cidr == 0 ? 0 : 0xFFFFFFFF << (32 - cidr); cidr is never range-checked. */
  function Mask(cidr: int): bv32
  {
    if cidr == 0 then 0 else 0xFFFF_FFFF << ShiftCount(cidr)
  }

  /** A prefix length from 1 to 32 shifts by exactly 32 - cidr. */
  lemma MaskInRange(cidr: int)
    requires 1 <= cidr <= 32
    ensures Mask(cidr) == 0xFFFF_FFFF << (32 - cidr) as bv8
  {
    assert (32 - cidr) % 32 == 32 - cidr;
  }

  /** Prefix lengths outside 0..32 are not rejected: they wrap around modulo 32. */
  lemma MaskUnchecked(cidr: int)
    requires cidr != 0 && cidr + 32 != 0
    ensures Mask(cidr + 32) == Mask(cidr)
  {
    assert (32 - (cidr + 32)) % 32 == (32 - cidr) % 32;
  }

  /** "/33" is accepted and yields the mask of "/1". */
  lemma MaskOfThirtyThree()
    ensures Mask(33) == Mask(1) == 0x8000_0000
  {
    MaskUnchecked(1);
  }

  function Network(ip: bv32, mask: bv32): bv32
  {
    ip & mask
  }

  function Broadcast(network: bv32, mask: bv32): bv32
  {
    network | !mask
  }

  /** The address lies between the network and broadcast addresses of its block. */
  lemma NetworkBounds(ip: bv32, mask: bv32)
    ensures Network(ip, mask) <= ip <= Broadcast(Network(ip, mask), mask)
  {}

  /** Network and broadcast addresses share the block's prefix with the address. */
  lemma SameBlock(ip: bv32, mask: bv32)
    ensures Network(Broadcast(Network(ip, mask), mask), mask) == Network(ip, mask)
    ensures Network(Network(ip, mask), mask) == Network(ip, mask)
  {}

  /** broadcast - network + 1 is the block size 2^(32 - cidr) for a prefix of 1 to 32 bits. */
  lemma NetworkSizeOfPrefix(ip: bv32, k: bv8)
    requires k < 32
    ensures var mask := 0xFFFF_FFFF << k;
      Broadcast(Network(ip, mask), mask) - Network(ip, mask) + 1 == 1 << k
  {}

  /** With cidr 0 the block is the whole space, and its size wraps to 0. */
  lemma NetworkSizeOfZero(ip: bv32)
    ensures Broadcast(Network(ip, Mask(0)), Mask(0)) - Network(ip, Mask(0)) + 1 == 0
  {}

  /** network + 1 and broadcast - 1 bracket the host addresses of a block of at least four addresses. */
  lemma HostRange(ip: bv32, k: bv8)
    requires 2 <= k < 32
    ensures var mask := 0xFFFF_FFFF << k;
      var network := Network(ip, mask);
      var broadcast := Broadcast(network, mask);
      network < network + 1 <= broadcast - 1 < broadcast
  {}

  /** For /31 the first and last addresses are the broadcast and network addresses. */
  lemma HostRangeOf31(ip: bv32)
    ensures var mask: bv32 := 0xFFFF_FFFF << 1;
      var network := Network(ip, mask);
      var broadcast := Broadcast(network, mask);
      network + 1 == broadcast && broadcast - 1 == network
  {}

  /** For /32 the block is the address alone, and the first and last addresses fall outside it. */
  lemma HostRangeOf32(ip: bv32)
    ensures var mask: bv32 := 0xFFFF_FFFF << 0;
      var network := Network(ip, mask);
      var broadcast := Broadcast(network, mask);
      network == broadcast == ip && network + 1 == ip + 1 && broadcast - 1 == ip - 1
  {}

  /** The classful network of the first address byte. */
  function GetClass(firstOctet: bv8): (c: string)
    ensures c in ["A", "B", "C", "D", "E"]
  {
    if firstOctet < 128 then "A"
    else if firstOctet < 192 then "B"
    else if firstOctet < 224 then "C"
    else if firstOctet < 240 then "D"
    else "E"
  }

  /** The classes are the ranges 0-127, 128-191, 192-223, 224-239 and 240-255. */
  lemma ClassRanges(o: bv8)
    ensures GetClass(o) == "A" <==> o < 128
    ensures GetClass(o) == "B" <==> 128 <= o < 192
    ensures GetClass(o) == "C" <==> 192 <= o < 224
    ensures GetClass(o) == "D" <==> 224 <= o < 240
    ensures GetClass(o) == "E" <==> 240 <= o
  {}

  /** Convert.ToString(mask, 2).PadLeft(32, '0') with dots inserted at 8, 17 and 26. */
  function BinaryMask(mask: bv32): string
  {
    var bits := PadLeft(Radix.Digits(mask as int, 2), 32, '0');
    Insert(Insert(Insert(bits, 8, "."), 17, "."), 26, ".")
  }

  /** The binary mask is four dot-separated groups of eight bits whose value is the mask. */
  lemma BinaryMaskShape(mask: bv32)
    ensures var r := BinaryMask(mask);
      |r| == 35 && r[8] == '.' && r[17] == '.' && r[26] == '.' &&
      var bits := r[..8] + r[9..17] + r[18..26] + r[27..];
      |bits| == 32 && Radix.AllDigitsIn(bits, 2) && Radix.ValueIn(bits, 2) == mask as int
  {
    MaskBits(mask);
    DotsShape(PadLeft(Radix.Digits(mask as int, 2), 32, '0'));
  }

  /** Convert.ToString(mask, 2).PadLeft(32, '0') is 32 bits whose value is the mask. */
  lemma MaskBits(mask: bv32)
    ensures var bits := PadLeft(Radix.Digits(mask as int, 2), 32, '0');
      |bits| == 32 && Radix.AllDigitsIn(bits, 2) && Radix.ValueIn(bits, 2) == mask as int
  {
    PaddedBits(mask as int);
  }

  /** A value below 2^32 in binary, padded to 32 digits. */
  lemma PaddedBits(n: nat)
    requires n < 0x1_0000_0000
    ensures var bits := PadLeft(Radix.Digits(n, 2), 32, '0');
      |bits| == 32 && Radix.AllDigitsIn(bits, 2) && Radix.ValueIn(bits, 2) == n
  {
    var digits := Radix.Digits(n, 2);
    DigitsOf32Bits(n);
    Radix.DigitsValue(n, 2);
    Radix.LeadingZeros(32 - |digits|, digits, 2);
  }

  lemma DigitsOf32Bits(n: nat)
    requires n < 0x1_0000_0000
    ensures |Radix.Digits(n, 2)| <= 32
  {
    Bytes.Pow2Values();
    Radix.BinaryLength(n, 32);
  }

  /** Inserting the three dots keeps the 32 bits in order. */
  lemma DotsShape(bits: string)
    requires |bits| == 32
    ensures var r := Insert(Insert(Insert(bits, 8, "."), 17, "."), 26, ".");
      |r| == 35 && r[8] == '.' && r[17] == '.' && r[26] == '.' &&
      r[..8] + r[9..17] + r[18..26] + r[27..] == bits
  {
    var a := Insert(bits, 8, ".");
    var b := Insert(a, 17, ".");
    var r := Insert(b, 26, ".");
    assert a[..8] == bits[..8] && a[9..] == bits[8..];
    assert b[..17] == a[..17] && b[18..] == a[17..];
    assert r[..26] == b[..26] && r[27..] == b[26..];
    assert r[..8] == bits[..8] by { assert r[..8] == b[..26][..8] == b[..17][..8] == a[..17][..8]; }
    assert r[9..17] == bits[8..16] by { assert r[9..17] == b[..26][9..17] == b[..17][9..17] == a[9..17] == a[9..][..8]; }
    assert r[18..26] == bits[16..24] by { assert r[18..26] == b[..26][18..26] == b[18..][..8] == a[17..][..8] == a[9..][8..16]; }
    assert r[27..] == bits[24..] by { assert r[27..] == b[26..] == b[18..][8..] == a[17..][8..] == a[9..][16..]; }
    assert bits == bits[..8] + bits[8..16] + bits[16..24] + bits[24..];
  }

  /**
   * The dictionary for an address and a prefix length. Every address is printed
   * through Net, so it reads most significant octet first (IpAddress.Net).
   */
  function Calculate(text: string, address: AddressBytes, cidr: int): Subnet
  {
    var ip := ToUInt(address);
    var mask := Mask(cidr);
    var network := Network(ip, mask);
    var broadcast := Broadcast(network, mask);
    var first := network + 1;
    var last := broadcast - 1;
    var wildcard := !mask;
    Subnet(
      text,
      Net(network),
      Net(mask),
      BinaryMask(mask),
      "/" + IntToString(cidr),
      Net(wildcard),
      broadcast - network + 1,
      Net(first),
      Net(last),
      Net(broadcast),
      GetClass(address[0]))
  }

  /**
   * Execute: the JSON body, the deserializer and IPAddress.TryParse are given;
   * an exception from the deserializer becomes "Error: " and its message.
   */
  function Execute(
    input: Option<string>,
    deserialize: string -> Result<Option<SubnetRequest>>,
    parseAddress: string -> Option<AddressBytes>): (r: Reply)
    ensures (input.None? || IsBlank(input.value)) ==> r == Message("Invalid Request")
    ensures input.Some? && !IsBlank(input.value) && deserialize(input.value).Error? ==>
      r == Message("Error: " + deserialize(input.value).message)
    ensures r.Details? <==>
      input.Some? && !IsBlank(input.value) && deserialize(input.value).Ok? &&
      var request := deserialize(input.value).value;
      request.Some? && request.value.addressWithMask.Some? &&
      var parts := Split(request.value.addressWithMask.value, '/');
      |parts| == 2 && parseAddress(parts[0]).Some? && TryParseInt32(parts[1]).Some?
    ensures r.Details? ==>
      var text := deserialize(input.value).value.value.addressWithMask.value;
      var parts := Split(text, '/');
      r.subnet == Calculate(text, parseAddress(parts[0]).value, TryParseInt32(parts[1]).value)
  {
    if input.None? || IsBlank(input.value) then Message("Invalid Request")
    else
      match deserialize(input.value)
      case Error(e) => Message("Error: " + e)
      case Ok(request) =>
        if request.None? || request.value.addressWithMask.None? || request.value.addressWithMask.value == "" then
          Message("Invalid input")
        else
          var text := request.value.addressWithMask.value;
          var parts := Split(text, '/');
          if |parts| != 2 then Message("Invalid CIDR format")
          else
            match (parseAddress(parts[0]), TryParseInt32(parts[1]))
            case (Some(ip), Some(cidr)) => Details(Calculate(text, ip, cidr))
            case _ => Message("Invalid CIDR format")
  }

  /** Only "address/number" with a parsable address and 32-bit number is accepted. */
  lemma InvalidFormat(text: string, parseAddress: string -> Option<AddressBytes>)
    requires text != ""
    ensures var parts := Split(text, '/');
      var r := Execute(Some("{}"), _ => Ok(Some(SubnetRequest(Some(text)))), parseAddress);
      r == Message("Invalid CIDR format") <==>
        |parts| != 2 || parseAddress(parts[0]).None? || TryParseInt32(parts[1]).None?
  {
    assert !IsBlank("{}") by { assert !IsWhiteSpace("{}"[0]); }
  }
}
