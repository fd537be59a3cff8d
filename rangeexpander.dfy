/**
 * The IPv4 range expander: two addresses in, a CIDR block said to be the
 * smallest one that holds both, with its first and last addresses and the
 * number of addresses between the two inputs.
 */
module IPv4RangeExpander {
  import opened Wrappers
  import opened Text
  import opened IpAddress

  /** The request body; either address is null when the JSON says so. */
  datatype RangeRequest = RangeRequest(startAddress: Option<string>, endAddress: Option<string>)

  datatype Reply =
    | Message(text: string)
    | Expanded(oldStart: string, oldEnd: string, newStart: string, newEnd: string,
               addressesInRange: bv32, cidr: string)
      /** The prefix loop never ends, so the tool never answers. */
    | NoReply

  const AllOnes: bv32 := 0xFFFF_FFFF

  // ---- the number of trailing one bits ----

  /** The bits of x below bit n are all set. */
  predicate OnesBelow(x: bv32, n: bv8)
    requires n <= 32
  {
    x | (AllOnes << n) == AllOnes
  }

  /** The largest n <= c such that the bits of x below bit n are all set. */
  function OnesUpTo(x: bv32, c: bv8): (n: bv8)
    requires c <= 32
    ensures n <= c
    decreases c
  {
    if OnesBelow(x, c) then c else OnesUpTo(x, c - 1)
  }

  /** The number of one bits below the lowest zero bit of x. */
  function TrailingOnes(x: bv32): (n: bv8)
    ensures n <= 32
  {
    OnesUpTo(x, 32)
  }

  /** The bits below TrailingOnes(x) are set. */
  lemma TrailingOnesRun(x: bv32)
    ensures OnesBelow(x, TrailingOnes(x))
  {
    OnesUpToBelow(x, 32);
  }

  /** Unless every bit is set, the bit at TrailingOnes(x) is clear. */
  lemma TrailingOnesClear(x: bv32, n: bv8)
    requires n == TrailingOnes(x) && n < 32
    ensures x & (1 << n) == 0
  {
    OnesUpToBelow(x, 32);
    OnesUpToNext(x, 32);
    ClearAt(x, n, n + 1);
  }

  lemma {:induction false} OnesUpToBelow(x: bv32, c: bv8)
    requires c <= 32
    ensures OnesBelow(x, OnesUpTo(x, c))
    decreases c
  {
    NoBitsBelowZero(x);
    if !OnesBelow(x, c) {
      OnesUpToBelow(x, c - 1);
    }
  }

  lemma {:induction false} OnesUpToNext(x: bv32, c: bv8)
    requires c <= 32
    ensures OnesUpTo(x, c) < c ==> !OnesBelow(x, OnesUpTo(x, c) + 1)
    decreases c
  {
    NoBitsBelowZero(x);
    if !OnesBelow(x, c) {
      var c' := c - 1;
      OnesUpToNext(x, c');
      if OnesUpTo(x, c') == c' {
        assert c' + 1 == c;
      }
    }
  }

  lemma NoBitsBelowZero(x: bv32)
    ensures OnesBelow(x, 0)
  {}

  /** A run of ones below a is a run of ones below any b <= a. */
  lemma OnesBelowShorter(x: bv32, a: bv8, b: bv8)
    requires b <= a <= 32 && OnesBelow(x, a)
    ensures OnesBelow(x, b)
  {}

  lemma BitInRun(x: bv32, a: bv8, k: bv8)
    requires k < a <= 32 && OnesBelow(x, a)
    ensures x & (1 << k) != 0
  {}

  /** Bit k being set extends a run of ones below k by one. */
  lemma RunStep(x: bv32, k: bv8, k1: bv8)
    requires k < 32 && k1 == k + 1 && OnesBelow(x, k) && x & (1 << k) != 0
    ensures OnesBelow(x, k1)
  {}

  lemma ClearAt(x: bv32, k: bv8, k1: bv8)
    requires k < 32 && k1 == k + 1 && OnesBelow(x, k) && !OnesBelow(x, k1)
    ensures x & (1 << k) == 0
  {}

  /** The lowest clear bit of x is at TrailingOnes(x). */
  lemma LowestClearBit(x: bv32, k: bv8)
    requires k < 32 && OnesBelow(x, k) && x & (1 << k) == 0
    ensures TrailingOnes(x) == k
  {
    var n := TrailingOnes(x);
    OnesUpToBelow(x, 32);
    OnesUpToNext(x, 32);
    if k < n {
      BitInRun(x, n, k);
    } else if n < k {
      OnesBelowShorter(x, k, n + 1);
    }
  }

  /** Only the all-ones value has 32 trailing ones. */
  lemma FewerOnes(x: bv32)
    requires x != AllOnes
    ensures TrailingOnes(x) < 32
  {
    OnesUpToBelow(x, 32);
  }

  // ---- the prefix loop ----

  /**
   * while ((diff & (1U << (32 - cidr))) != 0) cidr--; with the shift count
   * masked to its low five bits as C# does. It stops at the lowest clear bit of
   * diff, which exists unless diff is all ones.
   */
  method PrefixLength(diff: bv32) returns (cidr: bv8)
    requires diff != AllOnes
    ensures 1 <= cidr <= 32 && cidr == 32 - TrailingOnes(diff)
  {
    cidr := 32;
    while diff & (1 << ((32 - cidr) & 31)) != 0
      invariant 1 <= cidr <= 32
      invariant OnesBelow(diff, 32 - cidr)
      decreases cidr
    {
      var k := 32 - cidr;
      assert k & 31 == k;
      RunStep(diff, k, 32 - (cidr - 1));
      cidr := cidr - 1;
    }
    assert (32 - cidr) & 31 == 32 - cidr;
    LowestClearBit(diff, 32 - cidr);
  }

  /** When diff is all ones the loop condition holds for every value of cidr: the loop never ends. */
  lemma NeverEnds(diff: bv32, cidr: bv8)
    requires diff == AllOnes
    ensures diff & (1 << ((32 - cidr) & 31)) != 0
  {}

  // ---- the answer ----

  /** The two values in increasing order: if (start > end) (start, end) = (end, start). */
  function Ordered(a: bv32, b: bv32): (r: (bv32, bv32))
    ensures r.0 <= r.1 && ((r.0 == a && r.1 == b) || (r.0 == b && r.1 == a))
  {
    if a > b then (b, a) else (a, b)
  }

  /** 0xFFFFFFFF << (32 - cidr). */
  function BlockMask(cidr: bv8): bv32
    requires 1 <= cidr <= 32
  {
    AllOnes << (32 - cidr)
  }

  /** The dictionary for an ordered pair and the prefix length the loop found. */
  function Expansion(start: bv32, end: bv32, cidr: bv8): Reply
    requires 1 <= cidr <= 32
  {
    var network := start & BlockMask(cidr);
    var broadcast := network | !BlockMask(cidr);
    Expanded(Net(start), Net(end), Net(network), Net(broadcast), end - start + 1,
             Net(network) + "/" + NatToString(cidr as int))
  }

  /** The answer for two parsed addresses: ordered, then the block the loop finds. */
  function ForValues(first: bv32, second: bv32): Reply
  {
    var pair := Ordered(first, second);
    ForPair(pair.0, pair.1)
  }

  /** The answer for an ordered pair. */
  function ForPair(start: bv32, end: bv32): Reply
  {
    var diff := start ^ end;
    if diff == AllOnes then NoReply
    else
      FewerOnes(diff);
      Expansion(start, end, 32 - TrailingOnes(diff))
  }

  /** What Execute answers, with IPAddress.TryParse and the deserializer given. */
  function Answer(
    input: Option<string>,
    deserialize: string -> Result<Option<RangeRequest>>,
    parseAddress: string -> Option<AddressBytes>): Reply
  {
    if input.None? || IsBlank(input.value) then Message("Invalid Request")
    else
      match deserialize(input.value)
      case Error(e) => Message("Error: " + e)
      case Ok(request) =>
        if request.None? || request.value.startAddress.None? || request.value.endAddress.None? ||
           parseAddress(request.value.startAddress.value).None? ||
           parseAddress(request.value.endAddress.value).None?
        then Message("Invalid input")
        else
          ForValues(ToUInt(parseAddress(request.value.startAddress.value).value),
                    ToUInt(parseAddress(request.value.endAddress.value).value))
  }

  /** Execute, step by step as the tool runs it. */
  method Execute(
    input: Option<string>,
    deserialize: string -> Result<Option<RangeRequest>>,
    parseAddress: string -> Option<AddressBytes>) returns (r: Reply)
    ensures r == Answer(input, deserialize, parseAddress)
  {
    if input.None? || IsBlank(input.value) {
      return Message("Invalid Request");
    }
    var parsed := deserialize(input.value);
    if parsed.Error? {
      return Message("Error: " + parsed.message);
    }
    var request := parsed.value;
    if request.None? || request.value.startAddress.None? || request.value.endAddress.None? {
      return Message("Invalid input");
    }
    var startIP := parseAddress(request.value.startAddress.value);
    var endIP := parseAddress(request.value.endAddress.value);
    if startIP.None? || endIP.None? {
      return Message("Invalid input");
    }
    r := Expand(ToUInt(startIP.value), ToUInt(endIP.value));
  }

  /** The part of Execute after parsing: order the pair, run the loop, build the dictionary. */
  method Expand(first: bv32, second: bv32) returns (r: Reply)
    ensures r == ForValues(first, second)
  {
    var start, end := first, second;
    if start > end {
      start, end := end, start;
    }
    assert (start, end) == Ordered(first, second);
    var diff := start ^ end;
    if diff == AllOnes {
      // The loop in PrefixLength would run forever (NeverEnds).
      return NoReply;
    }
    var cidr := PrefixLength(diff);
    r := Expansion(start, end, cidr);
    ForPairExpands(start, end, cidr);
  }

  lemma ForPairExpands(start: bv32, end: bv32, cidr: bv8)
    requires start ^ end != AllOnes && 1 <= cidr <= 32 && cidr == 32 - TrailingOnes(start ^ end)
    ensures ForPair(start, end) == Expansion(start, end, cidr)
  {}

  // ---- properties of the answer ----

  /** The new start address is at or below the old one, which lies in the block. */
  lemma BlockHoldsStart(start: bv32, cidr: bv8)
    requires 1 <= cidr <= 32
    ensures start & BlockMask(cidr) <= start <= (start & BlockMask(cidr)) | !BlockMask(cidr)
  {}

  /** Both addresses are in the block when the bits in which they differ are a low-order run. */
  lemma BlockHoldsEndForLowRun(start: bv32, end: bv32)
    requires start <= end && start ^ end != AllOnes
    requires (start ^ end) & ((start ^ end) + 1) == 0
    ensures var cidr := 32 - TrailingOnes(start ^ end);
      1 <= cidr <= 32 && end <= (start & BlockMask(cidr)) | !BlockMask(cidr)
  {
    var diff := start ^ end;
    var n := TrailingOnes(diff);
    FewerOnes(diff);
    TrailingOnesRun(diff);
    TrailingOnesClear(diff, n);
    LowRun(start, end, n, 32 - n);
  }

  lemma LowRun(start: bv32, end: bv32, n: bv8, cidr: bv8)
    requires n < 32 && cidr == 32 - n
    requires OnesBelow(start ^ end, n) && (start ^ end) & (1 << n) == 0
    requires (start ^ end) & ((start ^ end) + 1) == 0
    ensures end <= (start & BlockMask(cidr)) | !BlockMask(cidr)
  {
    assert 32 - cidr == n;
  }

  /** 10.0.0.0 to 10.0.0.2: the loop stops at once, and the /32 block it reports misses the end address. */
  lemma BlockMissesEnd()
    ensures var start: bv32 := 0x0A00_0000;
      var end: bv32 := 0x0A00_0002;
      var cidr := 32 - TrailingOnes(start ^ end);
      cidr == 32 && (start & BlockMask(cidr)) | !BlockMask(cidr) < end
  {
    NoBitsBelowZero(2);
    LowestClearBit(2, 0);
  }

  /** 0.0.0.0 to 255.255.255.255 differ in every bit, so the loop never ends. */
  lemma WholeSpaceHangs()
    ensures (0 as bv32) ^ 0xFFFF_FFFF == AllOnes
  {}

  /** The count end - start + 1 wraps to zero only in the case where no answer comes. */
  lemma CountDoesNotWrap(start: bv32, end: bv32)
    requires start <= end && start ^ end != AllOnes
    ensures end - start + 1 != 0
  {}

  // ---- the smallest block that holds both addresses ----

  /** The bits of x from bit k up are all clear. */
  predicate ZeroFrom(x: bv32, k: bv8)
    requires k <= 32
  {
    x & (AllOnes << k) == 0
  }

  /** The smallest n <= k from which the bits of x are all clear, given that they are from k. */
  function LowestZeroFrom(x: bv32, k: bv8): (n: bv8)
    requires k <= 32
    ensures n <= k
    decreases k
  {
    if k == 0 || !ZeroFrom(x, k - 1) then k else LowestZeroFrom(x, k - 1)
  }

  /** The length of the common prefix of the two addresses. */
  function SmallestCidr(start: bv32, end: bv32): (cidr: bv8)
    ensures cidr <= 32
  {
    32 - LowestZeroFrom(start ^ end, 32)
  }

  /** 0xFFFFFFFF << (32 - cidr) for every cidr from 0 to 32, without a masked shift count. */
  function PrefixMask(cidr: bv8): bv32
    requires cidr <= 32
  {
    AllOnes << (32 - cidr)
  }

  lemma AllZeroFrom32(x: bv32)
    ensures ZeroFrom(x, 32)
  {}

  lemma {:induction false} LowestZero(x: bv32, k: bv8)
    requires k <= 32 && ZeroFrom(x, k)
    ensures ZeroFrom(x, LowestZeroFrom(x, k))
    decreases k
  {
    if k != 0 && ZeroFrom(x, k - 1) {
      LowestZero(x, k - 1);
    }
  }

  lemma {:induction false} LowestZeroNext(x: bv32, k: bv8)
    requires k <= 32
    ensures LowestZeroFrom(x, k) > 0 ==> !ZeroFrom(x, LowestZeroFrom(x, k) - 1)
    decreases k
  {
    if k != 0 && ZeroFrom(x, k - 1) {
      LowestZeroNext(x, k - 1);
    }
  }

  /** The block of the common prefix holds both addresses. */
  lemma SmallestCidrContains(start: bv32, end: bv32)
    requires start <= end
    ensures var cidr := SmallestCidr(start, end);
      start & PrefixMask(cidr) <= start && end <= (start & PrefixMask(cidr)) | !PrefixMask(cidr)
  {
    var x := start ^ end;
    var k := LowestZeroFrom(x, 32);
    AllZeroFrom32(x);
    LowestZero(x, 32);
    assert 32 - (32 - k) == k;
    Contains(start, end, k);
  }

  lemma Contains(start: bv32, end: bv32, k: bv8)
    requires k <= 32 && start <= end && ZeroFrom(start ^ end, k)
    ensures start & (AllOnes << k) <= start && end <= (start & (AllOnes << k)) | !(AllOnes << k)
  {}

  /** No longer prefix holds both: the two addresses fall in different blocks of length cidr + 1. */
  lemma SmallestCidrMinimal(start: bv32, end: bv32)
    requires start != end
    ensures var cidr := SmallestCidr(start, end);
      cidr < 32 && start & PrefixMask(cidr + 1) != end & PrefixMask(cidr + 1)
  {
    var x := start ^ end;
    var k := LowestZeroFrom(x, 32);
    AllZeroFrom32(x);
    LowestZero(x, 32);
    LowestZeroNext(x, 32);
    NonZero(x, k);
    assert 32 - (32 - k + 1) == k - 1;
    Apart(start, end, k - 1);
  }

  lemma NonZero(x: bv32, k: bv8)
    requires k <= 32 && x != 0 && ZeroFrom(x, k)
    ensures k > 0
  {
    assert AllOnes << 0 == AllOnes;
  }

  lemma Apart(start: bv32, end: bv32, s: bv8)
    requires s < 32 && !ZeroFrom(start ^ end, s)
    ensures start & (AllOnes << s) != end & (AllOnes << s)
  {
    XorMask(start, end, AllOnes << s);
  }

  lemma XorMask(a: bv32, b: bv32, m: bv32)
    ensures (a & m) ^ (b & m) == (a ^ b) & m
  {}
}
