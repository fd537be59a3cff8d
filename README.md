# SD_ITTools in Dafny

SD_ITTools is a web collection of small IT tools: converters, generators and calculators.
An ASP.NET host runs each tool as a plugin that implements `ITool`. The host loads tool
assemblies at run time and keeps a database of tools, users and favourites. Users may be
premium, administrators switch tools and users on and off, and a middleware keeps premium
tools from users who are not premium.

This project models the tools' computing cores and the host's plugin and administration
logic, and proves properties about them. Each tool's module follows that tool's source file,
and each host module follows one folder of the host. A few modules belong to no single
file: `Text`, `Bytes`, `Base64`, `Utf8`, `Radix`, `DotNetConvert`, `IpAddress`, `HexColor`
and `Wrappers` hold what several tools share, and `Data` and `Models` hold the host's
records and tables.

The tools:

- `RomanConverter`: greedy encoding, the decoder that tries a two-letter symbol first, and the validation pattern.
- `Ulid`: the Base32 bit packer, the byte layout of a ULID, and the clamping of the count.
- `IPv4SubnetCalculator`, `IPv4RangeExpander`, `IPv4AddressConverter`: IPv4 arithmetic on 32-bit words.
- `IpAddress`: the address text form, shared by the three IPv4 tools.
- `BasicAuthGenerator`: the HTTP Basic header of section 2 of RFC 7617.
- `Base64`, `Utf8`: Base64 as in section 4 of RFC 4648, and the UTF-8 bytes of a string.
- `WifiQRCodeGenerator`, `QRCodeGenerator`, `HexColor`: the payload text, escaping, the error-correction level and colour parsing.
- `TextToNatoAlphabet`, `SlugifyString`, `IntegerBaseConverter`: text tools.
- `Radix`, `DotNetConvert`: digit strings in a base, and the .NET `Convert` calls used for bases.
- `TokenGenerator`, `SvgPlaceholder`: the token character pool and the SVG template.
- `MathEvaluator`: the top-level operator search and the split it drives.
- `StringObfuscator`, `NumeronymGenerator`: two client-side string functions.

The host:

- `Helpers`: the plugin loader's registry.
- `Middlewares`: the premium-access decision.
- `Repositories`: the tool, favourite and user tables, held in memory.
- `Services`: tool filtering and validation, and the plugin upload chain.
- `Controllers`: the administrator actions.
- `Data`, `Models`: the database context and the records.

Code that changes state step by step is imperative Dafny. Examples are the Roman loops, the
Base32 packer, the NATO builder, the range expander's loop, the token pool, the plugin
registry, the repositories and the admin handlers. Each such method is proved against a
specification function, and the properties are proved as lemmas about that function. Code
that is pure expressions becomes functions and lemmas.

Some behaviour comes from outside these files: JSON deserialisation, `IPAddress.TryParse`,
`Utils.Slugify`, reflection over an assembly, the clock, random numbers and number
formatting. Each of these is a parameter of the operation that uses it. Operations that can
fail return a `Result` or an error reply, as the code does. The model does not put a
precondition in place of an error path.

Where the code and its documentation disagree, the model follows the code. Two examples:

- The numeronym tool's description claims "international → i18n", but the code gives "i11l".
- `ULIDGenerator.ToBase32String` pads the last group with zeros at the end, not at the front as the ULID format does.

The model keeps both behaviours as written.

## Model

| member | source | states |
|---|---|---|
| Base64.Encode | BasicAuthGenerator/BasicAuthGenerator.cs:45 | output length is 4·ceil(n/3) and every character is in the RFC 4648 alphabet or '=' |
| Base64.DecodeEncode | BasicAuthGenerator/BasicAuthGenerator.cs:45 | decoding the Base64 text gives back the bytes (round trip) |
| Base64.EncodeInjective | BasicAuthGenerator/BasicAuthGenerator.cs:45 | different byte strings never share an encoding |
| Utf8.EncodeAscii | BasicAuthGenerator/BasicAuthGenerator.cs:44 | on ASCII text the UTF-8 bytes are the character codes |
| BasicAuthGenerator.GenerateBasicAuth | BasicAuthGenerator/BasicAuthGenerator.cs:41-47 | result starts with "Basic ", the rest decodes to UTF-8 of user + ":" + pass, length 6 + 4·ceil(n/3) |
| BasicAuthGenerator.ExampleAB | BasicAuthGenerator/BasicAuthGenerator.cs:43-46 | ("a","b") gives "Basic YTpi" |
| BasicAuthGenerator.CredentialsRecoverable | BasicAuthGenerator/BasicAuthGenerator.cs:41-47 | decoding and splitting at the first ':' gives back user and password (ASCII, colon-free user) |
| BasicAuthGenerator.Execute | BasicAuthGenerator/BasicAuthGenerator.cs:20-39 | blank input and empty/null username are errors; null password is ""; deserialise exception becomes its message |
| DotNetConvert.ToInt32 | IntegerBaseConverter/IntegerBaseConverter.cs:52 | Convert.ToInt32 accepts only bases 2, 8, 10, 16; result is a 32-bit integer or a Format/Overflow/Argument exception |
| DotNetConvert.ToStringIn | IntegerBaseConverter/IntegerBaseConverter.cs:60-69 | Convert.ToString throws exactly for bases other than 2, 8, 10, 16 |
| DotNetConvert.RoundTrip | IntegerBaseConverter/IntegerBaseConverter.cs:93 | a 32-bit value written in a base (upper-cased) reads back as itself |
| DotNetConvert.FormatExample | IntegerBaseConverter/IntegerBaseConverter.cs:99-101 | a digit outside the base is a FormatException |
| DotNetConvert.BaseExample | IntegerBaseConverter/IntegerBaseConverter.cs:107-110 | a base outside 2, 8, 10, 16 throws ArgumentException |
| Radix.DigitsValue | IntegerBaseConverter/IntegerBaseConverter.cs:60-63 | reading back the digits Convert.ToString writes gives the number |
| IntegerBaseConverter.Execute | IntegerBaseConverter/IntegerBaseConverter.cs:35-111 | non-request input, empty input, source base outside 2..64, caught exceptions and single/all-bases replies, each with its message |
| IntegerBaseConverter.ConvertToAll | IntegerBaseConverter/IntegerBaseConverter.cs:57-84 | binary, octal, decimal, upper hex and base64-of-decimal always set; custom only for ToBase in 2..64 (and a library base) |
| IntegerBaseConverter.ConvertToOne | IntegerBaseConverter/IntegerBaseConverter.cs:87-95 | target base outside 2..64 is an error; otherwise the upper-cased Convert.ToString or the library's message |
| IpAddress.ToUInt | IPv4SubnetCalculator/IPv4SubnetCalculator.cs:33 | the reversed address bytes read as a little-endian uint put the first address byte in the top octet |
| IpAddress.SwapInvolution | IPv4SubnetCalculator/IPv4SubnetCalculator.cs:33-41 | the byte swap inside Net undoes itself |
| IpAddress.Net | IPv4SubnetCalculator/IPv4SubnetCalculator.cs:41 | Net(v).ToString() prints v's octets most significant first |
| IpAddress.RoundTrip | IPv4SubnetCalculator/IPv4SubnetCalculator.cs:33-41 | swapping the value read from an address prints that address back |
| IPv4SubnetCalculator.ShiftCount | IPv4SubnetCalculator/IPv4SubnetCalculator.cs:34 | the shift count C# uses is below 32 (low five bits of 32 − cidr) |
| IPv4SubnetCalculator.MaskInRange | IPv4SubnetCalculator/IPv4SubnetCalculator.cs:34 | for cidr 1..32 the mask is 0xFFFFFFFF << (32 − cidr) |
| IPv4SubnetCalculator.MaskUnchecked | IPv4SubnetCalculator/IPv4SubnetCalculator.cs:30-34 | cidr is not range-checked: cidr and cidr + 32 give the same mask |
| IPv4SubnetCalculator.MaskOfThirtyThree | IPv4SubnetCalculator/IPv4SubnetCalculator.cs:34 | "/33" is accepted and gives the mask of "/1" |
| IPv4SubnetCalculator.NetworkBounds | IPv4SubnetCalculator/IPv4SubnetCalculator.cs:35-36 | network ≤ ip ≤ broadcast |
| IPv4SubnetCalculator.SameBlock | IPv4SubnetCalculator/IPv4SubnetCalculator.cs:35-36 | network and broadcast have the address's prefix |
| IPv4SubnetCalculator.NetworkSizeOfPrefix | IPv4SubnetCalculator/IPv4SubnetCalculator.cs:56 | broadcast − network + 1 is 2^(32 − cidr) for cidr 1..32 |
| IPv4SubnetCalculator.NetworkSizeOfZero | IPv4SubnetCalculator/IPv4SubnetCalculator.cs:34-56 | for /0 the uint size wraps to 0 |
| IPv4SubnetCalculator.HostRange | IPv4SubnetCalculator/IPv4SubnetCalculator.cs:37-38 | network < first ≤ last < broadcast for prefixes up to /30 |
| IPv4SubnetCalculator.HostRangeOf31 | IPv4SubnetCalculator/IPv4SubnetCalculator.cs:37-38 | for /31, first is the broadcast and last the network |
| IPv4SubnetCalculator.HostRangeOf32 | IPv4SubnetCalculator/IPv4SubnetCalculator.cs:37-38 | for /32, first and last wrap outside the one-address block |
| IPv4SubnetCalculator.GetClass | IPv4SubnetCalculator/IPv4SubnetCalculator.cs:42-46 | result is one of A..E |
| IPv4SubnetCalculator.ClassRanges | IPv4SubnetCalculator/IPv4SubnetCalculator.cs:42-46 | A < 128, B < 192, C < 224, D < 240, otherwise E, each as an if-and-only-if |
| IPv4SubnetCalculator.BinaryMaskShape | IPv4SubnetCalculator/IPv4SubnetCalculator.cs:53 | 35 chars, dots at 8, 17, 26, and the 32 bits read back as the mask |
| IPv4SubnetCalculator.Execute | IPv4SubnetCalculator/IPv4SubnetCalculator.cs:19-69 | blank input, deserialise errors and the accepted addr/int shape, each with its reply; details are the computed block |
| IPv4SubnetCalculator.InvalidFormat | IPv4SubnetCalculator/IPv4SubnetCalculator.cs:29-31 | "Invalid CIDR format" exactly when the text is not address/int |
| IPv4RangeExpander.Ordered | IPv4RangeExpander/IPv4RangeExpander.cs:39 | after the swap start ≤ end, and the pair is the inputs in some order |
| IPv4RangeExpander.PrefixLength | IPv4RangeExpander/IPv4RangeExpander.cs:43-45 | the loop (with C#'s masked shift count) stops with cidr = 32 − (number of trailing one bits of start^end), at the lowest clear bit |
| IPv4RangeExpander.LowestClearBit | IPv4RangeExpander/IPv4RangeExpander.cs:44 | a clear bit with all lower bits set is where the trailing ones end |
| IPv4RangeExpander.NeverEnds | IPv4RangeExpander/IPv4RangeExpander.cs:44 | when start^end is all ones the loop condition holds for every cidr |
| IPv4RangeExpander.WholeSpaceHangs | IPv4RangeExpander/IPv4RangeExpander.cs:42-45 | 0.0.0.0 to 255.255.255.255 is such an input |
| IPv4RangeExpander.Execute | IPv4RangeExpander/IPv4RangeExpander.cs:19-66 | blank input, deserialise errors and unparsable addresses each give their message; otherwise the ordered pair's expansion |
| IPv4RangeExpander.Expand | IPv4RangeExpander/IPv4RangeExpander.cs:37-58 | swap, loop, network/broadcast and count, or no reply when the loop cannot end |
| IPv4RangeExpander.BlockHoldsStart | IPv4RangeExpander/IPv4RangeExpander.cs:47-48 | network = start & mask ≤ start ≤ network \| ~mask |
| IPv4RangeExpander.BlockHoldsEndForLowRun | IPv4RangeExpander/IPv4RangeExpander.cs:43-48 | the block holds end when the differing bits form a low-order run |
| IPv4RangeExpander.BlockMissesEnd | IPv4RangeExpander/IPv4RangeExpander.cs:43-48 | 10.0.0.0..10.0.0.2 gives /32, whose block misses the end address |
| IPv4RangeExpander.CountDoesNotWrap | IPv4RangeExpander/IPv4RangeExpander.cs:56 | end − start + 1 wraps to 0 only where no reply comes |
| IPv4RangeExpander.SmallestCidrContains | IPv4RangeExpander/IPv4RangeExpander.cs:16 | the common-prefix block holds both addresses |
| IPv4RangeExpander.SmallestCidrMinimal | IPv4RangeExpander/IPv4RangeExpander.cs:16 | no longer prefix holds both addresses |
| IPv4AddressConverter.Execute | IPv4AddressConverter/IPv4AddressConverter.cs:18-55 | blank input, deserialise errors, blank or unparsable address each give their message; conversion exactly for 4-byte addresses |
| IPv4AddressConverter.OnlyIPv4 | IPv4AddressConverter/IPv4AddressConverter.cs:30-31 | a 16-byte address is refused with "Only IPv4 addresses are supported" |
| IPv4AddressConverter.DecimalIsBigEndian | IPv4AddressConverter/IPv4AddressConverter.cs:33 | the decimal value is the big-endian value of the 4 bytes |
| IPv4AddressConverter.DecimalExample | IPv4AddressConverter/IPv4AddressConverter.cs:33 | 192.168.1.1 gives 3232235777 |
| IPv4AddressConverter.HexString | IPv4AddressConverter/IPv4AddressConverter.cs:34 | two characters per byte, each pair the byte's "X2" digits, in order |
| IPv4AddressConverter.HexShape | IPv4AddressConverter/IPv4AddressConverter.cs:34 | 8 upper-case hex digits, each pair worth its byte |
| IPv4AddressConverter.BinaryShape | IPv4AddressConverter/IPv4AddressConverter.cs:35 | 32 binary digits, each group of 8 worth its byte |
| IPv4AddressConverter.Hex2Value | IPv4AddressConverter/IPv4AddressConverter.cs:34-38 | "X2"/"x2" give two digits of the requested case worth the byte |
| IPv4AddressConverter.MappedLayout | IPv4AddressConverter/IPv4AddressConverter.cs:37 | full form is five zero groups, ffff, then the address as two 16-bit groups (RFC 4291 section 2.5.5.2) |
| IPv4AddressConverter.ShortForm | IPv4AddressConverter/IPv4AddressConverter.cs:37-38 | the short form is the full form with the zero groups compressed to "::" |
| IPv4AddressConverter.MappedLowerCase | IPv4AddressConverter/IPv4AddressConverter.cs:37-38 | both IPv6 forms have no upper-case letters |
| DotNetConvert.ToByteHex | QRCodeGenerator/QRCodeGenerator.cs:101-111 | Convert.ToByte(s, 16) yields a value in 0..255 or the exception it throws |
| HexColor.Parse | QRCodeGenerator/QRCodeGenerator.cs:87-117 | null/blank text and bodies that are not 3 or 6 characters give false; success needs a 3- or 6-character body |
| HexColor.SixDigits | QRCodeGenerator/QRCodeGenerator.cs:107-113 | six hex digits are the three channels, two digits each |
| HexColor.ThreeDigits | QRCodeGenerator/QRCodeGenerator.cs:99-105 | three hex digits are each doubled, so a channel is the digit times 17 |
| HexColor.ThreeWithNonHex | QRCodeGenerator/QRCodeGenerator.cs:99-105 | a non-hex character in the short form makes Convert.ToByte throw |
| HexColor.HexPair | QRCodeGenerator/QRCodeGenerator.cs:109-111 | two hex digits read as their byte value |
| HexColor.PlusSignsAccepted | QRCodeGenerator/QRCodeGenerator.cs:107-113 | Convert.ToByte reads a leading '+', so "#+F+F+F" is accepted |
| QRCodeGenerator.EccLevelOf | QRCodeGenerator/QRCodeGenerator.cs:47-64 | low/quartile/high give L/Q/H, anything else (null included) gives M, each as an if-and-only-if |
| QRCodeGenerator.EccIgnoresCase | QRCodeGenerator/QRCodeGenerator.cs:47 | the level name's case does not matter |
| QRCodeGenerator.TryParseHexColor | QRCodeGenerator/QRCodeGenerator.cs:87-117 | result and out colour agree with HexColor.Parse; the colour stays Black unless it returns true; exceptions propagate |
| QRCodeGenerator.Execute | QRCodeGenerator/QRCodeGenerator.cs:26-85 | blank input, deserialise errors and a null request each give their Error; otherwise what Answers gives |
| QRCodeGenerator.ForRequest | QRCodeGenerator/QRCodeGenerator.cs:35-78 | blank text, thrown colour parses, bad colours each give their Error in order; otherwise the image inputs |
| QRCodeGenerator.BadDigitIsException | QRCodeGenerator/QRCodeGenerator.cs:101-103 | a bad short-form digit yields the exception's message, not the format hint |
| WifiQRCodeGenerator.MapEncryptionMethod | WifiQRCodeGenerator/WifiQRCodeGenerator.cs:88-98 | output is WPA, WEP, WPA2-EAP or nopass; each non-default value exactly for its lower-cased names; everything else is WPA |
| WifiQRCodeGenerator.MapIgnoresCase | WifiQRCodeGenerator/WifiQRCodeGenerator.cs:90 | the method name's case does not matter |
| WifiQRCodeGenerator.EscapeInput | WifiQRCodeGenerator/WifiQRCodeGenerator.cs:100-112 | null or empty gives ""; otherwise every special character is escaped exactly once |
| WifiQRCodeGenerator.EscapeChainIsEscaped | WifiQRCodeGenerator/WifiQRCodeGenerator.cs:106-111 | the Replace chain, backslash first, equals per-character escaping (nothing is escaped twice) |
| WifiQRCodeGenerator.UnescapeRoundTrip | WifiQRCodeGenerator/WifiQRCodeGenerator.cs:100-112 | reading an escaped field up to its unescaped ';' gives back the input and the rest |
| WifiQRCodeGenerator.SsidReadsBack | WifiQRCodeGenerator/WifiQRCodeGenerator.cs:57 | the network name reads back from the string right after "WIFI:T:x;S:" |
| WifiQRCodeGenerator.PasswordReadsBack | WifiQRCodeGenerator/WifiQRCodeGenerator.cs:59-60 | with a password and a type other than nopass, "P:" and the password follow, then the hidden flag |
| WifiQRCodeGenerator.NoPasswordField | WifiQRCodeGenerator/WifiQRCodeGenerator.cs:59-60 | P: is omitted when the password is null/empty or the type is nopass |
| WifiQRCodeGenerator.Assembled | WifiQRCodeGenerator/WifiQRCodeGenerator.cs:57-65 | the string grown by += is "WIFI:T:x;S:s;" + [P:p;] + [H:true;] + ";" |
| WifiQRCodeGenerator.WifiString | WifiQRCodeGenerator/WifiQRCodeGenerator.cs:57-65 | the appended string equals the field-by-field payload |
| WifiQRCodeGenerator.TryParseHexColor | WifiQRCodeGenerator/WifiQRCodeGenerator.cs:114-150 | true exactly for colours HexColor.Parse reads without throwing; exceptions are caught as false; colour Black otherwise |
| WifiQRCodeGenerator.Execute | WifiQRCodeGenerator/WifiQRCodeGenerator.cs:28-86 | blank input, deserialise errors and a null request each give their Error; otherwise what Answers gives |
| WifiQRCodeGenerator.ForRequest | WifiQRCodeGenerator/WifiQRCodeGenerator.cs:37-80 | blank SSID, WPA/WEP without password, bad colours each give their Error in order; otherwise the network string |
| WifiQRCodeGenerator.BadDigitIsRefused | WifiQRCodeGenerator/WifiQRCodeGenerator.cs:125-149 | a bad short-form digit is caught and answers the format hint |
| TextToNatoAlphabet.Words | TextToNatoAlphabet/TextToNATOAlphabet.cs:143-164 | one entry per character, each the character's word, itself or "Unknown" |
| TextToNatoAlphabet.ConvertToNato | TextToNatoAlphabet/TextToNATOAlphabet.cs:135-168 | the loop's output is the per-character words joined by single spaces |
| TextToNatoAlphabet.Execute | TextToNatoAlphabet/TextToNATOAlphabet.cs:114-133 | blank input, deserialise errors and empty/null text each give their Error; otherwise the spelled text |
| TextToNatoAlphabet.CaseInsensitive | TextToNatoAlphabet/TextToNATOAlphabet.cs:22-75 | upper- and lower-case letters map to the same word |
| TextToNatoAlphabet.FlagOnlyForUnmapped | TextToNatoAlphabet/TextToNATOAlphabet.cs:150-164 | mapped characters ignore the flag; unmapped ones give themselves or "Unknown" |
| TextToNatoAlphabet.MappedTextIgnoresFlag | TextToNatoAlphabet/TextToNATOAlphabet.cs:150-156 | a text of mapped characters spells the same either way |
| TextToNatoAlphabet.SpelledText | TextToNatoAlphabet/TextToNATOAlphabet.cs:143-165 | output length is the words' lengths plus one space between each two |
| TextToNatoAlphabet.Example | TextToNatoAlphabet/TextToNATOAlphabet.cs:22-111 | "Hi 5" spells "Hotel India Space Five" |
| Text.ParsePadded | RomanConverter/RomanConverter.cs:33 | the decimal text of any Int32, with number white space around it and NULs after it, parses back to that number |
| Text.OtherSpaceBefore | IPv4SubnetCalculator/IPv4SubnetCalculator.cs:30 | white space other than U+0009 to U+000D and the space, put before a text, makes int.TryParse fail |
| Text.OtherSpaceAfter | ULIDGenerator/ULIDGenerator.cs:44 | such white space put after a text makes int.TryParse fail |
| Text.NoBreakSpaceAndNul | RomanConverter/RomanConverter.cs:33 | "\u00A05" does not parse; "5\0" parses as 5 |
| RomanConverter.Execute | RomanConverter/RomanConverter.cs:20-61 | blank input and empty text give the bare refusals; deserialise errors the error dictionary; otherwise the conversion |
| RomanConverter.Convert | RomanConverter/RomanConverter.cs:31-52 | text int.TryParse accepts (number white space, a sign, digits, trailing NULs, within Int32) goes to ToRoman; other text failing validation gives IsError "true"; thrown errors the same shape |
| RomanConverter.Lookup | RomanConverter/RomanConverter.cs:64-69 | table lookups give values in 1..1000 |
| RomanConverter.LookupKey | RomanConverter/RomanConverter.cs:64-69 | every table entry is found with its value |
| RomanConverter.LookupOnlyKeys | RomanConverter/RomanConverter.cs:64-69 | ContainsKey holds only for the table's keys |
| RomanConverter.GreedyTakesEntries | RomanConverter/RomanConverter.cs:64-94 | the greedy output is table keys only, in table (descending) order, adding up to the number |
| RomanConverter.ToRoman | RomanConverter/RomanConverter.cs:81-96 | throws exactly when n ≤ 0 or n > 3999; otherwise the greedy rendering, which is the standard numeral |
| RomanConverter.GreedyStandard | RomanConverter/RomanConverter.cs:87-94 | the greedy rendering equals thousands M's plus the hundreds, tens and units digit forms |
| RomanConverter.NextSymbol | RomanConverter/RomanConverter.cs:108-129 | a two-character symbol is tried before a single one; unknown gives none |
| RomanConverter.FromRoman | RomanConverter/RomanConverter.cs:99-133 | upper-cases, sums the symbols with 32-bit wrap; an unknown character throws naming the upper-cased text |
| RomanConverter.RoundTrip | RomanConverter/RomanConverter.cs:81-133 | FromRoman(ToRoman(n)) == n for every n |
| RomanConverter.StandardChars | RomanConverter/RomanConverter.cs:87-94 | ToRoman output uses only the letters MDCLXVI |
| RomanConverter.MatchesStandard | RomanConverter/RomanConverter.cs:76 | the pattern accepts exactly the standard numerals of the positive numbers |
| RomanConverter.ValidIsStandard | RomanConverter/RomanConverter.cs:72-78 | IsValidRoman holds exactly for standard numerals in any case, optionally followed by a final line feed |
| RomanConverter.StandardIsValid | RomanConverter/RomanConverter.cs:76-96 | every ToRoman output (and its lower-case form) passes validation |
| RomanConverter.CaseInsensitive | RomanConverter/RomanConverter.cs:77-101 | validation and reading ignore the input's letter case |
| RomanConverter.LineFeedPassesButFails | RomanConverter/RomanConverter.cs:120-129 | a numeral plus a final "\n" passes the pattern but FromRoman refuses it |
| Ulid.ToBase32String | ULIDGenerator/ULIDGenerator.cs:135-163 | the bit packer's output is one alphabet character per 5-bit group of the input's bits, the last group padded with zero bits |
| Ulid.EmitGroups | ULIDGenerator/ULIDGenerator.cs:146-151 | the inner loop emits every whole pending 5-bit group as its character and keeps the rest pending |
| Ulid.EncodedLength | ULIDGenerator/ULIDGenerator.cs:135-163 | the encoding of n bytes has ceil(8n/5) characters, 26 for sixteen bytes |
| Ulid.DecodeEncoding | ULIDGenerator/ULIDGenerator.cs:135-163 | the encoding is lossless: reading the characters back as 5-bit groups gives the bytes |
| Ulid.UlidLayout | ULIDGenerator/ULIDGenerator.cs:106-126 | the sixteen bytes are the low 48 bits of the millisecond clock big-endian, then the ten random bytes |
| Ulid.GenerateUlid | ULIDGenerator/ULIDGenerator.cs:103-130 | the identifier is the packed form of that layout |
| Ulid.UlidShape | ULIDGenerator/ULIDGenerator.cs:103-163 | every identifier has 26 characters and decodes back to its timestamp and random bytes |
| Ulid.ReadOptions | ULIDGenerator/ULIDGenerator.cs:27-56 | fails exactly when count is a JSON number GetInt32 cannot read; otherwise the count and lower-cased format with defaults 1 and "raw" |
| Ulid.ClampCount | ULIDGenerator/ULIDGenerator.cs:59-60 | the count is limited to 1..100 and kept when already inside |
| Ulid.Execute | ULIDGenerator/ULIDGenerator.cs:22-97 | deserialise errors give the error reply; otherwise the answer for the options with one identifier per clock reading |
| Ulid.AnswerCount | ULIDGenerator/ULIDGenerator.cs:63-89 | a successful reply has the clamped number of identifiers, JSON form exactly for format "json", and the raw text splits on line feeds back into them |
| SlugifyString.RemoveDisallowed | SlugifyString/SlugifyString.cs:69 | only word characters, white space and hyphens are left |
| SlugifyString.KeepsAllowed | SlugifyString/SlugifyString.cs:69 | a text of allowed characters passes unchanged |
| SlugifyString.CollapseRunsSingle | SlugifyString/SlugifyString.cs:70 | after the run replacement no two spaces are adjacent |
| SlugifyString.CollapseRunsWords | SlugifyString/SlugifyString.cs:69-70 | after the first two replacements only letters, digits and spaces are left |
| SlugifyString.SpacesTo | SlugifyString/SlugifyString.cs:71 | with a separator inserted as its own characters and one character long, every white-space character, and only those, becomes it |
| SlugifyString.CollapseSeparators | SlugifyString/SlugifyString.cs:74 | with a separator inserted as its own characters and one character long, the result is empty iff the input is, and never has it twice in a row |
| SlugifyString.ReadReplacement | SlugifyString/SlugifyString.cs:71-74 | a separator without '$' is read as its own characters |
| SlugifyString.ReadEscaped | SlugifyString/SlugifyString.cs:71-74 | a separator with each '$' doubled is read back as the text itself |
| SlugifyString.OneCharLiteral | SlugifyString/SlugifyString.cs:71-74 | a one-character separator, '$' included, is read as that character |
| SlugifyString.ExpandLiterals | SlugifyString/SlugifyString.cs:71-74 | a separator read as its own characters is inserted as those characters, whatever the match |
| SlugifyString.ReplaceSpacesLiteral | SlugifyString/SlugifyString.cs:71 | with such a separator the white-space replacement inserts it as it is |
| SlugifyString.ReplaceRunsLiteral | SlugifyString/SlugifyString.cs:74 | with such a separator the run replacement inserts it as it is |
| SlugifyString.SlugifyLiteral | SlugifyString/SlugifyString.cs:71-74 | with such a separator the slug is the spaced words with each space replaced by it, then each run of it collapsed |
| SlugifyString.DoubledDollar | SlugifyString/SlugifyString.cs:71-74 | the separator "$$" turns "a b" into "a$b" |
| SlugifyString.MatchSeparator | SlugifyString/SlugifyString.cs:71-74 | the separator "$&" puts each matched space back, so "a b" stays "a b" |
| SlugifyString.GroupOutOfRange | SlugifyString/SlugifyString.cs:71 | a separator "$" followed by a number above Int32.MaxValue throws for any non-empty text |
| SlugifyString.SlugifyText | SlugifyString/SlugifyString.cs:51-77 | each step reassigns the text; null or empty text gives ""; a null separator or one with an out-of-range group number throws; an empty one throws; otherwise the separator is read as a replacement pattern in the last two replacements |
| SlugifyString.Execute | SlugifyString/SlugifyString.cs:24-49 | blank input, a null request and thrown exceptions give their Error replies; otherwise the slug |
| SlugifyString.EmptyText | SlugifyString/SlugifyString.cs:53-54 | null or empty text is the empty slug whatever the options |
| SlugifyString.SpacedShape | SlugifyString/SlugifyString.cs:69-70 | the trimmed text is words of letters and digits one space apart, no space at either end |
| SlugifyString.SpacedIsLower | SlugifyString/SlugifyString.cs:63-66 | with LowerCase set no upper-case letter is left |
| SlugifyString.NoRunUnchanged | SlugifyString/SlugifyString.cs:74 | a text without the separator twice in a row is left unchanged by the last replacement |
| SlugifyString.SingleSeparator | SlugifyString/SlugifyString.cs:71-74 | for a hyphen-like separator the slug is the spaced words with each space replaced by it |
| SlugifyString.SlugShape | SlugifyString/SlugifyString.cs:51-77 | the slug holds letters, digits and the separator, never twice in a row nor at either end, lower-case on request |
| SlugifyString.NoDoubleSeparator | SlugifyString/SlugifyString.cs:74 | whatever one-character separator, the slug never holds it twice in a row |
| SlugifyString.EmptySeparatorThrows | SlugifyString/SlugifyString.cs:74 | the "None" separator builds the pattern "+", so every non-empty text throws |
| SlugifyString.SlugifyCorrected | SlugifyString/SlugifyString.cs:71-74 | agrees with the code for every separator but the empty one |
| SlugifyString.CorrectedWithoutSeparator | SlugifyString/SlugifyString.cs:71-74 | with no separator the corrected slug is the words run together, letters and digits only |
| SlugifyString.TwoWords | SlugifyString/SlugifyString.cs:51-77 | two words of letters and digits with one space between become the words joined by the separator |
| SlugifyString.HelloWorld | SlugifyString/SlugifyString.cs:106 | "Hello World" becomes "hello-world" |
| SvgPlaceholder.GenerateSvg | SVGPlaceholderGenerator/SVGPlaceholderGenerator.cs:43-55 | the builder's text is the four lines of the document, each followed by the line terminator |
| SvgPlaceholder.Execute | SVGPlaceholderGenerator/SVGPlaceholderGenerator.cs:23-41 | blank input gives "Invalid input", a null request or a non-positive size "Invalid request data", an exception "Error: " and its message, otherwise the svg |
| SvgPlaceholder.BackgroundVerbatim | SVGPlaceholderGenerator/SVGPlaceholderGenerator.cs:51 | the background colour appears unescaped right after the rect's fill=' |
| SvgPlaceholder.TextColorVerbatim | SVGPlaceholderGenerator/SVGPlaceholderGenerator.cs:52 | the text colour appears unescaped right after the text element's fill=' |
| SvgPlaceholder.TextVerbatim | SVGPlaceholderGenerator/SVGPlaceholderGenerator.cs:52 | the shown text appears unescaped just before </text> |
| SvgPlaceholder.BlankTextShowsSize | SVGPlaceholderGenerator/SVGPlaceholderGenerator.cs:45-47 | a null or blank text shows "{Width}x{Height}" |
| SvgPlaceholder.DocumentIsLines | SVGPlaceholderGenerator/SVGPlaceholderGenerator.cs:49-54 | the document is the four lines joined by the terminator, with a terminator after the last |
| TokenGenerator.CharPool | TokenGenerator/TokenGeneratorTool.cs:196-207 | the pool's length is the sum of the selected classes' sizes (26, 26, 10, 29) |
| TokenGenerator.BuildPool | TokenGenerator/TokenGeneratorTool.cs:202-207 | the StringBuilder appends give the pool of the selected classes in fixed order |
| TokenGenerator.GenerateToken | TokenGenerator/TokenGeneratorTool.cs:196-215 | no class selected gives the message; a negative length throws; otherwise length characters, each the pool character at a draw below the pool size |
| TokenGenerator.PoolMembers | TokenGenerator/TokenGeneratorTool.cs:198-207 | a character is in the pool exactly when it belongs to a selected class |
| TokenGenerator.EmptyPool | TokenGenerator/TokenGeneratorTool.cs:209-210 | the pool is empty exactly when no class is selected |
| TokenGenerator.TokenFromPool | TokenGenerator/TokenGeneratorTool.cs:212-215 | every character of a token belongs to a selected class |
| TokenGenerator.TokenGeneratorTool.constructor | TokenGenerator/TokenGeneratorTool.cs:32-34 | a new tool is not running and has no task |
| TokenGenerator.TokenGeneratorTool.Execute | TokenGenerator/TokenGeneratorTool.cs:41-76 | marks the tool running with a fresh task, then answers blank input, a null request, exceptions and the token as the code does |
| TokenGenerator.TokenGeneratorTool.Stop | TokenGenerator/TokenGeneratorTool.cs:180-194 | does nothing when not running; otherwise cancels and disposes the source and is no longer running |
| MathEvaluator.FirstTopOperator | MathEvaluator/MathEvaluator.cs:132-144 | the index is -1 or a top-level operator, and no earlier index holds one |
| MathEvaluator.FindOperatorIndex | MathEvaluator/MathEvaluator.cs:132-144 | the parenthesis-counting scan returns the first operator at count 0, or -1 |
| MathEvaluator.DepthCounts | MathEvaluator/MathEvaluator.cs:134-139 | the running count is the number of '(' minus the number of ')' before the index |
| MathEvaluator.CallPrefix | MathEvaluator/MathEvaluator.cs:68-107 | the prefixes are tried in the source's order; none found means the text starts with no prefix |
| MathEvaluator.Parse | MathEvaluator/MathEvaluator.cs:59-130 | a number is a leaf; every tree it builds has numbers at its leaves and operators at its inner nodes |
| MathEvaluator.SplitEquation | MathEvaluator/MathEvaluator.cs:110-127 | at a positive operator index the two trimmed sides are parsed, the left one first |
| MathEvaluator.NoSplitEquation | MathEvaluator/MathEvaluator.cs:111-129 | without a positive split point a text that is neither number nor call throws "Invalid expression" |
| MathEvaluator.LeadingOperatorNotSplit | MathEvaluator/MathEvaluator.cs:111-129 | an operator at index 0 is never split at, so "-5" and the like are invalid unless they parse as numbers |
| MathEvaluator.NoOperatorInvalid | MathEvaluator/MathEvaluator.cs:110-129 | a text with no top-level operator after index 0 that is neither number nor call is invalid |
| MathEvaluator.TwoAtoms | MathEvaluator/MathEvaluator.cs:110-127 | two numbers around one operator parse as that operation |
| MathEvaluator.RightNested | MathEvaluator/MathEvaluator.cs:110-144 | splitting at the first operator makes a o1 b o2 c into a o1 (b o2 c) |
| MathEvaluator.SubtractionRightNested | MathEvaluator/MathEvaluator.cs:110-144 | a - b - c is computed as a - (b - c), which differs from (a - b) - c when c is not 0 |
| MathEvaluator.CorrectedTwoAtoms | MathEvaluator/MathEvaluator.cs:110-127 | under the corrected split rule two numbers around an operator still parse as that operation |
| MathEvaluator.LeftNested | MathEvaluator/MathEvaluator.cs:110-127 | under the corrected rule operators of one group nest to the left |
| MathEvaluator.CorrectedSubtraction | MathEvaluator/MathEvaluator.cs:110-127 | under the corrected rule a - b - c is computed as (a - b) - c |
| MathEvaluator.CorrectedPrecedence | MathEvaluator/MathEvaluator.cs:110-127 | under the corrected rule a + b * c is a + (b * c) |
| MathEvaluator.ReplacePiRemovesAll | MathEvaluator/MathEvaluator.cs:45-46 | replacing "pi" by a text without 'p' or 'i' leaves no "pi" behind |
| MathEvaluator.NormalisedHasNoPi | MathEvaluator/MathEvaluator.cs:45-46 | after trimming and lower-casing, "pi" in any case is replaced everywhere |
| MathEvaluator.Execute | MathEvaluator/MathEvaluator.cs:19-57 | blank input, a null request or empty expression, deserialise errors, parse failures ("Error: Invalid expression: ...") and the rendered value, as the code answers them |
| StringObfuscator.SliceIndex | StringObfuscator/StringObfuscator.cs:72-74 | a slice index is clamped to 0..n and kept when already inside |
| StringObfuscator.Slice | StringObfuscator/StringObfuscator.cs:72-74 | slice(b, e) within the text is text[b..e]; an end past the length stops at the end; a negative start takes the last -b units; a negative end counts from the end; an end at or before the start gives nothing |
| StringObfuscator.Mask | StringObfuscator/StringObfuscator.cs:77-83 | every character is masked in place, the length kept |
| StringObfuscator.Obfuscate | StringObfuscator/StringObfuscator.cs:61-86 | the output is start, masked middle, end |
| StringObfuscator.MaskEach | StringObfuscator/StringObfuscator.cs:76-83 | the loop appends one mask character per character of the middle, a space only for a space with keepSpace, so the result is Mask of the middle |
| StringObfuscator.ShortUnchanged | StringObfuscator/StringObfuscator.cs:67-70 | a text no longer than first + last is shown unchanged |
| StringObfuscator.KeepsShape | StringObfuscator/StringObfuscator.cs:61-86 | for counts that are not negative the length, the first and last characters are kept and every middle character is masked |
| StringObfuscator.SpacesInMiddle | StringObfuscator/StringObfuscator.cs:78-82 | a middle space stays a space exactly when spaces are kept |
| StringObfuscator.NegativeFirstRepeats | StringObfuscator/StringObfuscator.cs:63-74 | a negative first count repeats characters: first = -1, last = n - 2 gives an output of 2n - 3 characters |
| StringObfuscator.ObfuscatedClamped | StringObfuscator/StringObfuscator.cs:30-64 | with negative counts taken as 0 (as the fields' min='0' intends) the length is always kept, and agrees with the code otherwise |
| NumeronymGenerator.JsTrim | NumeronymGenerator/NumeronymGenerator.cs:54 | trim gives the infix between a white-space prefix and a white-space suffix, with no white space at its ends; it is empty iff the text is all white space |
| NumeronymGenerator.TrimAll | NumeronymGenerator/NumeronymGenerator.cs:54 | one trimmed piece for each piece, in place |
| NumeronymGenerator.NonEmpty | NumeronymGenerator/NumeronymGenerator.cs:54 | the filter keeps exactly the non-empty pieces, none of them empty |
| NumeronymGenerator.NonEmptyAppend | NumeronymGenerator/NumeronymGenerator.cs:54 | filtering two runs of pieces is filtering each in turn, so the kept pieces stay in their order |
| NumeronymGenerator.WordsAreWords | NumeronymGenerator/NumeronymGenerator.cs:54 | every word read from the input is non-empty, comma-free and trimmed |
| NumeronymGenerator.WordsOfJoin | NumeronymGenerator/NumeronymGenerator.cs:54 | words joined by commas are read back as those words |
| NumeronymGenerator.Numeronym | NumeronymGenerator/NumeronymGenerator.cs:55-57 | a word of at most three characters is itself; a longer one gives first character, decimal count of the inner characters, last character, never longer than the word |
| NumeronymGenerator.NumeronymIsWord | NumeronymGenerator/NumeronymGenerator.cs:55-57 | the numeronym of a word is again a word |
| NumeronymGenerator.JoinCommaSpace | NumeronymGenerator/NumeronymGenerator.cs:58 | joining with ", " is joining with "," after a space is put before each later part |
| NumeronymGenerator.ReadBack | NumeronymGenerator/NumeronymGenerator.cs:54-58 | words joined with ", " are read back as those words |
| NumeronymGenerator.Numeronyms | NumeronymGenerator/NumeronymGenerator.cs:55-58 | one numeronym for each word, in place |
| NumeronymGenerator.Generate | NumeronymGenerator/NumeronymGenerator.cs:52-60 | the output read back as input gives exactly the numeronyms of the input's words |
| NumeronymGenerator.Internationalization | NumeronymGenerator/NumeronymGenerator.cs:56-57 | "internationalization" gives "i18n" |
| NumeronymGenerator.International | NumeronymGenerator/NumeronymGenerator.cs:9-57 | "international", the description's example, gives "i11l" rather than the "i18n" it claims |
| Models.Filter | ITtools_clone/Repositories/ToolRepository.cs:51-93 | the filtered list holds exactly the elements that satisfy the condition |
| Models.FilterAppend | ITtools_clone/Repositories/ToolRepository.cs:51-93 | filtering two runs is filtering each and putting the results one after the other, so the order is kept |
| Middlewares.TrimLeading | ITtools_clone/Middlewares/PremiumToolAccessMiddleware.cs:31 | TrimStart('/') takes off exactly the leading slashes |
| Middlewares.MatchingTool | ITtools_clone/Middlewares/PremiumToolAccessMiddleware.cs:43-45 | none iff no named tool's slug is the path; otherwise the first such tool in list order |
| Middlewares.Decide | ITtools_clone/Middlewares/PremiumToolAccessMiddleware.cs:21-60 | redirects to /Home/PremiumRequired exactly when the path is not exempt nor home, the first matching tool needs premium and the session is not a logged-in premium one |
| Middlewares.AdminSegmentExempt | ITtools_clone/Middlewares/PremiumToolAccessMiddleware.cs:23 | /Admin and every path below it, in any case, pass |
| Middlewares.AdminPrefixNotSegment | ITtools_clone/Middlewares/PremiumToolAccessMiddleware.cs:23 | /Administrator is not under the /Admin segment |
| Middlewares.FailOpen | ITtools_clone/Middlewares/PremiumToolAccessMiddleware.cs:44-59 | when no matching tool needs premium the request passes |
| Middlewares.SubPathNotGated | ITtools_clone/Middlewares/PremiumToolAccessMiddleware.cs:31-45 | "/slug/execute" is compared whole, so the premium tool "slug" does not gate it |
| Middlewares.FirstMatchDecides | ITtools_clone/Middlewares/PremiumToolAccessMiddleware.cs:44-47 | a free first match lets the request pass even if a later tool with the same slug needs premium |
| Repositories.CategoryOrder | ITtools_clone/Repositories/ToolRepository.cs:31 | the category order (null first, then ordinal) is a strict total order |
| Repositories.InsertByCategory | ITtools_clone/Repositories/ToolRepository.cs:31 | inserting keeps the tools as a multiset plus the new one, and keeps them sorted |
| Repositories.ByCategory | ITtools_clone/Repositories/ToolRepository.cs:31 | the ordering is sorted by category and a permutation of the table |
| Repositories.ByCategoryStable | ITtools_clone/Repositories/ToolRepository.cs:31 | OrderBy is stable: the tools of each category keep their table order |
| Repositories.FindById | ITtools_clone/Repositories/ToolRepository.cs:34-37 | the tool with the key, none iff no tool has it |
| Repositories.FirstNamed | ITtools_clone/Repositories/ToolRepository.cs:39-44 | none iff no tool has the name ignoring case; otherwise the first in table order |
| Repositories.FirstNamedIgnoresCase | ITtools_clone/Repositories/ToolRepository.cs:43 | upper- and lower-case spellings of a name find the same tool |
| Repositories.Grouped | ITtools_clone/Repositories/ToolRepository.cs:53-56 | one key per category present, each holding exactly the tools of that category |
| Repositories.ReplaceToolKeys | ITtools_clone/Repositories/ToolRepository.cs:65-69 | overwriting a row keeps the set of keys and their uniqueness |
| Repositories.WithoutTool | ITtools_clone/Repositories/ToolRepository.cs:71-79 | the tools other than the one with the key; its key alone is gone |
| Repositories.FavouritesWithoutTool | ITtools_clone/Repositories/FavouriteRepository.cs:68-75 | exactly the favourites that do not name the tool |
| Repositories.FavouritesWithoutUser | ITtools_clone/Repositories/FavouriteRepository.cs:59-66 | exactly the favourites that do not name the user |
| Repositories.ToolRepository.constructor | ITtools_clone/Repositories/ToolRepository.cs:24-27 | the repository works on the given context |
| Repositories.ToolRepository.GetAllTools | ITtools_clone/Repositories/ToolRepository.cs:29-32 | the table, sorted by category, with the same tools |
| Repositories.ToolRepository.GetToolById | ITtools_clone/Repositories/ToolRepository.cs:34-37 | the tool with the key, null iff there is none |
| Repositories.ToolRepository.GetToolByName | ITtools_clone/Repositories/ToolRepository.cs:39-44 | null iff no tool has the name ignoring case; otherwise a tool with that name |
| Repositories.ToolRepository.GetToolsByCategory | ITtools_clone/Repositories/ToolRepository.cs:46-57 | the keys are exactly the non-empty categories of the (enabled) tools, each with exactly its tools |
| Repositories.ToolRepository.SearchTools | ITtools_clone/Repositories/ToolRepository.cs:81-94 | exactly the (enabled) tools whose name or description contains the query |
| Repositories.ToolRepository.AddTool | ITtools_clone/Repositories/ToolRepository.cs:59-63 | a key of 0 is generated, a new key is kept, a key in use throws; on success the tool is appended and nothing else changes |
| Repositories.ToolRepository.UpdateTool | ITtools_clone/Repositories/ToolRepository.cs:65-69 | the row with the key is overwritten; a missing key throws and changes nothing |
| Repositories.ToolRepository.DeleteTool | ITtools_clone/Repositories/ToolRepository.cs:71-79 | a missing key changes nothing; otherwise the tool and, by cascade, its favourites are gone |
| Repositories.FavouriteRepository.constructor | ITtools_clone/Repositories/FavouriteRepository.cs:18-21 | the repository works on the given context |
| Repositories.FavouriteRepository.GetFavouriteToolsByUserId | ITtools_clone/Repositories/FavouriteRepository.cs:23-35 | exactly the enabled tools the user marked, in table order |
| Repositories.FavouriteRepository.IsFavourite | ITtools_clone/Repositories/FavouriteRepository.cs:77-80 | true iff the pair is stored |
| Repositories.FavouriteRepository.AddToFavourites | ITtools_clone/Repositories/FavouriteRepository.cs:37-46 | a pair already there or naming a missing user or tool throws; otherwise it is added and nothing else changes |
| Repositories.FavouriteRepository.RemoveFromFavourites | ITtools_clone/Repositories/FavouriteRepository.cs:48-57 | the pair is no longer stored and nothing else changes |
| Repositories.FavouriteRepository.RemoveFromFavouritesByUserId | ITtools_clone/Repositories/FavouriteRepository.cs:59-66 | every favourite of the user is removed, the others kept |
| Repositories.FavouriteRepository.RemoveFromFavouritesByToolId | ITtools_clone/Repositories/FavouriteRepository.cs:68-75 | every favourite of the tool is removed, the others kept |
| Repositories.UserRepository.GetUserById | ITtools_clone/Repositories/UserRepository.cs:33-36 | the user with the key, null iff there is none |
| Repositories.UserRepository.UpdateUser | ITtools_clone/Repositories/UserRepository.cs:54-58 | the row with the key is overwritten; a missing key throws and changes nothing |
| Repositories.UserRepository.DeleteUser | ITtools_clone/Repositories/UserRepository.cs:60-68 | a missing key changes nothing; otherwise the user and, by cascade, their favourites are gone |
| Services.ToolService.constructor | ITtools_clone/Services/ToolService.cs:30-35 | the service works on the given repositories |
| Services.ToolService.GetEnabledTools | ITtools_clone/Services/ToolService.cs:44-47 | exactly the enabled tools, still ordered by category |
| Services.ToolService.GetToolsForUser | ITtools_clone/Services/ToolService.cs:50-64 | a premium user gets all enabled tools, anyone else exactly the enabled tools that need no premium |
| Services.ToolService.GetCategorizedTools | ITtools_clone/Services/ToolService.cs:67-76 | keys are the non-empty categories of the tools shown (disabled ones only for an administrator), each with exactly its tools' names |
| Services.ToolService.ValidateTool | ITtools_clone/Services/ToolService.cs:142-152 | valid exactly when name and description are both non-null and non-empty |
| Services.ToolService.SearchTools | ITtools_clone/Services/ToolService.cs:159-164 | exactly the matching tools, disabled ones only for an administrator |
| Services.ToolService.AddTool | ITtools_clone/Services/ToolService.cs:83-94 | an invalid tool throws "Tool validation failed" and nothing is written; a valid one is added as the repository adds it |
| Services.ToolService.UpdateTool | ITtools_clone/Services/ToolService.cs:96-106 | an invalid tool throws and nothing is written; a valid one overwrites its row or throws when the key is missing |
| Services.ToolService.DeleteTool | ITtools_clone/Services/ToolService.cs:108-111 | as the repository's delete: the tool and its favourites go, a missing key changes nothing |
| Services.ToolService.DeleteToolWithRelatedData | ITtools_clone/Services/ToolService.cs:113-140 | true exactly for a known key; then the tool's favourites and the tool are gone, otherwise nothing changes |
| Services.FirstWithSlug | ITtools_clone/Services/PluginService.cs:97-98 | none iff no plugin's slugged name is the slug; otherwise the first such plugin |
| Services.PluginService.constructor | ITtools_clone/Services/PluginService.cs:22-26 | the service works on the given loader and tool service |
| Services.PluginService.AddPluginFromFile | ITtools_clone/Services/PluginService.cs:28-88 | missing or empty file, a non-.dll name, a failed load, a failed save and a failed validation each give their message and no tool; success adds the enabled free record; a failure after the load leaves the plugin loaded |
| Services.PluginService.GetPluginBySlugName | ITtools_clone/Services/PluginService.cs:90-99 | null when there is no record for the unslugged name or it is disabled and checked; otherwise the first loaded plugin with that slug |
| Helpers.RemoveFirst | ITtools_clone/Helpers/PluginLoader.cs:137 | List.Remove takes one element out when the value is there, none otherwise |
| Helpers.DropAll | ITtools_clone/Helpers/PluginLoader.cs:129-138 | removing as many plugins of the assembly as there are leaves exactly the others |
| Helpers.RemoveStep | ITtools_clone/Helpers/PluginLoader.cs:130-138 | removing the k-th plugin of the assembly by value takes out the first of that assembly still in the list |
| Helpers.PluginLoader.constructor | ITtools_clone/Helpers/PluginLoader.cs:7-8 | no plugin loaded, no path tracked |
| Helpers.PluginLoader.LoadPluginFromBytes | ITtools_clone/Helpers/PluginLoader.cs:83-111 | a tracked path or nothing found gives null and changes nothing; otherwise the plugin is appended and the path mapped to its new assembly |
| Helpers.PluginLoader.LoadPlugin | ITtools_clone/Helpers/PluginLoader.cs:42-81 | a missing file or a name not ending in .dll (ignoring case) gives null; otherwise as the bytes overload |
| Helpers.PluginLoader.LoadPlugins | ITtools_clone/Helpers/PluginLoader.cs:17-40 | the new state is the directory's files loaded one after the other; the old plugins stay in front |
| Helpers.LoadAllAppends | ITtools_clone/Helpers/PluginLoader.cs:17-40 | loading keeps the old plugins in front and appends one plugin per new assembly, numbered on in loading order |
| Helpers.LoadAllPaths | ITtools_clone/Helpers/PluginLoader.cs:17-40 | a path is tracked after loading iff it was tracked before or it is a listed ".dll" file holding a tool |
| Helpers.LoadAllKeeps | ITtools_clone/Helpers/PluginLoader.cs:17-40 | a path tracked before loading keeps its assembly |
| Helpers.LoadAllNew | ITtools_clone/Helpers/PluginLoader.cs:17-40 | each newly tracked path has a new assembly, and the plugin holding that assembly is the path's tool |
| Helpers.PluginLoader.StopAndRemoveOne | ITtools_clone/Helpers/PluginLoader.cs:132-137 | Stop is recorded for the plugin, then it is removed by value |
| Helpers.PluginLoader.StopEach | ITtools_clone/Helpers/PluginLoader.cs:130-138 | the loop stops each plugin of the assembly in list order and removes it |
| Helpers.PluginLoader.StopAndRemove | ITtools_clone/Helpers/PluginLoader.cs:129-138 | the list keeps exactly the other assemblies' plugins; Stop was called on the removed ones in list order |
| Helpers.PluginLoader.OnPluginRemoved | ITtools_clone/Helpers/PluginLoader.cs:121-150 | for a tracked path every plugin of its assembly is stopped and removed and the path untracked; an untracked path changes nothing |
| Controllers.ToggledStatus | ITtools_clone/Controllers/AdminController.cs:65 | only `enabled` changes, and it is negated |
| Controllers.ToggledPremium | ITtools_clone/Controllers/AdminController.cs:86 | only `premium_required` changes, and it is negated |
| Controllers.TogglePremium | ITtools_clone/Controllers/AdminController.cs:166-172 | premium is negated; the request stays set only when it was set and the user is downgraded |
| Controllers.DeniedRequest | ITtools_clone/Controllers/AdminController.cs:227 | only the request flag changes, and it is cleared |
| Controllers.WithFlags | ITtools_clone/Controllers/AdminController.cs:176-177 | the session's Premium and RequestPremium become the user's flags as 1 or 0, the other keys kept |
| Controllers.ReplaceRestores | ITtools_clone/Controllers/AdminController.cs:59-66 | writing a changed row and then the original back restores the table |
| Controllers.StatusTwiceRestores | ITtools_clone/Controllers/AdminController.cs:51-69 | toggling a tool's status twice leaves the tools as they were |
| Controllers.PremiumTwiceRestores | ITtools_clone/Controllers/AdminController.cs:72-90 | toggling a tool's premium flag twice leaves the tools as they were |
| Controllers.TogglePremiumTwice | ITtools_clone/Controllers/AdminController.cs:166-172 | toggling a user's premium twice gives the user back with no pending request |
| Controllers.AdminController.constructor | ITtools_clone/Controllers/AdminController.cs:18-23 | the controller works on the given services and session |
| Controllers.AdminController.Index | ITtools_clone/Controllers/AdminController.cs:26-35 | administrators go to ManageTools, everyone else to the login page |
| Controllers.AdminController.ManageTools | ITtools_clone/Controllers/AdminController.cs:38-48 | non-administrators go to login; administrators get every tool, sorted by category |
| Controllers.AdminController.ManageUsers | ITtools_clone/Controllers/AdminController.cs:145-155 | non-administrators go to login; administrators get every user |
| Controllers.AdminController.PremiumRequests | ITtools_clone/Controllers/AdminController.cs:199-209 | non-administrators go home; administrators get exactly the users with a pending request |
| Controllers.AdminController.UpdateToolStatus | ITtools_clone/Controllers/AdminController.cs:51-69 | login redirect, NotFound, or the tool written back with `enabled` negated (through validation); the argument is ignored |
| Controllers.AdminController.UpdateToolPremium | ITtools_clone/Controllers/AdminController.cs:72-90 | login redirect, NotFound, or the tool written back with `premium_required` negated; the argument is ignored |
| Controllers.AdminController.DeleteTool | ITtools_clone/Controllers/AdminController.cs:92-142 | login redirect or NotFound change nothing; otherwise the tool and its favourites are gone and the success message is set |
| Controllers.AdminController.UpdateUserPremium | ITtools_clone/Controllers/AdminController.cs:157-184 | with no administrator check, the user's premium is toggled, the row written, and the user's flags put into the caller's session |
| Controllers.AdminController.UpdateUserPremiumChecked | ITtools_clone/Controllers/AdminController.cs:157-192 | with the page's administrator check: non-administrators change nothing, and the caller's session is kept |
| Controllers.AdminController.DeleteUser | ITtools_clone/Controllers/AdminController.cs:186-197 | login redirect changes nothing; otherwise the user and every favourite naming them are gone |
| Controllers.AdminController.DenyPremiumRequest | ITtools_clone/Controllers/AdminController.cs:211-234 | home redirect or NotFound change nothing; otherwise the request is cleared, premium kept, and the flags put into the caller's session |

## Left out

- JSON (de)serialisation in every `Execute`: each takes the deserialiser's outcome as a parameter, and the reply's JSON text is a parameter too.
- `IPAddress.TryParse`, `Utils.Slugify` and `Utils.Unslugify` are library code outside these files. Each is an uninterpreted parameter.
- Randomness and the clock: the ULID timestamp and random bytes, and the choices of `System.Random` in the token generator, are parameters. Any values are allowed.
- Floating point: the math evaluator's `double` arithmetic and its number formatting are the `value`, `apply` and `show` parameters. The text of `Math.PI` is the `piText` parameter.
- MathEvaluator.Execute: the "Unsupported operator" branch is left out because the operator search only ever returns `+`, `-`, `*` or `/`.
- QR image rendering (QRCoder and System.Drawing) is not modelled. The model stops at the payload text, the error-correction level and the parsed colour.
- All GetUI HTML, CSS and DOM script is left out. The exceptions are the obfuscator and numeronym functions, which are modelled.
- SlugifyString.Slugify: `RemoveDiacritics` (Unicode normalisation) is not modelled; on ASCII it is the identity.
- SlugifyString.Slugify: non-ASCII letters and digits count as non-word characters and are removed. .NET's `\w` would keep them.
- IntegerBaseConverter.Execute: over HTTP the request arrives as a `JsonElement`, not an `IntegerBaseConverterRequest`. The model takes the request as already typed; the untyped case is the `None` input, which gives "Invalid input".
- DotNetConvert: `Convert.ToInt32` and `Convert.ToString` with a base are modelled for bases 2, 8, 10 and 16. Any other base gives the library's exception message.
- Repositories: names, slugs and categories are compared ordinally, with ASCII case folding. The database collation and culture-sensitive order are not modelled.
- Repositories.ToolRepository.SearchTools: a null name or description never matches, as in SQL. Evaluating the query in memory would throw instead.
- Data: the tables live in memory. EF Core change tracking, SaveChanges batching and MySQL are not modelled. A key clash or a missing row is an exception result.
- Helpers.PluginLoader: the file system (`File.Exists`, `Directory.GetFiles`, reading bytes), `AssemblyLoadContext` and reflection are not modelled. "The assembly yields an optional ITool" is a parameter.
- Helpers.PluginLoader: the FileSystemWatcher and GC calls are not modelled. Unloading an assembly context has no effect in the model.
- TokenGenerator.TokenGeneratorTool.Stop: cancellation and waiting on the background task are reduced to clearing the running state.
- Services.PluginService.AddPluginFromFile: saving the file to disk is the `saved` flag. When `AddTool` fails after a good load, the plugin stays registered, as in the code.
- The user service, favourite service, authentication (BCrypt), the other controllers, view components and `Program.cs` are pass-through or framework plumbing. They are not part of this model.
- The other tools (hashing, URL encoding, JSON and XML formatters, unit converters, random ports, chronometer, text statistics, CSV, cheat sheet) are not part of this model.
- TextToNatoAlphabet.Words: a character above U+FFFF is one character here but two UTF-16 code units in `foreach (char c in text)`; with the original characters not kept, "😀" gives "Unknown" here and "Unknown Unknown" there.
- TextToNatoAlphabet.ConvertToNato: the same code-unit difference as Words.
- TextToNatoAlphabet.Execute: the same code-unit difference as Words.
- StringObfuscator.Obfuscated: JavaScript counts UTF-16 code units, so for text with characters above U+FFFF the counts and the mask differ from the model's.
- NumeronymGenerator.Numeronym: `word.length` counts UTF-16 code units; the model counts characters, which agree only without characters above U+FFFF.
- Text.ToLower: ASCII only and culture-invariant. The culture-sensitive `ToLower()` at MathEvaluator/MathEvaluator.cs:45, QRCodeGenerator/QRCodeGenerator.cs:47, WifiQRCodeGenerator/WifiQRCodeGenerator.cs:90 and ULIDGenerator/ULIDGenerator.cs:54 also maps non-ASCII letters, and under a Turkish culture maps "I" to a dotless "ı".
- Text.ToUpper: ASCII only and culture-invariant. The `ToUpper()` at RomanConverter/RomanConverter.cs:77 and RomanConverter/RomanConverter.cs:101 under a Turkish culture maps "i" to "İ", so "mix" would fail validation there.
- SlugifyString.Execute, MathEvaluator.Execute, StringObfuscator.Obfuscated and IPv4RangeExpander.Execute keep the behaviour as written. The corrected definitions under "## Findings" sit beside them.

## Findings

| source | as written | input that shows it | evidently intended | confidence | as-written member | corrected member |
|---|---|---|---|---|---|---|
| IPv4RangeExpander/IPv4RangeExpander.cs:43-48 | the loop stops at the lowest clear bit of start^end | 10.0.0.0 to 10.0.0.2 gives 10.0.0.0/32, which misses 10.0.0.2 | the block of the common prefix, which holds both ends | not executed | IPv4RangeExpander.BlockMissesEnd | IPv4RangeExpander.SmallestCidrContains |
| IPv4RangeExpander/IPv4RangeExpander.cs:42-45 | the shift count is masked to 5 bits, so when start^end is all ones the loop condition never fails | 0.0.0.0 to 255.255.255.255 never returns | 0.0.0.0/0 | not executed | IPv4RangeExpander.NeverEnds | IPv4RangeExpander.SmallestCidrContains |
| SlugifyString/SlugifyString.cs:74 | the "None" separator (the empty string) builds the regex "+", which .NET rejects | any non-empty text with separator "" gives an error | the words run together | not executed | SlugifyString.EmptySeparatorThrows | SlugifyString.CorrectedWithoutSeparator |
| MathEvaluator/MathEvaluator.cs:110-144 | the split is at the first top-level operator | "1-2-3" is computed as 1-(2-3) = 2 | left to right with * and / binding tighter: (1-2)-3 = -4 | not executed | MathEvaluator.SubtractionRightNested | MathEvaluator.CorrectedSubtraction |
| StringObfuscator/StringObfuscator.cs:63-74 | a negative count passes through parseInt into slice | text "abcd", first = -1, last = 2 gives "abccd" | counts below 0 taken as 0, as the fields' min="0" says | not executed | StringObfuscator.NegativeFirstRepeats | StringObfuscator.ObfuscatedClamped |
| ITtools_clone/Controllers/AdminController.cs:157-184 | UpdateUserPremium has no administrator check and copies the target user's flags into the caller's session | any caller, signed in or not, posting a user's id toggles that user's premium and gets the user's flags in its own session | the administrator gate of the other actions, with the caller's session left alone | not executed | Controllers.AdminController.UpdateUserPremium | Controllers.AdminController.UpdateUserPremiumChecked |
