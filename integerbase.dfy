/**
 * The integer base converter: a number written in one base, read with
 * Convert.ToInt32 into a 32-bit integer, and written again with
 * Convert.ToString in one target base or in all the common ones.
 *
 * The two library calls are modelled in DotNetConvert; the tool accepts the
 * bases 2 to 64 on its own checks, so the bases the library refuses reach
 * the reply as the library's exception message.
 */
module IntegerBaseConverter {
  import opened Wrappers
  import opened Text
  import opened DotNetConvert
  import Base64
  import Utf8

  /** The request object; InputValue is null when the caller says so. */
  datatype Request = Request(inputValue: Option<string>, fromBase: int, toBase: int, convertToAllBases: bool)

  /** The response object: a converted value, a dictionary of conversions, and an error message. */
  datatype Response = Response(convertedValue: string, allConversions: map<string, string>, errorMessage: string)

  /** A response that carries only an error message. */
  function Failure(message: string): Response
  {
    Response("", map[], message)
  }

  /** The ErrorMessage each caught exception leaves. */
  function Caught(e: Exception): string
  {
    match e
    case FormatException => "Input value contains invalid characters for the selected base"
    case OverflowException => "Input value is too large to convert"
    case ArgumentException(message) => message
  }

  /** The keys the all-bases mode always fills. */
  const CommonKeys: set<string> := {"binary", "octal", "decimal", "hex", "base64"}

  /** The dictionary of the all-bases mode for the value v: the common bases, and the custom one if asked for. */
  predicate AllBases(r: Response, v: int, toBase: int)
    requires IsInt32(v)
  {
    r.errorMessage == "" && r.convertedValue == "" &&
    r.allConversions.Keys == CommonKeys + (if 2 <= toBase <= 64 then {"custom"} else {}) &&
    r.allConversions["binary"] == BaseString(v, 2) &&
    r.allConversions["octal"] == BaseString(v, 8) &&
    r.allConversions["decimal"] == IntToString(v) &&
    r.allConversions["hex"] == ToUpper(BaseString(v, 16)) &&
    r.allConversions["base64"] == Base64.Encode(Utf8.Encode(IntToString(v))) &&
    ("custom" in r.allConversions ==> IsConvertBase(toBase) && r.allConversions["custom"] == ToUpper(BaseString(v, toBase)))
  }

  /**
   * Execute. A caller that hands over anything but a request object gets
   * "Invalid input" (None here). An exception anywhere replaces the whole
   * response with one that carries only the error message.
   */
  method Execute(input: Option<Request>) returns (r: Response)
    ensures input.None? ==> r == Failure("Invalid input")
    ensures input.Some? && (input.value.inputValue.None? || input.value.inputValue.value == "") ==>
      r == Failure("Input value cannot be empty")
    ensures input.Some? && input.value.inputValue.Some? && input.value.inputValue.value != "" ==>
      var request := input.value;
      var parsed := ToInt32(request.inputValue.value, request.fromBase);
      if request.fromBase < 2 || request.fromBase > 64 then
        r == Failure("Source base must be between 2 and 64")
      else if parsed.Thrown? then
        r == Failure(Caught(parsed.exception))
      else if request.convertToAllBases then
        if 2 <= request.toBase <= 64 && !IsConvertBase(request.toBase) then r == Failure(InvalidBase)
        else AllBases(r, parsed.value, request.toBase)
      else if request.toBase < 2 || request.toBase > 64 then
        r == Failure("Target base must be between 2 and 64")
      else if !IsConvertBase(request.toBase) then
        r == Failure(InvalidBase)
      else
        r == Response(ToUpper(BaseString(parsed.value, request.toBase)), map[], "")
  {
    if input.None? {
      return Failure("Invalid input");
    }
    var request := input.value;
    if request.inputValue.None? || request.inputValue.value == "" {
      return Failure("Input value cannot be empty");
    }
    if request.fromBase < 2 || request.fromBase > 64 {
      return Failure("Source base must be between 2 and 64");
    }
    var parsed := ToInt32(request.inputValue.value, request.fromBase);
    if parsed.Thrown? {
      return Failure(Caught(parsed.exception));
    }
    if request.convertToAllBases {
      r := ConvertToAll(parsed.value, request.toBase);
    } else {
      r := ConvertToOne(parsed.value, request.toBase);
    }
  }

  /** The all-bases branch: each step adds one entry to the dictionary. */
  method ConvertToAll(v: int, toBase: int) returns (r: Response)
    requires IsInt32(v)
    ensures if 2 <= toBase <= 64 && !IsConvertBase(toBase) then r == Failure(InvalidBase) else AllBases(r, v, toBase)
  {
    var conversions: map<string, string> := map[];
    conversions := conversions["binary" := BaseString(v, 2)];
    conversions := conversions["octal" := BaseString(v, 8)];
    conversions := conversions["decimal" := IntToString(v)];
    conversions := conversions["hex" := ToUpper(BaseString(v, 16))];
    // The UTF-8 bytes of the decimal digits always encode, so the local catch is never taken.
    conversions := conversions["base64" := Base64.Encode(Utf8.Encode(IntToString(v)))];
    assert conversions.Keys == CommonKeys;
    if 2 <= toBase <= 64 {
      var custom := ToStringIn(v, toBase);
      if custom.Thrown? {
        return Failure(Caught(custom.exception));
      }
      conversions := conversions["custom" := ToUpper(custom.value)];
    }
    r := Response("", conversions, "");
  }

  /** The single-base branch. */
  method ConvertToOne(v: int, toBase: int) returns (r: Response)
    requires IsInt32(v)
    ensures toBase < 2 || toBase > 64 ==> r == Failure("Target base must be between 2 and 64")
    ensures 2 <= toBase <= 64 && !IsConvertBase(toBase) ==> r == Failure(InvalidBase)
    ensures IsConvertBase(toBase) ==> r == Response(ToUpper(BaseString(v, toBase)), map[], "")
  {
    if toBase < 2 || toBase > 64 {
      return Failure("Target base must be between 2 and 64");
    }
    var converted := ToStringIn(v, toBase);
    if converted.Thrown? {
      return Failure(Caught(converted.exception));
    }
    r := Response(ToUpper(converted.value), map[], "");
  }

}
