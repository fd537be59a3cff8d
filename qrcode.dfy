/**
 * The QR code generator: the text checked, the two colours parsed and the
 * error correction level chosen. The image QRCoder renders from them is not
 * part of this model; a reply that succeeds records what it is made from.
 */
module QRCodeGenerator {
  import opened Wrappers
  import opened Text
  import opened DotNetConvert
  import HexColor
  import Radix

  /** The request object; a field the JSON sets to null is None. */
  datatype QRCodeRequest = QRCodeRequest(
    text: Option<string>,
    foregroundColor: Option<string>,
    backgroundColor: Option<string>,
    errorCorrectionLevel: Option<string>)

  /** QRCodeGenerator.ECCLevel. */
  datatype EccLevel = L | M | Q | H

  /** An { Error } object, or the inputs of the image that is returned. */
  datatype Reply =
    | Failure(error: string)
    | Generated(text: string, level: EccLevel, foreground: HexColor.Color, background: HexColor.Color)

  /** The switch on the lower-cased level name; anything else, null included, is Medium. */
  function EccLevelOf(name: Option<string>): (r: EccLevel)
    ensures r == L <==> name.Some? && ToLower(name.value) == "low"
    ensures r == Q <==> name.Some? && ToLower(name.value) == "quartile"
    ensures r == H <==> name.Some? && ToLower(name.value) == "high"
    ensures r == M <==> name.None? || (ToLower(name.value) != "low" && ToLower(name.value) != "quartile" && ToLower(name.value) != "high")
  {
    if name.None? then M
    else
      var level := ToLower(name.value);
      if level == "low" then L
      else if level == "medium" then M
      else if level == "quartile" then Q
      else if level == "high" then H
      else M
  }

  /** The level name's case does not matter. */
  lemma EccIgnoresCase(name: string)
    ensures EccLevelOf(Some(ToUpper(name))) == EccLevelOf(Some(name))
    ensures EccLevelOf(Some(ToLower(name))) == EccLevelOf(Some(name))
  {
    ToLowerOfUpper(name);
    ToLowerIdempotent(name);
  }

  /**
   * TryParseHexColor without a catch: r is the exception Convert.ToByte
   * throws, or whether the text was a colour; color is set only on success.
   */
  method TryParseHexColor(hexColor: Option<string>) returns (r: Outcome<bool>, color: HexColor.Color)
    ensures HexColor.Parse(hexColor).Thrown? ==> r == Thrown(HexColor.Parse(hexColor).exception)
    ensures HexColor.Parse(hexColor).Value? ==> r == Value(HexColor.Parse(hexColor).value.Some?)
    ensures color == if r == Value(true) then HexColor.Parse(hexColor).value.value else HexColor.Black
  {
    color := HexColor.Black;
    if hexColor.None? || IsBlank(hexColor.value) {
      return Value(false), color;
    }
    var hex := hexColor.value;
    if StartsWith(hex, "#") {
      hex := hex[1..];
    }
    assert hex == HexColor.Body(hexColor.value);
    if |hex| == 3 {
      var c := HexColor.Channels([hex[0], hex[0]], [hex[1], hex[1]], [hex[2], hex[2]]);
      if c.Thrown? {
        return Thrown(c.exception), color;
      }
      color := c.value;
      return Value(true), color;
    } else if |hex| == 6 {
      var c := HexColor.Channels(hex[0..2], hex[2..4], hex[4..6]);
      if c.Thrown? {
        return Thrown(c.exception), color;
      }
      color := c.value;
      return Value(true), color;
    }
    return Value(false), color;
  }

  /**
   * Execute, with the JSON deserializer and the exceptions' messages given: an
   * exception thrown while a colour is parsed reaches the catch of Execute and
   * its message becomes the Error.
   */
  method Execute(
    input: Option<string>,
    deserialize: string -> Result<Option<QRCodeRequest>>,
    message: Exception -> string) returns (r: Reply)
    ensures input.None? || IsBlank(input.value) ==> r == Failure("Invalid request. Input is empty.")
    ensures input.Some? && !IsBlank(input.value) && deserialize(input.value).Error? ==>
      r == Failure(deserialize(input.value).message)
    ensures input.Some? && !IsBlank(input.value) && deserialize(input.value).Ok? ==>
      var request := deserialize(input.value).value;
      (request.None? ==> r == Failure("QR code text content is required.")) &&
      (request.Some? ==> Answers(request.value, message, r))
  {
    if input.None? || IsBlank(input.value) {
      return Failure("Invalid request. Input is empty.");
    }
    var request := deserialize(input.value);
    if request.Error? {
      return Failure(request.message);
    }
    if request.value.None? {
      return Failure("QR code text content is required.");
    }
    r := ForRequest(request.value.value, message);
  }

  /** The reply to a request: each check in turn, then the image's inputs. */
  predicate Answers(q: QRCodeRequest, message: Exception -> string, r: Reply)
  {
    var fore := HexColor.Parse(q.foregroundColor);
    var back := HexColor.Parse(q.backgroundColor);
    if q.text.None? || IsBlank(q.text.value) then
      r == Failure("QR code text content is required.")
    else if fore.Thrown? then
      r == Failure(message(fore.exception))
    else if fore.value.None? then
      r == Failure("Invalid foreground color format. Use hex format: #RRGGBB")
    else if back.Thrown? then
      r == Failure(message(back.exception))
    else if back.value.None? then
      r == Failure("Invalid background color format. Use hex format: #RRGGBB")
    else
      r == Generated(q.text.value, EccLevelOf(q.errorCorrectionLevel), fore.value.value, back.value.value)
  }

  method ForRequest(q: QRCodeRequest, message: Exception -> string) returns (r: Reply)
    ensures Answers(q, message, r)
  {
    if q.text.None? || IsBlank(q.text.value) {
      return Failure("QR code text content is required.");
    }
    var foreOk, foreColor := TryParseHexColor(q.foregroundColor);
    if foreOk.Thrown? {
      return Failure(message(foreOk.exception));
    }
    if !foreOk.value {
      return Failure("Invalid foreground color format. Use hex format: #RRGGBB");
    }
    var backOk, backColor := TryParseHexColor(q.backgroundColor);
    if backOk.Thrown? {
      return Failure(message(backOk.exception));
    }
    if !backOk.value {
      return Failure("Invalid background color format. Use hex format: #RRGGBB");
    }
    var level := EccLevelOf(q.errorCorrectionLevel);
    return Generated(q.text.value, level, foreColor, backColor);
  }

  /** A bad digit in the short form is an Error carrying the library's message, not the format hint. */
  lemma BadDigitIsException(q: QRCodeRequest, message: Exception -> string, r: Reply, i: nat)
    requires q.text.Some? && !IsBlank(q.text.value)
    requires q.foregroundColor.Some? && !IsBlank(q.foregroundColor.value)
    requires |HexColor.Body(q.foregroundColor.value)| == 3 && i < 3
    requires !Radix.IsHexChar(HexColor.Body(q.foregroundColor.value)[i])
    requires Answers(q, message, r)
    ensures HexColor.Parse(q.foregroundColor).Thrown? && r == Failure(message(HexColor.Parse(q.foregroundColor).exception))
  {
    HexColor.ThreeWithNonHex(q.foregroundColor.value, i);
  }
}
