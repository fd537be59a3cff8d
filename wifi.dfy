/**
 * The WiFi QR code generator: the network's details checked, the WiFi
 * network string "WIFI:T:<type>;S:<ssid>;P:<password>;H:true;;" assembled with
 * its special characters escaped, and the two colours parsed. The string is
 * what the QR code encodes; the image itself is not part of this model.
 */
module WifiQRCodeGenerator {
  import opened Wrappers
  import opened Text
  import opened DotNetConvert
  import HexColor
  import Radix

  /** The request object; a field the JSON sets to null is None. */
  datatype WifiRequest = WifiRequest(
    ssid: Option<string>,
    password: Option<string>,
    encryptionMethod: Option<string>,
    foregroundColor: Option<string>,
    backgroundColor: Option<string>,
    isHidden: bool)

  /** An { Error } object, or the reply whose WifiString is the text the QR code holds. */
  datatype Reply = Failure(error: string) | Generated(wifiString: string)

  // ---- the authentication type ----

  /** MapEncryptionMethod: the lower-cased name looked up; anything unknown, null included, is WPA. */
  function MapEncryptionMethod(name: Option<string>): (r: string)
    ensures r == "WPA" || r == "WEP" || r == "WPA2-EAP" || r == "nopass"
    ensures r == "WEP" <==> name.Some? && ToLower(name.value) == "wep"
    ensures r == "WPA2-EAP" <==>
      name.Some? && (ToLower(name.value) == "wpa2-eap" || ToLower(name.value) == "wpa2/eap" || ToLower(name.value) == "eap")
    ensures r == "nopass" <==>
      name.Some? && (ToLower(name.value) == "nopass" || ToLower(name.value) == "none" || ToLower(name.value) == "no password")
  {
    if name.None? then "WPA"
    else
      var m := ToLower(name.value);
      if m == "wpa" || m == "wpa2" || m == "wpa/wpa2" then "WPA"
      else if m == "wep" then "WEP"
      else if m == "wpa2-eap" || m == "wpa2/eap" || m == "eap" then "WPA2-EAP"
      else if m == "nopass" || m == "none" || m == "no password" then "nopass"
      else "WPA"
  }

  /** The name's case does not matter. */
  lemma MapIgnoresCase(name: string)
    ensures MapEncryptionMethod(Some(ToUpper(name))) == MapEncryptionMethod(Some(name))
    ensures MapEncryptionMethod(Some(ToLower(name))) == MapEncryptionMethod(Some(name))
  {
    ToLowerOfUpper(name);
    ToLowerIdempotent(name);
  }

  // ---- escaping ----

  /** The characters the WiFi network string escapes with a backslash. */
  predicate IsSpecial(c: char)
  {
    c == '\\' || c == '"' || c == ';' || c == ',' || c == ':'
  }

  function EscapeChar(c: char): string
  {
    if IsSpecial(c) then ['\\', c] else [c]
  }

  /** Each character escaped on its own: the reference the replacement chain is checked against. */
  function Escaped(s: string): string
  {
    if s == [] then [] else EscapeChar(s[0]) + Escaped(s[1..])
  }

  /** The five Replace calls of EscapeInput, the backslash first. */
  function ReplaceChain(s: string): string
  {
    Replace(Replace(Replace(Replace(Replace(s, '\\', "\\\\"), '"', "\\\""), ';', "\\;"), ',', "\\,"), ':', "\\:")
  }

  /** EscapeInput: null or empty gives the empty string, and otherwise every special character is escaped once. */
  function EscapeInput(input: Option<string>): (r: string)
    ensures r == if input.None? then "" else Escaped(input.value)
  {
    if input.None? || input.value == "" then ""
    else
      EscapeChainIsEscaped(input.value);
      ReplaceChain(input.value)
  }

  /** Because the backslash is replaced first, no escape is escaped again. */
  lemma {:induction false} EscapeChainIsEscaped(s: string)
    ensures ReplaceChain(s) == Escaped(s)
  {
    if s != [] {
      assert s == [s[0]] + s[1..];
      ChainAppend([s[0]], s[1..]);
      ChainChar(s[0]);
      EscapeChainIsEscaped(s[1..]);
    }
  }

  lemma ChainAppend(a: string, b: string)
    ensures ReplaceChain(a + b) == ReplaceChain(a) + ReplaceChain(b)
  {
    var a1, b1 := Replace(a, '\\', "\\\\"), Replace(b, '\\', "\\\\");
    ReplaceAppend(a, b, '\\', "\\\\");
    var a2, b2 := Replace(a1, '"', "\\\""), Replace(b1, '"', "\\\"");
    ReplaceAppend(a1, b1, '"', "\\\"");
    var a3, b3 := Replace(a2, ';', "\\;"), Replace(b2, ';', "\\;");
    ReplaceAppend(a2, b2, ';', "\\;");
    var a4, b4 := Replace(a3, ',', "\\,"), Replace(b3, ',', "\\,");
    ReplaceAppend(a3, b3, ',', "\\,");
    ReplaceAppend(a4, b4, ':', "\\:");
  }

  lemma ChainChar(c: char)
    ensures ReplaceChain([c]) == EscapeChar(c)
  {
    ReplaceSingle(c, '\\', "\\\\");
    if c != '\\' {
      ReplaceSingle(c, '"', "\\\"");
      if c != '"' {
        ReplaceSingle(c, ';', "\\;");
        if c != ';' {
          ReplaceSingle(c, ',', "\\,");
          if c != ',' {
            ReplaceSingle(c, ':', "\\:");
          }
        }
      }
    }
  }

  /**
   * How a reader takes one field of the network string apart: up to the first
   * ';' that no backslash escapes, each escaped character taken literally.
   * Returns the field's value and what follows the ';'.
   */
  function ReadField(t: string): (r: (string, string))
    decreases |t|
  {
    if t == [] then ([], [])
    else if t[0] == ';' then ([], t[1..])
    else if t[0] == '\\' && |t| >= 2 then
      var (v, rest) := ReadField(t[2..]);
      ([t[1]] + v, rest)
    else
      var (v, rest) := ReadField(t[1..]);
      ([t[0]] + v, rest)
  }

  /** Reading an escaped field back gives the original text, whatever it contains, and leaves the rest. */
  lemma {:induction false} UnescapeRoundTrip(s: string, rest: string)
    ensures ReadField(Escaped(s) + ([';'] + rest)) == (s, rest)
  {
    var t := Escaped(s) + ([';'] + rest);
    if s == [] {
      assert t == [';'] + rest;
    } else {
      var tail := Escaped(s[1..]) + ([';'] + rest);
      assert t == EscapeChar(s[0]) + tail;
      UnescapeRoundTrip(s[1..], rest);
      assert s == [s[0]] + s[1..];
      if IsSpecial(s[0]) {
        assert t[0] == '\\' && t[1] == s[0] && t[2..] == tail;
      } else {
        assert t[0] == s[0] && t[1..] == tail;
      }
    }
  }

  // ---- the network string ----

  function Header(auth: string): string
  {
    "WIFI:T:" + auth + ";S:"
  }

  /** The P: field, present only with a non-empty password and a type other than nopass. */
  function PasswordField(auth: string, password: Option<string>): string
  {
    if password.Some? && password.value != "" && auth != "nopass" then "P:" + EscapeInput(password) + ";" else ""
  }

  function HiddenField(hidden: bool): string
  {
    if hidden then "H:true;" else ""
  }

  /** What follows the network name's ';': the optional fields, then the empty field that closes the string. */
  function Trailer(auth: string, password: Option<string>, hidden: bool): string
  {
    PasswordField(auth, password) + (HiddenField(hidden) + ";")
  }

  /** The network string, field by field. */
  function Payload(auth: string, ssid: Option<string>, password: Option<string>, hidden: bool): string
  {
    Header(auth) + (EscapeInput(ssid) + ([';'] + Trailer(auth, password, hidden)))
  }

  /** A reader finds the network name right after the header, whatever characters it holds. */
  lemma SsidReadsBack(auth: string, ssid: string, password: Option<string>, hidden: bool)
    ensures var p := Payload(auth, Some(ssid), password, hidden);
      var h := |Header(auth)|;
      h <= |p| && p[..h] == Header(auth) && ReadField(p[h..]) == (ssid, Trailer(auth, password, hidden))
  {
    var rest := Trailer(auth, password, hidden);
    var field := Escaped(ssid) + ([';'] + rest);
    var p := Payload(auth, Some(ssid), password, hidden);
    assert p == Header(auth) + field;
    assert p[|Header(auth)|..] == field;
    UnescapeRoundTrip(ssid, rest);
  }

  /** After the name the reader finds the password, whatever characters it holds, and then the hidden flag. */
  lemma PasswordReadsBack(auth: string, password: string, hidden: bool)
    requires password != "" && auth != "nopass"
    ensures var rest := Trailer(auth, Some(password), hidden);
      rest[..2] == "P:" && ReadField(rest[2..]) == (password, HiddenField(hidden) + ";")
  {
    var tail := HiddenField(hidden) + ";";
    assert PasswordField(auth, Some(password)) == "P:" + Escaped(password) + ";";
    assert Trailer(auth, Some(password), hidden) == ("P:" + Escaped(password) + ";") + tail;
    PasswordSplit(Escaped(password), tail);
    UnescapeRoundTrip(password, tail);
  }

  lemma PasswordSplit(e: string, tail: string)
    ensures var r := ("P:" + e + ";") + tail;
      r[..2] == "P:" && r[2..] == e + ([';'] + tail)
  {
    var r := ("P:" + e + ";") + tail;
    assert r == "P:" + (e + ([';'] + tail));
  }

  /** Without a password field, the trailer is the hidden flag and the closing ';' alone. */
  lemma NoPasswordField(auth: string, password: Option<string>, hidden: bool)
    requires password.None? || password.value == "" || auth == "nopass"
    ensures Trailer(auth, password, hidden) == HiddenField(hidden) + ";"
  {}

  /** The string grown step by step, as Execute does, is the network string. */
  lemma Assembled(auth: string, ssid: Option<string>, password: Option<string>, hidden: bool)
    ensures "WIFI:T:" + auth + ";S:" + EscapeInput(ssid) + ";" + PasswordField(auth, password) + HiddenField(hidden) + ";"
      == Payload(auth, ssid, password, hidden)
  {
    Associate("WIFI:T:", auth, ";S:", EscapeInput(ssid), ";", PasswordField(auth, password), HiddenField(hidden));
  }

  lemma Associate(a: string, b: string, c: string, e: string, s: string, p: string, x: string)
    ensures a + b + c + e + s + p + x + s == (a + b + c) + (e + (s + (p + (x + s))))
  {}

  // ---- colours ----

  /** The colours this tool accepts: those HexColor.Parse reads without throwing. */
  predicate Accepts(hex: Option<string>)
  {
    var p := HexColor.Parse(hex);
    p.Value? && p.value.Some?
  }

  /** TryParseHexColor: an exception from Convert.ToByte is caught and answers false. */
  method TryParseHexColor(hexColor: Option<string>) returns (ok: bool, color: HexColor.Color)
    ensures ok == Accepts(hexColor)
    ensures color == if ok then HexColor.Parse(hexColor).value.value else HexColor.Black
  {
    color := HexColor.Black;
    if hexColor.None? || IsBlank(hexColor.value) {
      return false, color;
    }
    var hex := hexColor.value;
    if StartsWith(hex, "#") {
      hex := hex[1..];
    }
    assert hex == HexColor.Body(hexColor.value);
    ghost var p := HexColor.Parse(hexColor);
    if |hex| == 3 {
      var c := HexColor.Channels([hex[0], hex[0]], [hex[1], hex[1]], [hex[2], hex[2]]);
      if c.Thrown? {
        assert p == Thrown(c.exception);
        return false, color;
      }
      assert p == Value(Some(c.value));
      color := c.value;
      return true, color;
    } else if |hex| == 6 {
      var c := HexColor.Channels(hex[0..2], hex[2..4], hex[4..6]);
      if c.Thrown? {
        assert p == Thrown(c.exception);
        return false, color;
      }
      assert p == Value(Some(c.value));
      color := c.value;
      return true, color;
    }
    assert p == Value(None);
    return false, color;
  }

  // ---- Execute ----

  /** Execute, with the JSON deserializer given; a deserializer that throws leaves its message as the Error. */
  method Execute(input: Option<string>, deserialize: string -> Result<Option<WifiRequest>>) returns (r: Reply)
    ensures input.None? || IsBlank(input.value) ==> r == Failure("Invalid request. Input is empty.")
    ensures input.Some? && !IsBlank(input.value) && deserialize(input.value).Error? ==>
      r == Failure(deserialize(input.value).message)
    ensures input.Some? && !IsBlank(input.value) && deserialize(input.value).Ok? ==>
      var request := deserialize(input.value).value;
      (request.None? ==> r == Failure("Network SSID is required.")) &&
      (request.Some? ==> Answers(request.value, r))
  {
    if input.None? || IsBlank(input.value) {
      return Failure("Invalid request. Input is empty.");
    }
    var request := deserialize(input.value);
    if request.Error? {
      return Failure(request.message);
    }
    if request.value.None? {
      return Failure("Network SSID is required.");
    }
    r := ForRequest(request.value.value);
  }

  /** The reply to a request: each check in turn, and the network string once all pass. */
  predicate Answers(q: WifiRequest, r: Reply)
  {
    var auth := MapEncryptionMethod(q.encryptionMethod);
    if q.ssid.None? || IsBlank(q.ssid.value) then
      r == Failure("Network SSID is required.")
    else if (auth == "WPA" || auth == "WEP") && (q.password.None? || q.password.value == "") then
      r == Failure("Password is required for " + auth + " encryption.")
    else if !Accepts(q.foregroundColor) then
      r == Failure("Invalid foreground color format. Use hex format: #RRGGBB")
    else if !Accepts(q.backgroundColor) then
      r == Failure("Invalid background color format. Use hex format: #RRGGBB")
    else
      r == Generated(Payload(auth, q.ssid, q.password, q.isHidden))
  }

  method ForRequest(q: WifiRequest) returns (r: Reply)
    ensures Answers(q, r)
  {
    if q.ssid.None? || IsBlank(q.ssid.value) {
      return Failure("Network SSID is required.");
    }
    var auth := MapEncryptionMethod(q.encryptionMethod);
    if auth == "WPA" || auth == "WEP" {
      if q.password.None? || q.password.value == "" {
        return Failure("Password is required for " + auth + " encryption.");
      }
    }
    var foreOk, foreColor := TryParseHexColor(q.foregroundColor);
    if !foreOk {
      return Failure("Invalid foreground color format. Use hex format: #RRGGBB");
    }
    var backOk, backColor := TryParseHexColor(q.backgroundColor);
    if !backOk {
      return Failure("Invalid background color format. Use hex format: #RRGGBB");
    }
    var wifi := WifiString(auth, q.ssid, q.password, q.isHidden);
    return Generated(wifi);
  }

  /** The network string grown by appending, one field at a time. */
  method WifiString(auth: string, ssid: Option<string>, password: Option<string>, hidden: bool) returns (wifi: string)
    ensures wifi == Payload(auth, ssid, password, hidden)
  {
    ghost var start := "WIFI:T:" + auth + ";S:" + EscapeInput(ssid) + ";";
    wifi := "WIFI:T:" + auth + ";S:" + EscapeInput(ssid) + ";";
    if password.Some? && password.value != "" && auth != "nopass" {
      wifi := wifi + ("P:" + EscapeInput(password) + ";");
    } else {
      assert wifi == wifi + "";
    }
    assert wifi == start + PasswordField(auth, password);
    if hidden {
      wifi := wifi + "H:true;";
    } else {
      assert wifi == wifi + "";
    }
    assert wifi == start + PasswordField(auth, password) + HiddenField(hidden);
    wifi := wifi + ";";
    Assembled(auth, ssid, password, hidden);
  }

  /** Here a bad digit in the short form is caught: the reply is the format hint. */
  lemma BadDigitIsRefused(q: WifiRequest, r: Reply, i: nat)
    requires q.ssid.Some? && !IsBlank(q.ssid.value)
    requires MapEncryptionMethod(q.encryptionMethod) == "nopass"
    requires q.foregroundColor.Some? && !IsBlank(q.foregroundColor.value)
    requires |HexColor.Body(q.foregroundColor.value)| == 3 && i < 3
    requires !Radix.IsHexChar(HexColor.Body(q.foregroundColor.value)[i])
    requires Answers(q, r)
    ensures r == Failure("Invalid foreground color format. Use hex format: #RRGGBB")
  {
    HexColor.ThreeWithNonHex(q.foregroundColor.value, i);
  }
}
