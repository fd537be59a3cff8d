/**
 * The Basic Auth Generator tool: the value of an HTTP Authorization header for
 * the "Basic" scheme of section 2 of RFC 7617, that is "Basic " followed by the
 * base 64 encoding of the UTF-8 bytes of user-id ":" password.
 */
module BasicAuthGenerator {
  import opened Wrappers
  import opened Text
  import opened Bytes
  import Base64
  import Utf8

  /** The request body; either field may be JSON null. */
  datatype BasicAuthRequest = BasicAuthRequest(username: Option<string>, password: Option<string>)

  const Scheme: string := "Basic "

  function GenerateBasicAuth(username: string, password: string): (r: string)
    ensures StartsWith(r, Scheme)
    ensures Base64.Decode(r[|Scheme|..]) == Some(Utf8.Encode(username + ":" + password))
    ensures |r| == |Scheme| + 4 * ((|Utf8.Encode(username + ":" + password)| + 2) / 3)
  {
    var credentials := Utf8.Encode(username + ":" + password);
    var r := Scheme + Base64.Encode(credentials);
    assert r[|Scheme|..] == Base64.Encode(credentials);
    Base64.DecodeEncode(credentials);
    r
  }

  /** The worked example: user "a", password "b". */
  lemma ExampleAB()
    ensures GenerateBasicAuth("a", "b") == "Basic YTpi"
  {
    assert "a" + ":" + "b" == "a:b";
    Utf8.EncodeAscii("a:b");
    assert Utf8.Encode("a:b") == [97, 58, 98];
    var b: seq<byte> := [97, 58, 98];
    assert Base64.Encode(b) == Base64.Group3(97, 58, 98) + Base64.Encode(b[3..]);
    assert b[3..] == [];
    assert Base64.CharOf(24) == 'Y' && Base64.CharOf(19) == 'T' && Base64.CharOf(41) == 'p' && Base64.CharOf(34) == 'i';
    assert 97 / 4 == 24 && (97 % 4) * 16 + 58 / 16 == 19 && (58 % 16) * 4 + 98 / 64 == 41 && 98 % 64 == 34;
    assert Base64.Group3(97, 58, 98) == [Base64.CharOf(24), Base64.CharOf(19), Base64.CharOf(41), Base64.CharOf(34)];
  }

  /**
   * A receiver that decodes the header and splits the credentials at the first
   * colon gets back the user-id and the password, for ASCII credentials whose
   * user-id has no colon (section 2 of RFC 7617 forbids one).
   */
  lemma CredentialsRecoverable(username: string, password: string)
    requires IsAscii(username) && IsAscii(password) && ':' !in username
    ensures var header := GenerateBasicAuth(username, password);
      var bytes := Base64.Decode(header[|Scheme|..]).value;
      var text := BytesAsAscii(bytes);
      ':' in text && text[..IndexOf(text, ':')] == username && text[IndexOf(text, ':') + 1..] == password
  {
    var s := username + ":" + password;
    assert IsAscii(s) by {
      forall i | 0 <= i < |s| ensures s[i] < 128 as char {
        if i < |username| { assert s[i] == username[i]; }
        else if i > |username| { assert s[i] == password[i - |username| - 1]; }
      }
    }
    Utf8.EncodeAscii(s);
    var text := BytesAsAscii(Utf8.Encode(s));
    assert text == s;
    IndexOfAfter(username, password, ':');
    assert s == username + [':'] + password;
  }

  /** Bytes below 128 read back as characters. */
  function BytesAsAscii(b: seq<byte>): (s: string)
    ensures |s| == |b|
    ensures forall i :: 0 <= i < |b| ==> s[i] as int == b[i] % 128
  {
    seq(|b|, i requires 0 <= i < |b| => (b[i] % 128) as char)
  }

  /**
   * Execute: blank input, a null request and an empty or null username are
   * refused; a null password counts as the empty one; a deserialisation
   * exception becomes its message.
   */
  function Execute(input: Option<string>, deserialize: string -> Result<Option<BasicAuthRequest>>): (r: Result<string>)
    ensures (input.None? || IsBlank(input.value)) ==> r == Error("Invalid request. Input is empty.")
    ensures input.Some? && !IsBlank(input.value) && deserialize(input.value).Ok? ==>
      var req := deserialize(input.value).value;
      if req.None? || req.value.username.None? || req.value.username.value == "" then
        r == Error("Username is required.")
      else
        r == Ok(GenerateBasicAuth(req.value.username.value, req.value.password.GetOr("")))
    ensures input.Some? && !IsBlank(input.value) && deserialize(input.value).Error? ==>
      r == Error(deserialize(input.value).message)
  {
    if input.None? || IsBlank(input.value) then Error("Invalid request. Input is empty.")
    else
      match deserialize(input.value)
      case Error(m) => Error(m)
      case Ok(request) =>
        if request.None? || request.value.username.None? || request.value.username.value == "" then
          Error("Username is required.")
        else
          Ok(GenerateBasicAuth(request.value.username.value, request.value.password.GetOr("")))
  }
}
