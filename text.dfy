/**
 * Character and string helpers shared by the tools: ASCII case mapping (what
 * ToUpper/ToLower do on ASCII), the .NET whitespace class, Trim, Split, Join,
 * decimal rendering and the int.TryParse integer grammar.
 */
module Text {
  import opened Wrappers

  const Int32Min: int := -0x8000_0000
  const Int32Max: int := 0x7FFF_FFFF

  predicate IsInt32(n: int) { Int32Min <= n <= Int32Max }

  predicate IsAsciiUpper(c: char) { 'A' <= c <= 'Z' }
  predicate IsAsciiLower(c: char) { 'a' <= c <= 'z' }
  predicate IsAsciiLetter(c: char) { IsAsciiUpper(c) || IsAsciiLower(c) }
  predicate IsDigit(c: char) { '0' <= c <= '9' }
  predicate IsAscii(s: string) { forall i :: 0 <= i < |s| ==> s[i] < 128 as char }

  function ToLowerChar(c: char): (r: char)
    ensures !IsAsciiUpper(r)
    ensures IsAsciiUpper(c) ==> IsAsciiLower(r)
    ensures !IsAsciiUpper(c) ==> r == c
  {
    if IsAsciiUpper(c) then (c as int + 32) as char else c
  }

  function ToUpperChar(c: char): (r: char)
    ensures !IsAsciiLower(r)
    ensures IsAsciiLower(c) ==> IsAsciiUpper(r)
    ensures !IsAsciiLower(c) ==> r == c
  {
    if IsAsciiLower(c) then (c as int - 32) as char else c
  }

  /** string.ToLower / ToLowerInvariant restricted to the ASCII letters. */
  function ToLower(s: string): (r: string)
    ensures |r| == |s|
  {
    if s == [] then [] else [ToLowerChar(s[0])] + ToLower(s[1..])
  }

  /** ToLower maps each character on its own. */
  lemma {:induction false} ToLowerAt(s: string)
    ensures forall i :: 0 <= i < |s| ==> ToLower(s)[i] == ToLowerChar(s[i])
  {
    if s != [] {
      ToLowerAt(s[1..]);
    }
  }

  /** string.ToUpper restricted to the ASCII letters. */
  function ToUpper(s: string): (r: string)
    ensures |r| == |s|
  {
    if s == [] then [] else [ToUpperChar(s[0])] + ToUpper(s[1..])
  }

  /** ToUpper maps each character on its own. */
  lemma {:induction false} ToUpperAt(s: string)
    ensures forall i :: 0 <= i < |s| ==> ToUpper(s)[i] == ToUpperChar(s[i])
  {
    if s != [] {
      ToUpperAt(s[1..]);
    }
  }

  lemma ToLowerChar_Idempotent(c: char)
    ensures ToLowerChar(ToLowerChar(c)) == ToLowerChar(c)
  {}

  lemma ToLowerUpperChar(c: char)
    ensures ToLowerChar(ToUpperChar(c)) == ToLowerChar(c)
    ensures ToUpperChar(ToLowerChar(c)) == ToUpperChar(c)
  {}

  /** Case mapping commutes with concatenation. */
  lemma ToLowerAppend(a: string, b: string)
    ensures ToLower(a + b) == ToLower(a) + ToLower(b)
  {
    ToLowerAt(a + b);
    ToLowerAt(a);
    ToLowerAt(b);
    forall i | 0 <= i < |a + b| ensures ToLower(a + b)[i] == (ToLower(a) + ToLower(b))[i] {
      if i < |a| { assert (a + b)[i] == a[i]; } else { assert (a + b)[i] == b[i - |a|]; }
    }
  }

  lemma ToUpperAppend(a: string, b: string)
    ensures ToUpper(a + b) == ToUpper(a) + ToUpper(b)
  {
    ToUpperAt(a + b);
    ToUpperAt(a);
    ToUpperAt(b);
    forall i | 0 <= i < |a + b| ensures ToUpper(a + b)[i] == (ToUpper(a) + ToUpper(b))[i] {
      if i < |a| { assert (a + b)[i] == a[i]; } else { assert (a + b)[i] == b[i - |a|]; }
    }
  }

  /** Upper-casing erases the case of every ASCII letter. */
  lemma ToUpperOfLower(s: string)
    ensures ToUpper(ToLower(s)) == ToUpper(s)
  {
    ToUpperAt(ToLower(s));
    ToLowerAt(s);
    ToUpperAt(s);
    forall i | 0 <= i < |s| ensures ToUpper(ToLower(s))[i] == ToUpper(s)[i] {
      ToLowerUpperChar(s[i]);
    }
  }

  lemma ToLowerOfUpper(s: string)
    ensures ToLower(ToUpper(s)) == ToLower(s)
  {
    ToLowerAt(ToUpper(s));
    ToUpperAt(s);
    ToLowerAt(s);
    forall i | 0 <= i < |s| ensures ToLower(ToUpper(s))[i] == ToLower(s)[i] {
      ToLowerUpperChar(s[i]);
    }
  }

  /** char.IsWhiteSpace, which is also the class matched by the regular expression \s. */
  predicate IsWhiteSpace(c: char)
  {
    c == ' ' || ('\t' <= c <= '\r') || c == '\U{0085}' || c == '\U{00A0}' || c == '\U{1680}'
    || ('\U{2000}' <= c <= '\U{200A}') || c == '\U{2028}' || c == '\U{2029}' || c == '\U{202F}'
    || c == '\U{205F}' || c == '\U{3000}'
  }

  /** string.IsNullOrWhiteSpace on a non-null string. */
  predicate IsBlank(s: string) { forall i :: 0 <= i < |s| ==> IsWhiteSpace(s[i]) }

  function TrimStart(s: string): (r: string)
    ensures |r| <= |s| && r == s[|s| - |r|..]
    ensures r == [] || !IsWhiteSpace(r[0])
    ensures IsBlank(s[..|s| - |r|])
  {
    if s == [] || !IsWhiteSpace(s[0]) then s
    else
      var r := TrimStart(s[1..]);
      assert s[..|s| - |r|] == [s[0]] + s[1..][..|s[1..]| - |r|];
      r
  }

  function TrimEnd(s: string): (r: string)
    ensures |r| <= |s| && r == s[..|r|]
    ensures r == [] || !IsWhiteSpace(r[|r| - 1])
    ensures IsBlank(s[|r|..])
  {
    if s == [] || !IsWhiteSpace(s[|s| - 1]) then s
    else
      var r := TrimEnd(s[..|s| - 1]);
      assert s[|r|..] == s[..|s| - 1][|r|..] + [s[|s| - 1]];
      r
  }

  /** string.Trim(): whitespace removed at both ends. */
  function Trim(s: string): (r: string)
    ensures |r| <= |s|
    ensures r == [] || (!IsWhiteSpace(r[0]) && !IsWhiteSpace(r[|r| - 1]))
    ensures IsBlank(s) <==> r == []
  {
    var t := TrimStart(s);
    var r := TrimEnd(t);
    BlankBoth(s, t, r);
    r
  }

  /** s is blank iff nothing is left after trimming both ends. */
  lemma BlankBoth(s: string, t: string, r: string)
    requires |t| <= |s| && t == s[|s| - |t|..] && IsBlank(s[..|s| - |t|]) && (t == [] || !IsWhiteSpace(t[0]))
    requires |r| <= |t| && r == t[..|r|] && IsBlank(t[|r|..])
    ensures IsBlank(s) <==> r == []
  {
    assert s == s[..|s| - |t|] + t;
    if r == [] {
      assert t == t[|r|..];
      assert t == [];
    } else {
      assert t[0] == r[0];
    }
  }

  /** Trim keeps a contiguous slice of its input. */
  lemma TrimSlice(s: string) returns (a: nat, b: nat)
    ensures a <= b <= |s| && Trim(s) == s[a..b]
  {
    var t := TrimStart(s);
    a := |s| - |t|;
    b := a + |TrimEnd(t)|;
    assert TrimEnd(t) == t[..|TrimEnd(t)|];
  }

  function StartsWith(s: string, prefix: string): bool
  {
    |prefix| <= |s| && s[..|prefix|] == prefix
  }

  function EndsWith(s: string, suffix: string): bool
  {
    |suffix| <= |s| && s[|s| - |suffix|..] == suffix
  }

  /** EndsWith(suffix, StringComparison.OrdinalIgnoreCase), case folded on ASCII. */
  function EndsWithIgnoreCase(s: string, suffix: string): bool
  {
    EndsWith(ToLower(s), ToLower(suffix))
  }

  /** string.Contains(sub) with ordinal comparison. */
  predicate Contains(s: string, sub: string)
  {
    exists i :: 0 <= i <= |s| - |sub| && OccursAt(s, sub, i)
  }

  predicate OccursAt(s: string, sub: string, i: int)
  {
    0 <= i <= |s| - |sub| && s[i..i + |sub|] == sub
  }

  /** n copies of c. */
  function Repeat(c: char, n: nat): (r: string)
    ensures |r| == n && forall i :: 0 <= i < n ==> r[i] == c
  {
    if n == 0 then "" else [c] + Repeat(c, n - 1)
  }

  /** String.PadLeft(n, c): c prepended until the length is at least n. */
  function PadLeft(s: string, n: nat, c: char): (r: string)
    ensures |r| == if |s| >= n then |s| else n
    ensures r == Repeat(c, |r| - |s|) + s
  {
    if |s| >= n then s else Repeat(c, n - |s|) + s
  }

  /** String.Insert(i, t). */
  function Insert(s: string, i: nat, t: string): (r: string)
    requires i <= |s|
    ensures |r| == |s| + |t| && r[..i] == s[..i] && r[i..i + |t|] == t && r[i + |t|..] == s[i..]
  {
    s[..i] + t + s[i..]
  }

  /** String.Split(c) (and JavaScript's split(c)): the pieces between the separators, empty ones included. */
  function Split(s: string, c: char): (r: seq<string>)
    ensures |r| >= 1
    ensures forall k :: 0 <= k < |r| ==> c !in r[k]
    decreases |s|
  {
    if c !in s then [s]
    else
      var i := IndexOf(s, c);
      [s[..i]] + Split(s[i + 1..], c)
  }

  /** The index of the first occurrence of c. */
  function IndexOf(s: string, c: char): (i: nat)
    requires c in s
    ensures i < |s| && s[i] == c && c !in s[..i]
  {
    if s[0] == c then 0 else 1 + IndexOf(s[1..], c)
  }

  function Join(sep: string, parts: seq<string>): string
  {
    if parts == [] then ""
    else if |parts| == 1 then parts[0]
    else parts[0] + sep + Join(sep, parts[1..])
  }

  /** Joining one more part adds the separator and the part at the end. */
  lemma {:induction false} JoinAppend(sep: string, parts: seq<string>, p: string)
    ensures Join(sep, parts + [p]) == if parts == [] then p else Join(sep, parts) + sep + p
  {
    if |parts| > 1 {
      assert (parts + [p])[1..] == parts[1..] + [p];
      JoinAppend(sep, parts[1..], p);
    } else if |parts| == 1 {
      assert (parts + [p])[1..] == [p];
    }
  }

  /** Joining with a separator character and splitting on it are inverse. */
  lemma {:induction false} SplitJoin(parts: seq<string>, c: char)
    requires |parts| >= 1
    requires forall k :: 0 <= k < |parts| ==> c !in parts[k]
    ensures Split(Join([c], parts), c) == parts
  {
    if |parts| == 1 {
    } else {
      var s := Join([c], parts);
      var rest := Join([c], parts[1..]);
      assert s == parts[0] + [c] + rest;
      assert c in s by { assert s[|parts[0]|] == c; }
      IndexOfAfter(parts[0], rest, c);
      assert s[|parts[0]| + 1..] == rest;
      assert s[..|parts[0]|] == parts[0];
      SplitJoin(parts[1..], c);
    }
  }

  lemma IndexOfAfter(a: string, b: string, c: char)
    requires c !in a
    ensures c in a + [c] + b && IndexOf(a + [c] + b, c) == |a|
  {
    var s := a + [c] + b;
    assert s[|a|] == c;
    var i := IndexOf(s, c);
  }

  /** string.Replace(c.ToString(), t): every occurrence of c replaced by the text t. */
  function Replace(s: string, c: char, t: string): (r: string)
    ensures c !in t ==> c !in r
    ensures c !in s ==> r == s
  {
    if s == [] then [] else (if s[0] == c then t else [s[0]]) + Replace(s[1..], c, t)
  }

  /** Replacing works piece by piece. */
  lemma {:induction false} ReplaceAppend(a: string, b: string, c: char, t: string)
    ensures Replace(a + b, c, t) == Replace(a, c, t) + Replace(b, c, t)
  {
    if a == [] {
      assert a + b == b;
    } else {
      assert (a + b)[0] == a[0] && (a + b)[1..] == a[1..] + b;
      ReplaceAppend(a[1..], b, c, t);
    }
  }

  /** Replacing in a one-character string. */
  lemma ReplaceSingle(x: char, c: char, t: string)
    ensures Replace([x], c, t) == if x == c then t else [x]
  {
    assert [x][1..] == [];
  }

  /** Lower-casing twice is lower-casing once. */
  lemma ToLowerIdempotent(s: string)
    ensures ToLower(ToLower(s)) == ToLower(s)
  {
    ToLowerAt(ToLower(s));
    ToLowerAt(s);
  }

  // ---- decimal numbers ----

  function DigitChar(d: nat): (c: char)
    requires d < 10
    ensures IsDigit(c)
  {
    ('0' as int + d) as char
  }

  function DigitValue(c: char): (d: nat)
    requires IsDigit(c)
    ensures d < 10 && DigitChar(d) == c
  {
    c as int - '0' as int
  }

  /** The decimal rendering of a natural number, without leading zeros (n.ToString()). */
  function NatToString(n: nat): (r: string)
    ensures |r| >= 1 && forall i :: 0 <= i < |r| ==> IsDigit(r[i])
    ensures n > 0 ==> r[0] != '0'
    decreases n
  {
    if n < 10 then [DigitChar(n)] else NatToString(n / 10) + [DigitChar(n % 10)]
  }

  /** The decimal rendering of an integer (int.ToString() in the invariant culture). */
  function IntToString(n: int): (r: string)
    ensures |r| >= 1
    ensures n < 0 <==> r[0] == '-'
  {
    if n < 0 then "-" + NatToString(-n) else NatToString(n)
  }

  /** The value of a string of decimal digits. */
  function DigitsValue(s: string): nat
    requires forall i :: 0 <= i < |s| ==> IsDigit(s[i])
  {
    if s == [] then 0 else DigitsValue(s[..|s| - 1]) * 10 + DigitValue(s[|s| - 1])
  }

  lemma {:induction false} NatToStringValue(n: nat)
    ensures DigitsValue(NatToString(n)) == n
    decreases n
  {
    if n >= 10 {
      var s := NatToString(n);
      assert s[..|s| - 1] == NatToString(n / 10);
      NatToStringValue(n / 10);
    }
  }

  predicate AllDigits(s: string) { |s| >= 1 && forall i :: 0 <= i < |s| ==> IsDigit(s[i]) }

  /** The white space int.TryParse skips around a number: U+0009 to U+000D and the space. */
  predicate IsNumberSpace(c: char) { c == ' ' || '\t' <= c <= '\r' }

  /** The text after its leading number white space. */
  function SkipNumberSpace(s: string): (r: string)
    ensures |r| <= |s| && r == s[|s| - |r|..]
    ensures r == [] || !IsNumberSpace(r[0])
    ensures forall i :: 0 <= i < |s| - |r| ==> IsNumberSpace(s[i])
  {
    if s == [] || !IsNumberSpace(s[0]) then s
    else
      var r := SkipNumberSpace(s[1..]);
      assert forall i :: 1 <= i < |s| ==> s[i] == s[1..][i - 1];
      r
  }

  /** The text without its trailing number white space. */
  function DropNumberSpace(s: string): (r: string)
    ensures |r| <= |s| && r == s[..|r|]
    ensures r == [] || !IsNumberSpace(r[|r| - 1])
    ensures forall i :: |r| <= i < |s| ==> IsNumberSpace(s[i])
  {
    if s == [] || !IsNumberSpace(s[|s| - 1]) then s else DropNumberSpace(s[..|s| - 1])
  }

  /** The text without its trailing U+0000 characters. */
  function DropNuls(s: string): (r: string)
    ensures |r| <= |s| && r == s[..|r|]
    ensures r == [] || r[|r| - 1] != '\0'
    ensures forall i :: |r| <= i < |s| ==> s[i] == '\0'
  {
    if s == [] || s[|s| - 1] != '\0' then s else DropNuls(s[..|s| - 1])
  }

  /**
   * int.TryParse(s, out n) with NumberStyles.Integer, in a culture whose signs
   * are '-' and '+': number white space, an optional sign, at least one decimal
   * digit, number white space, then any number of U+0000 characters, and a
   * value that fits in 32 bits. Other white space (U+00A0, say) is refused.
   */
  function TryParseInt32(s: string): (r: Option<int>)
    ensures r.Some? ==> IsInt32(r.value)
  {
    ParseSigned(NumberCore(s))
  }

  /** The text int.TryParse reads a number from: the padding around it taken off. */
  function NumberCore(s: string): string
  {
    SkipNumberSpace(DropNumberSpace(DropNuls(s)))
  }

  /** An optional sign and at least one decimal digit, with a value that fits in 32 bits. */
  function ParseSigned(t: string): (r: Option<int>)
    ensures r.Some? ==> IsInt32(r.value)
  {
    if t == [] then None
    else
      var negative := t[0] == '-';
      var digits := if t[0] == '-' || t[0] == '+' then t[1..] else t;
      if !AllDigits(digits) then None
      else
        var d: int := DigitsValue(digits);
        var v := if negative then -d else d;
        if IsInt32(v) then Some(v) else None
  }

  /** Trailing U+0000 characters after a text that does not end in one are dropped. */
  lemma {:induction false} DropNulsAfter(y: string, z: string)
    requires y == [] || y[|y| - 1] != '\0'
    requires forall i :: 0 <= i < |z| ==> z[i] == '\0'
    ensures DropNuls(y + z) == y
    decreases |z|
  {
    if z != [] {
      var w := z[..|z| - 1];
      assert (y + z)[..|y + z| - 1] == y + w;
      DropNulsAfter(y, w);
    } else {
      assert y + z == y;
    }
  }

  /** Trailing number white space after a text that does not end in it is dropped. */
  lemma {:induction false} DropNumberSpaceAfter(y: string, z: string)
    requires y == [] || !IsNumberSpace(y[|y| - 1])
    requires forall i :: 0 <= i < |z| ==> IsNumberSpace(z[i])
    ensures DropNumberSpace(y + z) == y
    decreases |z|
  {
    if z != [] {
      var w := z[..|z| - 1];
      assert (y + z)[..|y + z| - 1] == y + w;
      DropNumberSpaceAfter(y, w);
    } else {
      assert y + z == y;
    }
  }

  /** Leading number white space before a text that does not start with it is skipped. */
  lemma {:induction false} SkipNumberSpaceBefore(y: string, z: string)
    requires forall i :: 0 <= i < |y| ==> IsNumberSpace(y[i])
    requires z == [] || !IsNumberSpace(z[0])
    ensures SkipNumberSpace(y + z) == z
    decreases |y|
  {
    if y != [] {
      assert (y + z)[1..] == y[1..] + z;
      SkipNumberSpaceBefore(y[1..], z);
    } else {
      assert y + z == z;
    }
  }

  /** A rendered integer starts with '-' or a digit and ends with a digit. */
  lemma RenderingEnds(n: int)
    ensures var s := IntToString(n);
      s != [] && (s[0] == '-' || IsDigit(s[0])) && IsDigit(s[|s| - 1])
  {
    var m: nat := if n < 0 then -n else n;
    var digits := NatToString(m);
    assert IntToString(n) == if n < 0 then "-" + digits else digits;
  }

  /** Every 32-bit integer's own rendering parses back to it. */
  lemma ParseIntToString(n: int)
    requires IsInt32(n)
    ensures TryParseInt32(IntToString(n)) == Some(n)
  {
    RenderingEnds(n);
    PlainCore(IntToString(n));
    SignedRendering(n);
  }

  /** The sign and digits of a rendered 32-bit integer read back as the integer. */
  lemma SignedRendering(n: int)
    requires IsInt32(n)
    ensures ParseSigned(IntToString(n)) == Some(n)
  {
    var m: nat := if n < 0 then -n else n;
    var digits := NatToString(m);
    var s := if n < 0 then "-" + digits else digits;
    assert IntToString(n) == s;
    assert AllDigits(digits);
    NatToStringValue(m);
    if n < 0 {
      assert s[0] == '-' && s[1..] == digits;
    } else {
      assert s[0] != '-' && s[0] != '+';
    }
  }

  /** The padding around a text that neither starts nor ends with number white space, nor ends with U+0000. */
  lemma PaddingDropped(before: string, s: string, after: string, nuls: string)
    requires s != [] && !IsNumberSpace(s[0]) && !IsNumberSpace(s[|s| - 1]) && s[|s| - 1] != '\0'
    requires forall i :: 0 <= i < |before| ==> IsNumberSpace(before[i])
    requires forall i :: 0 <= i < |after| ==> IsNumberSpace(after[i])
    requires forall i :: 0 <= i < |nuls| ==> nuls[i] == '\0'
    ensures SkipNumberSpace(DropNumberSpace(DropNuls(before + s + after + nuls))) == s
  {
    var y := before + s;
    assert y[|y| - 1] == s[|s| - 1];
    if after != [] {
      assert (y + after)[|y + after| - 1] == after[|after| - 1];
    } else {
      assert y + after == y;
    }
    DropNulsAfter(y + after, nuls);
    DropNumberSpaceAfter(y, after);
    SkipNumberSpaceBefore(before, s);
  }

  /**
   * The rendering of a 32-bit integer with number white space before and
   * after it and U+0000 characters at the end parses back to the integer.
   */
  lemma ParsePadded(n: int, before: string, after: string, nuls: string)
    requires IsInt32(n)
    requires forall i :: 0 <= i < |before| ==> IsNumberSpace(before[i])
    requires forall i :: 0 <= i < |after| ==> IsNumberSpace(after[i])
    requires forall i :: 0 <= i < |nuls| ==> nuls[i] == '\0'
    ensures TryParseInt32(before + IntToString(n) + after + nuls) == Some(n)
  {
    RenderingEnds(n);
    ParseIntToString(n);
    PaddedText(IntToString(n), Some(n), before, after, nuls);
  }

  /** Padding around a text that starts with a sign or digit and ends with a digit does not change what it parses to. */
  lemma PaddedText(s: string, v: Option<int>, before: string, after: string, nuls: string)
    requires s != [] && (s[0] == '-' || IsDigit(s[0])) && IsDigit(s[|s| - 1]) && TryParseInt32(s) == v
    requires forall i :: 0 <= i < |before| ==> IsNumberSpace(before[i])
    requires forall i :: 0 <= i < |after| ==> IsNumberSpace(after[i])
    requires forall i :: 0 <= i < |nuls| ==> nuls[i] == '\0'
    ensures TryParseInt32(before + s + after + nuls) == v
  {
    var x := before + s + after + nuls;
    PaddedCore(before, s, after, nuls);
    PlainCore(s);
    SameCore(x, s);
  }

  lemma PaddedCore(before: string, s: string, after: string, nuls: string)
    requires s != [] && (s[0] == '-' || IsDigit(s[0])) && IsDigit(s[|s| - 1])
    requires forall i :: 0 <= i < |before| ==> IsNumberSpace(before[i])
    requires forall i :: 0 <= i < |after| ==> IsNumberSpace(after[i])
    requires forall i :: 0 <= i < |nuls| ==> nuls[i] == '\0'
    ensures NumberCore(before + s + after + nuls) == s
  {
    PaddingDropped(before, s, after, nuls);
  }

  lemma PlainCore(s: string)
    requires s != [] && (s[0] == '-' || IsDigit(s[0])) && IsDigit(s[|s| - 1])
    ensures NumberCore(s) == s
  {
    assert DropNuls(s) == s;
    assert DropNumberSpace(s) == s;
    assert SkipNumberSpace(s) == s;
  }

  lemma SameCore(x: string, y: string)
    requires NumberCore(x) == NumberCore(y)
    ensures TryParseInt32(x) == TryParseInt32(y)
  {}

  /** A text that starts with white space other than number white space, such as U+00A0, is no integer. */
  lemma OtherSpaceBefore(c: char, s: string)
    requires IsWhiteSpace(c) && !IsNumberSpace(c)
    ensures TryParseInt32([c] + s) == None
  {
    var x := [c] + s;
    assert x[0] == c;
    var a := DropNuls(x);
    assert a != [] && a[0] == c;
    var b := DropNumberSpace(a);
    assert b != [] && b[0] == c;
    assert SkipNumberSpace(b) == b;
  }

  /** A text that ends in white space other than number white space, such as U+00A0, is no integer. */
  lemma OtherSpaceAfter(s: string, c: char)
    requires IsWhiteSpace(c) && !IsNumberSpace(c)
    ensures TryParseInt32(s + [c]) == None
  {
    var x := s + [c];
    assert x[|x| - 1] == c && c != '\0' && !IsDigit(c);
    assert DropNuls(x) == x;
    assert DropNumberSpace(x) == x;
    var t := SkipNumberSpace(x);
    assert t == [] || t[|t| - 1] == c;
  }

  /** 5 after a no-break space is refused; 5 followed by U+0000 is read as 5. */
  lemma NoBreakSpaceAndNul()
    ensures TryParseInt32("\U{00A0}5") == None
    ensures TryParseInt32("5\0") == Some(5)
  {
    OtherSpaceBefore('\U{00A0}', "5");
    assert "\U{00A0}5" == ['\U{00A0}'] + "5";
    assert IntToString(5) == "5";
    ParsePadded(5, [], [], "\0");
    assert [] + "5" + [] + "\0" == "5\0";
  }

  lemma TrimNoWhiteSpace(s: string)
    requires |s| >= 1 && !IsWhiteSpace(s[0]) && !IsWhiteSpace(s[|s| - 1])
    ensures Trim(s) == s
  {
    assert TrimStart(s) == s;
    assert TrimEnd(s) == s;
  }

  /** C# unchecked int arithmetic: the 32-bit two's complement wrap-around of an integer. */
  function WrapInt32(x: int): (r: int)
    ensures IsInt32(r)
    ensures IsInt32(x) ==> r == x
  {
    (x - Int32Min) % 0x1_0000_0000 + Int32Min
  }

  /** Wrapping after every addition is the same as wrapping once at the end. */
  lemma WrapInt32Add(a: int, b: int)
    ensures WrapInt32(WrapInt32(a) + b) == WrapInt32(a + b)
  {
    var q := (a - Int32Min) / 0x1_0000_0000;
    var x := a + b - Int32Min;
    assert WrapInt32(a) + b - Int32Min == x - q * 0x1_0000_0000;
    var d, r := x / 0x1_0000_0000, x % 0x1_0000_0000;
    assert x - q * 0x1_0000_0000 == (d - q) * 0x1_0000_0000 + r;
  }

  /** Unchecked int addition of a non-negative amount that fits in 32 bits: it overflows at most once. */
  function AddInt32(a: int, b: nat): (r: int)
    requires IsInt32(a) && b <= Int32Max
    ensures IsInt32(r) && (r == a + b || r == a + b - 0x1_0000_0000)
  {
    if a + b > Int32Max then a + b - 0x1_0000_0000 else a + b
  }

  /** AddInt32 is the wrapped sum. */
  lemma AddInt32Wraps(a: int, b: nat)
    requires IsInt32(a) && b <= Int32Max
    ensures AddInt32(a, b) == WrapInt32(a + b)
  {
    WrapInt32Of(a + b, AddInt32(a, b), if a + b > Int32Max then 1 else 0);
  }

  /** The wrap-around is the only 32-bit value that differs from x by a multiple of 2^32. */
  lemma WrapInt32Of(x: int, r: int, q: int)
    requires IsInt32(r) && r == x - q * 0x1_0000_0000
    ensures WrapInt32(x) == r
  {
    var m := 0x1_0000_0000;
    assert x - Int32Min == q * m + (r - Int32Min);
    assert 0 <= r - Int32Min < m;
  }

  /** The wrap-around differs from x by a multiple of 2^32. */
  lemma WrapInt32Multiple(x: int) returns (q: int)
    ensures WrapInt32(x) == x - q * 0x1_0000_0000
  {
    q := (x - Int32Min) / 0x1_0000_0000;
  }

  /** Euclidean division is the only quotient and remainder pair. */
  lemma DivModUnique(n: int, q: int, d: int, r: int)
    requires d > 0 && n == q * d + r && 0 <= r < d
    ensures n / d == q && n % d == r
  {
    var q', r' := n / d, n % d;
    var a := q' - q;
    MulSub(q', q, d);
    assert a * d == r - r';
    if a >= 1 {
      MulAtLeast(a, d);
    } else if a <= -1 {
      MulAtLeast(-a, d);
      MulNeg(a, d);
    }
  }

  /** The quotient and remainder put back together. */
  lemma DivMod(n: int, d: int)
    requires d > 0
    ensures n == d * (n / d) + n % d && 0 <= n % d < d
  {}

  lemma MulSub(x: int, y: int, d: int)
    ensures (x - y) * d == x * d - y * d
  {}

  lemma MulNeg(a: int, d: int)
    ensures (-a) * d == -(a * d)
  {}

  lemma MulAtLeast(a: int, d: int)
    requires a >= 1 && d > 0
    ensures a * d >= d
  {}
}
