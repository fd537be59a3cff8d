/**
 * The slug tool: text lower-cased on request, then four regular-expression
 * replacements, each written here as a scan over the characters.
 *
 *   [^\w\s-]          removed
 *   [\s_-]+           one space, then the text trimmed
 *   \s                the separator
 *   escaped(sep)+     the separator
 *
 * Word characters are the ASCII letters, digits and '_'; \s is the class of
 * Text.IsWhiteSpace. The separator is the replacement pattern of the last two
 * replacements, so Regex.Replace reads its '$' substitutions ($$, $&, $0,
 * ${0}, $+, $`, $', $_) before inserting it.
 */
module SlugifyString {
  import opened Wrappers
  import opened Text

  /** The request object; a field the JSON sets to null is None. */
  datatype SlugifyRequest = SlugifyRequest(
    text: Option<string>,
    lowerCase: bool,
    separator: Option<string>,
    removeDiacritics: bool)

  /** The exceptions the replacements can raise. */
  datatype Failure =
    | NullSeparator               // Regex.Replace with a null replacement
    | QuantifierFollowingNothing  // the pattern "+" built from an empty separator
    | CaptureGroupOutOfRange      // a group number after '$' in the separator beyond Int32.MaxValue

  datatype SlugOutcome = Slug(text: string) | Thrown(failure: Failure)

  /** { Result } or { Error }. */
  datatype Reply = Converted(result: string) | Refused(error: string)

  predicate IsAlnum(c: char) { IsAsciiLetter(c) || IsDigit(c) }

  /** \w on ASCII. */
  predicate IsWordChar(c: char) { IsAlnum(c) || c == '_' }

  /** The characters [\w\s-] keeps. */
  predicate IsKept(c: char) { IsWordChar(c) || IsWhiteSpace(c) || c == '-' }

  /** The characters of the class [\s_-]. */
  predicate IsRunChar(c: char) { IsWhiteSpace(c) || c == '_' || c == '-' }

  predicate AllKept(s: string) { forall i :: 0 <= i < |s| ==> IsKept(s[i]) }

  predicate NoUpper(s: string) { forall i :: 0 <= i < |s| ==> !IsAsciiUpper(s[i]) }

  /** Letters, digits and spaces only. */
  predicate WordsAndSpaces(s: string) { forall i :: 0 <= i < |s| ==> s[i] == ' ' || IsAlnum(s[i]) }

  /** The character c never appears twice in a row. */
  predicate NoDouble(s: string, c: char) { forall i :: 0 <= i < |s| - 1 ==> !(s[i] == c && s[i + 1] == c) }

  /** Regex.Replace(text, @"[^\w\s-]", ""). */
  function RemoveDisallowed(s: string): (r: string)
    ensures AllKept(r)
  {
    if s == [] then []
    else (if IsKept(s[0]) then [s[0]] else []) + RemoveDisallowed(s[1..])
  }

  /** Nothing is removed from a text of allowed characters. */
  lemma {:induction false} KeepsAllowed(s: string)
    requires AllKept(s)
    ensures RemoveDisallowed(s) == s
  {
    if s != [] {
      KeepsAllowed(s[1..]);
      assert s == [s[0]] + s[1..];
    }
  }

  /** Removing characters cannot bring in an upper-case letter. */
  lemma {:induction false} RemoveDisallowedNoUpper(s: string)
    requires NoUpper(s)
    ensures NoUpper(RemoveDisallowed(s))
  {
    if s != [] {
      assert NoUpper(s[1..]) by {
        forall i | 0 <= i < |s| - 1 ensures !IsAsciiUpper(s[1..][i]) {
          assert s[1..][i] == s[i + 1];
        }
      }
      RemoveDisallowedNoUpper(s[1..]);
    }
  }

  /** The text after its leading run of [\s_-] characters. */
  function SkipRun(s: string): (r: string)
    ensures |r| <= |s| && r == s[|s| - |r|..]
    ensures r == [] || !IsRunChar(r[0])
    ensures s != [] && IsRunChar(s[0]) ==> |r| < |s|
  {
    if s == [] || !IsRunChar(s[0]) then s else SkipRun(s[1..])
  }

  /** Regex.Replace(text, @"[\s_-]+", " "): each maximal run becomes one space. */
  function CollapseRuns(s: string): (r: string)
    ensures r == [] <==> s == []
    ensures r != [] ==> (r[0] == ' ' <==> IsRunChar(s[0]))
    decreases |s|
  {
    if s == [] then []
    else if IsRunChar(s[0]) then " " + CollapseRuns(SkipRun(s))
    else [s[0]] + CollapseRuns(s[1..])
  }

  /** No two spaces are left side by side. */
  lemma {:induction false} CollapseRunsSingle(s: string)
    ensures NoDouble(CollapseRuns(s), ' ')
    decreases |s|
  {
    if s != [] {
      if IsRunChar(s[0]) {
        CollapseRunsSingle(SkipRun(s));
      } else {
        CollapseRunsSingle(s[1..]);
      }
    }
  }

  /** A suffix keeps what holds of every character. */
  lemma SuffixKept(s: string, k: nat)
    requires k <= |s| && AllKept(s)
    ensures AllKept(s[k..])
  {
    forall i | 0 <= i < |s| - k ensures IsKept(s[k..][i]) {
      assert s[k..][i] == s[k + i];
    }
  }

  lemma SuffixNoUpper(s: string, k: nat)
    requires k <= |s| && NoUpper(s)
    ensures NoUpper(s[k..])
  {
    forall i | 0 <= i < |s| - k ensures !IsAsciiUpper(s[k..][i]) {
      assert s[k..][i] == s[k + i];
    }
  }

  /** Once only allowed characters are left, collapsing the runs leaves letters, digits and spaces. */
  lemma {:induction false} CollapseRunsWords(s: string)
    requires AllKept(s)
    ensures WordsAndSpaces(CollapseRuns(s))
    decreases |s|
  {
    if s != [] {
      if IsRunChar(s[0]) {
        var t := SkipRun(s);
        SuffixKept(s, |s| - |t|);
        CollapseRunsWords(t);
      } else {
        SuffixKept(s, 1);
        CollapseRunsWords(s[1..]);
      }
    }
  }

  /** Collapsing the runs cannot bring in an upper-case letter. */
  lemma {:induction false} CollapseRunsNoUpper(s: string)
    requires NoUpper(s)
    ensures NoUpper(CollapseRuns(s))
    decreases |s|
  {
    if s != [] {
      if IsRunChar(s[0]) {
        var t := SkipRun(s);
        SuffixNoUpper(s, |s| - |t|);
        CollapseRunsNoUpper(t);
      } else {
        SuffixNoUpper(s, 1);
        CollapseRunsNoUpper(s[1..]);
      }
    }
  }

  /** Regex.Replace(text, @"\s", separator): every white-space character replaced by the separator. */
  function SpacesTo(s: string, sep: string): (r: string)
    ensures |sep| == 1 ==> |r| == |s| && forall i :: 0 <= i < |s| ==> r[i] == if IsWhiteSpace(s[i]) then sep[0] else s[i]
  {
    if s == [] then []
    else (if IsWhiteSpace(s[0]) then sep else [s[0]]) + SpacesTo(s[1..], sep)
  }

  /** With an empty separator the spaces are dropped and the letters and digits run together. */
  lemma {:induction false} SpacesDropped(s: string)
    requires WordsAndSpaces(s)
    ensures forall i :: 0 <= i < |SpacesTo(s, [])| ==> IsAlnum(SpacesTo(s, [])[i])
  {
    if s != [] {
      assert WordsAndSpaces(s[1..]) by {
        forall i | 0 <= i < |s| - 1 ensures s[1..][i] == ' ' || IsAlnum(s[1..][i]) {
          assert s[1..][i] == s[i + 1];
        }
      }
      SpacesDropped(s[1..]);
    }
  }

  /** The text after its leading run of the character c. */
  function SkipAll(s: string, c: char): (r: string)
    ensures |r| <= |s| && r == s[|s| - |r|..]
    ensures r == [] || r[0] != c
  {
    if s == [] || s[0] != c then s else SkipAll(s[1..], c)
  }

  /**
   * Regex.Replace(text, Regex.Escape(sep) + "+", sep). The quantifier binds
   * to the last character of the escaped separator, so a match is the
   * separator followed by any further copies of its last character; matches
   * are taken from the left and do not overlap. A one-character separator
   * is then never left twice in a row.
   */
  function CollapseSeparators(s: string, sep: string): (r: string)
    requires sep != []
    ensures |sep| == 1 ==> (r == [] <==> s == []) && (r != [] ==> (r[0] == sep[0] <==> s[0] == sep[0]))
    ensures |sep| == 1 ==> NoDouble(r, sep[0])
    decreases |s|
  {
    StartsWithOne(s, sep);
    if s == [] then []
    else if StartsWith(s, sep) then
      var rest := SkipAll(s[|sep|..], sep[|sep| - 1]);
      var r := CollapseSeparators(rest, sep);
      NoDoubleCons(sep[0], r, sep[0]);
      assert |sep| == 1 ==> sep == [sep[0]] && (rest == [] || rest[0] != sep[0]);
      sep + r
    else
      var r := CollapseSeparators(s[1..], sep);
      NoDoubleCons(s[0], r, sep[0]);
      [s[0]] + r
  }

  /** A one-character separator starts a text exactly when the text's first character is it. */
  lemma StartsWithOne(s: string, sep: string)
    ensures |sep| == 1 && s != [] ==> (StartsWith(s, sep) <==> s[0] == sep[0])
  {
    if |sep| == 1 && s != [] && s[0] == sep[0] {
      assert s[..1] == sep;
    }
  }

  /** A character in front keeps a text free of doubled c unless it is c before another c. */
  lemma NoDoubleCons(x: char, r: string, c: char)
    ensures NoDouble(r, c) && (x == c ==> r == [] || r[0] != c) ==> NoDouble([x] + r, c)
  {
    if NoDouble(r, c) && (x == c ==> r == [] || r[0] != c) {
      var w := [x] + r;
      forall i | 0 <= i < |w| - 1 ensures !(w[i] == c && w[i + 1] == c) {
        if i > 0 {
          assert w[i] == r[i - 1] && w[i + 1] == r[i];
        }
      }
    }
  }

  /**
   * A part of a replacement pattern as Regex.Replace reads it: a character
   * copied as it is, or a substitution. The two patterns the separator
   * replaces with have no group besides the whole match, so $0, ${0}, $& and
   * $+ (the last group) all stand for the match.
   */
  datatype Piece =
    | Literal(c: char)  // a character, "$$", or a '$' that starts no substitution
    | Matched           // $&, $0, ${0}, $+
    | Before            // $`: the input before the match
    | After             // $': the input after the match
    | Whole             // $_: the whole input

  /** A replacement read as its own characters. */
  function Literals(s: string): (r: seq<Piece>)
    ensures |r| == |s| && forall i :: 0 <= i < |s| ==> r[i] == Literal(s[i])
  {
    if s == [] then [] else [Literal(s[0])] + Literals(s[1..])
  }

  /** The end of the run of decimal digits that starts at i. */
  function DigitsEnd(t: string, i: nat): (n: nat)
    requires i <= |t|
    ensures i <= n <= |t| && (n == |t| || !IsDigit(t[n]))
    ensures forall m :: i <= m < n ==> IsDigit(t[m])
    decreases |t| - i
  {
    if i == |t| || !IsDigit(t[i]) then i else DigitsEnd(t, i + 1)
  }

  /** The value of the digits t[i..n]. */
  function GroupNumber(t: string, i: nat, n: nat): nat
    requires i <= n <= |t| && forall m :: i <= m < n ==> IsDigit(t[m])
  {
    var digits := t[i..n];
    assert forall k :: 0 <= k < |digits| ==> digits[k] == t[i + k];
    DigitsValue(digits)
  }

  /** The pieces p in front of what the rest of the pattern reads as. */
  function Then(p: seq<Piece>, rest: Option<seq<Piece>>): Option<seq<Piece>>
  {
    if rest.None? then None else Some(p + rest.value)
  }

  /**
   * RegexParser.ParseReplacement for a pattern whose only group is the whole
   * match. After a '$': "$" is one '$'; "&", "+", a run of digits of value 0,
   * or "{", digits of value 0 and "}" is the match; "`", "'" and "_" are the
   * input before the match, after it, and all of it; anything else, at the
   * end of the pattern too, leaves the '$' a character and reading goes on
   * after it. A run of digits whose value does not fit in an Int32 is a
   * parse error (None), whether or not braces surround it.
   */
  function ReadReplacement(rep: string): (r: Option<seq<Piece>>)
    ensures (forall i :: 0 <= i < |rep| ==> rep[i] != '$') ==> r == Some(Literals(rep))
    decreases |rep|
  {
    if rep == [] then Some([])
    else if rep[0] != '$' then
      assert (forall i :: 0 <= i < |rep| ==> rep[i] != '$') ==> forall i :: 0 <= i < |rep| - 1 ==> rep[1..][i] != '$';
      Then([Literal(rep[0])], ReadReplacement(rep[1..]))
    else
      var t := rep[1..];
      if t == [] then Some([Literal('$')])
      else if t[0] == '{' && |t| >= 2 then
        if IsDigit(t[1]) then
          var n := DigitsEnd(t, 1);
          var v := GroupNumber(t, 1, n);
          if v > Int32Max then None
          else if n < |t| && t[n] == '}' && v == 0 then Then([Matched], ReadReplacement(t[n + 1..]))
          else Then([Literal('$')], ReadReplacement(t))
        else Then([Literal('$')], ReadReplacement(t))
      else if IsDigit(t[0]) then
        var n := DigitsEnd(t, 0);
        var v := GroupNumber(t, 0, n);
        if v > Int32Max then None
        else if v == 0 then Then([Matched], ReadReplacement(t[n..]))
        else Then([Literal('$')], ReadReplacement(t))
      else if t[0] == '$' then Then([Literal('$')], ReadReplacement(t[1..]))
      else if t[0] == '&' || t[0] == '+' then Then([Matched], ReadReplacement(t[1..]))
      else if t[0] == '`' then Then([Before], ReadReplacement(t[1..]))
      else if t[0] == '\'' then Then([After], ReadReplacement(t[1..]))
      else if t[0] == '_' then Then([Whole], ReadReplacement(t[1..]))
      else Then([Literal('$')], ReadReplacement(t))
  }

  /** The text a piece stands for when the match is u[i..j]. */
  function PieceText(p: Piece, u: string, i: nat, j: nat): string
    requires i <= j <= |u|
  {
    match p
    case Literal(c) => [c]
    case Matched => u[i..j]
    case Before => u[..i]
    case After => u[j..]
    case Whole => u
  }

  /** What replaces the match u[i..j]: the pieces' texts one after the other. */
  function Expand(pieces: seq<Piece>, u: string, i: nat, j: nat): string
    requires i <= j <= |u|
  {
    if pieces == [] then [] else PieceText(pieces[0], u, i, j) + Expand(pieces[1..], u, i, j)
  }

  /**
   * Regex.Replace(u, @"\s", separator) from position k on, the separator read
   * as pieces: every white-space character replaced by the pieces' text for
   * that one-character match.
   */
  function ReplaceSpaces(u: string, pieces: seq<Piece>, k: nat): string
    requires k <= |u|
    decreases |u| - k
  {
    if k == |u| then []
    else (if IsWhiteSpace(u[k]) then Expand(pieces, u, k, k + 1) else [u[k]]) + ReplaceSpaces(u, pieces, k + 1)
  }

  /**
   * Regex.Replace(u, Regex.Escape(sep) + "+", separator) from position k on,
   * the separator read as pieces: each match, found from the left, is sep and
   * the further copies of its last character, and is replaced by the pieces'
   * text for it.
   */
  function ReplaceRuns(u: string, sep: string, pieces: seq<Piece>, k: nat): string
    requires sep != [] && k <= |u|
    decreases |u| - k
  {
    if k == |u| then []
    else if StartsWith(u[k..], sep) then
      var e := |u| - |SkipAll(u[k + |sep|..], sep[|sep| - 1])|;
      Expand(pieces, u, k, e) + ReplaceRuns(u, sep, pieces, e)
    else [u[k]] + ReplaceRuns(u, sep, pieces, k + 1)
  }

  /** A replacement read as its own characters stands for those characters, whatever the match. */
  lemma {:induction false} ExpandLiterals(s: string, u: string, i: nat, j: nat)
    requires i <= j <= |u|
    ensures Expand(Literals(s), u, i, j) == s
  {
    if s != [] {
      assert Literals(s)[1..] == Literals(s[1..]);
      ExpandLiterals(s[1..], u, i, j);
      assert s == [s[0]] + s[1..];
    }
  }

  /** With the separator read as its own characters, the third replacement inserts it as it is. */
  lemma {:induction false} ReplaceSpacesLiteral(u: string, sep: string, k: nat)
    requires k <= |u|
    ensures ReplaceSpaces(u, Literals(sep), k) == SpacesTo(u[k..], sep)
    decreases |u| - k
  {
    if k < |u| {
      ReplaceSpacesLiteral(u, sep, k + 1);
      ExpandLiterals(sep, u, k, k + 1);
      assert u[k..][0] == u[k] && u[k..][1..] == u[k + 1..];
    }
  }

  /** With the separator read as its own characters, the last replacement inserts it as it is. */
  lemma {:induction false} ReplaceRunsLiteral(u: string, sep: string, k: nat)
    requires sep != [] && k <= |u|
    ensures ReplaceRuns(u, sep, Literals(sep), k) == CollapseSeparators(u[k..], sep)
    decreases |u| - k
  {
    if k < |u| {
      var s := u[k..];
      assert s[0] == u[k] && s[1..] == u[k + 1..];
      if StartsWith(s, sep) {
        var x := u[k + |sep|..];
        assert s[|sep|..] == x;
        var rest := SkipAll(x, sep[|sep| - 1]);
        var e := |u| - |rest|;
        assert rest == u[e..];
        ExpandLiterals(sep, u, k, e);
        ReplaceRunsLiteral(u, sep, e);
      } else {
        ReplaceRunsLiteral(u, sep, k + 1);
      }
    }
  }

  /** A one-character separator is read as that character, '$' included. */
  lemma OneCharLiteral(c: char)
    ensures ReadReplacement([c]) == Some(Literals([c]))
  {
    assert [c][1..] == [];
    assert Literals([c]) == [Literal(c)];
  }

  /** The replacement pattern that stands for the text x: each '$' written twice. */
  function EscapeDollars(x: string): string
  {
    if x == [] then [] else (if x[0] == '$' then "$$" else [x[0]]) + EscapeDollars(x[1..])
  }

  /** A pattern with each '$' doubled is read back as the text itself. */
  lemma {:induction false} ReadEscaped(x: string)
    ensures ReadReplacement(EscapeDollars(x)) == Some(Literals(x))
  {
    if x != [] {
      ReadEscaped(x[1..]);
      var rest := EscapeDollars(x[1..]);
      if x[0] == '$' {
        ReadDoubled(rest);
      } else {
        ReadPlain(x[0], rest);
      }
      assert Literals(x) == [Literal(x[0])] + Literals(x[1..]);
    }
  }

  /** "$$" in front of a pattern is read as one '$'. */
  lemma ReadDoubled(rest: string)
    ensures ReadReplacement("$$" + rest) == Then([Literal('$')], ReadReplacement(rest))
  {
    var e := "$$" + rest;
    assert e[0] == '$' && e[1..] == "$" + rest;
    assert e[1..][0] == '$' && e[1..][1..] == rest;
  }

  /** A character other than '$' in front of a pattern is read as itself. */
  lemma ReadPlain(c: char, rest: string)
    requires c != '$'
    ensures ReadReplacement([c] + rest) == Then([Literal(c)], ReadReplacement(rest))
  {
    assert ([c] + rest)[1..] == rest;
  }

  /** The text after the first two replacements and the trim: words of letters and digits, one space apart. */
  function Spaced(text: string, toLowerCase: bool): (r: string)
  {
    var lowered := if toLowerCase then ToLower(text) else text;
    Trim(CollapseRuns(RemoveDisallowed(lowered)))
  }

  /**
   * SlugifyText on the request's fields; Thrown where one of the replacements
   * raises an exception: the third with a null separator or one whose group
   * number is out of range, the fourth, whose pattern is parsed before its
   * replacement, with an empty one.
   */
  function Slugify(text: Option<string>, toLowerCase: bool, separator: Option<string>): SlugOutcome
  {
    if text.None? || text.value == [] then Slug([])
    else
      var words := Spaced(text.value, toLowerCase);
      if separator.None? then Thrown(NullSeparator)
      else match ReadReplacement(separator.value)
        case None => Thrown(CaptureGroupOutOfRange)
        case Some(pieces) =>
          if separator.value == [] then Thrown(QuantifierFollowingNothing)
          else Slug(ReplaceRuns(ReplaceSpaces(words, pieces, 0), separator.value, pieces, 0))
  }

  /**
   * SlugifyText, each step reassigning the text. RemoveDiacritics returns
   * ASCII text unchanged, so its flag does not take part.
   */
  method SlugifyText(text: Option<string>, toLowerCase: bool, separator: Option<string>, removeDiacritics: bool)
    returns (r: SlugOutcome)
    ensures r == Slugify(text, toLowerCase, separator)
  {
    if text.None? || text.value == [] {
      return Slug([]);
    }
    var t := text.value;
    if toLowerCase {
      t := ToLower(t);
    }
    t := RemoveDisallowed(t);
    t := Trim(CollapseRuns(t));
    if separator.None? {
      return Thrown(NullSeparator);
    }
    var pieces := ReadReplacement(separator.value);
    if pieces.None? {
      return Thrown(CaptureGroupOutOfRange);
    }
    t := ReplaceSpaces(t, pieces.value, 0);
    if separator.value == [] {
      return Thrown(QuantifierFollowingNothing);
    }
    t := ReplaceRuns(t, separator.value, pieces.value, 0);
    return Slug(t);
  }

  /**
   * Execute, with the JSON deserializer and the exceptions' messages given.
   * None from the deserializer is a JSON null.
   */
  method Execute(
    input: Option<string>,
    deserialize: string -> Result<Option<SlugifyRequest>>,
    message: Failure -> string) returns (r: Reply)
    ensures input.None? || IsBlank(input.value) ==> r == Refused("Invalid request. Input is empty.")
    ensures input.Some? && !IsBlank(input.value) && deserialize(input.value).Error? ==>
      r == Refused(deserialize(input.value).message)
    ensures input.Some? && !IsBlank(input.value) && deserialize(input.value).Ok? ==>
      var request := deserialize(input.value).value;
      (request.None? ==> r == Refused("Invalid request format.")) &&
      (request.Some? ==>
        match Slugify(request.value.text, request.value.lowerCase, request.value.separator)
        case Slug(t) => r == Converted(t)
        case Thrown(f) => r == Refused(message(f)))
  {
    if input.None? || IsBlank(input.value) {
      return Refused("Invalid request. Input is empty.");
    }
    var request := deserialize(input.value);
    if request.Error? {
      return Refused(request.message);
    }
    if request.value.None? {
      return Refused("Invalid request format.");
    }
    var q := request.value.value;
    var outcome := SlugifyText(q.text, q.lowerCase, q.separator, q.removeDiacritics);
    match outcome {
      case Slug(t) => r := Converted(t);
      case Thrown(f) => r := Refused(message(f));
    }
  }

  // ---- properties ----

  /** A null or empty text is the empty slug, whatever the options. */
  lemma EmptyText(text: Option<string>, toLowerCase: bool, separator: Option<string>)
    requires text.None? || text.value == []
    ensures Slugify(text, toLowerCase, separator) == Slug([])
  {}

  /** A slice keeps each of the three shapes. */
  lemma SliceShapes(c: string, a: nat, b: nat)
    requires a <= b <= |c|
    ensures WordsAndSpaces(c) ==> WordsAndSpaces(c[a..b])
    ensures NoDouble(c, ' ') ==> NoDouble(c[a..b], ' ')
    ensures NoUpper(c) ==> NoUpper(c[a..b])
  {
    var w := c[a..b];
    assert forall i :: 0 <= i < |w| ==> w[i] == c[a + i];
  }

  /** Trimming keeps a text of single-spaced words single-spaced, and takes the spaces off its ends. */
  lemma TrimmedShape(c: string)
    requires WordsAndSpaces(c) && NoDouble(c, ' ')
    ensures var w := Trim(c);
      WordsAndSpaces(w) && NoDouble(w, ' ') && (w == [] || (w[0] != ' ' && w[|w| - 1] != ' '))
  {
    var a, b := TrimSlice(c);
    SliceShapes(c, a, b);
  }

  lemma TrimmedNoUpper(c: string)
    requires NoUpper(c)
    ensures NoUpper(Trim(c))
  {
    var a, b := TrimSlice(c);
    SliceShapes(c, a, b);
  }

  /** The spaced text holds letters and digits only, single spaces between them, none at the ends. */
  lemma SpacedShape(text: string, toLowerCase: bool)
    ensures var w := Spaced(text, toLowerCase);
      WordsAndSpaces(w) && NoDouble(w, ' ') && (w == [] || (w[0] != ' ' && w[|w| - 1] != ' '))
  {
    var lowered := if toLowerCase then ToLower(text) else text;
    CollapseRunsWords(RemoveDisallowed(lowered));
    CollapseRunsSingle(RemoveDisallowed(lowered));
    TrimmedShape(CollapseRuns(RemoveDisallowed(lowered)));
  }

  /** With LowerCase set, no upper-case ASCII letter is left. */
  lemma SpacedIsLower(text: string)
    ensures NoUpper(Spaced(text, true))
  {
    var lowered := ToLower(text);
    ToLowerAt(text);
    RemoveDisallowedNoUpper(lowered);
    CollapseRunsNoUpper(RemoveDisallowed(lowered));
    TrimmedNoUpper(CollapseRuns(RemoveDisallowed(lowered)));
  }

  /**
   * A separator read as its own characters (one without '$', or a single
   * character) is inserted as it is: the slug is the spaced words with each
   * space replaced by the separator, then each run of it collapsed.
   */
  lemma SlugifyLiteral(text: string, toLowerCase: bool, sep: string)
    requires text != [] && sep != [] && ReadReplacement(sep) == Some(Literals(sep))
    ensures Slugify(Some(text), toLowerCase, Some(sep)) ==
      Slug(CollapseSeparators(SpacesTo(Spaced(text, toLowerCase), sep), sep))
  {
    var w := Spaced(text, toLowerCase);
    ReplaceSpacesLiteral(w, sep, 0);
    var u := ReplaceSpaces(w, Literals(sep), 0);
    ReplaceRunsLiteral(u, sep, 0);
    assert w[0..] == w && u[0..] == u;
  }

  /** A text without two separators in a row is left as it is by the last replacement. */
  lemma {:induction false} NoRunUnchanged(s: string, c: char)
    requires NoDouble(s, c)
    ensures CollapseSeparators(s, [c]) == s
    decreases |s|
  {
    if s != [] {
      if s[0] == c {
        assert StartsWith(s, [c]);
        var t := s[1..];
        assert t == [] || t[0] != c;
        assert SkipAll(t, c) == t;
        NoRunUnchanged(t, c);
        assert s == [c] + t;
      } else {
        assert !StartsWith(s, [c]);
        NoRunUnchanged(s[1..], c);
        assert s == [s[0]] + s[1..];
      }
    }
  }

  /**
   * With a one-character separator that is neither a letter, a digit nor
   * white space (the hyphen, the underscore, the period), the words are
   * joined by that character and the last replacement finds nothing to do.
   */
  lemma SingleSeparator(text: string, toLowerCase: bool, c: char)
    requires text != [] && !IsAlnum(c) && !IsWhiteSpace(c)
    ensures Slugify(Some(text), toLowerCase, Some([c])) == Slug(SpacesTo(Spaced(text, toLowerCase), [c]))
  {
    OneCharLiteral(c);
    SlugifyLiteral(text, toLowerCase, [c]);
    SpacedShape(text, toLowerCase);
    JoinedOnce(Spaced(text, toLowerCase), c);
  }

  /** In a text of letters, digits and spaces, only a space can become the separator. */
  lemma SeparatorFromSpace(x: char, c: char)
    requires (x == ' ' || IsAlnum(x)) && !IsAlnum(c)
    ensures (if IsWhiteSpace(x) then c else x) == c ==> x == ' '
  {}

  /** Single spaces turned into a character that is not a letter or digit do not form a run of it. */
  lemma JoinedOnce(w: string, c: char)
    requires WordsAndSpaces(w) && NoDouble(w, ' ') && !IsAlnum(c) && !IsWhiteSpace(c)
    ensures CollapseSeparators(SpacesTo(w, [c]), [c]) == SpacesTo(w, [c])
  {
    var u := SpacesTo(w, [c]);
    forall i | 0 <= i < |u| - 1
      ensures !(u[i] == c && u[i + 1] == c)
    {
      if u[i] == c {
        SeparatorFromSpace(w[i], c);
        SeparatorFromSpace(w[i + 1], c);
      }
    }
    NoRunUnchanged(u, c);
  }

  /**
   * The slug for such a separator: letters, digits and the separator, never
   * the separator twice in a row nor at either end, and no upper-case letter
   * when LowerCase is set.
   */
  lemma SlugShape(text: string, toLowerCase: bool, c: char)
    requires text != [] && !IsAlnum(c) && !IsWhiteSpace(c)
    ensures var r := Slugify(Some(text), toLowerCase, Some([c]));
      r.Slug? &&
      (forall i :: 0 <= i < |r.text| ==> r.text[i] == c || IsAlnum(r.text[i])) &&
      (r.text == [] || (r.text[0] != c && r.text[|r.text| - 1] != c)) &&
      NoDouble(r.text, c) &&
      (toLowerCase ==> forall i :: 0 <= i < |r.text| ==> !IsAsciiUpper(r.text[i]) || r.text[i] == c)
  {
    var w := Spaced(text, toLowerCase);
    SingleSeparator(text, toLowerCase, c);
    SpacedShape(text, toLowerCase);
    if toLowerCase {
      SpacedIsLower(text);
    }
    SeparatedShape(w, c, toLowerCase);
  }

  /** Single-spaced words with each space turned into c: the shape SlugShape states. */
  lemma SeparatedShape(w: string, c: char, lower: bool)
    requires WordsAndSpaces(w) && NoDouble(w, ' ') && (w == [] || (w[0] != ' ' && w[|w| - 1] != ' '))
    requires lower ==> NoUpper(w)
    requires !IsAlnum(c) && !IsWhiteSpace(c)
    ensures var u := SpacesTo(w, [c]);
      (forall i :: 0 <= i < |u| ==> u[i] == c || IsAlnum(u[i])) &&
      (u == [] || (u[0] != c && u[|u| - 1] != c)) &&
      NoDouble(u, c) &&
      (lower ==> forall i :: 0 <= i < |u| ==> !IsAsciiUpper(u[i]) || u[i] == c)
  {
    var u := SpacesTo(w, [c]);
    forall i | 0 <= i < |u| - 1 ensures !(u[i] == c && u[i + 1] == c) {
      if u[i] == c {
        SeparatorFromSpace(w[i], c);
        SeparatorFromSpace(w[i + 1], c);
      }
    }
    if u != [] {
      SeparatorFromSpace(w[0], c);
      SeparatorFromSpace(w[|w| - 1], c);
    }
  }

  /** Whatever the separator's character, the slug never holds it twice in a row. */
  lemma NoDoubleSeparator(text: string, toLowerCase: bool, c: char)
    requires text != []
    ensures var r := Slugify(Some(text), toLowerCase, Some([c]));
      r.Slug? && NoDouble(r.text, c)
  {
    OneCharLiteral(c);
    SlugifyLiteral(text, toLowerCase, [c]);
  }

  /** An empty separator makes the last pattern "+", which .NET refuses: every non-empty text is an Error. */
  lemma EmptySeparatorThrows(text: string, toLowerCase: bool)
    requires text != []
    ensures Slugify(Some(text), toLowerCase, Some([])) == Thrown(QuantifierFollowingNothing)
  {}

  /** SlugifyText as the "None" separator intends it: the last replacement skipped when there is no separator. */
  function SlugifyCorrected(text: Option<string>, toLowerCase: bool, separator: Option<string>): (r: SlugOutcome)
    ensures separator != Some([]) ==> r == Slugify(text, toLowerCase, separator)
  {
    if separator == Some([]) && text.Some? && text.value != [] then
      Slug(SpacesTo(Spaced(text.value, toLowerCase), []))
    else Slugify(text, toLowerCase, separator)
  }

  /** With no separator the corrected slug is the words run together: letters and digits only. */
  lemma CorrectedWithoutSeparator(text: string, toLowerCase: bool)
    requires text != []
    ensures var r := SlugifyCorrected(Some(text), toLowerCase, Some([]));
      r.Slug? && forall i :: 0 <= i < |r.text| ==> IsAlnum(r.text[i])
  {
    var w := Spaced(text, toLowerCase);
    assert SlugifyCorrected(Some(text), toLowerCase, Some([])) == Slug(SpacesTo(w, []));
    SpacedShape(text, toLowerCase);
    SpacesDropped(w);
  }

  predicate AllAlnum(s: string) { forall i :: 0 <= i < |s| ==> IsAlnum(s[i]) }

  /** Lower-casing, when asked for, keeps letters and digits letters and digits. */
  lemma LoweredAlnum(s: string, toLowerCase: bool)
    requires AllAlnum(s)
    ensures AllAlnum(if toLowerCase then ToLower(s) else s)
  {
    ToLowerAt(s);
  }

  /** A character outside the runs at the front is copied by the run replacement. */
  lemma CollapseRunsStep(x: string, rest: string)
    requires x != [] && !IsRunChar(x[0])
    ensures CollapseRuns(x + rest) == [x[0]] + CollapseRuns(x[1..] + rest)
  {
    var s := x + rest;
    assert s[0] == x[0] && s[1..] == x[1..] + rest;
  }

  lemma Regroup(a: string, b: string, c: string)
    ensures a + (b + c) == (a + b) + c
  {}

  /** Every character of a word but the first is a letter or digit too. */
  lemma TailAlnum(x: string)
    requires x != [] && AllAlnum(x)
    ensures AllAlnum(x[1..])
  {
    forall i | 0 <= i < |x| - 1 ensures IsAlnum(x[1..][i]) {
      assert x[1..][i] == x[i + 1];
    }
  }

  /** A word of letters and digits passes the run replacement untouched. */
  lemma {:induction false} CollapseRunsWord(x: string, rest: string)
    requires AllAlnum(x)
    ensures CollapseRuns(x + rest) == x + CollapseRuns(rest)
  {
    if x == [] {
      assert x + rest == rest;
    } else {
      AlnumNotSpace(x[0]);
      CollapseRunsStep(x, rest);
      TailAlnum(x);
      CollapseRunsWord(x[1..], rest);
      Regroup([x[0]], x[1..], CollapseRuns(rest));
      assert [x[0]] + x[1..] == x;
    }
  }

  /** One space before a word is one space after the run replacement. */
  lemma CollapseRunsSpace(y: string)
    requires y != [] && AllAlnum(y)
    ensures CollapseRuns([' '] + y) == [' '] + y
  {
    var s := [' '] + y;
    AlnumNotSpace(y[0]);
    assert s[1..] == y;
    assert SkipRun(y) == y;
    assert SkipRun(s) == y;
    CollapseRunsWord(y, []);
    assert y + [] == y;
  }

  /** A letter or digit is not white space. */
  lemma AlnumNotSpace(x: char)
    requires IsAlnum(x)
    ensures !IsWhiteSpace(x) && !IsRunChar(x) && IsKept(x)
  {}

  /** The characters of two texts with one character between them. */
  lemma ConcatAt(x: string, m: char, y: string, i: nat)
    requires i < |x| + 1 + |y|
    ensures (x + [m] + y)[i] == if i < |x| then x[i] else if i == |x| then m else y[i - |x| - 1]
  {}

  /** Two words one space apart hold only allowed characters. */
  lemma TwoWordsKept(x: string, y: string)
    requires AllAlnum(x) && AllAlnum(y)
    ensures AllKept(x + [' '] + y)
  {
    var s := x + [' '] + y;
    forall i | 0 <= i < |s| ensures IsKept(s[i]) {
      ConcatAt(x, ' ', y, i);
      if i < |x| { AlnumNotSpace(x[i]); } else if i > |x| { AlnumNotSpace(y[i - |x| - 1]); }
    }
  }

  /** Two words one space apart pass the run replacement untouched. */
  lemma TwoWordsCollapsed(x: string, y: string)
    requires y != [] && AllAlnum(x) && AllAlnum(y)
    ensures CollapseRuns(x + [' '] + y) == x + [' '] + y
  {
    CollapseRunsWord(x, [' '] + y);
    CollapseRunsSpace(y);
    assert x + ([' '] + y) == x + [' '] + y;
  }

  /** Two words one space apart, with no white space at either end. */
  lemma TwoWordsTrimmed(x: string, y: string)
    requires x != [] && y != [] && AllAlnum(x) && AllAlnum(y)
    ensures Trim(x + [' '] + y) == x + [' '] + y
  {
    var s := x + [' '] + y;
    ConcatAt(x, ' ', y, 0);
    ConcatAt(x, ' ', y, |s| - 1);
    AlnumNotSpace(x[0]);
    AlnumNotSpace(y[|y| - 1]);
    TrimNoWhiteSpace(s);
  }

  /** Two words one space apart are their own spaced text. */
  lemma TwoWordsSpaced(x: string, y: string)
    requires x != [] && y != [] && AllAlnum(x) && AllAlnum(y)
    ensures Trim(CollapseRuns(RemoveDisallowed(x + [' '] + y))) == x + [' '] + y
  {
    TwoWordsKept(x, y);
    KeepsAllowed(x + [' '] + y);
    TwoWordsCollapsed(x, y);
    TwoWordsTrimmed(x, y);
  }

  /** Lower-casing two words one space apart lower-cases each word. */
  lemma LoweredWords(a: string, b: string)
    ensures ToLower(a + [' '] + b) == ToLower(a) + [' '] + ToLower(b)
  {
    ToLowerAppend(a + [' '], b);
    ToLowerAppend(a, [' ']);
    assert ToLower([' ']) == [' '];
  }

  /** The space between two words becomes the separator. */
  lemma SpaceToSeparator(x: string, y: string, c: char)
    requires AllAlnum(x) && AllAlnum(y)
    ensures SpacesTo(x + [' '] + y, [c]) == x + [c] + y
  {
    var w := x + [' '] + y;
    var u := SpacesTo(w, [c]);
    forall i | 0 <= i < |w| ensures u[i] == (x + [c] + y)[i] {
      ConcatAt(x, ' ', y, i);
      ConcatAt(x, c, y, i);
      if i < |x| { AlnumNotSpace(x[i]); } else if i > |x| { AlnumNotSpace(y[i - |x| - 1]); }
    }
  }

  /**
   * Two words of letters and digits one space apart become the two words, lower-cased
   * if asked for, joined by the separator.
   */
  lemma TwoWords(a: string, b: string, toLowerCase: bool, c: char)
    requires a != [] && b != [] && AllAlnum(a) && AllAlnum(b) && !IsAlnum(c) && !IsWhiteSpace(c)
    ensures var x := if toLowerCase then ToLower(a) else a;
      var y := if toLowerCase then ToLower(b) else b;
      Slugify(Some(a + [' '] + b), toLowerCase, Some([c])) == Slug(x + [c] + y)
  {
    var x := if toLowerCase then ToLower(a) else a;
    var y := if toLowerCase then ToLower(b) else b;
    LoweredWords(a, b);
    LoweredAlnum(a, toLowerCase);
    LoweredAlnum(b, toLowerCase);
    TwoWordsSpaced(x, y);
    SingleSeparator(a + [' '] + b, toLowerCase, c);
    SpaceToSeparator(x, y, c);
  }

  /** The example of the tool's page: "Hello World" becomes "hello-world". */
  lemma HelloWorld(text: string)
    requires text == "Hello World"
    ensures Slugify(Some(text), true, Some(['-'])) == Slug("hello-world")
  {
    HelloWords();
    assert text == "Hello" + [' '] + "World";
    TwoWords("Hello", "World", true, '-');
    HelloDash();
  }

  lemma HelloDash()
    ensures "hello" + ['-'] + "world" == "hello-world"
  {
    var s := "hello" + ['-'] + "world";
    assert |s| == 11;
    forall i | 0 <= i < 11 ensures s[i] == "hello-world"[i] {
      ConcatAt("hello", '-', "world", i);
    }
  }

  lemma HelloWords()
    ensures AllAlnum("Hello") && AllAlnum("World")
    ensures ToLower("Hello") == "hello" && ToLower("World") == "world"
  {
    ToLowerAt("Hello");
    ToLowerAt("World");
  }

  /** "a b" has the words "a" and "b" one space apart. */
  lemma SpacedAB()
    ensures Spaced("a b", false) == "a b"
  {
    assert "a b" == "a" + [' '] + "b";
    TwoWordsSpaced("a", "b");
  }

  /** The separator "$$" is read as one '$': "a b" becomes "a$b". */
  lemma DoubledDollar()
    ensures Slugify(Some("a b"), false, Some("$$")) == Slug("a$b")
  {
    SpacedAB();
    DollarPieces();
    DollarSpaces();
    DollarRuns();
  }

  lemma DollarPieces()
    ensures ReadReplacement("$$") == Some([Literal('$')])
  {
    ReadEscaped("$");
    assert EscapeDollars("$") == "$$";
    assert Literals("$") == [Literal('$')];
  }

  lemma DollarSpaces()
    ensures ReplaceSpaces("a b", [Literal('$')], 0) == "a$b"
  {
    var p := [Literal('$')];
    var w := "a b";
    assert ReplaceSpaces(w, p, 2) == "b";
    assert Expand(p, w, 1, 2) == "$";
    assert ReplaceSpaces(w, p, 1) == "$b";
  }

  lemma DollarRuns()
    ensures ReplaceRuns("a$b", "$$", [Literal('$')], 0) == "a$b"
  {
    var p := [Literal('$')];
    var u := "a$b";
    assert ReplaceRuns(u, "$$", p, 2) == "b";
    assert !StartsWith(u[1..], "$$");
    assert ReplaceRuns(u, "$$", p, 1) == "$b";
    assert u[0..] == u && u[..2][0] == 'a';
  }

  /** The separator "$&" stands for the match: each space is put back and "a b" stays "a b". */
  lemma MatchSeparator()
    ensures Slugify(Some("a b"), false, Some("$&")) == Slug("a b")
  {
    SpacedAB();
    MatchPieces();
    MatchSpaces();
    MatchRuns();
  }

  lemma MatchPieces()
    ensures ReadReplacement("$&") == Some([Matched])
  {
    var r := "$&";
    assert r[1..] == "&" && r[1..][1..] == [];
    assert ReadReplacement(r[1..][1..]) == Some([]);
    assert [Matched] + [] == [Matched];
  }

  lemma MatchSpaces()
    ensures ReplaceSpaces("a b", [Matched], 0) == "a b"
  {
    var p := [Matched];
    var w := "a b";
    assert ReplaceSpaces(w, p, 2) == "b";
    assert Expand(p, w, 1, 2) == " ";
    assert ReplaceSpaces(w, p, 1) == " b";
  }

  lemma MatchRuns()
    ensures ReplaceRuns("a b", "$&", [Matched], 0) == "a b"
  {
    var p := [Matched];
    var w := "a b";
    assert ReplaceRuns(w, "$&", p, 2) == "b";
    assert !StartsWith(w[1..], "$&");
    assert ReplaceRuns(w, "$&", p, 1) == " b";
    assert !StartsWith(w[0..], "$&");
  }

  /** A group number after '$' beyond Int32.MaxValue is a parse error, whatever the text. */
  lemma GroupOutOfRange(text: string, toLowerCase: bool, n: nat)
    requires text != [] && n > Int32Max
    ensures Slugify(Some(text), toLowerCase, Some("$" + NatToString(n))) == Thrown(CaptureGroupOutOfRange)
  {
    var d := NatToString(n);
    var r := "$" + d;
    assert r[1..] == d;
    NatToStringValue(n);
    assert DigitsEnd(d, 0) == |d|;
    assert d[0..|d|] == d;
    assert GroupNumber(d, 0, |d|) == n;
    assert ReadReplacement(r) == None;
  }
}
