/**
 * The numeronym generator's client-side `generateNumeronyms`: the input is
 * split on commas, each piece trimmed and the empty ones dropped; a word of
 * more than three characters becomes its first character, the number of
 * characters between, and its last character; the results are joined with
 * ", ".
 *
 * Strings are sequences of UTF-16 code units without surrogate pairs.
 */
module NumeronymGenerator {
  import opened Text

  /** JavaScript's WhiteSpace and LineTerminator, what String.prototype.trim removes: the .NET class without U+0085, with U+FEFF. */
  predicate IsJsWhiteSpace(c: char)
  {
    (IsWhiteSpace(c) && c != '\U{0085}') || c == '\U{FEFF}'
  }

  /** The number of white-space units at the start of s. */
  function LeadingSpace(s: string): (n: nat)
    ensures n <= |s| && (n == |s| || !IsJsWhiteSpace(s[n]))
    ensures forall i :: 0 <= i < n ==> IsJsWhiteSpace(s[i])
  {
    if s == [] || !IsJsWhiteSpace(s[0]) then 0
    else
      var n := 1 + LeadingSpace(s[1..]);
      assert forall i :: 1 <= i < n ==> s[i] == s[1..][i - 1];
      n
  }

  /** Where s[lo..hi] ends once its trailing white space is cut off. */
  function TrailingCut(s: string, lo: nat, hi: nat): (n: nat)
    requires lo <= hi <= |s|
    ensures lo <= n <= hi && (n == lo || !IsJsWhiteSpace(s[n - 1]))
    ensures forall i :: n <= i < hi ==> IsJsWhiteSpace(s[i])
    decreases hi
  {
    if hi == lo || !IsJsWhiteSpace(s[hi - 1]) then hi else TrailingCut(s, lo, hi - 1)
  }

  /**
   * String.prototype.trim: the text between the leading and the trailing
   * white space; a text of white space only trims to nothing.
   */
  function JsTrim(s: string): (r: string)
    ensures |r| <= |s|
    ensures r == [] || (!IsJsWhiteSpace(r[0]) && !IsJsWhiteSpace(r[|r| - 1]))
    ensures var a := LeadingSpace(s);
      a + |r| <= |s| && r == s[a..a + |r|] &&
      (forall i :: 0 <= i < a ==> IsJsWhiteSpace(s[i])) &&
      (forall i :: a + |r| <= i < |s| ==> IsJsWhiteSpace(s[i]))
    ensures r == [] <==> forall i :: 0 <= i < |s| ==> IsJsWhiteSpace(s[i])
  {
    var a := LeadingSpace(s);
    var b := TrailingCut(s, a, |s|);
    s[a..b]
  }

  /** Each piece trimmed: .map(w => w.trim()). */
  function TrimAll(pieces: seq<string>): (r: seq<string>)
    ensures |r| == |pieces| && forall i :: 0 <= i < |pieces| ==> r[i] == JsTrim(pieces[i])
  {
    seq(|pieces|, i requires 0 <= i < |pieces| => JsTrim(pieces[i]))
  }

  /** The empty pieces dropped, the others kept in order: .filter(w => w.length > 0). */
  function NonEmpty(pieces: seq<string>): (r: seq<string>)
    ensures |r| <= |pieces|
    ensures forall k :: 0 <= k < |r| ==> r[k] != [] && r[k] in pieces
    ensures forall p :: p in r <==> p in pieces && p != []
  {
    if pieces == [] then []
    else if pieces[0] == [] then NonEmpty(pieces[1..])
    else [pieces[0]] + NonEmpty(pieces[1..])
  }

  /** The words of the input. */
  function Words(text: string): seq<string>
  {
    NonEmpty(TrimAll(Split(text, ',')))
  }

  /**
   * A word of at most three characters as it is; a longer one as its first
   * character, the decimal count of the characters between, and its last
   * character. From the numeronym the word's length, first and last
   * character are read back, and it is never longer than the word.
   */
  function Numeronym(word: string): (r: string)
    ensures |word| <= 3 ==> r == word
    ensures |word| > 3 ==>
      3 <= |r| <= |word| && r[0] == word[0] && r[|r| - 1] == word[|word| - 1] &&
      AllDigits(r[1..|r| - 1]) && DigitsValue(r[1..|r| - 1]) == |word| - 2
  {
    if |word| <= 3 then word
    else
      var digits := NatToString(|word| - 2);
      NatToStringValue(|word| - 2);
      DigitsAtMost(|word| - 2);
      var r := [word[0]] + digits + [word[|word| - 1]];
      assert r[1..|r| - 1] == digits;
      r
  }

  function Numeronyms(words: seq<string>): (r: seq<string>)
    ensures |r| == |words| && forall i :: 0 <= i < |words| ==> r[i] == Numeronym(words[i])
  {
    seq(|words|, i requires 0 <= i < |words| => Numeronym(words[i]))
  }

  /**
   * generateNumeronyms: the text written to the output field. Read back as
   * input it gives the numeronyms again: splitting it on commas and trimming
   * recovers each numeronym, and none is empty.
   */
  function Generate(text: string): (r: string)
    ensures Words(r) == Numeronyms(Words(text))
  {
    WordsAreWords(text);
    NumeronymsAreWords(Words(text));
    ReadBack(Numeronyms(Words(text)));
    Join(", ", Numeronyms(Words(text)))
  }

  // ---- properties ----

  /** A word as Words yields it: not empty, no comma, no white space at either end. */
  predicate IsWord(w: string)
  {
    |w| >= 1 && ',' !in w && !IsJsWhiteSpace(w[0]) && !IsJsWhiteSpace(w[|w| - 1])
  }

  /** A piece without commas keeps none after trimming. */
  lemma NoCommaAfterTrim(p: string)
    requires ',' !in p
    ensures ',' !in JsTrim(p)
  {
    var r := JsTrim(p);
    var a := LeadingSpace(p);
    forall i | 0 <= i < |r| ensures r[i] != ',' {
      assert r[i] == p[a + i];
    }
  }

  /** Every word is non-empty, free of commas and trimmed. */
  lemma WordsAreWords(text: string)
    ensures forall k :: 0 <= k < |Words(text)| ==> IsWord(Words(text)[k])
  {
    var pieces := Split(text, ',');
    var trimmed := TrimAll(pieces);
    var words := NonEmpty(trimmed);
    forall k | 0 <= k < |words| ensures IsWord(words[k]) {
      assert words[k] != [] && words[k] in trimmed;
      var j :| 0 <= j < |trimmed| && trimmed[j] == words[k];
      assert trimmed[j] == JsTrim(pieces[j]);
      assert ',' !in pieces[j];
      TrimmedWord(pieces[j]);
    }
  }

  /** A non-empty trimmed piece without commas is a word. */
  lemma TrimmedWord(p: string)
    requires ',' !in p && JsTrim(p) != []
    ensures IsWord(JsTrim(p))
  {
    NoCommaAfterTrim(p);
  }

  /** A trimmed non-empty text is its own trim. */
  lemma JsTrimKeeps(w: string)
    requires |w| >= 1 && !IsJsWhiteSpace(w[0]) && !IsJsWhiteSpace(w[|w| - 1])
    ensures JsTrim(w) == w
  {}

  /** A space before a trimmed text is trimmed away. */
  lemma JsTrimSpace(w: string)
    requires |w| >= 1 && !IsJsWhiteSpace(w[0]) && !IsJsWhiteSpace(w[|w| - 1])
    ensures JsTrim(" " + w) == w
  {
    var s := " " + w;
    assert s[1..] == w;
    assert IsJsWhiteSpace(s[0]);
    assert LeadingSpace(s) == 1;
    assert TrailingCut(s, 1, |s|) == |s|;
  }

  /** Nothing is dropped from a sequence without empty texts. */
  lemma {:induction false} NonEmptyKeeps(pieces: seq<string>)
    requires forall k :: 0 <= k < |pieces| ==> pieces[k] != []
    ensures NonEmpty(pieces) == pieces
  {
    if pieces != [] {
      NonEmptyKeeps(pieces[1..]);
    }
  }

  /** The non-empty pieces of two runs of pieces are those of the first followed by those of the second. */
  lemma {:induction false} NonEmptyAppend(a: seq<string>, b: seq<string>)
    ensures NonEmpty(a + b) == NonEmpty(a) + NonEmpty(b)
  {
    if a != [] {
      assert (a + b)[1..] == a[1..] + b;
      NonEmptyAppend(a[1..], b);
    } else {
      assert a + b == b;
    }
  }

  /** Trimming words changes nothing. */
  lemma TrimAllKeeps(words: seq<string>)
    requires forall k :: 0 <= k < |words| ==> IsWord(words[k])
    ensures TrimAll(words) == words
  {
    forall k | 0 <= k < |words| ensures JsTrim(words[k]) == words[k] {
      JsTrimKeeps(words[k]);
    }
  }

  /** Words joined by commas are read back as those words. */
  lemma WordsOfJoin(words: seq<string>, text: string)
    requires |words| >= 1 && forall k :: 0 <= k < |words| ==> IsWord(words[k])
    requires text == Join([','], words)
    ensures Words(text) == words
  {
    SplitJoin(words, ',');
    TrimAllKeeps(words);
    NonEmptyKeeps(words);
  }

  /** The number of decimal digits of n is at most n. */
  lemma {:induction false} DigitsAtMost(n: nat)
    requires n >= 1
    ensures |NatToString(n)| <= n
    decreases n
  {
    if n >= 10 {
      DigitsAtMost(n / 10);
    }
  }

  /** The numeronym of a word is a word. */
  lemma NumeronymIsWord(word: string)
    requires IsWord(word)
    ensures IsWord(Numeronym(word))
  {
    if |word| > 3 {
      var r := Numeronym(word);
      var digits := NatToString(|word| - 2);
      assert r == [word[0]] + digits + [word[|word| - 1]];
      forall i | 0 <= i < |r| ensures r[i] != ',' {
        if 0 < i < |r| - 1 {
          assert r[i] == digits[i - 1];
        }
      }
    }
  }

  /** Each part after the first with a space put before it. */
  function Spaced(parts: seq<string>): (r: seq<string>)
    ensures |r| == |parts|
    ensures forall k :: 0 < k < |parts| ==> r[k] == " " + parts[k]
    ensures |parts| > 0 ==> r[0] == parts[0]
  {
    seq(|parts|, k requires 0 <= k < |parts| => if k == 0 then parts[0] else " " + parts[k])
  }

  /** Joining with ", " is joining with "," after a space is put before each later part. */
  lemma {:induction false} JoinCommaSpace(parts: seq<string>)
    ensures Join(", ", parts) == Join(",", Spaced(parts))
    decreases |parts|
  {
    if |parts| >= 2 {
      var tail := parts[1..];
      JoinCommaSpace(tail);
      JoinSpacedTail(parts);
    }
  }

  /** Text put before the first part is put before the whole join. */
  lemma {:induction false} JoinPrefixFirst(x: string, parts: seq<string>, sep: string)
    requires |parts| >= 1
    ensures Join(sep, [x + parts[0]] + parts[1..]) == x + Join(sep, parts)
  {
    var ps := [x + parts[0]] + parts[1..];
    if |parts| >= 2 {
      assert ps[1..] == parts[1..];
      var j := Join(sep, parts[1..]);
      assert Join(sep, ps) == x + parts[0] + sep + j;
      assert Join(sep, parts) == parts[0] + sep + j;
      Regroup4(x, parts[0], sep, j);
    }
  }

  lemma Regroup4(a: string, b: string, c: string, d: string)
    ensures a + b + c + d == a + (b + c + d)
  {}

  lemma CommaSpace(a: string, j: string)
    ensures a + ", " + j == a + "," + (" " + j)
  {
    assert ", " == [','] + [' '];
    Regroup4(a, [','], [' '], j);
  }

  /** The step of JoinCommaSpace: the later parts joined after ", " are the spaced tail joined after ",". */
  lemma JoinSpacedTail(parts: seq<string>)
    requires |parts| >= 2
    requires Join(", ", parts[1..]) == Join(",", Spaced(parts[1..]))
    ensures Join(", ", parts) == Join(",", Spaced(parts))
  {
    var sp := Spaced(parts);
    var tail := Spaced(parts[1..]);
    SpacedShift(parts);
    JoinPrefixFirst(" ", tail, ",");
    var j := Join(", ", parts[1..]);
    JoinStep(",", sp);
    JoinStep(", ", parts);
    CommaSpace(parts[0], j);
  }

  /** Joining two or more parts: the first, the separator and the rest joined. */
  lemma JoinStep(sep: string, parts: seq<string>)
    requires |parts| >= 2
    ensures Join(sep, parts) == parts[0] + sep + Join(sep, parts[1..])
  {}

  /** The spaced parts after the first are the spaced tail with a space put before its first part. */
  lemma SpacedShift(parts: seq<string>)
    requires |parts| >= 2
    ensures var tail := Spaced(parts[1..]);
      Spaced(parts)[1..] == [" " + tail[0]] + tail[1..] && Spaced(parts)[0] == parts[0]
  {
    var sp := Spaced(parts);
    var tail := Spaced(parts[1..]);
    var shifted := [" " + tail[0]] + tail[1..];
    forall k | 0 <= k < |sp| - 1 ensures sp[1..][k] == shifted[k] {
      if k > 0 {
        assert shifted[k] == tail[k] == " " + parts[1..][k];
      }
    }
  }

  /** The numeronyms of words are words. */
  lemma NumeronymsAreWords(words: seq<string>)
    requires forall k :: 0 <= k < |words| ==> IsWord(words[k])
    ensures forall k :: 0 <= k < |words| ==> IsWord(Numeronyms(words)[k])
  {
    forall k | 0 <= k < |words| ensures IsWord(Numeronyms(words)[k]) {
      NumeronymIsWord(words[k]);
    }
  }

  /** Trimming the spaced words gives the words back. */
  lemma TrimSpacedKeeps(words: seq<string>)
    requires forall k :: 0 <= k < |words| ==> IsWord(words[k])
    ensures TrimAll(Spaced(words)) == words
  {
    var sp := Spaced(words);
    forall k | 0 <= k < |sp| ensures JsTrim(sp[k]) == words[k] {
      if k == 0 {
        JsTrimKeeps(words[0]);
      } else {
        JsTrimSpace(words[k]);
      }
    }
  }

  /** Words joined with ", " are read back as those words. */
  lemma ReadBack(words: seq<string>)
    requires forall k :: 0 <= k < |words| ==> IsWord(words[k])
    ensures Words(Join(", ", words)) == words
  {
    if words == [] {
      assert Split("", ',') == [""];
      assert TrimAll([""]) == [""];
    } else {
      JoinCommaSpace(words);
      SpacedReadBack(words, Join(",", Spaced(words)));
    }
  }

  /** The spaced words have no comma. */
  lemma SpacedNoComma(words: seq<string>)
    requires forall k :: 0 <= k < |words| ==> IsWord(words[k])
    ensures forall k :: 0 <= k < |words| ==> ',' !in Spaced(words)[k]
  {
    var sp := Spaced(words);
    forall k | 0 <= k < |sp| ensures ',' !in sp[k] {
      if k > 0 {
        assert sp[k] == [' '] + words[k];
      }
    }
  }

  /** The spaced words joined with "," are read back as the words. */
  lemma SpacedReadBack(words: seq<string>, text: string)
    requires |words| >= 1 && forall k :: 0 <= k < |words| ==> IsWord(words[k])
    requires text == Join([','], Spaced(words))
    ensures Words(text) == words
  {
    SpacedNoComma(words);
    SplitJoin(Spaced(words), ',');
    TrimSpacedKeeps(words);
    NonEmptyKeeps(words);
  }

  /** "internationalization" gives "i18n". */
  lemma Internationalization(word: string)
    requires word == "internationalization"
    ensures Numeronym(word) == "i18n"
  {
    assert |word| == 20;
    assert NatToString(18) == "18";
  }

  /** "international", the example of the tool's description, gives "i11l", not "i18n". */
  lemma International(word: string)
    requires word == "international"
    ensures Numeronym(word) == "i11l"
  {
    assert |word| == 13;
    assert NatToString(11) == "11";
  }
}
