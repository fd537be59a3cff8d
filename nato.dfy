/**
 * Text to the NATO phonetic alphabet: each character of the text replaced by
 * its word from a fixed table (letters of either case share a word), with a
 * single space between the words.
 */
module TextToNatoAlphabet {
  import opened Wrappers
  import opened Text

  datatype NatoRequest = NatoRequest(text: Option<string>, includeOriginalCharacters: bool)

  /** An { Error } object, or { Result } with the spelled-out text. */
  datatype Reply = Failure(error: string) | Converted(result: string)

  /**
   * The NatoAlphabet dictionary. It lists each letter twice, upper and lower
   * case, with the same word; here the two entries are one case of LetterWord.
   */
  function Word(c: char): Option<string>
  {
    if IsAsciiLetter(c) then Some(LetterWord(ToUpperChar(c))) else OtherWord(c)
  }

  /** The words of the letters, under their upper-case form. */
  function LetterWord(u: char): string
    requires IsAsciiUpper(u)
  {
    match u
      case 'A' => "Alpha"
      case 'B' => "Bravo"
      case 'C' => "Charlie"
      case 'D' => "Delta"
      case 'E' => "Echo"
      case 'F' => "Foxtrot"
      case 'G' => "Golf"
      case 'H' => "Hotel"
      case 'I' => "India"
      case 'J' => "Juliet"
      case 'K' => "Kilo"
      case 'L' => "Lima"
      case 'M' => "Mike"
      case 'N' => "November"
      case 'O' => "Oscar"
      case 'P' => "Papa"
      case 'Q' => "Quebec"
      case 'R' => "Romeo"
      case 'S' => "Sierra"
      case 'T' => "Tango"
      case 'U' => "Uniform"
      case 'V' => "Victor"
      case 'W' => "Whiskey"
      case 'X' => "X-ray"
      case 'Y' => "Yankee"
      case 'Z' => "Zulu"
  }

  /** The digits, the punctuation and the space. */
  function OtherWord(c: char): Option<string>
  {
    match c
      case '0' => Some("Zero")
      case '1' => Some("One")
      case '2' => Some("Two")
      case '3' => Some("Three")
      case '4' => Some("Four")
      case '5' => Some("Five")
      case '6' => Some("Six")
      case '7' => Some("Seven")
      case '8' => Some("Eight")
      case '9' => Some("Nine")
      case '.' => Some("Dot")
      case ',' => Some("Comma")
      case '?' => Some("Question Mark")
      case '!' => Some("Exclamation Mark")
      case '-' => Some("Dash")
      case '_' => Some("Underscore")
      case '@' => Some("At Sign")
      case '#' => Some("Hash")
      case '$' => Some("Dollar Sign")
      case '%' => Some("Percent")
      case '&' => Some("Ampersand")
      case '*' => Some("Asterisk")
      case '(' => Some("Open Parenthesis")
      case ')' => Some("Close Parenthesis")
      case '+' => Some("Plus")
      case '=' => Some("Equals")
      case '/' => Some("Slash")
      case '\\' => Some("Backslash")
      case '|' => Some("Vertical Bar")
      case ';' => Some("Semicolon")
      case ':' => Some("Colon")
      case '\'' => Some("Single Quote")
      case '"' => Some("Double Quote")
      case '<' => Some("Less Than")
      case '>' => Some("Greater Than")
      case ' ' => Some("Space")
      case _ => None
  }

  /** What ConvertToNATO appends for one character. */
  function Spell(c: char, includeOriginal: bool): string
  {
    match Word(c)
    case Some(word) => word
    case None => if includeOriginal then [c] else "Unknown"
  }

  /** The words of a text, one per character. */
  function Words(text: string, includeOriginal: bool): (r: seq<string>)
    ensures |r| == |text| && forall i :: 0 <= i < |text| ==> r[i] == Spell(text[i], includeOriginal)
  {
    seq(|text|, i requires 0 <= i < |text| => Spell(text[i], includeOriginal))
  }

  /** ConvertToNATO: the loop writes a space before every word but the first. */
  method ConvertToNato(text: string, includeOriginal: bool) returns (r: string)
    ensures r == Join(" ", Words(text, includeOriginal))
  {
    if text == "" {
      return "";
    }
    r := "";
    var isFirstWord := true;
    for i := 0 to |text|
      invariant isFirstWord <==> i == 0
      invariant r == Join(" ", Words(text[..i], includeOriginal))
    {
      ghost var before := Words(text[..i], includeOriginal);
      WordsStep(text, i, includeOriginal);
      if isFirstWord {
        isFirstWord := false;
      } else {
        r := r + " ";
      }
      r := r + Spell(text[i], includeOriginal);
      JoinAppend(" ", before, Spell(text[i], includeOriginal));
    }
    assert text[..|text|] == text;
  }

  lemma WordsStep(text: string, i: nat, includeOriginal: bool)
    requires i < |text|
    ensures Words(text[..i + 1], includeOriginal) == Words(text[..i], includeOriginal) + [Spell(text[i], includeOriginal)]
  {
    var a, b := Words(text[..i + 1], includeOriginal), Words(text[..i], includeOriginal) + [Spell(text[i], includeOriginal)];
    assert |a| == |b|;
    forall k | 0 <= k < |a|
      ensures a[k] == b[k]
    {
      if k < i {
        assert text[..i + 1][k] == text[..i][k];
      }
    }
  }

  /** Execute, with the JSON deserializer given. */
  method Execute(input: Option<string>, deserialize: string -> Result<Option<NatoRequest>>) returns (r: Reply)
    ensures input.None? || IsBlank(input.value) ==> r == Failure("Invalid request. Input is empty.")
    ensures input.Some? && !IsBlank(input.value) && deserialize(input.value).Error? ==>
      r == Failure(deserialize(input.value).message)
    ensures input.Some? && !IsBlank(input.value) && deserialize(input.value).Ok? ==>
      var request := deserialize(input.value).value;
      if request.None? || request.value.text.None? || request.value.text.value == "" then
        r == Failure("Invalid request. Text is required.")
      else
        r == Converted(Join(" ", Words(request.value.text.value, request.value.includeOriginalCharacters)))
  {
    if input.None? || IsBlank(input.value) {
      return Failure("Invalid request. Input is empty.");
    }
    var request := deserialize(input.value);
    if request.Error? {
      return Failure(request.message);
    }
    if request.value.None? || request.value.value.text.None? || request.value.value.text.value == "" {
      return Failure("Invalid request. Text is required.");
    }
    var q := request.value.value;
    var nato := ConvertToNato(q.text.value, q.includeOriginalCharacters);
    return Converted(nato);
  }

  // ---- properties ----

  /** An upper-case letter and its lower-case form have the same word. */
  lemma CaseInsensitive(c: char)
    requires IsAsciiLetter(c)
    ensures Word(ToUpperChar(c)) == Word(ToLowerChar(c)) && Word(c).Some?
  {
    ToLowerUpperChar(c);
  }

  /** For a character in the table the flag makes no difference; otherwise it decides between the character and "Unknown". */
  lemma FlagOnlyForUnmapped(c: char)
    ensures Word(c).Some? ==> Spell(c, true) == Spell(c, false) == Word(c).value
    ensures Word(c).None? ==> Spell(c, true) == [c] && Spell(c, false) == "Unknown"
  {}

  /** A text made only of characters in the table spells the same with or without the flag. */
  lemma MappedTextIgnoresFlag(text: string)
    requires forall i :: 0 <= i < |text| ==> Word(text[i]).Some?
    ensures Join(" ", Words(text, true)) == Join(" ", Words(text, false))
  {
    assert Words(text, true) == Words(text, false);
  }

  /** One word per character and one space between each two: the length of the spelled text. */
  lemma SpelledText(text: string, includeOriginal: bool)
    requires text != ""
    ensures var r := Join(" ", Words(text, includeOriginal));
      |r| == WordsLength(Words(text, includeOriginal)) + |text| - 1
  {
    JoinLength(" ", Words(text, includeOriginal));
  }

  function WordsLength(words: seq<string>): nat
  {
    if words == [] then 0 else |words[0]| + WordsLength(words[1..])
  }

  lemma {:induction false} JoinLength(sep: string, parts: seq<string>)
    requires parts != []
    ensures |Join(sep, parts)| == WordsLength(parts) + (|parts| - 1) * |sep|
  {
    if |parts| > 1 {
      JoinLength(sep, parts[1..]);
    }
  }

  /** Spelling out "Hi 5". */
  lemma Example()
    ensures Join(" ", Words("Hi 5", false)) == "Hotel India Space Five"
  {
    var w := Words("Hi 5", false);
    assert w == ["Hotel", "India", "Space", "Five"];
  }
}
