/**
 * The SVG placeholder generator: a width and height checked, then four
 * lines of SVG with the size, the two colours, the font size and the text
 * put in as they are, without escaping.
 *
 * StringBuilder.AppendLine ends each line with Environment.NewLine, which
 * is a parameter here.
 */
module SvgPlaceholder {
  import opened Wrappers
  import opened Text

  /** The request object; a string the JSON sets to null is None, and interpolates as "". */
  datatype SvgPlaceholderRequest = SvgPlaceholderRequest(
    width: int,
    height: int,
    bgColor: Option<string>,
    textColor: Option<string>,
    text: Option<string>,
    fontSize: int)

  /** A plain string reply, or the { svg } object. */
  datatype Reply = Message(message: string) | Svg(svg: string)

  const SvgOpen := "<svg xmlns='http://www.w3.org/2000/svg' width='"
  const HeightAttr := "' height='"
  const TagEnd := "'>"
  const RectOpen := "  <rect width='100%' height='100%' fill='"
  const RectEnd := "' />"
  const TextOpen := "  <text x='50%' y='50%' dominant-baseline='middle' text-anchor='middle' fill='"
  const FontSizeAttr := "' font-size='"
  const FontEnd := "px' font-family='Arial, sans-serif'>"
  const TextEnd := "</text>"
  const SvgClose := "</svg>"

  /** The text shown: the request's text, or "{Width}x{Height}" when it is null or white space. */
  function DisplayText(q: SvgPlaceholderRequest): string
  {
    if q.text.None? || IsBlank(q.text.value) then IntToString(q.width) + "x" + IntToString(q.height)
    else q.text.value
  }

  function OpenLine(q: SvgPlaceholderRequest): string
  {
    SvgOpen + IntToString(q.width) + HeightAttr + IntToString(q.height) + TagEnd
  }

  function RectLine(q: SvgPlaceholderRequest): string
  {
    RectOpen + q.bgColor.GetOr("") + RectEnd
  }

  function TextLine(q: SvgPlaceholderRequest): string
  {
    TextOpen + q.textColor.GetOr("") + FontSizeAttr + IntToString(q.fontSize) + FontEnd + DisplayText(q) + TextEnd
  }

  /** The four lines in order. */
  function Lines(q: SvgPlaceholderRequest): seq<string>
  {
    [OpenLine(q), RectLine(q), TextLine(q), SvgClose]
  }

  /** The document: each line followed by the line terminator. */
  function Document(q: SvgPlaceholderRequest, newline: string): string
  {
    OpenLine(q) + newline + RectLine(q) + newline + TextLine(q) + newline + SvgClose + newline
  }

  /** GenerateSvg: four AppendLine calls on a StringBuilder. */
  method GenerateSvg(q: SvgPlaceholderRequest, newline: string) returns (svg: string)
    ensures svg == Document(q, newline)
  {
    var text := DisplayText(q);
    var sb := "";
    sb := sb + OpenLine(q) + newline;
    sb := sb + (RectOpen + q.bgColor.GetOr("") + RectEnd) + newline;
    sb := sb + (TextOpen + q.textColor.GetOr("") + FontSizeAttr + IntToString(q.fontSize) + FontEnd + text + TextEnd) + newline;
    sb := sb + SvgClose + newline;
    assert "" + OpenLine(q) == OpenLine(q);
    svg := sb;
  }

  /** Execute, with the JSON deserializer and the line terminator given. */
  method Execute(
    input: Option<string>,
    deserialize: string -> Result<Option<SvgPlaceholderRequest>>,
    newline: string) returns (r: Reply)
    ensures input.None? || IsBlank(input.value) ==> r == Message("Invalid input")
    ensures input.Some? && !IsBlank(input.value) && deserialize(input.value).Error? ==>
      r == Message("Error: " + deserialize(input.value).message)
    ensures input.Some? && !IsBlank(input.value) && deserialize(input.value).Ok? ==>
      var request := deserialize(input.value).value;
      if request.None? || request.value.width <= 0 || request.value.height <= 0 then r == Message("Invalid request data")
      else r == Svg(Document(request.value, newline))
  {
    if input.None? || IsBlank(input.value) {
      return Message("Invalid input");
    }
    var request := deserialize(input.value);
    if request.Error? {
      return Message("Error: " + request.message);
    }
    if request.value.None? || request.value.value.width <= 0 || request.value.value.height <= 0 {
      return Message("Invalid request data");
    }
    var svg := GenerateSvg(request.value.value, newline);
    r := Svg(svg);
  }

  // ---- properties ----

  /** Text put between two others starts right after the first. */
  lemma Between(a: string, x: string, b: string)
    ensures OccursAt(a + x + b, x, |a|)
  {
    assert (a + x + b)[|a|..|a| + |x|] == x;
  }

  lemma RegroupRect(o: string, n: string, ro: string, bg: string, re: string, t: string, c: string)
    ensures o + n + (ro + bg + re) + n + t + n + c + n == (o + n + ro) + bg + (re + n + t + n + c + n)
  {}

  lemma RegroupText(o: string, n: string, rl: string, pre: string, x: string, post: string, c: string)
    ensures o + n + rl + n + (pre + x + post) + n + c + n == (o + n + rl + n + pre) + x + (post + n + c + n)
  {}

  /** The background colour is in the document as given, right after fill=' of the rect line. */
  lemma BackgroundVerbatim(q: SvgPlaceholderRequest, newline: string)
    ensures OccursAt(Document(q, newline), q.bgColor.GetOr(""), |OpenLine(q)| + |newline| + |RectOpen|)
  {
    var bg := q.bgColor.GetOr("");
    RegroupRect(OpenLine(q), newline, RectOpen, bg, RectEnd, TextLine(q), SvgClose);
    Between(OpenLine(q) + newline + RectOpen, bg, RectEnd + newline + TextLine(q) + newline + SvgClose + newline);
  }

  /** The text colour is in the document as given, right after fill=' of the text line. */
  lemma TextColorVerbatim(q: SvgPlaceholderRequest, newline: string)
    ensures OccursAt(Document(q, newline), q.textColor.GetOr(""),
      |OpenLine(q)| + |newline| + |RectLine(q)| + |newline| + |TextOpen|)
  {
    var tc := q.textColor.GetOr("");
    var post := FontSizeAttr + IntToString(q.fontSize) + FontEnd + DisplayText(q) + TextEnd;
    assert TextLine(q) == TextOpen + tc + post;
    RegroupText(OpenLine(q), newline, RectLine(q), TextOpen, tc, post, SvgClose);
    Between(OpenLine(q) + newline + RectLine(q) + newline + TextOpen, tc, post + newline + SvgClose + newline);
  }

  /** The text is in the document as given, just before the closing </text>. */
  lemma TextVerbatim(q: SvgPlaceholderRequest, newline: string)
    ensures var pre := TextOpen + q.textColor.GetOr("") + FontSizeAttr + IntToString(q.fontSize) + FontEnd;
      OccursAt(Document(q, newline), DisplayText(q), |OpenLine(q)| + |newline| + |RectLine(q)| + |newline| + |pre|)
  {
    var pre := TextOpen + q.textColor.GetOr("") + FontSizeAttr + IntToString(q.fontSize) + FontEnd;
    assert TextLine(q) == pre + DisplayText(q) + TextEnd;
    RegroupText(OpenLine(q), newline, RectLine(q), pre, DisplayText(q), TextEnd, SvgClose);
    Between(OpenLine(q) + newline + RectLine(q) + newline + pre, DisplayText(q), TextEnd + newline + SvgClose + newline);
  }

  /** A null or blank text shows the size as "{Width}x{Height}". */
  lemma BlankTextShowsSize(q: SvgPlaceholderRequest)
    requires q.text.None? || IsBlank(q.text.value)
    ensures DisplayText(q) == IntToString(q.width) + ['x'] + IntToString(q.height)
  {}

  lemma RegroupLines(a: string, b: string, c: string, d: string, n: string)
    ensures a + n + b + n + c + n + d + n == a + n + (b + n + (c + n + (d + n + "")))
  {}

  /** Joined by the terminator, the document is the four lines with an empty fifth piece after the last terminator. */
  lemma DocumentIsLines(q: SvgPlaceholderRequest, newline: string)
    ensures Document(q, newline) == Join(newline, Lines(q) + [""])
  {
    var a, b, c, d := OpenLine(q), RectLine(q), TextLine(q), SvgClose;
    var ls := Lines(q) + [""];
    assert ls == [a, b, c, d, ""];
    assert Join(newline, [""]) == "";
    assert [d, ""][1..] == [""];
    assert Join(newline, [d, ""]) == d + newline + "";
    assert [c, d, ""][1..] == [d, ""];
    assert Join(newline, [c, d, ""]) == c + newline + (d + newline + "");
    assert [b, c, d, ""][1..] == [c, d, ""];
    assert Join(newline, [b, c, d, ""]) == b + newline + (c + newline + (d + newline + ""));
    assert [a, b, c, d, ""][1..] == [b, c, d, ""];
    assert Join(newline, ls) == a + newline + (b + newline + (c + newline + (d + newline + "")));
    RegroupLines(a, b, c, d, newline);
  }
}
