/**
 * The string obfuscator's client-side `obfuscate`: the first `first` and
 * the last `last` characters are kept, every character between them becomes
 * '*', or stays a space when spaces are kept.
 *
 * first and last are the numbers after `parseInt(...) || 0`; the text is a
 * sequence of UTF-16 code units without surrogate pairs, so `for..of` visits
 * one unit at a time.
 */
module StringObfuscator {

  /** An index argument of String.prototype.slice: a negative one counts from the end; both are clamped to 0 .. n. */
  function SliceIndex(i: int, n: nat): (r: nat)
    ensures r <= n
    ensures 0 <= i <= n ==> r == i
  {
    if i < 0 then (if n + i < 0 then 0 else n + i)
    else if i > n then n
    else i
  }

  /**
   * text.slice(b, e): the units from b up to e, where a negative index counts
   * from the end and an index past either end stops at that end; nothing when
   * the end comes at or before the start.
   */
  function Slice(s: string, b: int, e: int): (r: string)
    ensures |r| <= |s|
    ensures 0 <= b <= e <= |s| ==> r == s[b..e]
    ensures 0 <= b <= |s| <= e ==> r == s[b..]
    ensures -|s| <= b < 0 && |s| <= e ==> r == s[|s| + b..]
    ensures b <= -|s| && 0 <= e <= |s| ==> r == s[..e]
    ensures 0 <= b <= |s| && -|s| <= e < 0 ==> r == if b <= |s| + e then s[b..|s| + e] else []
    ensures 0 <= e <= b ==> r == []
    ensures var lo, hi := SliceIndex(b, |s|), SliceIndex(e, |s|);
      if lo < hi then r == s[lo..hi] else r == []
  {
    var lo, hi := SliceIndex(b, |s|), SliceIndex(e, |s|);
    if lo < hi then s[lo..hi] else []
  }

  /** What one character of the middle becomes. */
  function MaskChar(ch: char, keepSpace: bool): char
  {
    if keepSpace && ch == ' ' then ' ' else '*'
  }

  /** Every character masked. */
  function Mask(s: string, keepSpace: bool): (r: string)
    ensures |r| == |s|
    ensures forall i :: 0 <= i < |s| ==> r[i] == MaskChar(s[i], keepSpace)
  {
    if s == [] then [] else Mask(s[..|s| - 1], keepSpace) + [MaskChar(s[|s| - 1], keepSpace)]
  }

  /** The text obfuscate writes to the output field. */
  function Obfuscated(text: string, first: int, last: int, keepSpace: bool): string
  {
    if |text| <= first + last then text
    else Slice(text, 0, first) + Mask(Slice(text, first, |text| - last), keepSpace) + Slice(text, |text| - last, |text|)
  }

  /** obfuscate: the middle is masked one character at a time. */
  method Obfuscate(text: string, first: int, last: int, keepSpace: bool) returns (output: string)
    ensures output == Obfuscated(text, first, last, keepSpace)
  {
    if |text| <= first + last {
      return text;
    }
    var start := Slice(text, 0, first);
    var end := Slice(text, |text| - last, |text|);
    var middlePart := Slice(text, first, |text| - last);
    var obfuscatedMiddle := MaskEach(middlePart, keepSpace);
    output := start + obfuscatedMiddle + end;
  }

  /** obfuscate's for..of loop: each character of the middle appended as a space or a '*'. */
  method MaskEach(middlePart: string, keepSpace: bool) returns (obfuscatedMiddle: string)
    ensures obfuscatedMiddle == Mask(middlePart, keepSpace)
  {
    obfuscatedMiddle := "";
    for i := 0 to |middlePart|
      invariant obfuscatedMiddle == Mask(middlePart[..i], keepSpace)
    {
      var ch := middlePart[i];
      if keepSpace && ch == ' ' {
        obfuscatedMiddle := obfuscatedMiddle + " ";
      } else {
        obfuscatedMiddle := obfuscatedMiddle + "*";
      }
      assert middlePart[..i + 1][..i] == middlePart[..i];
    }
    assert middlePart[..|middlePart|] == middlePart;
  }

  // ---- properties ----

  /** A text no longer than first + last is shown as it is. */
  lemma ShortUnchanged(text: string, first: int, last: int, keepSpace: bool)
    requires |text| <= first + last
    ensures Obfuscated(text, first, last, keepSpace) == text
  {}

  /**
   * With counts that are not negative, a longer text keeps its length, its
   * first `first` and last `last` characters, and every character between
   * them is masked.
   */
  lemma {:induction false} KeepsShape(text: string, first: nat, last: nat, keepSpace: bool)
    requires |text| > first + last
    ensures var r := Obfuscated(text, first, last, keepSpace);
      |r| == |text| && r[..first] == text[..first] && r[|text| - last..] == text[|text| - last..] &&
      forall i :: first <= i < |text| - last ==> r[i] == MaskChar(text[i], keepSpace)
  {
    var n := |text|;
    var start, middle, end := Slice(text, 0, first), Slice(text, first, n - last), Slice(text, n - last, n);
    assert start == text[..first];
    assert end == text[n - last..];
    assert middle == text[first..n - last];
    var r := start + Mask(middle, keepSpace) + end;
    assert r[..first] == start;
    assert r[n - last..] == end;
    forall i | first <= i < n - last ensures r[i] == MaskChar(text[i], keepSpace) {
      assert r[i] == Mask(middle, keepSpace)[i - first];
      assert middle[i - first] == text[i];
    }
  }

  /** With keepSpace every space of the middle stays a space, and without it none does. */
  lemma SpacesInMiddle(text: string, first: nat, last: nat, keepSpace: bool, i: nat)
    requires |text| > first + last && first <= i < |text| - last && text[i] == ' '
    ensures Obfuscated(text, first, last, keepSpace)[i] == (if keepSpace then ' ' else '*')
  {
    KeepsShape(text, first, last, keepSpace);
  }

  /**
   * A negative first count takes that many characters off the end for the
   * start, while the end is still the last `last` characters: with first = -1
   * and last = |text| - 2 the middle is empty and the characters from index 2
   * on appear twice.
   */
  lemma NegativeFirstRepeats(text: string, keepSpace: bool)
    requires |text| >= 4
    ensures var r := Obfuscated(text, -1, |text| - 2, keepSpace);
      r == text[..|text| - 1] + text[2..] && |r| == 2 * |text| - 3 > |text|
  {
    var n := |text|;
    assert Slice(text, 0, -1) == text[..n - 1];
    assert SliceIndex(-1, n) == n - 1 && SliceIndex(n - (n - 2), n) == 2;
    assert Slice(text, -1, n - (n - 2)) == [];
    assert Slice(text, n - (n - 2), n) == text[2..];
    assert Mask([], keepSpace) == [];
  }

  /** The counts as the input fields allow them (min='0'): a negative count is taken as 0. */
  function ObfuscatedClamped(text: string, first: int, last: int, keepSpace: bool): (r: string)
    ensures |r| == |text|
    ensures first >= 0 && last >= 0 ==> r == Obfuscated(text, first, last, keepSpace)
  {
    var f: nat := if first < 0 then 0 else first;
    var l: nat := if last < 0 then 0 else last;
    if |text| > f + l then
      KeepsShape(text, f, l, keepSpace);
      Obfuscated(text, f, l, keepSpace)
    else Obfuscated(text, f, l, keepSpace)
  }
}
