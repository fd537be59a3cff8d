/**
 * The Roman Converter tool: a 32-bit integer in 1..3999 becomes a Roman
 * numeral by the greedy choice over the symbol table, and a string that the
 * validation pattern accepts becomes the value of its symbols, read left to
 * right with the two-character symbols tried first.
 */
module RomanConverter {
  import opened Wrappers
  import opened Text

  /** The request body; InputText may be JSON null. */
  datatype RomanConverterRequest = RomanConverterRequest(inputText: Option<string>)

  /** What Execute returns: a bare string, or a string dictionary. */
  datatype Reply = Message(text: string) | Fields(fields: map<string, string>)

  /** The dictionary of a failed conversion. */
  function ErrorReply(message: string): Reply
  {
    Fields(map["Result" := "Error: " + message, "IsError" := "true"])
  }

  /**
   * Execute: blank input and an empty request are refused with a bare string;
   * the rest is converted. A deserialisation exception becomes an error
   * dictionary holding its message.
   */
  method Execute(input: Option<string>, deserialize: string -> Result<Option<RomanConverterRequest>>) returns (r: Reply)
    ensures (input.None? || IsBlank(input.value)) ==> r == Message("Invalid Request.")
    ensures input.Some? && !IsBlank(input.value) && deserialize(input.value).Error? ==>
      r == ErrorReply(deserialize(input.value).message)
    ensures input.Some? && !IsBlank(input.value) && deserialize(input.value).Ok? ==>
      var request := deserialize(input.value).value;
      if request.None? || request.value.inputText.None? || request.value.inputText.value == "" then
        r == Message("Invalid Request")
      else
        r == Converted(request.value.inputText.value)
  {
    if input.None? || IsBlank(input.value) {
      return Message("Invalid Request.");
    }
    var parsed := deserialize(input.value);
    if parsed.Error? {
      return ErrorReply(parsed.message);
    }
    var request := parsed.value;
    if request.None? || request.value.inputText.None? || request.value.inputText.value == "" {
      return Message("Invalid Request");
    }
    r := Convert(request.value.inputText.value);
  }

  /**
   * The reply to a text: an integer in range becomes its numeral, any other
   * integer an error; a valid numeral becomes its value as a 32-bit integer,
   * anything else an error.
   */
  function Converted(text: string): Reply
  {
    match TryParseInt32(text)
    case Some(v) => ConvertedNumber(v)
    case None => ConvertedNumeral(text)
  }

  /** The reply to an integer. */
  function ConvertedNumber(v: int): Reply
  {
    if 1 <= v <= 3999 then Fields(map["Result" := Standard(v)])
    else ErrorReply("Number out of range (1-3999)")
  }

  /** The reply to a text that is not an integer. */
  function ConvertedNumeral(text: string): Reply
  {
    if !IsValidRoman(text) then ErrorReply("Invalid Roman numeral")
    else
      match DecodeValue(ToUpper(text))
      case Some(v) => Fields(map["Result" := IntToString(WrapInt32(v))])
      case None => ErrorReply("Invalid Roman numeral: " + ToUpper(text))
  }

  /** The body of Execute's try block, from int.TryParse on. */
  method Convert(text: string) returns (r: Reply)
    ensures r == Converted(text)
  {
    var result: string;
    var number := TryParseInt32(text);
    if number.Some? {
      assert Converted(text) == ConvertedNumber(number.value);
      var roman := ToRoman(number.value);
      if roman.Error? {
        return ErrorReply(roman.message);
      }
      result := roman.value;
    } else {
      assert Converted(text) == ConvertedNumeral(text);
      if !IsValidRoman(text) {
        InvalidNumeralReply();
        return Fields(map["Result" := "Error: Invalid Roman numeral", "IsError" := "true"]);
      }
      var value := FromRoman(text);
      if value.Error? {
        return ErrorReply(value.message);
      }
      result := IntToString(value.value);
    }
    return Fields(map["Result" := result]);
  }

  /** The refusal written out in Execute is the error reply for "Invalid Roman numeral". */
  lemma InvalidNumeralReply()
    ensures ErrorReply("Invalid Roman numeral") == Fields(map["Result" := "Error: Invalid Roman numeral", "IsError" := "true"])
  {
    assert "Error: " + "Invalid Roman numeral" == "Error: Invalid Roman numeral";
  }

  /** The symbol table, in the order the dictionary enumerates it. */
  const RomanMap: seq<(string, nat)> := [
    ("M", 1000), ("CM", 900), ("D", 500), ("CD", 400),
    ("C", 100), ("XC", 90), ("L", 50), ("XL", 40),
    ("X", 10), ("IX", 9), ("V", 5), ("IV", 4), ("I", 1)]

  function Key(k: nat): string requires k < |RomanMap| { RomanMap[k].0 }
  function Value(k: nat): nat requires k < |RomanMap| { RomanMap[k].1 }

  /** The value of one of the seven letters. */
  function LetterValue(c: char): Option<nat>
  {
    if c == 'I' then Some(1) else if c == 'V' then Some(5) else if c == 'X' then Some(10)
    else if c == 'L' then Some(50) else if c == 'C' then Some(100) else if c == 'D' then Some(500)
    else if c == 'M' then Some(1000) else None
  }

  /**
   * ContainsKey and the indexer of the table, by its shape: a single letter, or
   * I, X or C before the letter worth five or ten times as much, worth the difference.
   */
  function Lookup(key: string): (r: Option<nat>)
    ensures r.Some? ==> 1 <= r.value <= 1000
  {
    if |key| == 1 then LetterValue(key[0])
    else if |key| == 2 && (key[0] == 'I' || key[0] == 'X' || key[0] == 'C') && LetterValue(key[1]).Some? then
      var low, high := LetterValue(key[0]).value, LetterValue(key[1]).value;
      if high == 5 * low || high == 10 * low then Some(high - low) else None
    else None
  }

  /** Every entry of the table is found by Lookup, with its value. */
  lemma LookupKey(k: nat)
    requires k < |RomanMap|
    ensures Lookup(Key(k)) == Some(Value(k))
  {
    if k == 0 {} else if k == 1 {} else if k == 2 {} else if k == 3 {} else if k == 4 {}
    else if k == 5 {} else if k == 6 {} else if k == 7 {} else if k == 8 {} else if k == 9 {}
    else if k == 10 {} else if k == 11 {} else { assert k == 12; }
  }

  /** Lookup finds nothing but the entries of the table. */
  lemma LookupOnlyKeys(key: string)
    requires Lookup(key).Some?
    ensures exists k :: 0 <= k < |RomanMap| && Key(k) == key && Value(k) == Lookup(key).value
  {
    var k: nat;
    if |key| == 1 {
      var c := key[0];
      k := if c == 'M' then 0 else if c == 'D' then 2 else if c == 'C' then 4 else if c == 'L' then 6
        else if c == 'X' then 8 else if c == 'V' then 10 else 12;
      assert key == [c];
    } else {
      var c, d := key[0], key[1];
      k := if c == 'C' && d == 'M' then 1 else if c == 'C' then 3 else if c == 'X' && d == 'C' then 5
        else if c == 'X' then 7 else if d == 'X' then 9 else 11;
      assert key == [c, d];
    }
    assert Key(k) == key && Value(k) == Lookup(key).value;
  }

  // ---- number to numeral ----

  /**
   * The greedy rendering from table entry k on: take the entry while it fits,
   * then move to the next one.
   */
  function Greedy(n: nat, k: nat): string
    requires k <= |RomanMap|
    decreases |RomanMap| - k, n
  {
    if k == |RomanMap| then ""
    else if n >= Value(k) then Key(k) + Greedy(n - Value(k), k)
    else Greedy(n, k + 1)
  }

  /** The table entries a greedy rendering takes, in the order it takes them. */
  function GreedyEntries(n: nat, k: nat): seq<nat>
    requires k <= |RomanMap|
    decreases |RomanMap| - k, n
  {
    if k == |RomanMap| then []
    else if n >= Value(k) then [k] + GreedyEntries(n - Value(k), k)
    else GreedyEntries(n, k + 1)
  }

  predicate AreEntries(ks: seq<nat>) { forall i :: 0 <= i < |ks| ==> ks[i] < |RomanMap| }

  /** Entries from index k on, in table order. */
  predicate InTableOrder(ks: seq<nat>, k: nat)
  {
    AreEntries(ks)
    && (forall i :: 0 <= i < |ks| ==> k <= ks[i])
    && (forall i, j :: 0 <= i < j < |ks| ==> ks[i] <= ks[j])
  }

  /** The keys of a list of entries, written one after the other. */
  function KeysOf(ks: seq<nat>): string
    requires AreEntries(ks)
  {
    if ks == [] then "" else Key(ks[0]) + KeysOf(ks[1..])
  }

  /** The sum of the values of a list of entries. */
  function ValuesOf(ks: seq<nat>): nat
    requires AreEntries(ks)
  {
    if ks == [] then 0 else Value(ks[0]) + ValuesOf(ks[1..])
  }

  /**
   * The greedy rendering is made of table keys only, taken in table order
   * (so in descending value), whose values add up to the number.
   */
  lemma {:induction false} GreedyTakesEntries(n: nat, k: nat)
    requires k < |RomanMap|
    ensures InTableOrder(GreedyEntries(n, k), k)
    ensures KeysOf(GreedyEntries(n, k)) == Greedy(n, k) && ValuesOf(GreedyEntries(n, k)) == n
    decreases |RomanMap| - k, n, 1
  {
    if n >= Value(k) {
      EntriesTake(n, k);
    } else if k + 1 < |RomanMap| {
      GreedyTakesEntries(n, k + 1);
      assert GreedyEntries(n, k) == GreedyEntries(n, k + 1);
    } else {
      assert n == 0 by { assert Value(k) == 1; }
      assert GreedyEntries(n, k) == GreedyEntries(n, k + 1) == [];
    }
  }

  lemma {:induction false} EntriesTake(n: nat, k: nat)
    requires k < |RomanMap| && n >= Value(k)
    ensures InTableOrder(GreedyEntries(n, k), k)
    ensures KeysOf(GreedyEntries(n, k)) == Greedy(n, k) && ValuesOf(GreedyEntries(n, k)) == n
    decreases |RomanMap| - k, n, 0
  {
    var rest := GreedyEntries(n - Value(k), k);
    GreedyTakesEntries(n - Value(k), k);
    var ks := [k] + rest;
    assert GreedyEntries(n, k) == ks;
    assert ks[1..] == rest;
    Take(n, k);
  }

  /** ToRoman: numbers outside 1..3999 are refused, the others rendered greedily. */
  method ToRoman(num0: int) returns (r: Result<string>)
    ensures r.Error? <==> num0 <= 0 || num0 > 3999
    ensures r.Error? ==> r.message == "Number out of range (1-3999)"
    ensures r.Ok? ==> r.value == Standard(num0) && r.value == Greedy(num0, 0)
  {
    if num0 <= 0 || num0 > 3999 {
      return Error("Number out of range (1-3999)");
    }
    var num: nat := num0;
    var result := "";
    for k := 0 to |RomanMap|
      invariant result + Greedy(num, k) == Greedy(num0, 0)
    {
      var (key, value) := RomanMap[k];
      while num >= value
        invariant result + Greedy(num, k) == Greedy(num0, 0)
      {
        result := result + key;
        num := num - value;
      }
    }
    GreedyStandard(num0);
    return Ok(result);
  }

  // ---- the standard form, digit by digit ----

  /** The numeral of one decimal digit, with the symbols of one, five and ten units. */
  function DigitForm(d: nat, one: char, five: char, ten: char): string
    requires d < 10
  {
    if d == 9 then [one, ten]
    else if d >= 5 then [five] + Repeat(one, d - 5)
    else if d == 4 then [one, five]
    else Repeat(one, d)
  }

  /**
   * The standard Roman numeral: a run of M for the thousands, then the hundreds,
   * tens and units digit forms.
   */
  function Standard(n: nat): string
  {
    Repeat('M', n / 1000) + DigitForm((n % 1000) / 100, 'C', 'D', 'M')
      + DigitForm((n % 100) / 10, 'X', 'L', 'C') + DigitForm(n % 10, 'I', 'V', 'X')
  }

  /** The greedy rendering is the standard numeral, for every natural number. */
  lemma GreedyStandard(n: nat)
    ensures Greedy(n, 0) == Standard(n)
  {
    var h, t, o := (n % 1000) / 100, (n % 100) / 10, n % 10;
    var x, y := n % 1000, n % 100;
    var m := Repeat('M', n / 1000);
    var a, b, c := DigitForm(h, 'C', 'D', 'M'), DigitForm(t, 'X', 'L', 'C'), DigitForm(o, 'I', 'V', 'X');
    GreedyThousands(n);
    DecimalDigits(n);
    Positions();
    GreedyGroup(1, 100, 'C', 'D', 'M', h, y, x);
    GreedyGroup(5, 10, 'X', 'L', 'C', t, o, y);
    GreedyGroup(9, 1, 'I', 'V', 'X', o, 0, o);
    assert Greedy(0, 13) == "";
    assert Greedy(n, 0) == m + (a + (b + (c + "")));
    Concat4(m, a, b, c);
  }

  lemma Concat4(m: string, a: string, b: string, c: string)
    ensures m + (a + (b + (c + ""))) == m + a + b + c
  {
    assert c + "" == c;
  }

  lemma DecimalDigits(n: nat)
    ensures n % 1000 == (n % 1000) / 100 * 100 + n % 100
    ensures n % 100 == (n % 100) / 10 * 10 + n % 10 && n % 100 < 100
  {
    var q, r := n / 1000, n % 1000;
    DivMod(n, 1000);
    var h, y := r / 100, r % 100;
    DivMod(r, 100);
    assert n == (q * 10 + h) * 100 + y by {
      assert q * 1000 == q * 10 * 100;
    }
    DivModUnique(n, q * 10 + h, 100, y);
    var t, o := y / 10, y % 10;
    DivMod(y, 10);
    assert n == ((q * 10 + h) * 10 + t) * 10 + o by {
      assert (q * 10 + h) * 100 == (q * 10 + h) * 10 * 10;
    }
    DivModUnique(n, (q * 10 + h) * 10 + t, 10, o);
  }

  lemma {:induction false} GreedyThousands(n: nat)
    ensures Greedy(n, 0) == Repeat('M', n / 1000) + Greedy(n % 1000, 1)
    decreases n
  {
    if n >= 1000 {
      GreedyThousands(n - 1000);
      assert (n - 1000) / 1000 == n / 1000 - 1 && (n - 1000) % 1000 == n % 1000;
    }
  }

  /** One greedy step: the entry is taken. */
  lemma Take(n: nat, k: nat)
    requires k < |RomanMap| && n >= Value(k)
    ensures Greedy(n, k) == Key(k) + Greedy(n - Value(k), k)
  {}

  /** One greedy step: the entry is too large and skipped. */
  lemma Skip(n: nat, k: nat)
    requires k < |RomanMap| && n < Value(k)
    ensures Greedy(n, k) == Greedy(n, k + 1)
  {}

  /** The four table rows of one decimal position: their first index, unit and symbols. */
  predicate Position(b: nat, u: nat, one: char, five: char, ten: char)
  {
    b + 3 < |RomanMap| && u >= 1
    && Key(b) == [one, ten] && Value(b) == 9 * u
    && Key(b + 1) == [five] && Value(b + 1) == 5 * u
    && Key(b + 2) == [one, five] && Value(b + 2) == 4 * u
    && Key(b + 3) == [one] && Value(b + 3) == u
  }

  /** The hundreds, tens and units rows of the table. */
  lemma Positions()
    ensures Position(1, 100, 'C', 'D', 'M') && Position(5, 10, 'X', 'L', 'C') && Position(9, 1, 'I', 'V', 'X')
  {}

  /** A digit d of unit u, followed by less than one unit, is rendered by its digit form. */
  lemma GreedyGroup(b: nat, u: nat, one: char, five: char, ten: char, d: nat, r: nat, n: nat)
    requires Position(b, u, one, five, ten)
    requires d < 10 && r < u && n == d * u + r
    ensures Greedy(n, b) == DigitForm(d, one, five, ten) + Greedy(r, b + 4)
  {
    if d == 9 {
      GroupNine(b, u, one, five, ten, r, n);
    } else if d >= 5 {
      MulStep(d - 5, 5, u);
      GroupFive(b, u, one, five, ten, d - 5, r, n);
    } else if d == 4 {
      GroupFour(b, u, one, five, ten, r, n);
    } else {
      GroupLow(b, u, one, five, ten, d, r, n);
    }
  }

  lemma MulMono(m: nat, c: nat, u: nat)
    requires m <= c
    ensures m * u <= c * u
  {
    MulStep(m, c - m, u);
  }

  lemma MulStep(m: nat, c: nat, u: nat)
    ensures (m + c) * u == c * u + m * u
  {}

  lemma GroupNine(b: nat, u: nat, one: char, five: char, ten: char, r: nat, n: nat)
    requires Position(b, u, one, five, ten) && r < u && n == 9 * u + r
    ensures Greedy(n, b) == [one, ten] + Greedy(r, b + 4)
  {
    Take(n, b);
    Skip(r, b);
    Skip(r, b + 1);
    Skip(r, b + 2);
    Skip(r, b + 3);
  }

  lemma GroupFive(b: nat, u: nat, one: char, five: char, ten: char, m: nat, r: nat, n: nat)
    requires Position(b, u, one, five, ten) && m <= 3 && r < u && n == 5 * u + m * u + r
    ensures Greedy(n, b) == [five] + Repeat(one, m) + Greedy(r, b + 4)
  {
    var rest := n - 5 * u;
    MulMono(m, 3, u);
    Skip(n, b);
    Take(n, b + 1);
    Skip(rest, b + 1);
    Skip(rest, b + 2);
    GreedyUnits(b + 3, u, one, m, r, rest);
  }

  lemma GroupFour(b: nat, u: nat, one: char, five: char, ten: char, r: nat, n: nat)
    requires Position(b, u, one, five, ten) && r < u && n == 4 * u + r
    ensures Greedy(n, b) == [one, five] + Greedy(r, b + 4)
  {
    Skip(n, b);
    Skip(n, b + 1);
    Take(n, b + 2);
    Skip(r, b + 2);
    Skip(r, b + 3);
  }

  lemma GroupLow(b: nat, u: nat, one: char, five: char, ten: char, m: nat, r: nat, n: nat)
    requires Position(b, u, one, five, ten) && m <= 3 && r < u && n == m * u + r
    ensures Greedy(n, b) == Repeat(one, m) + Greedy(r, b + 4)
  {
    MulMono(m, 3, u);
    Skip(n, b);
    Skip(n, b + 1);
    Skip(n, b + 2);
    GreedyUnits(b + 3, u, one, m, r, n);
  }

  /** Up to three units of entry k, followed by less than one unit. */
  lemma {:induction false} GreedyUnits(k: nat, u: nat, one: char, m: nat, r: nat, n: nat)
    requires k < |RomanMap| && Key(k) == [one] && Value(k) == u && r < u && n == m * u + r
    ensures Greedy(n, k) == Repeat(one, m) + Greedy(r, k + 1)
    decreases m
  {
    if m == 0 {
      Skip(r, k);
    } else {
      MulStep(m - 1, 1, u);
      Take(n, k);
      GreedyUnits(k, u, one, m - 1, r, n - u);
    }
  }

  // ---- numeral to number ----

  /**
   * The symbol at position i of an upper-cased numeral, as its length and value:
   * a two-character symbol if there is one, else a one-character symbol, else none.
   */
  function SymbolAt(s: string, i: nat): (r: Option<(nat, nat)>)
    requires i < |s|
    ensures r.Some? ==> 1 <= r.value.0 && i + r.value.0 <= |s| && r.value.1 <= 1000
  {
    if i + 1 < |s| && Lookup(s[i..i + 2]).Some? then Some((2, Lookup(s[i..i + 2]).value))
    else if Lookup([s[i]]).Some? then Some((1, Lookup([s[i]]).value))
    else None
  }

  /**
   * The scan of FromRoman from position i with the sum acc so far: symbol by
   * symbol to the end, or None at the first unknown character.
   */
  function Scan(s: string, i: nat, acc: nat): Option<nat>
    requires i <= |s|
    decreases |s| - i
  {
    if i == |s| then Some(acc)
    else
      var symbol := SymbolAt(s, i);
      if symbol.None? then None else Scan(s, i + symbol.value.0, acc + symbol.value.1)
  }

  /** The value of an upper-cased numeral. */
  function DecodeValue(s: string): Option<nat>
  {
    Scan(s, 0, 0)
  }

  /**
   * The body of the scanning loop in FromRoman: the two-character symbol at
   * position i if the table has it, else the one-character symbol, else none.
   */
  method NextSymbol(roman: string, i: nat) returns (found: Option<(nat, nat)>)
    requires i < |roman|
    ensures found == SymbolAt(roman, i)
  {
    if i + 1 < |roman| {
      var doubleSymbol := roman[i..i + 2];
      var value := Lookup(doubleSymbol);
      if value.Some? {
        return Some((2, value.value));
      }
    }
    var singleSymbol := [roman[i]];
    var value := Lookup(singleSymbol);
    if value.Some? {
      return Some((1, value.value));
    }
    return None;
  }

  /**
   * FromRoman: upper-case, then add up the symbols; an unknown character is an
   * error naming the upper-cased numeral. The sum wraps around like a C# int.
   */
  method FromRoman(roman0: string) returns (r: Result<int>)
    ensures DecodeValue(ToUpper(roman0)).Some? ==> r == Ok(WrapInt32(DecodeValue(ToUpper(roman0)).value))
    ensures DecodeValue(ToUpper(roman0)).None? ==> r == Error("Invalid Roman numeral: " + ToUpper(roman0))
  {
    var roman := ToUpper(roman0);
    var result: int := 0;
    ghost var acc: nat := 0;
    ghost var wraps: int := 0;
    var i := 0;
    while i < |roman|
      invariant 0 <= i <= |roman|
      invariant IsInt32(result) && result == acc - wraps * 0x1_0000_0000
      invariant DecodeValue(roman) == Scan(roman, i, acc)
      decreases |roman| - i
    {
      var found := NextSymbol(roman, i);
      if found.None? {
        return Error("Invalid Roman numeral: " + roman);
      }
      var (len, value) := found.value;
      if result + value > Int32Max {
        wraps := wraps + 1;
      }
      result := AddInt32(result, value);
      acc := acc + value;
      i := i + len;
    }
    WrapInt32Of(acc, result, wraps);
    return Ok(result);
  }

  /** The scan of the end of a string does not depend on what precedes it. */
  lemma ScanShift(p: string, s: string, i: nat, acc: nat)
    requires i <= |s|
    ensures Scan(p + s, |p| + i, acc) == Scan(s, i, acc)
  {
    assert (p + s)[|p|..] == s;
    ScanSuffix(p + s, |p|, i, acc);
  }

  /** Scanning t from d + i is scanning t[d..] from i. */
  lemma {:induction false} ScanSuffix(t: string, d: nat, i: nat, acc: nat)
    requires d <= |t| && i <= |t| - d
    ensures Scan(t, d + i, acc) == Scan(t[d..], i, acc)
    decreases |t| - d - i
  {
    if i < |t| - d {
      SymbolSuffix(t, d, i);
      var symbol := SymbolAt(t[d..], i);
      if symbol.Some? {
        ScanSuffix(t, d, i + symbol.value.0, acc + symbol.value.1);
      }
    }
  }

  lemma SymbolSuffix(t: string, d: nat, i: nat)
    requires d <= |t| && i < |t| - d
    ensures SymbolAt(t, d + i) == SymbolAt(t[d..], i)
  {
    var s := t[d..];
    assert [t[d + i]] == [s[i]];
    if i + 1 < |s| {
      assert t[d + i..d + i + 2] == s[i..i + 2];
    }
  }

  // ---- the round trip ----

  /**
   * A greedy rendering from entry k on starts, if at all, with a letter worth
   * no more than entry k.
   */
  predicate StartsFrom(s: string, k: nat)
    requires k < |RomanMap|
  {
    s == [] || (LetterValue(s[0]).Some? && LetterValue(s[0]).value <= Value(k))
  }

  /** The shape of each entry: one or two letters, the first worth no more than the entry. */
  lemma KeyShape(k: nat)
    requires k < |RomanMap|
    ensures 1 <= |Key(k)| <= 2 && LetterValue(Key(k)[0]).Some?
    ensures LetterValue(Key(k)[0]).value <= Value(k)
    ensures |Key(k)| == 1 ==> LetterValue(Key(k)[0]).value == Value(k)
    ensures k + 1 < |RomanMap| ==> Value(k + 1) < Value(k)
  {
    if k == 0 {} else if k == 1 {} else if k == 2 {} else if k == 3 {} else if k == 4 {}
    else if k == 5 {} else if k == 6 {} else if k == 7 {} else if k == 8 {} else if k == 9 {}
    else if k == 10 {} else if k == 11 {} else { assert k == 12; }
  }

  /** The symbol read at the start of a greedy step is the table entry it wrote. */
  lemma SymbolOfKey(k: nat, rest: string)
    requires k < |RomanMap| && (|Key(k)| == 1 ==> StartsFrom(rest, k))
    ensures SymbolAt(Key(k) + rest, 0) == Some((|Key(k)|, Value(k)))
  {
    var s := Key(k) + rest;
    LookupKey(k);
    KeyShape(k);
    if |Key(k)| == 2 {
      assert s[0..2] == Key(k);
    } else {
      assert [s[0]] == Key(k);
      if |s| >= 2 {
        // a letter followed by one worth no more is not a subtractive pair
        assert s[0..2] == [s[0], rest[0]];
      }
    }
  }

  /** Reading a greedy rendering gives back the number. */
  lemma {:induction false} DecodeGreedy(n: nat, k: nat, acc: nat)
    requires k < |RomanMap|
    ensures Scan(Greedy(n, k), 0, acc) == Some(acc + n)
    ensures StartsFrom(Greedy(n, k), k) && (n > 0 ==> Greedy(n, k) != [])
    decreases |RomanMap| - k, n, 1
  {
    if n >= Value(k) {
      DecodeTake(n, k, acc);
    } else if k + 1 < |RomanMap| {
      Skip(n, k);
      DecodeGreedy(n, k + 1, acc);
      StartsFromLater(Greedy(n, k), k);
    } else {
      assert n == 0 by { assert Value(k) == 1; }
      Skip(n, k);
      assert Greedy(n, k) == Greedy(0, 13) == "";
    }
  }

  /** The case of DecodeGreedy where entry k is taken. */
  lemma {:induction false} DecodeTake(n: nat, k: nat, acc: nat)
    requires k < |RomanMap| && n >= Value(k)
    ensures Scan(Greedy(n, k), 0, acc) == Some(acc + n)
    ensures StartsFrom(Greedy(n, k), k) && Greedy(n, k) != []
    decreases |RomanMap| - k, n, 0
  {
    var rest := Greedy(n - Value(k), k);
    Take(n, k);
    DecodeGreedy(n - Value(k), k, acc + Value(k));
    DecodeStep(k, rest, acc);
  }

  /** Reading an entry of the table followed by the rest of a greedy rendering. */
  lemma DecodeStep(k: nat, rest: string, acc: nat)
    requires k < |RomanMap| && (|Key(k)| == 1 ==> StartsFrom(rest, k))
    ensures Scan(Key(k) + rest, 0, acc) == Scan(rest, 0, acc + Value(k))
    ensures Key(k) + rest != [] && StartsFrom(Key(k) + rest, k)
  {
    SymbolOfKey(k, rest);
    KeyShape(k);
    var s := Key(k) + rest;
    ScanShift(Key(k), rest, 0, acc + Value(k));
    assert s[0] == Key(k)[0];
  }

  lemma StartsFromLater(s: string, k: nat)
    requires k + 1 < |RomanMap| && StartsFrom(s, k + 1)
    ensures StartsFrom(s, k)
  {
    KeyShape(k);
  }

  /** Every number in range survives the round trip through ToRoman and FromRoman. */
  lemma RoundTrip(n: nat)
    ensures DecodeValue(ToUpper(Standard(n))) == Some(n)
  {
    var s := Standard(n);
    GreedyStandard(n);
    DecodeGreedy(n, 0, 0);
    StandardUpper(n);
    assert ToUpper(s) == s;
    assert DecodeValue(s) == Scan(Greedy(n, 0), 0, 0);
  }

  /** A standard numeral is already upper case. */
  lemma StandardUpper(n: nat)
    ensures ToUpper(Standard(n)) == Standard(n)
  {
    var s := Standard(n);
    StandardChars(n);
    ToUpperAt(s);
    assert forall i :: 0 <= i < |s| ==> ToUpper(s)[i] == s[i];
  }

  /** A standard numeral is written with the seven symbol letters only. */
  lemma StandardChars(n: nat)
    ensures forall i :: 0 <= i < |Standard(n)| ==> Standard(n)[i] in "MDCLXVI"
  {
    var h, t, o := (n % 1000) / 100, (n % 100) / 10, n % 10;
    var m := Repeat('M', n / 1000);
    var a, b, c := DigitForm(h, 'C', 'D', 'M'), DigitForm(t, 'X', 'L', 'C'), DigitForm(o, 'I', 'V', 'X');
    DigitFormChars(h, 'C', 'D', 'M');
    DigitFormChars(t, 'X', 'L', 'C');
    DigitFormChars(o, 'I', 'V', 'X');
    forall i | 0 <= i < |Standard(n)| ensures Standard(n)[i] in "MDCLXVI" {
      if i < |m| {
        assert Standard(n)[i] == m[i];
      } else if i < |m + a| {
        assert Standard(n)[i] == a[i - |m|];
      } else if i < |m + a + b| {
        assert Standard(n)[i] == b[i - |m + a|];
      } else {
        assert Standard(n)[i] == c[i - |m + a + b|];
      }
    }
  }

  lemma DigitFormChars(d: nat, one: char, five: char, ten: char)
    requires d < 10
    ensures forall i :: 0 <= i < |DigitForm(d, one, five, ten)| ==> DigitForm(d, one, five, ten)[i] in [one, five, ten]
  {}

  // ---- validation ----

  /**
   * One decimal group of the validation pattern, such as (C[MD]|D?C{0,3}):
   * one-ten, one-five, or an optional five followed by up to three ones.
   */
  predicate GroupMatch(t: string, one: char, five: char, ten: char)
  {
    t == [one, ten] || t == [one, five]
    || (exists j :: 0 <= j <= 3 && t == Repeat(one, j))
    || (exists j :: 0 <= j <= 3 && t == [five] + Repeat(one, j))
  }

  /**
   * The whole of ^(?=[MDCLXVI])M*(C[MD]|D?C{0,3})(X[CL]|L?X{0,3})(I[XV]|V?I{0,3})
   * matching t: a symbol letter first, then a run of M and the three groups.
   */
  predicate MatchesPattern(t: string)
  {
    |t| > 0 && t[0] in "MDCLXVI"
    && exists a, i, j | 0 <= a <= i <= j <= |t| :: SplitsAt(t, a, i, j)
  }

  /** t is a run of a letters M followed by the three groups, cut at i and j. */
  predicate SplitsAt(t: string, a: int, i: int, j: int)
  {
    0 <= a <= i <= j <= |t| && t[..a] == Repeat('M', a)
    && GroupMatch(t[a..i], 'C', 'D', 'M') && GroupMatch(t[i..j], 'X', 'L', 'C')
    && GroupMatch(t[j..], 'I', 'V', 'X')
  }

  /**
   * IsValidRoman: the pattern on the upper-cased input. Its final $ also
   * matches just before a line feed that ends the input.
   */
  predicate IsValidRoman(input: string)
  {
    var u := ToUpper(input);
    MatchesPattern(u) || (|u| > 0 && u[|u| - 1] == '\n' && MatchesPattern(u[..|u| - 1]))
  }

  /** The groups of the pattern are exactly the digit forms. */
  lemma GroupDigit(t: string, one: char, five: char, ten: char) returns (d: nat)
    requires GroupMatch(t, one, five, ten)
    ensures d < 10 && t == DigitForm(d, one, five, ten)
  {
    if t == [one, ten] {
      d := 9;
    } else if t == [one, five] {
      d := 4;
    } else if exists j :: 0 <= j <= 3 && t == Repeat(one, j) {
      var j :| 0 <= j <= 3 && t == Repeat(one, j);
      d := j;
    } else {
      var j :| 0 <= j <= 3 && t == [five] + Repeat(one, j);
      d := j + 5;
    }
  }

  lemma DigitGroup(d: nat, one: char, five: char, ten: char)
    requires d < 10
    ensures GroupMatch(DigitForm(d, one, five, ten), one, five, ten)
  {
    if d == 9 || d == 4 {
    } else if d >= 5 {
      assert DigitForm(d, one, five, ten) == [five] + Repeat(one, d - 5);
    } else {
      assert DigitForm(d, one, five, ten) == Repeat(one, d);
    }
  }

  /** The standard numeral of a number given by its thousands and three digits. */
  lemma StandardOfDigits(n: nat, a: nat, h: nat, x: nat, o: nat)
    requires h < 10 && x < 10 && o < 10 && n == a * 1000 + h * 100 + x * 10 + o
    ensures Standard(n)
      == Repeat('M', a) + DigitForm(h, 'C', 'D', 'M') + DigitForm(x, 'X', 'L', 'C') + DigitForm(o, 'I', 'V', 'X')
  {
    var r := h * 100 + x * 10 + o;
    assert n == a * 1000 + r;
    DivMod1000(a, r);
    assert r / 100 == h && r % 100 == x * 10 + o;
    assert (x * 10 + o) / 10 == x && (x * 10 + o) % 10 == o;
    assert n % 100 == x * 10 + o by { DivMod100(a * 10 + h, x * 10 + o); }
    assert n % 10 == o by { DivMod10(a * 100 + h * 10 + x, o); }
    assert (n % 1000) / 100 == h && (n % 100) / 10 == x && n / 1000 == a;
    var q, hh, xx, oo := n / 1000, (n % 1000) / 100, (n % 100) / 10, n % 10;
    assert q == a && hh == h && xx == x && oo == o;
    assert Standard(n) == Repeat('M', q) + DigitForm(hh, 'C', 'D', 'M')
      + DigitForm(xx, 'X', 'L', 'C') + DigitForm(oo, 'I', 'V', 'X');
  }

  lemma DivMod1000(a: nat, r: nat)
    requires r < 1000
    ensures (a * 1000 + r) / 1000 == a && (a * 1000 + r) % 1000 == r
  {}

  lemma DivMod100(a: nat, r: nat)
    requires r < 100
    ensures (a * 100 + r) % 100 == r
  {}

  lemma DivMod10(a: nat, r: nat)
    requires r < 10
    ensures (a * 10 + r) % 10 == r
  {}

  /** The pattern accepts exactly the standard numerals of the positive numbers. */
  lemma MatchesStandard(t: string)
    ensures MatchesPattern(t) <==> exists n :: n >= 1 && t == Standard(n)
  {
    if MatchesPattern(t) {
      var n := PatternStandard(t);
    }
    if exists n :: n >= 1 && t == Standard(n) {
      var n :| n >= 1 && t == Standard(n);
      StandardMatches(n);
    }
  }

  /** A string the pattern accepts is the standard numeral of a positive number. */
  lemma PatternStandard(t: string) returns (n: nat)
    requires MatchesPattern(t)
    ensures n >= 1 && t == Standard(n)
  {
    var a, h, x, o := PatternDigits(t);
    n := a * 1000 + h * 100 + x * 10 + o;
    StandardOfDigits(n, a, h, x, o);
  }

  /** The run of M and the three groups of a string the pattern accepts, as digits. */
  lemma PatternDigits(t: string) returns (a: nat, h: nat, x: nat, o: nat)
    requires MatchesPattern(t)
    ensures h < 10 && x < 10 && o < 10
    ensures t == Repeat('M', a) + DigitForm(h, 'C', 'D', 'M') + DigitForm(x, 'X', 'L', 'C') + DigitForm(o, 'I', 'V', 'X')
  {
    var a0, i, j :| 0 <= a0 <= i <= j <= |t| && SplitsAt(t, a0, i, j);
    a := a0;
    h := GroupDigit(t[a..i], 'C', 'D', 'M');
    x := GroupDigit(t[i..j], 'X', 'L', 'C');
    o := GroupDigit(t[j..], 'I', 'V', 'X');
    SplitThree(t, a, i, j);
  }

  lemma SplitThree(t: string, a: nat, i: nat, j: nat)
    requires a <= i <= j <= |t|
    ensures t == t[..a] + t[a..i] + t[i..j] + t[j..]
  {}

  /** The numeral of a positive number matches the pattern. */
  lemma StandardMatches(n: nat)
    requires n >= 1
    ensures MatchesPattern(Standard(n))
  {
    var h, x, o := (n % 1000) / 100, (n % 100) / 10, n % 10;
    DigitGroup(h, 'C', 'D', 'M');
    DigitGroup(x, 'X', 'L', 'C');
    DigitGroup(o, 'I', 'V', 'X');
    StandardNonEmpty(n);
    StandardChars(n);
    PatternOfParts(n / 1000, DigitForm(h, 'C', 'D', 'M'), DigitForm(x, 'X', 'L', 'C'), DigitForm(o, 'I', 'V', 'X'));
  }

  /** A run of M and three matching groups, starting with a symbol letter, match the pattern. */
  lemma PatternOfParts(k: nat, c: string, l: string, v: string)
    requires var t := Repeat('M', k) + c + l + v; |t| > 0 && t[0] in "MDCLXVI"
    requires GroupMatch(c, 'C', 'D', 'M') && GroupMatch(l, 'X', 'L', 'C') && GroupMatch(v, 'I', 'V', 'X')
    ensures MatchesPattern(Repeat('M', k) + c + l + v)
  {
    var m := Repeat('M', k);
    var t := m + c + l + v;
    Slices4(m, c, l, v);
    var a, i, j := |m|, |m| + |c|, |m| + |c| + |l|;
    assert SplitsAt(t, a, i, j);
  }

  lemma Slices4(m: string, c: string, l: string, v: string)
    ensures var t, a, i, j := m + c + l + v, |m|, |m| + |c|, |m| + |c| + |l|;
      t[..a] == m && t[a..i] == c && t[i..j] == l && t[j..] == v
  {}

  /** The numeral of a positive number is not empty. */
  lemma StandardNonEmpty(n: nat)
    requires n >= 1
    ensures |Standard(n)| > 0
  {
    var h, x, o := (n % 1000) / 100, (n % 100) / 10, n % 10;
    if n / 1000 == 0 && h == 0 && x == 0 {
      DivMod(n, 1000);
      DecimalDigits(n);
      assert n == o;
      assert |DigitForm(o, 'I', 'V', 'X')| > 0;
    }
  }

  /**
   * IsValidRoman accepts exactly the standard numerals of the positive numbers,
   * in any letter case, and the same followed by a line feed.
   */
  lemma ValidIsStandard(input: string)
    ensures IsValidRoman(input) <==>
      exists n :: n >= 1 && (ToUpper(input) == Standard(n) || ToUpper(input) == Standard(n) + "\n")
  {
    if IsValidRoman(input) {
      var n := ValidStandard(ToUpper(input));
    }
    forall n | n >= 1 && (ToUpper(input) == Standard(n) || ToUpper(input) == Standard(n) + "\n")
      ensures IsValidRoman(input)
    {
      StandardValid(ToUpper(input), n);
    }
  }

  lemma ValidStandard(u: string) returns (n: nat)
    requires MatchesPattern(u) || (|u| > 0 && u[|u| - 1] == '\n' && MatchesPattern(u[..|u| - 1]))
    ensures n >= 1 && (u == Standard(n) || u == Standard(n) + "\n")
  {
    if MatchesPattern(u) {
      n := PatternStandard(u);
    } else {
      n := PatternStandard(u[..|u| - 1]);
      LastLineFeed(u);
    }
  }

  lemma LastLineFeed(u: string)
    requires |u| > 0 && u[|u| - 1] == '\n'
    ensures u == u[..|u| - 1] + "\n"
  {}

  lemma StandardValid(u: string, n: nat)
    requires n >= 1 && (u == Standard(n) || u == Standard(n) + "\n")
    ensures MatchesPattern(u) || (|u| > 0 && u[|u| - 1] == '\n' && MatchesPattern(u[..|u| - 1]))
  {
    StandardMatches(n);
    if u != Standard(n) {
      assert u[..|u| - 1] == Standard(n);
    }
  }

  /** Every ToRoman result passes validation, in either letter case. */
  lemma StandardIsValid(n: nat)
    requires n >= 1
    ensures IsValidRoman(Standard(n)) && IsValidRoman(ToLower(Standard(n)))
  {
    StandardUpper(n);
    ToUpperOfLower(Standard(n));
    StandardMatches(n);
  }

  /** Validation and reading both ignore the letter case of their input. */
  lemma CaseInsensitive(s: string)
    ensures IsValidRoman(ToLower(s)) == IsValidRoman(s)
    ensures DecodeValue(ToUpper(ToLower(s))) == DecodeValue(ToUpper(s))
  {
    ToUpperOfLower(s);
  }

  /** A scan that reaches a final character which is not a symbol letter fails. */
  lemma {:induction false} ScanStuck(s: string, i: nat, acc: nat)
    requires i < |s| && LetterValue(s[|s| - 1]).None?
    ensures Scan(s, i, acc) == None
    decreases |s| - i
  {
    if i + 1 < |s| {
      assert s[i..i + 2][1] == s[i + 1];
      if Lookup(s[i..i + 2]).Some? {
        assert LetterValue(s[i + 1]).Some?;
        ScanStuck(s, i + 2, acc + Lookup(s[i..i + 2]).value);
      } else if Lookup([s[i]]).Some? {
        ScanStuck(s, i + 1, acc + Lookup([s[i]]).value);
      }
    } else {
      assert [s[i]][0] == s[|s| - 1];
    }
  }

  /**
   * A numeral followed by a line feed passes validation, but FromRoman then
   * meets the line feed and refuses the input.
   */
  lemma LineFeedPassesButFails(n: nat)
    requires n >= 1
    ensures IsValidRoman(Standard(n) + "\n")
    ensures DecodeValue(ToUpper(Standard(n) + "\n")) == None
  {
    var t := Standard(n) + "\n";
    UpperLineFeed(n);
    StandardValid(t, n);
    ScanStuck(t, 0, 0);
  }

  lemma UpperLineFeed(n: nat)
    ensures ToUpper(Standard(n) + "\n") == Standard(n) + "\n"
  {
    StandardUpper(n);
    ToUpperAppend(Standard(n), "\n");
    assert ToUpper("\n") == "\n";
  }
}
