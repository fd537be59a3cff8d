/**
 * The token generator: a pool of characters built from the four selected
 * classes, then `length` characters drawn from it at random.
 *
 * The random generator is a parameter: rnd(i, n) is the i-th draw of
 * Random.Next(n), a number in 0 .. n-1.
 */
module TokenGenerator {
  import opened Wrappers
  import opened Text

  /** The request object. */
  datatype TokenGeneratorRequest = TokenGeneratorRequest(
    length: int,
    includeUppercase: bool,
    includeLowercase: bool,
    includeNumbers: bool,
    includeSymbols: bool)

  const Uppercase := "ABCDEFGHIJKLMNOPQRSTUVWXYZ"
  const Lowercase := "abcdefghijklmnopqrstuvwxyz"
  const Numbers := "0123456789"
  const Symbols := "!@#$%^&*()-_=+[]{}|;:'\",.<>?/"

  /** The message returned when no class is selected. */
  const NothingSelected := "Please select at least one character type."

  /** GenerateToken's result: a token, the message above, or the exception of Enumerable.Range. */
  datatype Generated = Token(token: string) | NoPool | NegativeLength

  /** A class's characters when it is selected, nothing otherwise. */
  function Piece(selected: bool, chars: string): string
  {
    if selected then chars else []
  }

  /** The pool for the selected classes, in the fixed order upper, lower, digits, symbols. */
  function CharPool(includeUppercase: bool, includeLowercase: bool, includeNumbers: bool, includeSymbols: bool): (pool: string)
    ensures |pool| == (if includeUppercase then 26 else 0) + (if includeLowercase then 26 else 0)
      + (if includeNumbers then 10 else 0) + (if includeSymbols then 29 else 0)
  {
    Piece(includeUppercase, Uppercase) + Piece(includeLowercase, Lowercase)
    + Piece(includeNumbers, Numbers) + Piece(includeSymbols, Symbols)
  }

  /** The pool appended to a StringBuilder, one selected class after the other. */
  method BuildPool(includeUppercase: bool, includeLowercase: bool, includeNumbers: bool, includeSymbols: bool)
    returns (pool: string)
    ensures pool == CharPool(includeUppercase, includeLowercase, includeNumbers, includeSymbols)
  {
    pool := [];
    if includeUppercase { pool := pool + Uppercase; }
    assert pool == Piece(includeUppercase, Uppercase);
    if includeLowercase { pool := pool + Lowercase; }
    assert pool == Piece(includeUppercase, Uppercase) + Piece(includeLowercase, Lowercase);
    if includeNumbers { pool := pool + Numbers; }
    assert pool == Piece(includeUppercase, Uppercase) + Piece(includeLowercase, Lowercase) + Piece(includeNumbers, Numbers);
    if includeSymbols { pool := pool + Symbols; }
  }

  /** rnd is a Random: each draw with bound n > 0 is below n. */
  ghost predicate IsRandom(rnd: (nat, nat) -> nat)
  {
    forall i: nat, n: nat :: n > 0 ==> rnd(i, n) < n
  }

  /**
   * GenerateToken: the empty pool gives the message; otherwise Enumerable.Range(0, length)
   * throws for a negative length, and gives one drawn pool character per index.
   */
  method GenerateToken(length: int, includeUppercase: bool, includeLowercase: bool, includeNumbers: bool,
                       includeSymbols: bool, rnd: (nat, nat) -> nat) returns (r: Generated)
    requires IsRandom(rnd)
    ensures var pool := CharPool(includeUppercase, includeLowercase, includeNumbers, includeSymbols);
      (pool == [] ==> r == NoPool) &&
      (pool != [] && length < 0 ==> r == NegativeLength) &&
      (pool != [] && length >= 0 ==>
        r.Token? && |r.token| == length && (forall i :: 0 <= i < length ==> r.token[i] == pool[rnd(i, |pool|)]))
  {
    var pool := BuildPool(includeUppercase, includeLowercase, includeNumbers, includeSymbols);
    if |pool| == 0 {
      return NoPool;
    }
    if length < 0 {
      return NegativeLength;
    }
    r := Token(seq(length, i requires 0 <= i < length => pool[rnd(i, |pool|)]));
  }

  /** A character is in the pool exactly when it belongs to a selected class. */
  lemma PoolMembers(includeUppercase: bool, includeLowercase: bool, includeNumbers: bool, includeSymbols: bool, c: char)
    ensures c in CharPool(includeUppercase, includeLowercase, includeNumbers, includeSymbols) <==>
      (includeUppercase && IsAsciiUpper(c)) || (includeLowercase && IsAsciiLower(c)) ||
      (includeNumbers && IsDigit(c)) || (includeSymbols && c in Symbols)
  {
    UppercaseMembers(c);
    LowercaseMembers(c);
    NumbersMembers(c);
  }

  lemma UppercaseMembers(c: char)
    ensures c in Uppercase <==> IsAsciiUpper(c)
  {
    if IsAsciiUpper(c) {
      assert Uppercase[c as int - 'A' as int] == c;
    }
  }

  lemma LowercaseMembers(c: char)
    ensures c in Lowercase <==> IsAsciiLower(c)
  {
    if IsAsciiLower(c) {
      assert Lowercase[c as int - 'a' as int] == c;
    }
  }

  lemma NumbersMembers(c: char)
    ensures c in Numbers <==> IsDigit(c)
  {
    if IsDigit(c) {
      assert Numbers[c as int - '0' as int] == c;
    }
  }

  /** The pool is empty exactly when no class is selected. */
  lemma EmptyPool(includeUppercase: bool, includeLowercase: bool, includeNumbers: bool, includeSymbols: bool)
    ensures CharPool(includeUppercase, includeLowercase, includeNumbers, includeSymbols) == [] <==>
      !includeUppercase && !includeLowercase && !includeNumbers && !includeSymbols
  {}

  /** Every character of a token is in the pool, and so belongs to a selected class. */
  lemma TokenFromPool(length: int, includeUppercase: bool, includeLowercase: bool, includeNumbers: bool,
                      includeSymbols: bool, rnd: (nat, nat) -> nat, r: Generated, i: nat)
    requires IsRandom(rnd) && r.Token? && i < |r.token|
    requires var pool := CharPool(includeUppercase, includeLowercase, includeNumbers, includeSymbols);
      pool != [] && |r.token| == length && forall k :: 0 <= k < length ==> r.token[k] == pool[rnd(k, |pool|)]
    ensures var c := r.token[i];
      (includeUppercase && IsAsciiUpper(c)) || (includeLowercase && IsAsciiLower(c)) ||
      (includeNumbers && IsDigit(c)) || (includeSymbols && c in Symbols)
  {
    var pool := CharPool(includeUppercase, includeLowercase, includeNumbers, includeSymbols);
    assert r.token[i] == pool[rnd(i, |pool|)];
    PoolMembers(includeUppercase, includeLowercase, includeNumbers, includeSymbols, r.token[i]);
  }

  /** The tool object and the state Execute and Stop keep in its fields. */
  class TokenGeneratorTool {
    /** _isRunning. */
    var isRunning: bool
    /** _cts has been cancelled / disposed. */
    var cancelled: bool
    var disposed: bool
    /** _runningTask is not null. */
    var hasTask: bool

    constructor ()
      ensures !isRunning && !cancelled && !disposed && !hasTask
    {
      isRunning := false;
      cancelled := false;
      disposed := false;
      hasTask := false;
    }

    /**
     * Execute, with the JSON deserializer, the random generator and the
     * message of Enumerable.Range's exception given. A fresh token source and
     * task are made first, whatever the input.
     */
    method Execute(
      input: Option<string>,
      deserialize: string -> Result<Option<TokenGeneratorRequest>>,
      rnd: (nat, nat) -> nat,
      rangeMessage: string) returns (r: string)
      requires IsRandom(rnd)
      modifies this
      ensures isRunning && !cancelled && !disposed && hasTask
      ensures input.None? || IsBlank(input.value) ==> r == "Invalid Request."
      ensures input.Some? && !IsBlank(input.value) && deserialize(input.value).Error? ==>
        r == "Invalid input: " + deserialize(input.value).message
      ensures input.Some? && !IsBlank(input.value) && deserialize(input.value).Ok? ==>
        var request := deserialize(input.value).value;
        (request.None? ==> r == "Invalid Request") &&
        (request.Some? ==>
          var q := request.value;
          var pool := CharPool(q.includeUppercase, q.includeLowercase, q.includeNumbers, q.includeSymbols);
          if pool == [] then r == NothingSelected
          else if q.length < 0 then r == "Invalid input: " + rangeMessage
          else |r| == q.length && forall i :: 0 <= i < q.length ==> r[i] == pool[rnd(i, |pool|)])
    {
      cancelled, disposed := false, false;
      isRunning := true;
      hasTask := true;
      if input.None? || IsBlank(input.value) {
        return "Invalid Request.";
      }
      var request := deserialize(input.value);
      if request.Error? {
        return "Invalid input: " + request.message;
      }
      if request.value.None? {
        return "Invalid Request";
      }
      var q := request.value.value;
      var g := GenerateToken(q.length, q.includeUppercase, q.includeLowercase, q.includeNumbers, q.includeSymbols, rnd);
      match g {
        case Token(t) => r := t;
        case NoPool => r := NothingSelected;
        case NegativeLength => r := "Invalid input: " + rangeMessage;
      }
    }

    /** Stop: nothing when not running; otherwise cancel, wait, dispose, and no longer running. */
    method Stop()
      modifies this
      ensures !old(isRunning) ==> isRunning == old(isRunning) && cancelled == old(cancelled) && disposed == old(disposed)
      ensures old(isRunning) ==> !isRunning && cancelled && disposed
      ensures hasTask == old(hasTask)
    {
      if !isRunning {
        return;
      }
      cancelled := true;
      disposed := true;
      isRunning := false;
    }
  }
}
