/**
 * The structure of the math evaluator's ParseAndEvaluate: a number, then a
 * function call recognised by its prefix, and otherwise a split of the
 * expression at an operator outside parentheses. The model builds the tree
 * the recursion walks; the double arithmetic is left out, and a tree is
 * given a value over the reals only to state what the split computes.
 *
 * double.TryParse is the parameter isNumber.
 */
module MathEvaluator {
  import opened Wrappers
  import opened Text

  /** One of the four characters the source lists as operators: plus, minus, times, divide. */
  predicate IsOperator(c: char) { c == '+' || c == '-' || c == '*' || c == '/' }

  predicate IsParen(c: char) { c == '(' || c == ')' }

  /** The change a character makes to the parenthesis count. */
  function Delta(c: char): int { if c == '(' then 1 else if c == ')' then -1 else 0 }

  /** The parenthesis count before index i: opening minus closing parentheses of s[..i]. */
  function Depth(s: string, i: nat): int
    requires i <= |s|
  {
    if i == 0 then 0 else Depth(s, i - 1) + Delta(s[i - 1])
  }

  /** Index i holds an operator outside every parenthesis. */
  predicate TopOperatorAt(s: string, i: nat)
    requires i < |s|
  {
    IsOperator(s[i]) && Depth(s, i) == 0
  }

  /** The first index from `from` on that holds a top-level operator, or -1. */
  function FirstTopOperator(s: string, from: nat): (r: int)
    requires from <= |s|
    ensures r == -1 || (from <= r < |s| && TopOperatorAt(s, r))
    ensures forall i :: from <= i < |s| && (r == -1 || i < r) ==> !TopOperatorAt(s, i)
    decreases |s| - from
  {
    if from == |s| then -1
    else if TopOperatorAt(s, from) then from
    else FirstTopOperator(s, from + 1)
  }

  /** FindOperatorIndex: one pass counting parentheses, stopping at the first operator at count 0. */
  method FindOperatorIndex(expression: string) returns (r: int)
    ensures r == -1 || (0 <= r < |expression| && TopOperatorAt(expression, r))
    ensures forall i :: 0 <= i < |expression| && (r == -1 || i < r) ==> !TopOperatorAt(expression, i)
    ensures r == FirstTopOperator(expression, 0)
  {
    var parenCount := 0;
    for i := 0 to |expression|
      invariant parenCount == Depth(expression, i)
      invariant forall k :: 0 <= k < i ==> !TopOperatorAt(expression, k)
    {
      var c := expression[i];
      if c == '(' {
        parenCount := parenCount + 1;
      } else if c == ')' {
        parenCount := parenCount - 1;
      } else if parenCount == 0 && IsOperator(c) {
        return i;
      }
    }
    return -1;
  }

  /** The functions ParseAndEvaluate recognises. */
  datatype Function = Sqrt | Sin | Cos | Tan | Abs | Log10 | Log | Exp

  /** The text a call to the function starts with. */
  function Prefix(f: Function): (p: string)
    ensures |p| >= 4 && IsAsciiLower(p[0]) && p[|p| - 1] == '('
  {
    match f
    case Sqrt => "sqrt("
    case Sin => "sin("
    case Cos => "cos("
    case Tan => "tan("
    case Abs => "abs("
    case Log10 => "log10("
    case Log => "log("
    case Exp => "exp("
  }

  /** The first prefix the expression starts with, tried in the code's order ("log10(" before "log("). */
  function CallPrefix(s: string): (r: Option<Function>)
    ensures r.Some? ==> StartsWith(s, Prefix(r.value))
    ensures r.None? ==> forall f: Function :: !StartsWith(s, Prefix(f))
  {
    if StartsWith(s, Prefix(Sqrt)) then Some(Sqrt)
    else if StartsWith(s, Prefix(Sin)) then Some(Sin)
    else if StartsWith(s, Prefix(Cos)) then Some(Cos)
    else if StartsWith(s, Prefix(Tan)) then Some(Tan)
    else if StartsWith(s, Prefix(Abs)) then Some(Abs)
    else if StartsWith(s, Prefix(Log10)) then Some(Log10)
    else if StartsWith(s, Prefix(Log)) then Some(Log)
    else if StartsWith(s, Prefix(Exp)) then Some(Exp)
    else None
  }

  /** The tree ParseAndEvaluate walks. */
  datatype Expr =
    | Number(text: string)
    | Call(callee: Function, argument: Expr)
    | Binary(op: char, left: Expr, right: Expr)

  /** What ParseAndEvaluate throws: Substring's range check, or its own "Invalid expression". */
  datatype Failure = SubstringOutOfRange | InvalidExpression

  datatype Parsed = Tree(expr: Expr) | Fails(failure: Failure)

  /**
   * Where an expression that is neither a number nor a call is split: the
   * source's rule takes the first top-level operator; the corrected rule
   * takes the last top-level + or -, else the last top-level * or /.
   */
  datatype SplitRule = FirstOperator | Precedence

  /** + and - form the additive group, * and / the multiplicative one. */
  predicate InGroup(c: char, additive: bool)
  {
    if additive then c == '+' || c == '-' else c == '*' || c == '/'
  }

  /** Index i (below hi) holds an operator of the group outside every parenthesis. */
  predicate TopInGroupAt(s: string, additive: bool, i: nat)
    requires i < |s|
  {
    InGroup(s[i], additive) && Depth(s, i) == 0
  }

  /** The last index in 1 .. hi-1 holding a top-level operator of the group, or -1. */
  function LastTopInGroup(s: string, additive: bool, hi: nat): (r: int)
    requires hi <= |s|
    ensures r == -1 || (0 < r < hi && TopInGroupAt(s, additive, r))
    ensures forall i :: 0 < i < hi && r < i ==> !TopInGroupAt(s, additive, i)
  {
    if hi <= 1 then -1
    else if TopInGroupAt(s, additive, hi - 1) then hi - 1
    else LastTopInGroup(s, additive, hi - 1)
  }

  /** The index the rule splits at; only a positive index leads to a split. */
  function SplitPoint(s: string, rule: SplitRule): (r: int)
    ensures 0 < r ==> r < |s| && IsOperator(s[r])
  {
    match rule
    case FirstOperator => FirstTopOperator(s, 0)
    case Precedence =>
      var k := LastTopInGroup(s, true, |s|);
      if k > 0 then k else LastTopInGroup(s, false, |s|)
  }

  /** Every leaf is a text isNumber accepts and every inner node an operator. */
  predicate WellFormed(e: Expr, isNumber: string -> bool)
  {
    match e
    case Number(t) => isNumber(t)
    case Call(_, x) => WellFormed(x, isNumber)
    case Binary(op, x, y) => IsOperator(op) && WellFormed(x, isNumber) && WellFormed(y, isNumber)
  }

  /** A call on a parsed argument: the argument's failure, or the call node. */
  function CallOn(f: Function, argument: Parsed): (r: Parsed)
    ensures r.Tree? <==> argument.Tree?
  {
    match argument
    case Fails(e) => Fails(e)
    case Tree(x) => Tree(Call(f, x))
  }

  /** An operator on two parsed sides: the left side's failure first, then the right side's, else the node. */
  function Combine(op: char, left: Parsed, right: Parsed): (r: Parsed)
    ensures r.Tree? <==> left.Tree? && right.Tree?
    ensures left.Fails? ==> r == left
  {
    match left
    case Fails(e) => Fails(e)
    case Tree(x) =>
      match right
      case Fails(e) => Fails(e)
      case Tree(y) => Tree(Binary(op, x, y))
  }

  /**
   * ParseAndEvaluate on a normalised expression: a number; a call, whose
   * argument is the text between the prefix and the last character; or a
   * split at a positive index into two trimmed sides, the left one first.
   */
  function Parse(s: string, isNumber: string -> bool, rule: SplitRule): (r: Parsed)
    ensures r.Tree? ==> WellFormed(r.expr, isNumber)
    ensures isNumber(s) ==> r == Tree(Number(s))
    decreases |s|
  {
    if isNumber(s) then Tree(Number(s))
    else if CallPrefix(s).Some? then
      var f := CallPrefix(s).value;
      var p := |Prefix(f)|;
      if |s| < p + 1 then Fails(SubstringOutOfRange)
      else CallOn(f, Parse(s[p..|s| - 1], isNumber, rule))
    else
      var op := SplitPoint(s, rule);
      if op > 0 then Combine(s[op], Parse(Trim(s[..op]), isNumber, rule), Parse(Trim(s[op + 1..]), isNumber, rule))
      else Fails(InvalidExpression)
  }

  /** The split case of Parse, as one equation. */
  lemma SplitEquation(s: string, isNumber: string -> bool, rule: SplitRule)
    requires !isNumber(s) && CallPrefix(s).None? && SplitPoint(s, rule) > 0
    ensures var op := SplitPoint(s, rule);
      Parse(s, isNumber, rule) == Combine(s[op], Parse(Trim(s[..op]), isNumber, rule), Parse(Trim(s[op + 1..]), isNumber, rule))
  {}

  /** Without a split point, a text that is neither a number nor a call is invalid. */
  lemma NoSplitEquation(s: string, isNumber: string -> bool, rule: SplitRule)
    requires !isNumber(s) && CallPrefix(s).None? && SplitPoint(s, rule) <= 0
    ensures Parse(s, isNumber, rule) == Fails(InvalidExpression)
  {}

  /**
   * The value of a tree over the reals, with the numbers' values and the
   * functions' meanings given; a division by zero has none.
   */
  function Eval(e: Expr, value: string -> real, apply: (Function, real) -> real): Option<real>
  {
    match e
    case Number(t) => Some(value(t))
    case Call(f, x) =>
      (match Eval(x, value, apply)
       case None => None
       case Some(v) => Some(apply(f, v)))
    case Binary(op, x, y) =>
      (match Eval(x, value, apply)
       case None => None
       case Some(u) =>
         match Eval(y, value, apply)
         case None => None
         case Some(v) => Arithmetic(op, u, v))
  }

  /** One operator on two values. */
  function Arithmetic(op: char, u: real, v: real): Option<real>
  {
    if op == '+' then Some(u + v)
    else if op == '-' then Some(u - v)
    else if op == '*' then Some(u * v)
    else if op == '/' && v != 0.0 then Some(u / v)
    else None
  }

  // ---- properties ----

  /** The value of a - (b - c) for numbers a, b and c. */
  lemma EvalRightNested(a: string, b: string, c: string, value: string -> real, apply: (Function, real) -> real)
    ensures Eval(Binary('-', Number(a), Binary('-', Number(b), Number(c))), value, apply) ==
      Some(value(a) - (value(b) - value(c)))
  {
    assert Eval(Binary('-', Number(b), Number(c)), value, apply) == Some(value(b) - value(c));
  }

  /** The value of (a - b) - c for numbers a, b and c. */
  lemma EvalLeftNested(a: string, b: string, c: string, value: string -> real, apply: (Function, real) -> real)
    ensures Eval(Binary('-', Binary('-', Number(a), Number(b)), Number(c)), value, apply) ==
      Some((value(a) - value(b)) - value(c))
  {
    assert Eval(Binary('-', Number(a), Number(b)), value, apply) == Some(value(a) - value(b));
  }

  predicate NoParen(s: string) { forall i :: 0 <= i < |s| ==> !IsParen(s[i]) }

  /** A number text between operators: no operator, parenthesis or white space. */
  predicate Atom(s: string)
  {
    |s| >= 1 && forall i :: 0 <= i < |s| ==> !IsOperator(s[i]) && !IsParen(s[i]) && !IsWhiteSpace(s[i])
  }

  /** Without parentheses before i the count at i is 0. */
  lemma {:induction false} NoParenDepth(s: string, i: nat)
    requires i <= |s| && forall k :: 0 <= k < i ==> !IsParen(s[k])
    ensures Depth(s, i) == 0
  {
    if i > 0 {
      NoParenDepth(s, i - 1);
    }
  }

  /** The count is the number of opening minus the number of closing parentheses before i. */
  lemma {:induction false} DepthCounts(s: string, i: nat)
    requires i <= |s|
    ensures Depth(s, i) == multiset(s[..i])['('] as int - multiset(s[..i])[')'] as int
  {
    if i > 0 {
      DepthCounts(s, i - 1);
      assert s[..i] == s[..i - 1] + [s[i - 1]];
    }
  }

  /** A call prefix ends in '(', so a text without one starts no call. */
  lemma NoCallWithoutParen(s: string)
    requires NoParen(s)
    ensures CallPrefix(s).None?
  {
    forall f: Function ensures !StartsWith(s, Prefix(f)) {
      var p := Prefix(f);
      if |p| <= |s| {
        assert s[..|p|][|p| - 1] == s[|p| - 1];
        assert !IsParen(s[|p| - 1]);
      }
    }
  }

  /** A call prefix starts with a letter, so a text that starts with anything else is no call. */
  lemma NoCallWithoutLetter(s: string)
    requires |s| >= 1 && !IsAsciiLower(s[0])
    ensures CallPrefix(s).None?
  {
    forall f: Function ensures !StartsWith(s, Prefix(f)) {
      if |Prefix(f)| <= |s| {
        assert s[..|Prefix(f)|][0] == s[0];
      }
    }
  }

  /** A leading operator is at index 0, so it is never split at: the expression is invalid. */
  lemma LeadingOperatorNotSplit(s: string, isNumber: string -> bool)
    requires |s| >= 1 && IsOperator(s[0]) && !isNumber(s)
    ensures Parse(s, isNumber, FirstOperator) == Fails(InvalidExpression)
  {
    NoCallWithoutLetter(s);
    assert TopOperatorAt(s, 0);
    NoSplitEquation(s, isNumber, FirstOperator);
  }

  /** Without a top-level operator at a positive index, a text that is no number or call is invalid. */
  lemma NoOperatorInvalid(s: string, isNumber: string -> bool)
    requires !isNumber(s) && CallPrefix(s).None?
    requires forall i :: 0 < i < |s| ==> !TopOperatorAt(s, i)
    ensures Parse(s, isNumber, FirstOperator) == Fails(InvalidExpression)
  {
    var op := FirstTopOperator(s, 0);
    assert op <= 0;
    NoSplitEquation(s, isNumber, FirstOperator);
  }

  /** The first operator after an atom is the first top-level one. */
  lemma FirstAfterAtom(a: string, o: char, rest: string)
    requires Atom(a) && IsOperator(o)
    ensures FirstTopOperator(a + [o] + rest, 0) == |a|
  {
    var s := a + [o] + rest;
    NoParenDepth(s, |a|);
    assert TopOperatorAt(s, |a|);
    forall i | 0 <= i < |a| ensures !TopOperatorAt(s, i) {
      assert s[i] == a[i];
    }
  }

  /** A non-empty text without white space at its ends is its own trim. */
  lemma AtomTrimmed(s: string)
    requires |s| >= 1 && !IsWhiteSpace(s[0]) && !IsWhiteSpace(s[|s| - 1])
    ensures Trim(s) == s
  {
    TrimNoWhiteSpace(s);
  }

  /** After an atom, the operator is the split point of the source's rule, and the sides are the atom and the rest. */
  lemma SplitAfterAtomShape(a: string, o: char, rest: string)
    requires Atom(a) && IsOperator(o) && NoParen(rest)
    ensures var s := a + [o] + rest;
      CallPrefix(s).None? && SplitPoint(s, FirstOperator) == |a| && s[|a|] == o && s[..|a|] == a && s[|a| + 1..] == rest
  {
    var s := a + [o] + rest;
    assert NoParen(s) by {
      forall i | 0 <= i < |s| ensures !IsParen(s[i]) {
        if i < |a| { assert s[i] == a[i]; }
        else if i > |a| { assert s[i] == rest[i - |a| - 1]; }
      }
    }
    NoCallWithoutParen(s);
    FirstAfterAtom(a, o, rest);
    assert s[..|a|] == a;
    assert s[|a| + 1..] == rest;
  }

  /**
   * The source's rule: an atom followed by an operator is split right there,
   * so the whole remainder becomes the right operand.
   */
  lemma SplitsAfterAtom(a: string, o: char, rest: string, isNumber: string -> bool)
    requires Atom(a) && IsOperator(o) && NoParen(rest) && isNumber(a) && !isNumber(a + [o] + rest)
    requires |rest| >= 1 && !IsWhiteSpace(rest[0]) && !IsWhiteSpace(rest[|rest| - 1])
    ensures Parse(a + [o] + rest, isNumber, FirstOperator) ==
      Combine(o, Tree(Number(a)), Parse(rest, isNumber, FirstOperator))
  {
    var s := a + [o] + rest;
    SplitAfterAtomShape(a, o, rest);
    AtomTrimmed(a);
    AtomTrimmed(rest);
    SplitEquation(s, isNumber, FirstOperator);
  }

  /** Two atoms joined by an operator. */
  lemma TwoAtoms(b: string, o: char, c: string, isNumber: string -> bool)
    requires Atom(b) && Atom(c) && IsOperator(o) && isNumber(b) && isNumber(c) && !isNumber(b + [o] + c)
    ensures Parse(b + [o] + c, isNumber, FirstOperator) == Tree(Binary(o, Number(b), Number(c)))
  {
    SplitsAfterAtom(b, o, c, isNumber);
  }

  /** Splitting at the first operator nests to the right: a o1 b o2 c is a o1 (b o2 c). */
  lemma RightNested(a: string, o1: char, b: string, o2: char, c: string, isNumber: string -> bool)
    requires Atom(a) && Atom(b) && Atom(c) && IsOperator(o1) && IsOperator(o2)
    requires isNumber(a) && isNumber(b) && isNumber(c)
    requires !isNumber(b + [o2] + c) && !isNumber(a + [o1] + b + [o2] + c)
    ensures Parse(a + [o1] + b + [o2] + c, isNumber, FirstOperator) ==
      Tree(Binary(o1, Number(a), Binary(o2, Number(b), Number(c))))
  {
    var rest := b + [o2] + c;
    assert a + [o1] + b + [o2] + c == a + [o1] + rest;
    assert NoParen(rest) by {
      forall i | 0 <= i < |rest| ensures !IsParen(rest[i]) {
        if i < |b| { assert rest[i] == b[i]; }
        else if i > |b| { assert rest[i] == c[i - |b| - 1]; }
      }
    }
    assert rest[0] == b[0] && rest[|rest| - 1] == c[|c| - 1];
    SplitsAfterAtom(a, o1, rest, isNumber);
    TwoAtoms(b, o2, c, isNumber);
  }

  /** So a - b - c is computed as a - (b - c), which differs from (a - b) - c whenever c is not 0. */
  lemma SubtractionRightNested(a: string, b: string, c: string, s: string, isNumber: string -> bool,
                               value: string -> real, apply: (Function, real) -> real)
    requires s == a + "-" + b + "-" + c
    requires Atom(a) && Atom(b) && Atom(c) && isNumber(a) && isNumber(b) && isNumber(c)
    requires !isNumber(b + "-" + c) && !isNumber(s)
    ensures Parse(s, isNumber, FirstOperator).Tree?
    ensures Eval(Parse(s, isNumber, FirstOperator).expr, value, apply) == Some(value(a) - (value(b) - value(c)))
    ensures value(c) != 0.0 ==> Eval(Parse(s, isNumber, FirstOperator).expr, value, apply) != Some((value(a) - value(b)) - value(c))
  {
    RightNested(a, '-', b, '-', c, isNumber);
    EvalRightNested(a, b, c, value, apply);
    if value(c) != 0.0 {
      assert value(a) - (value(b) - value(c)) != (value(a) - value(b)) - value(c);
    }
  }

  /** The last operator of a group before an atom is the last top-level one of that group. */
  lemma LastBeforeAtom(left: string, o: char, c: string, additive: bool)
    requires |left| >= 1 && NoParen(left) && Atom(c) && InGroup(o, additive)
    ensures LastTopInGroup(left + [o] + c, additive, |left + [o] + c|) == |left|
  {
    var s := left + [o] + c;
    NoParenDepth(s, |left|);
    assert TopInGroupAt(s, additive, |left|);
    forall i | |left| < i < |s| ensures !TopInGroupAt(s, additive, i) {
      assert s[i] == c[i - |left| - 1];
    }
  }

  /** A text without operators of a group has no split point in it. */
  lemma NoneOfGroup(s: string, additive: bool)
    requires forall i :: 0 <= i < |s| ==> !InGroup(s[i], additive)
    ensures LastTopInGroup(s, additive, |s|) == -1
  {}

  /** Two atoms around an operator: no parenthesis, and additive operators only where the operator is. */
  lemma TwoAtomsChars(a: string, o: char, c: string)
    requires Atom(a) && Atom(c)
    ensures var s := a + [o] + c;
      NoParen(a) && (!IsParen(o) ==> NoParen(s)) &&
      forall i :: 0 <= i < |s| && i != |a| ==> !IsOperator(s[i])
  {
    var s := a + [o] + c;
    forall i | 0 <= i < |s| && i != |a| ensures !IsOperator(s[i]) && !IsParen(s[i]) {
      if i < |a| { assert s[i] == a[i]; }
      else { assert s[i] == c[i - |a| - 1]; }
    }
  }

  /** Under the corrected rule, a o c is split at the operator. */
  lemma CorrectedTwoShape(a: string, o: char, c: string)
    requires Atom(a) && Atom(c) && IsOperator(o)
    ensures var s := a + [o] + c;
      CallPrefix(s).None? && SplitPoint(s, Precedence) == |a| && s[|a|] == o && s[..|a|] == a && s[|a| + 1..] == c
  {
    var s := a + [o] + c;
    TwoAtomsChars(a, o, c);
    NoCallWithoutParen(s);
    if InGroup(o, true) {
      LastBeforeAtom(a, o, c, true);
    } else {
      NoneOfGroup(s, true);
      LastBeforeAtom(a, o, c, false);
    }
    assert s[..|a|] == a;
    assert s[|a| + 1..] == c;
  }

  /** The corrected rule splits a o c at the operator. */
  lemma CorrectedTwoAtoms(a: string, o: char, c: string, isNumber: string -> bool)
    requires Atom(a) && Atom(c) && IsOperator(o) && isNumber(a) && isNumber(c) && !isNumber(a + [o] + c)
    ensures Parse(a + [o] + c, isNumber, Precedence) == Tree(Binary(o, Number(a), Number(c)))
  {
    CorrectedTwoShape(a, o, c);
    AtomTrimmed(a);
    AtomTrimmed(c);
    SplitEquation(a + [o] + c, isNumber, Precedence);
  }

  /** Three atoms around two operators: no parenthesis, and operators only at the two places. */
  lemma ThreeAtomsChars(a: string, o1: char, b: string, o2: char, c: string)
    requires Atom(a) && Atom(b) && Atom(c) && IsOperator(o1) && IsOperator(o2)
    ensures var left := a + [o1] + b;
      var s := left + [o2] + c;
      NoParen(s) && NoParen(left) &&
      forall i :: 0 <= i < |s| && i != |a| && i != |left| ==> !IsOperator(s[i])
  {
    var left := a + [o1] + b;
    var s := left + [o2] + c;
    forall i | 0 <= i < |s| ensures !IsParen(s[i]) && (i != |a| && i != |left| ==> !IsOperator(s[i])) {
      if i < |a| { assert s[i] == a[i]; }
      else if |a| < i < |left| { assert s[i] == b[i - |a| - 1]; }
      else if i > |left| { assert s[i] == c[i - |left| - 1]; }
    }
    assert forall i :: 0 <= i < |left| ==> left[i] == s[i];
  }

  /**
   * Under the corrected rule a o1 b o2 c is split at o2 when o2 is additive,
   * or when both operators are multiplicative.
   */
  lemma CorrectedLeftShape(a: string, o1: char, b: string, o2: char, c: string)
    requires Atom(a) && Atom(b) && Atom(c) && IsOperator(o1) && IsOperator(o2)
    requires InGroup(o2, true) || InGroup(o1, false)
    ensures var left := a + [o1] + b;
      var s := left + [o2] + c;
      CallPrefix(s).None? && SplitPoint(s, Precedence) == |left| && s[|left|] == o2 &&
      s[..|left|] == left && s[|left| + 1..] == c && Trim(left) == left
  {
    var left := a + [o1] + b;
    var s := left + [o2] + c;
    ThreeAtomsChars(a, o1, b, o2, c);
    NoCallWithoutParen(s);
    if InGroup(o2, true) {
      LastBeforeAtom(left, o2, c, true);
    } else {
      assert s[|a|] == o1;
      NoneOfGroup(s, true);
      LastBeforeAtom(left, o2, c, false);
    }
    assert s[..|left|] == left;
    assert s[|left| + 1..] == c;
    assert left[0] == a[0] && left[|left| - 1] == b[|b| - 1];
    AtomTrimmed(left);
  }

  /**
   * The corrected rule nests to the left where the second operator binds no
   * tighter than the first: a o1 b o2 c is (a o1 b) o2 c.
   */
  lemma LeftNested(a: string, o1: char, b: string, o2: char, c: string, isNumber: string -> bool)
    requires Atom(a) && Atom(b) && Atom(c) && IsOperator(o1) && IsOperator(o2)
    requires InGroup(o2, true) || InGroup(o1, false)
    requires isNumber(a) && isNumber(b) && isNumber(c)
    requires !isNumber(a + [o1] + b) && !isNumber(a + [o1] + b + [o2] + c)
    ensures Parse(a + [o1] + b + [o2] + c, isNumber, Precedence) ==
      Tree(Binary(o2, Binary(o1, Number(a), Number(b)), Number(c)))
  {
    CorrectedLeftShape(a, o1, b, o2, c);
    AtomTrimmed(c);
    CorrectedTwoAtoms(a, o1, b, isNumber);
    SplitEquation(a + [o1] + b + [o2] + c, isNumber, Precedence);
  }

  /** With the corrected rule a - b - c is computed as (a - b) - c. */
  lemma CorrectedSubtraction(a: string, b: string, c: string, s: string, isNumber: string -> bool,
                             value: string -> real, apply: (Function, real) -> real)
    requires s == a + "-" + b + "-" + c
    requires Atom(a) && Atom(b) && Atom(c) && isNumber(a) && isNumber(b) && isNumber(c)
    requires !isNumber(a + "-" + b) && !isNumber(s)
    ensures Parse(s, isNumber, Precedence).Tree?
    ensures Eval(Parse(s, isNumber, Precedence).expr, value, apply) == Some((value(a) - value(b)) - value(c))
  {
    LeftNested(a, '-', b, '-', c, isNumber);
    EvalLeftNested(a, b, c, value, apply);
  }

  /** Under the corrected rule an atom and an additive operator before a text without + or - is split at that operator. */
  lemma CorrectedAdditiveShape(a: string, o: char, rest: string)
    requires Atom(a) && InGroup(o, true) && NoParen(rest)
    requires forall i :: 0 <= i < |rest| ==> !InGroup(rest[i], true)
    ensures var s := a + [o] + rest;
      CallPrefix(s).None? && SplitPoint(s, Precedence) == |a| && s[|a|] == o && s[..|a|] == a && s[|a| + 1..] == rest
  {
    var s := a + [o] + rest;
    forall i | 0 <= i < |s| ensures !IsParen(s[i]) && (i != |a| ==> !InGroup(s[i], true)) {
      if i < |a| { assert s[i] == a[i]; }
      else if i > |a| { assert s[i] == rest[i - |a| - 1]; }
    }
    NoCallWithoutParen(s);
    NoParenDepth(s, |a|);
    assert TopInGroupAt(s, true, |a|);
    assert s[..|a|] == a;
    assert s[|a| + 1..] == rest;
  }

  /** So the atom is the left operand and the whole remainder the right one. */
  lemma CorrectedSplitsAtAdditive(a: string, o: char, rest: string, isNumber: string -> bool)
    requires Atom(a) && InGroup(o, true) && NoParen(rest) && isNumber(a) && !isNumber(a + [o] + rest)
    requires forall i :: 0 <= i < |rest| ==> !InGroup(rest[i], true)
    requires |rest| >= 1 && !IsWhiteSpace(rest[0]) && !IsWhiteSpace(rest[|rest| - 1])
    ensures Parse(a + [o] + rest, isNumber, Precedence) == Combine(o, Tree(Number(a)), Parse(rest, isNumber, Precedence))
  {
    CorrectedAdditiveShape(a, o, rest);
    AtomTrimmed(a);
    AtomTrimmed(rest);
    SplitEquation(a + [o] + rest, isNumber, Precedence);
  }

  /** The corrected rule binds * and / tighter than + and -: a + b * c is a + (b * c). */
  lemma CorrectedPrecedence(a: string, o1: char, b: string, o2: char, c: string, isNumber: string -> bool)
    requires Atom(a) && Atom(b) && Atom(c) && InGroup(o1, true) && InGroup(o2, false)
    requires isNumber(a) && isNumber(b) && isNumber(c)
    requires !isNumber(b + [o2] + c) && !isNumber(a + [o1] + b + [o2] + c)
    ensures Parse(a + [o1] + b + [o2] + c, isNumber, Precedence) ==
      Tree(Binary(o1, Number(a), Binary(o2, Number(b), Number(c))))
  {
    var rest := b + [o2] + c;
    assert a + [o1] + b + [o2] + c == a + [o1] + rest;
    forall i | 0 <= i < |rest| ensures !IsParen(rest[i]) && !InGroup(rest[i], true) {
      if i < |b| { assert rest[i] == b[i]; }
      else if i > |b| { assert rest[i] == c[i - |b| - 1]; }
    }
    assert rest[0] == b[0] && rest[|rest| - 1] == c[|c| - 1];
    CorrectedSplitsAtAdditive(a, o1, rest, isNumber);
    CorrectedTwoAtoms(b, o2, c, isNumber);
  }

  // ---- the tool's entry points ----

  /** The request object; an Expression the JSON sets to null is None. */
  datatype MathEvaluatorRequest = MathEvaluatorRequest(expression: Option<string>)

  /** String.Replace("pi", piText): every occurrence, left to right, without overlaps. */
  function ReplacePi(s: string, piText: string): (r: string)
    ensures 'p' !in s ==> r == s
  {
    if |s| >= 2 && s[0] == 'p' && s[1] == 'i' then piText + ReplacePi(s[2..], piText)
    else if s == [] then []
    else [s[0]] + ReplacePi(s[1..], piText)
  }

  /** A text in which "pi" starts at no index. */
  predicate NoPi(s: string)
  {
    forall k :: 0 <= k < |s| - 1 ==> !(s[k] == 'p' && s[k + 1] == 'i')
  }

  /** A non-empty replacement text without 'p' or 'i' leaves no "pi" behind. */
  lemma {:induction false} ReplacePiRemovesAll(s: string, piText: string)
    requires piText != [] && 'p' !in piText && 'i' !in piText
    ensures NoPi(ReplacePi(s, piText))
    ensures ReplacePi(s, piText) == [] || ReplacePi(s, piText)[0] in piText || ReplacePi(s, piText)[0] == s[0]
    decreases |s|
  {
    var r := ReplacePi(s, piText);
    if |s| >= 2 && s[0] == 'p' && s[1] == 'i' {
      var t := ReplacePi(s[2..], piText);
      ReplacePiRemovesAll(s[2..], piText);
      forall k | 0 <= k < |r| - 1 ensures !(r[k] == 'p' && r[k + 1] == 'i') {
        if k < |piText| {
          assert r[k] == piText[k];
        } else {
          assert r[k] == t[k - |piText|] && r[k + 1] == t[k + 1 - |piText|];
        }
      }
    } else if s != [] {
      var t := ReplacePi(s[1..], piText);
      ReplacePiRemovesAll(s[1..], piText);
      forall k | 0 <= k < |r| - 1 ensures !(r[k] == 'p' && r[k + 1] == 'i') {
        if k == 0 {
          if s[0] == 'p' {
            assert r[1] == t[0];
            assert |s| >= 2 && t[0] != 'i' by {
              assert t[0] in piText || t[0] == s[1];
            }
          }
        } else {
          assert r[k] == t[k - 1] && r[k + 1] == t[k];
        }
      }
    }
  }

  /** EvaluateExpression's normalisation: trimmed, lower-cased, and pi replaced by its printed value. */
  function Normalise(expression: string, piText: string): string
  {
    ReplacePi(ToLower(Trim(expression)), piText)
  }

  /**
   * After the normalisation no "pi" is left, whatever the case it was typed
   * in, as long as the printed value is neither empty nor holds 'p' or 'i'.
   */
  lemma NormalisedHasNoPi(expression: string, piText: string)
    requires piText != [] && 'p' !in piText && 'i' !in piText
    ensures NoPi(Normalise(expression, piText))
  {
    ReplacePiRemovesAll(ToLower(Trim(expression)), piText);
  }

  /** The message of what ParseAndEvaluate throws; Substring's own message is a parameter. */
  function FailureMessage(f: Failure, substringMessage: string): string
  {
    match f
    case InvalidExpression => "Invalid expression"
    case SubstringOutOfRange => substringMessage
  }

  /**
   * Execute, with the JSON deserializer, double.TryParse (isNumber), the text
   * of Math.PI, the F6 rendering of a tree's double value (show) and
   * Substring's exception message given. The double arithmetic never throws,
   * so only the parse can fail, and EvaluateExpression wraps its message.
   */
  method Execute(
    input: Option<string>,
    deserialize: string -> Result<Option<MathEvaluatorRequest>>,
    isNumber: string -> bool,
    piText: string,
    show: Expr -> string,
    substringMessage: string) returns (r: string)
    ensures input.None? || IsBlank(input.value) ==> r == "Invalid Request."
    ensures input.Some? && !IsBlank(input.value) && deserialize(input.value).Error? ==>
      r == "Error: " + deserialize(input.value).message
    ensures input.Some? && !IsBlank(input.value) && deserialize(input.value).Ok? ==>
      var request := deserialize(input.value).value;
      if request.None? || request.value.expression.None? || request.value.expression.value == [] then
        r == "Invalid Request"
      else
        match Parse(Normalise(request.value.expression.value, piText), isNumber, FirstOperator)
        case Tree(e) => r == show(e)
        case Fails(f) => r == "Error: Invalid expression: " + FailureMessage(f, substringMessage)
  {
    if input.None? || IsBlank(input.value) {
      return "Invalid Request.";
    }
    var request := deserialize(input.value);
    if request.Error? {
      return "Error: " + request.message;
    }
    if request.value.None? || request.value.value.expression.None? || request.value.value.expression.value == [] {
      return "Invalid Request";
    }
    var expression := request.value.value.expression.value;
    expression := Normalise(expression, piText);
    var parsed := Parse(expression, isNumber, FirstOperator);
    match parsed {
      case Tree(e) => r := show(e);
      case Fails(f) => r := "Error: Invalid expression: " + FailureMessage(f, substringMessage);
    }
  }
}
