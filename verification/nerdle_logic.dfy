/** The shared game rules of src/shared/nerdle-logic.ts: the equation
    validator with its arithmetic, the daily puzzle index and the equation
    lookup. The guess scorer of the same file is in module Scoring. */
module NerdleLogic {
  import opened Wrappers
  import opened Text
  import opened Numerals

  /** The colour of one tile or key. EMPTY marks a tile or key that no
      scored guess has coloured yet. */
  datatype CharStatus = Correct | Present | Absent | Empty

  const EquationLength: nat := 8

  const OperatorChars: set<char> := {'+', '-', '*', '/'}
  /** The characters the token check splits on. */
  const SeparatorChars: set<char> := OperatorChars + {'='}

  const MsgLength := "Equation must be 8 characters long"
  const MsgCharacters := "Invalid characters"
  const MsgOneEquals := "Must contain exactly one \"=\""
  const MsgFormat := "Invalid format"
  const MsgLeadingZeros := "Leading zeros are not allowed"
  const MsgSyntax := "Invalid syntax"
  const MsgInteger := "Result must be an integer"
  const MsgCompute := "Equation does not compute"

  /** Every message the validator can give. */
  const Messages: set<string> :=
    {MsgLength, MsgCharacters, MsgOneEquals, MsgFormat,
     MsgLeadingZeros, MsgSyntax, MsgInteger, MsgCompute}

  /** The validator's answer: `{ valid: true }` or `{ valid: false, message }`. */
  datatype Verdict = Valid | Invalid(message: string)

  // ---------------------------------------------------------------------
  // Number tokens

  predicate IsEquationChar(c: char)
  {
    IsDigit(c) || c in SeparatorChars
  }

  predicate HasLeadingZero(t: string)
  {
    |t| > 1 && t[0] == '0'
  }

  /** A token that passes both token checks. */
  predicate IsNumberToken(t: string)
  {
    |t| > 0 && !HasLeadingZero(t)
  }

  /** The token loop: tokens are scanned in order and, within one token, the
      leading-zero test comes before the emptiness test. */
  function TokenError(tokens: seq<string>): (r: Option<string>)
    ensures r == None <==> forall j :: 0 <= j < |tokens| ==> IsNumberToken(tokens[j])
    ensures r == None || r == Some(MsgLeadingZeros) || r == Some(MsgSyntax)
  {
    if tokens == [] then None
    else if HasLeadingZero(tokens[0]) then Some(MsgLeadingZeros)
    else if |tokens[0]| == 0 then Some(MsgSyntax)
    else TokenError(tokens[1..])
  }

  /** The message comes from the first token that fails a check. */
  lemma {:induction false} TokenErrorIsFirstBad(tokens: seq<string>, j: nat)
    requires j < |tokens| && !IsNumberToken(tokens[j])
    requires forall k :: 0 <= k < j ==> IsNumberToken(tokens[k])
    ensures TokenError(tokens) == Some(if HasLeadingZero(tokens[j]) then MsgLeadingZeros else MsgSyntax)
  {
    if j > 0 {
      TokenErrorIsFirstBad(tokens[1..], j - 1);
    }
  }

  // ---------------------------------------------------------------------
  // Arithmetic of the left-hand side

  predicate IsAdditive(op: char)
  {
    op == '+' || op == '-'
  }

  /** One JavaScript arithmetic operator on exact rationals. A division by
      zero has no finite result (JavaScript gives Infinity or NaN, and every
      later operation keeps it non-finite because divisors are literals). */
  function Apply(op: char, x: real, y: real): (r: Option<real>)
    ensures r.None? <==> op !in {'+', '-', '*'} && y == 0.0
  {
    match op
    case '+' => Some(x + y)
    case '-' => Some(x - y)
    case '*' => Some(x * y)
    case _ => if y == 0.0 then None else Some(x / y)
  }

  /** Index of the last `+` or `-` in `ops`, or -1 when there is none. */
  function LastAdditive(ops: seq<char>): (k: int)
    ensures -1 <= k < |ops|
    ensures k >= 0 ==> IsAdditive(ops[k])
    ensures forall j :: k < j < |ops| ==> !IsAdditive(ops[j])
  {
    if ops == [] then -1
    else if IsAdditive(ops[|ops| - 1]) then |ops| - 1
    else LastAdditive(ops[..|ops| - 1])
  }

  /** Some divisor literal among `nums[1..]` is zero. */
  predicate DividesByZero(nums: seq<int>, ops: seq<char>)
    requires |nums| == |ops| + 1
  {
    exists i :: 0 <= i < |ops| && ops[i] == '/' && nums[i + 1] == 0
  }

  /** Every operator is one of `+ - * /`. */
  predicate AllOperators(ops: seq<char>)
  {
    forall i :: 0 <= i < |ops| ==> ops[i] in OperatorChars
  }

  /** A division by zero is in the last step or before it. */
  lemma DividesByZeroSnoc(nums: seq<int>, ops: seq<char>)
    requires |nums| == |ops| + 1 && ops != []
    ensures DividesByZero(nums, ops) <==>
            DividesByZero(nums[..|nums| - 1], ops[..|ops| - 1]) || (ops[|ops| - 1] == '/' && nums[|nums| - 1] == 0)
  {
    var nums', ops' := nums[..|nums| - 1], ops[..|ops| - 1];
    if DividesByZero(nums', ops') {
      var i :| 0 <= i < |ops'| && ops'[i] == '/' && nums'[i + 1] == 0;
      assert ops[i] == '/' && nums[i + 1] == 0;
    }
    if DividesByZero(nums, ops) {
      var i :| 0 <= i < |ops| && ops[i] == '/' && nums[i + 1] == 0;
      if i < |ops'| {
        assert ops'[i] == '/' && nums'[i + 1] == 0;
      }
    }
  }

  /** A division by zero lies on one side of an operator that is not `/`. */
  lemma DividesByZeroAround(nums: seq<int>, ops: seq<char>, k: nat)
    requires |nums| == |ops| + 1 && k < |ops| && ops[k] != '/'
    ensures DividesByZero(nums, ops) <==>
            DividesByZero(nums[..k + 1], ops[..k]) || DividesByZero(nums[k + 1..], ops[k + 1..])
  {
    var ln, lo := nums[..k + 1], ops[..k];
    var rn, ro := nums[k + 1..], ops[k + 1..];
    if DividesByZero(ln, lo) {
      var i :| 0 <= i < |lo| && lo[i] == '/' && ln[i + 1] == 0;
      assert ops[i] == '/' && nums[i + 1] == 0;
    }
    if DividesByZero(rn, ro) {
      var i :| 0 <= i < |ro| && ro[i] == '/' && rn[i + 1] == 0;
      assert ops[k + 1 + i] == '/' && nums[k + 1 + i + 1] == 0;
    }
    if DividesByZero(nums, ops) {
      var i :| 0 <= i < |ops| && ops[i] == '/' && nums[i + 1] == 0;
      if i < k {
        assert lo[i] == '/' && ln[i + 1] == 0;
      } else {
        assert ro[i - k - 1] == '/' && rn[i - k] == 0;
      }
    }
  }

  /** A product of factors `n0 op1 n1 ... opk nk` (no `+` or `-`), evaluated
      left to right. It has no value exactly when it divides by zero. */
  function EvalTerm(nums: seq<int>, ops: seq<char>): (r: Option<real>)
    requires |nums| == |ops| + 1
    ensures AllOperators(ops) ==> (r.None? <==> DividesByZero(nums, ops))
    decreases |ops|
  {
    if ops == [] then Some(nums[0] as real)
    else
      DividesByZeroSnoc(nums, ops);
      assert AllOperators(ops) ==> AllOperators(ops[..|ops| - 1]);
      match EvalTerm(nums[..|nums| - 1], ops[..|ops| - 1])
      case None => None
      case Some(v) => Apply(ops[|ops| - 1], v, nums[|nums| - 1] as real)
  }

  /** The value of `n0 op1 n1 ... opk nk` under the usual precedence: the
      expression is a left-associated sum of terms, so it splits at its last
      `+` or `-` into an expression and a term. Over `+ - * /` it has no
      value exactly when some divisor literal is zero. */
  function Eval(nums: seq<int>, ops: seq<char>): (r: Option<real>)
    requires |nums| == |ops| + 1
    ensures AllOperators(ops) ==> (r.None? <==> DividesByZero(nums, ops))
    decreases |ops|
  {
    var k := LastAdditive(ops);
    if k < 0 then EvalTerm(nums, ops)
    else
      DividesByZeroAround(nums, ops, k);
      assert AllOperators(ops) ==> AllOperators(ops[..k]) && AllOperators(ops[k + 1..]);
      match (Eval(nums[..k + 1], ops[..k]), EvalTerm(nums[k + 1..], ops[k + 1..]))
      case (Some(x), Some(y)) => Apply(ops[k], x, y)
      case _ => None
  }

  /** The values of the number tokens. */
  function TokenValues(tokens: seq<string>): (vs: seq<int>)
    ensures |vs| == |tokens|
  {
    seq(|tokens|, i requires 0 <= i < |tokens| => DigitsValue(tokens[i]))
  }

  /** `new Function('return ' + lhs)()` over the grammar the token check
      admits: the numbers between the operators, combined by precedence. */
  function EvalLhs(lhs: string): (r: Option<real>)
    ensures NoneIn(lhs, OperatorChars) ==> r == Some(DigitsValue(lhs) as real)
    ensures r.None? <==> DividesByZero(TokenValues(Split(lhs, OperatorChars)), Separators(lhs, OperatorChars))
  {
    var nums, ops := TokenValues(Split(lhs, OperatorChars)), Separators(lhs, OperatorChars);
    if NoneIn(lhs, OperatorChars) then
      SplitWithout(lhs, OperatorChars);
      assert nums == [DigitsValue(lhs)];
      Eval(nums, ops)
    else
      Eval(nums, ops)
  }

  /** `Number.isInteger` on a finite value: a value that is not an integer
      lies strictly between two consecutive integers. */
  predicate IsInteger(v: real)
    ensures !IsInteger(v) ==> v.Floor as real < v < (v.Floor + 1) as real
  {
    v == v.Floor as real
  }

  // ---------------------------------------------------------------------
  // The validator

  /** The regular expression test of the validator: one or more characters,
      each a digit or one of `+ - * / =`. */
  predicate MatchesEquationChars(s: string)
    ensures MatchesEquationChars(s) <==> s != [] && forall c :: c in s ==> c in "0123456789+-*/="
  {
    EquationCharClass(s);
    |s| > 0 && forall i :: 0 <= i < |s| ==> IsEquationChar(s[i])
  }

  lemma EquationCharClass(s: string)
    ensures (forall i :: 0 <= i < |s| ==> IsEquationChar(s[i])) <==> forall c :: c in s ==> c in "0123456789+-*/="
  {
    var allowed := "0123456789+-*/=";
    forall c ensures IsEquationChar(c) <==> c in allowed {
      if IsDigit(c) {
        assert c == allowed[c as int - '0' as int];
      }
    }
  }

  /** `isValidEquation`: the structural checks in their fixed order, each with
      its own message, then the arithmetic check. The function is total: no
      input makes it fail. */
  function IsValidEquation(e: string): (r: Verdict)
    ensures r.Invalid? ==> r.message in Messages
  {
    if |e| != EquationLength then Invalid(MsgLength)
    else if !MatchesEquationChars(e) then Invalid(MsgCharacters)
    else
      var parts := Split(e, {'='});
      if |parts| != 2 then Invalid(MsgOneEquals)
      else
        var lhs, rhs := parts[0], parts[1];
        if lhs == [] || rhs == [] then Invalid(MsgFormat)
        else
          match TokenError(Split(e, SeparatorChars))
          case Some(msg) => Invalid(msg)
          case None =>
            var calculated := EvalLhs(lhs);
            var result := ParseInt(rhs);
            if calculated.None? || !IsInteger(calculated.value) then Invalid(MsgInteger)
            else if result.None? || calculated.value != result.value as real then Invalid(MsgCompute)
            else Valid
  }

  // ---------------------------------------------------------------------
  // What an accepted equation is

  /** `x` is `num (op num)*`: digits and operators only, and every number
      token non-empty without a leading zero. */
  predicate IsExpression(x: string)
  {
    && (forall i :: 0 <= i < |x| ==> IsDigit(x[i]) || x[i] in OperatorChars)
    && var tokens := Split(x, OperatorChars);
       forall j :: 0 <= j < |tokens| ==> IsNumberToken(tokens[j])
  }

  /** The first number of an expression. */
  function FirstNumber(x: string): int
  {
    DigitsValue(Split(x, OperatorChars)[0])
  }

  /** An equation the game accepts: eight characters, one `=` with an
      expression on each side, and the left side's exact value equal to the
      first number on the right side. */
  ghost predicate Acceptable(e: string)
  {
    && |e| == EquationLength
    && exists p :: 0 <= p < |e| && e[p] == '=' && IsExpression(e[..p]) && IsExpression(e[p + 1..])
                   && EvalLhs(e[..p]) == Some(FirstNumber(e[p + 1..]) as real)
  }

  /** An expression starts with its first number. */
  lemma {:induction false} LeadingDigitsOfExpression(x: string)
    requires forall i :: 0 <= i < |x| ==> IsDigit(x[i]) || x[i] in OperatorChars
    ensures LeadingDigits(x) == Split(x, OperatorChars)[0]
  {
    if x != [] && IsDigit(x[0]) {
      LeadingDigitsOfExpression(x[1..]);
    }
  }

  /** An expression is never empty. */
  lemma ExpressionNonEmpty(x: string)
    requires IsExpression(x)
    ensures x != []
  {
    var first := Split(x, OperatorChars)[0];
    assert IsNumberToken(first);
    assert x == [] ==> first == [];
  }

  /** The tokens of `l = r` are those of `l` followed by those of `r`. */
  lemma TokensAroundEquals(e: string, p: nat)
    requires p < |e| && e[p] == '='
    requires NoneIn(e[..p], {'='}) && NoneIn(e[p + 1..], {'='})
    ensures Split(e, SeparatorChars) == Split(e[..p], OperatorChars) + Split(e[p + 1..], OperatorChars)
    ensures Split(e, {'='}) == [e[..p], e[p + 1..]]
  {
    assert e == e[..p] + ['='] + e[p + 1..];
    SplitAround(e[..p], '=', e[p + 1..], SeparatorChars);
    SplitAround(e[..p], '=', e[p + 1..], {'='});
    SplitSameSeparators(e[..p], SeparatorChars, OperatorChars);
    SplitSameSeparators(e[p + 1..], SeparatorChars, OperatorChars);
    SplitWithout(e[..p], {'='});
    SplitWithout(e[p + 1..], {'='});
  }

  /** Every equation the validator accepts is acceptable. */
  lemma ValidIsAcceptable(e: string)
    requires IsValidEquation(e) == Valid
    ensures Acceptable(e)
  {
    var parts := Split(e, {'='});
    assert |e| == EquationLength && MatchesEquationChars(e) && |parts| == 2;
    assert TokenError(Split(e, SeparatorChars)) == None;
    assert EvalLhs(parts[0]).Some? && ParseInt(parts[1]).Some?
           && EvalLhs(parts[0]).value == ParseInt(parts[1]).value as real;
    PassedChecksAcceptable(e);
  }

  /** The checks the validator makes, taken together, make an equation
      acceptable. */
  lemma PassedChecksAcceptable(e: string)
    requires |e| == EquationLength && MatchesEquationChars(e) && |Split(e, {'='})| == 2
    requires TokenError(Split(e, SeparatorChars)) == None
    requires var parts := Split(e, {'='});
             && EvalLhs(parts[0]).Some? && ParseInt(parts[1]).Some?
             && EvalLhs(parts[0]).value == ParseInt(parts[1]).value as real
    ensures Acceptable(e)
  {
    var parts := Split(e, {'='});
    TwoParts(e, '=');
    var p := |parts[0]|;
    assert e[..p] == parts[0] && e[p + 1..] == parts[1];
    TokensAroundEquals(e, p);
    SidesAreExpressions(e, p);
    LeadingDigitsOfExpression(e[p + 1..]);
    assert EvalLhs(e[..p]) == Some(FirstNumber(e[p + 1..]) as real);
  }

  /** When every character passes the character check and every token the
      token checks, both sides of the `=` are expressions. */
  lemma SidesAreExpressions(e: string, p: nat)
    requires p < |e| && MatchesEquationChars(e)
    requires NoneIn(e[..p], {'='}) && NoneIn(e[p + 1..], {'='})
    requires Split(e, SeparatorChars) == Split(e[..p], OperatorChars) + Split(e[p + 1..], OperatorChars)
    requires forall j :: 0 <= j < |Split(e, SeparatorChars)| ==> IsNumberToken(Split(e, SeparatorChars)[j])
    ensures IsExpression(e[..p]) && IsExpression(e[p + 1..])
  {
    var lhs, rhs := e[..p], e[p + 1..];
    var tokens := Split(e, SeparatorChars);
    var lt, rt := Split(lhs, OperatorChars), Split(rhs, OperatorChars);
    forall i | 0 <= i < |lhs| ensures IsDigit(lhs[i]) || lhs[i] in OperatorChars {
      assert lhs[i] == e[i];
    }
    forall i | 0 <= i < |rhs| ensures IsDigit(rhs[i]) || rhs[i] in OperatorChars {
      assert rhs[i] == e[p + 1 + i];
    }
    forall j | 0 <= j < |lt| ensures IsNumberToken(lt[j]) {
      assert tokens[j] == lt[j];
    }
    forall j | 0 <= j < |rt| ensures IsNumberToken(rt[j]) {
      assert tokens[|lt| + j] == rt[j];
    }
  }

  /** Every acceptable equation passes every check of the validator. */
  lemma AcceptableIsValid(e: string, p: nat)
    requires |e| == EquationLength && p < |e| && e[p] == '='
    requires IsExpression(e[..p]) && IsExpression(e[p + 1..])
    requires EvalLhs(e[..p]) == Some(FirstNumber(e[p + 1..]) as real)
    ensures IsValidEquation(e) == Valid
  {
    var lhs, rhs := e[..p], e[p + 1..];
    assert NoneIn(lhs, {'='}) && NoneIn(rhs, {'='});
    TokensAroundEquals(e, p);
    forall i | 0 <= i < |e| ensures IsEquationChar(e[i]) {
      if i < p {
        assert e[i] == lhs[i];
      } else if i > p {
        assert e[i] == rhs[i - p - 1];
      }
    }
    ExpressionNonEmpty(lhs);
    ExpressionNonEmpty(rhs);
    var lt, rt := Split(lhs, OperatorChars), Split(rhs, OperatorChars);
    var tokens := Split(e, SeparatorChars);
    forall j | 0 <= j < |tokens| ensures IsNumberToken(tokens[j]) {
      if j < |lt| {
        assert tokens[j] == lt[j];
      } else {
        assert tokens[j] == rt[j - |lt|];
      }
    }
    LeadingDigitsOfExpression(rhs);
    assert ParseInt(rhs) == Some(FirstNumber(rhs));
  }

  /** The validator accepts exactly the acceptable equations. */
  lemma ValidIffAcceptable(e: string)
    ensures IsValidEquation(e) == Valid <==> Acceptable(e)
  {
    if IsValidEquation(e) == Valid {
      ValidIsAcceptable(e);
    }
    if Acceptable(e) {
      var p :| 0 <= p < |e| && e[p] == '=' && IsExpression(e[..p]) && IsExpression(e[p + 1..])
               && EvalLhs(e[..p]) == Some(FirstNumber(e[p + 1..]) as real);
      AcceptableIsValid(e, p);
    }
  }

  /** Which message a rejected equation gets, stage by stage. */
  lemma RejectionMessages(e: string)
    ensures |e| != EquationLength ==> IsValidEquation(e) == Invalid(MsgLength)
    ensures |e| == EquationLength && (exists i :: 0 <= i < |e| && !IsEquationChar(e[i]))
            ==> IsValidEquation(e) == Invalid(MsgCharacters)
    ensures |e| == EquationLength && MatchesEquationChars(e) && |Separators(e, {'='})| != 1
            ==> IsValidEquation(e) == Invalid(MsgOneEquals)
    ensures |e| == EquationLength && MatchesEquationChars(e) && |Separators(e, {'='})| == 1
            && (e[0] == '=' || e[|e| - 1] == '=')
            ==> IsValidEquation(e) == Invalid(MsgFormat)
  {
    if |e| == EquationLength && MatchesEquationChars(e) && |Separators(e, {'='})| == 1 {
      var parts := Split(e, {'='});
      TwoParts(e, '=');
      if parts[0] != [] {
        assert e[0] == parts[0][0] && e[0] != '=';
      }
      if parts[1] != [] {
        assert e[|e| - 1] == parts[1][|parts[1]| - 1] && e[|e| - 1] != '=';
      }
    }
  }

  /** Once the structure is sound, the first bad number token decides the
      message, before any arithmetic is attempted. */
  lemma TokenRejection(e: string, j: nat)
    requires |e| == EquationLength && MatchesEquationChars(e)
    requires |Split(e, {'='})| == 2 && Split(e, {'='})[0] != [] && Split(e, {'='})[1] != []
    requires j < |Split(e, SeparatorChars)| && !IsNumberToken(Split(e, SeparatorChars)[j])
    requires forall k :: 0 <= k < j ==> IsNumberToken(Split(e, SeparatorChars)[k])
    ensures IsValidEquation(e)
            == Invalid(if HasLeadingZero(Split(e, SeparatorChars)[j]) then MsgLeadingZeros else MsgSyntax)
  {
    TokenErrorIsFirstBad(Split(e, SeparatorChars), j);
  }

  /** With sound structure and tokens, a left side without an integer value
      (a fraction, or a division by zero) is reported before any comparison,
      and a wrong value is reported as not computing. */
  lemma ArithmeticRejection(e: string)
    requires |e| == EquationLength && MatchesEquationChars(e)
    requires |Split(e, {'='})| == 2
    requires TokenError(Split(e, SeparatorChars)) == None
    ensures var lhs, rhs := Split(e, {'='})[0], Split(e, {'='})[1];
            && (EvalLhs(lhs).None? || !IsInteger(EvalLhs(lhs).value) ==> IsValidEquation(e) == Invalid(MsgInteger))
            && (EvalLhs(lhs).Some? && IsInteger(EvalLhs(lhs).value) && EvalLhs(lhs).value != FirstNumber(rhs) as real
                ==> IsValidEquation(e) == Invalid(MsgCompute))
  {
    var parts := Split(e, {'='});
    TwoParts(e, '=');
    var p := |parts[0]|;
    assert e[..p] == parts[0] && e[p + 1..] == parts[1];
    TokensAroundEquals(e, p);
    var tokens := Split(e, SeparatorChars);
    var lt := Split(parts[0], OperatorChars);
    var rt := Split(parts[1], OperatorChars);
    assert tokens[0] == lt[0] && tokens[|lt|] == rt[0];
    assert parts[0] != [] by { assert |tokens[0]| > 0; }
    assert parts[1] != [] by { assert |tokens[|lt|]| > 0; }
    var rhs := parts[1];
    forall i | 0 <= i < |rhs| ensures IsDigit(rhs[i]) || rhs[i] in OperatorChars {
      assert rhs[i] == e[p + 1 + i];
    }
    LeadingDigitsOfExpression(parts[1]);
  }

  /** A lone numeral is an expression worth its digits. */
  lemma NumeralIsExpression(t: string)
    requires IsCanonical(t)
    ensures IsExpression(t) && EvalLhs(t) == Some(DigitsValue(t) as real)
    ensures Split(t, OperatorChars) == [t]
  {
    assert NoneIn(t, OperatorChars);
    SplitWithout(t, OperatorChars);
    assert TokenValues([t]) == [DigitsValue(t)];
  }

  /** `a+b` for numerals `a` and `b` is an expression starting with `a`. */
  lemma SumIsExpression(a: string, b: string)
    requires IsCanonical(a) && IsCanonical(b)
    ensures IsExpression(a + ['+'] + b) && FirstNumber(a + ['+'] + b) == DigitsValue(a)
  {
    var x := a + ['+'] + b;
    NumeralIsExpression(a);
    NumeralIsExpression(b);
    SplitAround(a, '+', b, OperatorChars);
    assert Split(x, OperatorChars) == [a, b];
    forall i | 0 <= i < |x| ensures IsDigit(x[i]) || x[i] in OperatorChars {
      if i < |a| {
        assert x[i] == a[i];
      } else if i > |a| {
        assert x[i] == b[i - |a| - 1];
      }
    }
  }

  /** The right-hand side is read only up to its first operator, so
      `12=12+34` is accepted: 12 equals the leading 12. */
  lemma RightSideReadToFirstOperator()
    ensures IsValidEquation("12=12+34") == Valid
  {
    var e := "12=12+34";
    assert e[..2] == "12" && e[3..] == "12" + ['+'] + "34";
    assert IsCanonical("12") && IsCanonical("34");
    assert "12"[..1] == "1" && "1"[..0] == [];
    assert DigitsValue("12") == 12;
    NumeralIsExpression("12");
    SumIsExpression("12", "34");
    AcceptableIsValid(e, 2);
  }

  // ---------------------------------------------------------------------
  // The daily puzzle

  const TwoTo31: int := 0x8000_0000
  const TwoTo32: int := 0x1_0000_0000

  predicate IsInt32(x: int)
  {
    -TwoTo31 <= x < TwoTo31
  }

  /** JavaScript's ToInt32: the signed 32-bit integer congruent to `x`
      modulo 2^32 (what `x | 0` and `x << 0` produce). */
  function ToInt32(x: int): (r: int)
    ensures IsInt32(r)
    ensures (x - r) % TwoTo32 == 0
  {
    (x + TwoTo31) % TwoTo32 - TwoTo31
  }

  lemma ToInt32Congruent(x: int, y: int)
    requires (x - y) % TwoTo32 == 0
    ensures ToInt32(x) == ToInt32(y)
  {
    var k := (x - y) / TwoTo32;
    assert x + TwoTo31 == (y + TwoTo31) + TwoTo32 * k;
    ModMultiple(y + TwoTo31, k);
  }

  lemma {:induction false} ModMultiple(a: int, k: int)
    ensures (a + TwoTo32 * k) % TwoTo32 == a % TwoTo32
    decreases if k < 0 then -k else k
  {
    if k > 0 {
      ModMultiple(a, k - 1);
      assert a + TwoTo32 * k == (a + TwoTo32 * (k - 1)) + TwoTo32;
    } else if k < 0 {
      ModMultiple(a, k + 1);
      assert a + TwoTo32 * (k + 1) == (a + TwoTo32 * k) + TwoTo32;
    }
  }

  /** One round of the string hash: `hash * 31 + code`, kept in 32 bits. */
  function HashStep(hash: int, code: int): (h: int)
    ensures IsInt32(h)
    ensures (h - (31 * hash + code)) % TwoTo32 == 0
  {
    ToInt32(31 * hash + code)
  }

  /** The 32-bit string hash of `s`; it is a signed 32-bit value after every
      character. */
  function StringHash(s: string): (h: int)
    ensures IsInt32(h)
  {
    if s == [] then 0
    else HashStep(StringHash(s[..|s| - 1]), s[|s| - 1] as int)
  }

  /** The source's two-step update `((hash << 5) - hash) + code`, then
      `hash |= 0`, is one hash round. */
  lemma ShiftUpdateIsHashStep(hash: int, code: int)
    requires IsInt32(hash)
    ensures ToInt32(ToInt32(hash * 32) - hash + code) == HashStep(hash, code)
  {
    var shifted := ToInt32(hash * 32);
    assert (hash * 32 - shifted) % TwoTo32 == 0;
    var k := (hash * 32 - shifted) / TwoTo32;
    assert shifted - hash + code == 31 * hash + code - TwoTo32 * k;
    ToInt32Congruent(shifted - hash + code, 31 * hash + code);
  }

  /** `${year}-${month + 1}-${date}` with `month` counted from 0. */
  function DateString(year: nat, month: nat, day: nat): (s: string)
    ensures var parts := Split(s, {'-'});
            && |parts| == 3 && (forall k :: 0 <= k < 3 ==> IsCanonical(parts[k]))
            && DigitsValue(parts[0]) == year && DigitsValue(parts[1]) == month + 1 && DigitsValue(parts[2]) == day
  {
    var y, m, d := NatToString(year), NatToString(month + 1), NatToString(day);
    DateReadsBack(y, m, d);
    NatToStringValue(year);
    NatToStringValue(month + 1);
    NatToStringValue(day);
    y + "-" + m + "-" + d
  }

  /** Three numerals joined by `-` split back into the same three. */
  lemma DateReadsBack(y: string, m: string, d: string)
    requires IsCanonical(y) && IsCanonical(m) && IsCanonical(d)
    ensures Split(y + "-" + m + "-" + d, {'-'}) == [y, m, d]
  {
    assert NoneIn(y, {'-'}) && NoneIn(m, {'-'}) && NoneIn(d, {'-'});
    SplitWithout(y, {'-'});
    SplitWithout(m, {'-'});
    SplitWithout(d, {'-'});
    SplitAround(m, '-', d, {'-'});
    assert y + "-" + m + "-" + d == y + ['-'] + (m + ['-'] + d);
    SplitAround(y, '-', m + ['-'] + d, {'-'});
  }

  function Abs(x: int): nat
  {
    if x < 0 then -x else x
  }

  /** `getDailyIndex`: the hash of the UTC date, made non-negative and reduced
      modulo the number of equations. With no equations the result is `None`
      (JavaScript's `NaN` from `% 0`). */
  method GetDailyIndex(year: nat, month: nat, day: nat, count: nat) returns (index: Option<nat>)
    ensures index.None? <==> count == 0
    ensures index.Some? ==> index.value < count
    ensures index.Some? ==> index.value == Abs(StringHash(DateString(year, month, day))) % count
  {
    var dateString := DateString(year, month, day);
    var hash := 0;
    for i := 0 to |dateString|
      invariant hash == StringHash(dateString[..i])
    {
      ShiftUpdateIsHashStep(hash, dateString[i] as int);
      hash := ToInt32(ToInt32(hash * 32) - hash + dateString[i] as int);
      assert dateString[..i + 1][..i] == dateString[..i];
    }
    assert dateString[..|dateString|] == dateString;
    if count == 0 {
      index := None;
    } else {
      index := Some(Abs(hash) % count);
    }
  }

  const FallbackEquation := "10+20=30"

  /** `getEquationByIndex`: the indexed entry, else the first entry, else the
      built-in equation. */
  function GetEquationByIndex(equations: seq<string>, index: int): (eq: string)
    ensures 0 <= index < |equations| ==> eq == equations[index]
    ensures !(0 <= index < |equations|) && equations != [] ==> eq == equations[0]
    ensures eq in equations || (equations == [] && eq == FallbackEquation)
  {
    if 0 <= index < |equations| then equations[index]
    else if equations != [] then equations[0]
    else FallbackEquation
  }

  /** `getDailyEquation`: the equation of the day, always one of the list
      unless the list is empty. */
  method GetDailyEquation(equations: seq<string>, year: nat, month: nat, day: nat) returns (eq: string)
    ensures equations != [] ==> eq == equations[Abs(StringHash(DateString(year, month, day))) % |equations|]
    ensures equations == [] ==> eq == FallbackEquation
  {
    var index := GetDailyIndex(year, month, day, |equations|);
    // `EQUATIONS[NaN]` is undefined, like any index outside the list.
    eq := GetEquationByIndex(equations, if index.Some? then index.value else -1);
  }
}
