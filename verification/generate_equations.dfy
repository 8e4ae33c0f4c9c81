/** The offline generator of the equation list (tools/generate_equations.js):
    every `a op b=res` with `a, b <= 999` and every `a op1 b op2 c=res` with
    `a, b, c <= 20` whose result is a non-negative integer and whose text is
    eight characters long, collected in an insertion-ordered set. */
module GenerateEquations {
  import opened Wrappers
  import opened Text
  import opened Numerals
  import opened NerdleLogic

  /** The operators in the order the loops try them. */
  const Ops: seq<char> := ['+', '-', '*', '/']
  /** Operands of the one-operator loops run from 0 to this bound. */
  const SingleLimit: nat := 999
  /** Operands of the two-operator loops run from 0 to this bound. */
  const DoubleLimit: nat := 20

  // ---------------------------------------------------------------------
  // Arithmetic

  /** `calc(x, y, o)`: integer arithmetic, where a division is defined only
      when it is exact. */
  function Calc(x: int, y: int, op: char): (r: Option<int>)
    ensures op in {'+', '-', '*'} ==> r.Some?
    ensures op == '/' ==> (r.Some? <==> y != 0 && x % y == 0)
    ensures op == '/' && r.Some? ==> r.value * y == x
    ensures op !in OperatorChars ==> r.None?
  {
    if op == '+' then Some(x + y)
    else if op == '-' then Some(x - y)
    else if op == '*' then Some(x * y)
    else if op == '/' then (if y != 0 && x % y == 0 then Some(x / y) else None)
    else None
  }

  /** An exact division of integers: the quotient is an integer exactly
      when the divisor divides the dividend, and then it is `x / y`. */
  lemma ExactDivision(x: int, y: int)
    requires y != 0
    ensures x % y == 0 <==> IsInteger(x as real / y as real)
    ensures x % y == 0 ==> x as real / y as real == (x / y) as real
  {
    if x % y == 0 {
      DivisibleQuotient(x, y);
    }
    var q := x as real / y as real;
    if IsInteger(q) {
      var v := q.Floor;
      IntegerQuotient(x, y, v);
      MultipleHasNoRemainder(v, y);
    }
  }

  lemma DivisibleQuotient(x: int, y: int)
    requires y != 0 && x % y == 0
    ensures x as real / y as real == (x / y) as real
    ensures IsInteger(x as real / y as real)
  {
    var k := x / y;
    assert k * y == x;
    assert (k * y) as real == k as real * y as real;
    assert k as real * y as real == x as real;
    assert (k as real).Floor == k;
  }

  lemma IntegerQuotient(x: int, y: int, v: int)
    requires y != 0
    requires x as real / y as real == v as real
    ensures v * y == x
  {
    assert v as real * y as real == x as real;
    assert (v * y) as real == v as real * y as real;
  }

  lemma MulAtLeast(m: int, n: int)
    ensures m >= 1 && n >= 1 ==> m * n >= n
  {
    assert m * n == (m - 1) * n + n;
  }

  /** A multiple of `y` leaves no remainder. */
  lemma MultipleHasNoRemainder(v: int, y: int)
    requires y != 0
    ensures (v * y) % y == 0
  {
    var x := v * y;
    var q, r := x / y, x % y;
    assert x == q * y + r;
    var d := v - q;
    assert d * y == r by {
      assert d * y == v * y - q * y;
    }
    assert (-d) * y == -(d * y) && d * (-y) == -(d * y) && (-d) * (-y) == d * y;
    MulAtLeast(d, y);
    MulAtLeast(-d, y);
    MulAtLeast(d, -y);
    MulAtLeast(-d, -y);
    assert d == 0;
  }

  /** `calc` is the game's arithmetic restricted to integer results: it is
      defined exactly when the exact result is an integer, and then equals
      it. */
  lemma CalcIsIntegerApply(x: int, y: int, op: char)
    requires op in OperatorChars
    ensures Calc(x, y, op).Some? <==> Apply(op, x as real, y as real).Some? && IsInteger(Apply(op, x as real, y as real).value)
    ensures Calc(x, y, op).Some? ==> Apply(op, x as real, y as real) == Some(Calc(x, y, op).value as real)
  {
    if op == '/' {
      CalcDivision(x, y);
    } else {
      CalcRing(x, y, op);
    }
  }

  lemma CalcDivision(x: int, y: int)
    ensures Calc(x, y, '/').Some? <==> Apply('/', x as real, y as real).Some? && IsInteger(Apply('/', x as real, y as real).value)
    ensures Calc(x, y, '/').Some? ==> Apply('/', x as real, y as real) == Some(Calc(x, y, '/').value as real)
  {
    if y != 0 {
      ExactDivision(x, y);
    }
  }

  lemma CalcRing(x: int, y: int, op: char)
    requires op in {'+', '-', '*'}
    ensures Calc(x, y, op).Some?
    ensures Apply(op, x as real, y as real) == Some(Calc(x, y, op).value as real)
    ensures IsInteger(Calc(x, y, op).value as real)
  {
    var v := Calc(x, y, op).value;
    if op == '+' {
      assert v == x + y && Apply(op, x as real, y as real) == Some(x as real + y as real);
      assert (x + y) as real == x as real + y as real;
    } else if op == '-' {
      assert v == x - y && Apply(op, x as real, y as real) == Some(x as real - y as real);
      assert (x - y) as real == x as real - y as real;
    } else {
      assert v == x * y && Apply(op, x as real, y as real) == Some(x as real * y as real);
      assert (x * y) as real == x as real * y as real;
    }
    assert (v as real).Floor == v;
  }

  predicate IsMultiplicative(op: char)
  {
    op == '*' || op == '/'
  }

  /** The generator's evaluation of `a op1 b op2 c`: with one
      multiplicative and one additive operator the multiplicative one is
      applied first; with equal precedence the operators apply left to
      right; an undefined step skips the candidate. Whatever it computes is
      the value of `a op1 b op2 c` under the usual precedence, the same
      evaluation the validator performs. */
  function Precedence(a: int, b: int, c: int, op1: char, op2: char): (r: Option<int>)
    ensures r.Some? ==> op1 in OperatorChars && op2 in OperatorChars
    ensures r.Some? ==> Eval([a, b, c], [op1, op2]) == Some(r.value as real)
  {
    CalcStepsAgreeWithEval(a, b, c, op1, op2);
    if IsMultiplicative(op1) && IsAdditive(op2) then
      match Calc(a, b, op1)
      case None => None
      case Some(r1) => Calc(r1, c, op2)
    else if IsMultiplicative(op2) && IsAdditive(op1) then
      match Calc(b, c, op2)
      case None => None
      case Some(r2) => Calc(a, r2, op1)
    else
      match Calc(a, b, op1)
      case None => None
      case Some(r1) => Calc(r1, c, op2)
  }

  /** `a op b` evaluates to the one operation. */
  lemma EvalOfOne(a: int, b: int, op: char)
    requires op in OperatorChars
    ensures Eval([a, b], [op]) == Apply(op, a as real, b as real)
  {
    assert [a, b][..1] == [a] && [a, b][1..] == [b] && [op][..0] == [] && [op][1..] == [];
    assert EvalTerm([a], []) == Some(a as real) && EvalTerm([b], []) == Some(b as real);
    if IsAdditive(op) {
      assert LastAdditive([op]) == 0;
    } else {
      assert LastAdditive([op]) == -1;
    }
  }

  /** `a op1 b op2 c` evaluates `b op2 c` first exactly when `op2` binds
      tighter than `op1`, and left to right otherwise. */
  lemma EvalOfTwo(a: int, b: int, c: int, op1: char, op2: char)
    requires op1 in OperatorChars && op2 in OperatorChars
    ensures IsMultiplicative(op2) && IsAdditive(op1) ==>
              Eval([a, b, c], [op1, op2])
              == (match Apply(op2, b as real, c as real)
                  case None => None
                  case Some(w) => Apply(op1, a as real, w))
    ensures !(IsMultiplicative(op2) && IsAdditive(op1)) ==>
              Eval([a, b, c], [op1, op2])
              == (match Apply(op1, a as real, b as real)
                  case None => None
                  case Some(v) => Apply(op2, v, c as real))
  {
    if IsAdditive(op2) {
      EvalSumLast(a, b, c, op1, op2);
    } else if IsAdditive(op1) {
      EvalProductLast(a, b, c, op1, op2);
    } else {
      EvalProducts(a, b, c, op1, op2);
    }
  }

  lemma EvalSumLast(a: int, b: int, c: int, op1: char, op2: char)
    requires op1 in OperatorChars && IsAdditive(op2)
    ensures Eval([a, b, c], [op1, op2])
            == (match Apply(op1, a as real, b as real)
                case None => None
                case Some(v) => Apply(op2, v, c as real))
  {
    var nums, ops := [a, b, c], [op1, op2];
    assert nums[..2] == [a, b] && ops[..1] == [op1] && nums[2..] == [c] && ops[2..] == [];
    EvalOfOne(a, b, op1);
    assert LastAdditive(ops) == 1;
    assert EvalTerm([c], []) == Some(c as real);
  }

  lemma EvalProductLast(a: int, b: int, c: int, op1: char, op2: char)
    requires IsAdditive(op1) && IsMultiplicative(op2)
    ensures Eval([a, b, c], [op1, op2])
            == (match Apply(op2, b as real, c as real)
                case None => None
                case Some(w) => Apply(op1, a as real, w))
  {
    var nums, ops := [a, b, c], [op1, op2];
    assert nums[..1] == [a] && ops[..0] == [] && nums[1..] == [b, c] && ops[1..] == [op2];
    assert LastAdditive(ops) == 0;
    assert [b, c][..1] == [b] && [op2][..0] == [];
    assert EvalTerm([b], []) == Some(b as real);
    assert EvalTerm([b, c], [op2]) == Apply(op2, b as real, c as real);
    assert Eval([a], []) == Some(a as real);
  }

  lemma EvalProducts(a: int, b: int, c: int, op1: char, op2: char)
    requires IsMultiplicative(op1) && IsMultiplicative(op2)
    ensures Eval([a, b, c], [op1, op2])
            == (match Apply(op1, a as real, b as real)
                case None => None
                case Some(v) => Apply(op2, v, c as real))
  {
    var nums, ops := [a, b, c], [op1, op2];
    assert nums[..2] == [a, b] && ops[..1] == [op1];
    assert LastAdditive(ops) == -1 by {
      assert [op1][..0] == [];
    }
    assert [a, b][..1] == [a] && [op1][..0] == [];
    assert EvalTerm([a], []) == Some(a as real);
    assert EvalTerm([a, b], [op1]) == Apply(op1, a as real, b as real);
  }

  /** Two defined `calc` steps, `b op2 c` first when `op2` binds tighter
      than `op1` and `a op1 b` first otherwise, give the value of
      `a op1 b op2 c` under the usual precedence. */
  lemma CalcStepsAgreeWithEval(a: int, b: int, c: int, op1: char, op2: char)
    ensures op1 in OperatorChars && op2 in OperatorChars && IsMultiplicative(op2) && IsAdditive(op1)
            && Calc(b, c, op2).Some? && Calc(a, Calc(b, c, op2).value, op1).Some? ==>
              Eval([a, b, c], [op1, op2]) == Some(Calc(a, Calc(b, c, op2).value, op1).value as real)
    ensures op1 in OperatorChars && op2 in OperatorChars && !(IsMultiplicative(op2) && IsAdditive(op1))
            && Calc(a, b, op1).Some? && Calc(Calc(a, b, op1).value, c, op2).Some? ==>
              Eval([a, b, c], [op1, op2]) == Some(Calc(Calc(a, b, op1).value, c, op2).value as real)
  {
    if op1 in OperatorChars && op2 in OperatorChars {
      EvalOfTwo(a, b, c, op1, op2);
      if IsMultiplicative(op2) && IsAdditive(op1) {
        if Calc(b, c, op2).Some? {
          var r2 := Calc(b, c, op2).value;
          CalcIsIntegerApply(b, c, op2);
          CalcIsIntegerApply(a, r2, op1);
        }
      } else if Calc(a, b, op1).Some? {
        var r1 := Calc(a, b, op1).value;
        CalcIsIntegerApply(a, b, op1);
        CalcIsIntegerApply(r1, c, op2);
      }
    }
  }

  /** The dispatch skips a product whose first step is an inexact division
      even when the whole is an integer: `10/4*2` is 5. The game accepts
      `10/4*2=5` (`InexactCandidateAccepted`), but the list never holds it
      (`InexactCandidateNotListed`). */
  lemma InexactFirstStepSkipped()
    ensures Precedence(10, 4, 2, '/', '*') == None
    ensures Eval([10, 4, 2], ['/', '*']) == Some(5.0)
  {
    assert [10, 4, 2][..2] == [10, 4] && ['/', '*'][..1] == ['/'];
    assert [10, 4][..1] == [10] && ['/'][..0] == [];
  }

  lemma InexactCandidateAccepted()
    ensures IsValidEquation("10/4*2=5") == Valid
  {
    InexactFirstStepSkipped();
    FormulaOfLiteral();
    FormulaAccepted([10, 4, 2], ['/', '*'], 5);
  }

  lemma InexactCandidateNotListed()
    ensures !IsDouble("10/4*2=5")
  {
    InexactFirstStepSkipped();
    FormulaOfLiteral();
    SkippedNotListed(10, 4, 2, '/', '*', 5);
  }

  /** A formula `a op1 b op2 c=res` whose evaluation the dispatch skips is
      never in the list, whatever its result. */
  lemma SkippedNotListed(a: nat, b: nat, c: nat, op1: char, op2: char, res: nat)
    requires op1 in OperatorChars && op2 in OperatorChars
    requires Precedence(a, b, c, op1, op2).None?
    ensures !IsDouble(Formula([a, b, c, res], [op1, op2, '=']))
  {
    var e := Formula([a, b, c, res], [op1, op2, '=']);
    forall a': nat, b': nat, c': nat, i: nat, j: nat |
      a' <= DoubleLimit && b' <= DoubleLimit && c' <= DoubleLimit && i < |Ops| && j < |Ops|
      ensures DoubleAt(a', b', c', i, j) != Some(e)
    {
      if DoubleAt(a', b', c', i, j) == Some(e) {
        var res' := Precedence(a', b', c', Ops[i], Ops[j]).value;
        FormulaDeterminesOperands([a', b', c', res'], [Ops[i], Ops[j], '='], [a, b, c, res], [op1, op2, '=']);
      }
    }
  }

  /** The literal is the printed formula. */
  lemma FormulaOfLiteral()
    ensures Formula([10, 4, 2, 5], ['/', '*', '=']) == "10/4*2=5"
    ensures Formula([10, 4, 2] + [5], ['/', '*'] + ['=']) == "10/4*2=5"
  {
    assert NatToString(10) == "10" by {
      assert NatToString(1) == "1";
    }
    var parts := Printed([10, 4, 2, 5]);
    assert parts == ["10", "4", "2", "5"];
    assert [10, 4, 2] + [5] == [10, 4, 2, 5];
    assert ['/', '*'] + ['='] == ['/', '*', '='];
  }

  /** Two formulas with the same text have the same numbers and operators. */
  lemma FormulaDeterminesOperands(nums: seq<nat>, ops: seq<char>, nums': seq<nat>, ops': seq<char>)
    requires |nums| == |ops| + 1 && |nums'| == |ops'| + 1
    requires forall k :: 0 <= k < |ops| ==> ops[k] in SeparatorChars
    requires forall k :: 0 <= k < |ops'| ==> ops'[k] in SeparatorChars
    requires Formula(nums, ops) == Formula(nums', ops')
    ensures nums == nums' && ops == ops'
  {
    var parts, parts' := Printed(nums), Printed(nums');
    forall k | 0 <= k < |parts| ensures NoneIn(parts[k], SeparatorChars) {
      CanonicalHasNoSeparator(parts[k]);
    }
    forall k | 0 <= k < |parts'| ensures NoneIn(parts'[k], SeparatorChars) {
      CanonicalHasNoSeparator(parts'[k]);
    }
    SplitJoin(parts, ops, SeparatorChars);
    SplitJoin(parts', ops', SeparatorChars);
    assert parts == parts';
    forall k | 0 <= k < |nums| ensures nums[k] == nums'[k] {
      assert parts[k] == NatToString(nums[k]) && parts'[k] == NatToString(nums'[k]);
      NatToStringValue(nums[k]);
      NatToStringValue(nums'[k]);
    }
  }

  // ---------------------------------------------------------------------
  // Candidate strings and the leading-zero filter

  /** The decimal numerals of `nums`. */
  function Printed(nums: seq<nat>): (parts: seq<string>)
    ensures |parts| == |nums|
    ensures forall k :: 0 <= k < |parts| ==> IsCanonical(parts[k])
  {
    seq(|nums|, k requires 0 <= k < |nums| => NatToString(nums[k]))
  }

  /** The template literal: the numbers with the operators between them. */
  function Formula(nums: seq<nat>, ops: seq<char>): string
    requires |nums| == |ops| + 1
  {
    Join(Printed(nums), ops)
  }

  /** `isValid`: no piece between separators is a number with a leading
      zero. Read character by character: every `0` that begins a number is
      the whole number. */
  predicate IsValid(eq: string)
    ensures IsValid(eq) <==>
            forall i {:trigger eq[i]} :: 0 <= i < |eq| - 1 && eq[i] == '0' && (i == 0 || eq[i - 1] in SeparatorChars) ==>
              eq[i + 1] in SeparatorChars
  {
    var parts := Split(eq, SeparatorChars);
    PiecesHaveNoLeadingZero(eq, SeparatorChars);
    forall j :: 0 <= j < |parts| ==> !HasLeadingZero(parts[j])
  }

  /** Position `i` of `s` holds a `0` that begins a piece and is followed by
      another character of the same piece. */
  predicate ZeroLeadsAt(s: string, seps: set<char>, i: int)
  {
    0 <= i < |s| - 1 && s[i] == '0' && s[i + 1] !in seps && (i == 0 || s[i - 1] in seps)
  }

  /** The first piece has a leading zero exactly when `s` starts with one. */
  lemma FirstPieceLeadingZero(s: string, seps: set<char>)
    requires '0' !in seps
    ensures HasLeadingZero(Split(s, seps)[0]) <==> ZeroLeadsAt(s, seps, 0)
  {
    if s != [] && s[0] !in seps {
      var t := s[1..];
      assert Split(s, seps)[0] == [s[0]] + Split(t, seps)[0];
      if t != [] {
        assert t[0] == s[1];
        if t[0] !in seps {
          assert Split(t, seps)[0] == [t[0]] + Split(t[1..], seps)[0];
        } else {
          assert Split(t, seps)[0] == [];
        }
      }
    }
  }

  /** No piece after the first has a leading zero. */
  predicate LaterPiecesClean(s: string, seps: set<char>)
  {
    var parts := Split(s, seps);
    forall j :: 1 <= j < |parts| ==> !HasLeadingZero(parts[j])
  }

  /** No position from `from` on holds a leading zero. */
  ghost predicate NoZeroLeadsFrom(s: string, seps: set<char>, from: int)
  {
    forall i :: from <= i ==> !ZeroLeadsAt(s, seps, i)
  }

  /** Dropping the first character shifts every position after it by one. */
  lemma ZeroLeadsShift(s: string, seps: set<char>, i: int)
    requires s != [] && (2 <= i || (i == 1 && s[0] in seps))
    ensures ZeroLeadsAt(s, seps, i) <==> ZeroLeadsAt(s[1..], seps, i - 1)
  {
    var t := s[1..];
    if i < |s| - 1 {
      assert s[i] == t[i - 1] && s[i + 1] == t[i];
      if i >= 2 {
        assert s[i - 1] == t[i - 2];
      }
    }
  }

  /** The pieces after the first have no leading zero exactly when no
      position after the first holds a leading zero. */
  lemma {:induction false} LaterPiecesLeadingZero(s: string, seps: set<char>)
    requires '0' !in seps
    ensures LaterPiecesClean(s, seps) <==> NoZeroLeadsFrom(s, seps, 1)
  {
    if s != [] {
      var t := s[1..];
      var parts, rest := Split(s, seps), Split(t, seps);
      LaterPiecesLeadingZero(t, seps);
      if s[0] in seps {
        FirstPieceLeadingZero(t, seps);
        assert parts == [[]] + rest;
        if LaterPiecesClean(s, seps) {
          assert LaterPiecesClean(t, seps) by {
            forall j | 1 <= j < |rest| ensures !HasLeadingZero(rest[j]) {
              assert rest[j] == parts[j + 1];
            }
          }
          forall i | 1 <= i ensures !ZeroLeadsAt(s, seps, i) {
            ZeroLeadsShift(s, seps, i);
            assert rest[0] == parts[1];
          }
        }
        if NoZeroLeadsFrom(s, seps, 1) {
          assert NoZeroLeadsFrom(t, seps, 0) by {
            forall i | 0 <= i ensures !ZeroLeadsAt(t, seps, i) {
              ZeroLeadsShift(s, seps, i + 1);
            }
          }
          forall j | 1 <= j < |parts| ensures !HasLeadingZero(parts[j]) {
            assert parts[j] == rest[j - 1];
          }
        }
      } else {
        assert parts[1..] == rest[1..];
        assert !ZeroLeadsAt(s, seps, 1);
        if LaterPiecesClean(s, seps) {
          assert LaterPiecesClean(t, seps) by {
            forall j | 1 <= j < |rest| ensures !HasLeadingZero(rest[j]) {
              assert rest[j] == parts[j];
            }
          }
          forall i | 2 <= i ensures !ZeroLeadsAt(s, seps, i) {
            ZeroLeadsShift(s, seps, i);
          }
        }
        if NoZeroLeadsFrom(s, seps, 1) {
          assert NoZeroLeadsFrom(t, seps, 1) by {
            forall i | 1 <= i ensures !ZeroLeadsAt(t, seps, i) {
              ZeroLeadsShift(s, seps, i + 1);
            }
          }
          forall j | 1 <= j < |parts| ensures !HasLeadingZero(parts[j]) {
            assert parts[j] == rest[j];
          }
        }
      }
    }
  }

  /** No piece has a leading zero exactly when no `0` begins a number of
      two or more characters. */
  lemma PiecesHaveNoLeadingZero(s: string, seps: set<char>)
    requires '0' !in seps
    ensures (forall j :: 0 <= j < |Split(s, seps)| ==> !HasLeadingZero(Split(s, seps)[j]))
            <==> forall i {:trigger s[i]} :: 0 <= i < |s| - 1 && s[i] == '0' && (i == 0 || s[i - 1] in seps) ==> s[i + 1] in seps
  {
    var parts := Split(s, seps);
    FirstPieceLeadingZero(s, seps);
    LaterPiecesLeadingZero(s, seps);
    if forall j :: 0 <= j < |parts| ==> !HasLeadingZero(parts[j]) {
      assert LaterPiecesClean(s, seps);
      forall i | 0 <= i < |s| - 1 && s[i] == '0' && (i == 0 || s[i - 1] in seps) ensures s[i + 1] in seps {
        assert !ZeroLeadsAt(s, seps, i);
      }
    }
    if forall i {:trigger s[i]} :: 0 <= i < |s| - 1 && s[i] == '0' && (i == 0 || s[i - 1] in seps) ==> s[i + 1] in seps {
      assert NoZeroLeadsFrom(s, seps, 1);
      if 0 < |s| - 1 && s[0] == '0' {
        assert s[1] in seps;
      }
    }
  }

  lemma CanonicalHasNoSeparator(s: string)
    requires IsCanonical(s)
    ensures NoneIn(s, SeparatorChars) && NoneIn(s, OperatorChars)
  {
  }

  /** Printed numbers never carry a leading zero, so `isValid` accepts every
      candidate the loops build: the filter never rejects anything. */
  lemma FormulaIsValid(nums: seq<nat>, ops: seq<char>)
    requires |nums| == |ops| + 1
    requires forall k :: 0 <= k < |ops| ==> ops[k] in SeparatorChars
    ensures IsValid(Formula(nums, ops))
  {
    var parts := Printed(nums);
    forall k | 0 <= k < |parts| ensures NoneIn(parts[k], SeparatorChars) {
      CanonicalHasNoSeparator(parts[k]);
    }
    SplitJoin(parts, ops, SeparatorChars);
  }

  /** The characters of a formula over `+ - * /` are digits and operators. */
  lemma {:induction false} FormulaChars(parts: seq<string>, ops: seq<char>)
    requires |parts| == |ops| + 1
    requires forall k :: 0 <= k < |parts| ==> IsDigits(parts[k])
    requires forall k :: 0 <= k < |ops| ==> ops[k] in OperatorChars
    ensures forall i :: 0 <= i < |Join(parts, ops)| ==> IsDigit(Join(parts, ops)[i]) || Join(parts, ops)[i] in OperatorChars
  {
    assert IsDigits(parts[0]);
    if ops != [] {
      FormulaChars(parts[1..], ops[1..]);
      var rest := Join(parts[1..], ops[1..]);
      var x := Join(parts, ops);
      assert x == parts[0] + [ops[0]] + rest;
      assert ops[0] in OperatorChars;
      forall i | 0 <= i < |x| ensures IsDigit(x[i]) || x[i] in OperatorChars {
        if i < |parts[0]| {
          assert x[i] == parts[0][i];
        } else if i == |parts[0]| {
          assert x[i] == ops[0];
        } else {
          assert x[i] == rest[i - |parts[0]| - 1];
        }
      }
    }
  }

  lemma TokenValuesOfPrinted(nums: seq<nat>)
    ensures TokenValues(Printed(nums)) == nums
  {
    forall k | 0 <= k < |nums| ensures TokenValues(Printed(nums))[k] == nums[k] {
      NatToStringValue(nums[k]);
    }
  }

  /** A formula whose left side evaluates to its printed result is accepted
      by the game's validator, provided it is eight characters long. */
  lemma FormulaAccepted(nums: seq<nat>, ops: seq<char>, res: nat)
    requires |nums| == |ops| + 1
    requires forall k :: 0 <= k < |ops| ==> ops[k] in OperatorChars
    requires Eval(nums, ops) == Some(res as real)
    requires |Formula(nums + [res], ops + ['='])| == EquationLength
    ensures IsValidEquation(Formula(nums + [res], ops + ['='])) == Valid
  {
    var lhs := Formula(nums, ops);
    var r := NatToString(res);
    var e := Formula(nums + [res], ops + ['=']);
    assert Printed(nums + [res]) == Printed(nums) + [r];
    JoinSnoc(Printed(nums), ops, r, '=');
    assert e == lhs + ['='] + r;
    var p := |lhs|;
    assert e[..p] == lhs && e[p + 1..] == r;
    forall k | 0 <= k < |nums| ensures NoneIn(Printed(nums)[k], OperatorChars) {
      CanonicalHasNoSeparator(Printed(nums)[k]);
    }
    SplitJoin(Printed(nums), ops, OperatorChars);
    FormulaChars(Printed(nums), ops);
    assert IsExpression(lhs);
    CanonicalHasNoSeparator(r);
    SplitWithout(r, OperatorChars);
    assert IsExpression(r);
    TokenValuesOfPrinted(nums);
    NatToStringValue(res);
    assert EvalLhs(lhs) == Eval(nums, ops);
    AcceptableIsValid(e, p);
  }

  // ---------------------------------------------------------------------
  // The two kinds of candidate

  /** A one-operator candidate `a op b=res`, kept when the operation is
      defined, the result is not negative, the text is eight characters
      long and `isValid` holds. The last test never fails: a candidate is
      kept exactly when it passes the first three. */
  function Single(a: nat, b: nat, op: char): (r: Option<string>)
    ensures r.Some? <==>
            Calc(a, b, op).Some? && Calc(a, b, op).value >= 0
            && |Formula([a, b, Calc(a, b, op).value], [op, '='])| == EquationLength
    ensures r.Some? ==> r.value == Formula([a, b, Calc(a, b, op).value], [op, '='])
  {
    match Calc(a, b, op)
    case None => None
    case Some(res) =>
      if res < 0 then None
      else
        var eq := Formula([a, b, res], [op, '=']);
        FormulaIsValid([a, b, res], [op, '=']);
        if |eq| == EquationLength && IsValid(eq) then Some(eq) else None
  }

  /** A two-operator candidate `a op1 b op2 c=res` under the same filters,
      its result computed by `Precedence`; again a candidate is kept exactly
      when its result is defined, not negative and eight characters long. */
  function Double(a: nat, b: nat, c: nat, op1: char, op2: char): (r: Option<string>)
    ensures r.Some? <==>
            Precedence(a, b, c, op1, op2).Some? && Precedence(a, b, c, op1, op2).value >= 0
            && |Formula([a, b, c, Precedence(a, b, c, op1, op2).value], [op1, op2, '='])| == EquationLength
    ensures r.Some? ==> r.value == Formula([a, b, c, Precedence(a, b, c, op1, op2).value], [op1, op2, '='])
  {
    match Precedence(a, b, c, op1, op2)
    case None => None
    case Some(res) =>
      if res < 0 then None
      else
        var eq := Formula([a, b, c, res], [op1, op2, '=']);
        FormulaIsValid([a, b, c, res], [op1, op2, '=']);
        if |eq| == EquationLength && IsValid(eq) then Some(eq) else None
  }

  /** Every one-operator candidate kept is accepted by the game. */
  lemma SingleAccepted(a: nat, b: nat, op: char)
    requires op in OperatorChars && Single(a, b, op).Some?
    ensures IsValidEquation(Single(a, b, op).value) == Valid
  {
    var res := Calc(a, b, op).value;
    CalcIsIntegerApply(a, b, op);
    assert [a, b][..1] == [a] && [op][..0] == [] && [a, b][1..] == [b] && [op][1..] == [];
    assert EvalTerm([a], []) == Some(a as real) && EvalTerm([b], []) == Some(b as real);
    assert EvalTerm([a, b], [op]) == Apply(op, a as real, b as real);
    if IsAdditive(op) {
      assert LastAdditive([op]) == 0;
      assert Eval([a], []) == Some(a as real);
    } else {
      assert LastAdditive([op]) == -1;
    }
    assert Eval([a, b], [op]) == Some(res as real);
    assert [a, b] + [res as nat] == [a, b, res];
    assert [op] + ['='] == [op, '='];
    FormulaAccepted([a, b], [op], res);
  }

  /** Every two-operator candidate kept is accepted by the game. */
  lemma DoubleAccepted(a: nat, b: nat, c: nat, op1: char, op2: char)
    requires op1 in OperatorChars && op2 in OperatorChars && Double(a, b, c, op1, op2).Some?
    ensures IsValidEquation(Double(a, b, c, op1, op2).value) == Valid
  {
    var res := Precedence(a, b, c, op1, op2).value;
    assert [a, b, c] + [res as nat] == [a, b, c, res];
    assert [op1, op2] + ['='] == [op1, op2, '='];
    FormulaAccepted([a, b, c], [op1, op2], res);
  }

  // ---------------------------------------------------------------------
  // The generated list

  /** The equations the one-operator loops produce. */
  ghost predicate IsSingle(e: string)
  {
    exists a, b, k :: 0 <= a <= SingleLimit && 0 <= b <= SingleLimit && 0 <= k < |Ops| && Single(a, b, Ops[k]) == Some(e)
  }

  /** The equations the two-operator loops produce. */
  ghost predicate IsDouble(e: string)
  {
    ProducedBy(DoubleAt, e)
  }

  /** Every equation in the list is one the game accepts. */
  lemma GeneratedAccepted(e: string)
    requires IsSingle(e) || IsDouble(e)
    ensures IsValidEquation(e) == Valid
  {
    if IsSingle(e) {
      ListedSingleAccepted(e);
    }
    if IsDouble(e) {
      ListedDoubleAccepted(e);
    }
  }

  lemma ListedSingleAccepted(e: string)
    requires IsSingle(e)
    ensures IsValidEquation(e) == Valid
  {
    forall a: nat, b: nat, k: nat | a <= SingleLimit && b <= SingleLimit && k < |Ops| && Single(a, b, Ops[k]) == Some(e)
      ensures IsValidEquation(e) == Valid
    {
      SingleAccepted(a, b, Ops[k]);
    }
  }

  lemma ListedDoubleAccepted(e: string)
    requires IsDouble(e)
    ensures IsValidEquation(e) == Valid
  {
    forall a: nat, b: nat, c: nat, i: nat, j: nat |
      a <= DoubleLimit && b <= DoubleLimit && c <= DoubleLimit && i < |Ops| && j < |Ops| && DoubleAt(a, b, c, i, j) == Some(e)
      ensures IsValidEquation(e) == Valid
    {
      DoubleAccepted(a, b, c, Ops[i], Ops[j]);
    }
  }

  predicate Distinct(list: seq<string>)
  {
    forall i, j :: 0 <= i < j < |list| ==> list[i] != list[j]
  }

  /** `eqs.add(eq)` on an insertion-ordered set kept as a list. */
  function Insert(list: seq<string>, e: string): (r: seq<string>)
    ensures forall x :: x in r <==> x in list || x == e
    ensures Distinct(list) ==> Distinct(r)
    ensures list <= r
  {
    if e in list then list else list + [e]
  }

  /** One-operator candidates from loop positions before `(a, b, k)`. */
  ghost function SinglesBefore(a: nat, b: nat, k: nat): set<string>
  {
    set a', b', k' | 0 <= a' <= SingleLimit && 0 <= b' <= SingleLimit && 0 <= k' < |Ops|
                     && (a' < a || (a' == a && (b' < b || (b' == b && k' < k))))
                     && Single(a', b', Ops[k']).Some?
      :: Single(a', b', Ops[k']).value
  }

  /** The two-operator candidate at operand values `a, b, c` and operator
      indices `i, j`. */
  function DoubleAt(a: nat, b: nat, c: nat, i: nat, j: nat): Option<string>
  {
    if i < |Ops| && j < |Ops| then Double(a, b, c, Ops[i], Ops[j]) else None
  }

  /** Loop position `(a', b', c', i', j')` comes before `(a, b, c, i, j)`. */
  predicate DoubleEarlier(a': int, b': int, c': int, i': int, j': int, a: int, b: int, c: int, i: int, j: int)
  {
    a' < a || (a' == a && (b' < b || (b' == b && (c' < c || (c' == c && (i' < i || (i' == i && j' < j)))))))
  }

  /** The candidates `at` yields at loop positions before `(a, b, c, i, j)`. */
  ghost function DoublesBefore(at: (nat, nat, nat, nat, nat) -> Option<string>, a: nat, b: nat, c: nat, i: nat, j: nat): set<string>
  {
    set a', b', c', i', j' | 0 <= a' <= DoubleLimit && 0 <= b' <= DoubleLimit && 0 <= c' <= DoubleLimit
                             && 0 <= i' < |Ops| && 0 <= j' < |Ops|
                             && DoubleEarlier(a', b', c', i', j', a, b, c, i, j) && at(a', b', c', i', j').Some?
      :: at(a', b', c', i', j').value
  }

  /** `e` is yielded by `at` at some position of the two-operator loops. */
  ghost predicate ProducedBy(at: (nat, nat, nat, nat, nat) -> Option<string>, e: string)
  {
    exists a, b, c, i, j :: 0 <= a <= DoubleLimit && 0 <= b <= DoubleLimit && 0 <= c <= DoubleLimit
      && 0 <= i < |Ops| && 0 <= j < |Ops| && at(a, b, c, i, j) == Some(e)
  }

  function AsSet(o: Option<string>): set<string>
  {
    if o.Some? then {o.value} else {}
  }

  lemma SinglesStep(a: nat, b: nat, k: nat)
    requires a <= SingleLimit && b <= SingleLimit && k < |Ops|
    ensures SinglesBefore(a, b, k + 1) == SinglesBefore(a, b, k) + AsSet(Single(a, b, Ops[k]))
  {
    forall e | e in SinglesBefore(a, b, k + 1) ensures e in SinglesBefore(a, b, k) + AsSet(Single(a, b, Ops[k])) {
      var a', b', k' :| 0 <= a' <= SingleLimit && 0 <= b' <= SingleLimit && 0 <= k' < |Ops|
                        && (a' < a || (a' == a && (b' < b || (b' == b && k' < k + 1))))
                        && Single(a', b', Ops[k']).Some? && e == Single(a', b', Ops[k']).value;
      if a' == a && b' == b && k' == k {
        assert e in AsSet(Single(a, b, Ops[k]));
      } else {
        assert e in SinglesBefore(a, b, k);
      }
    }
  }

  lemma DoublesStep(at: (nat, nat, nat, nat, nat) -> Option<string>, a: nat, b: nat, c: nat, i: nat, j: nat)
    requires a <= DoubleLimit && b <= DoubleLimit && c <= DoubleLimit && i < |Ops| && j < |Ops|
    ensures DoublesBefore(at, a, b, c, i, j + 1) == DoublesBefore(at, a, b, c, i, j) + AsSet(at(a, b, c, i, j))
  {
    var before, after := DoublesBefore(at, a, b, c, i, j), DoublesBefore(at, a, b, c, i, j + 1);
    forall a': nat, b': nat, c': nat, i': nat, j': nat |
      a' <= DoubleLimit && b' <= DoubleLimit && c' <= DoubleLimit && i' < |Ops| && j' < |Ops| && at(a', b', c', i', j').Some?
      ensures DoubleEarlier(a', b', c', i', j', a, b, c, i, j + 1) ==>
                at(a', b', c', i', j').value in before + AsSet(at(a, b, c, i, j))
      ensures DoubleEarlier(a', b', c', i', j', a, b, c, i, j) ==> at(a', b', c', i', j').value in after
    {
      if DoubleEarlier(a', b', c', i', j', a, b, c, i, j + 1) && !(a' == a && b' == b && c' == c && i' == i && j' == j) {
        assert DoubleEarlier(a', b', c', i', j', a, b, c, i, j);
      }
    }
    if at(a, b, c, i, j).Some? {
      assert DoubleEarlier(a, b, c, i, j, a, b, c, i, j + 1);
      assert at(a, b, c, i, j).value in after;
    }
  }

  lemma AllSingles(e: string)
    ensures e in SinglesBefore(SingleLimit + 1, 0, 0) <==> IsSingle(e)
  {
    if IsSingle(e) {
      var a, b, k :| 0 <= a <= SingleLimit && 0 <= b <= SingleLimit && 0 <= k < |Ops| && Single(a, b, Ops[k]) == Some(e);
      assert Single(a, b, Ops[k]).value in SinglesBefore(SingleLimit + 1, 0, 0);
    }
  }

  lemma AllDoubles(at: (nat, nat, nat, nat, nat) -> Option<string>, e: string)
    ensures e in DoublesBefore(at, DoubleLimit + 1, 0, 0, 0, 0) <==> ProducedBy(at, e)
  {
    var all := DoublesBefore(at, DoubleLimit + 1, 0, 0, 0, 0);
    forall a: nat, b: nat, c: nat, i: nat, j: nat |
      a <= DoubleLimit && b <= DoubleLimit && c <= DoubleLimit && i < |Ops| && j < |Ops| && at(a, b, c, i, j).Some?
      ensures at(a, b, c, i, j).value in all
    {
      assert DoubleEarlier(a, b, c, i, j, DoubleLimit + 1, 0, 0, 0, 0);
    }
  }

  /** The one-operator loops: every `a op b` with operands up to the single
      limit is tried, and each kept candidate not yet listed is added to `list`. */
  method AddSingles(list: seq<string>) returns (result: seq<string>)
    requires Distinct(list)
    ensures Distinct(result)
    ensures forall e :: e in result <==> e in list || IsSingle(e)
  {
    result := list;
    for a := 0 to SingleLimit + 1
      invariant Distinct(result)
      invariant forall e :: e in result <==> e in list || e in SinglesBefore(a, 0, 0)
    {
      for b := 0 to SingleLimit + 1
        invariant Distinct(result)
        invariant forall e :: e in result <==> e in list || e in SinglesBefore(a, b, 0)
      {
        for k := 0 to |Ops|
          invariant Distinct(result)
          invariant forall e :: e in result <==> e in list || e in SinglesBefore(a, b, k)
        {
          SinglesStep(a, b, k);
          var candidate := Single(a, b, Ops[k]);
          if candidate.Some? {
            result := Insert(result, candidate.value);
          }
        }
        assert SinglesBefore(a, b, |Ops|) == SinglesBefore(a, b + 1, 0);
      }
      assert SinglesBefore(a, SingleLimit + 1, 0) == SinglesBefore(a + 1, 0, 0);
    }
    forall e ensures e in SinglesBefore(SingleLimit + 1, 0, 0) <==> IsSingle(e) {
      AllSingles(e);
    }
  }

  /** The two operator loops for one operand triple `(a, b, c)`: each kept
      candidate not yet listed is added. */
  method AddDoublesAt(list: seq<string>, a: nat, b: nat, c: nat, base: seq<string>) returns (result: seq<string>)
    requires a <= DoubleLimit && b <= DoubleLimit && c <= DoubleLimit
    requires Distinct(list)
    requires forall e :: e in list <==> e in base || e in DoublesBefore(DoubleAt, a, b, c, 0, 0)
    ensures Distinct(result)
    ensures forall e :: e in result <==> e in base || e in DoublesBefore(DoubleAt, a, b, c + 1, 0, 0)
  {
    result := list;
    for i := 0 to |Ops|
      invariant Distinct(result)
      invariant forall e :: e in result <==> e in base || e in DoublesBefore(DoubleAt, a, b, c, i, 0)
    {
      result := AddDoublesWith(result, a, b, c, i, base);
      assert DoublesBefore(DoubleAt, a, b, c, i, |Ops|) == DoublesBefore(DoubleAt, a, b, c, i + 1, 0);
    }
    assert DoublesBefore(DoubleAt, a, b, c, |Ops|, 0) == DoublesBefore(DoubleAt, a, b, c + 1, 0, 0);
  }

  /** The inner operator loop for `(a, b, c)` and first operator `Ops[i]`. */
  method AddDoublesWith(list: seq<string>, a: nat, b: nat, c: nat, i: nat, base: seq<string>) returns (result: seq<string>)
    requires a <= DoubleLimit && b <= DoubleLimit && c <= DoubleLimit && i < |Ops|
    requires Distinct(list)
    requires forall e :: e in list <==> e in base || e in DoublesBefore(DoubleAt, a, b, c, i, 0)
    ensures Distinct(result)
    ensures forall e :: e in result <==> e in base || e in DoublesBefore(DoubleAt, a, b, c, i, |Ops|)
  {
    result := list;
    for j := 0 to |Ops|
      invariant Distinct(result)
      invariant forall e :: e in result <==> e in base || e in DoublesBefore(DoubleAt, a, b, c, i, j)
    {
      DoublesStep(DoubleAt, a, b, c, i, j);
      var candidate := Double(a, b, c, Ops[i], Ops[j]);
      assert candidate == DoubleAt(a, b, c, i, j);
      if candidate.Some? {
        result := Insert(result, candidate.value);
      }
    }
  }

  /** The two-operator loops: every `a op1 b op2 c` with operands up to the
      double limit is tried, and each kept candidate not yet listed is added
      to `list`. */
  method AddDoubles(list: seq<string>) returns (result: seq<string>)
    requires Distinct(list)
    ensures Distinct(result)
    ensures forall e :: e in result <==> e in list || IsDouble(e)
  {
    result := list;
    for a := 0 to DoubleLimit + 1
      invariant Distinct(result)
      invariant forall e :: e in result <==> e in list || e in DoublesBefore(DoubleAt, a, 0, 0, 0, 0)
    {
      for b := 0 to DoubleLimit + 1
        invariant Distinct(result)
        invariant forall e :: e in result <==> e in list || e in DoublesBefore(DoubleAt, a, b, 0, 0, 0)
      {
        for c := 0 to DoubleLimit + 1
          invariant Distinct(result)
          invariant forall e :: e in result <==> e in list || e in DoublesBefore(DoubleAt, a, b, c, 0, 0)
        {
          result := AddDoublesAt(result, a, b, c, list);
        }
        assert DoublesBefore(DoubleAt, a, b, DoubleLimit + 1, 0, 0) == DoublesBefore(DoubleAt, a, b + 1, 0, 0, 0);
      }
      assert DoublesBefore(DoubleAt, a, DoubleLimit + 1, 0, 0, 0) == DoublesBefore(DoubleAt, a + 1, 0, 0, 0, 0);
    }
    forall e ensures e in DoublesBefore(DoubleAt, DoubleLimit + 1, 0, 0, 0, 0) <==> IsDouble(e) {
      AllDoubles(DoubleAt, e);
    }
  }

  /** `generate`: the list holds every candidate of both kinds once, and
      each of them is an equation the game accepts. */
  method Generate() returns (list: seq<string>)
    ensures Distinct(list)
    ensures forall e :: e in list <==> IsSingle(e) || IsDouble(e)
    ensures forall e :: e in list ==> IsValidEquation(e) == Valid
  {
    list := AddSingles([]);
    list := AddDoubles(list);
    forall e | e in list ensures IsValidEquation(e) == Valid {
      GeneratedAccepted(e);
    }
  }
}
