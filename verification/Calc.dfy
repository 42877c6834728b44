/** calc.c: the recursive-descent evaluator over `int64_t`, with its cursor as an out-parameter. */
module Calc {
  import opened Digits
  import opened CalcGrammar
  import opened CalcParser

  newtype int64 = x: int | -0x8000_0000_0000_0000 <= x <= 0x7FFF_FFFF_FFFF_FFFF

  method SkipSpacesFrom(s: Text, i: nat) returns (p: nat)
    requires i <= |s|
    ensures p == Skip(s, i)
  {
    p := i;
    while At(s, p) == ' '
      invariant i <= p <= |s| && Skip(s, p) == Skip(s, i)
      decreases |s| - p
    {
      p := p + 1;
    }
  }

  /** The out-parameters change only on success. */
  ghost predicate Returns(r: int, next: nat, out: int64, spec: Parse) {
    if spec.Ok? then r == 0 && next == spec.next && out as int == spec.v else r == -1
  }

  method ParseNumberAt(s: Text, i: nat) returns (r: int, next: nat, out: int64)
    requires i <= |s| && !ParseNumber(s, i).Ovf?
    ensures Returns(r, next, out, ParseNumber(s, i))
  {
    r, next, out := -1, i, 0;
    var value: int64 := 0;
    var digitCount := 0;
    var p := SkipSpacesFrom(s, i);
    if At(s, p) < '0' || At(s, p) > '9' {
      return;
    }
    while '0' <= At(s, p) <= '9'
      invariant p <= |s| && 0 <= value && NumberLoop(s, p, value as int) == ParseNumber(s, i)
      invariant digitCount == 0 ==> IsDigit(At(s, p))
      decreases |s| - p
    {
      value := value * 10 + DigitValue(At(s, p)) as int64;
      p := p + 1;
      digitCount := digitCount + 1;
    }
    if digitCount == 0 {
      return;
    }
    return 0, p, value;
  }

  /** The result in plain arithmetic: quotients truncate, remainders take the dividend's sign. */
  ghost predicate Computes(op: char, a: int, b: int, n: int) {
    && (op == '+' ==> n == a + b)
    && (op == '-' ==> n == a - b)
    && (op == '*' ==> n == a * b)
    && (op == '/' ==> b != 0 && exists m :: Divides(a, b, n, m))
    && (op == '%' ==> b != 0 && exists q :: Divides(a, b, q, n))
  }

  method ApplyOp(left: int64, right: int64, op: char) returns (r: int, out: int64)
    requires !Apply(op, left as int, right as int).Overflow?
    ensures Apply(op, left as int, right as int) == if r == 0 then Value(out as int) else Failure
    ensures r == 0 || r == -1
    ensures r == -1 <==> !(op in ['+', '-', '*', '/', '%']) || (right == 0 && (op == '/' || op == '%'))
    ensures r == 0 ==> Computes(op, left as int, right as int, out as int)
  {
    r, out := 0, left;
    match op
    case '+' => out := left + right;
    case '-' => out := left - right;
    case '*' => out := left * right;
    case '/' =>
      if right == 0 {
        return -1, left;
      }
      out := TruncDiv(left as int, right as int) as int64;
      assert Divides(left as int, right as int, out as int, TruncRem(left as int, right as int));
    case '%' =>
      if right == 0 {
        return -1, left;
      }
      out := TruncRem(left as int, right as int) as int64;
      assert Divides(left as int, right as int, TruncDiv(left as int, right as int), out as int);
    case _ => r := -1;
  }

  method ParseFactorAt(s: Text, i: nat) returns (r: int, next: nat, out: int64)
    requires i <= |s| && !ParseFactor(s, i).Ovf?
    ensures Returns(r, next, out, ParseFactor(s, i))
    decreases |s| - i, 0
  {
    next, out := i, 0;
    var p := SkipSpacesFrom(s, i);
    if At(s, p) == '(' {
      var e, q, inner := ParseExprAt(s, p + 1);
      if e != 0 {
        return -1, i, 0;
      }
      q := SkipSpacesFrom(s, q);
      if At(s, q) != ')' {
        return -1, i, 0;
      }
      return 0, q + 1, inner;
    }
    if At(s, p) == '+' || At(s, p) == '-' {
      var sign := At(s, p);
      var e, q, value := ParseFactorAt(s, p + 1);
      if e != 0 {
        return -1, i, 0;
      }
      return 0, q, if sign == '-' then -value else value;
    }
    r, next, out := ParseNumberAt(s, p);
  }

  /** Parsing a term from `i` has come to `p`, with the value `left` in hand. */
  ghost predicate TermAt(s: Text, i: nat, p: nat, left: int) {
    && i < p <= |s| && INT64_MIN <= left <= INT64_MAX
    && TermLoop(s, p, left) == ParseTerm(s, i) && !ParseTerm(s, i).Ovf?
  }

  lemma TermEnds(s: Text, i: nat, p: nat, left: int)
    requires TermAt(s, i, p, left) && !IsMultiplicative(At(s, Skip(s, p)))
    ensures ParseTerm(s, i) == Ok(left, Skip(s, p))
  {
  }

  /** Another operator and factor: an error ends the term, and a value takes its place. */
  lemma TermGoesOn(s: Text, i: nat, p: nat, left: int, r: Parse)
    requires TermAt(s, i, p, left) && IsMultiplicative(At(s, Skip(s, p)))
    requires r == ThenApply(At(s, Skip(s, p)), left, ParseFactor(s, Skip(s, p) + 1))
    ensures if r.Ok? then TermAt(s, i, r.next, r.v) else r.Err? && ParseTerm(s, i) == Err
  {
  }

  /** A factor and the operator in front of it. */
  method ApplyFactor(s: Text, p: nat, op: char, left: int64, ghost spec: Parse) returns (r: int, next: nat, out: int64)
    requires p <= |s| && spec == ThenApply(op, left as int, ParseFactor(s, p)) && !spec.Ovf?
    ensures Returns(r, next, out, spec)
    decreases |s| - p, 1
  {
    r, next, out := ParseFactorAt(s, p);
    if r == 0 {
      r, out := ApplyOp(left, out, op);
    }
  }

  /** The operator and the factor that follow: an error ends the term, and a value takes its place. */
  method NextFactor(s: Text, ghost i: nat, ghost p: nat, q: nat, left: int64) returns (r: int, next: nat, out: int64)
    requires TermAt(s, i, p, left as int) && q == Skip(s, p) && IsMultiplicative(At(s, q))
    ensures if r == 0 then q < next && TermAt(s, i, next, out as int) else r == -1 && ParseTerm(s, i) == Err
    decreases |s| - q, 0
  {
    ghost var spec := ThenApply(At(s, q), left as int, ParseFactor(s, q + 1));
    TermGoesOn(s, i, p, left as int, spec);
    r, next, out := ApplyFactor(s, q + 1, At(s, q), left, spec);
  }

  /** One turn of the loop in `calc_parse_term`; `more` says whether another one follows. */
  method TermTurnAt(s: Text, ghost i: nat, p: nat, left: int64) returns (more: bool, r: int, next: nat, out: int64)
    requires TermAt(s, i, p, left as int)
    ensures if more then p < next && TermAt(s, i, next, out as int) else Returns(r, next, out, ParseTerm(s, i))
    decreases |s| - p, 1
  {
    var q := SkipSpacesFrom(s, p);
    var op := At(s, q);
    if op != '*' && op != '/' && op != '%' {
      TermEnds(s, i, p, left as int);
      return false, 0, q, left;
    }
    r, next, out := NextFactor(s, i, p, q, left);
    more := r == 0;
  }

  method ParseTermAt(s: Text, i: nat) returns (r: int, next: nat, out: int64)
    requires i <= |s| && !ParseTerm(s, i).Ovf?
    ensures Returns(r, next, out, ParseTerm(s, i))
    decreases |s| - i, 2
  {
    r, next, out := ParseFactorAt(s, i);
    var more := r == 0;
    while more
      invariant if more then TermAt(s, i, next, out as int) else Returns(r, next, out, ParseTerm(s, i))
      decreases if more then |s| + 1 - next else 0
    {
      more, r, next, out := TermTurnAt(s, i, next, out);
    }
  }

  method ParseExprAt(s: Text, i: nat) returns (r: int, next: nat, out: int64)
    requires i <= |s| && !ParseExpr(s, i).Ovf?
    ensures Returns(r, next, out, ParseExpr(s, i))
    decreases |s| - i, 3
  {
    r, next, out := -1, i, 0;
    var e, p, left := ParseTermAt(s, i);
    if e != 0 {
      return;
    }
    while true
      invariant i < p <= |s| && ExprLoop(s, p, left as int) == ParseExpr(s, i)
      decreases |s| - p
    {
      p := SkipSpacesFrom(s, p);
      var op := At(s, p);
      if op != '+' && op != '-' {
        break;
      }
      var f, q, right := ParseTermAt(s, p + 1);
      if f != 0 {
        return;
      }
      p := q;
      var a, v := ApplyOp(left, right, op);
      if a != 0 {
        return;
      }
      left := v;
    }
    return 0, p, left;
  }

  /**
   * Unless an intermediate result overflows (undefined in C), returns 0 and the value of the expression,
   * or -1 when the string is not an expression or divides by zero.
   */
  method CalcEvaluate(expression: Text) returns (r: int, value: int64)
    requires !Evaluate(expression).Overflow?
    ensures r == 0 || r == -1
    ensures Evaluate(expression) == if r == 0 then Value(value as int) else Failure
  {
    var e, p, v := ParseExprAt(expression, 0);
    if e != 0 {
      return -1, 0;
    }
    p := SkipSpacesFrom(expression, p);
    if At(expression, p) != '\0' {
      return -1, 0;
    }
    return 0, v;
  }
}
