/** What the recursive-descent parser of calc.c computes, and that it recognises the grammar exactly. */
module CalcParser {
  import opened Digits
  import opened CalcGrammar

  /** A C string without its terminating zero. */
  type Text = s: string | forall i :: 0 <= i < |s| ==> s[i] != '\0'

  function At(s: Text, i: nat): char {
    if i < |s| then s[i] else '\0'
  }

  /** First position from `i` on that is not a space. */
  function Skip(s: Text, i: nat): (j: nat)
    requires i <= |s|
    ensures i <= j <= |s| && At(s, j) != ' '
    ensures forall k :: i <= k < j ==> s[k] == ' '
    decreases |s| - i
  {
    if At(s, i) == ' ' then Skip(s, i + 1) else i
  }

  /** A parsed value and the position behind it, or why there is none. */
  datatype Parse = Ok(v: int, next: nat) | Err | Ovf

  function Lift(r: Result, next: nat): Parse {
    match r
    case Value(v) => Ok(v, next)
    case Failure => Err
    case Overflow => Ovf
  }

  /** The digits from `p` on, appended to a value already read. */
  function NumberLoop(s: Text, p: nat, value: nat): (r: Parse)
    requires p <= |s| && value <= INT64_MAX
    ensures r.Ok? ==> p <= r.next <= |s| && 0 <= r.v <= INT64_MAX
    decreases |s| - p
  {
    if !IsDigit(At(s, p)) then Ok(value, p)
    else if value * 10 + DigitValue(At(s, p)) > INT64_MAX then Ovf
    else NumberLoop(s, p + 1, value * 10 + DigitValue(At(s, p)))
  }

  function ParseNumber(s: Text, i: nat): (r: Parse)
    requires i <= |s|
    ensures r.Ok? ==> i < r.next <= |s| && 0 <= r.v <= INT64_MAX
  {
    var p := Skip(s, i);
    if !IsDigit(At(s, p)) then Err
    else NumberLoop(s, p, 0)
  }

  /** Apply an operator to the value in hand and an operand just parsed; an error of either ends the parse. */
  function ThenApply(op: char, left: int, right: Parse): (r: Parse)
    ensures r.Ok? ==> right.Ok? && r.next == right.next && INT64_MIN <= r.v <= INT64_MAX
  {
    if right.Ok? then Lift(Apply(op, left, right.v), right.next) else right
  }

  function ParseFactor(s: Text, i: nat): (r: Parse)
    requires i <= |s|
    ensures r.Ok? ==> i < r.next <= |s| && INT64_MIN <= r.v <= INT64_MAX
    decreases |s| - i, 0
  {
    var p := Skip(s, i);
    if At(s, p) == '(' then
      var inner := ParseExpr(s, p + 1);
      if !inner.Ok? then inner
      else
        var q := Skip(s, inner.next);
        if At(s, q) != ')' then Err else Ok(inner.v, q + 1)
    else if IsAdditive(At(s, p)) then
      var operand := ParseFactor(s, p + 1);
      if operand.Ok? && At(s, p) == '-' then Lift(Fit(-operand.v), operand.next) else operand
    else ParseNumber(s, p)
  }

  function ParseTerm(s: Text, i: nat): (r: Parse)
    requires i <= |s|
    ensures r.Ok? ==> i < r.next <= |s| && INT64_MIN <= r.v <= INT64_MAX
    decreases |s| - i, 2
  {
    var first := ParseFactor(s, i);
    if first.Ok? then TermLoop(s, first.next, first.v) else first
  }

  function TermLoop(s: Text, p: nat, left: int): (r: Parse)
    requires p <= |s| && INT64_MIN <= left <= INT64_MAX
    ensures r.Ok? ==> p <= r.next <= |s| && At(s, r.next) != ' ' && INT64_MIN <= r.v <= INT64_MAX
    decreases |s| - p, 1
  {
    var q := Skip(s, p);
    if !IsMultiplicative(At(s, q)) then Ok(left, q)
    else
      var r := ThenApply(At(s, q), left, ParseFactor(s, q + 1));
      if r.Ok? then TermLoop(s, r.next, r.v) else r
  }

  function ParseExpr(s: Text, i: nat): (r: Parse)
    requires i <= |s|
    ensures r.Ok? ==> i < r.next <= |s| && At(s, r.next) != ' ' && INT64_MIN <= r.v <= INT64_MAX
    decreases |s| - i, 4
  {
    var first := ParseTerm(s, i);
    if first.Ok? then ExprLoop(s, first.next, first.v) else first
  }

  function ExprLoop(s: Text, p: nat, left: int): (r: Parse)
    requires p <= |s| && INT64_MIN <= left <= INT64_MAX
    ensures r.Ok? ==> p <= r.next <= |s| && At(s, r.next) != ' ' && INT64_MIN <= r.v <= INT64_MAX
    decreases |s| - p, 3
  {
    var q := Skip(s, p);
    if !IsAdditive(At(s, q)) then Ok(left, q)
    else
      var r := ThenApply(At(s, q), left, ParseTerm(s, q + 1));
      if r.Ok? then ExprLoop(s, r.next, r.v) else r
  }

  /** `calc_evaluate`: an expression, trailing spaces, and nothing else. */
  function Evaluate(s: Text): Result {
    var r := ParseExpr(s, 0);
    match r
    case Ok(v, next) => if Skip(s, next) == |s| then Value(v) else Failure
    case Err => Failure
    case Ovf => Overflow
  }

  // ----- Text positions -----

  /** The characters of `t` stand in `s` from position `i` on. */
  predicate Occurs(s: Text, i: nat, t: string)
    decreases |t|
  {
    if t == [] then i <= |s| else i < |s| && s[i] == t[0] && Occurs(s, i + 1, t[1..])
  }

  lemma {:induction false} OccursIsSlice(s: Text, i: nat, t: string)
    ensures Occurs(s, i, t) <==> i + |t| <= |s| && s[i..i + |t|] == t
    decreases |t|
  {
    if t == [] {
    } else {
      OccursIsSlice(s, i + 1, t[1..]);
      if i + |t| <= |s| {
        assert s[i..i + |t|] == [s[i]] + s[i + 1..i + |t|];
        assert t == [t[0]] + t[1..];
      }
    }
  }

  lemma OccursConcat(s: Text, i: nat, a: string, b: string)
    ensures Occurs(s, i, a + b) <==> Occurs(s, i, a) && Occurs(s, i + |a|, b)
    ensures Occurs(s, i, a) ==> i + |a| <= |s|
    ensures Occurs(s, i + |a|, b) ==> i + |a| + |b| <= |s|
  {
    OccursIsSlice(s, i, a);
    OccursIsSlice(s, i + |a|, b);
    OccursIsSlice(s, i, a + b);
    if i + |a| + |b| <= |s| {
      assert s[i..i + |a + b|] == s[i..i + |a|] + s[i + |a|..i + |a| + |b|];
      assert a == (a + b)[..|a|] && b == (a + b)[|a|..];
    }
  }

  lemma {:induction false} SkipSpaces(s: Text, i: nat, n: nat)
    requires Occurs(s, i, Spaces(n)) && At(s, i + n) != ' '
    ensures i + n <= |s| && Skip(s, i) == i + n
    decreases n
  {
    if n == 0 {
    } else {
      assert Spaces(n)[1..] == Spaces(n - 1);
      SkipSpaces(s, i + 1, n - 1);
    }
  }

  /** What `Skip` jumped over are spaces. */
  lemma {:induction false} SkippedAreSpaces(s: Text, i: nat)
    requires i <= |s|
    ensures Occurs(s, i, Spaces(Skip(s, i) - i))
    decreases |s| - i
  {
    if At(s, i) == ' ' {
      SkippedAreSpaces(s, i + 1);
    }
  }

  /** The steps of `calc_parse_factor`, one lemma for each of its branches. */
  lemma ParenStep(s: Text, i: nat, inner: Result, j: nat)
    requires i <= |s| && j <= |s| && (inner.Value? ==> INT64_MIN <= inner.v <= INT64_MAX)
    requires At(s, Skip(s, i)) == '(' && ParseExpr(s, Skip(s, i) + 1) == ExprThen(inner, s, j)
    requires At(s, Skip(s, j)) == ')'
    ensures ParseFactor(s, i) == Lift(inner, Skip(s, j) + 1)
  {
  }

  lemma SignStep(s: Text, i: nat, operand: Result, j: nat)
    requires i <= |s| && j <= |s| && (operand.Value? ==> INT64_MIN <= operand.v <= INT64_MAX)
    requires IsAdditive(At(s, Skip(s, i))) && ParseFactor(s, Skip(s, i) + 1) == Lift(operand, j)
    ensures ParseFactor(s, i) == Lift(if At(s, Skip(s, i)) == '-' then Negate(operand) else operand, j)
  {
  }

  lemma NumberStep(s: Text, i: nat)
    requires i <= |s| && IsDigit(At(s, Skip(s, i)))
    ensures ParseFactor(s, i) == NumberLoop(s, Skip(s, i), 0)
  {
  }

  // ----- Every text of the grammar is parsed to its value -----

  lemma {:induction false} MoreDigitsAreMore(pre: string, ds: string)
    requires AllDigits(pre + ds) && AllDigits(pre)
    ensures DecimalValue(pre) <= DecimalValue(pre + ds)
    decreases |ds|
  {
    if ds == [] {
      assert pre + ds == pre;
    } else {
      var front := ds[..|ds| - 1];
      assert (pre + ds)[..|pre + ds| - 1] == pre + front;
      MoreDigitsAreMore(pre, front);
    }
  }

  lemma {:induction false} NumberComplete(s: Text, p: nat, pre: string, ds: string)
    requires AllDigits(pre + ds) && AllDigits(pre) && DecimalValue(pre) <= INT64_MAX
    requires Occurs(s, p, ds) && !IsDigit(At(s, p + |ds|))
    ensures NumberLoop(s, p, DecimalValue(pre)) == Lift(Fit(DecimalValue(pre + ds)), p + |ds|)
    decreases |ds|
  {
    if ds == [] {
      assert pre + ds == pre;
    } else {
      var longer := pre + [ds[0]];
      assert longer[..|pre|] == pre && pre + ds == longer + ds[1..];
      assert At(s, p) == ds[0] == (pre + ds)[|pre|];
      assert AllDigits(longer);
      assert DecimalValue(longer) == DecimalValue(pre) * 10 + DigitValue(ds[0]);
      if DecimalValue(longer) > INT64_MAX {
        MoreDigitsAreMore(longer, ds[1..]);
      } else {
        NumberComplete(s, p + 1, longer, ds[1..]);
      }
    }
  }

  /** What follows a factor must not extend its digits. */
  predicate Follows(s: Text, j: nat) {
    !IsDigit(At(s, j))
  }

  /** Continue with a parsed value, or stop with its error. */
  function TermThen(r: Result, s: Text, j: nat): Parse
    requires j <= |s| && (r.Value? ==> INT64_MIN <= r.v <= INT64_MAX)
  {
    if r.Value? then TermLoop(s, j, r.v) else Lift(r, 0)
  }

  function ExprThen(r: Result, s: Text, j: nat): Parse
    requires j <= |s| && (r.Value? ==> INT64_MIN <= r.v <= INT64_MAX)
  {
    if r.Value? then ExprLoop(s, j, r.v) else Lift(r, 0)
  }

  /** A token that occurs is found behind its spaces, and no digit precedes it. */
  lemma TokenFound(s: Text, i: nat, n: nat, c: char)
    requires Occurs(s, i, Token(n, c)) && c != ' '
    ensures i + n < |s| && Skip(s, i) == i + n && At(s, i + n) == c
    ensures !IsDigit(c) ==> Follows(s, i)
  {
    OccursConcat(s, i, Spaces(n), [c]);
    SkipSpaces(s, i, n);
  }

  lemma NumberFactor(s: Text, i: nat, sp: nat, ds: string, end: nat)
    requires ds != [] && AllDigits(ds) && Occurs(s, i, Spaces(sp) + ds)
    requires end == i + sp + |ds| <= |s| && Follows(s, end)
    ensures ParseFactor(s, i) == Lift(Fit(DecimalValue(ds)), end)
  {
    OccursConcat(s, i, Spaces(sp), ds);
    SkipSpaces(s, i, sp);
    assert [] + ds == ds;
    NumberComplete(s, i + sp, [], ds);
    NumberStep(s, i);
  }

  lemma ParenParts(s: Text, i: nat, sp: nat, inner: string, close: nat, j: nat, end: nat)
    requires Occurs(s, i, Token(sp, '(') + (inner + Token(close, ')')))
    requires j == i + sp + 1 + |inner| && end == j + close + 1
    ensures Skip(s, i) == i + sp && At(s, i + sp) == '(' && Occurs(s, i + sp + 1, inner)
    ensures end <= |s| && Follows(s, j) && Skip(s, j) == j + close && At(s, j + close) == ')'
  {
    OccursConcat(s, i, Token(sp, '('), inner + Token(close, ')'));
    OccursConcat(s, i + sp + 1, inner, Token(close, ')'));
    TokenFound(s, i, sp, '(');
    TokenFound(s, j, close, ')');
  }

  lemma SignParts(s: Text, i: nat, sp: nat, sign: char, operand: string)
    requires Occurs(s, i, Token(sp, sign) + operand) && IsAdditive(sign)
    ensures i + sp < |s| && Skip(s, i) == i + sp && At(s, i + sp) == sign && Occurs(s, i + sp + 1, operand)
  {
    OccursConcat(s, i, Token(sp, sign), operand);
    TokenFound(s, i, sp, sign);
  }

  lemma BinaryParts(s: Text, i: nat, l: string, n: nat, op: char, r: string, j: nat, end: nat)
    requires Occurs(s, i, l + (Token(n, op) + r)) && (IsAdditive(op) || IsMultiplicative(op))
    requires j == i + |l| && end == j + n + 1 + |r|
    ensures Occurs(s, i, l) && j + n < |s| && Follows(s, j) && Skip(s, j) == j + n && At(s, j + n) == op
    ensures Occurs(s, j + n + 1, r) && end <= |s|
  {
    OccursConcat(s, i, l, Token(n, op) + r);
    OccursConcat(s, j, Token(n, op), r);
    TokenFound(s, j, n, op);
  }

  /** The text of a tree stands between `i` and `end`, and no digit follows it. */
  predicate Stands(s: Text, i: nat, c: Syntax, end: nat) {
    Occurs(s, i, Show(c)) && end == i + |Show(c)| <= |s| && Follows(s, end)
  }

  /** Reading the tree from `i` on yields its value or error, and ends at `end`. */
  predicate ReadsFactor(s: Text, i: nat, c: Syntax, end: nat) {
    Derives(ExprSymbol, c) && i <= |s| && end <= |s| && ParseFactor(s, i) == Lift(Eval(c), end)
  }

  /** Reading the tree from `i` on leaves the loop of `calc_parse_term` at `end`, holding its value or error. */
  predicate ReadsTerm(s: Text, i: nat, c: Syntax, end: nat) {
    Derives(ExprSymbol, c) && i <= |s| && end <= |s| && ParseTerm(s, i) == TermThen(Eval(c), s, end)
  }

  /** The same for the loop of `calc_parse_expr`. */
  predicate ReadsExpr(s: Text, i: nat, c: Syntax, end: nat) {
    Derives(ExprSymbol, c) && i <= |s| && end <= |s| && ParseExpr(s, i) == ExprThen(Eval(c), s, end)
  }

  lemma ParenStands(s: Text, i: nat, c: Syntax, j: nat, end: nat)
    requires c.Paren? && Stands(s, i, c, end) && j == i + c.sp + 1 + |Show(c.inner)|
    ensures end == j + c.close + 1 <= |s| && Skip(s, i) == i + c.sp && At(s, i + c.sp) == '('
    ensures Stands(s, i + c.sp + 1, c.inner, j) && Skip(s, j) == j + c.close && At(s, j + c.close) == ')'
  {
    ParenParts(s, i, c.sp, Show(c.inner), c.close, j, end);
  }

  lemma ParenReads(s: Text, i: nat, c: Syntax, j: nat, end: nat)
    requires Derives(ExprSymbol, c) && c.Paren? && i <= |s| && end == j + c.close + 1 <= |s|
    requires Skip(s, i) == i + c.sp && At(s, i + c.sp) == '(' && ReadsExpr(s, i + c.sp + 1, c.inner, j)
    requires Skip(s, j) == j + c.close && At(s, j + c.close) == ')'
    ensures ReadsFactor(s, i, c, end)
  {
    ParenStep(s, i, Eval(c.inner), j);
  }

  /** The sign in front of a factor. */
  function SignOf(c: Syntax): char
    requires c.Signed?
  {
    if c.minus then '-' else '+'
  }

  lemma SignedStands(s: Text, i: nat, c: Syntax, end: nat)
    requires c.Signed? && Stands(s, i, c, end)
    ensures Skip(s, i) == i + c.sp && At(s, i + c.sp) == SignOf(c) && Stands(s, i + c.sp + 1, c.operand, end)
  {
    SignParts(s, i, c.sp, SignOf(c), Show(c.operand));
  }

  lemma SignedReads(s: Text, i: nat, c: Syntax, end: nat)
    requires Derives(ExprSymbol, c) && c.Signed? && i <= |s|
    requires Skip(s, i) == i + c.sp && At(s, i + c.sp) == SignOf(c) && ReadsFactor(s, i + c.sp + 1, c.operand, end)
    ensures ReadsFactor(s, i, c, end)
  {
    SignStep(s, i, Eval(c.operand), end);
  }

  lemma {:induction false} FactorComplete(s: Text, i: nat, c: Syntax, end: nat)
    requires Derives(FactorSymbol, c) && Derives(ExprSymbol, c) && Stands(s, i, c, end)
    ensures ReadsFactor(s, i, c, end)
    decreases c, 0
  {
    match c
    case Number(sp, ds) =>
      NumberFactor(s, i, sp, ds, end);
    case Paren(sp, inner, close) =>
      var j := i + sp + 1 + |Show(inner)|;
      ParenStands(s, i, c, j, end);
      ExprComplete(s, i + sp + 1, inner, j);
      ParenReads(s, i, c, j, end);
    case Signed(sp, _, operand) =>
      DerivesWider(operand);
      SignedStands(s, i, c, end);
      FactorComplete(s, i + sp + 1, operand, end);
      SignedReads(s, i, c, end);
  }

  /** One turn of the loop in `calc_parse_term`. */
  lemma TermTurn(s: Text, i: nat, l: Result, j: nat, r: Result, end: nat)
    requires i <= |s| && j <= |s| && end <= |s|
    requires (l.Value? ==> INT64_MIN <= l.v <= INT64_MAX) && (r.Value? ==> INT64_MIN <= r.v <= INT64_MAX)
    requires ParseTerm(s, i) == TermThen(l, s, j)
    requires IsMultiplicative(At(s, Skip(s, j))) && ParseFactor(s, Skip(s, j) + 1) == Lift(r, end)
    ensures ParseTerm(s, i) == TermThen(Combine(At(s, Skip(s, j)), l, r), s, end)
  {
  }

  /** One turn of the loop in `calc_parse_expr`. */
  lemma ExprTurn(s: Text, i: nat, l: Result, j: nat, r: Result, end: nat)
    requires i <= |s| && j <= |s| && end <= |s|
    requires (l.Value? ==> INT64_MIN <= l.v <= INT64_MAX) && (r.Value? ==> INT64_MIN <= r.v <= INT64_MAX)
    requires ParseExpr(s, i) == ExprThen(l, s, j)
    requires IsAdditive(At(s, Skip(s, j))) && ParseTerm(s, Skip(s, j) + 1) == TermThen(r, s, end)
    requires !IsMultiplicative(At(s, Skip(s, end)))
    ensures ParseExpr(s, i) == ExprThen(Combine(At(s, Skip(s, j)), l, r), s, end)
  {
    SkipTwice(s, end);
    var v := Combine(At(s, Skip(s, j)), l, r);
    if v.Value? {
      ExprLoopSkips(s, end, v.v);
    }
  }

  lemma ExprLoopSkips(s: Text, p: nat, left: int)
    requires p <= |s| && INT64_MIN <= left <= INT64_MAX
    ensures ExprLoop(s, Skip(s, p), left) == ExprLoop(s, p, left)
  {
  }

  lemma SkipTwice(s: Text, i: nat)
    requires i <= |s|
    ensures Skip(s, Skip(s, i)) == Skip(s, i)
  {
  }

  lemma BinaryDerives(c: Syntax)
    requires Derives(ExprSymbol, c) && c.Binary?
    ensures Derives(ExprSymbol, c.left) && Derives(TermSymbol, c.right) && Derives(ExprSymbol, c.right)
    ensures IsAdditive(c.op) ||
            (IsMultiplicative(c.op) && Derives(TermSymbol, c.left) && Derives(FactorSymbol, c.right))
    ensures Eval(c) == Combine(c.op, Eval(c.left), Eval(c.right))
  {
    DerivesWider(c.left);
    DerivesWider(c.right);
  }

  /** The operator stands behind `n` spaces. */
  predicate OperatorAt(s: Text, j: nat, n: nat, op: char) {
    j + n < |s| && Skip(s, j) == j + n && At(s, j + n) == op
  }

  lemma BinaryStands(s: Text, i: nat, c: Syntax, j: nat, end: nat)
    requires Derives(ExprSymbol, c) && c.Binary? && Stands(s, i, c, end) && j == i + |Show(c.left)|
    ensures Stands(s, i, c.left, j) && OperatorAt(s, j, c.sp, c.op) && Stands(s, j + c.sp + 1, c.right, end)
  {
    BinaryParts(s, i, Show(c.left), c.sp, c.op, Show(c.right), j, end);
  }

  lemma TermBinary(s: Text, i: nat, c: Syntax, j: nat, end: nat)
    requires Derives(ExprSymbol, c) && c.Binary? && IsMultiplicative(c.op)
    requires ReadsTerm(s, i, c.left, j) && OperatorAt(s, j, c.sp, c.op)
    requires ReadsFactor(s, j + c.sp + 1, c.right, end)
    ensures ReadsTerm(s, i, c, end)
  {
    BinaryDerives(c);
    TermTurn(s, i, Eval(c.left), j, Eval(c.right), end);
  }

  lemma ExprBinary(s: Text, i: nat, c: Syntax, j: nat, end: nat)
    requires Derives(ExprSymbol, c) && c.Binary? && IsAdditive(c.op)
    requires ReadsExpr(s, i, c.left, j) && OperatorAt(s, j, c.sp, c.op) && ReadsTerm(s, j + c.sp + 1, c.right, end)
    requires !IsMultiplicative(At(s, Skip(s, end)))
    ensures ReadsExpr(s, i, c, end)
  {
    BinaryDerives(c);
    ExprTurn(s, i, Eval(c.left), j, Eval(c.right), end);
  }

  /** Parsing a term's text. */
  lemma {:induction false} TermComplete(s: Text, i: nat, c: Syntax, end: nat)
    requires Derives(TermSymbol, c) && Derives(ExprSymbol, c) && Stands(s, i, c, end)
    ensures ReadsTerm(s, i, c, end)
    decreases c, 1
  {
    if c.Binary? {
      var j := i + |Show(c.left)|;
      BinaryDerives(c);
      BinaryStands(s, i, c, j, end);
      TermComplete(s, i, c.left, j);
      FactorComplete(s, j + c.sp + 1, c.right, end);
      TermBinary(s, i, c, j, end);
    } else {
      FactorComplete(s, i, c, end);
    }
  }

  /** Parsing an expression's text. */
  lemma {:induction false} ExprComplete(s: Text, i: nat, c: Syntax, end: nat)
    requires Derives(ExprSymbol, c) && Stands(s, i, c, end) && !IsMultiplicative(At(s, Skip(s, end)))
    ensures ReadsExpr(s, i, c, end)
    decreases c, 2
  {
    if c.Binary? && IsAdditive(c.op) {
      var j := i + |Show(c.left)|;
      BinaryDerives(c);
      BinaryStands(s, i, c, j, end);
      ExprComplete(s, i, c.left, j);
      TermComplete(s, j + c.sp + 1, c.right, end);
      ExprBinary(s, i, c, j, end);
    } else {
      TermComplete(s, i, c, end);
      TermIsExpr(s, i, Eval(c), end);
    }
  }

  lemma TermIsExpr(s: Text, i: nat, r: Result, end: nat)
    requires i <= |s| && end <= |s| && (r.Value? ==> INT64_MIN <= r.v <= INT64_MAX)
    requires ParseTerm(s, i) == TermThen(r, s, end) && !IsMultiplicative(At(s, Skip(s, end)))
    ensures ParseExpr(s, i) == ExprThen(r, s, end)
  {
    if r.Value? {
      ExprLoopSkips(s, end, r.v);
    }
  }
}
