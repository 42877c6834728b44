/** Soundness of the calculator's parser, the recogniser theorem, and printing of expression trees. */
module CalcTheorems {
  import opened Digits
  import opened CalcGrammar
  import opened CalcParser

  // ----- Everything parsed is a text of the grammar -----

  /** The tree stands between `i` and `end` and has value `v`. */
  predicate Reads(symbol: Symbol, s: Text, i: nat, c: Syntax, end: nat, v: int) {
    && Derives(symbol, c) && Derives(ExprSymbol, c) && Eval(c) == Value(v)
    && Occurs(s, i, Show(c)) && end == i + |Show(c)|
  }

  lemma OneMoreDigit(s: Text, a: nat, p: nat)
    requires a <= p < |s| && AllDigits(s[a..p]) && IsDigit(s[p])
    ensures AllDigits(s[a..p + 1]) && DecimalValue(s[a..p + 1]) == DecimalValue(s[a..p]) * 10 + DigitValue(s[p])
  {
    var ds := s[a..p + 1];
    assert ds[..|ds| - 1] == s[a..p] && ds[|ds| - 1] == s[p];
  }

  /** The digit loop, with the digits from `a` to `p` read already. */
  lemma {:induction false} DigitsRead(s: Text, a: nat, p: nat, v: nat)
    requires a <= p <= |s| && AllDigits(s[a..p]) && DecimalValue(s[a..p]) == v <= INT64_MAX
    requires NumberLoop(s, p, v).Ok?
    ensures var r := NumberLoop(s, p, v); AllDigits(s[a..r.next]) && DecimalValue(s[a..r.next]) == r.v
    decreases |s| - p
  {
    if IsDigit(At(s, p)) {
      OneMoreDigit(s, a, p);
      DigitsRead(s, a, p + 1, v * 10 + DigitValue(s[p]));
    }
  }

  lemma LoopDigits(s: Text, p: nat)
    requires p <= |s| && IsDigit(At(s, p)) && NumberLoop(s, p, 0).Ok?
    ensures var r := NumberLoop(s, p, 0);
            p < r.next <= |s| && AllDigits(s[p..r.next]) && DecimalValue(s[p..r.next]) == r.v
  {
    assert s[p..p] == [] && DecimalValue(s[p..p]) == 0;
    DigitsRead(s, p, p, 0);
  }

  lemma NumberIs(sp: nat, ds: string)
    requires ds != [] && AllDigits(ds) && DecimalValue(ds) <= INT64_MAX
    ensures var c := Number(sp, ds);
            && Derives(FactorSymbol, c) && Derives(ExprSymbol, c) && Eval(c) == Value(DecimalValue(ds))
            && Show(c) == Spaces(sp) + ds
  {
  }

  lemma SpacedOccurs(s: Text, i: nat, q: nat, t: string)
    requires i <= |s| && q == Skip(s, i) && Occurs(s, q, t)
    ensures Occurs(s, i, Spaces(q - i) + t)
  {
    SkippedAreSpaces(s, i);
    OccursConcat(s, i, Spaces(q - i), t);
  }

  lemma NumberSound(s: Text, i: nat) returns (c: Syntax)
    requires i <= |s| && ParseNumber(s, i).Ok?
    ensures var r := ParseNumber(s, i); Reads(FactorSymbol, s, i, c, r.next, r.v)
  {
    var p, r := Skip(s, i), ParseNumber(s, i);
    var ds := s[p..r.next];
    LoopDigits(s, p);
    c := Number(p - i, ds);
    NumberIs(p - i, ds);
    OccursIsSlice(s, p, ds);
    SpacedOccurs(s, i, p, ds);
  }

  lemma OccursToken(s: Text, i: nat, c: char)
    requires i <= |s| && Skip(s, i) < |s| && At(s, Skip(s, i)) == c
    ensures Occurs(s, i, Token(Skip(s, i) - i, c))
  {
    assert Occurs(s, Skip(s, i) + 1, []);
    SpacedOccurs(s, i, Skip(s, i), [c]);
  }

  /** A tree followed by the spaces the parser skipped behind it. */
  predicate ReadsSpaced(symbol: Symbol, s: Text, i: nat, c: Syntax, n: nat, end: nat, v: int) {
    && Reads(symbol, s, i, c, i + |Show(c)|, v)
    && Occurs(s, i + |Show(c)|, Spaces(n)) && end == i + |Show(c)| + n
  }

  lemma ParenRead(s: Text, i: nat, p: nat, inner: Syntax, n: nat, next: nat) returns (c: Syntax)
    requires i <= p && Derives(ExprSymbol, inner) && Occurs(s, i, Token(p - i, '('))
    requires Occurs(s, p + 1, Show(inner)) && Occurs(s, p + 1 + |Show(inner)|, Spaces(n))
    requires next == p + 1 + |Show(inner)| + n && At(s, next) == ')'
    ensures c == Paren(p - i, inner, n) && Occurs(s, i, Show(c)) && i + |Show(c)| == next + 1
  {
    c := Paren(p - i, inner, n);
    var j := p + 1 + |Show(inner)|;
    OccursConcat(s, j, Spaces(n), ")");
    OccursConcat(s, p + 1, Show(inner), Token(n, ')'));
    OccursConcat(s, i, Token(p - i, '('), Show(inner) + Token(n, ')'));
  }

  /** The case of an opening parenthesis, with the expression behind it read already. */
  lemma ParenSound(s: Text, i: nat, inner: Syntax, n: nat) returns (c: Syntax)
    requires i <= |s| && ParseFactor(s, i).Ok? && At(s, Skip(s, i)) == '('
    requires var r := ParseExpr(s, Skip(s, i) + 1);
             r.Ok? && ReadsSpaced(ExprSymbol, s, Skip(s, i) + 1, inner, n, r.next, r.v)
    ensures var r := ParseFactor(s, i); Reads(FactorSymbol, s, i, c, r.next, r.v)
  {
    var p := Skip(s, i);
    var next := ParseExpr(s, p + 1).next;
    SkipTwice(s, p);
    assert Skip(s, next) == next;
    OccursToken(s, i, '(');
    c := ParenRead(s, i, p, inner, n, next);
  }

  lemma SignedIs(sp: nat, minus: bool, operand: Syntax, v: int)
    requires Derives(FactorSymbol, operand) && Derives(ExprSymbol, operand) && Eval(operand) == Value(v)
    ensures var c := Signed(sp, minus, operand);
            && Derives(FactorSymbol, c) && Derives(ExprSymbol, c) && Eval(c) == Fit(if minus then -v else v)
            && Show(c) == Token(sp, if minus then '-' else '+') + Show(operand)
  {
  }

  /** The case of a sign, with the factor behind it read already. */
  lemma SignedSound(s: Text, i: nat, operand: Syntax) returns (c: Syntax)
    requires i <= |s| && ParseFactor(s, i).Ok? && IsAdditive(At(s, Skip(s, i)))
    requires var r := ParseFactor(s, Skip(s, i) + 1);
             r.Ok? && Reads(FactorSymbol, s, Skip(s, i) + 1, operand, r.next, r.v)
    ensures var r := ParseFactor(s, i); Reads(FactorSymbol, s, i, c, r.next, r.v)
  {
    var p := Skip(s, i);
    c := Signed(p - i, At(s, p) == '-', operand);
    SignedIs(p - i, At(s, p) == '-', operand, ParseFactor(s, p + 1).v);
    OccursToken(s, i, At(s, p));
    OccursConcat(s, i, Token(p - i, At(s, p)), Show(operand));
  }

  lemma {:induction false} FactorSound(s: Text, i: nat) returns (c: Syntax)
    requires i <= |s| && ParseFactor(s, i).Ok?
    ensures var r := ParseFactor(s, i); Reads(FactorSymbol, s, i, c, r.next, r.v)
    decreases |s| - i, 0
  {
    var p := Skip(s, i);
    if At(s, p) == '(' {
      var inner, n := ExprSound(s, p + 1);
      c := ParenSound(s, i, inner, n);
    } else if IsAdditive(At(s, p)) {
      var operand := FactorSound(s, p + 1);
      c := SignedSound(s, i, operand);
    } else {
      SkipTwice(s, i);
      c := NumberSound(s, i);
    }
  }

  lemma BinaryRead(s: Text, i: nat, l: Syntax, p: nat, r: Syntax, end: nat) returns (c: Syntax)
    requires Occurs(s, i, Show(l)) && p == i + |Show(l)| <= |s| && Skip(s, p) < |s|
    requires Occurs(s, Skip(s, p) + 1, Show(r)) && end == Skip(s, p) + 1 + |Show(r)|
    ensures c == Binary(l, Skip(s, p) - p, At(s, Skip(s, p)), r)
    ensures Occurs(s, i, Show(c)) && end == i + |Show(c)|
  {
    var q := Skip(s, p);
    c := Binary(l, q - p, At(s, q), r);
    OccursToken(s, p, At(s, q));
    OccursConcat(s, p, Token(q - p, At(s, q)), Show(r));
    OccursConcat(s, i, Show(l), Token(q - p, At(s, q)) + Show(r));
  }

  lemma BinaryIs(l: Syntax, sp: nat, op: char, r: Syntax, a: int, b: int)
    requires Derives(ExprSymbol, l) && Derives(ExprSymbol, r) && Eval(l) == Value(a) && Eval(r) == Value(b)
    requires if IsAdditive(op) then Derives(TermSymbol, r)
             else IsMultiplicative(op) && Derives(TermSymbol, l) && Derives(FactorSymbol, r)
    ensures var c := Binary(l, sp, op, r);
            Derives(ExprSymbol, c) && (IsMultiplicative(op) ==> Derives(TermSymbol, c)) && Eval(c) == Apply(op, a, b)
  {
  }

  lemma {:induction false} TermLoopSound(s: Text, i: nat, p: nat, left: int, l: Syntax) returns (c: Syntax, n: nat)
    requires p <= |s| && INT64_MIN <= left <= INT64_MAX
    requires Reads(TermSymbol, s, i, l, p, left) && TermLoop(s, p, left).Ok?
    ensures var r := TermLoop(s, p, left); ReadsSpaced(TermSymbol, s, i, c, n, r.next, r.v)
    decreases |s| - p, 1
  {
    var q := Skip(s, p);
    if IsMultiplicative(At(s, q)) {
      var right := FactorSound(s, q + 1);
      var end, v := ParseFactor(s, q + 1).next, Apply(At(s, q), left, ParseFactor(s, q + 1).v);
      var l' := BinaryRead(s, i, l, p, right, end);
      BinaryIs(l, q - p, At(s, q), right, left, ParseFactor(s, q + 1).v);
      c, n := TermLoopSound(s, i, end, v.v, l');
    } else {
      c, n := l, q - p;
      SkippedAreSpaces(s, p);
    }
  }

  lemma {:induction false} TermSound(s: Text, i: nat) returns (c: Syntax, n: nat)
    requires i <= |s| && ParseTerm(s, i).Ok?
    ensures var r := ParseTerm(s, i); ReadsSpaced(TermSymbol, s, i, c, n, r.next, r.v)
    decreases |s| - i, 2
  {
    var f := FactorSound(s, i);
    DerivesWider(f);
    c, n := TermLoopSound(s, i, ParseFactor(s, i).next, ParseFactor(s, i).v, f);
  }

  /** One turn of the loop: the tree read so far becomes the left operand. */
  lemma ExprLoopTurn(s: Text, i: nat, p: nat, left: int, l: Syntax, m: nat, right: Syntax, k: nat)
    returns (l': Syntax)
    requires p < |s| && INT64_MIN <= left <= INT64_MAX && IsAdditive(At(s, p))
    requires ReadsSpaced(ExprSymbol, s, i, l, m, p, left)
    requires var r := ParseTerm(s, p + 1);
             && r.Ok? && ReadsSpaced(TermSymbol, s, p + 1, right, k, r.next, r.v)
             && Apply(At(s, p), left, r.v).Value?
    ensures var r := ParseTerm(s, p + 1);
            ReadsSpaced(ExprSymbol, s, i, l', k, r.next, Apply(At(s, p), left, r.v).v)
  {
    SkipSpaces(s, p - m, m);
    l' := BinaryRead(s, i, l, p - m, right, p + 1 + |Show(right)|);
    BinaryIs(l, m, At(s, p), right, left, ParseTerm(s, p + 1).v);
  }

  lemma {:induction false} ExprLoopSound(s: Text, i: nat, p: nat, left: int, l: Syntax, m: nat)
    returns (c: Syntax, n: nat)
    requires p <= |s| && INT64_MIN <= left <= INT64_MAX
    requires ReadsSpaced(ExprSymbol, s, i, l, m, p, left) && ExprLoop(s, p, left).Ok? && At(s, p) != ' '
    ensures var r := ExprLoop(s, p, left); ReadsSpaced(ExprSymbol, s, i, c, n, r.next, r.v)
    decreases |s| - p, 3
  {
    assert Skip(s, p) == p;
    if IsAdditive(At(s, p)) {
      var right, k := TermSound(s, p + 1);
      var r := ParseTerm(s, p + 1);
      var l' := ExprLoopTurn(s, i, p, left, l, m, right, k);
      c, n := ExprLoopSound(s, i, r.next, Apply(At(s, p), left, r.v).v, l', k);
    } else {
      c, n := l, m;
    }
  }

  lemma {:induction false} ExprSound(s: Text, i: nat) returns (c: Syntax, n: nat)
    requires i <= |s| && ParseExpr(s, i).Ok?
    ensures var r := ParseExpr(s, i); ReadsSpaced(ExprSymbol, s, i, c, n, r.next, r.v)
    decreases |s| - i, 4
  {
    var t, m := TermSound(s, i);
    DerivesWider(t);
    c, n := ExprLoopSound(s, i, ParseTerm(s, i).next, ParseTerm(s, i).v, t, m);
  }

  // ----- The recogniser theorem -----

  /** The text of an expression, trailing spaces included, evaluates to the tree's value or error. */
  lemma EvaluateShow(s: Text, c: Syntax, n: nat)
    requires Derives(ExprSymbol, c) && s == Show(c) + Spaces(n)
    ensures Evaluate(s) == Eval(c)
  {
    var end := |Show(c)|;
    assert s[0..0 + |s|] == s;
    OccursIsSlice(s, 0, s);
    OccursConcat(s, 0, Show(c), Spaces(n));
    SkipSpaces(s, end, n);
    if n > 0 {
      assert s[end] == ' ';
    }
    ExprComplete(s, 0, c, end);
    SkipTwice(s, end);
  }

  /**
   * `calc_evaluate` returns a value exactly when the whole string is an expression of the grammar
   * whose evaluation meets no zero divisor and stays within 64 bits; it then returns that value.
   */
  lemma EvaluateIffGrammar(s: Text, v: int)
    ensures Evaluate(s) == Value(v) <==>
            exists c, n: nat :: Derives(ExprSymbol, c) && s == Show(c) + Spaces(n) && Eval(c) == Value(v)
  {
    if Evaluate(s) == Value(v) {
      var c, n := ExprSound(s, 0);
      SkipTwice(s, 0);
      assert ParseExpr(s, 0).next == |s|;
      OccursConcat(s, 0, Show(c), Spaces(n));
      OccursIsSlice(s, 0, Show(c) + Spaces(n));
      assert s == s[0..0 + |Show(c) + Spaces(n)|] == Show(c) + Spaces(n);
    }
    forall c, n: nat | Derives(ExprSymbol, c) && s == Show(c) + Spaces(n) && Eval(c) == Value(v)
      ensures Evaluate(s) == Value(v)
    {
      EvaluateShow(s, c, n);
    }
  }

  // ----- Printing -----

  /** Expression trees without layout. */
  datatype Ast = Literal(n: nat) | Sign(minus: bool, operand: Ast) | Node(left: Ast, op: char, right: Ast)

  predicate IsAst(a: Ast) {
    match a
    case Literal(_) => true
    case Sign(_, b) => IsAst(b)
    case Node(l, op, r) => (IsAdditive(op) || IsMultiplicative(op)) && IsAst(l) && IsAst(r)
  }

  function EvalAst(a: Ast): Result {
    match a
    case Literal(n) => Fit(n)
    case Sign(minus, b) => if minus then Negate(EvalAst(b)) else EvalAst(b)
    case Node(l, op, r) => Combine(op, EvalAst(l), EvalAst(r))
  }

  /** Precedence forbids the bare tree where `symbol` is expected. */
  predicate NeedsParens(a: Ast, symbol: Symbol) {
    a.Node? && (if IsAdditive(a.op) then !symbol.ExprSymbol? else symbol.FactorSymbol?)
  }

  /** `c` is `a` with the parentheses precedence requires, no others, and any layout. */
  predicate Prints(a: Ast, symbol: Symbol, c: Syntax)
    decreases a, if NeedsParens(a, symbol) then 1 else 0
  {
    if NeedsParens(a, symbol) then c.Paren? && Prints(a, ExprSymbol, c.inner)
    else
      match a
      case Literal(n) => c.Number? && c.digits != [] && AllDigits(c.digits) && DecimalValue(c.digits) == n
      case Sign(minus, b) => c.Signed? && c.minus == minus && Prints(b, FactorSymbol, c.operand)
      case Node(l, op, r) =>
        && c.Binary? && c.op == op
        && Prints(l, if IsAdditive(op) then ExprSymbol else TermSymbol, c.left)
        && Prints(r, if IsAdditive(op) then TermSymbol else FactorSymbol, c.right)
  }

  /** One such printing, without spaces. */
  function Print(a: Ast, symbol: Symbol): (c: Syntax)
    requires IsAst(a)
    ensures Prints(a, symbol, c)
    decreases a, if NeedsParens(a, symbol) then 1 else 0
  {
    if NeedsParens(a, symbol) then Paren(0, Print(a, ExprSymbol), 0)
    else
      match a
      case Literal(n) => Number(0, Decimal(n))
      case Sign(minus, b) => Signed(0, minus, Print(b, FactorSymbol))
      case Node(l, op, r) =>
        Binary(Print(l, if IsAdditive(op) then ExprSymbol else TermSymbol), 0, op,
               Print(r, if IsAdditive(op) then TermSymbol else FactorSymbol))
  }

  /** A printing derives the symbol it was made for and keeps the tree's value. */
  lemma {:induction false} PrintingKeepsValue(a: Ast, symbol: Symbol, c: Syntax)
    requires IsAst(a) && Prints(a, symbol, c)
    ensures Derives(symbol, c) && Derives(ExprSymbol, c) && Eval(c) == EvalAst(a)
    decreases a, if NeedsParens(a, symbol) then 1 else 0
  {
    if NeedsParens(a, symbol) {
      PrintingKeepsValue(a, ExprSymbol, c.inner);
    } else {
      match a
      case Literal(n) =>
      case Sign(minus, b) =>
        PrintingKeepsValue(b, FactorSymbol, c.operand);
      case Node(l, op, r) =>
        PrintingKeepsValue(l, if IsAdditive(op) then ExprSymbol else TermSymbol, c.left);
        PrintingKeepsValue(r, if IsAdditive(op) then TermSymbol else FactorSymbol, c.right);
        DerivesWider(c);
    }
  }

  /** Print a tree with any layout, evaluate the text: the tree's value comes back, or its error. */
  lemma PrintThenEvaluate(a: Ast, c: Syntax, n: nat, s: Text)
    requires IsAst(a) && Prints(a, ExprSymbol, c) && s == Show(c) + Spaces(n)
    ensures Evaluate(s) == EvalAst(a)
  {
    PrintingKeepsValue(a, ExprSymbol, c);
    EvaluateShow(s, c, n);
  }
}
