/**
 * The language of the calculator: concrete syntax trees that remember every space and every
 * parenthesis, the text they stand for, and their value in 64-bit arithmetic.
 */
module CalcGrammar {
  import opened Digits

  const INT64_MIN: int := -0x8000_0000_0000_0000
  const INT64_MAX: int := 0x7FFF_FFFF_FFFF_FFFF

  /** An expression with its layout; `sp` counts the spaces in front of a token. */
  datatype Syntax =
    | Number(sp: nat, digits: string)
    | Paren(sp: nat, inner: Syntax, close: nat)
    | Signed(sp: nat, minus: bool, operand: Syntax)
    | Binary(left: Syntax, sp: nat, op: char, right: Syntax)

  predicate IsAdditive(op: char) {
    op == '+' || op == '-'
  }

  predicate IsMultiplicative(op: char) {
    op == '*' || op == '/' || op == '%'
  }

  datatype Symbol = FactorSymbol | TermSymbol | ExprSymbol

  /**
   * The tree is a derivation of the symbol:
   *   expr   ::= expr ('+' | '-') term | term
   *   term   ::= term ('*' | '/' | '%') factor | factor
   *   factor ::= number | '(' expr ')' | ('+' | '-') factor
   */
  predicate Derives(symbol: Symbol, c: Syntax)
    decreases c
  {
    match c
    case Number(_, ds) => ds != [] && AllDigits(ds)
    case Paren(_, inner, _) => Derives(ExprSymbol, inner)
    case Signed(_, _, operand) => Derives(FactorSymbol, operand)
    case Binary(l, _, op, r) =>
      if IsAdditive(op) then symbol.ExprSymbol? && Derives(ExprSymbol, l) && Derives(TermSymbol, r)
      else IsMultiplicative(op) && !symbol.FactorSymbol? && Derives(TermSymbol, l) && Derives(FactorSymbol, r)
  }

  /** Every factor is a term and every term an expression. */
  lemma DerivesWider(c: Syntax)
    ensures Derives(FactorSymbol, c) ==> Derives(TermSymbol, c)
    ensures Derives(TermSymbol, c) ==> Derives(ExprSymbol, c)
  {
  }

  function Spaces(n: nat): (s: string)
    ensures |s| == n
  {
    if n == 0 then "" else " " + Spaces(n - 1)
  }

  /** A one-character token with the spaces in front of it. */
  function Token(sp: nat, c: char): (s: string)
    ensures |s| == sp + 1
  {
    Spaces(sp) + [c]
  }

  /** The text of a tree. */
  function Show(c: Syntax): string {
    match c
    case Number(sp, ds) => Spaces(sp) + ds
    case Paren(sp, inner, close) => Token(sp, '(') + (Show(inner) + Token(close, ')'))
    case Signed(sp, minus, operand) => Token(sp, if minus then '-' else '+') + Show(operand)
    case Binary(l, sp, op, r) => Show(l) + (Token(sp, op) + Show(r))
  }

  /** A value, an error reported to the caller, or an intermediate result that does not fit 64 bits. */
  datatype Result = Value(v: int) | Failure | Overflow

  function Fit(n: int): (r: Result)
    ensures r == Value(n) || r == Overflow
    ensures r.Value? <==> INT64_MIN <= n <= INT64_MAX
  {
    if INT64_MIN <= n <= INT64_MAX then Value(n) else Overflow
  }

  /** Division rounding towards zero, as in C. */
  function TruncDiv(a: int, b: int): (q: int)
    requires b != 0
    ensures var r := a - q * b;
            (if r < 0 then -r else r) < (if b < 0 then -b else b) && (r > 0 ==> a > 0) && (r < 0 ==> a < 0)
  {
    if a >= 0 then (if b > 0 then a / b else -(a / -b))
    else (if b > 0 then -(-a / b) else -a / -b)
  }

  /** The remainder that goes with it; it takes the sign of the dividend. */
  function TruncRem(a: int, b: int): int
    requires b != 0
  {
    a - TruncDiv(a, b) * b
  }

  /** Dividing `a` by `b` towards zero leaves `q` and `r`: the remainder is smaller, with the dividend's sign. */
  predicate Divides(a: int, b: int, q: int, r: int) {
    && a == q * b + r
    && (if r < 0 then -r else r) < (if b < 0 then -b else b)
    && (r > 0 ==> a > 0) && (r < 0 ==> a < 0)
  }

  function Apply(op: char, a: int, b: int): (r: Result)
    ensures r.Value? ==> INT64_MIN <= r.v <= INT64_MAX
  {
    match op
    case '+' => Fit(a + b)
    case '-' => Fit(a - b)
    case '*' => Fit(a * b)
    case '/' => if b == 0 then Failure else Fit(TruncDiv(a, b))
    // In C the remainder is undefined when the quotient does not fit.
    case '%' => if b == 0 then Failure else if Fit(TruncDiv(a, b)).Overflow? then Overflow else Fit(TruncRem(a, b))
    case _ => Failure
  }

  function Negate(a: Result): Result {
    if a.Value? then Fit(-a.v) else a
  }

  /** The left operand's error comes first, then the right operand's, then the operation's own. */
  function Combine(op: char, a: Result, b: Result): Result {
    if !a.Value? then a else if !b.Value? then b else Apply(op, a.v, b.v)
  }

  /** The value of a tree; operands are evaluated from left to right. */
  function Eval(c: Syntax): (r: Result)
    requires Derives(ExprSymbol, c)
    ensures r.Value? ==> INT64_MIN <= r.v <= INT64_MAX
  {
    match c
    case Number(_, ds) => Fit(DecimalValue(ds))
    case Paren(_, inner, _) => Eval(inner)
    case Signed(_, minus, operand) =>
      DerivesWider(operand);
      if minus then Negate(Eval(operand)) else Eval(operand)
    case Binary(l, _, op, r) =>
      DerivesWider(l);
      DerivesWider(r);
      Combine(op, Eval(l), Eval(r))
  }
}
