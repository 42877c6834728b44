/** What texts evaluate to in plain arithmetic: numerals, signs, the five operators, precedence and parentheses. */
module CalcMeaning {
  import opened Digits
  import opened CalcGrammar
  import opened CalcParser
  import opened CalcTheorems

  // ----- Numerals -----

  function Power10(n: nat): nat {
    if n == 0 then 1 else 10 * Power10(n - 1)
  }

  lemma DigitIs(c: char)
    requires IsDigit(c)
    ensures DecimalValue([c]) == c as int - 48
  {
    assert [c][..0] == [];
  }

  /** The first digit counts in the place its successors leave it. */
  lemma {:induction false} DecimalIsPositional(c: char, rest: string)
    requires IsDigit(c) && AllDigits(rest)
    ensures AllDigits([c] + rest)
    ensures DecimalValue([c] + rest) == (c as int - 48) * Power10(|rest|) + DecimalValue(rest)
    decreases |rest|
  {
    var whole := [c] + rest;
    if rest == [] {
      assert whole == [c];
      DigitIs(c);
    } else {
      var front, v := rest[..|rest| - 1], DigitValue(rest[|rest| - 1]);
      assert whole[..|whole| - 1] == [c] + front && whole[|whole| - 1] == rest[|rest| - 1];
      DecimalIsPositional(c, front);
      assert DecimalValue(whole) == 10 * DecimalValue([c] + front) + v;
      assert DecimalValue(rest) == 10 * DecimalValue(front) + v && Power10(|rest|) == 10 * Power10(|front|);
      TenTimes(c as int - 48, Power10(|front|), DecimalValue(front), v);
    }
  }

  lemma TenTimes(d: int, p: int, f: int, v: int)
    ensures 10 * (d * p + f) + v == d * (10 * p) + (10 * f + v)
  {
  }

  /** A numeral with an optional sign and spaces in front of either. */
  datatype Numeral = Bare(sp: nat, digits: string) | WithSign(sp: nat, minus: bool, gap: nat, digits: string)

  predicate IsNumeral(n: Numeral) {
    n.digits != [] && AllDigits(n.digits) && DecimalValue(n.digits) <= INT64_MAX
  }

  function Written(n: Numeral): string {
    match n
    case Bare(sp, ds) => Spaces(sp) + ds
    case WithSign(sp, minus, gap, ds) => Spaces(sp) + (if minus then "-" else "+") + (Spaces(gap) + ds)
  }

  /** The number written. */
  function Means(n: Numeral): int
    requires IsNumeral(n)
  {
    if n.WithSign? && n.minus then -(DecimalValue(n.digits) as int) else DecimalValue(n.digits)
  }

  function Tree(n: Numeral): Syntax {
    match n
    case Bare(sp, ds) => Number(sp, ds)
    case WithSign(sp, minus, gap, ds) => Signed(sp, minus, Number(gap, ds))
  }

  lemma TreeIs(n: Numeral)
    requires IsNumeral(n)
    ensures Derives(FactorSymbol, Tree(n)) && Derives(TermSymbol, Tree(n)) && Derives(ExprSymbol, Tree(n))
    ensures Eval(Tree(n)) == Value(Means(n)) && Show(Tree(n)) == Written(n)
  {
  }

  /** A signed numeral evaluates to the number written. */
  lemma NumeralIs(s: Text, n: Numeral, l: nat)
    requires IsNumeral(n) && s == Written(n) + Spaces(l)
    ensures Evaluate(s) == Value(Means(n))
  {
    TreeIs(n);
    EvaluateShow(s, Tree(n), l);
  }

  // ----- One operator -----

  /** Two numerals with an operator between them, and spaces anywhere. */
  function Between(a: Numeral, j: nat, op: char, b: Numeral, l: nat): string {
    Written(a) + (Token(j, op) + Written(b)) + Spaces(l)
  }

  lemma BinaryMeans(s: Text, a: Numeral, j: nat, op: char, b: Numeral, l: nat)
    requires IsNumeral(a) && IsNumeral(b) && s == Between(a, j, op, b, l)
    requires IsAdditive(op) || IsMultiplicative(op)
    ensures Evaluate(s) == Apply(op, Means(a), Means(b))
  {
    TreeIs(a);
    TreeIs(b);
    var c := Binary(Tree(a), j, op, Tree(b));
    assert Derives(ExprSymbol, c) && Eval(c) == Apply(op, Means(a), Means(b));
    EvaluateShow(s, c, l);
  }

  predicate Fits(n: int) {
    -0x8000_0000_0000_0000 <= n <= 0x7FFF_FFFF_FFFF_FFFF
  }

  /** A sum, a difference or a product of two numerals has its value exactly if that fits 64 bits. */
  lemma SumIs(s: Text, a: Numeral, j: nat, b: Numeral, l: nat)
    requires IsNumeral(a) && IsNumeral(b) && s == Between(a, j, '+', b, l)
    ensures if Fits(Means(a) + Means(b)) then Evaluate(s) == Value(Means(a) + Means(b)) else Evaluate(s) == Overflow
  {
    BinaryMeans(s, a, j, '+', b, l);
  }

  lemma DifferenceIs(s: Text, a: Numeral, j: nat, b: Numeral, l: nat)
    requires IsNumeral(a) && IsNumeral(b) && s == Between(a, j, '-', b, l)
    ensures if Fits(Means(a) - Means(b)) then Evaluate(s) == Value(Means(a) - Means(b)) else Evaluate(s) == Overflow
  {
    BinaryMeans(s, a, j, '-', b, l);
  }

  lemma ProductIs(s: Text, a: Numeral, j: nat, b: Numeral, l: nat)
    requires IsNumeral(a) && IsNumeral(b) && s == Between(a, j, '*', b, l)
    ensures if Fits(Means(a) * Means(b)) then Evaluate(s) == Value(Means(a) * Means(b)) else Evaluate(s) == Overflow
  {
    BinaryMeans(s, a, j, '*', b, l);
  }

  lemma QuotientFits(a: int, b: int, q: int, r: int)
    requires b != 0 && -0x7FFF_FFFF_FFFF_FFFF <= a <= 0x7FFF_FFFF_FFFF_FFFF && Divides(a, b, q, r)
    ensures Fits(q) && Fits(r)
  {
    if b < 0 {
      FlipBoth(q, b);
    }
    if a >= 0 {
      PositiveQuotient(a, if b < 0 then -b else b, if b < 0 then -q else q, r);
    } else {
      FlipOne(q, if b < 0 then -b else b);
      FlipOne(q, b);
      PositiveQuotient(-a, if b < 0 then -b else b, if b < 0 then q else -q, -r);
    }
  }

  lemma FlipBoth(q: int, b: int)
    ensures (-q) * (-b) == q * b
  {
  }

  lemma FlipOne(q: int, b: int)
    ensures (-q) * b == -(q * b) && q * (-b) == -(q * b)
  {
  }

  lemma PositiveQuotient(a: int, b: int, q: int, r: int)
    requires 0 <= a && 0 < b && a == q * b + r && 0 <= r < b
    ensures 0 <= q <= a
  {
    if q < 0 {
      TimesKeepsOrder(q, -1, b);
    } else {
      TimesKeepsOrder(1, b, q);
    }
  }

  lemma TimesKeepsOrder(x: int, y: int, z: int)
    requires x <= y && 0 <= z
    ensures x * z <= y * z
  {
  }

  /** Quotient and remainder of two numerals; both fail on a zero divisor. */
  lemma QuotientAndRemainderAre(s: Text, t: Text, a: Numeral, j: nat, b: Numeral, l: nat)
    requires IsNumeral(a) && IsNumeral(b) && s == Between(a, j, '/', b, l) && t == Between(a, j, '%', b, l)
    ensures Means(b) != 0 ==>
              && Evaluate(s).Value? && Evaluate(t).Value?
              && Divides(Means(a), Means(b), Evaluate(s).v, Evaluate(t).v)
    ensures Means(b) == 0 ==> Evaluate(s) == Failure && Evaluate(t) == Failure
  {
    BinaryMeans(s, a, j, '/', b, l);
    BinaryMeans(t, a, j, '%', b, l);
    if Means(b) != 0 {
      QuotientFits(Means(a), Means(b), TruncDiv(Means(a), Means(b)), TruncRem(Means(a), Means(b)));
    }
  }

  // ----- Two operators -----

  function Chain(a: Numeral, j: nat, op: char, b: Numeral, k: nat, op': char, c: Numeral, l: nat): string {
    Between(a, j, op, b, 0) + (Token(k, op') + Written(c)) + Spaces(l)
  }

  lemma LeftFirst(s: Text, a: Numeral, j: nat, op: char, b: Numeral, k: nat, op': char, c: Numeral, l: nat,
                  m: int, n: int)
    requires IsNumeral(a) && IsNumeral(b) && IsNumeral(c) && s == Chain(a, j, op, b, k, op', c, l)
    requires (IsAdditive(op) && IsAdditive(op')) || (IsMultiplicative(op) && (IsAdditive(op') || IsMultiplicative(op')))
    requires Apply(op, Means(a), Means(b)) == Value(m) && Apply(op', m, Means(c)) == Value(n)
    ensures Evaluate(s) == Value(n)
  {
    TreeIs(a);
    TreeIs(b);
    TreeIs(c);
    var left := Binary(Tree(a), j, op, Tree(b));
    var tree := Binary(left, k, op', Tree(c));
    assert Derives(ExprSymbol, tree) && Eval(left) == Apply(op, Means(a), Means(b));
    assert Eval(tree) == Combine(op', Eval(left), Value(Means(c)));
    assert Spaces(0) == [] && Show(left) == Between(a, j, op, b, 0);
    EvaluateShow(s, tree, l);
  }

  lemma RightFirst(s: Text, a: Numeral, j: nat, op: char, b: Numeral, k: nat, op': char, c: Numeral, l: nat,
                   m: int, n: int)
    requires IsNumeral(a) && IsNumeral(b) && IsNumeral(c) && s == Chain(a, j, op, b, k, op', c, l)
    requires IsAdditive(op) && IsMultiplicative(op')
    requires Apply(op', Means(b), Means(c)) == Value(m) && Apply(op, Means(a), m) == Value(n)
    ensures Evaluate(s) == Value(n)
  {
    TreeIs(a);
    TreeIs(b);
    TreeIs(c);
    var right := Binary(Tree(b), k, op', Tree(c));
    var tree := Binary(Tree(a), j, op, right);
    DerivesWider(right);
    assert Derives(ExprSymbol, tree) && Eval(right) == Apply(op', Means(b), Means(c));
    assert Eval(tree) == Combine(op, Value(Means(a)), Eval(right));
    assert Show(right) == Written(b) + (Token(k, op') + Written(c));
    assert Spaces(0) == [] && Show(tree) == Written(a) + (Token(j, op) + (Written(b) + (Token(k, op') + Written(c))));
    Regroup(Written(a), Token(j, op), Written(b), Token(k, op') + Written(c));
    EvaluateShow(s, tree, l);
  }

  lemma Regroup(w: string, x: string, y: string, z: string)
    ensures w + (x + (y + z)) == w + (x + y) + [] + z
  {
  }

  /** A product is computed before the sum it stands behind. */
  lemma ProductBeforeSum(s: Text, a: Numeral, j: nat, b: Numeral, k: nat, c: Numeral, l: nat)
    requires IsNumeral(a) && IsNumeral(b) && IsNumeral(c) && s == Chain(a, j, '+', b, k, '*', c, l)
    requires Fits(Means(b) * Means(c)) && Fits(Means(a) + Means(b) * Means(c))
    ensures Evaluate(s) == Value(Means(a) + Means(b) * Means(c))
  {
    var m := Means(b) * Means(c);
    RightFirst(s, a, j, '+', b, k, '*', c, l, m, Means(a) + m);
  }

  /** And before the difference. */
  lemma ProductBeforeDifference(s: Text, a: Numeral, j: nat, b: Numeral, k: nat, c: Numeral, l: nat)
    requires IsNumeral(a) && IsNumeral(b) && IsNumeral(c) && s == Chain(a, j, '-', b, k, '*', c, l)
    requires Fits(Means(b) * Means(c)) && Fits(Means(a) - Means(b) * Means(c))
    ensures Evaluate(s) == Value(Means(a) - Means(b) * Means(c))
  {
    var m := Means(b) * Means(c);
    RightFirst(s, a, j, '-', b, k, '*', c, l, m, Means(a) - m);
  }

  /** A sum is computed after the product it stands behind. */
  lemma SumAfterProduct(s: Text, a: Numeral, j: nat, b: Numeral, k: nat, c: Numeral, l: nat)
    requires IsNumeral(a) && IsNumeral(b) && IsNumeral(c) && s == Chain(a, j, '*', b, k, '+', c, l)
    requires Fits(Means(a) * Means(b)) && Fits(Means(a) * Means(b) + Means(c))
    ensures Evaluate(s) == Value(Means(a) * Means(b) + Means(c))
  {
    var m := Means(a) * Means(b);
    LeftFirst(s, a, j, '*', b, k, '+', c, l, m, m + Means(c));
  }

  /** Differences are computed from left to right. */
  lemma DifferencesFromTheLeft(s: Text, a: Numeral, j: nat, b: Numeral, k: nat, c: Numeral, l: nat)
    requires IsNumeral(a) && IsNumeral(b) && IsNumeral(c) && s == Chain(a, j, '-', b, k, '-', c, l)
    requires Fits(Means(a) - Means(b)) && Fits(Means(a) - Means(b) - Means(c))
    ensures Evaluate(s) == Value(Means(a) - Means(b) - Means(c))
  {
    var m := Means(a) - Means(b);
    LeftFirst(s, a, j, '-', b, k, '-', c, l, m, m - Means(c));
  }

  /** Parentheses before everything. */
  lemma ParenthesesFirst(s: Text, i: nat, a: Numeral, j: nat, b: Numeral, m: nat, k: nat, c: Numeral, l: nat)
    requires IsNumeral(a) && IsNumeral(b) && IsNumeral(c)
    requires Fits(Means(a) + Means(b)) && Fits((Means(a) + Means(b)) * Means(c))
    requires s == Token(i, '(') + (Between(a, j, '+', b, 0) + Token(m, ')')) + (Token(k, '*') + Written(c)) + Spaces(l)
    ensures Evaluate(s) == Value((Means(a) + Means(b)) * Means(c))
  {
    TreeIs(a);
    TreeIs(b);
    TreeIs(c);
    var sum := Binary(Tree(a), j, '+', Tree(b));
    var left := Paren(i, sum, m);
    var tree := Binary(left, k, '*', Tree(c));
    assert Derives(ExprSymbol, tree) && Eval(sum) == Value(Means(a) + Means(b));
    assert Eval(left) == Eval(sum) && Eval(tree) == Combine('*', Eval(left), Value(Means(c)));
    assert Spaces(0) == [] && Show(sum) == Between(a, j, '+', b, 0);
    assert Show(left) == Token(i, '(') + (Show(sum) + Token(m, ')'));
    assert Show(tree) == Show(left) + (Token(k, '*') + Written(c));
    EvaluateShow(s, tree, l);
  }
}
