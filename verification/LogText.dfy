/** What log.c's messages should read: numerals and formatted text of any length. */
module LogText {
  import opened CTypes

  type Base = b: nat | b == 10 || b == 16 witness 10

  type uint64 = n: int | 0 <= n < 0x1_0000_0000_0000_0000

  type int64 = n: int | -0x8000_0000_0000_0000 <= n < 0x8000_0000_0000_0000

  type int32 = n: int | -0x8000_0000 <= n < 0x8000_0000

  // ----- Numerals -----

  function DigitByte(d: nat, upper: bool): byte
    requires d < 16
  {
    if d < 10 then '0' as int + d else (if upper then 'A' as int else 'a' as int) + (d - 10)
  }

  /** The value of a digit, or 16 if it is none. */
  function DigitOf(c: byte): nat {
    if '0' as int <= c <= '9' as int then c - '0' as int
    else if 'a' as int <= c <= 'f' as int then c - 'a' as int + 10
    else if 'A' as int <= c <= 'F' as int then c - 'A' as int + 10
    else 16
  }

  /** Digits as they are printed. */
  lemma DigitsAre(d: nat, upper: bool)
    requires d < 16
    ensures DigitByte(d, upper) == if upper then "0123456789ABCDEF"[d] as int else "0123456789abcdef"[d] as int
  {
  }

  /** The shortest numeral, most significant digit first. */
  function Numeral(n: nat, base: Base, upper: bool): (s: CString)
    ensures s != []
    decreases n
  {
    if n < base then [DigitByte(n, upper)]
    else Append(Numeral(n / base, base, upper), [DigitByte(n % base, upper)])
  }

  function ValueOf(s: seq<byte>, base: Base): nat {
    if s == [] then 0 else base * ValueOf(s[..|s| - 1], base) + DigitOf(s[|s| - 1])
  }

  /** A numeral reads back to its number, has only digits of its base, and no leading zero. */
  lemma {:induction false} NumeralReadsBack(n: nat, base: Base, upper: bool)
    ensures ValueOf(Numeral(n, base, upper), base) == n
    ensures forall i :: 0 <= i < |Numeral(n, base, upper)| ==> DigitOf(Numeral(n, base, upper)[i]) < base
    ensures if n == 0 then |Numeral(n, base, upper)| == 1 else Numeral(n, base, upper)[0] != '0' as int
    decreases n
  {
    var s := Numeral(n, base, upper);
    if n < base {
      assert s[..0] == [];
    } else {
      NumeralReadsBack(n / base, base, upper);
      assert s[..|s| - 1] == Numeral(n / base, base, upper);
    }
  }

  /** A digit or a small letter. */
  predicate IsSmallDigit(c: byte) {
    '0' as int <= c <= '9' as int || 'a' as int <= c <= 'f' as int
  }

  lemma {:induction false} SmallLetters(n: nat, base: Base)
    ensures forall i :: 0 <= i < |Numeral(n, base, false)| ==> IsSmallDigit(Numeral(n, base, false)[i])
    decreases n
  {
    if n >= base {
      SmallLetters(n / base, base);
    }
  }

  function Signed(v: int64): CString {
    if v < 0 then Append(['-' as int], Numeral(-(v as int), 10, false)) else Numeral(v, 10, false)
  }

  function SignedValue(s: seq<byte>): int {
    if s != [] && s[0] == '-' as int then -(ValueOf(s[1..], 10) as int) else ValueOf(s, 10)
  }

  /** Signed numerals read back, the most negative number included; only negative numbers have a sign. */
  lemma SignedReadsBack(v: int64)
    ensures SignedValue(Signed(v)) == v
    ensures Signed(v) != [] && (Signed(v)[0] == '-' as int <==> v < 0)
  {
    if v < 0 {
      NumeralReadsBack(-(v as int), 10, false);
      assert Signed(v)[1..] == Numeral(-(v as int), 10, false);
    } else {
      NumeralReadsBack(v, 10, false);
      assert DigitOf('-' as int) == 16;
    }
  }

  // ----- Formats -----

  /** An argument, by the type the format takes it as. */
  datatype Arg = Text(s: CString) | Number(v: int32) | Unsigned(u: uint32) | Character(c: int32)

  /** Specifiers that take an argument. */
  predicate IsSpecifier(c: byte) {
    c == 's' as int || c == 'd' as int || c == 'x' as int || c == 'c' as int
  }

  predicate IsFor(a: Arg, c: byte) {
    match a
    case Text(_) => c == 's' as int
    case Number(_) => c == 'd' as int
    case Unsigned(_) => c == 'x' as int
    case Character(_) => c == 'c' as int
  }

  /** Whether the format takes an argument at a position. */
  predicate Consumes(fmt: CString, p: nat) {
    At(fmt, p) == '%' as int && IsSpecifier(At(fmt, p + 1))
  }

  function Next(fmt: CString, p: nat): nat {
    if At(fmt, p) == '%' as int then p + 2 else p + 1
  }

  function Remaining(fmt: CString, p: nat, args: seq<Arg>): seq<Arg> {
    if Consumes(fmt, p) && args != [] then args[1..] else args
  }

  /** The arguments are those the format asks for from a position on; surplus ones are never looked at. */
  predicate Takes(fmt: CString, p: nat, args: seq<Arg>)
    decreases |fmt| - p
  {
    p < |fmt| ==>
      && (Consumes(fmt, p) ==> args != [] && IsFor(args[0], At(fmt, p + 1)))
      && Takes(fmt, Next(fmt, p), Remaining(fmt, p, args))
  }

  /** The text of an argument. */
  function Shown(a: Arg): seq<byte> {
    match a
    case Text(s) => s
    case Number(v) => Signed(v)
    case Unsigned(u) => Numeral(u, 16, false)
    case Character(c) => [c % 256]
  }

  /** What stands for the character or specifier at a position; unknown specifiers are shown as they are. */
  function Piece(fmt: CString, p: nat, args: seq<Arg>): seq<byte>
    requires p < |fmt| && Takes(fmt, p, args)
  {
    if fmt[p] != '%' as int then [fmt[p]]
    else
      var c := At(fmt, p + 1);
      if IsSpecifier(c) then Shown(args[0])
      else if c == '%' as int || c == 0 then ['%' as int]
      else ['%' as int] + [c]
  }

  /** The whole text. */
  function Formatted(fmt: CString, p: nat, args: seq<Arg>): seq<byte>
    requires Takes(fmt, p, args)
    decreases |fmt| - p
  {
    if p >= |fmt| then [] else Piece(fmt, p, args) + Formatted(fmt, Next(fmt, p), Remaining(fmt, p, args))
  }

  /** What each specifier shows of its argument, and what stays when there is none to show. */
  lemma PieceMeans(fmt: CString, p: nat, args: seq<Arg>)
    requires p < |fmt| && Takes(fmt, p, args)
    ensures var s, c := Piece(fmt, p, args), At(fmt, p + 1);
            if fmt[p] != '%' as int then s == [fmt[p]]
            else if c == 's' as int then args[0].Text? && s == args[0].s
            else if c == 'd' as int then args[0].Number? && SignedValue(s) == args[0].v
            else if c == 'x' as int then
              args[0].Unsigned? && ValueOf(s, 16) == args[0].u && forall i :: 0 <= i < |s| ==> IsSmallDigit(s[i])
            else if c == 'c' as int then args[0].Character? && |s| == 1 && s[0] == args[0].c % 256
            else if c == '%' as int || c == 0 then s == ['%' as int]
            else s == ['%' as int, c]
  {
    if Consumes(fmt, p) {
      match args[0]
      case Text(_) =>
      case Number(v) => SignedReadsBack(v);
      case Unsigned(u) =>
        NumeralReadsBack(u, 16, false);
        SmallLetters(u, 16);
      case Character(_) =>
    }
  }

  /** The format of one specifier takes exactly the arguments of its type. */
  lemma OneArgument(fmt: CString, a: Arg)
    requires |fmt| == 2 && fmt[0] == '%' as int
    ensures fmt[1] == 's' as int ==> (Takes(fmt, 0, [a]) <==> a.Text?)
    ensures fmt[1] == 'd' as int ==> (Takes(fmt, 0, [a]) <==> a.Number?)
    ensures fmt[1] == 'x' as int ==> (Takes(fmt, 0, [a]) <==> a.Unsigned?)
    ensures fmt[1] == 'c' as int ==> (Takes(fmt, 0, [a]) <==> a.Character?)
  {
    assert Takes(fmt, 2, Remaining(fmt, 0, [a]));
  }

  /** Arguments are used up in order. */
  lemma TwoArguments(fmt: CString, a: CString, n: int32)
    requires fmt == ['%' as int, 's' as int, '%' as int, 'd' as int]
    ensures Takes(fmt, 0, [Text(a), Number(n)])
    ensures Formatted(fmt, 0, [Text(a), Number(n)]) == a + Signed(n)
  {
    var all, last: seq<Arg> := [Text(a), Number(n)], [Number(n)];
    assert all[1..] == last;
    LastArgument(fmt, n, last);
    assert Piece(fmt, 0, all) == a;
  }

  lemma LastArgument(fmt: CString, n: int32, last: seq<Arg>)
    requires |fmt| == 4 && fmt[2] == '%' as int && fmt[3] == 'd' as int && last == [Number(n)]
    ensures Takes(fmt, 2, last) && Formatted(fmt, 2, last) == Signed(n)
  {
    assert Formatted(fmt, 4, last[1..]) == [];
  }

  /** The text up to a position, with what follows, is the whole text. */
  predicate Splits(whole: seq<byte>, text: seq<byte>, fmt: CString, p: nat, args: seq<Arg>) {
    Takes(fmt, p, args) && whole == text + Formatted(fmt, p, args)
  }

  lemma Associate(a: seq<byte>, b: seq<byte>, c: seq<byte>)
    ensures a + (b + c) == a + b + c
  {
  }

  lemma SplitsLater(whole: seq<byte>, text: seq<byte>, fmt: CString, p: nat, args: seq<Arg>)
    requires p < |fmt| && Splits(whole, text, fmt, p, args)
    ensures Splits(whole, text + Piece(fmt, p, args), fmt, Next(fmt, p), Remaining(fmt, p, args))
  {
    Associate(text, Piece(fmt, p, args), Formatted(fmt, Next(fmt, p), Remaining(fmt, p, args)));
  }

  /** A text with its percent signs doubled. */
  function Escaped(s: CString): CString {
    if s == [] then []
    else Append(if s[0] == '%' as int then [s[0], s[0]] else [s[0]], Escaped(From(s, 1)))
  }

  /** A plain character, or two percent signs, show one character and take no argument. */
  lemma EscapedPiece(fmt: CString, p: nat, c: byte, args: seq<Arg>)
    requires p < |fmt| && fmt[p] == c && (c == '%' as int ==> p + 1 < |fmt| && fmt[p + 1] == c)
    requires Takes(fmt, if c == '%' as int then p + 2 else p + 1, args)
    ensures Takes(fmt, p, args) && Piece(fmt, p, args) == [c] && Remaining(fmt, p, args) == args
    ensures Next(fmt, p) == if c == '%' as int then p + 2 else p + 1
  {
  }

  lemma DropMore(fmt: seq<byte>, p: nat, head: seq<byte>, rest: seq<byte>)
    requires p <= |fmt| && fmt[p..] == head + rest
    ensures p + |head| <= |fmt| && fmt[p + |head|..] == rest
    ensures forall i :: 0 <= i < |head| ==> fmt[p + i] == head[i]
  {
    assert fmt[p + |head|..] == fmt[p..][|head|..];
    assert forall i :: 0 <= i < |head| ==> fmt[p + i] == fmt[p..][i];
  }

  lemma {:induction false} EscapedFrom(fmt: CString, p: nat, s: CString, args: seq<Arg>)
    requires p <= |fmt| && fmt[p..] == Escaped(s)
    ensures Takes(fmt, p, args) && Formatted(fmt, p, args) == s
    decreases |s|
  {
    if s != [] {
      var head: CString := if s[0] == '%' as int then [s[0], s[0]] else [s[0]];
      DropMore(fmt, p, head, Escaped(From(s, 1)));
      EscapedFrom(fmt, p + |head|, From(s, 1), args);
      EscapedPiece(fmt, p, s[0], args);
      assert s == [s[0]] + From(s, 1);
    }
  }

  /** An escaped text takes no arguments and is shown unchanged. */
  lemma EscapedShowsItself(s: CString, pre: CString, args: seq<Arg>)
    ensures Takes(Append(pre, Escaped(s)), |pre|, args)
    ensures Formatted(Append(pre, Escaped(s)), |pre|, args) == s
  {
    EscapedFrom(Append(pre, Escaped(s)), |pre|, s, args);
  }

  // ----- Bounded buffers -----

  /** How much of a text a buffer of the given size keeps. */
  function Kept(text: seq<byte>, size: nat): nat
    requires size > 0
  {
    if |text| < size - 1 then |text| else size - 1
  }

  /** The buffer holds what fits of the text written so far. */
  predicate Holds(b: seq<byte>, size: nat, pos: nat, text: seq<byte>) {
    pos == |text| && 0 < size <= |b| && b[..Kept(text, size)] == text[..Kept(text, size)]
  }

  /** The buffer holds what fits of the text, terminated. */
  predicate Shows(b: seq<byte>, size: nat, text: seq<byte>) {
    0 < size <= |b| && b[..Kept(text, size)] == text[..Kept(text, size)] && b[Kept(text, size)] == 0
  }

  lemma HoldsOneMore(b: seq<byte>, size: nat, text: seq<byte>, c: byte)
    requires Holds(b, size, |text|, text)
    ensures |text| + 1 < size ==> Holds(b[|text| := c], size, |text| + 1, text + [c])
    ensures |text| + 1 >= size ==> Holds(b, size, |text| + 1, text + [c])
  {
    var k := Kept(text, size);
    assert text[..k] == (text + [c])[..k];
    if |text| + 1 < size {
      assert b[|text| := c][..k + 1] == b[..k] + [c];
      assert (text + [c])[..k + 1] == text + [c];
    }
  }

  // ----- Digits in the scratch array -----

  /** A sequence from its end. */
  function Backwards(s: seq<byte>): seq<byte> {
    if s == [] then [] else [s[|s| - 1]] + Backwards(s[..|s| - 1])
  }

  lemma BackwardsOneMore(s: seq<byte>, c: byte)
    ensures Backwards(s + [c]) == [c] + Backwards(s)
  {
    assert (s + [c])[..|s|] == s;
  }

  /** The digits not yet produced. */
  function Rest(value: nat, base: Base, upper: bool): seq<byte> {
    if value == 0 then [] else Numeral(value, base, upper)
  }

  lemma RestOneLess(value: nat, base: Base, upper: bool)
    requires value > 0
    ensures Rest(value, base, upper) == Rest(value / base, base, upper) + [DigitByte(value % base, upper)]
  {
    if value < base {
      assert value / base == 0 && value % base == value;
    }
  }

  /** The digits produced and those not yet produced make up the numeral. */
  predicate Sheds(value: nat, v: nat, base: Base, upper: bool, digits: seq<byte>) {
    Rest(value, base, upper) == Rest(v, base, upper) + Backwards(digits)
  }

  lemma ShedsOneMore(value: nat, v: nat, base: Base, upper: bool, digits: seq<byte>)
    requires v > 0 && Sheds(value, v, base, upper, digits)
    ensures Sheds(value, v / base, base, upper, digits + [DigitByte(v % base, upper)])
  {
    RestOneLess(v, base, upper);
    BackwardsOneMore(digits, DigitByte(v % base, upper));
    Associate(Rest(v / base, base, upper), [DigitByte(v % base, upper)], Backwards(digits));
  }

  function Power10(k: nat): nat {
    if k == 0 then 1 else 10 * Power10(k - 1)
  }

  lemma BelowPower20(v: uint64)
    ensures v < Power10(20)
  {
    assert Power10(5) == 100_000;
    assert Power10(10) == 100_000 * Power10(5);
    assert Power10(15) == 100_000 * Power10(10);
    assert Power10(20) == 100_000 * Power10(15);
  }

  lemma OneDigitLess(value: nat, base: Base, k: nat)
    requires 0 < value < Power10(k)
    ensures k > 0 && 0 <= value / base < Power10(k - 1) && value / base < value
  {
  }

  lemma {:induction false} FewDigits(v: nat, base: Base, upper: bool, k: nat)
    requires 0 < k && v < Power10(k)
    ensures |Numeral(v, base, upper)| <= k
    decreases v
  {
    if v >= base {
      OneDigitLess(v, base, k);
      QuotientIsPositive(v, base);
      FewDigits(v / base, base, upper, k - 1);
    }
  }

  lemma QuotientIsPositive(v: nat, base: Base)
    requires v >= base
    ensures v / base > 0
  {
  }

  /** 64-bit numbers have at most 20 digits in either base, so the 32 places of the scratch array suffice. */
  lemma TwentyDigits(v: uint64, base: Base, upper: bool)
    ensures |Numeral(v, base, upper)| <= 20
  {
    BelowPower20(v);
    FewDigits(v, base, upper, 20);
  }

  lemma NegativeIs(value: int64, magnitude: uint64, text: seq<byte>)
    requires value < 0 && magnitude == -(value as int)
    ensures text + ['-' as int] + Numeral(magnitude, 10, false) == text + Signed(value)
  {
    Associate(text, ['-' as int], Numeral(magnitude, 10, false));
  }

  /** Halfway through: the digits collected so far, and a rest that 20 places in all suffice for. */
  predicate Collects(value: nat, v: nat, base: Base, upper: bool, digits: seq<byte>) {
    |digits| <= 20 && v < Power10(20 - |digits|) && Sheds(value, v, base, upper, digits)
  }

  lemma CollectsOneMore(value: nat, v: nat, base: Base, upper: bool, digits: seq<byte>, digit: nat, rest: nat)
    requires v > 0 && Collects(value, v, base, upper, digits) && digit == v % base && rest == v / base
    ensures |digits| < 20 && rest < v && Collects(value, rest, base, upper, digits + [DigitByte(digit, upper)])
  {
    ShedsOneMore(value, v, base, upper, digits);
    OneDigitLess(v, base, 20 - |digits|);
  }
}
