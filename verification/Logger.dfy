/** log.c: the bounded formatter and the ring of log entries. */
module Loggers {
  import opened CTypes
  import opened LogText

  /** The buffer bytes no text position maps to stay as they were. */
  twostate predicate OnlyWithin(buffer: array<byte>, size: nat)
    reads buffer
  {
    forall i :: size <= i < buffer.Length ==> buffer[i] == old(buffer[i])
  }

  /** Writes a character if there is room before the last place, and counts it in any case. */
  method AppendChar(buffer: array<byte>, size: nat, pos: nat, c: byte, ghost text: seq<byte>) returns (after: nat)
    requires Holds(buffer[..], size, pos, text)
    modifies buffer
    ensures Holds(buffer[..], size, after, text + [c])
    ensures OnlyWithin(buffer, size)
  {
    HoldsOneMore(buffer[..], size, text, c);
    if pos + 1 < size {
      buffer[pos] := c;
    }
    return pos + 1;
  }

  method AppendString(buffer: array<byte>, size: nat, pos: nat, s: CString, ghost text: seq<byte>)
    returns (after: nat)
    requires Holds(buffer[..], size, pos, text)
    modifies buffer
    ensures Holds(buffer[..], size, after, text + s)
    ensures OnlyWithin(buffer, size)
  {
    after := pos;
    var i := 0;
    assert text + s[..0] == text;
    while At(s, i) != 0
      invariant 0 <= i <= |s|
      invariant Holds(buffer[..], size, after, text + s[..i]) && OnlyWithin(buffer, size)
      decreases |s| - i
    {
      after := AppendChar(buffer, size, after, s[i], text + s[..i]);
      assert text + s[..i] + [s[i]] == text + s[..i + 1];
      i := i + 1;
    }
    assert s[..i] == s;
  }

  /** The digits of a number, least significant first; the scratch array is never exhausted. */
  method CollectDigits(value: uint64, base: Base, upper: bool, tmp: array<byte>) returns (len: nat)
    requires tmp.Length == 32
    modifies tmp
    ensures len <= 20 && Backwards(tmp[..len]) == Rest(value, base, upper)
  {
    BelowPower20(value);
    var v := value;
    len := 0;
    while v > 0 && len < 32
      invariant 0 <= v && 0 <= len <= 20 && Collects(value, v, base, upper, tmp[..len])
      decreases v
    {
      ghost var before := tmp[..len];
      var digit, rest := v % base, v / base;
      CollectsOneMore(value, v, base, upper, before, digit, rest);
      tmp[len] := DigitByte(digit, upper);
      assert tmp[..len + 1] == before + [DigitByte(digit, upper)];
      len := len + 1;
      v := rest;
    }
  }

  method AppendUnsigned(buffer: array<byte>, size: nat, pos: nat, value: uint64, base: Base, upper: bool,
                        ghost text: seq<byte>)
    returns (after: nat)
    requires Holds(buffer[..], size, pos, text)
    modifies buffer
    ensures Holds(buffer[..], size, after, text + Numeral(value, base, upper))
    ensures OnlyWithin(buffer, size)
  {
    if value == 0 {
      after := AppendChar(buffer, size, pos, '0' as int, text);
      return;
    }
    var tmp := new byte[32];
    var len := CollectDigits(value, base, upper, tmp);
    after := AppendBackwards(buffer, size, pos, tmp, len, text);
  }

  /** The digits of the scratch array, from the last one collected to the first. */
  method AppendBackwards(buffer: array<byte>, size: nat, pos: nat, tmp: array<byte>, count: nat,
                         ghost text: seq<byte>)
    returns (after: nat)
    requires Holds(buffer[..], size, pos, text) && count <= tmp.Length && tmp != buffer
    modifies buffer
    ensures Holds(buffer[..], size, after, text + Backwards(tmp[..count]))
    ensures OnlyWithin(buffer, size)
  {
    ghost var whole, done := text + Backwards(tmp[..count]), text;
    var len := count;
    after := pos;
    while len > 0
      invariant 0 <= len <= tmp.Length
      invariant Holds(buffer[..], size, after, done) && OnlyWithin(buffer, size)
      invariant done + Backwards(tmp[..len]) == whole
    {
      len := len - 1;
      assert tmp[..len + 1] == tmp[..len] + [tmp[len]];
      BackwardsOneMore(tmp[..len], tmp[len]);
      assert done + [tmp[len]] + Backwards(tmp[..len]) == done + ([tmp[len]] + Backwards(tmp[..len]));
      after := AppendChar(buffer, size, after, tmp[len], done);
      done := done + [tmp[len]];
    }
    assert done == whole;
  }

  method AppendSigned(buffer: array<byte>, size: nat, pos: nat, value: int64, ghost text: seq<byte>)
    returns (after: nat)
    requires Holds(buffer[..], size, pos, text)
    modifies buffer
    ensures Holds(buffer[..], size, after, text + Signed(value))
    ensures OnlyWithin(buffer, size)
  {
    if value < 0 {
      after := AppendChar(buffer, size, pos, '-' as int, text);
      var magnitude: uint64 := -(value + 1) + 1;
      after := AppendUnsigned(buffer, size, after, magnitude, 10, false, text + ['-' as int]);
      NegativeIs(value, magnitude, text);
    } else {
      after := AppendUnsigned(buffer, size, pos, value, 10, false, text);
    }
  }

  /** The text of an argument. */
  method AppendArgument(buffer: array<byte>, size: nat, pos: nat, a: Arg, ghost text: seq<byte>)
    returns (after: nat)
    requires Holds(buffer[..], size, pos, text)
    modifies buffer
    ensures Holds(buffer[..], size, after, text + Shown(a))
    ensures OnlyWithin(buffer, size)
  {
    match a
    case Text(s) => after := AppendString(buffer, size, pos, s, text);
    case Number(v) => after := AppendSigned(buffer, size, pos, v, text);
    case Unsigned(u) => after := AppendUnsigned(buffer, size, pos, u, 16, false, text);
    case Character(c) => after := AppendChar(buffer, size, pos, c % 256, text);
  }

  /** The text of what the format has at a position. */
  method AppendPiece(buffer: array<byte>, size: nat, pos: nat, fmt: CString, p: nat, args: seq<Arg>,
                     ghost text: seq<byte>)
    returns (after: nat)
    requires Holds(buffer[..], size, pos, text) && p < |fmt| && Takes(fmt, p, args)
    modifies buffer
    ensures Holds(buffer[..], size, after, text + Piece(fmt, p, args))
    ensures OnlyWithin(buffer, size)
  {
    if fmt[p] != '%' as int {
      after := AppendChar(buffer, size, pos, fmt[p], text);
      return;
    }
    var c := At(fmt, p + 1);
    if IsSpecifier(c) {
      after := AppendArgument(buffer, size, pos, args[0], text);
    } else if c == '%' as int || c == 0 {
      after := AppendChar(buffer, size, pos, '%' as int, text);
    } else {
      after := AppendChar(buffer, size, pos, '%' as int, text);
      after := AppendChar(buffer, size, after, c, text + ['%' as int]);
      assert text + ['%' as int] + [c] == text + (['%' as int] + [c]);
    }
  }

  /** `log_format_message`: the first characters of the text that fit, then a zero byte. */
  method FormatMessage(buffer: array<byte>, size: nat, fmt: CString, args: seq<Arg>)
    requires size <= buffer.Length && Takes(fmt, 0, args)
    modifies buffer
    ensures size > 0 ==> Shows(buffer[..], size, Formatted(fmt, 0, args))
    ensures OnlyWithin(buffer, size)
  {
    if size == 0 {
      return;
    }
    ghost var whole, text: seq<byte> := Formatted(fmt, 0, args), [];
    var pos, p, left := 0, 0, args;
    while At(fmt, p) != 0
      invariant 0 <= p && 0 <= pos && Splits(whole, text, fmt, p, left)
      invariant Holds(buffer[..], size, pos, text) && OnlyWithin(buffer, size)
      decreases |fmt| - p
    {
      SplitsLater(whole, text, fmt, p, left);
      pos := AppendPiece(buffer, size, pos, fmt, p, left, text);
      text := text + Piece(fmt, p, left);
      p, left := Next(fmt, p), Remaining(fmt, p, left);
    }
    assert text == whole;
    if pos >= size {
      buffer[size - 1] := 0;
    } else {
      buffer[pos] := 0;
    }
  }
}
