/** The C integer and string types the kernel sources rely on. */
module CTypes {

  type byte = b: int | 0 <= b < 0x100

  type uint16 = n: int | 0 <= n < 0x1_0000

  type uint32 = n: int | 0 <= n < 0x1_0000_0000

  const TWO32: int := 0x1_0000_0000

  /** Reduction of an exact result to a 32-bit unsigned register. */
  function U32(n: int): uint32 {
    n % 0x1_0000_0000
  }

  /** The bytes of a C string, without the terminating zero byte. */
  type CString = s: seq<byte> | forall i :: 0 <= i < |s| ==> s[i] != 0

  /** What reading `s[i]` yields in C for `i` up to and including the length of `s`. */
  function At(s: seq<byte>, i: nat): byte {
    if i < |s| then s[i] else 0
  }

  function Zeros(n: nat): (z: seq<byte>)
    ensures |z| == n && forall i :: 0 <= i < n ==> z[i] == 0
  {
    seq(n, _ => 0)
  }

  /** The bytes of a text literal. */
  function Bytes(s: string): (b: CString)
    requires forall i :: 0 <= i < |s| ==> 0 < s[i] as int < 128
    ensures |b| == |s| && forall i :: 0 <= i < |s| ==> b[i] == s[i] as int
  {
    seq(|s|, i requires 0 <= i < |s| => s[i] as int)
  }

  /** The C string held by a byte buffer: everything before the first zero byte. */
  function Terminated(b: seq<byte>): (s: CString)
    ensures |s| <= |b| && s == b[..|s|]
    ensures |s| < |b| ==> b[|s|] == 0
  {
    if |b| == 0 || b[0] == 0 then [] else Prepend(b[0], Terminated(b[1..]))
  }

  function Prepend(c: byte, s: CString): (r: CString)
    requires c != 0
    ensures r == [c] + s
  {
    assert forall i :: 0 < i < 1 + |s| ==> ([c] + s)[i] == s[i - 1];
    [c] + s
  }

  function Append(a: CString, b: CString): (r: CString)
    ensures r == a + b
  {
    assert forall i :: 0 <= i < |a| + |b| ==> (a + b)[i] == if i < |a| then a[i] else b[i - |a|];
    a + b
  }

  /** A buffer without a zero byte is all string. */
  lemma {:induction false} TerminatedOfString(s: CString)
    ensures Terminated(s) == s
    decreases |s|
  {
    if s == [] {
    } else {
      TerminatedOfString(From(s, 1));
    }
  }

  /** The C string from a position on. */
  function From(s: CString, p: nat): (r: CString)
    requires p <= |s|
    ensures r == s[p..]
  {
    assert forall i :: 0 <= i < |s| - p ==> s[p..][i] == s[p + i];
    s[p..]
  }

  /** The part of a C string between two positions. */
  function Sub(s: CString, a: nat, b: nat): (r: CString)
    requires a <= b <= |s|
    ensures r == s[a..b]
  {
    assert forall i :: 0 <= i < b - a ==> s[a..b][i] == s[a + i];
    s[a..b]
  }

  /** What a bounded copy keeps of a C string. */
  function Clip(s: CString, size: nat): (r: CString)
    requires size > 0
    ensures |r| < size && r <= s && (|s| < size ==> r == s)
  {
    if |s| < size then s else s[..size - 1]
  }

  /** At most the first `max` bytes. */
  function Cut(s: seq<byte>, max: nat): (r: seq<byte>)
    ensures |r| <= max && r <= s
  {
    if |s| <= max then s else s[..max]
  }

  /** Where `s` and `whole` both start with `front + line`, as far as `s` reaches. */
  lemma InPrefixes(s: seq<byte>, whole: seq<byte>, front: seq<byte>, line: seq<byte>, i: nat)
    requires s <= whole && |front| + i < |s| && i < |line|
    requires |front + line| <= |whole| && whole[..|front + line|] == front + line
    ensures s[|front| + i] == line[i]
  {
    assert s[|front| + i] == whole[|front| + i] == (front + line)[|front| + i];
  }

  lemma {:induction false} TerminatedIs(b: seq<byte>, s: CString)
    requires |s| < |b| && b[..|s|] == s && b[|s|] == 0
    ensures Terminated(b) == s
  {
  }

  /** Little-endian memory image of a 32-bit field. */
  function LE32(n: uint32): (b: seq<byte>)
    ensures |b| == 4
  {
    [n % 256, n / 256 % 256, n / 256 / 256 % 256, n / 256 / 256 / 256]
  }

  function FromLE32(b: seq<byte>): uint32
    requires |b| == 4
  {
    b[0] as int + 256 * (b[1] as int + 256 * (b[2] as int + 256 * b[3] as int))
  }

  lemma FromLE32OfLE32(n: uint32)
    ensures FromLE32(LE32(n)) == n
  {
  }

  lemma LE32OfFromLE32(b: seq<byte>)
    requires |b| == 4
    ensures LE32(FromLE32(b)) == b
  {
    var n: int := FromLE32(b);
    var n1, n2 := b[1] as int + 256 * (b[2] as int + 256 * b[3] as int), b[2] as int + 256 * b[3] as int;
    LowByte(n, b[0], n1);
    LowByte(n1, b[1], n2);
    LowByte(n2, b[2], b[3]);
    assert LE32(n) == [b[0], b[1], b[2], b[3]];
  }

  lemma LowByte(n: int, low: byte, rest: int)
    requires n == low + 256 * rest
    ensures n % 256 == low && n / 256 == rest
  {
  }
}
