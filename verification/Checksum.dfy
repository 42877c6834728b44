/** The Internet checksum of ipv4.c against its definition in RFC 1071. */
module Checksum {
  import opened CTypes

  /** The 16-bit word at an even position; an odd last byte is padded with zero. */
  function WordAt(d: seq<byte>, i: nat): uint16
    requires i < |d|
  {
    d[i] as int * 256 + At(d, i + 1)
  }

  /** The exact sum of the words before `2 * n`. */
  function WordSum(d: seq<byte>, n: nat): nat
    requires 2 * n <= |d| + 1
  {
    if n == 0 then 0 else WordSum(d, n - 1) + WordAt(d, 2 * n - 2)
  }

  function Words(d: seq<byte>): nat { (|d| + 1) / 2 }

  function Total(d: seq<byte>): nat { WordSum(d, Words(d)) }

  // ----- Section 2 of RFC 1071 -----

  /** One's complement addition: the carry out of the top bit is added back at the bottom. */
  function AddWrap(a: uint16, b: uint16): uint16 {
    if a + b < 0x1_0000 then a + b else a + b - 0xFFFF
  }

  function OnesSum(d: seq<byte>, n: nat): uint16
    requires 2 * n <= |d| + 1
  {
    if n == 0 then 0 else AddWrap(OnesSum(d, n - 1), WordAt(d, 2 * n - 2))
  }

  /** The complement of the one's complement sum. */
  function Rfc1071(d: seq<byte>): uint16 {
    0xFFFF - OnesSum(d, Words(d))
  }

  // ----- What the code computes -----

  /** A number of at most 16 bits, congruent modulo 65535, and zero only for zero. */
  function Norm(s: nat): uint16 {
    if s == 0 then 0 else (s - 1) % 0xFFFF + 1
  }

  lemma NormSmall(s: uint16)
    ensures Norm(s) == s
  {
  }

  lemma NormAdd(a: nat, b: uint16)
    ensures AddWrap(Norm(a), b) == Norm(a + b)
  {
    if a > 0 && b > 0 {
      assert (a + b - 1) % 0xFFFF == ((a - 1) % 0xFFFF + b) % 0xFFFF;
    }
  }

  lemma {:induction false} OnesSumIs(d: seq<byte>, n: nat)
    requires 2 * n <= |d| + 1
    ensures OnesSum(d, n) == Norm(WordSum(d, n))
    decreases n
  {
    if n > 0 {
      OnesSumIs(d, n - 1);
      NormAdd(WordSum(d, n - 1), WordAt(d, 2 * n - 2));
    }
  }

  /** One folding step adds the carries back. */
  lemma FoldStep(s: nat)
    requires s >= 0x1_0000
    ensures s % 0x1_0000 + s / 0x1_0000 < s
    ensures Norm(s % 0x1_0000 + s / 0x1_0000) == Norm(s)
  {
  }

  lemma {:induction false} SubtractMultiples(a: nat, q: nat)
    ensures (a + 0xFFFF * q) % 0xFFFF == a % 0xFFFF
    decreases q
  {
    if q > 0 {
      SubtractMultiples(a, q - 1);
      assert a + 0xFFFF * q == a + 0xFFFF * (q - 1) + 0xFFFF;
    }
  }

  lemma OneMoreWord(d: seq<byte>, i: nat, sum: uint32)
    requires i % 2 == 0 && i < |d| && sum == WordSum(d, i / 2) % 0x1_0000_0000
    ensures U32(sum + WordAt(d, i)) == WordSum(d, i / 2 + 1) % 0x1_0000_0000
  {
    assert 2 * (i / 2 + 1) - 2 == i;
    WrappedAdd(WordSum(d, i / 2), WordAt(d, i));
  }

  lemma WrappedAdd(s: nat, w: uint16)
    ensures U32(s % 0x1_0000_0000 + w) == (s + w) % 0x1_0000_0000
  {
    var r := s % 0x1_0000_0000 + w;
    assert s + w == 0x1_0000_0000 * (s / 0x1_0000_0000) + r;
    if r >= 0x1_0000_0000 {
      assert s + w == 0x1_0000_0000 * (s / 0x1_0000_0000 + 1) + (r - 0x1_0000_0000);
    }
  }

  /** The loop over the words; the sum is a 32-bit register. */
  method SumWords(bytes: array<byte>, length: nat) returns (sum: uint32)
    requires length <= bytes.Length
    ensures sum == Total(bytes[..length]) % 0x1_0000_0000
  {
    ghost var d := bytes[..length];
    sum := 0;
    var i := 0;
    while length - i > 1
      invariant 0 <= i <= length && i % 2 == 0
      invariant sum == WordSum(d, i / 2) % 0x1_0000_0000
    {
      OneMoreWord(d, i, sum);
      sum := U32(sum + (bytes[i] as int * 256 + bytes[i + 1]));
      i := i + 2;
    }
    if length - i > 0 {
      OneMoreWord(d, i, sum);
      sum := U32(sum + bytes[i] as int * 256);
    }
  }

  /** The loop that folds the carries. */
  method FoldCarries(s: uint32) returns (r: uint16)
    ensures r == Norm(s)
  {
    var sum := s;
    while sum / 0x1_0000 != 0
      invariant Norm(sum) == Norm(s)
      decreases sum
    {
      FoldStep(sum);
      sum := sum % 0x1_0000 + sum / 0x1_0000;
    }
    NormSmall(sum);
    return sum;
  }

  /** `ipv4_checksum`. */
  method Ipv4Checksum(bytes: array<byte>, length: nat) returns (c: uint16)
    requires length <= bytes.Length
    ensures c == 0xFFFF - Norm(Total(bytes[..length]) % 0x1_0000_0000)
    ensures length <= 131074 ==> c == Rfc1071(bytes[..length])
  {
    var sum := SumWords(bytes, length);
    var folded := FoldCarries(sum);
    if length <= 131074 {
      ShortDataFits(bytes[..length]);
      ChecksumIsRfc1071(bytes[..length]);
    }
    return 0xFFFF - folded;
  }

  // ----- When that is the Internet checksum -----

  lemma {:induction false} WordSumBound(d: seq<byte>, n: nat)
    requires 2 * n <= |d| + 1
    ensures WordSum(d, n) <= 0xFFFF * n
    decreases n
  {
    if n > 0 {
      WordSumBound(d, n - 1);
    }
  }

  /** Losing carries out of 32 bits loses that many units: fewer than 65535 losses always show. */
  lemma LostCarriesShow(s: nat, k: nat)
    requires 0 < k < 0xFFFF && s >= k * 0x1_0000_0000
    ensures Norm(s - k * 0x1_0000_0000) != Norm(s)
  {
    var r := s - k * 0x1_0000_0000;
    if r > 0 {
      assert s - 1 == (r - 1 + k) + 0xFFFF * (k * 0x1_0001);
      SubtractMultiples(r - 1 + k, k * 0x1_0001);
      assert (r - 1 + k) % 0xFFFF != (r - 1) % 0xFFFF;
    }
  }

  /**
   * For every length the 32-bit interface can name, the code computes the Internet checksum exactly when
   * the sum of the words fits its 32-bit register.
   */
  lemma ChecksumIsRfc1071(d: seq<byte>)
    requires |d| < 0x1_0000_0000
    ensures 0xFFFF - Norm(Total(d) % 0x1_0000_0000) == Rfc1071(d) <==> Total(d) < 0x1_0000_0000
  {
    var s := Total(d);
    OnesSumIs(d, Words(d));
    WordSumBound(d, Words(d));
    if s >= 0x1_0000_0000 {
      LostCarriesShow(s, s / 0x1_0000_0000);
    }
  }

  /** It fits for up to 131,074 bytes, whatever they are. */
  lemma ShortDataFits(d: seq<byte>)
    requires |d| <= 131074
    ensures Total(d) < 0x1_0000_0000
  {
    WordSumBound(d, Words(d));
  }

  lemma {:induction false} OnesTotal(d: seq<byte>, n: nat)
    requires 2 * n <= |d| && forall i :: 0 <= i < |d| ==> d[i] == 0xFF
    ensures WordSum(d, n) == 0xFFFF * n
    decreases n
  {
    if n > 0 {
      OnesTotal(d, n - 1);
    }
  }

  /** That bound cannot be raised. */
  lemma BoundIsTight(d: seq<byte>)
    requires forall i :: 0 <= i < |d| ==> d[i] == 0xFF
    ensures Total(d) < 0x1_0000_0000 <==> |d| <= 131074
  {
    OnesTotal(d, |d| / 2);
    if |d| % 2 == 1 {
      assert Total(d) == WordSum(d, |d| / 2) + WordAt(d, |d| - 1);
    }
  }

  // ----- Packets that carry their own checksum -----

  /** A packet with its checksum in the word at an even position. */
  function Sealed(d: seq<byte>, at: nat, c: uint16): (p: seq<byte>)
    requires at + 1 < |d|
    ensures |p| == |d|
  {
    d[at := c / 256][at + 1 := c % 256]
  }

  /** Replacing a word moves the sum by the difference. */
  lemma {:induction false} ReplaceWord(d: seq<byte>, e: seq<byte>, at: nat, n: nat)
    requires at % 2 == 0 && at + 1 < |d| == |e| && 2 * n <= |d| + 1
    requires forall i :: 0 <= i < |d| && i != at && i != at + 1 ==> d[i] == e[i]
    ensures WordSum(e, n) - WordSum(d, n) == if at < 2 * n then WordAt(e, at) - WordAt(d, at) else 0
    decreases n
  {
    if n > 0 {
      ReplaceWord(d, e, at, n - 1);
      if 2 * n - 2 != at {
        assert WordAt(d, 2 * n - 2) == WordAt(e, 2 * n - 2);
      }
    }
  }

  lemma ComplementCloses(s: nat, c: uint16)
    requires c == 0xFFFF - Norm(s)
    ensures Norm(s + c) == 0xFFFF
  {
  }

  /** A packet whose checksum word was zero when the checksum was taken sums up to zero afterwards. */
  lemma SealedSumsToZero(d: seq<byte>, at: nat)
    requires at % 2 == 0 && at + 1 < |d| <= 131074 && d[at] == 0 && d[at + 1] == 0
    ensures Rfc1071(Sealed(d, at, Rfc1071(d))) == 0
  {
    var c := Rfc1071(d);
    var p := Sealed(d, at, c);
    ReplaceWord(d, p, at, Words(d));
    assert Total(p) == Total(d) + c;
    OnesSumIs(d, Words(d));
    OnesSumIs(p, Words(p));
    ComplementCloses(Total(d), c);
  }

  lemma SameNorm(s: nat, a: uint16, b: uint16)
    requires Norm(s + a) == 0xFFFF
    ensures Norm(s + b) == 0xFFFF <==> a == b || (a == 0 && b == 0xFFFF && s > 0) || (a == 0xFFFF && b == 0 && s > 0)
  {
  }

  /** A packet with one word changed is noticed, unless all zeros became all ones or the reverse. */
  lemma OneWordChangeShows(p: seq<byte>, q: seq<byte>, at: nat)
    requires at % 2 == 0 && at + 1 < |p| == |q| <= 131074
    requires forall i :: 0 <= i < |p| && i != at && i != at + 1 ==> p[i] == q[i]
    requires Rfc1071(p) == 0 && Total(q) > 0
    ensures Rfc1071(q) == 0 <==>
      var a, b := WordAt(p, at), WordAt(q, at);
      a == b || (a == 0 && b == 0xFFFF) || (a == 0xFFFF && b == 0)
  {
    var a, b := WordAt(p, at), WordAt(q, at);
    ReplaceWord(p, q, at, Words(p));
    OnesSumIs(p, Words(p));
    OnesSumIs(q, Words(q));
    ContainsWord(p, at, Words(p));
    SameNorm(Total(p) - a, a, b);
  }

  lemma {:induction false} ContainsWord(d: seq<byte>, at: nat, n: nat)
    requires at % 2 == 0 && at < 2 * n <= |d| + 1
    ensures WordSum(d, n) >= WordAt(d, at)
    decreases n
  {
    if at < 2 * n - 2 {
      ContainsWord(d, at, n - 1);
    }
  }
}
