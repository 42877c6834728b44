/** Masks on unsigned registers, as arithmetic. */
module Bits {

  function Pow2(k: nat): (p: nat)
    ensures p >= 1
  {
    if k == 0 then 1 else 2 * Pow2(k - 1)
  }

  /** Bitwise and. */
  function And(a: nat, b: nat): nat {
    if a == 0 then 0 else (a % 2) * (b % 2) + 2 * And(a / 2, b / 2)
  }

  /** Bitwise complement in a register with `m` values. */
  function Not(a: nat, m: nat): nat
    requires a < m
  {
    m - 1 - a
  }

  /** The low `k` bits, and the others. */
  function Low(v: nat, k: nat): (r: nat)
    ensures r < Pow2(k)
  {
    if k == 0 then 0 else v % 2 + 2 * Low(v / 2, k - 1)
  }

  function High(v: nat, k: nat): nat {
    if k == 0 then v else High(v / 2, k - 1)
  }

  lemma DoubleFactor(h: nat, p: nat, l: nat, v: nat)
    requires v / 2 == h * p + l
    ensures v == h * (2 * p) + (v % 2 + 2 * l)
  {
  }

  lemma {:induction false} HighAndLow(v: nat, k: nat)
    ensures v == High(v, k) * Pow2(k) + Low(v, k)
    decreases k
  {
    if k > 0 {
      HighAndLow(v / 2, k - 1);
      DoubleFactor(High(v / 2, k - 1), Pow2(k - 1), Low(v / 2, k - 1), v);
    }
  }

  lemma {:induction false} AllOnes(v: nat, w: nat)
    requires v < Pow2(w)
    ensures And(v, Pow2(w) - 1) == v
    decreases w
  {
    if w > 0 {
      AllOnes(v / 2, w - 1);
      assert (Pow2(w) - 1) % 2 == 1 && (Pow2(w) - 1) / 2 == Pow2(w - 1) - 1;
    }
  }

  /** A mask of the upper bits clears the low ones. */
  lemma {:induction false} MaskClears(v: nat, k: nat, w: nat)
    requires k <= w && v < Pow2(w)
    ensures Pow2(k) <= Pow2(w) && And(v, Pow2(w) - Pow2(k)) == v - Low(v, k)
    decreases w
  {
    if k == 0 {
      AllOnes(v, w);
    } else {
      MaskClears(v / 2, k - 1, w - 1);
      EvenMask(v, Pow2(w - 1), Pow2(k - 1));
    }
  }

  lemma EvenMask(v: nat, p: nat, q: nat)
    requires q <= p
    ensures And(v, 2 * p - 2 * q) == 2 * And(v / 2, p - q)
  {
  }

  /** `align_up` as kheap.c writes it, in a register with `m` values. */
  function AlignUp(value: nat, alignment: nat, m: nat): nat
    requires 0 < alignment < m
  {
    And((value + alignment - 1) % m, Not(alignment - 1, m))
  }

  lemma {:induction false} SmallerPower(k: nat, w: nat)
    requires k < w
    ensures Pow2(k) < Pow2(w)
    decreases w
  {
    if k < w - 1 {
      SmallerPower(k, w - 1);
    }
  }

  predicate IsMultiple(m: nat, k: nat) {
    m == High(m, k) * Pow2(k)
  }

  lemma MultipleByFactor(q: nat, k: nat)
    ensures IsMultiple(q * Pow2(k), k)
  {
    FactorHigh(q, k);
  }

  lemma {:induction false} FactorHigh(q: nat, k: nat)
    ensures High(q * Pow2(k), k) == q
    decreases k
  {
    if k > 0 {
      FactorHigh(q, k - 1);
      assert q * Pow2(k) == 2 * (q * Pow2(k - 1));
    }
  }

  lemma SmallRemainder(s: nat, m: nat)
    requires s < m
    ensures s % m == s
  {
  }

  lemma AlignUpIs(value: nat, a: nat, m: nat, k: nat, w: nat)
    requires k < w && a == Pow2(k) < Pow2(w) == m && value + a - 1 < m
    ensures AlignUp(value, a, m) == High(value + a - 1, k) * a
    ensures value <= AlignUp(value, a, m) < value + a
  {
    var s := value + a - 1;
    SmallRemainder(s, m);
    MaskClears(s, k, w);
    HighAndLow(s, k);
  }

  /**
   * For every alignment that is a power of two it yields the least multiple not below its argument,
   * unless that needs one bit more than the register has.
   */
  lemma AlignUpIsLeast(value: nat, a: nat, m: nat, k: nat, w: nat, other: nat)
    requires k < w && a == Pow2(k) < Pow2(w) == m && value + a - 1 < m
    ensures IsMultiple(AlignUp(value, a, m), k)
    ensures value <= AlignUp(value, a, m) < value + a
    ensures IsMultiple(other, k) && other >= value ==> other >= AlignUp(value, a, m)
  {
    var q := High(value + a - 1, k);
    AlignUpIs(value, a, m, k, w);
    MultipleByFactor(q, k);
    if IsMultiple(other, k) && other < AlignUp(value, a, m) {
      SmallerMultiple(High(other, k), q, a);
    }
  }

  lemma {:induction false} Monotone(a: nat, b: nat, p: nat)
    requires a <= b
    ensures a * p <= b * p
    decreases b - a
  {
    if a < b {
      Monotone(a, b - 1, p);
      assert b * p == (b - 1) * p + p;
    }
  }

  lemma SmallerMultiple(a: nat, b: nat, p: nat)
    requires a * p < b * p
    ensures a * p + p <= b * p
  {
    if a >= b {
      Monotone(b, a, p);
    } else {
      Monotone(a + 1, b, p);
      assert (a + 1) * p == a * p + p;
    }
  }
}
