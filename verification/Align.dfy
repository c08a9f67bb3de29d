/** The two roundings to a multiple of a size: by masking bits, and by dividing and multiplying,
    on unsigned integers of any width. */
module Align {
  import U = Uint32

  function Pow2(w: nat): (p: nat)
    ensures p > 0
  {
    if w == 0 then 1 else 2 * Pow2(w - 1)
  }

  /** The bitwise "and" of the low `w` bits. */
  function And(w: nat, x: nat, y: nat): nat {
    if w == 0 then 0 else 2 * And(w - 1, x / 2, y / 2) + (x % 2) * (y % 2)
  }

  /** The bitwise complement of a `w`-bit number. */
  function Not(w: nat, x: nat): nat
    requires x < Pow2(w)
  {
    Pow2(w) - 1 - x
  }

  function Wrap(w: nat, x: nat): (r: nat)
    ensures r < Pow2(w)
  {
    x % Pow2(w)
  }

  function Times(m: nat, size: nat): nat {
    m * size
  }

  function MarAlignUp(w: nat, addr: nat, size: nat): nat
    requires 0 < size <= Pow2(w)
  {
    And(w, Wrap(w, addr + (size - 1)), Not(w, size - 1))
  }

  function QbRoundUp(w: nat, x: nat, y: nat): nat
    requires y > 0
  {
    Times(Wrap(w, x + (y - 1)) / y, y)
  }

  ghost predicate PowerOfTwo(size: nat) {
    exists k: nat :: size == Pow2(k)
  }

  // ---------- masks

  lemma {:induction false} AndOnes(w: nat, x: nat)
    requires x < Pow2(w)
    ensures And(w, x, Pow2(w) - 1) == x
  {
    if w > 0 {
      AndOnes(w - 1, x / 2);
      assert (Pow2(w) - 1) / 2 == Pow2(w - 1) - 1;
    }
  }

  lemma HalfQuotient(x: nat, p: nat)
    requires p > 0
    ensures x / (2 * p) == x / 2 / p
  {
    var q, r := x / 2 / p, x / 2 % p;
    assert x / 2 == q * p + r;
    assert x == 2 * (q * p + r) + x % 2;
    assert x == q * (2 * p) + (2 * r + x % 2);
    QuotientIs(x, 2 * p, q, 2 * r + x % 2);
  }

  lemma QuotientIs(x: nat, n: nat, q: nat, r: nat)
    requires n > 0 && r < n && x == q * n + r
    ensures x / n == q && x % n == r
  {
    var d := x / n - q;
    assert d * n == r - x % n;
    U.AtLeastOneTimes(d, n);
    U.AtLeastOneTimes(-d, n);
  }

  function RoundDown(x: nat, p: nat): nat
    requires p > 0
  {
    x / p * p
  }

  /** Masking off the low `k` bits is rounding down to a multiple of 2^k. */
  lemma {:induction false} AndMask(w: nat, x: nat, k: nat)
    requires x < Pow2(w) && k <= w
    requires Pow2(k) <= Pow2(w)
    ensures And(w, x, Pow2(w) - Pow2(k)) == RoundDown(x, Pow2(k))
  {
    hide And, RoundDown;
    if k == 0 {
      AndOnes(w, x);
      RoundDownToOne(x);
    } else {
      PowMonotone(k - 1, w - 1);
      AndMask(w - 1, x / 2, k - 1);
      MaskStep(w, x, Pow2(w - 1), Pow2(k - 1), Pow2(w) - Pow2(k), Pow2(k));
    }
  }

  lemma RoundDownToOne(x: nat)
    ensures RoundDown(x, 1) == x
  {
  }

  lemma MaskStep(w: nat, x: nat, top: nat, p: nat, mask: nat, p2: nat)
    requires w > 0 && 0 < p <= top && mask == 2 * (top - p) && p2 == 2 * p
    requires And(w - 1, x / 2, top - p) == RoundDown(x / 2, p)
    ensures And(w, x, mask) == RoundDown(x, p2)
  {
    AndEven(w, x, top - p);
    HalfQuotient(x, p);
    DoubleProduct(x / 2 / p, p);
  }

  lemma DoubleProduct(q: nat, p: nat)
    ensures 2 * (q * p) == q * (2 * p)
  {
  }

  lemma AndEven(w: nat, x: nat, y: nat)
    requires w > 0
    ensures And(w, x, 2 * y) == 2 * And(w - 1, x / 2, y)
  {
    assert 2 * y / 2 == y && 2 * y % 2 == 0;
  }

  lemma {:induction false} PowMonotone(j: nat, k: nat)
    requires j <= k
    ensures Pow2(j) <= Pow2(k)
  {
    if j < k {
      PowMonotone(j, k - 1);
    }
  }

  lemma {:induction false} PowInverse(k: nat, w: nat)
    requires Pow2(k) <= Pow2(w)
    ensures k <= w
  {
    if k > w {
      PowMonotone(w, k - 1);
    }
  }

  /** For every power of two the two roundings agree on all addresses, overflowing or not. */
  lemma RoundingsAgree(w: nat, addr: nat, size: nat)
    requires 0 < size <= Pow2(w) && PowerOfTwo(size)
    ensures MarAlignUp(w, addr, size) == QbRoundUp(w, addr, size)
  {
    var k: nat :| size == Pow2(k);
    PowInverse(k, w);
    AndMask(w, Wrap(w, addr + (size - 1)), k);
  }

  /** `size & ~(size - 1)` isolates the lowest bit of the size, so it is the size only for powers of two. */
  lemma {:induction false} LowestBit(w: nat, size: nat)
    requires 0 < size < Pow2(w)
    requires And(w, size, Not(w, size - 1)) == size
    ensures PowerOfTwo(size)
  {
    var h := size / 2;
    if size == 1 {
      assert size == Pow2(0);
    } else if size % 2 == 1 {
      assert Not(w, size - 1) == 2 * Not(w - 1, h) + 1;
      AndWithNot(w - 1, h);
    } else {
      assert Not(w, size - 1) == 2 * Not(w - 1, h - 1);
      AndEven(w, size, Not(w - 1, h - 1));
      LowestBit(w - 1, h);
      DoublePower(h);
    }
  }

  lemma DoublePower(h: nat)
    requires PowerOfTwo(h)
    ensures PowerOfTwo(2 * h)
  {
    var k: nat :| h == Pow2(k);
    assert 2 * h == Pow2(k + 1);
  }

  lemma {:induction false} AndWithNot(w: nat, x: nat)
    requires x < Pow2(w)
    ensures And(w, x, Not(w, x)) == 0
  {
    if w > 0 {
      assert Not(w, x) / 2 == Not(w - 1, x / 2);
      AndWithNot(w - 1, x / 2);
    }
  }

  /** The roundings agree on all addresses exactly for the powers of two. */
  lemma AgreeExactlyForPowers(w: nat, size: nat)
    requires 0 < size < Pow2(w)
    ensures (forall addr: nat :: MarAlignUp(w, addr, size) == QbRoundUp(w, addr, size)) <==> PowerOfTwo(size)
  {
    if PowerOfTwo(size) {
      forall addr: nat
        ensures MarAlignUp(w, addr, size) == QbRoundUp(w, addr, size)
      {
        RoundingsAgree(w, addr, size);
      }
    } else if forall addr: nat :: MarAlignUp(w, addr, size) == QbRoundUp(w, addr, size) {
      assert MarAlignUp(w, 1, size) == QbRoundUp(w, 1, size);
      QuotientIs(size, Pow2(w), 0, size);
      QuotientIs(size, size, 1, 0);
      LowestBit(w, size);
    }
  }

  ghost predicate LeastMultiple(r: nat, addr: nat, size: nat) {
    && addr <= r && (exists m: nat :: r == Times(m, size))
    && forall m: nat :: addr <= Times(m, size) ==> r <= Times(m, size)
  }

  /** The rounded value is the least multiple of the size that is not below the address exactly
      when adding the size less one does not overflow. */
  lemma RoundUpIsLeastMultiple(w: nat, addr: nat, size: nat)
    requires 0 < size <= Pow2(w) && addr < Pow2(w)
    ensures LeastMultiple(QbRoundUp(w, addr, size), addr, size) <==> addr + (size - 1) < Pow2(w)
  {
    var x, p := addr + (size - 1), Pow2(w);
    if x < p {
      QuotientIs(x, p, 0, x);
      LeastMultipleBelow(addr, size);
    } else {
      QuotientIs(x, p, 1, x - p);
      QuotientIs(x - p, size, 0, x - p);
    }
  }

  lemma TimesMonotone(a: nat, b: nat, size: nat)
    requires a <= b
    ensures Times(a, size) <= Times(b, size)
    ensures Times(a + 1, size) == Times(a, size) + size
  {
  }

  lemma Division(x: nat, size: nat)
    requires size > 0
    ensures Times(x / size, size) <= x < Times(x / size, size) + size
  {
  }

  lemma LeastMultipleBelow(addr: nat, size: nat)
    requires size > 0
    ensures LeastMultiple(Times((addr + (size - 1)) / size, size), addr, size)
  {
    hide Times;
    var q := (addr + (size - 1)) / size;
    Division(addr + (size - 1), size);
    forall m: nat | addr <= Times(m, size)
      ensures Times(q, size) <= Times(m, size)
    {
      TimesMonotone(m, m, size);
      if m < q {
        TimesMonotone(m + 1, q, size);
      } else {
        TimesMonotone(q, m, size);
      }
    }
  }
}
