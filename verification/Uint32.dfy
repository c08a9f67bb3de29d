/** 32-bit unsigned arithmetic with wrap-around. */
module Uint32 {
  type u32 = x: int | 0 <= x < 0x1_0000_0000

  function Wrap(x: int): (r: u32) {
    x % 0x1_0000_0000
  }

  function Add(a: u32, b: u32): u32 {
    Wrap(a + b)
  }

  function Sub(a: u32, b: u32): u32 {
    Wrap(a - b)
  }

  lemma WrapIs(x: int, q: int, r: u32)
    requires x == q * 0x1_0000_0000 + r
    ensures Wrap(x) == r
  {
  }

  /** Only the values modulo 2^32 of the terms of a sum matter. */
  lemma WrapAbsorbs(x: int, y: int)
    ensures Wrap(Wrap(x) + y) == Wrap(x + y)
    ensures Wrap(y - Wrap(x)) == Wrap(y - x)
  {
    WrapIs(x + y, x / 0x1_0000_0000 + (Wrap(x) + y) / 0x1_0000_0000, Wrap(Wrap(x) + y));
    WrapIs(y - x, -(x / 0x1_0000_0000) + (y - Wrap(x)) / 0x1_0000_0000, Wrap(y - Wrap(x)));
  }

  lemma WrapCases(x: int)
    ensures Wrap(x + 0x1_0000_0000) == Wrap(x)
    ensures -0x1_0000_0000 <= x < 0 ==> Wrap(x) == x + 0x1_0000_0000
    ensures 0 <= x < 0x1_0000_0000 ==> Wrap(x) == x
    ensures 0x1_0000_0000 <= x < 0x2_0000_0000 ==> Wrap(x) == x - 0x1_0000_0000
  {
  }

  lemma DifferenceOfWraps(x: int, y: int)
    ensures Sub(Wrap(x), Wrap(y)) == Wrap(x - y)
  {
  }

  lemma Opposite(x: int)
    ensures Wrap(-x) == if Wrap(x) == 0 then 0 else 0x1_0000_0000 - Wrap(x)
  {
  }

  /** The unsigned remainder, by repeated subtraction, which is how the proofs use it. */
  function Rem(x: nat, n: nat): (r: nat)
    requires n > 0
    ensures r < n
  {
    if x < n then x else Rem(x - n, n)
  }

  lemma {:induction false} RemIsModulo(x: nat, n: nat)
    requires n > 0
    ensures Rem(x, n) == x % n
  {
    if x >= n {
      RemIsModulo(x - n, n);
      RemainderStep(x, n);
    }
  }

  lemma RemainderStep(x: nat, n: nat)
    requires n > 0 && x >= n
    ensures (x - n) % n == x % n
  {
    var k, r, k', r' := x / n, x % n, (x - n) / n, (x - n) % n;
    var d := k' + 1 - k;
    assert d * n == r - r';
    AtLeastOneTimes(d, n);
    AtLeastOneTimes(-d, n);
  }

  lemma AtLeastOneTimes(d: int, n: nat)
    ensures d >= 1 ==> d * n >= n
  {
  }
}
