/** The rollover-safe comparisons of 32-bit sequence ids, against the order of the unbounded
    ids that they abbreviate. */
module SequenceOrder {
  import opened Uint32

  const ADJUST_ROLLOVER_POINT: u32 := 0x8000_0000
  const ADJUST_ROLLOVER_VALUE: u32 := 0x1_0000

  predicate Less(a: u32, b: u32) {
    if a > ADJUST_ROLLOVER_POINT || b > ADJUST_ROLLOVER_POINT then
      Sub(a, ADJUST_ROLLOVER_VALUE) < Sub(b, ADJUST_ROLLOVER_VALUE)
    else
      a < b
  }

  predicate LessOrEqual(a: u32, b: u32) {
    if a > ADJUST_ROLLOVER_POINT || b > ADJUST_ROLLOVER_POINT then
      Sub(a, ADJUST_ROLLOVER_VALUE) <= Sub(b, ADJUST_ROLLOVER_VALUE)
    else
      a <= b
  }

  /** The order of the ids is right for the ideal ids `x` and `y`. */
  ghost predicate Agrees(x: int, y: int) {
    && (Less(Wrap(x), Wrap(y)) <==> x < y)
    && (LessOrEqual(Wrap(x), Wrap(y)) <==> x <= y)
  }

  lemma NearIdsAgree(x: int, y: int)
    requires -0x1_0000 <= y - x <= 0x1_0000
    ensures Agrees(x, y)
  {
  }

  /** The comparisons are right for all ids at most `distance` apart exactly up to 0x10000. */
  lemma AgreementBound(distance: nat)
    ensures (forall x, y :: y - x <= distance && x - y <= distance ==> Agrees(x, y)) <==> distance <= 0x1_0000
  {
    if distance <= 0x1_0000 {
      forall x, y | y - x <= distance && x - y <= distance
        ensures Agrees(x, y)
      {
        NearIdsAgree(x, y);
      }
    } else {
      var x, y := 0xFFFF_FFFF, 0x1_0001_0000;
      assert y - x <= distance && x - y <= distance && !Agrees(x, y);
    }
  }

  /** Over all pairs of ids exactly one of "before", "equal" and "after" holds. */
  lemma Trichotomy(a: u32, b: u32)
    ensures Less(a, b) <==> a != b && !Less(b, a)
    ensures LessOrEqual(a, b) <==> !Less(b, a)
  {
  }

  /** Below the adjustment, between it and the rollover point, beyond the point. */
  predicate Cycle(low: u32, middle: u32, high: u32) {
    low < ADJUST_ROLLOVER_VALUE <= middle <= ADJUST_ROLLOVER_POINT < high
  }

  /** Over all triples the order is transitive except on the cycles low, middle, high. */
  lemma TransitiveUnlessCycle(a: u32, b: u32, c: u32)
    requires Less(a, b) && Less(b, c)
    ensures !Less(a, c) <==> Cycle(a, b, c) || Cycle(b, c, a) || Cycle(c, a, b)
  {
  }
}
