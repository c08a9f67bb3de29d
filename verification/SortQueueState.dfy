/** The value of a sort queue - what its structure and three buffers hold - and its operations
    as functions of that value, with the source's 32-bit arithmetic. */
module SortQueueState {
  import opened Uint32
  import opened SequenceOrder

  datatype Queue<T> = Queue(
    head: u32,
    size: u32,
    items: seq<T>,
    inuse: seq<u32>,
    missCount: seq<u32>,
    headSeqid: u32,
    posMax: u32)
  {
    /** The bounds on the size within which the rollover adjustment can work, and the buffers' shape. */
    ghost predicate WellFormed() {
      && 1 <= size <= ADJUST_ROLLOVER_VALUE
      && head < size && posMax < size
      && |items| == |inuse| == |missCount| == size
    }

    /** What `sq_assert` asserts: all slots above the highest one ever filled are free. */
    ghost predicate TailFree() {
      |inuse| == size && forall p :: posMax < p < size ==> inuse[p] == 0
    }
  }

  datatype Lookup<+T> = AssertionFailed | NoEntry | Found(item: T)

  /** The nonzero mark of an occupied slot. */
  function Tag(seqid: u32): u32 {
    if seqid == 0 then 1 else seqid
  }

  function Repeat<T>(x: T, n: nat): (r: seq<T>)
    ensures |r| == n && forall i :: 0 <= i < n ==> r[i] == x
  {
    seq(n, _ => x)
  }

  /** A buffer after `memset` of `count` elements from `start` on. */
  function Zeroed(s: seq<u32>, start: nat, count: nat): (r: seq<u32>)
    requires start + count <= |s|
    ensures |r| == |s|
    ensures forall i :: 0 <= i < |s| ==> r[i] == if start <= i < start + count then 0 else s[i]
  {
    s[..start] + Repeat(0, count) + s[start + count..]
  }

  // ---------- the operations

  function Init<T>(itemCount: u32, headSeqid: int, zero: T): Queue<T> {
    Queue(0, itemCount, Repeat(zero, itemCount), Repeat(0, itemCount), Repeat(0, itemCount), Wrap(headSeqid), 0)
  }

  function Reinit<T>(q: Queue<T>, headSeqid: u32, zero: T): Queue<T> {
    Init(q.size, headSeqid, zero)
  }

  /** The position as `sq_item_add` computes it. */
  function AddPosition<T>(q: Queue<T>, seqid: u32): u32
    requires q.size > 0
  {
    Rem(Sub(Uint32.Add(q.head, seqid), q.headSeqid), q.size)
  }

  /** The position as `sq_item_inuse`, `sq_item_miss_count` and the low branch of `sq_item_get` compute it. */
  function UsePosition<T>(q: Queue<T>, seqid: u32): u32
    requires q.size > 0
  {
    Rem(Uint32.Add(Sub(q.head, q.headSeqid), seqid), q.size)
  }

  /** The position as the high branch of `sq_item_get` computes it. */
  function AdjustedPosition<T>(q: Queue<T>, seqid: u32): u32
    requires q.size > 0
  {
    Rem(Uint32.Add(Sub(Sub(q.head, ADJUST_ROLLOVER_VALUE), Sub(q.headSeqid, ADJUST_ROLLOVER_VALUE)), seqid), q.size)
  }

  function ItemAdd<T>(q: Queue<T>, item: T, seqid: u32): Queue<T>
    requires q.WellFormed()
  {
    var p := AddPosition(q, seqid);
    q.(posMax := if p > q.posMax then p else q.posMax,
       items := q.items[p := item],
       inuse := q.inuse[p := Tag(seqid)],
       missCount := q.missCount[p := 0])
  }

  predicate ItemInuse<T>(q: Queue<T>, seqid: u32)
    requires q.WellFormed()
  {
    q.inuse[UsePosition(q, seqid)] != 0
  }

  predicate InRange<T>(q: Queue<T>, seqid: u32) {
    if q.headSeqid > ADJUST_ROLLOVER_POINT then
      var first := Sub(q.headSeqid, ADJUST_ROLLOVER_VALUE);
      !(Sub(seqid, ADJUST_ROLLOVER_VALUE) < first) && !(Sub(seqid, ADJUST_ROLLOVER_VALUE) >= Uint32.Add(first, q.size))
    else
      !(seqid < q.headSeqid) && !(seqid >= Uint32.Add(q.headSeqid, q.size))
  }

  predicate GetAssertion<T>(q: Queue<T>, seqid: u32) {
    if seqid > ADJUST_ROLLOVER_POINT then
      Sub(seqid, ADJUST_ROLLOVER_POINT) < Uint32.Add(Sub(q.headSeqid, ADJUST_ROLLOVER_POINT), q.size)
    else
      seqid < Uint32.Add(q.headSeqid, q.size)
  }

  function ItemGet<T>(q: Queue<T>, seqid: u32): Lookup<T>
    requires q.WellFormed()
  {
    if !GetAssertion(q, seqid) then
      AssertionFailed
    else
      var p := if seqid > ADJUST_ROLLOVER_POINT then AdjustedPosition(q, seqid) else UsePosition(q, seqid);
      if q.inuse[p] == 0 then NoEntry else Found(q.items[p])
  }

  function MissCount<T>(q: Queue<T>, seqid: u32): Queue<T>
    requires q.WellFormed()
  {
    var p := UsePosition(q, seqid);
    q.(missCount := q.missCount[p := Uint32.Add(q.missCount[p], 1)])
  }

  /** The number of ids that a release up to `seqid` drops. */
  function ReleaseCount<T>(q: Queue<T>, seqid: u32): u32 {
    Uint32.Add(Sub(seqid, q.headSeqid), 1)
  }

  /** The end of the released stretch of slots, before it is taken modulo the size. */
  function ReleaseEnd<T>(q: Queue<T>, seqid: u32): u32 {
    Uint32.Add(Sub(Uint32.Add(q.head, seqid), q.headSeqid), 1)
  }

  /** The second branch clears `ReleaseCount` slots, which must lie inside the buffers. */
  predicate ReleaseInBounds<T>(q: Queue<T>, seqid: u32) {
    ReleaseEnd(q, seqid) > q.size || q.head + ReleaseCount(q, seqid) <= q.size
  }

  function ItemsRelease<T>(q: Queue<T>, seqid: u32): Queue<T>
    requires q.WellFormed() && ReleaseInBounds(q, seqid)
  {
    var head := Rem(ReleaseEnd(q, seqid), q.size);
    var freed :=
      if ReleaseEnd(q, seqid) > q.size then
        q.(inuse := Zeroed(Zeroed(q.inuse, q.head, q.size - q.head), 0, head))
      else
        q.(inuse := Zeroed(q.inuse, q.head, ReleaseCount(q, seqid)),
           missCount := Zeroed(q.missCount, q.head, ReleaseCount(q, seqid)));
    freed.(head := head, headSeqid := Uint32.Add(seqid, 1))
  }

  // ---------- the slot arithmetic

  /** The slot of the id at distance `d` from the head of the window. */
  ghost function Slot<T>(q: Queue<T>, d: nat): (p: nat)
    requires q.WellFormed()
    ensures p < q.size
  {
    Rem(q.head + d, q.size)
  }

  lemma RemCases(x: nat, n: nat)
    requires 0 < n && x < 3 * n
    ensures Rem(x, n) == if x < n then x else if x < 2 * n then x - n else x - 2 * n
  {
  }

  lemma SlotCases<T>(q: Queue<T>, d: nat)
    requires q.WellFormed() && d < 2 * q.size
    ensures Slot(q, d) ==
            if q.head + d < q.size then q.head + d
            else if q.head + d < 2 * q.size then q.head + d - q.size
            else q.head + d - 2 * q.size
  {
    RemCases(q.head + d, q.size);
  }

  /** Every slot belongs to exactly one distance. */
  lemma SlotInverse<T>(q: Queue<T>, p: nat) returns (d: nat)
    requires q.WellFormed() && p < q.size
    ensures d < q.size && Slot(q, d) == p
    ensures forall e :: 0 <= e < q.size && Slot(q, e) == p ==> e == d
  {
    d := if p >= q.head then p - q.head else p + q.size - q.head;
    forall e | 0 <= e < q.size
      ensures Slot(q, e) == p <==> e == d
    {
      SlotCases(q, e);
    }
  }

  lemma SumsAgree(head: u32, headSeqid: u32, seqid: u32)
    ensures Sub(Uint32.Add(head, seqid), headSeqid) == Wrap(head + seqid - headSeqid)
    ensures Uint32.Add(Sub(head, headSeqid), seqid) == Wrap(head + seqid - headSeqid)
    ensures Sub(Sub(head, ADJUST_ROLLOVER_VALUE), Sub(headSeqid, ADJUST_ROLLOVER_VALUE)) == Sub(head, headSeqid)
  {
    hide Wrap;
    WrapAbsorbs(head + seqid, 0 - headSeqid);
    WrapAbsorbs(head - headSeqid, seqid);
    DifferenceOfWraps(head - ADJUST_ROLLOVER_VALUE, headSeqid - ADJUST_ROLLOVER_VALUE);
  }

  /** The three position formulas are one function of the id, for all ids and queues. */
  lemma PositionsAgree<T>(q: Queue<T>, seqid: u32)
    requires q.WellFormed()
    ensures AddPosition(q, seqid) == UsePosition(q, seqid) == AdjustedPosition(q, seqid)
    ensures AddPosition(q, seqid) == Rem(Wrap(q.head + seqid - q.headSeqid), q.size)
  {
    hide Wrap;
    SumsAgree(q.head, q.headSeqid, seqid);
  }

  lemma WindowSum(head: u32, seqid: u32, headSeqid: u32)
    requires head + Sub(seqid, headSeqid) < 0x1_0000_0000
    ensures Wrap(head + seqid - headSeqid) == head + Sub(seqid, headSeqid)
  {
  }

  /** On the window the position is the slot of the id's distance from the head. */
  lemma WindowPosition<T>(q: Queue<T>, seqid: u32)
    requires q.WellFormed() && Sub(seqid, q.headSeqid) < q.size
    ensures AddPosition(q, seqid) == Slot(q, Sub(seqid, q.headSeqid))
  {
    hide Wrap;
    PositionsAgree(q, seqid);
    WindowSum(q.head, seqid, q.headSeqid);
  }
}
