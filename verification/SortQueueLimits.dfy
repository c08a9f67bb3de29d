/** Where the sort queue stops being right: the exact conditions for the operations that callers
    are expected to keep inside the window, and inputs that violate them. */
module SortQueueLimits {
  import opened Uint32
  import opened SequenceOrder
  import opened SortQueueState
  import opened SortQueueRefinement

  // ---------- lookups

  /** For a queue of any size, however large, the range test is right on all ids exactly when
      the end of the window, after the adjustment, does not roll over. */
  lemma InRangeRightWhenEndFits<T>(q: Queue<T>)
    ensures (forall seqid: u32 :: InRange(q, seqid) <==> Sub(seqid, q.headSeqid) < q.size) <==>
            (if q.headSeqid > ADJUST_ROLLOVER_POINT then q.headSeqid - ADJUST_ROLLOVER_VALUE else q.headSeqid) + q.size
            < 0x1_0000_0000
  {
    var first := if q.headSeqid > ADJUST_ROLLOVER_POINT then q.headSeqid - ADJUST_ROLLOVER_VALUE else q.headSeqid;
    if first + q.size < 0x1_0000_0000 {
      forall seqid: u32
        ensures InRange(q, seqid) <==> Sub(seqid, q.headSeqid) < q.size
      {
        InRangeArithmetic(q.headSeqid, q.size, seqid);
      }
    } else {
      assert Sub(q.headSeqid, q.headSeqid) < q.size && !InRange(q, q.headSeqid);
    }
  }

  /** The assertions of the lookup accept every id before the end of the window, all those below
      the window included, and, once that end is past a rollover, every id beyond the rollover point. */
  lemma GetAssertionExactly<T>(q: Queue<T>, seqid: u32)
    requires q.size <= ADJUST_ROLLOVER_VALUE
    ensures var end := Uint32.Add(q.headSeqid, q.size);
            GetAssertion(q, seqid) <==> seqid < end || (end < ADJUST_ROLLOVER_POINT && seqid > ADJUST_ROLLOVER_POINT)
  {
    hide Uint32.Add;
    AssertionArithmetic(q.headSeqid, q.size);
    SubFromPoint(seqid);
  }

  lemma SubFromPoint(seqid: u32)
    ensures seqid > ADJUST_ROLLOVER_POINT ==> Sub(seqid, ADJUST_ROLLOVER_POINT) == seqid - ADJUST_ROLLOVER_POINT
  {
  }

  lemma AssertionArithmetic(head: u32, size: u32)
    ensures var end, high := Uint32.Add(head, size), Uint32.Add(Sub(head, ADJUST_ROLLOVER_POINT), size);
            high == if end < ADJUST_ROLLOVER_POINT then end + 0x8000_0000 else end - 0x8000_0000
  {
    hide Wrap;
    WrapAbsorbs(head - ADJUST_ROLLOVER_POINT, size);
    WrapAbsorbs(head + size, 0 - ADJUST_ROLLOVER_POINT);
    var end := Uint32.Add(head, size);
    WrapCases(end - ADJUST_ROLLOVER_POINT);
    WrapCases(end - ADJUST_ROLLOVER_POINT + 0x1_0000_0000);
  }

  /** The distance in the window of the slot that any id, of the window or not, is looked up in. */
  ghost function SharedDistance<T>(q: Queue<T>, seqid: u32): nat
    requires q.WellFormed()
  {
    var distance := Sub(seqid, q.headSeqid);
    if q.head + distance < 0x1_0000_0000 then Rem(distance, q.size) else q.size - (0x1_0000_0000 - distance)
  }

  /** An id outside the window is not reported as in use, as the comment in the source wants, but
      as the id of the window is whose slot it shares. */
  lemma InuseOfSharedSlot<T>(q: Queue<T>, i: Ideal<T>, seqid: u32)
    requires Represents(q, i)
    ensures SharedDistance(q, seqid) < q.size
    ensures UsePosition(q, seqid) == Slot(q, SharedDistance(q, seqid))
    ensures ItemInuse(q, seqid) <==> i.base + SharedDistance(q, seqid) in i.entries
  {
    hide Wrap, Rem;
    var distance, d := Sub(seqid, q.headSeqid), SharedDistance(q, seqid);
    PositionsAgree(q, seqid);
    WrapAbsorbs(seqid - q.headSeqid, q.head);
    WrapCases(q.head + distance);
    if q.head + distance < 0x1_0000_0000 {
      RemOfRem(q.head, distance, q.size);
    } else {
      RemCases(q.head + distance - 0x1_0000_0000, q.size);
      RemCases(q.head + d, q.size);
    }
    assert SlotHolds(q, i, d);
  }

  lemma {:induction false} RemOfRem(h: nat, x: nat, n: nat)
    requires n > 0
    ensures Rem(h + x, n) == Rem(h + Rem(x, n), n)
    decreases x
  {
    if x >= n {
      RemOfRem(h, x - n, n);
    }
  }

  // ---------- releases

  /** The clearing stays inside the buffers exactly for the ids that are not among the `head`
      ids below the last one released. */
  lemma ReleaseInBoundsExactly<T>(q: Queue<T>, seqid: u32)
    requires q.WellFormed()
    ensures ReleaseInBounds(q, seqid) <==> !(1 <= Sub(q.headSeqid, Uint32.Add(seqid, 1)) <= q.head)
  {
    hide Wrap;
    BehindFromCount(q.headSeqid, seqid);
    ReleaseEndFromCount(q, seqid);
    WrapCases(q.head + ReleaseCount(q, seqid));
  }

  lemma BehindFromCount(headSeqid: u32, seqid: u32)
    ensures var count := Uint32.Add(Sub(seqid, headSeqid), 1);
            Sub(headSeqid, Uint32.Add(seqid, 1)) == if count == 0 then 0 else 0x1_0000_0000 - count
  {
    hide Wrap;
    WrapAbsorbs(seqid + 1, headSeqid);
    WrapAbsorbs(seqid - headSeqid, 1);
    Opposite(seqid + 1 - headSeqid);
  }

  /** The ideal queue without entries whose window and counts are those of `q`. */
  ghost function Emptied<T>(q: Queue<T>, base: int): Ideal<T>
    requires q.WellFormed()
  {
    Ideal(base, q.size, map[], q.head, seq(q.size, d requires 0 <= d < q.size => q.missCount[Slot(q, d)]))
  }

  /** A release beyond the window should empty the queue. It does so exactly when no entry lies
      in the slots from the new head up to the old one, which neither clearing reaches. */
  lemma ReleaseBeyondWindow<T>(q: Queue<T>, seqid: u32)
    requires q.WellFormed() && q.TailFree()
    requires ReleaseCount(q, seqid) > q.size && ReleaseInBounds(q, seqid)
    ensures Represents(ItemsRelease(q, seqid), Emptied(ItemsRelease(q, seqid), seqid + 1)) <==>
            forall p :: Rem(ReleaseEnd(q, seqid), q.size) <= p < q.head ==> q.inuse[p] == 0
  {
    hide Wrap, Rem, Slot;
    var q', head := ItemsRelease(q, seqid), Rem(ReleaseEnd(q, seqid), q.size);
    assert forall p :: 0 <= p < q.size ==> q'.inuse[p] == if head <= p < q.head then q.inuse[p] else 0;
    if Represents(q', Emptied(q', seqid + 1)) {
      forall p | head <= p < q.head
        ensures q.inuse[p] == 0
      {
        var d := SlotInverse(q', p);
        assert SlotHolds(q', Emptied(q', seqid + 1), d);
      }
    }
  }

  /** The slots that newly enter the window have no recorded misses exactly when the release
      does not wrap, or when they had none: the wrapping branch leaves their counts standing. */
  lemma ReleaseMissCounts<T>(q: Queue<T>, base: int, id: int)
    requires q.WellFormed() && q.headSeqid == Wrap(base)
    requires base - 1 <= id < base + q.size
    ensures ReleaseInBounds(q, Wrap(id)) && ItemsRelease(q, Wrap(id)).WellFormed()
    ensures var k, q' := id - base + 1, ItemsRelease(q, Wrap(id));
            (forall d :: q.size - k <= d < q.size ==> q'.missCount[Slot(q', d)] == 0) <==>
            (q.head + k <= q.size || forall e :: 0 <= e < k ==> q.missCount[Slot(q, e)] == 0)
  {
    hide Wrap, Rem, Slot, ItemsRelease;
    ReleaseShiftsSlots(q, base, id, 0);
    var k, q' := id - base + 1, ItemsRelease(q, Wrap(id));
    forall d | q.size - k <= d < q.size
      ensures Slot(q', d) == Slot(q, d + k - q.size)
    {
      ReleaseShiftsSlots(q, base, id, d);
    }
    forall e | 0 <= e < k
      ensures q.size - k <= e + q.size - k < q.size && Slot(q', e + q.size - k) == Slot(q, e)
      ensures q'.missCount[Slot(q, e)] == if q.head + k <= q.size then 0 else q.missCount[Slot(q, e)]
    {
      ReleaseShiftsSlots(q, base, id, e + q.size - k);
      ReleaseClearsOldest(q, base, id, e);
    }
  }

  // ---------- legal runs that lead to the limits

  lemma RunStep<T>(i: Ideal<T>, op: Op<T>, ops: seq<Op<T>>)
    requires i.WellFormed() && Legal(i, op)
    requires IdealStep(i, op).0.WellFormed() && LegalRun(IdealStep(i, op).0, ops)
    ensures LegalRun(i, [op] + ops)
    ensures IdealRun(i, [op] + ops).1 == [IdealStep(i, op).1] + IdealRun(IdealStep(i, op).0, ops).1
    ensures IdealRun(i, [op] + ops).0 == IdealRun(IdealStep(i, op).0, ops).0
  {
    assert ([op] + ops)[1..] == ops;
  }

  lemma RunOfNothing<T>(i: Ideal<T>)
    requires i.WellFormed()
    ensures LegalRun(i, []) && IdealRun(i, []) == (i, [])
  {
  }

  /** A queue of two slots without entries, after an odd number of ids was released. */
  function MissedAt(base: int, first: u32, second: u32): Ideal<int> {
    Ideal(base, 2, map[], 1, [first, second])
  }

  /** On a new queue of two slots, id 0 is released and id 2 is added. */
  function TurnedOps(): seq<Op<int>> {
    [ReleaseOp(0), AddOp(7, 2)]
  }

  function TurnedIdeal(): Ideal<int> {
    Ideal(1, 2, map[2 := 7], 1, [0, 0])
  }

  lemma TurnedSteps()
    ensures IdealStep(EmptyIdeal<int>(0, 2), ReleaseOp(0)) == (MissedAt(1, 0, 0), Done)
    ensures IdealStep(MissedAt(1, 0, 0), AddOp(7, 2)) == (TurnedIdeal(), Done)
  {
    assert Dropped(EmptyIdeal<int>(0, 2), 0).misses == [0, 0];
    assert Inserted(MissedAt(1, 0, 0), 7, 2).misses == [0, 0];
  }

  lemma TurnedIsReached()
    ensures LegalRun(EmptyIdeal(0, 2), TurnedOps())
    ensures IdealRun(EmptyIdeal(0, 2), TurnedOps()).0 == TurnedIdeal()
  {
    hide IdealStep, LegalRun, IdealRun;
    TurnedSteps();
    RunOfNothing(TurnedIdeal());
    RunStep(MissedAt(1, 0, 0), AddOp(7, 2), []);
    RunStep(EmptyIdeal(0, 2), ReleaseOp(0), [AddOp(7, 2)] + []);
    assert TurnedOps() == [ReleaseOp(0)] + ([AddOp(7, 2)] + []);
  }

  lemma ReleaseBeyondTurned(q: Queue<int>)
    requires q.WellFormed() && q.TailFree() && q.head == 1 && q.size == 2 && q.headSeqid == 1 && q.inuse[0] != 0
    ensures StaysNonempty(q, 3)
  {
    hide ItemsRelease, Represents, Emptied, Rem, Wrap, ReleaseEnd, ReleaseCount;
    TurnedNumbers(q);
    RemCases(4, 2);
    ReleaseBeyondWindow(q, 3);
  }

  lemma TurnedNumbers(q: Queue<int>)
    requires q.head == 1 && q.headSeqid == 1
    ensures ReleaseEnd(q, 3) == 4 && ReleaseCount(q, 3) == 3
  {
    hide Wrap;
    WrapCases(2);
    WrapCases(3);
    WrapCases(4);
  }

  lemma TurnedSlots(q: Queue<int>)
    requires Represents(q, TurnedIdeal())
    ensures q.head == 1 && q.size == 2 && q.headSeqid == 1 && q.WellFormed() && q.TailFree() && q.inuse[0] != 0
  {
    assert Slot(q, 1) == 0 && SlotHolds(q, TurnedIdeal(), 1);
  }

  /** Releasing `seqid`, beyond the window, leaves something in the queue. */
  ghost predicate StaysNonempty(q: Queue<int>, seqid: u32) {
    && q.WellFormed()
    && ReleaseCount(q, seqid) > q.size && ReleaseInBounds(q, seqid)
    && !Represents(ItemsRelease(q, seqid), Emptied(ItemsRelease(q, seqid), seqid + 1))
  }

  /** The queue that this legal run leads to. Releasing id 3, one id beyond its window, does not
      empty it: id 2 stays in its slot. */
  lemma ReleaseBeyondWindowFails()
    ensures LegalRun(EmptyIdeal(0, 2), TurnedOps())
    ensures Represents(QueueRun(Init(2, 0, 0), TurnedOps(), 0).0, TurnedIdeal())
    ensures StaysNonempty(QueueRun(Init(2, 0, 0), TurnedOps(), 0).0, 3)
  {
    hide QueueRun, IdealRun, LegalRun, Represents, TurnedOps, StaysNonempty, ItemsRelease;
    TurnedIsReached();
    RunRefines(2, 0, TurnedOps(), 0);
    var q := QueueRun(Init(2, 0, 0), TurnedOps(), 0).0;
    TurnedSlots(q);
    ReleaseBeyondTurned(q);
  }

  /** Releasing an id once more, after its successor was released, would clear outside the buffers
      of any queue whose head has left the first slot. */
  lemma ReleaseAgainFails<T>(q: Queue<T>)
    requires q.WellFormed() && q.head >= 1
    ensures !ReleaseInBounds(q, Sub(q.headSeqid, 2))
  {
    hide Wrap;
    WrapAbsorbs(q.headSeqid - 2, 1);
    WrapAbsorbs(q.headSeqid - 1, q.headSeqid);
    WrapCases(1);
    ReleaseInBoundsExactly(q, Sub(q.headSeqid, 2));
  }

  /** The queue of the legal run is such a queue. */
  lemma ReleaseBelowWindowFails()
    ensures LegalRun(EmptyIdeal(0, 2), TurnedOps())
    ensures Represents(QueueRun(Init(2, 0, 0), TurnedOps(), 0).0, TurnedIdeal())
    ensures !ReleaseInBounds(QueueRun(Init(2, 0, 0), TurnedOps(), 0).0, 0xFFFF_FFFF)
  {
    hide QueueRun, IdealRun, LegalRun, Represents, TurnedOps;
    TurnedIsReached();
    RunRefines(2, 0, TurnedOps(), 0);
    var q := QueueRun(Init(2, 0, 0), TurnedOps(), 0).0;
    TurnedSlots(q);
    ReleaseAgainFails(q);
  }

  lemma MissedSteps()
    ensures IdealStep(EmptyIdeal<int>(0, 2), ReleaseOp(0)) == (MissedAt(1, 0, 0), Done)
    ensures IdealStep(MissedAt(1, 0, 0), MissOp(2)) == (MissedAt(1, 0, 1), Counted(1))
    ensures IdealStep(MissedAt(1, 0, 1), ReleaseOp(2)) == (MissedAt(3, 0, 1), Done)
    ensures IdealStep(MissedAt(3, 0, 1), MissOp(4)) == (MissedAt(3, 0, 2), Counted(2))
  {
    assert Dropped(EmptyIdeal<int>(0, 2), 0).misses == [0, 0];
    assert Missed(MissedAt(1, 0, 0), 2).misses == [0, 1];
    assert Dropped(MissedAt(1, 0, 1), 2).misses == [0, 1];
    assert Missed(MissedAt(3, 0, 1), 4).misses == [0, 2];
  }

  /** Of a new queue of two slots, id 0 is released, a miss of id 2 is counted, and both ids of
      the window are released. Id 4 was never missed, but its first miss is counted as the second. */
  lemma MissCountOutlivesRelease()
    ensures var ops := [ReleaseOp(0), MissOp(2), ReleaseOp(2), MissOp(4)];
            LegalRun(EmptyIdeal(0, 2), ops) &&
            QueueRun(Init(2, 0, 0), ops, 0).1 == [Done, Counted(1), Done, Counted(2)]
  {
    hide IdealStep, QueueRun, IdealRun;
    MissedSteps();
    RunOfNothing(MissedAt(3, 0, 2));
    RunStep(MissedAt(3, 0, 1), MissOp(4), []);
    RunStep(MissedAt(1, 0, 1), ReleaseOp(2), [MissOp(4)] + []);
    RunStep(MissedAt(1, 0, 0), MissOp(2), [ReleaseOp(2)] + ([MissOp(4)] + []));
    RunStep(EmptyIdeal<int>(0, 2), ReleaseOp(0), [MissOp(2)] + ([ReleaseOp(2)] + ([MissOp(4)] + [])));
    var ops: seq<Op<int>> := [ReleaseOp(0), MissOp(2), ReleaseOp(2), MissOp(4)];
    assert ops == [ReleaseOp(0)] + ([MissOp(2)] + ([ReleaseOp(2)] + ([MissOp(4)] + [])));
    var replies: seq<Reply<int>> := [Done] + ([Counted(1)] + ([Done] + ([Counted(2)] + [])));
    assert replies == [Done, Counted(1), Done, Counted(2)];
    RunRefines(2, 0, ops, 0);
  }
}
