/** The 32-bit sort queue refines an ideal queue: a map keyed by unbounded ids, whose window
    [base, base + size) only ever slides up. */
module SortQueueRefinement {
  import opened Uint32
  import opened SequenceOrder
  import opened SortQueueState

  /** `misses` holds the miss counts of the ids of the window, in order. `phase` says where in the
      buffers the window starts; only the counts that new ids start with depend on it. */
  datatype Ideal<T> = Ideal(base: int, size: nat, entries: map<int, T>, phase: nat, misses: seq<u32>) {
    predicate InWindow(id: int) {
      base <= id < base + size
    }

    ghost predicate WellFormed() {
      phase < size == |misses| && forall id :: id in entries ==> InWindow(id)
    }
  }

  function EmptyIdeal<T>(base: int, size: nat): Ideal<T> {
    Ideal(base, size, map[], 0, Repeat(0, size))
  }

  // ---------- the relation

  ghost predicate SlotHolds<T>(q: Queue<T>, i: Ideal<T>, d: nat)
    requires q.WellFormed() && d < |i.misses|
  {
    var p, id := Slot(q, d), i.base + d;
    && q.missCount[p] == i.misses[d]
    && if id in i.entries then
         q.inuse[p] == (if Wrap(id) == 0 then 1 else Wrap(id)) && q.items[p] == i.entries[id]
       else
         q.inuse[p] == 0
  }

  /** The queue holds the ideal queue's entries and counts: each slot has the count of the one id
      of the window that belongs there, and is free, or carries the tag and the item of this id. */
  ghost predicate Represents<T>(q: Queue<T>, i: Ideal<T>) {
    && q.WellFormed() && i.WellFormed()
    && q.TailFree()
    && i.size == q.size && i.phase == q.head
    && q.headSeqid == Wrap(i.base)
    && (forall d :: 0 <= d < q.size ==> SlotHolds(q, i, d))
  }

  /** A queue represents at most one ideal queue with a given base. */
  lemma RepresentationUnique<T>(q: Queue<T>, i: Ideal<T>, j: Ideal<T>)
    requires Represents(q, i) && Represents(q, j) && i.base == j.base
    ensures i == j
  {
    hide Wrap, Slot;
    forall d | 0 <= d < q.size
      ensures i.misses[d] == j.misses[d]
    {
      assert SlotHolds(q, i, d) && SlotHolds(q, j, d);
    }
    forall id: int
      ensures (id in i.entries <==> id in j.entries) && (id in i.entries ==> i.entries[id] == j.entries[id])
    {
      if i.InWindow(id) {
        assert SlotHolds(q, i, id - i.base) && SlotHolds(q, j, id - i.base);
      }
    }
    assert i.entries.Keys == j.entries.Keys;
  }

  // ---------- one operation at a time

  lemma DistanceOfId(base: int, id: int)
    requires base <= id < base + 0x1_0000_0000
    ensures Sub(Wrap(id), Wrap(base)) == id - base
  {
  }

  lemma PositionOfId<T>(q: Queue<T>, i: Ideal<T>, id: int)
    requires Represents(q, i) && i.InWindow(id)
    ensures AddPosition(q, Wrap(id)) == Slot(q, id - i.base)
    ensures UsePosition(q, Wrap(id)) == AdjustedPosition(q, Wrap(id)) == AddPosition(q, Wrap(id))
    ensures SlotHolds(q, i, id - i.base)
  {
    hide Wrap;
    DistanceOfId(i.base, id);
    PositionsAgree(q, Wrap(id));
    WindowPosition(q, Wrap(id));
  }

  lemma InitRepresents<T>(size: u32, headSeqid: int, zero: T)
    requires 1 <= size <= 0x1_0000
    ensures Represents(Init(size, headSeqid, zero), EmptyIdeal(headSeqid, size))
    ensures forall p :: 0 <= p < size ==> Init(size, headSeqid, zero).items[p] == zero
  {
    hide Wrap;
  }

  /** The ideal insertion: the entry is new, and its count starts from zero. */
  function Inserted<T>(i: Ideal<T>, item: T, id: int): Ideal<T>
    requires i.WellFormed() && i.InWindow(id)
  {
    i.(entries := i.entries[id := item], misses := i.misses[id - i.base := 0])
  }

  /** Distinct distances have distinct slots. */
  lemma SlotsDiffer<T>(q: Queue<T>, d: nat, e: nat)
    requires q.WellFormed() && d < q.size && e < q.size
    ensures Slot(q, d) == Slot(q, e) <==> d == e
  {
    SlotCases(q, d);
    SlotCases(q, e);
  }

  lemma AddRepresents<T>(q: Queue<T>, i: Ideal<T>, item: T, id: int)
    requires Represents(q, i) && i.InWindow(id) && id !in i.entries
    ensures q.inuse[AddPosition(q, Wrap(id))] == 0
    ensures Represents(ItemAdd(q, item, Wrap(id)), Inserted(i, item, id))
  {
    hide Wrap, Rem;
    PositionOfId(q, i, id);
    var q', i' := ItemAdd(q, item, Wrap(id)), Inserted(i, item, id);
    forall d | 0 <= d < q.size
      ensures SlotHolds(q', i', d)
    {
      assert SlotHolds(q, i, d) && Slot(q', d) == Slot(q, d);
      SlotsDiffer(q, d, id - i.base);
    }
  }

  lemma InuseIsMembership<T>(q: Queue<T>, i: Ideal<T>, id: int)
    requires Represents(q, i) && i.InWindow(id)
    ensures ItemInuse(q, Wrap(id)) <==> id in i.entries
  {
    hide Wrap;
    PositionOfId(q, i, id);
  }

  /** Both assertions of the lookup hold for every id of the window. */
  lemma WindowPassesAssertion(head: u32, size: u32, seqid: u32)
    requires 1 <= size <= 0x1_0000 && Sub(seqid, head) < size
    ensures if seqid > ADJUST_ROLLOVER_POINT
            then Sub(seqid, ADJUST_ROLLOVER_POINT) < Uint32.Add(Sub(head, ADJUST_ROLLOVER_POINT), size)
            else seqid < Uint32.Add(head, size)
  {
    hide Wrap;
    WrapCases(seqid - head);
    WrapCases(seqid - ADJUST_ROLLOVER_POINT);
    WrapCases(head - ADJUST_ROLLOVER_POINT);
    WrapCases(Sub(head, ADJUST_ROLLOVER_POINT) + size);
    WrapCases(head + size);
  }

  lemma GetIsLookup<T>(q: Queue<T>, i: Ideal<T>, id: int)
    requires Represents(q, i) && i.InWindow(id)
    ensures ItemGet(q, Wrap(id)) == if id in i.entries then Found(i.entries[id]) else NoEntry
  {
    hide Wrap;
    PositionOfId(q, i, id);
    DistanceOfId(i.base, id);
    WindowPassesAssertion(q.headSeqid, q.size, Wrap(id));
  }

  lemma InRangeArithmetic(head: u32, size: u32, seqid: u32)
    ensures var first := if head > ADJUST_ROLLOVER_POINT then head - ADJUST_ROLLOVER_VALUE else head;
            var offset := if head > ADJUST_ROLLOVER_POINT then Sub(seqid, ADJUST_ROLLOVER_VALUE) else seqid;
            first + size < 0x1_0000_0000 ==> (first <= offset < first + size <==> Sub(seqid, head) < size)
  {
  }

  /** The two branches of the range test. */
  lemma InRangeIsWindowTest<T>(q: Queue<T>, seqid: u32)
    requires 1 <= q.size <= 0x1_0000
    ensures InRange(q, seqid) <==> Sub(seqid, q.headSeqid) < q.size
  {
    InRangeArithmetic(q.headSeqid, q.size, seqid);
  }

  lemma InRangeIsInWindow<T>(q: Queue<T>, i: Ideal<T>, id: int)
    requires Represents(q, i) && i.base + i.size - 0x1_0000_0000 <= id < i.base + 0x1_0000_0000
    ensures InRange(q, Wrap(id)) <==> i.InWindow(id)
  {
    hide Wrap;
    InRangeIsWindowTest(q, Wrap(id));
    if id >= i.base {
      DistanceOfId(i.base, id);
    } else {
      WrapCases(id);
      DistanceOfId(i.base, id + 0x1_0000_0000);
    }
  }

  /** The ideal counting of a miss. */
  function Missed<T>(i: Ideal<T>, id: int): Ideal<T>
    requires i.WellFormed() && i.InWindow(id)
  {
    i.(misses := i.misses[id - i.base := Uint32.Add(i.misses[id - i.base], 1)])
  }

  lemma MissCountRepresents<T>(q: Queue<T>, i: Ideal<T>, id: int)
    requires Represents(q, i) && i.InWindow(id)
    ensures Represents(MissCount(q, Wrap(id)), Missed(i, id))
    ensures MissCount(q, Wrap(id)).missCount[UsePosition(q, Wrap(id))] == Missed(i, id).misses[id - i.base]
  {
    hide Wrap, Rem, Tag;
    PositionOfId(q, i, id);
    var q', i' := MissCount(q, Wrap(id)), Missed(i, id);
    forall d | 0 <= d < q.size
      ensures SlotHolds(q', i', d)
    {
      assert SlotHolds(q, i, d) && Slot(q', d) == Slot(q, d);
      SlotsDiffer(q, d, id - i.base);
    }
  }

  // ---------- release

  /** A release of `k` ids of the window, without 32-bit sums. */
  function ReleasedBy<T>(q: Queue<T>, k: nat, headSeqid: u32): Queue<T>
    requires q.WellFormed() && k <= q.size
  {
    var head := Rem(q.head + k, q.size);
    var freed :=
      if q.head + k > q.size then
        q.(inuse := Zeroed(Zeroed(q.inuse, q.head, q.size - q.head), 0, head))
      else
        q.(inuse := Zeroed(q.inuse, q.head, k), missCount := Zeroed(q.missCount, q.head, k));
    freed.(head := head, headSeqid := headSeqid)
  }

  lemma CountFromIds(base: int, id: int)
    requires base - 1 <= id < base + 0x1_0000
    ensures Uint32.Add(Sub(Wrap(id), Wrap(base)), 1) == id - base + 1
  {
    hide Wrap;
    DifferenceOfWraps(id, base);
    WrapAbsorbs(id - base, 1);
    WrapCases(id - base + 1);
  }

  lemma ReleaseEndFromCount<T>(q: Queue<T>, seqid: u32)
    ensures ReleaseEnd(q, seqid) == Wrap(q.head + ReleaseCount(q, seqid))
  {
    hide Wrap;
    var x := seqid - q.headSeqid;
    SumsAgree(q.head, q.headSeqid, seqid);
    WrapAbsorbs(q.head + x, 1);
    WrapAbsorbs(x, 1);
    WrapAbsorbs(x + 1, q.head);
  }

  /** On the window, one before it included, the 32-bit sums of a release are the unbounded ones. */
  lemma ReleaseOfWindow<T>(q: Queue<T>, base: int, id: int)
    requires q.WellFormed() && q.headSeqid == Wrap(base)
    requires base - 1 <= id < base + q.size
    ensures ReleaseInBounds(q, Wrap(id))
    ensures ItemsRelease(q, Wrap(id)) == ReleasedBy(q, id - base + 1, Wrap(id + 1))
  {
    hide Wrap, Rem;
    WrapAbsorbs(id, 1);
    CountFromIds(base, id);
    ReleaseEndFromCount(q, Wrap(id));
    WrapCases(q.head + (id - base + 1));
  }

  lemma ReleasedSlots<T>(q: Queue<T>, k: nat, headSeqid: u32, e: nat)
    requires q.WellFormed() && k <= q.size && e < q.size
    ensures ReleasedBy(q, k, headSeqid).inuse[Slot(q, e)] == if e < k then 0 else q.inuse[Slot(q, e)]
    ensures ReleasedBy(q, k, headSeqid).missCount[Slot(q, e)] ==
            if e < k && q.head + k <= q.size then 0 else q.missCount[Slot(q, e)]
    ensures ReleasedBy(q, k, headSeqid).items == q.items
  {
    hide Rem;
    SlotCases(q, e);
    RemCases(q.head + k, q.size);
  }

  /** The distance from the old head of the slot at distance `d` from the new one. */
  function Shifted(d: nat, k: nat, size: nat): nat {
    if d + k < size then d + k else d + k - size
  }

  lemma ReleasedShift<T>(q: Queue<T>, k: nat, headSeqid: u32, d: nat)
    requires q.WellFormed() && k <= q.size && d < q.size
    ensures ReleasedBy(q, k, headSeqid).WellFormed()
    ensures Slot(ReleasedBy(q, k, headSeqid), d) == Slot(q, Shifted(d, k, q.size))
  {
    hide Rem;
    RemCases(q.head + k, q.size);
    RemCases(Rem(q.head + k, q.size) + d, q.size);
    RemCases(q.head + Shifted(d, k, q.size), q.size);
  }

  /** A release of `k` ids of the window clears exactly the `k` oldest slots, in both branches, and
      their miss counts in the branch that does not wrap. */
  lemma ReleaseClearsOldest<T>(q: Queue<T>, base: int, id: int, e: nat)
    requires q.WellFormed() && q.headSeqid == Wrap(base)
    requires base - 1 <= id < base + q.size && e < q.size
    ensures ReleaseInBounds(q, Wrap(id))
    ensures ItemsRelease(q, Wrap(id)).inuse[Slot(q, e)] == if base + e <= id then 0 else q.inuse[Slot(q, e)]
    ensures ItemsRelease(q, Wrap(id)).missCount[Slot(q, e)] ==
            if base + e <= id && q.head + (id - base + 1) <= q.size then 0 else q.missCount[Slot(q, e)]
  {
    hide Wrap, Rem, ItemsRelease, ReleasedBy;
    ReleaseOfWindow(q, base, id);
    ReleasedSlots(q, id - base + 1, Wrap(id + 1), e);
  }

  /** The slots of the slid window, counted from the old head. */
  lemma ReleaseShiftsSlots<T>(q: Queue<T>, base: int, id: int, d: nat)
    requires q.WellFormed() && q.headSeqid == Wrap(base)
    requires base - 1 <= id < base + q.size && d < q.size
    ensures ReleaseInBounds(q, Wrap(id)) && ItemsRelease(q, Wrap(id)).WellFormed()
    ensures Slot(ItemsRelease(q, Wrap(id)), d) == Slot(q, Shifted(d, id - base + 1, q.size))
  {
    hide Wrap, Rem, ItemsRelease, ReleasedBy;
    ReleaseOfWindow(q, base, id);
    ReleasedShift(q, id - base + 1, Wrap(id + 1), d);
  }

  /** The ideal release. The ids that enter the window start with a count of zero, or, when the
      release wraps in the buffers, with that of the id whose slot they take over. */
  function Dropped<T>(i: Ideal<T>, id: int): Ideal<T>
    requires i.WellFormed() && i.base - 1 <= id < i.base + i.size
  {
    var k := id - i.base + 1;
    Ideal(id + 1, i.size, map x | x in i.entries && x > id :: i.entries[x], Shifted(i.phase, k, i.size),
          i.misses[k..] + if i.phase + k <= i.size then Repeat(0, k) else i.misses[..k])
  }

  lemma DroppedAt<T>(i: Ideal<T>, id: int, d: nat)
    requires i.WellFormed() && i.base - 1 <= id < i.base + i.size && d < i.size
    ensures var k, i' := id - i.base + 1, Dropped(i, id);
            var e := Shifted(d, k, i.size);
            && |i'.misses| == i.size && i'.base == id + 1
            && i'.misses[d] == (if e < k && i.phase + k <= i.size then 0 else i.misses[e])
            && (e < k ==> id + 1 + d !in i'.entries)
            && (e >= k ==> i.base + e == id + 1 + d)
            && (e >= k ==> (id + 1 + d in i'.entries <==> i.base + e in i.entries))
            && (id + 1 + d in i'.entries ==> i'.entries[id + 1 + d] == i.entries[i.base + e])
  {
  }

  lemma ReleasedHoldsSlot<T>(q: Queue<T>, i: Ideal<T>, id: int, d: nat)
    requires Represents(q, i) && i.base - 1 <= id < i.base + i.size && d < q.size
    requires ReleasedBy(q, id - i.base + 1, Wrap(id + 1)).WellFormed()
    requires d < |Dropped(i, id).misses|
    ensures SlotHolds(ReleasedBy(q, id - i.base + 1, Wrap(id + 1)), Dropped(i, id), d)
  {
    hide Wrap, Rem, Tag, ReleasedBy, Dropped, Slot;
    var k := id - i.base + 1;
    var e := Shifted(d, k, q.size);
    ReleasedShift(q, k, Wrap(id + 1), d);
    ReleasedSlots(q, k, Wrap(id + 1), e);
    DroppedAt(i, id, d);
    assert SlotHolds(q, i, e);
  }

  lemma ReleasedKeepsTailFree<T>(q: Queue<T>, k: nat, headSeqid: u32)
    requires q.WellFormed() && q.TailFree() && k <= q.size
    ensures ReleasedBy(q, k, headSeqid).TailFree()
  {
    hide Rem;
    RemCases(q.head + k, q.size);
  }

  lemma ReleaseRepresents<T>(q: Queue<T>, i: Ideal<T>, id: int)
    requires Represents(q, i) && i.base - 1 <= id < i.base + i.size
    ensures ReleaseInBounds(q, Wrap(id))
    ensures Represents(ItemsRelease(q, Wrap(id)), Dropped(i, id))
  {
    hide Wrap, Rem, Slot, ItemsRelease;
    var k := id - i.base + 1;
    var q', i' := ReleasedBy(q, k, Wrap(id + 1)), Dropped(i, id);
    ReleaseOfWindow(q, i.base, id);
    RemCases(q.head + k, q.size);
    ReleasedKeepsTailFree(q, k, Wrap(id + 1));
    forall d | 0 <= d < q.size
      ensures SlotHolds(q', i', d)
    {
      ReleasedHoldsSlot(q, i, id, d);
    }
  }

  // ---------- whole runs

  datatype Op<+T> =
    | ReinitOp(headSeqid: int)
    | AddOp(item: T, id: int)
    | GetOp(id: int)
    | InuseOp(id: int)
    | InRangeOp(id: int)
    | MissOp(id: int)
    | ReleaseOp(id: int)

  datatype Reply<+T> = Done | Answer(yes: bool) | Counted(count: u32) | Looked(lookup: Lookup<T>) | Aborted

  /** What a caller may do: add a new id of the window, look at ids of the window, release any
      part of it, and test any id near it. */
  ghost predicate Legal<T>(i: Ideal<T>, op: Op<T>) {
    match op
    case ReinitOp(_) => true
    case AddOp(_, id) => i.InWindow(id) && id !in i.entries
    case GetOp(id) => i.InWindow(id)
    case InuseOp(id) => i.InWindow(id)
    case InRangeOp(id) => i.base + i.size - 0x1_0000_0000 <= id < i.base + 0x1_0000_0000
    case MissOp(id) => i.InWindow(id)
    case ReleaseOp(id) => i.base - 1 <= id < i.base + i.size
  }

  ghost function IdealStep<T>(i: Ideal<T>, op: Op<T>): (Ideal<T>, Reply<T>)
    requires i.WellFormed() && Legal(i, op)
  {
    match op
    case ReinitOp(h) => (EmptyIdeal(h, i.size), Done)
    case AddOp(item, id) => (Inserted(i, item, id), Done)
    case GetOp(id) => (i, Looked(if id in i.entries then Found(i.entries[id]) else NoEntry))
    case InuseOp(id) => (i, Answer(id in i.entries))
    case InRangeOp(id) => (i, Answer(i.InWindow(id)))
    case MissOp(id) => (Missed(i, id), Counted(Missed(i, id).misses[id - i.base]))
    case ReleaseOp(id) => (Dropped(i, id), Done)
  }

  /** The same operation on the 32-bit queue, which sees only the low 32 bits of each id. A
      failed assertion or an out-of-bounds clearing aborts. */
  function QueueStep<T>(q: Queue<T>, op: Op<T>, zero: T): (Queue<T>, Reply<T>)
    requires q.WellFormed()
  {
    match op
    case ReinitOp(h) => (Reinit(q, Wrap(h), zero), Done)
    case AddOp(item, id) =>
      if q.inuse[AddPosition(q, Wrap(id))] != 0 then (q, Aborted) else (ItemAdd(q, item, Wrap(id)), Done)
    case GetOp(id) => (q, if ItemGet(q, Wrap(id)).AssertionFailed? then Aborted else Looked(ItemGet(q, Wrap(id))))
    case InuseOp(id) => (q, Answer(ItemInuse(q, Wrap(id))))
    case InRangeOp(id) => (q, Answer(InRange(q, Wrap(id))))
    case MissOp(id) => (MissCount(q, Wrap(id)), Counted(MissCount(q, Wrap(id)).missCount[UsePosition(q, Wrap(id))]))
    case ReleaseOp(id) =>
      if ReleaseInBounds(q, Wrap(id)) then (ItemsRelease(q, Wrap(id)), Done) else (q, Aborted)
  }

  lemma StepRefines<T>(q: Queue<T>, i: Ideal<T>, op: Op<T>, zero: T)
    requires Represents(q, i) && Legal(i, op)
    ensures Represents(QueueStep(q, op, zero).0, IdealStep(i, op).0)
    ensures QueueStep(q, op, zero).1 == IdealStep(i, op).1
  {
    hide Wrap;
    match op
    case ReinitOp(h) =>
      InitRepresents(q.size, h, zero);
      WrapCases(Wrap(h));
    case AddOp(item, id) => AddRepresents(q, i, item, id);
    case GetOp(id) => GetIsLookup(q, i, id);
    case InuseOp(id) => InuseIsMembership(q, i, id);
    case InRangeOp(id) => InRangeIsInWindow(q, i, id);
    case MissOp(id) => MissCountRepresents(q, i, id);
    case ReleaseOp(id) => ReleaseRepresents(q, i, id);
  }

  lemma IdealStepWellFormed<T>(i: Ideal<T>, op: Op<T>)
    requires i.WellFormed() && Legal(i, op)
    ensures IdealStep(i, op).0.WellFormed()
  {
  }

  /** An id that stays in the window keeps its count, but for a miss, which adds one to it, and
      its insertion, which resets it; in particular no release touches it. */
  lemma MissesFollowIds<T>(i: Ideal<T>, op: Op<T>, id: int)
    requires i.WellFormed() && Legal(i, op) && !op.ReinitOp?
    requires i.InWindow(id) && IdealStep(i, op).0.InWindow(id)
    ensures var i' := IdealStep(i, op).0;
            |i'.misses| == |i.misses| &&
            i'.misses[id - i'.base] ==
            if op.AddOp? && op.id == id then 0
            else if op == MissOp(id) then Uint32.Add(i.misses[id - i.base], 1)
            else i.misses[id - i.base]
  {
  }

  ghost predicate LegalRun<T>(i: Ideal<T>, ops: seq<Op<T>>)
    requires i.WellFormed()
    decreases |ops|
  {
    |ops| == 0 || (
      && Legal(i, ops[0])
      && (IdealStepWellFormed(i, ops[0]); LegalRun(IdealStep(i, ops[0]).0, ops[1..])))
  }

  ghost function IdealRun<T>(i: Ideal<T>, ops: seq<Op<T>>): (Ideal<T>, seq<Reply<T>>)
    requires i.WellFormed() && LegalRun(i, ops)
    decreases |ops|
  {
    if |ops| == 0 then (i, [])
    else
      var (i', reply) := IdealStep(i, ops[0]);
      var (last, replies) := IdealRun(i', ops[1..]);
      (last, [reply] + replies)
  }

  function QueueRun<T>(q: Queue<T>, ops: seq<Op<T>>, zero: T): (Queue<T>, seq<Reply<T>>)
    requires q.WellFormed()
    decreases |ops|
  {
    if |ops| == 0 then (q, [])
    else
      var (q', reply) := QueueStep(q, ops[0], zero);
      var (last, replies) := QueueRun(q', ops[1..], zero);
      (last, [reply] + replies)
  }

  lemma {:induction false} RunFrom<T>(q: Queue<T>, i: Ideal<T>, ops: seq<Op<T>>, zero: T)
    requires Represents(q, i) && LegalRun(i, ops)
    ensures QueueRun(q, ops, zero).1 == IdealRun(i, ops).1
    ensures Represents(QueueRun(q, ops, zero).0, IdealRun(i, ops).0)
    ensures Aborted !in IdealRun(i, ops).1
    decreases |ops|
  {
    hide Wrap, QueueStep, SlotHolds;
    if |ops| > 0 {
      StepRefines(q, i, ops[0], zero);
      RunFrom(QueueStep(q, ops[0], zero).0, IdealStep(i, ops[0]).0, ops[1..], zero);
    }
  }

  /** The main result. From its initialisation on, over any legal run and through any number of
      rollovers of the 32-bit ids, the queue gives exactly the replies of the ideal queue, miss
      counts included; no assertion fails, and at the end `sq_assert` passes. */
  lemma RunRefines<T>(size: u32, headSeqid: int, ops: seq<Op<T>>, zero: T)
    requires 1 <= size <= 0x1_0000
    requires LegalRun(EmptyIdeal(headSeqid, size), ops)
    ensures Init(size, headSeqid, zero).WellFormed()
    ensures var i := EmptyIdeal(headSeqid, size);
            var (last, replies) := QueueRun(Init(size, headSeqid, zero), ops, zero);
            && replies == IdealRun(i, ops).1
            && Aborted !in replies
            && last.TailFree()
            && Represents(last, IdealRun(i, ops).0)
  {
    InitRepresents(size, headSeqid, zero);
    RunFrom(Init(size, headSeqid, zero), EmptyIdeal(headSeqid, size), ops, zero);
  }
}
