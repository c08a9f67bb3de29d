/** What the sort queue answers and holds, told from the operations of the run alone: which ids
    were added and not yet released, how often they were missed, and which slots were filled. */
module SortQueueHistory {
  import opened Uint32
  import opened SequenceOrder
  import opened SortQueueState
  import opened SortQueueRefinement

  // ---------- the last step of a run

  lemma {:induction false} IdealLastStep<T>(i: Ideal<T>, ops: seq<Op<T>>, op: Op<T>)
    requires i.WellFormed() && LegalRun(i, ops + [op])
    ensures LegalRun(i, ops) && IdealRun(i, ops).0.WellFormed() && Legal(IdealRun(i, ops).0, op)
    ensures IdealRun(i, ops + [op]).0 == IdealStep(IdealRun(i, ops).0, op).0
    ensures IdealRun(i, ops + [op]).1 == IdealRun(i, ops).1 + [IdealStep(IdealRun(i, ops).0, op).1]
    ensures IdealRun(i, ops + [op]).0.WellFormed()
    decreases |ops|
  {
    hide IdealStep, Legal;
    var all := ops + [op];
    IdealStepWellFormed(i, all[0]);
    if ops == [] {
      assert all[1..] == [];
    } else {
      assert all[1..] == ops[1..] + [op];
      IdealLastStep(IdealStep(i, ops[0]).0, ops[1..], op);
    }
  }

  lemma QueueStepWellFormed<T>(q: Queue<T>, op: Op<T>, zero: T)
    requires q.WellFormed()
    ensures QueueStep(q, op, zero).0.WellFormed()
  {
    hide Wrap, Rem;
  }

  lemma {:induction false} QueueLastStep<T>(q: Queue<T>, ops: seq<Op<T>>, op: Op<T>, zero: T)
    requires q.WellFormed()
    ensures QueueRun(q, ops, zero).0.WellFormed()
    ensures QueueRun(q, ops + [op], zero).0 == QueueStep(QueueRun(q, ops, zero).0, op, zero).0
    decreases |ops|
  {
    hide QueueStep;
    var all := ops + [op];
    QueueStepWellFormed(q, all[0], zero);
    if ops == [] {
      assert all[1..] == [];
    } else {
      assert all[1..] == ops[1..] + [op];
      QueueLastStep(QueueStep(q, ops[0], zero).0, ops[1..], op, zero);
    }
  }

  // ---------- the entries

  /** The operation takes the entry for `id` out of the queue, if there is one. */
  predicate Removes<T>(op: Op<T>, id: int) {
    op.ReinitOp? || (op.ReleaseOp? && op.id >= id)
  }

  /** The `j`th operation adds an item under `id`, and none after it removes the entry. */
  ghost predicate AddedAt<T>(ops: seq<Op<T>>, j: nat, id: int) {
    && j < |ops| && ops[j].AddOp? && ops[j].id == id
    && forall m :: j < m < |ops| ==> !Removes(ops[m], id)
  }

  lemma AddedAtStep<T>(ops: seq<Op<T>>, op: Op<T>, j: nat, id: int)
    ensures AddedAt(ops + [op], j, id) <==>
            (j == |ops| && op.AddOp? && op.id == id) || (AddedAt(ops, j, id) && !Removes(op, id))
    ensures AddedAt(ops, j, id) ==> (ops + [op])[j] == ops[j]
  {
    var all := ops + [op];
    assert all[|ops|] == op;
    assert forall m :: 0 <= m < |ops| ==> all[m] == ops[m];
  }

  /** The entries of `i` are those added and not removed in `ops`. */
  ghost predicate EntriesAre<T>(i: Ideal<T>, ops: seq<Op<T>>) {
    && (forall id :: id in i.entries ==> exists j: nat :: AddedAt(ops, j, id))
    && (forall j: nat, id :: AddedAt(ops, j, id) ==> id in i.entries && i.entries[id] == ops[j].item)
  }

  lemma EntriesStep<T>(i: Ideal<T>, op: Op<T>, id: int)
    requires i.WellFormed() && Legal(i, op)
    ensures var e, e' := i.entries, IdealStep(i, op).0.entries;
            && (id in e' <==> (op.AddOp? && op.id == id) || (id in e && !Removes(op, id)))
            && (id in e' ==> e'[id] == if op.AddOp? && op.id == id then op.item else e[id])
            && (op.AddOp? && op.id == id ==> id !in e)
  {
  }

  lemma EntriesAreStep<T>(i: Ideal<T>, ops: seq<Op<T>>, op: Op<T>)
    requires i.WellFormed() && Legal(i, op) && EntriesAre(i, ops)
    ensures EntriesAre(IdealStep(i, op).0, ops + [op])
  {
    hide IdealStep, Legal, Removes;
    var i', all := IdealStep(i, op).0, ops + [op];
    forall id | id in i'.entries
      ensures exists j: nat :: AddedAt(all, j, id)
    {
      EntriesStep(i, op, id);
      if op.AddOp? && op.id == id {
        AddedAtStep(ops, op, |ops|, id);
      } else {
        var j: nat :| AddedAt(ops, j, id);
        AddedAtStep(ops, op, j, id);
      }
    }
    forall j: nat, id | AddedAt(all, j, id)
      ensures j < |all| && all[j].AddOp? && id in i'.entries && i'.entries[id] == all[j].item
    {
      EntriesStep(i, op, id);
      AddedAtStep(ops, op, j, id);
    }
  }

  /** After any legal run the entries of the queue are those added and not removed since. */
  lemma {:induction false} EntriesFollowRun<T>(base: int, size: nat, ops: seq<Op<T>>)
    requires size > 0 && LegalRun(EmptyIdeal(base, size), ops)
    ensures EntriesAre(IdealRun(EmptyIdeal(base, size), ops).0, ops)
    decreases |ops|
  {
    hide IdealStep, Legal, EntriesAre, LegalRun, IdealRun;
    if ops == [] {
      EmptyRun(EmptyIdeal<T>(base, size));
      NothingAdded<T>(base, size);
    } else {
      var front, op := ops[..|ops| - 1], ops[|ops| - 1];
      assert ops == front + [op];
      IdealLastStep(EmptyIdeal(base, size), front, op);
      EntriesFollowRun(base, size, front);
      EntriesAreStep(IdealRun(EmptyIdeal(base, size), front).0, front, op);
    }
  }

  lemma NothingAdded<T>(base: int, size: nat)
    ensures EntriesAre(EmptyIdeal<T>(base, size), [])
  {
  }

  // ---------- the window

  /** The lowest id of the window: the one after the last released, or that of the last reinitialisation. */
  function WindowBase<T>(base: int, ops: seq<Op<T>>): int
    decreases |ops|
  {
    if ops == [] then base
    else
      match ops[|ops| - 1]
      case ReinitOp(headSeqid) => headSeqid
      case ReleaseOp(id) => id + 1
      case _ => WindowBase(base, ops[..|ops| - 1])
  }

  lemma {:induction false} WindowFollowsRun<T>(base: int, size: nat, ops: seq<Op<T>>)
    requires size > 0 && LegalRun(EmptyIdeal(base, size), ops)
    ensures var i := IdealRun(EmptyIdeal(base, size), ops).0;
            i.WellFormed() && i.base == WindowBase(base, ops) && i.size == size
    decreases |ops|
  {
    hide LegalRun, IdealRun;
    if ops == [] {
      EmptyRun(EmptyIdeal<T>(base, size));
    } else {
      var front, op := ops[..|ops| - 1], ops[|ops| - 1];
      assert ops == front + [op];
      IdealLastStep(EmptyIdeal(base, size), front, op);
      WindowFollowsRun(base, size, front);
    }
  }

  lemma EmptyRun<T>(i: Ideal<T>)
    requires i.WellFormed()
    ensures LegalRun(i, []) && IdealRun(i, []) == (i, [])
  {
  }

  // ---------- the miss counts

  /** How often `id` is reported missing in `ops`. */
  function MissesOf<T>(ops: seq<Op<T>>, id: int): nat
    decreases |ops|
  {
    if ops == [] then 0
    else MissesOf(ops[..|ops| - 1], id) + if ops[|ops| - 1].MissOp? && ops[|ops| - 1].id == id then 1 else 0
  }

  lemma MissesOfStep<T>(ops: seq<Op<T>>, op: Op<T>, id: int)
    ensures MissesOf(ops + [op], id) == MissesOf(ops, id) + if op.MissOp? && op.id == id then 1 else 0
  {
    assert (ops + [op])[..|ops|] == ops;
  }

  lemma MissesStep<T>(i: Ideal<T>, op: Op<T>, id: int, n: nat)
    requires i.WellFormed() && Legal(i, op) && id in i.entries && !Removes(op, id)
    requires i.misses[id - i.base] == Wrap(n)
    ensures var i' := IdealStep(i, op).0;
            |i'.misses| == i'.size && i'.InWindow(id) &&
            i'.misses[id - i'.base] == Wrap(n + if op.MissOp? && op.id == id then 1 else 0)
  {
    hide Wrap;
    MissesFollowIds(i, op, id);
    WrapAbsorbs(n, 1);
  }

  lemma FirstMissCount<T>(i: Ideal<T>, item: T, id: int)
    requires i.WellFormed() && Legal(i, AddOp(item, id))
    ensures var i' := IdealStep(i, AddOp(item, id)).0;
            |i'.misses| == i'.size && i'.InWindow(id) && i'.misses[id - i'.base] == 0
  {
  }

  /** The miss count of an entry is the number of its misses since it was added, as a 32-bit number. */
  lemma {:induction false} MissesFollowRun<T>(base: int, size: nat, ops: seq<Op<T>>, j: nat, id: int)
    requires size > 0 && LegalRun(EmptyIdeal(base, size), ops)
    requires AddedAt(ops, j, id)
    ensures var i := IdealRun(EmptyIdeal(base, size), ops).0;
            |i.misses| == i.size && i.InWindow(id) && i.misses[id - i.base] == Wrap(MissesOf(ops[j + 1..], id))
    decreases |ops|
  {
    hide IdealStep, Legal, Removes, Wrap, LegalRun, IdealRun;
    var front, op := ops[..|ops| - 1], ops[|ops| - 1];
    assert ops == front + [op];
    IdealLastStep(EmptyIdeal(base, size), front, op);
    var i := IdealRun(EmptyIdeal(base, size), front).0;
    if j == |front| {
      FirstMissCount(i, op.item, id);
      WrapCases(0);
      assert ops[j + 1..] == [];
    } else {
      AddedAtStep(front, op, j, id);
      MissesFollowRun(base, size, front, j, id);
      EntriesFollowRun(base, size, front);
      MissesStep(i, op, id, MissesOf(front[j + 1..], id));
      MissesOfStep(front[j + 1..], op, id);
      assert ops[j + 1..] == front[j + 1..] + [op];
    }
  }

  // ---------- the replies

  /** The right reply to `op` after the operations `past` on a queue of `size` slots from `base` on. */
  ghost predicate RightReply<T>(base: int, size: nat, past: seq<Op<T>>, op: Op<T>, reply: Reply<T>) {
    match op
    case GetOp(id) =>
      && (forall j: nat :: AddedAt(past, j, id) ==> reply == Looked(Found(past[j].item)))
      && ((forall j: nat :: !AddedAt(past, j, id)) ==> reply == Looked(NoEntry))
    case InuseOp(id) => reply == Answer(exists j: nat :: AddedAt(past, j, id))
    case InRangeOp(id) => reply == Answer(WindowBase(base, past) <= id < WindowBase(base, past) + size)
    case MissOp(id) =>
      && reply.Counted?
      && forall j: nat :: AddedAt(past, j, id) ==> reply.count == Wrap(MissesOf(past[j + 1..], id) + 1)
    case _ => reply == Done
  }

  lemma IdealReplyRight<T>(base: int, size: nat, past: seq<Op<T>>, op: Op<T>)
    requires size > 0 && LegalRun(EmptyIdeal(base, size), past)
    requires IdealRun(EmptyIdeal(base, size), past).0.WellFormed()
    requires Legal(IdealRun(EmptyIdeal(base, size), past).0, op)
    ensures RightReply(base, size, past, op, IdealStep(IdealRun(EmptyIdeal(base, size), past).0, op).1)
  {
    hide LegalRun, IdealRun, WindowBase, MissesOf, Wrap;
    var i := IdealRun(EmptyIdeal(base, size), past).0;
    WindowFollowsRun(base, size, past);
    EntriesFollowRun(base, size, past);
    if op.MissOp? {
      forall j: nat | AddedAt(past, j, op.id)
        ensures j < |past| && IdealStep(i, op).1.count == Wrap(MissesOf(past[j + 1..], op.id) + 1)
      {
        MissesFollowRun(base, size, past, j, op.id);
        WrapAbsorbs(MissesOf(past[j + 1..], op.id), 1);
      }
    }
  }

  lemma {:induction false} IdealRepliesRight<T>(base: int, size: nat, ops: seq<Op<T>>, n: nat)
    requires size > 0 && LegalRun(EmptyIdeal(base, size), ops) && n < |ops|
    ensures |IdealRun(EmptyIdeal(base, size), ops).1| == |ops|
    ensures RightReply(base, size, ops[..n], ops[n], IdealRun(EmptyIdeal(base, size), ops).1[n])
    decreases |ops|
  {
    hide LegalRun, IdealRun, IdealStep, RightReply, Legal;
    var front, op := ops[..|ops| - 1], ops[|ops| - 1];
    assert ops == front + [op];
    IdealLastStep(EmptyIdeal(base, size), front, op);
    IdealRepliesCount(EmptyIdeal(base, size), front);
    if n == |front| {
      IdealReplyRight(base, size, front, op);
    } else {
      IdealRepliesRight(base, size, front, n);
      assert front[..n] == ops[..n];
    }
  }

  lemma {:induction false} IdealRepliesCount<T>(i: Ideal<T>, ops: seq<Op<T>>)
    requires i.WellFormed() && LegalRun(i, ops)
    ensures |IdealRun(i, ops).1| == |ops|
    decreases |ops|
  {
    hide IdealStep, Legal;
    if ops != [] {
      IdealStepWellFormed(i, ops[0]);
      IdealRepliesCount(IdealStep(i, ops[0]).0, ops[1..]);
    }
  }

  /** Every reply of the 32-bit queue over a legal run is the right one for the operations before
      it: a lookup finds the item added last and not released, a miss count is the number of misses
      since the id was added, and the range test is that of the window behind the last release. */
  lemma RepliesFollowHistory<T>(size: u32, headSeqid: int, ops: seq<Op<T>>, zero: T, n: nat)
    requires 1 <= size <= 0x1_0000 && n < |ops|
    requires LegalRun(EmptyIdeal(headSeqid, size), ops)
    ensures Init(size, headSeqid, zero).WellFormed()
    ensures |QueueRun(Init(size, headSeqid, zero), ops, zero).1| == |ops|
    ensures RightReply(headSeqid, size, ops[..n], ops[n], QueueRun(Init(size, headSeqid, zero), ops, zero).1[n])
  {
    hide LegalRun, IdealRun, QueueRun, RightReply, Init;
    RunRefines(size, headSeqid, ops, zero);
    IdealRepliesRight(headSeqid, size, ops, n);
  }

  // ---------- the slots

  /** The `j`th operation fills slot `p`, and the queue is not reinitialised after it. */
  ghost predicate FilledAt<T>(q: Queue<T>, ops: seq<Op<T>>, zero: T, j: nat, p: nat)
    requires q.WellFormed()
  {
    && j < |ops| && ops[j].AddOp?
    && QueueRun(q, ops[..j], zero).0.size > 0
    && AddPosition(QueueRun(q, ops[..j], zero).0, Wrap(ops[j].id)) == p
    && forall m :: j < m < |ops| ==> !ops[m].ReinitOp?
  }

  lemma FilledAtStep<T>(q: Queue<T>, ops: seq<Op<T>>, op: Op<T>, zero: T, j: nat, p: nat)
    requires q.WellFormed()
    ensures QueueRun(q, ops, zero).0.WellFormed()
    ensures FilledAt(q, ops + [op], zero, j, p) <==>
            (j == |ops| && op.AddOp? && AddPosition(QueueRun(q, ops, zero).0, Wrap(op.id)) == p) ||
            (FilledAt(q, ops, zero, j, p) && !op.ReinitOp?)
    ensures FilledAt(q, ops + [op], zero, j, p) ==> j <= |ops| && (ops + [op])[j].AddOp?
    ensures FilledAt(q, ops, zero, j, p) ==> j < |ops| && (ops + [op])[j] == ops[j]
  {
    hide QueueRun, AddPosition, Wrap;
    QueueLastStep(q, ops, op, zero);
    var all := ops + [op];
    assert all[|ops|] == op && all[..|ops|] == ops;
    assert forall m :: 0 <= m < |ops| ==> all[m] == ops[m];
    if j < |ops| {
      assert all[..j] == ops[..j];
    }
  }

  /** The operations of the run explain the highest slot and the items of `q'`: the highest slot
      is the highest one filled since the last initialisation, if any, and each slot holds the item
      that filled it last since then, if any, and is clear otherwise. */
  ghost predicate Explained<T>(q: Queue<T>, ops: seq<Op<T>>, zero: T, q': Queue<T>)
    requires q.WellFormed()
  {
    && (forall j: nat, p: nat :: FilledAt(q, ops, zero, j, p) ==> p <= q'.posMax)
    && (q'.posMax == 0 || exists j: nat :: FilledAt(q, ops, zero, j, q'.posMax))
    && |q'.items| == q.size
    && (forall p: nat :: p < q.size && (forall j: nat :: !FilledAt(q, ops, zero, j, p)) ==> q'.items[p] == zero)
    && (forall j: nat, p: nat :: p < q.size && LastFilledAt(q, ops, zero, j, p) ==> q'.items[p] == ops[j].item)
  }

  ghost predicate LastFilledAt<T>(q: Queue<T>, ops: seq<Op<T>>, zero: T, j: nat, p: nat)
    requires q.WellFormed()
  {
    FilledAt(q, ops, zero, j, p) && forall m: nat :: j < m < |ops| ==> !FilledAt(q, ops, zero, m, p)
  }

  /** What one operation does to the items and the highest slot. */
  lemma StepSlots<T>(q: Queue<T>, i: Ideal<T>, op: Op<T>, zero: T)
    requires Represents(q, i) && Legal(i, op)
    ensures var q', p := QueueStep(q, op, zero).0, if op.AddOp? then AddPosition(q, Wrap(op.id)) else 0;
            && q'.size == q.size && |q'.items| == q.size
            && (op.ReinitOp? ==> q'.posMax == 0 && forall s :: 0 <= s < q.size ==> q'.items[s] == zero)
            && (op.AddOp? ==> p < q.size && q'.posMax == if p > q.posMax then p else q.posMax)
            && (op.AddOp? ==> forall s :: 0 <= s < q.size ==> q'.items[s] == if s == p then op.item else q.items[s])
            && (!op.ReinitOp? && !op.AddOp? ==> q'.posMax == q.posMax && q'.items == q.items)
  {
    hide Wrap, Rem;
    if op.AddOp? {
      AddRepresents(q, i, op.item, op.id);
    }
  }

  lemma ExplainedInitially<T>(q: Queue<T>, zero: T)
    requires q.WellFormed() && q.posMax == 0 && forall p :: 0 <= p < q.size ==> q.items[p] == zero
    ensures Explained(q, [], zero, q)
  {
  }

  lemma ExplainedStep<T>(q: Queue<T>, ops: seq<Op<T>>, op: Op<T>, zero: T, a: Queue<T>, i: Ideal<T>)
    requires q.WellFormed() && a.WellFormed() && Explained(q, ops, zero, a)
    requires a == QueueRun(q, ops, zero).0 && a.size == q.size
    requires Represents(a, i) && Legal(i, op)
    ensures Explained(q, ops + [op], zero, QueueStep(a, op, zero).0)
  {
    hide QueueRun, QueueStep, AddPosition, Wrap, Represents, Legal, FilledAt;
    StepSlots(a, i, op, zero);
    var all, b := ops + [op], QueueStep(a, op, zero).0;
    forall j: nat, p: nat
      ensures FilledAt(q, all, zero, j, p) <==>
              (j == |ops| && op.AddOp? && AddPosition(a, Wrap(op.id)) == p) ||
              (FilledAt(q, ops, zero, j, p) && !op.ReinitOp?)
      ensures FilledAt(q, all, zero, j, p) ==> j < |all| && all[j].AddOp?
      ensures FilledAt(q, ops, zero, j, p) ==> j < |ops| && all[j] == ops[j]
    {
      FilledAtStep(q, ops, op, zero, j, p);
    }
    if b.posMax != 0 {
      if op.AddOp? && AddPosition(a, Wrap(op.id)) == b.posMax {
        assert FilledAt(q, all, zero, |ops|, b.posMax);
      } else {
        var j: nat :| FilledAt(q, ops, zero, j, a.posMax);
        assert FilledAt(q, all, zero, j, b.posMax);
      }
    }
    forall p: nat | p < q.size && forall j: nat :: !FilledAt(q, all, zero, j, p)
      ensures b.items[p] == zero
    {
      assert !FilledAt(q, all, zero, |ops|, p);
      assert !op.ReinitOp? ==> forall j: nat :: FilledAt(q, ops, zero, j, p) ==> FilledAt(q, all, zero, j, p);
    }
    forall j: nat, p: nat | p < q.size && LastFilledAt(q, all, zero, j, p)
      ensures j < |all| && all[j].AddOp? && b.items[p] == all[j].item
    {
      if j < |ops| {
        assert !FilledAt(q, all, zero, |ops|, p);
        assert forall m: nat :: j < m < |ops| ==> !FilledAt(q, all, zero, m, p);
        assert LastFilledAt(q, ops, zero, j, p);
      }
    }
  }

  /** After any legal run the highest slot that `sq_assert` goes by is the highest one filled since
      the last initialisation, and every slot holds the item it was last filled with since then,
      or is clear. */
  lemma {:induction false} SlotsFollowRun<T>(size: u32, headSeqid: int, ops: seq<Op<T>>, zero: T)
    requires 1 <= size <= 0x1_0000
    requires LegalRun(EmptyIdeal(headSeqid, size), ops)
    ensures Init(size, headSeqid, zero).WellFormed()
    ensures var q := Init(size, headSeqid, zero);
            Explained(q, ops, zero, QueueRun(q, ops, zero).0) && QueueRun(q, ops, zero).0.size == size
    decreases |ops|
  {
    hide LegalRun, IdealRun, QueueRun, QueueStep, Explained, Represents, Legal, IdealStep, Init;
    var q := Init(size, headSeqid, zero);
    InitRepresents(size, headSeqid, zero);
    InitIsClear(size, headSeqid, zero);
    RunRefines(size, headSeqid, ops, zero);
    if ops == [] {
      ExplainedInitially(q, zero);
      EmptyQueueRun(q, zero);
    } else {
      var front, op := ops[..|ops| - 1], ops[|ops| - 1];
      assert ops == front + [op];
      IdealLastStep(EmptyIdeal(headSeqid, size), front, op);
      QueueLastStep(q, front, op, zero);
      SlotsFollowRun(size, headSeqid, front, zero);
      RunRefines(size, headSeqid, front, zero);
      var a, i := QueueRun(q, front, zero).0, IdealRun(EmptyIdeal(headSeqid, size), front).0;
      ExplainedStep(q, front, op, zero, a, i);
      StepSlots(a, i, op, zero);
    }
  }

  lemma InitIsClear<T>(size: u32, headSeqid: int, zero: T)
    requires 1 <= size <= 0x1_0000
    ensures var q := Init(size, headSeqid, zero);
            q.size == size && q.WellFormed() && q.posMax == 0 && forall p :: 0 <= p < size ==> q.items[p] == zero
  {
  }

  lemma EmptyQueueRun<T>(q: Queue<T>, zero: T)
    requires q.WellFormed()
    ensures QueueRun(q, [], zero) == (q, [])
  {
  }
}
