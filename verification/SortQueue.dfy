/** The sort queue as the source keeps it: a structure updated in place, with three buffers.
    Every method is proved to take the queue's value through the function of SortQueueState. */
module SortQueue {
  import opened Uint32
  import opened SequenceOrder
  import opened SortQueueState

  method Memset(a: array<u32>, start: nat, count: nat)
    requires start + count <= a.Length
    modifies a
    ensures a[..] == Zeroed(old(a[..]), start, count)
  {
    for i := start to start + count
      invariant forall j :: 0 <= j < a.Length ==> a[j] == if start <= j < i then 0 else old(a[j])
    {
      a[i] := 0;
    }
  }

  lemma ZeroedPrefix(s: seq<u32>, n: nat, start: nat, count: nat)
    requires start + count <= n <= |s|
    ensures Zeroed(s, start, count)[..n] == Zeroed(s[..n], start, count)
  {
  }

  method Memcpy<E>(to: array<E>, from: array<E>, count: nat)
    requires to != from && count <= to.Length && count <= from.Length
    modifies to
    ensures to[..count] == from[..count]
  {
    for i := 0 to count
      invariant to[..i] == from[..i]
    {
      to[i] := from[i];
    }
  }

  class SortQueue<T> {
    var head: u32
    var size: u32
    var items: array<T>
    var itemsInuse: array<u32>
    var itemsMissCount: array<u32>
    var headSeqid: u32
    var itemCount: u32
    var posMax: u32
    /** The item that `memset` of the item buffer leaves: all its bytes are zero. */
    const zero: T

    ghost const Repr: set<object>

    ghost predicate Valid()
      reads this, Repr
    {
      && this in Repr && items in Repr && itemsInuse in Repr && itemsMissCount in Repr
      && itemsInuse != itemsMissCount
      && (items as object) != itemsInuse && (items as object) != itemsMissCount
      && itemCount == size <= items.Length
      && size <= itemsInuse.Length && size <= itemsMissCount.Length
      && Value().WellFormed()
    }

    /** The value that the structure holds; a buffer may be longer than the queue. */
    ghost function Value(): Queue<T>
      reads this, items, itemsInuse, itemsMissCount
      requires size <= items.Length && size <= itemsInuse.Length && size <= itemsMissCount.Length
    {
      Queue(head, size, items[..size], itemsInuse[..size], itemsMissCount[..size], headSeqid, posMax)
    }

    constructor (itemCount: u32, headSeqid: int, zero: T)
      requires 1 <= itemCount <= ADJUST_ROLLOVER_VALUE
      requires -0x8000_0000 <= headSeqid < 0x8000_0000
      ensures Valid() && fresh(Repr)
      ensures this.zero == zero
      ensures Value() == Init(itemCount, headSeqid, zero)
    {
      var items := new T[itemCount](_ => zero);
      var inuse := new u32[itemCount](_ => 0);
      var missCount := new u32[itemCount](_ => 0);
      this.head, this.size, this.headSeqid, this.itemCount, this.posMax := 0, itemCount, Wrap(headSeqid), itemCount, 0;
      this.items, this.itemsInuse, this.itemsMissCount := items, inuse, missCount;
      this.zero := zero;
      this.Repr := {this, items, inuse, missCount};
    }

    method Reinit(headSeqid: u32)
      requires Valid()
      modifies Repr
      ensures Valid()
      ensures Value() == SortQueueState.Reinit(old(Value()), headSeqid, zero)
    {
      this.head, this.headSeqid, this.posMax := 0, headSeqid, 0;
      forall i | 0 <= i < itemCount {
        items[i] := zero;
      }
      Memset(itemsInuse, 0, itemCount);
      Memset(itemsMissCount, 0, itemCount);
    }

    /** Whether `sq_assert` passes. */
    method Assert() returns (passed: bool)
      requires Valid()
      ensures passed <==> Value().TailFree()
    {
      var i := posMax + 1;
      while i < size
        invariant posMax + 1 <= i
        invariant forall p :: posMax < p < i && p < size ==> itemsInuse[p] == 0
      {
        if itemsInuse[i] != 0 {
          assert Value().inuse[i] != 0;
          return false;
        }
        i := i + 1;
      }
      return true;
    }

    /** `sq_copy` into a queue whose buffers are large enough for the source's items. */
    method CopyFrom(src: SortQueue<T>)
      requires Valid() && src.Valid() && Repr !! src.Repr
      requires src.size <= items.Length && src.size <= itemsInuse.Length && src.size <= itemsMissCount.Length
      requires src.Value().TailFree()
      modifies Repr
      ensures Valid() && src.Valid()
      ensures Value() == src.Value() == old(src.Value())
    {
      var passed := src.Assert();
      assert passed;
      head, size, headSeqid, itemCount, posMax := src.head, src.itemCount, src.headSeqid, src.itemCount, src.posMax;
      Memcpy(items, src.items, src.itemCount);
      Memcpy(itemsInuse, src.itemsInuse, src.itemCount);
      Memcpy(itemsMissCount, src.itemsMissCount, src.itemCount);
    }

    /** Stores an item in its slot, which must be free: the source asserts that it is. */
    method ItemAdd(item: T, seqid: u32) returns (position: nat)
      requires Valid()
      requires Value().inuse[AddPosition(Value(), seqid)] == 0
      modifies Repr
      ensures Valid()
      ensures Value() == SortQueueState.ItemAdd(old(Value()), item, seqid)
      ensures position == AddPosition(old(Value()), seqid)
    {
      position := Rem(Sub(Uint32.Add(head, seqid), headSeqid), size);
      if position > posMax {
        posMax := position;
      }
      items[position] := item;
      if seqid == 0 {
        itemsInuse[position] := 1;
      } else {
        itemsInuse[position] := seqid;
      }
      itemsMissCount[position] := 0;
    }

    method ItemInuse(seqid: u32) returns (inuse: bool)
      requires Valid()
      ensures inuse <==> SortQueueState.ItemInuse(Value(), seqid)
    {
      var position := Rem(Uint32.Add(Sub(head, headSeqid), seqid), size);
      inuse := itemsInuse[position] != 0;
    }

    method ItemMissCount(seqid: u32) returns (count: u32)
      requires Valid()
      modifies Repr
      ensures Valid()
      ensures Value() == MissCount(old(Value()), seqid)
      ensures count == Value().missCount[UsePosition(Value(), seqid)]
    {
      var position := Rem(Uint32.Add(Sub(head, headSeqid), seqid), size);
      itemsMissCount[position] := Uint32.Add(itemsMissCount[position], 1);
      count := itemsMissCount[position];
    }

    method ItemGet(seqid: u32) returns (lookup: Lookup<T>)
      requires Valid()
      ensures lookup == SortQueueState.ItemGet(Value(), seqid)
    {
      var position: u32;
      if seqid > ADJUST_ROLLOVER_POINT {
        if !(Sub(seqid, ADJUST_ROLLOVER_POINT) < Uint32.Add(Sub(headSeqid, ADJUST_ROLLOVER_POINT), size)) {
          return AssertionFailed;
        }
        position := Rem(
          Uint32.Add(Sub(Sub(head, ADJUST_ROLLOVER_VALUE), Sub(headSeqid, ADJUST_ROLLOVER_VALUE)), seqid), size);
      } else {
        if !(seqid < Uint32.Add(headSeqid, size)) {
          return AssertionFailed;
        }
        position := Rem(Uint32.Add(Sub(head, headSeqid), seqid), size);
      }
      if itemsInuse[position] == 0 {
        return NoEntry;
      }
      return Found(items[position]);
    }

    method InRange(seqid: u32) returns (inRange: bool)
      requires Valid()
      ensures inRange <==> SortQueueState.InRange(Value(), seqid)
    {
      inRange := true;
      if headSeqid > ADJUST_ROLLOVER_POINT {
        if Sub(seqid, ADJUST_ROLLOVER_VALUE) < Sub(headSeqid, ADJUST_ROLLOVER_VALUE) {
          inRange := false;
        }
        if Sub(seqid, ADJUST_ROLLOVER_VALUE) >= Uint32.Add(Sub(headSeqid, ADJUST_ROLLOVER_VALUE), size) {
          inRange := false;
        }
      } else {
        if seqid < headSeqid {
          inRange := false;
        }
        if seqid >= Uint32.Add(headSeqid, size) {
          inRange := false;
        }
      }
    }

    method ItemsRelease(seqid: u32)
      requires Valid()
      requires ReleaseInBounds(Value(), seqid)
      modifies Repr
      ensures Valid()
      ensures Value() == SortQueueState.ItemsRelease(old(Value()), seqid)
    {
      hide Wrap, Rem, Zeroed;
      ghost var inuse, missCount := itemsInuse[..], itemsMissCount[..];
      var oldHead := head;
      head := Rem(Uint32.Add(Sub(Uint32.Add(head, seqid), headSeqid), 1), size);
      if Uint32.Add(Sub(Uint32.Add(oldHead, seqid), headSeqid), 1) > size {
        Memset(itemsInuse, oldHead, size - oldHead);
        Memset(itemsInuse, 0, head);
        ZeroedPrefix(inuse, size, oldHead, size - oldHead);
        ZeroedPrefix(Zeroed(inuse, oldHead, size - oldHead), size, 0, head);
      } else {
        var count := Uint32.Add(Sub(seqid, headSeqid), 1);
        Memset(itemsInuse, oldHead, count);
        Memset(itemsMissCount, oldHead, count);
        ZeroedPrefix(inuse, size, oldHead, count);
        ZeroedPrefix(missCount, size, oldHead, count);
      }
      headSeqid := Uint32.Add(seqid, 1);
    }
  }
}
