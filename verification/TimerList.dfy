/** The timer list as the source keeps it: a ring of heap nodes, each embedded in its timer, and
    one handle cell per timer that is zeroed when the timer leaves the list. Every method is
    proved to take the ghost state through the function of TimerModel. */
module TimerList {
  import opened Options
  import opened RingList
  import M = TimerModel

  class HandleCell {
    var timer: Link?<Entry>

    constructor ()
      ensures timer == null
    {
      timer := null;
    }
  }

  /** The fields of a timer besides its node. */
  datatype Entry = Entry(timer: M.Timer, isAbsolute: bool, handle: HandleCell)

  /** Every node is embedded in a timer; `timerlist_add_duration` makes no absolute ones. */
  ghost predicate Embedded(ring: seq<Link<Entry>>) {
    forall i :: 0 <= i < |ring| ==> ring[i].entry.Some? && !ring[i].entry.value.isAbsolute
  }

  ghost function TimersOf(ring: seq<Link<Entry>>): (s: seq<M.Timer>)
    requires Embedded(ring)
    ensures |s| == |ring| && forall i :: 0 <= i < |s| ==> s[i] == ring[i].entry.value.timer
  {
    seq(|ring|, i requires 0 <= i < |ring| => ring[i].entry.value.timer)
  }

  ghost function HandleOf(node: Link?<Entry>): Option<HandleCell> {
    if node != null && node.entry.Some? then Some(node.entry.value.handle) else None
  }

  /** What each handle cell holds. */
  type Handles = map<HandleCell, Link?<Entry>>

  /** Each timer of the ring is held by its own handle. */
  ghost predicate Held(ring: seq<Link<Entry>>, handles: Handles) {
    forall n :: n in ring ==>
      HandleOf(n).Some? && HandleOf(n).value in handles && handles[HandleOf(n).value] == n
  }

  /** A handle that holds anything holds a timer of the ring, and is that timer's handle. */
  ghost predicate HoldsTimers(ring: seq<Link<Entry>>, handles: Handles) {
    forall c :: c in handles && handles[c] != null ==> handles[c] in ring && HandleOf(handles[c]) == Some(c)
  }

  lemma HeldAfterInsert(ring: seq<Link<Entry>>, handles: Handles, k: nat, node: Link<Entry>, cell: HandleCell)
    requires Held(ring, handles) && k <= |ring| && HandleOf(node) == Some(cell)
    requires cell in handles ==> handles[cell] == null
    ensures Held(RingList.Insert(ring, k, [node]), handles[cell := node])
  {
  }

  lemma HoldsTimersAfterInsert(ring: seq<Link<Entry>>, handles: Handles, k: nat, node: Link<Entry>, cell: HandleCell)
    requires HoldsTimers(ring, handles) && k <= |ring| && HandleOf(node) == Some(cell)
    ensures HoldsTimers(RingList.Insert(ring, k, [node]), handles[cell := node])
  {
  }

  lemma HeldAfterRemove(ring: seq<Link<Entry>>, handles: Handles, k: nat)
    requires Held(ring, handles) && k < |ring| && NoDuplicates(ring)
    ensures HandleOf(ring[k]).Some?
    ensures Held(Remove(ring, k), handles[HandleOf(ring[k]).value := null])
  {
  }

  lemma HoldsTimersAfterRemove(ring: seq<Link<Entry>>, handles: Handles, k: nat)
    requires HoldsTimers(ring, handles) && k < |ring| && NoDuplicates(ring) && HandleOf(ring[k]).Some?
    ensures HoldsTimers(Remove(ring, k), handles[HandleOf(ring[k]).value := null])
  {
  }

  /** The part of the list's invariant that does not depend on the heap. */
  ghost predicate Agrees(ring: seq<Link<Entry>>, handles: Handles, pending: seq<M.Timer>) {
    Embedded(ring) && pending == TimersOf(ring) && Held(ring, handles) && HoldsTimers(ring, handles)
  }

  lemma AgreesTimers(ring: seq<Link<Entry>>, handles: Handles, pending: seq<M.Timer>)
    requires Agrees(ring, handles, pending)
    ensures Embedded(ring) && TimersOf(ring) == pending && |ring| == |pending|
  {
  }

  lemma AgreesAfterAdd(
    ring: seq<Link<Entry>>, handles: Handles, state: M.State, k: nat, node: Link<Entry>, cell: HandleCell, r: M.Request)
    requires Agrees(ring, handles, state.pending) && k <= |ring|
    requires cell in handles ==> handles[cell] == null
    requires var expire := M.Expiry(state.now + r.elapsed, r.duration);
             node.entry == Some(Entry(M.Timer(|state.created|, expire, r.data), false, cell)) &&
             k == M.InsertIndex(state.pending, expire)
    ensures Agrees(RingList.Insert(ring, k, [node]), handles[cell := node], M.Add(state, r).pending)
  {
    hide Held, HoldsTimers, M.Expiry, M.InsertIndex;
    HeldAfterInsert(ring, handles, k, node, cell);
    HoldsTimersAfterInsert(ring, handles, k, node, cell);
  }

  lemma AgreesAfterRemove(ring: seq<Link<Entry>>, handles: Handles, pending: seq<M.Timer>, k: nat)
    requires Agrees(ring, handles, pending) && k < |ring| && NoDuplicates(ring)
    ensures k < |pending| && ring[k].entry.Some? && ring[k].entry.value.timer == pending[k]
    ensures ring[k].entry.value.handle in handles && handles[ring[k].entry.value.handle] == ring[k]
    ensures Agrees(Remove(ring, k), handles[ring[k].entry.value.handle := null], Remove(pending, k))
  {
    hide Held, HoldsTimers, NoDuplicates;
    HeldAt(ring, handles, k);
    HeldAfterRemove(ring, handles, k);
    HoldsTimersAfterRemove(ring, handles, k);
  }

  lemma HeldAt(ring: seq<Link<Entry>>, handles: Handles, k: nat)
    requires Held(ring, handles) && k < |ring|
    ensures HandleOf(ring[k]).Some? && HandleOf(ring[k]).value in handles && handles[HandleOf(ring[k]).value] == ring[k]
  {
  }

  /** `added` holds the node of every timer ever added, by number, and every node of the ring is
      the one that was added for its timer. */
  ghost predicate Tracked(
    ring: seq<Link<Entry>>, cells: set<HandleCell>, added: seq<Link<Entry>>, created: seq<M.Timer>)
  {
    && |added| == |created|
    && (forall i :: 0 <= i < |added| ==> HandleOf(added[i]).Some? && HandleOf(added[i]).value in cells)
    && (forall i :: 0 <= i < |added| ==> added[i].entry.value.timer == created[i] && created[i].id == i)
    && (forall n :: n in ring ==> n.entry.Some? && NodeOf(added, n.entry.value.timer) == Some(n))
  }

  ghost function NodeOf(added: seq<Link<Entry>>, t: M.Timer): Option<Link<Entry>> {
    if t.id < |added| then Some(added[t.id]) else None
  }

  lemma TrackedAfterAdd(ring: seq<Link<Entry>>, cells: set<HandleCell>, added: seq<Link<Entry>>, created: seq<M.Timer>,
                        k: nat, node: Link<Entry>, cell: HandleCell)
    requires Tracked(ring, cells, added, created) && k <= |ring|
    requires HandleOf(node) == Some(cell) && node.entry.value.timer.id == |created|
    ensures Tracked(
              RingList.Insert(ring, k, [node]), cells + {cell}, added + [node], created + [node.entry.value.timer])
  {
    var ring', added' := RingList.Insert(ring, k, [node]), added + [node];
    forall n | n in ring'
      ensures n.entry.Some? && NodeOf(added', n.entry.value.timer) == Some(n)
    {
      assert n in ring || n == node;
    }
  }

  lemma TrackedAfterRemove(
    ring: seq<Link<Entry>>, cells: set<HandleCell>, added: seq<Link<Entry>>, created: seq<M.Timer>, k: nat)
    requires Tracked(ring, cells, added, created) && k < |ring|
    ensures Tracked(Remove(ring, k), cells, added, created)
  {
  }

  ghost predicate DistinctHandles(added: seq<Link<Entry>>) {
    forall i, j :: 0 <= i < j < |added| ==> HandleOf(added[i]) != HandleOf(added[j])
  }

  /** More timers were added, with handle cells of their own if all had theirs before. */
  ghost predicate Later(added: seq<Link<Entry>>, added': seq<Link<Entry>>) {
    added <= added' && (DistinctHandles(added) ==> DistinctHandles(added'))
  }

  lemma LaterAfterAdd(ring: seq<Link<Entry>>, cells: set<HandleCell>, added: seq<Link<Entry>>, created: seq<M.Timer>,
                      node: Link<Entry>, cell: HandleCell)
    requires Tracked(ring, cells, added, created) && HandleOf(node) == Some(cell) && cell !in cells
    ensures Later(added, added + [node])
  {
  }

  lemma NothingLater(added: seq<Link<Entry>>, handles: Handles)
    ensures Later(added, added) && Kept(handles, handles) && Aged(handles, handles)
  {
  }

  lemma LaterTransitive(a: seq<Link<Entry>>, b: seq<Link<Entry>>, c: seq<Link<Entry>>)
    requires Later(a, b) && Later(b, c)
    ensures Later(a, c)
  {
  }

  lemma LaterDistinct(a: seq<Link<Entry>>, b: seq<Link<Entry>>)
    requires Later(a, b) && DistinctHandles(a)
    ensures DistinctHandles(b)
  {
  }

  /** The cells given before hold what they held. */
  ghost predicate Kept(handles: Handles, handles': Handles) {
    forall c :: c in handles ==> c in handles' && handles'[c] == handles[c]
  }

  lemma KeptTransitive(a: Handles, b: Handles, c: Handles)
    requires Kept(a, b) && Kept(b, c)
    ensures Kept(a, c)
    ensures c.Keys - a.Keys == (c.Keys - b.Keys) + (b.Keys - a.Keys)
  {
  }

  /** The cells given before hold what they held, or were zeroed. */
  ghost predicate Aged(handles: Handles, handles': Handles) {
    forall c :: c in handles ==> c in handles' && (handles'[c] == handles[c] || handles'[c] == null)
  }

  lemma AgedByDispatch(was: Handles, handles: Handles, cell: HandleCell, handles': Handles)
    requires Aged(was, handles) && Kept(handles[cell := null], handles')
    ensures Aged(was, handles')
  {
  }

  /** What an expiry at time `at` does to the nodes and the handles: exactly the timers that are
      due leave the list, and exactly their handles are zeroed. */
  ghost predicate DueLeft(
    ring: seq<Link<Entry>>, handles: Handles, at: nat, ring': seq<Link<Entry>>, handles': Handles)
  {
    && (forall n :: n in ring ==> n.entry.Some? && (n in ring' <==> n.entry.value.timer.expire >= at))
    && (forall c :: c in handles ==> handles[c] == null || handles[c].entry.Some?)
    && (forall c :: c in handles ==> c in handles')
    && (forall c :: c in handles ==>
          handles'[c] == if handles[c] != null && handles[c].entry.value.timer.expire < at then null else handles[c])
  }

  lemma AllAfterAdd(ring: seq<Link<Entry>>, handles: Handles, added: seq<Link<Entry>>, state: M.State,
                    k: nat, node: Link<Entry>, cell: HandleCell, r: M.Request)
    requires Agrees(ring, handles, state.pending) && Tracked(ring, handles.Keys, added, state.created)
    requires k <= |ring| && (cell in handles ==> handles[cell] == null)
    requires var expire := M.Expiry(state.now + r.elapsed, r.duration);
             node.entry == Some(Entry(M.Timer(|state.created|, expire, r.data), false, cell)) &&
             k == M.InsertIndex(state.pending, expire)
    ensures var ring', handles' := RingList.Insert(ring, k, [node]), handles[cell := node];
            && Agrees(ring', handles', M.Add(state, r).pending)
            && Tracked(ring', handles'.Keys, added + [node], M.Add(state, r).created)
    ensures |M.Add(state, r).created| == |state.created| + 1
    ensures cell !in handles ==> Later(added, added + [node])
  {
    hide Tracked, Later, Agrees, RingList.Insert, M.Add, M.InsertIndex, M.Expiry;
    AgreesAfterAdd(ring, handles, state, k, node, cell, r);
    TrackedAfterAdd(ring, handles.Keys, added, state.created, k, node, cell);
    assert handles[cell := node].Keys == handles.Keys + {cell};
    M.AddCreates(state, r);
    if cell !in handles {
      LaterAfterAdd(ring, handles.Keys, added, state.created, node, cell);
    }
  }

  lemma DueTimersLeave(
    ring: seq<Link<Entry>>, handles: Handles, added: seq<Link<Entry>>, st: M.State,
    ring': seq<Link<Entry>>, handles': Handles, added': seq<Link<Entry>>, st': M.State,
    at: nat, callback: M.Callback)
    requires Agrees(ring, handles, st.pending) && Tracked(ring, handles.Keys, added, st.created)
    requires Agrees(ring', handles', st'.pending) && Tracked(ring', handles'.Keys, added', st'.created)
    requires Later(added, added') && Aged(handles, handles')
    requires M.Inv(st) && st.now <= at && M.CallbacksFit(at, st.pending[..M.DueCount(st.pending, at)], callback)
    requires st' == M.Expire(st, at - st.now, callback)
    ensures DueLeft(ring, handles, at, ring', handles')
  {
    hide Held, HoldsTimers, Tracked, Aged, DueLeft, M.Inv, M.CallbacksFit, M.Expire, M.DueCount, M.Expired;
    M.ExpireRunsExactlyTheDue(st, at - st.now, callback);
    DueNodesLeave(ring, handles, added, st, ring', handles', added', st', at);
    DueHandlesZeroed(ring, handles, ring', handles', at);
  }

  lemma DueNodesLeave(
    ring: seq<Link<Entry>>, handles: Handles, added: seq<Link<Entry>>, st: M.State,
    ring': seq<Link<Entry>>, handles': Handles, added': seq<Link<Entry>>, st': M.State, at: nat)
    requires Agrees(ring, handles, st.pending) && Tracked(ring, handles.Keys, added, st.created)
    requires Agrees(ring', handles', st'.pending) && Tracked(ring', handles'.Keys, added', st'.created)
    requires added <= added'
    requires forall t :: t in st.pending && t.expire >= at ==> t in st'.pending
    requires forall t :: t in st'.pending ==> t.expire >= at
    ensures forall n :: n in ring ==> n.entry.Some? && (n in ring' <==> n.entry.value.timer.expire >= at)
  {
    hide Held, HoldsTimers;
    forall n | n in ring
      ensures n.entry.Some? && (n in ring' <==> n.entry.value.timer.expire >= at)
    {
      var t := n.entry.value.timer;
      assert t in st.pending;
      if t in st'.pending {
        var i :| 0 <= i < |ring'| && st'.pending[i] == t;
        assert ring'[i] == added'[t.id] == added[t.id] == n;
      }
    }
  }

  lemma DueHandlesZeroed(ring: seq<Link<Entry>>, handles: Handles, ring': seq<Link<Entry>>, handles': Handles, at: nat)
    requires HoldsTimers(ring, handles) && Held(ring', handles') && HoldsTimers(ring', handles')
    requires Aged(handles, handles')
    requires forall n :: n in ring ==> n.entry.Some? && (n in ring' <==> n.entry.value.timer.expire >= at)
    ensures DueLeft(ring, handles, at, ring', handles')
  {
    forall c | c in handles && handles[c] != null
      ensures handles[c].entry.Some?
      ensures handles'[c] == if handles[c].entry.value.timer.expire < at then null else handles[c]
    {
      var n := handles[c];
      assert n in ring && HandleOf(n) == Some(c);
      if n in ring' {
        assert handles'[c] == n;
      } else {
        assert handles'[c] != n;
      }
    }
  }

  class TimerList {
    const head: Link<Entry>
    /** Numbers the allocated timers; the source tells them apart by their addresses. */
    var serial: nat
    ghost var ring: seq<Link<Entry>>
    /** All handle cells ever given to the list, and what they hold. */
    ghost var handles: Handles
    /** The nodes of all timers ever added, in the order of their addition. */
    ghost var added: seq<Link<Entry>>
    ghost var state: M.State
    /** The heap nodes of the list: its head and those of the timers. */
    ghost var nodes: set<Link<Entry>>

    ghost predicate Linked()
      reads `ring, `nodes, nodes
    {
      && head in nodes && (forall n :: n in ring ==> n in nodes)
      && Ring(head, ring)
    }

    lemma LinkedRing()
      requires Linked()
      ensures Ring(head, ring)
    {
    }

    ghost predicate CellsHold()
      reads `handles, handles.Keys
    {
      forall c :: c in handles ==> c.timer == handles[c]
    }

    /** The ring is sound, its timers are the pending ones, and a handle is set exactly while its
        timer is pending, when it leads to the timer. */
    ghost predicate Valid()
      reads this, nodes, handles.Keys
    {
      && Linked() && CellsHold() && Agrees(ring, handles, state.pending) && serial == |state.created|
      && Tracked(ring, handles.Keys, added, state.created)
    }

    constructor (ghost now: nat)
      ensures Valid() && fresh(nodes)
      ensures ring == [] && handles == map[] && added == []
      ensures state == M.State(now, [], [], [], [])
    {
      var head := new Link(None);
      this.head := head;
      serial := 0;
      ring := [];
      handles := map[];
      added := [];
      state := M.State(now, [], [], [], []);
      nodes := {head};
    }

    method LinkBefore(node: Link<Entry>, at: Link<Entry>, ghost k: nat)
      requires Linked() && node !in nodes
      requires k <= |ring| && at == (ring + [head])[k]
      modifies `ring, `nodes, nodes`next, nodes`prev, node`next, node`prev
      ensures Linked() && nodes == old(nodes) + {node}
      ensures ring == RingList.Insert(old(ring), k, [node])
    {
      hide Ring, NoDuplicates, RingList.Insert;
      assert at in nodes && at.prev in nodes by {
        RingNodes(head, ring);
      }
      assert forall x :: x in RingList.Insert(ring, k, [node]) ==> x in ring || x == node by {
        InsertThenRemove(ring, k, node);
      }
      AddTail(node, at, head, ring, k);
      ring := RingList.Insert(ring, k, [node]);
      nodes := nodes + {node};
    }

    /** `timerlist_add`: links the node in before the first one that expires later. */
    method Insert(node: Link<Entry>) returns (ghost k: nat)
      requires Linked() && Embedded(ring)
      requires node !in nodes && node.entry.Some?
      modifies `ring, `nodes, nodes`next, nodes`prev, node`next, node`prev
      ensures Linked() && nodes == old(nodes) + {node}
      ensures k <= |old(ring)| && k == M.InsertIndex(TimersOf(old(ring)), node.entry.value.timer.expire)
      ensures ring == RingList.Insert(old(ring), k, [node])
    {
      ghost var s := TimersOf(ring);
      var expire := node.entry.value.timer.expire;
      var pos := head.next;
      k := 0;
      while pos != head
        invariant k <= |ring| && pos == (ring + [head])[k]
        invariant forall i :: 0 <= i < k ==> s[i].expire <= expire
        decreases |ring| - k
      {
        if pos.entry.value.timer.expire > expire {
          M.InsertIndexUnique(s, expire, k);
          LinkBefore(node, pos, k);
          return;
        }
        pos := pos.next;
        k := k + 1;
      }
      M.InsertIndexUnique(s, expire, k);
      LinkBefore(node, head, k);
    }

    /** `timerlist_add_duration`, where the clock reads `now`. The handle cell must not be that of
        a pending timer. */
    method AddDuration(now: nat, duration: nat, data: int, cell: HandleCell)
      returns (ghost timer: Link<Entry>, ghost k: nat)
      requires Valid() && now >= state.now
      requires cell in handles ==> cell.timer == null
      modifies this, nodes`next, nodes`prev, cell`timer
      ensures Valid() && cell.timer == timer && fresh(timer)
      ensures nodes == old(nodes) + {timer} && handles == old(handles)[cell := timer]
      ensures added == old(added) + [timer]
      ensures cell !in old(handles) ==> Later(old(added), added)
      ensures state == M.Add(old(state), M.Request(now - old(state.now), duration, data))
      ensures k <= |old(ring)| && k == M.InsertIndex(old(state.pending), M.Expiry(now, duration))
      ensures ring == RingList.Insert(old(ring), k, [timer])
    {
      hide Tracked, Later, Agrees, Embedded, TimersOf, Linked, CellsHold, RingList.Insert;
      hide M.Add, M.InsertIndex, M.Expiry;
      AgreesTimers(ring, handles, state.pending);
      CellHolds(cell);
      ghost var r := M.Request(now - state.now, duration, data);
      var node := new Link(Some(Entry(M.Timer(serial, M.Expiry(now, duration), data), false, cell)));
      timer := node;
      k := Insert(node);
      AllAfterAdd(old(ring), handles, added, state, k, node, cell, r);
      serial := serial + 1;
      state := M.Add(state, r);
      added := added + [node];
      SetHandle(cell, node);
    }

    method SetHandle(cell: HandleCell, timer: Link?<Entry>)
      requires CellsHold()
      modifies `handles, cell`timer
      ensures CellsHold() && cell.timer == timer && handles == old(handles)[cell := timer]
    {
      cell.timer := timer;
      handles := handles[cell := timer];
    }

    lemma CellHolds(cell: HandleCell)
      requires CellsHold()
      ensures cell in handles ==> handles[cell] == cell.timer
    {
    }

    method UnlinkNode(node: Link<Entry>, ghost k: nat)
      requires Linked() && k < |ring| && node == ring[k]
      modifies `ring, nodes`next, nodes`prev
      ensures Linked() && Ring(node, [])
      ensures ring == Remove(old(ring), k)
    {
      hide Ring, NoDuplicates, Remove;
      assert node.next in nodes && node.prev in nodes && node != head by {
        RingNodes(head, ring);
      }
      ghost var rest := Remove(ring, k);
      assert forall x :: x in rest ==> x in ring && x != node by {
        RingNodes(head, ring);
        RemoveContents(ring, k);
      }
      Del(node, head, ring, k);
      ring := rest;
      assert Ring(head, ring) && node !in ring;
      Init(node);
      assert Ring(head, ring);
    }

    /** Zeroes the handle of a timer and takes it off the ring. */
    method Unlink(node: Link<Entry>, ghost k: nat)
      requires Valid() && k < |ring| && node == ring[k]
      modifies `ring, `handles, `state, nodes`next, nodes`prev, node.entry.value.handle`timer
      ensures Valid() && Ring(node, [])
      ensures ring == Remove(old(ring), k)
      ensures state == old(state).(pending := Remove(old(state.pending), k))
      ensures handles == old(handles)[node.entry.value.handle := null]
    {
      hide Tracked, Agrees, Linked, CellsHold, Ring, NoDuplicates, Remove;
      assert NoDuplicates(ring) by {
        LinkedRing();
        RingNodes(head, ring);
      }
      AgreesAfterRemove(ring, handles, state.pending, k);
      TrackedAfterRemove(ring, handles.Keys, added, state.created, k);
      SetHandle(node.entry.value.handle, null);
      UnlinkNode(node, k);
      state := state.(pending := Remove(state.pending, k));
      assert handles.Keys == old(handles.Keys);
    }

    /** `timerlist_del`, given the timer that a handle leads to. */
    method Delete(node: Link<Entry>, ghost k: nat)
      requires Valid() && k < |ring| && node == ring[k]
      modifies `ring, `handles, `state, nodes`next, nodes`prev, node.entry.value.handle`timer
      ensures Valid()
      ensures state == M.Delete(old(state), k)
      ensures ring == Remove(old(ring), k)
      ensures handles == old(handles)[node.entry.value.handle := null]
    {
      hide Tracked, Agrees, Linked, CellsHold;
      assert NoDuplicates(ring) by {
        LinkedRing();
        RingNodes(head, ring);
      }
      AgreesAfterRemove(ring, handles, state.pending, k);
      Unlink(node, k);
      state := state.(deleted := state.deleted + [node.entry.value.timer]);
    }

    /** `timerlist_msec_duration_to_expire`: both clocks are read, and the first timer's one used. */
    method MsecDurationToExpire(now: nat, fromEpoch: nat, hertz: int) returns (msec: nat)
      requires Valid() && hertz > 0
      ensures msec == M.MsecToExpire(state.pending, now, hertz)
    {
      var empty := Empty(head, ring);
      if empty {
        return 0xFFFF_FFFF_FFFF_FFFF;
      }
      var first := head.next.entry.value;
      var current := if first.isAbsolute then fromEpoch else now;
      if first.timer.expire < current {
        return 0;
      }
      msec := (first.timer.expire - current) / 1_000_000 + 1000 / hertz;
    }

    /** One request of a timer function, with a handle cell of its own. */
    method ServeRequest(r: M.Request, now: nat, ghost n: nat) returns (clock: nat)
      requires Valid() && M.Inv(state) && M.Fits(state.now, r)
      requires now == state.now && M.FrontDue(state, n)
      modifies this, nodes`next, nodes`prev
      ensures Valid() && fresh(nodes - old(nodes))
      ensures Kept(old(handles), handles) && fresh(handles.Keys - old(handles.Keys))
      ensures Later(old(added), added)
      ensures state == M.Add(old(state), r) && clock == state.now
      ensures Grown(old(ring), ring, n)
    {
      hide Tracked, Later, Agrees, Linked, CellsHold, Grown;
      hide M.Inv, M.FrontDue, M.OnlyAdded, M.Add, M.InsertIndex, M.Expiry;
      M.AddKeepsFront(state, r, n);
      clock := now + r.elapsed;
      var cell := new HandleCell();
      ghost var timer, k := AddDuration(clock, r.duration, r.data, cell);
      InsertGrows(old(ring), k, timer, n);
    }

    /** Runs the function of a dispatched timer: it makes its requests one after the other, while
        the clock goes on. */
    method CallTimerFn(requests: seq<M.Request>, now: nat, ghost n: nat) returns (clock: nat)
      requires Valid() && M.Inv(state) && M.AllFit(state.now, requests)
      requires now == state.now && M.FrontDue(state, n)
      modifies this, nodes`next, nodes`prev
      ensures Valid() && fresh(nodes - old(nodes))
      ensures Kept(old(handles), handles) && fresh(handles.Keys - old(handles.Keys))
      ensures Later(old(added), added)
      ensures state == M.AddAll(old(state), requests) && clock == state.now
      ensures Grown(old(ring), ring, n)
      decreases |requests|
    {
      hide Tracked, Later, Agrees, Linked, CellsHold, Grown, Kept;
      hide M.Inv, M.FrontDue, M.OnlyAdded, M.Add, M.InsertIndex, M.Expiry;
      GrownReflexive(this, n);
      NothingLater(added, handles);
      if |requests| == 0 {
        clock := now;
      } else {
        M.AddKeepsFront(state, requests[0], n);
        clock := ServeRequest(requests[0], now, n);
        ghost var ring1, handles1, added1 := ring, handles, added;
        clock := CallTimerFn(requests[1..], clock, n);
        GrownTransitive(old(ring), ring1, ring, n);
        KeptTransitive(old(handles), handles1, handles);
        LaterTransitive(old(added), added1, added);
      }
    }

    /** The body of the expiry's loop for a due timer: it leaves the list, its handle is zeroed,
        and then its function runs. */
    method Dispatch(node: Link<Entry>, now: nat, ghost n: nat, at: nat, callback: M.Callback, ghost target: M.State)
      returns (clock: nat)
      requires Valid() && M.Dispatching(state, n, at, callback, target) && n > 0
      requires now == state.now && |ring| > 0 && node == ring[0] && |state.pending| == |ring|
      requires node.entry.Some? && node.entry.value.timer == state.pending[0] && node.entry.value.handle in handles
      modifies this, nodes`next, nodes`prev, node.entry.value.handle`timer
      ensures Valid() && M.Dispatching(state, n - 1, at, callback, target) && clock == state.now
      ensures n - 1 <= |state.pending| && Grown(Remove(old(ring), 0), ring, n - 1)
      ensures Kept(old(handles)[node.entry.value.handle := null], handles) && Later(old(added), added)
      ensures fresh(nodes - old(nodes)) && fresh(handles.Keys - old(handles.Keys))
    {
      hide Tracked, Later, Kept, Agrees, Linked, CellsHold, Grown, Remove, Ring;
      hide M.Inv, M.FrontDue, M.OnlyAdded, M.AddAll, M.AllFit, M.Dispatching;
      var timer := node.entry.value.timer;
      M.DispatchStep(state, n, at, callback, target);
      RemoveFirst(state.pending);
      Unlink(node, 0);
      state := state.(dispatched := state.dispatched + [M.Dispatch(timer, at)]);
      clock := CallTimerFn(callback(timer), now, n - 1);
    }

    /** `timerlist_expire`, with the two clocks' readings on entry. The next node is saved before a
        timer function runs, so that the function may add timers; `callback` says which ones. */
    method Expire(now: nat, fromEpoch: nat, callback: M.Callback) returns (clock: nat)
      requires Valid() && M.Inv(state) && now >= state.now
      requires M.CallbacksFit(now, state.pending[..M.DueCount(state.pending, now)], callback)
      modifies this, nodes, handles.Keys
      ensures Valid() && M.Inv(state) && clock == state.now
      ensures state == M.Expire(old(state), now - old(state.now), callback)
      ensures DueLeft(old(ring), old(handles), now, ring, handles) && Later(old(added), added)
      ensures fresh(nodes - old(nodes)) && fresh(handles.Keys - old(handles.Keys))
    {
      hide Tracked, Later, Kept, Aged, DueLeft, Agrees, Linked, CellsHold, Grown, Remove, AtFront;
      hide Embedded, TimersOf, Held, HoldsTimers, DistinctHandles, Ring, NoDuplicates;
      hide M.Inv, M.FrontDue, M.OnlyAdded, M.AddAll, M.AllFit, M.CallbacksFit;
      hide M.DispatchFront, M.Dispatching, M.Expired, M.Expire, M.DueCount;
      NothingLater(added, handles);
      ghost var n := M.DueCount(state.pending, now);
      ghost var target := M.Expire(state, now - state.now, callback);
      M.StartExpire(state, now, callback);
      state := state.(now := now);
      clock := now;
      var pos := head.next;
      var next := pos.next;
      EnterList(pos, next, n);
      while pos != head
        invariant Valid() && M.Dispatching(state, n, now, callback, target) && clock == state.now
        invariant AtFront(ring, head, pos, next, n)
        invariant Aged(old(handles), handles) && Later(old(added), added)
        invariant fresh(nodes - old(nodes)) && fresh(handles.Keys - old(handles.Keys))
        decreases n
      {
        FrontTimer(pos, next, n, now, callback, target);
        var entry := pos.entry.value;
        var current := if entry.isAbsolute then fromEpoch else now;
        if !(entry.timer.expire < current) {
          break;
        }
        ghost var ring1, handles1, added1 := ring, handles, added;
        clock := Dispatch(pos, clock, n, now, callback, target);
        n := n - 1;
        NextFront(ring1, ring, head, next, n);
        AgedByDispatch(old(handles), handles1, entry.handle, handles);
        LaterTransitive(old(added), added1, added);
        pos := next;
        next := pos.next;
        EnterFront(pos, next, n);
      }
      if pos == head {
        HeadIsEnd(next, n);
      }
      M.DispatchEnd(state, now, callback, target);
      DueTimersLeave(old(ring), old(handles), old(added), old(state), ring, handles, added, state, now, callback);
    }

    /** The walk of `qb_list_for_each` to the node of the timer at place `k`. */
    method NodeAt(k: nat) returns (node: Link<Entry>)
      requires Linked() && k < |ring|
      ensures node == ring[k]
    {
      node := head.next;
      var i := 0;
      while i < k
        invariant i <= k && node == ring[i]
      {
        node := node.next;
        i := i + 1;
      }
    }

    lemma NodeHandle(k: nat)
      requires Valid() && k < |state.pending|
      ensures Linked() && k < |ring| && HandleOf(ring[k]).Some? && HandleOf(ring[k]).value in handles
    {
    }

    /** One operation of a client that gives each timer a handle cell of its own. */
    method Perform(op: M.Op, now: nat, fromEpoch: nat -> nat) returns (clock: nat)
      requires Valid() && M.Inv(state) && M.Legal(state, op) && now == state.now
      modifies this, nodes, handles.Keys
      ensures Valid() && M.Inv(state) && clock == state.now
      ensures state == M.Step(old(state), op) && Later(old(added), added)
      ensures fresh(nodes - old(nodes)) && fresh(handles.Keys - old(handles.Keys))
    {
      hide Tracked, Later, Kept, Agrees, Linked, CellsHold, DueLeft, DistinctHandles, RingList.Insert, Remove;
      hide M.Inv, M.AllFit, M.CallbacksFit, M.InsertIndex, M.DueCount, M.Inserted, M.Expire;
      NothingLater(added, handles);
      match op {
        case AddOp(r) =>
          M.AddKeepsInv(state, r);
          clock := now + r.elapsed;
          var cell := new HandleCell();
          ghost var _, _ := AddDuration(clock, r.duration, r.data, cell);
        case DeleteOp(k) =>
          M.DeleteKeepsInv(state, k);
          clock := now;
          NodeHandle(k);
          var node := NodeAt(k);
          Delete(node, k);
        case ExpireOp(elapsed, callback) =>
          clock := Expire(now + elapsed, fromEpoch(now + elapsed), callback);
      }
    }

    /** Any run of additions, deletions and expiries on the heap goes as in the model, and keeps
        every handle exact. */
    method Run(ops: seq<M.Op>, now: nat, fromEpoch: nat -> nat)
      requires Valid() && M.Inv(state) && M.LegalRun(state, ops) && now == state.now
      modifies this, nodes, handles.Keys
      ensures Valid() && M.Inv(state)
      ensures state == M.Run(old(state), ops) && Later(old(added), added)
      ensures DistinctHandles(old(added)) ==> HandlesExact(this)
      ensures fresh(nodes - old(nodes)) && fresh(handles.Keys - old(handles.Keys))
      decreases |ops|
    {
      hide Tracked, Later, Agrees, Linked, CellsHold, DistinctHandles, HandlesExact, M.Inv, M.Legal, M.Step;
      if |ops| == 0 {
        NothingLater(added, handles);
        AllHandlesExact(this);
      } else {
        var clock := Perform(ops[0], now, fromEpoch);
        ghost var added1 := added;
        if DistinctHandles(old(added)) {
          LaterDistinct(old(added), added1);
        }
        Run(ops[1..], clock, fromEpoch);
        LaterTransitive(old(added), added1, added);
      }
    }

    lemma EnterFront(pos: Link<Entry>, next: Link<Entry>, n: nat)
      requires Valid() && n <= |state.pending|
      requires pos in ring + [head] && next == pos.next
      requires n > 0 ==> pos == (ring + [head])[0]
      ensures AtFront(ring, head, pos, next, n)
    {
    }

    lemma EnterList(pos: Link<Entry>, next: Link<Entry>, n: nat)
      requires Valid() && n <= |state.pending|
      requires pos == head.next && next == pos.next
      ensures AtFront(ring, head, pos, next, n)
    {
    }

    lemma HeadIsEnd(next: Link<Entry>, n: nat)
      requires Valid() && AtFront(ring, head, head, next, n)
      ensures n == 0
    {
    }

    lemma FrontTimer(
      pos: Link<Entry>, next: Link<Entry>, n: nat, at: nat, callback: M.Callback, target: M.State)
      requires Valid() && AtFront(ring, head, pos, next, n) && pos != head
      requires M.Dispatching(state, n, at, callback, target)
      ensures pos.entry.Some? && !pos.entry.value.isAbsolute
      ensures |ring| > 0 && |state.pending| == |ring|
      ensures pos.entry.value.timer.expire < at <==> n > 0
      ensures pos.entry.value.handle in handles
      ensures n > 0 ==> pos == ring[0] && next == (ring + [head])[1] && pos.entry.value.timer == state.pending[0]
    {
    }
  }

  /** A handle leads to its timer exactly while that timer is pending; if no two timers were given
      the same cell, it is null all the rest of the time. */
  lemma HandleSetWhilePending(list: TimerList, i: nat)
    requires list.Valid() && i < |list.added|
    ensures |list.added| == |list.state.created| && HandleOf(list.added[i]).Some?
    ensures var node, t := list.added[i], list.state.created[i];
            var cell := node.entry.value.handle;
            && (cell.timer == node <==> t in list.state.pending)
            && (DistinctHandles(list.added) ==> (cell.timer != null <==> t in list.state.pending))
  {
    var node, t, cell := list.added[i], list.state.created[i], HandleOf(list.added[i]).value;
    if t in list.state.pending {
      var k :| 0 <= k < |list.ring| && list.state.pending[k] == t;
      assert list.ring[k] == node;
    }
    if cell.timer != null {
      assert cell.timer in list.ring && HandleOf(cell.timer) == Some(cell);
      assert list.added[cell.timer.entry.value.timer.id] == cell.timer;
    }
  }

  /** Every timer ever added is held by its handle cell while it is pending; before its addition
      and after its dispatch or deletion the cell is null. */
  ghost predicate HandlesExact(list: TimerList)
    requires list.Valid()
    reads list, list.nodes, list.handles.Keys
  {
    && |list.added| == |list.state.created|
    && forall i :: 0 <= i < |list.added| ==>
         && HandleOf(list.added[i]).Some? && HandleOf(list.added[i]).value in list.handles
         && HandleOf(list.added[i]).value.timer ==
              if list.state.created[i] in list.state.pending then list.added[i] else null
  }

  lemma AllHandlesExact(list: TimerList)
    requires list.Valid()
    ensures DistinctHandles(list.added) ==> HandlesExact(list)
  {
    if DistinctHandles(list.added) {
      forall i | 0 <= i < |list.added|
        ensures |list.added| == |list.state.created| && HandleOf(list.added[i]).Some?
        ensures HandleOf(list.added[i]).value.timer ==
                if list.state.created[i] in list.state.pending then list.added[i] else null
      {
        HandleSetWhilePending(list, i);
      }
    }
  }

  /** The loop of the expiry stands at the first of `n` due nodes, with the node after it saved,
      or, when none is left, at some other node or the head. */
  ghost predicate AtFront(ring: seq<Link<Entry>>, head: Link<Entry>, pos: Link<Entry>, next: Link<Entry>, n: nat) {
    && pos in ring + [head]
    && (n > 0 ==> |ring| > 0 && pos == ring[0] && next == (ring + [head])[1])
  }

  lemma NextFront(before: seq<Link<Entry>>, ring: seq<Link<Entry>>, head: Link<Entry>, next: Link<Entry>, n: nat)
    requires |before| > 0 && next == (before + [head])[1]
    requires Grown(Remove(before, 0), ring, n)
    ensures next in ring + [head]
    ensures n > 0 ==> next == (ring + [head])[0]
  {
  }

  lemma RemoveFirst<T>(s: seq<T>)
    requires s != []
    ensures Remove(s, 0) == s[1..]
  {
  }

  /** Nodes were inserted into `a`, none among the first `n`. */
  ghost predicate Grown(a: seq<Link<Entry>>, b: seq<Link<Entry>>, n: nat) {
    n <= |a| <= |b| && a[..n] == b[..n] && forall x :: x in a ==> x in b
  }

  lemma InsertGrows(s: seq<Link<Entry>>, k: nat, x: Link<Entry>, n: nat)
    requires n <= k <= |s|
    ensures Grown(s, RingList.Insert(s, k, [x]), n)
    ensures forall y :: y in RingList.Insert(s, k, [x]) <==> y in s || y == x
  {
  }

  lemma GrownReflexive(list: TimerList, n: nat)
    requires list.Valid() && M.FrontDue(list.state, n)
    ensures Grown(list.ring, list.ring, n)
  {
  }

  lemma GrownTransitive(a: seq<Link<Entry>>, b: seq<Link<Entry>>, c: seq<Link<Entry>>, n: nat)
    requires Grown(a, b, n) && Grown(b, c, n)
    ensures Grown(a, c, n)
  {
  }
}
