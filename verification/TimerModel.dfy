/** The timer list as a value: which timers are pending, dispatched and deleted, and what the
    operations of the source do to them. Time is in nanoseconds of the monotonic clock. */
module TimerModel {

  /** `id` numbers the timers in the order in which they were added. */
  datatype Timer = Timer(id: nat, expire: nat, data: int)

  /** A timer function was run for `timer` by an expiry that read the clock at `at`. */
  datatype Dispatch = Dispatch(timer: Timer, at: nat)

  /** A call of `timerlist_add_duration`, `elapsed` after the previous reading of the clock. */
  datatype Request = Request(elapsed: nat, duration: nat, data: int)

  /** What the timer function of each timer does: it may add timers, one after the other. */
  type Callback = Timer -> seq<Request>

  datatype State = State(
    now: nat,
    created: seq<Timer>,
    pending: seq<Timer>,
    dispatched: seq<Dispatch>,
    deleted: seq<Timer>)

  // ---------- the operations

  /** The place of a new timer: before the first one that expires later. */
  function InsertIndex(s: seq<Timer>, expire: nat): (k: nat)
    ensures k <= |s|
    ensures forall i :: 0 <= i < k ==> s[i].expire <= expire
    ensures k < |s| ==> s[k].expire > expire
  {
    if s == [] || s[0].expire > expire then 0 else 1 + InsertIndex(s[1..], expire)
  }

  lemma InsertIndexUnique(s: seq<Timer>, expire: nat, k: nat)
    requires k <= |s|
    requires forall i :: 0 <= i < k ==> s[i].expire <= expire
    requires k < |s| ==> s[k].expire > expire
    ensures InsertIndex(s, expire) == k
  {
  }

  function Inserted(s: seq<Timer>, t: Timer): seq<Timer> {
    var k := InsertIndex(s, t.expire);
    s[..k] + [t] + s[k..]
  }

  /** The clock reading and the 64-bit expiry time of a request fit. */
  predicate Fits(now: nat, r: Request) {
    now + r.elapsed + r.duration < 0x1_0000_0000_0000_0000
  }

  /** The expiry time of a timer, as a 64-bit sum. */
  function Expiry(now: nat, duration: nat): (expire: nat)
    ensures now + duration < 0x1_0000_0000_0000_0000 ==> expire == now + duration
  {
    (now + duration) % 0x1_0000_0000_0000_0000
  }

  /** Of clock readings and durations of 64 bits, an expiry time lies in the past exactly when the
      sum overflows. */
  lemma ExpiryNotPast(now: nat, duration: nat)
    requires now < 0x1_0000_0000_0000_0000 && duration < 0x1_0000_0000_0000_0000
    ensures Expiry(now, duration) >= now <==> now + duration < 0x1_0000_0000_0000_0000
    ensures Expiry(now, duration) == now + duration || Expiry(now, duration) == now + duration - 0x1_0000_0000_0000_0000
  {
  }

  function Add(st: State, r: Request): State {
    var now := st.now + r.elapsed;
    var t := Timer(|st.created|, Expiry(now, r.duration), r.data);
    st.(now := now, created := st.created + [t], pending := Inserted(st.pending, t))
  }

  lemma AddCreates(st: State, r: Request)
    ensures var t := Timer(|st.created|, Expiry(st.now + r.elapsed, r.duration), r.data);
            Add(st, r).created == st.created + [t] && |Add(st, r).created| == |st.created| + 1
  {
  }

  function AddAll(st: State, rs: seq<Request>): (r: State)
    ensures |r.pending| == |st.pending| + |rs|
    decreases |rs|
  {
    if rs == [] then st else AddAll(Add(st, rs[0]), rs[1..])
  }

  function Delete(st: State, k: nat): State
    requires k < |st.pending|
  {
    st.(pending := st.pending[..k] + st.pending[k + 1..], deleted := st.deleted + [st.pending[k]])
  }

  /** The timers at the front of the list that are past their expiry at `at`. */
  function DueCount(s: seq<Timer>, at: nat): (n: nat)
    ensures n <= |s|
    ensures forall i :: 0 <= i < n ==> s[i].expire < at
    ensures n < |s| ==> s[n].expire >= at
  {
    if s == [] || s[0].expire >= at then 0 else 1 + DueCount(s[1..], at)
  }

  function DispatchFirst(st: State, at: nat): State
    requires st.pending != []
  {
    st.(pending := st.pending[1..], dispatched := st.dispatched + [Dispatch(st.pending[0], at)])
  }

  /** Takes the first `n` timers off the list, one after the other, and runs their functions. */
  function DispatchFront(st: State, n: nat, at: nat, callback: Callback): State
    requires n <= |st.pending|
    decreases n
  {
    if n == 0 then st
    else DispatchFront(AddAll(DispatchFirst(st, at), callback(st.pending[0])), n - 1, at, callback)
  }

  /** One call of `timerlist_expire`, `elapsed` after the previous reading of the clock. */
  function Expire(st: State, elapsed: nat, callback: Callback): State {
    var at := st.now + elapsed;
    DispatchFront(st.(now := at), DueCount(st.pending, at), at, callback)
  }

  predicate AllFit(now: nat, rs: seq<Request>)
    decreases |rs|
  {
    rs == [] || (Fits(now, rs[0]) && AllFit(now + rs[0].elapsed, rs[1..]))
  }

  function ClockAfter(now: nat, rs: seq<Request>): nat
    decreases |rs|
  {
    if rs == [] then now else ClockAfter(now + rs[0].elapsed, rs[1..])
  }

  /** No timer that the callbacks of `due` add overflows the 64-bit clock. */
  predicate CallbacksFit(now: nat, due: seq<Timer>, callback: Callback)
    decreases |due|
  {
    due == [] || (
      && AllFit(now, callback(due[0]))
      && CallbacksFit(ClockAfter(now, callback(due[0])), due[1..], callback))
  }

  // ---------- order

  /** Earlier expiry first; among equal ones, earlier addition first. */
  predicate Before(a: Timer, b: Timer) {
    a.expire < b.expire || (a.expire == b.expire && a.id < b.id)
  }

  ghost predicate Ordered(s: seq<Timer>) {
    forall i, j :: 0 <= i < j < |s| ==> Before(s[i], s[j])
  }

  ghost predicate SortedByExpiry(s: seq<Timer>) {
    forall i, j :: 0 <= i < j < |s| ==> s[i].expire <= s[j].expire
  }

  function Timers(ds: seq<Dispatch>): (ts: seq<Timer>)
    ensures |ts| == |ds| && forall i :: 0 <= i < |ds| ==> ts[i] == ds[i].timer
  {
    seq(|ds|, i requires 0 <= i < |ds| => ds[i].timer)
  }

  /** Stable insertion into a sorted list, for any timer: the list stays sorted, and the new
      timer stands after everything that expires no later and before everything that expires later. */
  lemma InsertedIsStable(s: seq<Timer>, t: Timer)
    requires SortedByExpiry(s)
    ensures SortedByExpiry(Inserted(s, t))
    ensures exists k :: 0 <= k <= |s| && Inserted(s, t) == s[..k] + [t] + s[k..]
              && (forall i :: 0 <= i < k ==> s[i].expire <= t.expire)
              && (forall i :: k <= i < |s| ==> s[i].expire > t.expire)
  {
  }

  lemma InsertedOrdered(s: seq<Timer>, t: Timer)
    requires Ordered(s) && forall i :: 0 <= i < |s| ==> s[i].id < t.id
    ensures Ordered(Inserted(s, t))
  {
  }

  lemma InsertedContents(s: seq<Timer>, t: Timer)
    ensures multiset(Inserted(s, t)) == multiset(s) + multiset{t}
    ensures forall x :: x in Inserted(s, t) <==> x in s || x == t
  {
    var k := InsertIndex(s, t.expire);
    assert s == s[..k] + s[k..];
  }

  /** A timer that is not due goes in behind all the due ones, wherever they end. */
  lemma InsertedBehindDue(s: seq<Timer>, n: nat, t: Timer)
    requires n <= |s| && forall i :: 0 <= i < n ==> s[i].expire <= t.expire
    ensures Inserted(s, t) == s[..n] + Inserted(s[n..], t)
    ensures Inserted(s, t)[..n] == s[..n]
  {
    hide InsertIndex;
    InsertIndexBehind(s, n, t.expire);
    var k, j := InsertIndex(s, t.expire), InsertIndex(s[n..], t.expire);
    assert s[..k] == s[..n] + s[n..][..j];
    assert s[k..] == s[n..][j..];
  }

  lemma InsertIndexBehind(s: seq<Timer>, n: nat, expire: nat)
    requires n <= |s| && forall i :: 0 <= i < n ==> s[i].expire <= expire
    ensures InsertIndex(s, expire) == n + InsertIndex(s[n..], expire)
  {
  }

  // ---------- the invariant

  /** The dispatched timers in the order of their dispatch, followed by the pending ones. */
  function Agenda(st: State): seq<Timer> {
    Timers(st.dispatched) + st.pending
  }

  /** Conservation: the timers ever added, with distinct numbers, are those on the agenda and the
      deleted ones. Order: the agenda as a whole is in order. Punctuality: no timer fired early. */
  ghost predicate Inv(st: State) {
    && (forall i :: 0 <= i < |st.created| ==> st.created[i].id == i)
    && multiset(Agenda(st)) + multiset(st.deleted) == multiset(st.created)
    && Ordered(Agenda(st))
    && (forall i :: 0 <= i < |st.dispatched| ==> st.dispatched[i].timer.expire < st.dispatched[i].at <= st.now)
  }

  lemma AgendaIds(st: State, t: Timer)
    requires Inv(st) && t in Agenda(st)
    ensures t.id < |st.created| && st.created[t.id] == t
  {
    assert t in multiset(Agenda(st));
    assert t in multiset(st.created);
  }

  /** A new timer goes to its place on the agenda, which is never among the dispatched. */
  lemma AddToAgenda(st: State, r: Request)
    requires Inv(st) && Fits(st.now, r)
    ensures Agenda(Add(st, r)) == Inserted(Agenda(st), Timer(|st.created|, st.now + r.elapsed + r.duration, r.data))
  {
    hide Expiry, Inserted, Ordered;
    var s, n, t := Agenda(st), |st.dispatched|, Timer(|st.created|, st.now + r.elapsed + r.duration, r.data);
    forall i | 0 <= i < n
      ensures s[i].expire <= t.expire
    {
      assert s[i] == st.dispatched[i].timer;
    }
    InsertedBehindDue(s, n, t);
    assert s[n..] == st.pending && s[..n] == Timers(st.dispatched);
    assert Add(st, r).pending == Inserted(st.pending, t);
  }

  lemma AddKeepsInv(st: State, r: Request)
    requires Inv(st) && Fits(st.now, r)
    ensures Inv(Add(st, r))
  {
    hide Expiry, Inserted;
    var t := Timer(|st.created|, st.now + r.elapsed + r.duration, r.data);
    forall i | 0 <= i < |Agenda(st)|
      ensures Agenda(st)[i].id < t.id
    {
      AgendaIds(st, Agenda(st)[i]);
    }
    AddToAgenda(st, r);
    InsertedOrdered(Agenda(st), t);
    InsertedContents(Agenda(st), t);
  }

  lemma DeleteKeepsInv(st: State, k: nat)
    requires Inv(st) && k < |st.pending|
    ensures Inv(Delete(st, k))
  {
    hide Ordered;
    var s, n := Agenda(st), |st.dispatched| + k;
    assert Agenda(Delete(st, k)) == s[..n] + s[n + 1..];
    assert s == s[..n] + [s[n]] + s[n + 1..];
    RemovalKeepsOrder(s, n);
  }

  lemma RemovalKeepsOrder(s: seq<Timer>, k: nat)
    requires Ordered(s) && k < |s|
    ensures Ordered(s[..k] + s[k + 1..])
  {
  }

  /** A dispatch moves the border between the dispatched and the pending part of the agenda. */
  lemma DispatchFirstKeepsInv(st: State, at: nat)
    requires Inv(st) && st.pending != [] && st.pending[0].expire < at <= st.now
    ensures Inv(DispatchFirst(st, at))
    ensures Agenda(DispatchFirst(st, at)) == Agenda(st)
  {
    assert Agenda(DispatchFirst(st, at)) == Agenda(st);
  }

  // ---------- expiry

  /** From `st` to `st'` only timers were added, none of them before the first `n` pending ones. */
  ghost predicate OnlyAdded(st: State, st': State, n: nat) {
    && st.now <= st'.now
    && st.dispatched == st'.dispatched && st.deleted == st'.deleted && st.created <= st'.created
    && n <= |st.pending| <= |st'.pending| && st'.pending[..n] == st.pending[..n]
    && multiset(st'.pending) == multiset(st.pending) + multiset(st'.created[|st.created|..])
    && (forall t :: t in st'.created[|st.created|..] ==> t.expire >= st.now)
  }

  lemma OnlyAddedTransitive(a: State, b: State, c: State, n: nat)
    requires OnlyAdded(a, b, n) && OnlyAdded(b, c, n)
    ensures OnlyAdded(a, c, n)
  {
    assert c.created[|a.created|..] == b.created[|a.created|..] + c.created[|b.created|..];
  }

  lemma AddOnlyAdds(st: State, r: Request, n: nat)
    requires Inv(st) && Fits(st.now, r)
    requires n <= |st.pending| && forall i :: 0 <= i < n ==> st.pending[i].expire <= st.now
    ensures OnlyAdded(st, Add(st, r), n)
  {
    var st' := Add(st, r);
    var t := st'.created[|st.created|];
    InsertedBehindDue(st.pending, n, t);
    InsertedContents(st.pending, t);
    assert st'.created[|st.created|..] == [t];
  }

  /** The first `n` pending timers have expired by the clock. */
  ghost predicate FrontDue(st: State, n: nat) {
    n <= |st.pending| && forall i :: 0 <= i < n ==> st.pending[i].expire <= st.now
  }

  lemma AddKeepsFront(st: State, r: Request, n: nat)
    requires Inv(st) && Fits(st.now, r) && FrontDue(st, n)
    ensures Inv(Add(st, r)) && FrontDue(Add(st, r), n) && OnlyAdded(st, Add(st, r), n)
    ensures InsertIndex(st.pending, Expiry(st.now + r.elapsed, r.duration)) >= n
    ensures Add(st, r).now == st.now + r.elapsed
  {
    AddKeepsInv(st, r);
    AddOnlyAdds(st, r, n);
    hide Inv, Add;
    InsertIndexBehind(st.pending, n, Expiry(st.now + r.elapsed, r.duration));
    var st' := Add(st, r);
    assert forall i :: 0 <= i < n ==> st'.pending[i] == st'.pending[..n][i] == st.pending[..n][i];
  }

  /** Callbacks that add timers leave the front of the list alone as far as it is due. */
  lemma {:induction false} AddAllOnlyAdds(st: State, rs: seq<Request>, n: nat)
    requires Inv(st) && AllFit(st.now, rs) && FrontDue(st, n)
    ensures Inv(AddAll(st, rs)) && OnlyAdded(st, AddAll(st, rs), n)
    ensures AddAll(st, rs).now == ClockAfter(st.now, rs)
    decreases |rs|
  {
    hide Inv, Add, OnlyAdded;
    if rs == [] {
      NothingAdded(st, n);
    } else {
      AddKeepsFront(st, rs[0], n);
      AddAllOnlyAdds(Add(st, rs[0]), rs[1..], n);
      OnlyAddedTransitive(st, Add(st, rs[0]), AddAll(st, rs), n);
    }
  }

  lemma NothingAdded(st: State, n: nat)
    requires n <= |st.pending|
    ensures OnlyAdded(st, st, n)
  {
  }

  function Stamped(ts: seq<Timer>, at: nat): (ds: seq<Dispatch>)
    ensures |ds| == |ts| && forall i :: 0 <= i < |ts| ==> ds[i] == Dispatch(ts[i], at)
  {
    seq(|ts|, i requires 0 <= i < |ts| => Dispatch(ts[i], at))
  }

  /** What one expiry at time `at` does to a list with `n` due timers. */
  ghost predicate Expired(st: State, st': State, n: nat, at: nat) {
    && n <= |st.pending| && st.created <= st'.created
    && st'.dispatched == st.dispatched + Stamped(st.pending[..n], at)
    && st'.deleted == st.deleted
    && multiset(st'.pending) == multiset(st.pending[n..]) + multiset(st'.created[|st.created|..])
    && (forall t :: t in st'.created[|st.created|..] ==> t.expire >= at)
  }

  /** In the middle of an expiry at time `at`: the first `n` pending timers are the ones that
      remain to be run, and running them leads to `target`. */
  ghost predicate Dispatching(st: State, n: nat, at: nat, callback: Callback, target: State) {
    && Inv(st) && at <= st.now
    && n <= |st.pending|
    && (forall i :: 0 <= i < n ==> st.pending[i].expire < at)
    && (forall t :: t in st.pending[n..] ==> t.expire >= at)
    && CallbacksFit(st.now, st.pending[..n], callback)
    && DispatchFront(st, n, at, callback) == target
  }

  lemma StartDispatch(st: State, callback: Callback)
    requires Inv(st) && CallbacksFit(st.now, st.pending[..DueCount(st.pending, st.now)], callback)
    ensures var n := DueCount(st.pending, st.now);
            Dispatching(st, n, st.now, callback, DispatchFront(st, n, st.now, callback))
  {
    hide Inv, Ordered, CallbacksFit, DispatchFront;
    var s, n := st.pending, DueCount(st.pending, st.now);
    PendingOrdered(st);
    forall t | t in s[n..]
      ensures t.expire >= st.now
    {
      assert t in s;
      DueCountIsDue(s, st.now);
    }
  }

  lemma StartExpire(st: State, at: nat, callback: Callback)
    requires Inv(st) && st.now <= at && CallbacksFit(at, st.pending[..DueCount(st.pending, at)], callback)
    ensures var n := DueCount(st.pending, at);
            n <= |st.pending| && Dispatching(st.(now := at), n, at, callback, Expire(st, at - st.now, callback))
  {
    hide Inv, CallbacksFit, DispatchFront, Dispatching;
    ClockTickKeepsInv(st, at);
    StartDispatch(st.(now := at), callback);
  }

  lemma DispatchStep(st: State, n: nat, at: nat, callback: Callback, target: State)
    requires Dispatching(st, n, at, callback, target) && n > 0
    ensures var first, st1 := st.pending[0], DispatchFirst(st, at);
            && Inv(st1) && FrontDue(st1, n - 1) && AllFit(st1.now, callback(first))
            && OnlyAdded(st1, AddAll(st1, callback(first)), n - 1)
            && Dispatching(AddAll(st1, callback(first)), n - 1, at, callback, target)
            && n - 1 <= |AddAll(st1, callback(first)).pending|
    ensures n <= |st.pending| && at <= st.now
  {
    hide Inv, Ordered, AddAll, AllFit, ClockAfter, OnlyAdded;
    var first, due, st1 := st.pending[0], st.pending[..n], DispatchFirst(st, at);
    var st2 := AddAll(st1, callback(first));
    DispatchFirstKeepsInv(st, at);
    AddAllOnlyAdds(st1, callback(first), n - 1);
    assert due[0] == first && due[1..] == st1.pending[..n - 1];
    AddedBehindFront(st1, st2, n - 1, at);
    assert st1.pending[n - 1..] == st.pending[n..];
  }

  lemma AddedBehindFront(st: State, st': State, n: nat, at: nat)
    requires OnlyAdded(st, st', n) && at <= st.now
    requires forall i :: 0 <= i < n ==> st.pending[i].expire < at
    requires forall t :: t in st.pending[n..] ==> t.expire >= at
    ensures n <= |st'.pending| && st'.pending[..n] == st.pending[..n] && at <= st'.now
    ensures forall i :: 0 <= i < n ==> st'.pending[i].expire < at
    ensures forall t :: t in st'.pending[n..] ==> t.expire >= at
  {
    assert forall i :: 0 <= i < n ==> st'.pending[i] == st'.pending[..n][i] == st.pending[..n][i];
    CancelFront(st.pending, st'.pending, n, multiset(st'.created[|st.created|..]));
    forall t | t in st'.pending[n..]
      ensures t.expire >= at
    {
      assert t in multiset(st'.pending[n..]);
    }
  }

  lemma DispatchEnd(st: State, at: nat, callback: Callback, target: State)
    requires Dispatching(st, 0, at, callback, target)
    ensures Inv(st) && st == target
  {
  }

  lemma {:induction false} DispatchFrontExpires(st: State, n: nat, at: nat, callback: Callback, target: State)
    requires Dispatching(st, n, at, callback, target)
    ensures Inv(target) && Expired(st, target, n, at)
    decreases n
  {
    hide Dispatching, Expired, OnlyAdded, AddAll, Inv;
    if n == 0 {
      DispatchEnd(st, at, callback, target);
      NothingExpired(st, at);
    } else {
      DispatchStep(st, n, at, callback, target);
      var st1 := DispatchFirst(st, at);
      var st2 := AddAll(st1, callback(st.pending[0]));
      DispatchFrontExpires(st2, n - 1, at, callback, target);
      DispatchThenRest(st, st1, st2, target, n, at);
    }
  }

  lemma NothingExpired(st: State, at: nat)
    ensures Expired(st, st, 0, at)
  {
  }

  lemma CancelFront(s: seq<Timer>, s': seq<Timer>, n: nat, added: multiset<Timer>)
    requires n <= |s| && n <= |s'| && s[..n] == s'[..n]
    requires multiset(s') == multiset(s) + added
    ensures multiset(s'[n..]) == multiset(s[n..]) + added
  {
    assert s == s[..n] + s[n..];
    assert s' == s'[..n] + s'[n..];
    assert multiset(s[..n]) + multiset(s'[n..]) == multiset(s[..n]) + (multiset(s[n..]) + added);
    forall t: Timer
      ensures multiset(s'[n..])[t] == (multiset(s[n..]) + added)[t]
    {
      assert (multiset(s[..n]) + multiset(s'[n..]))[t] == (multiset(s[..n]) + (multiset(s[n..]) + added))[t];
    }
  }

  lemma StampedStep(t: Timer, ts: seq<Timer>, at: nat)
    ensures Stamped([t] + ts, at) == [Dispatch(t, at)] + Stamped(ts, at)
  {
  }

  lemma DispatchThenRest(st: State, st1: State, st2: State, st': State, n: nat, at: nat)
    requires 0 < n <= |st.pending| && at <= st.now
    requires st1 == DispatchFirst(st, at) && OnlyAdded(st1, st2, n - 1) && Expired(st2, st', n - 1, at)
    ensures Expired(st, st', n, at)
  {
    hide Stamped;
    assert st.pending[..n] == [st.pending[0]] + st2.pending[..n - 1];
    StampedStep(st.pending[0], st2.pending[..n - 1], at);
    assert st'.created[|st.created|..] == st2.created[|st.created|..] + st'.created[|st2.created|..];
    CancelFront(st1.pending, st2.pending, n - 1, multiset(st2.created[|st.created|..]));
    assert st1.pending[n - 1..] == st.pending[n..];
  }

  lemma PendingOrdered(st: State)
    requires Inv(st)
    ensures Ordered(st.pending)
  {
    assert forall i :: 0 <= i < |st.pending| ==> st.pending[i] == Agenda(st)[|st.dispatched| + i];
  }

  /** In an ordered list the due timers at the front are all the due timers. */
  lemma DueCountIsDue(s: seq<Timer>, at: nat)
    requires Ordered(s)
    ensures var n := DueCount(s, at);
            && (forall t :: t in s ==> (t in s[..n] <==> t.expire < at))
            && (forall t :: t in s ==> (t in s[n..] <==> t.expire >= at))
  {
  }

  lemma ExpiredPending(st: State, st': State, n: nat, at: nat)
    requires Expired(st, st', n, at)
    ensures forall t :: t in st'.pending <==> t in st.pending[n..] || t in st'.created[|st.created|..]
    ensures n <= |st.pending| && forall t :: t in st'.created[|st.created|..] ==> t.expire >= at
  {
    forall t: Timer
      ensures t in st'.pending <==> t in multiset(st.pending[n..]) + multiset(st'.created[|st.created|..])
    {
      assert t in st'.pending <==> t in multiset(st'.pending);
    }
  }

  /** `timerlist_expire` runs exactly the timers that are past their expiry at the time read on
      entry, each once and in order, whatever timers their functions add; all the others, and all
      the added ones, stay pending, and none of these is due at that time. */
  lemma ExpireRunsExactlyTheDue(st: State, elapsed: nat, callback: Callback)
    requires Inv(st)
    requires CallbacksFit(st.now + elapsed, st.pending[..DueCount(st.pending, st.now + elapsed)], callback)
    ensures var at, st' := st.now + elapsed, Expire(st, elapsed, callback);
            var n := DueCount(st.pending, at);
            && Inv(st')
            && Expired(st, st', n, at)
            && (forall t :: t in st.pending ==> (t in st.pending[..n] <==> t.expire < at))
            && (forall t :: t in st.pending && t.expire >= at ==> t in st'.pending)
            && (forall t :: t in st'.pending ==> t.expire >= at)
  {
    hide Inv, Ordered, Dispatching, Expired, DispatchFront, CallbacksFit;
    var at, st' := st.now + elapsed, Expire(st, elapsed, callback);
    var n, ready := DueCount(st.pending, at), st.(now := at);
    StartExpire(st, at, callback);
    DispatchFrontExpires(ready, n, at, callback, st');
    ExpiredClock(ready, st', st.now, n, at);
    ExpiredPending(st, st', n, at);
    PendingOrdered(st);
    DueCountIsDue(st.pending, at);
    assert forall t :: t in st.pending[n..] ==> t in st.pending;
  }

  lemma ExpiredClock(st: State, st': State, now: nat, n: nat, at: nat)
    requires Expired(st, st', n, at)
    ensures Expired(st.(now := now), st', n, at)
  {
  }

  lemma ClockTickKeepsInv(st: State, now: nat)
    requires Inv(st) && st.now <= now
    ensures Inv(st.(now := now))
  {
  }

  // ---------- whole runs

  datatype Op = AddOp(request: Request) | DeleteOp(k: nat) | ExpireOp(elapsed: nat, callback: Callback)

  ghost predicate Legal(st: State, op: Op) {
    match op
    case AddOp(r) => Fits(st.now, r)
    case DeleteOp(k) => k < |st.pending|
    case ExpireOp(elapsed, callback) =>
      var at := st.now + elapsed;
      CallbacksFit(at, st.pending[..DueCount(st.pending, at)], callback)
  }

  function Step(st: State, op: Op): State {
    match op
    case AddOp(r) => Add(st, r)
    case DeleteOp(k) => if k < |st.pending| then Delete(st, k) else st
    case ExpireOp(elapsed, callback) => Expire(st, elapsed, callback)
  }

  ghost predicate LegalRun(st: State, ops: seq<Op>)
    decreases |ops|
  {
    |ops| == 0 || (Legal(st, ops[0]) && LegalRun(Step(st, ops[0]), ops[1..]))
  }

  function Run(st: State, ops: seq<Op>): State
    decreases |ops|
  {
    if |ops| == 0 then st else Run(Step(st, ops[0]), ops[1..])
  }

  lemma {:induction false} RunKeepsInv(st: State, ops: seq<Op>)
    requires Inv(st) && LegalRun(st, ops)
    ensures Inv(Run(st, ops))
    decreases |ops|
  {
    hide Inv;
    if |ops| > 0 {
      match ops[0] {
        case AddOp(r) => AddKeepsInv(st, r);
        case DeleteOp(k) => DeleteKeepsInv(st, k);
        case ExpireOp(elapsed, callback) => ExpireRunsExactlyTheDue(st, elapsed, callback);
      }
      RunKeepsInv(Step(st, ops[0]), ops[1..]);
    }
  }

  function Occurrences(st: State, t: Timer): nat {
    multiset(st.pending)[t] + multiset(Timers(st.dispatched))[t] + multiset(st.deleted)[t]
  }

  /** Over every run from an empty list: each timer ever added is exactly once pending, dispatched
      or deleted; no timer fires before its expiry; and the dispatches of the whole run, across
      all calls of the expiry, are in the order of expiry, with ties in the order of addition. */
  lemma RunGuarantees(now: nat, ops: seq<Op>)
    requires LegalRun(State(now, [], [], [], []), ops)
    ensures var st := Run(State(now, [], [], [], []), ops);
            && (forall t :: Occurrences(st, t) == if t in st.created then 1 else 0)
            && (forall d :: d in st.dispatched ==> d.timer.expire < d.at <= st.now)
            && Ordered(Timers(st.dispatched))
            && Ordered(st.pending)
            && (forall d, t :: d in st.dispatched && t in st.pending ==> Before(d.timer, t))
  {
    var st := Run(State(now, [], [], [], []), ops);
    RunKeepsInv(State(now, [], [], [], []), ops);
    forall t: Timer
      ensures Occurrences(st, t) == if t in st.created then 1 else 0
    {
      CreatedOnce(st.created, t);
      assert multiset(Agenda(st))[t] == multiset(st.pending)[t] + multiset(Timers(st.dispatched))[t];
    }
    AgendaParts(st);
  }

  lemma AgendaParts(st: State)
    requires Inv(st)
    ensures Ordered(Timers(st.dispatched)) && Ordered(st.pending)
    ensures forall d, t :: d in st.dispatched && t in st.pending ==> Before(d.timer, t)
  {
    PendingOrdered(st);
    var n := |st.dispatched|;
    assert forall i :: 0 <= i < n ==> Timers(st.dispatched)[i] == Agenda(st)[i];
    forall d, t | d in st.dispatched && t in st.pending
      ensures Before(d.timer, t)
    {
      var i :| 0 <= i < n && st.dispatched[i] == d;
      var j :| 0 <= j < |st.pending| && st.pending[j] == t;
      assert Agenda(st)[i] == d.timer && Agenda(st)[n + j] == t;
    }
  }

  lemma {:induction false} CreatedOnce(s: seq<Timer>, t: Timer)
    requires forall i :: 0 <= i < |s| ==> s[i].id == i
    ensures multiset(s)[t] == if t in s then 1 else 0
    decreases |s|
  {
    if s != [] {
      var n := |s| - 1;
      CreatedOnce(s[..n], t);
      assert s == s[..n] + [s[n]];
    }
  }

  // ---------- the wait until the next expiry

  /** `timerlist_msec_duration_to_expire` on a clock of `hertz` ticks a second. */
  function MsecToExpire(s: seq<Timer>, now: nat, hertz: int): nat
    requires hertz > 0
  {
    if s == [] then 0xFFFF_FFFF_FFFF_FFFF
    else if s[0].expire < now then 0
    else (s[0].expire - now) / 1_000_000 + 1000 / hertz
  }

  /** The wait is that of the earliest of all timers, to whole milliseconds, and one clock tick;
      without timers it is the largest 64-bit number, the source's -1. */
  lemma WaitBounds(s: seq<Timer>, now: nat, hertz: int)
    requires SortedByExpiry(s) && hertz > 0
    ensures s == [] ==> MsecToExpire(s, now, hertz) == 0x1_0000_0000_0000_0000 - 1
    ensures s != [] ==>
              var wait, earliest := MsecToExpire(s, now, hertz), s[0].expire;
              && (forall t :: t in s ==> earliest <= t.expire)
              && (earliest < now ==> wait == 0)
              && (earliest >= now ==>
                    && earliest - now + 1000 / hertz * 1_000_000 < (wait + 1) * 1_000_000
                    && wait * 1_000_000 <= earliest - now + 1000 / hertz * 1_000_000)
  {
  }

  /** After exactly the promised wait there is a timer to run if and only if one was already due,
      or the clock has at most 1000 ticks a second: on a finer clock the wait is cut short to
      whole milliseconds and nothing is added. */
  lemma WaitReachesExpiry(s: seq<Timer>, now: nat, hertz: int)
    requires SortedByExpiry(s) && s != [] && hertz > 0
    ensures DueCount(s, now + MsecToExpire(s, now, hertz) * 1_000_000) > 0 <==> s[0].expire < now || hertz <= 1000
  {
    if hertz <= 1000 {
      TicksAtLeastOne(hertz);
    } else {
      assert 1000 / hertz == 0;
    }
  }

  lemma TicksAtLeastOne(hertz: int)
    requires 0 < hertz <= 1000
    ensures 1000 / hertz >= 1
  {
  }
}
