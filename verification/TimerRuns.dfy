/** What the operations of a run do, timer by timer: which timers an addition and a timer function
    add, which ones an expiry runs, and what becomes of a deleted timer. */
module TimerRuns {
  import opened TimerModel

  // ---------- the timers that requests add

  /** The clock advances by the delay of each request. */
  lemma {:induction false} ClockAfterLast(now: nat, rs: seq<Request>)
    requires rs != []
    ensures ClockAfter(now, rs) == ClockAfter(now, rs[..|rs| - 1]) + rs[|rs| - 1].elapsed
    decreases |rs|
  {
    if |rs| > 1 {
      assert rs[1..][..|rs| - 2] == rs[..|rs| - 1][1..];
      ClockAfterLast(now + rs[0].elapsed, rs[1..]);
    }
  }

  /** The timers that `rs` asks for when the clock reads `now` and `count` timers were added before:
      each expires its duration after the clock reading at its own request. */
  function Requested(count: nat, now: nat, rs: seq<Request>): (ts: seq<Timer>)
    ensures |ts| == |rs|
  {
    seq(|rs|, i requires 0 <= i < |rs| =>
      Timer(count + i, ClockAfter(now, rs[..i + 1]) + rs[i].duration, rs[i].data))
  }

  lemma RequestedAt(count: nat, now: nat, rs: seq<Request>, i: nat)
    requires i < |rs|
    ensures Requested(count, now, rs)[i] ==
            Timer(count + i, ClockAfter(now, rs[..i + 1]) + rs[i].duration, rs[i].data)
  {
  }

  lemma {:induction false} ClockAfterAppend(now: nat, a: seq<Request>, b: seq<Request>)
    ensures ClockAfter(now, a + b) == ClockAfter(ClockAfter(now, a), b)
    ensures AllFit(now, a + b) <==> AllFit(now, a) && AllFit(ClockAfter(now, a), b)
    decreases |a|
  {
    if a == [] {
      assert a + b == b;
    } else {
      assert (a + b)[1..] == a[1..] + b;
      ClockAfterAppend(now + a[0].elapsed, a[1..], b);
    }
  }

  lemma RequestedAppend(count: nat, now: nat, a: seq<Request>, b: seq<Request>)
    ensures Requested(count, now, a + b) == Requested(count, now, a) + Requested(count + |a|, ClockAfter(now, a), b)
  {
    hide Requested, ClockAfter, AllFit;
    var ts := Requested(count, now, a) + Requested(count + |a|, ClockAfter(now, a), b);
    forall i | 0 <= i < |a + b|
      ensures Requested(count, now, a + b)[i] == ts[i]
    {
      if i < |a| {
        assert (a + b)[..i + 1] == a[..i + 1];
        RequestedAt(count, now, a + b, i);
        RequestedAt(count, now, a, i);
      } else {
        RequestedBehind(count, now, a, b, i - |a|);
      }
    }
  }

  lemma RequestedBehind(count: nat, now: nat, a: seq<Request>, b: seq<Request>, i: nat)
    requires i < |b|
    ensures Requested(count, now, a + b)[|a| + i] == Requested(count + |a|, ClockAfter(now, a), b)[i]
  {
    hide Requested, ClockAfter, AllFit;
    RequestedAt(count, now, a + b, |a| + i);
    RequestedAt(count + |a|, ClockAfter(now, a), b, i);
    assert (a + b)[..|a| + i + 1] == a + b[..i + 1];
    ClockAfterAppend(now, a, b[..i + 1]);
  }

  /** Requests fit exactly when no expiry time of the timers they ask for overflows. */
  lemma {:induction false} AllFitExactly(now: nat, rs: seq<Request>)
    ensures AllFit(now, rs) <==> forall i :: 0 <= i < |rs| ==> Requested(0, now, rs)[i].expire < 0x1_0000_0000_0000_0000
    decreases |rs|
  {
    hide AllFit, ClockAfter, Requested;
    if rs == [] {
      assert AllFit(now, rs) by { NothingFits(now); }
    } else {
      var n := |rs| - 1;
      var front, last := rs[..n], [rs[n]];
      assert rs == front + last;
      AllFitExactly(now, front);
      ClockAfterAppend(now, front, last);
      RequestedAppend(0, now, front, last);
      FitsAlone(ClockAfter(now, front), rs[n]);
      RequestedFirst(n, ClockAfter(now, front), rs[n]);
      var t := Timer(n, ClockAfter(now, front) + rs[n].elapsed + rs[n].duration, rs[n].data);
      assert Requested(0, now, rs) == Requested(0, now, front) + [t];
      AllBelowStep(Requested(0, now, front), t);
    }
  }

  lemma AllBelowStep(ts: seq<Timer>, t: Timer)
    ensures (forall i :: 0 <= i < |ts + [t]| ==> (ts + [t])[i].expire < 0x1_0000_0000_0000_0000) <==>
            (forall i :: 0 <= i < |ts| ==> ts[i].expire < 0x1_0000_0000_0000_0000) && t.expire < 0x1_0000_0000_0000_0000
  {
    assert forall i :: 0 <= i < |ts| ==> (ts + [t])[i] == ts[i];
    assert (ts + [t])[|ts|] == t;
  }

  lemma NothingFits(now: nat)
    ensures AllFit(now, [])
  {
  }

  lemma FitsAlone(now: nat, r: Request)
    ensures AllFit(now, [r]) <==> now + r.elapsed + r.duration < 0x1_0000_0000_0000_0000
    ensures ClockAfter(now, [r]) == now + r.elapsed
  {
  }

  /** The timers `ts` were added, the clock now reads `now`, and nothing else happened. */
  ghost predicate Adds(st: State, st': State, ts: seq<Timer>, now: nat) {
    && st'.created == st.created + ts
    && multiset(st'.pending) == multiset(st.pending) + multiset(ts)
    && st'.now == now && st'.dispatched == st.dispatched && st'.deleted == st.deleted
  }

  lemma AddsNothing(st: State)
    ensures Adds(st, st, [], st.now)
  {
  }

  lemma AddsThen(a: State, b: State, c: State, ts: seq<Timer>, us: seq<Timer>, now: nat)
    requires Adds(a, b, ts, b.now) && Adds(b, c, us, now)
    ensures Adds(a, c, ts + us, now)
  {
  }

  lemma AddAdds(st: State, r: Request)
    requires Fits(st.now, r)
    ensures Adds(st, Add(st, r), [Timer(|st.created|, st.now + r.elapsed + r.duration, r.data)], st.now + r.elapsed)
    ensures Add(st, r).now == st.now + r.elapsed && |Add(st, r).created| == |st.created| + 1
  {
    hide Inserted;
    InsertedContents(st.pending, Timer(|st.created|, st.now + r.elapsed + r.duration, r.data));
  }

  lemma AddsContents(st: State, st': State, ts: seq<Timer>, now: nat)
    requires Adds(st, st', ts, now)
    ensures forall t :: t in st'.pending <==> t in st.pending || t in ts
  {
    forall t: Timer
      ensures t in st'.pending <==> t in st.pending || t in ts
    {
      assert t in st'.pending <==> t in multiset(st'.pending);
    }
  }

  /** A timer function adds exactly the timers that its requests ask for, in their order. */
  lemma {:induction false} AddAllCreates(st: State, rs: seq<Request>)
    requires AllFit(st.now, rs)
    ensures Adds(st, AddAll(st, rs), Requested(|st.created|, st.now, rs), ClockAfter(st.now, rs))
    decreases |rs|
  {
    hide Add, Adds, Requested, ClockAfter;
    if rs == [] {
      NothingRequested(|st.created|, st.now);
      AddsNothing(st);
    } else {
      var r, n, now := rs[0], |st.created|, st.now + rs[0].elapsed;
      AddAdds(st, r);
      AddAllCreates(Add(st, r), rs[1..]);
      assert rs == [r] + rs[1..];
      RequestedStep(n, st.now, r, rs[1..]);
      var t := Timer(n, now + r.duration, r.data);
      AddsThen(st, Add(st, r), AddAll(st, rs), [t], Requested(n + 1, now, rs[1..]), ClockAfter(now, rs[1..]));
    }
  }

  lemma NothingRequested(count: nat, now: nat)
    ensures Requested(count, now, []) == [] && ClockAfter(now, []) == now
  {
  }

  lemma RequestedFirst(count: nat, now: nat, r: Request)
    ensures Requested(count, now, [r]) == [Timer(count, now + r.elapsed + r.duration, r.data)]
    ensures ClockAfter(now, [r]) == now + r.elapsed
  {
    assert [r][..1] == [r] && [r][1..] == [];
    assert ClockAfter(now, [r]) == ClockAfter(now + r.elapsed, []);
  }

  lemma RequestedStep(count: nat, now: nat, r: Request, rs: seq<Request>)
    ensures Requested(count, now, [r] + rs) ==
            [Timer(count, now + r.elapsed + r.duration, r.data)] + Requested(count + 1, now + r.elapsed, rs)
    ensures ClockAfter(now, [r] + rs) == ClockAfter(now + r.elapsed, rs)
  {
    hide Requested, ClockAfter;
    RequestedFirst(count, now, r);
    RequestedAppend(count, now, [r], rs);
    ClockAfterAppend(now, [r], rs);
  }

  // ---------- the timers that an expiry adds

  /** All requests of the functions of `due`, which run one after the other. */
  function Requests(due: seq<Timer>, callback: Callback): seq<Request>
    decreases |due|
  {
    if due == [] then [] else callback(due[0]) + Requests(due[1..], callback)
  }

  /** The callbacks fit exactly when all their requests do, one after the other. */
  lemma {:induction false} CallbacksFitExactly(now: nat, due: seq<Timer>, callback: Callback)
    ensures CallbacksFit(now, due, callback) <==> AllFit(now, Requests(due, callback))
    decreases |due|
  {
    hide AllFit, ClockAfter;
    if due == [] {
      NothingFits(now);
    } else {
      ClockAfterAppend(now, callback(due[0]), Requests(due[1..], callback));
      CallbacksFitExactly(ClockAfter(now, callback(due[0])), due[1..], callback);
    }
  }

  /** The timers that `rs` asks for were added to `st`, and the clock now reads what it does after them. */
  ghost predicate Creates(st: State, st': State, rs: seq<Request>) {
    st'.created == st.created + Requested(|st.created|, st.now, rs) && st'.now == ClockAfter(st.now, rs)
  }

  lemma CreatesNothing(st: State)
    ensures Creates(st, st, [])
  {
    NothingRequested(|st.created|, st.now);
  }

  lemma CreatesThen(a: State, b: State, c: State, rs: seq<Request>, rest: seq<Request>)
    requires Creates(a, b, rs) && Creates(b, c, rest)
    ensures Creates(a, c, rs + rest)
  {
    hide Requested, ClockAfter;
    RequestedAppend(|a.created|, a.now, rs, rest);
    ClockAfterAppend(a.now, rs, rest);
  }

  lemma DispatchCreates(st: State, at: nat, rs: seq<Request>)
    requires st.pending != [] && AllFit(st.now, rs)
    ensures Creates(st, AddAll(DispatchFirst(st, at), rs), rs)
  {
    hide AddAll, AllFit, Requested, ClockAfter;
    AddAllCreates(DispatchFirst(st, at), rs);
  }

  lemma RequestsStep(s: seq<Timer>, s': seq<Timer>, n: nat, callback: Callback)
    requires 0 < n <= |s| && n - 1 <= |s'| && s'[..n - 1] == s[1..][..n - 1]
    ensures Requests(s[..n], callback) == callback(s[0]) + Requests(s'[..n - 1], callback)
  {
    assert s[..n][1..] == s'[..n - 1];
  }

  lemma {:induction false} DispatchFrontCreates(st: State, n: nat, at: nat, callback: Callback, target: State)
    requires Dispatching(st, n, at, callback, target)
    ensures n <= |st.pending| && Creates(st, target, Requests(st.pending[..n], callback))
    decreases n
  {
    hide Dispatching, Creates, AddAll, AllFit, Inv, Requests;
    if n == 0 {
      DispatchEnd(st, at, callback, target);
      CreatesNothing(st);
      NoRequests(callback);
    } else {
      DispatchStep(st, n, at, callback, target);
      var rs, st2 := callback(st.pending[0]), AddAll(DispatchFirst(st, at), callback(st.pending[0]));
      DispatchCreates(st, at, rs);
      DispatchFrontCreates(st2, n - 1, at, callback, target);
      RequestsStep(st.pending, st2.pending, n, callback);
      CreatesThen(st, st2, target, rs, Requests(st2.pending[..n - 1], callback));
    }
  }

  lemma NoRequests(callback: Callback)
    ensures Requests([], callback) == []
  {
  }

  /** An expiry adds exactly the timers that the functions of the due timers ask for: the first
      function starts when the clock reads `at`, and each goes on where the one before stopped. */
  lemma ExpireCreates(st: State, elapsed: nat, callback: Callback)
    requires Inv(st)
    requires CallbacksFit(st.now + elapsed, st.pending[..DueCount(st.pending, st.now + elapsed)], callback)
    ensures var at, st' := st.now + elapsed, Expire(st, elapsed, callback);
            var rs := Requests(st.pending[..DueCount(st.pending, at)], callback);
            && st'.created == st.created + Requested(|st.created|, at, rs)
            && st'.now == ClockAfter(at, rs)
  {
    hide Inv, CallbacksFit, Expire, Dispatching, DueCount, Requested, ClockAfter;
    var at := st.now + elapsed;
    StartExpire(st, at, callback);
    DispatchFrontCreates(st.(now := at), DueCount(st.pending, at), at, callback, Expire(st, elapsed, callback));
  }

  // ---------- runs

  lemma {:induction false} RunAppend(st: State, a: seq<Op>, b: seq<Op>)
    ensures Run(st, a + b) == Run(Run(st, a), b)
    ensures LegalRun(st, a + b) <==> LegalRun(st, a) && LegalRun(Run(st, a), b)
    decreases |a|
  {
    hide Step, Legal;
    if a == [] {
      assert a + b == b;
    } else {
      assert (a + b)[1..] == a[1..] + b;
      RunAppend(Step(st, a[0]), a[1..], b);
    }
  }

  /** The last step of a run, from a state that is legal and keeps the invariant. */
  lemma LastStep(st: State, ops: seq<Op>, op: Op)
    requires Inv(st) && LegalRun(st, ops + [op])
    ensures Inv(Run(st, ops)) && Legal(Run(st, ops), op) && Run(st, ops + [op]) == Step(Run(st, ops), op)
  {
    hide Inv, Step, Legal;
    RunAppend(st, ops, [op]);
    RunKeepsInv(st, ops);
    var st1 := Run(st, ops);
    assert LegalRun(st1, [op]) && Run(st1, [op]) == Run(Step(st1, op), []) by {
      assert [op][1..] == [];
    }
  }

  /** An addition in any run adds the timer that was asked for, and changes nothing else. */
  lemma AfterAdd(st: State, ops: seq<Op>, r: Request)
    requires Inv(st) && LegalRun(st, ops + [AddOp(r)])
    ensures var a, b := Run(st, ops), Run(st, ops + [AddOp(r)]);
            var t := Timer(|a.created|, a.now + r.elapsed + r.duration, r.data);
            && b.created == a.created + [t]
            && (forall x :: x in b.pending <==> x in a.pending || x == t)
            && b.now == a.now + r.elapsed && b.dispatched == a.dispatched && b.deleted == a.deleted
  {
    hide Inv, Run, LegalRun, Add;
    LastStep(st, ops, AddOp(r));
    var a := Run(st, ops);
    var t := Timer(|a.created|, a.now + r.elapsed + r.duration, r.data);
    AddAdds(a, r);
    AddsContents(a, Add(a, r), [t], a.now + r.elapsed);
  }

  /** A deletion in any run takes out the timer at its place, and changes nothing else. */
  lemma AfterDelete(st: State, ops: seq<Op>, k: nat)
    requires Inv(st) && LegalRun(st, ops + [DeleteOp(k)])
    ensures k < |Run(st, ops).pending|
    ensures var a, b := Run(st, ops), Run(st, ops + [DeleteOp(k)]);
            && (forall t :: t in b.pending <==> t in a.pending && t != a.pending[k])
            && b.deleted == a.deleted + [a.pending[k]]
            && b.now == a.now && b.dispatched == a.dispatched && b.created == a.created
  {
    hide Inv, Run, LegalRun, Ordered;
    LastStep(st, ops, DeleteOp(k));
    PendingOrdered(Run(st, ops));
    RemovedFromOrdered(Run(st, ops).pending, k);
  }

  lemma RemovedFromOrdered(s: seq<Timer>, k: nat)
    requires Ordered(s) && k < |s|
    ensures forall t :: t in s[..k] + s[k + 1..] <==> t in s && t != s[k]
  {
  }

  /** An expiry in any run that reads the clock at `at` dispatches exactly the pending timers that
      expire before `at`; what is pending afterwards are the others, and the timers that the
      functions of the dispatched ones, in their order, ask for. */
  lemma AfterExpire(st: State, ops: seq<Op>, elapsed: nat, callback: Callback)
    requires Inv(st) && LegalRun(st, ops + [ExpireOp(elapsed, callback)])
    ensures var a, b := Run(st, ops), Run(st, ops + [ExpireOp(elapsed, callback)]);
            var at := a.now + elapsed;
            var due := a.pending[..DueCount(a.pending, at)];
            var ts := Requested(|a.created|, at, Requests(due, callback));
            && (forall t :: t in due <==> t in a.pending && t.expire < at)
            && b.dispatched == a.dispatched + Stamped(due, at)
            && b.created == a.created + ts
            && (forall t :: t in b.pending <==> (t in a.pending && t.expire >= at) || t in ts)
            && (forall t :: t in b.pending ==> t.expire >= at)
            && b.now == ClockAfter(at, Requests(due, callback)) && b.deleted == a.deleted
  {
    hide Inv, Run, LegalRun, CallbacksFit, Expire, DueCount, Requested, ClockAfter, Requests, Ordered, Stamped;
    LastStep(st, ops, ExpireOp(elapsed, callback));
    var a, at := Run(st, ops), Run(st, ops).now + elapsed;
    var n, b := DueCount(a.pending, at), Expire(a, elapsed, callback);
    ExpireRunsExactlyTheDue(a, elapsed, callback);
    ExpireCreates(a, elapsed, callback);
    ExpiredPending(a, b, n, at);
    PendingOrdered(a);
    DueCountIsDue(a.pending, at);
    assert forall t :: t in a.pending[..n] ==> t in a.pending;
    assert forall t :: t in a.pending[n..] ==> t in a.pending;
  }

  /** What was added, dispatched or deleted stays so. */
  lemma {:induction false} RunGrows(st: State, ops: seq<Op>)
    requires Inv(st) && LegalRun(st, ops)
    ensures var st' := Run(st, ops);
            st.created <= st'.created && st.dispatched <= st'.dispatched && st.deleted <= st'.deleted
    decreases |ops|
  {
    hide Inv, Step, CallbacksFit, Inserted, Expire, Stamped, Run, LegalRun;
    if ops == [] {
      assert Run(st, ops) == st by { EmptyRun(st); }
    } else {
      var n := |ops| - 1;
      var front, op := ops[..n], ops[n];
      assert ops == front + [op];
      RunAppend(st, front, [op]);
      RunGrows(st, front);
      match op {
        case AddOp(r) => AfterAdd(st, front, r);
        case DeleteOp(k) => AfterDelete(st, front, k);
        case ExpireOp(elapsed, callback) => AfterExpire(st, front, elapsed, callback);
      }
    }
  }

  lemma EmptyRun(st: State)
    ensures Run(st, []) == st
  {
  }

  /** A timer deleted in a run stays deleted, and is never pending or dispatched from then on. */
  lemma DeletedForGood(st: State, before: seq<Op>, k: nat, after: seq<Op>)
    requires Inv(st) && LegalRun(st, before + [DeleteOp(k)] + after)
    ensures k < |Run(st, before).pending|
    ensures var t, st' := Run(st, before).pending[k], Run(st, before + [DeleteOp(k)] + after);
            t in st'.deleted && t !in st'.pending && forall d :: d in st'.dispatched ==> d.timer != t
  {
    hide Inv, Run, LegalRun;
    RunAppend(st, before + [DeleteOp(k)], after);
    AfterDelete(st, before, k);
    RunKeepsInv(st, before + [DeleteOp(k)]);
    RunGrows(Run(st, before + [DeleteOp(k)]), after);
    RunKeepsInv(st, before + [DeleteOp(k)] + after);
    assert Run(st, before).pending[k] in Run(st, before + [DeleteOp(k)]).deleted;
    DeletedOnly(Run(st, before + [DeleteOp(k)] + after), Run(st, before).pending[k]);
  }

  lemma DeletedOnly(st: State, t: Timer)
    requires Inv(st) && t in st.deleted
    ensures t !in st.pending && forall d :: d in st.dispatched ==> d.timer != t
  {
    hide Ordered;
    CreatedOnce(st.created, t);
    assert multiset(st.deleted)[t] > 0;
    assert multiset(Agenda(st))[t] == 0;
    assert t !in Agenda(st);
    forall d | d in st.dispatched
      ensures d.timer != t
    {
      var i :| 0 <= i < |st.dispatched| && st.dispatched[i] == d;
      assert Agenda(st)[i] == d.timer;
    }
  }

  /** A timer dispatched in a run is never pending again, nor deleted, nor dispatched a second time. */
  lemma DispatchedForGood(st: State, before: seq<Op>, after: seq<Op>, i: nat)
    requires Inv(st) && LegalRun(st, before + after) && i < |Run(st, before).dispatched|
    ensures var t, st' := Run(st, before).dispatched[i].timer, Run(st, before + after);
            && t !in st'.pending && t !in st'.deleted
            && (forall j :: 0 <= j < |st'.dispatched| && st'.dispatched[j].timer == t ==> j == i)
            && i < |st'.dispatched| && st'.dispatched[i] == Run(st, before).dispatched[i]
  {
    hide Inv, Run, LegalRun;
    RunAppend(st, before, after);
    RunKeepsInv(st, before);
    RunGrows(Run(st, before), after);
    RunKeepsInv(st, before + after);
    DispatchedOnly(Run(st, before + after), i);
  }

  lemma DispatchedOnly(st: State, i: nat)
    requires Inv(st) && i < |st.dispatched|
    ensures var t := st.dispatched[i].timer;
            && t !in st.pending && t !in st.deleted
            && (forall j :: 0 <= j < |st.dispatched| && st.dispatched[j].timer == t ==> j == i)
  {
    var t := st.dispatched[i].timer;
    assert Agenda(st)[i] == t;
    CreatedOnce(st.created, t);
    assert multiset(Agenda(st))[t] > 0 && multiset(Timers(st.dispatched))[t] > 0;
    forall j | 0 <= j < |st.dispatched| && st.dispatched[j].timer == t
      ensures j == i
    {
      assert Agenda(st)[j] == t;
    }
  }
}
