/** In every fair infinite run a waiting detach returns. */
module WorkerLiveness {
  import opened ConnectionHandler
  import opened WorkerProtocol

  predicate WorkerSteps(a: Action) {
    !(a.Attach? || a.RequestDetach? || a.WakeUp? || a.WakeUpOther? || a.WorkerDetach? || a.Idle?)
  }

  ghost predicate WorkerCanStep(s: State) {
    exists a :: WorkerSteps(a) && Enabled(s, a)
  }

  // --- The way to the next scan -----------------------------------------------------------------

  function Phase(w: Counter): nat {
    match w
    case Scanning => 0
    case Draining(_) => 1
    case Removing(_, _) => 1
    case Calling(_, _, _, _) => 2
    case Collecting(_, _) => 3
    case Selecting(_) => 4
    case Notifying(_) => 5
  }

  /** The steps left in a phase. */
  function Remaining(w: Counter): nat {
    match w
    case Calling(queue, running, _, _) => 2 * |queue| + if running.Some? then 1 else 0
    case Removing(failed, erring) => 2 * |failed| + if erring.Some? then 1 else 0
    case _ => 0
  }

  predicate Nearer(w: Counter, w': Counter) {
    Phase(w) < Phase(w') || (Phase(w) == Phase(w') && Remaining(w) < Remaining(w'))
  }

  /** Each step of the worker brings it nearer to its next scan, and no other step, be it a
      client's or a callback's, moves it. */
  lemma StepsLeadToScan(s: State, a: Action)
    requires Enabled(s, a) && a != ScanList
    ensures if WorkerSteps(a) then Nearer(Step(s, a).worker, s.worker) else Step(s, a).worker == s.worker
  {
    hide Find, Locate, Erase, Mark, ScanAll, Collected;
  }

  // --- A node that a detach waits for -------------------------------------------------------------

  ghost predicate Waits(s: State, id: nat, life: Life) {
    id in s.waiters && exists e :: e in s.callbacks && e.id == id && e.life == life
  }

  lemma WaitsForPendingOrDetached(s: State, id: nat)
    requires Inv(s) && id in s.waiters
    ensures Waits(s, id, PendingDetachment) || Waits(s, id, Detached)
  {
    hide Ordered;
    assert id in Ids(s.callbacks);
  }

  /** While a detach waits for the next scan, the worker can always go on: when it is about to
      block in select, the sync pipe is not empty. */
  lemma WorkerIsNotStuck(s: State, id: nat)
    requires Inv(s) && Waits(s, id, PendingDetachment)
    ensures WorkerCanStep(s)
  {
    hide Find, Ids, Fds, Ordered;
    var e :| e in s.callbacks && e.id == id && e.life == PendingDetachment;
    assert Pending(e);
    assert WorkerSteps(Onward(s.worker)) && Enabled(s, Onward(s.worker));
  }

  /** What the worker does next when callbacks return and nothing but the pipe is ready. */
  function Onward(w: Counter): Action {
    match w
    case Scanning => ScanList
    case Notifying(_) => NotifyAll
    case Selecting(_) => Select({}, true)
    case Collecting(_, _) => Collect
    case Calling(queue, running, _, _) =>
      if running.Some? then EndCall(false) else if queue != [] then StartCall else FinishCalls
    case Removing(failed, erring) =>
      if erring.Some? then EndErrorCallback else if failed != [] then RemoveNext else FinishRemoving
    case Draining(_) => Drain
  }

  lemma WaitingStaysPending(s: State, a: Action, id: nat)
    requires Inv(s) && Enabled(s, a) && Waits(s, id, PendingDetachment) && a != ScanList
    ensures Waits(Step(s, a), id, PendingDetachment)
  {
    hide Find, Locate, Erase, Mark, ScanAll, Collected, Ids, Fds, Ordered, Inv, Enabled;
    var e :| e in s.callbacks && e.id == id && e.life == PendingDetachment;
    if a == RemoveNext {
      RemovingKeepsPending(s, e);
    } else {
      StaysListed(s, a, e);
    }
  }

  /** Clients and callbacks leave a node alone that a detach waits for. */
  lemma StaysListed(s: State, a: Action, e: Entry)
    requires Inv(s) && Enabled(s, a) && e in s.callbacks && e.id in s.waiters
    requires a != ScanList && a != RemoveNext && (a == WakeUp(e.id) ==> e.life != Detached)
    ensures e in Step(s, a).callbacks && e.id in Step(s, a).waiters
    ensures a != WakeUp(e.id) && (s.waiters[e.id] || a == NotifyAll) ==> Step(s, a).waiters[e.id]
  {
    hide Find, Locate, Erase, Mark, Scan, ScanAll, Collected, SelectFds, ErrorCallee, Ids, Fds, Ordered, Inv;
    KeepsNode(s, a, e);
    if a == WakeUp(e.id) {
      IsOrdered(s);
      LocateFinds(s.callbacks, e);
    }
  }

  lemma KeepsNode(s: State, a: Action, e: Entry)
    requires Inv(s) && Enabled(s, a) && e in s.callbacks && e.id in s.waiters
    requires a != ScanList && a != RemoveNext && (a == WakeUp(e.id) ==> e.life != Detached)
    ensures e in Step(s, a).callbacks
  {
    hide Find, Locate, Erase, Mark, Scan, ScanAll, Collected, SelectFds, ErrorCallee, Ids, Fds, Ordered, Inv;
    var cs := s.callbacks;
    IsOrdered(s);
    match a
    case RequestDetach(fd) => MarkKeepsOthers(cs, Find(cs, fd), e);
    case WakeUp(other) =>
      LocateFinds(cs, e);
      EraseKeepsOthers(cs, Locate(cs, other), e);
    case WakeUpOther(_) => NoOthers(s);
    case WorkerDetach(fd) => EraseKeepsOthers(cs, Find(cs, fd), e);
    case _ =>
  }

  lemma MarkKeepsOthers(cs: seq<Entry>, i: nat, e: Entry)
    requires Ordered(cs) && e in cs
    ensures i < |cs| && cs[i].id != e.id ==> e in Mark(cs, i)
  {
    if i < |cs| { MarkMembers(cs, i); }
  }

  lemma EraseKeepsOthers(cs: seq<Entry>, i: nat, e: Entry)
    requires Ordered(cs) && e in cs
    ensures i < |cs| && cs[i].id != e.id ==> e in Erase(cs, i)
  {
    if i < |cs| { EraseMembers(cs, i); }
  }

  lemma RemovingKeepsPending(s: State, e: Entry)
    requires Inv(s) && Enabled(s, RemoveNext) && e in s.callbacks && e.life == PendingDetachment
    ensures e in Step(s, RemoveNext).callbacks && Step(s, RemoveNext).waiters == s.waiters
  {
    hide Find, Mark, Ids, Fds, Ordered;
    var i := Find(s.callbacks, s.worker.failed[0]);
    if i < |s.callbacks| {
      MarkMembers(s.callbacks, i);
      if s.callbacks[i].id == e.id { SameNode(s.callbacks, s.callbacks[i], e); }
    }
  }

  lemma ScanDetaches(s: State, id: nat)
    requires Inv(s) && s.worker.Scanning? && Waits(s, id, PendingDetachment)
    ensures Waits(Step(s, ScanList), id, Detached)
  {
    hide Ids, Fds, Ordered, ScanAll;
    var e :| e in s.callbacks && e.id == id && e.life == PendingDetachment;
    ScanMembers(s.callbacks);
    assert Scan(e) in Step(s, ScanList).callbacks;
  }

  predicate Woken(s: State, id: nat) { id in s.waiters && s.waiters[id] }

  /** Once a scan has let a node go, only the detach that waits for it takes it out of the list,
      and its wake-up is not lost. */
  lemma WaitingStaysDetached(s: State, a: Action, id: nat)
    requires Inv(s) && Enabled(s, a) && Waits(s, id, Detached)
    ensures if a == WakeUp(id) then id !in Step(s, a).waiters && id in Step(s, a).returned
            else Waits(Step(s, a), id, Detached) && (Woken(s, id) || a == NotifyAll ==> Woken(Step(s, a), id))
  {
    hide Find, Locate, Erase, Mark, ScanAll, Collected, Ids, Fds, Ordered, Inv;
    var e :| e in s.callbacks && e.id == id && e.life == Detached;
    if a == WakeUp(id) {
      IsOrdered(s);
      LocateFinds(s.callbacks, e);
    } else if a == RemoveNext {
      RemovingKeepsDetached(s, e);
    } else if a == ScanList {
      IsOrdered(s);
      ScanMembers(s.callbacks);
      assert Scan(e) == e;
    } else {
      StaysListed(s, a, e);
    }
  }

  lemma RemovingKeepsDetached(s: State, e: Entry)
    requires Inv(s) && Enabled(s, RemoveNext) && e in s.callbacks && e.life == Detached
    ensures e in Step(s, RemoveNext).callbacks
  {
    hide Find, Mark, Ids, Fds, Ordered;
    var cs := s.callbacks;
    var fd := s.worker.failed[0];
    var i := Find(cs, fd);
    if i < |cs| {
      MarkMembers(cs, i);
      assert cs[i].life != Detached by { assert cs[i] in cs && fd in Watched(s.worker); }
      if cs[i].id == e.id { SameNode(cs, cs[i], e); }
    }
  }

  // --- Infinite runs ------------------------------------------------------------------------------

  ghost predicate Execution(run: nat -> State, acts: nat -> Action) {
    && run(0) == START
    && forall t: nat :: Enabled(run(t), acts(t)) && run(t + 1) == Step(run(t), acts(t))
  }

  /** The worker thread goes on whenever it can; this includes that callbacks return. */
  ghost predicate FairToWorker(run: nat -> State, acts: nat -> Action) {
    forall t: nat :: WorkerMovesAfter(run, acts, t)
  }

  ghost predicate WorkerMovesAfter(run: nat -> State, acts: nat -> Action, t: nat) {
    exists u: nat :: t <= u && (WorkerSteps(acts(u)) || !WorkerCanStep(run(u)))
  }

  /** A waiter that was woken gets the lock. */
  ghost predicate FairToWaiters(run: nat -> State, acts: nat -> Action) {
    forall t: nat, id: nat :: Woken(run(t), id) ==>
      exists u: nat :: t <= u && (acts(u) == WakeUp(id) || !Woken(run(u), id))
  }

  lemma {:induction false} ExecutionKeepsInv(run: nat -> State, acts: nat -> Action, t: nat)
    requires Execution(run, acts)
    ensures Inv(run(t))
  {
    if t > 0 {
      ExecutionKeepsInv(run, acts, t - 1);
      At(run, acts, t - 1);
      StepKeepsInv(run(t - 1), acts(t - 1));
    }
  }

  lemma At(run: nat -> State, acts: nat -> Action, t: nat)
    requires Execution(run, acts)
    ensures Enabled(run(t), acts(t)) && run(t + 1) == Step(run(t), acts(t))
  {
  }

  /** The worker reaches the scan that lets the node go: the order of phases, the calls that remain
      and the time until the worker moves again go down. */
  lemma {:induction false} ReachesScan(run: nat -> State, acts: nat -> Action, t: nat, id: nat, u: nat) returns (v: nat)
    requires Execution(run, acts) && FairToWorker(run, acts)
    requires Waits(run(t), id, PendingDetachment)
    requires t <= u && (WorkerSteps(acts(u)) || !WorkerCanStep(run(u)))
    ensures t < v && Waits(run(v), id, Detached) && run(v).worker.Notifying?
    decreases Phase(run(t).worker), Remaining(run(t).worker), u - t
  {
    hide Execution, Waits, Inv, WorkerCanStep, Step, Possible, Phase, Remaining;
    var s, a := run(t), acts(t);
    ExecutionKeepsInv(run, acts, t);
    At(run, acts, t);
    WorkerIsNotStuck(s, id);
    if a == ScanList {
      ScanNotifies(s);
      ScanDetaches(s, id);
      v := t + 1;
    } else {
      WaitingStaysPending(s, a, id);
      StepsLeadToScan(s, a);
      if WorkerSteps(a) {
        assert WorkerMovesAfter(run, acts, t + 1);
        var u': nat :| t + 1 <= u' && (WorkerSteps(acts(u')) || !WorkerCanStep(run(u')));
        v := ReachesScan(run, acts, t + 1, id, u');
      } else {
        v := ReachesScan(run, acts, t + 1, id, u);
      }
    }
  }

  lemma ScanNotifies(s: State)
    requires Enabled(s, ScanList)
    ensures s.worker.Scanning? && Step(s, ScanList).worker.Notifying?
  {
  }

  /** After the scan the waiter is woken, or has returned already. */
  lemma {:induction false} IsWoken(run: nat -> State, acts: nat -> Action, t: nat, id: nat, u: nat) returns (v: nat)
    requires Execution(run, acts)
    requires Waits(run(t), id, Detached)
    requires t <= u && (WorkerSteps(acts(u)) || !WorkerCanStep(run(u)))
    ensures t <= v && ((Woken(run(v), id) && Waits(run(v), id, Detached)) || id in run(v).returned)
    decreases u - t
  {
    hide Execution, Waits, WorkerCanStep, Step;
    var s, a := run(t), acts(t);
    if Woken(s, id) {
      return t;
    }
    ExecutionKeepsInv(run, acts, t);
    At(run, acts, t);
    WaitsWhileNotifying(s, id);
    WaitingStaysDetached(s, a, id);
    if a == WakeUp(id) || a == NotifyAll {
      v := t + 1;
    } else {
      v := IsWoken(run, acts, t + 1, id, u);
    }
  }

  lemma WaitsWhileNotifying(s: State, id: nat)
    requires Inv(s) && Waits(s, id, Detached) && !Woken(s, id)
    ensures s.worker.Notifying? && WorkerCanStep(s)
  {
    hide Ids, Fds, Ordered;
    var e :| e in s.callbacks && e.id == id && e.life == Detached;
    assert WorkerSteps(NotifyAll) && Enabled(s, NotifyAll);
  }

  lemma {:induction false} Returns(run: nat -> State, acts: nat -> Action, t: nat, id: nat, u: nat) returns (v: nat)
    requires Execution(run, acts)
    requires Woken(run(t), id) && Waits(run(t), id, Detached)
    requires t <= u && (acts(u) == WakeUp(id) || !Woken(run(u), id))
    ensures t < v && id in run(v).returned
    decreases u - t
  {
    hide Execution, Waits, Step, Possible;
    ExecutionKeepsInv(run, acts, t);
    At(run, acts, t);
    WaitingStaysDetached(run(t), acts(t), id);
    if acts(t) == WakeUp(id) {
      v := t + 1;
    } else {
      v := Returns(run, acts, t + 1, id, u);
    }
  }

  /** Every detach that waits returns, whatever the clients and the callbacks do meanwhile. */
  lemma DetachReturns(run: nat -> State, acts: nat -> Action, t: nat, id: nat) returns (v: nat)
    requires Execution(run, acts) && FairToWorker(run, acts) && FairToWaiters(run, acts)
    requires id in run(t).waiters
    ensures t < v && id in run(v).returned && id !in run(v).waiters
  {
    hide Execution, Waits, WorkerCanStep, Inv;
    ExecutionKeepsInv(run, acts, t);
    WaitsOrReturned(run(t), id);
    WaitsForPendingOrDetached(run(t), id);
    var scanned := t;
    if Waits(run(t), id, PendingDetachment) {
      assert WorkerMovesAfter(run, acts, t);
      var u: nat :| t <= u && (WorkerSteps(acts(u)) || !WorkerCanStep(run(u)));
      scanned := ReachesScan(run, acts, t, id, u);
    }
    assert WorkerMovesAfter(run, acts, scanned);
    var u: nat :| scanned <= u && (WorkerSteps(acts(u)) || !WorkerCanStep(run(u)));
    v := IsWoken(run, acts, scanned, id, u);
    if id !in run(v).returned {
      var w: nat :| v <= w && (acts(w) == WakeUp(id) || !Woken(run(w), id));
      v := Returns(run, acts, v, id, w);
    }
    ExecutionKeepsInv(run, acts, v);
    WaitsOrReturned(run(v), id);
  }

  lemma WaitsOrReturned(s: State, id: nat)
    requires Inv(s)
    ensures !(id in s.waiters && id in s.returned)
  {
  }

  /** So a thread that asks for the detach of a listed descriptor comes back, and the node is gone. */
  lemma DetachComesBack(run: nat -> State, acts: nat -> Action, t: nat, e: Entry) returns (v: nat)
    requires Execution(run, acts) && FairToWorker(run, acts) && FairToWaiters(run, acts)
    requires acts(t) == RequestDetach(e.fd) && e in run(t).callbacks
    ensures e.id in run(t + 1).waiters
    ensures t + 1 < v && e.id in run(v).returned && e.id !in run(v).waiters && e.id !in Ids(run(v).callbacks)
  {
    hide Execution, FairToWorker, FairToWaiters, Possible;
    ExecutionKeepsInv(run, acts, t);
    At(run, acts, t);
    var cs := run(t).callbacks;
    assert cs[Find(cs, e.fd)] == e;
    v := DetachReturns(run, acts, t + 1, e.id);
    ExecutionKeepsInv(run, acts, v);
  }

  /** Nothing holds the others up: clients on other threads wait only while entries are removed, a
      callback can attach, detach, return and throw, and the worker waits only in select, while there
      is nothing to report. */
  lemma NobodyIsHeldUp(s: State, fd: int, ready: set<int>, choice: bool)
    ensures !s.worker.Removing? ==> Possible(s, Attach(fd, choice, false)) && Possible(s, RequestDetach(fd))
    ensures !s.worker.Removing? ==> forall id | id in s.waiters :: Possible(s, WakeUp(id))
    ensures InCallback(s.worker) ==> Possible(s, Attach(fd, choice, true)) && Possible(s, WorkerDetach(fd))
    ensures InCallback(s.worker) ==> Possible(s, if s.worker.Calling? then EndCall(choice) else EndErrorCallback)
    ensures s.worker.Selecting? && ready <= s.worker.fds && (ready != {} || s.pipe > 0) ==>
      Possible(s, Select(ready, s.pipe > 0))
    ensures !s.worker.Selecting? ==> exists a :: WorkerSteps(a) && Possible(s, a)
  {
    assert !s.worker.Selecting? ==> WorkerSteps(Onward(s.worker)) && Possible(s, Onward(s.worker));
  }
}
