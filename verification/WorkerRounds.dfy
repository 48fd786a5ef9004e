/** What the worker does from one scan to the next: whose callbacks it calls, what becomes of those
    that throw, and when it reads the sync pipe. */
module WorkerRounds {
  import opened Bytes
  import opened ConnectionHandler
  import opened WorkerProtocol
  import opened WorkerSafety

  /** The step from `i` to `i + 1` of the run is this one. */
  ghost predicate Takes(run: seq<State>, i: nat, a: Action) {
    i + 1 < |run| && Enabled(run[i], a) && run[i + 1] == Step(run[i], a)
  }

  /** The worker's next scan after `i` is at `j`. */
  ghost predicate NextScan(run: seq<State>, i: nat, j: nat) {
    i < j < |run| && run[j].worker.Scanning? && forall k | i < k < j :: !run[k].worker.Scanning?
  }

  // --- What is attached -----------------------------------------------------------------------------

  /** A node keeps the descriptor and the callbacks it was attached with as long as it is listed. */
  lemma AttachedAs(run: seq<State>, i: nat, j: nat, fd: int, hasErrorCallback: bool, onWorkerThread: bool)
    requires IsRun(run) && Takes(run, i, Attach(fd, hasErrorCallback, onWorkerThread)) && i < j < |run|
    ensures run[i + 1].callbacks == run[i].callbacks + [Entry(run[i].nextId, fd, hasErrorCallback, PendingAttachment)]
    ensures run[i].nextId !in Ids(run[i].callbacks)
    ensures forall e | e in run[j].callbacks && e.id == run[i].nextId ::
      e.fd == fd && e.hasErrorCallback == hasErrorCallback
  {
    hide Chained;
    RunKeepsInv(run, i);
    var id, e := run[i].nextId, Entry(run[i].nextId, fd, hasErrorCallback, PendingAttachment);
    assert run[i + 1].callbacks[|run[i].callbacks|] == e && e in run[i + 1].callbacks;
    LifeCycle(run, i + 1, j, id);
  }

  /** Each scan attaches what is pending, gives select the descriptors of all that is attached then,
      and lets the others go. */
  lemma ScanDecides(run: seq<State>, i: nat, e: Entry)
    requires IsRun(run) && Takes(run, i, ScanList) && e in run[i].callbacks
    ensures e.(life := if e.life in {PendingAttachment, Attached} then Attached else Detached) in run[i + 1].callbacks
    ensures run[i + 1].worker.Notifying?
    ensures e.fd in run[i + 1].worker.fds <==> e.life in {PendingAttachment, Attached}
  {
    hide Chained;
    RunKeepsInv(run, i);
    IsOrdered(run[i]);
    ScanMembers(run[i].callbacks);
    assert Scan(e) in ScanAll(run[i].callbacks);
    forall d | d in run[i].callbacks && d.fd == e.fd ensures d == e {
    }
  }

  // --- A callback that throws ---------------------------------------------------------------------

  /** An entry of the descriptor is to be removed before the next scan. */
  predicate ToBeRemoved(w: Counter, fd: int) {
    (w.Calling? && fd in w.failed) || (w.Removing? && fd in w.failed)
  }

  /** The step schedules the entry of the descriptor for removal. */
  predicate Removes(s: State, a: Action, fd: int) {
    a == RemoveNext && s.worker.Removing? && s.worker.failed != [] && s.worker.failed[0] == fd
  }

  lemma StaysToBeRemoved(s: State, a: Action, fd: int)
    requires Enabled(s, a) && ToBeRemoved(s.worker, fd)
    ensures Removes(s, a, fd) || ToBeRemoved(Step(s, a).worker, fd)
  {
    hide Find, Locate, Erase, Mark, ScanAll, Collected;
    if a == RemoveNext {
      var failed := s.worker.failed;
      assert fd == failed[0] || fd in failed[1..];
    }
  }

  /** The worker does not scan again before it has dealt with the descriptor. */
  lemma {:induction false} IsRemoved(run: seq<State>, i: nat, j: nat, fd: int) returns (k: nat)
    requires IsRun(run) && NextScan(run, i, j) && i + 1 < |run| && ToBeRemoved(run[i + 1].worker, fd)
    ensures i < k < j && Takes(run, k, RemoveNext) && Removes(run[k], RemoveNext, fd)
  {
    hide Step, Possible, Chained;
    k := i + 1;
    while !Removes(run[k], StepOf(run, k), fd)
      invariant i < k < j && ToBeRemoved(run[k].worker, fd)
      decreases j - k
    {
      StepOfTakes(run, k);
      StaysToBeRemoved(run[k], StepOf(run, k), fd);
      k := k + 1;
    }
    StepOfTakes(run, k);
  }

  ghost function StepOf(run: seq<State>, i: nat): Action
    requires IsRun(run) && i + 1 < |run|
  {
    TakenAt(run, i);
    var a :| Takes(run, i, a);
    a
  }

  lemma TakenAt(run: seq<State>, i: nat)
    requires IsRun(run) && i + 1 < |run|
    ensures exists a :: Takes(run, i, a)
  {
    hide Possible, Step, Chained;
    var a := StepAt(run, i);
    assert Takes(run, i, a);
  }

  lemma StepOfTakes(run: seq<State>, i: nat)
    requires IsRun(run) && i + 1 < |run|
    ensures Takes(run, i, StepOf(run, i))
  {
  }

  /** What scheduling a node for removal does to it. */
  ghost predicate Scheduled(s: State, s': State, id: nat) {
    forall e | e in s.callbacks && e.id == id ::
      && e.(life := PendingDetachment) in s'.callbacks
      && (Erring(s'.worker, id) <==> e.hasErrorCallback)
  }

  lemma RemovingSchedules(s: State, id: nat, fd: int)
    requires Inv(s) && Enabled(s, RemoveNext) && Removes(s, RemoveNext, fd)
    requires forall e | e in s.callbacks && e.id == id :: e.fd == fd
    ensures Scheduled(s, Step(s, RemoveNext), id)
  {
    hide Find, Mark, Ids, Fds, Ordered;
    forall e | e in s.callbacks && e.id == id
      ensures e.(life := PendingDetachment) in Step(s, RemoveNext).callbacks
      ensures Erring(Step(s, RemoveNext).worker, id) <==> e.hasErrorCallback
    {
      LocateFinds(s.callbacks, e);
      MarkMembers(s.callbacks, Find(s.callbacks, fd));
    }
  }

  /** When the callback of a node throws, the node is scheduled for removal before the next scan, if
      it is still in the list then, and its error callback is called if it has one; by the next scan
      it is not attached any more. */
  lemma ThrowingIsRemoved(run: seq<State>, i: nat, j: nat, c: Call) returns (k: nat)
    requires IsRun(run) && Takes(run, i, EndCall(true)) && run[i].worker.running == Some(c) && NextScan(run, i, j)
    ensures i < k < j && Takes(run, k, RemoveNext) && Scheduled(run[k], run[k + 1], c.id)
    ensures forall e | e in run[j].callbacks && e.id == c.id :: e.life == PendingDetachment || e.life == Detached
  {
    hide Step, Possible, Chained, Inv, Scheduled;
    ThrownIsToBeRemoved(run, i, c);
    k := IsRemoved(run, i, j, c.fd);
    RunKeepsInv(run, i);
    RunKeepsInv(run, k);
    KeepsDescriptor(run, i, k, c);
    RemovingSchedules(run[k], c.id, c.fd);
    GoneAtScan(run, k, j, c.id) by { RunKeepsInv(run, k); OldNode(run[i], c); OldStays(run, i, k); }
  }

  lemma ThrownIsToBeRemoved(run: seq<State>, i: nat, c: Call)
    requires Takes(run, i, EndCall(true)) && run[i].worker.running == Some(c)
    ensures run[i].worker.Calling? && ToBeRemoved(run[i + 1].worker, c.fd)
  {
    hide Find, Locate, Erase, Mark, ScanAll, Collected;
    assert (run[i].worker.failed + [c.fd])[|run[i].worker.failed|] == c.fd;
  }

  lemma OldNode(s: State, c: Call)
    requires Inv(s) && Outstanding(s.worker, c)
    ensures c.id < s.nextId && forall e | e in s.callbacks && e.id == c.id :: e.fd == c.fd
  {
  }

  lemma {:induction false} OldStays(run: seq<State>, i: nat, k: nat)
    requires IsRun(run) && i <= k < |run|
    ensures run[i].nextId <= run[k].nextId
  {
    hide SameOrLater;
    RunMovesOn(run, i, k);
  }

  lemma KeepsDescriptor(run: seq<State>, i: nat, k: nat, c: Call)
    requires IsRun(run) && i <= k < |run| && run[i].worker.Calling? && run[i].worker.running == Some(c)
    ensures forall e | e in run[k].callbacks && e.id == c.id :: e.fd == c.fd
  {
    hide Chained;
    RunKeepsInv(run, i);
    OldNode(run[i], c);
    RunMovesOn(run, i, k);
  }

  lemma GoneAtScan(run: seq<State>, k: nat, j: nat, id: nat)
    requires IsRun(run) && k + 1 <= j < |run| && id < run[k].nextId && Scheduled(run[k], run[k + 1], id)
    ensures forall e | e in run[j].callbacks && e.id == id :: e.life == PendingDetachment || e.life == Detached
  {
    hide Chained, Scheduled, SameOrLater, Inv;
    RunMovesOn(run, k, k + 1);
    RunMovesOn(run, k + 1, j);
    RunKeepsInv(run, k + 1);
    IsOrdered(run[k + 1]);
    LaterIsGone(run[k], run[k + 1], run[j].callbacks, id);
  }

  lemma LaterIsGone(s: State, s': State, cs: seq<Entry>, id: nat)
    requires id < s.nextId && id < s'.nextId && Scheduled(s, s', id) && Ordered(s'.callbacks)
    requires SameOrLater(s.callbacks, s'.callbacks, s.nextId) && SameOrLater(s'.callbacks, cs, s'.nextId)
    ensures forall e | e in cs && e.id == id :: e.life == PendingDetachment || e.life == Detached
  {
    hide Ordered, Scheduled, SameOrLater;
    forall e | e in cs && e.id == id
      ensures e.life == PendingDetachment || e.life == Detached
    {
      var d := Earlier(s'.callbacks, cs, s'.nextId, e);
      var b := Earlier(s.callbacks, s'.callbacks, s.nextId, d);
      ScheduledNode(s, s', id, b);
      SameNode(s'.callbacks, d, b.(life := PendingDetachment));
    }
  }

  lemma Earlier(cs: seq<Entry>, cs': seq<Entry>, bound: nat, e': Entry) returns (e: Entry)
    requires SameOrLater(cs, cs', bound) && e' in cs' && e'.id < bound
    ensures e in cs && e.id == e'.id && e.fd == e'.fd && Rank(e.life) <= Rank(e'.life)
  {
    e :| e in cs && e.id == e'.id && e.fd == e'.fd && Rank(e.life) <= Rank(e'.life);
  }

  lemma ScheduledNode(s: State, s': State, id: nat, e: Entry)
    requires Scheduled(s, s', id) && e in s.callbacks && e.id == id
    ensures e.(life := PendingDetachment) in s'.callbacks
  {
  }

  // --- No second call -----------------------------------------------------------------------------

  /** The node is not called again: it is to be removed, or it is no candidate for a call. */
  ghost predicate NotCalledAgain(s: State, id: nat, fd: int) {
    && id < s.nextId
    && (forall c | Outstanding(s.worker, c) :: c.id != id)
    && (forall e | e in s.callbacks && e.id == id :: e.fd == fd)
    && (ToBeRemoved(s.worker, fd) || forall e | e in s.callbacks && e.id == id :: NoCandidate(s.worker, e))
  }

  predicate NoCandidate(w: Counter, e: Entry) {
    !Selectable(e) && (w.Scanning? || w.Removing? || e.fd !in Watched(w))
  }

  lemma ThrownIsNotCalledAgain(run: seq<State>, i: nat, c: Call)
    requires IsRun(run) && Takes(run, i, EndCall(true)) && run[i].worker.running == Some(c)
    ensures NotCalledAgain(run[i + 1], c.id, c.fd)
  {
    hide Ids, Fds, Ordered, Chained, Find, Locate, Erase, Mark, ScanAll, Collected;
    RunKeepsInv(run, i);
    OldNode(run[i], c);
    ThrownIsToBeRemoved(run, i, c);
    RisesAbove(run[i].worker.queue, c.id + 1);
  }

  lemma StepCallsNoneAgain(s: State, a: Action, id: nat, fd: int)
    requires Inv(s) && Enabled(s, a) && NotCalledAgain(s, id, fd)
    ensures NotCalledAgain(Step(s, a), id, fd)
  {
    hide Inv, NoCandidate, Watched, Find, Locate, Erase, Mark, ScanAll, Collected;
    if ToBeRemoved(s.worker, fd) {
      StaysToBeRemoved(s, a, fd);
    }
    NoNewCalls(s, a, id, fd);
    SameDescriptor(s, a, id, fd);
    if Removes(s, a, fd) && !ToBeRemoved(Step(s, a).worker, fd) {
      RemovedIsNoCandidate(s, id, fd);
    } else if !ToBeRemoved(s.worker, fd) {
      StaysNoCandidate(s, a, id, fd);
    }
  }

  lemma SameDescriptor(s: State, a: Action, id: nat, fd: int)
    requires Inv(s) && Enabled(s, a) && id < s.nextId && forall e | e in s.callbacks && e.id == id :: e.fd == fd
    ensures forall e | e in Step(s, a).callbacks && e.id == id :: e.fd == fd
    ensures id < Step(s, a).nextId
  {
    hide Inv, Step, Possible;
    StepMovesOn(s, a);
    HistoryGrows(s, a);
  }

  lemma NoNewCalls(s: State, a: Action, id: nat, fd: int)
    requires Inv(s) && Enabled(s, a) && NotCalledAgain(s, id, fd)
    ensures forall c | Outstanding(Step(s, a).worker, c) :: c.id != id
  {
    hide Find, Locate, Erase, Mark, ScanAll, Collected, Inv;
    if a == Collect {
      forall c | c in Collected(s.callbacks, s.worker.ready) ensures c.id != id {
        CollectedExactly(s.callbacks, s.worker.ready, c);
      }
    }
  }

  lemma RemovedIsNoCandidate(s: State, id: nat, fd: int)
    requires Inv(s) && Enabled(s, RemoveNext) && Removes(s, RemoveNext, fd)
    requires forall e | e in s.callbacks && e.id == id :: e.fd == fd
    ensures forall e | e in Step(s, RemoveNext).callbacks && e.id == id :: NoCandidate(Step(s, RemoveNext).worker, e)
  {
    hide Find, Mark, Ids, Fds, Ordered, Watched;
    var i := Find(s.callbacks, fd);
    if i < |s.callbacks| {
      MarkMembers(s.callbacks, i);
      forall e | e in Step(s, RemoveNext).callbacks && e.id == id
        ensures !Selectable(e)
      {
        if e.id != s.callbacks[i].id {
          assert e in s.callbacks && s.callbacks[i] in s.callbacks;
          SameNode(s.callbacks, e, s.callbacks[i]);
        }
      }
    } else {
      forall e | e in s.callbacks && e.id == id ensures false {
        LocateFinds(s.callbacks, e);
      }
    }
  }

  lemma StaysNoCandidate(s: State, a: Action, id: nat, fd: int)
    requires Inv(s) && Enabled(s, a) && id < s.nextId
    requires forall e | e in s.callbacks && e.id == id :: NoCandidate(s.worker, e)
    ensures forall e | e in Step(s, a).callbacks && e.id == id :: NoCandidate(Step(s, a).worker, e)
  {
    hide Find, Locate, Erase, Mark, ScanAll, Collected, Ids, Fds, Ordered, Inv;
    IsOrdered(s);
    if a == ScanList {
      ScannedIsNoCandidate(s, id);
    } else {
      NodesComeFrom(s, a, id);
      WatchesLess(s, a);
    }
  }

  /** Apart from the scan, a node is what it was or pending detachment. */
  lemma NodesComeFrom(s: State, a: Action, id: nat)
    requires Inv(s) && Enabled(s, a) && a != ScanList && id < s.nextId
    ensures forall e' | e' in Step(s, a).callbacks && e'.id == id ::
      exists e :: e in s.callbacks && e.id == id && e.fd == e'.fd && (e' == e || e'.life == PendingDetachment)
  {
    hide Find, Locate, Erase, Mark, ScanAll, Collected, Ids, Fds, Ordered, Inv;
    var cs := s.callbacks;
    IsOrdered(s);
    match a
    case RequestDetach(fd) => MarkComesFrom(cs, Find(cs, fd));
    case WakeUp(other) => EraseComesFrom(cs, Locate(cs, other));
    case WakeUpOther(other) => EraseComesFrom(cs, Locate(cs, other));
    case WorkerDetach(fd) => EraseComesFrom(cs, Find(cs, fd));
    case RemoveNext => MarkComesFrom(cs, Find(cs, s.worker.failed[0]));
    case _ =>
  }

  lemma MarkComesFrom(cs: seq<Entry>, i: nat)
    requires Ordered(cs)
    ensures i < |cs| ==> forall e' | e' in Mark(cs, i) ::
      exists e :: e in cs && e.id == e'.id && e.fd == e'.fd && (e' == e || e'.life == PendingDetachment)
  {
    if i < |cs| {
      MarkMembers(cs, i);
      assert cs[i] in cs;
    }
  }

  lemma EraseComesFrom(cs: seq<Entry>, i: nat)
    requires Ordered(cs)
    ensures i < |cs| ==> forall e | e in Erase(cs, i) :: e in cs
  {
    if i < |cs| { EraseMembers(cs, i); }
  }

  lemma WatchesLess(s: State, a: Action)
    requires Enabled(s, a) && a != ScanList
    ensures var w, w' := s.worker, Step(s, a).worker;
      w'.Scanning? || w'.Removing? || (!w.Scanning? && !w.Removing? && Watched(w') <= Watched(w))
  {
    hide Find, Locate, Erase, Mark, ScanAll, Collected;
    if a == Collect {
      forall c | c in Collected(s.callbacks, s.worker.ready) ensures c.fd in s.worker.ready {
        CollectedExactly(s.callbacks, s.worker.ready, c);
      }
    }
  }

  lemma ScannedIsNoCandidate(s: State, id: nat)
    requires Ordered(s.callbacks) && s.worker.Scanning?
    requires forall e | e in s.callbacks && e.id == id :: NoCandidate(s.worker, e)
    ensures forall e | e in Step(s, ScanList).callbacks && e.id == id :: NoCandidate(Step(s, ScanList).worker, e)
  {
    hide Ids, Fds, Ordered, ScanAll;
    ScanMembers(s.callbacks);
    forall e | e in ScanAll(s.callbacks) && e.id == id
      ensures NoCandidate(Step(s, ScanList).worker, e)
    {
      var b :| b in s.callbacks && e == Scan(b);
      forall d | d in s.callbacks && Selectable(d) ensures d.fd != b.fd {
        if d.fd == b.fd { SameNode(s.callbacks, d, b); }
      }
    }
  }

  lemma {:induction false} NotCalledLater(run: seq<State>, i: nat, k: nat, id: nat, fd: int)
    requires IsRun(run) && i <= k < |run| && NotCalledAgain(run[i], id, fd)
    ensures NotCalledAgain(run[k], id, fd)
    decreases k - i
  {
    hide Step, Possible, Chained, NotCalledAgain, Inv;
    if i < k {
      NotCalledLater(run, i, k - 1, id, fd);
      RunKeepsInv(run, k - 1);
      var a := StepAt(run, k - 1);
      StepCallsNoneAgain(run[k - 1], a, id, fd);
    }
  }

  /** A callback that has thrown is never called again for the same entry. */
  lemma ThrowingIsNotCalledAgain(run: seq<State>, i: nat, c: Call, k: nat)
    requires IsRun(run) && Takes(run, i, EndCall(true)) && run[i].worker.running == Some(c) && i < k < |run|
    ensures forall c' | Outstanding(run[k].worker, c') :: c'.id != c.id
  {
    hide Step, Possible, Chained;
    ThrownIsNotCalledAgain(run, i, c);
    NotCalledLater(run, i + 1, k, c.id, c.fd);
  }

  // --- Everything that is ready is called -----------------------------------------------------------

  /** Every entry of a descriptor that select reports is called before the next scan. */
  lemma {:induction false} ReadyIsCalled(run: seq<State>, i: nat, j: nat, ready: set<int>, notified: bool, e: Entry)
    returns (k: nat)
    requires IsRun(run) && Takes(run, i, Select(ready, notified)) && NextScan(run, i, j)
    requires e in run[i].callbacks && e.fd in ready
    ensures i < k < j && Takes(run, k, StartCall) && run[k + 1].worker.running == Some(Call(e.id, e.fd))
  {
    hide Step, Possible, Chained;
    var c := Call(e.id, e.fd);
    SelectAnswers(run[i], ready, notified);
    k := i + 1;
    while !StartsCall(run[k], StepOf(run, k), c)
      invariant i < k < j && (IsReady(run[k], c) || IsQueued(run[k].worker, c))
      decreases j - k
    {
      StepOfTakes(run, k);
      RunKeepsInv(run, k);
      if IsQueued(run[k].worker, c) {
        StaysQueued(run[k], StepOf(run, k), c);
      } else {
        StaysReady(run[k], StepOf(run, k), c);
      }
      k := k + 1;
    }
    StepOfTakes(run, k);
    CallStarted(run[k], c);
  }

  /** The worker knows what select has answered. */
  lemma SelectAnswers(s: State, ready: set<int>, notified: bool)
    requires Enabled(s, Select(ready, notified))
    ensures Step(s, Select(ready, notified)).worker == Collecting(ready, s.pipe > 0)
    ensures Step(s, Select(ready, notified)).callbacks == s.callbacks
  {
  }

  /** The node of a descriptor that is ready is in the list. */
  ghost predicate IsReady(s: State, c: Call) {
    && s.worker.Collecting? && c.fd in s.worker.ready
    && exists e :: e in s.callbacks && e.id == c.id && e.fd == c.fd
  }

  lemma StaysReady(s: State, a: Action, c: Call)
    requires Inv(s) && Enabled(s, a) && IsReady(s, c)
    ensures IsReady(Step(s, a), c) || IsQueued(Step(s, a).worker, c)
  {
    hide Find, Locate, Erase, Mark, ScanAll, Collected, Ids, Fds, Ordered, Inv;
    var cs := s.callbacks;
    var e :| e in cs && e.id == c.id && e.fd == c.fd;
    IsOrdered(s);
    ReadyIsNotDetached(s, e);
    LocateFinds(cs, e);
    match a
    case Collect => CollectedExactly(cs, s.worker.ready, c);
    case Attach(_, _, _) => assert e in Step(s, a).callbacks;
    case RequestDetach(fd) => MarkKeepsNode(cs, Find(cs, fd), e);
    case WakeUp(other) => EraseKeepsNode(cs, Locate(cs, other), e);
    case WakeUpOther(_) => NoOthers(s);
    case _ =>
  }

  lemma ReadyIsNotDetached(s: State, e: Entry)
    requires Inv(s) && s.worker.Collecting? && e in s.callbacks && e.fd in s.worker.ready
    ensures e.life != Detached
  {
  }

  lemma MarkKeepsNode(cs: seq<Entry>, i: nat, e: Entry)
    requires Ordered(cs) && e in cs
    ensures i < |cs| ==> exists e' :: e' in Mark(cs, i) && e'.id == e.id && e'.fd == e.fd
  {
    if i < |cs| {
      MarkMembers(cs, i);
      assert cs[i] in cs;
      if e.id == cs[i].id {
        SameNode(cs, e, cs[i]);
        assert cs[i].(life := PendingDetachment) in Mark(cs, i);
      } else {
        assert e in Mark(cs, i);
      }
    }
  }

  lemma EraseKeepsNode(cs: seq<Entry>, i: nat, e: Entry)
    requires Ordered(cs) && e in cs
    ensures i < |cs| && cs[i].id != e.id ==> e in Erase(cs, i)
  {
    if i < |cs| { EraseMembers(cs, i); }
  }

  predicate IsQueued(w: Counter, c: Call) { w.Calling? && c in w.queue }

  predicate StartsCall(s: State, a: Action, c: Call) {
    a == StartCall && s.worker.Calling? && s.worker.queue != [] && s.worker.queue[0] == c
  }

  lemma StaysQueued(s: State, a: Action, c: Call)
    requires Enabled(s, a) && IsQueued(s.worker, c)
    ensures StartsCall(s, a, c) || IsQueued(Step(s, a).worker, c)
  {
    hide Find, Locate, Erase, Mark, ScanAll, Collected;
    if a == StartCall {
      var queue := s.worker.queue;
      assert c == queue[0] || c in queue[1..];
    }
  }

  lemma CallStarted(s: State, c: Call)
    requires Enabled(s, StartCall) && StartsCall(s, StartCall, c)
    ensures Step(s, StartCall).worker.Calling? && Step(s, StartCall).worker.running == Some(c)
  {
  }

  // --- The sync pipe --------------------------------------------------------------------------------

  /** The pipe gets a byte for each attach and each detach of a descriptor that is listed, and it is
      read only where the worker drains it: up to 64 bytes, if select found it readable. */
  lemma PipeChanges(s: State, a: Action)
    requires Enabled(s, a)
    ensures a != Drain ==>
      Step(s, a).pipe == s.pipe +
        if a.Attach? then 1
        else if (a.RequestDetach? || a.WorkerDetach?) && Find(s.callbacks, a.fd) < |s.callbacks| then 1 else 0
    ensures a == Drain ==>
      Step(s, a).pipe == if !s.worker.notified then s.pipe else if s.pipe <= 64 then 0 else s.pipe - 64
  {
    hide Find, Locate, Erase, Mark, ScanAll, Collected;
  }

  /** No callback has thrown in this round. */
  predicate NoneFailed(w: Counter) {
    w.Draining? || w.Collecting? || (w.Calling? && w.failed == [])
  }

  function Notified(w: Counter): bool {
    match w
    case Collecting(_, notified) => notified
    case Calling(_, _, _, notified) => notified
    case Draining(notified) => notified
    case _ => false
  }

  lemma StaysUnfailed(s: State, a: Action)
    requires Enabled(s, a) && NoneFailed(s.worker) && a != Drain && a != EndCall(true)
    ensures NoneFailed(Step(s, a).worker) && Notified(Step(s, a).worker) == Notified(s.worker)
  {
    hide Find, Locate, Erase, Mark, ScanAll, Collected;
  }

  /** In a round in which no callback throws, the worker reads the pipe if there was something in it
      when select returned; and it removes nothing. */
  lemma {:induction false} RoundDrains(run: seq<State>, i: nat, j: nat, ready: set<int>, notified: bool)
    returns (k: nat)
    requires IsRun(run) && Takes(run, i, Select(ready, notified)) && NextScan(run, i, j)
    requires forall k | i < k < j :: !Takes(run, k, EndCall(true))
    ensures i < k < j && Takes(run, k, Drain) && run[k].worker == Draining(run[i].pipe > 0)
    ensures forall l | i < l < j :: !run[l].worker.Removing?
  {
    hide Step, Possible, Chained;
    SelectAnswers(run[i], ready, notified);
    k := i + 1;
    while StepOf(run, k) != Drain
      invariant i < k < j && NoneFailed(run[k].worker) && Notified(run[k].worker) == (run[i].pipe > 0)
      invariant forall l | i < l <= k :: !run[l].worker.Removing?
      decreases j - k
    {
      StepOfTakes(run, k);
      StaysUnfailed(run[k], StepOf(run, k));
      k := k + 1;
    }
    StepOfTakes(run, k);
    DrainScans(run[k]);
  }

  lemma DrainScans(s: State)
    requires Enabled(s, Drain)
    ensures s.worker.Draining? && Step(s, Drain).worker.Scanning?
  {
  }

  // --- Waiting again --------------------------------------------------------------------------------

  /** A thread that is woken although its node was not let go sleeps until the next notification. */
  lemma {:induction false} SleepsAgain(run: seq<State>, i: nat, k: nat, id: nat)
    requires IsRun(run) && Takes(run, i, WakeUp(id)) && i < k < |run| && id in run[i + 1].waiters
    requires forall l | i < l < k :: !Takes(run, l, NotifyAll)
    ensures id in run[k].waiters ==> !run[k].waiters[id]
    decreases k
  {
    hide Step, Possible, Chained, Inv;
    RunKeepsInv(run, i);
    if k == i + 1 {
      WaitsAgain(run[i], id);
    } else {
      SleepsAgain(run, i, k - 1, id);
      StepOfTakes(run, k - 1);
      RunKeepsInv(run, k - 1);
      SleepsOn(run[k - 1], StepOf(run, k - 1), id);
    }
  }

  lemma WaitsAgain(s: State, id: nat)
    requires Inv(s) && Enabled(s, WakeUp(id)) && id in Step(s, WakeUp(id)).waiters
    ensures !Step(s, WakeUp(id)).waiters[id]
  {
    hide Erase;
    WaiterIsListed(s, id);
  }

  lemma SleepsOn(s: State, a: Action, id: nat)
    requires Inv(s) && Enabled(s, a) && a != NotifyAll && (id in s.waiters ==> !s.waiters[id])
    ensures id in Step(s, a).waiters ==> !Step(s, a).waiters[id]
  {
    hide Find, Locate, Erase, Mark, ScanAll, Collected, Inv;
  }
}
