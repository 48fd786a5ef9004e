/** The protocol between the worker thread of ConnectionHandler and its clients, as steps that
    can interleave in any way: each region of lib/Spin/Private/ConnectionHandler.cpp that holds
    the lock is one step, and so is every blocking call. */
module WorkerProtocol {
  import opened Bytes
  import opened ConnectionHandler

  /** Where the worker is. `notified` says that select found the sync pipe readable, `erring` is the
      node whose error callback runs. */
  datatype Counter =
    | Scanning
    | Notifying(fds: set<int>)
    | Selecting(fds: set<int>)
    | Collecting(ready: set<int>, notified: bool)
    | Calling(queue: seq<Call>, running: Option<Call>, failed: seq<int>, notified: bool)
    | Removing(failed: seq<int>, erring: Option<nat>)
    | Draining(notified: bool)

  /** `waiters` maps the nodes that a detach waits for to whether the condition woke it since, and
      `others` holds the nodes that further threads wait for at the same time. `dangling` says that
      a thread has followed an iterator to a node that was erased: what happens then is not defined.
      The last two fields are history: the nodes that were erased, and those of them whose
      detach returned on a thread other than the worker. */
  datatype State = State(
    callbacks: seq<Entry>, nextId: nat, pipe: nat, worker: Counter,
    waiters: map<nat, bool>, others: multiset<nat>, dangling: bool, erased: set<nat>, returned: set<nat>)

  const START := State([], 0, 0, Scanning, map[], multiset{}, false, {}, {})

  datatype Action =
    | Attach(fd: int, hasErrorCallback: bool, onWorkerThread: bool)
    | RequestDetach(fd: int)
    | WakeUp(id: nat)
    | WakeUpOther(id: nat)
    | WorkerDetach(fd: int)
    | ScanList
    | NotifyAll
    | Select(ready: set<int>, notified: bool)
    | Collect
    | StartCall
    | EndCall(throws: bool)
    | FinishCalls
    | RemoveNext
    | EndErrorCallback
    | FinishRemoving
    | Drain
    | Idle

  /** A callback of a client is running on the worker thread. */
  predicate InCallback(w: Counter) {
    (w.Calling? && w.running.Some?) || (w.Removing? && w.erring.Some?)
  }

  /** The lock is held from one step of the worker to the next only while it removes entries. */
  predicate LockIsFree(w: Counter) { !w.Removing? }

  predicate NoDetachInFlight(s: State, fd: int) {
    var i := Find(s.callbacks, fd);
    i < |s.callbacks| ==> s.callbacks[i].id !in s.waiters
  }

  /** What the threads can do next. A wake-up is a real or a spurious one. */
  predicate Possible(s: State, a: Action) {
    var w := s.worker;
    match a
    case Attach(_, _, onWorkerThread) => if onWorkerThread then InCallback(w) else LockIsFree(w)
    case RequestDetach(_) => LockIsFree(w)
    case WakeUp(id) => LockIsFree(w) && id in s.waiters
    case WakeUpOther(id) => LockIsFree(w) && id in s.others
    case WorkerDetach(_) => InCallback(w)
    case ScanList => w.Scanning?
    case NotifyAll => w.Notifying?
    case Select(ready, notified) =>
      w.Selecting? && ready <= w.fds && notified == (s.pipe > 0) && (notified || ready != {})
    case Collect => w.Collecting?
    case StartCall => w.Calling? && w.running.None? && w.queue != []
    case EndCall(_) => w.Calling? && w.running.Some?
    case FinishCalls => w.Calling? && w.running.None? && w.queue == []
    case RemoveNext => w.Removing? && w.erring.None? && w.failed != []
    case EndErrorCallback => w.Removing? && w.erring.Some?
    case FinishRemoving => w.Removing? && w.erring.None? && w.failed == []
    case Drain => w.Draining?
    case Idle => true
  }

  /** Clients attach a descriptor only when it is not in the list, and do not detach it twice at
      the same time. */
  predicate Enabled(s: State, a: Action) {
    && Possible(s, a)
    && (a.Attach? ==> Find(s.callbacks, a.fd) == |s.callbacks|)
    && (a.RequestDetach? || a.WorkerDetach? ==> NoDetachInFlight(s, a.fd))
  }

  function Step(s: State, a: Action): State
    requires Possible(s, a)
  {
    var cs := s.callbacks;
    var w := s.worker;
    match a
    case Attach(fd, hasErrorCallback, _) =>
      s.(callbacks := cs + [Entry(s.nextId, fd, hasErrorCallback, PendingAttachment)],
         nextId := s.nextId + 1, pipe := s.pipe + 1)
    case RequestDetach(fd) =>
      var i := Find(cs, fd);
      if i == |cs| then s
      else if cs[i].id in s.waiters then
        s.(callbacks := Mark(cs, i), pipe := s.pipe + 1, others := s.others + multiset{cs[i].id})
      else s.(callbacks := Mark(cs, i), pipe := s.pipe + 1, waiters := s.waiters[cs[i].id := false])
    case WakeUp(id) =>
      var i := Locate(cs, id);
      if i == |cs| then s.(dangling := true)
      else if cs[i].life == Detached then
        s.(callbacks := Erase(cs, i), waiters := s.waiters - {id},
           erased := s.erased + {id}, returned := s.returned + {id})
      else s.(waiters := s.waiters[id := false])
    case WakeUpOther(id) =>
      var i := Locate(cs, id);
      if i == |cs| then s.(dangling := true)
      else if cs[i].life == Detached then
        s.(callbacks := Erase(cs, i), others := s.others - multiset{id},
           erased := s.erased + {id}, returned := s.returned + {id})
      else s
    case WorkerDetach(fd) =>
      var i := Find(cs, fd);
      if i == |cs| then s else s.(callbacks := Erase(cs, i), pipe := s.pipe + 1, erased := s.erased + {cs[i].id})
    case ScanList => s.(callbacks := ScanAll(cs), worker := Notifying(SelectFds(cs)))
    case NotifyAll => s.(waiters := map id | id in s.waiters :: true, worker := Selecting(w.fds))
    case Select(ready, notified) => s.(worker := Collecting(ready, notified))
    case Collect => s.(worker := Calling(Collected(cs, w.ready), None, [], w.notified))
    case StartCall => s.(worker := w.(queue := w.queue[1..], running := Some(w.queue[0])))
    case EndCall(throws) =>
      s.(worker := w.(running := None, failed := w.failed + if throws then [w.running.value.fd] else []))
    case FinishCalls => s.(worker := if w.failed == [] then Draining(w.notified) else Removing(w.failed, None))
    case RemoveNext =>
      var i := Find(cs, w.failed[0]);
      if i == |cs| then s.(worker := Removing(w.failed[1..], None))
      else s.(callbacks := Mark(cs, i), worker := Removing(w.failed[1..], ErrorCallee(cs[i])))
    case EndErrorCallback => s.(worker := Removing(w.failed, None))
    case FinishRemoving => s.(worker := Scanning)
    case Drain => s.(pipe := if w.notified then AfterRead(s.pipe) else s.pipe, worker := Scanning)
    case Idle => s
  }

  function AfterRead(pipe: nat): nat { if pipe < PIPE_READ then 0 else pipe - PIPE_READ }

  // --- The invariant ----------------------------------------------------------------------------

  function Ids(cs: seq<Entry>): set<nat> { set e | e in cs :: e.id }
  function Fds(cs: seq<Entry>): set<int> { set e | e in cs :: e.fd }

  ghost predicate Ordered(cs: seq<Entry>) {
    forall i, j | 0 <= i < j < |cs| :: cs[i].id < cs[j].id && cs[i].fd != cs[j].fd
  }

  /** The list holds the nodes that were attached and not yet erased, in the order of attachment. */
  ghost predicate Listed(s: State) {
    && Ordered(s.callbacks)
    && (forall id :: id in Ids(s.callbacks) <==> 0 <= id < s.nextId && id !in s.erased)
    && (forall id | id in s.erased :: id < s.nextId)
    && s.returned <= s.erased
  }

  /** Calls that were collected and have not ended. */
  ghost predicate Outstanding(w: Counter, c: Call) {
    w.Calling? && (c in w.queue || w.running == Some(c))
  }

  /** The error callback of the node runs. */
  predicate Erring(w: Counter, id: nat) {
    w.Removing? && w.erring == Some(id)
  }

  /** Descriptors the worker may still do something about before its next scan. */
  function Watched(w: Counter): set<int> {
    match w
    case Notifying(fds) => fds
    case Selecting(fds) => fds
    case Collecting(ready, _) => ready
    case Calling(queue, running, failed, _) =>
      (set c | c in queue :: c.fd) + (if running.Some? then {running.value.fd} else {}) + (set fd | fd in failed)
    case Removing(failed, _) => set fd | fd in failed
    case _ => {}
  }

  ghost predicate NothingWatchedIsDetached(s: State) {
    forall e | e in s.callbacks && e.fd in Watched(s.worker) :: e.life != Detached
  }

  predicate Selects(w: Counter) { w.Notifying? || w.Selecting? }

  /** The descriptors given to select are those of the entries that the last scan attached. */
  ghost predicate SelectsTheAttached(s: State) {
    Selects(s.worker) ==>
      && s.worker.fds <= Fds(s.callbacks)
      && forall e | e in s.callbacks ::
        && (e.life == Attached ==> e.fd in s.worker.fds)
        && (e.fd in s.worker.fds ==> e.life == Attached || e.life == PendingDetachment)
  }

  /** A node that a detach waits for is in the list, so that its iterator is valid, and a node
      that is ready to go was not missed by the condition. */
  ghost predicate WaitersAreServed(s: State) {
    && s.waiters.Keys <= Ids(s.callbacks)
    && s.others == multiset{}
    && !s.dangling
    && forall e | e in s.callbacks && e.id in s.waiters ::
      && (e.life == PendingDetachment || e.life == Detached)
      && (e.life == Detached && !s.waiters[e.id] ==> s.worker.Notifying?)
  }

  ghost predicate NoLostWakeUp(s: State) {
    Selects(s.worker) ==> forall e | e in s.callbacks && Pending(e) :: s.pipe > 0
  }

  /** The worker reads the sync pipe only when there is something in it. */
  ghost predicate DrainDoesNotBlock(s: State) {
    match s.worker
    case Collecting(_, notified) => notified ==> s.pipe > 0
    case Calling(_, _, _, notified) => notified ==> s.pipe > 0
    case Draining(notified) => notified ==> s.pipe > 0
    case _ => true
  }

  /** A call is for the node it was collected from, and no call is left, nor an error callback
      running, for a node whose detach returned. */
  ghost predicate CallsAreLive(s: State) {
    && (forall c | Outstanding(s.worker, c) :: c.id < s.nextId && c.id !in s.returned)
    && (forall id: nat | Erring(s.worker, id) :: id < s.nextId && id !in s.returned)
    && (forall c, e | Outstanding(s.worker, c) && e in s.callbacks && e.id == c.id :: e.fd == c.fd)
  }

  predicate Rising(calls: seq<Call>, least: nat)
    decreases |calls|
  {
    calls == [] || (least <= calls[0].id && Rising(calls[1..], calls[0].id + 1))
  }

  /** Calls are made in the order of attachment, each of them once. */
  predicate CallsInOrder(w: Counter) {
    w.Calling? ==> Rising(w.queue, if w.running.Some? then w.running.value.id + 1 else 0)
  }

  ghost predicate Inv(s: State) {
    && Listed(s)
    && SelectsTheAttached(s)
    && NothingWatchedIsDetached(s)
    && CallsAreLive(s)
    && CallsInOrder(s.worker)
    && WaitersAreServed(s)
    && NoLostWakeUp(s)
    && DrainDoesNotBlock(s)
  }

  // --- Changing the list ------------------------------------------------------------------------

  lemma EraseMembers(cs: seq<Entry>, i: nat)
    requires Ordered(cs) && i < |cs|
    ensures Ordered(Erase(cs, i))
    ensures forall e :: e in Erase(cs, i) <==> e in cs && e.id != cs[i].id
    ensures Ids(Erase(cs, i)) == Ids(cs) - {cs[i].id}
    ensures Fds(Erase(cs, i)) == Fds(cs) - {cs[i].fd}
  {
    var r := Erase(cs, i);
    assert forall k | 0 <= k < |r| :: r[k] == cs[if k < i then k else k + 1];
    forall e | e in cs && e.id != cs[i].id
      ensures e in r && e.fd != cs[i].fd
    {
      var k :| 0 <= k < |cs| && cs[k] == e;
      assert r[if k < i then k else k - 1] == e;
    }
  }

  lemma MarkMembers(cs: seq<Entry>, i: nat)
    requires Ordered(cs) && i < |cs|
    ensures Ordered(Mark(cs, i))
    ensures forall e :: e in Mark(cs, i) <==> (e in cs && e.id != cs[i].id) || e == cs[i].(life := PendingDetachment)
    ensures Ids(Mark(cs, i)) == Ids(cs) && Fds(Mark(cs, i)) == Fds(cs)
  {
    var r := Mark(cs, i);
    assert forall k | 0 <= k < |r| :: k != i ==> r[k] == cs[k];
    assert r[i] in r;
    forall e | e in cs
      ensures e.id != cs[i].id ==> e in r
      ensures e.id in Ids(r) && e.fd in Fds(r)
    {
      var k :| 0 <= k < |cs| && cs[k] == e;
      assert r[k] in r;
    }
  }

  lemma ScanMembers(cs: seq<Entry>)
    requires Ordered(cs)
    ensures Ordered(ScanAll(cs))
    ensures forall e | e in cs :: Scan(e) in ScanAll(cs)
    ensures forall e | e in ScanAll(cs) :: exists b :: b in cs && e == Scan(b)
    ensures Ids(ScanAll(cs)) == Ids(cs) && Fds(ScanAll(cs)) == Fds(cs)
  {
    var r := ScanAll(cs);
    forall e | e in cs
      ensures Scan(e) in r
    {
      var k :| 0 <= k < |cs| && cs[k] == e;
      assert r[k] in r;
    }
    forall e | e in r
      ensures exists b :: b in cs && e == Scan(b)
    {
      var k :| 0 <= k < |r| && r[k] == e;
      assert cs[k] in cs;
    }
  }

  lemma SameNode(cs: seq<Entry>, d: Entry, e: Entry)
    requires Ordered(cs) && d in cs && e in cs && (d.id == e.id || d.fd == e.fd)
    ensures d == e
  {
    var i :| 0 <= i < |cs| && cs[i] == d;
    var j :| 0 <= j < |cs| && cs[j] == e;
  }

  lemma LocateFinds(cs: seq<Entry>, e: Entry)
    requires Ordered(cs) && e in cs
    ensures Locate(cs, e.id) < |cs| && cs[Locate(cs, e.id)] == e
    ensures Find(cs, e.fd) < |cs| && cs[Find(cs, e.fd)] == e
  {
    SameNode(cs, cs[Locate(cs, e.id)], e);
    SameNode(cs, cs[Find(cs, e.fd)], e);
  }

  // --- Every step keeps the invariant -----------------------------------------------------------

  lemma AppendMembers(cs: seq<Entry>, e: Entry)
    requires Ordered(cs) && e.fd !in Fds(cs) && forall id | id in Ids(cs) :: id < e.id
    ensures Ordered(cs + [e])
    ensures forall d :: d in cs + [e] <==> d in cs || d == e
    ensures Ids(cs + [e]) == Ids(cs) + {e.id} && Fds(cs + [e]) == Fds(cs) + {e.fd}
  {
    var cs' := cs + [e];
    assert Ordered(cs') by {
      hide Ids, Fds;
      Membership(cs);
      assert forall i | 0 <= i < |cs| :: cs[i] in cs;
    }
    assert e in cs';
    assert forall d :: d in cs' <==> d in cs || d == e;
  }

  lemma AbsentFd(cs: seq<Entry>, fd: int)
    ensures Find(cs, fd) == |cs| <==> fd !in Fds(cs)
  {
    if fd in Fds(cs) {
      var e :| e in cs && e.fd == fd;
      var k :| 0 <= k < |cs| && cs[k] == e;
    } else {
      assert forall k | 0 <= k < |cs| :: cs[k].fd in Fds(cs);
    }
  }

  lemma AttachKeepsInv(s: State, a: Action)
    requires Inv(s) && a.Attach? && Enabled(s, a)
    ensures Inv(Step(s, a))
  {
    hide Find, Ids, Fds, Ordered, Watched;
    AbsentFd(s.callbacks, a.fd);
    var e := Entry(s.nextId, a.fd, a.hasErrorCallback, PendingAttachment);
    AppendMembers(s.callbacks, e);
    Membership(s.callbacks);
  }

  lemma Membership(cs: seq<Entry>)
    ensures forall d | d in cs :: d.id in Ids(cs) && d.fd in Fds(cs)
  {
  }

  lemma OutstandingIsWatched(w: Counter)
    ensures forall c | Outstanding(w, c) :: c.fd in Watched(w)
  {
  }

  lemma EraseKeepsInv(s: State, i: nat, s': State)
    requires Inv(s) && i < |s.callbacks|
    requires s.callbacks[i].life == Detached || InCallback(s.worker)
    requires var id := s.callbacks[i].id;
      && s' == s.(callbacks := Erase(s.callbacks, i), pipe := s'.pipe, waiters := s.waiters - {id},
                  erased := s.erased + {id}, returned := s'.returned)
      && s.pipe <= s'.pipe
      && (s'.returned == s.returned
          || (s'.returned == s.returned + {id} && s.callbacks[i].life == Detached && LockIsFree(s.worker)))
    ensures Inv(s')
  {
    hide Erase, Ids, Fds, Ordered, Watched;
    EraseMembers(s.callbacks, i);
    Membership(s.callbacks);
    OutstandingIsWatched(s.worker);
    assert s.callbacks[i] in s.callbacks;
  }

  lemma MarkKeepsInv(s: State, i: nat, s': State)
    requires Inv(s) && i < |s.callbacks|
    requires s'.callbacks == Mark(s.callbacks, i) && s'.nextId == s.nextId
    requires s'.erased == s.erased && s'.returned == s.returned && s'.others == s.others && s'.dangling == s.dangling
    requires s'.worker == s.worker
      || (s.worker.Removing? && s'.worker.Removing? && Watched(s'.worker) <= Watched(s.worker)
          && s'.worker.erring in {None, Some(s.callbacks[i].id)})
    requires s'.pipe > s.pipe || (s'.pipe == s.pipe && s'.worker.Removing?)
    requires s'.waiters == s.waiters || s'.waiters == s.waiters[s.callbacks[i].id := false]
    ensures Inv(s')
  {
    hide Mark, Ids, Fds, Ordered, Watched;
    MarkMembers(s.callbacks, i);
    Membership(s.callbacks);
    assert s.callbacks[i] in s.callbacks;
  }

  lemma ScanKeepsInv(s: State)
    requires Inv(s) && Enabled(s, ScanList)
    ensures Inv(Step(s, ScanList))
  {
    hide ScanAll;
    ScanMembers(s.callbacks);
  }

  lemma CollectKeepsInv(s: State)
    requires Inv(s) && Enabled(s, Collect)
    ensures Inv(Step(s, Collect))
  {
    hide Ids, Fds, Ordered, Collected;
    var queue := Collected(s.callbacks, s.worker.ready);
    forall c
      ensures c in queue <==> c.fd in s.worker.ready && exists e :: e in s.callbacks && e.id == c.id && e.fd == c.fd
    {
      CollectedExactly(s.callbacks, s.worker.ready, c);
    }
    Membership(s.callbacks);
    forall c, e | c in queue && e in s.callbacks && e.id == c.id
      ensures e.fd == c.fd
    {
      var d :| d in s.callbacks && d.id == c.id && d.fd == c.fd;
      SameNode(s.callbacks, d, e);
    }
    assert forall c | c in queue :: c.id < s.nextId && c.id !in s.returned;
    CollectedInOrder(s.callbacks, s.worker.ready);
    RisesFromLess(queue, if s.callbacks == [] then 0 else s.callbacks[0].id, 0);
  }

  lemma {:induction false} CollectedInOrder(cs: seq<Entry>, ready: set<int>)
    requires Ordered(cs)
    ensures Rising(Collected(cs, ready), if cs == [] then 0 else cs[0].id)
  {
    if cs != [] {
      var tail := cs[1..];
      assert Ordered(tail) && (tail != [] ==> cs[0].id < cs[0 + 1].id == tail[0].id);
      CollectedInOrder(tail, ready);
      var rest := Collected(tail, ready);
      assert tail == [] ==> rest == [];
      RisesFromLess(rest, if tail == [] then 0 else tail[0].id, if tail == [] then 0 else cs[0].id + 1);
      assert rest == [] ==> Rising(rest, cs[0].id + 1);
      RisesFromLess(rest, cs[0].id + 1, cs[0].id);
      assert ([Call(cs[0].id, cs[0].fd)] + rest)[1..] == rest && [] + rest == rest;
    }
  }

  lemma RisesFromLess(calls: seq<Call>, least: nat, less: nat)
    requires Rising(calls, least) && less <= least
    ensures Rising(calls, less)
  {
  }

  lemma {:induction false} RisesAbove(calls: seq<Call>, least: nat)
    requires Rising(calls, least)
    ensures forall c | c in calls :: least <= c.id
    decreases |calls|
  {
    if calls != [] {
      RisesAbove(calls[1..], calls[0].id + 1);
      assert forall c | c in calls :: c == calls[0] || c in calls[1..];
    }
  }

  /** The steps of the worker that leave the list alone. */
  predicate Moves(a: Action) {
    || a.Select? || a.StartCall? || a.EndCall? || a.FinishCalls?
    || a.EndErrorCallback? || a.FinishRemoving? || a.Drain? || a.Idle?
  }

  lemma MoveKeepsInv(s: State, a: Action)
    requires Inv(s) && Moves(a) && Enabled(s, a)
    ensures Inv(Step(s, a))
  {
    hide Ids, Fds, Ordered, Outstanding, Watched, Erring, CallsInOrder;
    MoveNarrows(s, a);
    MoveKeepsOrder(s, a);
  }

  lemma MoveKeepsOrder(s: State, a: Action)
    requires CallsInOrder(s.worker) && Moves(a) && Enabled(s, a)
    ensures CallsInOrder(Step(s, a).worker)
  {
    if a.EndCall? {
      RisesFromLess(s.worker.queue, s.worker.running.value.id + 1, 0);
    }
  }

  lemma MoveNarrows(s: State, a: Action)
    requires Inv(s) && Moves(a) && Enabled(s, a)
    ensures var w, w' := s.worker, Step(s, a).worker;
      && (forall c | Outstanding(w', c) :: Outstanding(w, c))
      && (forall id | Erring(w', id) :: Erring(w, id))
      && (forall fd | fd in Watched(w') :: fd in Watched(w))
  {
    hide Inv;
  }

  lemma StepKeepsInv(s: State, a: Action)
    requires Inv(s) && Enabled(s, a)
    ensures Inv(Step(s, a))
  {
    hide Inv, Find, Locate, Erase, Mark, ScanAll, Collected;
    match a
    case Attach(_, _, _) => AttachKeepsInv(s, a);
    case RequestDetach(fd) =>
      var i := Find(s.callbacks, fd);
      if i < |s.callbacks| { MarkKeepsInv(s, i, Step(s, a)); }
    case WakeUp(id) => WakeUpKeepsInv(s, id);
    case WakeUpOther(_) => NoOthers(s);
    case WorkerDetach(fd) =>
      var i := Find(s.callbacks, fd);
      if i < |s.callbacks| {
        assert s.waiters - {s.callbacks[i].id} == s.waiters;
        EraseKeepsInv(s, i, Step(s, a));
      }
    case ScanList => ScanKeepsInv(s);
    case NotifyAll => NotifyKeepsInv(s);
    case Collect => CollectKeepsInv(s);
    case RemoveNext => RemoveKeepsInv(s);
    case _ => MoveKeepsInv(s, a);
  }

  lemma WaiterIsListed(s: State, id: nat)
    requires Inv(s) && id in s.waiters
    ensures Locate(s.callbacks, id) < |s.callbacks|
  {
    hide Locate, Find;
    assert id in Ids(s.callbacks);
    var e :| e in s.callbacks && e.id == id;
    LocateFinds(s.callbacks, e);
  }

  lemma IsOrdered(s: State)
    requires Inv(s)
    ensures Ordered(s.callbacks)
  {
  }

  lemma NoOthers(s: State)
    requires Inv(s)
    ensures s.others == multiset{} && !s.dangling
  {
  }

  lemma WakeUpKeepsInv(s: State, id: nat)
    requires Inv(s) && Enabled(s, WakeUp(id))
    ensures Inv(Step(s, WakeUp(id)))
  {
    hide Find, Locate, Erase, Ids, Fds, Ordered, Watched;
    var i := Locate(s.callbacks, id);
    WaiterIsListed(s, id);
    if s.callbacks[i].life == Detached {
      EraseKeepsInv(s, i, Step(s, WakeUp(id)));
    } else {
      assert s.callbacks[i] in s.callbacks;
      forall e | e in s.callbacks && e.id == id
        ensures e.life != Detached
      {
        LocateFinds(s.callbacks, e);
      }
    }
  }

  lemma NotifyKeepsInv(s: State)
    requires Inv(s) && Enabled(s, NotifyAll)
    ensures Inv(Step(s, NotifyAll))
  {
    hide Ids, Fds, Ordered;
    assert Step(s, NotifyAll).waiters.Keys == s.waiters.Keys;
  }

  lemma RemoveKeepsInv(s: State)
    requires Inv(s) && Enabled(s, RemoveNext)
    ensures Inv(Step(s, RemoveNext))
  {
    hide Find, Mark, Ids, Fds, Ordered;
    var i := Find(s.callbacks, s.worker.failed[0]);
    var s' := Step(s, RemoveNext);
    assert Watched(s'.worker) <= Watched(s.worker);
    if i < |s.callbacks| {
      MarkKeepsInv(s, i, s');
    }
  }

  // --- Runs -------------------------------------------------------------------------------------

  ghost predicate IsRun(run: seq<State>) {
    && run != []
    && run[0] == START
    && Chained(run)
  }

  ghost predicate Chained(run: seq<State>) {
    forall i | 0 <= i < |run| - 1 :: Follows(run[i], run[i + 1])
  }

  lemma ChainedParts(run: seq<State>)
    requires Chained(run) && |run| > 1
    ensures Chained(run[..|run| - 1]) && Follows(run[|run| - 2], run[|run| - 1])
  {
    hide Follows;
    assert Follows(run[|run| - 2], run[|run| - 2 + 1]);
    var before := run[..|run| - 1];
    forall i | 0 <= i < |before| - 1
      ensures Follows(before[i], before[i + 1])
    {
      assert Follows(run[i], run[i + 1]);
    }
  }

  lemma ChainedConcat(run: seq<State>, more: seq<State>)
    requires Chained(run) && Chained(more) && run != [] && more != [] && Follows(run[|run| - 1], more[0])
    ensures Chained(run + more)
  {
    hide Follows;
    var longer := run + more;
    forall i | 0 <= i < |longer| - 1
      ensures Follows(longer[i], longer[i + 1])
    {
      if i < |run| - 1 {
        assert Follows(run[i], run[i + 1]);
      } else if i >= |run| {
        assert Follows(more[i - |run|], more[i - |run| + 1]);
      }
    }
  }

  lemma ChainedCons(s: State, run: seq<State>)
    requires Chained(run) && run != [] && Follows(s, run[0])
    ensures Chained([s] + run)
  {
    hide Follows;
    var longer := [s] + run;
    forall i | 0 <= i < |longer| - 1
      ensures Follows(longer[i], longer[i + 1])
    {
      if i > 0 { assert Follows(run[i - 1], run[i - 1 + 1]); }
    }
  }

  ghost predicate Follows(s: State, s': State) {
    exists a :: Enabled(s, a) && s' == Step(s, a)
  }

  lemma StepAt(run: seq<State>, i: nat) returns (a: Action)
    requires Chained(run) && i < |run| - 1
    ensures Enabled(run[i], a) && run[i + 1] == Step(run[i], a)
  {
    hide Possible, Step;
    assert Follows(run[i], run[i + 1]);
    a :| Enabled(run[i], a) && run[i + 1] == Step(run[i], a);
  }

  lemma {:induction false} RunKeepsInv(run: seq<State>, i: nat)
    requires IsRun(run) && i < |run|
    ensures Inv(run[i])
    decreases i
  {
    hide Step, Possible, Chained;
    if i > 0 {
      RunKeepsInv(run, i - 1);
      var a := StepAt(run, i - 1);
      StepKeepsInv(run[i - 1], a);
    }
  }
}
