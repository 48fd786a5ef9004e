/** When the protocol goes wrong: exactly which attaches and detaches let a callback be called after
    its detach, or an iterator be followed to a node that was erased; and runs that do it. */
module WorkerDefects {
  import opened Bytes
  import opened ConnectionHandler
  import opened WorkerProtocol
  import opened WorkerSafety
  import opened WorkerLiveness

  // --- The worker goes on to its next scan ------------------------------------------------------

  /** The nodes stay; only the first one of its descriptor can have been scheduled for removal. */
  ghost predicate SameNodes(cs: seq<Entry>, cs': seq<Entry>) {
    && |cs'| == |cs|
    && forall i | 0 <= i < |cs| ::
      && cs'[i].id == cs[i].id
      && cs'[i].fd == cs[i].fd
      && (cs'[i].life == cs[i].life || (cs'[i].life == PendingDetachment && Find(cs, cs[i].fd) == i))
  }

  lemma SamePlaces(cs: seq<Entry>, cs': seq<Entry>)
    requires |cs'| == |cs|
    requires forall i | 0 <= i < |cs| :: cs'[i].id == cs[i].id && cs'[i].fd == cs[i].fd
    ensures forall fd :: Find(cs', fd) == Find(cs, fd)
    ensures forall id :: Locate(cs', id) == Locate(cs, id)
  {
  }

  lemma SameNodesChain(a: seq<Entry>, b: seq<Entry>, c: seq<Entry>)
    requires SameNodes(a, b) && SameNodes(b, c)
    ensures SameNodes(a, c)
  {
    hide Find;
    SamePlaces(a, b);
  }

  /** What the worker alone does not change. */
  ghost predicate Driven(s: State, s': State) {
    && SameNodes(s.callbacks, s'.callbacks)
    && s'.waiters.Keys == s.waiters.Keys
    && s'.others == s.others
    && s'.returned == s.returned
  }

  lemma OnwardDrives(s: State)
    requires s.pipe > 0 && !s.worker.Scanning?
    ensures Enabled(s, Onward(s.worker)) && WorkerSteps(Onward(s.worker)) && Onward(s.worker) != ScanList
    ensures var s' := Step(s, Onward(s.worker)); Driven(s, s') && (s'.pipe > 0 || s'.worker.Scanning?)
  {
    hide Find, Locate, Collected;
  }

  /** The run goes on with one more step. */
  lemma Further(run: seq<State>, a: Action)
    requires run != [] && Chained(run) && Enabled(run[|run| - 1], a)
    ensures Chained(run + [Step(run[|run| - 1], a)])
  {
    hide Possible, Step, Chained;
    var s' := Step(run[|run| - 1], a);
    assert Follows(run[|run| - 1], s');
    ChainedOne(s');
    ChainedConcat(run, [s']);
  }

  /** While there is something in the pipe, the worker reaches its next scan by itself. */
  lemma {:induction false} DriveToScan(s: State) returns (run: seq<State>)
    requires s.pipe > 0 || s.worker.Scanning?
    ensures Continues(s, run) && run[|run| - 1].worker.Scanning? && Driven(s, run[|run| - 1])
    decreases Phase(s.worker), Remaining(s.worker)
  {
    hide Step, Possible, Chained, Driven, Phase, Remaining;
    if s.worker.Scanning? {
      ChainedOne(s);
      assert Driven(s, s) by { Undriven(s); }
      run := [s];
    } else {
      var a := Onward(s.worker);
      OnwardDrives(s);
      StepsLeadToScan(s, a);
      var rest := DriveToScan(Step(s, a));
      assert Follows(s, Step(s, a));
      ChainedCons(s, rest);
      DrivenChain(s, Step(s, a), rest[|rest| - 1]);
      run := [s] + rest;
    }
  }

  lemma Undriven(s: State)
    ensures Driven(s, s)
  {
  }

  lemma DrivenChain(a: State, b: State, c: State)
    requires Driven(a, b) && Driven(b, c)
    ensures Driven(a, c)
  {
    SameNodesChain(a.callbacks, b.callbacks, c.callbacks);
  }

  // --- A descriptor that is attached while it is in the list --------------------------------------

  /** The callback of a node runs although its detach has returned, on a thread other than the
      worker. */
  predicate CallsReturned(s: State, id: nat) {
    id in s.returned && s.worker.Calling? && s.worker.running.Some? && s.worker.running.value.id == id
  }

  ghost predicate GoesOnToCall(s: State, run: seq<State>, id: nat) {
    Continues(s, run) && CallsReturned(run[|run| - 1], id)
  }

  /** Node `id` at `i` is the first one of its descriptor, and the last node of the list is another. */
  ghost predicate Doubled(s: State, i: nat, id: nat, fd: int) {
    var cs := s.callbacks;
    && i < |cs| - 1
    && Find(cs, fd) == i && Locate(cs, id) == i
    && cs[|cs| - 1].fd == fd
  }

  /** A detach waits for the first node, and the other one is to be attached. */
  ghost predicate FirstIsWaitedFor(s: State, i: nat, id: nat, fd: int) {
    && Doubled(s, i, id, fd)
    && id in s.waiters
    && (s.callbacks[i].life == PendingDetachment || s.callbacks[i].life == Detached)
    && s.callbacks[|s.callbacks| - 1].life == PendingAttachment
  }

  lemma {:induction false} FirstIsCollectedFirst(cs: seq<Entry>, fd: int)
    requires Find(cs, fd) < |cs|
    ensures var calls := Collected(cs, {fd}); calls != [] && calls[0] == Call(cs[Find(cs, fd)].id, fd)
  {
    if cs[0].fd != fd {
      assert Find(cs[1..], fd) == Find(cs, fd) - 1 by { FindInTail(cs, fd); }
      FirstIsCollectedFirst(cs[1..], fd);
    }
  }

  lemma FindInTail(cs: seq<Entry>, fd: int)
    requires cs != [] && cs[0].fd != fd
    ensures Find(cs[1..], fd) == Find(cs, fd) - 1
  {
    var i, j := Find(cs, fd), Find(cs[1..], fd);
    assert forall k | 0 <= k < |cs[1..]| :: cs[1..][k] == cs[k + 1];
  }

  lemma ScanLetsFirstGo(s: State, i: nat, id: nat, fd: int) returns (s': State)
    requires s.worker.Scanning? && FirstIsWaitedFor(s, i, id, fd)
    ensures Enabled(s, ScanList) && s' == Step(s, ScanList)
    ensures s'.worker.Notifying? && fd in s'.worker.fds && Doubled(s', i, id, fd) && s'.callbacks[i].life == Detached
    ensures s'.waiters == s.waiters
  {
    s' := Step(s, ScanList);
    hide Find, Locate;
    var cs := s.callbacks;
    SamePlaces(cs, s'.callbacks);
    assert cs[|cs| - 1] in cs;
  }

  lemma OthersReady(s: State, i: nat, id: nat, fd: int) returns (run: seq<State>)
    requires s.worker.Notifying? && fd in s.worker.fds && id in s.waiters
    requires Doubled(s, i, id, fd) && s.callbacks[i].life == Detached
    ensures Continues(s, run)
    ensures var s' := run[|run| - 1];
      && s'.worker.Calling? && s'.worker.running.None? && s'.worker.queue != []
      && s'.worker.queue[0] == Call(id, fd)
      && id in s'.waiters && s'.callbacks == s.callbacks
  {
    hide Chained, Find, Locate, Collected;
    ChainedOne(s);
    Further([s], NotifyAll);
    var s1 := Step(s, NotifyAll);
    var select := Select({fd}, s1.pipe > 0);
    Further([s] + [s1], select);
    var s2 := Step(s1, select);
    Further([s] + [s1] + [s2], Collect);
    run := [s] + [s1] + [s2] + [Step(s2, Collect)];
    FirstIsCollectedFirst(s.callbacks, fd);
  }

  lemma ReturnsAndIsCalled(s: State, i: nat, id: nat, fd: int) returns (run: seq<State>)
    requires s.worker.Calling? && s.worker.running.None? && s.worker.queue != [] && s.worker.queue[0] == Call(id, fd)
    requires id in s.waiters && Locate(s.callbacks, id) == i < |s.callbacks| && s.callbacks[i].life == Detached
    ensures GoesOnToCall(s, run, id)
  {
    hide Chained, Find, Locate, Erase;
    ChainedOne(s);
    Further([s], WakeUp(id));
    var s1 := Step(s, WakeUp(id));
    Further([s] + [s1], StartCall);
    run := [s] + [s1] + [Step(s1, StartCall)];
  }

  /** Two runs, one after the other. */
  lemma Joined(s: State, run: seq<State>, more: seq<State>)
    requires Continues(s, run) && Continues(run[|run| - 1], more)
    ensures Continues(s, run + more[1..])
    ensures (run + more[1..])[|run| + |more| - 2] == more[|more| - 1]
    decreases |more|
  {
    hide Follows, Chained;
    if |more| == 1 {
      assert run + more[1..] == run;
    } else {
      ChainedTail(more);
      ChainedConcat(run, more[1..]);
    }
  }

  lemma ChainedTail(run: seq<State>)
    requires Chained(run) && |run| > 1
    ensures Chained(run[1..]) && Follows(run[0], run[1])
  {
    hide Follows;
    assert Follows(run[0], run[0 + 1]);
    var rest := run[1..];
    forall i | 0 <= i < |rest| - 1 ensures Follows(rest[i], rest[i + 1]) {
      assert Follows(run[i + 1], run[i + 1 + 1]);
    }
  }

  lemma FirstIsCalledAgain(s: State, i: nat, id: nat, fd: int) returns (run: seq<State>)
    requires s.worker.Scanning? && FirstIsWaitedFor(s, i, id, fd)
    ensures GoesOnToCall(s, run, id)
  {
    hide Step, Possible, Chained, Find, Locate, CallsReturned;
    var s1 := ScanLetsFirstGo(s, i, id, fd);
    ChainedOne(s);
    Further([s], ScanList);
    var ready := OthersReady(s1, i, id, fd);
    Joined(s, [s] + [s1], ready);
    var sofar := [s] + [s1] + ready[1..];
    var called := ReturnsAndIsCalled(ready[|ready| - 1], i, id, fd);
    Joined(s, sofar, called);
    run := sofar + called[1..];
  }

  /** After the second attach, once the worker is about to scan. */
  lemma StillDoubled(s: State, s': State, i: nat, id: nat, fd: int)
    requires Doubled(s, i, id, fd) && Driven(s, s') && s.callbacks[|s.callbacks| - 1].life == PendingAttachment
    ensures Doubled(s', i, id, fd) && s'.callbacks[|s'.callbacks| - 1].life == PendingAttachment
    ensures s'.callbacks[i].life == s.callbacks[i].life || s'.callbacks[i].life == PendingDetachment
  {
    hide Find, Locate;
    SamePlaces(s.callbacks, s'.callbacks);
  }

  lemma DetachFirst(s: State, i: nat, id: nat, fd: int) returns (s': State)
    requires s.worker.Scanning? && Doubled(s, i, id, fd) && id !in s.waiters
    requires s.callbacks[|s.callbacks| - 1].life == PendingAttachment
    ensures Enabled(s, RequestDetach(fd)) && s' == Step(s, RequestDetach(fd))
    ensures s'.worker.Scanning? && FirstIsWaitedFor(s', i, id, fd)
  {
    s' := Step(s, RequestDetach(fd));
    hide Find, Locate;
    SamePlaces(s.callbacks, s'.callbacks);
  }

  lemma AttachDoubles(s: State, a: Action)
    requires Inv(s) && a.Attach? && Possible(s, a) && Find(s.callbacks, a.fd) < |s.callbacks|
    ensures var i := Find(s.callbacks, a.fd); var s' := Step(s, a); var id := s.callbacks[i].id;
      && Doubled(s', i, id, a.fd)
      && s'.callbacks[|s'.callbacks| - 1].life == PendingAttachment
      && s'.pipe > 0
      && s'.callbacks[i] == s.callbacks[i] && s'.waiters == s.waiters
      && (id in s.waiters ==> s.callbacks[i].life == PendingDetachment || s.callbacks[i].life == Detached)
  {
    var cs, cs' := s.callbacks, Step(s, a).callbacks;
    var i := Find(cs, a.fd);
    assert forall k | 0 <= k < |cs| :: cs'[k] == cs[k];
    assert cs[i] in cs;
  }

  lemma DoubleAttachBreaks(s: State, a: Action) returns (run: seq<State>)
    requires Inv(s) && a.Attach? && Possible(s, a) && Find(s.callbacks, a.fd) < |s.callbacks|
    ensures GoesOnToCall(Step(s, a), run, s.callbacks[Find(s.callbacks, a.fd)].id)
  {
    hide Step, Possible, Chained, Find, Inv, Driven, CallsReturned;
    var i := Find(s.callbacks, a.fd);
    var id := s.callbacks[i].id;
    AttachDoubles(s, a);
    var s1 := Step(s, a);
    var driven := DriveToScan(s1);
    var s2 := driven[|driven| - 1];
    StillDoubled(s1, s2, i, id, a.fd);
    assert s2.waiters.Keys == s1.waiters.Keys by { KeepsWaiters(s1, s2); }
    var s3 := s2;
    if id !in s2.waiters {
      s3 := DetachFirst(s2, i, id, a.fd);
      Further(driven, RequestDetach(a.fd));
      driven := driven + [s3];
    }
    var called := FirstIsCalledAgain(s3, i, id, a.fd);
    Joined(s1, driven, called);
    run := driven + called[1..];
  }

  lemma KeepsWaiters(s: State, s': State)
    requires Driven(s, s')
    ensures s'.waiters.Keys == s.waiters.Keys && s'.others == s.others
  {
  }

  lemma {:induction false} RunFromKeepsInv(s: State, run: seq<State>, i: nat)
    requires Inv(s) && Continues(s, run) && i < |run|
    ensures Inv(run[i])
    decreases i
  {
    hide Step, Possible, Chained, Inv;
    if i > 0 {
      RunFromKeepsInv(s, run, i - 1);
      var a := StepAt(run, i - 1);
      StepKeepsInv(run[i - 1], a);
    }
  }

  lemma NoneIsCalled(s: State, id: nat)
    requires Inv(s)
    ensures !CallsReturned(s, id)
  {
    assert CallsReturned(s, id) ==> Outstanding(s.worker, s.worker.running.value);
  }

  /** Attaching a descriptor lets a callback be called after its detach has returned on a thread
      other than the worker, in some continuation, exactly when the descriptor is in the list. */
  lemma AttachExact(s: State, a: Action)
    requires Inv(s) && a.Attach? && Possible(s, a)
    ensures (exists run, id :: GoesOnToCall(Step(s, a), run, id)) <==> Find(s.callbacks, a.fd) < |s.callbacks|
  {
    hide Step, Possible, Inv, Find, CallsReturned, Chained;
    if Find(s.callbacks, a.fd) < |s.callbacks| {
      var run := DoubleAttachBreaks(s, a);
    } else {
      StepKeepsInv(s, a);
      forall run, id ensures !GoesOnToCall(Step(s, a), run, id) {
        if Continues(Step(s, a), run) {
          RunFromKeepsInv(Step(s, a), run, |run| - 1);
          NoneIsCalled(run[|run| - 1], id);
        }
      }
    }
  }

  // --- A node that two threads detach -------------------------------------------------------------

  /** Some thread follows its iterator to a node that was erased. */
  ghost predicate GoesOnToDangle(s: State, run: seq<State>) {
    Continues(s, run) && run[|run| - 1].dangling
  }

  /** Two threads wait for the same node. */
  ghost predicate WaitedForTwice(s: State, id: nat) {
    && id in s.waiters && id in s.others
    && var i := Locate(s.callbacks, id);
      && i < |s.callbacks|
      && (s.callbacks[i].life == PendingDetachment || s.callbacks[i].life == Detached)
  }

  lemma DrivenIsWaitedFor(s: State, s': State, id: nat)
    requires WaitedForTwice(s, id) && Driven(s, s')
    ensures WaitedForTwice(s', id)
  {
    hide Find, Locate;
    SamePlaces(s.callbacks, s'.callbacks);
  }

  lemma BothErase(s: State, id: nat) returns (run: seq<State>)
    requires s.worker.Scanning? && WaitedForTwice(s, id)
    requires forall i, j | 0 <= i < j < |s.callbacks| :: s.callbacks[i].id != s.callbacks[j].id
    ensures GoesOnToDangle(s, run)
  {
    hide Chained, Find, Locate;
    var i := Locate(s.callbacks, id);
    ChainedOne(s);
    Further([s], ScanList);
    var s1 := Step(s, ScanList);
    SamePlaces(s.callbacks, s1.callbacks);
    Further([s] + [s1], WakeUp(id));
    var s2 := Step(s1, WakeUp(id));
    ErasedIsGone(s1.callbacks, i);
    Further([s] + [s1] + [s2], WakeUpOther(id));
    run := [s] + [s1] + [s2] + [Step(s2, WakeUpOther(id))];
  }

  lemma ErasedIsGone(cs: seq<Entry>, i: nat)
    requires i < |cs| && forall i, j | 0 <= i < j < |cs| :: cs[i].id != cs[j].id
    ensures Locate(Erase(cs, i), cs[i].id) == |cs| - 1
  {
    assert forall k | 0 <= k < |cs| - 1 :: Erase(cs, i)[k] == cs[if k < i then k else k + 1];
  }

  lemma DistinctIds(s: State, s': State)
    requires Ordered(s.callbacks) && Driven(s, s')
    ensures forall i, j | 0 <= i < j < |s'.callbacks| :: s'.callbacks[i].id != s'.callbacks[j].id
  {
  }

  lemma RequestDoubles(s: State, fd: int)
    requires Inv(s) && Possible(s, RequestDetach(fd)) && !NoDetachInFlight(s, fd)
    ensures var s' := Step(s, RequestDetach(fd));
      s'.pipe > 0 && WaitedForTwice(s', s.callbacks[Find(s.callbacks, fd)].id)
    ensures Ordered(Step(s, RequestDetach(fd)).callbacks)
  {
    hide Find, Locate;
    var i := Find(s.callbacks, fd);
    MarkMembers(s.callbacks, i);
    var s' := Step(s, RequestDetach(fd));
    assert s'.callbacks[i] in s'.callbacks;
    LocateFinds(s'.callbacks, s'.callbacks[i]);
  }

  lemma DetachedTwice(s: State, fd: int) returns (run: seq<State>)
    requires Inv(s) && Possible(s, RequestDetach(fd)) && !NoDetachInFlight(s, fd)
    ensures GoesOnToDangle(Step(s, RequestDetach(fd)), run)
  {
    hide Step, Possible, Chained, Find, Inv, Driven, WaitedForTwice, Ordered;
    RequestDoubles(s, fd);
    var s1 := Step(s, RequestDetach(fd));
    var id := s.callbacks[Find(s.callbacks, fd)].id;
    var driven := DriveToScan(s1);
    var s2 := driven[|driven| - 1];
    DrivenIsWaitedFor(s1, s2, id);
    DistinctIds(s1, s2);
    var erased := BothErase(s2, id);
    Joined(s1, driven, erased);
    run := driven + erased[1..];
  }

  /** A waiter whose node is gone follows its iterator when it gets the lock. */
  lemma GoneIsFollowed(s: State, id: nat) returns (run: seq<State>)
    requires s.pipe > 0 && id in s.waiters && Locate(s.callbacks, id) == |s.callbacks|
    ensures GoesOnToDangle(s, run)
  {
    hide Step, Possible, Chained, Find, Locate, Driven;
    run := DriveToScan(s);
    var s1 := run[|run| - 1];
    assert id in s1.waiters && Locate(s1.callbacks, id) == |s1.callbacks| by { StillGone(s, s1, id); }
    FollowsIterator(s1, id);
    Further(run, WakeUp(id));
    run := run + [Step(s1, WakeUp(id))];
  }

  lemma StillGone(s: State, s': State, id: nat)
    requires Driven(s, s') && id in s.waiters && Locate(s.callbacks, id) == |s.callbacks|
    ensures id in s'.waiters && Locate(s'.callbacks, id) == |s'.callbacks|
  {
    hide Locate, Find;
    SamePlaces(s.callbacks, s'.callbacks);
  }

  lemma FollowsIterator(s: State, id: nat)
    requires s.worker.Scanning? && id in s.waiters && Locate(s.callbacks, id) == |s.callbacks|
    ensures Enabled(s, WakeUp(id)) && Step(s, WakeUp(id)).dangling
  {
  }

  lemma WorkerTakesNode(s: State, fd: int)
    requires Inv(s) && Possible(s, WorkerDetach(fd)) && !NoDetachInFlight(s, fd)
    ensures Find(s.callbacks, fd) < |s.callbacks|
    ensures var s' := Step(s, WorkerDetach(fd)); var id := s.callbacks[Find(s.callbacks, fd)].id;
      s'.pipe > 0 && id in s'.waiters && Locate(s'.callbacks, id) == |s'.callbacks|
  {
    hide Find, Locate;
    ErasedIsGone(s.callbacks, Find(s.callbacks, fd));
  }

  /** Detaching a descriptor, on any thread, lets a thread follow an iterator to a node that was
      erased, in some continuation, exactly when a detach of its node is waiting. */
  lemma DetachExact(s: State, a: Action)
    requires Inv(s) && (a.RequestDetach? || a.WorkerDetach?) && Possible(s, a)
    ensures (exists run :: GoesOnToDangle(Step(s, a), run)) <==> !NoDetachInFlight(s, a.fd)
  {
    hide Step, Possible, Inv, NoDetachInFlight, Chained, Locate;
    if NoDetachInFlight(s, a.fd) {
      StepKeepsInv(s, a);
      forall run ensures !GoesOnToDangle(Step(s, a), run) {
        if Continues(Step(s, a), run) {
          RunFromKeepsInv(Step(s, a), run, |run| - 1);
          NoOthers(run[|run| - 1]);
        }
      }
    } else if a.RequestDetach? {
      var run := DetachedTwice(s, a.fd);
    } else {
      WorkerTakesNode(s, a.fd);
      var run := GoneIsFollowed(Step(s, a), s.callbacks[Find(s.callbacks, a.fd)].id);
    }
  }

  // --- Runs from the start ----------------------------------------------------------------------

  function Two(life: Life): seq<Entry> {
    [Entry(0, 1, false, life), Entry(1, 2, false, life)]
  }

  /** Two entries were attached, and the worker is on its way. */
  function Round(life: Life, w: Counter): State {
    START.(callbacks := Two(life), nextId := 2, pipe := 2, worker := w)
  }

  const FIRST := Call(0, 1)
  const SECOND := Call(1, 2)
  const ONE := START.(callbacks := [Entry(0, 1, false, PendingAttachment)], nextId := 1, pipe := 1)
  const CALLING_FIRST := Round(Attached, Calling([SECOND], Some(FIRST), [], true))

  /** The step is one that clients who keep to the rules and the worker can take. */
  ghost predicate Goes(s: State, a: Action, s': State) {
    Enabled(s, a) && s' == Step(s, a)
  }

  lemma AttachBoth()
    ensures Goes(START, Attach(1, false, false), ONE)
    ensures Goes(ONE, Attach(2, false, false), Round(PendingAttachment, Scanning))
  {
  }

  lemma ScanBoth()
    ensures Goes(Round(PendingAttachment, Scanning), ScanList, Round(Attached, Notifying({1, 2})))
  {
    var cs := Two(PendingAttachment);
    assert cs[0] in cs && cs[1] in cs;
    assert SelectFds(cs) == {1, 2};
    assert ScanAll(cs) == Two(Attached);
  }

  lemma SelectBoth()
    ensures Goes(Round(Attached, Notifying({1, 2})), NotifyAll, Round(Attached, Selecting({1, 2})))
    ensures Goes(Round(Attached, Selecting({1, 2})), Select({1, 2}, true), Round(Attached, Collecting({1, 2}, true)))
  {
    var none: map<nat, bool> := map[];
    assert (map id | id in none :: true) == none;
  }

  lemma CallFirst()
    ensures Goes(Round(Attached, Collecting({1, 2}, true)), Collect,
                 Round(Attached, Calling([FIRST, SECOND], None, [], true)))
    ensures Goes(Round(Attached, Calling([FIRST, SECOND], None, [], true)), StartCall, CALLING_FIRST)
  {
    var cs := Two(Attached);
    assert cs[1..] == [cs[1]] && cs[1..][1..] == [];
    assert Collected(cs, {1, 2}) == [FIRST, SECOND];
    assert [FIRST, SECOND][1..] == [SECOND];
  }

  lemma Extend(run: seq<State>, a: Action, s': State) returns (longer: seq<State>)
    requires IsRun(run) && Goes(run[|run| - 1], a, s')
    ensures longer == run + [s'] && IsRun(longer)
  {
    hide Possible, Step, Chained;
    Further(run, a);
    longer := run + [s'];
  }

  lemma Starts()
    ensures IsRun([START])
  {
    ChainedOne(START);
  }

  /** A run in which both entries are ready in the same round, and the callback of the first one
      runs. */
  lemma CallingFirstIsReachable() returns (run: seq<State>)
    ensures IsRun(run) && run[|run| - 1] == CALLING_FIRST
  {
    hide IsRun, Goes, Round, START, ONE, CALLING_FIRST;
    Starts();
    AttachBoth();
    ScanBoth();
    SelectBoth();
    CallFirst();
    run := Extend([START], Attach(1, false, false), ONE);
    run := Extend(run, Attach(2, false, false), Round(PendingAttachment, Scanning));
    run := Extend(run, ScanList, Round(Attached, Notifying({1, 2})));
    run := Extend(run, NotifyAll, Round(Attached, Selecting({1, 2})));
    run := Extend(run, Select({1, 2}, true), Round(Attached, Collecting({1, 2}, true)));
    run := Extend(run, Collect, Round(Attached, Calling([FIRST, SECOND], None, [], true)));
    run := Extend(run, StartCall, CALLING_FIRST);
  }

  lemma FirstDetachesSecond()
    ensures Enabled(CALLING_FIRST, WorkerDetach(2)) && FinishesDetach(CALLING_FIRST, WorkerDetach(2), 1)
    ensures Queued(Step(CALLING_FIRST, WorkerDetach(2)).worker, 1)
  {
    assert Find(CALLING_FIRST.callbacks, 2) == 1;
    assert SECOND in CALLING_FIRST.worker.queue;
  }

  /** A run in which a detach on the worker thread finishes, and the callback of its entry is
      started after that. */
  lemma CalledAfterDetach() returns (run: seq<State>, k: nat)
    ensures IsRun(run) && k + 2 < |run|
    ensures FinishesDetachIn(run[k], run[k + 1], 1) && EndsByCalling(run, 1)
  {
    hide Step, Chained, Possible, CALLING_FIRST, Queued, FinishesDetach;
    var before := CallingFirstIsReachable();
    FirstDetachesSecond();
    var s' := Step(CALLING_FIRST, WorkerDetach(2));
    var after := QueuedIsCalled(s', 1);
    assert Follows(CALLING_FIRST, s');
    ChainedConcat(before, after);
    run := before + after;
    k := |before| - 1;
  }

  lemma OneIsReachable() returns (run: seq<State>)
    ensures IsRun(run) && run[|run| - 1] == ONE && Inv(ONE)
  {
    hide IsRun, Goes, ONE, Inv;
    Starts();
    AttachBoth();
    run := Extend([START], Attach(1, false, false), ONE);
    RunKeepsInv(run, |run| - 1);
  }

  /** A run after which the descriptor is attached a second time, and how it goes on: the callback
      of the first entry is called after its detach has returned. */
  lemma AttachedTwice() returns (run: seq<State>, more: seq<State>)
    ensures IsRun(run) && Possible(run[|run| - 1], Attach(1, false, false))
    ensures GoesOnToCall(Step(run[|run| - 1], Attach(1, false, false)), more, 0)
  {
    hide Step, Inv, GoesOnToCall, IsRun;
    run := OneIsReachable();
    assert Find(ONE.callbacks, 1) == 0;
    more := DoubleAttachBreaks(ONE, Attach(1, false, false));
  }

  /** A run after which the descriptor is detached by a second thread, and how it goes on. */
  lemma DetachedByTwo() returns (run: seq<State>, more: seq<State>)
    ensures IsRun(run) && Possible(run[|run| - 1], RequestDetach(1))
    ensures GoesOnToDangle(Step(run[|run| - 1], RequestDetach(1)), more)
  {
    hide Inv, GoesOnToDangle, IsRun;
    run := OneIsReachable();
    assert Find(ONE.callbacks, 1) == 0;
    var waiting := Step(ONE, RequestDetach(1));
    assert waiting.callbacks == [Entry(0, 1, false, PendingDetachment)] && 0 in waiting.waiters;
    assert Goes(ONE, RequestDetach(1), waiting);
    run := Extend(run, RequestDetach(1), waiting);
    RunKeepsInv(run, |run| - 1);
    assert Find(waiting.callbacks, 1) == 0;
    more := DetachedTwice(waiting, 1);
  }
}
