/** What the protocol guarantees in every run: no callback after detach, and the life of an entry. */
module WorkerSafety {
  import opened Bytes
  import opened ConnectionHandler
  import opened WorkerProtocol

  // --- No callback after detach ----------------------------------------------------------------

  lemma HistoryGrows(s: State, a: Action)
    requires Enabled(s, a)
    ensures var s' := Step(s, a); s.erased <= s'.erased && s.returned <= s'.returned && s.nextId <= s'.nextId
  {
    hide Find, Locate, Erase, Mark, ScanAll, Collected;
  }

  lemma LeavingWaitersReturns(s: State, a: Action, id: nat)
    requires Inv(s) && Enabled(s, a) && id in s.waiters && id !in Step(s, a).waiters
    ensures a == WakeUp(id) && id in Step(s, a).returned
  {
    hide Find, Locate, Erase, Mark, ScanAll, Collected, Inv;
  }

  lemma {:induction false} StaysReturned(run: seq<State>, i: nat, j: nat, id: nat)
    requires IsRun(run) && i <= j < |run| && id in run[i].returned
    ensures id in run[j].returned
    decreases j - i
  {
    hide Step, Possible, Chained;
    if i < j {
      StaysReturned(run, i, j - 1, id);
      var a := StepAt(run, j - 1);
      HistoryGrows(run[j - 1], a);
    }
  }

  /** Once detach has returned on a thread other than the worker, the callback of its entry
      neither runs nor waits to be called, its error callback does not run, and the entry never
      comes back, so that neither is ever called again. */
  lemma NoCallbackAfterDetach(run: seq<State>, i: nat, j: nat, id: nat)
    requires IsRun(run) && i < j < |run|
    requires id in run[i].waiters && id !in run[i + 1].waiters
    ensures forall c | Outstanding(run[j].worker, c) :: c.id != id
    ensures !Erring(run[j].worker, id)
    ensures id !in Ids(run[j].callbacks)
  {
    hide Ids, Outstanding, Step, Possible, Ordered;
    RunKeepsInv(run, i);
    RunKeepsInv(run, j);
    var a := StepAt(run, i);
    LeavingWaitersReturns(run[i], a, id);
    StaysReturned(run, i + 1, j, id);
  }

  // --- Wake-ups -------------------------------------------------------------------------------------

  /** While the worker is on its way into select, or in it, an entry that waits to be attached or
      detached has left a byte in the sync pipe, so that select returns; and the worker never reads
      the pipe when it is empty. A node that is ready to go has been, or is about to be, announced. */
  lemma NoWakeUpIsLost(run: seq<State>, i: nat)
    requires IsRun(run) && i < |run|
    ensures Selects(run[i].worker) && (exists e :: e in run[i].callbacks && Pending(e)) ==> run[i].pipe > 0
    ensures run[i].worker.Draining? && run[i].worker.notified ==> run[i].pipe > 0
    ensures forall e | e in run[i].callbacks && e.id in run[i].waiters && e.life == Detached ::
      run[i].waiters[e.id] || run[i].worker.Notifying?
  {
    hide IsRun, Pending, Ordered;
    RunKeepsInv(run, i);
  }

  // --- The life of an entry --------------------------------------------------------------------

  /** How far an entry has come; detaching it again does not take it back. */
  function Rank(life: Life): nat {
    match life
    case PendingAttachment => 0
    case Attached => 1
    case PendingDetachment => 2
    case Detached => 2
  }

  /** The same node, with the descriptor and the callbacks it was attached with. */
  predicate SameClient(e: Entry, e': Entry) {
    e.id == e'.id && e.fd == e'.fd && e.hasErrorCallback == e'.hasErrorCallback
  }

  ghost predicate SameOrLater(cs: seq<Entry>, cs': seq<Entry>, bound: nat) {
    forall e' | e' in cs' && e'.id < bound ::
      exists e :: e in cs && SameClient(e, e') && Rank(e.life) <= Rank(e'.life)
  }

  lemma StepMovesOn(s: State, a: Action)
    requires Inv(s) && Enabled(s, a)
    ensures SameOrLater(s.callbacks, Step(s, a).callbacks, s.nextId)
  {
    hide Find, Locate, Erase, Mark, ScanAll, Collected, Ids, Fds, Ordered;
    var cs := s.callbacks;
    match a
    case Attach(fd, _, _) => assert forall e | e in Step(s, a).callbacks :: e in cs || e.id == s.nextId;
    case RequestDetach(fd) => MarkMovesOn(s, Find(cs, fd));
    case WakeUp(id) => EraseMovesOn(s, Locate(cs, id));
    case WorkerDetach(fd) => EraseMovesOn(s, Find(cs, fd));
    case ScanList => ScanMembers(cs);
    case RemoveNext => MarkMovesOn(s, Find(cs, s.worker.failed[0]));
    case _ =>
  }

  lemma MarkMovesOn(s: State, i: nat)
    requires Inv(s)
    ensures i < |s.callbacks| ==> SameOrLater(s.callbacks, Mark(s.callbacks, i), s.nextId)
  {
    if i < |s.callbacks| {
      MarkMembers(s.callbacks, i);
      assert s.callbacks[i] in s.callbacks;
    }
  }

  lemma EraseMovesOn(s: State, i: nat)
    requires Inv(s)
    ensures i < |s.callbacks| ==> SameOrLater(s.callbacks, Erase(s.callbacks, i), s.nextId)
  {
    if i < |s.callbacks| { EraseMembers(s.callbacks, i); }
  }

  lemma Chain(a: seq<Entry>, b: seq<Entry>, c: seq<Entry>, m: nat, n: nat)
    requires SameOrLater(a, b, m) && SameOrLater(b, c, n) && m <= n
    ensures SameOrLater(a, c, m)
  {
    forall e'' | e'' in c && e''.id < m
      ensures exists e :: e in a && e.id == e''.id && e.fd == e''.fd && Rank(e.life) <= Rank(e''.life)
    {
      var e' :| e' in b && e'.id == e''.id && e'.fd == e''.fd && Rank(e'.life) <= Rank(e''.life);
      var e :| e in a && e.id == e'.id && e.fd == e'.fd && Rank(e.life) <= Rank(e'.life);
    }
  }

  lemma {:induction false} RunMovesOn(run: seq<State>, i: nat, j: nat)
    requires IsRun(run) && i <= j < |run|
    ensures SameOrLater(run[i].callbacks, run[j].callbacks, run[i].nextId) && run[i].nextId <= run[j].nextId
    decreases j - i
  {
    hide SameOrLater, Step, Possible, Chained, Inv;
    if i == j {
      SameAsBefore(run[i].callbacks, run[i].nextId);
    } else {
      RunMovesOn(run, i, j - 1);
      RunKeepsInv(run, j - 1);
      var a := StepAt(run, j - 1);
      HistoryGrows(run[j - 1], a);
      StepMovesOn(run[j - 1], a);
      Chain(run[i].callbacks, run[j - 1].callbacks, run[j].callbacks, run[i].nextId, run[j - 1].nextId);
    }
  }

  lemma SameAsBefore(cs: seq<Entry>, bound: nat)
    ensures SameOrLater(cs, cs, bound)
  {
  }

  /** An entry that has left `attached` and `pending attachment` never returns to them, one that
      is attached is never pending attachment again, and one that was erased stays away. */
  lemma LifeCycle(run: seq<State>, i: nat, j: nat, id: nat)
    requires IsRun(run) && i <= j < |run| && id < run[i].nextId
    ensures id !in Ids(run[i].callbacks) ==> id !in Ids(run[j].callbacks)
    ensures forall e, e' | e in run[i].callbacks && e' in run[j].callbacks && e.id == e'.id == id ::
      SameClient(e, e') && Rank(e.life) <= Rank(e'.life)
  {
    hide IsRun;
    RunMovesOn(run, i, j);
    RunKeepsInv(run, i);
    forall e' | e' in run[j].callbacks && e'.id == id
      ensures id in Ids(run[i].callbacks)
      ensures forall e | e in run[i].callbacks && e.id == id :: SameClient(e, e') && Rank(e.life) <= Rank(e'.life)
    {
      var d :| d in run[i].callbacks && SameClient(d, e') && Rank(d.life) <= Rank(e'.life);
      forall e | e in run[i].callbacks && e.id == id
        ensures e == d
      {
        SameNode(run[i].callbacks, d, e);
      }
    }
  }

  // --- The list and the selected descriptors ------------------------------------------------------

  /** `a` is the step with which a detach of the node `id` takes it out of the list. */
  predicate FinishesDetach(s: State, a: Action, id: nat) {
    match a
    case WakeUp(waiting) =>
      waiting == id && var i := Locate(s.callbacks, id); i < |s.callbacks| && s.callbacks[i].life == Detached
    case WakeUpOther(other) =>
      other == id && var i := Locate(s.callbacks, id); i < |s.callbacks| && s.callbacks[i].life == Detached
    case WorkerDetach(fd) => var i := Find(s.callbacks, fd); i < |s.callbacks| && s.callbacks[i].id == id
    case _ => false
  }

  ghost predicate FinishesDetachIn(s: State, s': State, id: nat) {
    exists a :: Enabled(s, a) && s' == Step(s, a) && FinishesDetach(s, a, id)
  }

  lemma ErasedByDetach(s: State, a: Action, id: nat)
    requires Enabled(s, a)
    ensures id in Step(s, a).erased <==> id in s.erased || FinishesDetach(s, a, id)
  {
    hide Find, Locate, Erase, Mark, ScanAll, Collected;
  }

  lemma {:induction false} ErasedExactly(run: seq<State>, j: nat, id: nat)
    requires IsRun(run) && j < |run|
    ensures id in run[j].erased <==> exists k | 0 <= k < j :: FinishesDetachIn(run[k], run[k + 1], id)
  {
    hide FinishesDetachIn, Step, Possible, Chained;
    if j > 0 {
      ErasedExactly(run, j - 1, id);
      var a := StepAt(run, j - 1);
      ErasedByDetach(run[j - 1], a, id);
      RunKeepsInv(run, j - 1);
      FinishingErases(run[j - 1], run[j - 1 + 1], a, id);
    }
  }

  lemma FinishingErases(s: State, s': State, a: Action, id: nat)
    requires Enabled(s, a) && s' == Step(s, a)
    ensures FinishesDetach(s, a, id) ==> FinishesDetachIn(s, s', id)
    ensures FinishesDetachIn(s, s', id) ==> id in s'.erased
  {
    hide FinishesDetach, Step, Possible;
    if FinishesDetachIn(s, s', id) {
      var b :| Enabled(s, b) && s' == Step(s, b) && FinishesDetach(s, b, id);
      ErasedByDetach(s, b, id);
    }
  }

  /** The list always holds the entries that were attached, in that order, without those whose
      detach has finished. */
  lemma ListIsAttachedMinusDetached(run: seq<State>, j: nat)
    requires IsRun(run) && j < |run|
    ensures Ordered(run[j].callbacks)
    ensures forall id :: id in Ids(run[j].callbacks) <==>
      0 <= id < run[j].nextId && !exists k | 0 <= k < j :: FinishesDetachIn(run[k], run[k + 1], id)
  {
    hide FinishesDetachIn, IsRun, Ordered, Ids;
    RunKeepsInv(run, j);
    forall id: nat
      ensures id in run[j].erased <==> exists k | 0 <= k < j :: FinishesDetachIn(run[k], run[k + 1], id)
    {
      ErasedExactly(run, j, id);
    }
  }

  /** What select gets are the descriptors of the entries that the last scan left attached; none
      of them has gone meanwhile. */
  lemma {:induction false} SelectsTheLastScan(run: seq<State>, i: nat, j: nat)
    requires IsRun(run) && i < j < |run| && run[i].worker.Scanning?
    requires forall k | i < k <= j :: Selects(run[k].worker)
    ensures Selects(run[j].worker)
    ensures run[j].worker.fds == set e | e in run[i + 1].callbacks && e.life == Attached :: e.fd
    ensures run[j].worker.fds <= Fds(run[j].callbacks)
    decreases j
  {
    hide Step, Possible, Chained, Fds;
    RunKeepsInv(run, j);
    var a := StepAt(run, j - 1);
    if j == i + 1 {
      ScansTheAttached(run[i], a);
    } else {
      SelectsTheLastScan(run, i, j - 1);
      KeepsFds(run[j - 1], a);
    }
  }

  lemma KeepsFds(s: State, a: Action)
    requires Enabled(s, a) && Selects(s.worker) && Selects(Step(s, a).worker)
    ensures Step(s, a).worker.fds == s.worker.fds
  {
    hide Find, Locate, Erase, Mark, ScanAll, Collected;
  }

  lemma ScansTheAttached(s: State, a: Action)
    requires Enabled(s, a) && s.worker.Scanning? && Selects(Step(s, a).worker)
    ensures Step(s, a).worker.fds == set e | e in Step(s, a).callbacks && e.life == Attached :: e.fd
  {
    assert a == ScanList;
    var cs := s.callbacks;
    var cs' := ScanAll(cs);
    forall e | e in cs
      ensures Scan(e) in cs'
    {
      var k :| 0 <= k < |cs| && cs[k] == e;
      assert cs'[k] in cs';
    }
    forall e' | e' in cs' && e'.life == Attached
      ensures e'.fd in SelectFds(cs)
    {
      var k :| 0 <= k < |cs| && cs'[k] == e';
      assert cs[k] in cs;
    }
    forall fd | fd in SelectFds(cs)
      ensures exists e :: e in cs' && e.life == Attached && e.fd == fd
    {
      var e :| e in cs && Selectable(e) && e.fd == fd;
      assert Scan(e) in cs';
    }
  }

  // --- Detaching on the worker thread ------------------------------------------------------------

  /** `run` goes on from `s`. */
  ghost predicate Continues(s: State, run: seq<State>) {
    && run != []
    && run[0] == s
    && Chained(run)
  }

  predicate Queued(w: Counter, id: nat) { w.Calling? && exists c | c in w.queue :: c.id == id }

  /** The last step of the run starts the callback of `id`. */
  ghost predicate EndsByCalling(run: seq<State>, id: nat) {
    && |run| > 1
    && (run[|run| - 2].worker.Calling? && run[|run| - 2].worker.running.None?)
    && var w := run[|run| - 1].worker; w.Calling? && w.running.Some? && w.running.value.id == id
  }

  ghost predicate Quiet(s: State, id: nat) {
    && Inv(s)
    && id in s.erased
    && !Queued(s.worker, id)
  }

  lemma QuietStays(s: State, a: Action, id: nat)
    requires Quiet(s, id) && Enabled(s, a)
    ensures Quiet(Step(s, a), id)
    ensures a == StartCall ==> Step(s, a).worker.running.value.id != id
  {
    hide Find, Locate, Erase, Mark, ScanAll, Collected, Inv;
    StepKeepsInv(s, a);
    HistoryGrows(s, a);
    if a == Collect {
      NotCollected(s, id);
    }
  }

  lemma NotCollected(s: State, id: nat)
    requires Inv(s) && id in s.erased && s.worker.Collecting?
    ensures forall c | c in Collected(s.callbacks, s.worker.ready) :: c.id != id
  {
    hide Ordered;
    forall c | c in Collected(s.callbacks, s.worker.ready)
      ensures c.id != id
    {
      CollectedExactly(s.callbacks, s.worker.ready, c);
      assert c.id in Ids(s.callbacks);
    }
  }

  lemma {:induction false} QuietForGood(s: State, run: seq<State>, id: nat)
    requires Quiet(s, id) && Continues(s, run)
    ensures Quiet(run[|run| - 1], id) && !EndsByCalling(run, id)
    decreases |run|
  {
    if |run| > 1 {
      var before := run[..|run| - 1];
      ChainedParts(run);
      QuietForGood(s, before, id);
      var s1 := run[|run| - 2];
      assert s1 == before[|before| - 1];
      hide Quiet, Chained, Step, Possible;
      var a := StepAt(run, |run| - 2);
      QuietStays(s1, a, id);
      OnlyStartCallStarts(s1, a);
    }
  }

  lemma OnlyStartCallStarts(s: State, a: Action)
    requires Enabled(s, a)
    ensures var w, w' := s.worker, Step(s, a).worker;
      w.Calling? && w.running.None? && w'.Calling? && w'.running.Some? ==> a == StartCall
  {
    hide Find, Locate, Erase, Mark, ScanAll, Collected;
  }

  /** A queued callback is called when those before it return. */
  lemma {:induction false} QueuedIsCalled(s: State, id: nat) returns (run: seq<State>)
    requires Queued(s.worker, id)
    ensures Continues(s, run) && EndsByCalling(run, id)
    decreases |s.worker.queue|, if s.worker.running.Some? then 1 else 0
  {
    hide Chained;
    if s.worker.running.Some? {
      NextStep(s, EndCall(false), id);
      run := QueuedIsCalled(Step(s, EndCall(false)), id);
    } else {
      NextStep(s, StartCall, id);
      if s.worker.queue[0].id == id {
        ChainedOne(Step(s, StartCall));
        run := [Step(s, StartCall)];
      } else {
        run := QueuedIsCalled(Step(s, StartCall), id);
      }
    }
    ChainedCons(s, run);
    run := [s] + run;
  }

  lemma ChainedOne(s: State)
    ensures Chained([s])
  {
  }

  lemma NextStep(s: State, a: Action, id: nat)
    requires Queued(s.worker, id) && a == if s.worker.running.Some? then EndCall(false) else StartCall
    ensures Enabled(s, a) && Follows(s, Step(s, a)) && Step(s, a).worker.Calling?
    ensures var w' := Step(s, a).worker;
      if a.EndCall? then Queued(w', id) && w'.running.None? && w'.queue == s.worker.queue
      else w'.running == Some(s.worker.queue[0]) && w'.queue == s.worker.queue[1..]
           && (s.worker.queue[0].id == id || Queued(w', id))
  {
    var queue := s.worker.queue;
    var c :| c in queue && c.id == id;
    assert c == queue[0] || c in queue[1..];
  }

  /** On the worker thread detach does not wait, and the callback it detaches can still be called
      afterwards: exactly when select had reported its descriptor in the same round, and its turn
      has not come. */
  lemma CalledAfterWorkerDetach(s: State, fd: int)
    requires Inv(s) && Enabled(s, WorkerDetach(fd)) && Find(s.callbacks, fd) < |s.callbacks|
    ensures var id := s.callbacks[Find(s.callbacks, fd)].id;
      (exists run :: Continues(Step(s, WorkerDetach(fd)), run) && EndsByCalling(run, id)) <==> Queued(s.worker, id)
  {
    hide Inv, Find, Continues, EndsByCalling, Erase, Queued;
    var id := s.callbacks[Find(s.callbacks, fd)].id;
    var s' := Step(s, WorkerDetach(fd));
    StepKeepsInv(s, WorkerDetach(fd));
    if Queued(s.worker, id) {
      var run := QueuedIsCalled(s', id);
    } else {
      forall run | Continues(s', run)
        ensures !EndsByCalling(run, id)
      {
        QuietForGood(s', run, id);
      }
    }
  }
}
