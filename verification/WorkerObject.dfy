/** The object of lib/Spin/Private/ConnectionHandler.cpp takes the steps of the protocol. */
module WorkerObject {
  import opened Bytes
  import opened ConnectionHandler
  import opened WorkerProtocol

  ghost predicate Is(h: ConnectionHandler, s: State)
    reads h
  {
    h.callbacks == s.callbacks && h.nextId == s.nextId && h.pipe == s.pipe
  }

  /** A step that another thread, or a callback, takes on the object, and the node that this thread
      has to wait for after it. */
  method ClientStep(h: ConnectionHandler, ghost s: State, a: Action) returns (waitsFor: Option<nat>)
    requires Inv(s) && Is(h, s) && Enabled(s, a)
    requires (a.Attach? || a.RequestDetach? || a.WakeUp? || a.WakeUpOther? || a.WorkerDetach?)
    modifies h
    ensures Is(h, Step(s, a)) && s.worker == Step(s, a).worker
    ensures Step(s, a).waiters ==
      (if a.WakeUp? then s.waiters - {a.id} else s.waiters)
      + if waitsFor.Some? then map[waitsFor.value := false] else map[]
  {
    hide Inv, Find, Locate, Erase, Mark, ScanAll, Collected;
    waitsFor := None;
    match a {
      case Attach(fd, hasErrorCallback, _) =>
        h.Attach(fd, hasErrorCallback);
      case RequestDetach(fd) =>
        waitsFor := h.BeginDetach(fd, false);
      case WorkerDetach(fd) =>
        var _ := h.BeginDetach(fd, true);
      case WakeUp(id) =>
        WaiterIsListed(s, id);
        var done := h.EndDetach(id);
        waitsFor := if done then None else Some(id);
      case WakeUpOther(id) =>
        assert false by { NoOthers(s); }
    }
  }

  /** A step of the worker thread, whose local variables are `w`; what select answers and whether a
      callback throws is given by `a`. */
  method WorkerStep(h: ConnectionHandler, ghost s: State, w: Counter, a: Action) returns (w': Counter)
    requires Inv(s) && Is(h, s) && w == s.worker && Enabled(s, a)
    requires !(a.Attach? || a.RequestDetach? || a.WakeUp? || a.WakeUpOther? || a.WorkerDetach?)
    modifies h
    ensures Is(h, Step(s, a)) && w' == Step(s, a).worker
  {
    hide Inv, Find, ScanAll, Collected;
    w' := w;
    match a {
      case ScanList =>
        var fds := h.ScanCallbacks();
        w' := Notifying(fds);
      case NotifyAll =>
        w' := Selecting(w.fds);
      case Select(ready, notified) =>
        w' := Collecting(ready, notified);
      case Collect =>
        var calls := h.CollectCalls(w.ready);
        w' := Calling(calls, None, [], w.notified);
      case StartCall =>
        w' := w.(queue := w.queue[1..], running := Some(w.queue[0]));
      case EndCall(throws) =>
        w' := w.(running := None, failed := w.failed + if throws then [w.running.value.fd] else []);
      case FinishCalls =>
        w' := if w.failed != [] then Removing(w.failed, None) else Draining(w.notified);
      case RemoveNext =>
        var callee := h.RemoveFailed(w.failed[0]);
        w' := Removing(w.failed[1..], callee);
      case EndErrorCallback =>
        w' := Removing(w.failed, None);
      case FinishRemoving =>
        w' := Scanning;
      case Drain =>
        if w.notified {
          var _ := h.FetchNotifications();
        }
        w' := Scanning;
      case _ =>
    }
  }
}
