/** lib/Spin/Private/ConnectionHandler.cpp: the list of callbacks that the worker thread and its
    clients share. Every method is what happens inside one region that holds callbacks_lock_;
    module WorkerProtocol interleaves these regions. */
module ConnectionHandler {
  import opened Bytes

  /** AttachmentState_ (lib/Spin/Private/ConnectionHandler.h:34). */
  datatype Life = PendingAttachment | Attached | PendingDetachment | Detached

  /** A node of the list: `id` is its identity, which an iterator keeps and no other node has. */
  datatype Entry = Entry(id: nat, fd: int, hasErrorCallback: bool, life: Life)

  /** A callback that was copied for calling. */
  datatype Call = Call(id: nat, fd: int)

  const PIPE_READ := 64

  predicate Pending(e: Entry) { e.life == PendingAttachment || e.life == PendingDetachment }
  predicate Selectable(e: Entry) { e.life == PendingAttachment || e.life == Attached }

  // --- What the regions do to the list ---------------------------------------------------------

  /** The first entry of a file descriptor, or the end of the list. */
  function Find(cs: seq<Entry>, fd: int): (i: nat)
    ensures i <= |cs|
    ensures i < |cs| ==> cs[i].fd == fd
    ensures forall j | 0 <= j < i :: cs[j].fd != fd
  {
    FirstWhere(cs, (e: Entry) => e.fd == fd)
  }

  /** The place of a node, or the end of the list. */
  function Locate(cs: seq<Entry>, id: nat): (i: nat)
    ensures i <= |cs|
    ensures i < |cs| ==> cs[i].id == id
    ensures forall j | 0 <= j < i :: cs[j].id != id
  {
    FirstWhere(cs, (e: Entry) => e.id == id)
  }

  function Erase(cs: seq<Entry>, i: nat): seq<Entry>
    requires i < |cs|
  {
    cs[..i] + cs[i + 1..]
  }

  function Mark(cs: seq<Entry>, i: nat): seq<Entry>
    requires i < |cs|
  {
    cs[i := cs[i].(life := PendingDetachment)]
  }

  function Scan(e: Entry): Entry {
    e.(life := if Selectable(e) then Attached else Detached)
  }

  function ScanAll(cs: seq<Entry>): (r: seq<Entry>)
    ensures |r| == |cs|
  {
    seq(|cs|, i requires 0 <= i < |cs| => Scan(cs[i]))
  }

  /** Whose error callback is called when the entry is scheduled for removal. */
  function ErrorCallee(e: Entry): Option<nat> {
    if e.hasErrorCallback then Some(e.id) else None
  }

  function SelectFds(cs: seq<Entry>): set<int> {
    set e | e in cs && Selectable(e) :: e.fd
  }

  /** The calls for the ready descriptors, in list order and whatever their state. */
  function Collected(cs: seq<Entry>, ready: set<int>): seq<Call> {
    if cs == [] then [] else
    (if cs[0].fd in ready then [Call(cs[0].id, cs[0].fd)] else []) + Collected(cs[1..], ready)
  }

  lemma NothingCollected(ready: set<int>)
    ensures Collected([], ready) == []
  {
  }

  lemma CollectedStep(cs: seq<Entry>, i: nat, ready: set<int>, calls: seq<Call>)
    requires i < |cs|
    ensures calls + Collected(cs[i..], ready)
         == (if cs[i].fd in ready then calls + [Call(cs[i].id, cs[i].fd)] else calls) + Collected(cs[i + 1..], ready)
  {
    assert cs[i..][1..] == cs[i + 1..];
  }

  lemma {:induction false} CollectedExactly(cs: seq<Entry>, ready: set<int>, c: Call)
    ensures c in Collected(cs, ready) <==> c.fd in ready && exists e :: e in cs && e.id == c.id && e.fd == c.fd
  {
    if cs != [] {
      CollectedExactly(cs[1..], ready, c);
      assert forall e :: e in cs <==> e == cs[0] || e in cs[1..];
    }
  }

  // --- The object -------------------------------------------------------------------------------

  class ConnectionHandler {
    var callbacks: seq<Entry>
    var nextId: nat
    /** The bytes in the sync pipe. */
    var pipe: nat

    constructor ()
      ensures callbacks == [] && nextId == 0 && pipe == 0
    {
      callbacks, nextId, pipe := [], 0, 0;
    }

    method NotifyThread()
      modifies this`pipe
      ensures pipe == old(pipe) + 1
    {
      pipe := pipe + 1;
    }

    method Attach(fd: int, hasErrorCallback: bool)
      modifies this
      ensures callbacks == old(callbacks) + [Entry(old(nextId), fd, hasErrorCallback, PendingAttachment)]
      ensures nextId == old(nextId) + 1 && pipe == old(pipe) + 1
    {
      callbacks := callbacks + [Entry(nextId, fd, hasErrorCallback, PendingAttachment)];
      nextId := nextId + 1;
      NotifyThread();
    }

    method FindFd(fd: int) returns (curr: nat)
      ensures curr == Find(callbacks, fd)
    {
      curr := 0;
      while curr != |callbacks| && callbacks[curr].fd != fd
        invariant curr <= |callbacks|
        invariant forall j | 0 <= j < curr :: callbacks[j].fd != fd
      {
        curr := curr + 1;
      }
    }

    /** detach up to its wait: on the worker thread the node goes at once, elsewhere the caller
        has to wait for the node that is returned. */
    method BeginDetach(fd: int, onWorkerThread: bool) returns (waitFor: Option<nat>)
      modifies this`callbacks, this`pipe
      ensures var i := Find(old(callbacks), fd);
        if i == |old(callbacks)| then
          callbacks == old(callbacks) && pipe == old(pipe) && waitFor == None
        else if onWorkerThread then
          callbacks == Erase(old(callbacks), i) && pipe == old(pipe) + 1 && waitFor == None
        else
          callbacks == Mark(old(callbacks), i) && pipe == old(pipe) + 1 && waitFor == Some(old(callbacks)[i].id)
    {
      var where_ := FindFd(fd);
      if where_ == |callbacks| {
        return None;
      }
      callbacks := callbacks[where_ := callbacks[where_].(life := PendingDetachment)];
      NotifyThread();
      if !onWorkerThread {
        return Some(callbacks[where_].id);
      }
      callbacks := callbacks[..where_] + callbacks[where_ + 1..];
      return None;
    }

    /** What a waiting detach does when it wakes up: its node goes once the worker let go of it. */
    method EndDetach(id: nat) returns (done: bool)
      requires Locate(callbacks, id) < |callbacks|
      modifies this`callbacks
      ensures var i := Locate(old(callbacks), id);
        && done == (old(callbacks)[i].life == Detached)
        && callbacks == (if done then Erase(old(callbacks), i) else old(callbacks))
    {
      var where_ := Locate(callbacks, id);
      done := callbacks[where_].life == Detached;
      if done {
        callbacks := callbacks[..where_] + callbacks[where_ + 1..];
      }
    }

    /** The worker's first region: decide what to select on. */
    method ScanCallbacks() returns (readFds: set<int>)
      modifies this`callbacks
      ensures callbacks == ScanAll(old(callbacks))
      ensures readFds == SelectFds(old(callbacks))
    {
      readFds := {};
      var curr := 0;
      while curr != |callbacks|
        invariant curr <= |callbacks| == |old(callbacks)|
        invariant forall j | 0 <= j < curr :: callbacks[j] == Scan(old(callbacks)[j])
        invariant forall j | curr <= j < |callbacks| :: callbacks[j] == old(callbacks)[j]
        invariant readFds == SelectFds(old(callbacks)[..curr])
      {
        assert old(callbacks)[..curr + 1] == old(callbacks)[..curr] + [callbacks[curr]];
        if callbacks[curr].life == PendingAttachment || callbacks[curr].life == Attached {
          readFds := readFds + {callbacks[curr].fd};
          callbacks := callbacks[curr := callbacks[curr].(life := Attached)];
        } else if callbacks[curr].life == PendingDetachment {
          callbacks := callbacks[curr := callbacks[curr].(life := Detached)];
        }
        curr := curr + 1;
      }
      assert old(callbacks)[..curr] == old(callbacks);
    }

    /** The worker's second region, after select returned. */
    method CollectCalls(readFds: set<int>) returns (calls: seq<Call>)
      ensures calls == Collected(callbacks, readFds)
    {
      hide Collected;
      calls := [];
      var curr := 0;
      assert callbacks[0..] == callbacks && calls + Collected(callbacks, readFds) == Collected(callbacks, readFds);
      while curr != |callbacks|
        invariant curr <= |callbacks|
        invariant calls + Collected(callbacks[curr..], readFds) == Collected(callbacks, readFds)
      {
        CollectedStep(callbacks, curr, readFds, calls);
        if callbacks[curr].fd in readFds {
          calls := calls + [Call(callbacks[curr].id, callbacks[curr].fd)];
        }
        curr := curr + 1;
      }
      assert callbacks[curr..] == [];
      NothingCollected(readFds);
    }

    /** One turn of the worker's third region: schedule an entry for removal, silently, and find
        out whose error callback to call. */
    method RemoveFailed(fd: int) returns (callee: Option<nat>)
      modifies this`callbacks
      ensures var i := Find(old(callbacks), fd);
        && callbacks == (if i < |old(callbacks)| then Mark(old(callbacks), i) else old(callbacks))
        && callee == (if i < |callbacks| then ErrorCallee(callbacks[i]) else None)
    {
      var where_ := FindFd(fd);
      if where_ == |callbacks| {
        return None;
      }
      callbacks := callbacks[where_ := callbacks[where_].(life := PendingDetachment)];
      return if callbacks[where_].hasErrorCallback then Some(callbacks[where_].id) else None;
    }

    /** Reading the sync pipe takes what is there, up to the size of the buffer. */
    method FetchNotifications() returns (bytesRead: nat)
      modifies this`pipe
      ensures bytesRead <= PIPE_READ && (pipe == 0 || bytesRead == PIPE_READ)
      ensures pipe + bytesRead == old(pipe)
    {
      bytesRead := if pipe < PIPE_READ then pipe else PIPE_READ;
      pipe := pipe - bytesRead;
    }
  }
}
