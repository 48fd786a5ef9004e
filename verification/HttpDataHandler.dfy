/** lib/Spin/Handlers/HTTPDataHandler.cpp: a request parser that is fed one chunk at a time and
    keeps what it has not used in an attribute of the connection. */
module HttpDataHandler {
  import opened Bytes
  import opened Decimal
  import opened ParsingHelpers

  datatype Request = Request(method_: string, url: string, protocol: string, headers: seq<Header>, body: string)

  /** The connection attribute: absent, or a request (if its first line was seen), the unused
      bytes, and whether the end of its headers was seen. */
  datatype Attribute = Empty | Stored(request: Option<Request>, leftover: string, endOfHeaders: bool)
  {
    /** What every call leaves behind, and what the assertions in the handler rely on. */
    predicate Valid() {
      Stored? ==>
        && (request.None? ==> !endOfHeaders)
        && (request.Some? ==> request.value.body == [])
    }
  }

  /** What one call does: the attribute it leaves, the requests it hands on, the exception it throws. */
  datatype Outcome = Outcome(attribute: Attribute, delivered: seq<Request>, error: Option<Error>)
  {
    function After(earlier: seq<Request>): Outcome {
      this.(delivered := earlier + delivered)
    }
  }

  // --- Headers ----------------------------------------------------------------------------

  datatype HeaderScan =
    | HeadersThrow(error: Error)
    | Scanned(headers: seq<Header>, rest: string, endOfHeaders: bool)

  /** What the header loop sees after the bytes it has used. */
  datatype Pass =
    | EndOfHeaders(rest: string)
    | EndOfBuffer(rest: string)
    | Found(header: Header, rest: string)
    | Malformed(error: Error)

  function HeaderPass(s: string): (p: Pass)
    ensures !p.Malformed? ==> |p.rest| <= |s|
    ensures p.Found? ==> |p.rest| < |s|
  {
    var t := s[Span(Blank, s)..];
    if !MoreHeaders(s[..Span(Blank, s)]) then EndOfHeaders(t) else
    var end := HeaderEnd(t);
    if end == 0 then EndOfBuffer(t) else
    match SplitHeader(t[..end])
    case Err(e) => Malformed(e)
    case Ok(header) => Found(header, t[end..])
  }

  function HeaderLoop(headers: seq<Header>, s: string, endOfHeaders: bool): (r: HeaderScan)
    ensures r.Scanned? ==> |r.rest| <= |s|
    decreases |s|
  {
    match HeaderPass(s)
    case EndOfHeaders(rest) => Scanned(headers, rest, true)
    case EndOfBuffer(rest) => Scanned(headers, rest, endOfHeaders)
    case Malformed(e) => HeadersThrow(e)
    case Found(header, rest) =>
      if endOfHeaders || rest == [] then Scanned(headers + [header], rest, endOfHeaders)
      else HeaderLoop(headers + [header], rest, false)
  }

  function FindHeader(headers: seq<Header>, name: string): (i: nat)
    ensures i <= |headers|
    ensures i < |headers| ==> headers[i].name == name
    ensures forall j | 0 <= j < i :: headers[j].name != name
  {
    FirstWhere(headers, (h: Header) => h.name == name)
  }

  // --- Body -------------------------------------------------------------------------------

  datatype BodyScan =
    | BodyThrows(error: Error)
    | NeedMore
    | GotBody(request: Request, rest: string)

  function TakeBody(r: Request, s: string): (b: BodyScan)
    ensures b.GotBody? ==> |b.rest| <= |s|
  {
    var i := FindHeader(r.headers, "Content-Length");
    if i == |r.headers| then GotBody(r, s) else
    match ParseUnsigned(r.headers[i].value, SIZE_LIMIT)
    case None => BodyThrows(BadLexicalCast(r.headers[i].value))
    case Some(n) => if |s| < n then NeedMore else GotBody(r.(body := r.body + s[..n]), s[n..])
  }

  // --- One call ---------------------------------------------------------------------------

  function ParseNew(buffer: string): Outcome
    decreases |buffer|, 0
  {
    match ExtractRequestLine(buffer)
    case Incomplete => Outcome(Stored(None, buffer, false), [], None)
    case Failed(e) => Outcome(Empty, [], Some(e))
    case Complete(line, rest) => Continue(Request(line.method_, line.url, line.protocol, [], []), rest, false)
  }

  function Continue(r: Request, s: string, endOfHeaders: bool): Outcome
    decreases |s|, 1
  {
    match HeaderLoop(r.headers, s, endOfHeaders)
    case HeadersThrow(e) => Outcome(Empty, [], Some(e))
    case Scanned(headers, rest, end) => Finish(r.(headers := headers), rest, end)
  }

  function Finish(r: Request, rest: string, endOfHeaders: bool): Outcome
    decreases |rest|, 1, 0
  {
    if !endOfHeaders then Outcome(Stored(Some(r), rest, false), [], None) else
    match TakeBody(r, rest)
    case BodyThrows(e) => Outcome(Empty, [], Some(e))
    case NeedMore => Outcome(Stored(Some(r), rest, true), [], None)
    case GotBody(complete, after) =>
      if after == [] then Outcome(Empty, [complete], None) else ParseNew(after).After([complete])
  }

  function OnData(attribute: Attribute, chunk: string): Outcome {
    match attribute
    case Empty => ParseNew(chunk)
    case Stored(None, leftover, _) => ParseNew(leftover + chunk)
    case Stored(Some(r), leftover, end) => Continue(r, leftover + chunk, end)
  }

  /** How much there is to parse, counting a request whose first line was seen as one more. */
  ghost function Unparsed(attribute: Attribute, chunk: string): nat {
    match attribute
    case Empty => |chunk|
    case Stored(r, leftover, _) => |leftover| + |chunk| + if r.Some? then 1 else 0
  }

  /** What is still to come: another round, or the end of the call. */
  ghost function Remaining(again: bool, attribute: Attribute, chunk: string, error: Option<Error>): Outcome {
    if again then OnData(attribute, chunk) else Outcome(attribute, [], error)
  }

  /** After handing on `delivered`, the call goes on from `now` or ends there. */
  ghost predicate LeadsTo(was: Attribute, chunk: string, again: bool, now: Attribute,
                          error: Option<Error>, delivered: seq<Request>)
  {
    OnData(was, chunk) == Remaining(again, now, "", error).After(delivered)
  }

  lemma LeadsOn(was: Attribute, chunk: string, middle: Attribute, done: seq<Request>,
                again: bool, now: Attribute, error: Option<Error>, more: seq<Request>)
    requires LeadsTo(was, chunk, true, middle, None, done) && LeadsTo(middle, "", again, now, error, more)
    ensures LeadsTo(was, chunk, again, now, error, done + more)
  {
    hide OnData;
    var o := Remaining(again, now, "", error);
    assert done + (more + o.delivered) == done + more + o.delivered;
  }

  // --- The header loop ---------------------------------------------------------------------

  /** One pass of the header loop, from `start`; `whence` is where the next one would start. */
  method ReadHeader(buffer: string, start: nat) returns (pass: Pass, whence: nat)
    requires start <= |buffer|
    ensures start <= whence <= |buffer|
    ensures pass == HeaderPass(buffer[start..])
    ensures !pass.Malformed? ==> pass.rest == buffer[whence..]
  {
    hide HeaderEndFrom, SplitHeader, MoreHeaders;
    var where := Advance(Blank, buffer, start);
    SplitAt(buffer, start, where);
    var more := HasMoreHeaders(buffer, start, where);
    if !more {
      return EndOfHeaders(buffer[where..]), where;
    }
    whence := FindHeaderEnd(buffer, where, where);
    if where == whence {
      return EndOfBuffer(buffer[where..]), where;
    }
    var header := Split(buffer, where, whence);
    SplitAt(buffer, where, whence);
    match header {
      case Err(e) => pass := Malformed(e);
      case Ok(h) => pass := Found(h, buffer[whence..]);
    }
  }

  /** The loop over the headers, from `start`. */
  method ReadHeaders(stored: seq<Header>, buffer: string, start: nat, endOfHeaders: bool)
    returns (headers: seq<Header>, where: nat, end: bool, error: Option<Error>)
    requires start <= |buffer|
    ensures start <= where <= |buffer|
    ensures HeaderLoop(stored, buffer[start..], endOfHeaders)
         == if error.Some? then HeadersThrow(error.value) else Scanned(headers, buffer[where..], end)
  {
    headers, where, end, error := stored, start, endOfHeaders, None;
    ghost var scan := HeaderLoop(headers, buffer[where..], end);
    var again := true;
    while again
      invariant start <= where <= |buffer|
      invariant error.None?
      invariant scan
             == if again then HeaderLoop(headers, buffer[where..], end)
                else Scanned(headers, buffer[where..], end)
      decreases |buffer| - where, again
    {
      var pass, whence := ReadHeader(buffer, where);
      var endOfBuffer := false;
      match pass {
        case Malformed(e) =>
          error := Some(e);
          return;
        case Found(header, _) =>
          headers := headers + [header];
        case EndOfBuffer(_) =>
          endOfBuffer := true;
        case EndOfHeaders(_) =>
          end := true;
      }
      where := whence;
      again := !end && where != |buffer| && !endOfBuffer;
    }
  }

  // --- The handler ------------------------------------------------------------------------

  class Connection {
    var attribute: Attribute

    constructor ()
      ensures attribute == Empty
    {
      attribute := Empty;
    }
  }

  class HTTPRequestHandler {
    var handled: seq<Request>

    constructor ()
      ensures handled == []
    {
      handled := [];
    }

    method Handle(request: Request)
      modifies this
      ensures handled == old(handled) + [request]
    {
      handled := handled + [request];
    }
  }

  class HTTPDataHandler {
    const requestHandler: HTTPRequestHandler

    constructor (requestHandler: HTTPRequestHandler)
      ensures this.requestHandler == requestHandler
    {
      this.requestHandler := requestHandler;
    }

    /** The first line or the stored request: `request` and what is left of the buffer from `where`. */
    method Restore(connection: Connection, chunk: string)
      returns (request: Option<Request>, buffer: string, where: nat, end: bool, error: Option<Error>)
      modifies connection
      ensures where <= |buffer|
      ensures connection.attribute == Empty
      ensures error.None? && request.Some? ==> |buffer| - where < old(Unparsed(connection.attribute, chunk))
      ensures request.Some? && old(connection.attribute).Valid() ==> request.value.body == []
      ensures OnData(old(connection.attribute), chunk)
           == if error.Some? then Outcome(Empty, [], error)
              else if request.Some? then Continue(request.value, buffer[where..], end)
              else Outcome(Stored(None, buffer[where..], false), [], None)
    {
      request, buffer, where, end, error := None, chunk, 0, false, None;
      ghost var outcome := OnData(connection.attribute, chunk);
      var again := true;
      while again
        invariant where <= |buffer|
        invariant error.None?
        invariant old(connection.attribute).Valid() ==> connection.attribute.Valid()
        invariant old(connection.attribute).Valid() && request.Some? ==> request.value.body == []
        invariant !again ==> connection.attribute == Empty
        invariant again ==> Unparsed(connection.attribute, buffer) <= old(Unparsed(connection.attribute, chunk))
        invariant !again && request.Some? ==> |buffer| - where < old(Unparsed(connection.attribute, chunk))
        invariant outcome
               == if again then OnData(connection.attribute, buffer)
                  else if request.Some? then Continue(request.value, buffer[where..], end)
                  else Outcome(Stored(None, buffer[where..], false), [], None)
        decreases again, connection.attribute.Stored?
      {
        match connection.attribute {
          case Empty =>
            assert buffer[0..] == buffer;
            var line, whence := ExtractRequestHeader(buffer, 0);
            end := false;
            match line {
              case Failed(e) =>
                error := Some(e);
                return;
              case Incomplete =>
                request, where := None, 0;
              case Complete(l, _) =>
                request, where := Some(Request(l.method_, l.url, l.protocol, [], [])), whence;
            }
            again := false;
          case Stored(r, leftover, e) =>
            request, end := r, e;
            buffer := leftover + buffer;
            connection.attribute := Empty;
            where := 0;
            assert buffer[0..] == buffer;
            again := !(request.Some? || where == |buffer|);
        }
      }
    }

    /** The body, if all of it has arrived. */
    method ReadBody(request: Request, buffer: string, start: nat)
      returns (complete: Option<Request>, where: nat, error: Option<Error>)
      requires start <= |buffer|
      requires request.body == []
      ensures start <= where <= |buffer|
      ensures TakeBody(request, buffer[start..])
           == if error.Some? then BodyThrows(error.value)
              else if complete.Some? then GotBody(complete.value, buffer[where..])
              else NeedMore
      ensures complete.None? ==> where == start
    {
      complete, where, error := None, start, None;
      var curr := 0;
      while curr != |request.headers| && request.headers[curr].name != "Content-Length"
        invariant curr <= |request.headers|
        invariant forall j | 0 <= j < curr :: request.headers[j].name != "Content-Length"
      {
        curr := curr + 1;
      }
      assert curr == FindHeader(request.headers, "Content-Length");
      if curr == |request.headers| {
        return Some(request), where, None;
      }
      var size := ParseUnsigned(request.headers[curr].value, SIZE_LIMIT);
      if size.None? {
        return None, where, Some(BadLexicalCast(request.headers[curr].value));
      }
      if |buffer| - where < size.value {
        return None, where, None;
      }
      var whence := where + size.value;
      SplitAt(buffer, start, whence);
      return Some(request.(body := request.body + buffer[where..whence])), whence, None;
    }

    /** Lines 110-161: takes the body and hands the request on, or stores what there is.
        `again` is the jump back for the next request in the buffer. */
    method Deliver(connection: Connection, request: Request, buffer: string, start: nat, end: bool)
      returns (again: bool, error: Option<Error>, ghost delivered: seq<Request>)
      requires start <= |buffer|
      requires request.body == []
      requires connection.attribute == Empty
      modifies connection, requestHandler
      ensures connection.attribute.Valid()
      ensures again ==> connection.attribute.Stored? && connection.attribute.request.None?
      ensures again ==> |connection.attribute.leftover| <= |buffer| - start
      ensures requestHandler.handled == old(requestHandler.handled) + delivered
      ensures Finish(request, buffer[start..], end)
           == Remaining(again, connection.attribute, "", error).After(delivered)
    {
      hide ParseNew, TakeBody;
      again, error, delivered := false, None, [];
      if !end {
        connection.attribute := Stored(Some(request), buffer[start..], end);
        return;
      }
      var complete, where, thrown := ReadBody(request, buffer, start);
      if thrown.Some? {
        return false, thrown, [];
      }
      if complete.None? {
        connection.attribute := Stored(Some(request), buffer[start..], end);
        return;
      }
      requestHandler.Handle(complete.value);
      delivered := [complete.value];
      if where != |buffer| {
        connection.attribute := Stored(None, buffer[where..], false);
        assert buffer[where..] + "" == buffer[where..];
        again := true;
      }
    }

    /** From one restored attribute to the next: at most one request is handed on. */
    method Round(connection: Connection, unread: string)
      returns (again: bool, error: Option<Error>, ghost delivered: seq<Request>)
      requires connection.attribute.Valid()
      modifies connection, requestHandler
      ensures connection.attribute.Valid()
      ensures requestHandler.handled == old(requestHandler.handled) + delivered
      ensures LeadsTo(old(connection.attribute), unread, again, connection.attribute, error, delivered)
      ensures again ==> Unparsed(connection.attribute, "") < old(Unparsed(connection.attribute, unread))
    {
      var request, buffer, where, end, thrown := Restore(connection, unread);
      if thrown.Some? {
        return false, thrown, [];
      }
      if request.None? {
        connection.attribute := Stored(None, buffer[where..], false);
        return false, None, [];
      }
      var headers;
      headers, where, end, thrown := ReadHeaders(request.value.headers, buffer, where, end);
      if thrown.Some? {
        return false, thrown, [];
      }
      again, error, delivered := Deliver(connection, request.value.(headers := headers), buffer, where, end);
    }

    /** The jump back to the start, as a loop. */
    method Rounds(connection: Connection, chunk: string)
      returns (error: Option<Error>, ghost delivered: seq<Request>)
      requires connection.attribute.Valid()
      modifies connection, requestHandler
      ensures connection.attribute.Valid()
      ensures requestHandler.handled == old(requestHandler.handled) + delivered
      ensures LeadsTo(old(connection.attribute), chunk, false, connection.attribute, error, delivered)
    {
      hide OnData;
      ghost var first := connection.attribute;
      ghost var handled := requestHandler.handled;
      var again;
      again, error, delivered := Round(connection, chunk);
      while again
        invariant connection.attribute.Valid()
        invariant requestHandler.handled == handled + delivered
        invariant LeadsTo(first, chunk, again, connection.attribute, error, delivered)
        decreases again, Unparsed(connection.attribute, "")
      {
        ghost var middle := connection.attribute;
        ghost var more;
        again, error, more := Round(connection, "");
        LeadsOn(first, chunk, middle, delivered, again, connection.attribute, error, more);
        delivered := delivered + more;
      }
    }

    /** The whole call. */
    method OnDataReady(connection: Connection, chunk: string) returns (error: Option<Error>)
      requires connection.attribute.Valid()
      modifies connection, requestHandler
      ensures connection.attribute.Valid()
      ensures connection.attribute == OnData(old(connection.attribute), chunk).attribute
      ensures requestHandler.handled == old(requestHandler.handled) + OnData(old(connection.attribute), chunk).delivered
      ensures error == OnData(old(connection.attribute), chunk).error
    {
      ghost var delivered;
      error, delivered := Rounds(connection, chunk);
      assert delivered + [] == delivered;
    }
  }
}
