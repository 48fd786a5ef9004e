/** lib/Damon/Request.cpp, getResponse, on any sequence of reads and for any number of calls. */
module DamonResponse {
  import opened Bytes
  import opened Decimal
  import opened ParsingHelpers
  import opened HttpDataHandler
  import opened SpinResponse

  /** What getResponse returns or throws, and the bytes it keeps in the connection. BadAnyCast is
      thrown when the attribute does not have the type that is asked for. */
  datatype Reply =
    | Throws(error: Error)
    | BadAnyCast
    | ReturnsWithoutBody(response: Response, kept: string)
    | Returns(response: Response, kept: string)

  /** The connection attribute when it jumps back to retry: the response, if its status line was
      seen, and the unused bytes. */
  datatype Saved = Nothing | Saved(response: Option<Response>, leftover: string)

  /** From one retry to the next: `pieces` are the reads that are still to come. */
  datatype Turn = Done(result: Reply, pieces: seq<string>) | Blocks | Again(saved: Saved, pieces: seq<string>)

  function ScanBody(r: Response, s: string): Reply {
    var i := FindHeader(r.headers, "Content-Length");
    if i == |r.headers| then Returns(r, s) else
    match ParseUnsigned(r.headers[i].value, SIZE_LIMIT)
    case None => Throws(BadLexicalCast(r.headers[i].value))
    case Some(n) => if |s| < n then ReturnsWithoutBody(r, s) else Returns(r.(body := s[..n]), s[n..])
  }

  function ScanHeaders(r: Response, s: string, pieces: seq<string>): Turn {
    match HeaderLoop(r.headers, s, false)
    case HeadersThrow(e) => Done(Throws(e), pieces)
    case Scanned(headers, rest, end) =>
      if end then Done(ScanBody(r.(headers := headers), rest), pieces)
      else Again(Saved(Some(r.(headers := headers)), rest), pieces)
  }

  function ScanLine(buffer: string, pieces: seq<string>): Turn {
    match ExtractStatusLine(buffer)
    case Incomplete => Again(Saved(None, buffer), pieces)
    case Failed(e) => Done(Throws(e), pieces)
    case Complete(line, rest) => ScanHeaders(Response(line.protocol, line.code, line.reason, [], ""), rest, pieces)
  }

  /** What the calls before left in the connection: unused bytes, or a response without its body, in
      a tuple of another type than the one that is restored. */
  datatype Carried = Kept(bytes: string) | WithoutBody

  function After(reply: Reply): Carried {
    match reply
    case Throws(_) => Kept("")
    case BadAnyCast => WithoutBody
    case ReturnsWithoutBody(_, _) => WithoutBody
    case Returns(_, kept) => Kept(kept)
  }

  /** It reads only when it has no attribute, or one with bytes of an unfinished status line. */
  function Retry(saved: Saved, pieces: seq<string>): Turn {
    match saved
    case Saved(Some(r), leftover) => ScanHeaders(r, leftover, pieces)
    case Saved(None, leftover) =>
      if leftover == "" then Again(saved, pieces)
      else if pieces == [] then Blocks else ScanLine(leftover + pieces[0], pieces[1..])
    case Nothing => if pieces == [] then Blocks else ScanLine(pieces[0], pieces[1..])
  }

  /** What comes of a call, and the reads it leaves for the next one. */
  datatype Reading = Got(result: Reply, unread: seq<string>) | Waits | Spins

  /** The call from a retry on. A retry that has read nothing will do the same again, and for ever. */
  function GetAll(saved: Saved, pieces: seq<string>): Reading
    decreases |pieces|
  {
    match Retry(saved, pieces)
    case Done(result, unread) => Got(result, unread)
    case Blocks => Waits
    case Again(saved', pieces') => if |pieces'| < |pieces| then GetAll(saved', pieces') else Spins
  }

  /** The first turn of a call. Bytes that were kept are parsed before anything is read, unless
      `polls` says that more is there. */
  function FirstTurn(kept: string, polls: bool, pieces: seq<string>): Turn {
    if kept == "" then Retry(Nothing, pieces)
    else if polls then Retry(Saved(None, kept), pieces)
    else ScanLine(kept, pieces)
  }

  /** The whole call. */
  function GetNext(before: Carried, polls: bool, pieces: seq<string>): Reading {
    match before
    case WithoutBody => Got(BadAnyCast, pieces)
    case Kept(bytes) => RestOfCall(FirstTurn(bytes, polls, pieces))
  }

  /** The rest of a call after a turn. */
  function RestOfCall(turn: Turn): Reading {
    match turn
    case Done(result, unread) => Got(result, unread)
    case Blocks => Waits
    case Again(saved, more) => GetAll(saved, more)
  }

  lemma LoopIsStuck(headers: seq<Header>, s: string)
    ensures var r := HeaderLoop(headers, s, false);
      r.Scanned? && !r.endOfHeaders ==> HeaderLoop(r.headers, r.rest, false) == r
    decreases |s|
  {
    hide HeaderEnd, SplitHeader;
    NothingIsEmpty();
    var p := HeaderPass(s);
    if p.Found? && p.rest != [] {
      LoopIsStuck(headers + [p.header], p.rest);
    } else if p.EndOfBuffer? {
      var t := s[Span(Blank, s)..];
      SpanIs(Blank, t, 0);
      assert t[0..] == t && t[..0] == "";
    }
  }

  lemma NothingIsEmpty()
    ensures HeaderPass("") == EndOfBuffer("") && MoreHeaders("") && HeaderEnd("") == 0
  {
  }

  /** A retry that has read nothing, or that has a status line, ends where it began, whatever is
      there to be read. */
  lemma RetryIsStuck(saved: Saved, pieces: seq<string>, saved': Saved, pieces': seq<string>, more: seq<string>)
    requires Retry(saved, pieces) == Again(saved', pieces')
    requires |pieces'| == |pieces| || (saved'.Saved? && saved'.response.Some?)
    ensures Retry(saved', more) == Again(saved', more)
  {
    hide HeaderLoop, ExtractStatusLine;
    match saved
    case Saved(Some(r), leftover) => LoopIsStuck(r.headers, leftover);
    case Saved(None, leftover) =>
      if leftover != "" { LineIsStuck(leftover + pieces[0], pieces[1..]); }
    case Nothing => LineIsStuck(pieces[0], pieces[1..]);
  }

  lemma LineIsStuck(buffer: string, pieces: seq<string>)
    ensures var turn := ScanLine(buffer, pieces);
      turn.Again? ==>
        && turn.pieces == pieces && turn.saved.Saved?
        && (turn.saved.response.Some? ==> forall more :: Retry(turn.saved, more) == Again(turn.saved, more))
  {
    hide HeaderLoop, ExtractStatusLine;
    var line := ExtractStatusLine(buffer);
    if line.Complete? {
      LoopIsStuck([], line.rest);
    }
  }

  /** One turn, from one jump back to the next; `reads_` says whether bytes that were kept are to be
      completed by a read. */
  method TurnOnce(saved: Saved, reads_: bool, pieces: seq<string>) returns (turn: Turn)
    requires !reads_ ==> saved.Saved? && saved.response.None? && saved.leftover != ""
    ensures turn == if reads_ then Retry(saved, pieces) else ScanLine(saved.leftover, pieces)
  {
    hide ExtractStatusLine, HeaderLoop, ParseUnsigned;
    var buffer, remaining, response := "", pieces, None;
    if saved.Saved? {
      buffer, response := saved.leftover, saved.response;
      if response.None? && buffer == "" {
        return Again(saved, pieces);
      }
    }
    var where := 0;
    if response.None? {
      if reads_ {
        if remaining == [] {
          return Blocks;
        }
        buffer, remaining := buffer + remaining[0], remaining[1..];
        assert "" + pieces[0] == pieces[0];
      }
      assert buffer[0..] == buffer;
      var line, whence := ExtractResponseHeader(buffer, 0);
      if line.Incomplete? {
        return Again(Saved(None, buffer), remaining);
      }
      if line.Failed? {
        return Done(Throws(line.error), remaining);
      }
      response, where := Some(Response(line.value.protocol, line.value.code, line.value.reason, [], "")), whence;
    }
    assert saved.Saved? && saved.response.Some? ==> buffer[0..] == saved.leftover;
    var headers, start, end, error := ReadHeaders(response.value.headers, buffer, where, false);
    if error.Some? {
      return Done(Throws(error.value), remaining);
    }
    if !end {
      return Again(Saved(Some(response.value.(headers := headers)), buffer[start..]), remaining);
    }
    var result := ReadBody(response.value.(headers := headers), buffer, start);
    return Done(result, remaining);
  }

  method ReadBody(response: Response, buffer: string, start: nat) returns (result: Reply)
    requires start <= |buffer|
    ensures result == ScanBody(response, buffer[start..])
  {
    hide ParseUnsigned;
    var headers := response.headers;
    var curr := 0;
    while curr != |headers| && headers[curr].name != "Content-Length"
      invariant curr <= |headers|
      invariant forall j | 0 <= j < curr :: headers[j].name != "Content-Length"
    {
      curr := curr + 1;
    }
    assert curr == FindHeader(headers, "Content-Length");
    if curr == |headers| {
      return Returns(response, buffer[start..]);
    }
    var size := ParseUnsigned(headers[curr].value, SIZE_LIMIT);
    if size.None? {
      return Throws(BadLexicalCast(headers[curr].value));
    }
    if |buffer| - start < size.value {
      return ReturnsWithoutBody(response, buffer[start..]);
    }
    SplitAt(buffer, start, start + size.value);
    return Returns(response.(body := buffer[start..start + size.value]), buffer[start + size.value..]);
  }

  /** The jump back as a loop, which stops where the source would go on without an end. */
  method GetResponse(before: Carried, polls: bool, pieces: seq<string>) returns (outcome: Reading)
    ensures outcome == GetNext(before, polls, pieces)
  {
    hide Retry, ScanLine;
    if before.WithoutBody? {
      return Got(BadAnyCast, pieces);
    }
    var saved := if before.bytes == "" then Nothing else Saved(None, before.bytes);
    var turn := TurnOnce(saved, before.bytes == "" || polls, pieces);
    outcome := Waits;
    var again := true;
    while again
      invariant again ==> GetNext(before, polls, pieces) == RestOfCall(turn)
      invariant !again ==> outcome == GetNext(before, polls, pieces)
      decreases again, if turn.Again? then 1 + |turn.pieces| else 0
    {
      again := false;
      match turn {
        case Done(result, unread) => outcome := Got(result, unread);
        case Blocks => outcome := Waits;
        case Again(next, remaining) =>
          turn := TurnOnce(next, true, remaining);
          again := !turn.Again? || |turn.pieces| < |remaining|;
          outcome := Spins;
      }
    }
  }
}
