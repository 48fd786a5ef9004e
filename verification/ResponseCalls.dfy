/** What calls of getResponse return, one after the other, in any reads and with any answers of poll. */
module ResponseCalls {
  import opened Bytes
  import opened Decimal
  import opened ParsingHelpers
  import opened HttpDataHandler
  import opened Messages
  import opened Chunking
  import opened DamonRequest
  import opened Sessions
  import opened SpinResponse
  import opened DamonResponse
  import opened ResponseRoundTrip

  // --- Calls ------------------------------------------------------------------------------------

  predicate AllAnswerable(rs: seq<Response>) { forall i | 0 <= i < |rs| :: Answerable(rs[i]) }

  predicate AllPlain(rs: seq<Response>) { forall i | 0 <= i < |rs| :: Plain(rs[i]) }

  function Texts(rs: seq<Response>): string {
    if rs == [] then "" else Serialized(rs[0]) + Texts(rs[1..])
  }

  /** Calls one after the other, until one waits or spins; `polls` is what poll answers to each. */
  function Calls(before: Carried, polls: seq<bool>, pieces: seq<string>): seq<Reply>
    decreases |polls|
  {
    if polls == [] then [] else
    match GetNext(before, polls[0], pieces)
    case Got(reply, unread) => [reply] + Calls(After(reply), polls[1..], unread)
    case _ => []
  }

  /** All the responses, and nothing else, were returned in order. */
  predicate AllReturned(replies: seq<Reply>, rs: seq<Response>)
    requires AllAnswerable(rs)
  {
    && |replies| == |rs|
    && forall i | 0 <= i < |rs| :: replies[i].Returns? && replies[i].response == Answer(rs[i])
  }

  // --- The condition on the cuts -------------------------------------------------------------------

  /** How much of a response and what follows it a call has when it sees its status line whole, and
      the reads that are left; nothing when it waits, or has started on nothing. Only the lengths of
      the reads matter. */
  function ReadsTo(line: nat, have: nat, pieces: seq<string>): Option<(nat, seq<string>)>
    decreases |pieces|
  {
    if have > line then Some((have, pieces))
    else if have == 0 || pieces == [] then None
    else ReadsTo(line, have + |pieces[0]|, pieces[1..])
  }

  /** A call reads first if it has nothing or poll says so. */
  function StartsWith(line: nat, have: nat, polls: bool, pieces: seq<string>): Option<(nat, seq<string>)> {
    if have > 0 && !polls then ReadsTo(line, have, pieces)
    else if pieces == [] then None
    else ReadsTo(line, have + |pieces[0]|, pieces[1..])
  }

  /** When a call sees a status line, it has the whole response, or lacks no more than the last line
      feed of one without a body, which the next call skips. */
  predicate Fits(lf: nat, have: nat, rs: seq<Response>, polls: seq<bool>, pieces: seq<string>)
    requires |polls| == |rs|
    decreases |rs|
  {
    rs == [] ||
    var size := lf + |Serialized(rs[0])|;
    match StartsWith(lf + |LineText(rs[0], "")|, have, polls[0], pieces)
    case None => false
    case Some((n, rest)) =>
      if n >= size then Fits(0, n - size, rs[1..], polls[1..], rest)
      else n == size - 1 && rs[0].body == "" && Fits(1, 0, rs[1..], polls[1..], rest)
  }

  // --- One call ---------------------------------------------------------------------------------

  /** The text that is left: perhaps a line feed, a response, and what follows it. */
  function Ahead(lf: string, r: Response, more: string): string { lf + (Serialized(r) + more) }

  /** What a call makes of the response, given how much it has when it sees the status line. */
  predicate Called(lf: string, r: Response, more: string, reading: Reading, start: Option<(nat, seq<string>)>)
    requires Answerable(r)
  {
    var t, size := Ahead(lf, r, more), |lf| + |Serialized(r)|;
    match start
    case None => !reading.Got?
    case Some((n, rest)) =>
      && |lf| + |LineText(r, "")| < n <= |t|
      && if n >= size then reading == Got(Returns(Answer(r), t[size..n]), rest)
         else if n == size - 1 && r.body == "" then reading == Got(Returns(Answer(r), ""), rest)
         else !(reading.Got? && reading.result.Returns?)
  }

  lemma TailOfText(lf: string, r: Response, more: string, n: nat)
    requires |lf| + |Serialized(r)| <= n <= |Ahead(lf, r, more)|
    ensures var line := |lf| + |LineText(r, "")|;
      |Tail(r, "")| <= n - line <= |Tail(r, more)|
      && Ahead(lf, r, more)[|lf| + |Serialized(r)|..n] == Tail(r, more)[|Tail(r, "")|..n - line]
  {
    hide Serialized, Tail;
    TextAndTail(r, more);
    StatusLength(r, Tail(r, more));
    LineSplits(r, Tail(r, more));
    var t, line := Ahead(lf, r, more), |lf| + |LineText(r, "")|;
    assert t == lf + LineText(r, "") + Tail(r, more);
    assert t[line..] == Tail(r, more);
    Suffix(t, line, |lf| + |Serialized(r)|, n);
  }

  lemma LineSplits(r: Response, y: string)
    ensures LineText(r, y) == LineText(r, "") + y
  {
    hide PrintInt;
  }

  lemma Sizes(lf: string, r: Response, more: string)
    ensures |Ahead(lf, r, more)| == |lf| + |LineText(r, "")| + |Tail(r, "")| + |more|
    ensures |Serialized(r)| == |LineText(r, "")| + |Tail(r, "")| && |Tail(r, "")| >= 2
    ensures |Tail(r, more)| == |Tail(r, "")| + |more| && |LineText(r, "")| > 0
  {
    hide Serialized, Tail;
    TextAndTail(r, more);
    LineIsNotEmpty(r);
  }

  lemma LineIsNotEmpty(r: Response)
    ensures |LineText(r, "")| > 0
  {
  }

  /** A turn on a buffer that was read from the text ahead. */
  lemma TurnOn(lf: string, r: Response, more: string, buffer: string, pieces: seq<string>)
    requires IsLineFeed(lf) && Answerable(r) && Plain(r) && AfterHeaders(more)
    requires buffer + Concat(pieces) == Ahead(lf, r, more)
    ensures if |buffer| <= |lf| + |LineText(r, "")| then ScanLine(buffer, pieces) == Again(Saved(None, buffer), pieces)
            else Called(lf, r, more, RestOfCall(ScanLine(buffer, pieces)), Some((|buffer|, pieces)))
  {
    hide ScanLine, Answerable, Plain, AfterHeaders, Serialized, Tail, LineText, Answer, IsLineFeed;
    var t, n := Ahead(lf, r, more), |buffer|;
    assert |buffer + Concat(pieces)| == |t| && buffer == t[..n];
    Sizes(lf, r, more);
    PartOn(lf, r, more, n, pieces);
    LineIsStuck(buffer, pieces);
    if n > |lf| + |LineText(r, "")| {
      if n >= |lf| + |Serialized(r)| {
        TailOfText(lf, r, more, n);
      }
      var turn := ScanLine(buffer, pieces);
      if turn.Again? {
        StuckIsNotGot(turn);
      }
    }
  }

  lemma StuckIsNotGot(turn: Turn)
    requires turn.Again? && Retry(turn.saved, turn.pieces) == Again(turn.saved, turn.pieces)
    ensures RestOfCall(turn) == Spins
  {
    hide Retry;
  }

  /** A call that goes on with bytes it has and cannot use yet. */
  lemma {:induction false} ReadingOn(lf: string, r: Response, more: string, buffer: string, pieces: seq<string>)
    requires IsLineFeed(lf) && Answerable(r) && Plain(r) && AfterHeaders(more)
    requires buffer + Concat(pieces) == Ahead(lf, r, more)
    ensures Called(lf, r, more, RestOfCall(ScanLine(buffer, pieces)),
                   ReadsTo(|lf| + |LineText(r, "")|, |buffer|, pieces))
    decreases |pieces|
  {
    hide ScanLine, Answerable, Plain, AfterHeaders, Ahead, Called, LineText;
    TurnOn(lf, r, more, buffer, pieces);
    var line := |lf| + |LineText(r, "")|;
    if |buffer| <= line {
      var saved := Saved(None, buffer);
      if buffer == "" || pieces == [] {
        NothingToUse(lf, r, more, buffer, pieces);
      } else {
        var next := buffer + pieces[0];
        assert next + Concat(pieces[1..]) == Ahead(lf, r, more) by {
          assert Concat(pieces) == pieces[0] + Concat(pieces[1..]);
        }
        ReadingOn(lf, r, more, next, pieces[1..]);
        GoesOn(buffer, pieces);
      }
    }
  }

  lemma NothingToUse(lf: string, r: Response, more: string, buffer: string, pieces: seq<string>)
    requires Answerable(r) && (buffer == "" || pieces == [])
    ensures Called(lf, r, more, GetAll(Saved(None, buffer), pieces), None)
  {
  }

  lemma GoesOn(buffer: string, pieces: seq<string>)
    requires buffer != "" && pieces != []
    ensures GetAll(Saved(None, buffer), pieces) == RestOfCall(ScanLine(buffer + pieces[0], pieces[1..]))
  {
    hide ScanLine;
    LineIsStuck(buffer + pieces[0], pieces[1..]);
  }

  /** One call, from whatever the calls before it kept. */
  lemma OneCall(lf: string, r: Response, more: string, kept: string, polls: bool, pieces: seq<string>)
    requires IsLineFeed(lf) && Answerable(r) && Plain(r) && AfterHeaders(more)
    requires kept + Concat(pieces) == Ahead(lf, r, more)
    ensures Called(lf, r, more, GetNext(Kept(kept), polls, pieces),
                   StartsWith(|lf| + |LineText(r, "")|, |kept|, polls, pieces))
  {
    hide ScanLine, Answerable, Plain, AfterHeaders, Ahead, LineText, Called, ReadsTo;
    if kept != "" && !polls {
      ReadingOn(lf, r, more, kept, pieces);
    } else if pieces != [] {
      var next := kept + pieces[0];
      assert next + Concat(pieces[1..]) == Ahead(lf, r, more) by {
        assert Concat(pieces) == pieces[0] + Concat(pieces[1..]);
      }
      ReadingOn(lf, r, more, next, pieces[1..]);
      assert kept == "" ==> next == pieces[0];
    } else {
      NothingToRead(lf, r, more, kept, polls);
    }
  }

  lemma NothingToRead(lf: string, r: Response, more: string, kept: string, polls: bool)
    requires Answerable(r) && (kept == "" || polls)
    ensures Called(lf, r, more, GetNext(Kept(kept), polls, []), None)
  {
  }

  // --- Any number of calls ------------------------------------------------------------------------

  lemma TextsStart(rs: seq<Response>)
    requires AllAnswerable(rs)
    ensures AfterHeaders(Texts(rs)) && (Texts(rs) == "" <==> rs == [])
  {
    if rs != [] {
      assert Answerable(rs[0]);
      ProtocolIsWord(rs[0].protocol);
      assert Texts(rs)[0] == rs[0].protocol[0];
    }
  }

  /** What a successful call leaves is the text of the others. */
  lemma LeavesOthers(lf: string, r: Response, more: string, kept: string, polls: bool, pieces: seq<string>,
                     n: nat, rest: seq<string>)
    requires kept + Concat(pieces) == Ahead(lf, r, more)
    requires StartsWith(|lf| + |LineText(r, "")|, |kept|, polls, pieces) == Some((n, rest))
    ensures n <= |Ahead(lf, r, more)| && Concat(rest) == Ahead(lf, r, more)[n..]
  {
    hide Ahead, LineText, ReadsTo;
    if |kept| > 0 && !polls {
      ReadsLeaves(|lf| + |LineText(r, "")|, kept, pieces);
    } else if pieces != [] {
      assert kept + pieces[0] + Concat(pieces[1..]) == kept + Concat(pieces);
      ReadsLeaves(|lf| + |LineText(r, "")|, kept + pieces[0], pieces[1..]);
    }
  }

  lemma {:induction false} ReadsLeaves(line: nat, buffer: string, pieces: seq<string>)
    ensures var all, to := buffer + Concat(pieces), ReadsTo(line, |buffer|, pieces);
      to.Some? ==> to.value.0 <= |all| && Concat(to.value.1) == all[to.value.0..]
    decreases |pieces|
  {
    if |buffer| <= line && buffer != "" && pieces != [] {
      assert buffer + pieces[0] + Concat(pieces[1..]) == buffer + Concat(pieces);
      ReadsLeaves(line, buffer + pieces[0], pieces[1..]);
    } else {
      assert (buffer + Concat(pieces))[|buffer|..] == Concat(pieces);
    }
  }

  lemma ReturnedHead(reply: Reply, rest: seq<Reply>, rs: seq<Response>)
    requires AllAnswerable(rs) && rs != []
    ensures AllReturned([reply] + rest, rs)
       <==> reply.Returns? && reply.response == Answer(rs[0]) && AllReturned(rest, rs[1..])
  {
    hide Answerable, Answer;
    var replies := [reply] + rest;
    if AllReturned(replies, rs) {
      forall i | 0 <= i < |rs| - 1 ensures rest[i].Returns? && rest[i].response == Answer(rs[1..][i]) {
        assert replies[i + 1] == rest[i];
      }
      assert replies[0] == reply;
    }
  }

  lemma {:induction false} CallsFit(lf: string, kept: string, rs: seq<Response>, polls: seq<bool>, pieces: seq<string>)
    requires AllAnswerable(rs) && AllPlain(rs) && |polls| == |rs| && IsLineFeed(lf)
    requires kept + Concat(pieces) == lf + Texts(rs)
    ensures AllReturned(Calls(Kept(kept), polls, pieces), rs) <==> Fits(|lf|, |kept|, rs, polls, pieces)
    decreases |rs|
  {
    hide GetNext, Answerable, Plain, Answer, Called, Serialized, LineText, StartsWith, IsLineFeed;
    if rs != [] {
      hide AllReturned;
      var r, more := rs[0], Texts(rs[1..]);
      TextsStart(rs[1..]);
      assert kept + Concat(pieces) == Ahead(lf, r, more);
      OneCall(lf, r, more, kept, polls[0], pieces);
      var reading := GetNext(Kept(kept), polls[0], pieces);
      var start := StartsWith(|lf| + |LineText(r, "")|, |kept|, polls[0], pieces);
      AfterCall(lf, kept, rs, polls, pieces, reading, start);
    }
  }

  /** The state before a call, and what comes of it. */
  ghost predicate Before(lf: string, kept: string, rs: seq<Response>, polls: seq<bool>, pieces: seq<string>,
                         reading: Reading, start: Option<(nat, seq<string>)>)
  {
    && rs != [] && AllAnswerable(rs) && AllPlain(rs) && |polls| == |rs| && IsLineFeed(lf)
    && kept + Concat(pieces) == Ahead(lf, rs[0], Texts(rs[1..]))
    && reading == GetNext(Kept(kept), polls[0], pieces)
    && start == StartsWith(|lf| + |LineText(rs[0], "")|, |kept|, polls[0], pieces)
    && Called(lf, rs[0], Texts(rs[1..]), reading, start)
  }

  lemma AfterCall(lf: string, kept: string, rs: seq<Response>, polls: seq<bool>, pieces: seq<string>,
                  reading: Reading, start: Option<(nat, seq<string>)>)
    requires Before(lf, kept, rs, polls, pieces, reading, start)
    ensures AllReturned(Calls(Kept(kept), polls, pieces), rs) <==> Fits(|lf|, |kept|, rs, polls, pieces)
    decreases |rs|, 0
  {
    hide GetNext, Answerable, AllPlain, Answer, Serialized, LineText, StartsWith, Texts, Calls, AllReturned, Fits;
    var size := |lf| + |Serialized(rs[0])|;
    CallsHead(kept, rs, polls, pieces);
    FitsHead(|lf|, |kept|, rs, polls, pieces);
    if start.Some? && start.value.0 >= size {
      WholeRead(lf, kept, rs, polls, pieces, reading, start);
    } else if start.Some? && start.value.0 == size - 1 && rs[0].body == "" {
      LineFeedLeft(lf, kept, rs, polls, pieces, reading, start);
    }
  }

  lemma WholeRead(lf: string, kept: string, rs: seq<Response>, polls: seq<bool>, pieces: seq<string>,
                  reading: Reading, start: Option<(nat, seq<string>)>)
    requires Before(lf, kept, rs, polls, pieces, reading, start)
    requires start.Some? && start.value.0 >= |lf| + |Serialized(rs[0])|
    ensures reading.Got? && reading.result.Returns? && reading.result.response == Answer(rs[0])
    ensures AllReturned(Calls(After(reading.result), polls[1..], reading.unread), rs[1..])
       <==> Fits(0, start.value.0 - (|lf| + |Serialized(rs[0])|), rs[1..], polls[1..], start.value.1)
    decreases |rs|, -1
  {
    hide GetNext, Answerable, Plain, Answer, Serialized, LineText, StartsWith, Texts, Calls, AllReturned, Fits;
    var size, more := |lf| + |Serialized(rs[0])|, Texts(rs[1..]);
    var (n, rest) := start.value;
    var t := Ahead(lf, rs[0], more);
    LeavesOthers(lf, rs[0], more, kept, polls[0], pieces, n, rest);
    OthersAhead(lf, rs[0], more, n);
    assert t[size..n] + t[n..] == t[size..];
    CallsFit("", t[size..n], rs[1..], polls[1..], rest);
  }

  lemma LineFeedLeft(lf: string, kept: string, rs: seq<Response>, polls: seq<bool>, pieces: seq<string>,
                     reading: Reading, start: Option<(nat, seq<string>)>)
    requires Before(lf, kept, rs, polls, pieces, reading, start)
    requires start.Some? && start.value.0 == |lf| + |Serialized(rs[0])| - 1 && rs[0].body == ""
    ensures reading.Got? && reading.result.Returns? && reading.result.response == Answer(rs[0])
    ensures AllReturned(Calls(After(reading.result), polls[1..], reading.unread), rs[1..])
       <==> Fits(1, 0, rs[1..], polls[1..], start.value.1)
    decreases |rs|, -1
  {
    hide GetNext, Answerable, Plain, Answer, Serialized, LineText, StartsWith, Texts, Calls, AllReturned, Fits;
    var (n, rest) := start.value;
    LeavesOthers(lf, rs[0], Texts(rs[1..]), kept, polls[0], pieces, n, rest);
    OthersAhead(lf, rs[0], Texts(rs[1..]), n);
    assert "" + Concat(rest) == Concat(rest);
    CallsFit("\n", "", rs[1..], polls[1..], rest);
  }

  lemma CallsHead(kept: string, rs: seq<Response>, polls: seq<bool>, pieces: seq<string>)
    requires rs != [] && AllAnswerable(rs) && |polls| == |rs|
    ensures var reading := GetNext(Kept(kept), polls[0], pieces);
      AllReturned(Calls(Kept(kept), polls, pieces), rs) <==>
        && reading.Got?
        && reading.result.Returns? && reading.result.response == Answer(rs[0])
        && AllReturned(Calls(After(reading.result), polls[1..], reading.unread), rs[1..])
  {
    hide GetNext, Answerable, Answer, AllReturned;
    var reading := GetNext(Kept(kept), polls[0], pieces);
    if reading.Got? {
      ReturnedHead(reading.result, Calls(After(reading.result), polls[1..], reading.unread), rs);
    } else {
      NoReplies(rs);
    }
  }

  lemma FitsHead(lf: nat, have: nat, rs: seq<Response>, polls: seq<bool>, pieces: seq<string>)
    requires rs != [] && |polls| == |rs|
    ensures var start := StartsWith(lf + |LineText(rs[0], "")|, have, polls[0], pieces);
      var size := lf + |Serialized(rs[0])|;
      && (start.None? ==> !Fits(lf, have, rs, polls, pieces))
      && (start.Some? && start.value.0 >= size ==>
            (Fits(lf, have, rs, polls, pieces) <==> Fits(0, start.value.0 - size, rs[1..], polls[1..], start.value.1)))
      && (start.Some? && start.value.0 == size - 1 && rs[0].body == "" ==>
            (Fits(lf, have, rs, polls, pieces) <==> Fits(1, 0, rs[1..], polls[1..], start.value.1)))
      && (start.Some? && start.value.0 < size && !(start.value.0 == size - 1 && rs[0].body == "") ==>
            !Fits(lf, have, rs, polls, pieces))
  {
    hide Serialized, LineText, StartsWith;
  }

  lemma NoReplies(rs: seq<Response>)
    requires AllAnswerable(rs) && rs != []
    ensures !AllReturned([], rs)
  {
  }

  lemma OthersAhead(lf: string, r: Response, more: string, n: nat)
    requires n <= |Ahead(lf, r, more)|
    ensures var t, size := Ahead(lf, r, more), |lf| + |Serialized(r)|;
      && size <= |t| && t[size..] == "" + more
      && (n == size - 1 && r.body == "" ==> t[n..] == "\n" + more)
  {
    hide Serialized;
    var t := Ahead(lf, r, more);
    var front := lf + Serialized(r);
    assert t == front + more && t[|front|..] == more == "" + more;
    if r.body == "" {
      EndsInLineFeed(r);
      LastAndMore(front, more);
    }
  }

  lemma LastAndMore(front: string, more: string)
    requires front != ""
    ensures (front + more)[|front| - 1..] == [front[|front| - 1]] + more
  {
  }

  lemma EndsInLineFeed(r: Response)
    requires r.body == ""
    ensures Serialized(r) != "" && Serialized(r)[|Serialized(r)| - 1] == '\n'
  {
    hide SentResponseHeaders, HeaderLines, Print;
    ResponseText(r);
    assert Serialized(r)[|Serialized(r)| - 1] == "\r\n"[1];
  }

  lemma {:induction false} CallsArePlain(before: Carried, polls: seq<bool>, pieces: seq<string>)
    ensures forall i | 0 <= i < |Calls(before, polls, pieces)| ::
      PlainIfReturned(Got(Calls(before, polls, pieces)[i], []))
    decreases |polls|
  {
    hide GetNext, Plain;
    if polls != [] {
      NextIsPlain(before, polls[0], pieces);
      var reading := GetNext(before, polls[0], pieces);
      if reading.Got? {
        CallsArePlain(After(reading.result), polls[1..], reading.unread);
      }
    }
  }

  lemma NotAllReturned(replies: seq<Reply>, rs: seq<Response>)
    requires AllAnswerable(rs) && !AllPlain(rs)
    requires forall i | 0 <= i < |replies| :: PlainIfReturned(Got(replies[i], []))
    ensures !AllReturned(replies, rs)
  {
    hide Answerable, Plain, Answer;
    var i: nat :| i < |rs| && !Plain(rs[i]);
    assert Answerable(rs[i]);
    AnswerIsPlain(rs[i]);
    assert i < |replies| ==> PlainIfReturned(Got(replies[i], []));
  }

  /** Any number of responses, in any number of reads, with any answers of poll: as many calls return
      all of them in order exactly when their reasons and bodies are plain, and each call that sees a
      status line has all of its response. */
  lemma ResponsesExact(rs: seq<Response>, polls: seq<bool>, pieces: seq<string>)
    requires AllAnswerable(rs) && |polls| == |rs| && Concat(pieces) == Texts(rs)
    ensures AllReturned(Calls(Kept(""), polls, pieces), rs) <==> AllPlain(rs) && Fits(0, 0, rs, polls, pieces)
  {
    hide Calls, AllReturned, AllAnswerable, Fits, Texts;
    if AllPlain(rs) {
      assert "" + Concat(pieces) == "" + Texts(rs);
      CallsFit("", "", rs, polls, pieces);
    } else {
      hide AllPlain;
      CallsArePlain(Kept(""), polls, pieces);
      NotAllReturned(Calls(Kept(""), polls, pieces), rs);
    }
  }

  // --- One response in several reads ---------------------------------------------------------------

  /** The call returns this. */
  predicate Gives(reading: Reading, reply: Reply) { reading.Got? && reading.result == reply }

  /** Every read but the last ends before the line end of the status line; only the line feed at
      the very end may be missing, when there is no body. What comes after the end does not matter. */
  predicate CutsInStatusLine(r: Response, pieces: seq<string>) {
    forall i | 0 < i < |pieces| :: MayMiss(r, |Concat(pieces[i..])|)
  }

  predicate MayMiss(r: Response, missing: nat) {
    missing == 0 || missing >= |Tail(r, "")| || (missing == 1 && r.body == "")
  }

  predicate SeesAll(r: Response, start: Option<(nat, seq<string>)>) {
    var size := |Serialized(r)|;
    start.Some? && (start.value.0 == size || (start.value.0 == size - 1 && r.body == ""))
  }

  lemma ConcatHead(pieces: seq<string>)
    ensures pieces == [] ==> |Concat(pieces)| == 0
    ensures pieces != [] ==> |Concat(pieces)| == |pieces[0]| + |Concat(pieces[1..])|
  {
  }

  lemma {:induction false} ReadsAll(r: Response, have: nat, pieces: seq<string>)
    requires have > 0 && have + |Concat(pieces)| == |Serialized(r)|
    ensures SeesAll(r, ReadsTo(|LineText(r, "")|, have, pieces))
       <==> forall i | 0 <= i < |pieces| :: MayMiss(r, |Concat(pieces[i..])|)
    decreases |pieces|
  {
    hide Serialized, LineText, Tail, Concat;
    Sizes("", r, "");
    ConcatHead(pieces);
    assert pieces != [] ==> pieces[0..] == pieces;
    assert pieces == [] ==> |Concat(pieces)| == 0;
    if have <= |LineText(r, "")| && pieces != [] {
      ReadsAll(r, have + |pieces[0]|, pieces[1..]);
      forall i | 0 < i < |pieces| ensures pieces[i..] == pieces[1..][i - 1..] {
      }
      assert forall i | 0 <= i < |pieces| - 1 :: pieces[1..][i..] == pieces[i + 1..];
    } else {
      FewMissing(r, pieces);
    }
  }

  /** When no more than the last line feed is missing, it does not matter how the rest is cut. */
  lemma {:induction false} FewMissing(r: Response, pieces: seq<string>)
    ensures |Concat(pieces)| == 0 || (|Concat(pieces)| == 1 && r.body == "") ==>
      forall i | 0 <= i < |pieces| :: MayMiss(r, |Concat(pieces[i..])|)
    decreases |pieces|
  {
    hide Tail;
    if pieces != [] {
      FewMissing(r, pieces[1..]);
      forall i | 0 < i < |pieces| ensures pieces[i..] == pieces[1..][i - 1..] {
      }
      assert pieces[0..] == pieces;
    }
  }

  lemma StartsWithAll(r: Response, polls: bool, pieces: seq<string>)
    requires Concat(pieces) == Serialized(r)
    ensures pieces != []
    ensures SeesAll(r, StartsWith(|LineText(r, "")|, 0, polls, pieces))
       <==> pieces[0] != "" && CutsInStatusLine(r, pieces)
  {
    hide Serialized, LineText, Tail, MayMiss;
    Sizes("", r, "");
    assert pieces == [] ==> |Concat(pieces)| == 0;
    if pieces[0] != "" {
      ReadsAll(r, |pieces[0]|, pieces[1..]);
      forall i | 0 < i < |pieces| ensures pieces[i..] == pieces[1..][i - 1..] {
      }
      assert forall i | 0 <= i < |pieces| - 1 :: pieces[1..][i..] == pieces[i + 1..];
    }
  }

  /** A response that arrives in any number of reads is returned exactly when its reason and its body
      are plain, the first read is not empty, and none ends between the line end of the status line
      and the end of the response. Otherwise getResponse returns something else, or jumps back for
      ever without reading what has arrived. */
  lemma SeveralReadsExact(r: Response, polls: bool, pieces: seq<string>)
    requires Answerable(r) && Concat(pieces) == Serialized(r)
    ensures pieces != []
    ensures Gives(GetNext(Kept(""), polls, pieces), Returns(Answer(r), ""))
       <==> Plain(r) && pieces[0] != "" && CutsInStatusLine(r, pieces)
  {
    hide GetNext, Serialized, CutsInStatusLine, Answerable, Plain, Answer, LineText, StartsWith, Tail;
    NextIsPlain(Kept(""), polls, pieces);
    AnswerIsPlain(r);
    StartsWithAll(r, polls, pieces);
    if Plain(r) {
      assert Serialized(r) + "" == Serialized(r) && "" + Serialized(r) == Serialized(r);
      assert "" + Concat(pieces) == Concat(pieces);
      OneCall("", r, "", "", polls, pieces);
      var start := StartsWith(|LineText(r, "")|, 0, polls, pieces);
      Sizes("", r, "");
    }
  }

  /** Read in one piece, the response comes back with all its parts, and its own headers completed,
      exactly when its status code is not negative, and its reason and its body are plain. */
  lemma ResponseComesBack(r: Response, polls: bool)
    requires Answerable(r)
    ensures (exists hs | Completes(hs, r.headers, r.body) ::
               Gives(GetNext(Kept(""), polls, [Serialized(r)]), Returns(r.(headers := hs), "")))
       <==> r.status >= 0 && Plain(r)
  {
    hide GetNext, Serialized, SentResponseHeaders, WellFormedHeaders, BodyFits, AfterHeaders;
    hide Completes, CutsInStatusLine;
    var whole := [Serialized(r)];
    assert whole[1..] == [] && Concat(whole) == Serialized(r) + "" == Serialized(r);
    assert CutsInStatusLine(r, whole) by { OneRead(r, whole); }
    assert Serialized(r) != "" by { Sizes("", r, ""); }
    SeveralReadsExact(r, polls, whole);
    NextIsPlain(Kept(""), polls, whole);
    SentHeadersComplete(r);
    if r.status >= 0 && Plain(r) {
      assert Answer(r) == r.(headers := SentResponseHeaders(r));
    }
  }

  lemma OneRead(r: Response, pieces: seq<string>)
    requires |pieces| == 1
    ensures CutsInStatusLine(r, pieces)
  {
  }

  // --- Responses that arrive together ---------------------------------------------------------------

  /** What as many calls should return: each response, and the bytes of those that follow it kept. */
  function Replies(rs: seq<Response>): seq<Reply>
    requires AllAnswerable(rs)
  {
    if rs == [] then [] else [Returns(Answer(rs[0]), Texts(rs[1..]))] + Replies(rs[1..])
  }

  function Never(n: nat): seq<bool> { seq(n, _ => false) }

  lemma NextCall(rs: seq<Response>)
    requires rs != [] && AllAnswerable(rs) && AllPlain(rs)
    ensures GetNext(Kept(Texts(rs)), false, []) == Got(Returns(Answer(rs[0]), Texts(rs[1..])), [])
    ensures GetNext(Kept(""), false, [Texts(rs)]) == Got(Returns(Answer(rs[0]), Texts(rs[1..])), [])
  {
    hide GetNext, Answerable, Plain, Texts, Answer;
    assert Texts(rs) + Concat([]) == Texts(rs);
    WholeTexts(rs, Texts(rs), []);
    assert [Texts(rs)][1..] == [];
    assert "" + Concat([Texts(rs)]) == Texts(rs) by { assert Texts(rs) + "" == Texts(rs); }
    WholeTexts(rs, "", [Texts(rs)]);
  }

  lemma WholeTexts(rs: seq<Response>, kept: string, pieces: seq<string>)
    requires rs != [] && AllAnswerable(rs) && AllPlain(rs)
    requires kept + Concat(pieces) == Texts(rs) && (pieces == [] || (kept == "" && pieces == [Texts(rs)]))
    ensures GetNext(Kept(kept), false, pieces) == Got(Returns(Answer(rs[0]), Texts(rs[1..])), [])
  {
    hide GetNext, Answerable, Plain, Serialized, AfterHeaders, Answer, LineText, Tail, Called;
    var r, more := rs[0], Texts(rs[1..]);
    TextsStart(rs);
    TextsStart(rs[1..]);
    Sizes("", r, more);
    assert "" + (Serialized(r) + more) == Serialized(r) + more;
    OneCall("", r, more, kept, false, pieces);
    OthersAhead("", r, more, |Texts(rs)|);
    assert "" + more == more;
    AllSeen(r, more, GetNext(Kept(kept), false, pieces), |Texts(rs)|);
  }

  lemma AllSeen(r: Response, more: string, reading: Reading, n: nat)
    requires Answerable(r) && n == |Ahead("", r, more)| && n >= |Serialized(r)|
    requires Ahead("", r, more)[|Serialized(r)|..] == more
    requires Called("", r, more, reading, Some((n, [])))
    ensures reading == Got(Returns(Answer(r), more), [])
  {
    hide Serialized, Answer, LineText, Ahead;
    assert Ahead("", r, more)[|Serialized(r)|..n] == more;
  }

  lemma {:induction false} KeptResponsesArrive(rs: seq<Response>)
    requires AllAnswerable(rs) && AllPlain(rs)
    ensures Calls(Kept(Texts(rs)), Never(|rs|), []) == Replies(rs)
  {
    hide GetNext, Answerable, Plain, Texts, Answer;
    if rs != [] {
      NextCall(rs);
      assert Never(|rs|)[1..] == Never(|rs[1..]|);
      KeptResponsesArrive(rs[1..]);
    }
  }

  lemma {:induction false} RepliesReturn(rs: seq<Response>)
    requires AllAnswerable(rs)
    ensures AllReturned(Replies(rs), rs)
  {
    hide Answer, Answerable, Texts, AllReturned;
    if rs == [] {
      assert AllReturned([], rs) by { NothingReturned(rs); }
    } else {
      RepliesReturn(rs[1..]);
      ReturnedHead(Returns(Answer(rs[0]), Texts(rs[1..])), Replies(rs[1..]), rs);
    }
  }

  lemma NothingReturned(rs: seq<Response>)
    requires rs == []
    ensures AllReturned([], rs)
  {
  }

  lemma CallsStep(before: Carried, polls: seq<bool>, pieces: seq<string>)
    requires polls != [] && GetNext(before, polls[0], pieces).Got?
    ensures var reading := GetNext(before, polls[0], pieces);
      Calls(before, polls, pieces) == [reading.result] + Calls(After(reading.result), polls[1..], reading.unread)
  {
    hide GetNext;
  }

  lemma ArriveTogether(rs: seq<Response>)
    requires AllAnswerable(rs) && AllPlain(rs)
    ensures Calls(Kept(""), Never(|rs|), [Texts(rs)]) == Replies(rs)
  {
    hide GetNext, Answerable, Plain, Texts, Answer, Calls, Replies;
    if rs == [] {
      assert Never(0) == [];
      NoCalls(Kept(""), [Texts(rs)]);
      NoReply();
    } else {
      NextCall(rs);
      CallsStep(Kept(""), Never(|rs|), [Texts(rs)]);
      assert Never(|rs|)[1..] == Never(|rs[1..]|);
      KeptResponsesArrive(rs[1..]);
      RepliesStep(rs);
    }
  }

  lemma NoReply()
    ensures Replies([]) == []
  {
  }

  lemma RepliesStep(rs: seq<Response>)
    requires rs != [] && AllAnswerable(rs)
    ensures Replies(rs) == [Returns(Answer(rs[0]), Texts(rs[1..]))] + Replies(rs[1..])
  {
    hide Answer, Texts, Answerable;
  }

  lemma NoCalls(before: Carried, pieces: seq<string>)
    ensures Calls(before, [], pieces) == []
  {
  }

  /** Pipelined responses that arrive together are returned by as many calls, in order, each with the
      bytes of the following ones kept, exactly when all of them are plain. */
  lemma PipelinedResponsesExact(rs: seq<Response>)
    requires AllAnswerable(rs)
    ensures Calls(Kept(""), Never(|rs|), [Texts(rs)]) == Replies(rs) <==> AllPlain(rs)
  {
    hide GetNext, Answerable, Plain, Texts, Answer, AllReturned, Calls, Replies, AllPlain, AllAnswerable;
    if AllPlain(rs) {
      ArriveTogether(rs);
    } else {
      var replies := Calls(Kept(""), Never(|rs|), [Texts(rs)]);
      CallsArePlain(Kept(""), Never(|rs|), [Texts(rs)]);
      NotAllReturned(replies, rs);
      RepliesReturn(rs);
    }
  }

  lemma {:induction false} AllThrow(polls: seq<bool>, pieces: seq<string>)
    ensures Calls(WithoutBody, polls, pieces) == seq(|polls|, _ => BadAnyCast)
    decreases |polls|
  {
    if polls != [] {
      AllThrow(polls[1..], pieces);
      assert [BadAnyCast] + seq(|polls| - 1, _ => BadAnyCast) == seq(|polls|, _ => BadAnyCast);
    }
  }

  /** After a response without its body, every call throws, whatever arrives. */
  lemma {:induction false} ThrowsFromThenOn(before: Carried, polls: seq<bool>, pieces: seq<string>, i: nat)
    requires i < |Calls(before, polls, pieces)| && Calls(before, polls, pieces)[i].ReturnsWithoutBody?
    ensures i < |polls| && Calls(before, polls, pieces)[i + 1..] == seq(|polls| - i - 1, _ => BadAnyCast)
    decreases |polls|
  {
    hide GetNext;
    var reading := GetNext(before, polls[0], pieces);
    if i == 0 {
      AllThrow(polls[1..], reading.unread);
    } else {
      ThrowsFromThenOn(After(reading.result), polls[1..], reading.unread, i - 1);
    }
  }

  /** An exception that comes of what was read leaves nothing behind. */
  lemma ThrowLeavesNothing(e: Error, polls: bool, pieces: seq<string>)
    ensures GetNext(After(Throws(e)), polls, pieces) == GetAll(Nothing, pieces)
  {
    FirstIsGetAll(polls, pieces);
  }

  // --- Responses that do not come back ----------------------------------------------------------------

  const NEGATIVE := Response("HTTP/1.1", -1, "No", [], "")
  const NO_REASON := Response("HTTP/1.1", 200, "", [], "")
  const WITH_BODY := Response("HTTP/1.1", 200, "OK", [], "ab")

  lemma WithoutHeaders(r: Response)
    requires r.headers == [] && r.protocol == "HTTP/1.1" && -0x8000_0000 <= r.status < 0x8000_0000
    requires AllIn(Line, r.reason) && |r.body| <= 2
    ensures Answerable(r)
  {
    assert FindHeader([], "Content-Length") == 0;
  }

  /** A status of -1 comes back as the largest one. */
  lemma NegativeStatusWraps(polls: bool)
    ensures Answerable(NEGATIVE) && Answer(NEGATIVE).status == 0xFFFF_FFFF
    ensures Gives(GetNext(Kept(""), polls, [Serialized(NEGATIVE)]), Returns(Answer(NEGATIVE), ""))
  {
    hide GetNext, Serialized, SentResponseHeaders, CutsInStatusLine;
    WithoutHeaders(NEGATIVE);
    var whole := [Serialized(NEGATIVE)];
    assert whole[1..] == [] && Concat(whole) == Serialized(NEGATIVE) + "" == Serialized(NEGATIVE);
    OneRead(NEGATIVE, whole);
    Sizes("", NEGATIVE, "");
    SeveralReadsExact(NEGATIVE, polls, whole);
  }

  lemma EmptyReasonIsLost(polls: bool)
    ensures Answerable(NO_REASON)
    ensures !Gives(GetNext(Kept(""), polls, [Serialized(NO_REASON)]), Returns(Answer(NO_REASON), ""))
  {
    hide GetNext, Serialized, SentResponseHeaders;
    WithoutHeaders(NO_REASON);
    NextIsPlain(Kept(""), polls, [Serialized(NO_REASON)]);
    AnswerIsPlain(NO_REASON);
  }

  /** A response whose last byte comes with a second read is not returned whole. */
  lemma CutInBody(polls: bool) returns (pieces: seq<string>)
    ensures Answerable(WITH_BODY) && Plain(WITH_BODY) && |pieces| == 2 && Concat(pieces) == Serialized(WITH_BODY)
    ensures !Gives(GetNext(Kept(""), polls, pieces), Returns(Answer(WITH_BODY), ""))
  {
    hide GetNext, Serialized, SentResponseHeaders, Tail;
    WithoutHeaders(WITH_BODY);
    Sizes("", WITH_BODY, "");
    var text := Serialized(WITH_BODY);
    var n := |text| - 1;
    pieces := [text[..n], text[n..]];
    assert pieces[1..] == [text[n..]] && pieces[1..][1..] == [];
    assert Concat(pieces[1..]) == text[n..] + "" == text[n..];
    assert Concat(pieces) == text[..n] + text[n..] == text;
    assert !MayMiss(WITH_BODY, |Concat(pieces[1..])|);
    SeveralReadsExact(WITH_BODY, polls, pieces);
  }
}
