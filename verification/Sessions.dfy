/** Whole runs of the request parser: one connection, any number of chunks. */
module Sessions {
  import opened Bytes
  import opened ParsingHelpers
  import opened HttpDataHandler
  import opened Chunking

  /** An exception ends the session: the connection handler drops the connection. */
  datatype Session = Session(attribute: Attribute, handled: seq<Request>, error: Option<Error>)

  const START := Session(Empty, [], None)

  function Feed(s: Session, chunk: string): Session {
    if s.error.Some? then s else
    var o := OnData(s.attribute, chunk);
    Session(o.attribute, s.handled + o.delivered, o.error)
  }

  function Run(s: Session, chunks: seq<string>): Session
    decreases |chunks|
  {
    if chunks == [] then s else Run(Feed(s, chunks[0]), chunks[1..])
  }

  function Concat(chunks: seq<string>): string {
    if chunks == [] then "" else chunks[0] + Concat(chunks[1..])
  }

  /** Every call of the run meets the guard of line 87. */
  predicate AllClean(s: Session, chunks: seq<string>)
    decreases |chunks|
  {
    chunks != [] ==> ResumesCleanly(s.attribute, chunks[0]) && AllClean(Feed(s, chunks[0]), chunks[1..])
  }

  /** Exactly the messages were handed on, in order and unchanged. */
  predicate Delivered(s: Session, ms: seq<Message>) {
    s.error.None? && s.handled == ExpectedAll(ms)
  }

  // --- Sessions that went wrong stay wrong ------------------------------------------------------

  predicate TooManyHeaders(a: Attribute, m: Message) {
    a.Stored? && a.request.Some? && |a.request.value.headers| > |m.headers|
  }

  predicate WrongAt(handled: seq<Request>, ms: seq<Message>, k: int) {
    0 <= k < |handled| && (k < |ms| ==> handled[k] != Expected(ms[k]))
  }

  ghost predicate Wrong(s: Session, ms: seq<Message>) {
    || s.error.Some?
    || (exists k :: WrongAt(s.handled, ms, k))
    || (|s.handled| < |ms| && TooManyHeaders(s.attribute, ms[|s.handled|]))
  }

  lemma WrongIsNotDelivered(s: Session, ms: seq<Message>)
    requires Wrong(s, ms)
    ensures !Delivered(s, ms)
  {
  }

  lemma {:induction false} HeadersGrow(headers: seq<Header>, s: string, end: bool)
    ensures var r := HeaderLoop(headers, s, end); r.Scanned? ==> |r.headers| >= |headers|
    decreases |s|
  {
    hide HeaderPass;
    var p := HeaderPass(s);
    if p.Found? && !(end || p.rest == []) {
      HeadersGrow(headers + [p.header], p.rest, false);
    }
  }

  lemma FinishWrong(r: Request, rest: string, end: bool, handled: seq<Request>, ms: seq<Message>)
    requires |handled| < |ms| && |r.headers| > |ms[|handled|].headers|
    ensures var o := Finish(r, rest, end); Wrong(Session(o.attribute, handled + o.delivered, o.error), ms)
  {
    hide ParseNew, FindHeader;
    var o := Finish(r, rest, end);
    if o.delivered != [] {
      assert o.delivered[0].headers == r.headers;
      assert WrongAt(handled + o.delivered, ms, |handled|);
    } else {
      assert handled + [] == handled;
    }
  }

  lemma FeedWrong(s: Session, chunk: string, ms: seq<Message>)
    requires Wrong(s, ms)
    ensures Wrong(Feed(s, chunk), ms)
  {
    hide ParseNew, HeaderLoop, Finish;
    if s.error.None? {
      var o := OnData(s.attribute, chunk);
      if k :| WrongAt(s.handled, ms, k) {
        assert WrongAt(s.handled + o.delivered, ms, k);
      } else {
        var r := s.attribute.request.value;
        var scan := HeaderLoop(r.headers, s.attribute.leftover + chunk, s.attribute.endOfHeaders);
        HeadersGrow(r.headers, s.attribute.leftover + chunk, s.attribute.endOfHeaders);
        if scan.Scanned? {
          FinishWrong(r.(headers := scan.headers), scan.rest, scan.endOfHeaders, s.handled, ms);
        }
      }
    }
  }

  lemma {:induction false} RunWrong(s: Session, chunks: seq<string>, ms: seq<Message>)
    requires Wrong(s, ms)
    ensures Wrong(Run(s, chunks), ms)
    decreases |chunks|
  {
    hide Wrong, Feed;
    if chunks != [] {
      FeedWrong(s, chunks[0], ms);
      RunWrong(Feed(s, chunks[0]), chunks[1..], ms);
    }
  }

  /** A header end found inside a body ends the session or adds a header that was not sent. */
  lemma UncleanGoesWrong(s: Session, chunk: string, future: string, ms: seq<Message>)
    requires AllWellFormed(ms) && s.error.None?
    requires |s.handled| < |ms| && Holds(s.attribute, chunk + future, ms[|s.handled|..])
    requires !ResumesCleanly(s.attribute, chunk)
    ensures Wrong(Feed(s, chunk), ms)
  {
    hide HeaderEnd, MoreHeaders, Finish, SplitHeader, Wrong, WellFormed, Stream, FindHeader;
    var a := s.attribute;
    var k := |s.handled|;
    var m := ms[k];
    var r := a.request.value;
    var t := a.leftover + chunk;
    var z := m.body + Stream(ms[k..][1..]);
    assert t + future == a.leftover + (chunk + future);
    var lf :| IsLineFeed(lf) && a.leftover + (chunk + future) == lf + z;
    BodyStart(ms[k..]);
    ResumeGap(t, future, lf, z);
    var p := HeaderPass(t);
    assert p.Found? || p.Malformed?;
    assert HeaderLoop(r.headers, t, true)
        == if p.Malformed? then HeadersThrow(p.error) else Scanned(r.headers + [p.header], p.rest, true);
    if p.Malformed? {
      Threw(Feed(s, chunk), ms);
    } else {
      FinishWrong(r.(headers := r.headers + [p.header]), p.rest, true, s.handled, ms);
    }
  }

  lemma Threw(s: Session, ms: seq<Message>)
    requires s.error.Some?
    ensures Wrong(s, ms)
  {
  }

  // --- Exactly which chunkings are delivered ------------------------------------------------------

  /** After the first `|s.handled|` messages, the session stands for the others. */
  ghost predicate OnTrack(s: Session, future: string, ms: seq<Message>) {
    && s.error.None?
    && |s.handled| <= |ms|
    && s.handled == ExpectedAll(ms[..|s.handled|])
    && Holds(s.attribute, future, ms[|s.handled|..])
  }

  lemma FeedOnTrack(s: Session, chunk: string, future: string, ms: seq<Message>)
    requires AllWellFormed(ms) && OnTrack(s, chunk + future, ms) && ResumesCleanly(s.attribute, chunk)
    ensures OnTrack(Feed(s, chunk), future, ms)
  {
    hide Holds, ResumesCleanly, OnData;
    var k := |s.handled|;
    var o := OnData(s.attribute, chunk);
    OnDataGood(s.attribute, chunk, future, ms[k..]);
    var n := |o.delivered|;
    assert ms[k..][n..] == ms[k + n..];
    ExpectedConcat(ms, k, n);
  }

  lemma ExpectedConcat(ms: seq<Message>, k: nat, n: nat)
    requires k + n <= |ms|
    ensures ExpectedAll(ms[..k + n]) == ExpectedAll(ms[..k]) + ExpectedAll(ms[k..][..n])
  {
    hide Expected;
  }

  lemma {:induction false} RunExact(s: Session, chunks: seq<string>, ms: seq<Message>)
    requires AllWellFormed(ms) && OnTrack(s, Concat(chunks), ms)
    ensures Delivered(Run(s, chunks), ms) <==> AllClean(s, chunks)
    decreases |chunks|
  {
    hide Feed, Wrong, ResumesCleanly, Delivered, OnTrack;
    if chunks == [] {
      FinishedOnTrack(s, ms);
    } else if ResumesCleanly(s.attribute, chunks[0]) {
      FeedOnTrack(s, chunks[0], Concat(chunks[1..]), ms);
      RunExact(Feed(s, chunks[0]), chunks[1..], ms);
    } else {
      Unclean(s.attribute, chunks[0]);
      StillMissing(s, Concat(chunks), ms);
      UncleanGoesWrong(s, chunks[0], Concat(chunks[1..]), ms);
      RunWrong(Feed(s, chunks[0]), chunks[1..], ms);
      WrongIsNotDelivered(Run(s, chunks), ms);
    }
  }

  lemma Unclean(a: Attribute, chunk: string)
    requires !ResumesCleanly(a, chunk)
    ensures a.Stored? && a.endOfHeaders
  {
  }

  lemma FinishedOnTrack(s: Session, ms: seq<Message>)
    requires OnTrack(s, "", ms)
    ensures Delivered(s, ms)
  {
    assert ms[..|ms|] == ms;
  }

  lemma StillMissing(s: Session, future: string, ms: seq<Message>)
    requires OnTrack(s, future, ms) && s.attribute.Stored? && s.attribute.endOfHeaders
    ensures s.error.None? && |s.handled| < |ms| && Holds(s.attribute, future, ms[|s.handled|..])
  {
  }

  lemma StartOnTrack(ms: seq<Message>)
    ensures OnTrack(START, Stream(ms), ms)
  {
    assert ms[0..] == ms && ms[..0] == [];
    StreamNonEmpty(ms);
    assert AllIn(Blank, "") && "" + Stream(ms) == Stream(ms);
  }

  /** Chunking: the messages are handed on exactly, whatever the chunks, if and only if no call
      that resumes inside a body meets a header end in the bytes it is given. */
  lemma ChunkingExact(ms: seq<Message>, chunks: seq<string>)
    requires AllWellFormed(ms) && Concat(chunks) == Stream(ms)
    ensures Delivered(Run(START, chunks), ms) <==> AllClean(START, chunks)
  {
    StartOnTrack(ms);
    RunExact(START, chunks, ms);
  }
}
