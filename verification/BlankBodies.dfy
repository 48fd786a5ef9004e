/** The white space that is skipped behind the headers, and the bodies that lose by it. */
module BlankBodies {
  import opened Bytes
  import opened ParsingHelpers
  import opened HttpDataHandler
  import opened Messages
  import opened Chunking
  import opened Sessions
  import opened ChunkingTheorems

  predicate AllFramed(ms: seq<Message>) {
    forall i | 0 <= i < |ms| :: Framed(ms[i])
  }

  predicate NoneBlank(ms: seq<Message>) {
    forall i | 0 <= i < |ms| :: AfterHeaders(ms[i].body)
  }

  lemma {:induction false} LoopEndsAtText(headers: seq<Header>, s: string)
    ensures var r := HeaderLoop(headers, s, false); r.Scanned? && r.endOfHeaders ==> AfterHeaders(r.rest)
    decreases |s|
  {
    hide HeaderEnd, SplitHeader, MoreHeaders;
    var p := HeaderPass(s);
    if p.Found? && p.rest != [] {
      LoopEndsAtText(headers + [p.header], p.rest);
    }
  }

  /** The request a call completes first, and the bytes it goes on with. */
  function First(s: string): (t: Option<(Request, string)>)
    ensures t.Some? ==> |t.value.1| < |s|
  {
    match ExtractRequestLine(s)
    case Complete(line, rest) =>
      (match HeaderLoop([], rest, false)
       case Scanned(headers, body, true) =>
         (match TakeBody(Request(line.method_, line.url, line.protocol, headers, []), body)
          case GotBody(request, more) => Some((request, more))
          case _ => None)
       case _ => None)
    case _ => None
  }

  lemma FirstThenOthers(s: string)
    ensures ParseNew(s).delivered
         == if First(s).None? then []
            else [First(s).value.0] + if First(s).value.1 == [] then [] else ParseNew(First(s).value.1).delivered
  {
    hide ExtractRequestLine, HeaderLoop, TakeBody, First;
    match ExtractRequestLine(s)
    case Complete(line, rest) => ContinueDelivers(s, Request(line.method_, line.url, line.protocol, [], []), rest);
    case _ => NoFirst(s);
  }

  lemma NoFirst(s: string)
    requires !ExtractRequestLine(s).Complete?
    ensures First(s).None?
  {
  }

  lemma ContinueDelivers(s: string, r: Request, rest: string)
    requires ExtractRequestLine(s).Complete? && rest == ExtractRequestLine(s).rest
    requires var line := ExtractRequestLine(s).value; r == Request(line.method_, line.url, line.protocol, [], [])
    ensures Continue(r, rest, false).delivered
         == if First(s).None? then []
            else [First(s).value.0] + if First(s).value.1 == [] then [] else ParseNew(First(s).value.1).delivered
  {
    hide ExtractRequestLine, HeaderLoop, TakeBody, ParseNew;
    match HeaderLoop([], rest, false)
    case Scanned(headers, body, end) =>
      assert Continue(r, rest, false) == Finish(r.(headers := headers), body, end);
    case HeadersThrow(_) =>
  }

  /** No request that one call both starts and completes has a body that starts with white space. */
  lemma {:induction false} NoBlankBodies(s: string)
    ensures forall i | 0 <= i < |ParseNew(s).delivered| :: AfterHeaders(ParseNew(s).delivered[i].body)
    decreases |s|
  {
    hide ParseNew, First, AfterHeaders;
    FirstThenOthers(s);
    if First(s).Some? {
      FirstIsNotBlank(s);
      NoBlankBodies(First(s).value.1);
    }
  }

  lemma FirstIsNotBlank(s: string)
    ensures First(s).Some? ==> AfterHeaders(First(s).value.0.body)
  {
    hide ExtractRequestLine, HeaderLoop, TakeBody, AfterHeaders;
    match ExtractRequestLine(s)
    case Complete(line, rest) =>
      LoopEndsAtText([], rest);
      match HeaderLoop([], rest, false) {
        case Scanned(headers, body, true) =>
          TakenFromText(Request(line.method_, line.url, line.protocol, headers, []), body);
        case _ =>
      }
    case _ =>
  }

  lemma TakenFromText(r: Request, s: string)
    requires r.body == [] && AfterHeaders(s)
    ensures TakeBody(r, s).GotBody? ==> AfterHeaders(TakeBody(r, s).request.body)
  {
  }

  /** Framing and pipelining, exactly: requests with headers and bodies of any kind are all handed
      on by one call if and only if none of the bodies starts with white space. */
  lemma WholeStreamExact(ms: seq<Message>)
    requires AllFramed(ms)
    ensures Delivered(Run(START, [Stream(ms)]), ms) <==> NoneBlank(ms)
  {
    hide Stream, Framed, AfterHeaders, ParseNew;
    if NoneBlank(ms) {
      WholeStream(ms);
    } else {
      var i :| 0 <= i < |ms| && !AfterHeaders(ms[i].body);
      NoBlankBodies(Stream(ms));
      var s := Run(START, [Stream(ms)]);
      assert [Stream(ms)][1..] == [] && Run(Feed(START, Stream(ms)), []) == Feed(START, Stream(ms));
      assert s == Feed(START, Stream(ms));
      assert s.handled == ParseNew(Stream(ms)).delivered;
      assert ExpectedAll(ms)[i].body == ms[i].body;
    }
  }

  const BLANK := Message("GET", "/", "HTTP/1.1", [Header("Content-Length", "1")], " ")

  /** A request that is lost in one piece: its body is a space. */
  lemma BlankBodyIsLost()
    ensures Framed(BLANK) && !Delivered(Run(START, [Stream([BLANK])]), [BLANK])
  {
    hide Run, Stream, Delivered, AllIn, BodyFits, WellFormedHeaders;
    AllIn1('/');
    LengthIs("1", BLANK.body);
    assert [BLANK][0] == BLANK;
    assert AllFramed([BLANK]) && !NoneBlank([BLANK]);
    WholeStreamExact([BLANK]);
  }
}
