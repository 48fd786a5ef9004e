/** What clients serialise, a server's handler receives. */
module RequestRoundTrip {
  import opened ParsingHelpers
  import opened HttpDataHandler
  import opened Messages
  import opened Chunking
  import opened Sessions
  import opened ChunkingTheorems
  import opened BlankBodies
  import opened ParseUrl
  import opened DamonRequest

  predicate AllSendable(rs: seq<ClientRequest>) {
    forall i | 0 <= i < |rs| :: Sendable(rs[i])
  }

  function MessagesOf(rs: seq<ClientRequest>): (ms: seq<Message>)
    requires AllSendable(rs)
    ensures |ms| == |rs|
    ensures forall i | 0 <= i < |rs| :: ms[i] == ToMessage(rs[i]).value
  {
    seq(|rs|, i requires 0 <= i < |rs| => ToMessage(rs[i]).value)
  }

  /** The texts that `serialize` returns. */
  function TextsOf(rs: seq<ClientRequest>): (ts: seq<string>)
    requires AllSendable(rs)
    ensures |ts| == |rs|
    ensures forall i | 0 <= i < |rs| :: ts[i] == Stream([ToMessage(rs[i]).value])
  {
    seq(|rs|, i requires 0 <= i < |rs| => Stream([ToMessage(rs[i]).value]))
  }

  /** The request the server's handler should be given. */
  function Received(r: ClientRequest): Request
    requires Sendable(r)
  {
    var u := ParseURL(r.url).value;
    Request(MethodWord(r.method_).value, u.resource, "HTTP/1.1", SentHeaders(r, u), r.body)
  }

  lemma StreamConcat(m: Message, ms: seq<Message>)
    ensures Stream([m] + ms) == Stream([m]) + Stream(ms)
  {
    hide RequestText, Section;
    StreamHead(m, ms, "");
    StreamHead(m, [], Stream(ms));
    assert [m] + [] == [m] && Stream([]) == "";
    assert Stream([m] + ms) + "" == Stream([m] + ms) && Stream(ms) + "" == Stream(ms) && "" + Stream(ms) == Stream(ms);
  }

  lemma {:induction false} TextsAreStream(rs: seq<ClientRequest>)
    requires AllSendable(rs)
    ensures Concat(TextsOf(rs)) == Stream(MessagesOf(rs))
    decreases |rs|
  {
    hide ToMessage, Sendable, Stream;
    if rs != [] {
      TextsAreStream(rs[1..]);
      var ms := MessagesOf(rs);
      assert ms[1..] == MessagesOf(rs[1..]) && ms == [ms[0]] + ms[1..];
      StreamConcat(ms[0], MessagesOf(rs[1..]));
      assert TextsOf(rs)[1..] == TextsOf(rs[1..]);
    } else {
      StreamNonEmpty(MessagesOf(rs));
    }
  }

  lemma MessagesAreFramed(rs: seq<ClientRequest>)
    requires AllSendable(rs)
    ensures AllFramed(MessagesOf(rs))
    ensures NoneBlank(MessagesOf(rs)) <==> NoneBlankSent(rs)
    ensures NoneBlankSent(rs) ==> AllWellFormed(MessagesOf(rs))
  {
    hide Framed, Sendable, AfterHeaders, ToMessage;
    var ms := MessagesOf(rs);
    forall i | 0 <= i < |rs| ensures Framed(ms[i]) && ms[i].body == rs[i].body {
      assert Sendable(rs[i]);
      SendableIsFramed(rs[i]);
      KeepsBody(rs[i]);
    }
  }

  lemma KeepsBody(r: ClientRequest)
    requires Sendable(r)
    ensures ToMessage(r).value.body == r.body
  {
  }

  predicate NoneBlankSent(rs: seq<ClientRequest>) {
    forall i | 0 <= i < |rs| :: AfterHeaders(rs[i].body)
  }

  /** All the requests, and nothing else, were handed on in order. */
  predicate Arrived(s: Session, rs: seq<ClientRequest>)
    requires AllSendable(rs)
  {
    s.error.None? && |s.handled| == |rs| && forall i | 0 <= i < |rs| :: s.handled[i] == Received(rs[i])
  }

  lemma DeliveredIsArrived(s: Session, rs: seq<ClientRequest>)
    requires AllSendable(rs)
    ensures Delivered(s, MessagesOf(rs)) <==> Arrived(s, rs)
  {
    hide Sendable, Received, ToMessage;
    forall i | 0 <= i < |rs| ensures ExpectedAll(MessagesOf(rs))[i] == Received(rs[i]) {
      assert Sendable(rs[i]);
      ExpectedIsReceived(rs[i]);
    }
  }

  lemma ExpectedIsReceived(r: ClientRequest)
    requires Sendable(r)
    ensures Expected(ToMessage(r).value) == Received(r)
  {
    hide ParseURL, SentHeaders, WellFormedHeaders, BodyFits;
  }

  /** What arrives is what the client asked for. */
  lemma ReceivedAsAsked(r: ClientRequest, g: Groups) returns (m: Message, authorization: seq<Header>)
    requires Sendable(r) && Printable(g) && r.url == Text(g) && ByteUser(g)
    ensures Received(r) == Expected(m) && Asks(m, r, g, authorization)
  {
    hide ToMessage, Received, Asks, UrlOf, Printable, Text, ParseURL;
    IsMessage(r);
    NotSent(r);
    ParsePrinted(g);
    m, authorization := SentRequest(r, g);
    ExpectedIsReceived(r);
  }

  lemma IsMessage(r: ClientRequest)
    requires Sendable(r)
    ensures ToMessage(r).Ok?
  {
  }

  /** Pipelining: one call on all the texts hands on all the requests, with their added headers
      and their bodies, in order, exactly when no body starts with white space. */
  lemma PipelinedRequestsArrive(rs: seq<ClientRequest>)
    requires AllSendable(rs)
    ensures Arrived(Run(START, [Concat(TextsOf(rs))]), rs) <==> NoneBlankSent(rs)
  {
    hide Sendable, Run, Stream, Delivered, Arrived, AllFramed, NoneBlank;
    var ms := MessagesOf(rs);
    MessagesAreFramed(rs);
    TextsAreStream(rs);
    WholeStreamExact(ms);
    DeliveredIsArrived(Run(START, [Stream(ms)]), rs);
  }

  /** Chunking: so does any sequence of calls whose cuts avoid the bodies. */
  lemma ChunkedRequestsArrive(rs: seq<ClientRequest>, chunks: seq<string>)
    requires AllSendable(rs) && NoneBlankSent(rs) && Concat(chunks) == Concat(TextsOf(rs))
    requires AvoidsBodies(MessagesOf(rs), chunks)
    ensures Arrived(Run(START, chunks), rs)
  {
    hide Sendable, Run, Stream, Delivered, Arrived, AllFramed, AllWellFormed, AvoidsBodies;
    MessagesAreFramed(rs);
    TextsAreStream(rs);
    ChunkingIndependence(MessagesOf(rs), chunks);
    DeliveredIsArrived(Run(START, chunks), rs);
  }
}
