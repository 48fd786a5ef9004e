/** Streams of pipelined requests (RFC 2616, section 8.1.2.2), cut into chunks anywhere. */
module Chunking {
  import opened Bytes
  import opened Decimal
  import opened ParsingHelpers
  import opened HttpDataHandler
  import opened Messages

  // --- Requests on the wire -----------------------------------------------------------------

  datatype Message = Message(method_: string, url: string, protocol: string, headers: seq<Header>, body: string)

  /** The request a handler should see for a message. */
  function Expected(m: Message): Request {
    Request(m.method_, m.url, m.protocol, m.headers, m.body)
  }

  function ExpectedAll(ms: seq<Message>): (rs: seq<Request>)
    ensures |rs| == |ms|
    ensures forall i | 0 <= i < |ms| :: rs[i] == Expected(ms[i])
  {
    seq(|ms|, i requires 0 <= i < |ms| => Expected(ms[i]))
  }

  /** The first Content-Length says how long the body is; without one there is no body. */
  predicate BodyFits(headers: seq<Header>, body: string) {
    var i := FindHeader(headers, "Content-Length");
    if i == |headers| then body == []
    else ParseUnsigned(headers[i].value, SIZE_LIMIT) == Some(|body|)
  }

  /** The methods and protocols of the original, by name. */
  predicate KnownMethod(w: string) {
    || w == "OPTIONS" || w == "GET" || w == "HEAD" || w == "POST"
    || w == "PUT" || w == "DELETE" || w == "TRACE" || w == "CONNECT"
  }

  predicate KnownProtocol(w: string) {
    w == "HTTP/1.0" || w == "HTTP/1.1"
  }

  lemma KnownIsSupported(w: string)
    ensures KnownMethod(w) <==> w in SUPPORTED_METHODS
    ensures KnownProtocol(w) <==> w in SUPPORTED_PROTOCOLS
  {
  }

  predicate GoodRequestLine(m: Message) {
    && KnownMethod(m.method_)
    && m.url != []
    && AllIn(Word, m.url)
    && KnownProtocol(m.protocol)
  }

  predicate Framed(m: Message) {
    && GoodRequestLine(m)
    && m.headers != []
    && WellFormedHeaders(m.headers)
    && BodyFits(m.headers, m.body)
  }

  /** Framed, and the body does not start with white space, which the handler would skip. */
  predicate WellFormed(m: Message) {
    Framed(m) && AfterHeaders(m.body)
  }

  predicate AllWellFormed(ms: seq<Message>) {
    forall i | 0 <= i < |ms| :: WellFormed(ms[i])
  }

  /** A request line and what follows it. */
  function RequestText(m: Message, rest: string): string {
    m.method_ + (" " + (m.url + (" " + (m.protocol + rest))))
  }

  function Stream(ms: seq<Message>): string {
    if ms == [] then ""
    else RequestText(ms[0], Section(CRLF, ms[0].headers, 0, ms[0].body + Stream(ms[1..])))
  }

  lemma MethodIsWord(m: string)
    requires KnownMethod(m)
    ensures m != [] && AllIn(Word, m)
  {
  }

  lemma ProtocolIsWord(p: string)
    requires KnownProtocol(p)
    ensures p != [] && AllIn(Word, p)
  {
  }

  lemma StreamStart(ms: seq<Message>)
    requires AllWellFormed(ms)
    ensures AfterHeaders(Stream(ms))
  {
    if ms != [] {
      MethodIsWord(ms[0].method_);
      assert Stream(ms)[0] == ms[0].method_[0];
    }
  }

  lemma StreamNonEmpty(ms: seq<Message>)
    ensures Stream(ms) == "" <==> ms == []
  {
  }

  lemma BodyStart(ms: seq<Message>)
    requires ms != [] && AllWellFormed(ms)
    ensures AfterHeaders(ms[0].body + Stream(ms[1..]))
  {
    StreamStart(ms[1..]);
    assert WellFormed(ms[0]);
  }

  // --- The request line, on a prefix ----------------------------------------------------------

  lemma SpanOn(k: CharClass, w: string, y: string, n: nat)
    requires AllIn(k, w) && (y != [] ==> !In(k, y[0]))
    requires n <= |w| + |y|
    ensures Span(k, (w + y)[..n]) == if n <= |w| then n else |w|
  {
    var s := (w + y)[..n];
    assert forall i | 0 <= i < n && i < |w| :: s[i] == w[i];
    assert n > |w| ==> s[|w|] == y[0];
    SpanIs(k, s, if n <= |w| then n else |w|);
  }

  lemma NextTokenOn(k: CharClass, ws: string, w: string, y: string, n: nat)
    requires AllIn(Blank, ws) && w != [] && !IsWS(w[0]) && AllIn(k, w)
    requires y != [] && !In(k, y[0])
    requires n <= |ws| + |w| + |y|
    ensures NextToken((ws + (w + y))[..n], k)
         == if n <= |ws| + |w| then Incomplete else Complete(w, y[..n - |ws| - |w|])
  {
    hide AllIn, Span, NextToken;
    var u := w + y;
    var s := (ws + u)[..n];
    assert u[0] == w[0];
    SpanOn(Blank, ws, u, n);
    if n <= |ws| {
      assert s[n..] == "" && Span(k, "") == 0;
      TokenIs(k, s, n, n);
    } else {
      TokenSlices(ws, w, y, n);
      SpanOn(k, w, y, n - |ws|);
      TokenIs(k, s, |ws|, if n <= |ws| + |w| then n else |ws| + |w|);
    }
  }

  lemma TokenIs(k: CharClass, s: string, start: nat, end: nat)
    requires start <= end <= |s| && Span(Blank, s) == start && Span(k, s[start..]) == end - start
    ensures NextToken(s, k) == if end == |s| then Incomplete else Complete(s[start..end], s[end..])
  {
  }

  lemma TokenSlices(ws: string, w: string, y: string, n: nat)
    requires |ws| <= n <= |ws| + |w| + |y|
    ensures (ws + (w + y))[..n][|ws|..] == (w + y)[..n - |ws|]
    ensures n >= |ws| + |w| ==> (ws + (w + y))[..n][|ws|..|ws| + |w|] == w
    ensures n >= |ws| + |w| ==> (ws + (w + y))[..n][|ws| + |w|..] == y[..n - |ws| - |w|]
  {
  }

  /** The request line is recognised exactly when the byte after its protocol has arrived. */
  lemma RequestLineOn(ws: string, m: Message, y: string, n: nat)
    requires AllIn(Blank, ws) && GoodRequestLine(m) && y != [] && IsWS(y[0])
    requires n <= |ws| + |RequestText(m, y)|
    ensures var end := |ws| + |RequestText(m, "")|;
      ExtractRequestLine((ws + RequestText(m, y))[..n])
      == if n <= end then Incomplete else Complete(RequestLine(m.method_, m.url, m.protocol), y[..n - end])
  {
    hide WellFormedHeaders, BodyFits, NextToken;
    var protocol := m.protocol;
    var y2 := " " + (protocol + y);
    var y1 := " " + (m.url + y2);
    assert m.method_ != [] && AllIn(Word, m.method_) by { MethodIsWord(m.method_); }
    assert protocol != [] && AllIn(Word, protocol) by { ProtocolIsWord(protocol); }
    KnownIsSupported(m.method_);
    KnownIsSupported(protocol);
    hide SUPPORTED_METHODS, SUPPORTED_PROTOCOLS, KnownMethod, KnownProtocol;
    NextTokenOn(Word, ws, m.method_, y1, n);
    var n1 := n - |ws| - |m.method_|;
    if n1 > 0 {
      NextTokenOn(Word, " ", m.url, y2, n1);
      var n2 := n1 - 1 - |m.url|;
      if n2 > 0 {
        NextTokenOn(Word, " ", protocol, y, n2);
      }
    }
  }

  // --- What the stored attribute stands for ---------------------------------------------------

  ghost predicate BetweenRequests(text: string, ms: seq<Message>) {
    exists ws :: AllIn(Blank, ws) && text == ws + Stream(ms)
  }

  predicate Describes(r: Request, m: Message) {
    r.method_ == m.method_ && r.url == m.url && r.protocol == m.protocol && r.body == []
  }

  /** The line feed of the empty line, when only its carriage return was there to be seen. */
  predicate IsLineFeed(nl: string) {
    nl == "" || nl == "\n"
  }

  ghost predicate InBody(leftover: string, future: string, ms: seq<Message>)
    requires ms != []
  {
    && |leftover| < |ms[0].body|
    && exists nl :: IsLineFeed(nl) && (leftover != "" ==> nl == "")
                 && leftover + future == nl + (ms[0].body + Stream(ms[1..]))
  }

  /** With `future` still to arrive, the attribute stands for exactly the messages `ms`. */
  ghost predicate Holds(a: Attribute, future: string, ms: seq<Message>) {
    && (ms != [] ==> future != "")
    && match a
    case Empty => BetweenRequests(future, ms)
    case Stored(None, leftover, end) => !end && BetweenRequests(leftover + future, ms)
    case Stored(Some(r), leftover, end) =>
      && ms != []
      && Describes(r, ms[0])
      && if end then r.headers == ms[0].headers && InBody(leftover, future, ms)
         else Pending(ms[0].headers, r.headers, leftover + future, ms[0].body + Stream(ms[1..]))
  }

  /** A call that handed on the first few messages of `ms` and stands for the others. */
  ghost predicate Good(o: Outcome, future: string, ms: seq<Message>) {
    && o.error.None?
    && |o.delivered| <= |ms|
    && o.delivered == ExpectedAll(ms[..|o.delivered|])
    && Holds(o.attribute, future, ms[|o.delivered|..])
  }

  /** The guard at line 87, before the call: a stored request whose headers are complete meets
      no header end in the bytes that follow. */
  predicate ResumesCleanly(a: Attribute, chunk: string) {
    a.Stored? && a.endOfHeaders ==>
      var s := a.leftover + chunk; HeaderEnd(s[Span(Blank, s)..]) == 0
  }

  // --- One call keeps what the attribute stands for -------------------------------------------

  lemma GoodStop(a: Attribute, future: string, ms: seq<Message>)
    requires Holds(a, future, ms)
    ensures Good(Outcome(a, [], None), future, ms)
  {
    hide Holds;
    assert ms[..0] == [] && ms[0..] == ms;
  }

  lemma GoodNext(o: Outcome, future: string, ms: seq<Message>)
    requires ms != [] && Good(o, future, ms[1..])
    ensures Good(o.After([Expected(ms[0])]), future, ms)
  {
    hide Holds;
    var n := |o.delivered|;
    assert ms[1..][n..] == ms[n + 1..];
    forall i | 0 <= i < n + 1 ensures ([Expected(ms[0])] + o.delivered)[i] == ExpectedAll(ms[..n + 1])[i] {
      if i > 0 {
        assert o.delivered[i - 1] == ExpectedAll(ms[1..][..n])[i - 1];
      }
    }
  }

  lemma ParseNewGood(buffer: string, future: string, ws: string, ms: seq<Message>)
    requires AllWellFormed(ms) && AllIn(Blank, ws) && buffer + future == ws + Stream(ms)
    ensures Good(ParseNew(buffer), future, ms)
    decreases |ms|, 2
  {
    hide ExtractRequestLine, Continue, Good, Describes, Section, RequestText, WellFormed;
    if ms == [] {
      assert forall i | 0 <= i < |buffer| :: buffer[i] == (buffer + future)[i] == ws[i];
      SpanIs(Blank, buffer, |buffer|);
      NothingYet(buffer);
      GoodStop(Stored(None, buffer, false), future, ms);
    } else {
      var m := ms[0];
      var y := Section(CRLF, m.headers, 0, m.body + Stream(ms[1..]));
      FirstLineOn(buffer, future, ws, m, y) by { SectionHead(m.headers, m.body + Stream(ms[1..])); }
      var end := |ws| + |RequestText(m, "")|;
      if |buffer| <= end {
        GoodStop(Stored(None, buffer, false), future, ms);
      } else {
        var r := Request(m.method_, m.url, m.protocol, [], []);
        assert WellFormed(m);
        assert Describes(r, m) && 0 < |m.headers| by { BareDescribes(m); }
        ContinueHeadersGood(r, y[..|buffer| - end], future, CRLF, 0, ms);
      }
    }
  }

  lemma BareDescribes(m: Message)
    requires WellFormed(m)
    ensures Describes(Request(m.method_, m.url, m.protocol, [], []), m) && 0 < |m.headers|
  {
  }

  lemma SectionHead(full: seq<Header>, z: string)
    ensures Section(CRLF, full, 0, z) != "" && Section(CRLF, full, 0, z)[0] == '\r'
  {
  }

  lemma FirstLineOn(buffer: string, future: string, ws: string, m: Message, y: string)
    requires AllIn(Blank, ws) && WellFormed(m) && y != [] && IsWS(y[0])
    requires buffer + future == ws + RequestText(m, y)
    ensures var end := |ws| + |RequestText(m, "")|;
      && |buffer| - end <= |y|
      && ExtractRequestLine(buffer)
         == (if |buffer| <= end then Incomplete
             else Complete(RequestLine(m.method_, m.url, m.protocol), y[..|buffer| - end]))
      && (if |buffer| > end then y[..|buffer| - end] + future == y else future != "")
  {
    hide WellFormedHeaders, BodyFits, GoodRequestLine, RequestText, ExtractRequestLine;
    var t := ws + RequestText(m, y);
    assert |buffer + future| == |t|;
    assert buffer == t[..|buffer|];
    RequestLineOn(ws, m, y, |buffer|);
    RequestTextSplit(buffer, future, ws, m, y);
  }

  lemma NothingYet(buffer: string)
    requires Span(Blank, buffer) == |buffer|
    ensures ExtractRequestLine(buffer) == Incomplete
  {
    assert buffer[|buffer|..] == "";
  }

  lemma RequestTextSplit(buffer: string, future: string, ws: string, m: Message, y: string)
    requires buffer + future == ws + RequestText(m, y)
    ensures |ws + RequestText(m, y)| == |ws| + |RequestText(m, "")| + |y|
    ensures var end := |ws| + |RequestText(m, "")|; |buffer| >= end ==> y[..|buffer| - end] + future == y
  {
    var head := ws + RequestText(m, "");
    assert ws + RequestText(m, y) == head + y;
    assert y == (buffer + future)[|head|..];
  }

  lemma ContinueHeadersGood(r: Request, s: string, future: string, nl: string, got: nat, ms: seq<Message>)
    requires ms != [] && AllWellFormed(ms) && IsGap(nl)
    requires Describes(r, ms[0]) && got < |ms[0].headers| && r.headers == ms[0].headers[..got]
    requires s + future == Section(nl, ms[0].headers, got, ms[0].body + Stream(ms[1..]))
    ensures Good(Continue(r, s, false), future, ms)
    decreases |ms|, 1
  {
    hide Good, HeaderLoop, Pending, Section;
    var full := ms[0].headers;
    var z := ms[0].body + Stream(ms[1..]);
    var t := Section(nl, full, got, z);
    BodyStart(ms);
    assert WellFormed(ms[0]);
    assert s == t[..|s|] && future == t[|s|..];
    HeaderLoopOn(nl, full, got, z, |s|);
    var scan := HeaderLoop(r.headers, s, false);
    var r' := r.(headers := scan.headers);
    if |s| >= |t| - |z| - 1 {
      var lf := SectionCut(nl, full, got, z, |s|);
      FinishGood(r', scan.rest, future, lf, ms);
    } else {
      GoodStop(Stored(Some(r'), scan.rest, false), future, ms);
    }
  }

  lemma SectionCut(nl: string, full: seq<Header>, got: nat, z: string, n: nat) returns (lf: string)
    requires got <= |full|
    requires var t := Section(nl, full, got, z); |t| - |z| - 1 <= n <= |t|
    ensures var t := Section(nl, full, got, z); var q := |t| - |z|;
      var rest := t[if n <= q then n else q..n];
      IsLineFeed(lf) && (rest != "" ==> lf == "") && rest + t[n..] == lf + z
  {
    hide HeaderLines;
    var t := Section(nl, full, got, z);
    var q := |t| - |z|;
    assert t[q..] == z;
    if n >= q {
      lf := "";
      assert t[q..n] + t[n..] == t[q..];
    } else {
      lf := "\n";
      assert t[q - 1..] == lf + z;
    }
  }

  lemma TakeBodyOn(r: Request, m: Message, rest: string)
    requires WellFormed(m) && Describes(r, m) && r.headers == m.headers
    ensures TakeBody(r, rest)
         == if |rest| < |m.body| then NeedMore
            else GotBody(Request(r.method_, r.url, r.protocol, r.headers, rest[..|m.body|]), rest[|m.body|..])
  {
    hide FindHeader, WellFormedHeaders;
    assert |rest| >= |m.body| ==> r.body + rest[..|m.body|] == rest[..|m.body|];
    assert rest[0..] == rest;
  }

  lemma WaitsForBody(r: Request, rest: string, future: string, lf: string, ms: seq<Message>)
    requires ms != [] && IsLineFeed(lf) && (rest != "" ==> lf == "")
    requires Describes(r, ms[0]) && r.headers == ms[0].headers && |rest| < |ms[0].body|
    requires rest + future == lf + (ms[0].body + Stream(ms[1..]))
    ensures Good(Outcome(Stored(Some(r), rest, true), [], None), future, ms)
  {
    hide Stream, Good;
    assert |rest + future| > |rest|;
    GoodStop(Stored(Some(r), rest, true), future, ms);
  }

  lemma ParseNextGood(after: string, future: string, ms: seq<Message>)
    requires ms != [] && AllWellFormed(ms) && after + future == "" + Stream(ms[1..])
    ensures Good(ParseNew(after).After([Expected(ms[0])]), future, ms)
    decreases |ms| - 1, 3
  {
    hide Good, ParseNew, WellFormed, Stream;
    ParseNewGood(after, future, "", ms[1..]);
    GoodNext(ParseNew(after), future, ms);
  }

  lemma NothingLeft(future: string, lf: string, ms: seq<Message>)
    requires ms != [] && IsLineFeed(lf) && future == lf + Stream(ms[1..])
    ensures Good(Outcome(Empty, [Expected(ms[0])], None), future, ms)
  {
    hide Stream, Good;
    assert AllIn(Blank, lf);
    StreamNonEmpty(ms[1..]);
    GoodStop(Empty, future, ms[1..]);
    GoodNext(Outcome(Empty, [], None), future, ms);
    assert [Expected(ms[0])] + [] == [Expected(ms[0])];
  }

  lemma FinishGood(r: Request, rest: string, future: string, lf: string, ms: seq<Message>)
    requires ms != [] && AllWellFormed(ms) && IsLineFeed(lf) && (rest != "" ==> lf == "")
    requires Describes(r, ms[0]) && r.headers == ms[0].headers
    requires rest + future == lf + (ms[0].body + Stream(ms[1..]))
    ensures Good(Finish(r, rest, true), future, ms)
    decreases |ms|, 0
  {
    hide Good, ParseNew, TakeBody, WellFormed, Stream, IsLineFeed;
    var m := ms[0];
    assert WellFormed(m);
    TakeBodyOn(r, m, rest);
    if |rest| < |m.body| {
      WaitsForBody(r, rest, future, lf, ms);
    } else {
      var after := rest[|m.body|..];
      assert lf == "" || m.body == "";
      TakeBodyText(rest, future, lf, m.body, Stream(ms[1..]));
      if after == [] {
        assert future == lf + Stream(ms[1..]) by { assert after + future == future; }
        NothingLeft(future, lf, ms);
      } else {
        ParseNextGood(after, future, ms);
      }
    }
  }

  lemma TakeBodyText(rest: string, future: string, lf: string, body: string, tail: string)
    requires rest + future == lf + (body + tail) && |rest| >= |body|
    requires lf == "" || (rest == "" && body == "")
    ensures rest[..|body|] == body && rest[|body|..] + future == lf + tail
  {
    var u := rest + future;
    if lf == "" {
      assert u == body + tail;
      assert u[..|body|] == body && u[|body|..] == tail;
      assert u[..|body|] == rest[..|body|] && u[|body|..] == rest[|body|..] + future;
    } else {
      assert body + tail == tail && rest[|body|..] + future == u;
    }
  }

  lemma ResumeGap(s: string, future: string, lf: string, z: string)
    requires IsLineFeed(lf) && AfterHeaders(z) && z != "" && s + future == lf + z
    ensures var n := if |s| <= |lf| then |s| else |lf|;
      Span(Blank, s) == n && MoreHeaders(s[..n]) && s[n..] + future == lf[n..] + z
  {
    hide MoreHeaders;
    var n := if |s| <= |lf| then |s| else |lf|;
    Halves(s, future, lf, z, n);
    GapPass(lf, z, |s|);
  }

  lemma Halves(s: string, future: string, lf: string, z: string, n: nat)
    requires s + future == lf + z && n <= |s| && n <= |lf|
    ensures s == (lf + z)[..|s|] && s[n..] + future == lf[n..] + z
  {
    assert s[n..] + future == (s + future)[n..];
    assert lf[n..] + z == (lf + z)[n..];
  }

  /** Resuming between the end of the headers and the end of the body. */
  lemma ResumeGood(r: Request, s: string, future: string, lf: string, ms: seq<Message>)
    requires ms != [] && AllWellFormed(ms) && IsLineFeed(lf)
    requires Describes(r, ms[0]) && r.headers == ms[0].headers && ms[0].body != ""
    requires s + future == lf + (ms[0].body + Stream(ms[1..]))
    requires HeaderEnd(s[Span(Blank, s)..]) == 0
    ensures Good(Continue(r, s, true), future, ms)
  {
    hide Good, Finish, HeaderEnd, MoreHeaders;
    var z := ms[0].body + Stream(ms[1..]);
    BodyStart(ms);
    ResumeGap(s, future, lf, z);
    var n := if |s| <= |lf| then |s| else |lf|;
    assert HeaderPass(s) == EndOfBuffer(s[n..]);
    FinishGood(r, s[n..], future, lf[n..], ms);
    assert r.(headers := r.headers) == r;
  }

  /** One call: whatever the cut, what was handed on and what the attribute stands for are
      together the messages the attribute stood for before. */
  lemma OnDataGood(a: Attribute, chunk: string, future: string, ms: seq<Message>)
    requires AllWellFormed(ms) && Holds(a, chunk + future, ms) && ResumesCleanly(a, chunk)
    ensures Good(OnData(a, chunk), future, ms)
  {
    hide Good, ParseNew, Continue, HeaderEnd, Section;
    match a
    case Empty =>
      var ws :| AllIn(Blank, ws) && chunk + future == ws + Stream(ms);
      ParseNewGood(chunk, future, ws, ms);
    case Stored(None, leftover, _) =>
      assert leftover + (chunk + future) == leftover + chunk + future;
      var ws :| AllIn(Blank, ws) && leftover + (chunk + future) == ws + Stream(ms);
      ParseNewGood(leftover + chunk, future, ws, ms);
    case Stored(Some(r), leftover, end) =>
      assert leftover + (chunk + future) == leftover + chunk + future;
      var z := ms[0].body + Stream(ms[1..]);
      if end {
        var lf :| IsLineFeed(lf) && leftover + (chunk + future) == lf + z;
        ResumeGood(r, leftover + chunk, future, lf, ms);
      } else {
        var nl :| IsGap(nl) && leftover + (chunk + future) == Section(nl, ms[0].headers, |r.headers|, z);
        ContinueHeadersGood(r, leftover + chunk, future, nl, |r.headers|, ms);
      }
  }
}
