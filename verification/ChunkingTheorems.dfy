/** Which ways of cutting a stream of requests are safe. */
module ChunkingTheorems {
  import opened Bytes
  import opened Decimal
  import opened ParsingHelpers
  import opened HeaderEndSpec
  import opened HttpDataHandler
  import opened Messages
  import opened Chunking
  import opened Sessions

  /** Framing and pipelining: one call on the whole stream hands on exactly its requests. */
  lemma WholeStream(ms: seq<Message>)
    requires AllWellFormed(ms)
    ensures Delivered(Run(START, [Stream(ms)]), ms)
  {
    hide Delivered, Run, Feed, Stream;
    var chunks := [Stream(ms)];
    assert Concat(chunks) == Stream(ms) + Concat(chunks[1..]) == Stream(ms);
    assert AllClean(Feed(START, chunks[0]), chunks[1..]);
    ChunkingExact(ms, chunks);
  }

  // --- Cuts outside bodies ------------------------------------------------------------------------

  /** With `q` bytes still to come, the cut lies after the CR LF CR that ends the headers of a
      message with a body, and before the end of that body. */
  ghost predicate CutsBody(ms: seq<Message>, q: nat) {
    exists k :: 0 <= k < |ms| && CutsBodyOf(ms, k, q)
  }

  predicate CutsBodyOf(ms: seq<Message>, k: nat, q: nat)
    requires k < |ms|
  {
    var after := |Stream(ms[k + 1..])|;
    ms[k].body != "" && after < q <= after + |ms[k].body| + 1
  }

  ghost predicate AvoidsBodies(ms: seq<Message>, chunks: seq<string>) {
    forall i | 0 < i < |chunks| :: !CutsBody(ms, |Concat(chunks[i..])|)
  }

  lemma ResumptionIsInBody(s: Session, future: string, ms: seq<Message>)
    requires OnTrack(s, future, ms) && s.attribute.Stored? && s.attribute.endOfHeaders
    ensures CutsBody(ms, |future|)
  {
    var k := |s.handled|;
    assert ms[k..][1..] == ms[k + 1..];
    var leftover := s.attribute.leftover;
    assert |leftover + future| == |leftover| + |future|;
    assert CutsBodyOf(ms, k, |future|);
  }

  lemma {:induction false} AvoidingIsClean(s: Session, chunks: seq<string>, ms: seq<Message>)
    requires AllWellFormed(ms) && OnTrack(s, Concat(chunks), ms)
    requires chunks != [] ==> ResumesCleanly(s.attribute, chunks[0])
    requires AvoidsBodies(ms, chunks)
    ensures AllClean(s, chunks)
    decreases |chunks|
  {
    hide OnTrack, CutsBody, Feed, ResumesCleanly;
    if chunks != [] {
      var rest := chunks[1..];
      var next := Feed(s, chunks[0]);
      FeedOnTrack(s, chunks[0], Concat(rest), ms);
      forall i | 0 < i < |rest| ensures !CutsBody(ms, |Concat(rest[i..])|) {
        assert rest[i..] == chunks[i + 1..];
      }
      assert rest != [] ==> !CutsBody(ms, |Concat(chunks[1..])|);
      if rest != [] && !ResumesCleanly(next.attribute, rest[0]) {
        Unclean(next.attribute, rest[0]);
        ResumptionIsInBody(next, Concat(rest), ms);
      }
      AvoidingIsClean(next, rest, ms);
    }
  }

  /** Any chunking whose cuts avoid the bodies hands on what one call on the whole stream does. */
  lemma ChunkingIndependence(ms: seq<Message>, chunks: seq<string>)
    requires AllWellFormed(ms) && Concat(chunks) == Stream(ms)
    requires AvoidsBodies(ms, chunks)
    ensures Delivered(Run(START, chunks), ms)
    ensures Run(START, chunks).handled == Run(START, [Stream(ms)]).handled
  {
    hide Run, Stream, AllClean, CutsBody;
    StartOnTrack(ms);
    AvoidingIsClean(START, chunks, ms);
    ChunkingExact(ms, chunks);
    WholeStream(ms);
  }

  /** Without bodies every cut is allowed. */
  lemma EmptyBodiesAnyChunking(ms: seq<Message>, chunks: seq<string>)
    requires AllWellFormed(ms) && Concat(chunks) == Stream(ms)
    requires forall i | 0 <= i < |ms| :: ms[i].body == ""
    ensures Delivered(Run(START, chunks), ms)
  {
    hide Run, Stream;
    ChunkingIndependence(ms, chunks);
  }

  // --- Cuts inside a body -------------------------------------------------------------------------

  /** No prefix of the body looks like a header that ends. */
  predicate NoHeaderInside(body: string) {
    forall n | 0 <= n <= |body| :: HeaderEnd(body[..n]) == 0
  }

  lemma NoNewLineNoHeader(body: string)
    requires AllIn(Line, body)
    ensures NoHeaderInside(body)
  {
    forall n | 0 <= n <= |body| ensures HeaderEnd(body[..n]) == 0 {
      var s := body[..n];
      SpanIs(Line, s, n);
      assert s[0..] == s && s[n..] == "";
      assert n > 0 ==> s[n - 1] == body[n - 1];
      assert n > 0 ==> In(Line, body[n - 1]);
      BackupIsEnd(s);
    }
  }

  lemma BackupIsEnd(s: string)
    requires s != "" ==> !IsNewLine(s[|s| - 1])
    ensures HeaderEndAtBufferEnd(s) == 0
  {
    assert s[|s|..] == "";
  }

  /** Only the last message has a body, and that body is harmless. */
  predicate OnlyLastHasBody(ms: seq<Message>) {
    && (forall i | 0 <= i < |ms| - 1 :: ms[i].body == "")
    && (ms != [] ==> NoHeaderInside(ms[|ms| - 1].body))
  }

  lemma LastResumption(s: Session, chunk: string, future: string, ms: seq<Message>)
    requires AllWellFormed(ms) && OnTrack(s, chunk + future, ms) && OnlyLastHasBody(ms)
    ensures ResumesCleanly(s.attribute, chunk)
  {
    hide HeaderEnd, MoreHeaders, NoHeaderInside, WellFormed, Stream, Pending, BetweenRequests;
    var a := s.attribute;
    if a.Stored? && a.endOfHeaders {
      var k := |s.handled|;
      assert ms[k..][0] == ms[k] && ms[k].body != "";
      assert k == |ms| - 1;
      var m := ms[k];
      assert ms[k..] == [m];
      ResumesInBody(a, chunk, future, m);
    }
  }

  lemma ResumesInBody(a: Attribute, chunk: string, future: string, m: Message)
    requires WellFormed(m) && NoHeaderInside(m.body) && a.Stored? && InBody(a.leftover, chunk + future, [m])
    ensures ResumesCleanly(a, chunk)
  {
    hide HeaderEnd, NoHeaderInside, WellFormed;
    assert [m][1..] == [] && Stream([]) == "" && m.body + "" == m.body;
    var t := a.leftover + chunk;
    assert t + future == a.leftover + (chunk + future);
    var lf :| IsLineFeed(lf) && t + future == lf + m.body;
    assert AfterHeaders(m.body) by { assert AllWellFormed([m]); BodyStart([m]); }
    ResumeGap(t, future, lf, m.body);
    var n := if |t| <= |lf| then |t| else |lf|;
    var rest := t[n..];
    assert rest + future == lf[n..] + m.body;
    if |t| >= |lf| {
      assert lf[n..] == "" && rest + future == m.body;
      assert rest == m.body[..|rest|];
      BodyPrefix(m.body, |rest|);
    } else {
      assert rest == "" == m.body[..0];
      BodyPrefix(m.body, 0);
    }
  }

  lemma BodyPrefix(body: string, n: nat)
    requires NoHeaderInside(body) && n <= |body|
    ensures HeaderEnd(body[..n]) == 0
  {
  }

  lemma {:induction false} OnlyLastIsClean(s: Session, chunks: seq<string>, ms: seq<Message>)
    requires AllWellFormed(ms) && OnTrack(s, Concat(chunks), ms) && OnlyLastHasBody(ms)
    ensures AllClean(s, chunks)
    decreases |chunks|
  {
    hide OnTrack, Feed, ResumesCleanly, OnlyLastHasBody;
    if chunks != [] {
      LastResumption(s, chunks[0], Concat(chunks[1..]), ms);
      FeedOnTrack(s, chunks[0], Concat(chunks[1..]), ms);
      OnlyLastIsClean(Feed(s, chunks[0]), chunks[1..], ms);
    }
  }

  /** Everything before the body. */
  function Head(m: Message): string {
    RequestText(m, Section(CRLF, m.headers, 0, ""))
  }

  lemma HeadThenBody(m: Message)
    ensures Stream([m]) == Head(m) + m.body
    ensures Section(CRLF, m.headers, 0, m.body) == Section(CRLF, m.headers, 0, "") + m.body
    ensures Head(m) + m.body == "" + RequestText(m, Section(CRLF, m.headers, 0, m.body))
    ensures |Head(m)| - |RequestText(m, "")| == |Section(CRLF, m.headers, 0, "")|
  {
    hide HeaderLines;
    assert [m][1..] == [] && Stream([]) == "" && m.body + "" == m.body;
    var lines := HeaderLines(m.headers[0..]);
    assert CRLF + (lines + (CRLF + m.body)) == CRLF + (lines + (CRLF + "")) + m.body;
  }

  /** Fed the head alone, the handler stores a request whose headers are complete. */
  lemma AfterHead(m: Message)
    requires WellFormed(m) && m.body != ""
    ensures OnData(Empty, Head(m))
         == Outcome(Stored(Some(Request(m.method_, m.url, m.protocol, m.headers, "")), "", true), [], None)
  {
    hide ExtractRequestLine, HeaderLoop, TakeBody, Section, RequestText;
    var y := Section(CRLF, m.headers, 0, m.body);
    HeadThenBody(m);
    assert y != "" && IsWS(y[0]) by { SectionHead(m.headers, m.body); }
    FirstLineOn(Head(m), m.body, "", m, y);
    var n := |y| - |m.body|;
    assert 0 < n by { SectionHead(m.headers, ""); }
    HeaderLoopOn(CRLF, m.headers, 0, m.body, n);
    assert m.headers[..0] == [] && y[n..n] == "";
    assert HeaderLoop([], y[..n], false) == Scanned(m.headers, "", true);
    var r := Request(m.method_, m.url, m.protocol, m.headers, "");
    TakeBodyOn(r, m, "");
    assert Finish(r, "", true) == Outcome(Stored(Some(r), "", true), [], None);
    var blank := Request(m.method_, m.url, m.protocol, [], []);
    assert Continue(blank, y[..n], false) == Finish(r, "", true);
    assert ParseNew(Head(m)) == Continue(blank, y[..n], false);
  }

  lemma EmptyHasNoHeader()
    ensures forall s: string :: s == "" ==> HeaderEnd(s) == 0
  {
  }

  /** What is left of the stream from the body of one of its messages on. */
  function FromBody(ms: seq<Message>, i: nat): string
    requires i < |ms|
  {
    ms[i].body + Stream(ms[i + 1..])
  }

  /** One call that starts on a request and more bytes after it hands it on and goes on with them. */
  lemma ParseNewStep(m: Message, more: string)
    requires WellFormed(m) && more != "" && !IsWS(more[0])
    ensures ParseNew(RequestText(m, Section(CRLF, m.headers, 0, m.body + more))) == ParseNew(more).After([Expected(m)])
  {
    hide ExtractRequestLine, HeaderLoop, TakeBody, Section, RequestText, WellFormed;
    var z := m.body + more;
    var y := Section(CRLF, m.headers, 0, z);
    var text := RequestText(m, y);
    assert WellFormed(m);
    assert AfterHeaders(z) by { NotBlank(m); }
    assert y != "" && IsWS(y[0]) by { SectionHead(m.headers, z); }
    assert text + "" == "" + text;
    FirstLineOn(text, "", "", m, y);
    assert |text| - |RequestText(m, "")| == |y| by { LineLength(m, y); }
    assert y[..|y|] == y;
    WholeSection(m, z);
    var r := Request(m.method_, m.url, m.protocol, m.headers, "");
    TakeBodyOn(r, m, z);
    assert z[..|m.body|] == m.body && z[|m.body|..] == more;
    assert ParseNew(text) == Continue(Request(m.method_, m.url, m.protocol, [], []), y, false);
    assert Continue(Request(m.method_, m.url, m.protocol, [], []), y, false) == Finish(r, z, true);
  }

  lemma LineLength(m: Message, y: string)
    ensures |RequestText(m, y)| == |RequestText(m, "")| + |y|
  {
  }

  lemma NotBlank(m: Message)
    requires WellFormed(m)
    ensures m.body != "" ==> !IsWS(m.body[0])
  {
  }

  lemma WholeSection(m: Message, z: string)
    requires WellFormed(m) && AfterHeaders(z)
    ensures HeaderLoop([], Section(CRLF, m.headers, 0, z), false) == Scanned(m.headers, z, true)
  {
    hide HeaderLoop, Section;
    var t := Section(CRLF, m.headers, 0, z);
    HeaderLoopOn(CRLF, m.headers, 0, z, |t|);
    assert m.headers[..0] == [] && t[..|t|] == t;
    SectionTail(m.headers, z);
  }

  /** Fed everything before the body of a message, the handler has handed on the messages before
      it and stores a request whose headers are complete. */
  lemma {:induction false} AfterHeads(ms: seq<Message>, i: nat)
    requires AllWellFormed(ms) && i < |ms| && ms[i].body != ""
    ensures var o := OnData(Empty, Stream(ms[..i]) + Head(ms[i])); var m := ms[i];
      && o.attribute == Stored(Some(Request(m.method_, m.url, m.protocol, m.headers, "")), "", true)
      && o.error.None?
    decreases i
  {
    hide Head, WellFormed, ParseNew;
    if i == 0 {
      assert ms[..0] == [] && Stream([]) + Head(ms[0]) == Head(ms[0]);
      AfterHead(ms[0]);
    } else {
      var rest := ms[1..];
      var more := Stream(rest[..i - 1]) + Head(rest[i - 1]);
      AfterHeads(rest, i - 1);
      StreamHead(ms[0], rest[..i - 1], Head(ms[i]));
      assert ms[..i] == [ms[0]] + rest[..i - 1];
      MoreStarts(rest, i - 1);
      ParseNewStep(ms[0], more);
    }
  }

  lemma StreamHead(m: Message, ms: seq<Message>, more: string)
    ensures Stream([m] + ms) + more == RequestText(m, Section(CRLF, m.headers, 0, m.body + (Stream(ms) + more)))
  {
    hide Section, RequestText;
    assert ([m] + ms)[1..] == ms;
    TextAndMore(m, m.body + Stream(ms), more);
    assert m.body + Stream(ms) + more == m.body + (Stream(ms) + more);
  }

  lemma TextAndMore(m: Message, z: string, more: string)
    ensures RequestText(m, Section(CRLF, m.headers, 0, z)) + more
         == RequestText(m, Section(CRLF, m.headers, 0, z + more))
  {
    hide HeaderLines;
    var lines := HeaderLines(m.headers[0..]);
    assert CRLF + (lines + (CRLF + (z + more))) == CRLF + (lines + (CRLF + z)) + more;
  }

  lemma MoreStarts(ms: seq<Message>, i: nat)
    requires AllWellFormed(ms) && i < |ms|
    ensures var more := Stream(ms[..i]) + Head(ms[i]); more != "" && !IsWS(more[0])
  {
    hide Section;
    assert WellFormed(ms[0]) && WellFormed(ms[i]);
    MethodIsWord(ms[0].method_);
    MethodIsWord(ms[i].method_);
    assert i > 0 ==> ms[..i][0] == ms[0];
  }

  lemma StreamSplit(ms: seq<Message>, i: nat)
    requires i < |ms|
    ensures Stream(ms) == Stream(ms[..i]) + Head(ms[i]) + FromBody(ms, i)
    decreases i
  {
    hide Section, RequestText, Head, FromBody;
    if i == 0 {
      assert ms[..0] == [];
      FromFirstBody(ms);
      HeadAndMore(ms[0], Stream(ms[1..]));
    } else {
      var rest := ms[1..];
      StreamSplit(rest, i - 1);
      assert rest[i - 1 + 1..] == ms[i + 1..];
      assert ms[..i] == [ms[0]] + rest[..i - 1];
      assert ms == [ms[0]] + rest;
      var more := Head(ms[i]) + FromBody(ms, i);
      StreamHead(ms[0], rest[..i - 1], more);
      StreamHead(ms[0], rest, "");
      assert rest[i - 1] == ms[i] && FromBody(rest, i - 1) == FromBody(ms, i) by { SameFrom(ms, i); }
      assert Stream(rest) + "" == Stream(rest[..i - 1]) + more;
      assert Stream(ms) + "" == Stream(ms);
      assert Stream(ms[..i]) + more == Stream(ms[..i]) + Head(ms[i]) + FromBody(ms, i);
    }
  }

  lemma SameFrom(ms: seq<Message>, i: nat)
    requires 0 < i < |ms|
    ensures FromBody(ms[1..], i - 1) == FromBody(ms, i)
  {
    assert ms[1..][i..] == ms[i + 1..];
  }

  lemma FromFirstBody(ms: seq<Message>)
    requires ms != []
    ensures FromBody(ms, 0) == ms[0].body + Stream(ms[1..])
  {
  }

  lemma HeadAndMore(m: Message, more: string)
    ensures RequestText(m, Section(CRLF, m.headers, 0, m.body + more)) == Head(m) + (m.body + more)
  {
    hide HeaderLines;
    var lines := HeaderLines(m.headers[0..]);
    assert CRLF + (lines + (CRLF + (m.body + more))) == CRLF + (lines + (CRLF + "")) + (m.body + more);
  }

  /** Behind a body, the request line of the next request is followed by a header. */
  lemma NextRequestLooksLikeHeader(ms: seq<Message>, i: nat)
    requires AllWellFormed(ms) && i < |ms| - 1 && ms[i].body != ""
    ensures exists n: nat | n <= |FromBody(ms, i)| :: HeaderEnd(FromBody(ms, i)[..n]) != 0
  {
    hide HeaderEnd, HeaderText, Section, RequestText, WellFormedHeaders, BodyFits;
    var z := FromBody(ms, i);
    var m := ms[i + 1];
    assert WellFormed(ms[i]) && WellFormed(m);
    var x := HeaderText(m.headers[0]);
    assert x != "" && !IsWS(x[0]) by {
      FirstHeader(m);
      TextIsHeader(m.headers[0]);
    }
    var rest := ms[i + 1..];
    assert rest[0] == m;
    LineThenHeader(m, m.body + Stream(rest[1..]));
    var line := ms[i].body + RequestText(m, "");
    var head := RequestText(m, "") + CRLF + x;
    assert z == ms[i].body + Stream(rest);
    assert Stream(rest) == head + Stream(rest)[|head|..];
    assert ms[i].body + (head + Stream(rest)[|head|..]) == line + CRLF + x + Stream(rest)[|head|..];
    LineEndThenText(line, x, Stream(rest)[|head|..]);
    assert z == line + CRLF + x + Stream(rest)[|head|..];
    assert HeaderEnd(z[..|line| + 3]) != 0;
  }

  lemma FirstHeader(m: Message)
    requires m.headers != [] && WellFormedHeaders(m.headers)
    ensures WellFormedHeader(m.headers[0])
  {
  }

  lemma LineEndThenText(line: string, x: string, more: string)
    requires line != "" && !IsWS(line[0]) && !IsNewLine(line[|line| - 1]) && x != "" && !IsWS(x[0])
    ensures HeaderEnd((line + CRLF + x + more)[..|line| + 3]) != 0
  {
    hide HeaderEnd, MoreHeaders;
    var n := |line|;
    var s := (line + CRLF + x + more)[..n + 3];
    assert s[0] == line[0] && s[n - 1] == line[n - 1];
    assert s[n] == '\r' && s[n + 1] == '\n' && s[n + 2] == x[0];
    assert NewLineRun(s, n, n + 2) && Terminates(s, n, n + 2);
    HeaderEndMeetsSpec(s);
    assert EndsAt(s, n);
  }

  lemma LineThenHeader(m: Message, tail: string)
    requires m.headers != [] && KnownProtocol(m.protocol)
    ensures RequestText(m, "") != "" && !IsNewLine(RequestText(m, "")[|RequestText(m, "")| - 1])
    ensures var t := RequestText(m, Section(CRLF, m.headers, 0, tail));
      var head := RequestText(m, "") + CRLF + HeaderText(m.headers[0]);
      |head| <= |t| && t[..|head|] == head
  {
    hide HeaderText;
    assert m.headers[0..] == m.headers;
  }

  lemma HeaderInsideIsUnclean(ms: seq<Message>, i: nat, n: nat)
    requires AllWellFormed(ms) && i < |ms| && ms[i].body != ""
    requires n <= |FromBody(ms, i)| && HeaderEnd(FromBody(ms, i)[..n]) != 0
    ensures var z := FromBody(ms, i); var chunks := [Stream(ms[..i]) + Head(ms[i]), z[..n], z[n..]];
      Concat(chunks) == Stream(ms) && !AllClean(START, chunks)
  {
    hide HeaderEnd, Head, Stream, OnData, WellFormed;
    var z := FromBody(ms, i);
    var chunks := [Stream(ms[..i]) + Head(ms[i]), z[..n], z[n..]];
    assert chunks[1..] == [z[..n], z[n..]] && chunks[1..][1..] == [z[n..]];
    assert Concat([z[n..]]) == z[n..];
    assert Concat(chunks[1..]) == z[..n] + z[n..] == z;
    StreamSplit(ms, i);
    assert n > 0 by { EmptyHasNoHeader(); }
    AfterHeads(ms, i);
    var s := "" + z[..n];
    assert s == z[..n] && !IsWS(s[0]) by { assert WellFormed(ms[i]); NotBlank(ms[i]); assert z[0] == ms[i].body[0]; }
    SpanIs(Blank, s, 0);
    assert s[0..] == s;
  }

  lemma BodyThatBreaks(ms: seq<Message>) returns (i: nat, n: nat)
    requires AllWellFormed(ms) && !OnlyLastHasBody(ms)
    ensures i < |ms| && ms[i].body != ""
    ensures n <= |FromBody(ms, i)| && HeaderEnd(FromBody(ms, i)[..n]) != 0
  {
    hide HeaderEnd, WellFormed, Stream;
    if j: nat :| j < |ms| - 1 && ms[j].body != "" {
      i := j;
      NextRequestLooksLikeHeader(ms, i);
      n :| n <= |FromBody(ms, i)| && HeaderEnd(FromBody(ms, i)[..n]) != 0;
    } else {
      i := |ms| - 1;
      n :| 0 <= n <= |ms[i].body| && HeaderEnd(ms[i].body[..n]) != 0;
      EmptyHasNoHeader();
      assert ms[i + 1..] == [] && Stream([]) == "" by { StreamNonEmpty([]); }
      assert FromBody(ms, i) == ms[i].body;
    }
  }

  /** Pipelined requests survive every chunking exactly when none but the last has a body, and no
      prefix of that body looks like a header that ends. */
  lemma EveryChunkingExact(ms: seq<Message>)
    requires AllWellFormed(ms)
    ensures (forall chunks | Concat(chunks) == Stream(ms) :: Delivered(Run(START, chunks), ms)) <==> OnlyLastHasBody(ms)
  {
    hide Run, Stream, AllWellFormed, HeaderEnd, Delivered, AllClean, OnlyLastHasBody;
    StartOnTrack(ms);
    if OnlyLastHasBody(ms) {
      forall chunks | Concat(chunks) == Stream(ms) ensures Delivered(Run(START, chunks), ms) {
        OnlyLastIsClean(START, chunks, ms);
        ChunkingExact(ms, chunks);
      }
    } else {
      var i, n := BodyThatBreaks(ms);
      var z := FromBody(ms, i);
      HeaderInsideIsUnclean(ms, i, n);
      ChunkingExact(ms, [Stream(ms[..i]) + Head(ms[i]), z[..n], z[n..]]);
    }
  }

  lemma JustOne(m: Message)
    ensures OnlyLastHasBody([m]) <==> NoHeaderInside(m.body)
    ensures AllWellFormed([m]) <==> WellFormed(m)
  {
    hide NoHeaderInside, WellFormed;
    assert [m][0] == m;
  }

  /** A request by itself survives every chunking exactly when no prefix of its body looks like
      a header that ends. */
  lemma BodyChunkingExact(m: Message)
    requires WellFormed(m)
    ensures (forall chunks | Concat(chunks) == Stream([m]) :: Delivered(Run(START, chunks), [m]))
       <==> NoHeaderInside(m.body)
  {
    hide Run, Stream, Delivered, NoHeaderInside, OnlyLastHasBody, AllWellFormed;
    JustOne(m);
    EveryChunkingExact([m]);
  }

  /** So a request by itself whose body has no CR or LF survives every chunking. */
  lemma BodyChunking(m: Message, chunks: seq<string>)
    requires WellFormed(m) && AllIn(Line, m.body) && Concat(chunks) == Stream([m])
    ensures Delivered(Run(START, chunks), [m])
  {
    hide Run, Stream, WellFormed, Delivered, NoHeaderInside;
    NoNewLineNoHeader(m.body);
    BodyChunkingExact(m);
  }

  const TWO_LINES := Message("POST", "/", "HTTP/1.1", [Header("Content-Length", "4")], "a\r\nb")

  /** A request whose body has a line break followed by text, and chunks that break it: its first
      line is read as a header. */
  lemma LineBreakInBody() returns (chunks: seq<string>)
    ensures WellFormed(TWO_LINES) && Concat(chunks) == Stream([TWO_LINES])
    ensures !Delivered(Run(START, chunks), [TWO_LINES])
  {
    hide Run, Stream, Delivered, HeaderEnd, Head;
    TwoLinesAreWellFormed();
    var z := "a\r\nb";
    assert [TWO_LINES][1..] == [] && Stream([]) == "" by { StreamNonEmpty([]); }
    assert FromBody([TWO_LINES], 0) == z && z[..4] == z && z[4..] == "";
    assert NewLineRun(z, 1, 3) && Terminates(z, 1, 3);
    HeaderEndMeetsSpec(z);
    assert EndsAt(z, 1);
    HeaderInsideIsUnclean([TWO_LINES], 0, 4);
    chunks := [Stream([TWO_LINES][..0]) + Head(TWO_LINES), z, ""];
    ChunkingExact([TWO_LINES], chunks);
  }

  lemma TwoLinesAreWellFormed()
    ensures WellFormed(TWO_LINES)
  {
    hide WellFormedHeaders, BodyFits, AllIn;
    LengthIs("4", TWO_LINES.body);
    assert AllIn(Word, "/") by { AllIn1('/'); }
  }

  lemma AllIn1(c: char)
    requires !IsWS(c)
    ensures AllIn(Word, [c])
  {
  }

  lemma LengthIs(digit: string, body: string)
    requires |digit| == 1 && IsDigit(digit[0]) && |body| == digit[0] as int - '0' as int
    ensures var hs := [Header("Content-Length", digit)]; WellFormedHeaders(hs) && BodyFits(hs, body)
  {
    var hs := [Header("Content-Length", digit)];
    assert FindHeader(hs, "Content-Length") == 0;
    assert digit[..0] == "" && Value("") == 0;
  }
}
