/** What a server serialises, and what getResponse makes of it in any number of reads and calls. */
module ResponseRoundTrip {
  import opened Bytes
  import opened Decimal
  import opened ParsingHelpers
  import opened HttpDataHandler
  import opened Messages
  import opened Chunking
  import opened BlankBodies
  import opened DamonRequest
  import opened Sessions
  import opened SpinResponse
  import opened DamonResponse

  /** What a server sends (RFC 2616, section 6.1): the reason may be empty. */
  predicate Answerable(r: Response) {
    && KnownProtocol(r.protocol)
    && -0x8000_0000 <= r.status < 0x8000_0000
    && AllIn(Line, r.reason)
    && WellFormedHeaders(r.headers)
    && (Has(r.headers, "Content-Length") ==> BodyFits(r.headers, r.body))
    && |r.body| < SIZE_LIMIT
  }

  /** Reason and body have no white space in front, which the client would skip; the reason is not
      empty, as the client would skip the line end, too, and take the first header for it. */
  predicate Plain(r: Response) {
    r.reason != "" && !IsWS(r.reason[0]) && AfterHeaders(r.body)
  }

  lemma ResponseHeadersAreWellFormed(r: Response)
    requires Answerable(r)
    ensures var hs := SentResponseHeaders(r); hs != [] && WellFormedHeaders(hs) && BodyFits(hs, r.body)
  {
    hide FindHeader, Print, WellFormedHeaders, BodyFits;
    var length := Header("Content-Length", Print(|r.body|));
    if !Has(r.headers, "Content-Length") {
      LengthHeader(r.headers, r.body);
      AppendWellFormed(r.headers, length);
    }
  }

  lemma PrintIntIsWord(n: int)
    ensures PrintInt(n) != "" && AllIn(Word, PrintInt(n))
  {
    var digits := Print(if n < 0 then -n else n);
    assert forall i | 0 <= i < |digits| :: IsDigit(digits[i]) && !IsWS(digits[i]);
    assert n < 0 ==> forall i | 1 <= i < |PrintInt(n)| :: PrintInt(n)[i] == digits[i - 1];
  }

  /** A negative status is read back as a number close to the largest one. */
  function Unsigned(n: int): nat
    requires -0x8000_0000 <= n < 0x8000_0000
  {
    if n < 0 then UINT_LIMIT + n else n
  }

  lemma ParsePrintInt(n: int)
    requires -0x8000_0000 <= n < 0x8000_0000
    ensures ParseUnsigned(PrintInt(n), UINT_LIMIT) == Some(Unsigned(n))
  {
    hide Print, ParseUnsigned;
    if n < 0 {
      ParseNegative(-n, UINT_LIMIT);
    } else {
      ParsePrint(n, UINT_LIMIT);
    }
  }

  /** The status line, and its length. */
  function LineText(r: Response, rest: string): string {
    StatusText(r.protocol, PrintInt(r.status), r.reason, rest)
  }

  /** The status line is recognised exactly when the byte behind its reason has arrived; a line feed
      that was left of the response before it is skipped. */
  lemma StatusLineOn(lf: string, r: Response, y: string, n: nat)
    requires IsLineFeed(lf) && Answerable(r) && Plain(r) && y != "" && y[0] == '\r' && n <= |lf| + |LineText(r, y)|
    ensures var end := |lf| + |LineText(r, "")|;
      ExtractStatusLine((lf + LineText(r, y))[..n])
      == if n <= end then Incomplete
         else Complete(StatusLine(r.protocol, Unsigned(r.status), r.reason), y[..n - end])
  {
    hide NextToken, ParseUnsigned, PrintInt, SUPPORTED_PROTOCOLS, KnownProtocol, WellFormedHeaders, BodyFits;
    var code := PrintInt(r.status);
    var y2 := " " + (r.reason + y);
    var y1 := " " + (code + y2);
    ProtocolIsWord(r.protocol);
    KnownIsSupported(r.protocol);
    PrintIntIsWord(r.status);
    ParsePrintInt(r.status);
    assert AllIn(Blank, lf);
    assert LineText(r, y) == r.protocol + y1;
    NextTokenOn(Word, lf, r.protocol, y1, n);
    var n1 := n - |lf| - |r.protocol|;
    if n1 > 0 {
      NextTokenOn(Word, " ", code, y2, n1);
      var n2 := n1 - 1 - |code|;
      if n2 > 0 {
        NextTokenOn(Line, " ", r.reason, y, n2);
      }
    }
  }

  /** What the client gets: the status as an unsigned int, the added Content-Length, the body. */
  function Answer(r: Response): (a: Response)
    requires Answerable(r)
    ensures a.body == r.body && a.reason == r.reason
  {
    LineOnly(r).(headers := SentResponseHeaders(r), body := r.body)
  }

  /** The response when its status line was read. */
  function LineOnly(r: Response): Response
    requires Answerable(r)
  {
    Response(r.protocol, Unsigned(r.status), r.reason, [], "")
  }

  // --- Prefixes of responses ----------------------------------------------------------------------

  /** From the line end of the status line on. */
  function Tail(r: Response, more: string): string {
    Section(CRLF, SentResponseHeaders(r), 0, r.body + more)
  }

  lemma TextAndTail(r: Response, more: string)
    ensures Serialized(r) + more == LineText(r, Tail(r, more))
    ensures |Tail(r, more)| == |Tail(r, "")| + |more| && |Tail(r, "")| >= 2
    ensures |Serialized(r)| == |LineText(r, "")| + |Tail(r, "")|
    ensures Tail(r, more) != "" && Tail(r, more)[0] == '\r'
  {
    hide HeaderLines, PrintInt, SentResponseHeaders;
    var lines := HeaderLines(SentResponseHeaders(r)[0..]);
    assert CRLF + (lines + (CRLF + (r.body + more))) == CRLF + (lines + (CRLF + r.body)) + more;
    assert r.body + "" == r.body;
  }

  lemma StatusLength(r: Response, y: string)
    ensures |LineText(r, y)| == |LineText(r, "")| + |y|
  {
  }

  lemma BodyOn(r: Response, body: string, s: string)
    requires BodyFits(r.headers, body) && r.body == ""
    ensures |s| < |body| ==> ScanBody(r, s) == ReturnsWithoutBody(r, s)
    ensures |s| >= |body| && s[..|body|] == body ==> ScanBody(r, s) == Returns(r.(body := body), s[|body|..])
  {
    hide FindHeader, ParseUnsigned;
    assert body == "" ==> s[|body|..] == s && r.(body := body) == r;
  }

  /** `turn` is what follows from a complete status line with `m` bytes of the rest, of which `size`
      belong to the response; its last line feed may be missing when there is no body. */
  predicate PartScanned(whole: Response, turn: Turn, rest: string, size: nat, m: nat, pieces: seq<string>)
    requires m <= |rest|
  {
    if m >= size then turn == Done(Returns(whole, rest[size..m]), pieces)
    else if m == size - 1 && whole.body == "" then turn == Done(Returns(whole, ""), pieces)
    else
      || (turn.Done? && turn.result.ReturnsWithoutBody?)
      || (turn.Again? && turn.pieces == pieces && turn.saved.Saved? && turn.saved.response.Some?)
  }

  lemma HeadersOnPart(r: Response, hs: seq<Header>, body: string, more: string, m: nat, pieces: seq<string>)
    requires r.headers == [] && r.body == "" && hs != [] && WellFormedHeaders(hs)
    requires AfterHeaders(body + more) && BodyFits(hs, body) && m <= |Section(CRLF, hs, 0, body + more)|
    ensures var t := Section(CRLF, hs, 0, body + more);
      && |more| <= |t|
      && PartScanned(r.(headers := hs, body := body), ScanHeaders(r, t[..m], pieces), t, |t| - |more|, m, pieces)
  {
    hide HeaderLoop, Section, Pending, WellFormedHeaders, BodyFits, AfterHeaders, ScanBody;
    var z := body + more;
    var t := Section(CRLF, hs, 0, z);
    HeaderLoopOn(CRLF, hs, 0, z, m);
    assert hs[..0] == [];
    SectionTail(hs, z);
    if m >= |t| - |z| - 1 {
      var rest := t[if m <= |t| - |z| then m else |t| - |z|..m];
      PartOfBody(t, body, more, m);
      BodyOn(r.(headers := hs), body, rest);
    }
  }

  lemma PartOfBody(t: string, body: string, more: string, m: nat)
    requires var z := body + more; m <= |t| && |z| <= |t| && t[|t| - |z|..|t|] == z && m >= |t| - |z| - 1
    ensures var q := |t| - |body| - |more|; var rest := t[if m <= q then m else q..m]; var size := |t| - |more|;
      && (m >= size ==> |rest| >= |body| && rest[..|body|] == body && rest[|body|..] == t[size..m])
      && (m == size - 1 && body == "" ==> rest == "")
      && (m < size && body != "" ==> |rest| < |body|)
  {
    var z := body + more;
    var q := |t| - |z|;
    assert t[q..] == z;
    if m >= |t| - |more| {
      assert t[q..m] == z[..m - q];
    }
  }

  /** A client that is given the first `n` bytes of a response and what follows it. */
  lemma PartOn(lf: string, r: Response, more: string, n: nat, pieces: seq<string>)
    requires IsLineFeed(lf) && Answerable(r) && Plain(r) && AfterHeaders(more)
    requires n <= |lf| + |Serialized(r)| + |more|
    ensures var t, line := lf + (Serialized(r) + more), |lf| + |LineText(r, "")|;
      if n <= line then ScanLine(t[..n], pieces) == Again(Saved(None, t[..n]), pieces)
      else
        && |Tail(r, "")| + |more| == |Tail(r, more)| && n - line <= |Tail(r, more)|
        && PartScanned(Answer(r), ScanLine(t[..n], pieces), Tail(r, more), |Tail(r, "")|, n - line, pieces)
  {
    hide ExtractStatusLine, HeaderLoop, Section, StatusText, Answerable, AfterHeaders, ScanHeaders, Serialized;
    hide PartScanned, SentResponseHeaders, WellFormedHeaders, BodyFits, IsLineFeed;
    var y := Tail(r, more);
    TextAndTail(r, more);
    StatusLength(r, y);
    StatusLineOn(lf, r, y, n);
    var line := |lf| + |LineText(r, "")|;
    if n > line {
      ResponseHeadersAreWellFormed(r);
      BodyAndMoreStart(r.body, more);
      HeadersOnPart(LineOnly(r), SentResponseHeaders(r), r.body, more, n - line, pieces);
    }
  }

  lemma BodyAndMoreStart(body: string, more: string)
    requires AfterHeaders(body) && AfterHeaders(more)
    ensures AfterHeaders(body + more)
  {
    assert body == "" ==> body + more == more;
  }

  // --- What is returned is plain --------------------------------------------------------------------

  lemma LineIsPlain(s: string)
    ensures var line := ExtractStatusLine(s); line.Complete? ==> line.value.reason != "" && !IsWS(line.value.reason[0])
  {
    hide NextToken, ParseUnsigned, SUPPORTED_PROTOCOLS;
    var protocol := NextToken(s, Word);
    if protocol.Complete? {
      var code := NextToken(protocol.rest, Word);
      if code.Complete? {
        TokenIsPlain(code.rest);
      }
    }
  }

  lemma TokenIsPlain(s: string)
    ensures var t := NextToken(s, Line); t.Complete? ==> t.value != "" && !IsWS(t.value[0])
  {
  }

  lemma BodyIsPlain(r: Response, s: string)
    requires r.body == "" && AfterHeaders(s)
    ensures var reply := ScanBody(r, s);
      reply.Returns? ==> reply.response.reason == r.reason && AfterHeaders(reply.response.body)
  {
    hide ParseUnsigned, FindHeader;
  }

  lemma TurnIsPlain(s: string, pieces: seq<string>)
    ensures var turn := ScanLine(s, pieces); turn.Done? && turn.result.Returns? ==> Plain(turn.result.response)
  {
    hide ExtractStatusLine, HeaderLoop, ScanBody, AfterHeaders;
    LineIsPlain(s);
    var line := ExtractStatusLine(s);
    if line.Complete? {
      LoopEndsAtText([], line.rest);
      var scan := HeaderLoop([], line.rest, false);
      if scan.Scanned? && scan.endOfHeaders {
        BodyIsPlain(Response(line.value.protocol, line.value.code, line.value.reason, scan.headers, ""), scan.rest);
      }
    }
  }

  predicate PlainIfReturned(reading: Reading) {
    reading.Got? && reading.result.Returns? ==> Plain(reading.result.response)
  }

  /** Whatever arrives, in whatever pieces, no response is returned whose reason is empty, or whose
      reason or body starts with white space. */
  lemma {:induction false} ReturnedIsPlain(saved: Saved, pieces: seq<string>)
    requires saved.Nothing? || saved.response.None?
    ensures PlainIfReturned(GetAll(saved, pieces))
    decreases |pieces|, 0
  {
    hide ScanLine, Plain;
    if pieces != [] {
      var buffer := if saved.Nothing? then pieces[0] else saved.leftover + pieces[0];
      AfterTurn(buffer, pieces[1..]);
    }
  }

  /** The rest of a call, after a turn that has parsed a status line from its start. */
  lemma {:induction false} AfterTurn(buffer: string, pieces: seq<string>)
    ensures var turn := ScanLine(buffer, pieces);
      && (turn.Done? && turn.result.Returns? ==> Plain(turn.result.response))
      && (turn.Again? ==> |turn.pieces| == |pieces| && PlainIfReturned(GetAll(turn.saved, turn.pieces)))
    decreases |pieces|, 1
  {
    hide ScanLine, Retry, Plain;
    TurnIsPlain(buffer, pieces);
    LineIsStuck(buffer, pieces);
    var turn := ScanLine(buffer, pieces);
    if turn.Again? && turn.saved.response.None? {
      ReturnedIsPlain(turn.saved, pieces);
    }
  }

  lemma AnswerIsPlain(r: Response)
    requires Answerable(r)
    ensures Plain(Answer(r)) <==> Plain(r)
  {
  }

  lemma FirstIsGetAll(polls: bool, pieces: seq<string>)
    ensures GetNext(Kept(""), polls, pieces) == GetAll(Nothing, pieces)
  {
    hide ScanLine;
    if pieces != [] {
      LineIsStuck(pieces[0], pieces[1..]);
    }
  }

  lemma NextIsPlain(before: Carried, polls: bool, pieces: seq<string>)
    ensures PlainIfReturned(GetNext(before, polls, pieces))
  {
    hide ScanLine, GetAll, Plain;
    if before.Kept? && before.bytes == "" {
      ReturnedIsPlain(Nothing, pieces);
      FirstIsGetAll(polls, pieces);
    } else if before.Kept? && polls {
      if pieces != [] {
        AfterTurn(before.bytes + pieces[0], pieces[1..]);
      }
    } else if before.Kept? {
      AfterTurn(before.bytes, pieces);
    }
  }
}
