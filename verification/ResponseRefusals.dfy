/** The exceptions with which getResponse refuses what it reads. */
module ResponseRefusals {
  import opened Bytes
  import opened Decimal
  import opened ParsingHelpers
  import opened HttpDataHandler
  import opened Messages
  import opened Chunking
  import opened FirstLines
  import opened Refusals
  import opened SpinResponse
  import opened DamonResponse
  import opened ResponseRoundTrip

  /** A call that reads this text first throws, and leaves the other reads alone. */
  ghost predicate Refused(text: string, error: Error) {
    forall polls, more: seq<string> :: GetNext(Kept(""), polls, [text] + more) == Got(Throws(error), more)
  }

  lemma RefusedWhenScanned(text: string, error: Error)
    requires forall more: seq<string> :: ScanLine(text, more) == Done(Throws(error), more)
    ensures Refused(text, error)
  {
    hide ScanLine;
    forall polls, more: seq<string>
      ensures GetNext(Kept(""), polls, [text] + more) == Got(Throws(error), more)
    {
      assert ([text] + more)[1..] == more;
    }
  }

  /** A status line with another protocol, or a status that is not an unsigned number. */
  lemma StatusLineRefused(w1: string, w2: string, reason: string, y: string)
    requires IsWord(w1) && IsWord(w2) && IsReason(reason) && y != "" && IsNewLine(y[0])
    requires !(KnownProtocol(w1) && ParseUnsigned(w2, 0x1_0000_0000).Some?)
    ensures Refused(w1 + (" " + (w2 + (" " + (reason + y)))),
                    if KnownProtocol(w1) then BadLexicalCast(w2) else UnsupportedProtocol(w1))
  {
    hide ExtractStatusLine, KnownProtocol, ParseUnsigned, Refused;
    var text := w1 + (" " + (w2 + (" " + (reason + y))));
    assert "" + text == text;
    StatusLineAnswers("", w1, " ", w2, " ", reason, y);
    RefusedWhenScanned(text, if KnownProtocol(w1) then BadLexicalCast(w2) else UnsupportedProtocol(w1));
  }

  lemma AfterStatusLine(r: Response, y: string, more: seq<string>)
    requires Answerable(r) && Plain(r) && y != "" && y[0] == '\r'
    ensures ScanLine(LineText(r, y), more) == ScanHeaders(LineOnly(r), y, more)
  {
    hide ExtractStatusLine, LineText, Answerable, ScanHeaders;
    var text := LineText(r, y);
    assert "" + text == text && text[..|text|] == text && y[..|y|] == y;
    StatusLength(r, y);
    StatusLineOn("", r, y, |text|);
  }

  /** A line without a colon among the headers. */
  lemma HeaderRefused(r: Response, hs: seq<Header>, x: string, z: string)
    requires Answerable(r) && Plain(r) && WellFormedHeaders(hs) && NoHeader(x) && StartsLine(z)
    ensures Refused(LineText(r, BadHeaders(hs, x, z)), InvalidHeader(x))
  {
    hide ScanLine, LineText, Answerable, Plain, HeaderLoop, Refused, NoHeader, WellFormedHeaders;
    var y := BadHeaders(hs, x, z);
    BadHeadersThrow(hs, x, z);
    forall more ensures ScanLine(LineText(r, y), more) == Done(Throws(InvalidHeader(x)), more) {
      AfterStatusLine(r, y, more);
    }
    RefusedWhenScanned(LineText(r, y), InvalidHeader(x));
  }

  /** A Content-Length that is not a number. */
  lemma LengthRefused(r: Response, hs: seq<Header>, value: string, z: string)
    requires Answerable(r) && Plain(r) && hs != [] && WellFormedHeaders(hs) && BadLength(hs, value) && AfterHeaders(z)
    ensures Refused(LineText(r, Section(CRLF, hs, 0, z)), BadLexicalCast(value))
  {
    hide ScanLine, LineText, Answerable, Plain, HeaderLoop, Refused, Section, FindHeader, ParseUnsigned;
    var y := Section(CRLF, hs, 0, z);
    SectionHead(hs, z);
    SectionRead(hs, z);
    forall more ensures ScanLine(LineText(r, y), more) == Done(Throws(BadLexicalCast(value)), more) {
      AfterStatusLine(r, y, more);
    }
    RefusedWhenScanned(LineText(r, y), BadLexicalCast(value));
  }

  /** Without a Content-Length there is no body, and everything behind the headers is kept. */
  lemma NoLengthNoBody(r: Response, hs: seq<Header>, z: string, more: seq<string>)
    requires Answerable(r) && Plain(r) && hs != [] && WellFormedHeaders(hs) && AfterHeaders(z)
    requires forall h | h in hs :: h.name != "Content-Length"
    ensures ScanLine(LineText(r, Section(CRLF, hs, 0, z)), more) == Done(Returns(LineOnly(r).(headers := hs), z), more)
  {
    hide ScanLine, LineText, Answerable, Plain, HeaderLoop, Section;
    SectionHead(hs, z);
    SectionRead(hs, z);
    AfterStatusLine(r, Section(CRLF, hs, 0, z), more);
    assert forall j | 0 <= j < |hs| :: hs[j] in hs;
  }
}
