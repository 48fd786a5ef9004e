/** What is refused, with which exception, and what was handed on before. */
module Refusals {
  import opened Bytes
  import opened Decimal
  import opened ParsingHelpers
  import opened HttpDataHandler
  import opened Messages
  import opened Chunking
  import opened ChunkingTheorems
  import opened FirstLines
  import opened Sessions

  // --- Splitting a header -----------------------------------------------------------------------

  /** `s` is `core` with white space around it. */
  ghost predicate IsPadded(s: string, core: string) {
    exists p, q :: AllIn(Blank, p) && AllIn(Blank, q) && s == p + core + q
  }

  lemma {:induction false} TrimRightPads(s: string) returns (q: string)
    ensures AllIn(Blank, q) && s == TrimRight(s) + q
    ensures TrimRight(s) != "" ==> !IsWS(TrimRight(s)[|TrimRight(s)| - 1])
    ensures s != "" && !IsWS(s[0]) ==> TrimRight(s) != "" && TrimRight(s)[0] == s[0]
  {
    if s != "" && IsWS(s[|s| - 1]) {
      var init, last := s[..|s| - 1], s[|s| - 1];
      var core := TrimRight(init);
      assert TrimRight(s) == core;
      q := TrimRightPads(init);
      hide TrimRight;
      assert s == init + [last];
      assert init + [last] == core + (q + [last]);
      q := q + [last];
    } else {
      q := "";
    }
  }

  /** Chomping takes all white space from both ends, and nothing else. */
  lemma ChompTakesPadding(s: string)
    ensures IsPadded(s, Chomp(s)) && Trimmed(Chomp(s))
  {
    hide TrimRight;
    var n := Span(Blank, s);
    var left := s[n..];
    var q := TrimRightPads(left);
    hide Span;
    var core := TrimRight(left);
    assert left == core + q;
    assert s == s[..n] + left;
    PaddedBy(s, s[..n], core, q);
  }

  lemma PaddedBy(s: string, p: string, core: string, q: string)
    requires AllIn(Blank, p) && AllIn(Blank, q) && s == p + (core + q)
    ensures IsPadded(s, core)
  {
    assert s == p + core + q;
  }

  /** `h` is what a header of `name` and `value` is read as. */
  ghost predicate ReadAs(h: Header, name: string, value: string) {
    IsPadded(name, h.name) && Trimmed(h.name) && IsPadded(value, h.value) && Trimmed(h.value)
  }

  /** A header is split at its first colon, and both parts are chomped; without one it is refused. */
  lemma SplitExactly(s: string)
    ensures ':' !in s ==> SplitHeader(s) == Err(InvalidHeader(s))
    ensures ':' in s ==> SplitHeader(s).Ok?
    ensures ':' in s ==>
      exists a, b | s == a + ":" + b && ':' !in a :: ReadAs(SplitHeader(s).value, a, b)
  {
    hide Chomp, IsPadded, Trimmed, IndexOf;
    var n := IndexOf(':', s);
    if n < |s| {
      var a, b := s[..n], s[n + 1..];
      assert s[n] in s;
      assert s == a + ":" + b;
      ChompTakesPadding(a);
      ChompTakesPadding(b);
      assert ReadAs(SplitHeader(s).value, a, b);
    } else {
      assert s[..n] == s;
    }
  }

  // --- A line that is not a header ----------------------------------------------------------------

  /** A line of text without a colon. */
  predicate NoHeader(x: string) {
    x != "" && !IsWS(x[0]) && AllIn(Line, x) && ':' !in x
  }

  predicate StartsLine(z: string) { z != "" && !IsWS(z[0]) }

  lemma LineIsFolded(x: string)
    requires AllIn(Line, x)
    ensures FoldedOnly(x)
  {
    NoNewLines(x);
  }

  lemma BadLinePass(x: string, z: string)
    requires NoHeader(x) && StartsLine(z)
    ensures HeaderPass(CRLF + (x + CRLF + z)) == Malformed(InvalidHeader(x))
  {
    hide HeaderEnd, MoreHeaders, SplitHeader, Span, AllIn;
    var u := x + CRLF + z;
    var s := CRLF + u;
    assert u[0] == x[0];
    GapPass(CRLF, u, |s|);
    assert s[..|s|] == s && u[..|u|] == u;
    LineIsFolded(x);
    HeaderEndOn(x, z, |u|);
    SplitExactly(x);
    assert u[..|x|] == x;
  }

  /** The headers before it are stored first. */
  lemma {:induction false} HeadersThen(nl: string, full: seq<Header>, got: nat, u: string)
    requires WellFormedHeaders(full) && got <= |full| && StartsLine(u) && IsGap(nl)
    requires got == |full| ==> nl == CRLF
    ensures HeaderLoop(full[..got], nl + (HeaderLines(full[got..]) + u), false) == HeaderLoop(full, CRLF + u, false)
    decreases |full| - got
  {
    hide HeaderPass, HeaderText, WellFormedHeader;
    if got == |full| {
      assert full[..got] == full && HeaderLines(full[got..]) == "" && "" + u == u;
    } else {
      var h, z := full[got], HeaderLines(full[got + 1..]) + u;
      var rest := full[got..];
      assert rest[0] == h && rest[1..] == full[got + 1..];
      LinesStart(full[got + 1..], u);
      var t := nl + (HeaderText(h) + CRLF + z);
      assert HeaderLines(rest) + u == HeaderText(h) + CRLF + z;
      HeaderPassOn(nl, h, z, |t|);
      var end := |nl| + |HeaderText(h)|;
      assert t[..|t|] == t && t[end..|t|] == CRLF + z;
      assert full[..got] + [h] == full[..got + 1];
      HeadersThen(CRLF, full, got + 1, u);
    }
  }

  lemma LinesStart(hs: seq<Header>, u: string)
    requires WellFormedHeaders(hs) && StartsLine(u)
    ensures AfterHeader(HeaderLines(hs) + u) && StartsLine(HeaderLines(hs) + u)
  {
    if hs != [] {
      assert WellFormedHeader(hs[0]);
      TextIsHeader(hs[0]);
      assert (HeaderLines(hs) + u)[0] == HeaderText(hs[0])[0];
    } else {
      assert "" + u == u;
    }
  }

  /** Well-formed headers, and a line behind them that is not a header. */
  function BadHeaders(hs: seq<Header>, x: string, z: string): string {
    CRLF + (HeaderLines(hs) + (x + CRLF + z))
  }

  lemma BadHeadersThrow(hs: seq<Header>, x: string, z: string)
    requires WellFormedHeaders(hs) && NoHeader(x) && StartsLine(z)
    ensures HeaderLoop([], BadHeaders(hs, x, z), false) == HeadersThrow(InvalidHeader(x))
  {
    hide HeaderPass, NoHeader, HeaderLines;
    var u := x + CRLF + z;
    assert StartsLine(u) by { BadLineStarts(x, z); }
    assert hs[..0] == [] && hs[0..] == hs;
    HeadersThen(CRLF, hs, 0, u);
    BadLinePass(x, z);
  }

  lemma BadLineStarts(x: string, z: string)
    requires NoHeader(x)
    ensures StartsLine(x + CRLF + z)
  {
    assert (x + CRLF + z)[0] == x[0];
  }

  // --- Requests ---------------------------------------------------------------------------------

  /** Requests that are followed by anything else are handed on before that is looked at. */
  lemma {:induction false} StreamThen(ms: seq<Message>, more: string)
    requires AllWellFormed(ms) && more != "" && !IsWS(more[0])
    ensures ParseNew(Stream(ms) + more) == ParseNew(more).After(ExpectedAll(ms))
    decreases |ms|
  {
    hide ParseNew, WellFormed, RequestText, Section, Expected;
    if ms == [] {
      assert Stream(ms) + more == more;
      assert ExpectedAll(ms) + ParseNew(more).delivered == ParseNew(more).delivered;
    } else {
      var rest := ms[1..];
      StreamThen(rest, more);
      hide Stream;
      assert ms == [ms[0]] + rest;
      StreamHead(ms[0], rest, more);
      ThenStarts(rest, more);
      ParseNewStep(ms[0], Stream(rest) + more);
      ExpectedConcat(ms, 1, |rest|);
      assert ms[..1] == [ms[0]] && ms[1..][..|rest|] == rest && ms[..1 + |rest|] == ms;
      assert ExpectedAll([ms[0]]) == [Expected(ms[0])];
      var last := ParseNew(more).delivered;
      assert [Expected(ms[0])] + (ExpectedAll(rest) + last) == [Expected(ms[0])] + ExpectedAll(rest) + last;
    }
  }

  lemma ThenStarts(ms: seq<Message>, more: string)
    requires AllWellFormed(ms) && more != "" && !IsWS(more[0])
    ensures Stream(ms) + more != "" && !IsWS((Stream(ms) + more)[0])
  {
    StreamStart(ms);
    if ms != [] {
      StreamNonEmpty(ms);
      assert (Stream(ms) + more)[0] == Stream(ms)[0];
    } else {
      assert "" + more == more;
    }
  }

  /** The call hands on `ms`, throws, and leaves nothing behind. */
  predicate RefusedAfter(ms: seq<Message>, text: string, error: Error) {
    OnData(Empty, Stream(ms) + text) == Outcome(Empty, ExpectedAll(ms), Some(error))
  }

  lemma RefusedAlone(ms: seq<Message>, text: string, error: Error)
    requires AllWellFormed(ms) && text != "" && !IsWS(text[0])
    requires ParseNew(text) == Outcome(Empty, [], Some(error))
    ensures RefusedAfter(ms, text, error)
  {
    hide ParseNew, WellFormed;
    StreamThen(ms, text);
    assert ExpectedAll(ms) + [] == ExpectedAll(ms);
  }

  /** A request line with another method, or another protocol, is refused by its name. */
  lemma UnknownLineRefused(ms: seq<Message>, w1: string, w2: string, w3: string, y: string)
    requires AllWellFormed(ms) && IsWord(w1) && IsWord(w2) && IsWord(w3) && y != "" && IsWS(y[0])
    requires !(KnownMethod(w1) && KnownProtocol(w3))
    ensures RefusedAfter(ms, w1 + (" " + (w2 + (" " + (w3 + y)))),
                         if KnownMethod(w1) then UnsupportedProtocol(w3) else UnknownMethod(w1))
  {
    hide ExtractRequestLine, KnownMethod, KnownProtocol, RefusedAfter, WellFormed;
    var text := w1 + (" " + (w2 + (" " + (w3 + y))));
    assert "" + text == text;
    assert text[0] == w1[0];
    RequestLineAnswers("", w1, " ", w2, " ", w3, y);
    RefusedAlone(ms, text, if KnownMethod(w1) then UnsupportedProtocol(w3) else UnknownMethod(w1));
  }

  lemma AfterRequestLine(m: Message, y: string)
    requires GoodRequestLine(m) && y != "" && IsWS(y[0])
    ensures ParseNew(RequestText(m, y)) == Continue(Request(m.method_, m.url, m.protocol, [], []), y, false)
    ensures RequestText(m, y) != "" && !IsWS(RequestText(m, y)[0])
  {
    hide ExtractRequestLine, Continue, KnownMethod;
    var text := RequestText(m, y);
    assert "" + text == text && text[..|text|] == text && y[..|y|] == y;
    LineLength(m, y);
    RequestLineOn("", m, y, |text|);
    MethodIsWord(m.method_);
    assert text[0] == m.method_[0];
  }

  /** So is a line among the headers that has no colon. */
  lemma BadHeaderRefused(ms: seq<Message>, m: Message, hs: seq<Header>, x: string, z: string)
    requires AllWellFormed(ms) && GoodRequestLine(m) && WellFormedHeaders(hs) && NoHeader(x) && StartsLine(z)
    ensures RefusedAfter(ms, RequestText(m, BadHeaders(hs, x, z)), InvalidHeader(x))
  {
    hide ParseNew, RequestText, RefusedAfter, WellFormed, GoodRequestLine, HeaderLoop;
    var y := BadHeaders(hs, x, z);
    AfterRequestLine(m, y);
    BadHeadersThrow(hs, x, z);
    RefusedAlone(ms, RequestText(m, y), InvalidHeader(x));
  }

  /** The first Content-Length is not a number. */
  predicate BadLength(hs: seq<Header>, value: string) {
    var i := FindHeader(hs, "Content-Length");
    i < |hs| && hs[i].value == value && ParseUnsigned(value, SIZE_LIMIT) == None
  }

  /** And so is a Content-Length that is not one. */
  lemma BadLengthRefused(ms: seq<Message>, m: Message, value: string, z: string)
    requires AllWellFormed(ms) && GoodRequestLine(m) && m.headers != [] && WellFormedHeaders(m.headers)
    requires BadLength(m.headers, value) && AfterHeaders(z)
    ensures RefusedAfter(ms, RequestText(m, Section(CRLF, m.headers, 0, z)), BadLexicalCast(value))
  {
    hide ParseNew, RequestText, RefusedAfter, WellFormed, GoodRequestLine, HeaderLoop, Section;
    hide ParseUnsigned, FindHeader;
    var y := Section(CRLF, m.headers, 0, z);
    SectionHead(m.headers, z);
    AfterRequestLine(m, y);
    SectionRead(m.headers, z);
    RefusedAlone(ms, RequestText(m, y), BadLexicalCast(value));
  }

  lemma SectionRead(hs: seq<Header>, z: string)
    requires hs != [] && WellFormedHeaders(hs) && AfterHeaders(z)
    ensures HeaderLoop([], Section(CRLF, hs, 0, z), false) == Scanned(hs, z, true)
  {
    hide HeaderLoop, Section;
    var t := Section(CRLF, hs, 0, z);
    HeaderLoopOn(CRLF, hs, 0, z, |t|);
    assert hs[..0] == [] && t[..|t|] == t;
    SectionTail(hs, z);
  }
}
