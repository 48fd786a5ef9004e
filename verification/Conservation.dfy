/** Where the bytes of delivered bodies and stored leftovers come from, for every input. */
module Conservation {
  import opened Bytes
  import opened ParsingHelpers
  import opened HttpDataHandler
  import opened Chunking
  import opened Sessions

  // --- The request line ---------------------------------------------------------------------------

  lemma NextTokenStable(s: string, x: string, k: CharClass)
    requires NextToken(s, k).Complete?
    ensures NextToken(s + x, k) == Complete(NextToken(s, k).value, NextToken(s, k).rest + x)
  {
    hide Span;
    var start := Span(Blank, s);
    var end := start + Span(k, s[start..]);
    SpanExtends(Blank, s, x);
    Beyond(s, x, start, end);
    SpanExtends(k, s[start..], x);
  }

  lemma Beyond(s: string, x: string, i: nat, j: nat)
    requires i <= j <= |s|
    ensures (s + x)[i..] == s[i..] + x
    ensures (s + x)[i..j] == s[i..j]
    ensures (s + x)[j..] == s[j..] + x
  {
  }

  /** The answer on a buffer when more bytes follow it. */
  function Extended(r: Parsed<RequestLine>, x: string): Parsed<RequestLine> {
    if r.Complete? then Complete(r.value, r.rest + x) else r
  }

  /** Once the request line was read or refused, further bytes do not change the answer. */
  lemma RequestLineStable(s: string, x: string)
    requires !ExtractRequestLine(s).Incomplete?
    ensures ExtractRequestLine(s + x) == Extended(ExtractRequestLine(s), x)
  {
    hide NextToken, SUPPORTED_METHODS, SUPPORTED_PROTOCOLS;
    NextTokenStable(s, x, Word);
    var t0 := NextToken(s, Word);
    if t0.value in SUPPORTED_METHODS {
      NextTokenStable(t0.rest, x, Word);
      var t1 := NextToken(t0.rest, Word);
      NextTokenStable(t1.rest, x, Word);
    }
  }

  lemma WordSomewhere(s: string, i: nat)
    requires i + 1 < |s| && !IsWS(s[i]) && IsWS(s[i + 1])
    ensures var t := NextToken(s, Word);
      t.Complete? && |t.rest| >= |s| - i - 1 && t.rest == s[|s| - |t.rest|..]
  {
    var start := Span(Blank, s);
    assert start <= i;
    assert s[start..][i + 1 - start] == s[i + 1];
  }

  /** An incomplete answer can always still change: three more words settle it. */
  lemma IncompleteCanChange(s: string)
    ensures !ExtractRequestLine(s + " a a a ").Incomplete?
  {
    hide SUPPORTED_METHODS, SUPPORTED_PROTOCOLS, NextToken;
    var u := s + " a a a ";
    var n := |s|;
    assert u[n + 1] == u[n + 3] == u[n + 5] == 'a' && u[n + 2] == u[n + 4] == u[n + 6] == ' ';
    WordSomewhere(u, n + 1);
    var r0 := NextToken(u, Word).rest;
    var d0 := |u| - |r0|;
    assert r0[n + 3 - d0] == 'a' && r0[n + 4 - d0] == ' ';
    WordSomewhere(r0, n + 3 - d0);
    var r1 := NextToken(r0, Word).rest;
    var d1 := |r0| - |r1|;
    assert r1[n + 5 - d0 - d1] == 'a' && r1[n + 6 - d0 - d1] == ' ';
    WordSomewhere(r1, n + 5 - d0 - d1);
  }

  /** So "incomplete" is the only answer that can change. */
  lemma OnlyIncompleteChanges(s: string)
    ensures ExtractRequestLine(s).Incomplete?
       <==> exists x :: ExtractRequestLine(s + x) != Extended(ExtractRequestLine(s), x)
  {
    hide ExtractRequestLine;
    if ExtractRequestLine(s).Incomplete? {
      IncompleteCanChange(s);
      assert ExtractRequestLine(s + " a a a ") != Extended(ExtractRequestLine(s), " a a a ");
    } else {
      forall x ensures ExtractRequestLine(s + x) == Extended(ExtractRequestLine(s), x) {
        RequestLineStable(s, x);
      }
    }
  }

  // --- Suffixes -----------------------------------------------------------------------------------

  predicate IsSuffix(t: string, s: string) {
    |t| <= |s| && t == s[|s| - |t|..]
  }

  lemma SuffixOfSuffix(u: string, t: string, s: string)
    requires IsSuffix(u, t) && IsSuffix(t, s)
    ensures IsSuffix(u, s) && |u| <= |t| <= |s|
  {
  }

  lemma TokenRest(s: string, k: CharClass)
    ensures var t := NextToken(s, k); t.Complete? ==> IsSuffix(t.rest, s)
  {
  }

  lemma RequestLineRest(s: string)
    ensures var r := ExtractRequestLine(s); r.Complete? ==> IsSuffix(r.rest, s)
  {
    hide NextToken, IsSuffix, SUPPORTED_METHODS, SUPPORTED_PROTOCOLS;
    var r := ExtractRequestLine(s);
    if r.Complete? {
      var t0 := NextToken(s, Word);
      var t1 := NextToken(t0.rest, Word);
      var t2 := NextToken(t1.rest, Word);
      TokenRest(s, Word);
      TokenRest(t0.rest, Word);
      TokenRest(t1.rest, Word);
      SuffixOfSuffix(t1.rest, t0.rest, s);
      SuffixOfSuffix(t2.rest, t1.rest, s);
    }
  }

  lemma PassRest(s: string)
    ensures var p := HeaderPass(s); !p.Malformed? ==> IsSuffix(p.rest, s)
  {
    hide HeaderEnd, SplitHeader, MoreHeaders, IsSuffix, Span;
    var t := s[Span(Blank, s)..];
    TailIsSuffix(s, Span(Blank, s));
    TailIsSuffix(t, HeaderEnd(t));
    SuffixOfSuffix(t[HeaderEnd(t)..], t, s);
  }

  lemma TailIsSuffix(s: string, n: nat)
    requires n <= |s|
    ensures IsSuffix(s[n..], s)
  {
  }

  lemma {:induction false} LoopRest(headers: seq<Header>, s: string, end: bool)
    ensures var r := HeaderLoop(headers, s, end); r.Scanned? ==> IsSuffix(r.rest, s)
    decreases |s|
  {
    hide HeaderPass, IsSuffix;
    var p := HeaderPass(s);
    PassRest(s);
    if p.Found? && !(end || p.rest == []) {
      LoopRest(headers + [p.header], p.rest, false);
      var r := HeaderLoop(headers + [p.header], p.rest, false);
      if r.Scanned? {
        SuffixOfSuffix(r.rest, p.rest, s);
      }
    }
  }

  // --- Bodies are slices of the input ----------------------------------------------------------------

  /** The body is as long as the first Content-Length says, or empty when there is none. */
  predicate HasItsLength(r: Request) {
    BodyFits(r.headers, r.body)
  }

  /** The bodies are slices of `input[lo..hi]`, one after the other. */
  ghost predicate Carved(input: string, lo: nat, rs: seq<Request>, hi: nat)
    decreases |rs|, 1
  {
    if rs == [] then lo <= hi <= |input|
    else HasItsLength(rs[0]) && exists at: nat :: CarvedAt(input, lo, rs, hi, at)
  }

  ghost predicate CarvedAt(input: string, lo: nat, rs: seq<Request>, hi: nat, at: nat)
    requires rs != []
    decreases |rs|, 0
  {
    var end := at + |rs[0].body|;
    lo <= at && end <= |input| && input[at..end] == rs[0].body && Carved(input, end, rs[1..], hi)
  }

  function LeftOver(a: Attribute): string {
    if a.Stored? then a.leftover else ""
  }

  /** What was handed on was carved out of the input, in order; what is kept is its end. */
  ghost predicate Conserves(a: Attribute, rs: seq<Request>, input: string) {
    && a.Valid()
    && IsSuffix(LeftOver(a), input)
    && Carved(input, 0, rs, |input| - |LeftOver(a)|)
  }

  lemma {:induction false} CarvedShift(input: string, p: nat, lo: nat, rs: seq<Request>, hi: nat)
    requires p <= |input| && Carved(input[p..], lo, rs, hi)
    ensures Carved(input, p + lo, rs, p + hi)
    decreases |rs|
  {
    hide HasItsLength;
    if rs != [] {
      var at: nat :| CarvedAt(input[p..], lo, rs, hi, at);
      var end := at + |rs[0].body|;
      CarvedShift(input, p, end, rs[1..], hi);
      assert input[p + at..p + end] == input[p..][at..end];
      assert CarvedAt(input, p + lo, rs, p + hi, p + at);
    }
  }

  lemma {:induction false} CarvedWider(input: string, x: string, lo: nat, lo': nat, rs: seq<Request>, hi: nat, hi': nat)
    requires lo' <= lo && hi <= hi' <= |input + x| && Carved(input, lo, rs, hi)
    ensures Carved(input + x, lo', rs, hi')
    decreases |rs|
  {
    hide HasItsLength;
    if rs != [] {
      var at: nat :| CarvedAt(input, lo, rs, hi, at);
      var end := at + |rs[0].body|;
      CarvedWider(input, x, end, end, rs[1..], hi, hi');
      assert (input + x)[at..end] == input[at..end];
      assert CarvedAt(input + x, lo', rs, hi', at);
    }
  }

  lemma {:induction false} CarvedConcat(input: string, lo: nat, rs: seq<Request>, mid: nat, rs': seq<Request>, hi: nat)
    requires Carved(input, lo, rs, mid) && Carved(input, mid, rs', hi)
    ensures Carved(input, lo, rs + rs', hi)
    decreases |rs|
  {
    hide HasItsLength;
    if rs == [] {
      assert rs + rs' == rs' && input + "" == input;
      CarvedBounds(input, mid, rs', hi);
      CarvedWider(input, "", mid, lo, rs', hi, hi);
    } else {
      var at: nat :| CarvedAt(input, lo, rs, mid, at);
      var end := at + |rs[0].body|;
      CarvedConcat(input, end, rs[1..], mid, rs', hi);
      assert (rs + rs')[0] == rs[0] && (rs + rs')[1..] == rs[1..] + rs';
      assert CarvedAt(input, lo, rs + rs', hi, at);
    }
  }

  lemma {:induction false} CarvedBounds(input: string, lo: nat, rs: seq<Request>, hi: nat)
    requires Carved(input, lo, rs, hi)
    ensures lo <= hi <= |input|
    decreases |rs|
  {
    hide HasItsLength;
    if rs != [] {
      var at: nat :| CarvedAt(input, lo, rs, hi, at);
      CarvedBounds(input, at + |rs[0].body|, rs[1..], hi);
    }
  }

  // --- One call --------------------------------------------------------------------------------------

  lemma ConservesSuffix(a: Attribute, rs: seq<Request>, t: string, s: string)
    requires IsSuffix(t, s) && Conserves(a, rs, t)
    ensures Conserves(a, rs, s)
  {
    hide Carved;
    var p := |s| - |t|;
    SuffixOfSuffix(LeftOver(a), t, s);
    CarvedShift(s, p, 0, rs, |t| - |LeftOver(a)|);
    assert s + "" == s;
    CarvedWider(s, "", p, 0, rs, |s| - |LeftOver(a)|, |s| - |LeftOver(a)|);
  }

  lemma NothingCarved(a: Attribute, s: string)
    requires a.Valid() && IsSuffix(LeftOver(a), s)
    ensures Conserves(a, [], s)
  {
  }

  lemma ParseNewConserves(s: string)
    ensures var o := ParseNew(s); Conserves(o.attribute, o.delivered, s)
    decreases |s|, 0
  {
    hide ExtractRequestLine, Conserves, Continue;
    match ExtractRequestLine(s)
    case Incomplete => NothingCarved(Stored(None, s, false), s);
    case Failed(_) => NothingCarved(Empty, s);
    case Complete(line, rest) =>
      RequestLineRest(s);
      var r := Request(line.method_, line.url, line.protocol, [], []);
      ContinueConserves(r, rest, false);
      var o := Continue(r, rest, false);
      ConservesSuffix(o.attribute, o.delivered, rest, s);
  }

  lemma ContinueConserves(r: Request, s: string, end: bool)
    requires r.body == []
    ensures var o := Continue(r, s, end); Conserves(o.attribute, o.delivered, s)
    decreases |s|, 1
  {
    hide HeaderLoop, Conserves, Finish;
    match HeaderLoop(r.headers, s, end)
    case HeadersThrow(_) => NothingCarved(Empty, s);
    case Scanned(headers, rest, end') =>
      LoopRest(r.headers, s, end);
      FinishConserves(r.(headers := headers), rest, end');
      var o := Finish(r.(headers := headers), rest, end');
      ConservesSuffix(o.attribute, o.delivered, rest, s);
  }

  lemma TakeBodyFits(r: Request, s: string)
    requires r.body == [] && TakeBody(r, s).GotBody?
    ensures var b := TakeBody(r, s); var n := |b.request.body|;
      HasItsLength(b.request) && n <= |s| && s[..n] == b.request.body && b.rest == s[n..]
  {
    hide FindHeader;
    assert s[..0] == "" && s[0..] == s;
  }

  lemma FinishConserves(r: Request, s: string, end: bool)
    requires r.body == []
    ensures var o := Finish(r, s, end); Conserves(o.attribute, o.delivered, s)
    decreases |s|, 1, 0
  {
    hide TakeBody, Conserves, ParseNew;
    var o := Finish(r, s, end);
    if end && TakeBody(r, s).GotBody? {
      TakeBodyFits(r, s);
      var b := TakeBody(r, s);
      var n := |b.request.body|;
      if b.rest == [] {
        NothingCarved(Empty, b.rest);
        FirstCarved(b.request, Empty, [], s);
        assert o.delivered == [b.request] + [];
      } else {
        ParseNewConserves(b.rest);
        FirstCarved(b.request, ParseNew(b.rest).attribute, ParseNew(b.rest).delivered, s);
      }
    } else {
      NothingCarved(o.attribute, s);
    }
  }

  lemma FirstCarved(r: Request, a: Attribute, rs: seq<Request>, s: string)
    requires HasItsLength(r) && |r.body| <= |s| && s[..|r.body|] == r.body
    requires Conserves(a, rs, s[|r.body|..])
    ensures Conserves(a, [r] + rs, s)
  {
    hide HasItsLength;
    var n := |r.body|;
    var hi := |s| - |LeftOver(a)|;
    CarvedShift(s, n, 0, rs, hi - n);
    SuffixOfSuffix(LeftOver(a), s[n..], s);
    assert ([r] + rs)[1..] == rs;
    assert s[0..n] == s[..n];
    assert CarvedAt(s, 0, [r] + rs, hi, 0);
  }

  // --- Whole runs ------------------------------------------------------------------------------------

  /** The session keeps the end of what it received; every body it handed on is a slice of what
      it received, as long as its request says, and the slices follow one another. */
  ghost predicate Accounted(s: Session, received: string) {
    Conserves(s.attribute, s.handled, received)
  }

  lemma OnDataConserves(a: Attribute, chunk: string)
    requires a.Valid()
    ensures var o := OnData(a, chunk); Conserves(o.attribute, o.delivered, LeftOver(a) + chunk)
  {
    hide ParseNew, Continue, Conserves;
    match a
    case Empty =>
      assert "" + chunk == chunk;
      ParseNewConserves(chunk);
    case Stored(None, leftover, _) =>
      ParseNewConserves(leftover + chunk);
    case Stored(Some(r), leftover, end) =>
      ContinueConserves(r, leftover + chunk, end);
  }

  lemma SuffixParts(s: Session, received: string, chunk: string)
    requires Accounted(s, received)
    ensures var left := LeftOver(s.attribute); var input := received + chunk; var p := |received| - |left|;
      p >= 0 && input[p..] == left + chunk && IsSuffix(left + chunk, input) && IsSuffix("", input)
  {
  }

  lemma FeedAccounted(s: Session, received: string, chunk: string)
    requires Accounted(s, received)
    requires s.error.Some? ==> s.attribute == Empty
    ensures Accounted(Feed(s, chunk), received + chunk)
    ensures Feed(s, chunk).error.Some? ==> Feed(s, chunk).attribute == Empty
  {
    hide OnData, Carved, IsSuffix;
    SuffixParts(s, received, chunk);
    var input := received + chunk;
    var old' := LeftOver(s.attribute);
    var p := |received| - |old'|;
    if s.error.Some? {
      CarvedWider(received, chunk, 0, 0, s.handled, p, |input|);
    } else {
      var o := OnData(s.attribute, chunk);
      OnDataConserves(s.attribute, chunk);
      ErrorEmpties(s.attribute, chunk);
      var keep := LeftOver(o.attribute);
      SuffixOfSuffix(keep, old' + chunk, input);
      CarvedWider(received, chunk, 0, 0, s.handled, p, p);
      CarvedShift(input, p, 0, o.delivered, |old' + chunk| - |keep|);
      CarvedConcat(input, 0, s.handled, p, o.delivered, |input| - |keep|);
    }
  }

  lemma ErrorEmpties(a: Attribute, chunk: string)
    ensures OnData(a, chunk).error.Some? ==> OnData(a, chunk).attribute == Empty
  {
    hide ParseNew, Continue;
    match a
    case Empty => NewErrorEmpties(chunk);
    case Stored(None, leftover, _) => NewErrorEmpties(leftover + chunk);
    case Stored(Some(r), leftover, end) => ContinueErrorEmpties(r, leftover + chunk, end);
  }

  lemma NewErrorEmpties(s: string)
    ensures ParseNew(s).error.Some? ==> ParseNew(s).attribute == Empty
    decreases |s|, 0
  {
    hide ExtractRequestLine, Continue;
    var line := ExtractRequestLine(s);
    if line.Complete? {
      ContinueErrorEmpties(Request(line.value.method_, line.value.url, line.value.protocol, [], []), line.rest, false);
    }
  }

  lemma ContinueErrorEmpties(r: Request, s: string, end: bool)
    ensures Continue(r, s, end).error.Some? ==> Continue(r, s, end).attribute == Empty
    decreases |s|, 1
  {
    hide HeaderLoop, TakeBody, ParseNew;
    var scan := HeaderLoop(r.headers, s, end);
    if scan.Scanned? && scan.endOfHeaders {
      var b := TakeBody(r.(headers := scan.headers), scan.rest);
      if b.GotBody? && b.rest != [] {
        NewErrorEmpties(b.rest);
      }
    }
  }

  lemma {:induction false} RunAccounted(s: Session, received: string, chunks: seq<string>)
    requires Accounted(s, received)
    requires s.error.Some? ==> s.attribute == Empty
    ensures Accounted(Run(s, chunks), received + Concat(chunks))
    decreases |chunks|
  {
    hide Accounted, Feed;
    if chunks == [] {
      assert received + "" == received;
    } else {
      FeedAccounted(s, received, chunks[0]);
      assert received + Concat(chunks) == received + chunks[0] + Concat(chunks[1..]);
      RunAccounted(Feed(s, chunks[0]), received + chunks[0], chunks[1..]);
    }
  }

  /** Conservation, for every input and every chunking of it. */
  lemma RunsConserve(chunks: seq<string>)
    ensures Accounted(Run(START, chunks), Concat(chunks))
  {
    hide Run;
    NothingCarved(Empty, "");
    RunAccounted(START, "", chunks);
    assert "" + Concat(chunks) == Concat(chunks);
  }
}
