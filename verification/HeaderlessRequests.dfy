/** A request without headers ends with two line ends in a row, and which cuts through these four
    bytes lose it. */
module HeaderlessRequests {
  import opened Bytes
  import opened ParsingHelpers
  import opened HttpDataHandler
  import opened Messages
  import opened Chunking
  import opened Sessions

  const END := "\r\n\r\n"

  predicate Headerless(m: Message) {
    GoodRequestLine(m) && m.headers == [] && m.body == ""
  }

  /** Some chunk, but not the first, starts `q` bytes before the end. */
  predicate CutBefore(chunks: seq<string>, q: nat) {
    |chunks| > 1 && (|Concat(chunks[1..])| == q || CutBefore(chunks[1..], q))
  }

  lemma {:induction false} CutsAreInside(chunks: seq<string>, q: nat)
    requires |Concat(chunks)| < q
    ensures !CutBefore(chunks, q)
  {
    if |chunks| > 1 { CutsAreInside(chunks[1..], q); }
  }

  /** Both carriage returns, or both line feeds, are in the piece. */
  predicate SeesEnd(a: nat, b: nat) { (a == 0 && b >= 3) || (a <= 1 && b == 4) }

  lemma PieceOfEnd(a: nat, b: nat)
    requires a <= b <= 4
    ensures AllIn(Blank, END[a..b])
    ensures MoreHeaders(END[a..b]) <==> !SeesEnd(a, b)
  {
    var s := END[a..b];
    if a == 0 && b >= 3 {
      assert b == 3 ==> s == "\r\n\r";
      assert b == 4 ==> s == "\r\n\r\n";
      BlankLine(s);
    } else if a == 1 && b >= 3 {
      TwoOrThree();
      assert b == 3 ==> s == "\n\r";
      assert b == 4 ==> s == "\n\r\n";
    } else {
      assert |s| == 0 ==> s == "";
      assert |s| == 1 ==> s == [END[a]];
      assert |s| == 2 ==> s == [END[a], END[a + 1]];
      FewNewLines(s);
    }
  }

  lemma TwoOrThree()
    ensures MoreHeaders("\n\r") && !MoreHeaders("\n\r\n")
  {
    CountConcat('\n', "\n", "\r\n");
    assert "\n" + "\r\n" == "\n\r\n" && "\r\n"[1..] == "\n";
    assert Count('\n', "\r\n") == 1 && Count('\n', "\n") == 1;
    assert "\n\r"[1..] == "\r";
    assert Count('\n', "\r") == 0 && Count('\r', "\r") == 1;
  }

  function Bare(m: Message): Request { Request(m.method_, m.url, m.protocol, [], "") }

  lemma PassOnEnd(a: nat, b: nat)
    requires a <= b <= 4
    ensures HeaderPass(END[a..b]) == if SeesEnd(a, b) then EndOfHeaders("") else EndOfBuffer("")
  {
    hide MoreHeaders, SplitHeader;
    var s := END[a..b];
    PieceOfEnd(a, b);
    SpanIs(Blank, s, |s|);
    assert s[..|s|] == s && s[|s|..] == "";
    assert HeaderEnd("") == 0;
  }

  /** A piece that shows the end completes the request; any other piece is forgotten. */
  lemma ContinueOnEnd(m: Message, a: nat, b: nat)
    requires Headerless(m) && a <= b <= 4
    ensures Continue(Bare(m), END[a..b], false)
         == if SeesEnd(a, b) then Outcome(Empty, [Expected(m)], None)
            else Outcome(Stored(Some(Bare(m)), "", false), [], None)
  {
    hide HeaderPass, ParseNew, GoodRequestLine;
    PassOnEnd(a, b);
    assert HeaderLoop([], END[a..b], false) == Scanned([], "", SeesEnd(a, b));
    assert TakeBody(Bare(m), "") == GotBody(Bare(m), "");
  }

  // --- After the request: nothing but line ends --------------------------------------------------

  predicate Idle(a: Attribute) {
    a.Empty? || (a.request.None? && !a.endOfHeaders && AllIn(Blank, a.leftover))
  }

  lemma {:induction false} NothingMore(s: Session, chunks: seq<string>)
    requires Idle(s.attribute) && s.error.None? && AllIn(Blank, Concat(chunks))
    ensures Run(s, chunks).handled == s.handled && Run(s, chunks).error.None?
    decreases |chunks|
  {
    hide OnData, Idle;
    if chunks != [] {
      BlankParts(chunks[0], Concat(chunks[1..]));
      IdleCall(s.attribute, chunks[0]);
      assert s.handled + [] == s.handled;
      NothingMore(Feed(s, chunks[0]), chunks[1..]);
    }
  }

  lemma BlankParts(x: string, y: string)
    requires AllIn(Blank, x + y)
    ensures AllIn(Blank, x) && AllIn(Blank, y)
  {
    assert forall i | 0 <= i < |x| :: x[i] == (x + y)[i];
    assert forall i | 0 <= i < |y| :: y[i] == (x + y)[|x| + i];
  }

  lemma IdleCall(a: Attribute, chunk: string)
    requires Idle(a) && AllIn(Blank, chunk)
    ensures Idle(OnData(a, chunk).attribute) && OnData(a, chunk).error.None? && OnData(a, chunk).delivered == []
  {
    var t := (if a.Empty? then "" else a.leftover) + chunk;
    assert "" + chunk == chunk;
    SpanIs(Blank, t, |t|);
    assert t[|t|..] == "";
    assert NextToken(t, Word) == Incomplete;
  }

  // --- Between the request line and the end -------------------------------------------------------

  lemma Pieces(chunks: seq<string>, k: nat)
    requires chunks != [] && k <= 4 && Concat(chunks) == END[k..]
    ensures var n := k + |chunks[0]|; n <= 4 && chunks[0] == END[k..n] && Concat(chunks[1..]) == END[n..]
  {
    TwoParts(chunks[0], Concat(chunks[1..]), END, k);
  }

  lemma TwoParts(x: string, y: string, all: string, k: nat)
    requires k <= |all| && x + y == all[k..]
    ensures var n := k + |x|; n <= |all| && x == all[k..n] && y == all[n..]
  {
    var u := x + y;
    assert x == u[..|x|] && y == u[|x|..];
  }

  lemma {:induction false} EndRun(s: Session, m: Message, k: nat, chunks: seq<string>)
    requires Headerless(m) && 1 <= k <= 4 && Concat(chunks) == END[k..]
    requires s == Session(Stored(Some(Bare(m)), "", false), [], None)
    ensures Run(s, chunks).handled
         == if k == 1 && !CutBefore(chunks, 2) && !CutBefore(chunks, 1) then [Expected(m)] else []
    ensures Run(s, chunks).error.None?
    decreases |chunks|
  {
    hide Continue, Headerless;
    if chunks != [] {
      Pieces(chunks, k);
      var n := k + |chunks[0]|;
      var rest := chunks[1..];
      ContinueOnEnd(m, k, n);
      assert "" + chunks[0] == chunks[0];
      var next := Feed(s, chunks[0]);
      if SeesEnd(k, n) {
        assert [] + [Expected(m)] == [Expected(m)];
        assert n == 4 && Concat(rest) == "";
        NothingMore(next, rest);
        CutsAreInside(rest, 1);
        CutsAreInside(rest, 2);
      } else {
        assert next == s;
        EndRun(next, m, n, rest);
        assert n > k && k == 1 ==> rest != [] && CutBefore(chunks, 4 - n) && (n == 2 || n == 3) by {
          assert |Concat(rest)| == 4 - n;
          assert rest == [] ==> Concat(rest) == "";
        }
        assert |rest| == 0 ==> Concat(rest) == "";
      }
    }
  }

  // --- From the start ---------------------------------------------------------------------------

  /** Neither a cut between the two line ends, nor cuts inside both. */
  predicate ShowsEnd(chunks: seq<string>) {
    !CutBefore(chunks, 2) && !(CutBefore(chunks, 3) && CutBefore(chunks, 1))
  }

  ghost predicate Reading(s: Session, left: string) {
    && s.handled == [] && s.error.None?
    && ((s.attribute == Empty && left == "") || s.attribute == Stored(None, left, false))
  }

  lemma {:induction false} LineRun(s: Session, left: string, m: Message, chunks: seq<string>)
    requires Headerless(m) && Reading(s, left) && left + Concat(chunks) == RequestText(m, END)
    requires |left| <= |RequestText(m, "")|
    ensures Run(s, chunks).handled == if ShowsEnd(chunks) then [Expected(m)] else []
    ensures Run(s, chunks).error.None?
    decreases |chunks|
  {
    hide ParseNew, RequestText, Headerless, ShowsEnd;
    var line := RequestText(m, "");
    TextLength(m);
    assert chunks != [] by { assert chunks == [] ==> |Concat(chunks)| == 0; }
    var rest := chunks[1..];
    var buffer := left + chunks[0];
    var n := |buffer|;
    assert buffer + Concat(rest) == RequestText(m, END);
    var next := Feed(s, chunks[0]);
    assert OnData(s.attribute, chunks[0]) == ParseNew(buffer) by { assert left == "" ==> buffer == chunks[0]; }
    FirstPiece(m, buffer, Concat(rest));
    assert s.handled + [] == [];
    if n <= |line| {
      LineRun(next, buffer, m, rest);
      SameCuts(chunks);
    } else {
      var b := n - |line|;
      EndCuts(chunks, b);
      if SeesEnd(0, b) {
        assert [] + [Expected(m)] == [Expected(m)];
        PieceOfEnd(b, 4);
        assert END[b..4] == END[b..];
        NothingMore(next, rest);
      } else {
        EndRun(next, m, b, rest);
      }
    }
  }

  /** What one call makes of a buffer that holds `b` bytes more than the request line. */
  ghost predicate AfterPiece(m: Message, buffer: string, future: string, b: int) {
    && b <= 4
    && (b <= 0 ==> ParseNew(buffer) == Outcome(Stored(None, buffer, false), [], None) && |future| >= 4)
    && (b > 0 ==>
         && future == END[b..]
         && ParseNew(buffer) == if SeesEnd(0, b) then Outcome(Empty, [Expected(m)], None)
                                else Outcome(Stored(Some(Bare(m)), "", false), [], None))
  }

  lemma FirstPiece(m: Message, buffer: string, future: string)
    requires Headerless(m) && buffer + future == RequestText(m, END)
    ensures AfterPiece(m, buffer, future, |buffer| - |RequestText(m, "")|)
  {
    hide Continue, RequestText, ExtractRequestLine, GoodRequestLine;
    TextLength(m);
    var n := |buffer|;
    var b := n - |RequestText(m, "")|;
    assert n + |future| == |RequestText(m, END)|;
    assert buffer == RequestText(m, END)[..n];
    assert "" + RequestText(m, END) == RequestText(m, END);
    RequestLineOn("", m, END, n);
    if b > 0 {
      assert END[..b] == END[0..b];
      ContinueOnEnd(m, 0, b);
      assert future == RequestText(m, END)[n..] == END[b..];
    }
  }

  lemma TextLength(m: Message)
    ensures RequestText(m, END) == RequestText(m, "") + END
  {
  }

  lemma SameCuts(chunks: seq<string>)
    requires chunks != [] && |Concat(chunks[1..])| >= 4
    ensures ShowsEnd(chunks) <==> ShowsEnd(chunks[1..])
  {
  }

  lemma EndCuts(chunks: seq<string>, b: nat)
    requires chunks != [] && 1 <= b <= 4 && |Concat(chunks[1..])| == 4 - b
    ensures b >= 3 ==> ShowsEnd(chunks)
    ensures b == 2 ==> !ShowsEnd(chunks)
    ensures b == 1 ==> (ShowsEnd(chunks) <==> !CutBefore(chunks[1..], 2) && !CutBefore(chunks[1..], 1))
  {
    var rest := chunks[1..];
    assert rest == [] ==> Concat(rest) == "";
    if b >= 3 {
      CutsAreInside(rest, 2);
      CutsAreInside(rest, 3);
    }
  }

  /** A request without headers is handed on exactly when some chunk shows both carriage returns
      or both line feeds of its end; otherwise it is lost without an error. */
  lemma HeaderlessExact(m: Message, chunks: seq<string>)
    requires Headerless(m) && Concat(chunks) == RequestText(m, END)
    ensures Delivered(Run(START, chunks), [m]) <==> ShowsEnd(chunks)
    ensures Run(START, chunks).handled == if ShowsEnd(chunks) then [Expected(m)] else []
  {
    hide Run, RequestText, ShowsEnd;
    assert "" + Concat(chunks) == Concat(chunks);
    LineRun(START, "", m, chunks);
    assert ExpectedAll([m]) == [Expected(m)];
  }

  /** In two pieces, it is lost when the cut is between its two line ends. */
  lemma TwoPieces(m: Message, p: nat)
    requires Headerless(m) && p <= |RequestText(m, END)|
    ensures var t := RequestText(m, END);
      Delivered(Run(START, [t[..p], t[p..]]), [m]) <==> p != |t| - 2
  {
    hide RequestText, Run, Delivered;
    var t := RequestText(m, END);
    var chunks := [t[..p], t[p..]];
    assert chunks[1..] == [t[p..]] && chunks[1..][1..] == [];
    assert Concat(chunks[1..]) == t[p..] + "" == t[p..];
    assert Concat(chunks) == t;
    HeaderlessExact(m, chunks);
    assert !CutBefore(chunks[1..], 1) && !CutBefore(chunks[1..], 2) && !CutBefore(chunks[1..], 3);
  }
}
