/** Messages on the wire (RFC 2616, sections 4 and 5), and what one pass over any prefix of them
    finds. */
module Messages {
  import opened Bytes
  import opened ParsingHelpers
  import opened HeaderEndSpec
  import opened HttpDataHandler

  // --- Header lines -----------------------------------------------------------------------

  function HeaderText(h: Header): string {
    h.name + ": " + h.value
  }

  function HeaderLines(hs: seq<Header>): string {
    if hs == [] then "" else HeaderText(hs[0]) + CRLF + HeaderLines(hs[1..])
  }

  predicate Trimmed(s: string) {
    s != [] ==> !IsWS(s[0]) && !IsWS(s[|s| - 1])
  }

  predicate FoldAt(s: string, i: int) {
    0 <= i && i + 2 < |s| && s[i] == '\r' && s[i + 1] == '\n' && (s[i + 2] == ' ' || s[i + 2] == '\t')
  }

  /** Newlines occur only as CR LF before a space or a tab. */
  predicate FoldedOnly(s: string) {
    forall i | 0 <= i < |s| && IsNewLine(s[i]) :: FoldAt(s, i) || FoldAt(s, i - 1)
  }

  predicate WellFormedHeader(h: Header) {
    && Trimmed(h.name)
    && ':' !in h.name
    && AllIn(Line, h.name)
    && Trimmed(h.value)
    && FoldedOnly(h.value)
  }

  /** What may follow the newline of a header line: another header line, or the empty line. */
  predicate AfterHeader(z: string) {
    && z != []
    && (!IsWS(z[0]) || (|z| >= 2 && z[..2] == CRLF && AfterHeaders(z[2..])))
  }

  /** What may follow the empty line. */
  predicate AfterHeaders(z: string) {
    z != [] ==> !IsWS(z[0])
  }

  lemma TextIsHeader(h: Header)
    requires WellFormedHeader(h)
    ensures var x := HeaderText(h); x != [] && !IsWS(x[0]) && FoldedOnly(x)
  {
    hide FoldedOnly, FoldAt, AllIn;
    var x := HeaderText(h);
    var n := |h.name| + 2;
    assert x[|h.name|] == ':' && x[|h.name| + 1] == ' ';
    assert forall k | 0 <= k < |h.name| :: x[k] == h.name[k];
    NoNewLines(h.name);
    assert x[..n] == h.name + ": " && x[n..] == h.value;
    FoldsStay(x, n);
  }

  lemma NoNewLines(s: string)
    requires AllIn(Line, s)
    ensures forall k | 0 <= k < |s| :: !IsNewLine(s[k])
  {
    assert forall k | 0 <= k < |s| :: In(Line, s[k]);
  }

  lemma FoldsStay(x: string, n: nat)
    requires n <= |x| && FoldedOnly(x[n..])
    requires forall k | 0 <= k < n :: !IsNewLine(x[k])
    ensures FoldedOnly(x)
  {
    var value := x[n..];
    assert forall k | 0 <= k < |value| :: value[k] == x[n + k];
    forall i | 0 <= i < |x| && IsNewLine(x[i]) ensures FoldAt(x, i) || FoldAt(x, i - 1) {
      assert x[i] == value[i - n];
      assert FoldAt(value, i - n) || FoldAt(value, i - n - 1);
    }
  }

  lemma FewNewLines(s: string)
    requires s == "" || s == "\r" || s == "\n" || s == "\r\n"
    ensures MoreHeaders(s)
  {
    assert s == "\r\n" ==> s[1..] == "\n";
    assert Count('\r', "\n") == 0 && Count('\n', "\n") == 1;
  }

  lemma BlankLine(s: string)
    requires s == "\r\n\r" || s == "\r\n\r\n"
    ensures !MoreHeaders(s)
  {
    assert Count('\r', s[1..]) == Count('\r', s[2..]) && s[2] == '\r';
  }

  lemma NoEndInside(x: string, s: string, i: nat)
    requires FoldedOnly(x)
    requires i < |x|
    requires |s| <= |x| ==> s == x[..|s|]
    requires |s| > |x| ==> s[..|x|] == x
    ensures !EndsAt(s, i)
  {
    forall j: nat | NewLineRun(s, i, j) ensures !Terminates(s, i, j) {
      assert forall k | 0 <= k < |s| && k < |x| :: s[k] == x[k];
      assert FoldAt(x, i) || FoldAt(x, i - 1);
      assert FoldAt(x, i);
      if j < |s| {
        assert j == i + 2;
      } else {
        assert s[i..] == "\r" || s[i..] == "\r\n";
        FewNewLines(s[i..]);
      }
    }
  }

  lemma EndAfter(x: string, z: string, m: nat)
    requires x != [] && !IsNewLine(x[|x| - 1]) && AfterHeader(z)
    requires |x| + 2 < m <= |x| + 2 + |z|
    ensures EndsAt((x + CRLF + z)[..m], |x|)
  {
    var s := (x + CRLF + z)[..m];
    var i := |x|;
    assert s[i - 1] == x[i - 1] && s[i] == '\r' && s[i + 1] == '\n' && s[i + 2] == z[0];
    if !IsWS(z[0]) {
      assert NewLineRun(s, i, i + 2) && Terminates(s, i, i + 2);
    } else {
      assert z[0] == z[..2][0] && z[1] == z[..2][1];
      if m == i + 3 {
        assert s[i..] == "\r\n\r";
        BlankLine(s[i..]);
        assert NewLineRun(s, i, m) && Terminates(s, i, m);
      } else {
        assert s[i + 3] == z[1];
        if m == i + 4 {
          assert s[i..] == "\r\n\r\n";
          BlankLine(s[i..]);
          assert NewLineRun(s, i, m) && Terminates(s, i, m);
        } else {
          assert s[i + 4] == z[2] == z[2..][0];
          assert NewLineRun(s, i, i + 4) && Terminates(s, i, i + 4);
        }
      }
    }
  }

  lemma NoEndYet(x: string, s: string, i: nat)
    requires |s| <= |x| + 2 && s == (x + CRLF)[..|s|]
    requires x != [] && i >= |x|
    ensures !EndsAt(s, i)
  {
    assert forall k | |x| <= k < |s| :: IsNewLine(s[k]);
    forall j: nat | NewLineRun(s, i, j) ensures !Terminates(s, i, j) {
      assert i == |x|;
      assert s[i..] == "\r" || s[i..] == "\r\n";
      FewNewLines(s[i..]);
    }
  }

  /** A header is recognised exactly when one byte beyond its line end has arrived. */
  lemma HeaderEndOn(x: string, z: string, m: nat)
    requires x != [] && !IsWS(x[0]) && FoldedOnly(x) && AfterHeader(z)
    requires m <= |x| + 2 + |z|
    ensures HeaderEnd((x + CRLF + z)[..m]) == if m <= |x| + 2 then 0 else |x|
  {
    var s := (x + CRLF + z)[..m];
    if m > 0 {
      assert s[0] == x[0];
      HeaderEndMeetsSpec(s);
      forall i: nat | i < |x| ensures !EndsAt(s, i) {
        assert |s| > |x| ==> s[..|x|] == x;
        assert |s| <= |x| ==> s == x[..|s|];
        NoEndInside(x, s, i);
      }
      if m <= |x| + 2 {
        assert s == (x + CRLF)[..m];
        forall i: nat | i >= |x| ensures !EndsAt(s, i) {
          NoEndYet(x, s, i);
        }
        assert IsHeaderEnd(s, 0);
        HeaderEndUnique(s, 0, HeaderEnd(s));
      } else {
        var last := |x| - 1;
        assert IsNewLine(x[last]) ==> FoldAt(x, last) || FoldAt(x, last - 1);
        EndAfter(x, z, m);
        HeaderEndUnique(s, |x|, HeaderEnd(s));
      }
    }
  }

  // --- One pass of the header loop ----------------------------------------------------------

  lemma ChompTrimmed(p: string, s: string)
    requires AllIn(Blank, p) && Trimmed(s)
    ensures Chomp(p + s) == s
  {
    SpanConcat(Blank, p, s);
    SpanIs(Blank, s, 0);
    assert (p + s)[|p|..] == s;
  }

  lemma SplitText(h: Header)
    requires WellFormedHeader(h)
    ensures SplitHeader(HeaderText(h)) == Ok(h)
  {
    hide Chomp, IndexOf, FoldedOnly, Trimmed;
    var x := HeaderText(h);
    var n := |h.name|;
    assert x[..n] == h.name && x[n] == ':' && x[n + 1..] == " " + h.value;
    assert forall k | 0 <= k < n :: x[k] == h.name[k] && h.name[k] in h.name;
    IndexIs(':', x, n);
    assert "" + h.name == h.name;
    ChompTrimmed("", h.name);
    ChompTrimmed(" ", h.value);
  }

  /** What can be left between the headers that were stored and the next header line. */
  predicate IsGap(nl: string) {
    nl == "" || nl == "\n" || nl == CRLF
  }

  lemma GapPass(nl: string, u: string, m: nat)
    requires IsGap(nl) && u != [] && !IsWS(u[0]) && m <= |nl| + |u|
    ensures var s := (nl + u)[..m]; var n := if m <= |nl| then m else |nl|;
      Span(Blank, s) == n && MoreHeaders(s[..n]) && s[n..] == u[..m - n]
  {
    var s := (nl + u)[..m];
    var n := if m <= |nl| then m else |nl|;
    assert forall k | 0 <= k < n :: s[k] == nl[k];
    assert m > |nl| ==> s[n] == u[0];
    SpanIs(Blank, s, n);
    assert s[..n] == nl[..n];
    assert nl[..n] == "" || nl[..n] == "\r" || nl[..n] == "\n" || nl[..n] == "\r\n" by {
      assert n == |nl| ==> nl[..n] == nl;
      assert n == 0 ==> nl[..n] == "";
      assert n == 1 && nl == CRLF ==> nl[..n] == "\r";
    }
    FewNewLines(nl[..n]);
  }

  /** One pass over a prefix of a header line and what follows it. */
  lemma HeaderPassOn(nl: string, h: Header, z: string, m: nat)
    requires IsGap(nl) && WellFormedHeader(h) && AfterHeader(z)
    requires m <= |nl| + |HeaderText(h)| + 2 + |z|
    ensures var t := nl + (HeaderText(h) + CRLF + z);
            var n := if m <= |nl| then m else |nl|;
            var end := |nl| + |HeaderText(h)|;
      HeaderPass(t[..m]) == if m <= end + 2 then EndOfBuffer(t[n..m]) else Found(h, t[end..m])
  {
    hide HeaderEnd, SplitHeader, MoreHeaders, HeaderText, Span, IsGap;
    var x := HeaderText(h);
    var u := x + CRLF + z;
    var n := if m <= |nl| then m else |nl|;
    assert x != [] && !IsWS(x[0]) && FoldedOnly(x) by { TextIsHeader(h); }
    assert u[0] == x[0];
    GapPass(nl, u, m);
    LineSlices(nl, x, z, m);
    HeaderEndOn(x, z, m - n);
    if m > |nl| + |x| + 2 {
      SplitText(h);
    }
  }

  lemma LineSlices(nl: string, x: string, z: string, m: nat)
    requires m <= |nl| + |x| + 2 + |z|
    ensures var u := x + CRLF + z; var t := nl + u; var n := if m <= |nl| then m else |nl|;
      && t[n..m] == u[..m - n] && t[..m][n..] == u[..m - n]
      && (m > |nl| + |x| + 2 ==> u[..m - n][..|x|] == x && u[..m - n][|x|..] == t[|nl| + |x|..m])
  {
    var u := x + CRLF + z;
    var t := nl + u;
    assert t[..|nl|] == nl && t[|nl|..] == u && u[..|x|] == x;
    if m > |nl| {
      SplitAt(t, |nl|, m);
      SplitAt(t[..m], |nl|, m);
      if m > |nl| + |x| + 2 {
        Suffix(t, |nl|, |nl| + |x|, m);
        assert u[..m - |nl|][..|x|] == u[..|x|];
        SplitAt(u, |x|, m - |nl|);
        assert u[..m - |nl|][|x|..] == u[|x|..m - |nl|];
      }
    }
  }

  /** The empty line is recognised as soon as its carriage return has arrived. */
  lemma BlankLinePassOn(z: string, m: nat)
    requires AfterHeaders(z) && 3 <= m <= 4 + |z|
    ensures var t := CRLF + CRLF + z;
      HeaderPass(t[..m]) == EndOfHeaders(t[if m <= 4 then m else 4..m])
  {
    hide HeaderEnd, SplitHeader, MoreHeaders;
    var t := CRLF + CRLF + z;
    var s := t[..m];
    var n := if m <= 4 then m else 4;
    assert m > 4 ==> s[4] == z[0];
    SpanIs(Blank, s, n);
    assert s[..n] == "\r\n\r" || s[..n] == "\r\n\r\n";
    BlankLine(s[..n]);
    assert t[n..m] == s[n..];
  }

  // --- The header loop over a prefix of a header section --------------------------------------

  predicate WellFormedHeaders(hs: seq<Header>) {
    forall i | 0 <= i < |hs| :: WellFormedHeader(hs[i])
  }

  /** What is still to be read when the headers `full[..got]` were stored. */
  function Section(nl: string, full: seq<Header>, got: nat, z: string): (t: string)
    requires got <= |full|
    ensures |t| >= |z|
  {
    nl + (HeaderLines(full[got..]) + (CRLF + z))
  }

  lemma SectionTail(full: seq<Header>, z: string)
    ensures var t := Section(CRLF, full, 0, z); t[|t| - |z|..|t|] == z
  {
    hide HeaderLines;
  }

  /** `got` were stored, and `text` starts with the header lines that are missing. */
  ghost predicate Pending(full: seq<Header>, got: seq<Header>, text: string, z: string) {
    && |got| < |full|
    && got == full[..|got|]
    && exists nl :: IsGap(nl) && text == Section(nl, full, |got|, z)
  }

  lemma SectionStep(nl: string, full: seq<Header>, got: nat, z: string)
    requires got < |full| && WellFormedHeaders(full) && AfterHeaders(z)
    ensures var x := HeaderText(full[got]); var z' := HeaderLines(full[got + 1..]) + (CRLF + z);
      && Section(nl, full, got, z) == nl + (x + CRLF + z')
      && AfterHeader(z')
      && Section(CRLF, full, got + 1, z) == CRLF + z'
      && Section(nl, full, got, z)[|nl| + |x|..] == CRLF + z'
  {
    hide HeaderText, WellFormedHeader;
    var rest := full[got..];
    var x := HeaderText(full[got]);
    assert rest[0] == full[got] && rest[1..] == full[got + 1..];
    var z' := HeaderLines(full[got + 1..]) + (CRLF + z);
    assert HeaderLines(rest) + (CRLF + z) == x + CRLF + z';
    if got + 1 < |full| {
      var next := full[got + 1..];
      assert next[0] == full[got + 1];
      TextIsHeader(next[0]);
      assert z'[0] == HeaderText(next[0])[0];
    } else {
      assert HeaderLines(full[got + 1..]) == "";
      assert z' == CRLF + z;
      assert z'[..2] == CRLF && z'[2..] == z;
    }
    assert (nl + (x + CRLF + z'))[|nl| + |x|..] == CRLF + z';
  }

  lemma SectionEnd(full: seq<Header>, z: string)
    ensures Section(CRLF, full, |full|, z) == CRLF + CRLF + z
  {
    assert HeaderLines(full[|full|..]) == "";
  }

  /** What the loop makes of the first `m` bytes of the header section `t`, which `z` follows:
      its end is seen one byte early, at the carriage return of the empty line. */
  ghost predicate ScansSection(r: HeaderScan, full: seq<Header>, t: string, z: string, m: nat)
    requires |z| <= |t| && m <= |t|
  {
    var q := |t| - |z|;
    if m >= q - 1 then r == Scanned(full, t[if m <= q then m else q..m], true)
    else r.Scanned? && !r.endOfHeaders && Pending(full, r.headers, r.rest + t[m..], z)
  }

  lemma ScansMore(r: HeaderScan, full: seq<Header>, t: string, end: nat, z: string, m: nat)
    requires end <= m <= |t| && |z| <= |t| - end
    requires ScansSection(r, full, t[end..], z, m - end)
    ensures ScansSection(r, full, t, z, m)
  {
    hide Pending;
    var t' := t[end..];
    assert t[m..] == t'[m - end..];
    var q := |t| - |z|;
    assert m >= q - 1 ==> t[if m <= q then m else q..m] == t'[if m <= q then m - end else q - end..m - end];
  }

  /** For every prefix of a header section, the header loop stores the headers that are complete
      and keeps the rest, or finds them all. */
  lemma {:induction false} HeaderLoopOn(nl: string, full: seq<Header>, got: nat, z: string, m: nat)
    requires WellFormedHeaders(full) && AfterHeaders(z) && IsGap(nl) && got <= |full|
    requires m <= |Section(nl, full, got, z)|
    requires got == |full| ==> nl == CRLF && m >= 3
    ensures var t := Section(nl, full, got, z);
      ScansSection(HeaderLoop(full[..got], t[..m], false), full, t, z, m)
    decreases |full| - got
  {
    hide ScansSection, HeaderLoop, HeaderText, WellFormedHeader, Section, HeaderLines, AfterHeader, AfterHeaders;
    if got == |full| {
      LoopOnEnd(full, z, m);
    } else {
      var end := |nl| + |HeaderText(full[got])|;
      SectionStep(nl, full, got, z);
      if m <= end + 2 {
        LoopOnPart(nl, full, got, z, m);
      } else {
        var t, t' := Section(nl, full, got, z), Section(CRLF, full, got + 1, z);
        LoopOnLine(nl, full, got, z, m);
        HeaderLoopOn(CRLF, full, got + 1, z, m - end);
        ScansMore(HeaderLoop(full[..got + 1], t[end..m], false), full, t, end, z, m);
      }
    }
  }

  lemma LoopOnEnd(full: seq<Header>, z: string, m: nat)
    requires AfterHeaders(z) && 3 <= m <= |Section(CRLF, full, |full|, z)|
    ensures var t := Section(CRLF, full, |full|, z);
      ScansSection(HeaderLoop(full[..|full|], t[..m], false), full, t, z, m)
  {
    hide HeaderPass, Section, AfterHeaders;
    SectionEnd(full, z);
    BlankLinePassOn(z, m);
    assert full[..|full|] == full;
  }

  lemma LoopOnPart(nl: string, full: seq<Header>, got: nat, z: string, m: nat)
    requires WellFormedHeaders(full) && AfterHeaders(z) && IsGap(nl) && got < |full|
    requires m <= |Section(nl, full, got, z)| && m <= |nl| + |HeaderText(full[got])| + 2
    ensures var t := Section(nl, full, got, z); ScansSection(HeaderLoop(full[..got], t[..m], false), full, t, z, m)
  {
    hide HeaderPass, HeaderText, WellFormedHeader, Section, HeaderLines, Pending, AfterHeader, AfterHeaders, IsGap;
    SectionStep(nl, full, got, z);
    HeaderPassOn(nl, full[got], HeaderLines(full[got + 1..]) + (CRLF + z), m);
    StillPending(nl, full, got, z, m);
  }

  /** One turn of the loop, when the header and one byte more are there. */
  lemma LoopOnLine(nl: string, full: seq<Header>, got: nat, z: string, m: nat)
    requires WellFormedHeaders(full) && AfterHeaders(z) && IsGap(nl) && got < |full|
    requires |nl| + |HeaderText(full[got])| + 2 < m <= |Section(nl, full, got, z)|
    ensures var t, end := Section(nl, full, got, z), |nl| + |HeaderText(full[got])|;
      && HeaderLoop(full[..got], t[..m], false) == HeaderLoop(full[..got + 1], t[end..m], false)
      && |Section(CRLF, full, got + 1, z)| == |t| - end
      && t[end..m] == Section(CRLF, full, got + 1, z)[..m - end]
      && t[end..] == Section(CRLF, full, got + 1, z)
  {
    hide HeaderPass, HeaderText, WellFormedHeader, Section, HeaderLines, AfterHeader, AfterHeaders, IsGap;
    var t, end := Section(nl, full, got, z), |nl| + |HeaderText(full[got])|;
    SectionStep(nl, full, got, z);
    HeaderPassOn(nl, full[got], HeaderLines(full[got + 1..]) + (CRLF + z), m);
    assert t[end..m] == t[end..][..m - end];
    assert full[..got] + [full[got]] == full[..got + 1];
  }

  lemma GapRest(nl: string, n: nat)
    requires IsGap(nl) && n <= |nl|
    ensures IsGap(nl[n..])
  {
    assert n == |nl| ==> nl[n..] == "";
    assert n == 0 ==> nl[n..] == nl;
    assert n == 1 && nl == CRLF ==> nl[n..] == "\n";
  }

  lemma StillPending(nl: string, full: seq<Header>, got: nat, z: string, m: nat)
    requires IsGap(nl) && got < |full| && m <= |Section(nl, full, got, z)|
    ensures var t := Section(nl, full, got, z); var n := if m <= |nl| then m else |nl|;
      Pending(full, full[..got], t[n..m] + t[m..], z)
  {
    hide IsGap, HeaderLines;
    var t := Section(nl, full, got, z);
    var n := if m <= |nl| then m else |nl|;
    assert t[n..m] + t[m..] == t[n..];
    assert t[n..] == Section(nl[n..], full, got, z);
    GapRest(nl, n);
  }

  /** Header lines, in full. */
  lemma LinesOfHeaders(h: Header, hs: seq<Header>)
    ensures HeaderLines([]) == ""
    ensures HeaderLines([h] + hs) == h.name + ": " + h.value + "\r\n" + HeaderLines(hs)
  {
    assert ([h] + hs)[1..] == hs;
  }
}
