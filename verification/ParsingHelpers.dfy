/** The iterator helpers of lib/Acari/ParsingHelpers.hpp.
    The functions say what each helper computes on the bytes from its first iterator to the
    end of the buffer; the methods are the loops, on positions in the buffer. */
module ParsingHelpers {
  import opened Bytes
  import opened Decimal

  datatype Error =
    | UnknownMethod(text: string)
    | UnsupportedProtocol(text: string)
    | InvalidHeader(text: string)
    | BadLexicalCast(text: string)

  datatype Header = Header(name: string, value: string)

  // --- Line-end accounting ------------------------------------------------------------

  /** Fewer than two carriage returns and fewer than two line feeds. */
  predicate MoreHeaders(s: string) {
    !(Count('\r', s) >= 2 || Count('\n', s) >= 2)
  }

  function BackupThroughNewLines(s: string, where: nat): (r: nat)
    requires where <= |s|
    ensures r <= where
    ensures where > 0 ==> r > 0
    ensures forall i | r <= i < where :: IsNewLine(s[i])
    ensures r > 1 ==> !IsNewLine(s[r - 1])
  {
    if where > 1 && IsNewLine(s[where - 1]) then BackupThroughNewLines(s, where - 1) else where
  }

  /** Past the rest of the line at `where` and the newlines that follow it. */
  function NextLine(s: string, where: nat): (next: nat)
    requires where <= |s|
    ensures where <= next <= |s|
    ensures where < |s| ==> where < next
    ensures next < |s| ==> !IsNewLine(s[next])
  {
    var eol := where + Span(Line, s[where..]);
    assert eol == where < |s| ==> s[eol..][0] == s[where..][0];
    eol + Span(NewLine, s[eol..])
  }

  /** What is known when only newlines are left: the header ends if they also end all headers. */
  function HeaderEndAtBufferEnd(s: string): (r: nat)
    ensures r <= |s|
  {
    var last := BackupThroughNewLines(s, |s|);
    if MoreHeaders(s[last..]) then 0 else last
  }

  /** The end of the header that starts at `s[0]`, scanning from `where`; 0 when it is not known yet. */
  function HeaderEndFrom(s: string, where: nat): (r: nat)
    requires where <= |s|
    ensures r <= |s|
    decreases |s| - where
  {
    var next := NextLine(s, where);
    if next < |s| then
      if IsWS(s[next]) then HeaderEndFrom(s, next) else BackupThroughNewLines(s, next)
    else
      HeaderEndAtBufferEnd(s)
  }

  function HeaderEnd(s: string): (r: nat)
    ensures r <= |s|
  {
    HeaderEndFrom(s, 0)
  }

  // --- Trimming and splitting ---------------------------------------------------------

  function TrimLeft(s: string): string {
    s[Span(Blank, s)..]
  }

  function TrimRight(s: string): string {
    if s != [] && IsWS(s[|s| - 1]) then TrimRight(s[..|s| - 1]) else s
  }

  function Chomp(s: string): string {
    TrimRight(TrimLeft(s))
  }

  function IndexOf(c: char, s: string): (n: nat)
    ensures n <= |s|
    ensures n < |s| ==> s[n] == c
    ensures c !in s[..n]
  {
    FirstWhere(s, (x: char) => x == c)
  }

  function SplitHeader(s: string): Result<Header, Error> {
    var colon := IndexOf(':', s);
    if colon == |s| then Err(InvalidHeader(s))
    else Ok(Header(Chomp(s[..colon]), Chomp(s[colon + 1..])))
  }

  // --- First lines --------------------------------------------------------------------

  datatype Parsed<T> =
    | Incomplete
    | Failed(error: Error)
    | Complete(value: T, rest: string)

  /** The token after optional white space, and what follows it; incomplete when the buffer
      ends before a character that ends the token. */
  function NextToken(s: string, k: CharClass): (t: Parsed<string>)
    ensures !t.Failed?
    ensures t.Complete? ==> 0 < |t.rest| <= |s| - |t.value|
  {
    var start := Span(Blank, s);
    var end := start + Span(k, s[start..]);
    if end == |s| then Incomplete else Complete(s[start..end], s[end..])
  }

  datatype RequestLine = RequestLine(method_: string, url: string, protocol: string)

  datatype Method = Options | Get | Head | Post | Put | Delete | Trace | Connect

  const SUPPORTED_METHODS: map<string, Method> :=
    map["OPTIONS" := Options, "GET" := Get, "HEAD" := Head, "POST" := Post,
        "PUT" := Put, "DELETE" := Delete, "TRACE" := Trace, "CONNECT" := Connect]

  const SUPPORTED_PROTOCOLS: set<string> := {"HTTP/1.0", "HTTP/1.1"}

  function ExtractRequestLine(s: string): (r: Parsed<RequestLine>)
    ensures r.Complete? ==> 0 < |r.rest| < |s|
  {
    var t0 := NextToken(s, Word);
    if t0.Incomplete? then Incomplete else
    if t0.value !in SUPPORTED_METHODS then Failed(UnknownMethod(t0.value)) else
    var t1 := NextToken(t0.rest, Word);
    if t1.Incomplete? then Incomplete else
    var t2 := NextToken(t1.rest, Word);
    if t2.Incomplete? then Incomplete else
    if t2.value !in SUPPORTED_PROTOCOLS then Failed(UnsupportedProtocol(t2.value)) else
    Complete(RequestLine(t0.value, t1.value, t2.value), t2.rest)
  }

  datatype StatusLine = StatusLine(protocol: string, code: nat, reason: string)

  function ExtractStatusLine(s: string): (r: Parsed<StatusLine>)
    ensures r.Complete? ==> 0 < |r.rest| < |s|
  {
    var t0 := NextToken(s, Word);
    if t0.Incomplete? then Incomplete else
    if t0.value !in SUPPORTED_PROTOCOLS then Failed(UnsupportedProtocol(t0.value)) else
    var t1 := NextToken(t0.rest, Word);
    if t1.Incomplete? then Incomplete else
    var t2 := NextToken(t1.rest, Line);
    if t2.Incomplete? then Incomplete else
    match ParseUnsigned(t1.value, UINT_LIMIT)
    case None => Failed(BadLexicalCast(t1.value))
    case Some(n) => Complete(StatusLine(t0.value, n, t2.value), t2.rest)
  }

  // --- The loops ----------------------------------------------------------------------

  /** The loops of advanceThroughIgnorableWhiteSpace, advanceUntilIgnorableWhiteSpace,
      advanceUntilEndOfLine and findHeaderEnd, which differ in the class they pass over. */
  method Advance(k: CharClass, buffer: string, where: nat) returns (r: nat)
    requires where <= |buffer|
    ensures where <= r <= |buffer|
    ensures r == where + Span(k, buffer[where..])
  {
    r := where;
    while r != |buffer| && In(k, buffer[r])
      invariant where <= r <= |buffer|
      invariant forall i | where <= i < r :: In(k, buffer[i])
    {
      r := r + 1;
    }
    SpanIs(k, buffer[where..], r - where);
  }

  method HasMoreHeaders(buffer: string, where: nat, whence: nat) returns (more: bool)
    requires where <= whence <= |buffer|
    ensures more == MoreHeaders(buffer[where..whence])
  {
    var cr, lf := 0, 0;
    var i := where;
    while i != whence
      invariant where <= i <= whence
      invariant cr == Count('\r', buffer[where..i])
      invariant lf == Count('\n', buffer[where..i])
    {
      assert buffer[where..i + 1] == buffer[where..i] + [buffer[i]];
      CountConcat('\r', buffer[where..i], [buffer[i]]);
      CountConcat('\n', buffer[where..i], [buffer[i]]);
      if buffer[i] == '\r' { cr := cr + 1; }
      if buffer[i] == '\n' { lf := lf + 1; }
      i := i + 1;
    }
    more := !(cr >= 2 || lf >= 2);
  }

  method Backup(buffer: string, begin: nat, where: nat) returns (r: nat)
    requires begin <= where <= |buffer|
    ensures begin <= r <= where
    ensures r == begin + BackupThroughNewLines(buffer[begin..], where - begin)
  {
    r := where;
    while r != begin && r - 1 != begin && IsNewLine(buffer[r - 1])
      invariant begin <= r <= where
      invariant BackupThroughNewLines(buffer[begin..], where - begin)
             == BackupThroughNewLines(buffer[begin..], r - begin)
    {
      r := r - 1;
    }
  }

  method PastLine(buffer: string, from: nat, where: nat) returns (next: nat)
    requires from <= where <= |buffer|
    ensures where <= next <= |buffer|
    ensures next == from + NextLine(buffer[from..], where - from)
  {
    var eol := Advance(Line, buffer, where);
    next := Advance(NewLine, buffer, eol);
    Suffix(buffer, from, where, eol);
    Suffix(buffer, from, eol, next);
  }

  method EndAtBufferEnd(buffer: string, from: nat) returns (r: nat)
    requires from <= |buffer|
    ensures from <= r <= |buffer|
    ensures r == from + HeaderEndAtBufferEnd(buffer[from..])
  {
    r := Backup(buffer, from, |buffer|);
    var more := HasMoreHeaders(buffer, r, |buffer|);
    Suffix(buffer, from, r, |buffer|);
    assert buffer[r..|buffer|] == buffer[r..];
    if more {
      r := from;
    }
  }

  method FindHeaderEnd(buffer: string, from: nat, where: nat) returns (r: nat)
    requires from <= where <= |buffer|
    ensures from <= r <= |buffer|
    ensures r == from + HeaderEndFrom(buffer[from..], where - from)
    decreases |buffer| - where
  {
    hide HeaderEndAtBufferEnd, BackupThroughNewLines, NextLine;
    ghost var s := buffer[from..];
    var next := PastLine(buffer, from, where);
    assert next != |buffer| ==> s[next - from] == buffer[next];
    if next != |buffer| && !IsWS(buffer[next]) {
      r := Backup(buffer, from, next);
    } else if next != |buffer| && IsWS(buffer[next]) {
      r := FindHeaderEnd(buffer, from, next);
    } else {
      r := EndAtBufferEnd(buffer, from);
    }
  }

  lemma TrimRightIs(s: string, n: nat)
    requires n <= |s|
    requires forall i | n <= i < |s| :: IsWS(s[i])
    requires n == 0 || !IsWS(s[n - 1])
    ensures TrimRight(s) == s[..n]
  {
    if |s| > n {
      assert s[..|s| - 1][..n] == s[..n];
      TrimRightIs(s[..|s| - 1], n);
    } else {
      assert s[..n] == s;
    }
  }

  method ChompRange(buffer: string, first: nat, last: nat) returns (s: string)
    requires first <= last <= |buffer|
    ensures s == Chomp(buffer[first..last])
  {
    hide Span, TrimRight;
    var begin, end := first, last;
    while begin != end && IsWS(buffer[begin])
      invariant first <= begin <= last
      invariant forall i | first <= i < begin :: IsWS(buffer[i])
    {
      begin := begin + 1;
    }
    ghost var whole := buffer[first..last];
    SpanIs(Blank, whole, begin - first);
    ghost var left := whole[begin - first..];
    assert forall i | 0 <= i < |left| :: left[i] == buffer[begin + i];
    while begin != end && IsWS(buffer[end - 1])
      invariant begin <= end <= last
      invariant forall i | end <= i < last :: IsWS(buffer[i])
    {
      end := end - 1;
    }
    TrimRightIs(left, end - begin);
    s := buffer[begin..end];
    assert s == left[..end - begin];
  }

  lemma IndexIs(c: char, s: string, n: nat)
    requires n <= |s| && (forall i | 0 <= i < n :: s[i] != c) && (n == |s| || s[n] == c)
    ensures IndexOf(c, s) == n
  {
    assert forall i | 0 <= i < IndexOf(c, s) :: s[i] in s[..IndexOf(c, s)];
  }

  /** splitHeader: `std::find` for the colon, then two chomps. */
  method Split(buffer: string, begin: nat, end: nat) returns (r: Result<Header, Error>)
    requires begin <= end <= |buffer|
    ensures r == SplitHeader(buffer[begin..end])
  {
    hide Chomp, IndexOf;
    var colon := begin;
    while colon != end && buffer[colon] != ':'
      invariant begin <= colon <= end
      invariant forall i | begin <= i < colon :: buffer[i] != ':'
    {
      colon := colon + 1;
    }
    ghost var s := buffer[begin..end];
    assert IndexOf(':', s) == colon - begin by { IndexIs(':', s, colon - begin); }
    if colon == end {
      return Err(InvalidHeader(buffer[begin..end]));
    }
    var name := ChompRange(buffer, begin, colon);
    var value := ChompRange(buffer, colon + 1, end);
    assert s[..colon - begin] == buffer[begin..colon];
    assert s[colon - begin + 1..] == buffer[colon + 1..end];
    r := Ok(Header(name, value));
  }

  /** One pair of advances: past white space, then to the end of the token. */
  method ScanToken(k: CharClass, buffer: string, at: nat) returns (where: nat, whence: nat)
    requires at <= |buffer|
    ensures at <= where <= whence <= |buffer|
    ensures NextToken(buffer[at..], k)
         == if whence == |buffer| then Incomplete else Complete(buffer[where..whence], buffer[whence..])
  {
    hide Span;
    where := Advance(Blank, buffer, at);
    whence := Advance(k, buffer, where);
    Suffix(buffer, at, where, whence);
    Suffix(buffer, at, whence, |buffer|);
  }

  method ExtractRequestHeader(buffer: string, curr: nat) returns (r: Parsed<RequestLine>, end: nat)
    requires curr <= |buffer|
    ensures r == ExtractRequestLine(buffer[curr..])
    ensures r.Complete? ==> curr <= end <= |buffer| && r.rest == buffer[end..]
  {
    hide NextToken, SUPPORTED_METHODS, SUPPORTED_PROTOCOLS, ParseUnsigned;
    end := curr;
    var where, whence := ScanToken(Word, buffer, curr);
    if whence == |buffer| { return Incomplete, curr; }
    var method_ := buffer[where..whence];
    if method_ !in SUPPORTED_METHODS { return Failed(UnknownMethod(method_)), curr; }
    where, whence := ScanToken(Word, buffer, whence);
    if whence == |buffer| { return Incomplete, curr; }
    var url := buffer[where..whence];
    where, whence := ScanToken(Word, buffer, whence);
    if whence == |buffer| { return Incomplete, curr; }
    var protocol := buffer[where..whence];
    if protocol !in SUPPORTED_PROTOCOLS { return Failed(UnsupportedProtocol(protocol)), curr; }
    return Complete(RequestLine(method_, url, protocol), buffer[whence..]), whence;
  }

  method ExtractResponseHeader(buffer: string, curr: nat) returns (r: Parsed<StatusLine>, end: nat)
    requires curr <= |buffer|
    ensures r == ExtractStatusLine(buffer[curr..])
    ensures r.Complete? ==> curr <= end <= |buffer| && r.rest == buffer[end..]
  {
    hide NextToken, SUPPORTED_METHODS, SUPPORTED_PROTOCOLS, ParseUnsigned;
    end := curr;
    var where, whence := ScanToken(Word, buffer, curr);
    if whence == |buffer| { return Incomplete, curr; }
    var protocol := buffer[where..whence];
    if protocol !in SUPPORTED_PROTOCOLS { return Failed(UnsupportedProtocol(protocol)), curr; }
    where, whence := ScanToken(Word, buffer, whence);
    if whence == |buffer| { return Incomplete, curr; }
    var code := buffer[where..whence];
    where, whence := ScanToken(Line, buffer, whence);
    if whence == |buffer| { return Incomplete, curr; }
    var reason := buffer[where..whence];
    var status := ParseUnsigned(code, UINT_LIMIT);
    if status == None { return Failed(BadLexicalCast(code)), curr; }
    return Complete(StatusLine(protocol, status.value, reason), buffer[whence..]), whence;
  }

  /** The table of methods, and the protocols. */
  lemma Supported(w: string)
    ensures w in SUPPORTED_PROTOCOLS <==> w == "HTTP/1.0" || w == "HTTP/1.1"
    ensures w in SUPPORTED_METHODS <==>
      w in {"OPTIONS", "GET", "HEAD", "POST", "PUT", "DELETE", "TRACE", "CONNECT"}
    ensures SUPPORTED_METHODS["OPTIONS"] == Options && SUPPORTED_METHODS["GET"] == Get
    ensures SUPPORTED_METHODS["HEAD"] == Head && SUPPORTED_METHODS["POST"] == Post
    ensures SUPPORTED_METHODS["PUT"] == Put && SUPPORTED_METHODS["DELETE"] == Delete
    ensures SUPPORTED_METHODS["TRACE"] == Trace && SUPPORTED_METHODS["CONNECT"] == Connect
  {
  }
}
