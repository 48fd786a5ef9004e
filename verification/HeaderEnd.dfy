/** What findHeaderEnd finds, said without its scan: RFC 2616, section 4.2, read on a buffer that
    may stop anywhere. */
module HeaderEndSpec {
  import opened Bytes
  import opened ParsingHelpers

  /** `s[i..j]` is a whole run of newlines, and something precedes it. */
  ghost predicate NewLineRun(s: string, i: nat, j: nat) {
    && 0 < i < j <= |s|
    && !IsNewLine(s[i - 1])
    && (forall k | i <= k < j :: IsNewLine(s[k]))
    && (j < |s| ==> !IsNewLine(s[j]))
  }

  ghost predicate Twice(c: char, s: string) {
    exists i, j :: 0 <= i < j < |s| && s[i] == s[j] == c
  }

  /** The run is followed by something other than a folded line, or it reaches the end of the buffer
      with two carriage returns or two line feeds. */
  ghost predicate Terminates(s: string, i: nat, j: nat)
    requires i <= j <= |s|
  {
    if j < |s| then !IsWS(s[j]) else Twice('\r', s[i..]) || Twice('\n', s[i..])
  }

  lemma {:induction false} CountedOnce(c: char, s: string)
    ensures Count(c, s) >= 1 <==> c in s
  {
    if s != "" {
      CountedOnce(c, s[1..]);
      assert s == [s[0]] + s[1..];
    }
  }

  lemma {:induction false} CountedTwice(c: char, s: string)
    ensures Count(c, s) >= 2 <==> Twice(c, s)
  {
    if s != "" {
      var rest := s[1..];
      CountedOnce(c, rest);
      CountedTwice(c, rest);
      if Twice(c, s) {
        var i, j :| 0 <= i < j < |s| && s[i] == s[j] == c;
        assert rest[j - 1] == c;
        if i > 0 {
          assert rest[i - 1] == c;
        }
      }
      if Twice(c, rest) {
        var i, j :| 0 <= i < j < |rest| && rest[i] == rest[j] == c;
        assert s[i + 1] == s[j + 1] == c;
      } else if s[0] == c && c in rest {
        var j :| 0 <= j < |rest| && rest[j] == c;
        assert s[0] == s[j + 1] == c;
      }
    }
  }

  /** Two line ends have been seen when there are two carriage returns or two line feeds. */
  lemma NoMoreHeaders(s: string)
    ensures !MoreHeaders(s) <==> Twice('\r', s) || Twice('\n', s)
  {
    CountedTwice('\r', s);
    CountedTwice('\n', s);
  }

  ghost predicate EndsAt(s: string, i: nat) {
    exists j: nat :: NewLineRun(s, i, j) && Terminates(s, i, j)
  }

  ghost predicate IsHeaderEnd(s: string, r: nat) {
    && (forall i: nat | r == 0 || i < r :: !EndsAt(s, i))
    && (r != 0 ==> EndsAt(s, r))
  }

  lemma BackupIs(s: string, i: nat, j: nat)
    requires 0 < i <= j <= |s|
    requires forall k | i <= k < j :: IsNewLine(s[k])
    requires !IsNewLine(s[i - 1])
    ensures BackupThroughNewLines(s, j) == i
  {
  }

  lemma NoRunStart(s: string, i: nat)
    requires i >= |s| || !IsNewLine(s[i]) || i == 0 || IsNewLine(s[i - 1])
    ensures !EndsAt(s, i)
  {
  }

  lemma OneRun(s: string, i: nat, j: nat)
    requires NewLineRun(s, i, j)
    ensures EndsAt(s, i) <==> Terminates(s, i, j)
  {
    forall k: nat | NewLineRun(s, i, k) ensures k == j {
    }
  }

  /** The first line, and the newlines that end it. */
  lemma LineAndRun(s: string, where: nat, eol: nat, next: nat)
    requires where < |s| && !IsNewLine(s[where])
    requires eol == where + Span(Line, s[where..]) <= |s| && next == eol + Span(NewLine, s[eol..])
    ensures where < eol <= next <= |s| && next == NextLine(s, where)
    ensures eol < |s| ==> NewLineRun(s, eol, next)
    ensures forall i | where <= i < eol :: !IsNewLine(s[i])
    ensures forall i | eol <= i < next :: IsNewLine(s[i])
  {
    assert s[where..][0] == s[where];
    assert forall i | where <= i < eol :: s[i] == s[where..][i - where];
    assert forall i | eol <= i < next :: s[i] == s[eol..][i - eol];
    assert eol < |s| ==> s[eol..][0] == s[eol];
  }

  lemma NoEndAround(s: string, where: nat, eol: nat, next: nat)
    requires where < eol <= next <= |s|
    requires forall i | where <= i < eol :: !IsNewLine(s[i])
    requires forall i | eol <= i < next :: IsNewLine(s[i])
    requires next == |s| || !IsNewLine(s[next])
    ensures forall i: nat | where < i < eol || eol < i <= next :: !EndsAt(s, i)
    ensures next == |s| ==> forall i: nat | i > eol :: !EndsAt(s, i)
    ensures eol == |s| ==> forall i: nat | i > where :: !EndsAt(s, i)
  {
    hide EndsAt;
    forall i: nat | where < i < eol || eol < i <= next || i >= |s| ensures !EndsAt(s, i) {
      NoRunStart(s, i);
    }
  }

  lemma {:induction false} HeaderEndFromMeetsSpec(s: string, where: nat)
    requires where < |s| && !IsWS(s[0]) && !IsNewLine(s[where])
    requires forall i: nat | i <= where :: !EndsAt(s, i)
    ensures IsHeaderEnd(s, HeaderEndFrom(s, where))
    decreases |s| - where
  {
    hide EndsAt, Span, NextLine, MoreHeaders, Twice, BackupThroughNewLines;
    var eol := where + Span(Line, s[where..]);
    var next := eol + Span(NewLine, s[eol..]);
    LineAndRun(s, where, eol, next);
    NoEndAround(s, where, eol, next);
    BackupIs(s, eol, next);
    if eol == |s| {
      assert MoreHeaders(s[eol..]) by { assert s[eol..] == []; EmptyHasMore(); }
    } else {
      NoMoreHeaders(s[eol..]);
      OneRun(s, eol, next);
      if next < |s| && IsWS(s[next]) {
        HeaderEndFromMeetsSpec(s, next);
      }
    }
  }

  lemma EmptyHasMore()
    ensures MoreHeaders("")
  {
  }

  /** findHeaderEnd, started on a header, returns the first newline run that ends it, and its
      start when there is none. */
  lemma HeaderEndMeetsSpec(s: string)
    requires s != [] && !IsWS(s[0])
    ensures IsHeaderEnd(s, HeaderEnd(s))
  {
    NoRunStart(s, 0);
    HeaderEndFromMeetsSpec(s, 0);
  }

  lemma HeaderEndUnique(s: string, r: nat, r': nat)
    requires IsHeaderEnd(s, r) && IsHeaderEnd(s, r')
    ensures r == r'
  {
    assert r != 0 ==> EndsAt(s, r);
    assert r' != 0 ==> EndsAt(s, r');
  }

  // --- Extending the buffer -------------------------------------------------------------

  /** The first byte after the newlines of `t` would continue a header line. */
  predicate Folds(t: string) {
    var n := Span(NewLine, t);
    n < |t| && IsWS(t[n])
  }

  /** Only newlines follow position `r`. */
  predicate NewLinesOnly(s: string, r: nat)
    requires r <= |s|
  {
    AllIn(NewLine, s[r..])
  }

  lemma TwiceGrows(c: char, s: string, t: string)
    requires Twice(c, s)
    ensures Twice(c, s + t)
  {
    var i, j :| 0 <= i < j < |s| && s[i] == s[j] == c;
    assert (s + t)[i] == (s + t)[j] == c;
  }

  lemma EarlierRunsStay(s: string, t: string, i: nat)
    requires exists j: nat :: NewLineRun(s, i, j) && j < |s|
    ensures EndsAt(s + t, i) <==> EndsAt(s, i)
  {
    var j: nat :| NewLineRun(s, i, j) && j < |s|;
    assert NewLineRun(s + t, i, j);
    OneRun(s, i, j);
    OneRun(s + t, i, j);
  }

  lemma LastRunGrows(s: string, t: string, i: nat)
    requires NewLineRun(s, i, |s|) && Terminates(s, i, |s|)
    ensures EndsAt(s + t, i) <==> !Folds(t)
  {
    var n := Span(NewLine, t);
    var u := s + t;
    var j := |s| + n;
    assert forall k | |s| <= k < j :: u[k] == t[k - |s|];
    assert NewLineRun(u, i, j);
    OneRun(u, i, j);
    if n == |t| {
      assert u[i..] == s[i..] + t;
      if Twice('\r', s[i..]) { TwiceGrows('\r', s[i..], t); } else { TwiceGrows('\n', s[i..], t); }
    }
  }

  lemma NoEarlierEnd(s: string, t: string, r: nat, i: nat)
    requires 0 < r < |s| && !IsNewLine(s[r - 1])
    requires i < r && !EndsAt(s, i)
    ensures !EndsAt(s + t, i)
  {
    if EndsAt(s + t, i) {
      var k: nat :| NewLineRun(s + t, i, k) && Terminates(s + t, i, k);
      assert (s + t)[r - 1] == s[r - 1];
      assert k < r;
      assert forall x | i <= x < k :: s[x] == (s + t)[x];
      assert NewLineRun(s, i, k);
      EarlierRunsStay(s, t, i);
    }
  }

  lemma FoundRun(s: string, t: string, r: nat, j: nat)
    requires NewLineRun(s, r, j) && Terminates(s, r, j)
    ensures NewLinesOnly(s, r) <==> j == |s|
    ensures EndsAt(s + t, r) <==> !(NewLinesOnly(s, r) && Folds(t))
  {
    assert forall k | 0 <= k < |s[r..]| :: s[r..][k] == s[r + k];
    if j < |s| {
      EarlierRunsStay(s, t, r);
      assert !IsNewLine(s[r..][j - r]);
    } else {
      LastRunGrows(s, t, r);
    }
  }

  /** A header end that was found stays found when bytes arrive, unless nothing but newlines
      followed it and the new bytes turn out to fold the line; in that case it always moves. */
  lemma FoundStaysFound(s: string, t: string)
    requires s != [] && !IsWS(s[0]) && HeaderEnd(s) != 0
    ensures HeaderEnd(s + t) == HeaderEnd(s) <==> !(NewLinesOnly(s, HeaderEnd(s)) && Folds(t))
  {
    hide HeaderEndFrom, Twice, NewLinesOnly, Folds;
    var r := HeaderEnd(s);
    assert IsHeaderEnd(s, r) by { HeaderEndMeetsSpec(s); }
    assert IsHeaderEnd(s + t, HeaderEnd(s + t)) by { HeaderEndMeetsSpec(s + t); }
    var j: nat :| NewLineRun(s, r, j) && Terminates(s, r, j);
    FoundRun(s, t, r, j);
    forall i: nat | i < r ensures !EndsAt(s + t, i) {
      NoEarlierEnd(s, t, r, i);
    }
    if EndsAt(s + t, r) {
      HeaderEndUnique(s + t, r, HeaderEnd(s + t));
    }
  }

  /** The documented rule, "a new line followed by something that is not white space", is not met by
      this header, but at the end of the buffer its end is found; a space that arrives moves it. */
  lemma FoundCanMove()
    ensures HeaderEnd("a\r\n\r\n") == 1 && HeaderEnd("a\r\n\r\n" + " ") != 1
  {
    hide HeaderEnd;
    var s := "a\r\n\r\n";
    assert s[1..] == CRLF + CRLF;
    CountConcat('\r', CRLF, CRLF);
    assert Count('\r', CRLF) == 1 by { assert CRLF[1..] == "\n"; }
    assert NewLineRun(s, 1, 5) && Terminates(s, 1, 5);
    HeaderEndMeetsSpec(s);
    assert IsHeaderEnd(s, 1);
    HeaderEndUnique(s, 1, HeaderEnd(s));
    SpanIs(NewLine, s[1..], 4);
    assert s[1..][4..] == "";
    FoundStaysFound(s, " ");
  }
}
