/** Byte strings. A C++ `char` is a Dafny `char`; every result holds for any `char`,
    so for the 256 byte values in particular. */
module Bytes {

  datatype Option<+T> = None | Some(value: T)

  datatype Result<+T, +E> = Ok(value: T) | Err(error: E)

  const CRLF: string := "\r\n"

  predicate IsWS(c: char) {
    c == '\t' || c == '\n' || c == '\r' || c == ' '
  }

  predicate IsNewLine(c: char) {
    c == '\n' || c == '\r'
  }

  /** The kinds of characters the scanners and the URL patterns run through. */
  datatype CharClass = Blank | Word | NewLine | Line | Letter | Digit | NotIn(excluded: string)

  predicate In(k: CharClass, c: char) {
    match k
    case Blank => IsWS(c)
    case Word => !IsWS(c)
    case NewLine => IsNewLine(c)
    case Line => !IsNewLine(c)
    case Letter => 'A' <= c <= 'Z' || 'a' <= c <= 'z'
    case Digit => '0' <= c <= '9'
    case NotIn(excluded) => c !in excluded
  }

  predicate AllIn(k: CharClass, s: string) {
    forall i | 0 <= i < |s| :: In(k, s[i])
  }

  /** Length of the longest prefix of `s` whose characters are all of class `k`. */
  function Span(k: CharClass, s: string): (n: nat)
    ensures n <= |s|
    ensures forall i | 0 <= i < n :: In(k, s[i])
    ensures n < |s| ==> !In(k, s[n])
  {
    if s == [] || !In(k, s[0]) then 0 else
    var m := Span(k, s[1..]);
    assert forall i | 1 <= i < 1 + m :: s[i] == s[1..][i - 1];
    assert 1 + m < |s| ==> s[1 + m] == s[1..][m];
    1 + m
  }

  lemma SpanIs(k: CharClass, s: string, n: nat)
    requires n <= |s|
    requires forall i | 0 <= i < n :: In(k, s[i])
    requires n == |s| || !In(k, s[n])
    ensures Span(k, s) == n
  {
  }

  /** Once a span stops inside `s`, appending bytes does not move it. */
  lemma SpanExtends(k: CharClass, s: string, t: string)
    requires Span(k, s) < |s|
    ensures Span(k, s + t) == Span(k, s)
  {
    SpanIs(k, s + t, Span(k, s));
  }

  lemma SpanConcat(k: CharClass, s: string, t: string)
    requires AllIn(k, s)
    ensures Span(k, s + t) == |s| + Span(k, t)
  {
    var n := |s| + Span(k, t);
    forall i | 0 <= i < n ensures In(k, (s + t)[i]) {
      if i >= |s| {
        assert (s + t)[i] == t[i - |s|];
      }
    }
    SpanIs(k, s + t, n);
  }

  /** `std::find_if`: the first place where `p` holds, or the end. */
  function FirstWhere<T>(s: seq<T>, p: T -> bool): (i: nat)
    ensures i <= |s|
    ensures i < |s| ==> p(s[i])
    ensures forall j | 0 <= j < i :: !p(s[j])
  {
    if s == [] || p(s[0]) then 0 else 1 + FirstWhere(s[1..], p)
  }

  /** Positions in a suffix of a buffer are positions in the buffer. */
  lemma Suffix(s: string, i: nat, j: nat, k: nat)
    requires i <= j <= k <= |s|
    ensures s[i..][j - i..] == s[j..]
    ensures s[i..][j - i..k - i] == s[j..k]
  {
  }

  lemma SplitAt(s: string, i: nat, j: nat)
    requires i <= j <= |s|
    ensures s[i..][..j - i] == s[i..j]
    ensures s[i..][j - i..] == s[j..]
  {
  }

  function Count(c: char, s: string): nat {
    if s == [] then 0 else (if s[0] == c then 1 else 0) + Count(c, s[1..])
  }

  lemma {:induction false} CountConcat(c: char, s: string, t: string)
    ensures Count(c, s + t) == Count(c, s) + Count(c, t)
  {
    if s == [] {
      assert s + t == t;
    } else {
      assert (s + t)[1..] == s[1..] + t;
      CountConcat(c, s[1..], t);
    }
  }

  /** The classes, by the codes of their characters. */
  lemma Classes(c: char)
    ensures In(Blank, c) <==> c as int in {9, 10, 13, 32}
    ensures In(Word, c) <==> c as int !in {9, 10, 13, 32}
    ensures In(NewLine, c) <==> c as int in {10, 13}
    ensures In(Line, c) <==> c as int !in {10, 13}
    ensures In(Digit, c) <==> 48 <= c as int <= 57
    ensures In(Letter, c) <==> 65 <= c as int <= 90 || 97 <= c as int <= 122
    ensures forall excluded :: In(NotIn(excluded), c) <==> c !in excluded
  {
  }

  lemma LineEnd()
    ensures |CRLF| == 2 && CRLF[0] as int == 13 && CRLF[1] as int == 10
  {
  }
}
