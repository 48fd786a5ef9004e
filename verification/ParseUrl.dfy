/** The two URL patterns of lib/Damon/Private/parseURL.cpp. Both end in `.*`, so the match the
    backtracking matcher returns is the first one for the parts before it: an optional part is
    tried before it is left out, and a longer run before a shorter one. */
module ParseUrl {
  import opened Bytes
  import opened Decimal

  datatype Groups = Groups(protocol: Option<string>, user: Option<string>, password: Option<string>,
                           host: string, port: Option<string>, path: string)

  const SEPARATOR := "://"
  const USER := NotIn(":/@")
  const PASSWORD := NotIn("/@")
  const HOST := NotIn(":/")

  // --- What the pattern matches -------------------------------------------------------------

  predicate IsGroup(k: CharClass, s: string) {
    s != "" && AllIn(k, s)
  }

  function ProtocolText(g: Groups): string {
    if g.protocol.Some? then g.protocol.value + SEPARATOR else ""
  }

  function UserText(g: Groups): string {
    match (g.user, g.password)
    case (Some(user), Some(password)) => user + (":" + (password + "@"))
    case (Some(user), None) => user + "@"
    case (None, _) => ""
  }

  function PortText(g: Groups): string {
    if g.port.Some? then ":" + g.port.value else ""
  }

  function HostText(g: Groups): string {
    g.host + (PortText(g) + g.path)
  }

  function Text(g: Groups): string {
    ProtocolText(g) + (UserText(g) + HostText(g))
  }

  /** The classes of the pattern's groups. */
  predicate InClasses(g: Groups) {
    && (g.protocol.Some? ==> IsGroup(Letter, g.protocol.value))
    && (g.user.Some? ==> IsGroup(USER, g.user.value))
    && (g.password.Some? ==> g.user.Some? && IsGroup(PASSWORD, g.password.value))
    && IsGroup(HOST, g.host)
    && (g.port.Some? ==> IsGroup(Digit, g.port.value))
  }

  predicate Matches(url: string, g: Groups) {
    InClasses(g) && url == Text(g)
  }

  // --- Which match comes first ----------------------------------------------------------------

  /** An optional group is tried before it is left out, and longest first: -1 when it is left out. */
  function Reach(part: Option<string>): int {
    if part.Some? then |part.value| else -1
  }

  /** The order in which the matcher would come to the two matches. */
  predicate NotAfter(g: Groups, g': Groups) {
    if Reach(g.protocol) != Reach(g'.protocol) then Reach(g.protocol) > Reach(g'.protocol)
    else if Reach(g.user) != Reach(g'.user) then Reach(g.user) > Reach(g'.user)
    else if Reach(g.password) != Reach(g'.password) then Reach(g.password) > Reach(g'.password)
    else if |g.host| != |g'.host| then |g.host| > |g'.host|
    else Reach(g.port) >= Reach(g'.port)
  }

  // --- The first match ------------------------------------------------------------------------

  /** A greedy run of the class, and what follows it. */
  function TakeWhile(k: CharClass, s: string): (r: (string, string))
    ensures r.0 + r.1 == s
    ensures AllIn(k, r.0)
    ensures r.1 != "" ==> !In(k, r.1[0])
  {
    (s[..Span(k, s)], s[Span(k, s)..])
  }

  function HostPart(s: string): Option<Groups> {
    var (host, rest) := TakeWhile(HOST, s);
    if host == "" then None else
    if rest == "" || rest[0] != ':' then Some(Groups(None, None, None, host, None, rest)) else
    var (digits, path) := TakeWhile(Digit, rest[1..]);
    if digits == "" then Some(Groups(None, None, None, host, None, rest))
    else Some(Groups(None, None, None, host, Some(digits), path))
  }

  /** The optional user and password, and what follows the `@`. */
  function UserPart(s: string): (r: Option<(string, Option<string>, string)>)
    ensures r.Some? ==> |r.value.2| < |s|
  {
    var (user, rest) := TakeWhile(USER, s);
    if user == "" || rest == "" then None
    else if rest[0] == '@' then Some((user, None, rest[1..]))
    else if rest[0] != ':' then None
    else
      var (password, rest') := TakeWhile(PASSWORD, rest[1..]);
      if password == "" || rest' == "" || rest'[0] != '@' then None
      else Some((user, Some(password), rest'[1..]))
  }

  function Authority(s: string): Option<Groups> {
    var user := UserPart(s);
    var withUser := if user.Some? then HostPart(user.value.2) else None;
    if withUser.Some? then Some(withUser.value.(user := Some(user.value.0), password := user.value.1))
    else HostPart(s)
  }

  function FirstMatch(url: string): Option<Groups> {
    var (letters, rest) := TakeWhile(Letter, url);
    var withProtocol := if letters != "" && SEPARATOR <= rest then Authority(rest[|SEPARATOR|..]) else None;
    if withProtocol.Some? then Some(withProtocol.value.(protocol := Some(letters)))
    else Authority(url)
  }

  datatype UrlError = InvalidUrl | UnknownProtocol | BadPort

  datatype Url = Url(protocol: string, host: string, port: nat, resource: string, user: string, password: string)

  const PORT_LIMIT: nat := 0x1_0000

  function ParseURL(url: string): Result<Url, UrlError> {
    match FirstMatch(url)
    case None => Err(InvalidUrl)
    case Some(g) =>
      var protocol := if g.protocol.Some? then g.protocol.value else "http";
      if protocol != "http" && protocol != "https" then Err(UnknownProtocol) else
      var port := if g.port.Some? then ParseUnsigned(g.port.value, PORT_LIMIT)
                  else Some(if protocol == "http" then 80 else 443);
      if port.None? then Err(BadPort) else
      Ok(Url(protocol, g.host, port.value, if g.path == "" then "/" else g.path,
             if g.user.Some? then g.user.value else "", if g.password.Some? then g.password.value else ""))
  }

  /** Group 4 of the second pattern, which differs from the first only in its groups. */
  function ExtractHost(url: string): string {
    match FirstMatch(url)
    case None => ""
    case Some(g) => g.host + PortText(g)
  }

  // --- It is a match --------------------------------------------------------------------------

  lemma HeadTail(s: string)
    requires s != ""
    ensures s == [s[0]] + s[1..]
  {
  }

  lemma HostPartMatches(s: string)
    ensures var r := HostPart(s);
      r.Some? ==> Matches(s, r.value) && r.value.protocol == r.value.user == r.value.password == None
  {
    hide TakeWhile, AllIn;
    var (host, rest) := TakeWhile(HOST, s);
    if host != "" && rest != "" {
      HeadTail(rest);
      var (digits, path) := TakeWhile(Digit, rest[1..]);
      assert ":" + (digits + path) == ":" + digits + path;
    }
  }

  lemma UserPartMatches(s: string)
    ensures var r := UserPart(s);
      r.Some? ==>
        && IsGroup(USER, r.value.0)
        && (r.value.1.Some? ==> IsGroup(PASSWORD, r.value.1.value))
        && s == UserText(Groups(None, Some(r.value.0), r.value.1, "", None, "")) + r.value.2
  {
    hide TakeWhile, AllIn;
    var (user, rest) := TakeWhile(USER, s);
    if user != "" && rest != "" {
      HeadTail(rest);
      if rest[0] == ':' {
        var (password, rest') := TakeWhile(PASSWORD, rest[1..]);
        if rest' != "" {
          HeadTail(rest');
        }
      }
    }
  }

  lemma AuthorityMatches(s: string)
    ensures var r := Authority(s); r.Some? ==> Matches(s, r.value) && r.value.protocol == None
  {
    hide HostPart, UserPart, TakeWhile, AllIn;
    UserPartMatches(s);
    var user := UserPart(s);
    if user.Some? && HostPart(user.value.2).Some? {
      HostPartMatches(user.value.2);
    } else {
      HostPartMatches(s);
    }
  }

  lemma FirstMatchMatches(url: string)
    ensures FirstMatch(url).Some? ==> Matches(url, FirstMatch(url).value)
  {
    hide Authority, TakeWhile, SEPARATOR, AllIn, UserText, HostText;
    var (letters, rest) := TakeWhile(Letter, url);
    AuthorityMatches(url);
    if SEPARATOR <= rest {
      var authority := rest[|SEPARATOR|..];
      AuthorityMatches(authority);
      assert url == letters + SEPARATOR + authority;
      var r := Authority(authority);
      if r.Some? {
        SameAuthority(r.value, Some(letters));
        var text := UserText(r.value) + HostText(r.value);
        assert authority == text;
        assert letters + SEPARATOR + text == url;
      }
    }
  }

  // --- It comes first, and there is one whenever the pattern matches --------------------------

  lemma TakeWhileAtLeast(k: CharClass, a: string, b: string)
    requires AllIn(k, a)
    ensures var r := TakeWhile(k, a + b); |r.0| >= |a| && r.0[..|a|] == a
    ensures var r := TakeWhile(k, a + b); |r.0| == |a| ==> r == (a, b)
    ensures b != "" && !In(k, b[0]) ==> TakeWhile(k, a + b) == (a, b)
  {
    SpanConcat(k, a, b);
    if b != "" && !In(k, b[0]) {
      SpanIs(k, b, 0);
    }
  }

  lemma HostPartFirst(s: string, g: Groups)
    requires InClasses(g) && s == HostText(g)
    ensures HostPart(s).Some?
    ensures var r := HostPart(s).value;
      |r.host| > |g.host| || (r.host == g.host && Reach(r.port) >= Reach(g.port))
  {
    hide TakeWhile, AllIn;
    var more := PortText(g) + g.path;
    TakeWhileAtLeast(HOST, g.host, more);
    var (host, rest) := TakeWhile(HOST, s);
    if |host| == |g.host| {
      assert host[..|g.host|] == host && rest == more;
      if g.port.Some? {
        assert rest == ":" + (g.port.value + g.path);
        assert rest[1..] == g.port.value + g.path;
        TakeWhileAtLeast(Digit, g.port.value, g.path);
      }
    }
  }

  /** When the user group can match at all, its run and the password's are settled by what follows. */
  lemma UserPartOnly(s: string, g: Groups)
    requires InClasses(g) && g.user.Some? && s == UserText(g) + HostText(g)
    ensures UserPart(s) == Some((g.user.value, g.password, HostText(g)))
  {
    hide TakeWhile, AllIn, HostText;
    var user := g.user.value;
    if g.password.Some? {
      var password := g.password.value;
      var tail := "@" + HostText(g);
      assert s == user + (":" + (password + tail));
      TakeWhileAtLeast(USER, user, ":" + (password + tail));
      assert (":" + (password + tail))[1..] == password + tail;
      TakeWhileAtLeast(PASSWORD, password, tail);
      assert tail[1..] == HostText(g);
    } else {
      var tail := "@" + HostText(g);
      assert s == user + tail;
      TakeWhileAtLeast(USER, user, tail);
      assert tail[1..] == HostText(g);
    }
  }

  lemma AuthorityFirst(s: string, g: Groups)
    requires InClasses(g) && g.protocol == None && s == UserText(g) + HostText(g)
    ensures Authority(s).Some? && NotAfter(Authority(s).value, g)
  {
    hide UserPart, HostPart;
    if g.user.Some? {
      UserPartOnly(s, g);
      HostPartFirst(HostText(g), g);
    } else {
      assert s == HostText(g);
      HostPartFirst(s, g);
      UserPartMatches(s);
      var user := UserPart(s);
      if user.Some? && HostPart(user.value.2).Some? {
        HostPartMatches(user.value.2);
      } else {
        HostPartMatches(s);
      }
    }
  }

  /** FirstMatch finds a match whenever the pattern has one, and none that the matcher would
      try comes before it. */
  lemma FirstMatchIsFirst(url: string, g: Groups)
    requires Matches(url, g)
    ensures FirstMatch(url).Some? && NotAfter(FirstMatch(url).value, g)
  {
    hide Authority, TakeWhile, SEPARATOR, AllIn, UserText, HostText;
    var rest := UserText(g) + HostText(g);
    var bare := g.(protocol := None);
    SameAuthority(g, None);
    if g.protocol.Some? {
      var letters := g.protocol.value;
      assert url == letters + (SEPARATOR + rest);
      SeparatorStarts(rest);
      TakeWhileAtLeast(Letter, letters, SEPARATOR + rest);
      assert (SEPARATOR + rest)[|SEPARATOR|..] == rest;
      AuthorityFirst(rest, bare);
      assert FirstMatch(url) == Some(Authority(rest).value.(protocol := Some(letters)));
      AuthorityMatches(rest);
    } else {
      assert url == rest;
      AuthorityFirst(url, g);
      AuthorityMatches(url);
    }
  }

  lemma SameAuthority(g: Groups, protocol: Option<string>)
    ensures var g' := g.(protocol := protocol); UserText(g) == UserText(g') && HostText(g) == HostText(g')
  {
  }

  lemma SeparatorStarts(rest: string)
    ensures SEPARATOR + rest != "" && !In(Letter, (SEPARATOR + rest)[0]) && SEPARATOR <= SEPARATOR + rest
  {
  }

  // --- Printing and splitting -----------------------------------------------------------------

  /** The components of a URL that its text determines: no `@` in the host, and a path that is
      empty or starts with a slash. */
  predicate Printable(g: Groups) {
    && InClasses(g)
    && '@' !in g.host
    && (g.path != "" ==> g.path[0] == '/')
  }

  lemma HostPartOnly(g: Groups)
    requires Printable(g)
    ensures HostPart(HostText(g)) == Some(g.(protocol := None, user := None, password := None))
  {
    hide TakeWhile, AllIn;
    var more := PortText(g) + g.path;
    if g.port.Some? {
      var digits := g.port.value;
      assert more == ":" + (digits + g.path) && more[1..] == digits + g.path;
      TakeWhileAll(HOST, g.host, more);
      TakeWhileAll(Digit, digits, g.path);
    } else {
      assert more == g.path;
      TakeWhileAll(HOST, g.host, more);
    }
  }

  lemma TakeWhileAll(k: CharClass, a: string, b: string)
    requires AllIn(k, a) && (b != "" ==> !In(k, b[0]))
    ensures TakeWhile(k, a + b) == (a, b)
  {
    SpanConcat(k, a, b);
    SpanIs(k, b, 0);
  }

  lemma HostIsUserRun(g: Groups)
    requires Printable(g)
    ensures AllIn(USER, g.host)
    ensures g.port.Some? ==> AllIn(PASSWORD, g.port.value)
  {
  }

  lemma NoUserPart(g: Groups)
    requires Printable(g)
    ensures UserPart(HostText(g)) == None
  {
    hide TakeWhile, AllIn;
    HostIsUserRun(g);
    var more := PortText(g) + g.path;
    if g.port.Some? {
      var digits := g.port.value;
      assert more == ":" + (digits + g.path) && more[1..] == digits + g.path;
      TakeWhileAll(USER, g.host, more);
      TakeWhileAll(PASSWORD, digits, g.path);
    } else {
      assert more == g.path;
      TakeWhileAll(USER, g.host, more);
    }
  }

  lemma AuthorityOnly(g: Groups)
    requires Printable(g)
    ensures Authority(UserText(g) + HostText(g)) == Some(g.(protocol := None))
  {
    hide UserPart, HostPart, HostText, AllIn;
    HostPartOnly(g);
    if g.user.Some? {
      UserPartOnly(UserText(g) + HostText(g), g);
    } else {
      assert UserText(g) + HostText(g) == HostText(g);
      NoUserPart(g);
    }
  }

  /** Everything of a printed URL between the protocol and the path. */
  function BeforePath(g: Groups): string {
    UserText(g) + (g.host + PortText(g))
  }

  lemma BeforePathEnds(g: Groups)
    requires Printable(g)
    ensures UserText(g) + HostText(g) == BeforePath(g) + g.path
    ensures var s := BeforePath(g); '/' !in s && s != "" && s[|s| - 1] != ':'
  {
    var s := BeforePath(g);
    assert '/' !in g.host && '/' !in PortText(g) && '/' !in UserText(g);
    if g.port.Some? {
      assert s[|s| - 1] == g.port.value[|g.port.value| - 1];
    } else {
      assert s[|s| - 1] == g.host[|g.host| - 1];
    }
  }

  lemma NoProtocol(g: Groups)
    requires Printable(g)
    ensures var (letters, rest) := TakeWhile(Letter, UserText(g) + HostText(g)); !(SEPARATOR <= rest)
  {
    hide UserText, HostText, BeforePath;
    var s := BeforePath(g);
    var text := s + g.path;
    BeforePathEnds(g);
    var (letters, rest) := TakeWhile(Letter, text);
    var n := |letters|;
    assert forall i | 0 <= i < n :: letters[i] == text[i] != '/';
    assert forall i | 0 <= i < |s| :: text[i] == s[i] != '/';
    assert g.path != "" ==> text[|s|] == '/';
    assert |rest| >= 2 ==> rest[0] == text[n] && rest[1] == text[n + 1];
    assert n + 1 == |s| ==> text[n] == s[|s| - 1];
  }

  /** Splitting a printed URL gives back its components. */
  lemma SplitPrinted(g: Groups)
    requires Printable(g)
    ensures FirstMatch(Text(g)) == Some(g)
  {
    hide Authority, AllIn, UserText, HostText, TakeWhile, SEPARATOR;
    var rest := UserText(g) + HostText(g);
    AuthorityOnly(g);
    if g.protocol.Some? {
      var letters := g.protocol.value;
      SeparatorStarts(rest);
      assert Text(g) == letters + (SEPARATOR + rest);
      TakeWhileAtLeast(Letter, letters, SEPARATOR + rest);
      assert (SEPARATOR + rest)[|SEPARATOR|..] == rest;
    } else {
      assert Text(g) == rest;
      NoProtocol(g);
    }
  }

  /** What parseURL makes of a match: protocols are http, which is also the default, and https; a
      port is a number of 16 bits, and 80 or 443 without one; an empty path is a slash. */
  function UrlOf(g: Groups): Result<Url, UrlError> {
    if !(g.protocol in {None, Some("http"), Some("https")}) then Err(UnknownProtocol) else
    if g.port.Some? && ParseUnsigned(g.port.value, 65536).None? then Err(BadPort) else
    var secure := g.protocol == Some("https");
    Ok(Url(if secure then "https" else "http",
           g.host,
           if g.port.Some? then ParseUnsigned(g.port.value, 65536).value else if secure then 443 else 80,
           if g.path == "" then "/" else g.path,
           if g.user.Some? then g.user.value else "",
           if g.password.Some? then g.password.value else ""))
  }

  /** Every URL: one that does not match is refused, and has no host. */
  lemma ParseMatched(url: string)
    ensures FirstMatch(url).None? ==> ParseURL(url) == Err(InvalidUrl) && ExtractHost(url) == ""
    ensures FirstMatch(url).Some? ==> ParseURL(url) == UrlOf(FirstMatch(url).value)
    ensures FirstMatch(url).Some? ==>
      var g := FirstMatch(url).value; ExtractHost(url) == g.host + if g.port.Some? then ":" + g.port.value else ""
  {
    hide FirstMatch, ParseUnsigned;
  }

  /** parseURL and extractHost on a printed URL. */
  lemma ParsePrinted(g: Groups)
    requires Printable(g)
    ensures ExtractHost(Text(g)) == g.host + if g.port.Some? then ":" + g.port.value else ""
    ensures ParseURL(Text(g)) == UrlOf(g)
  {
    hide FirstMatch, Text, InClasses, UrlOf;
    SplitPrinted(g);
    ParseMatched(Text(g));
  }

  /** The classes of the patterns, one by one. */
  lemma PatternClasses(c: char)
    ensures In(USER, c) <==> c != ':' && c != '/' && c != '@'
    ensures In(PASSWORD, c) <==> c != '/' && c != '@'
    ensures In(HOST, c) <==> c != ':' && c != '/'
  {
  }

  /** All the parts at once, and other protocols. */
  lemma UrlExamples()
    ensures ParseURL("https://j:s@h:81/a") == Ok(Url("https", "h", 81, "/a", "j", "s"))
    ensures ParseURL("ftp://h") == Err(UnknownProtocol)
  {
    var g := Groups(Some("https"), Some("j"), Some("s"), "h", Some("81"), "/a");
    var f := Groups(Some("ftp"), None, None, "h", None, "");
    hide FirstMatch, UrlOf, ParseURL;
    ExamplesArePrintable(g, f);
    ParsePrinted(g);
    ParsePrinted(f);
    ExampleUrls(g, f);
  }

  lemma ExamplesArePrintable(g: Groups, f: Groups)
    requires g == Groups(Some("https"), Some("j"), Some("s"), "h", Some("81"), "/a")
    requires f == Groups(Some("ftp"), None, None, "h", None, "")
    ensures Printable(g) && Text(g) == "https://j:s@h:81/a"
    ensures Printable(f) && Text(f) == "ftp://h"
  {
    hide IsGroup;
    assert IsGroup(Letter, "https") && IsGroup(Letter, "ftp") by { ExampleWords(); }
    assert IsGroup(USER, "j") && IsGroup(PASSWORD, "s") && IsGroup(HOST, "h") by { ExampleWords(); }
    assert IsGroup(Digit, "81") by { ExampleWords(); }
    ExampleTexts(g, f);
  }

  lemma ExampleWords()
    ensures IsGroup(Letter, "https") && IsGroup(Letter, "ftp") && IsGroup(Digit, "81")
    ensures IsGroup(USER, "j") && IsGroup(PASSWORD, "s") && IsGroup(HOST, "h")
  {
  }

  lemma ExampleTexts(g: Groups, f: Groups)
    requires g == Groups(Some("https"), Some("j"), Some("s"), "h", Some("81"), "/a")
    requires f == Groups(Some("ftp"), None, None, "h", None, "")
    ensures Text(g) == "https://j:s@h:81/a" && Text(f) == "ftp://h"
  {
    assert HostText(g) == "h" + (":81" + "/a") == "h:81/a";
    assert UserText(g) == "j" + (":" + ("s" + "@")) == "j:s@";
    assert ProtocolText(g) == "https" + "://" == "https://";
    assert HostText(f) == "h" && UserText(f) == "" && ProtocolText(f) == "ftp://";
  }

  lemma ExampleUrls(g: Groups, f: Groups)
    requires g == Groups(Some("https"), Some("j"), Some("s"), "h", Some("81"), "/a")
    requires f == Groups(Some("ftp"), None, None, "h", None, "")
    ensures UrlOf(g) == Ok(Url("https", "h", 81, "/a", "j", "s")) && UrlOf(f) == Err(UnknownProtocol)
  {
    ParsePrint(81, 65536);
    assert Print(81) == "81";
  }
}
