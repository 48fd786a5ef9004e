/** lib/Damon/Request.cpp, serialize: what a client writes for a request. */
module DamonRequest {
  import opened Bytes
  import opened Decimal
  import opened ParsingHelpers
  import opened HttpDataHandler
  import opened Messages
  import opened Chunking
  import opened ParseUrl
  import Base64

  datatype AuthorizationMethod = NoAuthorization | Basic

  datatype ClientRequest = ClientRequest(
    url: string, method_: Option<Method>, authorization: AuthorizationMethod, headers: seq<Header>, body: string)

  datatype SendError = BadUrl(error: UrlError) | UnknownClientMethod

  /** The word for a method; there is none for a value outside of the enumeration. */
  function MethodWord(m: Option<Method>): Option<string> {
    match m
    case Some(Options) => Some("OPTIONS")
    case Some(Get) => Some("GET")
    case Some(Head) => Some("HEAD")
    case Some(Post) => Some("POST")
    case Some(Put) => Some("PUT")
    case Some(Delete) => Some("DELETE")
    case Some(Trace) => Some("TRACE")
    case Some(Connect) => Some("CONNECT")
    case None => None
  }

  function Has(headers: seq<Header>, name: string): bool {
    FindHeader(headers, name) < |headers|
  }

  function BasicAuthorization(user: string, password: string): Header {
    Header("Authorization", "Basic " + Base64.Encode(user + ":" + password))
  }

  /** The headers that are sent: Host and Content-Length are added when absent, Authorization
      when basic authorization was asked for and the URL has a user. */
  function SentHeaders(r: ClientRequest, u: Url): seq<Header> {
    var h1 := if Has(r.headers, "Host") then r.headers else r.headers + [Header("Host", ExtractHost(r.url))];
    var h2 := if Has(h1, "Content-Length") then h1 else h1 + [Header("Content-Length", Print(|r.body|))];
    if r.authorization == Basic && u.user != "" then h2 + [BasicAuthorization(u.user, u.password)] else h2
  }

  /** The message a request is on the wire. */
  function ToMessage(r: ClientRequest): Result<Message, SendError> {
    match ParseURL(r.url)
    case Err(e) => Err(BadUrl(e))
    case Ok(u) =>
      match MethodWord(r.method_)
      case None => Err(UnknownClientMethod)
      case Some(word) => Ok(Message(word, u.resource, "HTTP/1.1", SentHeaders(r, u), r.body))
  }

  lemma {:induction false} HeaderLinesConcat(hs: seq<Header>, hs': seq<Header>)
    ensures HeaderLines(hs + hs') == HeaderLines(hs) + HeaderLines(hs')
  {
    if hs == [] {
      assert hs + hs' == hs';
    } else {
      assert (hs + hs')[0] == hs[0] && (hs + hs')[1..] == hs[1..] + hs';
      HeaderLinesConcat(hs[1..], hs');
    }
  }

  /** The `for_each` with AppendHeader. */
  method AppendHeaders(prefix: string, headers: seq<Header>) returns (text: string)
    ensures text == prefix + HeaderLines(headers)
  {
    hide HeaderText;
    text := prefix;
    var i := 0;
    while i < |headers|
      invariant i <= |headers|
      invariant text == prefix + HeaderLines(headers[..i])
    {
      var one := [headers[i]];
      assert headers[..i + 1] == headers[..i] + one;
      HeaderLinesConcat(headers[..i], one);
      assert HeaderLines(one) == HeaderText(headers[i]) + CRLF + "" by { assert one[1..] == []; }
      text := text + (HeaderText(headers[i]) + CRLF);
      i := i + 1;
    }
    assert headers[..i] == headers;
  }

  method HasHeader(headers: seq<Header>, name: string) returns (found: bool)
    ensures found == Has(headers, name)
  {
    var i := 0;
    while i < |headers| && headers[i].name != name
      invariant i <= |headers|
      invariant forall j | 0 <= j < i :: headers[j].name != name
    {
      i := i + 1;
    }
    found := i < |headers|;
  }

  /** The text of the message, appended piece by piece. */
  method SerializeRequest(request: ClientRequest) returns (r: Result<string, SendError>)
    ensures r == (match ToMessage(request) case Ok(m) => Ok(Stream([m])) case Err(e) => Err(e))
  {
    hide ParseURL, ExtractHost, Print, BasicAuthorization, HeaderLines, FindHeader;
    var parsed := ParseURL(request.url);
    if parsed.Err? {
      return Err(BadUrl(parsed.error));
    }
    var u := parsed.value;
    var word := MethodWord(request.method_);
    if word.None? {
      return Err(UnknownClientMethod);
    }
    var retval := word.value + " ";
    retval := retval + u.resource;
    retval := retval + " HTTP/1.1\r\n";
    assert retval == word.value + " " + u.resource + " " + "HTTP/1.1" + "\r\n" by {
      assert " HTTP/1.1\r\n" == " " + "HTTP/1.1" + "\r\n";
    }
    var headers := request.headers;
    var found := HasHeader(headers, "Host");
    if !found {
      headers := headers + [Header("Host", ExtractHost(request.url))];
    }
    found := HasHeader(headers, "Content-Length");
    if !found {
      headers := headers + [Header("Content-Length", Print(|request.body|))];
    }
    if request.authorization == Basic && u.user != "" {
      headers := headers + [BasicAuthorization(u.user, u.password)];
    }
    retval := AppendHeaders(retval, headers);
    retval := retval + CRLF;
    retval := retval + request.body;
    ghost var m := Message(word.value, u.resource, "HTTP/1.1", headers, request.body);
    assert ToMessage(request) == Ok(m);
    OneMessage(m);
    r := Ok(retval);
  }

  lemma OneMessage(m: Message)
    ensures Stream([m])
         == m.method_ + " " + m.url + " " + m.protocol + "\r\n" + HeaderLines(m.headers) + "\r\n" + m.body
  {
    hide HeaderLines;
    assert [m][1..] == [] && Stream([]) == "";
    assert m.headers[0..] == m.headers && m.body + "" == m.body;
    var lines := HeaderLines(m.headers);
    assert Stream([m]) == m.method_ + (" " + (m.url + (" " + (m.protocol + (CRLF + (lines + (CRLF + m.body)))))));
  }

  // --- What is sent is received -----------------------------------------------------------------

  /** What a client has to respect: the URL is one, its resource has no white space, the headers
      are header lines, and a Content-Length that is given is the right one. */
  predicate Sendable(r: ClientRequest) {
    && ToMessage(r).Ok?
    && AllIn(Word, ParseURL(r.url).value.resource)
    && WellFormedHeaders(r.headers)
    && (!Has(r.headers, "Host") ==> Trimmed(ExtractHost(r.url)) && FoldedOnly(ExtractHost(r.url)))
    && (Has(r.headers, "Content-Length") ==> BodyFits(r.headers, r.body))
    && |r.body| < SIZE_LIMIT
  }

  lemma PrintIsValue(n: nat)
    ensures Trimmed(Print(n)) && FoldedOnly(Print(n)) && Print(n) != ""
  {
    var s := Print(n);
    assert forall i | 0 <= i < |s| :: IsDigit(s[i]) && !IsWS(s[i]);
  }

  lemma {:induction false} EncodeBitsChars(s: string)
    ensures forall i | 0 <= i < |Base64.EncodeBits(s)| :: !IsWS(Base64.EncodeBits(s)[i])
  {
    hide Base64.Byte, Base64.EncodeGroup;
    if |s| >= 3 {
      GroupChars(Base64.Byte(s[0]), Base64.Byte(s[1]), Base64.Byte(s[2]));
      EncodeBitsChars(s[3..]);
    } else if |s| > 0 {
      GroupChars(Base64.Byte(s[0]), if |s| == 2 then Base64.Byte(s[1]) else 0, 0);
    }
  }

  lemma GroupChars(a: nat, b: nat, c: nat)
    requires a < 256 && b < 256 && c < 256
    ensures var g := Base64.EncodeGroup(a, b, c); forall i | 0 <= i < 4 :: !IsWS(g[i])
  {
  }

  lemma AuthorizationIsHeader(user: string, password: string)
    ensures WellFormedHeader(BasicAuthorization(user, password))
  {
    hide Base64.Encode, Base64.EncodeBits;
    var text := user + ":" + password;
    var code := Base64.Encode(text);
    EncodeBitsChars(text);
    EncodePadding(text);
    Base64.EncodeLength(text);
    assert |code| > 0;
    SchemeAndCode("Basic ", code);
  }

  lemma SchemeAndCode(scheme: string, code: string)
    requires scheme != "" && code != "" && !IsWS(scheme[0])
    requires forall i | 0 <= i < |scheme| :: !IsNewLine(scheme[i])
    requires forall i | 0 <= i < |code| :: !IsWS(code[i])
    ensures Trimmed(scheme + code) && FoldedOnly(scheme + code)
  {
    var value := scheme + code;
    assert value[|value| - 1] == code[|code| - 1];
    assert forall i | |scheme| <= i < |value| :: value[i] == code[i - |scheme|];
  }

  lemma EncodePadding(s: string)
    requires forall i | 0 <= i < |Base64.EncodeBits(s)| :: !IsWS(Base64.EncodeBits(s)[i])
    ensures forall i | 0 <= i < |Base64.Encode(s)| :: !IsWS(Base64.Encode(s)[i])
  {
    hide Base64.EncodeBits;
  }

  lemma FindHeaderAppend(hs: seq<Header>, h: Header, name: string)
    ensures FindHeader(hs + [h], name)
         == if Has(hs, name) then FindHeader(hs, name) else if h.name == name then |hs| else |hs| + 1
  {
    var i := FindHeader(hs, name);
    var j := FindHeader(hs + [h], name);
    assert forall k | 0 <= k < |hs| :: (hs + [h])[k] == hs[k];
    assert (hs + [h])[|hs|] == h;
  }

  lemma AppendWellFormed(hs: seq<Header>, h: Header)
    requires WellFormedHeaders(hs) && WellFormedHeader(h)
    ensures WellFormedHeaders(hs + [h])
  {
    hide WellFormedHeader;
  }

  lemma BodyFitsAppend(hs: seq<Header>, h: Header, body: string)
    requires Has(hs, "Content-Length") && BodyFits(hs, body)
    ensures Has(hs + [h], "Content-Length") && BodyFits(hs + [h], body)
  {
    hide FindHeader;
    FindHeaderAppend(hs, h, "Content-Length");
  }

  lemma NameIsTrimmed()
    ensures Trimmed("Content-Length")
  {
  }

  lemma NumberIsHeader(n: nat)
    ensures WellFormedHeader(Header("Content-Length", Print(n)))
  {
    hide Print, Trimmed, FoldedOnly;
    PrintIsValue(n);
    NameIsTrimmed();
  }

  lemma LengthHeader(hs: seq<Header>, body: string)
    requires !Has(hs, "Content-Length") && |body| < SIZE_LIMIT
    ensures var h := Header("Content-Length", Print(|body|));
      WellFormedHeader(h) && Has(hs + [h], "Content-Length") && BodyFits(hs + [h], body)
  {
    hide WellFormedHeader, Print, FindHeader, ParseUnsigned, SIZE_LIMIT, BodyFits;
    NumberIsHeader(|body|);
    LengthFits(hs, body, Print(|body|)) by { ParsePrint(|body|, SIZE_LIMIT); }
  }

  lemma LengthFits(hs: seq<Header>, body: string, length: string)
    requires !Has(hs, "Content-Length") && ParseUnsigned(length, SIZE_LIMIT) == Some(|body|)
    ensures var h := Header("Content-Length", length); Has(hs + [h], "Content-Length") && BodyFits(hs + [h], body)
  {
    hide FindHeader, ParseUnsigned, SIZE_LIMIT;
    FindHeaderAppend(hs, Header("Content-Length", length), "Content-Length");
  }

  lemma SentHeadersAreWellFormed(r: ClientRequest)
    requires Sendable(r)
    ensures var hs := SentHeaders(r, ParseURL(r.url).value);
      hs != [] && WellFormedHeaders(hs) && BodyFits(hs, r.body)
  {
    hide ParseURL, ExtractHost, BasicAuthorization, Print, WellFormedHeaders, BodyFits, FindHeader;
    var u := ParseURL(r.url).value;
    var host := Header("Host", ExtractHost(r.url));
    var h1 := if Has(r.headers, "Host") then r.headers else r.headers + [host];
    if !Has(r.headers, "Host") {
      AppendWellFormed(r.headers, host);
      FindHeaderAppend(r.headers, host, "Content-Length");
      if Has(r.headers, "Content-Length") {
        BodyFitsAppend(r.headers, host, r.body);
      }
    }
    var length := Header("Content-Length", Print(|r.body|));
    var h2 := if Has(h1, "Content-Length") then h1 else h1 + [length];
    if !Has(h1, "Content-Length") {
      LengthHeader(h1, r.body);
      AppendWellFormed(h1, length);
    }
    if r.authorization == Basic && u.user != "" {
      AuthorizationIsHeader(u.user, u.password);
      AppendWellFormed(h2, BasicAuthorization(u.user, u.password));
      BodyFitsAppend(h2, BasicAuthorization(u.user, u.password), r.body);
    }
  }

  /** Every request a client may send is a message that says where it ends. */
  lemma SendableIsFramed(r: ClientRequest)
    requires Sendable(r)
    ensures Framed(ToMessage(r).value)
  {
    hide BodyFits, WellFormedHeaders, SentHeaders, ParseURL, ExtractHost, KnownMethod;
    SentHeadersAreWellFormed(r);
    ResourceIsNotEmpty(r.url);
    WordIsKnown(r.method_);
  }

  lemma WordIsKnown(m: Option<Method>)
    ensures MethodWord(m).Some? ==> KnownMethod(MethodWord(m).value)
  {
  }

  lemma ResourceIsNotEmpty(url: string)
    ensures ParseURL(url).Ok? ==> ParseURL(url).value.resource != ""
  {
    hide FirstMatch, ParseUnsigned;
  }

  // --- What is sent ------------------------------------------------------------------------------

  ghost predicate Names(headers: seq<Header>, name: string) {
    exists h :: h in headers && h.name == name
  }

  lemma HasNames(headers: seq<Header>, name: string)
    ensures Has(headers, name) <==> Names(headers, name)
  {
    var i := FindHeader(headers, name);
    if i < |headers| {
      assert headers[i] in headers;
    } else {
      forall h | h in headers ensures h.name != name {
        var j :| 0 <= j < |headers| && headers[j] == h;
      }
    }
  }

  /** `sent` is `own`, with the headers behind it that are missing, and an Authorization when one is
      asked for. */
  ghost predicate Extends(sent: seq<Header>, own: seq<Header>, host: string, size: nat, authorization: seq<Header>) {
    sent == own
          + (if Names(own, "Host") then [] else [Header("Host", host)])
          + (if Names(own, "Content-Length") then [] else [Header("Content-Length", Print(size))])
          + authorization
  }

  /** A basic authorization that can be decoded. */
  predicate Authorizes(header: Header, user: string, password: string) {
    && header.name == "Authorization"
    && "Basic " <= header.value
    && Base64.Decode(header.value[6..]) == user + ":" + password
  }

  lemma BasicAuthorizes(user: string, password: string)
    requires Base64.IsByteString(user + ":" + password)
    ensures Authorizes(BasicAuthorization(user, password), user, password)
  {
    hide Base64.Encode, Base64.Decode;
    var text := user + ":" + password;
    Base64.DecodeEncode(text);
    var value := "Basic " + Base64.Encode(text);
    assert value[..6] == "Basic " && value[6..] == Base64.Encode(text);
  }

  /** What `m` is of a request for the URL of these parts: the method's word is the one the server
      knows it by, the resource is the path, the client's headers come first, Host is the host with an
      explicit port, and user and password are authorized when that was asked for. */
  ghost predicate Asks(m: Message, r: ClientRequest, g: Groups, authorization: seq<Header>) {
    && m.method_ in SUPPORTED_METHODS && r.method_ == Some(SUPPORTED_METHODS[m.method_])
    && m.url == (if g.path == "" then "/" else g.path)
    && m.protocol == "HTTP/1.1" && m.body == r.body
    && Extends(m.headers, r.headers, g.host + if g.port.Some? then ":" + g.port.value else "", |r.body|, authorization)
    && if r.authorization == Basic && g.user.Some?
       then |authorization| == 1
            && Authorizes(authorization[0], g.user.value, if g.password.Some? then g.password.value else "")
       else authorization == []
  }

  predicate ByteUser(g: Groups) {
    g.user.Some? ==> Base64.IsByteString(g.user.value + ":" + if g.password.Some? then g.password.value else "")
  }

  /** The request for a printed URL. */
  lemma SentRequest(r: ClientRequest, g: Groups) returns (m: Message, authorization: seq<Header>)
    requires Printable(g) && r.url == Text(g) && UrlOf(g).Ok? && r.method_.Some? && ByteUser(g)
    ensures ToMessage(r) == Ok(m) && Asks(m, r, g, authorization)
  {
    hide ParseURL, ExtractHost, BasicAuthorization, Print, Text, InClasses, ParseUnsigned, SentHeaders, Extends;
    hide SUPPORTED_METHODS, MethodWord, Authorizes;
    ParsePrinted(g);
    WordIsMethod(r.method_);
    var u := ParseURL(r.url).value;
    m := ToMessage(r).value;
    authorization := if r.authorization == Basic && u.user != "" then [BasicAuthorization(u.user, u.password)] else [];
    UserIsNotEmpty(g);
    if g.user.Some? {
      BasicAuthorizes(u.user, u.password);
    }
    HeadersExtend(r, u, authorization);
  }

  lemma WordIsMethod(m: Option<Method>)
    requires m.Some?
    ensures MethodWord(m).Some? && MethodWord(m).value in SUPPORTED_METHODS
    ensures SUPPORTED_METHODS[MethodWord(m).value] == m.value
  {
  }

  lemma UserIsNotEmpty(g: Groups)
    requires Printable(g)
    ensures g.user.Some? ==> g.user.value != ""
  {
  }

  lemma HeadersExtend(r: ClientRequest, u: Url, authorization: seq<Header>)
    requires authorization
          == if r.authorization == Basic && u.user != "" then [BasicAuthorization(u.user, u.password)] else []
    ensures Extends(SentHeaders(r, u), r.headers, ExtractHost(r.url), |r.body|, authorization)
  {
    hide ExtractHost, BasicAuthorization, Print, FindHeader;
    HasNames(r.headers, "Host");
    HasNames(r.headers, "Content-Length");
    var host := Header("Host", ExtractHost(r.url));
    if !Has(r.headers, "Host") {
      FindHeaderAppend(r.headers, host, "Content-Length");
    }
  }

  /** What cannot be sent: the URL is looked at before the method. */
  lemma NotSent(r: ClientRequest)
    ensures ToMessage(r).Ok? <==> ParseURL(r.url).Ok? && r.method_.Some?
    ensures ToMessage(r).Err? ==>
      ToMessage(r).error == if ParseURL(r.url).Err? then BadUrl(ParseURL(r.url).error) else UnknownClientMethod
  {
    hide ParseURL, SentHeaders;
  }
}
