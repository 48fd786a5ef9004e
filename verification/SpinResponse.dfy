/** lib/Spin/Details/Response.cpp, serialize: what a server writes for a response. */
module SpinResponse {
  import opened Bytes
  import opened Decimal
  import opened ParsingHelpers
  import opened HttpDataHandler
  import opened Messages
  import opened DamonRequest

  datatype Response = Response(protocol: string, status: int, reason: string, headers: seq<Header>, body: string)

  /** How `boost::format` prints an int. */
  function PrintInt(n: int): string {
    if n < 0 then "-" + Print(-n) else Print(n)
  }

  function SentResponseHeaders(r: Response): seq<Header> {
    if Has(r.headers, "Content-Length") then r.headers
    else r.headers + [Header("Content-Length", Print(|r.body|))]
  }

  function StatusText(protocol: string, code: string, reason: string, rest: string): string {
    protocol + (" " + (code + (" " + (reason + rest))))
  }

  function Serialized(r: Response): string {
    StatusText(r.protocol, PrintInt(r.status), r.reason, Section(CRLF, SentResponseHeaders(r), 0, r.body))
  }

  method SerializeResponse(response: Response) returns (retval: string)
    ensures retval == Serialized(response)
  {
    hide Print, PrintInt, HeaderLines, FindHeader;
    var headers := response.headers;
    var found := HasHeader(headers, "Content-Length");
    if !found {
      headers := headers + [Header("Content-Length", Print(|response.body|))];
    }
    assert headers == SentResponseHeaders(response);
    var code := PrintInt(response.status);
    var text := response.protocol + " " + code + " " + response.reason + CRLF;
    text := AppendHeaders(text, headers);
    text := text + CRLF;
    retval := text + response.body;
    SerializedText(response.protocol, code, response.reason, headers, response.body);
  }

  lemma SerializedText(protocol: string, code: string, reason: string, headers: seq<Header>, body: string)
    ensures protocol + " " + code + " " + reason + CRLF + HeaderLines(headers) + CRLF + body
         == StatusText(protocol, code, reason, Section(CRLF, headers, 0, body))
  {
    hide HeaderLines;
    var lines := HeaderLines(headers);
    assert headers[0..] == headers;
    assert protocol + " " + code + " " + reason + CRLF + lines + CRLF + body
        == protocol + (" " + (code + (" " + (reason + (CRLF + (lines + (CRLF + body)))))));
  }

  /** What is on the wire, in full. */
  lemma ResponseText(r: Response)
    ensures Serialized(r) == r.protocol + " " + (if r.status < 0 then "-" + Print(-r.status) else Print(r.status)) + " "
                             + r.reason + "\r\n" + HeaderLines(SentResponseHeaders(r)) + "\r\n" + r.body
  {
    hide Print, HeaderLines, SentResponseHeaders;
    SerializedText(r.protocol, PrintInt(r.status), r.reason, SentResponseHeaders(r), r.body);
  }

  /** `sent` is `own`, and a Content-Length behind it when there is none in it. */
  ghost predicate Completes(sent: seq<Header>, own: seq<Header>, body: string) {
    if exists h :: h in own && h.name == "Content-Length" then sent == own
    else sent == own + [Header("Content-Length", Print(|body|))]
  }

  lemma SentHeadersComplete(r: Response)
    ensures Completes(SentResponseHeaders(r), r.headers, r.body)
  {
    hide Print;
    var i := FindHeader(r.headers, "Content-Length");
    if i < |r.headers| {
      assert r.headers[i] in r.headers;
    } else {
      forall h | h in r.headers ensures h.name != "Content-Length" {
        var j :| 0 <= j < |r.headers| && r.headers[j] == h;
      }
    }
  }
}
