/** Response framing: the two sendResponse overloads and
    sendUnauthorizedResponse. A response is the status line, a list of
    headers, a blank line and the bytes actually transmitted after it. */
module Framing {
  import opened Wrappers
  import opened Text

  const Realm: string := "Basic realm=\"667 Server\""

  datatype Header = Header(name: string, value: string)

  datatype Response = Response(status: int, reason: string, headers: seq<Header>, body: seq<byte>)

  /** The value of the first header with the given name. */
  function HeaderValue(headers: seq<Header>, name: string): (r: Option<string>)
    ensures r.None? <==> forall i :: 0 <= i < |headers| ==> headers[i].name != name
    ensures r.Some? ==> exists i :: 0 <= i < |headers| && headers[i] == Header(name, r.value)
  {
    if headers == [] then None
    else if headers[0].name == name then Some(headers[0].value)
    else
      var r := HeaderValue(headers[1..], name);
      assert forall i :: 1 <= i < |headers| ==> headers[i] == headers[1..][i - 1];
      r
  }

  /** String.getBytes() of the server's own messages, which are all ASCII. */
  function TextBytes(s: string): (r: seq<byte>)
    ensures |r| == |s|
  {
    seq(|s|, i requires 0 <= i < |s| => (s[i] as int) % 0x100)
  }

  /** The full sendResponse: status line, Date, Content-Type, Content-Length,
      blank line, and the body unless the status is 204. */
  function SendResponse(status: int, reason: string, body: seq<byte>, contentType: string,
                        contentLength: int, date: string): (r: Response)
    ensures r.status == status && r.reason == reason
    ensures |r.headers| == 3 && r.headers[0].name == "Date" && r.headers[1].name == "Content-Type"
            && r.headers[2].name == "Content-Length"
    ensures HeaderValue(r.headers, "Date") == Some(date)
    ensures HeaderValue(r.headers, "Content-Type") == Some(contentType)
    ensures HeaderValue(r.headers, "Content-Length") == Some(ShowInt(contentLength))
    ensures HeaderValue(r.headers, "WWW-Authenticate").None?
    ensures r.body == (if status != 204 then body else [])
  {
    var headers := [Header("Date", date), Header("Content-Type", contentType),
                    Header("Content-Length", ShowInt(contentLength))];
    ThreeHeaders(headers, "Date");
    ThreeHeaders(headers, "Content-Type");
    ThreeHeaders(headers, "Content-Length");
    ThreeHeaders(headers, "WWW-Authenticate");
    Response(status, reason, headers, if status != 204 then body else [])
  }

  /** HeaderValue on a head of three headers is the first of them that has
      the name. */
  lemma ThreeHeaders(headers: seq<Header>, name: string)
    requires |headers| == 3
    ensures HeaderValue(headers, name) ==
      if headers[0].name == name then Some(headers[0].value)
      else if headers[1].name == name then Some(headers[1].value)
      else if headers[2].name == name then Some(headers[2].value)
      else None
  {
    assert headers[1..][0] == headers[1];
    assert headers[1..][1..] == [headers[2]];
    assert headers[1..][1..][1..] == [];
  }

  /** The text/plain overload: Content-Length is the message's length. */
  function SendText(status: int, reason: string, message: string, date: string): (r: Response)
    ensures r.status == status && r.reason == reason
    ensures HeaderValue(r.headers, "Content-Type") == Some("text/plain")
    ensures HeaderValue(r.headers, "Content-Length") == Some(ShowInt(|message|))
    ensures status != 204 ==> r.body == TextBytes(message) && Consistent(r)
    ensures status == 204 ==> r.body == []
  {
    SendResponse(status, reason, TextBytes(message), "text/plain", |message|, date)
  }

  /** The 401 framing: no Content-Type, a Basic challenge, length 0, no body. */
  function SendUnauthorized(date: string): (r: Response)
    ensures r.status == 401 && r.body == [] && Consistent(r)
    ensures HeaderValue(r.headers, "Content-Type").None?
    ensures HeaderValue(r.headers, "WWW-Authenticate") == Some(Realm)
    ensures HeaderValue(r.headers, "Date") == Some(date)
  {
    var headers := [Header("Date", date), Header("WWW-Authenticate", Realm), Header("Content-Length", "0")];
    assert ShowInt(0) == "0";
    ThreeHeaders(headers, "Content-Length");
    ThreeHeaders(headers, "Content-Type");
    ThreeHeaders(headers, "WWW-Authenticate");
    ThreeHeaders(headers, "Date");
    Response(401, "Unauthorized", headers, [])
  }

  /** Content-Length announces exactly the number of bytes transmitted. */
  predicate Consistent(r: Response) {
    HeaderValue(r.headers, "Content-Length") == Some(ShowInt(|r.body|))
  }

  function StatusLine(r: Response): string {
    "HTTP/1.1 " + ShowInt(r.status) + " " + r.reason
  }

  /** The printed head, one entry per println: the status line, one
      "Name: value" line per header, and the blank line. */
  function HeadLines(r: Response): (lines: seq<string>)
    ensures |lines| == |r.headers| + 2
    ensures lines[0] == StatusLine(r) && lines[|lines| - 1] == ""
    ensures forall i :: 0 <= i < |r.headers| ==>
      lines[i + 1] == r.headers[i].name + ": " + r.headers[i].value
  {
    [StatusLine(r)] + seq(|r.headers|, i requires 0 <= i < |r.headers| =>
                            r.headers[i].name + ": " + r.headers[i].value) + [""]
  }

  /** The printed head of a response with three headers. */
  lemma ThreeHeaderLines(r: Response)
    requires |r.headers| == 3
    ensures HeadLines(r) ==
      [StatusLine(r),
       r.headers[0].name + ": " + r.headers[0].value,
       r.headers[1].name + ": " + r.headers[1].value,
       r.headers[2].name + ": " + r.headers[2].value,
       ""]
  {
    var lines := HeadLines(r);
    assert |lines| == 5;
  }

  /** What the full sendResponse prints before the body: the status line,
      Date, Content-Type, Content-Length as a decimal number, a blank line. */
  lemma PrintedHead(status: int, reason: string, body: seq<byte>, contentType: string,
                    contentLength: int, date: string)
    ensures HeadLines(SendResponse(status, reason, body, contentType, contentLength, date)) ==
      ["HTTP/1.1 " + ShowInt(status) + " " + reason,
       "Date: " + date,
       "Content-Type: " + contentType,
       "Content-Length: " + ShowInt(contentLength),
       ""]
  {
    var r := SendResponse(status, reason, body, contentType, contentLength, date);
    assert r.headers == [Header("Date", date), Header("Content-Type", contentType),
                         Header("Content-Length", ShowInt(contentLength))];
    ThreeHeaderLines(r);
    assert "Date" + ": " == "Date: ";
    assert "Content-Type" + ": " == "Content-Type: ";
    assert "Content-Length" + ": " == "Content-Length: ";
  }

  /** What sendUnauthorizedResponse prints: the 401 status line, Date, the
      Basic challenge, a zero Content-Length and a blank line. */
  lemma PrintedUnauthorizedHead(date: string)
    ensures HeadLines(SendUnauthorized(date)) ==
      ["HTTP/1.1 401 Unauthorized",
       "Date: " + date,
       "WWW-Authenticate: " + Realm,
       "Content-Length: 0",
       ""]
  {
    var r := SendUnauthorized(date);
    UnauthorizedParts(date);
    UnauthorizedStatusLine(r);
    ThreeHeaderLines(r);
    HeaderLineLiterals();
  }

  lemma UnauthorizedParts(date: string)
    ensures var r := SendUnauthorized(date);
      && r.status == 401 && r.reason == "Unauthorized"
      && r.headers == [Header("Date", date), Header("WWW-Authenticate", Realm), Header("Content-Length", "0")]
  {
  }

  lemma HeaderLineLiterals()
    ensures "Date" + ": " == "Date: "
    ensures "WWW-Authenticate" + ": " == "WWW-Authenticate: "
    ensures "Content-Length" + ": " + "0" == "Content-Length: 0"
  {
  }

  lemma UnauthorizedStatusLine(r: Response)
    requires r.status == 401 && r.reason == "Unauthorized"
    ensures StatusLine(r) == "HTTP/1.1 401 Unauthorized"
  {
    assert ShowNat(4) == "4";
    assert ShowNat(40) == "40";
    assert ShowNat(401) == "401";
  }
}
