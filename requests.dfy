/** Request parsing as handleRequest does it: the request line, the header
    lines up to the first empty one, the header map and Content-Length. */
module Requests {
  import opened Wrappers
  import opened Text

  const Version: string := "HTTP/1.1"

  datatype RequestLine = RequestLine(verb: string, target: string, version: string)

  /** The verdict on the first line read from the connection. */
  datatype LineCheck = BadRequest(message: string) | BadVersion | Accepted(line: RequestLine)

  /** A line that the split-and-count check rejects with 400. */
  predicate Malformed(first: Option<string>) {
    first.None? || first.value == "" || |Split(first.value)| != 3
  }

  /** Steps 1 and 2: no line or an empty one, then a split that does not give
      three tokens, is a bad request; a third token other than HTTP/1.1 is an
      unsupported version. */
  function CheckRequestLine(first: Option<string>): (r: LineCheck)
    ensures r.BadRequest? <==> Malformed(first)
    ensures r.BadVersion? <==> !Malformed(first) && Split(first.value)[2] != Version
    ensures r.BadRequest? ==>
      r.message == if first.None? || first.value == "" then "Invalid request received" else "Malformed request"
    ensures r.Accepted? ==>
      && r.line.version == Version
      && ' ' !in r.line.verb && ' ' !in r.line.target
      && exists n: nat :: first.value == r.line.verb + " " + r.line.target + " " + Version + Spaces(n)
  {
    if first.None? || first.value == "" then BadRequest("Invalid request received")
    else
      var parts := Split(first.value);
      if |parts| != 3 then BadRequest("Malformed request")
      else if parts[2] != Version then BadVersion
      else
        SplitThreeShape(first.value);
        Accepted(RequestLine(parts[0], parts[1], parts[2]))
  }

  /** Any method token and target without spaces, followed by HTTP/1.1 and any
      number of trailing spaces, passes both checks. */
  lemma AcceptsWellFormedLine(verb: string, target: string, n: nat)
    requires ' ' !in verb && ' ' !in target
    ensures CheckRequestLine(Some(verb + " " + target + " " + Version + Spaces(n)))
            == Accepted(RequestLine(verb, target, Version))
  {
    SplitThree(verb, target, Version, n);
  }

  // ------------------------------------------------------------ headers

  /** How many lines the header loop reads: up to the first empty line or
      the end of the stream. */
  function HeaderEnd(rest: seq<string>): (k: nat)
    ensures k <= |rest|
    ensures forall j :: 0 <= j < k ==> rest[j] != ""
    ensures k < |rest| ==> rest[k] == ""
  {
    if rest == [] || rest[0] == "" then 0 else 1 + HeaderEnd(rest[1..])
  }

  /** The loop of step 3: collect lines until an empty line or end of stream. */
  method ReadHeaderLines(rest: seq<string>) returns (headerLines: seq<string>, endOfStream: bool)
    ensures headerLines == rest[..HeaderEnd(rest)]
    ensures endOfStream <==> HeaderEnd(rest) == |rest|
  {
    headerLines := [];
    var i := 0;
    while i < |rest| && rest[i] != ""
      invariant 0 <= i <= |rest| && headerLines == rest[..i]
      invariant forall j :: 0 <= j < i ==> rest[j] != ""
    {
      headerLines := headerLines + [rest[i]];
      i := i + 1;
    }
    endOfStream := i == |rest|;
  }

  /** One header line: split at the first colon when it is past index 0; the
      name trimmed then lower-cased, the value trimmed. */
  function HeaderField(line: string): (r: Option<(string, string)>)
    ensures r.None? <==> ':' !in line || line[0] == ':'
  {
    var k := IndexOf(line, ':');
    if k > 0 then Some((ToLower(Trim(line[..k])), Trim(line[k + 1..]))) else None
  }

  /** A contributing line is cut at its first colon. */
  lemma HeaderFieldSplit(line: string, k: nat)
    requires 0 < k < |line| && line[k] == ':' && ':' !in line[..k]
    ensures HeaderField(line) == Some((ToLower(Trim(line[..k])), Trim(line[k + 1..])))
  {
    assert IndexOf(line, ':') == k;
  }

  type Field = Option<(string, string)>

  /** Every header line, read as a field or as nothing. */
  function Fields(lines: seq<string>): (fs: seq<Field>)
    ensures |fs| == |lines| && forall i :: 0 <= i < |lines| ==> fs[i] == HeaderField(lines[i])
  {
    seq(|lines|, i requires 0 <= i < |lines| => HeaderField(lines[i]))
  }

  /** The field contributes a header with this (lower-cased) name. */
  predicate Names(field: Field, name: string) {
    field.Some? && field.value.0 == name
  }

  /** Fields put into a map in order, a later one replacing an earlier one
      with the same name. */
  function FieldMap(fields: seq<Field>): map<string, string> {
    if fields == [] then map[]
    else
      var earlier := FieldMap(fields[..|fields| - 1]);
      match fields[|fields| - 1]
      case None => earlier
      case Some((name, value)) => earlier[name := value]
  }

  /** The map built by step 4. */
  function HeaderMap(lines: seq<string>): map<string, string> {
    FieldMap(Fields(lines))
  }

  /** The loop of step 4, putting each contributing line into the map. */
  method ParseHeaders(headerLines: seq<string>) returns (headers: map<string, string>)
    ensures headers == HeaderMap(headerLines)
  {
    headers := map[];
    for i := 0 to |headerLines|
      invariant headers == HeaderMap(headerLines[..i])
    {
      HeaderMapStep(headerLines, i);
      var colonPos := IndexOf(headerLines[i], ':');
      if colonPos > 0 {
        var headerName := ToLower(Trim(headerLines[i][..colonPos]));
        var headerValue := Trim(headerLines[i][colonPos + 1..]);
        headers := headers[headerName := headerValue];
      }
    }
    assert headerLines[..|headerLines|] == headerLines;
  }

  /** One more line extends the map by that line's field. */
  lemma HeaderMapStep(lines: seq<string>, i: nat)
    requires i < |lines|
    ensures HeaderMap(lines[..i + 1]) ==
      match HeaderField(lines[i])
      case None => HeaderMap(lines[..i])
      case Some((name, value)) => HeaderMap(lines[..i])[name := value]
  {
    var done := Fields(lines[..i + 1]);
    assert done[..i] == Fields(lines[..i]);
  }

  /** The index of the last field with the name, or -1. */
  function LastNaming(fields: seq<Field>, name: string): (r: int)
    ensures -1 <= r < |fields|
    ensures r == -1 <==> forall i :: 0 <= i < |fields| ==> !Names(fields[i], name)
    ensures r >= 0 ==> Names(fields[r], name) && forall j :: r < j < |fields| ==> !Names(fields[j], name)
  {
    if fields == [] then -1
    else if Names(fields[|fields| - 1], name) then |fields| - 1
    else
      var init := fields[..|fields| - 1];
      assert forall i :: 0 <= i < |init| ==> init[i] == fields[i];
      LastNaming(init, name)
  }

  /** A name is in the map exactly when some field has it, and its value is
      the one from the last such field. */
  lemma {:induction false} FieldMapLastWins(fields: seq<Field>, name: string)
    ensures name in FieldMap(fields) <==> LastNaming(fields, name) >= 0
    ensures name in FieldMap(fields) ==> FieldMap(fields)[name] == fields[LastNaming(fields, name)].value.1
    decreases |fields|
  {
    if fields != [] {
      var init := fields[..|fields| - 1];
      FieldMapLastWins(init, name);
      assert forall i :: 0 <= i < |init| ==> init[i] == fields[i];
    }
  }

  /** The header map has a name exactly when some header line contributes it,
      and holds the value of the last line that does. */
  lemma HeaderMapLastWins(lines: seq<string>, name: string)
    ensures name in HeaderMap(lines) <==> exists i :: 0 <= i < |lines| && Names(HeaderField(lines[i]), name)
    ensures name in HeaderMap(lines) ==>
      var k := LastNaming(Fields(lines), name);
      && 0 <= k < |lines| && Names(HeaderField(lines[k]), name)
      && HeaderMap(lines)[name] == HeaderField(lines[k]).value.1
      && forall j :: k < j < |lines| ==> !Names(HeaderField(lines[j]), name)
  {
    FieldMapLastWins(Fields(lines), name);
  }

  /** Lines that do not contribute leave the map as it was. */
  lemma IgnoredLine(lines: seq<string>, line: string)
    requires ':' !in line || line[0] == ':'
    ensures HeaderMap(lines + [line]) == HeaderMap(lines)
  {
    assert Fields(lines + [line])[..|lines|] == Fields(lines);
  }

  /** Step 7: Integer.parseInt of the content-length header; an absent header
      or one that does not parse leaves the length at 0. */
  function ContentLength(headers: map<string, string>): (n: int)
    ensures Int32Min <= n <= Int32Max
    ensures "content-length" !in headers ==> n == 0
    ensures "content-length" in headers && ParseInt(headers["content-length"]).None? ==> n == 0
    ensures "content-length" in headers && ParseInt(headers["content-length"]).Some? ==>
      n == ParseInt(headers["content-length"]).value
  {
    if "content-length" in headers then
      match ParseInt(headers["content-length"])
      case Some(v) => v
      case None => 0
    else 0
  }

  /** What the server's own framing writes for a length n is read back as n
      by step 7: the header line "Content-Length: " followed by the decimal
      rendering of n yields the map entry "content-length" and the length n. */
  lemma ContentLengthLine(n: int)
    requires Int32Min <= n <= Int32Max
    ensures ContentLength(HeaderMap(["Content-Length: " + ShowInt(n)])) == n
  {
    var digits := ShowInt(n);
    var line := "Content-Length: " + digits;
    LengthField(digits);
    TrimPadded(digits);
    assert Fields([line]) == [Some(("content-length", digits))];
    ParseShowInt(n);
  }

  /** The name part of a Content-Length line as the framing writes it. */
  lemma LengthField(value: string)
    ensures HeaderField("Content-Length: " + value) == Some(("content-length", Trim(" " + value)))
  {
    var line := "Content-Length: " + value;
    assert line[14] == ':' && line[..14] == "Content-Length";
    HeaderFieldSplit(line, 14);
    LengthName();
    assert line[15..] == " " + value;
  }

  lemma LengthName()
    ensures ToLower(Trim("Content-Length")) == "content-length"
  {
    var name := "Content-Length";
    assert TrimLeft(name) == name;
    assert TrimRight(name) == name;
    var lower := ToLower(name);
    assert |lower| == |name|;
    assert lower == "content-length";
  }

  /** A rendered number survives trim() after the space of ": ". */
  lemma TrimPadded(digits: string)
    requires digits != [] && !IsTrimmable(digits[0]) && !IsTrimmable(digits[|digits| - 1])
    ensures Trim(" " + digits) == digits
  {
    assert (" " + digits)[1..] == digits;
    assert TrimLeft(" " + digits) == TrimLeft(digits) == digits;
    assert TrimRight(digits) == digits;
  }
}
