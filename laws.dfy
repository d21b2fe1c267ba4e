/** What handleRequest promises, proved about the decision function:
    which branch gives which status, the order of the gates, the per-method
    contracts, the PUT/GET and DELETE/GET round trips and the framing
    invariant. */
module ServerLaws {
  import opened Wrappers
  import opened Text
  import opened Config
  import opened Framing
  import opened Requests
  import opened Auth
  import opened WebServer

  predicate StatusIs(h: Handled, code: int) {
    h.reply.Some? && h.reply.value.status == code
  }

  predicate Supported(verb: string) {
    verb == "GET" || verb == "HEAD" || verb == "PUT" || verb == "DELETE"
  }

  /** The gate lets the request through to the switch. */
  predicate Passes(d: AuthDecision) {
    d == NoAuthRequired || d == Authorized
  }

  /** The header map of a request whose first line is present. */
  function HeadersOf(lines: seq<string>): map<string, string>
    requires lines != []
  {
    HeaderMap(HeaderLines(lines))
  }

  /** The request line was accepted and the gate let the request through. */
  predicate Admitted(lines: seq<string>, password: Option<seq<string>>, decode: string -> Option<string>) {
    && CheckRequestLine(FirstLine(lines)).Accepted?
    && Passes(Authenticate(HeadersOf(lines), password, decode))
  }

  /** An admitted request is decided by the switch alone. */
  lemma AdmittedDispatches(lines: seq<string>, body: seq<CharUnit>, fs: FileSystem, password: Option<seq<string>>,
                           registry: map<string, string>, date: string,
                           resolve: string -> Path, decode: string -> Option<string>)
    requires Admitted(lines, password, decode)
    ensures var line := CheckRequestLine(FirstLine(lines)).line;
      Decide(lines, body, fs, password, registry, date, resolve, decode)
      == Dispatch(line.verb, resolve(line.target), ContentLength(HeadersOf(lines)), BodyInput(lines, body),
                  fs, registry, date)
  {
  }

  /** The switch answers only with 200, 201, 204, 404, 405 or 500. */
  lemma DispatchStatuses(verb: string, path: Path, contentLength: int, input: seq<CharUnit>, fs: FileSystem,
                         registry: map<string, string>, date: string)
    ensures var h := Dispatch(verb, path, contentLength, input, fs, registry, date);
      h.reply.Some? ==> h.reply.value.status in {200, 201, 204, 404, 405, 500}
    ensures StatusIs(Dispatch(verb, path, contentLength, input, fs, registry, date), 405) <==> !Supported(verb)
  {
  }

  // -------------------------------------------------- request-line gates

  /** 400 exactly when there is no first line, it is empty, or it does not
      split into three tokens; the answer then depends on nothing else. */
  lemma BadRequestGate(lines: seq<string>, body: seq<CharUnit>, fs: FileSystem, password: Option<seq<string>>,
                       registry: map<string, string>, date: string,
                       resolve: string -> Path, decode: string -> Option<string>)
    ensures var h := Decide(lines, body, fs, password, registry, date, resolve, decode);
      StatusIs(h, 400) <==> Malformed(FirstLine(lines))
    ensures Malformed(FirstLine(lines)) ==>
      Decide(lines, body, fs, password, registry, date, resolve, decode)
      == Handled(Some(SendText(400, "Bad Request", CheckRequestLine(FirstLine(lines)).message, date)), fs.files)
  {
    AnswerStatuses(lines, body, fs, password, registry, date, resolve, decode);
  }

  /** 505 exactly when the line has three tokens and the third is not
      HTTP/1.1; decided before any header line is looked at. */
  lemma VersionGate(lines: seq<string>, body: seq<CharUnit>, fs: FileSystem, password: Option<seq<string>>,
                    registry: map<string, string>, date: string,
                    resolve: string -> Path, decode: string -> Option<string>)
    ensures var h := Decide(lines, body, fs, password, registry, date, resolve, decode);
      StatusIs(h, 505) <==> !Malformed(FirstLine(lines)) && Split(lines[0])[2] != Version
    ensures !Malformed(FirstLine(lines)) && Split(lines[0])[2] != Version ==>
      Decide(lines, body, fs, password, registry, date, resolve, decode)
      == Handled(Some(SendText(505, "HTTP Version Not Supported", "Only HTTP/1.1 is supported", date)), fs.files)
  {
    AnswerStatuses(lines, body, fs, password, registry, date, resolve, decode);
  }

  /** Which stage can produce which status. */
  lemma AnswerStatuses(lines: seq<string>, body: seq<CharUnit>, fs: FileSystem, password: Option<seq<string>>,
                       registry: map<string, string>, date: string,
                       resolve: string -> Path, decode: string -> Option<string>)
    ensures var h := Decide(lines, body, fs, password, registry, date, resolve, decode);
      && (StatusIs(h, 400) <==> CheckRequestLine(FirstLine(lines)).BadRequest?)
      && (StatusIs(h, 505) <==> CheckRequestLine(FirstLine(lines)).BadVersion?)
      && (CheckRequestLine(FirstLine(lines)).Accepted? ==>
            var d := Authenticate(HeadersOf(lines), password, decode);
            && (StatusIs(h, 401) <==> d == MissingCredentials)
            && (StatusIs(h, 403) <==> d == InvalidCredentials)
            && (d == DecodeFailure ==> h.reply.None?))
  {
    var check := CheckRequestLine(FirstLine(lines));
    if check.Accepted? {
      var line := check.line;
      assert Decide(lines, body, fs, password, registry, date, resolve, decode)
          == Admit(line, lines, body, fs, password, registry, date, resolve, decode);
      AdmitStatuses(line, lines, body, fs, password, registry, date, resolve, decode);
    }
  }

  /** The gate's answers once the request line is accepted. */
  lemma AdmitStatuses(line: RequestLine, lines: seq<string>, body: seq<CharUnit>, fs: FileSystem,
                      password: Option<seq<string>>, registry: map<string, string>, date: string,
                      resolve: string -> Path, decode: string -> Option<string>)
    requires lines != []
    ensures var h := Admit(line, lines, body, fs, password, registry, date, resolve, decode);
      var d := Authenticate(HeadersOf(lines), password, decode);
      && !StatusIs(h, 400) && !StatusIs(h, 505)
      && (StatusIs(h, 401) <==> d == MissingCredentials)
      && (StatusIs(h, 403) <==> d == InvalidCredentials)
      && (d == DecodeFailure ==> h.reply.None?)
  {
    var d := Authenticate(HeadersOf(lines), password, decode);
    if Passes(d) {
      DispatchStatuses(line.verb, resolve(line.target), ContentLength(HeadersOf(lines)),
                       BodyInput(lines, body), fs, registry, date);
    }
  }

  // ------------------------------------------------------------ the gate

  /** With a .password file and no Authorization header the answer is the
      401 challenge, whatever the method: the gate runs before the switch. */
  lemma MissingCredentialsChallenge(lines: seq<string>, body: seq<CharUnit>, fs: FileSystem, password: Option<seq<string>>,
                                    registry: map<string, string>, date: string,
                                    resolve: string -> Path, decode: string -> Option<string>)
    requires CheckRequestLine(FirstLine(lines)).Accepted?
    requires password.Some? && "authorization" !in HeadersOf(lines)
    ensures var h := Decide(lines, body, fs, password, registry, date, resolve, decode);
      && h == Handled(Some(SendUnauthorized(date)), fs.files)
      && HeaderValue(h.reply.value.headers, "WWW-Authenticate") == Some(Realm)
      && h.reply.value.body == []
  {
  }

  /** With a .password file, a present header whose check fails gets 403,
      again for every method, supported or not. */
  lemma InvalidCredentialsForbidden(lines: seq<string>, body: seq<CharUnit>, fs: FileSystem, password: Option<seq<string>>,
                                    registry: map<string, string>, date: string,
                                    resolve: string -> Path, decode: string -> Option<string>)
    requires CheckRequestLine(FirstLine(lines)).Accepted?
    requires password.Some? && "authorization" in HeadersOf(lines)
    requires Verdict(HeadersOf(lines)["authorization"], decode, password.value) == Some(false)
    ensures Decide(lines, body, fs, password, registry, date, resolve, decode)
            == Handled(Some(SendText(403, "Forbidden", "Invalid credentials", date)), fs.files)
  {
  }

  /** 405 exactly for an admitted request whose method token is none of
      the four: a gated directory answers 401 or 403 first. */
  lemma UnsupportedMethodGate(lines: seq<string>, body: seq<CharUnit>, fs: FileSystem, password: Option<seq<string>>,
                              registry: map<string, string>, date: string,
                              resolve: string -> Path, decode: string -> Option<string>)
    ensures var h := Decide(lines, body, fs, password, registry, date, resolve, decode);
      StatusIs(h, 405) <==> Admitted(lines, password, decode) && !Supported(CheckRequestLine(FirstLine(lines)).line.verb)
  {
    var check := CheckRequestLine(FirstLine(lines));
    if check.Accepted? && Passes(Authenticate(HeadersOf(lines), password, decode)) {
      DispatchStatuses(check.line.verb, resolve(check.line.target), ContentLength(HeadersOf(lines)),
                       BodyInput(lines, body), fs, registry, date);
    }
  }

  /** Without a .password file the Authorization header is never examined:
      the decoder does not matter and neither 401 nor 403 can occur. */
  lemma NoPasswordFileNoAuth(lines: seq<string>, body: seq<CharUnit>, fs: FileSystem,
                             registry: map<string, string>, date: string,
                             resolve: string -> Path, decode: string -> Option<string>, decode': string -> Option<string>)
    ensures Decide(lines, body, fs, None, registry, date, resolve, decode)
            == Decide(lines, body, fs, None, registry, date, resolve, decode')
    ensures var h := Decide(lines, body, fs, None, registry, date, resolve, decode);
      !StatusIs(h, 401) && !StatusIs(h, 403)
  {
    AnswerStatuses(lines, body, fs, None, registry, date, resolve, decode);
  }

  /** No response at all happens only when Base64 decoding throws or a GET
      of an existing file cannot be read. */
  lemma SilentOnlyOnThrow(lines: seq<string>, body: seq<CharUnit>, fs: FileSystem, password: Option<seq<string>>,
                          registry: map<string, string>, date: string,
                          resolve: string -> Path, decode: string -> Option<string>)
    ensures Decide(lines, body, fs, password, registry, date, resolve, decode).reply.None? ==>
      CheckRequestLine(FirstLine(lines)).Accepted? &&
      (Authenticate(HeadersOf(lines), password, decode) == DecodeFailure
       || UnreadableGet(CheckRequestLine(FirstLine(lines)).line, fs, resolve))
  {
    AnswerStatuses(lines, body, fs, password, registry, date, resolve, decode);
    var check := CheckRequestLine(FirstLine(lines));
    if check.Accepted? && Passes(Authenticate(HeadersOf(lines), password, decode)) {
      AdmittedDispatches(lines, body, fs, password, registry, date, resolve, decode);
      DispatchSilent(check.line.verb, resolve(check.line.target), ContentLength(HeadersOf(lines)),
                     BodyInput(lines, body), fs, registry, date);
    }
  }

  /** The switch stays silent only for a GET whose file cannot be read. */
  lemma DispatchSilent(verb: string, path: Path, contentLength: int, input: seq<CharUnit>, fs: FileSystem,
                       registry: map<string, string>, date: string)
    ensures Dispatch(verb, path, contentLength, input, fs, registry, date).reply.None? <==>
      verb == "GET" && path in fs.files && !fs.readable
  {
    if verb == "PUT" {
      PutStoresBody(path, fs, contentLength, input, date);
    }
  }

  /** A GET whose file exists but cannot be read. */
  predicate UnreadableGet(line: RequestLine, fs: FileSystem, resolve: string -> Path) {
    line.verb == "GET" && resolve(line.target) in fs.files && !fs.readable
  }

  /** The files change only through an admitted PUT or DELETE. */
  lemma OnlyPutAndDeleteWrite(lines: seq<string>, body: seq<CharUnit>, fs: FileSystem, password: Option<seq<string>>,
                              registry: map<string, string>, date: string,
                              resolve: string -> Path, decode: string -> Option<string>)
    ensures Decide(lines, body, fs, password, registry, date, resolve, decode).files != fs.files ==>
      Admitted(lines, password, decode) && Writes(CheckRequestLine(FirstLine(lines)).line.verb)
  {
    var check := CheckRequestLine(FirstLine(lines));
    if Admitted(lines, password, decode) {
      AdmittedDispatches(lines, body, fs, password, registry, date, resolve, decode);
      DispatchWrites(check.line.verb, resolve(check.line.target), ContentLength(HeadersOf(lines)),
                     BodyInput(lines, body), fs, registry, date);
    } else {
      RejectedKeepsFiles(lines, body, fs, password, registry, date, resolve, decode);
    }
  }

  predicate Writes(verb: string) {
    verb == "PUT" || verb == "DELETE"
  }

  /** A request stopped before the switch leaves the files alone, and what
      it answers announces its body's length. */
  lemma RejectedKeepsFiles(lines: seq<string>, body: seq<CharUnit>, fs: FileSystem, password: Option<seq<string>>,
                           registry: map<string, string>, date: string,
                           resolve: string -> Path, decode: string -> Option<string>)
    requires !Admitted(lines, password, decode)
    ensures var h := Decide(lines, body, fs, password, registry, date, resolve, decode);
      h.files == fs.files && (h.reply.Some? ==> Consistent(h.reply.value))
  {
    var check := CheckRequestLine(FirstLine(lines));
    if check.Accepted? {
      assert Decide(lines, body, fs, password, registry, date, resolve, decode)
          == Admit(check.line, lines, body, fs, password, registry, date, resolve, decode);
    }
  }

  /** Only the PUT and DELETE handlers change the files. */
  lemma DispatchWrites(verb: string, path: Path, contentLength: int, input: seq<CharUnit>, fs: FileSystem,
                       registry: map<string, string>, date: string)
    ensures Dispatch(verb, path, contentLength, input, fs, registry, date).files != fs.files ==> Writes(verb)
  {
  }

  // ------------------------------------------------------ per-method laws

  /** GET, HEAD and DELETE on a missing file give the same 404, body
      included (a HEAD 404 still carries "File not found"). */
  lemma MissingFileNotFound(verb: string, path: Path, contentLength: int, input: seq<CharUnit>, fs: FileSystem,
                            registry: map<string, string>, date: string)
    requires verb == "GET" || verb == "HEAD" || verb == "DELETE"
    requires path !in fs.files
    ensures var h := Dispatch(verb, path, contentLength, input, fs, registry, date);
      && h == Handled(Some(NotFound(date)), fs.files)
      && h.reply.value.status == 404
      && h.reply.value.body == TextBytes("File not found")
      && Consistent(h.reply.value)
  {
  }

  /** GET of a readable file: 200, the file's bytes, its registry type, its
      byte count as Content-Length; nothing changes. */
  lemma GetServesFile(path: Path, fs: FileSystem, registry: map<string, string>, date: string)
    requires path in fs.files && fs.readable
    ensures var h := GetOutcome(path, fs, registry, date);
      && h.files == fs.files && h.reply.Some?
      && h.reply.value.status == 200
      && h.reply.value.body == fs.files[path]
      && HeaderValue(h.reply.value.headers, "Content-Type") == Some(Lookup(registry, FileExtension(path)))
      && HeaderValue(h.reply.value.headers, "Content-Length") == Some(ShowInt(|fs.files[path]|))
      && Consistent(h.reply.value)
  {
    var bytes := fs.files[path];
    assert GetOutcome(path, fs, registry, date)
        == Handled(Some(SendResponse(200, "OK", bytes, Lookup(registry, FileExtension(path)), |bytes|, date)), fs.files);
  }

  /** HEAD answers as GET would with the body removed: same status, same
      headers (Content-Length the file size, cast to int), nothing sent. */
  lemma HeadMirrorsGet(path: Path, fs: FileSystem, registry: map<string, string>, date: string)
    requires fs.readable
    requires path in fs.files ==> |fs.files[path]| <= Int32Max
    ensures var head := HeadOutcome(path, fs, registry, date);
      var get := GetOutcome(path, fs, registry, date);
      && head.files == get.files
      && head.reply.Some? && get.reply.Some?
      && head.reply.value.status == get.reply.value.status
      && head.reply.value.headers == get.reply.value.headers
      && (path in fs.files ==> head.reply.value.body == [])
      && (path !in fs.files ==> head == get)
  {
  }

  /** HEAD of an existing file, readable or not (file.length() does not read
      it): 200, its registry type, the size cast to int as Content-Length,
      no body, nothing changed. */
  lemma HeadAnnouncesSize(path: Path, fs: FileSystem, registry: map<string, string>, date: string)
    requires path in fs.files
    ensures var h := HeadOutcome(path, fs, registry, date);
      && StatusIs(h, 200) && h.reply.value.body == [] && h.files == fs.files
      && HeaderValue(h.reply.value.headers, "Content-Type") == Some(Lookup(registry, FileExtension(path)))
      && HeaderValue(h.reply.value.headers, "Content-Length") == Some(ShowInt(Int32Wrap(|fs.files[path]|)))
  {
  }

  /** A file of exactly 2^31 bytes: HEAD announces -2^31. */
  lemma HeadSizeWraps(path: Path, fs: FileSystem, registry: map<string, string>, date: string)
    requires path in fs.files && |fs.files[path]| == 0x8000_0000
    ensures HeaderValue(HeadOutcome(path, fs, registry, date).reply.value.headers, "Content-Length")
            == Some(ShowInt(Int32Min))
  {
    assert Int32Wrap(0x8000_0000) == Int32Min;
  }

  /** PUT: 201 and the file holds the copied units unless opening or a
      write throws; then 500 and the file holds what was written before. */
  lemma PutStoresBody(path: Path, fs: FileSystem, contentLength: int, input: seq<CharUnit>, date: string)
    ensures var h := PutOutcome(path, fs, contentLength, input, date);
      var data := Copied(contentLength, input);
      && h.reply.Some?
      && (h.reply.value.status == 201 || h.reply.value.status == 500)
      && (h.reply.value.status == 201 <==>
            fs.writeFault.NoFault? || (fs.writeFault.FailsAfter? && fs.writeFault.count >= |data|))
      && (h.reply.value.status == 201 ==> h.files == fs.files[path := data])
      && (fs.writeFault.OpenFails? ==> h.files == fs.files)
      && (fs.writeFault.FailsAfter? && fs.writeFault.count < |data| ==>
            h.files == fs.files[path := data[..fs.writeFault.count]])
      && forall p :: p != path && p in fs.files ==> p in h.files && h.files[p] == fs.files[p]
  {
  }

  /** DELETE of an existing file: 204 with nothing sent after the head and the
      file gone, or 500 and the file kept. */
  lemma DeleteRemovesFile(path: Path, fs: FileSystem, date: string)
    requires path in fs.files
    ensures var h := DeleteOutcome(path, fs, date);
      && h.reply.Some?
      && (fs.deletable ==> h.reply.value.status == 204 && h.reply.value.body == [] && path !in h.files
                           && h.files == fs.files - {path})
      && (!fs.deletable ==> h.reply.value.status == 500 && h.files == fs.files)
  {
  }

  // ----------------------------------------------------------- framing

  /** Every response the server sends announces the number of bytes it
      transmits, except a successful HEAD, which announces the file size. */
  lemma ContentLengthMatchesBody(lines: seq<string>, body: seq<CharUnit>, fs: FileSystem, password: Option<seq<string>>,
                                 registry: map<string, string>, date: string,
                                 resolve: string -> Path, decode: string -> Option<string>)
    ensures var h := Decide(lines, body, fs, password, registry, date, resolve, decode);
      h.reply.Some? && !(CheckRequestLine(FirstLine(lines)).Accepted?
                         && CheckRequestLine(FirstLine(lines)).line.verb == "HEAD"
                         && h.reply.value.status == 200)
      ==> Consistent(h.reply.value)
  {
    var check := CheckRequestLine(FirstLine(lines));
    if Admitted(lines, password, decode) {
      AdmittedDispatches(lines, body, fs, password, registry, date, resolve, decode);
      DispatchConsistent(check.line.verb, resolve(check.line.target), ContentLength(HeadersOf(lines)),
                         BodyInput(lines, body), fs, registry, date);
    } else {
      RejectedKeepsFiles(lines, body, fs, password, registry, date, resolve, decode);
    }
  }

  /** The switch's answers are framed consistently, except HEAD's 200. */
  lemma DispatchConsistent(verb: string, path: Path, contentLength: int, input: seq<CharUnit>, fs: FileSystem,
                           registry: map<string, string>, date: string)
    ensures var h := Dispatch(verb, path, contentLength, input, fs, registry, date);
      h.reply.Some? && !(verb == "HEAD" && h.reply.value.status == 200) ==> Consistent(h.reply.value)
  {
    var h := Dispatch(verb, path, contentLength, input, fs, registry, date);
    if verb == "GET" {
      assert h == GetOutcome(path, fs, registry, date);
      if path in fs.files && fs.readable {
        GetServesFile(path, fs, registry, date);
      }
    } else if verb == "HEAD" {
      assert h == HeadOutcome(path, fs, registry, date);
    } else if verb == "PUT" {
      assert h == PutOutcome(path, fs, contentLength, input, date);
      PutStoresBody(path, fs, contentLength, input, date);
    } else if verb == "DELETE" {
      assert h == DeleteOutcome(path, fs, date);
      if path in fs.files {
        DeleteRemovesFile(path, fs, date);
      }
    }
  }

  // ------------------------------------------------------- round trips

  /** A request as a client writes it: the request line, header lines, the
      blank line. */
  function RequestLines(verb: string, target: string, headerLines: seq<string>): seq<string> {
    [verb + " " + target + " " + Version] + headerLines + [""]
  }

  predicate HeaderBlock(headerLines: seq<string>) {
    forall i :: 0 <= i < |headerLines| ==> headerLines[i] != ""
  }

  lemma RequestLinesParse(verb: string, target: string, headerLines: seq<string>, body: seq<CharUnit>)
    requires ' ' !in verb && ' ' !in target && HeaderBlock(headerLines)
    ensures var lines := RequestLines(verb, target, headerLines);
      && CheckRequestLine(FirstLine(lines)) == Accepted(RequestLine(verb, target, Version))
      && HeaderLines(lines) == headerLines
      && BodyInput(lines, body) == body
  {
    var lines := RequestLines(verb, target, headerLines);
    AcceptsWellFormedLine(verb, target, 0);
    assert verb + " " + target + " " + Version + Spaces(0) == lines[0];
    var rest := lines[1..];
    assert rest == headerLines + [""];
    HeaderEndAt(headerLines);
  }

  lemma {:induction false} HeaderEndAt(headerLines: seq<string>)
    requires HeaderBlock(headerLines)
    ensures HeaderEnd(headerLines + [""]) == |headerLines|
    decreases |headerLines|
  {
    if headerLines != [] {
      assert (headerLines + [""])[1..] == headerLines[1..] + [""];
      HeaderEndAt(headerLines[1..]);
    }
  }

  /** A request written by a client and let through by the gate is answered
      by the switch on its method, its target, the length its headers give
      and the units after the blank line. */
  lemma ClientRequest(verb: string, target: string, headerLines: seq<string>, body: seq<CharUnit>,
                      fs: FileSystem, password: Option<seq<string>>, registry: map<string, string>,
                      date: string, resolve: string -> Path, decode: string -> Option<string>)
    requires ' ' !in verb && ' ' !in target && HeaderBlock(headerLines)
    requires Passes(Authenticate(HeaderMap(headerLines), password, decode))
    ensures Decide(RequestLines(verb, target, headerLines), body, fs, password, registry, date, resolve, decode)
            == Dispatch(verb, resolve(target), ContentLength(HeaderMap(headerLines)), body, fs, registry, date)
  {
    var lines := RequestLines(verb, target, headerLines);
    RequestLinesParse(verb, target, headerLines, body);
    assert HeadersOf(lines) == HeaderMap(headerLines);
    AdmittedDispatches(lines, body, fs, password, registry, date, resolve, decode);
  }

  /** A well-formed, admitted PUT stores the body and answers 201. */
  lemma PutStores(target: string, putHeaders: seq<string>, body: seq<CharUnit>, fs: FileSystem,
                  password: Option<seq<string>>, registry: map<string, string>, date: string,
                  resolve: string -> Path, decode: string -> Option<string>)
    requires ' ' !in target && HeaderBlock(putHeaders)
    requires ContentLength(HeaderMap(putHeaders)) == |body|
    requires Passes(Authenticate(HeaderMap(putHeaders), password, decode))
    requires fs.writeFault == NoFault
    ensures Decide(RequestLines("PUT", target, putHeaders), body, fs, password, registry, date, resolve, decode)
            == Handled(Some(Created(date)), fs.files[resolve(target) := Copied(|body|, body)])
  {
    ClientRequest("PUT", target, putHeaders, body, fs, password, registry, date, resolve, decode);
    assert Dispatch("PUT", resolve(target), |body|, body, fs, registry, date)
        == PutOutcome(resolve(target), fs, |body|, body, date);
  }

  /** PUT of a body followed by GET of the same target returns exactly the
      bytes written: the round-trip law, for any body including the empty
      one, when every unit fits in a byte. */
  lemma PutThenGet(target: string, putHeaders: seq<string>, getHeaders: seq<string>,
                   body: seq<CharUnit>, getBody: seq<CharUnit>, fs: FileSystem, password: Option<seq<string>>,
                   registry: map<string, string>, date: string, date': string,
                   resolve: string -> Path, decode: string -> Option<string>)
    requires ' ' !in target && HeaderBlock(putHeaders) && HeaderBlock(getHeaders)
    requires ContentLength(HeaderMap(putHeaders)) == |body|
    requires Passes(Authenticate(HeaderMap(putHeaders), password, decode))
    requires Passes(Authenticate(HeaderMap(getHeaders), password, decode))
    requires fs.writeFault == NoFault && fs.readable
    requires forall i :: 0 <= i < |body| ==> body[i] < 0x100
    ensures var put := Decide(RequestLines("PUT", target, putHeaders), body, fs, password, registry, date, resolve, decode);
      var get := Decide(RequestLines("GET", target, getHeaders), getBody, fs.(files := put.files),
                        password, registry, date', resolve, decode);
      && put.reply == Some(Created(date))
      && get.reply.Some? && get.reply.value.status == 200
      && get.reply.value.body == body
  {
    PutStores(target, putHeaders, body, fs, password, registry, date, resolve, decode);
    var path := resolve(target);
    CopiedBytes(body);
    var put := Decide(RequestLines("PUT", target, putHeaders), body, fs, password, registry, date, resolve, decode);
    assert put.files == fs.files[path := body];
    var fs' := fs.(files := put.files);
    assert fs'.readable && path in fs'.files && fs'.files[path] == body;
    GetServes(target, getHeaders, getBody, fs', password, registry, date', resolve, decode);
  }

  /** Units that fit in a byte are copied unchanged. */
  lemma CopiedBytes(body: seq<CharUnit>)
    requires forall i :: 0 <= i < |body| ==> body[i] < 0x100
    ensures Copied(|body|, body) == body
  {
    var data := Copied(|body|, body);
    assert |data| == |body|;
    forall i | 0 <= i < |body|
      ensures data[i] == body[i]
    {
      assert data[i] == LowByte(body[i]);
    }
  }

  /** A well-formed, admitted GET of a readable file serves its bytes. */
  lemma GetServes(target: string, getHeaders: seq<string>, body: seq<CharUnit>, fs: FileSystem,
                  password: Option<seq<string>>, registry: map<string, string>, date: string,
                  resolve: string -> Path, decode: string -> Option<string>)
    requires ' ' !in target && HeaderBlock(getHeaders)
    requires Passes(Authenticate(HeaderMap(getHeaders), password, decode))
    requires resolve(target) in fs.files && fs.readable
    ensures var h := Decide(RequestLines("GET", target, getHeaders), body, fs, password, registry, date, resolve, decode);
      && h.files == fs.files
      && h.reply.Some? && h.reply.value.status == 200
      && h.reply.value.body == fs.files[resolve(target)]
  {
    ClientRequest("GET", target, getHeaders, body, fs, password, registry, date, resolve, decode);
    var path := resolve(target);
    var length := ContentLength(HeaderMap(getHeaders));
    assert Dispatch("GET", path, length, body, fs, registry, date) == GetOutcome(path, fs, registry, date);
    GetServesFile(path, fs, registry, date);
  }

  /** DELETE of an existing file answers 204, and a later GET of the same
      target answers 404. */
  lemma DeleteThenGet(target: string, deleteHeaders: seq<string>, getHeaders: seq<string>,
                      body: seq<CharUnit>, getBody: seq<CharUnit>, fs: FileSystem, password: Option<seq<string>>,
                      registry: map<string, string>, date: string, date': string,
                      resolve: string -> Path, decode: string -> Option<string>)
    requires ' ' !in target && HeaderBlock(deleteHeaders) && HeaderBlock(getHeaders)
    requires Passes(Authenticate(HeaderMap(deleteHeaders), password, decode))
    requires Passes(Authenticate(HeaderMap(getHeaders), password, decode))
    requires resolve(target) in fs.files && fs.deletable
    ensures var del := Decide(RequestLines("DELETE", target, deleteHeaders), body, fs, password, registry, date, resolve, decode);
      var get := Decide(RequestLines("GET", target, getHeaders), getBody, fs.(files := del.files),
                        password, registry, date', resolve, decode);
      && StatusIs(del, 204) && del.reply.value.body == []
      && get.reply == Some(NotFound(date'))
  {
    var path := resolve(target);
    ClientRequest("DELETE", target, deleteHeaders, body, fs, password, registry, date, resolve, decode);
    var del := Dispatch("DELETE", path, ContentLength(HeaderMap(deleteHeaders)), body, fs, registry, date);
    assert del == DeleteOutcome(path, fs, date);
    DeleteRemovesFile(path, fs, date);
    var fs' := fs.(files := del.files);
    ClientRequest("GET", target, getHeaders, getBody, fs', password, registry, date', resolve, decode);
    assert Dispatch("GET", path, ContentLength(HeaderMap(getHeaders)), getBody, fs', registry, date')
        == GetOutcome(path, fs', registry, date');
  }
}
