/** handleRequest and its per-method handlers. One request is decided over
    abstract inputs: the lines the reader delivers, the units after the
    blank line, a filesystem snapshot, the .password file next to the
    requested file, the MIME registry, the Date text, the path join and the
    Base64 decoder. The answer is a response, or none, and the files after. */
module WebServer {
  import opened Wrappers
  import opened Text
  import opened Config
  import opened Framing
  import opened Requests
  import opened Auth

  type Path = string

  /** How the FileOutputStream of a PUT behaves: it cannot be opened, or its
      write throws once `count` bytes are in the file, or neither. */
  datatype WriteFault = NoFault | OpenFails | FailsAfter(count: nat)

  /** The filesystem as the handler sees it: regular files by path, whether
      Files.readAllBytes succeeds, whether File.delete succeeds, and how
      writing behaves. */
  datatype FileSystem = FileSystem(
    files: map<Path, seq<byte>>,
    readable: bool,
    deletable: bool,
    writeFault: WriteFault)

  /** The response sent, if any, and the files afterwards. */
  datatype Handled = Handled(reply: Option<Response>, files: map<Path, seq<byte>>)

  // ----------------------------------------------------- file extension

  /** File.getName(): the text after the last separator. */
  function FileName(path: Path): (name: string)
    ensures '/' !in name
    ensures |name| <= |path| && name == path[|path| - |name|..]
    ensures |path| - |name| - 1 == LastIndexOf(path, '/')
  {
    path[LastIndexOf(path, '/') + 1..]
  }

  /** The name is the whole path when it has no separator, and otherwise
      starts right after a separator. */
  lemma NameAfterLastSlash(path: Path)
    ensures var name := FileName(path);
      && (|name| == |path| <==> '/' !in path)
      && (|name| < |path| ==> path[|path| - |name| - 1] == '/')
  {
  }

  /** The text after the last dot of a name, or "" when it has no dot. */
  function AfterLastDot(name: string): (ext: string)
    ensures '.' !in ext && ('/' !in name ==> '/' !in ext)
    ensures '.' !in name ==> ext == ""
    ensures '.' in name ==> |ext| < |name| && name[|name| - |ext| - 1] == '.' && ext == name[|name| - |ext|..]
  {
    var lastDot := LastIndexOf(name, '.');
    AfterLast(name, '.', '/');
    if lastDot == -1 then "" else name[lastDot + 1..]
  }

  /** getFileExtension: the text after the last dot of the file name, or ""
      when the name has no dot; never lower-cased. */
  function FileExtension(path: Path): (ext: string)
    ensures '.' !in ext && '/' !in ext
    ensures var name := FileName(path);
      && ('.' !in name ==> ext == "")
      && ('.' in name ==> |ext| < |name| && name[|name| - |ext| - 1] == '.' && ext == name[|name| - |ext|..])
  {
    AfterLastDot(FileName(path))
  }

  /** The extension of a file named stem.ext in any directory is ext, as
      typed: no case folding ("a.PNG" gives "PNG"), and "" for a trailing
      dot ("file." gives ""). */
  lemma ExtensionOfName(dir: string, stem: string, ext: string)
    requires '/' !in stem && '/' !in ext && '.' !in ext
    ensures FileExtension(dir + "/" + stem + "." + ext) == ext
  {
    var path := dir + "/" + stem + "." + ext;
    var name := stem + "." + ext;
    assert path == (dir + "/") + name;
    assert path[|dir|] == '/';
    assert '/' !in path[|dir| + 1..] by {
      assert path[|dir| + 1..] == name;
    }
    assert FileName(path) == name;
    assert name[|stem|] == '.';
    assert name[|stem| + 1..] == ext;
  }

  /** A dot in a directory name does not make an extension. */
  lemma DirectoryDotIgnored(dir: string, name: string)
    requires '/' !in name && '.' !in name
    ensures FileExtension(dir + "/" + name) == ""
  {
    var p := dir + "/" + name;
    assert p[|dir|] == '/';
    assert p[|dir| + 1..] == name;
    assert FileName(p) == name;
  }

  // ------------------------------------------------------------ bodies

  /** FileOutputStream.write(int) keeps the low eight bits of what read()
      returned. */
  function LowByte(c: CharUnit): byte {
    c % 0x100
  }

  /** The bytes PUT writes: one per unit read, at most contentLength of them,
      fewer when the stream ends first, none for a length of zero or less. */
  function Copied(contentLength: int, input: seq<CharUnit>): (data: seq<byte>)
    ensures |data| == if contentLength <= 0 then 0
                      else if contentLength < |input| then contentLength else |input|
    ensures forall i :: 0 <= i < |data| ==> data[i] == LowByte(input[i])
  {
    var n := if contentLength <= 0 then 0 else if contentLength < |input| then contentLength else |input|;
    seq(n, i requires 0 <= i < n => LowByte(input[i]))
  }

  lemma CopiedPrefix(i: nat, contentLength: int, input: seq<CharUnit>)
    requires i <= |input| && (i <= contentLength || i == 0)
    ensures i <= |Copied(contentLength, input)|
    ensures Copied(contentLength, input)[..i] == Copied(i, input)
    ensures i == |input| || i == contentLength || contentLength <= 0 ==> Copied(contentLength, input) == Copied(i, input)
  {
  }

  // ---------------------------------------------------------- responses

  function NotFound(date: string): Response {
    SendText(404, "Not Found", "File not found", date)
  }

  function WriteError(date: string): Response {
    SendText(500, "Internal Server Error", "Error writing file", date)
  }

  function Created(date: string): Response {
    SendText(201, "Created", "File successfully created or updated", date)
  }

  // ----------------------------------------------- per-method outcomes

  /** handleGet: 404 for a missing file; otherwise the whole file with its
      registry type and byte count. A failing read throws past every handler. */
  function GetOutcome(path: Path, fs: FileSystem, registry: map<string, string>, date: string): Handled {
    if path !in fs.files then Handled(Some(NotFound(date)), fs.files)
    else if !fs.readable then Handled(None, fs.files)
    else
      var bytes := fs.files[path];
      Handled(Some(SendResponse(200, "OK", bytes, Lookup(registry, FileExtension(path)), |bytes|, date)), fs.files)
  }

  /** handleHead: GET's status and headers, the size cast to int, no body. */
  function HeadOutcome(path: Path, fs: FileSystem, registry: map<string, string>, date: string): Handled {
    if path !in fs.files then Handled(Some(NotFound(date)), fs.files)
    else
      var size := |fs.files[path]|;
      Handled(Some(SendResponse(200, "OK", [], Lookup(registry, FileExtension(path)), Int32Wrap(size), date)), fs.files)
  }

  /** handlePut: open (create or truncate) the file, copy the body, answer 201;
      answer 500 when opening or a write throws, leaving what was written. */
  function PutOutcome(path: Path, fs: FileSystem, contentLength: int, input: seq<CharUnit>, date: string): Handled {
    var data := Copied(contentLength, input);
    match fs.writeFault
    case OpenFails => Handled(Some(WriteError(date)), fs.files)
    case NoFault => Handled(Some(Created(date)), fs.files[path := data])
    case FailsAfter(k) =>
      if k < |data| then Handled(Some(WriteError(date)), fs.files[path := data[..k]])
      else Handled(Some(Created(date)), fs.files[path := data])
  }

  /** handleDelete: 404 for a missing file, 204 when removed, 500 otherwise. */
  function DeleteOutcome(path: Path, fs: FileSystem, date: string): Handled {
    if path !in fs.files then Handled(Some(NotFound(date)), fs.files)
    else if fs.deletable then Handled(Some(SendText(204, "No Content", "", date)), fs.files - {path})
    else Handled(Some(SendText(500, "Internal Server Error", "Failed to delete file", date)), fs.files)
  }

  /** Step 8: the switch on the method token. */
  function Dispatch(verb: string, path: Path, contentLength: int, input: seq<CharUnit>, fs: FileSystem,
                    registry: map<string, string>, date: string): Handled {
    if verb == "GET" then GetOutcome(path, fs, registry, date)
    else if verb == "HEAD" then HeadOutcome(path, fs, registry, date)
    else if verb == "PUT" then PutOutcome(path, fs, contentLength, input, date)
    else if verb == "DELETE" then DeleteOutcome(path, fs, date)
    else Handled(Some(SendText(405, "Method Not Allowed", "Unsupported HTTP method", date)), fs.files)
  }

  // ---------------------------------------------------- the whole request

  function FirstLine(lines: seq<string>): Option<string> {
    if lines == [] then None else Some(lines[0])
  }

  /** The lines the header loop reads. */
  function HeaderLines(lines: seq<string>): seq<string>
    requires lines != []
  {
    lines[1..][..HeaderEnd(lines[1..])]
  }

  /** The units PUT can read: those after the blank line, or none when the
      header loop already met the end of the stream. */
  function BodyInput(lines: seq<string>, body: seq<CharUnit>): seq<CharUnit>
    requires lines != []
  {
    if HeaderEnd(lines[1..]) < |lines[1..]| then body else []
  }

  /** handleRequest, steps 1 to 8, as one decision. */
  function Decide(lines: seq<string>, body: seq<CharUnit>, fs: FileSystem, password: Option<seq<string>>,
                  registry: map<string, string>, date: string,
                  resolve: string -> Path, decode: string -> Option<string>): Handled
  {
    match CheckRequestLine(FirstLine(lines))
    case BadRequest(message) => Handled(Some(SendText(400, "Bad Request", message, date)), fs.files)
    case BadVersion =>
      Handled(Some(SendText(505, "HTTP Version Not Supported", "Only HTTP/1.1 is supported", date)), fs.files)
    case Accepted(line) => Admit(line, lines, body, fs, password, registry, date, resolve, decode)
  }

  /** Steps 3 to 8, once the request line is accepted: the headers, the
      authentication gate, the content length and the switch. */
  function Admit(line: RequestLine, lines: seq<string>, body: seq<CharUnit>, fs: FileSystem,
                 password: Option<seq<string>>, registry: map<string, string>, date: string,
                 resolve: string -> Path, decode: string -> Option<string>): Handled
    requires lines != []
  {
    var headers := HeaderMap(HeaderLines(lines));
    var path := resolve(line.target);
    match Authenticate(headers, password, decode)
    case DecodeFailure => Handled(None, fs.files)
    case MissingCredentials => Handled(Some(SendUnauthorized(date)), fs.files)
    case InvalidCredentials => Handled(Some(SendText(403, "Forbidden", "Invalid credentials", date)), fs.files)
    case NoAuthRequired =>
      Dispatch(line.verb, path, ContentLength(headers), BodyInput(lines, body), fs, registry, date)
    case Authorized =>
      Dispatch(line.verb, path, ContentLength(headers), BodyInput(lines, body), fs, registry, date)
  }

  // ------------------------------------------------------------ methods

  method HandleGet(path: Path, fs: FileSystem, mime: MimeTypes, date: string) returns (h: Handled)
    ensures h == GetOutcome(path, fs, mime.mimeTypes, date)
  {
    if path !in fs.files {
      return Handled(Some(NotFound(date)), fs.files);
    }
    if !fs.readable {
      return Handled(None, fs.files);
    }
    var fileBytes := fs.files[path];
    var contentType := mime.GetMimeTypeFromExtension(FileExtension(path));
    h := Handled(Some(SendResponse(200, "OK", fileBytes, contentType, |fileBytes|, date)), fs.files);
  }

  method HandleHead(path: Path, fs: FileSystem, mime: MimeTypes, date: string) returns (h: Handled)
    ensures h == HeadOutcome(path, fs, mime.mimeTypes, date)
  {
    if path !in fs.files {
      return Handled(Some(NotFound(date)), fs.files);
    }
    var fileSize := |fs.files[path]|;
    var contentType := mime.GetMimeTypeFromExtension(FileExtension(path));
    h := Handled(Some(SendResponse(200, "OK", [], contentType, Int32Wrap(fileSize), date)), fs.files);
  }

  /** The copy loop of handlePut, appending one byte per unit read. */
  method HandlePut(path: Path, fs: FileSystem, contentLength: int, input: seq<CharUnit>, date: string)
    returns (h: Handled)
    ensures h == PutOutcome(path, fs, contentLength, input, date)
  {
    if fs.writeFault.OpenFails? {
      return Handled(Some(WriteError(date)), fs.files);
    }
    var files := fs.files[path := []];
    var i := 0;
    while i < contentLength
      invariant 0 <= i <= |input|
      invariant i <= contentLength || i == 0
      invariant fs.writeFault.FailsAfter? ==> i <= fs.writeFault.count
      invariant files == fs.files[path := Copied(i, input)]
    {
      if i >= |input| {
        break;
      }
      if fs.writeFault.FailsAfter? && i == fs.writeFault.count {
        CopiedPrefix(i, contentLength, input);
        return Handled(Some(WriteError(date)), files);
      }
      assert Copied(i + 1, input) == Copied(i, input) + [LowByte(input[i])];
      files := files[path := files[path] + [LowByte(input[i])]];
      i := i + 1;
    }
    CopiedPrefix(i, contentLength, input);
    h := Handled(Some(Created(date)), files);
  }

  method HandleDelete(path: Path, fs: FileSystem, date: string) returns (h: Handled)
    ensures h == DeleteOutcome(path, fs, date)
  {
    if path !in fs.files {
      return Handled(Some(NotFound(date)), fs.files);
    }
    if fs.deletable {
      h := Handled(Some(SendText(204, "No Content", "", date)), fs.files - {path});
    } else {
      h := Handled(Some(SendText(500, "Internal Server Error", "Failed to delete file", date)), fs.files);
    }
  }

  /** handleRequest: the request line and the version gate, then the rest
      of the request in Serve. */
  method HandleRequest(lines: seq<string>, body: seq<CharUnit>, fs: FileSystem, password: Option<seq<string>>,
                       mime: MimeTypes, date: string,
                       resolve: string -> Path, decode: string -> Option<string>)
    returns (h: Handled)
    ensures h == Decide(lines, body, fs, password, mime.mimeTypes, date, resolve, decode)
  {
    // 1) the request line
    if lines == [] || lines[0] == "" {
      return Handled(Some(SendText(400, "Bad Request", "Invalid request received", date)), fs.files);
    }
    var requestParts := Split(lines[0]);
    if |requestParts| != 3 {
      return Handled(Some(SendText(400, "Bad Request", "Malformed request", date)), fs.files);
    }
    var verb, requestedPath, httpVersion := requestParts[0], requestParts[1], requestParts[2];
    // 2) the version gate
    if httpVersion != Version {
      return Handled(Some(SendText(505, "HTTP Version Not Supported", "Only HTTP/1.1 is supported", date)), fs.files);
    }
    var line := RequestLine(verb, requestedPath, httpVersion);
    assert CheckRequestLine(FirstLine(lines)) == Accepted(line);
    h := Serve(line, lines, body, fs, password, mime, date, resolve, decode);
  }

  /** The rest of handleRequest once the request line is accepted: the
      reader loop, the header map, the gate, the mutable content length and
      the switch, in the order the server runs them. */
  method Serve(line: RequestLine, lines: seq<string>, body: seq<CharUnit>, fs: FileSystem,
               password: Option<seq<string>>, mime: MimeTypes, date: string,
               resolve: string -> Path, decode: string -> Option<string>)
    returns (h: Handled)
    requires lines != []
    ensures h == Admit(line, lines, body, fs, password, mime.mimeTypes, date, resolve, decode)
  {
    // 3) and 4) the header lines and the header map
    var headerLines, endOfStream := ReadHeaderLines(lines[1..]);
    var headers := ParseHeaders(headerLines);
    assert headers == HeaderMap(HeaderLines(lines));
    // 5) the file path
    var path := resolve(line.target);
    // 6) Basic authentication when a .password file exists
    if password.Some? {
      if "authorization" !in headers {
        return Handled(Some(SendUnauthorized(date)), fs.files);
      }
      var verdict := CheckAuth(headers["authorization"], decode, password.value);
      if verdict.None? {
        return Handled(None, fs.files);
      }
      if !verdict.value {
        return Handled(Some(SendText(403, "Forbidden", "Invalid credentials", date)), fs.files);
      }
    }
    // 7) the content length, 0 unless present and parseable
    var contentLength := ReadContentLength(headers);
    var input := if endOfStream then [] else body;
    assert input == BodyInput(lines, body);
    // 8) dispatch by method
    h := Switch(line.verb, path, contentLength, input, fs, mime, date);
  }

  /** Step 7: the mutable content length, 0 unless the header is present and
      parses. */
  method ReadContentLength(headers: map<string, string>) returns (contentLength: int)
    ensures contentLength == ContentLength(headers)
  {
    contentLength := 0;
    if "content-length" in headers {
      var parsed := ParseInt(headers["content-length"]);
      if parsed.Some? {
        contentLength := parsed.value;
      }
    }
  }

  /** Step 8: the switch on the method token. */
  method Switch(verb: string, path: Path, contentLength: int, input: seq<CharUnit>, fs: FileSystem,
                mime: MimeTypes, date: string)
    returns (h: Handled)
    ensures h == Dispatch(verb, path, contentLength, input, fs, mime.mimeTypes, date)
  {
    if verb == "GET" {
      h := HandleGet(path, fs, mime, date);
    } else if verb == "HEAD" {
      h := HandleHead(path, fs, mime, date);
    } else if verb == "PUT" {
      h := HandlePut(path, fs, contentLength, input, date);
    } else if verb == "DELETE" {
      h := HandleDelete(path, fs, date);
    } else {
      h := Handled(Some(SendText(405, "Method Not Allowed", "Unsupported HTTP method", date)), fs.files);
    }
  }
}
