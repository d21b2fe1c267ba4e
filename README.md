# simple-webserver, modelled in Dafny

The server answers one HTTP/1.1 request per connection. It handles GET,
HEAD, PUT and DELETE on files under a document root. A `.password` file
next to the requested file turns on Basic authentication for that
directory. A MIME registry maps file extensions to content types.

The model covers `server/WebServer.java` from the request line to the
response bytes, and the registry class `server/config/MimeTypes.java`.
Each request is one decision over abstract inputs:

- the lines the reader delivers;
- the character units after the blank line;
- a snapshot of the files, with flags for a failing read and a failing
  delete, and for PUT's output stream: it cannot be opened, or a write fails
  after some number of bytes;
- the lines of the `.password` file, if there is one;
- the MIME registry;
- the text of the Date header;
- the path join;
- the Base64 decoder.

The decision `WebServer.Decide` gives the response sent, or none, and the
files afterwards. The imperative parts of the request handling are methods
proved against that decision or the functions it is built from:

- the header-line loop;
- the header-map loop;
- the mutable content length;
- the PUT byte-copy loop;
- the scan of the password file.

The registry is a class whose methods are proved against its map of
extensions to types.

Modules, one per concern:

- `Text`: the Java string and integer operations the server relies on:
  `trim`, ASCII `toLowerCase`, `split(" ")` with trailing empty tokens
  removed, `indexOf`, `lastIndexOf`, `Integer.parseInt`, int-to-string and
  the `(int)` cast of a `long`.
- `Config`: the `MimeTypes` class.
- `Framing`: both `sendResponse` overloads and `sendUnauthorizedResponse`.
- `Requests`: the request line, the header lines, the header map and
  Content-Length.
- `Auth`: `checkAuth`, `isValidUser` and the authentication gate.
- `WebServer`: the handlers, `Decide`, and the methods `HandleRequest`,
  `Serve`, `HandleGet`, `HandleHead`, `HandlePut` and `HandleDelete`.
- `ServerLaws`: what the server promises, stated over `Decide`.

Behaviours of the code worth knowing, which the model follows:

- A Base64 token that does not decode throws `IllegalArgumentException`.
  The handler catches only `IOException`, so no response is sent; it is
  not treated as invalid credentials.
- A header line with no colon, or with a colon at position 0, is skipped,
  not rejected.
- The extension is used exactly as it appears in the name, with no case
  folding: `a.PNG` gets `application/octet-stream`.
- HEAD on a missing file sends the same 404 as GET, body "File not found"
  included.
- HEAD's Content-Length is the file size cast to `int`, so a file of 2^31
  bytes or more is announced with a wrapped value.
- `split(" ")` drops trailing empty tokens, so a request line followed by
  spaces is accepted.
- A negative Content-Length parses. PUT then copies nothing and the file
  is truncated.
- A write failure in PUT answers 500 and leaves the bytes already written
  in the file.

## Model

| member | source | states |
|---|---|---|
| Text.Trim | server/WebServer.java:293 | no contract of its own; Text.TrimShape states it |
| Text.TrimShape | server/WebServer.java:293 | `trim()` is the infix left after removing every char at or below U+0020 from both ends; the result neither starts nor ends with such a char |
| Text.ToLower | server/WebServer.java:114 | lower-casing keeps the length and maps each char through ASCII lower case |
| Text.IndexOf | server/WebServer.java:112 | `indexOf` is -1 exactly when the char is absent, otherwise the first position holding it |
| Text.LastIndexOf | server/WebServer.java:308 | `lastIndexOf` is -1 exactly when the char is absent, otherwise the last position holding it |
| Text.Split | server/WebServer.java:86 | no contract of its own; Text.Pieces, Text.DropTrailingEmpty, Text.SplitThree and Text.SplitThreeShape state it |
| Text.Pieces | server/WebServer.java:86 | cutting at every space gives space-free tokens that join back with single spaces to the line |
| Text.DropTrailingEmpty | server/WebServer.java:86 | `split` removes exactly the trailing empty tokens and keeps the prefix in order |
| Text.SplitThree | server/WebServer.java:86-94 | three space-free tokens, the last non-empty, followed by any number of spaces, split into exactly those three tokens |
| Text.SplitThreeShape | server/WebServer.java:86-94 | conversely, a line that splits into three tokens is those tokens joined by single spaces and followed only by spaces |
| Text.ParseInt | server/WebServer.java:142 | `Integer.parseInt` succeeds only on a sign-or-digit start and only with a 32-bit value |
| Text.ShowNat | server/WebServer.java:245 | a length is printed as a non-empty run of decimal digits |
| Text.ShowNatCanonical | server/WebServer.java:245 | the printed digits are canonical: they start with '0' exactly when the number is zero |
| Text.ShowInt | server/WebServer.java:242-245 | no contract of its own; Text.ParseShowInt states it (and Text.ShowNat, Text.ShowNatCanonical for the digits after the sign) |
| Text.ParseShowInt | server/WebServer.java:142 | `parseInt` reads back every 32-bit value the server prints |
| Text.Int32Wrap | server/WebServer.java:186-188 | the `(int)` cast gives the 32-bit value congruent to the size modulo 2^32, the size itself when it fits |
| Config.MimeTypes.constructor | server/config/MimeTypes.java:35-37 | a new registry is empty, so every lookup gives application/octet-stream |
| Config.MimeTypes.GetDefault | server/config/MimeTypes.java:19-33 | the default registry holds exactly the nine listed mappings |
| Config.MimeTypes.AddMimeType | server/config/MimeTypes.java:39-44 | adds or overrides one mapping; every other lookup is unchanged |
| Config.MimeTypes.GetMimeTypeFromExtension | server/config/MimeTypes.java:46-52 | the mapped type for a known extension, application/octet-stream for any other |
| Config.DefaultLookup | server/config/MimeTypes.java:19-33 | lookup in the default registry, case by case, with the fallback for everything else |
| Config.DefaultFallbacks | server/config/MimeTypes.java:50-52 | lookup is case-sensitive ("PNG" is unmapped) and the empty extension is unmapped |
| Config.OverrideExample | server/config/MimeTypes.java:39-44 | overriding "txt" on the default registry changes its lookup, and "png" still maps to image/png |
| Framing.SendResponse | server/WebServer.java:238-253 | the head is Date, Content-Type and Content-Length in that order; the body is sent unless the status is 204 |
| Framing.SendText | server/WebServer.java:231-233 | the text/plain overload announces the message length, so every non-204 answer is consistently framed |
| Framing.SendUnauthorized | server/WebServer.java:258-266 | the 401 carries the Basic realm challenge and Content-Length 0, no Content-Type and no body |
| Framing.PrintedHead | server/WebServer.java:241-246 | the head printed for a response is exactly "HTTP/1.1 status reason", "Date: d", "Content-Type: t", "Content-Length: n" and a blank line |
| Framing.PrintedUnauthorizedHead | server/WebServer.java:259-264 | the 401 head printed is exactly "HTTP/1.1 401 Unauthorized", "Date: d", "WWW-Authenticate: Basic realm=...", "Content-Length: 0" and a blank line |
| Requests.CheckRequestLine | server/WebServer.java:80-100 | 400 exactly for a missing, empty or not-three-token line (with the two messages), 505 exactly for a wrong third token, otherwise the tokens of a well-formed line |
| Requests.AcceptsWellFormedLine | server/WebServer.java:86-100 | every space-free method and target followed by HTTP/1.1 is accepted |
| Requests.HeaderEnd | server/WebServer.java:103-107 | the header loop stops at the first empty line or at the end of the stream |
| Requests.ReadHeaderLines | server/WebServer.java:103-107 | the loop collects exactly the lines before the first empty one and reports whether the stream ended first |
| Requests.HeaderField | server/WebServer.java:112-117 | a line contributes nothing exactly when it has no colon or starts with one |
| Requests.HeaderFieldSplit | server/WebServer.java:112-116 | a contributing line is cut at its first colon: name trimmed then lower-cased, value trimmed |
| Requests.HeaderMap | server/WebServer.java:110-118 | no contract of its own; Requests.HeaderMapStep, Requests.HeaderMapLastWins and Requests.IgnoredLine state it |
| Requests.ParseHeaders | server/WebServer.java:110-118 | the map loop builds the header map of its lines |
| Requests.HeaderMapStep | server/WebServer.java:111-117 | one more line extends the map by that line's field, or leaves it as it was |
| Requests.FieldMapLastWins | server/WebServer.java:116 | a name is in the map exactly when some field has it, with the value of the last such field |
| Requests.HeaderMapLastWins | server/WebServer.java:110-118 | a header name is present exactly when some line contributes it; the last such line wins and no later line names it |
| Requests.IgnoredLine | server/WebServer.java:113 | a line without a colon past position 0 leaves the map unchanged |
| Requests.ContentLength | server/WebServer.java:139-146 | the length is the parsed header value, or 0 when it is absent or does not parse; always a 32-bit value |
| Requests.ContentLengthLine | server/WebServer.java:139-146 | a "Content-Length: n" line as the server prints it is read back as n |
| Auth.IsValidUser | server/WebServer.java:289-301 | the scan answers true exactly when some password line equals the credentials, both trimmed |
| Auth.Verdict | server/WebServer.java:271-284 | false without the Basic scheme, no answer when decoding throws, otherwise true exactly when the decoded token is a password line |
| Auth.CheckAuth | server/WebServer.java:271-284 | the method gives the verdict |
| Auth.BasicSchemeIgnoresCase | server/WebServer.java:275-276 | the scheme test ignores the case of "basic" but needs a plain space after it |
| Auth.BasicHeaderJudged | server/WebServer.java:275-283 | "Basic token" is judged by the decoded trimmed token alone |
| Auth.Authenticate | server/WebServer.java:124-136 | no password file means no check; otherwise a missing header, a rejected one, an accepted one and a decode failure, each exactly characterised |
| WebServer.FileName | server/WebServer.java:307 | the name is the slash-free suffix of the path that starts right after the path's last '/' |
| WebServer.NameAfterLastSlash | server/WebServer.java:307 | the name is the whole path exactly when the path has no '/', and otherwise is preceded by a '/' |
| WebServer.AfterLastDot | server/WebServer.java:308-309 | the text after a name's last dot: dot-free, the suffix right after that dot, and "" when the name has no dot |
| WebServer.FileExtension | server/WebServer.java:306-310 | "" when the name has no dot, otherwise the dot-free text after the name's last dot |
| WebServer.ExtensionOfName | server/WebServer.java:306-310 | a file stem.ext in any directory has extension ext, as typed |
| WebServer.DirectoryDotIgnored | server/WebServer.java:307-309 | a dot in a directory name gives no extension |
| WebServer.Decide | server/WebServer.java:75-160 | no contract of its own; ServerLaws.BadRequestGate, ServerLaws.VersionGate, ServerLaws.AnswerStatuses, ServerLaws.SilentOnlyOnThrow, ServerLaws.OnlyPutAndDeleteWrite and ServerLaws.ContentLengthMatchesBody state it |
| WebServer.Admit | server/WebServer.java:102-155 | no contract of its own; ServerLaws.AdmitStatuses and ServerLaws.AdmittedDispatches state it |
| WebServer.Dispatch | server/WebServer.java:148-155 | no contract of its own; ServerLaws.DispatchStatuses, ServerLaws.DispatchWrites, ServerLaws.DispatchSilent and ServerLaws.DispatchConsistent state it |
| WebServer.GetOutcome | server/WebServer.java:165-175 | no contract of its own; ServerLaws.MissingFileNotFound, ServerLaws.GetServesFile and ServerLaws.DispatchSilent state it |
| WebServer.HeadOutcome | server/WebServer.java:180-189 | no contract of its own; ServerLaws.HeadAnnouncesSize, ServerLaws.HeadMirrorsGet and ServerLaws.HeadSizeWraps state it |
| WebServer.PutOutcome | server/WebServer.java:194-209 | no contract of its own; ServerLaws.PutStoresBody and ServerLaws.PutThenGet state it |
| WebServer.DeleteOutcome | server/WebServer.java:214-226 | no contract of its own; ServerLaws.DeleteRemovesFile and ServerLaws.DeleteThenGet state it |
| WebServer.Copied | server/WebServer.java:197-204 | PUT writes the low byte of each unit read, at most Content-Length of them and fewer when the stream ends |
| WebServer.HandleGet | server/WebServer.java:165-175 | the GET handler answers as the GET outcome |
| WebServer.HandleHead | server/WebServer.java:180-189 | the HEAD handler answers as the HEAD outcome |
| WebServer.HandlePut | server/WebServer.java:194-209 | the copy loop stores what the PUT outcome stores, including the partial file when a write throws |
| WebServer.HandleDelete | server/WebServer.java:214-226 | the DELETE handler answers as the DELETE outcome |
| WebServer.HandleRequest | server/WebServer.java:75-100 | the method answers exactly as the decision for the request |
| WebServer.Serve | server/WebServer.java:102-155 | after an accepted request line, the reader loops, the gate and the switch answer as the decision's admission step |
| WebServer.ReadContentLength | server/WebServer.java:139-146 | the mutable content length ends as the header's length |
| WebServer.Switch | server/WebServer.java:148-155 | the switch answers as the dispatch |
| ServerLaws.AdmittedDispatches | server/WebServer.java:148-155 | an accepted and admitted request is answered by the switch alone |
| ServerLaws.DispatchStatuses | server/WebServer.java:149-155 | the switch answers only 200, 201, 204, 404, 405 or 500, and 405 exactly for a method other than the four |
| ServerLaws.BadRequestGate | server/WebServer.java:80-90 | 400 exactly for a malformed request line, with nothing else consulted and the files unchanged |
| ServerLaws.VersionGate | server/WebServer.java:96-100 | 505 exactly for a three-token line whose version is not HTTP/1.1, before any header is read |
| ServerLaws.AnswerStatuses | server/WebServer.java:79-136 | which stage produces 400, 505, 401 and 403, each as an if-and-only-if, and silence on a decode failure |
| ServerLaws.AdmitStatuses | server/WebServer.java:123-136 | after the request line, 401 exactly for missing credentials and 403 exactly for rejected ones |
| ServerLaws.MissingCredentialsChallenge | server/WebServer.java:125-130 | a gated directory without an Authorization header gets the 401 challenge, whatever the method |
| ServerLaws.InvalidCredentialsForbidden | server/WebServer.java:131-135 | a gated directory with rejected credentials gets 403, whatever the method |
| ServerLaws.UnsupportedMethodGate | server/WebServer.java:149-154 | 405 exactly for an admitted request with another method; the gate runs first |
| ServerLaws.NoPasswordFileNoAuth | server/WebServer.java:124-136 | without a password file the decoder is irrelevant and neither 401 nor 403 occurs |
| ServerLaws.SilentOnlyOnThrow | server/WebServer.java:75-160 | no response only when Base64 decoding throws or a GET of an existing file cannot be read |
| ServerLaws.DispatchSilent | server/WebServer.java:165-175 | the switch is silent exactly for a GET of an existing, unreadable file |
| ServerLaws.OnlyPutAndDeleteWrite | server/WebServer.java:148-155 | the files change only through an admitted PUT or DELETE |
| ServerLaws.RejectedKeepsFiles | server/WebServer.java:79-136 | a request stopped before the switch leaves the files alone and is framed consistently |
| ServerLaws.DispatchWrites | server/WebServer.java:149-155 | only the PUT and DELETE handlers change the files |
| ServerLaws.MissingFileNotFound | server/WebServer.java:165-226 | GET, HEAD and DELETE of a missing file give the same 404 with "File not found" and nothing changes |
| ServerLaws.GetServesFile | server/WebServer.java:165-175 | GET of a readable file answers 200 with its bytes, its registry type and its byte count |
| ServerLaws.HeadMirrorsGet | server/WebServer.java:180-189 | HEAD has GET's status and headers and sends no body for an existing file; on a missing file it is GET's 404 |
| ServerLaws.HeadAnnouncesSize | server/WebServer.java:180-189 | HEAD of any existing file, readable or not, answers 200 with no body, the files unchanged, GET's content type and the file size cast to int as Content-Length |
| ServerLaws.HeadSizeWraps | server/WebServer.java:186-188 | corollary for one size: a file of 2^31 bytes is announced with Content-Length -2147483648 |
| ServerLaws.PutStoresBody | server/WebServer.java:194-209 | PUT answers 201 exactly when no write fails, storing the copied bytes; 500 otherwise, with the partial file; other files untouched |
| ServerLaws.DeleteRemovesFile | server/WebServer.java:214-226 | DELETE of an existing file answers 204 with no body and the file gone, or 500 with the file kept |
| ServerLaws.ContentLengthMatchesBody | server/WebServer.java:238-253 | every response announces the number of body bytes it sends, except HEAD's 200 |
| ServerLaws.DispatchConsistent | server/WebServer.java:149-155 | the switch's answers are framed consistently, except HEAD's 200 |
| ServerLaws.ClientRequest | server/WebServer.java:75-155 | a request a client writes, with credentials the gate admits, is answered exactly as the switch answers its method, target and Content-Length |
| ServerLaws.RequestLinesParse | server/WebServer.java:80-107 | a request written by a client parses back to its method, target and header lines |
| ServerLaws.PutStores | server/WebServer.java:194-205 | an admitted PUT with a matching Content-Length stores the body and answers 201 |
| ServerLaws.PutThenGet | server/WebServer.java:165-209 | PUT of a body then GET of the same target answers 201 then 200 with exactly that body, empty included, with the same `.password` input for both requests |
| ServerLaws.CopiedBytes | server/WebServer.java:197-204 | units that fit in a byte are copied unchanged |
| ServerLaws.GetServes | server/WebServer.java:165-175 | an admitted GET of a readable file answers 200 with its bytes and changes nothing |
| ServerLaws.DeleteThenGet | server/WebServer.java:214-226 | DELETE of an existing file answers 204, and a later GET of the same target answers 404 |

## Left out

- The accept loop, the thread pool, sockets and `close()`: one request is modelled, with no concurrency. Races between requests on the same file are not modelled.
- The Date header's value is a parameter. `SimpleDateFormat` and the clock are not modelled.
- The document root and `new File(root, path)` are a parameter `resolve`. Directories, `..` segments and path canonicalisation are not modelled. `resolve` stands for the path string of `new File(root, path)`; `getName` is the text after its last `/`, which is "" when that path ends in `/`, as `new File(root, "/")` does.
- The existence of `.password` and its lines are one input. A read failure partway through behaves as the lines read before it. The model does not look the file up in the served files.
- `Base64.getDecoder().decode` and `new String(bytes)` are one parameter, `decode`. It gives no value where Java throws `IllegalArgumentException`.
- Charsets are not modelled. The server's own messages are ASCII and are sent one byte per char.
- ServerLaws.ContentLengthMatchesBody: holds for GET only under the identity assumption on the next line. For a binary file, such as a `.png`, under a UTF-8 platform charset, Java announces the file's byte count (server/WebServer.java:174) but writes the re-encoded bytes (server/WebServer.java:250), which can differ in number.
- WebServer.HandleGet: the body is the file's bytes. `new String(bytes).getBytes()` is taken as the identity, which holds only when the file is valid text in the platform charset.
- The reader's decoding of request bytes into chars is not modelled. The request arrives as lines and as the UTF-16 units after the blank line.
- Text.ToLower: lower-cases ASCII letters only, not the full Unicode mapping of `toLowerCase`, and not the default locale it uses. In a Turkish locale "AUTHORIZATION" becomes "authorızatıon" (dotless ı), so the header is not found, and "BASIC " fails the scheme test (server/WebServer.java:114, 275-276); the model behaves as in a locale without such rules.
- Text.ParseInt: accepts ASCII digits only, not the other Unicode digits `Integer.parseInt` accepts.
- The head is modelled as its printed lines (Framing.HeadLines). `println`'s line separator, which is platform dependent, is not modelled.
- IOExceptions while writing to the socket are not modelled. This includes a failed 201 write inside PUT's try block, which Java turns into a 500.
- An IOException from `in.read()` inside PUT's try block (server/WebServer.java:198) is not modelled. Java answers 500 and leaves the bytes already written (server/WebServer.java:206-207); the model treats a short body as an earlier end of stream and answers 201.
- An IOException while reading the request line or the header lines (server/WebServer.java:80, 105) is not modelled. Java sends nothing (server/WebServer.java:157-158); the model treats it as an earlier end of stream.
- A failure of `FileOutputStream.close()` in PUT is not modelled.
- Logging to standard error and `OutOfMemoryError` on huge files are not modelled.
- ServerLaws.PutThenGet: assumes every unit of the body fits in a byte and the PUT carries a Content-Length equal to the body length. For other units `fos.write` keeps only the low 8 bits; see WebServer.Copied. The GET side also relies on `new String(bytes).getBytes()` being the identity (see WebServer.HandleGet), so a body with bytes at or above 0x80 need not come back byte for byte under a UTF-8 platform charset. It also holds the `.password` input fixed across both requests, so it does not apply when the target is the directory's own `.password` file: in Java that PUT installs the gate (server/WebServer.java:124-125, 195), and the GET then meets it and may be answered 401 or 403 instead of 200 (server/WebServer.java:127-135).
- ServerLaws.HeadMirrorsGet: holds for files of at most 2^31 - 1 bytes and a readable file system. Larger files and unreadable file systems are covered by ServerLaws.HeadAnnouncesSize.
