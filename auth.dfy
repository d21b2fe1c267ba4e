/** Basic authentication (section 2 of RFC 7617) against a directory's
    .password file: checkAuth, isValidUser and the gate of handleRequest. */
module Auth {
  import opened Wrappers
  import opened Text

  /** The outcome of the gate for one request. DecodeFailure is the Base64
      decoder throwing IllegalArgumentException, which no handler catches. */
  datatype AuthDecision =
    | NoAuthRequired
    | MissingCredentials
    | InvalidCredentials
    | Authorized
    | DecodeFailure

  const Scheme: string := "basic "

  /** The scheme test: the lower-cased header starts with "basic ". */
  predicate HasBasicScheme(header: string) {
    StartsWith(ToLower(header), Scheme)
  }

  /** Some password-file line equals the credentials once both are trimmed. */
  predicate ValidUser(credentials: string, lines: seq<string>) {
    exists i :: 0 <= i < |lines| && Trim(lines[i]) == Trim(credentials)
  }

  /** isValidUser: scan the lines in order and stop at the first match. */
  method IsValidUser(credentials: string, lines: seq<string>) returns (valid: bool)
    ensures valid <==> ValidUser(credentials, lines)
  {
    var wanted := Trim(credentials);
    var i := 0;
    while i < |lines|
      invariant 0 <= i <= |lines|
      invariant forall j :: 0 <= j < i ==> Trim(lines[j]) != wanted
    {
      if Trim(lines[i]) == wanted {
        assert Trim(lines[i]) == Trim(credentials);
        return true;
      }
      i := i + 1;
    }
    return false;
  }

  /** The Base64 text after the six characters of the scheme, trimmed. */
  function Token(header: string): string
    requires |header| >= |Scheme|
  {
    Trim(header[|Scheme|..])
  }

  /** What checkAuth answers: None when decoding throws, otherwise whether
      the header has the Basic scheme and its decoded credentials are a
      line of the password file. */
  function Verdict(header: string, decode: string -> Option<string>, lines: seq<string>): (r: Option<bool>)
    ensures !HasBasicScheme(header) ==> r == Some(false)
    ensures r.None? <==> HasBasicScheme(header) && decode(Token(header)).None?
    ensures r == Some(true) <==>
      HasBasicScheme(header) && decode(Token(header)).Some? && ValidUser(decode(Token(header)).value, lines)
  {
    if !HasBasicScheme(header) then Some(false)
    else
      match decode(Token(header))
      case None => None
      case Some(credentials) => Some(ValidUser(credentials, lines))
  }

  /** checkAuth, calling isValidUser for the scan. */
  method CheckAuth(header: string, decode: string -> Option<string>, lines: seq<string>)
    returns (r: Option<bool>)
    ensures r == Verdict(header, decode, lines)
  {
    var lower := ToLower(header);
    if !StartsWith(lower, Scheme) {
      return Some(false);
    }
    var decoded := decode(Token(header));
    if decoded.None? {
      return None;
    }
    var valid := IsValidUser(decoded.value, lines);
    return Some(valid);
  }

  /** The scheme test ignores the case of the five letters and nothing else:
      the sixth character must be a plain space. */
  lemma {:induction false} BasicSchemeIgnoresCase(header: string)
    ensures HasBasicScheme(header) <==>
      |header| >= 6 && header[5] == ' '
      && LowerChar(header[0]) == 'b' && LowerChar(header[1]) == 'a' && LowerChar(header[2]) == 's'
      && LowerChar(header[3]) == 'i' && LowerChar(header[4]) == 'c'
  {
    if |header| >= 6 {
      var lower := ToLower(header);
      assert LowerChar(header[5]) == ' ' <==> header[5] == ' ';
      if HasBasicScheme(header) {
        assert lower[..6] == "basic ";
        assert lower[5] == lower[..6][5];
      }
    }
  }

  /** A header "Basic <token>" is judged by the decoded token alone: the
      answer is whether some password line matches it. */
  lemma BasicHeaderJudged(token: string, decode: string -> Option<string>, lines: seq<string>)
    requires decode(Trim(token)).Some?
    ensures Verdict("Basic " + token, decode, lines) == Some(ValidUser(decode(Trim(token)).value, lines))
  {
    var header := "Basic " + token;
    BasicSchemeIgnoresCase(header);
    assert header[|Scheme|..] == token;
  }

  /** The gate of step 6: with a password file, a missing header is 401
      material, a rejected one 403 material; without one, nothing is asked. */
  function Authenticate(headers: map<string, string>, password: Option<seq<string>>,
                        decode: string -> Option<string>): (d: AuthDecision)
    ensures password.None? <==> d == NoAuthRequired
    ensures d == MissingCredentials <==> password.Some? && "authorization" !in headers
    ensures d == Authorized <==>
      password.Some? && "authorization" in headers
      && Verdict(headers["authorization"], decode, password.value) == Some(true)
    ensures d == InvalidCredentials <==>
      password.Some? && "authorization" in headers
      && Verdict(headers["authorization"], decode, password.value) == Some(false)
    ensures d == DecodeFailure <==>
      password.Some? && "authorization" in headers
      && Verdict(headers["authorization"], decode, password.value).None?
  {
    match password
    case None => NoAuthRequired
    case Some(lines) =>
      if "authorization" !in headers then MissingCredentials
      else
        match Verdict(headers["authorization"], decode, lines)
        case None => DecodeFailure
        case Some(true) => Authorized
        case Some(false) => InvalidCredentials
  }
}
