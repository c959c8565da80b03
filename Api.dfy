/** The client's shared HTTP instance: the request interceptor that copies
    the `token` cookie into a bearer Authorization header, and the response
    interceptor that clears the session on 401 and announces every failure
    with one message. */
module Api {
  import opened Common
  import AuthMiddleware

  const TokenPrefix: string := "token="
  const SessionExpired: string := "Your session has expired. Please log in again."
  const ServerError: string := "Server error. Please try again later."
  const NotFound: string := "The requested resource was not found."
  const DefaultError: string := "An error occurred"
  const NetworkError: string := "Network error. Please check your connection."
  const UnexpectedError: string := "An unexpected error occurred."

  /** `rows.findIndex(row => row.startsWith(prefix))` */
  function FindFirst(rows: seq<string>, prefix: string): (k: int)
    ensures k == -1 <==> forall i :: 0 <= i < |rows| ==> !StartsWith(rows[i], prefix)
    ensures k != -1 ==> 0 <= k < |rows| && StartsWith(rows[k], prefix) &&
                        forall i :: 0 <= i < k ==> !StartsWith(rows[i], prefix)
  {
    if rows == [] then -1
    else if StartsWith(rows[0], prefix) then 0
    else
      var k := FindFirst(rows[1..], prefix);
      if k == -1 then -1 else k + 1
  }

  /** A row starting with "token=" splits at "=" into "token" and at least one more piece. */
  lemma TokenRowSplits(row: string)
    requires StartsWith(row, TokenPrefix)
    ensures |Split(row, "=")| >= 2 && Split(row, "=")[0] == "token"
    ensures Split(row, "=")[1..] == Split(row[6..], "=")
  {
    assert OccursAt(row, "=", 5);
    forall i | 0 <= i < 5 ensures !OccursAt(row, "=", i) {
      assert row[i] == TokenPrefix[i];
    }
    assert IndexOf(row, "=") == 5;
  }

  /** The token read from the cookie's "; "-separated entries: the first
      entry starting with "token=", cut at its next "=". */
  function TokenOf(rows: seq<string>): (t: Option<string>)
    ensures t.None? <==> forall i :: 0 <= i < |rows| ==> !StartsWith(rows[i], TokenPrefix)
    ensures t.Some? ==> !Contains(t.value, "=")
    ensures t.Some? ==> exists k :: 0 <= k < |rows| && StartsWith(rows[k], TokenPrefix) &&
                         (forall i :: 0 <= i < k ==> !StartsWith(rows[i], TokenPrefix)) &&
                         |Split(rows[k], "=")| >= 2 && t.value == Split(rows[k], "=")[1]
  {
    var k := FindFirst(rows, TokenPrefix);
    if k == -1 then None
    else
      TokenRowSplits(rows[k]);
      SplitPiecesFree(rows[k], "=", 1);
      Some(Split(rows[k], "=")[1])
  }

  /** `document.cookie.split('; ')...` on the whole cookie string. */
  function CookieToken(cookie: string): Option<string> {
    TokenOf(Split(cookie, "; "))
  }

  lemma NoOccurrence(s: string, c: char, sub: string)
    requires |sub| >= 1 && sub[0] == c && forall i :: 0 <= i < |s| ==> s[i] != c
    ensures !Contains(s, sub)
  {
    forall i | 0 <= i <= |s| ensures !OccursAt(s, sub, i) {
      if i + |sub| <= |s| {
        assert s[i..i + |sub|][0] == s[i];
      }
    }
  }

  /** A cookie string holding only the token round-trips: "token=" followed by
      a value without "=" or ";" reads back as that value. */
  lemma CookieTokenRoundTrip(t: string)
    requires forall i :: 0 <= i < |t| ==> t[i] != '=' && t[i] != ';'
    ensures CookieToken(TokenPrefix + t) == Some(t)
  {
    var row := TokenPrefix + t;
    forall i | 0 <= i < |row| ensures row[i] != ';' {
      if i >= 6 {
        assert row[i] == t[i - 6];
      }
    }
    NoOccurrence(row, ';', "; ");
    assert Split(row, "; ") == [row];
    assert StartsWith(row, TokenPrefix);
    TokenRowSplits(row);
    assert row[6..] == t;
    NoOccurrence(t, '=', "=");
    assert Split(t, "=") == [t];
  }

  /** The Authorization header the request interceptor adds, if any. */
  function AuthorizationFor(token: Option<string>): (h: Option<string>)
    ensures h.Some? <==> Truthy(token)
    ensures h.Some? ==> h.value == AuthMiddleware.BearerPrefix + token.value
  {
    if Truthy(token) then Some(AuthMiddleware.BearerPrefix + token.value) else None
  }

  /** The header the client builds is the one the server's middleware reads
      back: with no cookie on the request, the server selects the same token. */
  lemma HeaderReachesServer(token: string)
    requires token != "" && forall i :: 0 <= i < |token| ==> token[i] != ' '
    ensures AuthMiddleware.SelectToken(None, AuthorizationFor(Some(token))) == Some(token)
  {
    AuthMiddleware.BearerHeaderYieldsToken(token);
  }

  /** How a request failed: a reply with its status and `data.message`, no
      reply at all, or an error while setting the request up. */
  datatype Failure = Response(status: int, message: Option<string>) | NoResponse | SetupError

  /** The message announced for a failure other than a 401 reply. */
  function FailureMessage(f: Failure): (m: Option<string>)
    ensures m.None? <==> f.Response? && f.status == 401
    ensures f.Response? && f.status >= 500 ==> m == Some(ServerError)
    ensures f.Response? && f.status == 404 ==> m == Some(NotFound)
    ensures f.Response? && f.status < 500 && f.status != 404 && f.status != 401 ==>
              m == Some(OrElse(f.message, DefaultError))
    ensures f.NoResponse? ==> m == Some(NetworkError)
    ensures f.SetupError? ==> m == Some(UnexpectedError)
  {
    match f
    case Response(status, message) =>
      if status >= 500 then Some(ServerError)
      else if status == 404 then Some(NotFound)
      else if status != 401 then Some(OrElse(message, DefaultError))
      else None
    case NoResponse => Some(NetworkError)
    case SetupError => Some(UnexpectedError)
  }

  /** The request configuration the interceptor edits in place. */
  class RequestConfig {
    var authorization: Option<string>

    constructor (authorization: Option<string>)
      ensures this.authorization == authorization
    {
      this.authorization := authorization;
    }
  }

  /** The browser state the interceptors read and write: the cookie entries,
      the current path and the module-level "toast already shown" flag. */
  class Session {
    var cookies: seq<string>
    var pathname: string
    var unauthorizedToastShown: bool

    constructor (cookies: seq<string>, pathname: string)
      ensures this.cookies == cookies && this.pathname == pathname && !unauthorizedToastShown
    {
      this.cookies := cookies;
      this.pathname := pathname;
      unauthorizedToastShown := false;
    }

    /** The request interceptor: a bearer header when the cookie holds a
        non-empty token, the configuration untouched otherwise. */
    method AddToken(config: RequestConfig)
      modifies config
      ensures Truthy(TokenOf(cookies)) ==> config.authorization == AuthorizationFor(TokenOf(cookies))
      ensures !Truthy(TokenOf(cookies)) ==> config.authorization == old(config.authorization)
    {
      var token := TokenOf(cookies);
      if Truthy(token) {
        config.authorization := Some(AuthMiddleware.BearerPrefix + token.value);
      }
    }

    /** The response interceptor's error path. A 401 reply deletes the token
        cookie and, away from the sign-in page, goes there; only the first
        such reply of the page load is announced. Any other failure is
        announced once with its message. */
    method OnError(f: Failure) returns (toast: Option<string>)
      modifies this
      ensures f.Response? && f.status == 401 ==>
        cookies == WithoutToken(old(cookies)) &&
        (Contains(old(pathname), "/login") ==> pathname == old(pathname) && toast.None? &&
                                               unauthorizedToastShown == old(unauthorizedToastShown)) &&
        (!Contains(old(pathname), "/login") ==> pathname == "/login" && unauthorizedToastShown &&
                                                toast == (if old(unauthorizedToastShown) then None else Some(SessionExpired)))
      ensures !(f.Response? && f.status == 401) ==>
        toast == FailureMessage(f) && cookies == old(cookies) && pathname == old(pathname) &&
        unauthorizedToastShown == old(unauthorizedToastShown)
    {
      toast := None;
      if f.Response? && f.status == 401 {
        cookies := WithoutToken(cookies);
        if !Contains(pathname, "/login") {
          if !unauthorizedToastShown {
            toast := Some(SessionExpired);
            unauthorizedToastShown := true;
          }
          pathname := "/login";
        }
      } else {
        toast := FailureMessage(f);
      }
    }
  }

  /** The cookie entries left after the token cookie is expired. */
  function WithoutToken(rows: seq<string>): (r: seq<string>)
    ensures forall i :: 0 <= i < |r| ==> !StartsWith(r[i], TokenPrefix)
    ensures forall x :: x in r <==> x in rows && !StartsWith(x, TokenPrefix)
  {
    if rows == [] then []
    else (if StartsWith(rows[0], TokenPrefix) then [] else [rows[0]]) + WithoutToken(rows[1..])
  }

  /** Once a 401 reply has cleared the session, no later request carries a token. */
  lemma ClearedSessionSendsNoToken(rows: seq<string>)
    ensures TokenOf(WithoutToken(rows)).None?
    ensures AuthorizationFor(TokenOf(WithoutToken(rows))).None?
  {
  }
}
