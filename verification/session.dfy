/**
 * The request middlewares. functions/_middleware.ts exports `onRequest`
 * twice: the first is a bare allowlist that falls off its end for every
 * other path (the gating it announces is not written); the second, which
 * Functions/_middleware.ts repeats word for word, checks the Supabase
 * session. The origin of the request URL, the `Cookie` header, the calls the
 * Supabase client makes on the cookie methods and whether `getUser` finds a
 * user are inputs; `next()`'s response is the object `downstream`.
 */
module Session {
  import opened Wrappers
  import opened Strings
  import opened Http
  import opened Cookies
  import opened SupabaseCookies

  /** What the first `onRequest` returns: `next()`, or `undefined` when it falls off its end. */
  datatype FirstResult = Next | Undefined

  /** The paths the first `onRequest` lets through. */
  predicate AlwaysAllowed(path: string)
  {
    || StartsWith(path, "/api/")
    || StartsWith(path, "/auth/")
    || path == "/login"
    || path == "/"
    || '.' in path
  }

  /** The first `onRequest`: a chain of early returns, and nothing after them. */
  function FirstOnRequest(path: string): (r: FirstResult)
    ensures r == Next <==> AlwaysAllowed(path)
  {
    if StartsWith(path, "/api/") then Next
    else if StartsWith(path, "/auth/") then Next
    else if path == "/login" then Next
    else if path == "/" then Next
    else if '.' in path then Next
    else Undefined
  }

  /** The paths the session check leaves public. */
  predicate Bypass(path: string)
  {
    StartsWith(path, "/login") || StartsWith(path, "/auth/callback")
  }

  /** Where a request without a session is sent. */
  function LoginUrl(origin: string): string
  {
    origin + "/login/"
  }

  /** How the session middleware ends. */
  datatype Decision =
    | PassThrough           // `return context.next()` before any session work
    | Threw                 // the handler threw: `parseCookies` on a malformed escape, or `append` on immutable headers
    | Redirect(location: string)  // `Response.redirect(location, 302)`
    | Served                // `next()`'s response, with the collected cookies appended

  /** The session middleware's decision. */
  function SessionDecision(path: string, origin: string, cookieHeader: Option<string>, hasUser: bool): Decision
  {
    if Bypass(path) then PassThrough
    else if CookieMap(cookieHeader).None? then Threw
    else if !hasUser then Redirect(LoginUrl(origin))
    else Served
  }

  /**
   * How the handler ends once the downstream response is known: a served
   * request whose cookie calls wrote lines throws when `next()` returned a
   * response with immutable headers.
   */
  function SessionOutcome(path: string, origin: string, cookieHeader: Option<string>, ops: seq<CookieOp>,
                          hasUser: bool, downstreamImmutable: bool): Decision
  {
    var d := SessionDecision(path, origin, cookieHeader, hasUser);
    if d == Served && downstreamImmutable && ops != [] then Threw else d
  }

  /**
   * The second `onRequest` of functions/_middleware.ts and the `onRequest`
   * of Functions/_middleware.ts. Only a served request touches the
   * downstream response, and then only by appending one `Set-Cookie` per
   * cookie call, in call order.
   */
  method OnRequest(path: string, origin: string, cookieHeader: Option<string>, ops: seq<CookieOp>,
                   hasUser: bool, downstream: Response) returns (d: Decision)
    modifies downstream
    ensures d == SessionOutcome(path, origin, cookieHeader, ops, hasUser, downstream.immutable)
    ensures d == Served ==> downstream.headers == old(downstream.headers) + SetCookieHeaders(CookieLines(ops, false))
    ensures d != Served ==> downstream.headers == old(downstream.headers)
  {
    if StartsWith(path, "/login") || StartsWith(path, "/auth/callback") {
      return PassThrough;
    }
    var requestCookies := ParseCookies(cookieHeader);
    if requestCookies.None? {
      return Threw;
    }
    var jar := new CookieJar(requestCookies.value, false);
    Replay(jar, ops);
    if !hasUser {
      return Redirect(LoginUrl(origin));
    }
    var ok := AppendSetCookies(downstream, jar.setCookies);
    if !ok {
      return Threw;
    }
    return Served;
  }

  /**
   * Whatever follows them, paths under `/api/` and `/auth/` pass the first
   * allowlist; the callback's paths pass both middlewares.
   */
  lemma FirstAllowsPrefixes(s: string)
    ensures FirstOnRequest("/api/" + s) == Next
    ensures FirstOnRequest("/auth/" + s) == Next
    ensures FirstOnRequest("/auth/callback" + s) == Next && Bypass("/auth/callback" + s)
  {
    assert ("/api/" + s)[..5] == "/api/";
    assert ("/auth/" + s)[..6] == "/auth/";
    assert ("/auth/callback" + s)[..6] == "/auth/";
    assert ("/auth/callback" + s)[..14] == "/auth/callback";
  }

  /**
   * The two middlewares disagree on the whole `/login/` subtree: every path
   * there without a dot is public to the session check, while the first
   * allowlist does not pass it on.
   */
  lemma LoginSubtreeDisagrees(s: string)
    requires '.' !in s
    ensures FirstOnRequest("/login/" + s) == Undefined
    ensures Bypass("/login/" + s)
  {
    var p := "/login/" + s;
    assert p[1] == 'l';
    assert !StartsWith(p, "/api/") && !StartsWith(p, "/auth/");
    assert |p| >= 7;
    assert '.' !in p by {
      forall k | 0 <= k < |p| ensures p[k] != '.' {
        if k >= 7 {
          assert p[k] == s[k - 7];
        }
      }
    }
    assert p[..6] == "/login";
  }

  /**
   * The first allowlist admits `/login` only without a trailing slash, while
   * the session middleware redirects to `/login/`; everything else it does
   * not list comes back `undefined`.
   */
  lemma FirstAllowlistEdges()
    ensures FirstOnRequest("/login") == Next && FirstOnRequest("/") == Next
    ensures FirstOnRequest("/login/") == Undefined
    ensures FirstOnRequest("/episodes") == Undefined
    ensures FirstOnRequest("/favicon.ico") == Next && FirstOnRequest("/api/subscribe") == Next
  {
    assert '.' in "/favicon.ico" by { assert "/favicon.ico"[8] == '.'; }
    assert !StartsWith("/login/", "/api/") by { assert "/login/"[1] != "/api/"[1]; }
    assert !StartsWith("/login/", "/auth/") by { assert "/login/"[1] != "/auth/"[1]; }
    assert !StartsWith("/episodes", "/api/") by { assert "/episodes"[1] != "/api/"[1]; }
    assert !StartsWith("/episodes", "/auth/") by { assert "/episodes"[1] != "/auth/"[1]; }
  }

  /**
   * The login redirect cannot loop: its target, like every path under
   * `/login` (`/login-help` included, as the check is a prefix test), is
   * public, whatever the cookies and the session.
   */
  lemma NoRedirectLoop(origin: string, suffix: string, cookieHeader: Option<string>, hasUser: bool)
    ensures SessionDecision("/login/", origin, cookieHeader, hasUser) == PassThrough
    ensures SessionDecision("/login" + suffix, origin, cookieHeader, hasUser) == PassThrough
    ensures SessionDecision("/auth/callback" + suffix, origin, cookieHeader, hasUser) == PassThrough
  {
    assert ("/login" + suffix)[..6] == "/login";
    assert ("/auth/callback" + suffix)[..14] == "/auth/callback";
  }

  /**
   * Outside the public paths, a readable `Cookie` header and no user mean a
   * 302 to `origin/login/`; with a user the request is served.
   */
  lemma GateDecision(path: string, origin: string, cookieHeader: Option<string>, hasUser: bool)
    requires !Bypass(path) && CookieMap(cookieHeader).Some?
    ensures hasUser <==> SessionDecision(path, origin, cookieHeader, hasUser) == Served
    ensures !hasUser ==> SessionDecision(path, origin, cookieHeader, hasUser) == Redirect(origin + "/login/")
  {
  }

  /** Without a `Cookie` header the parse cannot fail: a private path is decided by the session alone. */
  lemma NoCookiesNoThrow(path: string, origin: string, hasUser: bool)
    ensures SessionDecision(path, origin, None, hasUser) != Threw
    ensures SessionDecision(path, origin, Some(""), hasUser) != Threw
  {
    EmptyHeaderShortcut();
  }
}
