/**
 * functions/auth/callback.ts: the landing page of the e-mailed login link.
 * It exchanges the `code` query parameter for a session and redirects to
 * `next`, carrying the session cookies the Supabase client set. The query
 * parameters, the `Cookie` header, the client's cookie calls, the exchange
 * error and the origin are inputs; `resolve` is `new URL(ref, base).toString()`,
 * with `None` where that constructor throws a `TypeError` on a reference it
 * cannot resolve.
 */
module AuthCallback {
  import opened Wrappers
  import opened Strings
  import opened Http
  import opened Cookies
  import opened SupabaseCookies

  /** How the callback ends. */
  datatype CallbackOutcome =
    | MissingCode              // 400 "Missing auth code"
    | Threw                    // `parseCookies` threw on a malformed escape
    | ExchangeFailed(message: string)  // 400 "Auth exchange failed: <message>"
    | BadNext                  // `new URL(next, origin)` threw a `TypeError`
    | Redirected(next: string) // 302 to `new URL(next, origin)`
    | HeadersImmutable         // `append` on the headers of `Response.redirect` threw a `TypeError`

  /** `url.searchParams.get("next") ?? "/"`: only an absent parameter defaults. */
  function NextTarget(nextParam: Option<string>): string
  {
    nextParam.GetOr("/")
  }

  /** The callback's decision, with the redirect carrying the cookies as intended. */
  function CallbackDecision(nextParam: Option<string>, code: Option<string>, cookieHeader: Option<string>,
                            exchangeError: Option<string>, origin: string,
                            resolve: (string, string) -> Option<string>): CallbackOutcome
  {
    if !Truthy(code) then MissingCode
    else if CookieMap(cookieHeader).None? then Threw
    else if exchangeError.Some? then ExchangeFailed(exchangeError.value)
    else if resolve(NextTarget(nextParam), origin).None? then BadNext
    else Redirected(NextTarget(nextParam))
  }

  /**
   * The callback as written: the redirect is built with `Response.redirect`,
   * so appending the first `Set-Cookie` to it throws.
   */
  function AsWrittenDecision(nextParam: Option<string>, code: Option<string>, cookieHeader: Option<string>,
                             ops: seq<CookieOp>, exchangeError: Option<string>, origin: string,
                             resolve: (string, string) -> Option<string>): CallbackOutcome
  {
    var d := CallbackDecision(nextParam, code, cookieHeader, exchangeError, origin, resolve);
    if d.Redirected? && ops != [] then HeadersImmutable else d
  }

  /**
   * `onRequestGet` as written. The two failures are plain 400 responses; a
   * successful exchange redirects with `Response.redirect`, whose headers
   * are immutable, so the handler throws as soon as there is a cookie line
   * to append, and redirects only when the client wrote none.
   */
  method OnRequestGet(nextParam: Option<string>, code: Option<string>, cookieHeader: Option<string>,
                      ops: seq<CookieOp>, exchangeError: Option<string>, origin: string,
                      resolve: (string, string) -> Option<string>)
    returns (outcome: CallbackOutcome, res: Response?)
    ensures outcome == AsWrittenDecision(nextParam, code, cookieHeader, ops, exchangeError, origin, resolve)
    ensures res == null <==> outcome.Threw? || outcome.BadNext? || outcome.HeadersImmutable?
    ensures res != null ==> fresh(res)
    ensures outcome.MissingCode? ==> res.status == 400 && res.body == "Missing auth code" && res.headers == []
    ensures outcome.ExchangeFailed? ==>
      res.status == 400 && res.body == "Auth exchange failed: " + outcome.message && res.headers == []
    ensures outcome.Redirected? ==>
      && resolve(outcome.next, origin).Some?
      && res.status == 302 && res.headers == [("Location", resolve(outcome.next, origin).value)]
  {
    var next := NextTarget(nextParam);
    if code.None? || code.value == "" {
      res := new Response("Missing auth code", 400, []);
      return MissingCode, res;
    }
    var requestCookies := ParseCookies(cookieHeader);
    if requestCookies.None? {
      return Threw, null;
    }
    var jar := new CookieJar(requestCookies.value, true);
    Replay(jar, ops);
    if exchangeError.Some? {
      res := new Response("Auth exchange failed: " + exchangeError.value, 400, []);
      return ExchangeFailed(exchangeError.value), res;
    }
    var location := resolve(next, origin);
    if location.None? {
      return BadNext, null;
    }
    var redirect := new Response.Redirect(location.value, 302);
    var ok := AppendSetCookies(redirect, jar.setCookies);
    if !ok {
      return HeadersImmutable, null;
    }
    return Redirected(next), redirect;
  }

  /**
   * `onRequestGet` with the redirect built as `new Response(null, { status:
   * 302, headers: { Location } })`: a 302 with its `Location`, then one
   * `Set-Cookie` per cookie call in call order, each written by the
   * serializer that adds `Expires`.
   */
  method OnRequestGetCorrected(nextParam: Option<string>, code: Option<string>, cookieHeader: Option<string>,
                               ops: seq<CookieOp>, exchangeError: Option<string>, origin: string,
                               resolve: (string, string) -> Option<string>)
    returns (outcome: CallbackOutcome, res: Response?)
    ensures outcome == CallbackDecision(nextParam, code, cookieHeader, exchangeError, origin, resolve)
    ensures res == null <==> outcome.Threw? || outcome.BadNext?
    ensures res != null ==> fresh(res)
    ensures outcome.MissingCode? ==> res.status == 400 && res.body == "Missing auth code" && res.headers == []
    ensures outcome.ExchangeFailed? ==>
      res.status == 400 && res.body == "Auth exchange failed: " + outcome.message && res.headers == []
    ensures outcome.Redirected? ==>
      && resolve(outcome.next, origin).Some?
      && res.status == 302
      && res.headers == [("Location", resolve(outcome.next, origin).value)] + SetCookieHeaders(CookieLines(ops, true))
  {
    var next := NextTarget(nextParam);
    if code.None? || code.value == "" {
      res := new Response("Missing auth code", 400, []);
      return MissingCode, res;
    }
    var requestCookies := ParseCookies(cookieHeader);
    if requestCookies.None? {
      return Threw, null;
    }
    var jar := new CookieJar(requestCookies.value, true);
    Replay(jar, ops);
    if exchangeError.Some? {
      res := new Response("Auth exchange failed: " + exchangeError.value, 400, []);
      return ExchangeFailed(exchangeError.value), res;
    }
    var location := resolve(next, origin);
    if location.None? {
      return BadNext, null;
    }
    var redirect := new Response("", 302, [("Location", location.value)]);
    var ok := AppendSetCookies(redirect, jar.setCookies);
    assert ok;
    return Redirected(next), redirect;
  }

  /**
   * The handler as written departs from the intended one exactly on a
   * successful exchange after which the client wrote a cookie.
   */
  lemma AsWrittenDeparts(nextParam: Option<string>, code: Option<string>, cookieHeader: Option<string>,
                         ops: seq<CookieOp>, exchangeError: Option<string>, origin: string,
                         resolve: (string, string) -> Option<string>)
    ensures AsWrittenDecision(nextParam, code, cookieHeader, ops, exchangeError, origin, resolve)
              != CallbackDecision(nextParam, code, cookieHeader, exchangeError, origin, resolve)
            <==> CallbackDecision(nextParam, code, cookieHeader, exchangeError, origin, resolve).Redirected? && ops != []
  {
  }

  /**
   * A login that succeeds and sets a session cookie, at any origin against
   * which `/` resolves: the intended callback redirects to `/`, the written
   * one throws at the `append`.
   */
  lemma LoginWithSessionCookieThrows(origin: string, resolve: (string, string) -> Option<string>)
    requires resolve("/", origin).Some?
    ensures var ops := [SetOp("sb-access-token", "v", CookieOptions(None, false, false, None, None, None))];
      && CallbackDecision(None, Some("c"), None, None, origin, resolve) == Redirected("/")
      && AsWrittenDecision(None, Some("c"), None, ops, None, origin, resolve) == HeadersImmutable
  {
    EmptyHeaderShortcut();
  }

  /** A missing or empty `code` is a 400 before the cookies are looked at, whatever they hold. */
  lemma MissingCodeFirst(nextParam: Option<string>, code: Option<string>, cookieHeader: Option<string>,
                         exchangeError: Option<string>, origin: string, resolve: (string, string) -> Option<string>)
    requires code.None? || code == Some("")
    ensures CallbackDecision(nextParam, code, cookieHeader, exchangeError, origin, resolve) == MissingCode
  {
  }

  /**
   * The redirect target is `next` exactly as given, `/` only when the
   * parameter is absent; nothing restricts it to this site. The only check
   * is that `new URL` can resolve it, and where it cannot the handler throws.
   */
  lemma NextUnchecked(nextParam: Option<string>, c: string, cookieHeader: Option<string>,
                      origin: string, resolve: (string, string) -> Option<string>)
    requires c != "" && CookieMap(cookieHeader).Some?
    ensures var next := if nextParam.Some? then nextParam.value else "/";
      CallbackDecision(nextParam, Some(c), cookieHeader, None, origin, resolve) ==
        if resolve(next, origin).Some? then Redirected(next) else BadNext
  {
  }

  /**
   * With a code and readable cookies, the exchange decides: its error is a
   * 400 carrying its message; after a successful exchange the callback
   * redirects, or throws where `next` does not resolve.
   */
  lemma ExchangeDecides(nextParam: Option<string>, c: string, cookieHeader: Option<string>, exchangeError: Option<string>,
                        origin: string, resolve: (string, string) -> Option<string>)
    requires c != "" && CookieMap(cookieHeader).Some?
    ensures var o := CallbackDecision(nextParam, Some(c), cookieHeader, exchangeError, origin, resolve);
      && (exchangeError.Some? ==> o == ExchangeFailed(exchangeError.value))
      && (o.Redirected? <==> exchangeError.None? && resolve(NextTarget(nextParam), origin).Some?)
      && (o.BadNext? <==> exchangeError.None? && resolve(NextTarget(nextParam), origin).None?)
  {
  }

  /**
   * The cookies of a successful callback: every `Set-Cookie` is `HttpOnly`
   * and `Secure`, is written with `Expires` exactly when the options ask for
   * it, and the values the client set parse back from the cookies' first
   * segments.
   */
  lemma CallbackCookies(ops: seq<CookieOp>)
    ensures forall i :: 0 <= i < |ops| ==>
      "HttpOnly" in LineAttributes(ops[i], true) && "Secure" in LineAttributes(ops[i], true)
    ensures forall i :: 0 <= i < |ops| ==>
      var o := if ops[i].SetOp? then ForcedOptions(ops[i].options) else RemovalOptions(ops[i].options);
      var value := if ops[i].SetOp? then ops[i].value else "";
      CookieLines(ops, true)[i] ==
        SerializeCookie(ops[i].name, value, o) + (if o.expires.Some? then "; Expires=" + o.expires.value else "")
    ensures forall i ::
      (0 <= i < |ops| && ops[i].SetOp? && ops[i].name != "" && '=' !in ops[i].name &&
       ';' !in ops[i].name && !IsWhitespace(ops[i].name[0])) ==>
        CookieMap(Some(Split(CookieLines(ops, true)[i], ';')[0])) == Some(map[ops[i].name := ops[i].value])
  {
    LinesAreForced(ops, true);
    forall i | 0 <= i < |ops|
      ensures var o := if ops[i].SetOp? then ForcedOptions(ops[i].options) else RemovalOptions(ops[i].options);
        var value := if ops[i].SetOp? then ops[i].value else "";
        CookieLines(ops, true)[i] ==
          SerializeCookie(ops[i].name, value, o) + (if o.expires.Some? then "; Expires=" + o.expires.value else "")
    {
      var o := if ops[i].SetOp? then ForcedOptions(ops[i].options) else RemovalOptions(ops[i].options);
      var value := if ops[i].SetOp? then ops[i].value else "";
      ExpiresOnlyExtends(ops[i].name, value, o);
    }
    forall i | 0 <= i < |ops| && ops[i].SetOp? && ops[i].name != "" && '=' !in ops[i].name &&
      ';' !in ops[i].name && !IsWhitespace(ops[i].name[0])
      ensures CookieMap(Some(Split(CookieLines(ops, true)[i], ';')[0])) == Some(map[ops[i].name := ops[i].value])
    {
      SetLineRoundTrip(ops[i], true);
    }
  }
}
