/**
 * functions/api/subscribe.ts: `GET` answers 405; `POST` checks the Supabase
 * configuration, reads the JSON body, validates the email and name, upserts
 * the subscriber into `mailing_list`, then mints the gate token and sets it
 * as the `fafo_gate` cookie. The upsert is a request the handler sends and
 * whose answer (status and text) is an input; the rest is computed here.
 */
module Subscribe {
  import opened Wrappers
  import opened Http
  import opened Strings
  import opened Json
  import opened Cookies
  import opened GateToken
  import opened UriEncoding

  /** The bindings the handler reads; `None` is an unset variable. */
  datatype Env = Env(supabaseUrl: Option<string>, serviceRoleKey: Option<string>, gateCookieSecret: Option<string>)

  /**
   * A parsed request body: for `email` and `name`, `String()` of the property
   * when it is truthy, `None` when it is missing or falsy.
   */
  datatype Body = Body(email: Option<string>, name: Option<string>)

  /** The request to `mailing_list` the handler sends. */
  datatype Upsert = Upsert(url: string, apiKey: string, authorization: string, prefer: string, body: string)

  /** The errors a response body can name; `Message` gives the text of its `error` field. */
  datatype Error = UsePost | MissingConfig | NotJson | BadEmail | NameTooLong | InsertFailed(status: int) | MissingSecret
  {
    function Message(): (m: string)
      ensures m != ""
    {
      match this
      case UsePost => "Use POST"
      case MissingConfig => "Missing SUPABASE_URL or SUPABASE_SERVICE_ROLE_KEY"
      case NotJson => "Body must be JSON"
      case BadEmail => "Invalid email"
      case NameTooLong => "Name too long"
      case InsertFailed(st) => "Supabase insert failed (" + IntToString(st) + ")"
      case MissingSecret => "Missing GATE_COOKIE_SECRET"
    }
  }

  /** `{ ok: true }`, or `{ error, details }` with `details` only where the handler sends it. */
  datatype ReplyBody = Ok | Failure(error: Error, details: Option<string>)

  /** A JSON response: its status, its body and the `set-cookie` header if any. */
  datatype Reply = Reply(status: int, body: ReplyBody, setCookie: Option<string>)

  /** What a `POST` does: the upsert it sends, if it gets that far, and its response. */
  datatype Outcome = Outcome(upsert: Option<Upsert>, reply: Reply)

  const MAX_NAME_LENGTH := 120

  /** `(value as string | undefined)?.trim()`. */
  function TrimmedEnv(v: Option<string>): Option<string>
  {
    match v
    case None => None
    case Some(s) => Some(Trim(s))
  }

  /** `String(body?.email || "").trim().toLowerCase()`. */
  function NormalizeEmail(field: Option<string>): string
  {
    ToLowerAscii(Trim(field.GetOr("")))
  }

  /** `String(body?.name || "").trim()`. */
  function NormalizeName(field: Option<string>): string
  {
    Trim(field.GetOr(""))
  }

  /** `!email || !email.includes("@")`. */
  predicate InvalidEmail(email: string)
  {
    email == "" || '@' !in email
  }

  /** `JSON.stringify({ email, name: name || null })`. */
  function UpsertBody(email: string, name: string): string
  {
    "{\"email\":" + Quote(email) + ",\"name\":" + (if name == "" then "null" else Quote(name)) + "}"
  }

  function UpsertRequest(url: string, key: string, email: string, name: string): Upsert
  {
    Upsert(url + "/rest/v1/mailing_list?on_conflict=email", key, "Bearer " + key,
           "resolution=merge-duplicates,return=minimal", UpsertBody(email, name))
  }

  /** The literal `set-cookie` header of the 200 response. */
  function GateCookie(token: string): string
  {
    "fafo_gate=" + token + "; Path=/; HttpOnly; Secure; SameSite=Lax; Max-Age=" + IntToString(GATE_TTL)
  }

  /** `onRequestGet`. */
  function OnRequestGet(): (r: Reply)
    ensures r.status == 405 && r.setCookie.None?
  {
    Reply(405, Failure(UsePost, None), None)
  }

  /** `GET` answers with a status no `POST` outcome has, and never sets the gate cookie. */
  lemma GetIsNotPost(env: Env, body: Option<Body>, st: int, text: string, mac: Mac, t1: int, t2: int)
    ensures OnRequestGet().status != OnRequestPost(env, body, st, text, mac, t1, t2).reply.status
    ensures OnRequestGet().setCookie.None?
  {
    CookieOnlyOnSuccess(env, body, st, text, mac, t1, t2);
  }

  /**
   * `onRequestPost`. `body` is `None` when `request.json()` throws;
   * `upstreamStatus` and `upstreamText` are the answer to the upsert;
   * `nowMs1` and `nowMs2` are the two clock readings of `makeGateToken`.
   */
  function OnRequestPost(env: Env, body: Option<Body>, upstreamStatus: int, upstreamText: string,
                         mac: Mac, nowMs1: int, nowMs2: int): Outcome
  {
    var url := TrimmedEnv(env.supabaseUrl);
    var key := TrimmedEnv(env.serviceRoleKey);
    if !Truthy(url) || !Truthy(key) then Outcome(None, Reply(500, Failure(MissingConfig, None), None))
    else if body.None? then Outcome(None, Reply(400, Failure(NotJson, None), None))
    else
      var email := NormalizeEmail(body.value.email);
      var name := NormalizeName(body.value.name);
      if InvalidEmail(email) then Outcome(None, Reply(400, Failure(BadEmail, None), None))
      else if Utf16Length(name) > MAX_NAME_LENGTH then Outcome(None, Reply(400, Failure(NameTooLong, None), None))
      else
        var upsert := Some(UpsertRequest(url.value, key.value, email, name));
        if !IsOk(upstreamStatus) then
          Outcome(upsert, Reply(502, Failure(InsertFailed(upstreamStatus), Some(upstreamText)), None))
        else
          var secret := TrimmedEnv(env.gateCookieSecret);
          if !Truthy(secret) then Outcome(upsert, Reply(500, Failure(MissingSecret, None), None))
          else Outcome(upsert, Reply(200, Ok, Some(GateCookie(MakeGateToken(mac, secret.value, email, nowMs1, nowMs2)))))
  }

  /** The checks that let a request reach the upsert. */
  predicate Admitted(env: Env, body: Option<Body>)
  {
    && Truthy(TrimmedEnv(env.supabaseUrl)) && Truthy(TrimmedEnv(env.serviceRoleKey))
    && body.Some?
    && !InvalidEmail(NormalizeEmail(body.value.email))
    && Utf16Length(NormalizeName(body.value.name)) <= MAX_NAME_LENGTH
  }

  /**
   * The configuration is checked first: without a URL or key (after
   * trimming) the answer is 500 whatever the body, and nothing is sent.
   */
  lemma MissingConfigFirst(env: Env, body: Option<Body>, st: int, text: string, mac: Mac, t1: int, t2: int)
    requires !Truthy(TrimmedEnv(env.supabaseUrl)) || !Truthy(TrimmedEnv(env.serviceRoleKey))
    ensures OnRequestPost(env, body, st, text, mac, t1, t2) == Outcome(None, Reply(500, Failure(MissingConfig, None), None))
  {
  }

  /** A configured handler answers a body that is not JSON with 400 and sends nothing. */
  lemma NotJsonRejected(env: Env, st: int, text: string, mac: Mac, t1: int, t2: int)
    requires Truthy(TrimmedEnv(env.supabaseUrl)) && Truthy(TrimmedEnv(env.serviceRoleKey))
    ensures OnRequestPost(env, None, st, text, mac, t1, t2) == Outcome(None, Reply(400, Failure(NotJson, None), None))
  {
  }

  /** A configured handler answers an empty email, or one without `@`, with 400 "Invalid email" and sends nothing. */
  lemma BadEmailRejected(env: Env, b: Body, st: int, text: string, mac: Mac, t1: int, t2: int)
    requires Truthy(TrimmedEnv(env.supabaseUrl)) && Truthy(TrimmedEnv(env.serviceRoleKey))
    requires InvalidEmail(NormalizeEmail(b.email))
    ensures OnRequestPost(env, Some(b), st, text, mac, t1, t2) == Outcome(None, Reply(400, Failure(BadEmail, None), None))
  {
  }

  /**
   * The name is checked after the email: a valid email with a name longer
   * than 120 UTF-16 units is a 400 "Name too long", and nothing is sent.
   */
  lemma LongNameRejected(env: Env, b: Body, st: int, text: string, mac: Mac, t1: int, t2: int)
    requires Truthy(TrimmedEnv(env.supabaseUrl)) && Truthy(TrimmedEnv(env.serviceRoleKey))
    requires !InvalidEmail(NormalizeEmail(b.email)) && Utf16Length(NormalizeName(b.name)) > MAX_NAME_LENGTH
    ensures OnRequestPost(env, Some(b), st, text, mac, t1, t2) == Outcome(None, Reply(400, Failure(NameTooLong, None), None))
  {
  }

  /** An admitted request sends the upsert, carrying the trimmed configuration and the normalized email and name. */
  lemma AdmittedSendsUpsert(env: Env, body: Option<Body>, st: int, text: string, mac: Mac, t1: int, t2: int)
    requires Admitted(env, body)
    ensures OnRequestPost(env, body, st, text, mac, t1, t2).upsert ==
      Some(UpsertRequest(TrimmedEnv(env.supabaseUrl).value, TrimmedEnv(env.serviceRoleKey).value,
                         NormalizeEmail(body.value.email), NormalizeName(body.value.name)))
  {
  }

  /**
   * Every other request is answered before anything is sent: by one of the
   * four rejections above, so with 400 or 500 and no cookie.
   */
  lemma RejectedSendsNothing(env: Env, body: Option<Body>, st: int, text: string, mac: Mac, t1: int, t2: int)
    requires !Admitted(env, body)
    ensures var o := OnRequestPost(env, body, st, text, mac, t1, t2);
      && o.upsert.None? && o.reply.setCookie.None?
      && o.reply.body.Failure? && o.reply.body.error in {MissingConfig, NotJson, BadEmail, NameTooLong}
  {
    if !Truthy(TrimmedEnv(env.supabaseUrl)) || !Truthy(TrimmedEnv(env.serviceRoleKey)) {
      MissingConfigFirst(env, body, st, text, mac, t1, t2);
    } else if body.None? {
      NotJsonRejected(env, st, text, mac, t1, t2);
    } else if InvalidEmail(NormalizeEmail(body.value.email)) {
      BadEmailRejected(env, body.value, st, text, mac, t1, t2);
    } else {
      LongNameRejected(env, body.value, st, text, mac, t1, t2);
    }
  }

  /** An upstream answer outside 2xx is reported as 502 with its status and text, and no cookie. */
  lemma UpstreamFailure(env: Env, body: Option<Body>, st: int, text: string, mac: Mac, t1: int, t2: int)
    requires Admitted(env, body) && !IsOk(st)
    ensures OnRequestPost(env, body, st, text, mac, t1, t2).reply ==
      Reply(502, Failure(InsertFailed(st), Some(text)), None)
  {
  }

  /** The secret is checked only after the upsert succeeded: its absence is a 500 after the write. */
  lemma MissingSecretAfterWrite(env: Env, body: Option<Body>, st: int, text: string, mac: Mac, t1: int, t2: int)
    requires Admitted(env, body) && IsOk(st) && !Truthy(TrimmedEnv(env.gateCookieSecret))
    ensures var o := OnRequestPost(env, body, st, text, mac, t1, t2);
      o.upsert.Some? && o.reply == Reply(500, Failure(MissingSecret, None), None)
  {
  }

  /**
   * The outcomes in full: the status is one of 200, 400, 500 and 502, and a
   * cookie is set exactly on 200, which the request reaches only when it was
   * admitted, Supabase answered 2xx and the secret is set.
   */
  lemma CookieOnlyOnSuccess(env: Env, body: Option<Body>, st: int, text: string, mac: Mac, t1: int, t2: int)
    ensures var r := OnRequestPost(env, body, st, text, mac, t1, t2).reply;
      r.status in {200, 400, 500, 502}
    ensures var r := OnRequestPost(env, body, st, text, mac, t1, t2).reply;
      (r.setCookie.Some? <==> r.status == 200) && (r.status == 200 <==> r.body == Ok)
    ensures var r := OnRequestPost(env, body, st, text, mac, t1, t2).reply;
      r.status == 200 <==> Admitted(env, body) && IsOk(st) && Truthy(TrimmedEnv(env.gateCookieSecret))
  {
    if !Truthy(TrimmedEnv(env.supabaseUrl)) || !Truthy(TrimmedEnv(env.serviceRoleKey)) {
      MissingConfigFirst(env, body, st, text, mac, t1, t2);
    } else if body.None? {
      NotJsonRejected(env, st, text, mac, t1, t2);
    } else if !Admitted(env, body) {
      RejectedSendsNothing(env, body, st, text, mac, t1, t2);
    } else if !IsOk(st) {
      UpstreamFailure(env, body, st, text, mac, t1, t2);
    } else if !Truthy(TrimmedEnv(env.gateCookieSecret)) {
      MissingSecretAfterWrite(env, body, st, text, mac, t1, t2);
    } else {
      SuccessCookie(env, body, st, text, mac, t1, t2);
    }
  }

  /** The cookie of a 200 carries the token minted from the trimmed secret and the normalized email. */
  lemma SuccessCookie(env: Env, body: Option<Body>, st: int, text: string, mac: Mac, t1: int, t2: int)
    requires Admitted(env, body) && IsOk(st) && Truthy(TrimmedEnv(env.gateCookieSecret))
    ensures OnRequestPost(env, body, st, text, mac, t1, t2).reply ==
      Reply(200, Ok, Some(GateCookie(MakeGateToken(mac, TrimmedEnv(env.gateCookieSecret).value,
                                                   NormalizeEmail(body.value.email), t1, t2))))
  {
  }

  /**
   * The normalized email has no surrounding whitespace and no upper-case
   * ASCII letter; it is empty, and it holds `@`, exactly when the trimmed
   * input does.
   */
  lemma NormalizedEmail(field: Option<string>)
    ensures var e := NormalizeEmail(field);
      (e == [] || (!IsWhitespace(e[0]) && !IsWhitespace(e[|e| - 1])))
      && (forall i :: 0 <= i < |e| ==> !IsAsciiUpper(e[i]))
      && (e == "" <==> Trim(field.GetOr("")) == "")
      && ('@' in e <==> '@' in Trim(field.GetOr("")))
  {
    var t := Trim(field.GetOr(""));
    LowerKeeps(t, '@');
    LowerKeepsTrimmed(t);
  }

  /** Six attributes joined with `"; "`. */
  lemma JoinSix(a: string, b: string, c: string, d: string, e: string, f: string)
    ensures Join([a, b, c, d, e, f], "; ") == a + ("; " + b + "; " + c + "; " + d + "; " + e + "; ") + f
  {
    JoinCons(e, [f], "; ");
    JoinCons(d, [e, f], "; ");
    JoinCons(c, [d, e, f], "; ");
    JoinCons(b, [c, d, e, f], "; ");
    JoinCons(a, [b, c, d, e, f], "; ");
  }

  /** The fixed attribute text of the literal header, assembled from the serializer's pieces. */
  lemma GateAttributeText()
    ensures "; " + "Path=/" + "; " + "HttpOnly" + "; " + "Secure" + "; " + "SameSite=Lax" + "; "
      == "; Path=/; HttpOnly; Secure; SameSite=Lax; "
    ensures "; Path=/; HttpOnly; Secure; SameSite=Lax; Max-Age=" == "; Path=/; HttpOnly; Secure; SameSite=Lax; " + "Max-Age="
  {
    assert "; " + "Path=/" + "; " == "; Path=/; ";
    assert "; Path=/; " + "HttpOnly" + "; " == "; Path=/; HttpOnly; ";
    assert "; Path=/; HttpOnly; " + "Secure" + "; " == "; Path=/; HttpOnly; Secure; ";
    assert "; Path=/; HttpOnly; Secure; " + "SameSite=Lax" + "; " == "; Path=/; HttpOnly; Secure; SameSite=Lax; ";
  }

  lemma GateAttributes(token: string)
    requires EncodeURIComponent(token) == token
    ensures SetCookieAttributes("fafo_gate", token, GateCookieOptions()) ==
      ["fafo_gate=" + token, "Path=/", "HttpOnly", "Secure", "SameSite=Lax", "Max-Age=" + IntToString(GATE_TTL)]
  {
    var o := GateCookieOptions();
    assert GATE_TTL == 15552000;
    assert HasMaxAge(o);
    assert o.path.GetOr("/") == "/" && o.sameSite.GetOr("Lax") == "Lax";
    assert "fafo_gate" + "=" + token == "fafo_gate=" + token;
    assert "Path=" + "/" == "Path=/" && "SameSite=" + "Lax" == "SameSite=Lax";
  }

  /** With a token `encodeURIComponent` leaves alone, the literal header is the serializer's line. */
  lemma LiteralGateCookie(token: string)
    requires EncodeURIComponent(token) == token
    ensures GateCookie(token) == SerializeCookie("fafo_gate", token, GateCookieOptions())
  {
    var n := IntToString(GATE_TTL);
    var a := "fafo_gate=" + token;
    var f := "Max-Age=" + n;
    var mid := "; Path=/; HttpOnly; Secure; SameSite=Lax; ";
    GateAttributes(token);
    JoinSix(a, "Path=/", "HttpOnly", "Secure", "SameSite=Lax", f);
    GateAttributeText();
    assert GateCookie(token) == a + (mid + "Max-Age=") + n;
    assert a + (mid + "Max-Age=") + n == a + mid + f;
  }

  /** The options the literal header amounts to. */
  function GateCookieOptions(): CookieOptions
  {
    CookieOptions(Some("/"), true, true, Some("Lax"), Some(GATE_TTL), None)
  }

  /** The gate cookie is what `serializeCookie` would write for it: `Path=/`, `HttpOnly`, `Secure`, `SameSite=Lax`, `Max-Age` equal to the token lifetime. */
  lemma GateCookieIsSerialized(mac: Mac, secret: string, email: string, t1: int, t2: int)
    ensures var token := MakeGateToken(mac, secret, email, t1, t2);
      GateCookie(token) == SerializeCookie("fafo_gate", token, GateCookieOptions())
  {
    TokenIsUnreserved(mac, secret, email, t1, t2);
    LiteralGateCookie(MakeGateToken(mac, secret, email, t1, t2));
  }

  /** A token `encodeURIComponent` leaves alone comes back from the gate cookie's first segment. */
  lemma GateCookieOf(token: string)
    requires EncodeURIComponent(token) == token
    ensures CookieMap(Some(Split(GateCookie(token), ';')[0])) == Some(map["fafo_gate" := token])
  {
    LiteralGateCookie(token);
    SetCookieRoundTrip("fafo_gate", token, GateCookieOptions(), false);
  }

  /** Sent back by the browser, the gate cookie parses to `fafo_gate` mapped to the token. */
  lemma GateCookieRoundTrip(mac: Mac, secret: string, email: string, t1: int, t2: int)
    ensures var token := MakeGateToken(mac, secret, email, t1, t2);
      CookieMap(Some(Split(GateCookie(token), ';')[0])) == Some(map["fafo_gate" := token])
  {
    TokenIsUnreserved(mac, secret, email, t1, t2);
    GateCookieOf(MakeGateToken(mac, secret, email, t1, t2));
  }

  /** Reads the value of `name` and the closing brace: `null`, or a string. */
  function ParseNameValue(text: string): Option<Option<string>>
  {
    if text == "null}" then Some(None)
    else match ReadString(text)
      case None => None
      case Some((name, rest)) => if rest == "}" then Some(Some(name)) else None
  }

  /** Reads back the upsert body: the email and the name, `None` for `null`. */
  function ParseUpsertBody(text: string): Option<(string, Option<string>)>
  {
    match Literal("{\"email\":", text)
    case None => None
    case Some(r0) =>
      match ReadString(r0)
      case None => None
      case Some((email, r1)) =>
        match Literal(",\"name\":", r1)
        case None => None
        case Some(r2) =>
          match ParseNameValue(r2)
          case None => None
          case Some(name) => Some((email, name))
  }

  lemma ReadNameValue(name: string)
    ensures ParseNameValue((if name == "" then "null" else Quote(name)) + "}") == Some(if name == "" then None else Some(name))
  {
    if name != "" {
      ReadQuote(name, "}");
      assert (Quote(name) + "}")[0] == '"';
    }
  }

  /** The reader takes the email literal, then hands what follows `"name":` to `ParseNameValue`. */
  lemma ReadUpsertFields(email: string, nv: string)
    ensures ParseUpsertBody("{\"email\":" + (Quote(email) + (",\"name\":" + nv))) ==
      match ParseNameValue(nv)
      case None => None
      case Some(name) => Some((email, name))
  {
    var r1 := ",\"name\":" + nv;
    LiteralOf("{\"email\":", Quote(email) + r1);
    ReadQuote(email, r1);
    LiteralOf(",\"name\":", nv);
  }

  /** The upsert body reads back as the email and the name, with an empty name sent as `null`. */
  lemma UpsertBodyRoundTrip(email: string, name: string)
    ensures ParseUpsertBody(UpsertBody(email, name)) == Some((email, if name == "" then None else Some(name)))
  {
    var nv := (if name == "" then "null" else Quote(name)) + "}";
    assert UpsertBody(email, name) == "{\"email\":" + (Quote(email) + (",\"name\":" + nv));
    ReadUpsertFields(email, nv);
    ReadNameValue(name);
  }
}
