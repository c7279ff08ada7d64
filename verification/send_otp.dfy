/**
 * functions/api/send-otp.ts: asks Supabase to e-mail a one-time login link
 * whose `redirect_to` is this site's `/auth/callback`. The origin of the
 * request URL is an input, and so is Supabase's answer (status and text).
 */
module SendOtp {
  import opened Wrappers
  import opened Strings
  import opened Http
  import opened Json
  import opened UriEncoding
  import opened GateToken

  datatype Env = Env(supabaseUrl: Option<string>, anonKey: Option<string>)

  /** A parsed body: `String()` of `body.email` when it is truthy. */
  datatype OtpBody = OtpBody(email: Option<string>)

  /** The request to `/auth/v1/otp` the handler sends. */
  datatype OtpRequest = OtpRequest(url: string, apiKey: string, authorization: string, body: string)

  /** A plain-text or JSON response: status and body text. */
  datatype Reply = Reply(status: int, text: string)

  datatype Outcome = Outcome(request: Option<OtpRequest>, reply: Reply)

  const MISSING_CONFIG := "Missing SUPABASE_URL / SUPABASE_ANON_KEY in Cloudflare."
  const INVALID_EMAIL := "Invalid email."
  const OK_BODY := "{\"ok\":true}"

  /** `(body?.email || "").toString().trim()`; a body that failed to parse stays `{}`. */
  function OtpEmail(body: Option<OtpBody>): string
  {
    var b := body.GetOr(OtpBody(None));
    Trim(b.email.GetOr(""))
  }

  /** `` `${origin}/auth/callback` ``: no query string. */
  function RedirectTo(origin: string): string
  {
    origin + "/auth/callback"
  }

  function OtpUrl(supabaseUrl: string, origin: string): string
  {
    supabaseUrl + "/auth/v1/otp?redirect_to=" + EncodeURIComponent(RedirectTo(origin))
  }

  /** `JSON.stringify({ email, create_user: true })`. */
  function OtpRequestBody(email: string): string
  {
    "{\"email\":" + Quote(email) + ",\"create_user\":true}"
  }

  /** `onRequestPost`. */
  function OnRequestPost(env: Env, body: Option<OtpBody>, origin: string, upstreamStatus: int, upstreamText: string): Outcome
  {
    if !Truthy(env.supabaseUrl) || !Truthy(env.anonKey) then Outcome(None, Reply(500, MISSING_CONFIG))
    else
      var email := OtpEmail(body);
      if email == "" || '@' !in email then Outcome(None, Reply(400, INVALID_EMAIL))
      else
        var request := OtpRequest(OtpUrl(env.supabaseUrl.value, origin), env.anonKey.value,
                                  "Bearer " + env.anonKey.value, OtpRequestBody(email));
        if !IsOk(upstreamStatus) then
          Outcome(Some(request), Reply(502, "Supabase error (" + IntToString(upstreamStatus) + "): " + upstreamText))
        else Outcome(Some(request), Reply(200, OK_BODY))
  }

  /**
   * Missing configuration is a 500 before the body is looked at. The values
   * are not trimmed: one made only of spaces counts as present.
   */
  lemma MissingConfigFirst(env: Env, body: Option<OtpBody>, origin: string, st: int, text: string)
    ensures (!Truthy(env.supabaseUrl) || !Truthy(env.anonKey)) ==>
      OnRequestPost(env, body, origin, st, text) == Outcome(None, Reply(500, MISSING_CONFIG))
    ensures env.supabaseUrl == Some(" ") && Truthy(env.anonKey) ==>
      OnRequestPost(env, body, origin, st, text).reply.status != 500
  {
  }

  /** A body that is not JSON is swallowed and ends as 400 "Invalid email.". */
  lemma BadJsonIsInvalidEmail(env: Env, origin: string, st: int, text: string)
    requires Truthy(env.supabaseUrl) && Truthy(env.anonKey)
    ensures OnRequestPost(env, None, origin, st, text) == Outcome(None, Reply(400, INVALID_EMAIL))
  {
    assert Trim("") == "";
  }

  /**
   * With configuration present, the request reaches Supabase exactly when
   * the trimmed email is non-empty and holds `@`; otherwise the answer is
   * 400 "Invalid email.".
   */
  lemma EmailRule(env: Env, body: Option<OtpBody>, origin: string, st: int, text: string)
    requires Truthy(env.supabaseUrl) && Truthy(env.anonKey)
    ensures var o := OnRequestPost(env, body, origin, st, text);
      (o.reply == Reply(400, INVALID_EMAIL) <==> OtpEmail(body) == "" || '@' !in OtpEmail(body))
      && (o.request.Some? <==> o.reply.status != 400)
  {
  }

  /**
   * The request sent: the OTP URL, the anon key as `apikey` and bearer
   * token, and a body whose email reads back as the trimmed input, letter
   * case kept.
   */
  lemma SentRequest(env: Env, body: Option<OtpBody>, origin: string, st: int, text: string)
    requires Truthy(env.supabaseUrl) && Truthy(env.anonKey)
    requires OtpEmail(body) != "" && '@' in OtpEmail(body)
    ensures var r := OnRequestPost(env, body, origin, st, text).request;
      && r.Some?
      && r.value.url == OtpUrl(env.supabaseUrl.value, origin)
      && r.value.apiKey == env.anonKey.value && r.value.authorization == "Bearer " + env.anonKey.value
      && ReadOtpEmail(r.value.body) == Some(OtpEmail(body))
  {
    ReadOtpRequestBody(OtpEmail(body));
  }

  /**
   * The OTP URL carries a single `redirect_to` parameter: its encoded value
   * holds no `&`, `#`, `=` or `?`, and it decodes to `origin/auth/callback`.
   */
  lemma RedirectParameter(supabaseUrl: string, origin: string)
    ensures var enc := EncodeURIComponent(RedirectTo(origin));
      && OtpUrl(supabaseUrl, origin) == supabaseUrl + "/auth/v1/otp?redirect_to=" + enc
      && '&' !in enc && '#' !in enc && '=' !in enc && '?' !in enc
      && DecodeURIComponent(enc) == Some(origin + "/auth/callback")
  {
    EncodedIsPlain(RedirectTo(origin));
    DecodeEncode(RedirectTo(origin));
  }

  /** Past validation, the status follows Supabase's: 502 with its status and text when not 2xx, else 200 `{"ok":true}`. */
  lemma UpstreamDecides(env: Env, body: Option<OtpBody>, origin: string, st: int, text: string)
    requires Truthy(env.supabaseUrl) && Truthy(env.anonKey)
    requires OtpEmail(body) != "" && '@' in OtpEmail(body)
    ensures var r := OnRequestPost(env, body, origin, st, text).reply;
      && (!IsOk(st) ==> r == Reply(502, "Supabase error (" + IntToString(st) + "): " + text))
      && (IsOk(st) ==> r == Reply(200, OK_BODY))
  {
  }

  /** Reads the email back from a request body with exactly the keys `email` and `create_user: true`. */
  function ReadOtpEmail(text: string): Option<string>
  {
    match Literal("{\"email\":", text)
    case None => None
    case Some(r0) =>
      match ReadString(r0)
      case None => None
      case Some((email, r1)) => if r1 == ",\"create_user\":true}" then Some(email) else None
  }

  lemma ReadOtpRequestBody(email: string)
    ensures ReadOtpEmail(OtpRequestBody(email)) == Some(email)
  {
    var tail := ",\"create_user\":true}";
    assert OtpRequestBody(email) == "{\"email\":" + (Quote(email) + tail);
    LiteralOf("{\"email\":", Quote(email) + tail);
    ReadQuote(email, tail);
  }
}
