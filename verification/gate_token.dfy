/**
 * The gate token `makeGateToken` of functions/api/subscribe.ts mints: the
 * URL-safe base64 of the UTF-8 JSON payload `{email, iat, exp}`, a dot, and
 * the URL-safe base64 of the HMAC-SHA-256 of that text under the secret.
 * The MAC itself is the parameter `mac` (the Web Crypto call), and the two
 * `Date.now()` readings are the parameters `nowMs1` and `nowMs2`.
 */
module GateToken {
  import opened Wrappers
  import opened Strings
  import opened Utf8
  import opened Json
  import opened Base64
  import opened UriEncoding

  /** 180 days in seconds: the payload's lifetime and the cookie's `Max-Age`. */
  const GATE_TTL: int := 60 * 60 * 24 * 180

  datatype Payload = Payload(email: string, iat: int, exp: int)

  /** `Math.floor(ms / 1000)`: whole seconds since the epoch. */
  function Seconds(ms: int): int
  {
    ms / 1000
  }

  /** The payload object; `iat` and `exp` each read the clock once. */
  function GatePayload(email: string, nowMs1: int, nowMs2: int): Payload
  {
    Payload(email, Seconds(nowMs1), Seconds(nowMs2) + GATE_TTL)
  }

  /** `JSON.stringify(payload)`: the keys in insertion order. */
  function PayloadJson(p: Payload): string
  {
    "{\"email\":" + Quote(p.email) + ",\"iat\":" + Number(p.iat) + ",\"exp\":" + Number(p.exp) + "}"
  }

  /** What remains of `s` after the literal `prefix`, when `s` starts with it. */
  function Literal(prefix: string, s: string): (r: Option<string>)
    ensures r.Some? ==> s == prefix + r.value
  {
    if StartsWith(s, prefix) then
      assert s == s[..|prefix|] + s[|prefix|..];
      Some(s[|prefix|..])
    else None
  }

  /** Reads a payload object with exactly the keys `email`, `iat` and `exp`, in that order. */
  function ParsePayload(text: string): Option<Payload>
  {
    match Literal("{\"email\":", text)
    case None => None
    case Some(r0) =>
      match ReadString(r0)
      case None => None
      case Some((email, r1)) =>
        match Literal(",\"iat\":", r1)
        case None => None
        case Some(r2) =>
          match ReadInt(r2)
          case None => None
          case Some((iat, r3)) =>
            match Literal(",\"exp\":", r3)
            case None => None
            case Some(r4) =>
              match ReadInt(r4)
              case None => None
              case Some((exp, r5)) => if r5 == "}" then Some(Payload(email, iat, exp)) else None
  }

  /** The signing primitive: HMAC-SHA-256 of a message under a key, both as bytes. */
  type Mac = (seq<Byte>, seq<Byte>) -> seq<Byte>

  /** `hmacSha256(secret, msg)`: both strings UTF-8 encoded, the signature URL-safe base64. */
  function HmacSha256(mac: Mac, secret: string, msg: string): string
  {
    Base64Url(mac(EncodeText(secret), EncodeText(msg)))
  }

  /** The first part of a token: the encoded payload. */
  function PayloadPart(email: string, nowMs1: int, nowMs2: int): string
  {
    Base64Url(EncodeText(PayloadJson(GatePayload(email, nowMs1, nowMs2))))
  }

  /** `makeGateToken(secret, email)`: `payloadB64.sigB64`. */
  function MakeGateToken(mac: Mac, secret: string, email: string, nowMs1: int, nowMs2: int): string
  {
    var payloadB64 := PayloadPart(email, nowMs1, nowMs2);
    payloadB64 + "." + HmacSha256(mac, secret, payloadB64)
  }

  lemma LiteralOf(prefix: string, t: string)
    ensures Literal(prefix, prefix + t) == Some(t)
  {
    assert (prefix + t)[..|prefix|] == prefix;
    assert (prefix + t)[|prefix|..] == t;
  }

  /** The payload text after its first key, as the reader meets it. */
  function AfterIat(p: Payload): string
  {
    ",\"exp\":" + (Number(p.exp) + "}")
  }

  lemma PayloadJsonShape(p: Payload)
    ensures PayloadJson(p) == "{\"email\":" + (Quote(p.email) + (",\"iat\":" + (Number(p.iat) + AfterIat(p))))
  {
  }

  lemma ReadAfterIat(p: Payload)
    ensures match ReadInt(Number(p.iat) + AfterIat(p))
      case None => false
      case Some((iat, r3)) =>
        iat == p.iat &&
        match Literal(",\"exp\":", r3)
        case None => false
        case Some(r4) => ReadInt(r4) == Some((p.exp, "}"))
  {
    ReadNumber(p.iat, AfterIat(p));
    LiteralOf(",\"exp\":", Number(p.exp) + "}");
    ReadNumber(p.exp, "}");
  }

  /** Reading the JSON text of a payload gives the payload back. */
  lemma ParsePayloadJson(p: Payload)
    ensures ParsePayload(PayloadJson(p)) == Some(p)
  {
    var tail2 := Number(p.iat) + AfterIat(p);
    var tail1 := ",\"iat\":" + tail2;
    var r0 := Quote(p.email) + tail1;
    PayloadJsonShape(p);
    LiteralOf("{\"email\":", r0);
    ReadQuote(p.email, tail1);
    LiteralOf(",\"iat\":", tail2);
    ReadAfterIat(p);
  }

  /** A payload minted from non-decreasing clock readings lives at least `GATE_TTL` seconds; exactly that when both fall in the same second. */
  lemma PayloadLifetime(email: string, nowMs1: int, nowMs2: int)
    requires nowMs1 <= nowMs2
    ensures GatePayload(email, nowMs1, nowMs2).exp - GatePayload(email, nowMs1, nowMs2).iat >= GATE_TTL
    ensures Seconds(nowMs1) == Seconds(nowMs2) ==>
      GatePayload(email, nowMs1, nowMs2).exp == GatePayload(email, nowMs1, nowMs2).iat + GATE_TTL
  {
    assert nowMs1 / 1000 <= nowMs2 / 1000;
  }

  /**
   * A token splits at its only dot into the encoded payload and the
   * signature; the payload part decodes to the UTF-8 JSON of
   * `{email, iat, exp}`, and the signature is the MAC of the payload part.
   */
  lemma TokenRoundTrip(mac: Mac, secret: string, email: string, nowMs1: int, nowMs2: int)
    ensures var parts := Split(MakeGateToken(mac, secret, email, nowMs1, nowMs2), '.');
      && |parts| == 2
      && parts[0] == PayloadPart(email, nowMs1, nowMs2)
      && parts[1] == HmacSha256(mac, secret, parts[0])
      && DecodeUrl(parts[0]).Some?
      && DecodeText(DecodeUrl(parts[0]).value).Some?
      && ParsePayload(DecodeText(DecodeUrl(parts[0]).value).value) == Some(GatePayload(email, nowMs1, nowMs2))
  {
    var p := GatePayload(email, nowMs1, nowMs2);
    var bytes := EncodeText(PayloadJson(p));
    var a := PayloadPart(email, nowMs1, nowMs2);
    var b := HmacSha256(mac, secret, a);
    Base64UrlShape(bytes);
    Base64UrlShape(mac(EncodeText(secret), EncodeText(a)));
    assert Join([a, b], ".") == a + "." + b;
    SplitJoin([a, b], '.');
    DecodeBase64Url(bytes);
    DecodeEncodeText(PayloadJson(p));
    ParsePayloadJson(p);
  }

  /** A 32-byte HMAC-SHA-256 digest gives a 43-character signature part. */
  lemma SignatureLength(mac: Mac, secret: string, msg: string)
    requires |mac(EncodeText(secret), EncodeText(msg))| == 32
    ensures |HmacSha256(mac, secret, msg)| == 43
  {
    Base64UrlShape(mac(EncodeText(secret), EncodeText(msg)));
  }

  /** Every character of a token is one `encodeURIComponent` keeps, so the token needs no escaping in a cookie. */
  lemma TokenIsUnreserved(mac: Mac, secret: string, email: string, nowMs1: int, nowMs2: int)
    ensures forall i :: 0 <= i < |MakeGateToken(mac, secret, email, nowMs1, nowMs2)| ==>
      IsUnescaped(MakeGateToken(mac, secret, email, nowMs1, nowMs2)[i])
    ensures EncodeURIComponent(MakeGateToken(mac, secret, email, nowMs1, nowMs2)) == MakeGateToken(mac, secret, email, nowMs1, nowMs2)
  {
    var a := PayloadPart(email, nowMs1, nowMs2);
    var b := HmacSha256(mac, secret, a);
    var token := MakeGateToken(mac, secret, email, nowMs1, nowMs2);
    Base64UrlShape(EncodeText(PayloadJson(GatePayload(email, nowMs1, nowMs2))));
    Base64UrlShape(mac(EncodeText(secret), EncodeText(a)));
    assert token == a + "." + b;
    forall i | 0 <= i < |token| ensures IsUnescaped(token[i]) {
      if i < |a| {
        assert token[i] == a[i] && IsUrlSafeChar(a[i]);
      } else if i > |a| {
        assert token[i] == b[i - |a| - 1] && IsUrlSafeChar(b[i - |a| - 1]);
      }
    }
    EncodeUnreserved(token);
  }
}
