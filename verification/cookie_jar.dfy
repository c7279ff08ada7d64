/**
 * The `cookies` object the two middleware files and the auth callback hand
 * to `createServerClient`: `get` reads the parsed request cookies, `set` and
 * `remove` push a serialized `Set-Cookie` line onto `setCookies`, forcing
 * `httpOnly` and `secure` (and, for `remove`, an empty value and
 * `maxAge: 0`). Which calls the Supabase client makes is outside this
 * model; they are given as a sequence of operations.
 */
module SupabaseCookies {
  import opened Wrappers
  import opened Strings
  import opened UriEncoding
  import opened Cookies

  /** One call the Supabase client makes on the cookie methods. */
  datatype CookieOp =
    | SetOp(name: string, value: string, options: CookieOptions)
    | RemoveOp(name: string, options: CookieOptions)

  /** The serializer copy: the auth callback's writes `Expires`, the middlewares' do not. */
  function Serialize(withExpires: bool, name: string, value: string, o: CookieOptions): string
  {
    if withExpires then SerializeCookieWithExpires(name, value, o) else SerializeCookie(name, value, o)
  }

  /** The line a call pushes. */
  function CookieLine(op: CookieOp, withExpires: bool): string
  {
    match op
    case SetOp(name, value, o) => Serialize(withExpires, name, value, ForcedOptions(o))
    case RemoveOp(name, o) => Serialize(withExpires, name, "", RemovalOptions(o))
  }

  /** The lines a sequence of calls pushes, one per call, in call order. */
  function CookieLines(ops: seq<CookieOp>, withExpires: bool): seq<string>
  {
    seq(|ops|, i requires 0 <= i < |ops| => CookieLine(ops[i], withExpires))
  }

  class CookieJar {
    const requestCookies: map<string, string>
    const withExpires: bool
    var setCookies: seq<string>

    constructor(requestCookies: map<string, string>, withExpires: bool)
      ensures this.requestCookies == requestCookies && this.withExpires == withExpires
      ensures setCookies == []
    {
      this.requestCookies := requestCookies;
      this.withExpires := withExpires;
      setCookies := [];
    }

    /** `get: (name) => requestCookies[name]`; `None` is `undefined`. */
    function Get(name: string): (r: Option<string>)
      reads this
      ensures r.Some? <==> name in requestCookies
      ensures r.Some? ==> r.value == requestCookies[name]
    {
      if name in requestCookies then Some(requestCookies[name]) else None
    }

    /** `set`: push the line for `{...options, httpOnly: true, secure: true}`. */
    method Set(name: string, value: string, options: CookieOptions)
      modifies this
      ensures setCookies == old(setCookies) + [Serialize(withExpires, name, value, ForcedOptions(options))]
    {
      setCookies := setCookies + [Serialize(withExpires, name, value, options.(httpOnly := true, secure := true))];
    }

    /** `remove`: push the line for `""` with `{...options, maxAge: 0, httpOnly: true, secure: true}`. */
    method Remove(name: string, options: CookieOptions)
      modifies this
      ensures setCookies == old(setCookies) + [Serialize(withExpires, name, "", RemovalOptions(options))]
    {
      setCookies := setCookies + [Serialize(withExpires, name, "", options.(maxAge := Some(0), httpOnly := true, secure := true))];
    }
  }

  /**
   * What `get` answers on a jar built from a parsed `Cookie` header: a value
   * exactly for the non-empty keys of the header's `;`-parts, and for each
   * the decoded value of the last part with that key.
   */
  lemma GetSeesHeader(jar: CookieJar, cookieHeader: string, kvs: seq<(string, string)>, name: string)
    requires kvs == Pairs(Split(cookieHeader, ';'))
    requires CookieMap(Some(cookieHeader)) == Some(jar.requestCookies)
    ensures jar.Get(name).Some? <==> name != "" && HasKey(kvs, name)
    ensures forall i | 0 <= i < |kvs| && kvs[i].0 == name && name != "" && (forall j :: i < j < |kvs| ==> kvs[j].0 != name) ::
      jar.Get(name) == DecodeURIComponent(kvs[i].1)
  {
    ParsedCookies(cookieHeader, kvs);
  }

  /** One more call adds its line at the end. */
  lemma CookieLinesSnoc(ops: seq<CookieOp>, i: nat, withExpires: bool)
    requires i < |ops|
    ensures CookieLines(ops[..i + 1], withExpires) == CookieLines(ops[..i], withExpires) + [CookieLine(ops[i], withExpires)]
  {
    var a := CookieLines(ops[..i + 1], withExpires);
    var b := CookieLines(ops[..i], withExpires) + [CookieLine(ops[i], withExpires)];
    assert |a| == |b|;
    forall k | 0 <= k < |a| ensures a[k] == b[k] {
      assert ops[..i + 1][k] == ops[k];
    }
  }

  /** The Supabase client's calls, made one after another on `jar`. */
  method Replay(jar: CookieJar, ops: seq<CookieOp>)
    modifies jar
    ensures jar.setCookies == old(jar.setCookies) + CookieLines(ops, jar.withExpires)
  {
    for i := 0 to |ops|
      invariant jar.setCookies == old(jar.setCookies) + CookieLines(ops[..i], jar.withExpires)
    {
      CookieLinesSnoc(ops, i, jar.withExpires);
      match ops[i]
      case SetOp(name, value, o) => jar.Set(name, value, o);
      case RemoveOp(name, o) => jar.Remove(name, o);
    }
    assert ops[..|ops|] == ops;
  }

  /** The attributes of a call's line, before joining. */
  function LineAttributes(op: CookieOp, withExpires: bool): seq<string>
  {
    match op
    case SetOp(name, value, o) =>
      if withExpires then SetCookieAttributesWithExpires(name, value, ForcedOptions(o))
      else SetCookieAttributes(name, value, ForcedOptions(o))
    case RemoveOp(name, o) =>
      if withExpires then SetCookieAttributesWithExpires(name, "", RemovalOptions(o))
      else SetCookieAttributes(name, "", RemovalOptions(o))
  }

  /**
   * Every pushed line carries `HttpOnly` and `Secure` whatever options the
   * client passed, and a removal line has an empty value and no `Max-Age`
   * after its `name=` pair.
   */
  lemma LinesAreForced(ops: seq<CookieOp>, withExpires: bool)
    ensures |CookieLines(ops, withExpires)| == |ops|
    ensures forall i :: 0 <= i < |ops| ==>
      CookieLines(ops, withExpires)[i] == Join(LineAttributes(ops[i], withExpires), "; ")
      && "HttpOnly" in LineAttributes(ops[i], withExpires)
      && "Secure" in LineAttributes(ops[i], withExpires)
    ensures forall i :: 0 <= i < |ops| && ops[i].RemoveOp? ==>
      LineAttributes(ops[i], withExpires)[0] == ops[i].name + "="
      && forall k :: 1 <= k < |LineAttributes(ops[i], withExpires)| ==>
           !StartsWith(LineAttributes(ops[i], withExpires)[k], "Max-Age=")
  {
    forall i | 0 <= i < |ops|
      ensures "HttpOnly" in LineAttributes(ops[i], withExpires) && "Secure" in LineAttributes(ops[i], withExpires)
    {
      match ops[i]
      case SetOp(name, value, o) => ForcedFlagsPresent(name, value, o);
      case RemoveOp(name, o) => ForcedFlagsPresent(name, "", o);
    }
    forall i | 0 <= i < |ops| && ops[i].RemoveOp?
      ensures LineAttributes(ops[i], withExpires)[0] == ops[i].name + "="
      ensures forall k :: 1 <= k < |LineAttributes(ops[i], withExpires)| ==>
        !StartsWith(LineAttributes(ops[i], withExpires)[k], "Max-Age=")
    {
      RemovalHasNoMaxAge(ops[i].name, ops[i].options, withExpires);
    }
  }

  /**
   * A value the client sets comes back: the first `;`-segment of its line,
   * sent in a later `Cookie` header, parses to the name mapped to the value.
   */
  lemma SetLineRoundTrip(op: CookieOp, withExpires: bool)
    requires op.SetOp? && op.name != "" && '=' !in op.name && ';' !in op.name && !IsWhitespace(op.name[0])
    ensures CookieMap(Some(Split(CookieLine(op, withExpires), ';')[0])) == Some(map[op.name := op.value])
  {
    SetCookieRoundTrip(op.name, op.value, ForcedOptions(op.options), withExpires);
  }
}
