/**
 * The `Cookie` request-header parser and the `Set-Cookie` serializer that
 * functions/_middleware.ts, functions/auth/callback.ts and
 * Functions/_middleware.ts each carry a copy of. The three `parseCookies`
 * are the same text; the three `serializeCookie` differ only in the callback's
 * extra `Expires` attribute, modelled here as a second serializer that
 * extends the first.
 */
module Cookies {
  import opened Wrappers
  import opened Strings
  import opened UriEncoding

  /**
   * `const [k, ...v] = part.trim().split("=")` with the value `v.join("=")`:
   * the key is the trimmed text before the first `=` and the value all of the
   * rest, `=` included; without `=` the value is empty.
   */
  function KeyValue(part: string): (kv: (string, string))
    ensures '=' !in kv.0
    ensures '=' in Trim(part) ==> Trim(part) == kv.0 + "=" + kv.1
    ensures '=' !in Trim(part) ==> kv.0 == Trim(part) && kv.1 == ""
  {
    var pieces := Split(Trim(part), '=');
    (pieces[0], Join(pieces[1..], "="))
  }

  /** The key and raw value of every `;`-separated part, in order. */
  function Pairs(parts: seq<string>): seq<(string, string)>
  {
    seq(|parts|, i requires 0 <= i < |parts| => KeyValue(parts[i]))
  }

  /** One pass of the loop body of `parseCookies`: an empty key is skipped, otherwise `out[k]` gets the decoded value. */
  function Absorb(out: map<string, string>, kv: (string, string)): Option<map<string, string>>
  {
    if kv.0 == "" then Some(out)
    else match DecodeURIComponent(kv.1)
      case None => None
      case Some(d) => Some(out[kv.0 := d])
  }

  function AbsorbAll(out: map<string, string>, kvs: seq<(string, string)>): Option<map<string, string>>
    decreases |kvs|
  {
    if kvs == [] then Some(out)
    else match Absorb(out, kvs[0])
      case None => None
      case Some(o) => AbsorbAll(o, kvs[1..])
  }

  /**
   * What `parseCookies(cookieHeader)` returns; `None` where it throws because
   * `decodeURIComponent` met a malformed escape.
   */
  function CookieMap(cookieHeader: Option<string>): Option<map<string, string>>
  {
    if cookieHeader.None? || cookieHeader.value == "" then Some(map[])
    else AbsorbAll(map[], Pairs(Split(cookieHeader.value, ';')))
  }

  /** `parseCookies`: a loop over the `;`-separated parts that writes into `out`. */
  method ParseCookies(cookieHeader: Option<string>) returns (out: Option<map<string, string>>)
    ensures out == CookieMap(cookieHeader)
  {
    if cookieHeader.None? || cookieHeader.value == "" {
      return Some(map[]);
    }
    var parts := Split(cookieHeader.value, ';');
    ghost var kvs := Pairs(parts);
    var m: map<string, string> := map[];
    for i := 0 to |parts|
      invariant AbsorbAll(map[], kvs) == AbsorbAll(m, kvs[i..])
    {
      assert kvs[i..][1..] == kvs[i + 1..];
      var pieces := Split(Trim(parts[i]), '=');
      var k := pieces[0];
      assert kvs[i] == (k, Join(pieces[1..], "="));
      if k == "" {
        continue;
      }
      var decoded := DecodeURIComponent(Join(pieces[1..], "="));
      if decoded.None? {
        return None;
      }
      m := m[k := decoded.value];
    }
    assert kvs[|parts|..] == [];
    return Some(m);
  }

  predicate HasKey(kvs: seq<(string, string)>, k: string)
  {
    exists i :: 0 <= i < |kvs| && kvs[i].0 == k
  }

  lemma HasKeyCons(kvs: seq<(string, string)>, k: string)
    requires |kvs| >= 1
    ensures HasKey(kvs, k) <==> kvs[0].0 == k || HasKey(kvs[1..], k)
  {
    if HasKey(kvs[1..], k) {
      var i :| 0 <= i < |kvs[1..]| && kvs[1..][i].0 == k;
      assert kvs[1..][i] == kvs[i + 1];
    }
    if HasKey(kvs, k) && kvs[0].0 != k {
      var i :| 0 <= i < |kvs| && kvs[i].0 == k;
      assert kvs[1..][i - 1] == kvs[i];
    }
  }

  /** A key no pair carries keeps its entry, or its absence. */
  lemma {:induction false} AbsorbAllUntouched(acc: map<string, string>, kvs: seq<(string, string)>, k: string)
    requires AbsorbAll(acc, kvs).Some?
    requires !HasKey(kvs, k)
    ensures k in AbsorbAll(acc, kvs).value <==> k in acc
    ensures k in acc ==> AbsorbAll(acc, kvs).value[k] == acc[k]
    decreases |kvs|
  {
    if kvs != [] {
      HasKeyCons(kvs, k);
      AbsorbAllUntouched(Absorb(acc, kvs[0]).value, kvs[1..], k);
    }
  }

  /** The parsed keys are the accumulated ones and the non-empty keys of the pairs. */
  lemma {:induction false} AbsorbAllKeys(acc: map<string, string>, kvs: seq<(string, string)>, k: string)
    requires AbsorbAll(acc, kvs).Some?
    ensures k in AbsorbAll(acc, kvs).value <==> k in acc || (k != "" && HasKey(kvs, k))
    decreases |kvs|
  {
    if kvs != [] {
      HasKeyCons(kvs, k);
      AbsorbAllKeys(Absorb(acc, kvs[0]).value, kvs[1..], k);
    }
  }

  /** Of several pairs with the same key, the last one decides the value. */
  lemma {:induction false} AbsorbAllLast(acc: map<string, string>, kvs: seq<(string, string)>, i: nat)
    requires AbsorbAll(acc, kvs).Some?
    requires i < |kvs| && kvs[i].0 != ""
    requires forall j :: i < j < |kvs| ==> kvs[j].0 != kvs[i].0
    ensures DecodeURIComponent(kvs[i].1).Some?
    ensures kvs[i].0 in AbsorbAll(acc, kvs).value
    ensures AbsorbAll(acc, kvs).value[kvs[i].0] == DecodeURIComponent(kvs[i].1).value
    decreases |kvs|
  {
    var o := Absorb(acc, kvs[0]).value;
    if i == 0 {
      assert !HasKey(kvs[1..], kvs[0].0) by {
        forall j | 0 <= j < |kvs[1..]| ensures kvs[1..][j].0 != kvs[0].0 {
          assert kvs[1..][j] == kvs[j + 1];
        }
      }
      AbsorbAllUntouched(o, kvs[1..], kvs[0].0);
    } else {
      assert kvs[1..][i - 1] == kvs[i];
      AbsorbAllLast(o, kvs[1..], i - 1);
    }
  }

  /** Parsing throws exactly when some pair with a non-empty key has a malformed value. */
  lemma {:induction false} AbsorbAllFails(acc: map<string, string>, kvs: seq<(string, string)>)
    ensures AbsorbAll(acc, kvs).None? <==>
      exists i :: 0 <= i < |kvs| && kvs[i].0 != "" && DecodeURIComponent(kvs[i].1).None?
    decreases |kvs|
  {
    if kvs != [] && Absorb(acc, kvs[0]).Some? {
      AbsorbAllFails(Absorb(acc, kvs[0]).value, kvs[1..]);
      assert forall i :: 1 <= i < |kvs| ==> kvs[1..][i - 1] == kvs[i];
    }
  }

  /** The empty-header shortcut gives what the loop would give on `""`: no cookies. */
  lemma EmptyHeaderShortcut()
    ensures CookieMap(None) == Some(map[])
    ensures AbsorbAll(map[], Pairs(Split("", ';'))) == CookieMap(Some("")) == Some(map[])
  {
    assert Split("", ';') == [""];
    assert Trim("") == "";
    assert KeyValue("").0 == "";
  }

  /** A non-empty header is parsed pair by pair; an empty one gives what that would give. */
  lemma HeaderPairs(cookieHeader: string)
    ensures CookieMap(Some(cookieHeader)) == AbsorbAll(map[], Pairs(Split(cookieHeader, ';')))
  {
    EmptyHeaderShortcut();
  }

  /** The three properties of `ParsedCookies`, over the pairs. */
  lemma AbsorbAllSpec(kvs: seq<(string, string)>)
    ensures AbsorbAll(map[], kvs).None? <==>
      exists i :: 0 <= i < |kvs| && kvs[i].0 != "" && DecodeURIComponent(kvs[i].1).None?
    ensures AbsorbAll(map[], kvs).Some? ==>
      forall k :: k in AbsorbAll(map[], kvs).value <==> k != "" && HasKey(kvs, k)
    ensures AbsorbAll(map[], kvs).Some? ==>
      forall i | 0 <= i < |kvs| && kvs[i].0 != "" && (forall j :: i < j < |kvs| ==> kvs[j].0 != kvs[i].0) ::
        kvs[i].0 in AbsorbAll(map[], kvs).value &&
        AbsorbAll(map[], kvs).value[kvs[i].0] == DecodeURIComponent(kvs[i].1).value
  {
    AbsorbAllFails(map[], kvs);
    if AbsorbAll(map[], kvs).Some? {
      forall k ensures k in AbsorbAll(map[], kvs).value <==> k != "" && HasKey(kvs, k) {
        AbsorbAllKeys(map[], kvs, k);
      }
      forall i | 0 <= i < |kvs| && kvs[i].0 != "" && (forall j :: i < j < |kvs| ==> kvs[j].0 != kvs[i].0)
        ensures kvs[i].0 in AbsorbAll(map[], kvs).value
        ensures AbsorbAll(map[], kvs).value[kvs[i].0] == DecodeURIComponent(kvs[i].1).value
      {
        AbsorbAllLast(map[], kvs, i);
      }
    }
  }

  /**
   * The parsed cookies: the keys are exactly the non-empty keys of the
   * `;`-parts; each value is the decoded value of the LAST part with that key;
   * and parsing throws exactly when a part with a non-empty key holds a
   * malformed escape.
   */
  lemma ParsedCookies(cookieHeader: string, kvs: seq<(string, string)>)
    requires kvs == Pairs(Split(cookieHeader, ';'))
    ensures CookieMap(Some(cookieHeader)).None? <==>
      exists i :: 0 <= i < |kvs| && kvs[i].0 != "" && DecodeURIComponent(kvs[i].1).None?
    ensures CookieMap(Some(cookieHeader)).Some? ==>
      forall k :: k in CookieMap(Some(cookieHeader)).value <==> k != "" && HasKey(kvs, k)
    ensures CookieMap(Some(cookieHeader)).Some? ==>
      forall i | 0 <= i < |kvs| && kvs[i].0 != "" && (forall j :: i < j < |kvs| ==> kvs[j].0 != kvs[i].0) ::
        kvs[i].0 in CookieMap(Some(cookieHeader)).value &&
        CookieMap(Some(cookieHeader)).value[kvs[i].0] == DecodeURIComponent(kvs[i].1).value
  {
    HeaderPairs(cookieHeader);
    AbsorbAllSpec(kvs);
  }

  /** The attributes a `Set-Cookie` line may carry; `None` stands for `undefined`. */
  datatype CookieOptions = CookieOptions(
    path: Option<string>,
    httpOnly: bool,
    secure: bool,
    sameSite: Option<string>,
    maxAge: Option<int>,
    expires: Option<string>)  // the `toUTCString()` text of the expiry date

  /** `if (options.maxAge)`: present and not zero. */
  predicate HasMaxAge(o: CookieOptions)
  {
    o.maxAge.Some? && o.maxAge.value != 0
  }

  /** The list `attrs` that `serializeCookie` pushes, in push order (attribute names of section 4.1 of RFC 6265). */
  function SetCookieAttributes(name: string, value: string, o: CookieOptions): seq<string>
  {
    [name + "=" + EncodeURIComponent(value)]
    + ["Path=" + o.path.GetOr("/")]
    + (if o.httpOnly then ["HttpOnly"] else [])
    + (if o.secure then ["Secure"] else [])
    + ["SameSite=" + o.sameSite.GetOr("Lax")]
    + (if HasMaxAge(o) then ["Max-Age=" + IntToString(o.maxAge.value)] else [])
  }

  /** The auth callback's list: the same, then `Expires` when the option is set. */
  function SetCookieAttributesWithExpires(name: string, value: string, o: CookieOptions): seq<string>
  {
    SetCookieAttributes(name, value, o) + (if o.expires.Some? then ["Expires=" + o.expires.value] else [])
  }

  /** `serializeCookie` of the two middleware files. */
  function SerializeCookie(name: string, value: string, o: CookieOptions): string
  {
    Join(SetCookieAttributes(name, value, o), "; ")
  }

  /** `serializeCookie` of the auth callback. */
  function SerializeCookieWithExpires(name: string, value: string, o: CookieOptions): string
  {
    Join(SetCookieAttributesWithExpires(name, value, o), "; ")
  }

  /** `serializeCookie` step by step: push each attribute onto `attrs`, then join them with `"; "`. */
  method BuildSetCookie(name: string, value: string, options: CookieOptions, withExpires: bool) returns (line: string)
    ensures !withExpires ==> line == SerializeCookie(name, value, options)
    ensures withExpires ==> line == SerializeCookieWithExpires(name, value, options)
  {
    var attrs: seq<string> := [];
    attrs := attrs + [name + "=" + EncodeURIComponent(value)];
    attrs := attrs + ["Path=" + options.path.GetOr("/")];
    if options.httpOnly {
      attrs := attrs + ["HttpOnly"];
    }
    if options.secure {
      attrs := attrs + ["Secure"];
    }
    assert attrs == [name + "=" + EncodeURIComponent(value)] + ["Path=" + options.path.GetOr("/")]
      + (if options.httpOnly then ["HttpOnly"] else []) + (if options.secure then ["Secure"] else []);
    attrs := attrs + ["SameSite=" + options.sameSite.GetOr("Lax")];
    if options.maxAge.Some? && options.maxAge.value != 0 {
      attrs := attrs + ["Max-Age=" + IntToString(options.maxAge.value)];
    }
    assert attrs == SetCookieAttributes(name, value, options);
    if withExpires && options.expires.Some? {
      attrs := attrs + ["Expires=" + options.expires.value];
    }
    assert withExpires ==> attrs == SetCookieAttributesWithExpires(name, value, options);
    line := Join(attrs, "; ");
  }

  /**
   * The callback's serializer writes exactly the middleware's line, followed
   * by `; Expires=...` when and only when `expires` is set.
   */
  lemma ExpiresOnlyExtends(name: string, value: string, o: CookieOptions)
    ensures o.expires.None? ==> SerializeCookieWithExpires(name, value, o) == SerializeCookie(name, value, o)
    ensures o.expires.Some? ==>
      SerializeCookieWithExpires(name, value, o) == SerializeCookie(name, value, o) + "; Expires=" + o.expires.value
  {
    var attrs := SetCookieAttributes(name, value, o);
    if o.expires.Some? {
      JoinSnoc(attrs, "Expires=" + o.expires.value, "; ");
    } else {
      assert SetCookieAttributesWithExpires(name, value, o) == attrs;
    }
  }

  /** The string `encodeURIComponent` gives holds no `;`, no `=` and no whitespace. */
  lemma EncodedIsInert(value: string)
    ensures ';' !in EncodeURIComponent(value) && '=' !in EncodeURIComponent(value)
    ensures forall i :: 0 <= i < |EncodeURIComponent(value)| ==> !IsWhitespace(EncodeURIComponent(value)[i])
  {
    EncodedIsPlain(value);
  }

  /** A `name=value` pair with a name free of `=` splits back into its key and value. */
  lemma KeyValueOfPair(name: string, enc: string)
    requires name != "" && '=' !in name && '=' !in enc && !IsWhitespace(name[0])
    requires enc == [] || !IsWhitespace(enc[|enc| - 1])
    ensures KeyValue(name + "=" + enc) == (name, enc)
  {
    var pair := name + "=" + enc;
    assert pair[0] == name[0];
    assert pair[|pair| - 1] == if enc == [] then '=' else enc[|enc| - 1];
    TrimUnchanged(pair);
    assert Join([name, enc], "=") == pair;
    SplitJoin([name, enc], '=');
    assert Split(pair, '=')[1..] == [enc];
  }

  /** `name=encodeURIComponent(value)` parses back to the one cookie `name` with value `value`. */
  lemma PairRoundTrip(name: string, value: string)
    requires name != "" && '=' !in name && ';' !in name && !IsWhitespace(name[0])
    ensures CookieMap(Some(name + "=" + EncodeURIComponent(value))) == Some(map[name := value])
  {
    var enc := EncodeURIComponent(value);
    var pair := name + "=" + enc;
    EncodedIsInert(value);
    assert ';' !in pair;
    assert Join([pair], [';']) == pair;
    SplitJoin([pair], ';');
    assert Split(pair, ';') == [pair];
    KeyValueOfPair(name, enc);
    assert Pairs([pair]) == [(name, enc)];
    DecodeEncode(value);
    assert Absorb(map[], (name, enc)) == Some(map[name := value]);
    assert AbsorbAll(map[], [(name, enc)]) == Some(map[name := value]);
  }

  /**
   * The round trip through a `Set-Cookie` line: its first `;`-separated
   * segment, sent back in a `Cookie` header, parses to `name` mapped to
   * `value`, whatever the value and the options.
   */
  lemma SetCookieRoundTrip(name: string, value: string, o: CookieOptions, withExpires: bool)
    requires name != "" && '=' !in name && ';' !in name && !IsWhitespace(name[0])
    ensures
      var line := if withExpires then SerializeCookieWithExpires(name, value, o) else SerializeCookie(name, value, o);
      CookieMap(Some(Split(line, ';')[0])) == Some(map[name := value])
  {
    var attrs := if withExpires then SetCookieAttributesWithExpires(name, value, o) else SetCookieAttributes(name, value, o);
    var pair := name + "=" + EncodeURIComponent(value);
    EncodedIsInert(value);
    assert attrs[0] == pair;
    var tail := Join(attrs[1..], "; ");
    assert Join(attrs, "; ") == pair + [';'] + (" " + tail);
    SplitHead(pair, " " + tail, ';');
    PairRoundTrip(name, value);
  }

  /** The options the `set` callback passes: the caller's, with `httpOnly` and `secure` forced on. */
  function ForcedOptions(o: CookieOptions): CookieOptions
  {
    o.(httpOnly := true, secure := true)
  }

  /** The options the `remove` callback passes: also `maxAge: 0`. */
  function RemovalOptions(o: CookieOptions): CookieOptions
  {
    o.(maxAge := Some(0), httpOnly := true, secure := true)
  }

  /** Whatever the caller asks, a cookie written through the callbacks is `HttpOnly` and `Secure`. */
  lemma ForcedFlagsPresent(name: string, value: string, o: CookieOptions)
    ensures "HttpOnly" in SetCookieAttributes(name, value, ForcedOptions(o))
    ensures "Secure" in SetCookieAttributes(name, value, ForcedOptions(o))
    ensures "HttpOnly" in SetCookieAttributes(name, "", RemovalOptions(o))
    ensures "Secure" in SetCookieAttributes(name, "", RemovalOptions(o))
  {
  }

  /**
   * A removal cookie is `name=` with the forced flags and, because `maxAge: 0`
   * is falsy, no `Max-Age` attribute at all.
   */
  lemma RemovalCookie(name: string, o: CookieOptions)
    ensures SetCookieAttributes(name, "", RemovalOptions(o)) ==
      [name + "=", "Path=" + o.path.GetOr("/"), "HttpOnly", "Secure", "SameSite=" + o.sameSite.GetOr("Lax")]
  {
    assert EncodeURIComponent("") == "";
    assert name + "=" + "" == name + "=";
  }

  /** After the `name=` pair, no attribute of a removal line is a `Max-Age`, with or without `Expires`. */
  lemma RemovalHasNoMaxAge(name: string, o: CookieOptions, withExpires: bool)
    ensures var attrs := if withExpires then SetCookieAttributesWithExpires(name, "", RemovalOptions(o))
                         else SetCookieAttributes(name, "", RemovalOptions(o));
      attrs[0] == name + "=" && forall k :: 1 <= k < |attrs| ==> attrs[k][0] != 'M' && !StartsWith(attrs[k], "Max-Age=")
  {
    RemovalCookie(name, o);
  }
}
