/**
 * `encodeURIComponent` and `decodeURIComponent` as ECMAScript defines them:
 * percent-encoding (section 2.1 of RFC 3986) of the UTF-8 bytes (RFC 3629) of
 * every character outside letters, digits and `-_.!~*'()`, and the decoding
 * that reverses it and fails (a `URIError` in JavaScript, `None` here) on a
 * malformed escape or an invalid UTF-8 sequence.
 */
module UriEncoding {
  import opened Wrappers
  import opened Strings
  import opened Utf8

  /** The characters `encodeURIComponent` copies unchanged. */
  predicate IsUnescaped(c: char)
  {
    || 'A' <= c <= 'Z' || 'a' <= c <= 'z' || '0' <= c <= '9'
    || c == '-' || c == '_' || c == '.' || c == '!' || c == '~' || c == '*' || c == '\'' || c == '(' || c == ')'
  }

  /** Upper-case hexadecimal digit, as `encodeURIComponent` writes them. */
  function HexDigit(v: Nibble): char
  {
    if v < 10 then ('0' as int + v) as char else ('A' as int + (v - 10)) as char
  }

  /** `%XX` for one byte. */
  function Escape(b: Byte): string
  {
    ['%', HexDigit(b / 16), HexDigit(b % 16)]
  }

  function EscapeAll(bs: seq<Byte>): (r: string)
    ensures |r| == 3 * |bs|
    ensures forall i :: 0 <= i < |r| ==> IsUnescaped(r[i]) || r[i] == '%'
  {
    if bs == [] then "" else Escape(bs[0]) + EscapeAll(bs[1..])
  }

  function EncodeChar(c: char): (r: string)
    ensures forall i :: 0 <= i < |r| ==> IsUnescaped(r[i]) || r[i] == '%'
  {
    if IsUnescaped(c) then [c] else EscapeAll(CharBytes(c))
  }

  /** `encodeURIComponent(s)`: only unreserved characters and `%` escapes remain. */
  function EncodeURIComponent(s: string): (r: string)
    ensures forall i :: 0 <= i < |r| ==> IsUnescaped(r[i]) || r[i] == '%'
  {
    if s == [] then "" else EncodeChar(s[0]) + EncodeURIComponent(s[1..])
  }

  /** No character `encodeURIComponent` writes is whitespace or a query, fragment or cookie delimiter. */
  lemma EncodedCharIsPlain(c: char)
    requires IsUnescaped(c) || c == '%'
    ensures !IsWhitespace(c)
    ensures c != ';' && c != '=' && c != '&' && c != '#' && c != '?'
  {
  }

  lemma EncodedIsPlain(s: string)
    ensures var e := EncodeURIComponent(s);
      forall i :: 0 <= i < |e| ==>
        && !IsWhitespace(e[i])
        && e[i] != ';' && e[i] != '=' && e[i] != '&' && e[i] != '#' && e[i] != '?'
  {
    var e := EncodeURIComponent(s);
    forall i | 0 <= i < |e|
      ensures !IsWhitespace(e[i]) && e[i] != ';' && e[i] != '=' && e[i] != '&' && e[i] != '#' && e[i] != '?'
    {
      EncodedCharIsPlain(e[i]);
    }
  }

  /** A string of unreserved characters only is left as it is. */
  lemma {:induction false} EncodeUnreserved(s: string)
    requires forall i :: 0 <= i < |s| ==> IsUnescaped(s[i])
    ensures EncodeURIComponent(s) == s
  {
    if s != [] {
      EncodeUnreserved(s[1..]);
      assert [s[0]] + s[1..] == s;
    }
  }

  /** Reads one `%XX` escape at the start of `s`. */
  function ReadEscape(s: string): (r: Option<Byte>)
    ensures r.Some? ==> |s| >= 3 && s[0] == '%'
  {
    if |s| >= 3 && s[0] == '%' then
      match (HexValue(s[1]), HexValue(s[2]))
      case (Some(h), Some(l)) => Some(h as int * 16 + l as int)
      case _ => None
    else None
  }

  /** Reads `m` escapes of continuation bytes. */
  function ReadContinuations(s: string, m: nat): (r: Option<seq<Byte>>)
    ensures r.Some? ==> |r.value| == m && |s| >= 3 * m
    ensures r.Some? ==> forall i :: 0 <= i < m ==> IsContinuation(r.value[i])
    decreases m
  {
    if m == 0 then Some([])
    else match ReadEscape(s)
      case None => None
      case Some(b) =>
        if !IsContinuation(b) then None
        else match ReadContinuations(s[3..], m - 1)
          case None => None
          case Some(rest) => Some([b] + rest)
  }

  function Prepend(c: char, rest: Option<string>): Option<string>
  {
    match rest
    case None => None
    case Some(t) => Some([c] + t)
  }

  /** `decodeURIComponent(s)`; `None` where JavaScript throws a `URIError`. */
  function DecodeURIComponent(s: string): Option<string>
    decreases |s|
  {
    if s == [] then Some([])
    else if s[0] != '%' then Prepend(s[0], DecodeURIComponent(s[1..]))
    else match ReadEscape(s)
      case None => None
      case Some(lead) =>
        var n := SequenceLength(lead);
        if n == 0 then None
        else if n == 1 then Prepend(lead as char, DecodeURIComponent(s[3..]))
        else match ReadContinuations(s[3..], n - 1)
          case None => None
          case Some(cont) =>
            match CodePoint(lead, cont)
            case None => None
            case Some(c) => Prepend(c, DecodeURIComponent(s[3 * n..]))
  }

  lemma ReadEscapeOf(b: Byte, t: string)
    ensures ReadEscape(Escape(b) + t) == Some(b)
  {
    var s := Escape(b) + t;
    assert s[0] == '%' && s[1] == HexDigit(b / 16) && s[2] == HexDigit(b % 16);
  }

  /** One escaped continuation byte is read, then the rest as on its own. */
  lemma ReadContinuationStep(c: Byte, rest: seq<Byte>, u: string)
    requires IsContinuation(c) && ReadContinuations(u, |rest|) == Some(rest)
    ensures ReadContinuations(Escape(c) + u, |rest| + 1) == Some([c] + rest)
  {
    ReadEscapeOf(c, u);
    assert (Escape(c) + u)[3..] == u;
  }

  lemma {:induction false} ReadContinuationsOf(cs: seq<Byte>, t: string)
    requires forall i :: 0 <= i < |cs| ==> IsContinuation(cs[i])
    ensures ReadContinuations(EscapeAll(cs) + t, |cs|) == Some(cs)
    decreases |cs|
  {
    if cs != [] {
      assert EscapeAll(cs) + t == Escape(cs[0]) + (EscapeAll(cs[1..]) + t);
      ReadContinuationsOf(cs[1..], t);
      ReadContinuationStep(cs[0], cs[1..], EscapeAll(cs[1..]) + t);
      assert cs == [cs[0]] + cs[1..];
    }
  }

  lemma DecodeEncodedChar(c: char, t: string)
    ensures DecodeURIComponent(EncodeChar(c) + t) == Prepend(c, DecodeURIComponent(t))
  {
    var s := EncodeChar(c) + t;
    if IsUnescaped(c) {
      assert s[0] == c && s[1..] == t;
    } else {
      var bs := CharBytes(c);
      CharBytesDecode(c);
      assert s == Escape(bs[0]) + (EscapeAll(bs[1..]) + t);
      ReadEscapeOf(bs[0], EscapeAll(bs[1..]) + t);
      assert s[3..] == EscapeAll(bs[1..]) + t;
      if |bs| > 1 {
        ReadContinuationsOf(bs[1..], t);
        assert s[3 * |bs|..] == t;
      }
    }
  }

  /** `decodeURIComponent(encodeURIComponent(s)) == s` for every string. */
  lemma {:induction false} DecodeEncode(s: string)
    ensures DecodeURIComponent(EncodeURIComponent(s)) == Some(s)
  {
    if s != [] {
      DecodeEncodedChar(s[0], EncodeURIComponent(s[1..]));
      DecodeEncode(s[1..]);
      assert s == [s[0]] + s[1..];
    }
  }
}
