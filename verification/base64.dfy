/**
 * `base64url` of functions/api/subscribe.ts: the bytes become a Latin-1
 * string one character per byte, `btoa` encodes that string with the standard
 * alphabet and `=` padding (section 4 of RFC 4648), and three regular-expression
 * replacements turn the result into the unpadded URL-safe form (section 5 of
 * RFC 4648, padding omitted as section 3.2 allows).
 */
module Base64 {
  import opened Wrappers
  import opened Strings

  /** Six bits: one character of an encoding. */
  type Sextet = v: int | 0 <= v < 64

  /** Table 1 of RFC 4648 section 4. */
  function StdChar(v: Sextet): char
  {
    if v < 26 then ('A' as int + v) as char
    else if v < 52 then ('a' as int + (v - 26)) as char
    else if v < 62 then ('0' as int + (v - 52)) as char
    else if v == 62 then '+'
    else '/'
  }

  /** Table 2 of RFC 4648 section 5: the last two characters become `-` and `_`. */
  function UrlChar(v: Sextet): char
  {
    if v < 62 then StdChar(v) else if v == 62 then '-' else '_'
  }

  predicate IsUrlSafeChar(c: char)
  {
    'A' <= c <= 'Z' || 'a' <= c <= 'z' || '0' <= c <= '9' || c == '-' || c == '_'
  }

  /**
   * The sextets of RFC 4648 section 4: each group of three bytes gives four,
   * and a final group of one or two bytes, completed with zero bits, gives two
   * or three. `n` bytes give the ceiling of `4n/3` sextets.
   */
  function Sextets(b: seq<Byte>): (r: seq<Sextet>)
    ensures |r| == (4 * |b| + 2) / 3
    decreases |b|
  {
    if |b| == 0 then []
    else if |b| == 1 then [b[0] / 4, (b[0] % 4) * 16]
    else if |b| == 2 then [b[0] / 4, (b[0] % 4) * 16 + b[1] / 16, (b[1] % 16) * 4]
    else [b[0] / 4, (b[0] % 4) * 16 + b[1] / 16, (b[1] % 16) * 4 + b[2] / 64, b[2] % 64] + Sextets(b[3..])
  }

  function StdText(v: seq<Sextet>): string
  {
    seq(|v|, i requires 0 <= i < |v| => StdChar(v[i]))
  }

  function UrlText(v: seq<Sextet>): string
  {
    seq(|v|, i requires 0 <= i < |v| => UrlChar(v[i]))
  }

  /** The `=` characters that complete the last quantum of `n` bytes to four characters. */
  function Padding(n: nat): string
  {
    if n % 3 == 1 then "==" else if n % 3 == 2 then "=" else ""
  }

  /** A string `btoa` accepts: every character code fits in a byte. */
  predicate IsLatin1(s: string)
  {
    forall i :: 0 <= i < |s| ==> s[i] as int < 256
  }

  function Codes(s: string): seq<Byte>
    requires IsLatin1(s)
  {
    seq(|s|, i requires 0 <= i < |s| => s[i] as int)
  }

  /** The sextets of `n` bytes and their padding fill whole quanta of four characters. */
  lemma PaddedLength(n: nat)
    ensures (4 * n + 2) / 3 + |Padding(n)| == 4 * ((n + 2) / 3)
  {
    var q, r := n / 3, n % 3;
    assert n == 3 * q + r;
    if r == 0 {
      assert (4 * n + 2) / 3 == 4 * q && (n + 2) / 3 == q;
    } else if r == 1 {
      assert (4 * n + 2) / 3 == 4 * q + 2 && (n + 2) / 3 == q + 1;
    } else {
      assert (4 * n + 2) / 3 == 4 * q + 3 && (n + 2) / 3 == q + 1;
    }
  }

  /** `btoa(s)`: the standard encoding of the character codes, padded to a multiple of four. */
  function Btoa(s: string): (r: string)
    requires IsLatin1(s)
    ensures |r| % 4 == 0 && |r| == 4 * ((|s| + 2) / 3)
  {
    PaddedLength(|s|);
    StdText(Sextets(Codes(s))) + Padding(|s|)
  }

  /** The string the loop of lines 16-18 builds: `String.fromCharCode` of each byte, in order. */
  function Latin1(b: seq<Byte>): (s: string)
    ensures |s| == |b| && IsLatin1(s) && Codes(s) == b
  {
    seq(|b|, i requires 0 <= i < |b| => b[i] as char)
  }

  /** `s.replace(/x/g, y)` for a single character `x`. */
  function ReplaceChar(s: string, x: char, y: char): string
  {
    seq(|s|, i requires 0 <= i < |s| => if s[i] == x then y else s[i])
  }

  /** `s.replace(/=+$/g, "")`: drops the run of `=` at the end. */
  function StripTrailingPadding(s: string): (r: string)
    ensures |r| <= |s| && r == s[..|r|]
    ensures r == [] || r[|r| - 1] != '='
    ensures forall k :: |r| <= k < |s| ==> s[k] == '='
  {
    if |s| > 0 && s[|s| - 1] == '=' then StripTrailingPadding(s[..|s| - 1]) else s
  }

  /** The three replacements of line 19. */
  function ToUrlSafe(s: string): string
  {
    StripTrailingPadding(ReplaceChar(ReplaceChar(s, '+', '-'), '/', '_'))
  }

  /** What `base64url(bytes)` returns. */
  function Base64Url(bytes: seq<Byte>): string
  {
    ToUrlSafe(Btoa(Latin1(bytes)))
  }

  /** The URL-safe encoding of RFC 4648 section 5 with the padding left off. */
  function UnpaddedUrlEncoding(bytes: seq<Byte>): string
  {
    UrlText(Sextets(bytes))
  }

  /** `base64url` of lines 15-20: the loop copies each byte into a Latin-1 string, which `btoa` then encodes. */
  method EncodeBase64Url(bytes: array<Byte>) returns (s: string)
    ensures s == Base64Url(bytes[..])
  {
    var str := "";
    for i := 0 to bytes.Length
      invariant str == Latin1(bytes[..i])
    {
      assert bytes[..i + 1] == bytes[..i] + [bytes[i]];
      str := str + [bytes[i] as char];
    }
    assert bytes[..bytes.Length] == bytes[..];
    s := ToUrlSafe(Btoa(str));
  }

  lemma {:induction false} StripPaddingSuffix(x: string, p: string)
    requires x == [] || x[|x| - 1] != '='
    requires forall k :: 0 <= k < |p| ==> p[k] == '='
    ensures StripTrailingPadding(x + p) == x
    decreases |p|
  {
    if p == [] {
      assert x + p == x;
    } else {
      var s := x + p;
      assert s[|s| - 1] == '=';
      assert s[..|s| - 1] == x + p[..|p| - 1];
      StripPaddingSuffix(x, p[..|p| - 1]);
    }
  }

  /**
   * Rewriting `+` and `/` and dropping the padding turns the output of `btoa`
   * into exactly the unpadded URL-safe encoding of the same bytes.
   */
  lemma Base64UrlIsUnpaddedUrlEncoding(bytes: seq<Byte>)
    ensures Base64Url(bytes) == UnpaddedUrlEncoding(bytes)
  {
    var v := Sextets(bytes);
    var std := StdText(v) + Padding(|bytes|);
    assert Btoa(Latin1(bytes)) == std;
    var pad := Padding(|bytes|);
    var replaced := ReplaceChar(ReplaceChar(std, '+', '-'), '/', '_');
    assert replaced == UrlText(v) + pad by {
      assert |replaced| == |UrlText(v) + pad|;
      forall k | 0 <= k < |replaced|
        ensures replaced[k] == (UrlText(v) + pad)[k]
      {
        if k < |v| {
          assert std[k] == StdChar(v[k]);
        } else {
          assert std[k] == pad[k - |v|];
        }
      }
    }
    StripPaddingSuffix(UrlText(v), pad);
  }

  /**
   * `base64url` output never holds `+`, `/` or `=`: every character is in the
   * URL-safe alphabet, and `n` bytes give the ceiling of `4n/3` characters.
   */
  lemma Base64UrlShape(bytes: seq<Byte>)
    ensures |Base64Url(bytes)| == (4 * |bytes| + 2) / 3
    ensures forall i :: 0 <= i < |Base64Url(bytes)| ==> IsUrlSafeChar(Base64Url(bytes)[i])
    ensures '+' !in Base64Url(bytes) && '/' !in Base64Url(bytes) && '=' !in Base64Url(bytes)
    ensures '.' !in Base64Url(bytes)
  {
    Base64UrlIsUnpaddedUrlEncoding(bytes);
    var s := Base64Url(bytes);
    forall i | 0 <= i < |s| ensures IsUrlSafeChar(s[i]) {
    }
    assert forall c :: c in s ==> IsUrlSafeChar(c);
  }

  /** The value of a character of the URL-safe alphabet; `None` for any other character. */
  function UrlValue(c: char): Option<Sextet>
  {
    if 'A' <= c <= 'Z' then Some(c as int - 'A' as int)
    else if 'a' <= c <= 'z' then Some(c as int - 'a' as int + 26)
    else if '0' <= c <= '9' then Some(c as int - '0' as int + 52)
    else if c == '-' then Some(62)
    else if c == '_' then Some(63)
    else None
  }

  function TextSextets(s: string): Option<seq<Sextet>>
  {
    if s == [] then Some([])
    else match (UrlValue(s[0]), TextSextets(s[1..]))
      case (Some(v), Some(rest)) => Some([v] + rest)
      case _ => None
  }

  /** Regroups sextets into bytes; a lone final sextet cannot stand for a byte. */
  function FromSextets(v: seq<Sextet>): Option<seq<Byte>>
    decreases |v|
  {
    if |v| < 2 then (if |v| == 0 then Some([]) else None)
    else
      var b0: Byte := v[0] as int * 4 + v[1] as int / 16;
      if |v| == 2 then Some([b0])
      else
        var b1: Byte := (v[1] as int % 16) * 16 + v[2] as int / 4;
        if |v| == 3 then Some([b0, b1])
        else
          var b2: Byte := (v[2] as int % 4) * 64 + v[3] as int;
          match FromSextets(v[4..])
          case None => None
          case Some(rest) => Some([b0, b1, b2] + rest)
  }

  /** Decoding of the unpadded URL-safe encoding: the partner against which `base64url` is checked. */
  function DecodeUrl(s: string): Option<seq<Byte>>
  {
    match TextSextets(s)
    case None => None
    case Some(v) => FromSextets(v)
  }

  lemma {:induction false} TextSextetsOfUrlText(v: seq<Sextet>)
    ensures TextSextets(UrlText(v)) == Some(v)
    decreases |v|
  {
    if v != [] {
      var t := UrlText(v);
      assert t[1..] == UrlText(v[1..]);
      TextSextetsOfUrlText(v[1..]);
      assert v == [v[0]] + v[1..];
    }
  }

  /** The arithmetic of one group: the sextets of three bytes give the bytes back. */
  lemma RegroupGroup(b0: Byte, b1: Byte, b2: Byte)
    ensures (b0 / 4) * 4 + ((b0 % 4) * 16 + b1 / 16) / 16 == b0
    ensures (((b0 % 4) * 16 + b1 / 16) % 16) * 16 + ((b1 % 16) * 4 + b2 / 64) / 4 == b1
    ensures (((b1 % 16) * 4 + b2 / 64) % 4) * 64 + b2 % 64 == b2
  {
    assert ((b0 % 4) * 16 + b1 / 16) / 16 == b0 % 4;
    assert ((b0 % 4) * 16 + b1 / 16) % 16 == b1 / 16;
    assert ((b1 % 16) * 4 + b2 / 64) / 4 == b1 % 16;
    assert ((b1 % 16) * 4 + b2 / 64) % 4 == b2 / 64;
  }

  /** Two sextets make one byte. */
  lemma FromTwo(s0: Sextet, s1: Sextet)
    ensures FromSextets([s0, s1]) == Some([s0 as int * 4 + s1 as int / 16])
  {
  }

  /** Three sextets make two bytes. */
  lemma FromThree(s0: Sextet, s1: Sextet, s2: Sextet)
    ensures FromSextets([s0, s1, s2]) == Some([s0 as int * 4 + s1 as int / 16, (s1 as int % 16) * 16 + s2 as int / 4])
  {
  }

  /** Four sextets make three bytes, ahead of the bytes of the rest. */
  lemma FromFour(v: seq<Sextet>, rest: seq<Byte>)
    requires |v| >= 4 && FromSextets(v[4..]) == Some(rest)
    ensures FromSextets(v) == Some([v[0] as int * 4 + v[1] as int / 16, (v[1] as int % 16) * 16 + v[2] as int / 4,
                                    (v[2] as int % 4) * 64 + v[3] as int] + rest)
  {
  }

  lemma RegroupOne(b0: Byte)
    ensures FromSextets(Sextets([b0])) == Some([b0])
  {
    var s0: Sextet, s1: Sextet := b0 / 4, (b0 % 4) * 16;
    assert Sextets([b0]) == [s0, s1];
    assert s1 as int / 16 == b0 % 4;
    FromTwo(s0, s1);
  }

  lemma RegroupTwo(b0: Byte, b1: Byte)
    ensures FromSextets(Sextets([b0, b1])) == Some([b0, b1])
  {
    var s0: Sextet, s1: Sextet, s2: Sextet := b0 / 4, (b0 % 4) * 16 + b1 / 16, (b1 % 16) * 4;
    assert Sextets([b0, b1]) == [s0, s1, s2];
    RegroupGroup(b0, b1, 0);
    assert s0 as int * 4 + s1 as int / 16 == b0;
    assert (s1 as int % 16) * 16 + s2 as int / 4 == b1;
    FromThree(s0, s1, s2);
  }

  /** A full group of three bytes is regrouped, then the rest as it would be on its own. */
  lemma RegroupStep(b0: Byte, b1: Byte, b2: Byte, rest: seq<Byte>)
    requires FromSextets(Sextets(rest)) == Some(rest)
    ensures FromSextets(Sextets([b0, b1, b2] + rest)) == Some([b0, b1, b2] + rest)
  {
    var b := [b0, b1, b2] + rest;
    assert b[0] == b0 && b[1] == b1 && b[2] == b2 && b[3..] == rest;
    var s0: Sextet, s1: Sextet, s2: Sextet, s3: Sextet := b0 / 4, (b0 % 4) * 16 + b1 / 16, (b1 % 16) * 4 + b2 / 64, b2 % 64;
    var v := Sextets(b);
    assert v == [s0, s1, s2, s3] + Sextets(rest);
    assert v[..4] == [s0, s1, s2, s3] && v[4..] == Sextets(rest);
    RegroupGroup(b0, b1, b2);
    FromFour(v, rest);
  }

  lemma {:induction false} FromSextetsOfSextets(b: seq<Byte>)
    ensures FromSextets(Sextets(b)) == Some(b)
    decreases |b|
  {
    if |b| == 1 {
      RegroupOne(b[0]);
      assert b == [b[0]];
    } else if |b| == 2 {
      RegroupTwo(b[0], b[1]);
      assert b == [b[0], b[1]];
    } else if |b| >= 3 {
      FromSextetsOfSextets(b[3..]);
      RegroupStep(b[0], b[1], b[2], b[3..]);
      assert b == [b[0], b[1], b[2]] + b[3..];
    }
  }

  /** Decoding undoes `base64url`; in particular two byte strings with the same encoding are equal. */
  lemma DecodeBase64Url(bytes: seq<Byte>)
    ensures DecodeUrl(Base64Url(bytes)) == Some(bytes)
  {
    Base64UrlIsUnpaddedUrlEncoding(bytes);
    TextSextetsOfUrlText(Sextets(bytes));
    FromSextetsOfSextets(bytes);
  }
}
