/**
 * The part of JSON (RFC 8259) the handlers write: `JSON.stringify` of a
 * string (ECMAScript's QuoteJSONString) and of an integral number, and a
 * reader for both that undoes them.
 */
module Json {
  import opened Wrappers
  import opened Strings

  /** Lower-case hexadecimal digit, as `JSON.stringify` writes `\u` escapes. */
  function LowerHexDigit(v: Nibble): char
  {
    if v < 10 then ('0' as int + v) as char else ('a' as int + (v - 10)) as char
  }

  /** How `JSON.stringify` writes one character inside a string literal. */
  function QuoteChar(c: char): string
  {
    if c == '\U{8}' then "\\b"
    else if c == '\t' then "\\t"
    else if c == '\n' then "\\n"
    else if c == '\U{C}' then "\\f"
    else if c == '\r' then "\\r"
    else if c == '"' then "\\\""
    else if c == '\\' then "\\\\"
    else if c < ' ' then "\\u00" + [LowerHexDigit(c as int / 16), LowerHexDigit(c as int % 16)]
    else [c]
  }

  function QuoteBody(s: string): string
  {
    if s == [] then "" else QuoteChar(s[0]) + QuoteBody(s[1..])
  }

  /** `JSON.stringify(s)` for a string `s`. */
  function Quote(s: string): string
  {
    "\"" + QuoteBody(s) + "\""
  }

  /** `JSON.stringify(n)` for an integer `n` below 10^21 in magnitude. */
  function Number(n: int): string
  {
    IntToString(n)
  }

  /** The character an escape stands for and how many characters after the backslash it takes. */
  function Unescape(s: string): (r: Option<(char, nat)>)
    ensures r.Some? ==> 1 <= r.value.1 <= |s|
  {
    if s == [] then None
    else if s[0] == '"' then Some(('"', 1))
    else if s[0] == '\\' then Some(('\\', 1))
    else if s[0] == '/' then Some(('/', 1))
    else if s[0] == 'b' then Some(('\U{8}', 1))
    else if s[0] == 'f' then Some(('\U{C}', 1))
    else if s[0] == 'n' then Some(('\n', 1))
    else if s[0] == 'r' then Some(('\r', 1))
    else if s[0] == 't' then Some(('\t', 1))
    else if s[0] == 'u' && |s| >= 5 then
      match (HexValue(s[1]), HexValue(s[2]), HexValue(s[3]), HexValue(s[4]))
      case (Some(a), Some(b), Some(c), Some(d)) =>
        var v := ((a as int * 16 + b as int) * 16 + c as int) * 16 + d as int;
        if 0xD800 <= v < 0xE000 then None else Some((v as char, 5))
      case _ => None
    else None
  }

  function PrependChar(c: char, r: Option<(string, string)>): Option<(string, string)>
  {
    match r
    case None => None
    case Some((t, rest)) => Some(([c] + t, rest))
  }

  /** Reads the rest of a string literal after its opening quote: the text and what follows the closing quote. */
  function ReadStringBody(s: string): Option<(string, string)>
    decreases |s|
  {
    if s == [] then None
    else if s[0] == '"' then Some(("", s[1..]))
    else if s[0] == '\\' then
      match Unescape(s[1..])
      case None => None
      case Some((c, n)) => PrependChar(c, ReadStringBody(s[1 + n..]))
    else if s[0] < ' ' then None
    else PrependChar(s[0], ReadStringBody(s[1..]))
  }

  /** Reads a string literal at the start of `s`. */
  function ReadString(s: string): Option<(string, string)>
  {
    if s != [] && s[0] == '"' then ReadStringBody(s[1..]) else None
  }

  /** The longest prefix of decimal digits. */
  function DigitPrefix(s: string): (d: string)
    ensures |d| <= |s| && d == s[..|d|]
    ensures forall i :: 0 <= i < |d| ==> IsDigit(d[i])
    ensures |d| == |s| || !IsDigit(s[|d|])
  {
    if s != [] && IsDigit(s[0]) then [s[0]] + DigitPrefix(s[1..]) else ""
  }

  /** Reads an optionally negative integer at the start of `s`. */
  function ReadInt(s: string): Option<(int, string)>
  {
    var neg := s != [] && s[0] == '-';
    var t := if neg then s[1..] else s;
    var d := DigitPrefix(t);
    if d == [] then None
    else Some((if neg then -DecimalValue(d) else DecimalValue(d), t[|d|..]))
  }

  lemma ReadControlEscape(c: char, t: string)
    requires c < ' '
    ensures ReadStringBody("\\u00" + [LowerHexDigit(c as int / 16), LowerHexDigit(c as int % 16)] + t)
      == PrependChar(c, ReadStringBody(t))
  {
    var hi := c as int / 16;
    var lo := c as int % 16;
    var s := "\\u00" + [LowerHexDigit(hi), LowerHexDigit(lo)] + t;
    assert hi == 0 || hi == 1;
    assert s[1..][1..5] == ['0', '0', LowerHexDigit(hi), LowerHexDigit(lo)];
    assert HexValue(LowerHexDigit(lo)) == Some(lo);
    assert Unescape(s[1..]) == Some((c, 5));
    assert s[6..] == t;
  }

  lemma ReadShortEscape(e: char, c: char, t: string)
    requires Unescape([e]) == Some((c, 1))
    ensures ReadStringBody(['\\', e] + t) == PrependChar(c, ReadStringBody(t))
  {
    var s := ['\\', e] + t;
    assert s[1..][0] == e;
    assert s[2..] == t;
  }

  lemma ReadQuotedChar(c: char, t: string)
    ensures ReadStringBody(QuoteChar(c) + t) == PrependChar(c, ReadStringBody(t))
  {
    if c == '\U{8}' {
      ReadShortEscape('b', c, t);
    } else if c == '\t' {
      ReadShortEscape('t', c, t);
    } else if c == '\n' {
      ReadShortEscape('n', c, t);
    } else if c == '\U{C}' {
      ReadShortEscape('f', c, t);
    } else if c == '\r' {
      ReadShortEscape('r', c, t);
    } else if c == '"' {
      ReadShortEscape('"', c, t);
    } else if c == '\\' {
      ReadShortEscape('\\', c, t);
    } else if c < ' ' {
      ReadControlEscape(c, t);
    } else {
      assert ([c] + t)[1..] == t;
    }
  }

  lemma {:induction false} ReadQuoteBody(s: string, rest: string)
    ensures ReadStringBody(QuoteBody(s) + "\"" + rest) == Some((s, rest))
  {
    if s == [] {
      assert ("\"" + rest)[1..] == rest;
    } else {
      assert QuoteBody(s) + "\"" + rest == QuoteChar(s[0]) + (QuoteBody(s[1..]) + "\"" + rest);
      ReadQuotedChar(s[0], QuoteBody(s[1..]) + "\"" + rest);
      ReadQuoteBody(s[1..], rest);
      assert [s[0]] + s[1..] == s;
    }
  }

  /** Reading back what `JSON.stringify` wrote for a string gives the string and what follows. */
  lemma ReadQuote(s: string, rest: string)
    ensures ReadString(Quote(s) + rest) == Some((s, rest))
  {
    assert (Quote(s) + rest)[1..] == QuoteBody(s) + "\"" + rest;
    ReadQuoteBody(s, rest);
  }

  lemma {:induction false} DigitPrefixOf(d: string, rest: string)
    requires forall i :: 0 <= i < |d| ==> IsDigit(d[i])
    requires rest == [] || !IsDigit(rest[0])
    ensures DigitPrefix(d + rest) == d
  {
    if d != [] {
      assert (d + rest)[1..] == d[1..] + rest;
      DigitPrefixOf(d[1..], rest);
      assert [d[0]] + d[1..] == d;
    }
  }

  /** Reading back what `JSON.stringify` wrote for an integer gives the integer, when no digit follows. */
  lemma ReadNumber(n: int, rest: string)
    requires rest == [] || !IsDigit(rest[0])
    ensures ReadInt(Number(n) + rest) == Some((n, rest))
  {
    var d := NatToString(if n < 0 then -n else n);
    if n < 0 {
      assert Number(n) + rest == "-" + (d + rest);
      assert ("-" + (d + rest))[1..] == d + rest;
    }
    DigitPrefixOf(d, rest);
    assert (d + rest)[|d|..] == rest;
  }
}
