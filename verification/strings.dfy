/**
 * The JavaScript string operations the request handlers use: `trim`,
 * `split` on one character, `Array.prototype.join`, `startsWith`,
 * `toLowerCase` and the decimal rendering of a number in a template string.
 */
module Strings {
  import opened Wrappers

  /** A byte, as the elements of a `Uint8Array`. */
  type Byte = x: int | 0 <= x < 256

  /** The characters `String.prototype.trim` removes: ECMAScript WhiteSpace and LineTerminator. */
  predicate IsWhitespace(c: char)
  {
    || c == '\t' || c == '\n' || c == '\U{B}' || c == '\U{C}' || c == '\r' || c == ' '
    || c == '\U{A0}' || c == '\U{1680}' || ('\U{2000}' <= c <= '\U{200A}')
    || c == '\U{2028}' || c == '\U{2029}' || c == '\U{202F}' || c == '\U{205F}'
    || c == '\U{3000}' || c == '\U{FEFF}'
  }

  /** Removes leading whitespace: what is dropped is all whitespace, what is kept does not start with any. */
  function TrimStart(s: string): (r: string)
    ensures |r| <= |s| && r == s[|s| - |r|..]
    ensures forall k :: 0 <= k < |s| - |r| ==> IsWhitespace(s[k])
    ensures r == [] || !IsWhitespace(r[0])
  {
    if |s| > 0 && IsWhitespace(s[0]) then TrimStart(s[1..]) else s
  }

  /** Removes trailing whitespace: what is dropped is all whitespace, what is kept does not end with any. */
  function TrimEnd(s: string): (r: string)
    ensures |r| <= |s| && r == s[..|r|]
    ensures forall k :: |r| <= k < |s| ==> IsWhitespace(s[k])
    ensures r == [] || !IsWhitespace(r[|r| - 1])
  {
    if |s| > 0 && IsWhitespace(s[|s| - 1]) then TrimEnd(s[..|s| - 1]) else s
  }

  /**
   * `s.trim()`: the text between the leading and the trailing whitespace.
   * What is dropped on either side is all whitespace, and what is kept
   * neither starts nor ends with any.
   */
  function Trim(s: string): (r: string)
    ensures |r| <= |s|
    ensures exists a :: TrimmedAt(s, a, r)
    ensures r == [] || (!IsWhitespace(r[0]) && !IsWhitespace(r[|r| - 1]))
  {
    TrimSlice(s);
    TrimEnd(TrimStart(s))
  }

  /** `r` is the slice of `s` at `a`, and everything of `s` before and after it is whitespace. */
  predicate TrimmedAt(s: string, a: int, r: string)
  {
    && 0 <= a && a + |r| <= |s| && r == s[a..a + |r|]
    && (forall k :: 0 <= k < a ==> IsWhitespace(s[k]))
    && (forall k :: a + |r| <= k < |s| ==> IsWhitespace(s[k]))
  }

  /** Trimming the end of what `TrimStart` keeps leaves a slice of `s` and drops only whitespace of `s`. */
  lemma TrimSlice(s: string)
    ensures TrimmedAt(s, |s| - |TrimStart(s)|, TrimEnd(TrimStart(s)))
  {
    var t := TrimStart(s);
    var r := TrimEnd(t);
    SuffixPrefix(s, |s| - |t|, t, r);
  }

  /**
   * A prefix `r` of the suffix `t` of `s` at `a`, with only whitespace before
   * `t` in `s` and after `r` in `t`, is the slice of `s` between its leading
   * and trailing whitespace.
   */
  lemma SuffixPrefix(s: string, a: int, t: string, r: string)
    requires 0 <= a <= |s| && t == s[a..]
    requires forall k :: 0 <= k < a ==> IsWhitespace(s[k])
    requires |r| <= |t| && r == t[..|r|]
    requires forall k :: |r| <= k < |t| ==> IsWhitespace(t[k])
    ensures TrimmedAt(s, a, r)
  {
    forall k | a + |r| <= k < |s| ensures IsWhitespace(s[k]) {
      assert s[k] == t[k - a];
    }
  }

  /** A string with no whitespace at either end is its own trim. */
  lemma TrimUnchanged(s: string)
    requires s == [] || (!IsWhitespace(s[0]) && !IsWhitespace(s[|s| - 1]))
    ensures Trim(s) == s
  {
  }

  /** `parts.join(sep)`. */
  function Join(parts: seq<string>, sep: string): string
  {
    if |parts| == 0 then ""
    else if |parts| == 1 then parts[0]
    else parts[0] + sep + Join(parts[1..], sep)
  }

  lemma JoinConsChar(c: char, parts: seq<string>, sep: string)
    requires |parts| >= 1
    ensures Join([[c] + parts[0]] + parts[1..], sep) == [c] + Join(parts, sep)
  {
    var q := [[c] + parts[0]] + parts[1..];
    assert q[1..] == parts[1..];
  }

  /**
   * `s.split(sep)` for a one-character separator: never empty, no piece
   * holds the separator, and joining the pieces back gives `s`.
   */
  function Split(s: string, sep: char): (parts: seq<string>)
    ensures |parts| >= 1
    ensures forall i :: 0 <= i < |parts| ==> sep !in parts[i]
    ensures Join(parts, [sep]) == s
    decreases |s|
  {
    if s == [] then [""]
    else
      var rest := Split(s[1..], sep);
      if s[0] == sep then
        assert [""] + rest == [""] + rest[0..] && ([""] + rest)[1..] == rest;
        [""] + rest
      else
        JoinConsChar(s[0], rest, [sep]);
        [[s[0]] + rest[0]] + rest[1..]
  }

  /** Where the first piece of a join ends: the separator, or the end of the string. */
  lemma JoinHead(p: seq<string>, sep: char)
    requires |p| >= 1
    requires sep !in p[0]
    ensures |Join(p, [sep])| >= |p[0]|
    ensures Join(p, [sep])[..|p[0]|] == p[0]
    ensures |p| == 1 ==> |Join(p, [sep])| == |p[0]|
    ensures |p| >= 2 ==> |Join(p, [sep])| > |p[0]| && Join(p, [sep])[|p[0]|] == sep
    ensures |p| >= 2 ==> Join(p, [sep])[|p[0]| + 1..] == Join(p[1..], [sep])
  {
  }

  /** Two separator-free lists of pieces that join to the same string are the same list. */
  lemma {:induction false} JoinInjective(p: seq<string>, q: seq<string>, sep: char)
    requires |p| >= 1 && |q| >= 1
    requires forall i :: 0 <= i < |p| ==> sep !in p[i]
    requires forall i :: 0 <= i < |q| ==> sep !in q[i]
    requires Join(p, [sep]) == Join(q, [sep])
    ensures p == q
    decreases |p|
  {
    var s := Join(p, [sep]);
    JoinHead(p, sep);
    JoinHead(q, sep);
    assert forall k :: 0 <= k < |p[0]| ==> s[k] == p[0][k] != sep;
    assert forall k :: 0 <= k < |q[0]| ==> s[k] == q[0][k] != sep;
    assert |p[0]| == |q[0]|;
    if |p| >= 2 {
      JoinInjective(p[1..], q[1..], sep);
      assert p == [p[0]] + p[1..] && q == [q[0]] + q[1..];
    }
  }

  /** `split` undoes `join` when no piece holds the separator. */
  lemma SplitJoin(parts: seq<string>, sep: char)
    requires |parts| >= 1
    requires forall i :: 0 <= i < |parts| ==> sep !in parts[i]
    ensures Split(Join(parts, [sep]), sep) == parts
  {
    JoinInjective(Split(Join(parts, [sep]), sep), parts, sep);
  }

  /** The first piece of a split is the text before the first separator. */
  lemma SplitHead(a: string, rest: string, sep: char)
    requires sep !in a
    ensures Split(a + [sep] + rest, sep)[0] == a
  {
    var s := a + [sep] + rest;
    var parts := Split(s, sep);
    JoinHead(parts, sep);
    assert s[|a|] == sep;
    assert forall k :: 0 <= k < |a| ==> s[k] == a[k] != sep;
    assert forall k :: 0 <= k < |parts[0]| ==> s[k] == parts[0][k] != sep;
    assert |parts[0]| == |a|;
  }

  /** Prepending a piece to a non-empty list prepends the piece and the separator. */
  lemma JoinCons(x: string, rest: seq<string>, sep: string)
    requires |rest| >= 1
    ensures Join([x] + rest, sep) == x + sep + Join(rest, sep)
  {
    assert ([x] + rest)[1..] == rest;
  }

  /** Appending a piece to a non-empty list appends the separator and the piece. */
  lemma {:induction false} JoinSnoc(parts: seq<string>, x: string, sep: string)
    requires |parts| >= 1
    ensures Join(parts + [x], sep) == Join(parts, sep) + sep + x
    decreases |parts|
  {
    if |parts| > 1 {
      assert (parts + [x])[1..] == parts[1..] + [x];
      JoinSnoc(parts[1..], x, sep);
    }
  }

  /**
   * `s.length`: JavaScript counts UTF-16 code units, so a character beyond
   * U+FFFF (a surrogate pair) counts twice.
   */
  function Utf16Length(s: string): (n: nat)
    ensures |s| <= n <= 2 * |s|
    ensures (forall i :: 0 <= i < |s| ==> s[i] as int < 0x10000) ==> n == |s|
  {
    if s == [] then 0 else (if s[0] as int < 0x10000 then 1 else 2) + Utf16Length(s[1..])
  }

  /** `s.startsWith(prefix)`. */
  predicate StartsWith(s: string, prefix: string)
  {
    |prefix| <= |s| && s[..|prefix|] == prefix
  }

  predicate IsAsciiUpper(c: char)
  {
    'A' <= c <= 'Z'
  }

  /** `s.toLowerCase()` on the ASCII letters; every other character is kept. */
  function ToLowerAscii(s: string): (r: string)
    ensures |r| == |s|
    ensures forall i :: 0 <= i < |s| ==> !IsAsciiUpper(r[i])
    ensures forall i :: 0 <= i < |s| ==> !IsAsciiUpper(s[i]) ==> r[i] == s[i]
    ensures forall i :: 0 <= i < |s| ==> IsAsciiUpper(s[i]) ==> r[i] as int == s[i] as int + 32
  {
    seq(|s|, i requires 0 <= i < |s| => if IsAsciiUpper(s[i]) then (s[i] as int + 32) as char else s[i])
  }

  type Nibble = v: int | 0 <= v < 16

  /** The value of a hexadecimal digit of either case. */
  function HexValue(c: char): (r: Option<Nibble>)
    ensures r.Some? <==> ('0' <= c <= '9' || 'A' <= c <= 'F' || 'a' <= c <= 'f')
  {
    if '0' <= c <= '9' then Some(c as int - '0' as int)
    else if 'A' <= c <= 'F' then Some(c as int - 'A' as int + 10)
    else if 'a' <= c <= 'f' then Some(c as int - 'a' as int + 10)
    else None
  }

  /** A character that is not an ASCII letter occurs in the lower-cased string exactly when it occurs in the original. */
  lemma LowerKeeps(s: string, c: char)
    requires !IsAsciiUpper(c) && !('a' <= c <= 'z')
    ensures c in ToLowerAscii(s) <==> c in s
  {
    var r := ToLowerAscii(s);
    if c in s {
      var i :| 0 <= i < |s| && s[i] == c;
      assert r[i] == c;
    }
    if c in r {
      var i :| 0 <= i < |r| && r[i] == c;
      assert s[i] == c;
    }
  }

  /** Lower-casing neither creates nor removes whitespace. */
  lemma LowerKeepsWhitespace(s: string, i: int)
    requires 0 <= i < |s|
    ensures IsWhitespace(ToLowerAscii(s)[i]) <==> IsWhitespace(s[i])
  {
    if IsAsciiUpper(s[i]) {
      assert 'a' <= ToLowerAscii(s)[i] <= 'z';
    }
  }

  /** Lower-casing a string with no whitespace at either end keeps it so. */
  lemma LowerKeepsTrimmed(s: string)
    requires s == [] || (!IsWhitespace(s[0]) && !IsWhitespace(s[|s| - 1]))
    ensures var r := ToLowerAscii(s); r == [] || (!IsWhitespace(r[0]) && !IsWhitespace(r[|r| - 1]))
  {
    if s != [] {
      LowerKeepsWhitespace(s, 0);
      LowerKeepsWhitespace(s, |s| - 1);
    }
  }

  predicate IsDigit(c: char)
  {
    '0' <= c <= '9'
  }

  /** The value of a string of decimal digits. */
  function DecimalValue(s: string): int
    requires forall i :: 0 <= i < |s| ==> IsDigit(s[i])
  {
    if s == [] then 0 else DecimalValue(s[..|s| - 1]) * 10 + (s[|s| - 1] as int - '0' as int)
  }

  /** The decimal rendering of a non-negative integer: digits only, read back as `n`. */
  function NatToString(n: nat): (r: string)
    ensures |r| >= 1
    ensures forall i :: 0 <= i < |r| ==> IsDigit(r[i])
    ensures DecimalValue(r) == n
  {
    if n < 10 then [('0' as int + n) as char]
    else
      var r := NatToString(n / 10) + [('0' as int + n % 10) as char];
      assert r[..|r| - 1] == NatToString(n / 10);
      r
  }

  /** `${n}` for an integer `n`: a minus sign, then the digits of its magnitude. */
  function IntToString(n: int): (r: string)
    ensures |r| >= 1
    ensures forall i :: 0 <= i < |r| ==> IsDigit(r[i]) || (i == 0 && r[i] == '-')
    ensures (r[0] == '-') <==> n < 0
  {
    if n < 0 then "-" + NatToString(-n) else NatToString(n)
  }
}
