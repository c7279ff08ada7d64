/**
 * UTF-8 (RFC 3629): what `TextEncoder.encode` produces from a string, and the
 * strict decoding that undoes it.
 */
module Utf8 {
  import opened Wrappers
  import opened Strings

  /** The UTF-8 encoding of one code point (section 3 of RFC 3629). */
  function CharBytes(c: char): (r: seq<Byte>)
    ensures 1 <= |r| <= 4
  {
    var cp := c as int;
    if cp < 0x80 then [cp]
    else if cp < 0x800 then [0xC0 + cp / 64, 0x80 + cp % 64]
    else if cp < 0x10000 then [0xE0 + cp / 4096, 0x80 + (cp / 64) % 64, 0x80 + cp % 64]
    else [0xF0 + cp / 262144, 0x80 + (cp / 4096) % 64, 0x80 + (cp / 64) % 64, 0x80 + cp % 64]
  }

  /** `new TextEncoder().encode(s)`: the characters' encodings one after another. */
  function EncodeText(s: string): (r: seq<Byte>)
    ensures |r| >= |s|
  {
    if s == [] then [] else CharBytes(s[0]) + EncodeText(s[1..])
  }

  /** How many bytes a UTF-8 sequence that starts with `b` has; 0 when `b` cannot start one. */
  function SequenceLength(b: Byte): nat
  {
    if b < 0x80 then 1
    else if b < 0xC0 then 0
    else if b < 0xE0 then 2
    else if b < 0xF0 then 3
    else if b < 0xF8 then 4
    else 0
  }

  predicate IsContinuation(b: Byte)
  {
    0x80 <= b < 0xC0
  }

  /**
   * The character a lead byte and its continuation bytes encode, when they are
   * a valid UTF-8 encoding: not overlong, not a surrogate, at most U+10FFFF.
   */
  function CodePoint(lead: Byte, cont: seq<Byte>): Option<char>
    requires SequenceLength(lead) == |cont| + 1 >= 2
    requires forall i :: 0 <= i < |cont| ==> IsContinuation(cont[i])
  {
    if |cont| == 1 then
      var cp := (lead as int - 0xC0) * 64 + (cont[0] as int - 0x80);
      if cp < 0x80 then None else Some(cp as char)
    else if |cont| == 2 then
      var cp := (lead as int - 0xE0) * 4096 + (cont[0] as int - 0x80) * 64 + (cont[1] as int - 0x80);
      if cp < 0x800 || (0xD800 <= cp < 0xE000) then None else Some(cp as char)
    else
      var cp := (lead as int - 0xF0) * 262144 + (cont[0] as int - 0x80) * 4096
                + (cont[1] as int - 0x80) * 64 + (cont[2] as int - 0x80);
      if cp < 0x10000 || cp > 0x10FFFF then None else Some(cp as char)
  }

  /** Strict UTF-8 decoding: `None` on any ill-formed sequence. */
  function DecodeText(b: seq<Byte>): Option<string>
    decreases |b|
  {
    if b == [] then Some([])
    else
      var n := SequenceLength(b[0]);
      if n == 0 || |b| < n then None
      else if n == 1 then
        match DecodeText(b[1..])
        case None => None
        case Some(t) => Some([b[0] as char] + t)
      else if exists i :: 1 <= i < n && !IsContinuation(b[i]) then None
      else
        match CodePoint(b[0], b[1..n])
        case None => None
        case Some(c) =>
          match DecodeText(b[n..])
          case None => None
          case Some(t) => Some([c] + t)
  }

  /** The UTF-8 bytes of a character decode back to it. */
  lemma CharBytesDecode(c: char)
    ensures SequenceLength(CharBytes(c)[0]) == |CharBytes(c)|
    ensures forall i :: 1 <= i < |CharBytes(c)| ==> IsContinuation(CharBytes(c)[i])
    ensures |CharBytes(c)| == 1 ==> CharBytes(c)[0] as char == c
    ensures |CharBytes(c)| > 1 ==> CodePoint(CharBytes(c)[0], CharBytes(c)[1..]) == Some(c)
  {
    var cp := c as int;
    assert cp == (cp / 64) * 64 + cp % 64;
    if 0x800 <= cp < 0x10000 {
      assert cp / 64 == (cp / 4096) * 64 + (cp / 64) % 64;
    } else if 0x10000 <= cp {
      assert cp / 64 == (cp / 4096) * 64 + (cp / 64) % 64;
      assert cp / 4096 == (cp / 262144) * 64 + (cp / 4096) % 64;
    }
  }

  /** Decoding what `TextEncoder` wrote gives the string back. */
  lemma {:induction false} DecodeEncodeText(s: string)
    ensures DecodeText(EncodeText(s)) == Some(s)
  {
    if s != [] {
      var b := EncodeText(s);
      var cb := CharBytes(s[0]);
      var n := |cb|;
      CharBytesDecode(s[0]);
      assert b[..n] == cb && b[n..] == EncodeText(s[1..]);
      DecodeEncodeText(s[1..]);
      assert s == [s[0]] + s[1..];
      if n > 1 {
        assert b[1..n] == cb[1..];
        assert forall i :: 1 <= i < n ==> b[i] == cb[i];
      } else {
        assert b[1..] == b[n..];
      }
    }
  }
}
