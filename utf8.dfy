/**
 * UTF-8 as RFC 3629 defines it, over Unicode scalar values (Dafny's `char`).
 *
 * `unescape(encodeURIComponent(text))` turns a JavaScript string into one character per
 * UTF-8 byte of the text, which `btoa` then base64-encodes; `Encode` is that byte sequence.
 * `Decode` is the strict reverse (no overlong forms, no surrogates, nothing above U+10FFFF).
 */
module Utf8 {
  import opened Wrappers

  type byte = b: int | 0 <= b < 256

  predicate IsContinuation(b: byte) { 0x80 <= b < 0xC0 }

  /** The one to four bytes of a scalar value (RFC 3629, section 3). */
  function EncodeChar(c: char): (bs: seq<byte>)
    ensures 1 <= |bs| <= 4
    ensures (|bs| == 1) == (c as int < 0x80)
    ensures forall i :: 1 <= i < |bs| ==> IsContinuation(bs[i])
  {
    var cp := c as int;
    if cp < 0x80 then [cp]
    else if cp < 0x800 then [0xC0 + cp / 64, 0x80 + cp % 64]
    else if cp < 0x10000 then [0xE0 + cp / 4096, 0x80 + (cp / 64) % 64, 0x80 + cp % 64]
    else [0xF0 + cp / 262144, 0x80 + (cp / 4096) % 64, 0x80 + (cp / 64) % 64, 0x80 + cp % 64]
  }

  function Encode(s: string): seq<byte>
    decreases |s|
  {
    if |s| == 0 then [] else EncodeChar(s[0]) + Encode(s[1..])
  }

  /** The scalar value `cp` as a char, read from `width` bytes; None for a surrogate or beyond U+10FFFF. */
  function ScalarOf(cp: int, width: nat): Option<(char, nat)>
  {
    if 0 <= cp < 0xD800 || 0xE000 <= cp < 0x11_0000 then Some((cp as char, width)) else None
  }

  /** The first character of `bs` and how many bytes it takes, or None if `bs` does not start well-formed. */
  function DecodeFirst(bs: seq<byte>): (r: Option<(char, nat)>)
    requires |bs| > 0
    ensures r.Some? ==> 1 <= r.value.1 <= |bs|
  {
    var b0: int := bs[0];
    if b0 < 0x80 then Some((b0 as char, 1))
    else if 0xC2 <= b0 < 0xE0 then
      if |bs| >= 2 && IsContinuation(bs[1]) then
        ScalarOf((b0 - 0xC0) * 64 + Payload(bs[1]), 2)
      else None
    else if 0xE0 <= b0 < 0xF0 then
      if |bs| >= 3 && IsContinuation(bs[1]) && IsContinuation(bs[2]) then
        var cp := (b0 - 0xE0) * 4096 + Payload(bs[1]) * 64 + Payload(bs[2]);
        if cp < 0x800 then None else ScalarOf(cp, 3)
      else None
    else if 0xF0 <= b0 < 0xF5 then
      if |bs| >= 4 && IsContinuation(bs[1]) && IsContinuation(bs[2]) && IsContinuation(bs[3]) then
        var cp := (b0 - 0xF0) * 262144 + Payload(bs[1]) * 4096 + Payload(bs[2]) * 64 + Payload(bs[3]);
        if cp < 0x1_0000 then None else ScalarOf(cp, 4)
      else None
    else None
  }

  /** The six value bits of a continuation byte. */
  function Payload(b: byte): int
  {
    b as int - 0x80
  }

  function Decode(bs: seq<byte>): Option<string>
    decreases |bs|
  {
    if |bs| == 0 then Some("")
    else
      match DecodeFirst(bs)
      case None => None
      case Some(first) =>
        match Decode(bs[first.1..])
        case None => None
        case Some(rest) => Some([first.0] + rest)
  }

  /** Each encoded character is read back whole, whatever follows it. */
  lemma DecodeFirstEncodeChar(c: char, rest: seq<byte>)
    ensures DecodeFirst(EncodeChar(c) + rest) == Some((c, |EncodeChar(c)|))
  {
    var cp := c as int;
    if cp < 0x80 {
    } else if cp < 0x800 {
      DecodeTwo(c, rest);
    } else if cp < 0x1_0000 {
      DecodeThree(c, rest);
    } else {
      DecodeFour(c, rest);
    }
  }

  lemma DecodeTwo(c: char, rest: seq<byte>)
    requires 0x80 <= c as int < 0x800
    ensures DecodeFirst(EncodeChar(c) + rest) == Some((c, 2))
  {
    var cp := c as int;
    var hi, lo := cp / 64, cp % 64;
    assert cp == hi * 64 + lo;
    var bs := EncodeChar(c) + rest;
    assert bs[0] == 0xC0 + hi && bs[1] == 0x80 + lo;
    assert (bs[0] as int - 0xC0) * 64 + Payload(bs[1]) == cp;
  }

  lemma DecodeThree(c: char, rest: seq<byte>)
    requires 0x800 <= c as int < 0x1_0000
    ensures DecodeFirst(EncodeChar(c) + rest) == Some((c, 3))
  {
    var cp := c as int;
    var q := cp / 64;
    var hi, mid, lo := q / 64, q % 64, cp % 64;
    assert cp == q * 64 + lo;
    assert q == hi * 64 + mid;
    assert hi == cp / 4096;
    var bs := EncodeChar(c) + rest;
    assert bs[0] == 0xE0 + hi && bs[1] == 0x80 + mid && bs[2] == 0x80 + lo;
    assert (bs[0] as int - 0xE0) * 4096 + Payload(bs[1]) * 64 + Payload(bs[2]) == cp;
  }

  lemma DecodeFour(c: char, rest: seq<byte>)
    requires 0x1_0000 <= c as int
    ensures DecodeFirst(EncodeChar(c) + rest) == Some((c, 4))
  {
    var cp := c as int;
    var q := cp / 64;
    var r := q / 64;
    var top, hi, mid, lo := r / 64, r % 64, q % 64, cp % 64;
    assert cp == q * 64 + lo;
    assert q == r * 64 + mid;
    assert r == top * 64 + hi;
    assert r == cp / 4096;
    assert top == cp / 262144;
    var bs := EncodeChar(c) + rest;
    assert bs[0] == 0xF0 + top && bs[1] == 0x80 + hi && bs[2] == 0x80 + mid && bs[3] == 0x80 + lo;
    assert (bs[0] as int - 0xF0) * 262144 + Payload(bs[1]) * 4096 + Payload(bs[2]) * 64 + Payload(bs[3]) == cp;
  }

  /** Decoding the UTF-8 bytes of a text gives the text back. */
  lemma {:induction false} DecodeEncode(s: string)
    ensures Decode(Encode(s)) == Some(s)
    decreases |s|
  {
    if |s| > 0 {
      var head := EncodeChar(s[0]);
      var bs := Encode(s);
      DecodeFirstEncodeChar(s[0], Encode(s[1..]));
      assert bs[|head|..] == Encode(s[1..]);
      DecodeEncode(s[1..]);
      assert s == [s[0]] + s[1..];
    }
  }
}
