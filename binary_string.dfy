/**
 * The idiom `btoa(unescape(encodeURIComponent(text)))`, which the emailer uses to base64 a
 * text: `encodeURIComponent` percent-encodes the UTF-8 bytes, `unescape` (ECMAScript,
 * Annex B.2.1.2) turns every `%XY` back into the single code unit XY, and `btoa` base64s a
 * string whose code units are all below 256, throwing otherwise. The chain is proved to be
 * the base64 of the UTF-8 bytes of the text, and never to throw.
 */
module BinaryString {
  import opened Wrappers
  import Utf8
  import Base64
  import UriComponent
  import Text

  /** A UTF-16 code unit, the element of a JavaScript string. */
  type CodeUnit = u: int | 0 <= u < 0x1_0000

  /** The code units of one character: itself, or its surrogate pair. */
  function CodeUnits(c: char): (us: seq<CodeUnit>)
    ensures c as int < 0x80 ==> us == [c as int]
  {
    var v := c as int;
    if v < 0x1_0000 then [v]
    else [0xD800 + (v - 0x1_0000) / 0x400, 0xDC00 + (v - 0x1_0000) % 0x400]
  }

  function Hex(c: char): Option<nat>
  {
    UriComponent.HexValue(c)
  }

  /**
   * `unescape`: `%uWXYZ` is the code unit WXYZ, `%XY` the code unit XY, and every other
   * character stands for itself (a `%` that starts neither form included).
   */
  function Unescape(t: string): seq<CodeUnit>
    decreases |t|
  {
    if |t| == 0 then []
    else if t[0] == '%' && |t| >= 6 && t[1] == 'u'
            && Hex(t[2]).Some? && Hex(t[3]).Some? && Hex(t[4]).Some? && Hex(t[5]).Some? then
      [Hex(t[2]).value * 0x1000 + Hex(t[3]).value * 0x100 + Hex(t[4]).value * 0x10 + Hex(t[5]).value]
        + Unescape(t[6..])
    else if t[0] == '%' && |t| >= 3 && Hex(t[1]).Some? && Hex(t[2]).Some? then
      [Hex(t[1]).value * 16 + Hex(t[2]).value] + Unescape(t[3..])
    else CodeUnits(t[0]) + Unescape(t[1..])
  }

  /** The bytes of a binary string, or None if a code unit is above 0xFF. */
  function Latin1Bytes(us: seq<CodeUnit>): (r: Option<seq<Utf8.byte>>)
    ensures r.Some? <==> forall i :: 0 <= i < |us| ==> us[i] < 256
    decreases |us|
  {
    if |us| == 0 then Some([])
    else if us[0] < 256 then
      match Latin1Bytes(us[1..])
      case None => None
      case Some(rest) => Some([us[0]] + rest)
    else None
  }

  /** `btoa`: None where it throws an InvalidCharacterError. */
  function Btoa(us: seq<CodeUnit>): Option<string>
  {
    match Latin1Bytes(us)
    case None => None
    case Some(bs) => Some(Base64.Encode(bs))
  }

  /** One `%XY` escape unescapes to the single code unit XY. */
  lemma UnescapeOneEscape(b: Utf8.byte, tail: string)
    ensures Unescape(['%', UriComponent.HexDigit(b / 16), UriComponent.HexDigit(b % 16)] + tail)
            == [b] + Unescape(tail)
  {
    var t := ['%', UriComponent.HexDigit(b / 16), UriComponent.HexDigit(b % 16)] + tail;
    assert t[3..] == tail;
    assert Hex(t[1]) == Some(b / 16) && Hex(t[2]) == Some(b % 16);
    assert t[1] != 'u';
  }

  /** A code unit below 256 in front adds its byte in front. */
  lemma Latin1BytesCons(b: Utf8.byte, us: seq<CodeUnit>)
    ensures Latin1Bytes([b] + us) ==
            match Latin1Bytes(us)
            case None => None
            case Some(rest) => Some([b] + rest)
  {
    assert ([b] + us)[1..] == us;
  }

  /** Unescaping the escape of some bytes gives those bytes back, one code unit each. */
  lemma {:induction false} UnescapePercentEscape(bs: seq<Utf8.byte>, tail: string)
    ensures Latin1Bytes(Unescape(UriComponent.PercentEscape(bs) + tail)) ==
            match Latin1Bytes(Unescape(tail))
            case None => None
            case Some(rest) => Some(bs + rest)
    decreases |bs|
  {
    if |bs| > 0 {
      var b := bs[0];
      var rest := UriComponent.PercentEscape(bs[1..]) + tail;
      assert UriComponent.PercentEscape(bs) + tail
          == ['%', UriComponent.HexDigit(b / 16), UriComponent.HexDigit(b % 16)] + rest;
      UnescapeOneEscape(b, rest);
      Latin1BytesCons(b, Unescape(rest));
      UnescapePercentEscape(bs[1..], tail);
      if Latin1Bytes(Unescape(tail)).Some? {
        var r := Latin1Bytes(Unescape(tail)).value;
        Text.ConsSlice(bs, r);
      }
    } else {
      assert UriComponent.PercentEscape(bs) + tail == tail;
      if Latin1Bytes(Unescape(tail)).Some? {
        assert bs + Latin1Bytes(Unescape(tail)).value == Latin1Bytes(Unescape(tail)).value;
      }
    }
  }

  /** `unescape(encodeURIComponent(s))` is the UTF-8 encoding of `s`, one code unit per byte. */
  lemma {:induction false} UnescapeEncodeURIComponent(s: string)
    ensures Latin1Bytes(Unescape(UriComponent.Encode(s))) == Some(Utf8.Encode(s))
    decreases |s|
  {
    if |s| > 0 {
      var c := s[0];
      var tail := UriComponent.Encode(s[1..]);
      UnescapeEncodeURIComponent(s[1..]);
      if UriComponent.IsUnescaped(c) {
        var t := UriComponent.EncodeChar(c) + tail;
        assert t[0] == c && t[0] != '%' && t[1..] == tail;
        assert Unescape(t) == CodeUnits(c) + Unescape(tail);
        assert Utf8.EncodeChar(c) == [c as int];
      } else {
        UnescapePercentEscape(Utf8.EncodeChar(c), tail);
      }
    }
  }

  /**
   * `btoa(unescape(encodeURIComponent(text)))`. It never throws: its result is the base64 of
   * the UTF-8 bytes of the text, so decoding both layers gives the text back.
   */
  function Utf8Base64(text: string): (r: string)
    ensures r == Base64.Encode(Utf8.Encode(text))
    ensures Base64.Decode(r) == Some(Utf8.Encode(text))
    ensures Utf8.Decode(Base64.Decode(r).value) == Some(text)
  {
    UnescapeEncodeURIComponent(text);
    Base64.DecodeEncode(Utf8.Encode(text));
    Utf8.DecodeEncode(text);
    Btoa(Unescape(UriComponent.Encode(text))).value
  }
}
