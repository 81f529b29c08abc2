/**
 * `encodeURIComponent`: every character outside `A-Z a-z 0-9 - _ . ! ~ * ' ( )` becomes
 * the percent-encoding (RFC 3986, section 2.1) of each of its UTF-8 bytes, with upper-case
 * hexadecimal digits. `Decode` is the reverse, used to state that nothing is lost.
 */
module UriComponent {
  import opened Wrappers
  import Utf8
  import Text

  /** The characters `encodeURIComponent` leaves as they are. */
  predicate IsUnescaped(c: char)
  {
    || ('A' <= c <= 'Z') || ('a' <= c <= 'z') || ('0' <= c <= '9')
    || c == '-' || c == '_' || c == '.' || c == '!' || c == '~' || c == '*' || c == '\'' || c == '(' || c == ')'
  }

  function HexDigit(v: nat): (c: char)
    requires v < 16
    ensures IsUnescaped(c)
  {
    if v < 10 then ('0' as int + v) as char else ('A' as int + (v - 10)) as char
  }

  function HexValue(c: char): (r: Option<nat>)
    ensures r.Some? ==> r.value < 16
  {
    if '0' <= c <= '9' then Some(c as int - '0' as int)
    else if 'A' <= c <= 'F' then Some(c as int - 'A' as int + 10)
    else if 'a' <= c <= 'f' then Some(c as int - 'a' as int + 10)
    else None
  }

  /** `%XY` for each byte. */
  function PercentEscape(bs: seq<Utf8.byte>): (t: string)
    ensures |t| == 3 * |bs|
    decreases |bs|
  {
    if |bs| == 0 then "" else ['%', HexDigit(bs[0] / 16), HexDigit(bs[0] % 16)] + PercentEscape(bs[1..])
  }

  function EncodeChar(c: char): string
  {
    if IsUnescaped(c) then [c] else PercentEscape(Utf8.EncodeChar(c))
  }

  function Encode(s: string): (t: string)
    decreases |s|
  {
    if |s| == 0 then "" else EncodeChar(s[0]) + Encode(s[1..])
  }

  /** The bytes an encoded text stands for: `%XY` is one byte, any other character its UTF-8 bytes. */
  function DecodeBytes(t: string): Option<seq<Utf8.byte>>
    decreases |t|
  {
    if |t| == 0 then Some([])
    else if t[0] == '%' then
      if |t| >= 3 && HexValue(t[1]).Some? && HexValue(t[2]).Some? then
        match DecodeBytes(t[3..])
        case None => None
        case Some(rest) => Some([HexValue(t[1]).value * 16 + HexValue(t[2]).value] + rest)
      else None
    else
      match DecodeBytes(t[1..])
      case None => None
      case Some(rest) => Some(Utf8.EncodeChar(t[0]) + rest)
  }

  /** `decodeURIComponent`: None where it would throw a URIError. */
  function Decode(t: string): Option<string>
  {
    match DecodeBytes(t)
    case None => None
    case Some(bs) => Utf8.Decode(bs)
  }

  /** Only unescaped characters and `%` appear in the output; in particular no `&`, `=`, `?` or `#`. */
  lemma {:induction false} EncodeAlphabet(s: string)
    ensures forall i :: 0 <= i < |Encode(s)| ==> IsUnescaped(Encode(s)[i]) || Encode(s)[i] == '%'
    decreases |s|
  {
    if |s| > 0 {
      EncodeAlphabet(s[1..]);
      EscapeAlphabet(Utf8.EncodeChar(s[0]));
    }
  }

  lemma {:induction false} EscapeAlphabet(bs: seq<Utf8.byte>)
    ensures forall i :: 0 <= i < |PercentEscape(bs)| ==> IsUnescaped(PercentEscape(bs)[i]) || PercentEscape(bs)[i] == '%'
    decreases |bs|
  {
    if |bs| > 0 {
      EscapeAlphabet(bs[1..]);
    }
  }

  /** One `%XY` escape decodes to the byte XY in front of what the rest decodes to. */
  lemma DecodeOneEscape(b: Utf8.byte, tail: string, rest: seq<Utf8.byte>)
    requires DecodeBytes(tail) == Some(rest)
    ensures DecodeBytes(['%', HexDigit(b / 16), HexDigit(b % 16)] + tail) == Some([b] + rest)
  {
    var t := ['%', HexDigit(b / 16), HexDigit(b % 16)] + tail;
    assert t[3..] == tail;
    assert HexValue(HexDigit(b / 16)) == Some(b / 16);
    assert HexValue(HexDigit(b % 16)) == Some(b % 16);
    assert (b / 16) * 16 + b % 16 == b;
  }

  /** The escape of some bytes decodes to those bytes in front of what the rest decodes to. */
  lemma {:induction false} DecodeEscape(bs: seq<Utf8.byte>, tail: string, rest: seq<Utf8.byte>)
    requires DecodeBytes(tail) == Some(rest)
    ensures DecodeBytes(PercentEscape(bs) + tail) == Some(bs + rest)
    decreases |bs|
  {
    if |bs| > 0 {
      var b := bs[0];
      var t := PercentEscape(bs[1..]) + tail;
      assert PercentEscape(bs) + tail == ['%', HexDigit(b / 16), HexDigit(b % 16)] + t;
      DecodeEscape(bs[1..], tail, rest);
      DecodeOneEscape(b, t, bs[1..] + rest);
      Text.ConsSlice(bs, rest);
    } else {
      assert PercentEscape(bs) + tail == tail;
      assert bs + rest == rest;
    }
  }

  lemma DecodeEncodedChar(c: char, tail: string, rest: seq<Utf8.byte>)
    requires DecodeBytes(tail) == Some(rest)
    ensures DecodeBytes(EncodeChar(c) + tail) == Some(Utf8.EncodeChar(c) + rest)
  {
    if IsUnescaped(c) {
      assert (EncodeChar(c) + tail)[1..] == tail;
    } else {
      DecodeEscape(Utf8.EncodeChar(c), tail, rest);
    }
  }

  /** The percent-encoded text stands for exactly the UTF-8 bytes of the original. */
  lemma {:induction false} DecodeBytesEncode(s: string)
    ensures DecodeBytes(Encode(s)) == Some(Utf8.Encode(s))
    decreases |s|
  {
    if |s| > 0 {
      DecodeBytesEncode(s[1..]);
      DecodeEncodedChar(s[0], Encode(s[1..]), Utf8.Encode(s[1..]));
    }
  }

  /** `decodeURIComponent(encodeURIComponent(s)) === s`. */
  lemma DecodeEncode(s: string)
    ensures Decode(Encode(s)) == Some(s)
  {
    DecodeBytesEncode(s);
    Utf8.DecodeEncode(s);
  }
}
