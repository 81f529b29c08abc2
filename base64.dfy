/**
 * Base64 as `btoa` produces it: the base 64 alphabet of RFC 4648, section 4, with `=`
 * padding, and its decoder.
 */
module Base64 {
  import opened Wrappers
  import opened Utf8

  /** The character of a 6-bit value (RFC 4648, section 4, Table 1). */
  function Digit(v: nat): (c: char)
    requires v < 64
  {
    if v < 26 then ('A' as int + v) as char
    else if v < 52 then ('a' as int + (v - 26)) as char
    else if v < 62 then ('0' as int + (v - 52)) as char
    else if v == 62 then '+'
    else '/'
  }

  /** The 6-bit value of an alphabet character; None for any other character, `=` included. */
  function ValueOf(c: char): (r: Option<nat>)
    ensures r.Some? ==> r.value < 64
  {
    if 'A' <= c <= 'Z' then Some(c as int - 'A' as int)
    else if 'a' <= c <= 'z' then Some(c as int - 'a' as int + 26)
    else if '0' <= c <= '9' then Some(c as int - '0' as int + 52)
    else if c == '+' then Some(62)
    else if c == '/' then Some(63)
    else None
  }

  predicate InAlphabet(c: char) { ValueOf(c).Some? }

  /** Alphabet characters and padding only. */
  predicate IsBase64Text(s: string)
  {
    forall i :: 0 <= i < |s| ==> InAlphabet(s[i]) || s[i] == '='
  }

  lemma Base64TextConcat(a: string, b: string)
    requires IsBase64Text(a) && IsBase64Text(b)
    ensures IsBase64Text(a + b)
  {
    forall i | 0 <= i < |a + b| ensures InAlphabet((a + b)[i]) || (a + b)[i] == '=' {
      if i >= |a| { assert (a + b)[i] == b[i - |a|]; }
    }
  }

  lemma ValueOfDigit(v: nat)
    requires v < 64
    ensures ValueOf(Digit(v)) == Some(v)
  {
  }

  /** The four characters for one to three bytes; a short group is padded with `=`. */
  function EncodeGroup(bs: seq<byte>): (s: string)
    requires 1 <= |bs| <= 3
    ensures |s| == 4
    ensures IsBase64Text(s)
  {
    var x := bs[0];
    ValueOfDigit(x / 4);
    if |bs| == 1 then
      ValueOfDigit((x % 4) * 16);
      [Digit(x / 4), Digit((x % 4) * 16), '=', '=']
    else
      var y := bs[1];
      ValueOfDigit((x % 4) * 16 + y / 16);
      if |bs| == 2 then
        ValueOfDigit((y % 16) * 4);
        [Digit(x / 4), Digit((x % 4) * 16 + y / 16), Digit((y % 16) * 4), '=']
      else
        var z := bs[2];
        ValueOfDigit((y % 16) * 4 + z / 64);
        ValueOfDigit(z % 64);
        [Digit(x / 4), Digit((x % 4) * 16 + y / 16), Digit((y % 16) * 4 + z / 64), Digit(z % 64)]
  }

  /** One more group of three bytes is one more group of four characters. */
  lemma GroupCount(n: int)
    requires n > 3
    ensures (n + 2) / 3 == 1 + (n - 3 + 2) / 3
  {
  }

  /** `btoa` of the bytes: four characters for every three bytes, 4 * ceil(n / 3) in all. */
  function Encode(bs: seq<byte>): (s: string)
    ensures |s| == 4 * ((|bs| + 2) / 3)
    ensures IsBase64Text(s)
    decreases |bs|
  {
    if |bs| == 0 then ""
    else if |bs| <= 3 then EncodeGroup(bs)
    else
      Base64TextConcat(EncodeGroup(bs[..3]), Encode(bs[3..]));
      GroupCount(|bs|);
      EncodeGroup(bs[..3]) + Encode(bs[3..])
  }

  function Byte0(a: nat, b: nat): byte
    requires a < 64 && b < 64
  {
    a * 4 + b / 16
  }

  function Byte1(b: nat, c: nat): byte
    requires b < 64 && c < 64
  {
    (b % 16) * 16 + c / 4
  }

  function Byte2(c: nat, d: nat): byte
    requires c < 64 && d < 64
  {
    (c % 4) * 64 + d
  }

  /** The bytes of a base64 text, or None if it is not one (wrong length, stray character, misplaced padding). */
  function Decode(s: string): Option<seq<byte>>
    decreases |s|
  {
    if |s| == 0 then Some([])
    else if |s| < 4 then None
    else
      var a, b, c, d := ValueOf(s[0]), ValueOf(s[1]), ValueOf(s[2]), ValueOf(s[3]);
      if a.None? || b.None? then None
      else if |s| == 4 && s[2] == '=' && s[3] == '=' then
        Some([Byte0(a.value, b.value)])
      else if |s| == 4 && c.Some? && s[3] == '=' then
        Some([Byte0(a.value, b.value), Byte1(b.value, c.value)])
      else if c.Some? && d.Some? then
        match Decode(s[4..])
        case None => None
        case Some(rest) => Some([Byte0(a.value, b.value), Byte1(b.value, c.value), Byte2(c.value, d.value)] + rest)
      else None
  }

  /** The three bytes of a full group come back from its four characters. */
  lemma GroupRoundTrip(x: byte, y: byte, z: byte)
    ensures var s := EncodeGroup([x, y, z]);
            && ValueOf(s[0]) == Some(x / 4)
            && ValueOf(s[1]) == Some((x % 4) * 16 + y / 16)
            && ValueOf(s[2]) == Some((y % 16) * 4 + z / 64)
            && ValueOf(s[3]) == Some(z % 64)
    ensures Byte0(x / 4, (x % 4) * 16 + y / 16) == x
    ensures Byte1((x % 4) * 16 + y / 16, (y % 16) * 4 + z / 64) == y
    ensures Byte2((y % 16) * 4 + z / 64, z % 64) == z
  {
    ValueOfDigit(x / 4);
    ValueOfDigit((x % 4) * 16 + y / 16);
    ValueOfDigit((y % 16) * 4 + z / 64);
    ValueOfDigit(z % 64);
    var u, v := (x % 4) * 16 + y / 16, (y % 16) * 4 + z / 64;
    assert u / 16 == x % 4 && u % 16 == y / 16;
    assert v / 4 == y % 16 && v % 4 == z / 64;
  }

  /** A full group is decoded to its three bytes, in front of whatever the rest decodes to. */
  lemma DecodeFullGroup(x: byte, y: byte, z: byte, tail: string)
    ensures Decode(EncodeGroup([x, y, z]) + tail) ==
            match Decode(tail)
            case None => None
            case Some(rest) => Some([x, y, z] + rest)
  {
    GroupRoundTrip(x, y, z);
    var s := EncodeGroup([x, y, z]) + tail;
    assert s[4..] == tail;
    assert s[2] != '=' && s[3] != '=';
  }

  lemma DecodeShortGroups(bs: seq<byte>)
    requires 1 <= |bs| <= 2
    ensures Decode(EncodeGroup(bs)) == Some(bs)
  {
    var x := bs[0];
    ValueOfDigit(x / 4);
    if |bs| == 1 {
      ValueOfDigit((x % 4) * 16);
      assert Byte0(x / 4, (x % 4) * 16) == x;
      assert bs == [x];
    } else {
      var y := bs[1];
      ValueOfDigit((x % 4) * 16 + y / 16);
      ValueOfDigit((y % 16) * 4);
      var u := (x % 4) * 16 + y / 16;
      assert u / 16 == x % 4 && u % 16 == y / 16;
      assert Byte0(x / 4, u) == x && Byte1(u, (y % 16) * 4) == y;
      assert bs == [x, y];
    }
  }

  /** Decoding what `btoa` produced gives the bytes back. */
  lemma {:induction false} DecodeEncode(bs: seq<byte>)
    ensures Decode(Encode(bs)) == Some(bs)
    decreases |bs|
  {
    if |bs| == 0 {
    } else if |bs| <= 2 {
      DecodeShortGroups(bs);
    } else {
      var x, y, z := bs[0], bs[1], bs[2];
      assert bs[..3] == [x, y, z];
      if |bs| > 3 {
        DecodeFullGroup(x, y, z, Encode(bs[3..]));
        DecodeEncode(bs[3..]);
        assert bs == [x, y, z] + bs[3..];
      } else {
        DecodeFullGroup(x, y, z, "");
        assert EncodeGroup([x, y, z]) + "" == Encode(bs);
        assert bs == [x, y, z] + [];
      }
    }
  }
}
