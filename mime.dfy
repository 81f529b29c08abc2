/**
 * A `multipart/mixed` message in the framing of RFC 2046, section 5.1.1, with line feeds
 * where the RFC has CRLF (the emailer writes LF). Each body part is its header lines, a
 * blank line and its content; the parts sit between a dash-boundary `--b` at the start,
 * delimiters `\n--b` between them, and the close-delimiter `\n--b--` at the end.
 */
module Mime {
  import opened Text

  datatype Part = Part(headers: seq<string>, content: string)

  /** Header lines, each ended by a line feed. */
  function Lines(hs: seq<string>): string
    decreases |hs|
  {
    if |hs| == 0 then "" else hs[0] + "\n" + Lines(hs[1..])
  }

  /** A body part: its header lines, the blank line that ends them, its content. */
  function RenderPart(p: Part): string
  {
    Lines(p.headers) + "\n" + p.content
  }

  /** After the opening dash-boundary, each part is a line break, the part and the delimiter after it. */
  function Framed(boundary: string, parts: seq<Part>): string
    decreases |parts|
  {
    if |parts| == 0 then ""
    else "\n" + RenderPart(parts[0]) + ("\n--" + boundary) + Framed(boundary, parts[1..])
  }

  /**
   * The whole message: the top-level header lines, the blank line, the dash-boundary, every
   * part followed by its delimiter, and the `--` that turns the last delimiter into the
   * close-delimiter.
   */
  function Multipart(headers: seq<string>, boundary: string, parts: seq<Part>): string
  {
    Lines(headers) + "\n" + "--" + boundary + Framed(boundary, parts) + "--"
  }

  /** The close-delimiter ends every message. */
  lemma {:induction false} MultipartEndsWithCloseDelimiter(headers: seq<string>, boundary: string, parts: seq<Part>)
    requires |parts| > 0
    ensures var m := Multipart(headers, boundary, parts);
            var close := "\n--" + boundary + "--";
            |m| >= |close| && m[|m| - |close|..] == close
  {
    FramedEndsWithDelimiter(boundary, parts);
    var f := Framed(boundary, parts);
    var m := Multipart(headers, boundary, parts);
    var d := "\n--" + boundary;
    var pre := Lines(headers) + "\n" + "--" + boundary;
    assert m == pre + f + "--";
    assert m[|m| - |d + "--"|..] == f[|f| - |d|..] + "--";
  }

  lemma {:induction false} FramedEndsWithDelimiter(boundary: string, parts: seq<Part>)
    requires |parts| > 0
    ensures var f := Framed(boundary, parts);
            var d := "\n--" + boundary;
            |f| >= |d| && f[|f| - |d|..] == d
    decreases |parts|
  {
    var d := "\n--" + boundary;
    var f := Framed(boundary, parts);
    var head := "\n" + RenderPart(parts[0]) + d;
    assert f == head + Framed(boundary, parts[1..]);
    if |parts| > 1 {
      FramedEndsWithDelimiter(boundary, parts[1..]);
      var g := Framed(boundary, parts[1..]);
      assert f[|f| - |d|..] == g[|g| - |d|..];
    } else {
      assert f == head;
    }
  }

  /** An encapsulation: the delimiter `\n--b`, a line break, and a body part. */
  function Encapsulation(boundary: string, p: Part): string
  {
    ("\n--" + boundary) + ("\n" + RenderPart(p))
  }

  /** The encapsulations of the parts, one after the other. */
  function Encapsulations(boundary: string, parts: seq<Part>): string
    decreases |parts|
  {
    if |parts| == 0 then "" else Encapsulation(boundary, parts[0]) + Encapsulations(boundary, parts[1..])
  }

  /**
   * The same parts read the other way round: a delimiter followed by the framed parts is the
   * encapsulations of the parts followed by a delimiter.
   */
  lemma {:induction false} FramedAsEncapsulations(boundary: string, parts: seq<Part>)
    ensures "\n--" + boundary + Framed(boundary, parts) == Encapsulations(boundary, parts) + "\n--" + boundary
    decreases |parts|
  {
    if |parts| > 0 {
      FramedAsEncapsulations(boundary, parts[1..]);
      Regroup("\n--" + boundary, "\n" + RenderPart(parts[0]),
              Framed(boundary, parts[1..]), Encapsulations(boundary, parts[1..]),
              Framed(boundary, parts), Encapsulations(boundary, parts));
    }
  }

  /** The associativity step of `FramedAsEncapsulations`: one more part on both sides. */
  lemma Regroup(d: string, body: string, f: string, e: string, framed: string, encs: string)
    requires d + f == e + d
    requires framed == body + d + f && encs == d + body + e
    ensures d + framed == encs + d
  {
    calc {
      d + framed;
      (d + body) + (d + f);
      (d + body) + (e + d);
      encs + d;
    }
  }

  /** The string rearrangement behind `MultipartWithFirstPart`. */
  lemma RegroupFirstPart(top: string, boundary: string, firstLines: string, body: string, encs: string, framedRest: string)
    requires "\n--" + boundary + framedRest == encs + "\n--" + boundary
    ensures top + "\n" + "--" + boundary + ("\n" + (firstLines + "\n" + (body + "\n")) + "\n--" + boundary + framedRest) + "--"
         == top + "\n" + "--" + boundary + "\n" + firstLines + "\n" + body + "\n" + encs + "\n" + "--" + boundary + "--"
  {
    var d := "\n--" + boundary;
    assert d == "\n" + "--" + boundary;
    var x := "\n" + (firstLines + "\n" + (body + "\n"));
    var t := top + "\n" + "--" + boundary;
    calc {
      t + (x + d + framedRest) + "--";
      t + (x + (d + framedRest)) + "--";
      t + (x + (encs + d)) + "--";
      t + "\n" + firstLines + "\n" + body + "\n" + encs + d + "--";
      t + "\n" + firstLines + "\n" + body + "\n" + encs + ("\n" + "--" + boundary) + "--";
      t + "\n" + firstLines + "\n" + body + "\n" + encs + "\n" + "--" + boundary + "--";
    }
  }

  /**
   * A message whose first part is a body written with a trailing line break, read as the
   * text around it: the headers, the dash-boundary, the first part, the encapsulations of the
   * remaining parts and the close-delimiter.
   */
  lemma MultipartWithFirstPart(headers: seq<string>, boundary: string, firstHeaders: seq<string>, body: string, rest: seq<Part>)
    ensures Multipart(headers, boundary, [Part(firstHeaders, body + "\n")] + rest)
         == Lines(headers) + "\n" + "--" + boundary + "\n" + Lines(firstHeaders) + "\n" + body + "\n"
            + Encapsulations(boundary, rest) + "\n" + "--" + boundary + "--"
  {
    var parts := [Part(firstHeaders, body + "\n")] + rest;
    assert parts[0] == Part(firstHeaders, body + "\n") && parts[1..] == rest;
    FramedAsEncapsulations(boundary, rest);
    assert Framed(boundary, parts)
        == "\n" + (Lines(firstHeaders) + "\n" + (body + "\n")) + "\n--" + boundary + Framed(boundary, rest);
    RegroupFirstPart(Lines(headers), boundary, Lines(firstHeaders), body, Encapsulations(boundary, rest), Framed(boundary, rest));
  }
}
