/**
 * String helpers with JavaScript's meaning: `Array.prototype.join`, splitting at a
 * character, the decimal `toString()` of a non-negative integer, and the ASCII character
 * classes that regular expressions such as `[a-z]` and `\w` use.
 */
module Text {

  /** `parts.join(sep)`: the empty array gives "", one part gives itself. */
  function Join(parts: seq<string>, sep: string): string
    decreases |parts|
  {
    if |parts| == 0 then ""
    else if |parts| == 1 then parts[0]
    else parts[0] + sep + Join(parts[1..], sep)
  }

  /** `parts.join('')` */
  function Concat(parts: seq<string>): string
  {
    Join(parts, "")
  }

  /** A non-empty sequence is its head and its tail, also with something after it. */
  lemma ConsSlice<T>(xs: seq<T>, r: seq<T>)
    requires |xs| > 0
    ensures [xs[0]] + (xs[1..] + r) == xs + r
  {
    assert xs == [xs[0]] + xs[1..];
  }

  /** A text starts with anything it was built by appending to. */
  lemma StartsWithConcat(a: string, b: string, c: string)
    ensures StartsWith(a + b, a) && StartsWith(a + b + c, a)
  {
    assert (a + b)[..|a|] == a;
    assert (a + b + c)[..|a|] == a;
  }

  /** `join('')` of a part followed by more parts is that part followed by their join. */
  lemma ConcatCons(first: string, rest: seq<string>)
    ensures Concat([first] + rest) == first + Concat(rest)
  {
    if |rest| > 0 {
      assert ([first] + rest)[1..] == rest;
    } else {
      assert [first] + rest == [first];
    }
  }

  /** Joining one more part adds exactly the separator and that part at the end. */
  lemma {:induction false} JoinSnoc(parts: seq<string>, last: string, sep: string)
    requires |parts| > 0
    ensures Join(parts + [last], sep) == Join(parts, sep) + sep + last
    decreases |parts|
  {
    if |parts| == 1 {
      assert parts + [last] == [parts[0], last];
      assert [parts[0], last][1..] == [last];
    } else {
      assert (parts + [last])[1..] == parts[1..] + [last];
      JoinSnoc(parts[1..], last, sep);
    }
  }

  predicate StartsWith(s: string, prefix: string)
  {
    |prefix| <= |s| && s[..|prefix|] == prefix
  }

  /** `s.split(c)` for a one-character separator: the pieces between occurrences of `c`. */
  function Split(s: string, c: char): (pieces: seq<string>)
    ensures |pieces| >= 1
    decreases |s|
  {
    if |s| == 0 then [""]
    else
      var rest := Split(s[1..], c);
      if s[0] == c then [""] + rest else [[s[0]] + rest[0]] + rest[1..]
  }

  /** A first character other than the separator joins the first piece of the rest. */
  lemma SplitCons(s: string, c: char)
    requires |s| > 0 && s[0] != c
    ensures Split(s, c) == [[s[0]] + Split(s[1..], c)[0]] + Split(s[1..], c)[1..]
  {
  }

  /** A prefix free of the separator is glued to the first piece of what follows it. */
  lemma {:induction false} SplitPrefixFree(x: string, tail: string, c: char)
    requires c !in x
    ensures Split(x + tail, c) == [x + Split(tail, c)[0]] + Split(tail, c)[1..]
    decreases |x|
  {
    var pieces := Split(tail, c);
    if |x| > 0 {
      var s := x + tail;
      assert s[0] == x[0] != c && s[1..] == x[1..] + tail;
      SplitCons(s, c);
      SplitPrefixFree(x[1..], tail, c);
      var rest := Split(x[1..] + tail, c);
      assert rest[0] == x[1..] + pieces[0] && rest[1..] == pieces[1..];
      ConsSlice(x, pieces[0]);
    } else {
      assert x + tail == tail && x + pieces[0] == pieces[0];
      assert pieces == [pieces[0]] + pieces[1..];
    }
  }

  /** Splitting undoes joining, as long as no part contains the separator. */
  lemma {:induction false} SplitJoin(parts: seq<string>, c: char)
    requires |parts| > 0
    requires forall i :: 0 <= i < |parts| ==> c !in parts[i]
    ensures Split(Join(parts, [c]), c) == parts
    decreases |parts|
  {
    if |parts| == 1 {
      SplitPrefixFree(parts[0], "", c);
      assert parts[0] + "" == parts[0];
    } else {
      var rest := Join(parts[1..], [c]);
      assert Join(parts, [c]) == parts[0] + ([c] + rest);
      SplitPrefixFree(parts[0], [c] + rest, c);
      assert ([c] + rest)[1..] == rest;
      SplitJoin(parts[1..], c);
      assert parts[0] + "" == parts[0];
      assert parts == [parts[0]] + parts[1..];
    }
  }

  // ---- ASCII character classes of JavaScript regular expressions ----

  predicate IsDigit(c: char) { '0' <= c <= '9' }
  predicate IsLower(c: char) { 'a' <= c <= 'z' }
  predicate IsUpper(c: char) { 'A' <= c <= 'Z' }

  /** `\w`: `[A-Za-z0-9_]` */
  predicate IsWordChar(c: char) { IsLower(c) || IsUpper(c) || IsDigit(c) || c == '_' }

  /** `toUpperCase()` restricted to the characters `\w` can match. */
  function ToUpper(c: char): (u: char)
    ensures IsLower(c) ==> IsUpper(u)
    ensures !IsLower(c) ==> u == c
  {
    if IsLower(c) then (c as int - 32) as char else c
  }

  // ---- decimal numbers ----

  predicate AllDigits(s: string) { forall i :: 0 <= i < |s| ==> IsDigit(s[i]) }

  function DigitChar(d: nat): (c: char)
    requires d < 10
    ensures IsDigit(c)
  {
    ('0' as int + d) as char
  }

  function DigitValue(c: char): (d: nat)
    requires IsDigit(c)
    ensures d < 10
  {
    c as int - '0' as int
  }

  /** `n.toString()` for a non-negative integer: its decimal digits, without leading zeros. */
  function NatToString(n: nat): (s: string)
    ensures 1 <= |s| && AllDigits(s)
    ensures |s| == 1 <==> n < 10
    ensures s[0] == '0' ==> n == 0
    decreases n
  {
    if n < 10 then [DigitChar(n)] else NatToString(n / 10) + [DigitChar(n % 10)]
  }

  /** The number a string of decimal digits denotes (leading zeros allowed). */
  function DecimalValue(s: string): nat
    requires AllDigits(s)
    decreases |s|
  {
    if |s| == 0 then 0 else DecimalValue(s[..|s| - 1]) * 10 + DigitValue(s[|s| - 1])
  }

  /** Reading the digits back gives the number: the decimal rendering loses nothing. */
  lemma {:induction false} DecimalValueOfNatToString(n: nat)
    ensures DecimalValue(NatToString(n)) == n
    decreases n
  {
    if n >= 10 {
      var s := NatToString(n);
      assert s[..|s| - 1] == NatToString(n / 10);
      DecimalValueOfNatToString(n / 10);
    }
  }

  /** Distinct numbers have distinct decimal renderings. */
  lemma NatToStringInjective(m: nat, n: nat)
    requires NatToString(m) == NatToString(n)
    ensures m == n
  {
    DecimalValueOfNatToString(m);
    DecimalValueOfNatToString(n);
  }
}
