/**
 * `formatKey` of the reporter block: three global regular-expression replacements that turn
 * a camelCase or snake_case key into Title Case words.
 */
module FormatKey {
  import opened Text

  /** No lower-case letter or digit is directly followed by an upper-case letter. */
  predicate NoCamelPair(s: string)
  {
    forall i :: 0 <= i < |s| - 1 ==> !((IsLower(s[i]) || IsDigit(s[i])) && IsUpper(s[i + 1]))
  }

  /** Position `i` starts a word: a word character with no word character before it (`\b\w`). */
  predicate WordStart(s: string, i: int)
    requires 0 <= i < |s|
  {
    IsWordChar(s[i]) && (i == 0 || !IsWordChar(s[i - 1]))
  }

  /**
   * `.replace(/([a-z0-9])([A-Z])/g, '$1 $2')`: matches are found left to right without
   * overlapping, and each gets a space between its two characters.
   */
  function SplitCamelCase(s: string): (r: string)
    ensures |s| > 0 ==> |r| > 0 && r[0] == s[0]
    decreases |s|
  {
    if |s| < 2 then s
    else if (IsLower(s[0]) || IsDigit(s[0])) && IsUpper(s[1]) then [s[0], ' ', s[1]] + SplitCamelCase(s[2..])
    else [s[0]] + SplitCamelCase(s[1..])
  }

  /** After the first pass no camel pair is left. */
  lemma {:induction false} SplitCamelCaseNoCamelPair(s: string)
    ensures NoCamelPair(SplitCamelCase(s))
    decreases |s|
  {
    if |s| >= 2 {
      var r := SplitCamelCase(s);
      if (IsLower(s[0]) || IsDigit(s[0])) && IsUpper(s[1]) {
        var rest := SplitCamelCase(s[2..]);
        SplitCamelCaseNoCamelPair(s[2..]);
        assert r == [s[0], ' ', s[1]] + rest;
        forall i | 0 <= i < |r| - 1 ensures !((IsLower(r[i]) || IsDigit(r[i])) && IsUpper(r[i + 1])) {
          if i >= 3 { assert r[i] == rest[i - 3] && r[i + 1] == rest[i - 2]; }
        }
      } else {
        var rest := SplitCamelCase(s[1..]);
        SplitCamelCaseNoCamelPair(s[1..]);
        assert r == [s[0]] + rest;
        forall i | 0 <= i < |r| - 1 ensures !((IsLower(r[i]) || IsDigit(r[i])) && IsUpper(r[i + 1])) {
          if i >= 1 { assert r[i] == rest[i - 1] && r[i + 1] == rest[i]; }
        }
      }
    }
  }

  /** The first pass adds spaces and nothing else. */
  lemma {:induction false} SplitCamelCaseChars(s: string)
    ensures forall i :: 0 <= i < |SplitCamelCase(s)| ==> SplitCamelCase(s)[i] in s || SplitCamelCase(s)[i] == ' '
    decreases |s|
  {
    if |s| >= 2 {
      var r := SplitCamelCase(s);
      var k := if (IsLower(s[0]) || IsDigit(s[0])) && IsUpper(s[1]) then 2 else 1;
      var rest := SplitCamelCase(s[k..]);
      SplitCamelCaseChars(s[k..]);
      forall i | 0 <= i < |r| && r[i] != ' ' ensures r[i] in s {
        if k == 2 {
          assert r == [s[0], ' ', s[1]] + rest;
          if i >= 3 { assert r[i] == rest[i - 3] && rest[i - 3] in s[2..]; }
        } else {
          assert r == [s[0]] + rest;
          if i >= 1 { assert r[i] == rest[i - 1] && rest[i - 1] in s[1..]; }
        }
      }
    }
  }

  /** A space or an underscore: the characters that separate the words of a key. */
  predicate IsGap(c: char) { c == ' ' || c == '_' }

  /** The text with its gaps dropped and its letters upper-cased: what formatting must keep of a key. */
  function Squash(s: string): string
    decreases |s|
  {
    if |s| == 0 then "" else (if IsGap(s[0]) then "" else [ToUpper(s[0])]) + Squash(s[1..])
  }

  /** The number of gaps in the text. */
  function Gaps(s: string): nat
    decreases |s|
  {
    if |s| == 0 then 0 else (if IsGap(s[0]) then 1 else 0) + Gaps(s[1..])
  }

  /** The number of positions where a lower-case letter or digit is followed by an upper-case letter. */
  function CamelPairs(s: string): nat
    decreases |s|
  {
    if |s| < 2 then 0
    else (if (IsLower(s[0]) || IsDigit(s[0])) && IsUpper(s[1]) then 1 else 0) + CamelPairs(s[1..])
  }

  lemma SquashCons(c: char, t: string)
    ensures Squash([c] + t) == (if IsGap(c) then "" else [ToUpper(c)]) + Squash(t)
    ensures Gaps([c] + t) == (if IsGap(c) then 1 else 0) + Gaps(t)
  {
    assert ([c] + t)[1..] == t;
  }

  /** A camel pair with the space the first pass puts between its two characters. */
  lemma SquashSpacedPair(c: char, d: char, t: string)
    requires !IsGap(c) && !IsGap(d)
    ensures Squash([c] + ([' '] + ([d] + t))) == [ToUpper(c)] + ([ToUpper(d)] + Squash(t))
    ensures Gaps([c] + ([' '] + ([d] + t))) == 1 + Gaps(t)
  {
    SquashCons(d, t);
    SquashCons(' ', [d] + t);
    SquashCons(c, [' '] + ([d] + t));
  }

  lemma SquashPair(c: char, d: char, t: string)
    requires !IsGap(c) && !IsGap(d)
    ensures Squash([c] + ([d] + t)) == [ToUpper(c)] + ([ToUpper(d)] + Squash(t))
    ensures Gaps([c] + ([d] + t)) == Gaps(t)
  {
    SquashCons(d, t);
    SquashCons(c, [d] + t);
  }

  /** One camel pair in front: the space the first pass inserts is the pair's one gap. */
  lemma PairStep(c: char, d: char, t: string, rt: string)
    requires (IsLower(c) || IsDigit(c)) && IsUpper(d)
    requires Squash(rt) == Squash(t) && Gaps(rt) == Gaps(t) + CamelPairs(t)
    ensures Squash([c] + ([' '] + ([d] + rt))) == Squash([c] + ([d] + t))
    ensures Gaps([c] + ([' '] + ([d] + rt))) == Gaps([c] + ([d] + t)) + CamelPairs([c] + ([d] + t))
  {
    SquashSpacedPair(c, d, rt);
    SquashPair(c, d, t);
    assert ([c] + ([d] + t))[1..] == [d] + t;
    if |t| > 0 {
      assert ([d] + t)[1..] == t;
    }
  }

  /** One character in front that starts no camel pair. */
  lemma PlainStep(c: char, t: string, rt: string)
    requires |t| > 0 && !((IsLower(c) || IsDigit(c)) && IsUpper(t[0]))
    requires Squash(rt) == Squash(t) && Gaps(rt) == Gaps(t) + CamelPairs(t)
    ensures Squash([c] + rt) == Squash([c] + t)
    ensures Gaps([c] + rt) == Gaps([c] + t) + CamelPairs([c] + t)
  {
    SquashCons(c, rt);
    SquashCons(c, t);
    assert ([c] + t)[1..] == t;
  }

  lemma Nest(a: char, b: char, c: char, x: string)
    ensures [a, b, c] + x == [a] + ([b] + ([c] + x))
  {
  }

  /** A text of two or more characters is its head, its second character and the rest. */
  lemma HeadSplit(s: string)
    requires |s| >= 2
    ensures s == [s[0]] + s[1..] && s == [s[0]] + ([s[1]] + s[2..])
  {
    assert s == [s[0]] + s[1..];
    assert s[1..] == [s[1]] + s[2..];
  }

  /** The first pass at a camel pair, with the text split into its head and the rest. */
  lemma SplitCamelCaseUnfold(s: string)
    requires |s| >= 2
    ensures (IsLower(s[0]) || IsDigit(s[0])) && IsUpper(s[1]) ==>
              SplitCamelCase(s) == [s[0]] + ([' '] + ([s[1]] + SplitCamelCase(s[2..])))
  {
    Nest(s[0], ' ', s[1], SplitCamelCase(s[2..]));
  }

  /**
   * The first pass keeps the key's characters in order and inserts exactly one space per
   * camel pair: camel pairs never overlap, so the left-to-right matching finds them all.
   */
  lemma {:induction false} SplitCamelCaseKeepsKey(s: string)
    ensures Squash(SplitCamelCase(s)) == Squash(s)
    ensures Gaps(SplitCamelCase(s)) == Gaps(s) + CamelPairs(s)
    decreases |s|
  {
    if |s| >= 2 {
      HeadSplit(s);
      SplitCamelCaseUnfold(s);
      if (IsLower(s[0]) || IsDigit(s[0])) && IsUpper(s[1]) {
        SplitCamelCaseKeepsKey(s[2..]);
        PairStep(s[0], s[1], s[2..], SplitCamelCase(s[2..]));
      } else {
        SplitCamelCaseKeepsKey(s[1..]);
        PlainStep(s[0], s[1..], SplitCamelCase(s[1..]));
      }
    }
  }

  /** A camel pair starts at `i`: a lower-case letter or digit followed by an upper-case letter. */
  predicate CamelAt(s: string, i: int)
    requires 0 <= i < |s|
  {
    i + 1 < |s| && (IsLower(s[i]) || IsDigit(s[i])) && IsUpper(s[i + 1])
  }

  /** The text with its spaces dropped and everything else kept as it is. */
  function DropSpaces(s: string): string
    decreases |s|
  {
    if |s| == 0 then "" else (if s[0] == ' ' then "" else [s[0]]) + DropSpaces(s[1..])
  }

  lemma DropSpacesCons(c: char, t: string)
    ensures DropSpaces([c] + t) == (if c == ' ' then "" else [c]) + DropSpaces(t)
  {
    assert ([c] + t)[1..] == t;
  }

  /**
   * The key read one character at a time, with a space written after each character that
   * starts a camel pair: where the first pass is meant to put its spaces. Dropping the
   * spaces gives the key back, and the text grows by one character per camel pair.
   */
  function SpaceCamelPairs(s: string): (r: string)
    ensures DropSpaces(r) == DropSpaces(s)
    ensures |r| == |s| + CamelPairs(s)
    decreases |s|
  {
    if |s| == 0 then ""
    else
      var rest := SpaceCamelPairs(s[1..]);
      DropSpacesCons(s[0], s[1..]);
      assert s == [s[0]] + s[1..];
      if CamelAt(s, 0) then
        DropSpacesCons(' ', rest);
        DropSpacesCons(s[0], [' '] + rest);
        assert [s[0], ' '] + rest == [s[0]] + ([' '] + rest);
        [s[0], ' '] + rest
      else
        DropSpacesCons(s[0], rest);
        [s[0]] + rest
  }

  /**
   * The first pass puts its spaces exactly after the characters that start a camel pair.
   * Camel pairs never overlap, since the second character of one is upper case and cannot
   * start another, so the left-to-right matching misses none of them.
   */
  lemma {:induction false} SplitCamelCaseSpacesPairs(s: string)
    ensures SplitCamelCase(s) == SpaceCamelPairs(s)
    decreases |s|
  {
    if |s| >= 2 {
      if CamelAt(s, 0) {
        var t := s[1..];
        SplitCamelCaseSpacesPairs(s[2..]);
        assert t[1..] == s[2..] && t[0] == s[1] && !CamelAt(t, 0);
        assert SpaceCamelPairs(t) == [s[1]] + SpaceCamelPairs(s[2..]);
        assert [s[0], ' '] + ([s[1]] + SpaceCamelPairs(s[2..])) == [s[0], ' ', s[1]] + SpaceCamelPairs(s[2..]);
      } else {
        SplitCamelCaseSpacesPairs(s[1..]);
      }
    } else if |s| == 1 {
      assert s[1..] == "";
    }
  }

  /** The first pass only adds spaces: the key's other characters stay, in order and in their case. */
  lemma SplitCamelCaseAddsOnlySpaces(s: string)
    ensures DropSpaces(SplitCamelCase(s)) == DropSpaces(s)
  {
    SplitCamelCaseSpacesPairs(s);
  }

  /** A character-by-character rewrite that keeps gaps as gaps and other characters up to case keeps the squashed text. */
  lemma {:induction false} SquashPointwise(r: string, s: string)
    requires |r| == |s|
    requires forall i :: 0 <= i < |s| ==> IsGap(r[i]) == IsGap(s[i]) && (IsGap(s[i]) || ToUpper(r[i]) == ToUpper(s[i]))
    ensures Squash(r) == Squash(s) && Gaps(r) == Gaps(s)
    decreases |s|
  {
    if |s| > 0 {
      assert forall i :: 0 <= i < |s| - 1 ==> r[1..][i] == r[i + 1] && s[1..][i] == s[i + 1];
      SquashPointwise(r[1..], s[1..]);
    }
  }

  /** `.replace(/_/g, ' ')` */
  function ReplaceUnderscores(s: string): (r: string)
    ensures |r| == |s| && '_' !in r
    ensures forall i :: 0 <= i < |s| ==> r[i] == (if s[i] == '_' then ' ' else s[i])
  {
    seq(|s|, i requires 0 <= i < |s| => if s[i] == '_' then ' ' else s[i])
  }

  /** `.replace(/\b\w/g, (char) => char.toUpperCase())`, with JavaScript's ASCII `\w`. */
  function CapitalizeWords(s: string): (r: string)
    ensures |r| == |s|
    ensures forall i :: 0 <= i < |s| ==> r[i] == (if WordStart(s, i) then ToUpper(s[i]) else s[i])
  {
    seq(|s|, i requires 0 <= i < |s| => if WordStart(s, i) then ToUpper(s[i]) else s[i])
  }

  /**
   * The last two passes, position by position: an underscore becomes a space, a word start is
   * upper-cased, and every other character keeps its case.
   */
  lemma LastTwoPasses(a: string)
    ensures var r := CapitalizeWords(ReplaceUnderscores(a));
            && |r| == |a|
            && forall i :: 0 <= i < |r| ==>
                 r[i] == (if a[i] == '_' then ' ' else if WordStart(r, i) then ToUpper(a[i]) else a[i])
  {
    var b := ReplaceUnderscores(a);
    var r := CapitalizeWords(b);
    assert forall i :: 0 <= i < |r| ==> IsWordChar(r[i]) == IsWordChar(b[i]);
    forall i | 0 <= i < |r|
      ensures r[i] == (if a[i] == '_' then ' ' else if WordStart(r, i) then ToUpper(a[i]) else a[i])
    {
      assert WordStart(r, i) == WordStart(b, i);
    }
  }

  /** Turning underscores into spaces creates no camel pair. */
  lemma ReplaceUnderscoresNoCamelPair(s: string)
    requires NoCamelPair(s)
    ensures NoCamelPair(ReplaceUnderscores(s))
  {
    var r := ReplaceUnderscores(s);
    forall i | 0 <= i < |r| - 1 ensures !((IsLower(r[i]) || IsDigit(r[i])) && IsUpper(r[i + 1])) {
      assert r[i] == ' ' || r[i] == s[i];
      assert r[i + 1] == ' ' || r[i + 1] == s[i + 1];
    }
  }

  /**
   * Capitalising word starts keeps the word structure, creates no camel pair, brings in no
   * underscore, and leaves no word starting in lower case.
   */
  lemma CapitalizeWordsProperties(s: string)
    requires NoCamelPair(s) && '_' !in s
    ensures var r := CapitalizeWords(s);
            && '_' !in r
            && NoCamelPair(r)
            && (forall i :: 0 <= i < |r| ==> IsWordChar(r[i]) == IsWordChar(s[i]))
            && (forall i :: 0 <= i < |r| && WordStart(r, i) ==> !IsLower(r[i]))
  {
    var r := CapitalizeWords(s);
    forall i | 0 <= i < |r| ensures IsWordChar(r[i]) == IsWordChar(s[i]) && r[i] != '_' {
      assert s[i] != '_' by { assert s[i] in s; }
    }
    forall i | 0 <= i < |r| && WordStart(r, i) ensures !IsLower(r[i]) {
      assert WordStart(s, i);
    }
    forall i | 0 <= i < |r| - 1 ensures !((IsLower(r[i]) || IsDigit(r[i])) && IsUpper(r[i + 1])) {
      if WordStart(s, i + 1) {
        assert !IsWordChar(s[i]) && r[i] == s[i];
      } else {
        assert r[i + 1] == s[i + 1];
        assert IsLower(r[i]) ==> r[i] == s[i];
        assert IsDigit(r[i]) ==> IsDigit(s[i]);
      }
    }
  }

  /**
   * `formatKey`. Its result has no underscore, no lower-case letter or digit run straight
   * into an upper-case letter, and no word that starts in lower case. Position by position
   * it is the key with a space inside each camel pair (`SpaceCamelPairs`), each underscore
   * made a space, each word start upper-cased, and every other character in its own case.
   */
  function Format(key: string): (r: string)
    ensures '_' !in r
    ensures NoCamelPair(r)
    ensures forall i :: 0 <= i < |r| && WordStart(r, i) ==> !IsLower(r[i])
    ensures forall i :: 0 <= i < |r| ==> r[i] in key || r[i] == ' ' || IsUpper(r[i])
    ensures Squash(r) == Squash(key)
    ensures Gaps(r) == Gaps(key) + CamelPairs(key)
    ensures |r| == |SpaceCamelPairs(key)|
    ensures forall i :: 0 <= i < |r| ==>
              r[i] == (if SpaceCamelPairs(key)[i] == '_' then ' '
                       else if WordStart(r, i) then ToUpper(SpaceCamelPairs(key)[i])
                       else SpaceCamelPairs(key)[i])
  {
    var a := SplitCamelCase(key);
    SplitCamelCaseSpacesPairs(key);
    LastTwoPasses(a);
    SplitCamelCaseNoCamelPair(key);
    SplitCamelCaseChars(key);
    SplitCamelCaseKeepsKey(key);
    var b := ReplaceUnderscores(a);
    ReplaceUnderscoresNoCamelPair(a);
    SquashPointwise(b, a);
    CapitalizeWordsProperties(b);
    var r := CapitalizeWords(b);
    assert forall i :: 0 <= i < |b| ==> ToUpper(ToUpper(b[i])) == ToUpper(b[i]);
    SquashPointwise(r, b);
    assert forall i :: 0 <= i < |r| ==> r[i] in key || r[i] == ' ' || IsUpper(r[i]) by {
      forall i | 0 <= i < |r| ensures r[i] in key || r[i] == ' ' || IsUpper(r[i]) {
        if r[i] != b[i] {
          assert IsUpper(r[i]);
        } else if b[i] != a[i] {
          assert b[i] == ' ';
        } else {
          assert a[i] in key || a[i] == ' ';
        }
      }
    }
    r
  }

  lemma {:induction false} SplitCamelCaseIdentity(s: string)
    requires NoCamelPair(s)
    ensures SplitCamelCase(s) == s
    decreases |s|
  {
    if |s| >= 2 {
      assert !((IsLower(s[0]) || IsDigit(s[0])) && IsUpper(s[1]));
      SplitCamelCaseIdentity(s[1..]);
      assert [s[0]] + s[1..] == s;
    }
  }

  /** Formatting a formatted key changes nothing. */
  lemma FormatIdempotent(key: string)
    ensures Format(Format(key)) == Format(key)
  {
    var k := Format(key);
    SplitCamelCaseIdentity(k);
    assert ReplaceUnderscores(SplitCamelCase(k)) == ReplaceUnderscores(k);
    assert ReplaceUnderscores(k) == k;
    assert CapitalizeWords(k) == k;
  }

  lemma SplitCamelCasePlain(c: char, s: string)
    requires |s| > 0 && !((IsLower(c) || IsDigit(c)) && IsUpper(s[0]))
    ensures SplitCamelCase([c] + s) == [c] + SplitCamelCase(s)
  {
    assert ([c] + s)[1..] == s;
  }

  lemma SplitCamelCasePair(c: char, d: char, s: string)
    requires (IsLower(c) || IsDigit(c)) && IsUpper(d)
    ensures SplitCamelCase([c, d] + s) == [c, ' ', d] + SplitCamelCase(s)
  {
    assert ([c, d] + s)[2..] == s;
  }

  // The literal "fullName" is split one character at a time, from its end.

  lemma SplitCamelCaseExample1()
    ensures SplitCamelCase("lName") == "l Name"
  {
    var t := "ame";
    SplitCamelCaseIdentity(t);
    SplitCamelCasePair('l', 'N', t);
    assert "lName" == ['l', 'N'] + t;
  }

  lemma SplitCamelCaseExample2()
    ensures SplitCamelCase("llName") == "ll Name"
  {
    SplitCamelCaseExample1();
    SplitCamelCasePlain('l', "lName");
    assert "llName" == ['l'] + "lName";
  }

  lemma SplitCamelCaseExample3()
    ensures SplitCamelCase("ullName") == "ull Name"
  {
    SplitCamelCaseExample2();
    SplitCamelCasePlain('u', "llName");
    assert "ullName" == ['u'] + "llName";
  }

  lemma SplitCamelCaseExample()
    ensures SplitCamelCase("fullName") == "full Name"
  {
    SplitCamelCaseExample3();
    SplitCamelCasePlain('f', "ullName");
    assert "fullName" == ['f'] + "ullName";
  }

  lemma CapitalizeExample()
    ensures CapitalizeWords("full Name") == "Full Name"
  {
    var c := CapitalizeWords("full Name");
    assert c[0] == 'F' && c[5] == 'N';
  }

  lemma SnakeCaseHasNoCamelPair()
    ensures NoCamelPair("short_name")
  {
    var s := "short_name";
    forall i | 0 <= i < |s| - 1 ensures !((IsLower(s[i]) || IsDigit(s[i])) && IsUpper(s[i + 1])) {
      assert !IsUpper(s[i + 1]);
    }
  }

  lemma ReplaceUnderscoresExample()
    ensures ReplaceUnderscores("short_name") == "short name"
  {
    var r := ReplaceUnderscores("short_name");
    assert r[5] == ' ';
  }

  lemma SnakeCaseExample()
    ensures ReplaceUnderscores(SplitCamelCase("short_name")) == "short name"
  {
    SnakeCaseHasNoCamelPair();
    SplitCamelCaseIdentity("short_name");
    ReplaceUnderscoresExample();
  }

  lemma CapitalizeSnakeExample()
    ensures CapitalizeWords("short name") == "Short Name"
  {
    var c := CapitalizeWords("short name");
    assert c[0] == 'S' && c[6] == 'N';
  }

  /** `formatKey` as its three passes, one after the other. */
  lemma FormatSteps(key: string, a: string, b: string, r: string)
    requires SplitCamelCase(key) == a && ReplaceUnderscores(a) == b && CapitalizeWords(b) == r
    ensures Format(key) == r
  {
  }

  lemma ReplaceUnderscoresSpacedExample()
    ensures ReplaceUnderscores("full Name") == "full Name"
  {
    var b := ReplaceUnderscores("full Name");
    assert b == "full Name";
  }

  /** The two shapes a key is expected to come in: `fullName` and `short_name`. */
  lemma FormatCamelCaseExample()
    ensures Format("fullName") == "Full Name"
  {
    SplitCamelCaseExample();
    ReplaceUnderscoresSpacedExample();
    CapitalizeExample();
    FormatSteps("fullName", "full Name", "full Name", "Full Name");
  }

  lemma FormatSnakeCaseExample()
    ensures Format("short_name") == "Short Name"
  {
    SnakeCaseExample();
    CapitalizeSnakeExample();
    FormatSteps("short_name", SplitCamelCase("short_name"), "short name", "Short Name");
  }
}
