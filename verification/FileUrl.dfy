/** A `file://` URL and the path it names. Each direction is two whole-string
    replacements, and their order matters. */
module FileUrl {
  import opened Wrappers
  import opened Text

  /** Every occurrence of a non-empty pattern, left to right, replaced. */
  function Replace(s: string, pattern: string, sub: string): string
    requires pattern != ""
  {
    if |s| < |pattern| then s
    else if s[..|pattern|] == pattern then sub + Replace(s[|pattern|..], pattern, sub)
    else [s[0]] + Replace(s[1..], pattern, sub)
  }

  const SCHEME := "file://"
  const LOCALHOST := "file://localhost"

  function EncodePath(path: string): string {
    Replace(Replace(path, "%", "%25"), " ", "%20")
  }

  function DecodePath(rest: string): string {
    Replace(Replace(rest, "%20", " "), "%25", "%")
  }

  function Url(path: string): string {
    SCHEME + EncodePath(path)
  }

  function StripPrefix(s: string, prefix: string): Option<string> {
    if prefix <= s then Some(s[|prefix|..]) else None
  }

  /** The local path a URL names, or nothing for a URL of another kind. */
  function UrlPath(url: string): Option<string> {
    var rest := match StripPrefix(url, LOCALHOST)
      case Some(r) => Some(r)
      case None => StripPrefix(url, SCHEME);
    if rest.None? || rest.value == "" || rest.value[0] != '/' then None
    else Some(DecodePath(rest.value))
  }

  /** A percent-decoder as section 2.1 of RFC 3986 has it, over any escape; a
      `%` that starts no escape stands for itself. */
  function PercentDecode(s: string): string {
    if s == "" then ""
    else if |s| >= 3 && s[0] == '%' && HexValue(s[1]).Some? && HexValue(s[2]).Some? then
      [(HexValue(s[1]).value * 16 + HexValue(s[2]).value) as char] + PercentDecode(s[3..])
    else [s[0]] + PercentDecode(s[1..])
  }

  function HexValue(c: char): (r: Option<nat>)
    ensures r.Some? ==> r.value < 16
  {
    if '0' <= c <= '9' then Some(c as int - '0' as int)
    else if 'a' <= c <= 'f' then Some(c as int - 'a' as int + 10)
    else if 'A' <= c <= 'F' then Some(c as int - 'A' as int + 10)
    else None
  }

  // ---- Character by character -----------------------------------------------

  /** The encoding one character at a time. */
  function EncodeChars(s: string): string {
    if s == "" then ""
    else (if s[0] == '%' then "%25" else if s[0] == ' ' then "%20" else [s[0]]) + EncodeChars(s[1..])
  }

  function EscapePercent(s: string): string {
    if s == "" then "" else (if s[0] == '%' then "%25" else [s[0]]) + EscapePercent(s[1..])
  }

  function EscapeSpace(s: string): string {
    if s == "" then "" else (if s[0] == ' ' then "%20" else [s[0]]) + EscapeSpace(s[1..])
  }

  lemma {:induction false} ReplaceOne(s: string, c: char, sub: string)
    ensures s == "" ==> Replace(s, [c], sub) == ""
    ensures s != "" ==> Replace(s, [c], sub) == (if s[0] == c then sub else [s[0]]) + Replace(s[1..], [c], sub)
  {
    if s != "" {
      assert s[..1] == [s[0]];
    }
  }

  lemma {:induction false} ReplaceIsEscape(s: string)
    ensures Replace(s, "%", "%25") == EscapePercent(s)
    ensures Replace(s, " ", "%20") == EscapeSpace(s)
  {
    ReplaceOne(s, '%', "%25");
    ReplaceOne(s, ' ', "%20");
    if s != "" {
      ReplaceIsEscape(s[1..]);
    }
  }

  lemma {:induction false} EscapeSpaceConcat(a: string, b: string)
    ensures EscapeSpace(a + b) == EscapeSpace(a) + EscapeSpace(b)
  {
    if a == "" {
      assert a + b == b;
    } else {
      assert (a + b)[1..] == a[1..] + b;
      EscapeSpaceConcat(a[1..], b);
    }
  }

  lemma {:induction false} EscapePercentConcat(a: string, b: string)
    ensures EscapePercent(a + b) == EscapePercent(a) + EscapePercent(b)
  {
    if a == "" {
      assert a + b == b;
    } else {
      assert (a + b)[1..] == a[1..] + b;
      EscapePercentConcat(a[1..], b);
    }
  }

  lemma EscapeLiterals(c: char)
    ensures EscapeSpace("%25") == "%25"
    ensures EscapeSpace([c]) == if c == ' ' then "%20" else [c]
    ensures EscapePercent("%20") == "%2520"
    ensures EscapePercent([c]) == if c == '%' then "%25" else [c]
  {
    assert "%25"[1..] == "25" && "25"[1..] == "5" && "5"[1..] == "";
    assert "%20"[1..] == "20" && "20"[1..] == "0" && "0"[1..] == "";
    assert [c][1..] == "";
  }

  lemma {:induction false} EncodeIsByCharacter(s: string)
    ensures EncodePath(s) == EncodeChars(s)
  {
    ReplaceIsEscape(s);
    ReplaceIsEscape(EscapePercent(s));
    if s != "" {
      EncodeIsByCharacter(s[1..]);
      ReplaceIsEscape(s[1..]);
      ReplaceIsEscape(EscapePercent(s[1..]));
      EscapeSpaceConcat(if s[0] == '%' then "%25" else [s[0]], EscapePercent(s[1..]));
      EscapeLiterals(s[0]);
    }
  }

  // ---- What the decoder undoes ----------------------------------------------

  /** Replacing an escape in a text that starts with a character or with one of
      the two escapes. */
  lemma ReplaceEscapeStep(rest: string, sub: string, c: char, d: char, e: char)
    requires d in {'5', '0'} && e in {'5', '0'}
    ensures c != '%' ==> Replace([c] + rest, ['%', '2', e], sub) == [c] + Replace(rest, ['%', '2', e], sub)
    ensures Replace(['%', '2', d] + rest, ['%', '2', e], sub) ==
            (if d == e then sub else ['%', '2', d]) + Replace(rest, ['%', '2', e], sub)
  {
    var p := ['%', '2', e];
    var s := [c] + rest;
    assert s[1..] == rest;
    if c != '%' && |s| >= 3 {
      assert s[..3][0] == c;
    }
    var t := ['%', '2', d] + rest;
    assert t[..3] == ['%', '2', d] && t[3..] == rest;
    if d != e {
      assert t[..3][2] != p[2];
      assert t[1..] == ['2', d] + rest;
      ReplaceSkips('2', [d] + rest, p, sub);
      assert ['2'] + ([d] + rest) == ['2', d] + rest;
      ReplaceSkips(d, rest, p, sub);
    }
  }

  lemma ReplaceSkips(c: char, rest: string, pattern: string, sub: string)
    requires |pattern| == 3 && pattern[0] != c
    ensures Replace([c] + rest, pattern, sub) == [c] + Replace(rest, pattern, sub)
  {
    var s := [c] + rest;
    assert s[1..] == rest;
    if |s| >= 3 {
      assert s[..3][0] == c;
    }
  }

  lemma {:induction false} DecodeUndoesSpaces(s: string)
    ensures Replace(EncodeChars(s), "%20", " ") == EscapePercent(s)
  {
    if s != "" {
      DecodeUndoesSpaces(s[1..]);
      hide Replace;
      ReplaceEscapeStep(EncodeChars(s[1..]), " ", s[0], '5', '0');
      ReplaceEscapeStep(EncodeChars(s[1..]), " ", s[0], '0', '0');
    }
  }

  lemma {:induction false} DecodeUndoesPercents(s: string)
    ensures Replace(EscapePercent(s), "%25", "%") == s
  {
    if s != "" {
      DecodeUndoesPercents(s[1..]);
      hide Replace;
      ReplaceEscapeStep(EscapePercent(s[1..]), "%", s[0], '5', '5');
    }
  }

  lemma DecodeUndoesEncode(path: string)
    ensures DecodePath(EncodePath(path)) == path
  {
    EncodeIsByCharacter(path);
    DecodeUndoesSpaces(path);
    DecodeUndoesPercents(path);
  }

  /** The URL of a path names that path exactly when the path is absolute. */
  lemma RoundTripIff(path: string)
    ensures UrlPath(Url(path)) == Some(path) <==> path != "" && path[0] == '/'
  {
    hide Replace;
    DecodeUndoesEncode(path);
    EncodeIsByCharacter(path);
    var url := Url(path);
    assert url[|SCHEME|..] == EncodePath(path);
    assert SCHEME <= url;
    LocalhostIsLiteral(path);
    FirstIsSlash(path);
  }

  /** Only a path that itself begins with `localhost` can be taken for the
      localhost form: what follows is then read in its place if it begins with
      a slash, and otherwise nothing is. */
  lemma LocalhostIsLiteral(path: string)
    ensures LOCALHOST <= Url(path) <==> "localhost" <= path
    ensures "localhost" <= path ==>
              UrlPath(Url(path)) == if "/" <= path[9..] then Some(path[9..]) else None
  {
    hide Replace, EncodeChars, EncodePath, DecodePath;
    var host := "localhost";
    assert LOCALHOST == SCHEME + host;
    EncodeIsByCharacter(path);
    var encoded := EncodeChars(path);
    assert Url(path) == SCHEME + encoded;
    if LOCALHOST <= Url(path) {
      assert encoded[..|host|] == Url(path)[|SCHEME|..|LOCALHOST|] == host;
      LiteralPrefix(path, host);
    }
    if host <= path {
      var tail := path[|host|..];
      assert path == host + tail;
      LiteralFront(host, tail);
      EncodeIsByCharacter(tail);
      DecodeUndoesEncode(tail);
      assert Url(path) == LOCALHOST + EncodePath(tail);
      assert Url(path)[|LOCALHOST|..] == EncodePath(tail);
      FirstIsSlash(tail);
    }
  }

  lemma EncodeHead(c: char, rest: string)
    requires c != '%' && c != ' '
    ensures EncodeChars([c] + rest) == [c] + EncodeChars(rest)
  {
    assert ([c] + rest)[1..] == rest;
  }

  lemma {:induction false} LiteralFront(front: string, tail: string)
    requires '%' !in front && ' ' !in front
    ensures EncodeChars(front + tail) == front + EncodeChars(tail)
  {
    hide EncodeChars;
    if front == "" {
      assert front + tail == tail && front + EncodeChars(tail) == EncodeChars(tail);
    } else {
      LiteralFront(front[1..], tail);
      EncodeHead(front[0], front[1..] + tail);
      assert front + tail == [front[0]] + (front[1..] + tail);
      assert front + EncodeChars(tail) == [front[0]] + (front[1..] + EncodeChars(tail));
    }
  }

  lemma FirstIsSlash(s: string)
    ensures "/" <= EncodeChars(s) <==> "/" <= s
  {
  }

  lemma {:induction false} LiteralPrefix(s: string, prefix: string)
    requires prefix <= EncodeChars(s) && '%' !in prefix
    ensures prefix <= s && EncodeChars(s)[|prefix|..] == EncodeChars(s[|prefix|..])
    decreases |prefix|
  {
    if prefix != "" {
      var e := EncodeChars(s);
      assert s != "" && e[0] == prefix[0] && prefix[0] in prefix;
      assert s[0] != '%' && s[0] != ' ';
      assert e[1..] == EncodeChars(s[1..]);
      assert prefix[1..] <= e[1..];
      LiteralPrefix(s[1..], prefix[1..]);
      assert e[|prefix|..] == e[1..][|prefix| - 1..];
      assert s[|prefix|..] == s[1..][|prefix| - 1..];
    }
  }

  /** A URL never holds a space. */
  lemma {:induction false} UrlHasNoSpace(path: string)
    ensures ' ' !in Url(path)
  {
    EncodeIsByCharacter(path);
    EncodeCharsHasNoSpace(path);
  }

  lemma {:induction false} EncodeCharsHasNoSpace(s: string)
    ensures ' ' !in EncodeChars(s)
  {
    if s != "" {
      EncodeCharsHasNoSpace(s[1..]);
    }
  }

  /** Two different paths never share a URL. */
  lemma UrlIsInjective(p: string, q: string)
    requires Url(p) == Url(q)
    ensures p == q
  {
    hide Replace;
    assert Url(p)[|SCHEME|..] == EncodePath(p) && Url(q)[|SCHEME|..] == EncodePath(q);
    DecodeUndoesEncode(p);
    DecodeUndoesEncode(q);
  }

  /** A general percent-decoder reads the same path from every emitted URL. */
  lemma {:induction false} GeneralDecoderAgrees(path: string)
    ensures PercentDecode(EncodePath(path)) == path
  {
    EncodeIsByCharacter(path);
    PercentDecodeUndoesEncode(path);
  }

  lemma {:induction false} PercentDecodeUndoesEncode(s: string)
    ensures PercentDecode(EncodeChars(s)) == s
  {
    if s != "" {
      var e, rest := EncodeChars(s), EncodeChars(s[1..]);
      PercentDecodeUndoesEncode(s[1..]);
      if s[0] == '%' {
        assert e[0] == '%' && e[1] == '2' && e[2] == '5' && e[3..] == rest;
        assert (2 * 16 + 5) as char == '%';
      } else if s[0] == ' ' {
        assert e[0] == '%' && e[1] == '2' && e[2] == '0' && e[3..] == rest;
        assert (2 * 16 + 0) as char == ' ';
      } else {
        assert e[0] == s[0] && e[1..] == rest;
      }
    }
  }

  // ---- Why the order of the passes matters ----------------------------------

  /** Escaping spaces before percents re-escapes the escapes: the round trip
      survives exactly on paths without a space. */
  lemma SwappedEncoderIff(path: string)
    ensures DecodePath(Replace(Replace(path, " ", "%20"), "%", "%25")) == path <==> ' ' !in path
  {
    ReplaceIsEscape(path);
    ReplaceIsEscape(EscapeSpace(path));
    EscapeTwice(path);
    hide Replace;
    DecodeUndoesPercents(EscapeSpace(path));
    EscapeSpaceLength(path);
  }

  lemma {:induction false} EscapeTwice(s: string)
    ensures Replace(EscapePercent(EscapeSpace(s)), "%20", " ") == EscapePercent(EscapeSpace(s))
  {
    if s != "" {
      EscapeTwice(s[1..]);
      var rest := EscapePercent(EscapeSpace(s[1..]));
      EscapePercentConcat(if s[0] == ' ' then "%20" else [s[0]], EscapeSpace(s[1..]));
      EscapeLiterals(s[0]);
      hide Replace;
      if s[0] == ' ' {
        EscapedEscapeStays(rest);
      } else {
        ReplaceEscapeStep(rest, " ", s[0], '5', '0');
      }
    }
  }

  lemma EscapedEscapeStays(rest: string)
    ensures Replace("%2520" + rest, "%20", " ") == "%2520" + Replace(rest, "%20", " ")
  {
    hide Replace;
    ReplaceEscapeStep("20" + rest, " ", 'x', '5', '0');
    assert "%2520" + rest == ['%', '2', '5'] + ("20" + rest);
    ReplaceSkips('2', "0" + rest, "%20", " ");
    assert ['2'] + ("0" + rest) == "20" + rest;
    ReplaceSkips('0', rest, "%20", " ");
    assert ['0'] + rest == "0" + rest;
    var more := Replace(rest, "%20", " ");
    assert ['%', '2', '5'] + (['2'] + (['0'] + more)) == "%2520" + more;
  }

  lemma {:induction false} EscapeSpaceLength(s: string)
    ensures |EscapeSpace(s)| >= |s|
    ensures EscapeSpace(s) == s <==> ' ' !in s
    ensures ' ' in s ==> |EscapeSpace(s)| > |s|
  {
    if s != "" {
      EscapeSpaceLength(s[1..]);
      assert s == [s[0]] + s[1..];
    }
  }

  /** Decoding percents before spaces collapses an escaped escape: the round
      trip survives exactly on paths that do not spell `%20`. */
  lemma SwappedDecoderIff(path: string)
    ensures Replace(Replace(EncodePath(path), "%25", "%"), "%20", " ") == path <==> !Contains(path, "%20")
  {
    EncodeIsByCharacter(path);
    PercentsFirst(path);
    SpacesAfter(path);
    ReplaceChangesIff(path);
  }

  lemma {:induction false} PercentsFirst(s: string)
    ensures Replace(EncodeChars(s), "%25", "%") == EscapeSpace(s)
  {
    if s != "" {
      PercentsFirst(s[1..]);
      hide Replace;
      ReplaceEscapeStep(EncodeChars(s[1..]), "%", s[0], '5', '5');
      ReplaceEscapeStep(EncodeChars(s[1..]), "%", s[0], '0', '5');
    }
  }

  /** Escaping the spaces and unescaping them again unescapes only what the
      path itself spelled. */
  lemma {:induction false} SpacesAfter(s: string)
    ensures Replace(EscapeSpace(s), "%20", " ") == Replace(s, "%20", " ")
    decreases |s|
  {
    if s != "" {
      var rest := EscapeSpace(s[1..]);
      if s[0] == ' ' {
        SpacesAfter(s[1..]);
        ReplaceEscapeStep(rest, " ", s[0], '0', '0');
        ReplaceSkips(' ', s[1..], "%20", " ");
        assert [s[0]] + s[1..] == s;
      } else if s[0] != '%' {
        SpacesAfter(s[1..]);
        ReplaceSkips(s[0], rest, "%20", " ");
        ReplaceSkips(s[0], s[1..], "%20", " ");
        assert [s[0]] + s[1..] == s;
      } else {
        SpacesAfterPercent(s);
      }
    }
  }

  lemma {:induction false} SpacesAfterPercent(s: string)
    requires s != "" && s[0] == '%'
    ensures Replace(EscapeSpace(s), "%20", " ") == Replace(s, "%20", " ")
    decreases |s|, 0
  {
    var e := EscapeSpace(s);
    assert e == ['%'] + EscapeSpace(s[1..]);
    if |s| >= 3 && s[1] == '2' && s[2] == '0' {
      assert s[1..][1..] == s[2..] && s[2..][1..] == s[3..];
      assert s[..3] == "%20";
      assert EscapeSpace(s[1..]) == ['2'] + EscapeSpace(s[2..]);
      assert EscapeSpace(s[2..]) == ['0'] + EscapeSpace(s[3..]);
      assert e == "%20" + EscapeSpace(s[3..]);
      assert e[..3] == "%20" && e[3..] == EscapeSpace(s[3..]);
      SpacesAfter(s[3..]);
    } else {
      SpacesAfter(s[1..]);
      if |s| >= 3 {
        assert s[..3] != "%20" by {
          assert s[..3][1] == s[1] && s[..3][2] == s[2];
        }
      }
      EscapedHeadDiffers(s);
    }
  }

  /** No `%20` starts at a percent of the path unless the path spells it. */
  lemma EscapedHeadDiffers(s: string)
    requires s != "" && s[0] == '%' && !(|s| >= 3 && s[1] == '2' && s[2] == '0')
    ensures Replace(EscapeSpace(s), "%20", " ") == ['%'] + Replace(EscapeSpace(s[1..]), "%20", " ")
    ensures Replace(s, "%20", " ") == ['%'] + Replace(s[1..], "%20", " ")
  {
    assert EscapeSpace(s)[1..] == EscapeSpace(s[1..]);
    EscapedHead(s);
    hide EscapeSpace;
    ReplaceKeeps(EscapeSpace(s));
    ReplaceKeeps(s);
  }

  lemma ReplaceKeeps(s: string)
    requires s != "" && !(|s| >= 3 && s[1] == '2' && s[2] == '0')
    ensures Replace(s, "%20", " ") == [s[0]] + Replace(s[1..], "%20", " ")
  {
    hide Replace;
    HeadStays(s, "%20", " ");
  }

  lemma HeadStays(s: string, pattern: string, sub: string)
    requires |pattern| == 3 && s != "" && !(|s| >= 3 && s[1] == pattern[1] && s[2] == pattern[2])
    ensures Replace(s, pattern, sub) == [s[0]] + Replace(s[1..], pattern, sub)
  {
    if |s| >= 3 {
      assert s[..3][1] == s[1] && s[..3][2] == s[2];
    }
  }

  lemma EscapedHead(s: string)
    requires s != "" && s[0] == '%'
    ensures EscapeSpace(s) != "" && EscapeSpace(s)[0] == '%'
    ensures |EscapeSpace(s)| >= 3 && EscapeSpace(s)[1] == '2' && EscapeSpace(s)[2] == '0' ==>
                |s| >= 3 && s[1] == '2' && s[2] == '0'
  {
    var t, e := s[1..], EscapeSpace(s[1..]);
    assert EscapeSpace(s) == ['%'] + e;
    if t != "" && t[0] == '2' {
      assert e == ['2'] + EscapeSpace(t[1..]);
      if t[1..] != "" {
        assert EscapeSpace(t[1..])[0] == if t[1] == ' ' then '%' else t[1];
      }
    } else if t != "" {
      assert e[0] == if t[0] == ' ' then '%' else t[0];
    }
  }

  lemma {:induction false} ReplaceShrinks(s: string)
    ensures |Replace(s, "%20", " ")| <= |s|
    decreases |s|
  {
    if |s| >= 3 {
      if s[..3] == "%20" {
        ReplaceShrinks(s[3..]);
      } else {
        ReplaceShrinks(s[1..]);
      }
    }
  }

  lemma {:induction false} ReplaceChangesIff(s: string)
    ensures Replace(s, "%20", " ") == s <==> !Contains(s, "%20")
    decreases |s|
  {
    if |s| >= 3 {
      if s[..3] == "%20" {
        ReplaceShrinks(s[3..]);
        assert OccursAt(s, "%20", 0);
      } else {
        ReplaceChangesIff(s[1..]);
        assert s == [s[0]] + s[1..];
        ContainsTail(s);
      }
    }
  }

  lemma ContainsTail(s: string)
    requires |s| >= 3 && s[..3] != "%20"
    ensures Contains(s, "%20") <==> Contains(s[1..], "%20")
  {
    if Contains(s, "%20") {
      var i: nat :| OccursAt(s, "%20", i);
      assert i > 0 && s[1..][i - 1..i - 1 + 3] == s[i..i + 3];
      assert OccursAt(s[1..], "%20", i - 1);
    }
    if Contains(s[1..], "%20") {
      var i: nat :| OccursAt(s[1..], "%20", i);
      assert s[i + 1..i + 1 + 3] == s[1..][i..i + 3];
      assert OccursAt(s, "%20", i + 1);
    }
  }
}
