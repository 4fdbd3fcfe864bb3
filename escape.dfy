/** The escape normaliser of `_extract_nextjs_data`: the captured JavaScript string literal is
    unescaped by three `str.replace` passes that use NUL as a placeholder for an escaped
    backslash. */
module EscapeNormalizer {

  const Nul: char := '\0'
  const Backslash: char := '\\'
  const Quote: char := '"'

  /** Python's `s.replace(pat, rep)`: every non-overlapping occurrence of `pat`, found from
      left to right, is replaced by `rep`. */
  function ReplaceAll(s: string, pat: string, rep: string): string
    requires |pat| > 0
    decreases |s|
  {
    if |s| < |pat| then s
    else if s[..|pat|] == pat then rep + ReplaceAll(s[|pat|..], pat, rep)
    else [s[0]] + ReplaceAll(s[1..], pat, rep)
  }

  /** An occurrence of the pattern at the head is replaced. */
  lemma ReplaceAtHead(pat: string, rep: string, rest: string)
    requires |pat| > 0
    ensures ReplaceAll(pat + rest, pat, rep) == rep + ReplaceAll(rest, pat, rep)
  {
    assert (pat + rest)[..|pat|] == pat;
    assert (pat + rest)[|pat|..] == rest;
  }

  /** A head character that cannot start the pattern is copied. */
  lemma ReplaceSkipsHead(c: char, rest: string, pat: string, rep: string)
    requires |pat| > 0 && c != pat[0]
    ensures ReplaceAll([c] + rest, pat, rep) == [c] + ReplaceAll(rest, pat, rep)
  {
    var s := [c] + rest;
    assert s[1..] == rest;
    if |s| < |pat| {
      assert |rest| < |pat|;
    } else {
      assert s[..|pat|][0] == c;
    }
  }

  /** When the string starts with the pattern's first character but not with the
      whole pattern, that character is copied. */
  lemma ReplaceMissesHead(s: string, pat: string, rep: string)
    requires |pat| > 0 && |s| > 0
    requires !(|pat| <= |s| && s[..|pat|] == pat)
    ensures ReplaceAll(s, pat, rep) == [s[0]] + ReplaceAll(s[1..], pat, rep)
  {
    if |s| < |pat| {
      assert |s[1..]| < |pat|;
      assert s == [s[0]] + s[1..];
    }
  }

  /** Lines 288-290: `\\` becomes NUL, then `\"` becomes `"`, then NUL becomes `\`. */
  function Unescape(escaped: string): string {
    var noBackslashPairs := ReplaceAll(escaped, [Backslash, Backslash], [Nul]);
    var noEscapedQuotes := ReplaceAll(noBackslashPairs, [Backslash, Quote], [Quote]);
    ReplaceAll(noEscapedQuotes, [Nul], [Backslash])
  }

  /** The single left-to-right decoder the replace chain stands for: `\\` gives `\`,
      `\"` gives `"`, and every other character is copied. */
  function Decode(s: string): string
    decreases |s|
  {
    if |s| >= 2 && s[0] == Backslash && (s[1] == Backslash || s[1] == Quote) then
      [s[1]] + Decode(s[2..])
    else if s == [] then []
    else [s[0]] + Decode(s[1..])
  }

  /** The escaping the normaliser undoes: double every backslash, then put a backslash
      before every double quote. */
  function Escape(plain: string): string {
    ReplaceAll(ReplaceAll(plain, [Backslash], [Backslash, Backslash]), [Quote], [Backslash, Quote])
  }

  /** The escape of one character. */
  function EscapeChar(c: char): string {
    if c == Backslash then [Backslash, Backslash]
    else if c == Quote then [Backslash, Quote]
    else [c]
  }

  /** The same escaping, one character at a time. */
  function EscapeChars(s: string): string
    decreases |s|
  {
    if s == [] then [] else EscapeChar(s[0]) + EscapeChars(s[1..])
  }

  /** A character that is neither a backslash nor NUL passes through all three passes. */
  lemma UnescapeCopiesPlainHead(c: char, rest: string)
    requires c != Backslash && c != Nul
    ensures Unescape([c] + rest) == [c] + Unescape(rest)
  {
    var s1 := ReplaceAll(rest, [Backslash, Backslash], [Nul]);
    var s2 := ReplaceAll(s1, [Backslash, Quote], [Quote]);
    ReplaceSkipsHead(c, rest, [Backslash, Backslash], [Nul]);
    ReplaceSkipsHead(c, s1, [Backslash, Quote], [Quote]);
    ReplaceSkipsHead(c, s2, [Nul], [Backslash]);
  }

  /** An escaped backslash at the head becomes one backslash. */
  lemma UnescapeBackslashPair(rest: string)
    ensures Unescape([Backslash, Backslash] + rest) == [Backslash] + Unescape(rest)
  {
    var r1 := ReplaceAll(rest, [Backslash, Backslash], [Nul]);
    ReplaceAtHead([Backslash, Backslash], [Nul], rest);
    ReplaceSkipsHead(Nul, r1, [Backslash, Quote], [Quote]);
    ReplaceAtHead([Nul], [Backslash], ReplaceAll(r1, [Backslash, Quote], [Quote]));
  }

  /** An escaped quote at the head becomes a quote. */
  lemma UnescapeQuotePair(rest: string)
    ensures Unescape([Backslash, Quote] + rest) == [Quote] + Unescape(rest)
  {
    var s := [Backslash, Quote] + rest;
    var r1 := ReplaceAll(rest, [Backslash, Backslash], [Nul]);
    assert s[..2] == [Backslash, Quote];
    ReplaceMissesHead(s, [Backslash, Backslash], [Nul]);
    assert s[1..] == [Quote] + rest;
    ReplaceSkipsHead(Quote, rest, [Backslash, Backslash], [Nul]);
    assert ReplaceAll(s, [Backslash, Backslash], [Nul]) == [Backslash, Quote] + r1;
    ReplaceAtHead([Backslash, Quote], [Quote], r1);
    ReplaceSkipsHead(Quote, ReplaceAll(r1, [Backslash, Quote], [Quote]), [Nul], [Backslash]);
  }

  /** A backslash before any other non-NUL character is kept, and so is that character. */
  lemma UnescapeLoneBackslash(c: char, rest: string)
    requires c != Backslash && c != Quote && c != Nul
    ensures Unescape([Backslash, c] + rest) == [Backslash, c] + Unescape(rest)
  {
    var s := [Backslash, c] + rest;
    var r1 := ReplaceAll(rest, [Backslash, Backslash], [Nul]);
    assert s[..2] != [Backslash, Backslash];
    ReplaceMissesHead(s, [Backslash, Backslash], [Nul]);
    assert s[1..] == [c] + rest;
    ReplaceSkipsHead(c, rest, [Backslash, Backslash], [Nul]);
    var t := [Backslash, c] + r1;
    assert ReplaceAll(s, [Backslash, Backslash], [Nul]) == t;
    assert t[..2] != [Backslash, Quote];
    ReplaceMissesHead(t, [Backslash, Quote], [Quote]);
    assert t[1..] == [c] + r1;
    ReplaceSkipsHead(c, r1, [Backslash, Quote], [Quote]);
    var r2 := ReplaceAll(r1, [Backslash, Quote], [Quote]);
    ReplaceSkipsHead(Backslash, [c] + r2, [Nul], [Backslash]);
    ReplaceSkipsHead(c, r2, [Nul], [Backslash]);
    assert [Backslash] + ([c] + r2) == [Backslash, c] + r2;
  }

  /** For NUL-free input the replace chain is the left-to-right decoder. */
  lemma {:induction false} UnescapeIsDecode(s: string)
    requires Nul !in s
    ensures Unescape(s) == Decode(s)
    decreases |s|
  {
    if s == [] {
    } else if s[0] != Backslash {
      assert s == [s[0]] + s[1..];
      UnescapeCopiesPlainHead(s[0], s[1..]);
      UnescapeIsDecode(s[1..]);
    } else if |s| == 1 {
      assert ReplaceAll(s, [Backslash, Backslash], [Nul]) == s;
      assert ReplaceAll(s, [Backslash, Quote], [Quote]) == s;
      ReplaceSkipsHead(Backslash, [], [Nul], [Backslash]);
    } else {
      var rest := s[2..];
      assert s == [Backslash, s[1]] + rest;
      assert s[1] in s;
      assert forall x :: x in rest ==> x in s;
      if s[1] == Backslash {
        UnescapeBackslashPair(rest);
      } else if s[1] == Quote {
        UnescapeQuotePair(rest);
      } else {
        UnescapeLoneBackslash(s[1], rest);
        assert s[1..][1..] == rest;
      }
      UnescapeIsDecode(rest);
    }
  }

  /** The two-pass escaper treats the first character on its own. */
  lemma EscapeHead(c: char, rest: string)
    ensures Escape([c] + rest) == EscapeChar(c) + Escape(rest)
  {
    var d := ReplaceAll(rest, [Backslash], [Backslash, Backslash]);
    if c == Backslash {
      ReplaceAtHead([Backslash], [Backslash, Backslash], rest);
      assert [Backslash, Backslash] + d == [Backslash] + ([Backslash] + d);
      ReplaceSkipsHead(Backslash, [Backslash] + d, [Quote], [Backslash, Quote]);
      ReplaceSkipsHead(Backslash, d, [Quote], [Backslash, Quote]);
    } else {
      ReplaceSkipsHead(c, rest, [Backslash], [Backslash, Backslash]);
      if c == Quote {
        ReplaceAtHead([Quote], [Backslash, Quote], d);
      } else {
        ReplaceSkipsHead(c, d, [Quote], [Backslash, Quote]);
      }
    }
  }

  /** The two-pass escaper is the per-character escaper. */
  lemma {:induction false} EscapeIsPerCharacter(s: string)
    ensures Escape(s) == EscapeChars(s)
    decreases |s|
  {
    if s != [] {
      assert s == [s[0]] + s[1..];
      EscapeHead(s[0], s[1..]);
      EscapeIsPerCharacter(s[1..]);
    }
  }

  /** Decoding undoes the per-character escaper, for every input. */
  lemma {:induction false} DecodeEscapeChars(s: string)
    ensures Decode(EscapeChars(s)) == s
    decreases |s|
  {
    if s != [] {
      var c, rest := s[0], s[1..];
      var tail := EscapeChars(rest);
      if c == Backslash || c == Quote {
        var e := [Backslash, c] + tail;
        assert EscapeChars(s) == e;
        assert e[2..] == tail;
      } else {
        var e := [c] + tail;
        assert EscapeChars(s) == e;
        assert e[1..] == tail;
      }
      DecodeEscapeChars(rest);
      assert s == [c] + rest;
    }
  }

  /** Escaping introduces no NUL. */
  lemma {:induction false} EscapeCharsNulFree(s: string)
    requires Nul !in s
    ensures Nul !in EscapeChars(s)
    decreases |s|
  {
    if s != [] {
      assert s[0] in s;
      assert forall c :: c in s[1..] ==> c in s;
      EscapeCharsNulFree(s[1..]);
    }
  }

  /** Round trip: unescaping an escaped NUL-free string gives it back. */
  lemma UnescapeEscape(s: string)
    requires Nul !in s
    ensures Unescape(Escape(s)) == s
  {
    EscapeIsPerCharacter(s);
    EscapeCharsNulFree(s);
    UnescapeIsDecode(EscapeChars(s));
    DecodeEscapeChars(s);
  }

  /** An escaped backslash directly followed by an escaped quote decodes to a backslash
      and a quote, as the placeholder technique intends. */
  lemma EscapedBackslashThenQuote()
    ensures Unescape("\\\\\\\"") == "\\\""
  {
    UnescapeIsDecode("\\\\\\\"");
  }
}
