/** `format_html`: three regular-expression substitutions put tags on lines of their own,
    then a loop over the lines strips them, drops the blank ones and indents by two spaces
    per open element. */
module HtmlIndent {
  import opened Text

  /** Python's `str.isspace` on one character, which is also what `\s`, `strip()` and
      `split()` treat as whitespace. */
  predicate IsSpace(c: char) {
    || ('\t' <= c <= '\r')
    || ('\U{001C}' <= c <= '\U{001F}')
    || c == ' ' || c == '\U{0085}' || c == '\U{00A0}' || c == '\U{1680}'
    || ('\U{2000}' <= c <= '\U{200A}')
    || c == '\U{2028}' || c == '\U{2029}' || c == '\U{202F}' || c == '\U{205F}' || c == '\U{3000}'
  }

  /** The index of the first `c` at or after `from`, or -1. */
  function IndexOf(s: string, c: char, from: nat): (r: int)
    ensures r == -1 || (from <= r < |s| && s[r] == c)
    ensures r == -1 ==> forall k :: from <= k < |s| ==> s[k] != c
    ensures r >= 0 ==> forall k :: from <= k < r ==> s[k] != c
    decreases |s| - from
  {
    if from >= |s| then -1
    else if s[from] == c then from
    else IndexOf(s, c, from + 1)
  }

  /** Line 54, `re.sub(r'>([^<\s])', r'>\n\1', html)`: a `>` directly followed by a
      character that is neither `<` nor whitespace gets a newline in between; the scan
      resumes after that character. */
  function BreakBeforeText(s: string): string
    decreases |s|
  {
    if |s| >= 2 && s[0] == '>' && s[1] != '<' && !IsSpace(s[1]) then
      ['>', '\n', s[1]] + BreakBeforeText(s[2..])
    else if s == [] then []
    else [s[0]] + BreakBeforeText(s[1..])
  }

  /** Line 55, `re.sub(r'(<[^/>][^>]*>)', r'\1\n', html)`: a `<` whose next character is
      neither `/` nor `>`, up to the first `>` after that character, gets a newline after
      it. */
  function BreakAfterOpenTag(s: string): string
    decreases |s|
  {
    if |s| >= 2 && s[0] == '<' && s[1] != '/' && s[1] != '>' && IndexOf(s, '>', 2) >= 0 then
      var e := IndexOf(s, '>', 2);
      s[..e + 1] + "\n" + BreakAfterOpenTag(s[e + 1..])
    else if s == [] then []
    else [s[0]] + BreakAfterOpenTag(s[1..])
  }

  /** Line 56, `re.sub(r'(</[^>]+>)', r'\1\n', html)`: `</`, at least one character other
      than `>`, and the first `>` after it, get a newline after them. */
  function BreakAfterCloseTag(s: string): string
    decreases |s|
  {
    if |s| >= 3 && s[0] == '<' && s[1] == '/' && s[2] != '>' && IndexOf(s, '>', 3) >= 0 then
      var e := IndexOf(s, '>', 3);
      s[..e + 1] + "\n" + BreakAfterCloseTag(s[e + 1..])
    else if s == [] then []
    else [s[0]] + BreakAfterCloseTag(s[1..])
  }

  /** Lines 54-56 in order. */
  function InsertBreaks(html: string): string {
    BreakAfterCloseTag(BreakAfterOpenTag(BreakBeforeText(html)))
  }

  /** `r` is `s` with newlines inserted and nothing else changed. */
  ghost predicate NewlinesInserted(s: string, r: string)
    decreases |r|
  {
    if r == [] then s == []
    else
      || (s != [] && s[0] == r[0] && NewlinesInserted(s[1..], r[1..]))
      || (r[0] == '\n' && NewlinesInserted(s, r[1..]))
  }

  lemma {:induction false} NewlinesInsertedRefl(s: string)
    ensures NewlinesInserted(s, s)
    decreases |s|
  {
    if s != [] {
      NewlinesInsertedRefl(s[1..]);
    }
  }

  lemma {:induction false} NewlinesInsertedConcat(a1: string, b1: string, a2: string, b2: string)
    requires NewlinesInserted(a1, b1) && NewlinesInserted(a2, b2)
    ensures NewlinesInserted(a1 + a2, b1 + b2)
    decreases |b1|
  {
    if b1 == [] {
      assert a1 + a2 == a2 && b1 + b2 == b2;
    } else {
      assert (b1 + b2)[0] == b1[0] && (b1 + b2)[1..] == b1[1..] + b2;
      if a1 != [] && a1[0] == b1[0] && NewlinesInserted(a1[1..], b1[1..]) {
        NewlinesInsertedConcat(a1[1..], b1[1..], a2, b2);
        assert (a1 + a2)[0] == a1[0] && (a1 + a2)[1..] == a1[1..] + a2;
      } else {
        NewlinesInsertedConcat(a1, b1[1..], a2, b2);
      }
    }
  }

  lemma {:induction false} NewlinesInsertedTrans(a: string, b: string, c: string)
    requires NewlinesInserted(a, b) && NewlinesInserted(b, c)
    ensures NewlinesInserted(a, c)
    decreases |c|
  {
    if c != [] {
      if b != [] && b[0] == c[0] && NewlinesInserted(b[1..], c[1..]) {
        assert b != [];
        if a != [] && a[0] == b[0] && NewlinesInserted(a[1..], b[1..]) {
          NewlinesInsertedTrans(a[1..], b[1..], c[1..]);
        } else {
          NewlinesInsertedTrans(a, b[1..], c[1..]);
        }
      } else {
        NewlinesInsertedTrans(a, b, c[1..]);
      }
    }
  }

  /** One newline between two pieces. */
  lemma NewlineBetween(a: string, b: string)
    ensures NewlinesInserted(a + b, a + "\n" + b)
  {
    NewlinesInsertedRefl(a);
    NewlinesInsertedRefl(b);
    assert ("\n" + b)[1..] == b;
    NewlinesInsertedConcat(a, a, b, "\n" + b);
    assert a + ("\n" + b) == a + "\n" + b;
  }

  /** A copied head character keeps the relation. */
  lemma CopyHead(c: char, s: string, r: string)
    requires NewlinesInserted(s, r)
    ensures NewlinesInserted([c] + s, [c] + r)
  {
    NewlinesInsertedRefl([c]);
    NewlinesInsertedConcat([c], [c], s, r);
  }

  lemma {:induction false} BreakBeforeTextInserts(s: string)
    ensures NewlinesInserted(s, BreakBeforeText(s))
    decreases |s|
  {
    if |s| >= 2 && s[0] == '>' && s[1] != '<' && !IsSpace(s[1]) {
      BreakBeforeTextInserts(s[2..]);
      NewlineBetween(['>'], [s[1]]);
      NewlinesInsertedConcat(['>', s[1]], ['>', '\n', s[1]], s[2..], BreakBeforeText(s[2..]));
      assert ['>', s[1]] + s[2..] == s;
    } else if s != [] {
      BreakBeforeTextInserts(s[1..]);
      CopyHead(s[0], s[1..], BreakBeforeText(s[1..]));
      assert [s[0]] + s[1..] == s;
    }
  }

  lemma {:induction false} BreakAfterOpenTagInserts(s: string)
    ensures NewlinesInserted(s, BreakAfterOpenTag(s))
    decreases |s|
  {
    if |s| >= 2 && s[0] == '<' && s[1] != '/' && s[1] != '>' && IndexOf(s, '>', 2) >= 0 {
      var e := IndexOf(s, '>', 2);
      BreakAfterOpenTagInserts(s[e + 1..]);
      NewlineBetween(s[..e + 1], []);
      assert s[..e + 1] + [] == s[..e + 1] && s[..e + 1] + "\n" + [] == s[..e + 1] + "\n";
      NewlinesInsertedConcat(s[..e + 1], s[..e + 1] + "\n", s[e + 1..], BreakAfterOpenTag(s[e + 1..]));
      assert s[..e + 1] + s[e + 1..] == s;
    } else if s != [] {
      BreakAfterOpenTagInserts(s[1..]);
      CopyHead(s[0], s[1..], BreakAfterOpenTag(s[1..]));
      assert [s[0]] + s[1..] == s;
    }
  }

  lemma {:induction false} BreakAfterCloseTagInserts(s: string)
    ensures NewlinesInserted(s, BreakAfterCloseTag(s))
    decreases |s|
  {
    if |s| >= 3 && s[0] == '<' && s[1] == '/' && s[2] != '>' && IndexOf(s, '>', 3) >= 0 {
      var e := IndexOf(s, '>', 3);
      BreakAfterCloseTagInserts(s[e + 1..]);
      NewlineBetween(s[..e + 1], []);
      assert s[..e + 1] + [] == s[..e + 1] && s[..e + 1] + "\n" + [] == s[..e + 1] + "\n";
      NewlinesInsertedConcat(s[..e + 1], s[..e + 1] + "\n", s[e + 1..], BreakAfterCloseTag(s[e + 1..]));
      assert s[..e + 1] + s[e + 1..] == s;
    } else if s != [] {
      BreakAfterCloseTagInserts(s[1..]);
      CopyHead(s[0], s[1..], BreakAfterCloseTag(s[1..]));
      assert [s[0]] + s[1..] == s;
    }
  }

  /** The three substitutions only insert newlines. */
  lemma InsertBreaksOnlyInsertsNewlines(html: string)
    ensures NewlinesInserted(html, InsertBreaks(html))
  {
    var s1 := BreakBeforeText(html);
    var s2 := BreakAfterOpenTag(s1);
    BreakBeforeTextInserts(html);
    BreakAfterOpenTagInserts(s1);
    BreakAfterCloseTagInserts(s2);
    NewlinesInsertedTrans(html, s1, s2);
    NewlinesInsertedTrans(html, s2, InsertBreaks(html));
  }

  /** The characters of `s` that `keep` accepts, in order. */
  function Filter(s: string, keep: char -> bool): (r: string)
    ensures forall c :: c in r ==> c in s && keep(c)
    decreases |s|
  {
    if s == [] then []
    else (if keep(s[0]) then [s[0]] else []) + Filter(s[1..], keep)
  }

  lemma {:induction false} FilterConcat(a: string, b: string, keep: char -> bool)
    ensures Filter(a + b, keep) == Filter(a, keep) + Filter(b, keep)
    decreases |a|
  {
    if a != [] {
      assert (a + b)[0] == a[0] && (a + b)[1..] == a[1..] + b;
      FilterConcat(a[1..], b, keep);
    } else {
      assert a + b == b;
    }
  }

  /** Inserting newlines is invisible to any filter that drops newlines. */
  lemma {:induction false} FilterIgnoresInsertedNewlines(s: string, r: string, keep: char -> bool)
    requires NewlinesInserted(s, r) && !keep('\n')
    ensures Filter(r, keep) == Filter(s, keep)
    decreases |r|
  {
    if r != [] {
      if s != [] && s[0] == r[0] && NewlinesInserted(s[1..], r[1..]) {
        FilterIgnoresInsertedNewlines(s[1..], r[1..], keep);
      } else {
        FilterIgnoresInsertedNewlines(s, r[1..], keep);
      }
    }
  }

  predicate NotNewline(c: char) {
    c != '\n'
  }

  predicate NotSpace(c: char) {
    !IsSpace(c)
  }

  function DropNewlines(s: string): string {
    Filter(s, NotNewline)
  }

  function DropWhitespace(s: string): string {
    Filter(s, NotSpace)
  }

  /** `a` is a subsequence of `b`. */
  ghost predicate Subsequence(a: string, b: string)
    decreases |b|
  {
    if b == [] then a == []
    else
      || (a != [] && a[0] == b[0] && Subsequence(a[1..], b[1..]))
      || Subsequence(a, b[1..])
  }

  lemma {:induction false} InsertedIsSupersequence(s: string, r: string)
    requires NewlinesInserted(s, r)
    ensures Subsequence(s, r)
    decreases |r|
  {
    if r != [] {
      if s != [] && s[0] == r[0] && NewlinesInserted(s[1..], r[1..]) {
        InsertedIsSupersequence(s[1..], r[1..]);
      } else {
        InsertedIsSupersequence(s, r[1..]);
      }
    }
  }

  /** Deleting every newline from the substituted text gives the input with every newline
      deleted, and the input is a subsequence of the substituted text. */
  lemma InsertBreaksKeepsText(html: string)
    ensures DropNewlines(InsertBreaks(html)) == DropNewlines(html)
    ensures DropWhitespace(InsertBreaks(html)) == DropWhitespace(html)
    ensures Subsequence(html, InsertBreaks(html))
  {
    InsertBreaksOnlyInsertsNewlines(html);
    FilterIgnoresInsertedNewlines(html, InsertBreaks(html), NotNewline);
    FilterIgnoresInsertedNewlines(html, InsertBreaks(html), NotSpace);
    InsertedIsSupersequence(html, InsertBreaks(html));
  }

  /** `s.lstrip()`. */
  function LStrip(s: string): string
    decreases |s|
  {
    if s != [] && IsSpace(s[0]) then LStrip(s[1..]) else s
  }

  /** `s.rstrip()`. */
  function RStrip(s: string): string
    decreases |s|
  {
    if s != [] && IsSpace(s[|s| - 1]) then RStrip(s[..|s| - 1]) else s
  }

  /** `lstrip` removes a whitespace prefix and leaves a suffix that is empty or starts with a
      non-whitespace character. */
  lemma {:induction false} LStripSpec(s: string)
    ensures var r := LStrip(s);
      && |r| <= |s| && r == s[|s| - |r|..]
      && (r == [] || !IsSpace(r[0]))
      && forall k :: 0 <= k < |s| - |r| ==> IsSpace(s[k])
    decreases |s|
  {
    if s != [] && IsSpace(s[0]) {
      LStripSpec(s[1..]);
    }
  }

  /** `rstrip` removes a whitespace suffix and leaves a prefix that is empty or ends with a
      non-whitespace character. */
  lemma {:induction false} RStripSpec(s: string)
    ensures var r := RStrip(s);
      && |r| <= |s| && r == s[..|r|]
      && (r == [] || !IsSpace(r[|r| - 1]))
      && forall k :: |r| <= k < |s| ==> IsSpace(s[k])
    decreases |s|
  {
    if s != [] && IsSpace(s[|s| - 1]) {
      RStripSpec(s[..|s| - 1]);
    }
  }

  /** `line.strip()` (line 64). */
  function Strip(s: string): string {
    RStrip(LStrip(s))
  }

  /** A stripped line that is not empty starts and ends with a non-whitespace character and
      is a slice of the line. */
  lemma StripSpec(s: string)
    ensures var t := Strip(s);
      && (t != [] ==> !IsSpace(t[0]) && !IsSpace(t[|t| - 1]))
      && (exists i, j :: 0 <= i <= j <= |s| && t == s[i..j])
  {
    var l := LStrip(s);
    var t := RStrip(l);
    LStripSpec(s);
    RStripSpec(l);
    assert t == s[|s| - |l|..][..|t|] == s[|s| - |l|..|s| - |l| + |t|];
  }

  lemma {:induction false} LStripKeepsText(s: string)
    ensures DropWhitespace(LStrip(s)) == DropWhitespace(s)
    decreases |s|
  {
    if s != [] && IsSpace(s[0]) {
      LStripKeepsText(s[1..]);
    }
  }

  lemma {:induction false} RStripKeepsText(s: string)
    ensures DropWhitespace(RStrip(s)) == DropWhitespace(s)
    decreases |s|
  {
    if s != [] && IsSpace(s[|s| - 1]) {
      var init := s[..|s| - 1];
      RStripKeepsText(init);
      assert s == init + [s[|s| - 1]];
      FilterConcat(init, [s[|s| - 1]], NotSpace);
    }
  }

  /** Stripping keeps the non-whitespace text. */
  lemma StripKeepsText(s: string)
    ensures DropWhitespace(Strip(s)) == DropWhitespace(s)
  {
    LStripKeepsText(s);
    RStripKeepsText(LStrip(s));
  }

  lemma {:induction false} AllSpaceDropped(s: string)
    requires forall k :: 0 <= k < |s| ==> IsSpace(s[k])
    ensures DropWhitespace(s) == []
    decreases |s|
  {
    if s != [] {
      AllSpaceDropped(s[1..]);
    }
  }

  /** `'  ' * n`. */
  function Spaces(n: nat): (r: string)
    ensures |r| == 2 * n && forall k :: 0 <= k < |r| ==> r[k] == ' '
  {
    seq(2 * n, _ => ' ')
  }

  lemma {:induction false} LStripSpaces(p: string, t: string)
    requires forall k :: 0 <= k < |p| ==> p[k] == ' '
    requires t != [] && !IsSpace(t[0])
    ensures LStrip(p + t) == t
    decreases |p|
  {
    if p == [] {
      assert p + t == t;
    } else {
      assert (p + t)[0] == ' ' && (p + t)[1..] == p[1..] + t;
      LStripSpaces(p[1..], t);
    }
  }

  /** Stripping an indented line gives the stripped line back. */
  lemma StripIndented(n: nat, t: string)
    requires t != [] && !IsSpace(t[0]) && !IsSpace(t[|t| - 1])
    ensures Strip(Spaces(n) + t) == t
  {
    LStripSpaces(Spaces(n), t);
  }

  /** `line.split()[0]` for a stripped line that is not empty: the characters up to the
      first whitespace. */
  function FirstToken(s: string): string
    decreases |s|
  {
    if s == [] || IsSpace(s[0]) then [] else [s[0]] + FirstToken(s[1..])
  }

  /** `.replace('<', '').replace('>', '')`. */
  function TagName(line: string): string {
    Filter(FirstToken(line), c => c != '<' && c != '>')
  }

  /** `str.lower` as far as it can produce the letters of the void tag names: ASCII capitals
      and the Kelvin sign, which lowers to `k`. */
  function LowerChar(c: char): char {
    if 'A' <= c <= 'Z' then (c as int + 32) as char
    else if c == '\U{212A}' then 'k'
    else c
  }

  function Lower(s: string): (r: string)
    ensures |r| == |s| && forall k :: 0 <= k < |s| ==> r[k] == LowerChar(s[k])
  {
    seq(|s|, k requires 0 <= k < |s| => LowerChar(s[k]))
  }

  const VoidTags: seq<string> := ["meta", "link", "img", "br", "hr", "input"]

  /** The test at lines 76-80: the line opens an element that raises the indent. */
  predicate Opens(line: string) {
    && StartsWith(line, "<")
    && !StartsWith(line, "</")
    && !EndsWith(line, "/>")
    && !StartsWith(line, "<!")
    && Lower(TagName(line)) !in VoidTags
  }

  /** The indent a line is emitted at (line 70): one less for a closing tag, never below 0. */
  function Pre(line: string, indent: nat): nat {
    if StartsWith(line, "</") then (if indent > 0 then indent - 1 else 0) else indent
  }

  /** The indent after a line (line 80), for a test `opens` of the lines that raise it;
      the formatter's test is `Opens`. */
  function Post(line: string, indent: nat, opens: string -> bool): nat {
    Pre(line, indent) + (if opens(line) then 1 else 0)
  }

  /** The stripped lines that are not blank, in order (lines 64-66). */
  function NonBlank(lines: seq<string>): seq<string>
    decreases |lines|
  {
    if lines == [] then []
    else
      var last := Strip(lines[|lines| - 1]);
      NonBlank(lines[..|lines| - 1]) + (if last == [] then [] else [last])
  }

  /** The indent after the given non-blank lines, starting from 0. */
  function LevelAfter(nb: seq<string>, opens: string -> bool): nat
    decreases |nb|
  {
    if nb == [] then 0 else Post(nb[|nb| - 1], LevelAfter(nb[..|nb| - 1], opens), opens)
  }

  /** The indent each non-blank line is emitted at. */
  function Levels(nb: seq<string>, opens: string -> bool): (lv: seq<nat>)
    ensures |lv| == |nb|
    decreases |nb|
  {
    if nb == [] then []
    else Levels(nb[..|nb| - 1], opens) + [Pre(nb[|nb| - 1], LevelAfter(nb[..|nb| - 1], opens))]
  }

  /** The list `formatted` of lines 60-80. */
  function Rendered(nb: seq<string>, opens: string -> bool): (out: seq<string>)
    ensures |out| == |nb|
    decreases |nb|
  {
    if nb == [] then []
    else
      var init := nb[..|nb| - 1];
      Rendered(init, opens) + [Spaces(Pre(nb[|nb| - 1], LevelAfter(init, opens))) + nb[|nb| - 1]]
  }

  /** The emitted lines of an HTML text. */
  function Layout(html: string): seq<string> {
    Rendered(NonBlank(Split(InsertBreaks(html), '\n')), Opens)
  }

  /** The value `format_html` returns. */
  function Formatted(html: string): string {
    Join(Layout(html), '\n')
  }

  /** One more input line: a blank one adds nothing, another adds its stripped form. */
  lemma NonBlankStep(lines: seq<string>, i: nat)
    requires i < |lines|
    ensures Strip(lines[i]) == [] ==> NonBlank(lines[..i + 1]) == NonBlank(lines[..i])
    ensures Strip(lines[i]) != [] ==> NonBlank(lines[..i + 1]) == NonBlank(lines[..i]) + [Strip(lines[i])]
  {
    assert lines[..i + 1][..i] == lines[..i];
    assert NonBlank(lines[..i]) + [] == NonBlank(lines[..i]);
  }

  /** One more non-blank line: it is emitted at `Pre` of the current indent, which then
      becomes `Post`. */
  lemma RenderStep(nb: seq<string>, x: string, opens: string -> bool)
    ensures Rendered(nb + [x], opens) == Rendered(nb, opens) + [Spaces(Pre(x, LevelAfter(nb, opens))) + x]
    ensures LevelAfter(nb + [x], opens) == Post(x, LevelAfter(nb, opens), opens)
  {
    assert (nb + [x])[..|nb|] == nb;
  }

  /** `format_html` as the source writes it: three substitutions, then a loop over the lines
      that updates `indent` and appends to `formatted`. */
  method FormatHtml(html: string) returns (out: string)
    ensures out == Formatted(html)
  {
    var text := BreakBeforeText(html);
    text := BreakAfterOpenTag(text);
    text := BreakAfterCloseTag(text);
    var lines := Split(text, '\n');
    var formatted: seq<string> := [];
    var indent: int := 0;
    for i := 0 to |lines|
      invariant indent >= 0
      invariant indent == LevelAfter(NonBlank(lines[..i]), Opens)
      invariant formatted == Rendered(NonBlank(lines[..i]), Opens)
    {
      NonBlankStep(lines, i);
      ghost var nb := NonBlank(lines[..i]);
      var line := Strip(lines[i]);
      if line == [] {
        assert NonBlank(lines[..i + 1]) == nb;
        continue;
      }
      assert NonBlank(lines[..i + 1]) == nb + [line];
      RenderStep(nb, line, Opens);
      ghost var before := indent;
      if StartsWith(line, "</") {
        indent := if indent - 1 > 0 then indent - 1 else 0;
      }
      formatted := formatted + [Spaces(indent) + line];
      if StartsWith(line, "<") && !StartsWith(line, "</") && !EndsWith(line, "/>") && !StartsWith(line, "<!") {
        var tagName := TagName(line);
        if Lower(tagName) !in VoidTags {
          indent := indent + 1;
        }
      }
      assert indent == Post(line, before, Opens);
    }
    assert lines[..|lines|] == lines;
    out := Join(formatted, '\n');
  }

  /** Each emitted line is the stripped line behind its level's indentation. */
  lemma {:induction false} RenderedSpec(nb: seq<string>, opens: string -> bool)
    ensures forall j :: 0 <= j < |nb| ==> Rendered(nb, opens)[j] == Spaces(Levels(nb, opens)[j]) + nb[j]
    decreases |nb|
  {
    if nb != [] {
      var init := nb[..|nb| - 1];
      RenderedSpec(init, opens);
      assert forall j :: 0 <= j < |init| ==> init[j] == nb[j];
    }
  }

  /** The level of line `k` is `Pre` of the indent left by the lines before it. */
  lemma {:induction false} LevelAt(nb: seq<string>, k: nat, opens: string -> bool)
    requires k < |nb|
    ensures Levels(nb, opens)[k] == Pre(nb[k], LevelAfter(nb[..k], opens))
    decreases |nb|
  {
    var init := nb[..|nb| - 1];
    if k == |nb| - 1 {
      assert nb[..k] == init;
    } else {
      LevelAt(init, k, opens);
      assert init[..k] == nb[..k];
    }
  }

  /** One line further, the indent left behind grows by that line's `Post`. */
  lemma LevelAfterPrefix(nb: seq<string>, j: nat, opens: string -> bool)
    requires j < |nb|
    ensures LevelAfter(nb[..j + 1], opens) == Post(nb[j], LevelAfter(nb[..j], opens), opens)
  {
    assert nb[..j + 1][..j] == nb[..j];
    assert nb[..j + 1][j] == nb[j];
  }

  /** The indent a line is emitted at follows from the previous line's level: a closing tag
      one level below what the previous line left, never below 0, any other line at it; and
      the previous line leaves its own level, plus one exactly when it opens an element. */
  lemma LevelStep(nb: seq<string>, j: nat, opens: string -> bool)
    requires j + 1 < |nb|
    ensures var carried := Levels(nb, opens)[j] + (if opens(nb[j]) then 1 else 0);
      Levels(nb, opens)[j + 1] == if StartsWith(nb[j + 1], "</") then (if carried > 0 then carried - 1 else 0) else carried
  {
    LevelAt(nb, j, opens);
    LevelAt(nb, j + 1, opens);
    LevelAfterPrefix(nb, j, opens);
  }

  /** The first line is emitted at indent 0. */
  lemma FirstLevel(nb: seq<string>, opens: string -> bool)
    requires |nb| > 0
    ensures Levels(nb, opens)[0] == 0
  {
    LevelAt(nb, 0, opens);
  }

  /** Every kept line is the non-empty stripped form of some input line. */
  lemma {:induction false} NonBlankFrom(lines: seq<string>)
    ensures forall j :: 0 <= j < |NonBlank(lines)| ==>
      NonBlank(lines)[j] != [] && exists i :: 0 <= i < |lines| && NonBlank(lines)[j] == Strip(lines[i])
    decreases |lines|
  {
    if lines != [] {
      var init := lines[..|lines| - 1];
      NonBlankFrom(init);
      forall j | 0 <= j < |NonBlank(init)|
        ensures exists i :: 0 <= i < |lines| && NonBlank(init)[j] == Strip(lines[i])
      {
        var i :| 0 <= i < |init| && NonBlank(init)[j] == Strip(init[i]);
        assert init[i] == lines[i];
      }
    }
  }

  /** Lines are kept in order, one for each line that is not blank: the kept lines of two
      runs of lines are the kept lines of the first followed by those of the second. */
  lemma {:induction false} NonBlankAppend(a: seq<string>, b: seq<string>)
    ensures NonBlank(a + b) == NonBlank(a) + NonBlank(b)
    decreases |b|
  {
    if b == [] {
      assert a + b == a;
    } else {
      var binit := b[..|b| - 1];
      assert (a + b)[..|a + b| - 1] == a + binit;
      NonBlankAppend(a, binit);
    }
  }

  /** One line is kept exactly when it is not blank, and then stripped. */
  lemma NonBlankSingle(line: string)
    ensures NonBlank([line]) == if Strip(line) == [] then [] else [Strip(line)]
    ensures NonBlank([line]) == if forall k :: 0 <= k < |line| ==> IsSpace(line[k]) then [] else [Strip(line)]
  {
    assert [line][..0] == [];
    BlankIffAllSpace(line);
  }

  /** A line strips to nothing exactly when it is whitespace only. */
  lemma BlankIffAllSpace(s: string)
    ensures Strip(s) == [] <==> forall k :: 0 <= k < |s| ==> IsSpace(s[k])
  {
    var l := LStrip(s);
    LStripSpec(s);
    RStripSpec(l);
  }

  /** Every emitted line is non-empty, and stripping it gives back its input line stripped. */
  lemma LayoutLines(html: string)
    ensures var nb := NonBlank(Split(InsertBreaks(html), '\n'));
      && |Layout(html)| == |nb|
      && forall j :: 0 <= j < |nb| ==>
           && Layout(html)[j] == Spaces(Levels(nb, Opens)[j]) + nb[j]
           && Layout(html)[j] != []
           && Strip(Layout(html)[j]) == nb[j]
  {
    var lines := Split(InsertBreaks(html), '\n');
    var nb := NonBlank(lines);
    RenderedSpec(nb, Opens);
    NonBlankFrom(lines);
    forall j | 0 <= j < |nb| ensures Strip(Layout(html)[j]) == nb[j] {
      var i :| 0 <= i < |lines| && nb[j] == Strip(lines[i]);
      StripSpec(lines[i]);
      StripIndented(Levels(nb, Opens)[j], nb[j]);
    }
  }

  /** Stripping adds no newline. */
  lemma StrippedNoNewline(line: string)
    requires '\n' !in line
    ensures '\n' !in Strip(line)
  {
    StripSpec(line);
    var a, b :| 0 <= a <= b <= |line| && Strip(line) == line[a..b];
    assert forall k :: 0 <= k < b - a ==> line[a..b][k] == line[a + k];
  }

  /** Indenting adds no newline. */
  lemma IndentedNoNewline(n: nat, t: string)
    requires '\n' !in t
    ensures '\n' !in Spaces(n) + t
  {
    var r := Spaces(n) + t;
    forall k | 0 <= k < |r| ensures r[k] != '\n' {
      if k >= |Spaces(n)| {
        assert r[k] == t[k - |Spaces(n)|];
      }
    }
  }

  /** No emitted line holds a newline, and none is empty. */
  lemma RenderedLinesPlain(html: string)
    ensures forall j :: 0 <= j < |Layout(html)| ==> Layout(html)[j] != [] && '\n' !in Layout(html)[j]
  {
    var lines := Split(InsertBreaks(html), '\n');
    var nb := NonBlank(lines);
    RenderedSpec(nb, Opens);
    NonBlankFrom(lines);
    forall j | 0 <= j < |nb| ensures Layout(html)[j] != [] && '\n' !in Layout(html)[j] {
      var i :| 0 <= i < |lines| && nb[j] == Strip(lines[i]);
      StrippedNoNewline(lines[i]);
      IndentedNoNewline(Levels(nb, Opens)[j], nb[j]);
    }
  }

  /** The output has no empty line and no trailing newline: splitting it at newlines gives
      exactly the emitted lines, all non-empty, and it is empty when nothing is emitted. */
  lemma OutputLines(html: string)
    ensures Layout(html) == [] ==> Formatted(html) == []
    ensures Layout(html) != [] ==> Split(Formatted(html), '\n') == Layout(html)
    ensures forall j :: 0 <= j < |Layout(html)| ==> Layout(html)[j] != []
  {
    RenderedLinesPlain(html);
    var out := Layout(html);
    if out != [] {
      SplitJoin(out, '\n');
    }
  }

  /** The non-whitespace text of a list of lines, line after line. */
  function Visible(lines: seq<string>): string
    decreases |lines|
  {
    if lines == [] then [] else Visible(lines[..|lines| - 1]) + DropWhitespace(lines[|lines| - 1])
  }

  lemma VisibleSnoc(xs: seq<string>, x: string)
    ensures Visible(xs + [x]) == Visible(xs) + DropWhitespace(x)
  {
    assert (xs + [x])[..|xs|] == xs;
  }

  /** A newline between two texts is not visible. */
  lemma NewlineInvisible(a: string, b: string)
    ensures DropWhitespace(a + ['\n'] + b) == DropWhitespace(a) + DropWhitespace(b)
  {
    var an := a + ['\n'];
    FilterConcat(an, b, NotSpace);
    FilterConcat(a, ['\n'], NotSpace);
    NewlineDropped();
  }

  lemma NewlineDropped()
    ensures DropWhitespace(['\n']) == []
  {
    assert ['\n'][1..] == [];
  }

  /** Joining with newlines adds no visible text. */
  lemma {:induction false} JoinVisible(lines: seq<string>)
    ensures DropWhitespace(Join(lines, '\n')) == Visible(lines)
    decreases |lines|
  {
    if |lines| == 1 {
      assert lines[..0] == [];
    } else if |lines| > 1 {
      var init := lines[..|lines| - 1];
      var last := lines[|lines| - 1];
      assert init + [last] == lines;
      JoinAppend(init, last, '\n');
      NewlineInvisible(Join(init, '\n'), last);
      JoinVisible(init);
    }
  }

  /** Dropping blank lines and stripping the others keeps the visible text. */
  lemma {:induction false} VisibleNonBlank(lines: seq<string>)
    ensures Visible(NonBlank(lines)) == Visible(lines)
    decreases |lines|
  {
    if lines != [] {
      var init := lines[..|lines| - 1];
      var last := lines[|lines| - 1];
      var stripped := Strip(last);
      if stripped == [] {
        calc {
          Visible(NonBlank(lines));
          == { assert NonBlank(lines) == NonBlank(init) + []; assert NonBlank(init) + [] == NonBlank(init); }
          Visible(NonBlank(init));
          == { VisibleNonBlank(init); }
          Visible(init);
          == { StripKeepsText(last); assert DropWhitespace(last) == []; }
          Visible(init) + DropWhitespace(last);
        }
      } else {
        calc {
          Visible(NonBlank(lines));
          == { VisibleSnoc(NonBlank(init), stripped); }
          Visible(NonBlank(init)) + DropWhitespace(stripped);
          == { VisibleNonBlank(init); StripKeepsText(last); }
          Visible(init) + DropWhitespace(last);
        }
      }
    }
  }

  /** Indenting keeps the visible text. */
  lemma {:induction false} VisibleRendered(nb: seq<string>, opens: string -> bool)
    ensures Visible(Rendered(nb, opens)) == Visible(nb)
    decreases |nb|
  {
    if nb != [] {
      var init := nb[..|nb| - 1];
      var last := nb[|nb| - 1];
      var sp := Spaces(Pre(last, LevelAfter(init, opens)));
      calc {
        Visible(Rendered(nb, opens));
        == { VisibleSnoc(Rendered(init, opens), sp + last); }
        Visible(Rendered(init, opens)) + DropWhitespace(sp + last);
        == { FilterConcat(sp, last, NotSpace); AllSpaceDropped(sp); }
        Visible(Rendered(init, opens)) + DropWhitespace(last);
        == { VisibleRendered(init, opens); }
        Visible(init) + DropWhitespace(last);
      }
    }
  }

  /** `format_html` changes only whitespace: the non-whitespace characters of its output are
      those of its input, in order. */
  lemma FormattedKeepsText(html: string)
    ensures DropWhitespace(Formatted(html)) == DropWhitespace(html)
  {
    var text := InsertBreaks(html);
    var lines := Split(text, '\n');
    InsertBreaksKeepsText(html);
    JoinVisible(lines);
    VisibleNonBlank(lines);
    VisibleRendered(NonBlank(lines), Opens);
    JoinVisible(Layout(html));
  }

  /** A void element is recognised whatever its case. */
  lemma UpperCaseVoidTag()
    ensures !Opens("<BR>")
  {
    TagNameOfUpperBr();
    LowerOfUpperBr();
    BrIsVoid();
    VoidNameDoesNotOpen("<BR>");
  }

  lemma BrIsVoid()
    ensures "br" in VoidTags
  {
    assert VoidTags[3] == "br";
  }

  lemma VoidNameDoesNotOpen(line: string)
    requires Lower(TagName(line)) in VoidTags
    ensures !Opens(line)
  {
  }

  /** `c` is a spelling of the lower-case letter `l` that lower-cases to it: the letter
      itself, its ASCII capital, or for `k` also the Kelvin sign. */
  predicate CharVariant(c: char, l: char) {
    || c == l
    || ('a' <= l <= 'z' && c == (l as int - 32) as char)
    || (l == 'k' && c == '\U{212A}')
  }

  /** `name` spells the lower-case name `v` in any mixture of cases. */
  predicate CaseVariant(name: string, v: string) {
    |name| == |v| && forall i :: 0 <= i < |v| ==> CharVariant(name[i], v[i])
  }

  predicate LowerAscii(v: string) {
    forall i :: 0 <= i < |v| ==> 'a' <= v[i] <= 'z'
  }

  lemma VoidTagsLowerAscii()
    ensures forall j :: 0 <= j < |VoidTags| ==> LowerAscii(VoidTags[j])
  {
    assert LowerAscii("meta") && LowerAscii("link") && LowerAscii("img");
    assert LowerAscii("br") && LowerAscii("hr") && LowerAscii("input");
  }

  /** A name lower-cases to a lower-case ASCII name exactly when it is a case variant of it. */
  lemma LowerIsCaseVariant(name: string, v: string)
    requires LowerAscii(v)
    ensures Lower(name) == v <==> CaseVariant(name, v)
  {
    if |name| == |v| {
      forall i | 0 <= i < |v| ensures LowerChar(name[i]) == v[i] <==> CharVariant(name[i], v[i]) {
        assert 'a' <= v[i] <= 'z';
      }
      if CaseVariant(name, v) {
        assert forall i :: 0 <= i < |v| ==> Lower(name)[i] == v[i];
      }
    }
  }

  /** The void-tag test ignores case: a line that passes the syntactic checks opens an element
      exactly when its tag name is no case variant of a void tag name. */
  lemma OpensIgnoresCase(line: string)
    requires StartsWith(line, "<") && !StartsWith(line, "</") && !EndsWith(line, "/>") && !StartsWith(line, "<!")
    ensures Opens(line) <==> forall v :: v in VoidTags ==> !CaseVariant(TagName(line), v)
  {
    var name := TagName(line);
    VoidTagsLowerAscii();
    forall v | v in VoidTags ensures Lower(name) == v <==> CaseVariant(name, v) {
      var j :| 0 <= j < |VoidTags| && VoidTags[j] == v;
      LowerIsCaseVariant(name, v);
    }
    OpensByName(line);
  }

  /** Past the syntactic checks, only the lower-cased name decides. */
  lemma OpensByName(line: string)
    requires StartsWith(line, "<") && !StartsWith(line, "</") && !EndsWith(line, "/>") && !StartsWith(line, "<!")
    ensures Opens(line) <==> Lower(TagName(line)) !in VoidTags
  {
  }

  /** `BR` lowers to `br`. */
  lemma LowerOfUpperBr()
    ensures Lower("BR") == "br"
  {
    var lowered := Lower("BR");
    assert lowered[0] == 'b' && lowered[1] == 'r';
  }

  /** The tag name of `<BR>` is `BR`. */
  lemma TagNameOfUpperBr()
    ensures TagName("<BR>") == "BR"
  {
    var line := "<BR>";
    var keep := c => c != '<' && c != '>';
    assert line[1..] == "BR>" && line[2..] == "R>" && line[3..] == ">" && line[4..] == [];
    assert FirstToken(line) == line;
    assert Filter(">", keep) == [];
    assert Filter("R>", keep) == "R";
    assert Filter("BR>", keep) == "BR";
  }

}
