/** The brace locator of `_extract_nextjs_data`: from the first `"chartData"` it scans
    backward to the nearest `{` (never testing index 0), then forward with a depth counter
    to the `}` that brings the depth back to zero. */
module BraceLocator {
  import opened Wrappers
  import opened Text

  const ChartDataKey: string := "\"chartData\""

  /** Number of occurrences of `c` in `s`, counted from the right so that extending a slice
      by one index adds one term. */
  function CountChar(s: string, c: char): nat
    decreases |s|
  {
    if s == [] then 0
    else CountChar(s[..|s| - 1], c) + (if s[|s| - 1] == c then 1 else 0)
  }

  /** Opening minus closing braces. */
  function Depth(s: string): int {
    CountChar(s, '{') - CountChar(s, '}')
  }

  lemma DepthExtend(u: string, a: nat, k: nat)
    requires a <= k < |u|
    ensures Depth(u[a..k + 1]) ==
      Depth(u[a..k]) + (if u[k] == '{' then 1 else if u[k] == '}' then -1 else 0)
  {
    assert u[a..k + 1][..k - a] == u[a..k];
  }

  /** The brace that closes the scan begun at `start`: the slice `u[start..k]` ends in `}`
      and its braces balance. */
  predicate Closes(u: string, start: nat, k: nat) {
    start < k <= |u| && u[k - 1] == '}' && Depth(u[start..k]) == 0
  }

  /** The index the backward scan stops at (lines 299-305). */
  function OpeningBrace(u: string, k: nat): (r: nat)
    requires k < |u|
    ensures r <= k
    ensures r > 0 ==> u[r] == '{'
    ensures forall j :: r < j <= k ==> u[j] != '{'
    decreases k
  {
    if k == 0 then 0
    else if u[k] == '{' then k
    else OpeningBrace(u, k - 1)
  }

  /** The forward scan from index `i` with counter `depth` (lines 307-317); `start` when no
      closing brace brings the depth back to zero. */
  function ScanEnd(u: string, start: nat, i: nat, depth: int): (e: nat)
    requires start <= i <= |u|
    requires depth == Depth(u[start..i])
    ensures e == start ==> forall k: nat {:trigger Closes(u, start, k)} :: i < k ==> !Closes(u, start, k)
    ensures e != start ==> i < e && Closes(u, start, e)
    ensures e != start ==> forall k: nat {:trigger Closes(u, start, k)} :: i < k < e ==> !Closes(u, start, k)
    decreases |u| - i
  {
    if i == |u| then start
    else
      DepthExtend(u, start, i);
      if u[i] == '{' then ScanEnd(u, start, i + 1, depth + 1)
    else if u[i] == '}' then
      if depth - 1 == 0 then i + 1 else ScanEnd(u, start, i + 1, depth - 1)
    else ScanEnd(u, start, i + 1, depth)
  }

  /** The end (exclusive) of the object that starts at `start`, or `start` when the depth
      never returns to zero, which makes the slice empty. */
  function MatchingEnd(u: string, start: nat): (e: nat)
    requires start <= |u|
    ensures e == start <==> forall k: nat {:trigger Closes(u, start, k)} :: !Closes(u, start, k)
    ensures e != start ==> Closes(u, start, e)
    ensures e != start ==> forall k: nat {:trigger Closes(u, start, k)} :: k < e ==> !Closes(u, start, k)
  {
    ScanEnd(u, start, start, 0)
  }

  /** Lines 295-319 as one function: the JSON text that the scans delimit, or `None` when
      `"chartData"` does not occur (the `continue` at line 297). */
  function LocateObject(u: string): Option<string> {
    var chartStart := FindFirst(u, ChartDataKey);
    if chartStart < 0 then None
    else
      var start := OpeningBrace(u, chartStart);
      Some(u[start..MatchingEnd(u, start)])
  }

  /** The backward scan as the source writes it: a `while` loop that decrements the index. */
  method FindOpeningBrace(u: string, chartStart: nat) returns (bracePos: nat)
    requires chartStart < |u|
    ensures bracePos == OpeningBrace(u, chartStart)
    ensures bracePos <= chartStart
    ensures forall j :: bracePos < j <= chartStart ==> u[j] != '{'
    ensures bracePos > 0 ==> u[bracePos] == '{'
  {
    bracePos := chartStart;
    while bracePos > 0
      invariant bracePos <= chartStart
      invariant OpeningBrace(u, bracePos) == OpeningBrace(u, chartStart)
    {
      if u[bracePos] == '{' {
        break;
      }
      bracePos := bracePos - 1;
    }
  }

  /** The forward scan as the source writes it: a `for` loop with an early `break`. */
  method FindMatchingEnd(u: string, startPos: nat) returns (endPos: nat)
    requires startPos <= |u|
    ensures endPos == MatchingEnd(u, startPos)
    ensures endPos == startPos <==> forall k: nat {:trigger Closes(u, startPos, k)} :: !Closes(u, startPos, k)
    ensures endPos != startPos ==> u[endPos - 1] == '}' && Depth(u[startPos..endPos]) == 0
  {
    var braceCount := 0;
    endPos := startPos;
    for i := startPos to |u|
      invariant braceCount == Depth(u[startPos..i])
      invariant endPos == startPos
      invariant ScanEnd(u, startPos, i, braceCount) == MatchingEnd(u, startPos)
    {
      DepthExtend(u, startPos, i);
      if u[i] == '{' {
        braceCount := braceCount + 1;
      } else if u[i] == '}' {
        braceCount := braceCount - 1;
        if braceCount == 0 {
          endPos := i + 1;
          break;
        }
      }
    }
  }

  /** Every non-empty proper prefix of a located object that starts with `{` holds strictly
      more `{` than `}`. */
  lemma ProperPrefixesOpen(u: string, start: nat)
    requires start < |u| && u[start] == '{'
    requires MatchingEnd(u, start) != start
    ensures forall k :: start < k < MatchingEnd(u, start) ==> Depth(u[start..k]) > 0
  {
    var e := MatchingEnd(u, start);
    var k := start + 1;
    DepthExtend(u, start, start);
    assert u[start..start] == [];
    while k < e
      invariant start < k <= e
      invariant forall m :: start < m <= k && m < e ==> Depth(u[start..m]) > 0
    {
      DepthExtend(u, start, k);
      if k + 1 < e {
        assert !Closes(u, start, k + 1);
      }
      k := k + 1;
    }
  }

  /** When the depth never returns to zero, the located slice is empty. */
  lemma UnbalancedGivesEmptySlice(u: string, start: nat)
    requires start <= |u|
    requires forall k: nat {:trigger Closes(u, start, k)} :: !Closes(u, start, k)
    ensures u[start..MatchingEnd(u, start)] == []
  {
  }

  /** The located slice, when non-empty, ends in `}` and holds as many `{` as `}`. */
  lemma LocatedSliceBalanced(u: string, j: string)
    requires LocateObject(u) == Some(j) && j != []
    ensures j[|j| - 1] == '}'
    ensures CountChar(j, '{') == CountChar(j, '}')
  {
    var c := FindFirst(u, ChartDataKey);
    var s := OpeningBrace(u, c);
    var e := MatchingEnd(u, s);
    assert j == u[s..e];
    assert Closes(u, s, e);
  }

  /** The backward scan stops at a brace (or index 0) with no brace above it. */
  lemma {:induction false} OpeningBraceAt(u: string, a: nat, k: nat)
    requires a <= k < |u|
    requires a == 0 || u[a] == '{'
    requires forall j :: a < j <= k ==> u[j] != '{'
    ensures OpeningBrace(u, k) == a
    decreases k
  {
    if k > a {
      OpeningBraceAt(u, a, k - 1);
    }
  }

  /** The forward scan ends at the first closing brace that balances the slice. */
  lemma MatchingEndAt(u: string, a: nat, z: nat)
    requires a <= |u| && Closes(u, a, z)
    requires forall k: nat {:trigger Closes(u, a, k)} :: k < z ==> !Closes(u, a, k)
    ensures MatchingEnd(u, a) == z
  {
    var e := MatchingEnd(u, a);
    assert e != a;
    assert !(e < z);
  }

  /** The locator recovers an embedded object exactly when the heuristic's assumption holds:
      the object starts with `{`, its braces first balance at its last character, and the
      first `"chartData"` of the text lies inside it with no `{` between the object's opening
      brace and the marker. */
  lemma LocatesEmbeddedObject(pre: string, obj: string, post: string, m: nat)
    requires 0 < |obj| && obj[0] == '{' && obj[|obj| - 1] == '}' && Depth(obj) == 0
    requires forall k :: 0 < k < |obj| ==> Depth(obj[..k]) > 0
    requires 0 < m < |obj|
    requires FindFirst(pre + obj + post, ChartDataKey) == |pre| + m
    requires forall j :: 0 < j <= m ==> obj[j] != '{'
    ensures LocateObject(pre + obj + post) == Some(obj)
  {
    var u := pre + obj + post;
    var a, z := |pre|, |pre| + |obj|;
    EmbeddedOpening(pre, obj, post, m);
    EmbeddedClosing(pre, obj, post);
    MatchingEndAt(u, a, z);
    LocateObjectAt(u, a + m, a, z);
    assert u[a..z] == obj;
  }

  /** The located text is the slice between the scans' results. */
  lemma LocateObjectAt(u: string, c: nat, a: nat, z: nat)
    requires FindFirst(u, ChartDataKey) == c && c < |u|
    requires OpeningBrace(u, c) == a && MatchingEnd(u, a) == z
    ensures a <= z <= |u| && LocateObject(u) == Some(u[a..z])
  {
  }

  /** The backward scan from the marker inside the object stops at the object's brace. */
  lemma EmbeddedOpening(pre: string, obj: string, post: string, m: nat)
    requires 0 < m < |obj| && obj[0] == '{'
    requires forall j :: 0 < j <= m ==> obj[j] != '{'
    ensures OpeningBrace(pre + obj + post, |pre| + m) == |pre|
  {
    var u := pre + obj + post;
    var a := |pre|;
    assert u[a] == obj[0];
    forall j | a < j <= a + m ensures u[j] != '{' {
      assert u[j] == obj[j - a];
    }
    OpeningBraceAt(u, a, a + m);
  }

  /** The braces from the object's start first balance at its end. */
  lemma EmbeddedClosing(pre: string, obj: string, post: string)
    requires 0 < |obj| && obj[|obj| - 1] == '}' && Depth(obj) == 0
    requires forall k :: 0 < k < |obj| ==> Depth(obj[..k]) > 0
    ensures Closes(pre + obj + post, |pre|, |pre| + |obj|)
    ensures forall k: nat {:trigger Closes(pre + obj + post, |pre|, k)} :: k < |pre| + |obj| ==> !Closes(pre + obj + post, |pre|, k)
  {
    var u := pre + obj + post;
    var a, z := |pre|, |pre| + |obj|;
    assert u[a..z] == obj;
    forall k: nat | k < z ensures !Closes(u, a, k) {
      if a < k {
        assert u[a..k] == obj[..k - a];
      }
    }
  }
}
