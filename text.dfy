/** Python string primitives the scraper and the formatter rely on:
    `str.find`, `in`, `startswith`, `endswith`, `str.split(sep)` and `sep.join`. */
module Text {

  /** `pat` occurs in `s` starting at index `i`. */
  predicate OccursAt(s: string, pat: string, i: nat) {
    i + |pat| <= |s| && s[i..i + |pat|] == pat
  }

  /** `s.find(pat, from)`: the least index at or after `from` where `pat` occurs, or -1. */
  function FindFrom(s: string, pat: string, from: nat): (r: int)
    ensures r == -1 || (from <= r && OccursAt(s, pat, r))
    ensures r == -1 ==> forall i: nat {:trigger OccursAt(s, pat, i)} :: from <= i ==> !OccursAt(s, pat, i)
    ensures r >= 0 ==> forall i: nat {:trigger OccursAt(s, pat, i)} :: from <= i < r ==> !OccursAt(s, pat, i)
    decreases |s| - from
  {
    if from + |pat| > |s| then -1
    else if s[from..from + |pat|] == pat then from
    else FindFrom(s, pat, from + 1)
  }

  /** `s.find(pat)`. */
  function FindFirst(s: string, pat: string): (r: int)
    ensures r == -1 || (r >= 0 && OccursAt(s, pat, r))
    ensures r == -1 <==> forall i: nat {:trigger OccursAt(s, pat, i)} :: !OccursAt(s, pat, i)
    ensures r >= 0 ==> forall i: nat {:trigger OccursAt(s, pat, i)} :: i < r ==> !OccursAt(s, pat, i)
  {
    FindFrom(s, pat, 0)
  }

  /** Python's `pat in s` on strings. */
  predicate Contains(s: string, pat: string) {
    FindFirst(s, pat) >= 0
  }

  predicate StartsWith(s: string, p: string) {
    |p| <= |s| && s[..|p|] == p
  }

  predicate EndsWith(s: string, p: string) {
    |p| <= |s| && s[|s| - |p|..] == p
  }

  /** The first occurrence of a pattern is the one `FindFirst` reports. */
  lemma FindFirstUnique(s: string, pat: string, k: nat)
    requires OccursAt(s, pat, k)
    requires forall i: nat {:trigger OccursAt(s, pat, i)} :: i < k ==> !OccursAt(s, pat, i)
    ensures FindFirst(s, pat) == k
  {
  }

  /** `sep.join(parts)`. */
  function Join(parts: seq<string>, sep: char): string
    decreases |parts|
  {
    if |parts| == 0 then []
    else if |parts| == 1 then parts[0]
    else parts[0] + [sep] + Join(parts[1..], sep)
  }

  /** Joining one more piece appends the separator and the piece. */
  lemma {:induction false} JoinAppend(parts: seq<string>, x: string, sep: char)
    requires |parts| >= 1
    ensures Join(parts + [x], sep) == Join(parts, sep) + [sep] + x
    decreases |parts|
  {
    if |parts| > 1 {
      assert (parts + [x])[1..] == parts[1..] + [x];
      JoinAppend(parts[1..], x, sep);
    } else {
      assert (parts + [x])[1..] == [x];
    }
  }

  /** A character other than the separator occurs in a join only if it occurs in a piece. */
  lemma {:induction false} JoinExcludes(parts: seq<string>, sep: char, c: char)
    requires c != sep
    requires forall i :: 0 <= i < |parts| ==> c !in parts[i]
    ensures c !in Join(parts, sep)
    decreases |parts|
  {
    if |parts| > 1 {
      JoinExcludes(parts[1..], sep, c);
    }
  }

  /** A separator-free piece in front of separator-free pieces joins to the piece, the
      separator and the join of the others. */
  lemma JoinCons(h: string, rest: seq<string>, sep: char)
    requires |rest| >= 1 && sep !in h
    requires forall i :: 0 <= i < |rest| ==> sep !in rest[i]
    ensures Join([h] + rest, sep) == h + [sep] + Join(rest, sep)
    ensures forall i :: 0 <= i < |[h] + rest| ==> sep !in ([h] + rest)[i]
  {
    var parts := [h] + rest;
    assert parts[1..] == rest;
    forall i | 0 <= i < |parts| ensures sep !in parts[i] {
      if i > 0 {
        assert parts[i] == rest[i - 1];
      }
    }
  }

  /** `s.split(sep)`: the pieces between separators, never an empty list, and joining
      them back with the separator gives `s` again. */
  function Split(s: string, sep: char): (parts: seq<string>)
    ensures |parts| >= 1
    ensures forall i :: 0 <= i < |parts| ==> sep !in parts[i]
    ensures Join(parts, sep) == s
    decreases |s|
  {
    if s == [] then [[]]
    else
      var rest := Split(s[1..], sep);
      assert s == [s[0]] + s[1..];
      if s[0] == sep then
        JoinCons([], rest, sep);
        [[]] + rest
      else
        var first := [s[0]] + rest[0];
        assert sep !in first;
        if |rest| == 1 then
          [first]
        else
          JoinCons(rest[0], rest[1..], sep);
          assert rest == [rest[0]] + rest[1..];
          JoinCons(first, rest[1..], sep);
          [first] + rest[1..]
  }

  /** A separator-free string is one piece. */
  lemma {:induction false} SplitWhole(s: string, sep: char)
    requires sep !in s
    ensures Split(s, sep) == [s]
    decreases |s|
  {
    if s != [] {
      assert s[0] in s;
      assert forall c :: c in s[1..] ==> c in s;
      SplitWhole(s[1..], sep);
      assert [s[0]] + s[1..] == s;
    }
  }

  /** A separator-free piece followed by the separator is split off whole. */
  lemma {:induction false} SplitHead(h: string, t: string, sep: char)
    requires sep !in h
    ensures Split(h + [sep] + t, sep) == [h] + Split(t, sep)
    decreases |h|
  {
    var s := h + [sep] + t;
    if h == [] {
      assert s[0] == sep && s[1..] == t;
    } else {
      assert h[0] in h;
      assert forall c :: c in h[1..] ==> c in h;
      assert s[0] == h[0] && s[1..] == h[1..] + [sep] + t;
      SplitHead(h[1..], t, sep);
      assert [h[0]] + h[1..] == h;
    }
  }

  /** Splitting a join of separator-free pieces gives the pieces back. */
  lemma {:induction false} SplitJoin(parts: seq<string>, sep: char)
    requires |parts| >= 1
    requires forall i :: 0 <= i < |parts| ==> sep !in parts[i]
    ensures Split(Join(parts, sep), sep) == parts
    decreases |parts|
  {
    if |parts| == 1 {
      SplitWhole(parts[0], sep);
    } else {
      SplitHead(parts[0], Join(parts[1..], sep), sep);
      SplitJoin(parts[1..], sep);
      assert parts == [parts[0]] + parts[1..];
    }
  }
}
