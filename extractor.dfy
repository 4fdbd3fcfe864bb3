/** `_extract_nextjs_data`: the scripts of the page are visited in document order, and the
    first one whose embedded push argument unescapes, locates and parses to an object holding
    both `chartData` and `kpi` supplies the payload; `{}` when none does. The HTML parser
    and `json.loads` are collaborators: the page is given as the sequence of the scripts'
    `.string` values, and the JSON parser as a function that yields the decoded top-level
    object or `None` for a decoding error. */
module PayloadExtractor {
  import opened Wrappers
  import opened Text
  import opened JsonValues
  import opened EscapeNormalizer
  import opened BraceLocator

  /** Markers of the pre-filter at line 279. */
  const PushMarker: string := "self.__next_f.push"
  const ChartDataMarker: string := "chartData"

  /** The literal text around the group of the regular expression at line 282. */
  const PushPrefix: string := "self.__next_f.push([1,\""
  const Terminator: string := "\"])"

  /** A match of the line-282 pattern: the prefix at `p`, a group of at least one character
      (any character, the pattern is compiled with DOTALL), and the terminator at `t`. */
  predicate PatternMatch(s: string, p: nat, t: nat) {
    OccursAt(s, PushPrefix, p) && p + |PushPrefix| < t && OccursAt(s, Terminator, t)
  }

  /** `re.search(...).group(1)`, or `None` when the pattern does not match. */
  function Capture(s: string): Option<string> {
    var p := FindFirst(s, PushPrefix);
    if p < 0 then None
    else
      var c := p + |PushPrefix|;
      var t := FindFrom(s, Terminator, c + 1);
      if t < 0 then None else Some(s[c..t])
  }

  /** `Capture` is the leftmost match of the pattern, with the shortest group the lazy
      `.+?` allows, and it fails exactly when the pattern matches nowhere. */
  lemma CaptureIsLeftmostShortest(s: string)
    ensures Capture(s).None? <==>
      forall p: nat, t: nat {:trigger PatternMatch(s, p, t)} :: !PatternMatch(s, p, t)
    ensures Capture(s).Some? ==>
      exists p: nat, t: nat {:trigger PatternMatch(s, p, t)} ::
        && PatternMatch(s, p, t)
        && Capture(s).value == s[p + |PushPrefix|..t]
        && forall p': nat, t': nat {:trigger PatternMatch(s, p', t')} ::
             PatternMatch(s, p', t') ==> p < p' || (p == p' && t <= t')
  {
    var p := FindFirst(s, PushPrefix);
    if p >= 0 {
      var c := p + |PushPrefix|;
      var t := FindFrom(s, Terminator, c + 1);
      // a later start of the prefix leaves less room for the terminator than the first one
      forall p': nat, t': nat | PatternMatch(s, p', t') ensures p <= p' && (t >= 0 && (p == p' ==> t <= t')) {
        assert OccursAt(s, PushPrefix, p');
        assert c + 1 <= t';
        assert OccursAt(s, Terminator, t');
      }
      if t >= 0 {
        assert PatternMatch(s, p, t);
      }
    }
  }

  /** Whether a decoded object is the payload: it has both keys checked at line 324. */
  predicate IsPayload(data: Payload) {
    "chartData" in data && "kpi" in data
  }

  /** What one script yields (one iteration of the loop at lines 274-331): its payload, or
      `None` when it is skipped at any of the checks. */
  function Candidate(script: Option<string>, parse: string -> Option<Payload>): Option<Payload> {
    if script.None? || script.value == [] then None
    else if !(Contains(script.value, PushMarker) && Contains(script.value, ChartDataMarker)) then None
    else
      match Capture(script.value)
      case None => None
      case Some(escaped) =>
        match LocateObject(Unescape(escaped))
        case None => None
        case Some(jsonText) =>
          match parse(jsonText)
          case None => None
          case Some(data) => if IsPayload(data) then Some(data) else None
  }

  /** The loop's result: the first candidate's payload, `{}` when there is none. */
  function FirstAccepted(scripts: seq<Option<string>>, parse: string -> Option<Payload>): Payload
    decreases |scripts|
  {
    if |scripts| == 0 then map[]
    else
      match Candidate(scripts[0], parse)
      case Some(data) => data
      case None => FirstAccepted(scripts[1..], parse)
  }

  /** The extraction loop as the source writes it, with `continue` and an early return. */
  method ExtractNextjsData(scripts: seq<Option<string>>, parse: string -> Option<Payload>)
    returns (data: Payload)
    ensures data == FirstAccepted(scripts, parse)
  {
    for i := 0 to |scripts|
      invariant FirstAccepted(scripts[i..], parse) == FirstAccepted(scripts, parse)
    {
      assert scripts[i..][0] == scripts[i] && scripts[i..][1..] == scripts[i + 1..];
      var script := scripts[i];
      if script.None? || script.value == [] {
        continue;
      }
      var content := script.value;
      if Contains(content, PushMarker) && Contains(content, ChartDataMarker) {
        var captured := Capture(content);
        if captured.Some? {
          var unescaped := Unescape(captured.value);
          var chartStart := FindFirst(unescaped, ChartDataKey);
          if chartStart == -1 {
            continue;
          }
          var bracePos := FindOpeningBrace(unescaped, chartStart);
          var startPos := bracePos;
          var endPos := FindMatchingEnd(unescaped, startPos);
          var jsonStr := unescaped[startPos..endPos];
          var parsed := parse(jsonStr);
          if parsed.None? {
            continue;
          }
          if IsPayload(parsed.value) {
            return parsed.value;
          }
        }
      }
    }
    data := map[];
  }

  /** A script that is the first to pass every check supplies the payload, whatever made the
      earlier scripts fail. */
  lemma {:induction false} FirstPassingScriptWins(
      scripts: seq<Option<string>>, parse: string -> Option<Payload>, i: nat, data: Payload)
    requires i < |scripts|
    requires forall j :: 0 <= j < i ==> Candidate(scripts[j], parse).None?
    requires Candidate(scripts[i], parse) == Some(data)
    ensures FirstAccepted(scripts, parse) == data
    decreases i
  {
    if i > 0 {
      assert Candidate(scripts[0], parse).None?;
      FirstPassingScriptWins(scripts[1..], parse, i - 1, data);
    }
  }

  /** One script fewer: the first script decides when it passes, else the rest does. */
  lemma FirstAcceptedStep(scripts: seq<Option<string>>, parse: string -> Option<Payload>)
    requires |scripts| > 0
    ensures Candidate(scripts[0], parse).Some? ==>
      FirstAccepted(scripts, parse) == Candidate(scripts[0], parse).value
      && IsPayload(FirstAccepted(scripts, parse))
    ensures Candidate(scripts[0], parse).None? ==> FirstAccepted(scripts, parse) == FirstAccepted(scripts[1..], parse)
  {
  }

  /** The result is `{}` exactly when no script passes. */
  lemma {:induction false} EmptyWhenNonePasses(scripts: seq<Option<string>>, parse: string -> Option<Payload>)
    ensures FirstAccepted(scripts, parse) == map[] <==>
      forall j :: 0 <= j < |scripts| ==> Candidate(scripts[j], parse).None?
    decreases |scripts|
  {
    if |scripts| > 0 {
      var rest := scripts[1..];
      FirstAcceptedStep(scripts, parse);
      EmptyWhenNonePasses(rest, parse);
      if Candidate(scripts[0], parse).Some? {
        assert "chartData" in FirstAccepted(scripts, parse);
      } else {
        forall j | 0 <= j < |rest| ensures Candidate(rest[j], parse) == Candidate(scripts[j + 1], parse) {
        }
        if forall j :: 0 <= j < |rest| ==> Candidate(rest[j], parse).None? {
          forall j | 0 <= j < |scripts| ensures Candidate(scripts[j], parse).None? {
            if j > 0 {
              assert Candidate(rest[j - 1], parse).None?;
            }
          }
        }
      }
    }
  }

  /** A first passing script of the remaining scripts, after a failing first script, is the
      first passing script of all of them. */
  lemma ShiftWitness(scripts: seq<Option<string>>, parse: string -> Option<Payload>, i: nat, data: Payload)
    requires i + 1 < |scripts| && Candidate(scripts[0], parse).None?
    requires Candidate(scripts[1..][i], parse) == Some(data)
    requires forall j :: 0 <= j < i ==> Candidate(scripts[1..][j], parse).None?
    ensures Candidate(scripts[i + 1], parse) == Some(data)
    ensures forall j :: 0 <= j < i + 1 ==> Candidate(scripts[j], parse).None?
  {
    assert scripts[1..][i] == scripts[i + 1];
    forall j | 0 <= j < i + 1 ensures Candidate(scripts[j], parse).None? {
      if j > 0 {
        assert scripts[1..][j - 1] == scripts[j];
      }
    }
  }

  /** A non-empty result holds both keys and comes from a passing script all of whose
      predecessors fail. */
  lemma {:induction false} NonEmptyFromFirstPassing(scripts: seq<Option<string>>, parse: string -> Option<Payload>)
    requires FirstAccepted(scripts, parse) != map[]
    ensures IsPayload(FirstAccepted(scripts, parse))
    ensures exists i ::
      && 0 <= i < |scripts|
      && Candidate(scripts[i], parse) == Some(FirstAccepted(scripts, parse))
      && forall j :: 0 <= j < i ==> Candidate(scripts[j], parse).None?
    decreases |scripts|
  {
    assert |scripts| > 0;
    FirstAcceptedStep(scripts, parse);
    if Candidate(scripts[0], parse).None? {
      var rest := scripts[1..];
      NonEmptyFromFirstPassing(rest, parse);
      var i :| 0 <= i < |rest|
        && Candidate(rest[i], parse) == Some(FirstAccepted(rest, parse))
        && forall j :: 0 <= j < i ==> Candidate(rest[j], parse).None?;
      ShiftWitness(scripts, parse, i, FirstAccepted(rest, parse));
    }
  }

  /** The result is `{}` exactly when no script passes; otherwise it is the payload of a
      passing script, all of whose predecessors failed, and it holds both keys. */
  lemma FirstAcceptedCharacterized(scripts: seq<Option<string>>, parse: string -> Option<Payload>)
    ensures FirstAccepted(scripts, parse) == map[] <==>
      forall j :: 0 <= j < |scripts| ==> Candidate(scripts[j], parse).None?
    ensures FirstAccepted(scripts, parse) != map[] ==>
      && IsPayload(FirstAccepted(scripts, parse))
      && exists i :: 0 <= i < |scripts|
           && Candidate(scripts[i], parse) == Some(FirstAccepted(scripts, parse))
           && forall j :: 0 <= j < i ==> Candidate(scripts[j], parse).None?
  {
    EmptyWhenNonePasses(scripts, parse);
    if FirstAccepted(scripts, parse) != map[] {
      NonEmptyFromFirstPassing(scripts, parse);
    }
  }
}
