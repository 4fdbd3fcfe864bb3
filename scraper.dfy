/** `EcoCounterScraper`: request validation, URL construction, the one-time initialisation of
    a scraper object, and `fetch_counts`. The collaborators the class calls but that are not
    modelled here (the HTTP fetch, the HTML parser, `json.loads`, date formatting,
    `pd.Timestamp`, and `_site_metadata`) are the fields of an `Env`. */
module Scraper {
  import opened Wrappers
  import opened Text
  import opened JsonValues
  import PayloadExtractor
  import Dataset

  /** The class attribute `base_url`. */
  const BaseUrl: string := "https://eco-display-map.eco-counter.com"

  /** The class attribute `freq_to_granularity_api`. */
  const FreqToGranularity: map<string, string> :=
    map["D" := "P1D", "W" := "P1W", "M" := "P1M", "Y" := "P1Y"]

  /** The lookup at line 160: a frequency outside the table is rejected; a supported one
      maps to the ISO 8601 duration of one such period. */
  function Granularity(freq: string): (g: Option<string>)
    ensures g.Some? <==> freq in {"D", "W", "M", "Y"}
    ensures g.Some? ==> g.value == "P1" + freq
  {
    if freq in FreqToGranularity then Some(FreqToGranularity[freq]) else None
  }

  /** The part of the request URL before the query. */
  function SitePath(siteId: string): string {
    BaseUrl + "/site/" + siteId
  }

  /** A query value is appended only when it is given and non-empty (`if start:`). */
  predicate Present(v: Option<string>) {
    v.Some? && v.value != []
  }

  /** The query parameters of the request, in order. */
  function QueryParams(granularity: string, start: Option<string>, end: Option<string>): (ps: seq<string>)
    ensures |ps| >= 1
  {
    ["granularity=" + granularity]
      + (if Present(start) then ["startDate=" + start.value] else [])
      + (if Present(end) then ["endDate=" + end.value] else [])
  }

  /** The request URL, as a path and a list of parameters joined by `&`. */
  function RequestUrl(siteId: string, granularity: string, start: Option<string>, end: Option<string>): string {
    SitePath(siteId) + "?" + Join(QueryParams(granularity, start, end), '&')
  }

  /** Appending `&` and one more parameter to a URL extends its query by that parameter. */
  lemma AppendParam(url: string, path: string, params: seq<string>, p: string)
    requires |params| >= 1 && url == path + "?" + Join(params, '&')
    ensures url + "&" + p == path + "?" + Join(params + [p], '&')
  {
    JoinAppend(params, p, '&');
  }

  /** `_build_url` as the source writes it, appending to `url`. */
  method BuildUrl(siteId: string, granularity: string, start: Option<string>, end: Option<string>)
    returns (url: string)
    ensures url == RequestUrl(siteId, granularity, start, end)
  {
    ghost var path := SitePath(siteId);
    ghost var params := ["granularity=" + granularity];
    url := SitePath(siteId) + "?" + ("granularity=" + granularity);
    if Present(start) {
      AppendParam(url, path, params, "startDate=" + start.value);
      url := url + "&" + ("startDate=" + start.value);
      params := params + ["startDate=" + start.value];
    }
    if Present(end) {
      AppendParam(url, path, params, "endDate=" + end.value);
      url := url + "&" + ("endDate=" + end.value);
      params := params + ["endDate=" + end.value];
    }
    assert params == QueryParams(granularity, start, end);
  }

  /** The URL can be taken apart again: when the site id holds no `?` and the values hold
      neither `?` nor `&`, splitting at `?` gives the path and the query, and splitting the
      query at `&` gives the parameters in order. */
  lemma UrlDecomposes(siteId: string, granularity: string, start: Option<string>, end: Option<string>)
    requires '?' !in siteId && '?' !in granularity && '&' !in granularity
    requires start.Some? ==> '?' !in start.value && '&' !in start.value
    requires end.Some? ==> '?' !in end.value && '&' !in end.value
    ensures Split(RequestUrl(siteId, granularity, start, end), '?')
      == [SitePath(siteId), Join(QueryParams(granularity, start, end), '&')]
    ensures Split(Join(QueryParams(granularity, start, end), '&'), '&') == QueryParams(granularity, start, end)
  {
    var ps := QueryParams(granularity, start, end);
    var path := SitePath(siteId);
    var query := Join(ps, '&');
    ParamsFree(granularity, start, end);
    SplitJoin(ps, '&');
    JoinExcludes(ps, '&', '?');
    PathFree(siteId);
    assert Join([path, query], '?') == RequestUrl(siteId, granularity, start, end);
    SplitJoin([path, query], '?');
  }

  /** A parameter `key=value` holds neither `?` nor `&` when its value holds neither. */
  lemma ParamFree(key: string, value: string)
    requires '?' !in key && '&' !in key && '?' !in value && '&' !in value
    ensures '?' !in key + value && '&' !in key + value
  {
  }

  /** No query parameter holds `?` or `&` when no value does. */
  lemma ParamsFree(granularity: string, start: Option<string>, end: Option<string>)
    requires '?' !in granularity && '&' !in granularity
    requires start.Some? ==> '?' !in start.value && '&' !in start.value
    requires end.Some? ==> '?' !in end.value && '&' !in end.value
    ensures var ps := QueryParams(granularity, start, end);
      forall i :: 0 <= i < |ps| ==> '&' !in ps[i] && '?' !in ps[i]
  {
    ParamFree("granularity=", granularity);
    if Present(start) {
      ParamFree("startDate=", start.value);
    }
    if Present(end) {
      ParamFree("endDate=", end.value);
    }
  }

  /** The path holds no `?` when the site id holds none. */
  lemma PathFree(siteId: string)
    requires '?' !in siteId
    ensures '?' !in SitePath(siteId)
  {
  }

  /** The docstring example of `_build_url`. */
  lemma DocstringUrl()
    ensures RequestUrl("300037212", "P1Y", None, None)
      == "https://eco-display-map.eco-counter.com/site/300037212?granularity=P1Y"
  {
    assert "granularity=" + "P1Y" == "granularity=P1Y";
    assert QueryParams("P1Y", None, None) == ["granularity=P1Y"];
    assert SitePath("300037212") == "https://eco-display-map.eco-counter.com/site/300037212";
  }

  /** The collaborators. `fetchHtml` yields `None` when the request fails; `scriptsOf` gives
      the `.string` of every `<script>` of a page; `parseJson` is `json.loads`, `None` on a
      decoding error; `isoDate` is `.date().isoformat()`; `toInstant` is `pd.Timestamp` on
      a JSON value, `None` when it raises; `siteMetadataOk` says whether
      `_site_metadata` returns without raising: its pattern (line 428) matches the page, and
      the captured coordinates parse as floats and the first-data date as a timestamp
      (lines 431-434). */
  datatype Env = Env(
    fetchHtml: string -> Option<string>,
    scriptsOf: string -> seq<Option<string>>,
    parseJson: string -> Option<Payload>,
    isoDate: int -> string,
    toInstant: Json -> Option<int>,
    siteMetadataOk: string -> bool)

  /** The direction code and name of one `directionGraphData` entry. */
  function NameEntry(entry: Json): Result<(string, Json), Error> {
    var code :- Field(entry, "direction");
    if !code.JStr? then Err(Malformed)
    else
      var name :- Field(entry, "directionName");
      Ok((code.s, name))
  }

  /** The dictionary filled by the loop of `_set_direction_names` over `entries`. */
  function NamesOf(entries: seq<Json>): Result<map<string, Json>, Error>
    decreases |entries|
  {
    if entries == [] then Ok(map[])
    else
      var names :- NamesOf(entries[..|entries| - 1]);
      var e :- NameEntry(entries[|entries| - 1]);
      Ok(names[e.0 := e.1])
  }

  /** What `_set_direction_names` computes from a payload. */
  function DirectionNames(payload: Payload): Result<map<string, Json>, Error> {
    var graph :- Field(JObj(payload), "directionGraphData");
    var entries :- Entries(graph);
    NamesOf(entries)
  }

  /** The names succeed exactly when every entry has a string code and a name. */
  lemma {:induction false} NamesOfOk(entries: seq<Json>)
    ensures NamesOf(entries).Ok? <==> forall i :: 0 <= i < |entries| ==> NameEntry(entries[i]).Ok?
    decreases |entries|
  {
    if entries != [] {
      var n := |entries| - 1;
      var init := entries[..n];
      NamesOfOk(init);
      assert forall i :: 0 <= i < n ==> init[i] == entries[i];
    }
  }

  /** The keys of the names are the codes of the entries. */
  lemma {:induction false} NamesOfKeys(entries: seq<Json>)
    requires NamesOf(entries).Ok?
    ensures forall i :: 0 <= i < |entries| ==> NameEntry(entries[i]).Ok?
    ensures forall c :: c in NamesOf(entries).value <==>
      exists i :: 0 <= i < |entries| && NameEntry(entries[i]).value.0 == c
    decreases |entries|
  {
    NamesOfOk(entries);
    if entries != [] {
      var n := |entries| - 1;
      var init := entries[..n];
      NamesOfKeys(init);
      forall c ensures c in NamesOf(entries).value <==> exists i :: 0 <= i < |entries| && NameEntry(entries[i]).value.0 == c {
        KeyStep(entries, init, c);
      }
    }
  }

  /** One entry more adds its code, with its name, to the names before it. */
  lemma NamesOfSnoc(entries: seq<Json>)
    requires entries != [] && NamesOf(entries).Ok?
    ensures NamesOf(entries[..|entries| - 1]).Ok? && NameEntry(entries[|entries| - 1]).Ok?
    ensures var e := NameEntry(entries[|entries| - 1]).value;
      NamesOf(entries).value == NamesOf(entries[..|entries| - 1]).value[e.0 := e.1]
  {
  }

  /** One entry more: a code is a key when it was one before or it is the new entry's. */
  lemma KeyStep(entries: seq<Json>, init: seq<Json>, c: string)
    requires entries != [] && init == entries[..|entries| - 1] && NamesOf(entries).Ok?
    requires forall i :: 0 <= i < |entries| ==> NameEntry(entries[i]).Ok?
    requires NamesOf(init).Ok?
    requires c in NamesOf(init).value <==> exists i :: 0 <= i < |init| && NameEntry(init[i]).value.0 == c
    ensures c in NamesOf(entries).value <==> exists i :: 0 <= i < |entries| && NameEntry(entries[i]).value.0 == c
  {
    var n := |init|;
    var code := NameEntry(entries[n]).value.0;
    NamesOfSnoc(entries);
    assert c in NamesOf(entries).value <==> c in NamesOf(init).value || c == code;
    if c in NamesOf(init).value {
      var i :| 0 <= i < n && NameEntry(init[i]).value.0 == c;
      assert init[i] == entries[i];
    } else if c == code {
      assert NameEntry(entries[n]).value.0 == c;
    } else {
      assert forall i :: 0 <= i < |init| ==> NameEntry(init[i]).value.0 != c;
      NoEntryHasCode(entries, init, c);
    }
  }

  /** A code that no earlier entry and not the last entry has is no entry's code. */
  lemma NoEntryHasCode(entries: seq<Json>, init: seq<Json>, c: string)
    requires entries != [] && init == entries[..|entries| - 1]
    requires forall i :: 0 <= i < |entries| ==> NameEntry(entries[i]).Ok?
    requires forall i :: 0 <= i < |init| ==> NameEntry(init[i]).value.0 != c
    requires NameEntry(entries[|init|]).value.0 != c
    ensures forall i :: 0 <= i < |entries| ==> NameEntry(entries[i]).value.0 != c
  {
    forall i | 0 <= i < |entries| ensures NameEntry(entries[i]).value.0 != c {
      if i < |init| {
        assert init[i] == entries[i];
      }
    }
  }

  /** For a repeated code the name of its last entry wins. */
  lemma {:induction false} NamesOfLastWins(entries: seq<Json>, i: nat)
    requires NamesOf(entries).Ok? && i < |entries|
    requires forall j :: 0 <= j < |entries| ==> NameEntry(entries[j]).Ok?
    requires forall j :: i < j < |entries| ==> NameEntry(entries[j]).value.0 != NameEntry(entries[i]).value.0
    ensures NameEntry(entries[i]).value.0 in NamesOf(entries).value
    ensures NamesOf(entries).value[NameEntry(entries[i]).value.0] == NameEntry(entries[i]).value.1
    decreases |entries|
  {
    var n := |entries| - 1;
    if i < n {
      var init := entries[..n];
      assert init[i] == entries[i];
      assert forall j :: 0 <= j < n ==> init[j] == entries[j];
      NamesOfLastWins(init, i);
    }
  }

  /** A failed prefix makes the whole loop fail. */
  lemma {:induction false} NamesPrefixFails(es: seq<Json>, i: nat, e: Error)
    requires i <= |es| && NamesOf(es[..i]) == Err(e)
    ensures NamesOf(es) == Err(e)
    decreases |es| - i
  {
    if i < |es| {
      assert es[..i + 1][..i] == es[..i];
      NamesPrefixFails(es, i + 1, e);
    } else {
      assert es[..i] == es;
    }
  }

  /** The state `_scrape_count_structure` reads and writes: `is_initialized`, and
      `direction_names_`, absent until it is first set. */
  datatype ScraperState = ScraperState(initialized: bool, directionNames: Option<map<string, Json>>)

  function Initial(): ScraperState {
    ScraperState(false, None)
  }

  /** One call of `_scrape_count_structure` (lines 155-182): the result and the new state.
      The date order is checked first, then the frequency; only then is the URL built and the
      page fetched. On the first successful call the site metadata is looked up and the
      direction names are set, and only then does the object count as initialised; a
      failure on the way leaves the state as it was. */
  function ScrapeStep(st: ScraperState, site: string, start: int, end: int, freq: string, env: Env)
    : (Result<Payload, Error>, ScraperState)
  {
    if start >= end then (Err(InvalidDateRange), st)
    else match Granularity(freq)
      case None => (Err(UnsupportedFrequency), st)
      case Some(g) =>
        var url := RequestUrl(site, g, Some(env.isoDate(start)), Some(env.isoDate(end)));
        match env.fetchHtml(url)
        case None => (Err(TransportError), st)
        case Some(html) =>
          var result := PayloadExtractor.FirstAccepted(env.scriptsOf(html), env.parseJson);
          if st.initialized then (Ok(result), st)
          else if !env.siteMetadataOk(html) then (Err(MetadataFailed), st)
          else match DirectionNames(result)
            case Err(e) => (Err(e), st)
            case Ok(names) => (Ok(result), ScraperState(true, Some(names)))
  }

  /** A call that is rejected by validation fetches nothing: its outcome is the same in
      every environment and it leaves the state unchanged. */
  lemma ValidationBeforeFetch(st: ScraperState, site: string, start: int, end: int, freq: string, env1: Env, env2: Env)
    requires start >= end || Granularity(freq).None?
    ensures ScrapeStep(st, site, start, end, freq, env1) == ScrapeStep(st, site, start, end, freq, env2)
    ensures ScrapeStep(st, site, start, end, freq, env1).1 == st
    ensures ScrapeStep(st, site, start, end, freq, env1).0 ==
      if start >= end then Err(InvalidDateRange) else Err(UnsupportedFrequency)
  {
  }

  /** The state changes at most once: from uninitialised to initialised with the names of
      the payload returned by that same call. */
  lemma InitializationOnce(st: ScraperState, site: string, start: int, end: int, freq: string, env: Env)
    ensures var (r, st') := ScrapeStep(st, site, start, end, freq, env);
      && (st.initialized ==> st' == st)
      && (st' != st ==> !st.initialized && r.Ok? && st' == ScraperState(true, Some(DirectionNames(r.value).value)))
      && (!st.initialized && r.Ok? ==> st'.initialized)
  {
  }

  /** A repeated call with the same arguments against an unchanged environment gives the same
      result and leaves the same state: a success has already initialised the object, and a
      failure left the state as it was. */
  lemma ScrapeIdempotent(st: ScraperState, site: string, start: int, end: int, freq: string, env: Env)
    ensures var (r1, st1) := ScrapeStep(st, site, start, end, freq, env);
      var (r2, st2) := ScrapeStep(st1, site, start, end, freq, env);
      r2 == r1 && st2 == st1
  {
  }

  /** The state after a sequence of calls on one object. */
  datatype Request = Request(start: int, end: int, freq: string)

  function Run(st: ScraperState, site: string, reqs: seq<Request>, env: Env): ScraperState
    decreases |reqs|
  {
    if reqs == [] then st
    else Run(ScrapeStep(st, site, reqs[0].start, reqs[0].end, reqs[0].freq, env).1, site, reqs[1..], env)
  }

  function Outcome(site: string, req: Request, env: Env): Result<Payload, Error> {
    ScrapeStep(Initial(), site, req.start, req.end, req.freq, env).0
  }

  /** An initialised object stays as it is, whatever follows. */
  lemma {:induction false} RunFromInitialized(st: ScraperState, site: string, reqs: seq<Request>, env: Env)
    requires st.initialized
    ensures Run(st, site, reqs, env) == st
    decreases |reqs|
  {
    if reqs != [] {
      RunFromInitialized(st, site, reqs[1..], env);
    }
  }

  /** The first call on a new object initialises it exactly when it succeeds, and leaves it
      new otherwise. */
  lemma StepFromInitial(site: string, req: Request, env: Env)
    ensures var st1 := ScrapeStep(Initial(), site, req.start, req.end, req.freq, env).1;
      && (Outcome(site, req, env).Ok? <==> st1.initialized)
      && (Outcome(site, req, env).Err? ==> st1 == Initial())
  {
    InitializationOnce(Initial(), site, req.start, req.end, req.freq, env);
  }

  /** The run from a new object after its first call: a success fixes the state for good, a
      failure leaves the object new for the remaining calls. */
  lemma RunFirstStep(site: string, reqs: seq<Request>, env: Env)
    requires reqs != []
    ensures Outcome(site, reqs[0], env).Ok? ==>
      Run(Initial(), site, reqs, env) == ScrapeStep(Initial(), site, reqs[0].start, reqs[0].end, reqs[0].freq, env).1
      && Run(Initial(), site, reqs, env).initialized
    ensures Outcome(site, reqs[0], env).Err? ==> Run(Initial(), site, reqs, env) == Run(Initial(), site, reqs[1..], env)
  {
    var st1 := ScrapeStep(Initial(), site, reqs[0].start, reqs[0].end, reqs[0].freq, env).1;
    assert Run(Initial(), site, reqs, env) == Run(st1, site, reqs[1..], env);
    StepFromInitial(site, reqs[0], env);
    if st1.initialized {
      RunFromInitialized(st1, site, reqs[1..], env);
    }
  }

  /** A successful call leaves a new object initialised at the end. */
  lemma {:induction false} SuccessInitializes(site: string, reqs: seq<Request>, env: Env, i: nat)
    requires i < |reqs| && Outcome(site, reqs[i], env).Ok?
    ensures Run(Initial(), site, reqs, env).initialized
    decreases i
  {
    RunFirstStep(site, reqs, env);
    if i > 0 && Outcome(site, reqs[0], env).Err? {
      assert reqs[1..][i - 1] == reqs[i];
      SuccessInitializes(site, reqs[1..], env, i - 1);
    }
  }

  /** A new object that ends initialised had a successful call. */
  lemma {:induction false} InitializedHasSuccess(site: string, reqs: seq<Request>, env: Env)
    requires Run(Initial(), site, reqs, env).initialized
    ensures exists i :: 0 <= i < |reqs| && Outcome(site, reqs[i], env).Ok?
    decreases |reqs|
  {
    assert reqs != [];
    RunFirstStep(site, reqs, env);
    if Outcome(site, reqs[0], env).Err? {
      InitializedHasSuccess(site, reqs[1..], env);
      var i :| 0 <= i < |reqs[1..]| && Outcome(site, reqs[1..][i], env).Ok?;
      assert reqs[1..][i] == reqs[i + 1];
    }
  }

  /** When call `i` is the first to succeed, the final state is the one it set. */
  lemma {:induction false} FirstSuccessSetsState(site: string, reqs: seq<Request>, env: Env, i: nat)
    requires i < |reqs| && Outcome(site, reqs[i], env).Ok?
    requires forall j :: 0 <= j < i ==> Outcome(site, reqs[j], env).Err?
    ensures Run(Initial(), site, reqs, env) == ScrapeStep(Initial(), site, reqs[i].start, reqs[i].end, reqs[i].freq, env).1
    decreases i
  {
    RunFirstStep(site, reqs, env);
    if i > 0 {
      var rest := reqs[1..];
      forall j | 0 <= j < i - 1 ensures Outcome(site, rest[j], env).Err? {
        assert rest[j] == reqs[j + 1];
      }
      assert rest[i - 1] == reqs[i];
      FirstSuccessSetsState(site, rest, env, i - 1);
    }
  }

  /** Over any sequence of calls on a new object: it ends initialised exactly when some call
      succeeds, and then its state, the direction names included, is the one set by the
      first successful call; later calls change nothing. */
  lemma RunFromInitial(site: string, reqs: seq<Request>, env: Env)
    ensures Run(Initial(), site, reqs, env).initialized <==>
      exists i :: 0 <= i < |reqs| && Outcome(site, reqs[i], env).Ok?
    ensures forall i ::
      (0 <= i < |reqs| && Outcome(site, reqs[i], env).Ok? &&
       (forall j :: 0 <= j < i ==> Outcome(site, reqs[j], env).Err?)) ==>
      Run(Initial(), site, reqs, env) == ScrapeStep(Initial(), site, reqs[i].start, reqs[i].end, reqs[i].freq, env).1
  {
    if Run(Initial(), site, reqs, env).initialized {
      InitializedHasSuccess(site, reqs, env);
    }
    if exists i :: 0 <= i < |reqs| && Outcome(site, reqs[i], env).Ok? {
      var i :| 0 <= i < |reqs| && Outcome(site, reqs[i], env).Ok?;
      SuccessInitializes(site, reqs, env, i);
    }
    forall i: nat | i < |reqs| && Outcome(site, reqs[i], env).Ok? &&
        (forall j :: 0 <= j < i ==> Outcome(site, reqs[j], env).Err?)
      ensures Run(Initial(), site, reqs, env) == ScrapeStep(Initial(), site, reqs[i].start, reqs[i].end, reqs[i].freq, env).1
    {
      FirstSuccessSetsState(site, reqs, env, i);
    }
  }

  /** The dataset `fetch_counts` builds from a scrape's outcome. */
  function FetchResult(scraped: Result<Payload, Error>, toInstant: Json -> Option<int>): Result<Dataset.Table, Error> {
    if scraped.Err? then Err(scraped.error) else Dataset.DatasetOf(scraped.value, toInstant)
  }

  /** Two `fetch_counts` calls with the same arguments against an unchanged environment give
      the same dataset, and the second leaves the state the first left. */
  lemma FetchIdempotent(st: ScraperState, site: string, start: int, end: int, freq: string, env: Env)
    ensures var (r1, st1) := ScrapeStep(st, site, start, end, freq, env);
      var (r2, st2) := ScrapeStep(st1, site, start, end, freq, env);
      FetchResult(r2, env.toInstant) == FetchResult(r1, env.toInstant) && st2 == st1
  {
    ScrapeIdempotent(st, site, start, end, freq, env);
  }

  class EcoCounterScraper {
    const siteId: string
    var isInitialized: bool
    var directionNames: Option<map<string, Json>>

    function State(): ScraperState
      reads this
    {
      ScraperState(isInitialized, directionNames)
    }

    constructor(siteId: string)
      ensures this.siteId == siteId && State() == Initial()
    {
      this.siteId := siteId;
      isInitialized := false;
      directionNames := None;
    }

    /** `_set_direction_names`: fills a dictionary in a loop, then stores it. */
    method SetDirectionNames(payload: Payload) returns (r: Result<map<string, Json>, Error>)
      modifies this
      ensures r == DirectionNames(payload)
      ensures isInitialized == old(isInitialized)
      ensures directionNames == if r.Ok? then Some(r.value) else old(directionNames)
    {
      var graph := Field(JObj(payload), "directionGraphData");
      if graph.Err? {
        return Err(graph.error);
      }
      var entries := Entries(graph.value);
      if entries.Err? {
        return Err(entries.error);
      }
      var es := entries.value;
      var names: map<string, Json> := map[];
      for i := 0 to |es|
        invariant NamesOf(es[..i]) == Ok(names)
      {
        assert es[..i + 1][..i] == es[..i];
        var code := Field(es[i], "direction");
        if code.Err? || !code.value.JStr? {
          NamesPrefixFails(es, i + 1, Malformed);
          return Err(Malformed);
        }
        var name := Field(es[i], "directionName");
        if name.Err? {
          NamesPrefixFails(es, i + 1, name.error);
          return Err(name.error);
        }
        names := names[code.value.s := name.value];
      }
      assert es[..|es|] == es;
      directionNames := Some(names);
      return Ok(names);
    }

    /** `_scrape_count_structure`. */
    method ScrapeCountStructure(site: string, start: int, end: int, freq: string, env: Env)
      returns (r: Result<Payload, Error>)
      modifies this
      ensures (r, State()) == ScrapeStep(old(State()), site, start, end, freq, env)
    {
      if start >= end {
        return Err(InvalidDateRange);
      }
      var granularity := Granularity(freq);
      if granularity.None? {
        return Err(UnsupportedFrequency);
      }
      var url := BuildUrl(site, granularity.value, Some(env.isoDate(start)), Some(env.isoDate(end)));
      var html := env.fetchHtml(url);
      if html.None? {
        return Err(TransportError);
      }
      var result := PayloadExtractor.ExtractNextjsData(env.scriptsOf(html.value), env.parseJson);
      if !isInitialized {
        if !env.siteMetadataOk(html.value) {
          return Err(MetadataFailed);
        }
        var names := SetDirectionNames(result);
        if names.Err? {
          return Err(names.error);
        }
        isInitialized := true;
      }
      return Ok(result);
    }

    /** `fetch_counts` with the period already resolved to instants: scrape, then join the
        global counts with the directional ones. */
    method FetchCounts(start: int, end: int, freq: string, env: Env) returns (r: Result<Dataset.Table, Error>)
      modifies this
      ensures var (scraped, st) := ScrapeStep(old(State()), siteId, start, end, freq, env);
        State() == st && r == FetchResult(scraped, env.toInstant)
    {
      var scraped := ScrapeCountStructure(siteId, start, end, freq, env);
      if scraped.Err? {
        return Err(scraped.error);
      }
      var global := Dataset.GlobalCounts(scraped.value, env.toInstant);
      if global.Err? {
        return Err(global.error);
      }
      var directional := Dataset.ExtractDirectionalCounts(scraped.value, env.toInstant);
      if directional.Err? {
        return Err(directional.error);
      }
      r := Dataset.Join(global.value, directional.value);
    }
  }
}
