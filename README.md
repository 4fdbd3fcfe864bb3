# Eco-Counter display-map scraper and HTML indenter, modelled in Dafny

This project models the data path of `EcoCounterScraper` in Dafny and proves properties about it. `EcoCounterScraper` is a scraper for the Eco-Counter display-map site. The modelled path runs from request to table:

- validating a request (date order, and a frequency among D/W/M/Y);
- building the request URL;
- picking the page's `<script>` that carries the embedded Next.js payload;
- undoing the string escaping of that payload;
- locating the JSON object around `"chartData"` by scanning for braces;
- turning the `chartData` and `directionGraphData` record lists into timestamp-indexed series;
- outer-joining those series into one table;
- the one-time initialisation of a scraper object, which records the direction names.

It also models `format_html`, the HTML re-indenter. That function inserts line breaks with three substitution passes, then re-indents the lines: two spaces per level, clamped at zero, ignoring void elements.

Files and modules:

| file | module | contents |
|---|---|---|
| wrappers.dfy | `Wrappers` | `Option`, `Result` |
| text.dfy | `Text` | `find`, `in`, `startswith`/`endswith`, `split`/`join` on one character |
| escape.dfy | `EscapeNormalizer` | the three-step `replace` chain, its one-pass decoder, the matching escaper |
| locator.dfy | `BraceLocator` | the backward scan for `{` and the forward depth scan, as methods and as functions |
| json.dfy | `JsonValues` | decoded JSON values, `d[key]`, `xs[0]`, `for x in v`, the error kinds |
| extractor.dfy | `PayloadExtractor` | the line-282 regular expression, one script's checks, the script loop |
| dataset.dfy | `Dataset` | record rows, series, tables, `DataFrame.join(how='outer')`, the directional fold |
| scraper.dfy | `Scraper` | frequency table, URL, `_set_direction_names`, the scraper class and its state machine |
| indent.dfy | `HtmlIndent` | `format_html`: the three passes, `strip`, the indentation loop |

Collaborators the source calls but does not define are supplied to the model as functions:

- the HTTP request (`_fetch_html`);
- BeautifulSoup's list of script strings;
- `json.loads`;
- `.date().isoformat()`;
- `pd.Timestamp` on a JSON timestamp;
- whether `_site_metadata` returns without raising: its pattern matches the page and the captured coordinates and date parse.

In `Scraper` they are the fields of the `Env` datatype. In `PayloadExtractor`, the JSON parser is a parameter.

Timestamps are integers. A table is a column list plus a map from timestamp to one optional count per column. `None` plays the part of pandas' NaN.

A Python exception becomes an `Err` of `JsonValues.Error`:

- `ValueError` on dates or frequency;
- `requests.RequestException`;
- a failure of `_site_metadata`: no match, or a captured coordinate or date that does not parse;
- `KeyError`/`IndexError`/`TypeError` while reading the payload;
- clashing column names in `join`.

In two places the model follows the code, not the class's documentation:

- The documentation says the returned dict may be `None`. The code returns `{}`.
- When no script yields a payload, the first scrape fails. `_set_direction_names({})` raises `KeyError`, so the object stays uninitialised.

## Model

| member | source | states |
|---|---|---|
| EscapeNormalizer.UnescapeIsDecode | simple_scraper.py:288-290 | on input without NUL, the three-step replace chain equals one left-to-right pass that turns `\\` into `\`, turns `\"` into `"` and copies every other character |
| EscapeNormalizer.DecodeEscapeChars | simple_scraper.py:288-290 | the one-pass decoder undoes the per-character escaper on every string |
| EscapeNormalizer.EscapeIsPerCharacter | simple_scraper.py:288-290 | the escape chain (double `\`, then prefix `"` with `\`) equals escaping each character on its own |
| EscapeNormalizer.EscapeCharsNulFree | simple_scraper.py:288 | escaping introduces no NUL, so the placeholder of the chain cannot clash |
| EscapeNormalizer.UnescapeEscape | simple_scraper.py:288-290 | round trip: unescaping the escape of a NUL-free string gives the string back |
| EscapeNormalizer.EscapedBackslashThenQuote | simple_scraper.py:287-290 | an escaped backslash before an escaped quote stays a backslash followed by a quote |
| Text.FindFirst | simple_scraper.py:295 | `str.find`: -1 exactly when the pattern occurs nowhere, else an occurrence with none before it |
| Text.FindFrom | simple_scraper.py:282 | search from an offset: the first occurrence at or after it, or -1 when there is none |
| Text.Split | indent_html_data.py:59 | `str.split` on one character: pieces free of the separator whose join gives the input back |
| Text.SplitJoin | indent_html_data.py:82 | splitting the join of separator-free pieces gives the pieces back |
| BraceLocator.OpeningBrace | simple_scraper.py:299-305 | the backward scan stops at or before its start, at a `{` unless it fell back to 0, with no `{` between it and its start |
| BraceLocator.FindOpeningBrace | simple_scraper.py:299-305 | the `while` loop computes that scan: `0 <= brace_pos <= chart_start`, no `{` in `(brace_pos, chart_start]`, a `{` at `brace_pos` when positive |
| BraceLocator.OpeningBraceAt | simple_scraper.py:299-305 | the scan stops exactly at the nearest `{` at or above index 1, and at 0 when indices 1..start hold none |
| BraceLocator.MatchingEnd | simple_scraper.py:307-317 | the end stays at the start exactly when no prefix of the rest closes at depth 0; otherwise it is the first such end |
| BraceLocator.FindMatchingEnd | simple_scraper.py:307-317 | the `for` loop with its early `break` computes that end; a moved end follows a `}` and encloses equally many `{` and `}` |
| BraceLocator.ProperPrefixesOpen | simple_scraper.py:307-317 | when the slice starts with `{` and closes, every proper prefix holds more `{` than `}` |
| BraceLocator.UnbalancedGivesEmptySlice | simple_scraper.py:309-319 | when the depth never returns to 0, the extracted slice is empty |
| BraceLocator.LocatedSliceBalanced | simple_scraper.py:295-319 | a non-empty located slice ends in `}` and holds as many `{` as `}` |
| BraceLocator.MatchingEndAt | simple_scraper.py:307-317 | the end is the first prefix that closes at depth 0 |
| BraceLocator.LocatesEmbeddedObject | simple_scraper.py:295-319 | a balanced object around the first `"chartData"`, with no `{` between its start and the key, is exactly what is located |
| PayloadExtractor.CaptureIsLeftmostShortest | simple_scraper.py:282-285 | the capture fails exactly when the pattern matches nowhere; otherwise it is the group of the leftmost match with the shortest group |
| PayloadExtractor.ExtractNextjsData | simple_scraper.py:274-332 | the script loop, with `continue` and early `return`, yields the payload of the first script passing every check, `{}` when none does |
| PayloadExtractor.FirstPassingScriptWins | simple_scraper.py:274-332 | the first script that passes every check supplies the payload, whatever the earlier ones were |
| PayloadExtractor.EmptyWhenNonePasses | simple_scraper.py:274-332 | the result is `{}` exactly when no script passes every check |
| PayloadExtractor.NonEmptyFromFirstPassing | simple_scraper.py:274-332 | a non-empty result holds `chartData` and `kpi` and is the payload of a passing script all of whose predecessors fail |
| PayloadExtractor.FirstAcceptedCharacterized | simple_scraper.py:274-332 | the result is `{}` exactly when no script passes; otherwise it holds `chartData` and `kpi` and comes from a passing script all of whose predecessors fail |
| JsonValues.Entries | simple_scraper.py:373 | a list is iterated element by element; anything else only as no elements, or rejected |
| Dataset.GlobalRowsCharacterized | simple_scraper.py:353-375 | `fetched_data['chartData'][0]['data']` and its comprehension succeed exactly when `chartData` is a non-empty list whose first element is an object with `data`, `data` iterates over records and every record decodes; the rows are then the records', in order |
| Dataset.RecordRows | simple_scraper.py:372-375 | the comprehension yields one row per record, in order, each from its record, and fails exactly when some record fails |
| Dataset.SeriesMapSpec | simple_scraper.py:372-376 | the series indexed by timestamp has exactly the records' timestamps; with unique timestamps each holds its record's count |
| Dataset.AsTableSpec | simple_scraper.py:372-376 | a series becomes a one-column `count` table with the series' timestamps as index and its counts as cells |
| Dataset.DirectionTableSpec | simple_scraper.py:400-401 | a direction's table has the single column named by its code and the series' counts as cells |
| Dataset.JoinShape | simple_scraper.py:405 | the outer join succeeds exactly when the column names are disjoint; its columns are the left's then the right's and its index is the union |
| Dataset.JoinCells | simple_scraper.py:405 | every cell of the join is that table's cell at the timestamp, `None` where the table lacks the timestamp |
| Dataset.JoinFoldColumns | simple_scraper.py:403-405 | the fold of joins succeeds exactly when all column names are distinct, and then lists them in order |
| Dataset.JoinFoldRows | simple_scraper.py:403-405 | the fold's index is the union of all the tables' indexes |
| Dataset.JoinFoldCells | simple_scraper.py:403-405 | each column of the fold keeps the cells of the table it came from |
| Dataset.DirectionTables | simple_scraper.py:397-401 | the append/rename loop yields one renamed table per direction, in order, or the error of the first entry that does not decode |
| Dataset.JoinTables | simple_scraper.py:403-405 | the join loop outer-joins the first table with each later one in turn, failing with the first join's error |
| Dataset.ExtractDirectionalCounts | simple_scraper.py:397-406 | the two loops together compute the directional table, failing as the source does on a missing field, a bad entry or an empty list |
| Dataset.JoinDirectionsColumns | simple_scraper.py:398-406 | directions join exactly when there is at least one and their codes are distinct; the columns are the codes in order |
| Dataset.JoinDirectionsRows | simple_scraper.py:398-406 | the directional index is the union of the directions' timestamps |
| Dataset.JoinDirectionsCells | simple_scraper.py:398-406 | the cell of direction i is its count at the timestamp, `None` where it has none |
| Dataset.AssembleColumns | simple_scraper.py:102-103 | the final table exists exactly when there is a direction and `count` and the codes are all distinct; its columns are `count` then the codes |
| Dataset.AssembleCells | simple_scraper.py:102-103 | the index is the union of every series' timestamps; a cell is present exactly when its series has the timestamp, holding that series' count |
| Scraper.Granularity | simple_scraper.py:19-24 | a frequency outside D/W/M/Y is rejected; D/W/M/Y map to P1D/P1W/P1M/P1Y |
| Scraper.BuildUrl | simple_scraper.py:215-220 | the `url +=` steps build the base path, `?granularity=g`, then `&startDate=` and `&endDate=` only when those are non-empty |
| Scraper.UrlDecomposes | simple_scraper.py:215-220 | the URL splits at `?` into the site path and the parameters, which split at `&` into granularity, then start and end when present |
| Scraper.DocstringUrl | simple_scraper.py:212-213 | the documented example: site 300037212, P1Y, no dates |
| Scraper.ValidationBeforeFetch | simple_scraper.py:155-169 | a bad date order or frequency fails with that error, before any URL or fetch, whatever the environment, and changes no state |
| Scraper.InitializationOnce | simple_scraper.py:178-181 | an initialised object never changes state; an uninitialised one changes only on success, becoming initialised with that payload's direction names |
| Scraper.ScrapeIdempotent | simple_scraper.py:155-182 | a second call with the same arguments against an unchanged environment gives the same result and the same state as the first, whether the first succeeded or failed |
| Scraper.FetchIdempotent | simple_scraper.py:95-104 | two `fetch_counts` calls with the same arguments against an unchanged environment give the same dataset, and the second leaves the state unchanged |
| Scraper.RunFromInitialized | simple_scraper.py:178 | once initialised, the state stays the same over any sequence of calls |
| Scraper.SuccessInitializes | simple_scraper.py:178-181 | from construction, one successful call anywhere in a sequence leaves the object initialised |
| Scraper.InitializedHasSuccess | simple_scraper.py:178-181 | from construction, an object initialised after a sequence of calls had a successful call among them |
| Scraper.FirstSuccessSetsState | simple_scraper.py:178-181 | from construction, the final state is the one set by the first successful call |
| Scraper.RunFromInitial | simple_scraper.py:178-181 | from construction, the object is initialised after a sequence of calls exactly when some call succeeds, and the state is set by the first success |
| Scraper.NamesOfOk | simple_scraper.py:453-456 | the names are built exactly when every entry has a string `direction` and a `directionName` |
| Scraper.NamesOfKeys | simple_scraper.py:453-456 | the dictionary's keys are exactly the entries' direction codes |
| Scraper.NamesOfLastWins | simple_scraper.py:456 | for a repeated code, the last entry's name is kept |
| Scraper.EcoCounterScraper.constructor | simple_scraper.py:35-38 | a new scraper keeps its site id, is not initialised and has no direction names |
| Scraper.EcoCounterScraper.SetDirectionNames | simple_scraper.py:453-458 | the filling loop computes the names; the field is stored only when the loop completes |
| Scraper.EcoCounterScraper.ScrapeCountStructure | simple_scraper.py:155-182 | the result and the new fields are those of one step of the state machine |
| Scraper.EcoCounterScraper.FetchCounts | simple_scraper.py:95-104 | one scrape, then the outer join of the global and the directional tables of its payload |
| HtmlIndent.IndexOf | indent_html_data.py:55-56 | the first `>` at or after an offset, or -1 when there is none |
| HtmlIndent.BreakBeforeTextInserts | indent_html_data.py:54 | the first pass only inserts newline characters |
| HtmlIndent.BreakAfterOpenTagInserts | indent_html_data.py:55 | the second pass only inserts newline characters |
| HtmlIndent.BreakAfterCloseTagInserts | indent_html_data.py:56 | the third pass only inserts newline characters |
| HtmlIndent.InsertBreaksOnlyInsertsNewlines | indent_html_data.py:54-56 | the three passes together only insert newline characters |
| HtmlIndent.InsertBreaksKeepsText | indent_html_data.py:54-56 | deleting newlines (or all whitespace) from the result gives the input with the same deletion, and the input is a subsequence of the result |
| HtmlIndent.StripSpec | indent_html_data.py:64 | a stripped line is a slice of the line that neither starts nor ends with whitespace |
| HtmlIndent.StripKeepsText | indent_html_data.py:64 | stripping removes whitespace only |
| HtmlIndent.StripIndented | indent_html_data.py:64-73 | stripping an indented line gives the line back |
| HtmlIndent.FormatHtml | indent_html_data.py:23-82 | the formatting loop with its `indent` counter computes the line layout joined by newlines |
| HtmlIndent.NonBlankFrom | indent_html_data.py:63-66 | every kept line is non-empty and is the stripped form of an input line |
| HtmlIndent.NonBlankAppend | indent_html_data.py:63-66 | lines are kept in input order, each independently of the others |
| HtmlIndent.BlankIffAllSpace | indent_html_data.py:64-66 | a line strips to the empty string exactly when it is whitespace only, so `if not line` skips exactly the whitespace-only lines |
| HtmlIndent.NonBlankSingle | indent_html_data.py:64-66 | a whitespace-only line is dropped; any other line is kept stripped |
| HtmlIndent.LayoutLines | indent_html_data.py:59-73 | one output line per kept line, in order, each `'  ' * level` then the stripped line, and never empty |
| HtmlIndent.LevelStep | indent_html_data.py:69-80 | the next line's level is the previous line's level, plus one when that line opens an element, minus one (clamped at 0) when the next line starts with `</`; this holds for any opening test, and the layout uses `Opens`: starts with `<`, not with `</` or `<!`, does not end in `/>`, and a lower-cased tag name outside the void tags |
| HtmlIndent.FirstLevel | indent_html_data.py:61 | the first emitted line is not indented, whatever the opening test |
| HtmlIndent.RenderedSpec | indent_html_data.py:73 | each rendered line is `'  ' * level` then the line |
| HtmlIndent.OutputLines | indent_html_data.py:82 | the output splits at newlines back into the emitted lines, none of them empty, so there is no blank line and no trailing newline |
| HtmlIndent.FormattedKeepsText | indent_html_data.py:23-82 | re-indenting changes whitespace only: the input and the output have the same non-whitespace characters in the same order |
| HtmlIndent.OpensIgnoresCase | indent_html_data.py:76-80 | a line that starts with `<`, not with `</` or `<!`, and does not end in `/>` raises the indent exactly when its tag name is no spelling, in any mixture of ASCII cases, of `meta`, `link`, `img`, `br`, `hr` or `input` (the Kelvin sign counting as a `k`) |
| HtmlIndent.UpperCaseVoidTag | indent_html_data.py:78-79 | an example of that rule: `<BR>` does not raise the indent |

## Left out

- The HTTP request, BeautifulSoup and `json.loads`. They are foreign code, modelled only as the functions of `Env`. The JSON parser yields a top-level object or nothing. Only a `JSONDecodeError` is caught by the script loop; any other exception from `json.loads` (a `RecursionError` on very deep nesting, say) escapes and fails the whole scrape, and is not modelled. The located slice is empty or ends in `}`, so only an object can parse.
- `_site_metadata`. It is a whole-page regular expression followed by `float` on the coordinates and `pd.Timestamp` on the first-data date. Only whether it returns without raising (no match, or a capture that does not parse) is modelled, as a collaborator; the attributes it sets (`site_name_`, `site_location_`, `site_first_data_`) are not.
- The clock and calendars: `pd.Timestamp.now`, the `to_offset(freq)` default start, `pd.Timestamp` parsing, time zones and `.date().isoformat()`. `FetchCounts` takes start and end already resolved to integers. Dates are formatted by a supplied function.
- pandas ordering of the joined index and the NaN representation. The model has a map and `None`.
- Duplicate timestamps in one series. pandas keeps duplicate index labels and the join multiplies rows. The model keeps one value per timestamp (the last one), and the cell properties assume unique timestamps.
- EscapeNormalizer.UnescapeIsDecode: requires NUL-free input. A NUL already present in the captured text comes out as a backslash.
- Logging, `__repr__`, the `site_id` property and the `debug` copy of the fetched HTML.
- `indent_html_file` and `main`: file reading and writing, `print`, `sys.exit`.
- The docstring example of `format_html`. Tracing the three passes leaves `Hello</p>` on one line and `</body>`, `</html>` indented deeper than shown, so the example is not a property of the code.
- Dataset.DirectionEntry and Scraper.NameEntry: accept only a JSON string as direction code. Python accepts any hashable value.
- Dataset.RecordRow: accepts only a JSON integer as a count. Python stores whatever value `traffic['counts']` holds.
- JsonValues.Entries: reports the iteration of a non-empty object or string as `Malformed` at once. In Python every such element is a string, and the following `entry[key]` raises TypeError; the result is the same error.
- HtmlIndent.LowerChar: lower-cases ASCII capitals and the Kelvin sign only, one character at a time. Only these characters lower-case into the ASCII letters of the void-tag names, so the indentation decision is the same as with full `str.lower`. `str.lower` can also lengthen a string (`İ` becomes `i` and a combining dot); the model keeps such a character unchanged, and neither result is a void-tag name.
