/** Series and join shaping: `_counts_as_df`, `_extract_global_counts`,
    `_extract_directional_counts` and the outer join of `fetch_counts`. A DataFrame indexed by
    timestamp is a `Table`: its column names, and per timestamp one cell per column, `None`
    standing for NaN. Timestamps are the integers the `toInstant` collaborator
    (`pd.Timestamp`) turns the JSON values into, `None` when it raises. */
module Dataset {
  import opened Wrappers
  import opened JsonValues

  datatype Row = Row(timestamp: int, count: int)

  datatype Table = Table(columns: seq<string>, rows: map<int, seq<Option<int>>>)

  /** Every row has one cell per column. */
  predicate WellFormed(t: Table) {
    forall ts :: ts in t.rows ==> |t.rows[ts]| == |t.columns|
  }

  function Nones(n: nat): (r: seq<Option<int>>)
    ensures |r| == n && forall i :: 0 <= i < n ==> r[i] == None
  {
    seq(n, _ => None)
  }

  /** The row of `ts`, all NaN when the table has no such row. */
  function RowAt(t: Table, ts: int): seq<Option<int>> {
    if ts in t.rows then t.rows[ts] else Nones(|t.columns|)
  }

  /** The cell of column `j` at timestamp `ts`. */
  function Cell(t: Table, ts: int, j: nat): Option<int> {
    if ts in t.rows && j < |t.rows[ts]| then t.rows[ts][j] else None
  }

  function Lookup(m: map<int, int>, ts: int): Option<int> {
    if ts in m then Some(m[ts]) else None
  }

  predicate Distinct(names: seq<string>) {
    forall i, j :: 0 <= i < j < |names| ==> names[i] != names[j]
  }

  predicate Disjoint(a: seq<string>, b: seq<string>) {
    forall c :: c in a ==> c !in b
  }

  /** `a.join(b, how='outer')`: the union of the indexes, the columns of `a` then those of
      `b`, NaN where a side has no row; clashing column names raise ValueError, since no
      suffix is given. The order of the resulting index is not modelled. */
  function Join(a: Table, b: Table): Result<Table, Error> {
    if !Disjoint(a.columns, b.columns) then Err(ColumnOverlap)
    else
      Ok(Table(a.columns + b.columns,
               map ts | ts in a.rows.Keys + b.rows.Keys :: RowAt(a, ts) + RowAt(b, ts)))
  }

  /** The outer join fails exactly on clashing names; otherwise its index is the union of the
      indexes, its columns are the concatenation, and every row has one cell per column. */
  lemma JoinShape(a: Table, b: Table)
    requires WellFormed(a) && WellFormed(b)
    ensures Join(a, b).Ok? <==> Disjoint(a.columns, b.columns)
    ensures Join(a, b).Ok? ==>
      && WellFormed(Join(a, b).value)
      && Join(a, b).value.columns == a.columns + b.columns
      && Join(a, b).value.rows.Keys == a.rows.Keys + b.rows.Keys
  {
  }

  /** Each joined cell is the cell of the side that owns its column, NaN where that side has
      no row. */
  lemma JoinCells(a: Table, b: Table)
    requires WellFormed(a) && WellFormed(b) && Join(a, b).Ok?
    ensures forall ts, j :: 0 <= j < |a.columns| ==> Cell(Join(a, b).value, ts, j) == Cell(a, ts, j)
    ensures forall ts, j :: 0 <= j < |b.columns| ==>
      Cell(Join(a, b).value, ts, |a.columns| + j) == Cell(b, ts, j)
  {
    var r := Join(a, b).value;
    forall ts, j | 0 <= j < |a.columns| ensures Cell(r, ts, j) == Cell(a, ts, j) {
      if ts in r.rows {
        assert r.rows[ts] == RowAt(a, ts) + RowAt(b, ts);
      }
    }
    forall ts, j | 0 <= j < |b.columns| ensures Cell(r, ts, |a.columns| + j) == Cell(b, ts, j) {
      if ts in r.rows {
        assert r.rows[ts] == RowAt(a, ts) + RowAt(b, ts);
      }
    }
  }

  /** The index-to-count mapping `set_index('timestamp')` gives when timestamps are unique;
      a repeated timestamp keeps its last count here. */
  function SeriesMap(rows: seq<Row>): map<int, int>
    decreases |rows|
  {
    if rows == [] then map[]
    else SeriesMap(rows[..|rows| - 1])[rows[|rows| - 1].timestamp := rows[|rows| - 1].count]
  }

  predicate UniqueTimestamps(rows: seq<Row>) {
    forall i, j :: 0 <= i < j < |rows| ==> rows[i].timestamp != rows[j].timestamp
  }

  /** The series has a timestamp exactly when some record has it, and with unique
      timestamps that record's count. */
  lemma {:induction false} SeriesMapSpec(rows: seq<Row>)
    ensures forall ts :: ts in SeriesMap(rows) <==> exists i :: 0 <= i < |rows| && rows[i].timestamp == ts
    ensures UniqueTimestamps(rows) ==>
      forall i :: 0 <= i < |rows| ==> SeriesMap(rows)[rows[i].timestamp] == rows[i].count
    decreases |rows|
  {
    if rows != [] {
      var init := rows[..|rows| - 1];
      SeriesMapSpec(init);
      forall ts ensures ts in SeriesMap(rows) <==> exists i :: 0 <= i < |rows| && rows[i].timestamp == ts {
        if ts in SeriesMap(init) {
          var i :| 0 <= i < |init| && init[i].timestamp == ts;
          assert rows[i].timestamp == ts;
        }
        if exists i :: 0 <= i < |rows| && rows[i].timestamp == ts {
          var i :| 0 <= i < |rows| && rows[i].timestamp == ts;
          if i < |init| {
            assert init[i].timestamp == ts;
          }
        }
      }
      if UniqueTimestamps(rows) {
        assert UniqueTimestamps(init);
        forall i | 0 <= i < |rows| ensures SeriesMap(rows)[rows[i].timestamp] == rows[i].count {
          if i < |init| {
            assert init[i] == rows[i];
          }
        }
      }
    }
  }

  /** `_counts_as_df` on decoded rows: one column, `count`. */
  function AsTable(rows: seq<Row>): Table {
    var m := SeriesMap(rows);
    Table(["count"], map ts | ts in m :: [Some(m[ts])])
  }

  /** `rename(columns={from: to})`: only names change, cells stay where they are. */
  function Rename(t: Table, from: string, to: string): Table {
    Table(seq(|t.columns|, i requires 0 <= i < |t.columns| =>
                if t.columns[i] == from then to else t.columns[i]),
          t.rows)
  }

  lemma AsTableSpec(rows: seq<Row>)
    ensures WellFormed(AsTable(rows)) && AsTable(rows).columns == ["count"]
    ensures AsTable(rows).rows.Keys == SeriesMap(rows).Keys
    ensures forall ts :: Cell(AsTable(rows), ts, 0) == Lookup(SeriesMap(rows), ts)
  {
  }

  /** One record, `(pd.Timestamp(entry['timestamp']), entry['traffic']['counts'])`. */
  function RecordRow(entry: Json, toInstant: Json -> Option<int>): Result<Row, Error> {
    var ts :- Field(entry, "timestamp");
    var instant := toInstant(ts);
    if instant.None? then Err(Malformed)
    else
      var traffic :- Field(entry, "traffic");
      var counts :- Field(traffic, "counts");
      if counts.JInt? then Ok(Row(instant.value, counts.n)) else Err(Malformed)
  }

  function RecordRows(entries: seq<Json>, toInstant: Json -> Option<int>): (r: Result<seq<Row>, Error>)
    ensures r.Ok? ==> |r.value| == |entries|
    ensures r.Ok? ==> forall i :: 0 <= i < |entries| ==> RecordRow(entries[i], toInstant) == Ok(r.value[i])
    ensures r.Err? ==> exists i :: 0 <= i < |entries| && RecordRow(entries[i], toInstant).Err?
    decreases |entries|
  {
    if entries == [] then Ok([])
    else
      var row :- RecordRow(entries[0], toInstant);
      var rest :- RecordRows(entries[1..], toInstant);
      assert forall i :: 1 <= i < |entries| ==> entries[i] == entries[1..][i - 1];
      Ok([row] + rest)
  }

  /** The list comprehension of `_counts_as_df` over a `data` field (lines 372-375). */
  function CountsAsRows(data: Json, toInstant: Json -> Option<int>): Result<seq<Row>, Error> {
    var entries :- Entries(data);
    RecordRows(entries, toInstant)
  }

  /** `fetched_data['chartData'][0]['data']`, decoded (line 353). */
  function GlobalRows(payload: Payload, toInstant: Json -> Option<int>): Result<seq<Row>, Error> {
    var chartData :- Field(JObj(payload), "chartData");
    var first :- First(chartData);
    var data :- Field(first, "data");
    CountsAsRows(data, toInstant)
  }

  /** `fetched_data['chartData'][0]['data']` and the comprehension over it succeed exactly
      when `chartData` is a non-empty list whose first element is an object with a `data`
      field, `data` iterates over records, and every record decodes; the rows are then those
      of the records, in order. */
  lemma GlobalRowsCharacterized(payload: Payload, toInstant: Json -> Option<int>)
    ensures GlobalRows(payload, toInstant).Ok? <==>
      && "chartData" in payload
      && payload["chartData"].JArr? && |payload["chartData"].items| > 0
      && payload["chartData"].items[0].JObj? && "data" in payload["chartData"].items[0].fields
      && var data := payload["chartData"].items[0].fields["data"];
         && Entries(data).Ok?
         && forall i :: 0 <= i < |Entries(data).value| ==> RecordRow(Entries(data).value[i], toInstant).Ok?
    ensures GlobalRows(payload, toInstant).Ok? ==>
      var entries := Entries(payload["chartData"].items[0].fields["data"]).value;
      && |GlobalRows(payload, toInstant).value| == |entries|
      && forall i :: 0 <= i < |entries| ==> RecordRow(entries[i], toInstant) == Ok(GlobalRows(payload, toInstant).value[i])
  {
    var chartData := Field(JObj(payload), "chartData");
    if chartData.Ok? {
      var first := First(chartData.value);
      if first.Ok? {
        var data := Field(first.value, "data");
        if data.Ok? && Entries(data.value).Ok? {
          var rows := RecordRows(Entries(data.value).value, toInstant);
          assert GlobalRows(payload, toInstant) == rows;
        }
      }
    }
  }

  /** `_extract_global_counts`. */
  function GlobalCounts(payload: Payload, toInstant: Json -> Option<int>): Result<Table, Error> {
    var rows :- GlobalRows(payload, toInstant);
    Ok(AsTable(rows))
  }

  /** One entry of `directionGraphData`: its direction code and its records. */
  datatype DirectionSeries = DirectionSeries(code: string, rows: seq<Row>)

  function DirectionEntry(entry: Json, toInstant: Json -> Option<int>): Result<DirectionSeries, Error> {
    var code :- Field(entry, "direction");
    if !code.JStr? then Err(Malformed)
    else
      var data :- Field(entry, "data");
      var rows :- CountsAsRows(data, toInstant);
      Ok(DirectionSeries(code.s, rows))
  }

  /** The entries decoded in order; the first failing entry decides the error. */
  function DirectionSeriesList(entries: seq<Json>, toInstant: Json -> Option<int>): Result<seq<DirectionSeries>, Error>
    decreases |entries|
  {
    if entries == [] then Ok([])
    else
      var init :- DirectionSeriesList(entries[..|entries| - 1], toInstant);
      var last :- DirectionEntry(entries[|entries| - 1], toInstant);
      Ok(init + [last])
  }

  function DirectionList(payload: Payload, toInstant: Json -> Option<int>): Result<seq<DirectionSeries>, Error> {
    var graph :- Field(JObj(payload), "directionGraphData");
    var entries :- Entries(graph);
    DirectionSeriesList(entries, toInstant)
  }

  /** A direction's table: `_counts_as_df` renamed to the direction code (lines 400-401). */
  function DirectionTable(d: DirectionSeries): Table {
    Rename(AsTable(d.rows), "count", d.code)
  }

  function Tables(ds: seq<DirectionSeries>): (ts: seq<Table>)
    ensures |ts| == |ds| && forall i :: 0 <= i < |ds| ==> ts[i] == DirectionTable(ds[i])
  {
    seq(|ds|, i requires 0 <= i < |ds| => DirectionTable(ds[i]))
  }

  function Codes(ds: seq<DirectionSeries>): (cs: seq<string>)
    ensures |cs| == |ds| && forall i :: 0 <= i < |ds| ==> cs[i] == ds[i].code
  {
    seq(|ds|, i requires 0 <= i < |ds| => ds[i].code)
  }

  /** The left fold of `join` over the direction tables (lines 403-405). */
  function JoinFold(acc: Table, ts: seq<Table>): Result<Table, Error>
    decreases |ts|
  {
    if ts == [] then Ok(acc)
    else
      var joined :- Join(acc, ts[0]);
      JoinFold(joined, ts[1..])
  }

  /** Lines 403-406 applied to the decoded directions: `dir_data[0]` raises IndexError when
      there is none. */
  function JoinDirections(dirs: seq<DirectionSeries>): Result<Table, Error> {
    if |dirs| == 0 then Err(Malformed)
    else JoinFold(DirectionTable(dirs[0]), Tables(dirs[1..]))
  }

  /** `_extract_directional_counts`. */
  function DirectionalCounts(payload: Payload, toInstant: Json -> Option<int>): Result<Table, Error> {
    var dirs :- DirectionList(payload, toInstant);
    JoinDirections(dirs)
  }

  /** The dataset of `fetch_counts` (lines 102-103): global counts outer-joined with the
      directional ones. */
  function Assemble(agg: seq<Row>, dirs: seq<DirectionSeries>): Result<Table, Error> {
    var directional :- JoinDirections(dirs);
    Join(AsTable(agg), directional)
  }

  function DatasetOf(payload: Payload, toInstant: Json -> Option<int>): Result<Table, Error> {
    var agg :- GlobalRows(payload, toInstant);
    var dirs :- DirectionList(payload, toInstant);
    Assemble(agg, dirs)
  }

  /** Decoding stops at the first failing entry: a failed prefix fails the whole list. */
  lemma {:induction false} DirectionPrefixFails(es: seq<Json>, toInstant: Json -> Option<int>, i: nat, e: Error)
    requires i <= |es| && DirectionSeriesList(es[..i], toInstant) == Err(e)
    ensures DirectionSeriesList(es, toInstant) == Err(e)
    decreases |es| - i
  {
    if i < |es| {
      assert es[..i + 1][..i] == es[..i];
      DirectionPrefixFails(es, toInstant, i + 1, e);
    } else {
      assert es[..i] == es;
    }
  }

  /** The loop at lines 397-401: each direction's table is appended to `dir_data`; the
      first entry that does not decode ends the extraction with its error. */
  method DirectionTables(es: seq<Json>, toInstant: Json -> Option<int>) returns (r: Result<seq<Table>, Error>)
    ensures DirectionSeriesList(es, toInstant).Err? ==> r == Err(DirectionSeriesList(es, toInstant).error)
    ensures DirectionSeriesList(es, toInstant).Ok? ==> r == Ok(Tables(DirectionSeriesList(es, toInstant).value))
  {
    var dirData: seq<Table> := [];
    ghost var dirs: seq<DirectionSeries> := [];
    for i := 0 to |es|
      invariant DirectionSeriesList(es[..i], toInstant) == Ok(dirs)
      invariant dirData == Tables(dirs)
    {
      assert es[..i + 1][..i] == es[..i];
      var entry := DirectionEntry(es[i], toInstant);
      if entry.Err? {
        DirectionPrefixFails(es, toInstant, i + 1, entry.error);
        return Err(entry.error);
      }
      dirData := dirData + [DirectionTable(entry.value)];
      dirs := dirs + [entry.value];
    }
    assert es[..|es|] == es;
    return Ok(dirData);
  }

  /** The loop at lines 403-405: the first table outer-joined with each later one in turn;
      a clash of column names ends it with the join's error. */
  method JoinTables(dirData: seq<Table>) returns (r: Result<Table, Error>)
    requires |dirData| > 0
    ensures r == JoinFold(dirData[0], dirData[1..])
  {
    var table := dirData[0];
    for i := 1 to |dirData|
      invariant JoinFold(table, dirData[i..]) == JoinFold(dirData[0], dirData[1..])
    {
      assert dirData[i..][0] == dirData[i] && dirData[i..][1..] == dirData[i + 1..];
      var joined := Join(table, dirData[i]);
      if joined.Err? {
        return Err(joined.error);
      }
      table := joined.value;
    }
    return Ok(table);
  }

  /** `_extract_directional_counts` as the source writes it: the loop that builds
      `dir_data`, then the loop of joins. */
  method ExtractDirectionalCounts(payload: Payload, toInstant: Json -> Option<int>)
    returns (r: Result<Table, Error>)
    ensures r == DirectionalCounts(payload, toInstant)
  {
    var graph := Field(JObj(payload), "directionGraphData");
    if graph.Err? {
      return Err(graph.error);
    }
    var entries := Entries(graph.value);
    if entries.Err? {
      return Err(entries.error);
    }
    var tables := DirectionTables(entries.value, toInstant);
    if tables.Err? {
      return Err(tables.error);
    }
    var dirData := tables.value;
    if |dirData| == 0 {
      return Err(Malformed);
    }
    ghost var dirs := DirectionSeriesList(entries.value, toInstant).value;
    assert dirData[1..] == Tables(dirs[1..]);
    r := JoinTables(dirData);
  }

  /** Well-formed tables of one column each, as every direction table is. */
  predicate OneColumnTables(ts: seq<Table>) {
    forall i :: 0 <= i < |ts| ==> WellFormed(ts[i]) && |ts[i].columns| == 1
  }

  function ColumnNames(ts: seq<Table>): seq<string>
    requires OneColumnTables(ts)
  {
    seq(|ts|, i requires 0 <= i < |ts| => ts[i].columns[0])
  }

  /** Folding joins over one-column tables fails exactly when a name repeats, and its
      columns follow the fold order. */
  lemma {:induction false} JoinFoldColumns(acc: Table, ts: seq<Table>)
    requires WellFormed(acc) && Distinct(acc.columns) && OneColumnTables(ts)
    ensures JoinFold(acc, ts).Ok? <==> Distinct(acc.columns + ColumnNames(ts))
    ensures JoinFold(acc, ts).Ok? ==>
      WellFormed(JoinFold(acc, ts).value) && JoinFold(acc, ts).value.columns == acc.columns + ColumnNames(ts)
    decreases |ts|
  {
    if ts == [] {
      assert acc.columns + ColumnNames(ts) == acc.columns;
    } else {
      var c := ts[0].columns[0];
      var names := ColumnNames(ts);
      assert names == [c] + ColumnNames(ts[1..]);
      assert acc.columns + names == (acc.columns + [c]) + ColumnNames(ts[1..]);
      JoinShape(acc, ts[0]);
      if c in acc.columns {
        var k :| 0 <= k < |acc.columns| && acc.columns[k] == c;
        assert (acc.columns + names)[k] == (acc.columns + names)[|acc.columns|];
      } else {
        var a1 := Join(acc, ts[0]).value;
        assert a1.columns == acc.columns + [c];
        forall i, j | 0 <= i < j < |a1.columns| ensures a1.columns[i] != a1.columns[j] {
          if j == |acc.columns| {
            assert a1.columns[i] == acc.columns[i];
          }
        }
        JoinFoldColumns(a1, ts[1..]);
      }
    }
  }

  /** The folded index is the union of all indexes. */
  lemma {:induction false} JoinFoldRows(acc: Table, ts: seq<Table>)
    requires WellFormed(acc) && OneColumnTables(ts) && JoinFold(acc, ts).Ok?
    ensures forall t :: t in JoinFold(acc, ts).value.rows <==>
      t in acc.rows || exists i :: 0 <= i < |ts| && t in ts[i].rows
    decreases |ts|
  {
    if ts != [] {
      JoinShape(acc, ts[0]);
      var a1 := Join(acc, ts[0]).value;
      var rest := ts[1..];
      JoinFoldRows(a1, rest);
      var r := JoinFold(acc, ts).value;
      forall t ensures t in r.rows <==> t in acc.rows || exists i :: 0 <= i < |ts| && t in ts[i].rows {
        if exists i :: 0 <= i < |rest| && t in rest[i].rows {
          var i :| 0 <= i < |rest| && t in rest[i].rows;
          assert t in ts[i + 1].rows;
        }
        if exists i :: 0 <= i < |ts| && t in ts[i].rows {
          var i :| 0 <= i < |ts| && t in ts[i].rows;
          if i > 0 {
            assert t in rest[i - 1].rows;
          }
        }
      }
    }
  }

  /** Each folded cell comes from the table that owns its column. */
  lemma {:induction false} JoinFoldCells(acc: Table, ts: seq<Table>)
    requires WellFormed(acc) && OneColumnTables(ts) && JoinFold(acc, ts).Ok?
    ensures forall t, j :: 0 <= j < |acc.columns| ==> Cell(JoinFold(acc, ts).value, t, j) == Cell(acc, t, j)
    ensures forall t, i :: 0 <= i < |ts| ==>
      Cell(JoinFold(acc, ts).value, t, |acc.columns| + i) == Cell(ts[i], t, 0)
    decreases |ts|
  {
    if ts != [] {
      JoinShape(acc, ts[0]);
      JoinCells(acc, ts[0]);
      var a1 := Join(acc, ts[0]).value;
      var rest := ts[1..];
      JoinFoldCells(a1, rest);
      var r := JoinFold(acc, ts).value;
      forall t, i | 0 <= i < |ts| ensures Cell(r, t, |acc.columns| + i) == Cell(ts[i], t, 0) {
        if i > 0 {
          assert rest[i - 1] == ts[i];
          assert |acc.columns| + i == |a1.columns| + (i - 1);
        }
      }
    }
  }

  lemma DirectionTableSpec(d: DirectionSeries)
    ensures WellFormed(DirectionTable(d)) && DirectionTable(d).columns == [d.code]
    ensures DirectionTable(d).rows.Keys == SeriesMap(d.rows).Keys
    ensures forall ts :: Cell(DirectionTable(d), ts, 0) == Lookup(SeriesMap(d.rows), ts)
  {
    AsTableSpec(d.rows);
  }

  lemma TablesSpec(dirs: seq<DirectionSeries>)
    ensures OneColumnTables(Tables(dirs)) && ColumnNames(Tables(dirs)) == Codes(dirs)
  {
    forall i | 0 <= i < |dirs| ensures WellFormed(Tables(dirs)[i]) && Tables(dirs)[i].columns == [dirs[i].code] {
      DirectionTableSpec(dirs[i]);
    }
  }

  /** The joined direction tables exist exactly when there is a direction and the codes are
      distinct; their columns are then the codes in order. */
  lemma JoinDirectionsColumns(dirs: seq<DirectionSeries>)
    ensures JoinDirections(dirs).Ok? <==> |dirs| > 0 && Distinct(Codes(dirs))
    ensures JoinDirections(dirs).Ok? ==>
      WellFormed(JoinDirections(dirs).value) && JoinDirections(dirs).value.columns == Codes(dirs)
  {
    if |dirs| > 0 {
      DirectionTableSpec(dirs[0]);
      TablesSpec(dirs[1..]);
      assert Codes(dirs) == [dirs[0].code] + Codes(dirs[1..]);
      JoinFoldColumns(DirectionTable(dirs[0]), Tables(dirs[1..]));
    }
  }

  /** The index of the joined direction tables is the union of the directions' timestamps. */
  lemma JoinDirectionsRows(dirs: seq<DirectionSeries>)
    requires JoinDirections(dirs).Ok?
    ensures forall t :: t in JoinDirections(dirs).value.rows <==>
      exists i :: 0 <= i < |dirs| && t in SeriesMap(dirs[i].rows)
  {
    var first := DirectionTable(dirs[0]);
    var rest := Tables(dirs[1..]);
    var d := JoinDirections(dirs).value;
    DirectionTableSpec(dirs[0]);
    TablesSpec(dirs[1..]);
    JoinFoldRows(first, rest);
    forall t ensures t in d.rows <==> exists i :: 0 <= i < |dirs| && t in SeriesMap(dirs[i].rows) {
      RowsOfTables(dirs[1..], t);
      SomeDirectionHasRow(dirs, t);
    }
  }

  /** A timestamp is a row of some direction table exactly when it is in some series. */
  lemma RowsOfTables(dirs: seq<DirectionSeries>, t: int)
    ensures (exists i :: 0 <= i < |dirs| && t in Tables(dirs)[i].rows) <==>
      exists i :: 0 <= i < |dirs| && t in SeriesMap(dirs[i].rows)
  {
    forall i | 0 <= i < |dirs| ensures t in Tables(dirs)[i].rows <==> t in SeriesMap(dirs[i].rows) {
      DirectionTableSpec(dirs[i]);
    }
  }

  /** Some direction holds a timestamp exactly when the first does or one of the others. */
  lemma SomeDirectionHasRow(dirs: seq<DirectionSeries>, t: int)
    requires |dirs| > 0
    ensures (exists i :: 0 <= i < |dirs| && t in SeriesMap(dirs[i].rows)) <==>
      t in DirectionTable(dirs[0]).rows || exists i :: 0 <= i < |dirs[1..]| && t in SeriesMap(dirs[1..][i].rows)
  {
    DirectionTableSpec(dirs[0]);
    if exists i :: 0 <= i < |dirs| && t in SeriesMap(dirs[i].rows) {
      var i :| 0 <= i < |dirs| && t in SeriesMap(dirs[i].rows);
      if i > 0 {
        assert dirs[1..][i - 1] == dirs[i];
      }
    }
    if exists i :: 0 <= i < |dirs[1..]| && t in SeriesMap(dirs[1..][i].rows) {
      var i :| 0 <= i < |dirs[1..]| && t in SeriesMap(dirs[1..][i].rows);
      assert dirs[1..][i] == dirs[i + 1];
    }
  }

  /** Column `i` of the joined direction tables is the series of direction `i`. */
  lemma JoinDirectionsCells(dirs: seq<DirectionSeries>)
    requires JoinDirections(dirs).Ok?
    ensures forall t, i :: 0 <= i < |dirs| ==>
      Cell(JoinDirections(dirs).value, t, i) == Lookup(SeriesMap(dirs[i].rows), t)
  {
    var first := DirectionTable(dirs[0]);
    var rest := Tables(dirs[1..]);
    var d := JoinDirections(dirs).value;
    DirectionTableSpec(dirs[0]);
    TablesSpec(dirs[1..]);
    JoinFoldCells(first, rest);
    forall t, i | 0 <= i < |dirs| ensures Cell(d, t, i) == Lookup(SeriesMap(dirs[i].rows), t) {
      DirectionTableSpec(dirs[i]);
      if i > 0 {
        assert rest[i - 1] == DirectionTable(dirs[i]);
        assert Cell(d, t, 1 + (i - 1)) == Cell(rest[i - 1], t, 0);
      }
    }
  }

  lemma DistinctCons(c: string, names: seq<string>)
    ensures Distinct([c] + names) <==> c !in names && Distinct(names)
  {
    var cn := [c] + names;
    if c in names {
      var k :| 0 <= k < |names| && names[k] == c;
      assert cn[0] == c && cn[k + 1] == c;
    }
    if Distinct(cn) {
      forall i, j | 0 <= i < j < |names| ensures names[i] != names[j] {
        assert cn[i + 1] == names[i] && cn[j + 1] == names[j];
      }
    }
    if c !in names && Distinct(names) {
      forall i, j | 0 <= i < j < |cn| ensures cn[i] != cn[j] {
        assert cn[j] == names[j - 1];
        if i > 0 {
          assert cn[i] == names[i - 1];
        }
      }
    }
  }

  /** The assembled dataset exists exactly when there is a direction and the names `count`
      and the direction codes are all distinct; its columns are `count` followed by the
      codes. */
  lemma AssembleColumns(agg: seq<Row>, dirs: seq<DirectionSeries>)
    ensures Assemble(agg, dirs).Ok? <==> |dirs| > 0 && Distinct(["count"] + Codes(dirs))
    ensures Assemble(agg, dirs).Ok? ==> Assemble(agg, dirs).value.columns == ["count"] + Codes(dirs)
  {
    JoinDirectionsColumns(dirs);
    DistinctCons("count", Codes(dirs));
    AsTableSpec(agg);
    if JoinDirections(dirs).Ok? {
      JoinShape(AsTable(agg), JoinDirections(dirs).value);
      JoinShape(AsTable(agg), JoinDirections(dirs).value);
    }
  }

  /** The assembled index is the union of every series' timestamps, and each cell is present
      exactly when its series has the timestamp, holding that series' count. */
  lemma AssembleCells(agg: seq<Row>, dirs: seq<DirectionSeries>)
    requires Assemble(agg, dirs).Ok?
    ensures forall t :: t in Assemble(agg, dirs).value.rows <==>
      t in SeriesMap(agg) || exists i :: 0 <= i < |dirs| && t in SeriesMap(dirs[i].rows)
    ensures forall t :: Cell(Assemble(agg, dirs).value, t, 0) == Lookup(SeriesMap(agg), t)
    ensures forall t, i :: 0 <= i < |dirs| ==>
      Cell(Assemble(agg, dirs).value, t, i + 1) == Lookup(SeriesMap(dirs[i].rows), t)
  {
    var d := JoinDirections(dirs).value;
    JoinDirectionsColumns(dirs);
    JoinDirectionsRows(dirs);
    JoinDirectionsCells(dirs);
    AsTableSpec(agg);
    JoinShape(AsTable(agg), d);
    JoinCells(AsTable(agg), d);
    var r := Assemble(agg, dirs).value;
    forall t, i | 0 <= i < |dirs| ensures Cell(r, t, i + 1) == Lookup(SeriesMap(dirs[i].rows), t) {
      assert Cell(r, t, 1 + i) == Cell(d, t, i);
    }
  }
}
