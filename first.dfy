/**
 * The first ingestion job and its CSV export (`first_pipeline.py`). Each
 * city of a fixed list gets its own connection and transaction: the
 * reading is inserted into `weather` and the city's `last_updated` stamp
 * upserted with no validation and no temperature filter, and both are
 * committed before the next city. An error for one city is caught and
 * the loop carries on.
 */
module FirstPipeline {
  import opened Wrappers
  import opened Store
  import opened Ingestion
  import opened Csv

  const Cities: seq<string> := ["London", "New York", "Kolkata", "Melbourne", "Auckland", "Tokyo"]

  /** The loop runs over the fixed city list, in order. */
  predicate OverCityList(runs: seq<CityRun>) {
    |runs| == |Cities| && forall i :: 0 <= i < |runs| ==> runs[i].city == Cities[i]
  }

  /** A city's transaction reaches its commit: the fetch succeeded and neither statement failed. */
  predicate Committed(c: CityRun) {
    c.fetch.Fetched? && c.fault == NoFault
  }

  /** The row a city's committed transaction adds to `weather`: the reading as fetched. */
  function WeatherWrite(c: CityRun): (w: Option<WeatherRow>)
    ensures w.Some? <==> Committed(c)
    ensures w.Some? ==> w.value == RowOf(c)
  {
    if Committed(c) then Some(RowOf(c)) else None
  }

  /** The `last_updated` upsert of a city's committed transaction. */
  function FreshnessWrite(c: CityRun): (u: Option<(string, string)>)
    ensures u.Some? <==> Committed(c)
    ensures u.Some? ==> u.value == (c.city, c.fetch.reading.date)
  {
    if Committed(c) then Some((c.city, c.fetch.reading.date)) else None
  }

  /**
   * Which handler ends the iteration: a request error, a failing
   * statement, the missing humidity field of a committed city, or none.
   */
  function Outcome(c: CityRun): (o: CityOutcome)
    ensures o == ApiError <==> c.fetch.NetErr?
    ensures o == DbError <==> c.fetch.Fetched? && c.fault != NoFault
    ensures o == Saved <==> Committed(c) && c.fetch.reading.hasHumidity
    ensures o == Unexpected <==> c.fetch.Malformed? || (Committed(c) && !c.fetch.reading.hasHumidity)
  {
    match c.fetch
    case NetErr => ApiError
    case Malformed => Unexpected
    case Fetched(r) =>
      if c.fault != NoFault then DbError
      else if !r.hasHumidity then Unexpected
      else Saved
  }

  /**
   * How the handler relates to what was stored. A missing humidity field
   * is only read after the commit, so that city's rows stay stored even
   * though the error is logged as unexpected; a database error leaves
   * nothing, since the city's transaction is never committed.
   */
  lemma {:induction false} OutcomeEffects(c: CityRun)
    ensures Committed(c) <==> Outcome(c) == Saved || (Outcome(c) == Unexpected && c.fetch.Fetched?)
    ensures Outcome(c) == DbError ==> WeatherWrite(c).None? && FreshnessWrite(c).None?
  {
  }

  /** The two tables the job writes. */
  datatype Tables = Tables(weather: seq<WeatherRow>, lastUpdated: map<string, string>)

  /** The effect of one iteration: both writes of a committed city, or nothing. */
  function Step(t: Tables, c: CityRun): Tables {
    Tables(t.weather + ToSeq(WeatherWrite(c)), UpsertOpt(t.lastUpdated, FreshnessWrite(c)))
  }

  /** The iterations over `runs`, in order. */
  function Run(t: Tables, runs: seq<CityRun>): Tables {
    if runs == [] then t else Step(Run(t, runs[..|runs| - 1]), runs[|runs| - 1])
  }

  /**
   * The tables after the loop: `weather` gains the reading of every
   * committed city, in city-list order; `last_updated` receives one upsert
   * per committed city, in the same order.
   */
  lemma {:induction false} RunSpec(t: Tables, runs: seq<CityRun>)
    ensures Run(t, runs).weather == t.weather + FilterMap(WeatherWrite, runs)
    ensures Run(t, runs).lastUpdated == Upserts(t.lastUpdated, FilterMap(FreshnessWrite, runs))
  {
    if runs != [] {
      var n := |runs| - 1;
      RunSpec(t, runs[..n]);
      UpsertsSnoc(t.lastUpdated, FilterMap(FreshnessWrite, runs[..n]), FreshnessWrite(runs[n]));
    }
  }

  /**
   * One city's transaction: the insert and the upsert are made on the
   * connection's uncommitted view of the tables, which replaces the stored
   * tables only at the commit. A failing statement skips the commit, and
   * the uncommitted work is discarded with the connection.
   */
  method ProcessCity(db: Database, run: CityRun) returns (outcome: CityOutcome)
    modifies db`weather, db`lastUpdated
    ensures Tables(db.weather, db.lastUpdated) == Step(Tables(old(db.weather), old(db.lastUpdated)), run)
    ensures outcome == Outcome(run)
  {
    match run.fetch {
      case NetErr =>
        outcome := ApiError;
      case Malformed =>
        outcome := Unexpected;
      case Fetched(r) =>
        var weather, lastUpdated := db.weather, db.lastUpdated;
        if run.fault == InsertFails {
          outcome := DbError;
        } else {
          weather := weather + [WeatherRow(run.city, r.date, r.condition, r.temp)];
          if run.fault == UpsertFails {
            outcome := DbError;
          } else {
            lastUpdated := lastUpdated[run.city := r.date];
            db.weather, db.lastUpdated := weather, lastUpdated;
            outcome := if r.hasHumidity then Saved else Unexpected;
          }
        }
    }
  }

  /** One run of `job`: every city is processed whatever happened to the ones before it. */
  method Job(db: Database, runs: seq<CityRun>) returns (outcomes: seq<CityOutcome>)
    requires OverCityList(runs)
    modifies db`weather, db`lastUpdated
    ensures Tables(db.weather, db.lastUpdated) == Run(Tables(old(db.weather), old(db.lastUpdated)), runs)
    ensures |outcomes| == |runs| && forall i :: 0 <= i < |runs| ==> outcomes[i] == Outcome(runs[i])
  {
    ghost var start := Tables(db.weather, db.lastUpdated);
    outcomes := [];
    for i := 0 to |runs|
      invariant Tables(db.weather, db.lastUpdated) == Run(start, runs[..i])
      invariant |outcomes| == i && forall j :: 0 <= j < i ==> outcomes[j] == Outcome(runs[j])
    {
      assert runs[..i + 1][..i] == runs[..i];
      var outcome := ProcessCity(db, runs[i]);
      outcomes := outcomes + [outcome];
    }
    assert runs[..|runs|] == runs;
  }

  /**
   * A row is stored iff some city's fetch succeeded and its transaction
   * committed, whatever its temperature or condition; the row is that
   * reading, unchanged.
   */
  lemma {:induction false} StoredIff(runs: seq<CityRun>, w: WeatherRow)
    ensures w in FilterMap(WeatherWrite, runs) <==>
      exists i :: 0 <= i < |runs| && Committed(runs[i]) && RowOf(runs[i]) == w
  {
    FilterMapIn(WeatherWrite, runs, w);
  }

  /**
   * The per-city commit keeps the two tables in step: the k-th stored row
   * and the k-th stamp upsert come from the same city and carry the same
   * date.
   */
  lemma {:induction false} RowsAndStampsInStep(runs: seq<CityRun>)
    ensures |FilterMap(FreshnessWrite, runs)| == |FilterMap(WeatherWrite, runs)|
    ensures forall k :: 0 <= k < |FilterMap(WeatherWrite, runs)| ==>
      FilterMap(FreshnessWrite, runs)[k] == (FilterMap(WeatherWrite, runs)[k].city, FilterMap(WeatherWrite, runs)[k].date)
  {
    if runs != [] {
      var n := |runs| - 1;
      RowsAndStampsInStep(runs[..n]);
    }
  }

  /**
   * `last_updated` holds, for a city, the date of the last committed
   * transaction for it, however often the city was stored before.
   */
  lemma {:induction false} LastUpdatedIsLatest(m: map<string, string>, runs: seq<CityRun>, i: nat)
    requires i < |runs| && Committed(runs[i])
    requires forall j :: i < j < |runs| && Committed(runs[j]) ==> runs[j].city != runs[i].city
    ensures runs[i].city in Upserts(m, FilterMap(FreshnessWrite, runs))
    ensures Upserts(m, FilterMap(FreshnessWrite, runs))[runs[i].city] == runs[i].fetch.reading.date
  {
    LatestFreshAt(FreshnessWrite, runs, runs[i].city, i);
    FreshnessAfterRuns(FreshnessWrite, m, runs, runs[i].city);
  }

  /** A city with no committed transaction keeps its `last_updated` entry, or its absence. */
  lemma {:induction false} UncommittedCityUnchanged(m: map<string, string>, runs: seq<CityRun>, city: string)
    requires forall j :: 0 <= j < |runs| && runs[j].city == city ==> !Committed(runs[j])
    ensures city in Upserts(m, FilterMap(FreshnessWrite, runs)) <==> city in m
    ensures city in m ==> Upserts(m, FilterMap(FreshnessWrite, runs))[city] == m[city]
  {
    FreshnessAfterRuns(FreshnessWrite, m, runs, city);
  }

  /**
   * Failure isolation: a city whose transaction does not commit leaves the
   * tables exactly as if it had not been in the list.
   */
  lemma {:induction false} FailureIsolated(before: seq<CityRun>, c: CityRun, after: seq<CityRun>)
    requires !Committed(c)
    ensures FilterMap(WeatherWrite, before + [c] + after) == FilterMap(WeatherWrite, before + after)
    ensures FilterMap(FreshnessWrite, before + [c] + after) == FilterMap(FreshnessWrite, before + after)
  {
    FilterMapDrop(WeatherWrite, before, c, after);
    FilterMapDrop(FreshnessWrite, before, c, after);
  }

  const ExportColumns: seq<string> := ["City", "Date", "Condition", "Temperature"]

  /** The line written for one row: its four columns, unchanged. */
  function ExportLine(w: WeatherRow): (l: Line)
    ensures RowOfLine(l) == Some(w) && l.category.None?
  {
    Record(w.city, w.date, w.state, w.temp, None)
  }

  /**
   * The first export: the header, then every `weather` row unchanged and
   * in table order, so that the file reads back as the table.
   */
  function ExportWeatherToCsv(rows: seq<WeatherRow>): (lines: seq<Line>)
    ensures |lines| == |rows| + 1 && lines[0] == Header(ExportColumns)
    ensures forall j :: 0 < j < |lines| ==> lines[j] == ExportLine(rows[j - 1])
    ensures TableOf(lines) == rows
  {
    var lines := [Header(ExportColumns)] + seq(|rows|, i requires 0 <= i < |rows| => ExportLine(rows[i]));
    TableOfRecords(lines, rows);
    lines
  }
}
