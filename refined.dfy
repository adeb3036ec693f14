/**
 * The refined ingestion job and its CSV export (`Refined_pipeline.py`).
 * For each city of a fixed list, the job validates the fetched reading,
 * keeps only warm readings (above 20 degrees), appends each kept reading to
 * `weather` and upserts the city's `last_updated` stamp; a reading that
 * fails validation is counted as skipped, and an error for one city is
 * caught so that the loop carries on with the next. Everything is
 * committed once, after the loop.
 */
module RefinedPipeline {
  import opened Wrappers
  import opened Text
  import opened Store
  import opened Ingestion
  import opened DailySummary
  import opened Csv

  const Cities: seq<string> := ["London", "Hyderabad", "Kolkata", "Chennai", "Auckland", "Tokyo"]

  const MinTemp: real := -50.0
  const MaxTemp: real := 60.0

  /** Readings at or below this temperature are dropped without being counted. */
  const WarmThreshold: real := 20.0

  /** The validity test: city and condition not all whitespace, temperature within [-50, 60]. */
  predicate IsValid(city: string, r: Reading) {
    Strip(city) != [] && Strip(r.condition) != [] && MinTemp <= r.temp <= MaxTemp
  }

  /** `not city.strip()` holds exactly for text that is all whitespace, the empty text included. */
  lemma {:induction false} ValidIff(city: string, r: Reading)
    ensures IsValid(city, r) <==> !AllSpace(city) && !AllSpace(r.condition) && MinTemp <= r.temp <= MaxTemp
  {
    StripEmptyIff(city);
    StripEmptyIff(r.condition);
  }

  /** A fetched, valid, warm reading: the ones the job tries to store. */
  predicate Kept(c: CityRun) {
    c.fetch.Fetched? && IsValid(c.city, c.fetch.reading) && c.fetch.reading.temp > WarmThreshold
  }

  /**
   * The row one iteration appends to `weather`: a kept reading whose
   * insert succeeds. The row is warm, within range and has a non-blank
   * city and condition (stored as fetched, not trimmed).
   */
  function WeatherWrite(c: CityRun): (w: Option<WeatherRow>)
    ensures w.Some? ==> c.fetch.Fetched? && w.value == RowOf(c)
    ensures w.Some? ==> WarmThreshold < w.value.temp <= MaxTemp
  {
    if Kept(c) && c.fault != InsertFails then Some(RowOf(c)) else None
  }

  /** The `last_updated` upsert one iteration makes: a kept reading whose two statements both succeed. */
  function FreshnessWrite(c: CityRun): (u: Option<(string, string)>)
    ensures u.Some? ==> c.fetch.Fetched? && u.value == (c.city, c.fetch.reading.date) && WeatherWrite(c).Some?
  {
    if Kept(c) && c.fault == NoFault then Some((c.city, c.fetch.reading.date)) else None
  }

  /**
   * Which handler ends the iteration: a request error, an invalid or a
   * cool reading, a failing statement of a kept reading, the missing
   * humidity field of a stored one, or none of these.
   */
  function Outcome(c: CityRun): (o: CityOutcome)
    ensures o == ApiError <==> c.fetch.NetErr?
    ensures o == Invalid <==> c.fetch.Fetched? && !IsValid(c.city, c.fetch.reading)
    ensures o == Filtered <==> c.fetch.Fetched? && IsValid(c.city, c.fetch.reading) && c.fetch.reading.temp <= WarmThreshold
    ensures o == DbError <==> Kept(c) && c.fault != NoFault
    ensures o == Saved <==> Kept(c) && c.fault == NoFault && c.fetch.reading.hasHumidity
    ensures o == Unexpected <==> c.fetch.Malformed? || (Kept(c) && c.fault == NoFault && !c.fetch.reading.hasHumidity)
  {
    match c.fetch
    case NetErr => ApiError
    case Malformed => Unexpected
    case Fetched(r) =>
      if !IsValid(c.city, r) then Invalid
      else if r.temp <= WarmThreshold then Filtered
      else if c.fault != NoFault then DbError
      else if !r.hasHumidity then Unexpected
      else Saved
  }

  /**
   * How the handler that ends an iteration relates to what it stored. A
   * successful insert followed by a failing upsert is a database error,
   * but its row stays in the transaction and is committed after the loop;
   * a response without a humidity field fails only after both statements,
   * so its rows are kept although the error is logged as unexpected.
   */
  lemma {:induction false} OutcomeEffects(c: CityRun)
    ensures Outcome(c) == Saved ==> WeatherWrite(c).Some? && FreshnessWrite(c).Some?
    ensures Outcome(c) in {Invalid, Filtered, ApiError} ==> WeatherWrite(c).None? && FreshnessWrite(c).None?
    ensures Outcome(c) == DbError ==> FreshnessWrite(c).None? && (WeatherWrite(c).Some? <==> c.fault == UpsertFails)
    ensures FreshnessWrite(c).Some? <==> Outcome(c) == Saved || (Outcome(c) == Unexpected && c.fetch.Fetched?)
  {
  }

  /** The city counted by `skipped_count`, if the iteration failed validation. */
  function SkippedCity(c: CityRun): (s: Option<string>)
    ensures s.Some? <==> c.fetch.Fetched? && !IsValid(c.city, c.fetch.reading)
  {
    if Outcome(c) == Invalid then Some(c.city) else None
  }

  /** The loop runs over the fixed city list, in order. */
  predicate OverCityList(runs: seq<CityRun>) {
    |runs| == |Cities| && forall i :: 0 <= i < |runs| ==> runs[i].city == Cities[i]
  }

  /** What `job` has changed so far: the two tables and the skip counter. */
  datatype JobState = JobState(weather: seq<WeatherRow>, lastUpdated: map<string, string>, skipped: nat)

  /** The effect of one iteration on that state. */
  function Step(s: JobState, c: CityRun): JobState {
    JobState(
      s.weather + ToSeq(WeatherWrite(c)),
      UpsertOpt(s.lastUpdated, FreshnessWrite(c)),
      s.skipped + |ToSeq(SkippedCity(c))|)
  }

  /** The iterations over `runs`, in order. */
  function Run(s: JobState, runs: seq<CityRun>): JobState {
    if runs == [] then s else Step(Run(s, runs[..|runs| - 1]), runs[|runs| - 1])
  }

  /**
   * The state after the loop: `weather` gains the rows of the kept
   * readings whose insert succeeded, in city-list order; `last_updated`
   * receives one upsert per fully stored city, in order; the counter grows
   * by the number of cities rejected by validation.
   */
  lemma {:induction false} RunSpec(s: JobState, runs: seq<CityRun>)
    ensures Run(s, runs).weather == s.weather + FilterMap(WeatherWrite, runs)
    ensures Run(s, runs).lastUpdated == Upserts(s.lastUpdated, FilterMap(FreshnessWrite, runs))
    ensures Run(s, runs).skipped == s.skipped + |FilterMap(SkippedCity, runs)|
  {
    if runs != [] {
      var n := |runs| - 1;
      RunSpec(s, runs[..n]);
      UpsertsSnoc(s.lastUpdated, FilterMap(FreshnessWrite, runs[..n]), FreshnessWrite(runs[n]));
    }
  }

  /**
   * The body of the loop for one city: the validity test, the warm
   * filter, the insert, then the upsert, each step reached only if the
   * one before succeeded.
   */
  method ProcessCity(db: Database, run: CityRun, skippedCount: nat) returns (outcome: CityOutcome, skippedAfter: nat)
    modifies db`weather, db`lastUpdated
    ensures JobState(db.weather, db.lastUpdated, skippedAfter) ==
      Step(JobState(old(db.weather), old(db.lastUpdated), skippedCount), run)
    ensures outcome == Outcome(run)
  {
    skippedAfter := skippedCount;
    match run.fetch {
      case NetErr =>
        outcome := ApiError;
      case Malformed =>
        outcome := Unexpected;
      case Fetched(r) =>
        if Strip(run.city) == [] || Strip(r.condition) == [] || r.temp < MinTemp || r.temp > MaxTemp {
          skippedAfter := skippedAfter + 1;
          outcome := Invalid;
        } else if r.temp > WarmThreshold {
          if run.fault == InsertFails {
            outcome := DbError;
          } else {
            db.weather := db.weather + [WeatherRow(run.city, r.date, r.condition, r.temp)];
            if run.fault == UpsertFails {
              outcome := DbError;
            } else {
              db.lastUpdated := db.lastUpdated[run.city := r.date];
              outcome := if r.hasHumidity then Saved else Unexpected;
            }
          }
        } else {
          outcome := Filtered;
        }
    }
  }

  /**
   * One run of `job`: every city is processed whatever happened to the
   * ones before it, and the tables and the skip count end as `RunSpec`
   * describes.
   */
  method Job(db: Database, runs: seq<CityRun>) returns (skippedCount: nat, outcomes: seq<CityOutcome>)
    requires OverCityList(runs)
    modifies db`weather, db`lastUpdated
    ensures JobState(db.weather, db.lastUpdated, skippedCount) == Run(JobState(old(db.weather), old(db.lastUpdated), 0), runs)
    ensures |outcomes| == |runs| && forall i :: 0 <= i < |runs| ==> outcomes[i] == Outcome(runs[i])
  {
    ghost var start := JobState(db.weather, db.lastUpdated, 0);
    skippedCount := 0;
    outcomes := [];
    for i := 0 to |runs|
      invariant JobState(db.weather, db.lastUpdated, skippedCount) == Run(start, runs[..i])
      invariant |outcomes| == i && forall j :: 0 <= j < i ==> outcomes[j] == Outcome(runs[j])
    {
      assert runs[..i + 1][..i] == runs[..i];
      var outcome;
      outcome, skippedCount := ProcessCity(db, runs[i], skippedCount);
      outcomes := outcomes + [outcome];
    }
    assert runs[..|runs|] == runs;
  }

  /**
   * A row is appended iff some city's reading was fetched, valid, above
   * 20 degrees and its insert succeeded; the row is that reading.
   */
  lemma {:induction false} AppendedIff(runs: seq<CityRun>, w: WeatherRow)
    ensures w in FilterMap(WeatherWrite, runs) <==>
      exists i :: 0 <= i < |runs| && Kept(runs[i]) && runs[i].fault != InsertFails && RowOf(runs[i]) == w
  {
    FilterMapIn(WeatherWrite, runs, w);
  }

  /** Every appended row is warm, within range, and has a non-blank city and condition. */
  lemma {:induction false} AppendedRowsWarm(runs: seq<CityRun>)
    ensures forall w :: w in FilterMap(WeatherWrite, runs) ==>
      WarmThreshold < w.temp <= MaxTemp && Strip(w.city) != [] && Strip(w.state) != []
  {
    forall w | w in FilterMap(WeatherWrite, runs)
      ensures WarmThreshold < w.temp <= MaxTemp && Strip(w.city) != [] && Strip(w.state) != []
    {
      FilterMapIn(WeatherWrite, runs, w);
      var k :| 0 <= k < |runs| && WeatherWrite(runs[k]) == Some(w);
      assert Kept(runs[k]);
    }
  }

  /** The job's city list names no city twice. */
  lemma CitiesDistinct()
    ensures forall i, j :: 0 <= i < j < |Cities| ==> Cities[i] != Cities[j]
  {
  }

  /**
   * After a run, every fully stored city's `last_updated` entry is this
   * run's date for it; a city with no upsert in this run keeps its entry
   * or its absence; no other key appears.
   */
  lemma {:induction false} FreshnessAfterJob(m: map<string, string>, runs: seq<CityRun>, city: string)
    requires OverCityList(runs)
    ensures city in Upserts(m, FilterMap(FreshnessWrite, runs)) <==>
      city in m || exists i :: 0 <= i < |runs| && FreshnessWrite(runs[i]).Some? && runs[i].city == city
    ensures forall i :: 0 <= i < |runs| && FreshnessWrite(runs[i]).Some? && runs[i].city == city ==>
      Upserts(m, FilterMap(FreshnessWrite, runs))[city] == runs[i].fetch.reading.date
    ensures (forall i :: 0 <= i < |runs| && FreshnessWrite(runs[i]).Some? ==> runs[i].city != city) && city in m ==>
      Upserts(m, FilterMap(FreshnessWrite, runs))[city] == m[city]
  {
    FreshnessAfterRuns(FreshnessWrite, m, runs, city);
    CitiesDistinct();
    forall i | 0 <= i < |runs| && FreshnessWrite(runs[i]).Some? && runs[i].city == city
      ensures Upserts(m, FilterMap(FreshnessWrite, runs))[city] == runs[i].fetch.reading.date
    {
      LatestFreshAt(FreshnessWrite, runs, city, i);
    }
  }

  /** The key set of `last_updated` grows by at most the fully stored cities. */
  lemma {:induction false} FreshnessKeys(m: map<string, string>, runs: seq<CityRun>)
    ensures Upserts(m, FilterMap(FreshnessWrite, runs)).Keys <= m.Keys + set i | 0 <= i < |runs| && Kept(runs[i]) :: runs[i].city
  {
    forall city | city in Upserts(m, FilterMap(FreshnessWrite, runs)) && city !in m
      ensures exists i :: 0 <= i < |runs| && Kept(runs[i]) && runs[i].city == city
    {
      FreshnessAfterRuns(FreshnessWrite, m, runs, city);
    }
  }

  /**
   * Failure isolation: a city whose iteration stores nothing (a transport
   * error, a malformed response, a rejected or cool reading, a failing
   * insert) leaves the rows and stamps of the cities around it exactly as
   * if it had not been in the list, and adds at most its own skip.
   */
  lemma {:induction false} FailureIsolated(before: seq<CityRun>, c: CityRun, after: seq<CityRun>)
    requires !Kept(c) || c.fault == InsertFails
    ensures FilterMap(WeatherWrite, before + [c] + after) == FilterMap(WeatherWrite, before + after)
    ensures FilterMap(FreshnessWrite, before + [c] + after) == FilterMap(FreshnessWrite, before + after)
    ensures FilterMap(SkippedCity, before + [c] + after) ==
      FilterMap(SkippedCity, before) + ToSeq(SkippedCity(c)) + FilterMap(SkippedCity, after)
  {
    FilterMapDrop(WeatherWrite, before, c, after);
    FilterMapDrop(FreshnessWrite, before, c, after);
    FilterMapAround(SkippedCity, before, c, after);
  }

  /** No city is both counted as skipped and stored: the two together never exceed the cities processed. */
  lemma {:induction false} SkippedAndStoredDisjoint(runs: seq<CityRun>)
    ensures |FilterMap(SkippedCity, runs)| + |FilterMap(WeatherWrite, runs)| <= |runs|
  {
    if runs != [] {
      var n := |runs| - 1;
      SkippedAndStoredDisjoint(runs[..n]);
      FilterMapPrefix(SkippedCity, runs, n);
      FilterMapPrefix(WeatherWrite, runs, n);
      assert runs[..n + 1] == runs;
    }
  }

  /** The export's category column: Hot from 30 degrees, Warm for everything else. */
  function ExportCategory(temp: real): (c: Category)
    ensures c == Hot <==> temp >= 30.0
    ensures c != Cool
  {
    if temp >= 30.0 then Hot else Warm
  }

  /**
   * The export's category agrees with the daily summary's category of the
   * same temperature exactly from 20 degrees up, so on every row this job
   * stores; a cooler row is labelled Warm where the summary says Cool.
   */
  lemma {:induction false} ExportCategoryAgrees(temp: real)
    ensures ExportCategory(temp) == CategoryOf(temp) <==> temp >= 20.0
  {
  }

  /** The line written for one row: the row's four columns unchanged, then its category. */
  function ExportLine(w: WeatherRow): (l: Line)
    ensures RowOfLine(l) == Some(w) && l.category == Some(ExportCategory(w.temp))
  {
    Record(w.city, w.date, w.state, w.temp, Some(ExportCategory(w.temp)))
  }

  const ExportColumns: seq<string> := ["City", "Date", "Condition", "Temperature", "Category"]

  /**
   * The refined export: the header, then every `weather` row in table
   * order with its category appended. Dropping the category column reads
   * the table back unchanged.
   */
  method ExportWeatherToCsv(db: Database) returns (lines: seq<Line>)
    ensures |lines| == |db.weather| + 1 && lines[0] == Header(ExportColumns)
    ensures forall j :: 0 < j < |lines| ==> lines[j] == ExportLine(db.weather[j - 1])
    ensures TableOf(lines) == db.weather
  {
    var rows := db.weather;
    lines := [Header(ExportColumns)];
    for i := 0 to |rows|
      invariant |lines| == i + 1 && lines[0] == Header(ExportColumns)
      invariant forall j :: 0 < j < |lines| ==> lines[j] == ExportLine(rows[j - 1])
    {
      var w := rows[i];
      var category := if w.temp >= 30.0 then Hot else Warm;
      lines := lines + [Record(w.city, w.date, w.state, w.temp, Some(category))];
    }
    assert forall k :: 0 <= k < |rows| ==> lines[k + 1] == ExportLine(rows[k]);
    TableOfRecords(lines, rows);
  }
}
