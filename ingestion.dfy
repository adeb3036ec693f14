/**
 * What the two ingestion jobs (`job` in `first_pipeline.py` and in
 * `Refined_pipeline.py`) see of the outside world for one city, and the
 * facts about their freshness upserts that both share.
 */
module Ingestion {
  import opened Wrappers
  import opened Store

  /** The fields a job extracts from a successful response, with the timestamp it takes. */
  datatype Reading = Reading(condition: string, temp: real, date: string, hasHumidity: bool)

  /**
   * The result of fetching one city: a `RequestException` (transport error,
   * HTTP error status, unreadable JSON), a response missing a field or
   * holding a non-numeric `temp_C` (a `KeyError`, `IndexError` or
   * `ValueError`), or a reading.
   */
  datatype Fetch = NetErr | Malformed | Fetched(reading: Reading)

  /** Which of the city's two statements raises `sqlite3.Error`, if any. */
  datatype DbFault = NoFault | InsertFails | UpsertFails

  /** One iteration of a job's loop: the city and what happened to it outside the job's control. */
  datatype CityRun = CityRun(city: string, fetch: Fetch, fault: DbFault)

  /**
   * How a city's iteration ended, that is, which handler ran: stored and
   * logged as fetched, dropped by the warm filter, rejected by validation,
   * or caught as a request, database or unexpected error.
   */
  datatype CityOutcome = Saved | Filtered | Invalid | ApiError | DbError | Unexpected

  /** The `weather` row a fetched city produces: `(city, date, state, temp)`. */
  function RowOf(c: CityRun): (w: WeatherRow)
    requires c.fetch.Fetched?
    ensures w.city == c.city && w.date == c.fetch.reading.date
    ensures w.state == c.fetch.reading.condition && w.temp == c.fetch.reading.temp
  {
    WeatherRow(c.city, c.fetch.reading.date, c.fetch.reading.condition, c.fetch.reading.temp)
  }

  /** No city name occurs twice, as in both jobs' fixed city lists. */
  predicate DistinctCities(runs: seq<CityRun>) {
    forall i, j :: 0 <= i < j < |runs| ==> runs[i].city != runs[j].city
  }

  /** `write` only ever writes the freshness row of the city it is given. */
  ghost predicate WritesOwnCity(write: CityRun -> Option<(string, string)>) {
    forall c :: write(c).Some? ==> write(c).value.0 == c.city
  }

  /** The value the last run that writes `city` writes for it, if any run does. */
  ghost function LatestFresh(write: CityRun -> Option<(string, string)>, runs: seq<CityRun>, city: string): (v: Option<string>)
    ensures v.None? <==> forall i :: 0 <= i < |runs| && write(runs[i]).Some? ==> runs[i].city != city
  {
    if runs == [] then None
    else
      var n := |runs| - 1;
      if write(runs[n]).Some? && runs[n].city == city then Some(write(runs[n]).value.1)
      else
        assert forall i :: 0 <= i < n ==> runs[..n][i] == runs[i];
        LatestFresh(write, runs[..n], city)
  }

  /** The latest value is the one of the run that writes `city` with no later run writing it. */
  lemma {:induction false} LatestFreshAt(write: CityRun -> Option<(string, string)>, runs: seq<CityRun>, city: string, i: nat)
    requires i < |runs| && write(runs[i]).Some? && runs[i].city == city
    requires forall j :: i < j < |runs| && write(runs[j]).Some? ==> runs[j].city != city
    ensures LatestFresh(write, runs, city) == Some(write(runs[i]).value.1)
  {
    var n := |runs| - 1;
    if i < n {
      assert runs[..n][i] == runs[i];
      assert forall j :: i < j < n ==> runs[..n][j] == runs[j];
      LatestFreshAt(write, runs[..n], city, i);
    }
  }

  /**
   * After a job's freshness upserts, a city has an entry iff it had one or
   * some run wrote it; a written city holds the value of the last run that
   * wrote it; any other city keeps its old entry.
   */
  lemma {:induction false} FreshnessAfterRuns(write: CityRun -> Option<(string, string)>, m: map<string, string>, runs: seq<CityRun>, city: string)
    requires WritesOwnCity(write)
    ensures city in Upserts(m, FilterMap(write, runs)) <==> city in m || LatestFresh(write, runs, city).Some?
    ensures LatestFresh(write, runs, city).Some? ==>
      Upserts(m, FilterMap(write, runs))[city] == LatestFresh(write, runs, city).value
    ensures LatestFresh(write, runs, city).None? && city in m ==> Upserts(m, FilterMap(write, runs))[city] == m[city]
  {
    if runs != [] {
      var n := |runs| - 1;
      var before := runs[..n];
      FreshnessAfterRuns(write, m, before, city);
      var ws := FilterMap(write, before);
      assert FilterMap(write, runs) == ws + ToSeq(write(runs[n]));
      if write(runs[n]).Some? {
        var x := write(runs[n]).value;
        assert (ws + [x])[..|ws|] == ws;
        assert Upserts(m, FilterMap(write, runs)) == Upserts(m, ws)[x.0 := x.1];
      } else {
        assert ws + [] == ws;
      }
    }
  }
}
