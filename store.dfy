/**
 * The SQLite file `weather.db` that all three scripts share, as one object
 * whose tables are fields: append-only tables are sequences, tables with a
 * primary key are maps from that key.
 */
module Store {
  import opened Wrappers

  /** A row of `cleaned_weather(city, temperature, condition)`. */
  datatype CleanRow = CleanRow(city: string, temperature: real, condition: string)

  /** A row of `cleaning_log(run_id, timestamp, total_records, cleaned, skipped)`. */
  datatype LogRow = LogRow(runId: int, timestamp: string, totalRecords: int, cleaned: int, skipped: int)

  /** A row of `weather(city, date, state, temp)`; `state` is the condition text. */
  datatype WeatherRow = WeatherRow(city: string, date: string, state: string, temp: real)

  /** The temperature categories written to the summary table and the CSV export. */
  datatype Category = Hot | Warm | Cool

  /** The `(city, date)` primary key of the daily summary table. */
  type DayKey = (string, string)

  /** The non-key columns of a daily summary row. */
  datatype Summary = Summary(avgTemp: real, minTemp: real, maxTemp: real, category: Category)

  class Database {
    var weather: seq<WeatherRow>
    var lastUpdated: map<string, string>                // city -> last_fetch
    var dailySummary: map<DayKey, Summary>             // (city, date) -> summary
    var cleanedWeather: seq<CleanRow>
    var cleaningLog: seq<LogRow>

    /** A database file on which no table holds a row yet. */
    constructor ()
      ensures weather == [] && lastUpdated == map[] && dailySummary == map[]
      ensures cleanedWeather == [] && cleaningLog == []
    {
      weather, lastUpdated, dailySummary := [], map[], map[];
      cleanedWeather, cleaningLog := [], [];
    }
  }

  /**
   * `INSERT ... ON CONFLICT(key) DO UPDATE SET value = excluded.value`,
   * issued once per pair of `writes`, in order. No row is ever removed,
   * and the final write is in place.
   */
  function Upserts<K(==), V>(m: map<K, V>, writes: seq<(K, V)>): (r: map<K, V>)
    ensures m.Keys <= r.Keys
    ensures writes != [] ==> writes[|writes| - 1].0 in r && r[writes[|writes| - 1].0] == writes[|writes| - 1].1
  {
    if writes == [] then m
    else
      var last := writes[|writes| - 1];
      Upserts(m, writes[..|writes| - 1])[last.0 := last.1]
  }

  /** The value of the last write to `k` in `writes`, if any. */
  function LastWrite<K(==), V(==)>(writes: seq<(K, V)>, k: K): (v: Option<V>)
    ensures v.None? <==> forall i :: 0 <= i < |writes| ==> writes[i].0 != k
    ensures v.Some? ==> exists i :: 0 <= i < |writes| && writes[i] == (k, v.value)
  {
    if writes == [] then None
    else if writes[|writes| - 1].0 == k then Some(writes[|writes| - 1].1)
    else
      var v := LastWrite(writes[..|writes| - 1], k);
      assert forall i :: 0 <= i < |writes| - 1 ==> writes[..|writes| - 1][i] == writes[i];
      v
  }

  /** `LastWrite` finds the write to `k` that no later write to `k` follows. */
  lemma {:induction false} LastWriteAt<K, V>(writes: seq<(K, V)>, k: K, i: nat)
    requires i < |writes| && writes[i].0 == k
    requires forall j :: i < j < |writes| ==> writes[j].0 != k
    ensures LastWrite(writes, k) == Some(writes[i].1)
  {
    var n := |writes| - 1;
    if i < n {
      assert writes[..n][i] == writes[i];
      assert forall j :: i < j < n ==> writes[..n][j] == writes[j];
      LastWriteAt(writes[..n], k, i);
    }
  }

  /**
   * After a series of upserts, a key is present iff it was present before
   * or was written; a written key holds the value of its last write; any
   * other key keeps its old value. In particular the key set never holds a
   * key twice and grows only by the written keys.
   */
  lemma {:induction false} UpsertsSpec<K, V>(m: map<K, V>, writes: seq<(K, V)>, k: K)
    ensures k in Upserts(m, writes) <==> k in m || LastWrite(writes, k).Some?
    ensures LastWrite(writes, k).Some? ==> Upserts(m, writes)[k] == LastWrite(writes, k).value
    ensures forall i :: 0 <= i < |writes| && writes[i].0 == k && (forall j :: i < j < |writes| ==> writes[j].0 != k) ==>
      Upserts(m, writes)[k] == writes[i].1
    ensures LastWrite(writes, k).None? && k in m ==> Upserts(m, writes)[k] == m[k]
  {
    if writes != [] {
      UpsertsSpec(m, writes[..|writes| - 1], k);
    }
    forall i | 0 <= i < |writes| && writes[i].0 == k && (forall j :: i < j < |writes| ==> writes[j].0 != k)
      ensures Upserts(m, writes)[k] == writes[i].1
    {
      LastWriteAt(writes, k, i);
    }
  }

  /** The keys after a series of upserts are the old keys plus the written ones. */
  lemma {:induction false} UpsertsKeys<K, V>(m: map<K, V>, writes: seq<(K, V)>)
    ensures Upserts(m, writes).Keys == m.Keys + set i | 0 <= i < |writes| :: writes[i].0
  {
    if writes != [] {
      var n := |writes| - 1;
      UpsertsKeys(m, writes[..n]);
      assert (set i | 0 <= i < |writes| :: writes[i].0) == (set i | 0 <= i < n :: writes[..n][i].0) + {writes[n].0};
    }
  }

  /** Upserting `a` then `b` is upserting `a + b`. */
  lemma {:induction false} UpsertsAppend<K, V>(m: map<K, V>, a: seq<(K, V)>, b: seq<(K, V)>)
    ensures Upserts(m, a + b) == Upserts(Upserts(m, a), b)
  {
    if b == [] {
      assert a + b == a;
    } else {
      var n := |b| - 1;
      assert (a + b)[..|a + b| - 1] == a + b[..n];
      UpsertsAppend(m, a, b[..n]);
    }
  }

  /** At most one upsert: the write `x` holds, if any. */
  function UpsertOpt<K, V>(m: map<K, V>, x: Option<(K, V)>): map<K, V> {
    if x.Some? then m[x.value.0 := x.value.1] else m
  }

  /** Following a series of upserts with at most one more. */
  lemma {:induction false} UpsertsSnoc<K, V>(m: map<K, V>, ws: seq<(K, V)>, x: Option<(K, V)>)
    ensures Upserts(m, ws + ToSeq(x)) == UpsertOpt(Upserts(m, ws), x)
  {
    if x.Some? {
      assert (ws + [x.value])[..|ws|] == ws;
    } else {
      assert ws + [] == ws;
    }
  }
}
