/**
 * `update_daily_summary`: the `weather` rows grouped by city and day
 * (`GROUP BY city, DATE(date)`), each group reduced to its average,
 * minimum and maximum temperature and a Hot/Warm/Cool category, and one
 * row per group upserted into the daily summary table keyed by
 * `(city, date)`.
 */
module DailySummary {
  import opened Store

  /** SQLite's `DATE(date)` on a `%Y-%m-%d %H:%M:%S` stamp: its first ten characters. */
  function Day(date: string): string {
    if |date| <= 10 then date else date[..10]
  }

  /** The day of a stamp is its prefix of ten characters, or the whole of a shorter stamp. */
  lemma {:induction false} DayPrefix(date: string)
    ensures Day(date) <= date
    ensures |Day(date)| == if |date| < 10 then |date| else 10
  {
  }

  /** The group a `weather` row falls into. */
  function KeyOf(w: WeatherRow): DayKey {
    (w.city, Day(w.date))
  }

  /** The temperatures of the rows in group `k`, in table order. */
  function GroupTemps(rows: seq<WeatherRow>, k: DayKey): (t: seq<real>)
    ensures |t| <= |rows|
    ensures |t| > 0 <==> exists i :: 0 <= i < |rows| && KeyOf(rows[i]) == k
    ensures forall x :: x in t ==> exists i :: 0 <= i < |rows| && KeyOf(rows[i]) == k && rows[i].temp == x
  {
    if rows == [] then []
    else
      var n := |rows| - 1;
      assert forall i :: 0 <= i < n ==> rows[..n][i] == rows[i];
      GroupTemps(rows[..n], k) + (if KeyOf(rows[n]) == k then [rows[n].temp] else [])
  }

  /**
   * `GroupTemps` holds every temperature of group `k`, once per row: each
   * value occurs as often as there are rows of the group carrying it.
   */
  lemma {:induction false} GroupTempsCount(rows: seq<WeatherRow>, k: DayKey, x: real)
    ensures multiset(GroupTemps(rows, k))[x] == |set i | 0 <= i < |rows| && KeyOf(rows[i]) == k && rows[i].temp == x|
    decreases |rows|
  {
    if rows != [] {
      GroupTempsCount(rows[..|rows| - 1], k, x);
      GroupRowsSnoc(rows, rows[..|rows| - 1], k, x);
    }
  }

  /** The rows of group `k` carrying `x`, counted with the last row set apart. */
  lemma {:induction false} GroupRowsSnoc(rows: seq<WeatherRow>, front: seq<WeatherRow>, k: DayKey, x: real)
    requires rows != [] && front == rows[..|rows| - 1]
    ensures |set i | 0 <= i < |rows| && KeyOf(rows[i]) == k && rows[i].temp == x| ==
      |set i | 0 <= i < |front| && KeyOf(front[i]) == k && front[i].temp == x| +
      (if KeyOf(rows[|rows| - 1]) == k && rows[|rows| - 1].temp == x then 1 else 0)
  {
    var n := |front|;
    var last := if KeyOf(rows[n]) == k && rows[n].temp == x then {n} else {};
    GroupRowsSplit(rows, front, k, x, last);
    assert n !in set i | 0 <= i < n && KeyOf(front[i]) == k && front[i].temp == x;
  }

  /** The same rows as a set of indices: those of `front`, and the last one if it matches. */
  lemma GroupRowsSplit(rows: seq<WeatherRow>, front: seq<WeatherRow>, k: DayKey, x: real, last: set<int>)
    requires rows != [] && front == rows[..|rows| - 1]
    requires last == if KeyOf(rows[|front|]) == k && rows[|front|].temp == x then {|front|} else {}
    ensures (set i | 0 <= i < |rows| && KeyOf(rows[i]) == k && rows[i].temp == x) ==
      (set i | 0 <= i < |front| && KeyOf(front[i]) == k && front[i].temp == x) + last
  {
    forall i | 0 <= i < |front|
      ensures front[i] == rows[i]
    {
    }
  }

  /** The groups of `rows`, each once, in order of first appearance. */
  function GroupKeys(rows: seq<WeatherRow>): (ks: seq<DayKey>)
    ensures forall i, j :: 0 <= i < j < |ks| ==> ks[i] != ks[j]
    ensures forall k :: k in ks <==> exists i :: 0 <= i < |rows| && KeyOf(rows[i]) == k
    ensures forall i :: 0 <= i < |ks| ==> GroupTemps(rows, ks[i]) != []
  {
    if rows == [] then []
    else
      var n := |rows| - 1;
      var ks := GroupKeys(rows[..n]);
      assert forall i :: 0 <= i < n ==> rows[..n][i] == rows[i];
      var ks' := if KeyOf(rows[n]) in ks then ks else ks + [KeyOf(rows[n])];
      assert forall i :: 0 <= i < |ks'| ==> ks'[i] in ks';
      ks'
  }

  function Sum(s: seq<real>): real {
    if s == [] then 0.0 else Sum(s[..|s| - 1]) + s[|s| - 1]
  }

  /** `MIN(temp)`: a member of the group no greater than any other. */
  function Min(s: seq<real>): (m: real)
    requires s != []
    ensures m in s && forall x :: x in s ==> m <= x
  {
    var n := |s| - 1;
    if n == 0 then s[0]
    else
      var m := Min(s[..n]);
      assert s == s[..n] + [s[n]];
      if s[n] < m then s[n] else m
  }

  /** `MAX(temp)`: a member of the group no less than any other. */
  function Max(s: seq<real>): (m: real)
    requires s != []
    ensures m in s && forall x :: x in s ==> x <= m
  {
    var n := |s| - 1;
    if n == 0 then s[0]
    else
      var m := Max(s[..n]);
      assert s == s[..n] + [s[n]];
      if s[n] > m then s[n] else m
  }

  /** A sum of values between `lo` and `hi` lies between `|s| * lo` and `|s| * hi`. */
  lemma {:induction false} SumBetween(s: seq<real>, lo: real, hi: real)
    requires forall x :: x in s ==> lo <= x <= hi
    ensures |s| as real * lo <= Sum(s) <= |s| as real * hi
  {
    if s != [] {
      var n := |s| - 1;
      assert forall x :: x in s[..n] ==> x in s;
      SumBetween(s[..n], lo, hi);
      assert s[n] in s;
      assert |s| as real * lo == n as real * lo + lo;
      assert |s| as real * hi == n as real * hi + hi;
    }
  }

  /** A total between `n * lo` and `n * hi`, divided by `n`, lies between `lo` and `hi`. */
  lemma MeanBetween(total: real, n: real, lo: real, hi: real)
    requires 0.0 < n && n * lo <= total <= n * hi
    ensures lo <= total / n <= hi
  {
    assert (total / n) * n == total;
  }

  /** The category of a daily average: Hot from 30, Warm from 20, Cool below. */
  function CategoryOf(avg: real): (c: Category)
    ensures c == Hot <==> avg >= 30.0
    ensures c == Warm <==> 20.0 <= avg < 30.0
    ensures c == Cool <==> avg < 20.0
  {
    if avg >= 30.0 then Hot else if avg >= 20.0 then Warm else Cool
  }

  /**
   * The summary of a non-empty group: the average is the mean of the
   * temperatures and lies between the minimum and the maximum, which are
   * among them and bound all of them; the category is that of the average.
   */
  function Aggregate(temps: seq<real>): (s: Summary)
    requires temps != []
    ensures s.avgTemp * |temps| as real == Sum(temps)
    ensures s.minTemp in temps && s.maxTemp in temps
    ensures forall x :: x in temps ==> s.minTemp <= x <= s.maxTemp
    ensures s.minTemp <= s.avgTemp <= s.maxTemp
    ensures s.category == CategoryOf(s.avgTemp)
  {
    var n := |temps| as real;
    var lo, hi := Min(temps), Max(temps);
    SumBetween(temps, lo, hi);
    var avg := Sum(temps) / n;
    MeanBetween(Sum(temps), n, lo, hi);
    Summary(avg, lo, hi, CategoryOf(avg))
  }

  /** One row of `SELECT city, DATE(date), AVG(temp), MIN(temp), MAX(temp) ... GROUP BY city, DATE(date)`. */
  datatype GroupStats = GroupStats(city: string, date: string, avgTemp: real, minTemp: real, maxTemp: real)

  /** The query's result: one row per group, holding the group's average, minimum and maximum. */
  function Aggregates(rows: seq<WeatherRow>): (gs: seq<GroupStats>)
    ensures |gs| == |GroupKeys(rows)|
    ensures forall i :: 0 <= i < |gs| ==> (gs[i].city, gs[i].date) == GroupKeys(rows)[i]
    ensures forall i :: 0 <= i < |gs| ==>
      var s := Aggregate(GroupTemps(rows, GroupKeys(rows)[i]));
      gs[i].avgTemp == s.avgTemp && gs[i].minTemp == s.minTemp && gs[i].maxTemp == s.maxTemp
  {
    var ks := GroupKeys(rows);
    seq(|ks|, i requires 0 <= i < |ks| =>
      var s := Aggregate(GroupTemps(rows, ks[i]));
      GroupStats(ks[i].0, ks[i].1, s.avgTemp, s.minTemp, s.maxTemp))
  }

  /** The summary row upserted for one query row: its statistics and the category of its average. */
  function WriteOf(g: GroupStats): (DayKey, Summary) {
    ((g.city, g.date), Summary(g.avgTemp, g.minTemp, g.maxTemp, CategoryOf(g.avgTemp)))
  }

  /** The upserts issued for the query rows `gs`, one per row, in order. */
  function WritesOf(gs: seq<GroupStats>): (ws: seq<(DayKey, Summary)>)
    ensures |ws| == |gs| && forall i :: 0 <= i < |gs| ==> ws[i] == WriteOf(gs[i])
  {
    seq(|gs|, i requires 0 <= i < |gs| => WriteOf(gs[i]))
  }

  /** The upserts the loop issues, one per query row, in query order: each group's key and aggregate. */
  function SummaryWrites(rows: seq<WeatherRow>): (ws: seq<(DayKey, Summary)>)
    ensures |ws| == |Aggregates(rows)|
    ensures forall i :: 0 <= i < |ws| ==> ws[i] == WriteOf(Aggregates(rows)[i])
    ensures forall i :: 0 <= i < |ws| ==> ws[i] == (GroupKeys(rows)[i], Aggregate(GroupTemps(rows, GroupKeys(rows)[i])))
  {
    WritesOf(Aggregates(rows))
  }

  /** The summary table after `update_daily_summary` ran on `rows` over the table `m`. */
  function SummaryTable(m: map<DayKey, Summary>, rows: seq<WeatherRow>): map<DayKey, Summary> {
    Upserts(m, SummaryWrites(rows))
  }

  /** The loop over the query's rows: categorise each and upsert it into the summary table. */
  method UpsertGroups(db: Database, groups: seq<GroupStats>)
    modifies db`dailySummary
    ensures db.dailySummary == Upserts(old(db.dailySummary), WritesOf(groups))
  {
    ghost var writes := WritesOf(groups);
    for i := 0 to |groups|
      invariant db.dailySummary == Upserts(old(db.dailySummary), writes[..i])
    {
      var g := groups[i];
      var category;
      if g.avgTemp >= 30.0 {
        category := Hot;
      } else if g.avgTemp >= 20.0 {
        category := Warm;
      } else {
        category := Cool;
      }
      db.dailySummary := db.dailySummary[(g.city, g.date) := Summary(g.avgTemp, g.minTemp, g.maxTemp, category)];
      assert writes[..i + 1][..i] == writes[..i];
    }
    assert writes[..|groups|] == writes;
  }

  /** Runs the grouping query, then categorises and upserts each of its rows. */
  method UpdateDailySummary(db: Database)
    modifies db`dailySummary
    ensures db.dailySummary == SummaryTable(old(db.dailySummary), db.weather)
  {
    var groups := Aggregates(db.weather);
    UpsertGroups(db, groups);
  }

  /** The `j`-th upsert writes the `j`-th group's key and aggregate. */
  lemma {:induction false} SummaryWriteAt(rows: seq<WeatherRow>, j: nat)
    requires j < |GroupKeys(rows)|
    ensures |SummaryWrites(rows)| == |GroupKeys(rows)|
    ensures SummaryWrites(rows)[j] == (GroupKeys(rows)[j], Aggregate(GroupTemps(rows, GroupKeys(rows)[j])))
  {
  }

  /** The last upsert to `k` exists iff `k` is a group, and carries that group's aggregate. */
  lemma {:induction false} SummaryWriteFor(rows: seq<WeatherRow>, k: DayKey)
    ensures LastWrite(SummaryWrites(rows), k).Some? <==> k in GroupKeys(rows)
    ensures k in GroupKeys(rows) ==> LastWrite(SummaryWrites(rows), k).value == Aggregate(GroupTemps(rows, k))
  {
    var ws := SummaryWrites(rows);
    var ks := GroupKeys(rows);
    if LastWrite(ws, k).Some? {
      var j :| 0 <= j < |ws| && ws[j] == (k, LastWrite(ws, k).value);
      SummaryWriteAt(rows, j);
    }
    if k in ks {
      var j :| 0 <= j < |ks| && ks[j] == k;
      SummaryWriteAt(rows, j);
      forall i | j < i < |ws|
        ensures ws[i].0 != k
      {
        SummaryWriteAt(rows, i);
      }
      LastWriteAt(ws, k, j);
    }
  }

  /**
   * After the update, a key is present iff it was present before or some
   * `weather` row falls in that group; a group's entry is the aggregate of
   * exactly its rows; a key with no rows keeps its old entry.
   */
  lemma {:induction false} SummaryTableSpec(m: map<DayKey, Summary>, rows: seq<WeatherRow>, k: DayKey)
    ensures k in SummaryTable(m, rows) <==> k in m || exists i :: 0 <= i < |rows| && KeyOf(rows[i]) == k
    ensures (exists i :: 0 <= i < |rows| && KeyOf(rows[i]) == k) ==>
      SummaryTable(m, rows)[k] == Aggregate(GroupTemps(rows, k))
    ensures (forall i :: 0 <= i < |rows| ==> KeyOf(rows[i]) != k) && k in m ==> SummaryTable(m, rows)[k] == m[k]
  {
    UpsertsSpec(m, SummaryWrites(rows), k);
    SummaryWriteFor(rows, k);
  }

  /** Running the update twice over an unchanged `weather` table is running it once. */
  lemma {:induction false} UpdateIdempotent(m: map<DayKey, Summary>, rows: seq<WeatherRow>)
    ensures SummaryTable(SummaryTable(m, rows), rows) == SummaryTable(m, rows)
  {
    var once := SummaryTable(m, rows);
    var twice := SummaryTable(once, rows);
    forall k
      ensures k in twice <==> k in once
      ensures k in once ==> twice[k] == once[k]
    {
      SummaryTableSpec(m, rows, k);
      SummaryTableSpec(once, rows, k);
    }
  }

  /** A group's summary depends on that group's rows only: rows of other groups added later change nothing. */
  lemma {:induction false} GroupLocal(rows: seq<WeatherRow>, more: seq<WeatherRow>, k: DayKey)
    requires forall i :: 0 <= i < |more| ==> KeyOf(more[i]) != k
    ensures GroupTemps(rows + more, k) == GroupTemps(rows, k)
  {
    if more != [] {
      var n := |more| - 1;
      var all := rows + more;
      assert all[..|all| - 1] == rows + more[..n];
      assert all[|all| - 1] == more[n];
      GroupLocal(rows, more[..n], k);
      assert GroupTemps(all, k) == GroupTemps(all[..|all| - 1], k);
    } else {
      assert rows + more == rows;
    }
  }
}
