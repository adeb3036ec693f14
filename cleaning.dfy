/**
 * `cleaned_weather_pipeline.py`: cleaning a batch of raw records into the
 * `cleaned_weather` table, logging the run in `cleaning_log`, and the
 * hot/warm/cold report over the cleaned table.
 */
module CleanedPipeline {
  import opened Wrappers
  import opened Text
  import opened Store

  /** A raw record: a dictionary from field name to text. */
  type RawRecord = map<string, string>

  const MinTemp: real := -50.0
  const MaxTemp: real := 60.0

  /** `record.get(key, "")`: a missing field reads as the empty text. */
  function Field(r: RawRecord, key: string): (v: string)
    ensures key in r ==> v == r[key]
    ensures key !in r ==> v == ""
  {
    if key in r then r[key] else ""
  }

  /** What every row of `cleaned_weather` satisfies: trimmed, non-empty text and a temperature within bounds. */
  predicate IsObservation(row: CleanRow) {
    && row.city != [] && Strip(row.city) == row.city
    && row.condition != [] && Strip(row.condition) == row.condition
    && MinTemp <= row.temperature <= MaxTemp
  }

  /**
   * The decision made for one record: trim the three fields, parse the
   * temperature, and keep the record iff the parse succeeded, city and
   * condition are non-empty and the temperature lies in [-50, 60].
   */
  function Validate(r: RawRecord): (o: Option<CleanRow>)
    ensures o.Some? ==> IsObservation(o.value)
  {
    var city := Strip(Field(r, "city"));
    var condition := Strip(Field(r, "condition"));
    match ParseTemp(Strip(Field(r, "temperature")))
    case None => None
    case Some(temp) =>
      if city == [] || condition == [] || temp < MinTemp || temp > MaxTemp then None
      else
        StripIdempotent(Field(r, "city"));
        StripIdempotent(Field(r, "condition"));
        Some(CleanRow(city, temp, condition))
  }

  /** The rows that cleaning `data` inserts, in input order: all of them trimmed, non-empty and in bounds. */
  function CleanAll(data: seq<RawRecord>): (rows: seq<CleanRow>)
    ensures |rows| <= |data|
    ensures forall k :: 0 <= k < |rows| ==> IsObservation(rows[k])
  {
    var rows := FilterMap(Validate, data);
    assert forall k :: 0 <= k < |rows| ==> IsObservation(rows[k]) by {
      forall k | 0 <= k < |rows| ensures IsObservation(rows[k]) {
        FilterMapIn(Validate, data, rows[k]);
      }
    }
    rows
  }

  /** The number of records of `data` that cleaning rejects. */
  function SkipCount(data: seq<RawRecord>): nat {
    CountNone(Validate, data)
  }

  /** Every record is either cleaned or skipped: `cleaned + skipped == len(data)`, the empty batch included. */
  lemma {:induction false} CleanedPlusSkipped(data: seq<RawRecord>)
    ensures |CleanAll(data)| + SkipCount(data) == |data|
  {
    FilterMapCount(Validate, data);
  }

  /** Cleaning a concatenation cleans each part in turn: rows come out in input order. */
  lemma {:induction false} CleanAllAppend(a: seq<RawRecord>, b: seq<RawRecord>)
    ensures CleanAll(a + b) == CleanAll(a) + CleanAll(b)
    ensures SkipCount(a + b) == SkipCount(a) + SkipCount(b)
  {
    FilterMapAppend(Validate, a, b);
  }

  /** A row is stored iff some record of the batch validates to it. */
  lemma {:induction false} StoredIff(data: seq<RawRecord>, row: CleanRow)
    ensures row in CleanAll(data) <==> exists k :: 0 <= k < |data| && Validate(data[k]) == Some(row)
  {
    FilterMapIn(Validate, data, row);
  }

  /** The acceptance rule, both ways, with what is stored for an accepted record. */
  lemma {:induction false} AcceptedIff(r: RawRecord)
    ensures Validate(r).Some? <==>
      && Strip(Field(r, "city")) != []
      && Strip(Field(r, "condition")) != []
      && ParseTemp(Strip(Field(r, "temperature"))).Some?
      && MinTemp <= ParseTemp(Strip(Field(r, "temperature"))).value <= MaxTemp
    ensures Validate(r).Some? ==>
      Validate(r).value == CleanRow(Strip(Field(r, "city")), ParseTemp(Strip(Field(r, "temperature"))).value, Strip(Field(r, "condition")))
  {
  }

  /** A missing field defaults to the empty text, so the record is rejected rather than raising. */
  lemma {:induction false} MissingFieldRejected(r: RawRecord)
    requires "city" !in r || "temperature" !in r || "condition" !in r
    ensures Validate(r).None?
  {
    assert Strip("") == [];
    assert ParseTemp("").None? by {
      assert IndexOf("", '.') == 0;
    }
  }

  /** A record holding the three fields the cleaner reads. */
  function Raw(city: string, temperature: string, condition: string): RawRecord {
    map["city" := city, "temperature" := temperature, "condition" := condition]
  }

  lemma {:induction false} RawFields(city: string, temperature: string, condition: string)
    ensures Field(Raw(city, temperature, condition), "city") == city
    ensures Field(Raw(city, temperature, condition), "temperature") == temperature
    ensures Field(Raw(city, temperature, condition), "condition") == condition
  {
    assert "city" != "temperature" && "city" != "condition";
    assert "temperature" != "condition";
  }

  /**
   * For a record whose temperature is an integer numeral and whose city and
   * condition are not blank, the record is kept exactly when -50 <= t <= 60:
   * both bounds are accepted, one unit beyond either is not.
   */
  lemma {:induction false} IntegerTemperatureBounds(city: string, t: int, condition: string)
    requires Strip(city) != [] && Strip(condition) != []
    ensures Validate(Raw(city, IntText(t), condition)).Some? <==> -50 <= t <= 60
  {
    var text := IntText(t);
    RawFields(city, text, condition);
    NumeralStrip(t);
    ParseIntText(t);
  }

  /** An integer numeral has no blank to strip. */
  lemma {:induction false} NumeralStrip(t: int)
    ensures Strip(IntText(t)) == IntText(t)
  {
    var text := IntText(t);
    assert !IsSpace(text[0]) && !IsSpace(text[|text| - 1]) by {
      if t < 0 { assert text[|text| - 1] == NatText(-t)[|NatText(-t)| - 1]; }
      assert IsDigit(text[|text| - 1]);
    }
    StripPadded([], text, []);
    assert [] + text + [] == text;
  }

  /** The built-in batch of eight messy records. */
  function SampleData(): seq<RawRecord> {
    [ Raw("  Tokyo ", " 29.5 ", " Sunny "),
      Raw("Chennai", "N/A", "  Cloudy"),
      Raw("London", "15C", "Rainy "),
      Raw("", "25.3", "Clear"),
      Raw("Kolkata", " 42 ", ""),
      Raw("Delhi", "38.2", "Hazy"),
      Raw("Mumbai", "", "Humid"),
      Raw("Auckland", "17", "Windy") ]
  }

  /** Cleaning the sample keeps Tokyo, Delhi and Auckland, trimmed, and skips the other five: `(8, 3, 5)`. */
  lemma {:induction false} SampleOutcome(d: seq<RawRecord>)
    requires d == SampleData()
    ensures CleanAll(d) ==
      [CleanRow("Tokyo", 29.5, "Sunny"), CleanRow("Delhi", 38.2, "Hazy"), CleanRow("Auckland", 17.0, "Windy")]
    ensures |d| == 8 && SkipCount(d) == 5
  {
    assert d[0] == Raw("  Tokyo ", " 29.5 ", " Sunny ") && d[1] == Raw("Chennai", "N/A", "  Cloudy");
    assert d[2] == Raw("London", "15C", "Rainy ") && d[3] == Raw("", "25.3", "Clear");
    assert d[4] == Raw("Kolkata", " 42 ", "") && d[5] == Raw("Delhi", "38.2", "Hazy");
    assert d[6] == Raw("Mumbai", "", "Humid") && d[7] == Raw("Auckland", "17", "Windy");
    SampleTokyo(d[0]);
    SampleChennai();
    SampleLondon();
    SampleBlankCity();
    SampleKolkata();
    SampleDelhi(d[5]);
    SampleMumbai();
    SampleAuckland(d[7]);
    KeepFirstSixthEighth(Validate, d,
      CleanRow("Tokyo", 29.5, "Sunny"), CleanRow("Delhi", 38.2, "Hazy"), CleanRow("Auckland", 17.0, "Windy"));
  }

  /** Filtering eight elements of which only the first, sixth and eighth are kept. */
  lemma {:induction false} KeepFirstSixthEighth<A, B>(f: A -> Option<B>, d: seq<A>, x: B, y: B, z: B)
    requires |d| == 8 && f(d[0]) == Some(x) && f(d[5]) == Some(y) && f(d[7]) == Some(z)
    requires f(d[1]).None? && f(d[2]).None? && f(d[3]).None? && f(d[4]).None? && f(d[6]).None?
    ensures FilterMap(f, d) == [x, y, z] && CountNone(f, d) == 5
  {
    FilterMapPrefix(f, d, 0);
    assert d[..0] == [];
    FilterMapPrefix(f, d, 1);
    FilterMapPrefix(f, d, 2);
    FilterMapPrefix(f, d, 3);
    FilterMapPrefix(f, d, 4);
    FilterMapPrefix(f, d, 5);
    FilterMapPrefix(f, d, 6);
    FilterMapPrefix(f, d, 7);
    assert d[..8] == d;
  }

  /** A record whose trimmed fields pass every check is stored as its trimmed fields and parsed temperature. */
  lemma {:induction false} AcceptedFields(r: RawRecord, city: string, temp: real, condition: string)
    requires Strip(Field(r, "city")) == city && city != []
    requires Strip(Field(r, "condition")) == condition && condition != []
    requires ParseTemp(Strip(Field(r, "temperature"))) == Some(temp) && MinTemp <= temp <= MaxTemp
    ensures Validate(r) == Some(CleanRow(city, temp, condition))
  {
  }

  /** A record whose city or condition is empty is rejected. */
  lemma {:induction false} EmptyFieldRejected(r: RawRecord)
    requires Field(r, "city") == [] || Field(r, "condition") == []
    ensures Validate(r).None?
  {
    assert Strip([]) == [];
  }

  /** A record whose temperature is, up to padding, text that does not parse is rejected. */
  lemma {:induction false} UnparsableRejected(r: RawRecord, pre: string, temp: string, post: string)
    requires AllSpace(pre) && AllSpace(post) && Field(r, "temperature") == pre + temp + post
    requires temp == [] || (!IsSpace(temp[0]) && !IsSpace(temp[|temp| - 1]))
    requires ParseTemp(temp).None?
    ensures Validate(r).None?
  {
    StripPadded(pre, temp, post);
  }

  lemma {:induction false} Parse295()
    ensures ParseTemp("29.5") == Some(29.5)
  {
    ParseDecimal("29", "5");
    assert "29" + "." + "5" == "29.5";
    assert DigitsValue("29") == 29 by { assert "29"[..1] == "2"; }
    assert FracValue("5") == 0.5 by { assert "5"[1..] == ""; }
  }

  lemma {:induction false} Parse382()
    ensures ParseTemp("38.2") == Some(38.2)
  {
    ParseDecimal("38", "2");
    assert "38" + "." + "2" == "38.2";
    assert DigitsValue("38") == 38 by { assert "38"[..1] == "3"; }
    assert FracValue("2") == 0.2 by { assert "2"[1..] == ""; }
  }

  lemma {:induction false} Parse17()
    ensures ParseTemp("17") == Some(17.0)
  {
    ParseDigits("17");
    assert DigitsValue("17") == 17 by { assert "17"[..1] == "1"; }
  }

  /** Neither "N/A" nor "15C" nor the empty text is a number. */
  lemma {:induction false} NotNumbers()
    ensures ParseTemp("N/A").None? && ParseTemp("15C").None? && ParseTemp("").None?
  {
    IndexOfAt("N/A", '.', 3);
    assert !IsDigit("N/A"[0]);
    IndexOfAt("15C", '.', 3);
    assert !IsDigit("15C"[2]);
    IndexOfAt("", '.', 0);
  }

  /** Stripping Tokyo's padded fields, one at a time. */
  lemma {:induction false} TokyoCityTrimmed()
    ensures Strip("  Tokyo ") == "Tokyo"
  {
  }

  lemma {:induction false} TokyoTempTrimmed()
    ensures Strip(" 29.5 ") == "29.5"
  {
  }

  lemma {:induction false} TokyoConditionTrimmed()
    ensures Strip(" Sunny ") == "Sunny"
  {
  }

  lemma {:induction false} SampleTokyo(r: RawRecord)
    requires r == Raw("  Tokyo ", " 29.5 ", " Sunny ")
    ensures Validate(r) == Some(CleanRow("Tokyo", 29.5, "Sunny"))
  {
    RawFields("  Tokyo ", " 29.5 ", " Sunny ");
    Parse295();
    TokyoCityTrimmed();
    TokyoTempTrimmed();
    TokyoConditionTrimmed();
    AcceptedFields(r, "Tokyo", 29.5, "Sunny");
  }

  /** The fields of Delhi's record have no blank to strip. */
  lemma {:induction false} DelhiTrimmed()
    ensures Strip("Delhi") == "Delhi" && Strip("38.2") == "38.2" && Strip("Hazy") == "Hazy"
  {
  }

  lemma {:induction false} SampleDelhi(r: RawRecord)
    requires r == Raw("Delhi", "38.2", "Hazy")
    ensures Validate(r) == Some(CleanRow("Delhi", 38.2, "Hazy"))
  {
    RawFields("Delhi", "38.2", "Hazy");
    Parse382();
    DelhiTrimmed();
    AcceptedFields(r, "Delhi", 38.2, "Hazy");
  }

  /** The fields of Auckland's record have no blank to strip. */
  lemma {:induction false} AucklandTrimmed()
    ensures Strip("Auckland") == "Auckland" && Strip("17") == "17" && Strip("Windy") == "Windy"
  {
  }

  lemma {:induction false} SampleAuckland(r: RawRecord)
    requires r == Raw("Auckland", "17", "Windy")
    ensures Validate(r) == Some(CleanRow("Auckland", 17.0, "Windy"))
  {
    RawFields("Auckland", "17", "Windy");
    Parse17();
    AucklandTrimmed();
    AcceptedFields(r, "Auckland", 17.0, "Windy");
  }

  /** Chennai's "N/A" is not a number. */
  lemma {:induction false} SampleChennai()
    ensures Validate(Raw("Chennai", "N/A", "  Cloudy")).None?
  {
    NotNumbers();
    RawFields("Chennai", "N/A", "  Cloudy");
    UnparsableRejected(Raw("Chennai", "N/A", "  Cloudy"), "", "N/A", "");
  }

  /** London's "15C" is not a number. */
  lemma {:induction false} SampleLondon()
    ensures Validate(Raw("London", "15C", "Rainy ")).None?
  {
    NotNumbers();
    RawFields("London", "15C", "Rainy ");
    UnparsableRejected(Raw("London", "15C", "Rainy "), "", "15C", "");
  }

  /** A record with an empty city is rejected, whatever its temperature. */
  lemma {:induction false} SampleBlankCity()
    ensures Validate(Raw("", "25.3", "Clear")).None?
  {
    RawFields("", "25.3", "Clear");
    EmptyFieldRejected(Raw("", "25.3", "Clear"));
  }

  /** Kolkata's empty condition is rejected. */
  lemma {:induction false} SampleKolkata()
    ensures Validate(Raw("Kolkata", " 42 ", "")).None?
  {
    RawFields("Kolkata", " 42 ", "");
    EmptyFieldRejected(Raw("Kolkata", " 42 ", ""));
  }

  /** Mumbai's empty temperature is not a number. */
  lemma {:induction false} SampleMumbai()
    ensures Validate(Raw("Mumbai", "", "Humid")).None?
  {
    NotNumbers();
    RawFields("Mumbai", "", "Humid");
    UnparsableRejected(Raw("Mumbai", "", "Humid"), "", "", "");
  }

  /**
   * The cleaning loop, whatever the per-record decision `clean`: each
   * record in turn either adds its row to `cleaned_weather` and one to
   * `cleaned`, or adds one to `skipped`.
   */
  method StoreEach(db: Database, data: seq<RawRecord>, clean: RawRecord -> Option<CleanRow>) returns (cleaned: nat, skipped: nat)
    modifies db`cleanedWeather
    ensures db.cleanedWeather == old(db.cleanedWeather) + FilterMap(clean, data)
    ensures cleaned == |FilterMap(clean, data)| && skipped == CountNone(clean, data)
  {
    skipped, cleaned := 0, 0;
    for i := 0 to |data|
      invariant db.cleanedWeather == old(db.cleanedWeather) + FilterMap(clean, data[..i])
      invariant cleaned == |FilterMap(clean, data[..i])| && skipped == CountNone(clean, data[..i])
    {
      FilterMapPrefix(clean, data, i);
      var row := clean(data[i]);
      if row.None? {
        skipped := skipped + 1;
      } else {
        db.cleanedWeather := db.cleanedWeather + [row.value];
        cleaned := cleaned + 1;
      }
    }
    assert data[..|data|] == data;
  }

  /**
   * `clean_and_store`: validate each record in turn, insert the accepted
   * ones into `cleaned_weather`, and return `(len(data), cleaned, skipped)`.
   * The decision for one record is `Validate`.
   */
  method CleanAndStore(db: Database, data: seq<RawRecord>) returns (total: nat, cleaned: nat, skipped: nat)
    modifies db`cleanedWeather
    ensures db.cleanedWeather == old(db.cleanedWeather) + CleanAll(data)
    ensures total == |data| && cleaned == |CleanAll(data)| && skipped == SkipCount(data)
    ensures cleaned + skipped == total
  {
    cleaned, skipped := StoreEach(db, data, Validate);
    CleanedPlusSkipped(data);
    total := |data|;
  }

  /** Run ids strictly increase along the log. */
  predicate RunIdsIncreasing(log: seq<LogRow>) {
    forall i, j :: 0 <= i < j < |log| ==> log[i].runId < log[j].runId
  }

  /** The id `AUTOINCREMENT` assigns next: one more than the largest id so far, and 1 on an empty log. */
  function NextRunId(log: seq<LogRow>): (id: int)
    ensures 1 <= id
    ensures forall i :: 0 <= i < |log| ==> log[i].runId < id
  {
    if log == [] then 1
    else
      var before := NextRunId(log[..|log| - 1]);
      assert forall i :: 0 <= i < |log| - 1 ==> log[..|log| - 1][i] == log[i];
      var last := log[|log| - 1].runId;
      if before <= last then last + 1 else before
  }

  /** `log_cleaning_run`: append one audit row with a fresh id and the given counts. */
  method LogCleaningRun(db: Database, timestamp: string, total: int, cleaned: int, skipped: int)
    modifies db`cleaningLog
    ensures db.cleaningLog == old(db.cleaningLog) + [LogRow(NextRunId(old(db.cleaningLog)), timestamp, total, cleaned, skipped)]
    ensures RunIdsIncreasing(old(db.cleaningLog)) ==> RunIdsIncreasing(db.cleaningLog)
  {
    var id := NextRunId(db.cleaningLog);
    db.cleaningLog := db.cleaningLog + [LogRow(id, timestamp, total, cleaned, skipped)];
  }

  /** The report's temperature bands. */
  datatype Band = HotBand | WarmBand | ColdBand

  /** `temp >= 30` is hot, `20 <= temp < 30` warm, anything lower cold. */
  function BandOf(t: real): (b: Band)
    ensures b == HotBand <==> 30.0 <= t
    ensures b == WarmBand <==> 20.0 <= t < 30.0
    ensures b == ColdBand <==> t < 20.0
  {
    if t >= 30.0 then HotBand else if t >= 20.0 then WarmBand else ColdBand
  }

  /** The number of rows in band `b`. */
  function CountBand(rows: seq<CleanRow>, b: Band): nat {
    if rows == [] then 0
    else CountBand(rows[..|rows| - 1], b) + (if BandOf(rows[|rows| - 1].temperature) == b then 1 else 0)
  }

  lemma {:induction false} CountBandAppend(a: seq<CleanRow>, c: seq<CleanRow>, b: Band)
    ensures CountBand(a + c, b) == CountBand(a, b) + CountBand(c, b)
  {
    if c != [] {
      assert (a + c)[..|a + c| - 1] == a + c[..|c| - 1];
      CountBandAppend(a, c[..|c| - 1], b);
    } else {
      assert a + c == a;
    }
  }

  /** Every row falls in exactly one band: hot + warm + cold == number of rows. */
  lemma {:induction false} BandsPartition(rows: seq<CleanRow>)
    ensures CountBand(rows, HotBand) + CountBand(rows, WarmBand) + CountBand(rows, ColdBand) == |rows|
  {
    if rows != [] {
      BandsPartition(rows[..|rows| - 1]);
    }
  }

  /** Taking row `j` out of `c` takes its band's count down by one and leaves the others. */
  lemma {:induction false} CountBandRemove(c: seq<CleanRow>, j: nat, b: Band)
    requires j < |c|
    ensures CountBand(c, b) == CountBand(c[..j] + c[j + 1..], b) + (if BandOf(c[j].temperature) == b then 1 else 0)
  {
    assert c == c[..j] + [c[j]] + c[j + 1..];
    CountBandAppend(c[..j] + [c[j]], c[j + 1..], b);
    CountBandAppend(c[..j], [c[j]], b);
    CountBandAppend(c[..j], c[j + 1..], b);
    assert [c[j]][..0] == [];
  }

  lemma {:induction false} MultisetRemove(c: seq<CleanRow>, j: nat)
    requires j < |c|
    ensures multiset(c[..j] + c[j + 1..]) == multiset(c) - multiset{c[j]}
  {
    assert c == c[..j] + [c[j]] + c[j + 1..];
  }

  /** Band counts do not depend on the order of the rows. */
  lemma {:induction false} CountBandPermutation(a: seq<CleanRow>, c: seq<CleanRow>, b: Band)
    requires multiset(a) == multiset(c)
    ensures CountBand(a, b) == CountBand(c, b)
  {
    if a == [] {
      assert |c| == |multiset(c)| == 0;
    } else {
      var n := |a| - 1;
      var x := a[n];
      assert a == a[..n] + [x];
      assert multiset(a[..n]) == multiset(a) - multiset{x};
      assert x in multiset(c);
      var j :| 0 <= j < |c| && c[j] == x;
      MultisetRemove(c, j);
      CountBandPermutation(a[..n], c[..j] + c[j + 1..], b);
      CountBandRemove(c, j, b);
    }
  }

  /** Temperatures never increase along `s`. */
  predicate SortedDesc(s: seq<CleanRow>) {
    forall i, j :: 0 <= i < j < |s| ==> s[i].temperature >= s[j].temperature
  }

  function InsertDesc(x: CleanRow, s: seq<CleanRow>): (r: seq<CleanRow>)
    requires SortedDesc(s)
    ensures |r| == |s| + 1 && SortedDesc(r)
    ensures multiset(r) == multiset(s) + multiset{x}
    ensures r[0] == x || (s != [] && r[0] == s[0])
  {
    if s == [] || x.temperature >= s[0].temperature then [x] + s
    else
      assert s == [s[0]] + s[1..];
      [s[0]] + InsertDesc(x, s[1..])
  }

  /** `ORDER BY temperature DESC`: the rows, reordered from hottest to coldest. */
  function OrderByTemperatureDesc(rows: seq<CleanRow>): (r: seq<CleanRow>)
    ensures SortedDesc(r)
    ensures multiset(r) == multiset(rows)
  {
    if rows == [] then []
    else
      assert rows == [rows[0]] + rows[1..];
      InsertDesc(rows[0], OrderByTemperatureDesc(rows[1..]))
  }

  /** What `generate_weather_report` finds: nothing, or the band counts and the two extremes. */
  datatype WeatherReport =
    | NoData
    | Report(hotCities: nat, warmCities: nat, coldCities: nat, hottest: CleanRow, coldest: CleanRow)

  /** The report's counting loop: one pass over the rows, adding each to the count of its band. */
  method CountBands(rows: seq<CleanRow>) returns (hot: nat, warm: nat, cold: nat)
    ensures hot == CountBand(rows, HotBand) && warm == CountBand(rows, WarmBand) && cold == CountBand(rows, ColdBand)
  {
    hot, warm, cold := 0, 0, 0;
    for i := 0 to |rows|
      invariant hot == CountBand(rows[..i], HotBand)
      invariant warm == CountBand(rows[..i], WarmBand)
      invariant cold == CountBand(rows[..i], ColdBand)
    {
      assert rows[..i + 1][..i] == rows[..i];
      var temp := rows[i].temperature;
      if temp >= 30.0 {
        hot := hot + 1;
      } else if temp >= 20.0 {
        warm := warm + 1;
      } else {
        cold := cold + 1;
      }
    }
    assert rows[..|rows|] == rows;
  }

  /**
   * `generate_weather_report`: read the table hottest first, count the rows
   * per band, and take the first row as the hottest and the last as the
   * coldest. An empty table gives the "no data" report.
   */
  method GenerateWeatherReport(db: Database) returns (report: WeatherReport)
    ensures report.NoData? <==> db.cleanedWeather == []
    ensures report.Report? ==>
      && report.hotCities == CountBand(db.cleanedWeather, HotBand)
      && report.warmCities == CountBand(db.cleanedWeather, WarmBand)
      && report.coldCities == CountBand(db.cleanedWeather, ColdBand)
      && report.hotCities + report.warmCities + report.coldCities == |db.cleanedWeather|
    ensures report.Report? ==>
      && report.hottest in db.cleanedWeather && report.coldest in db.cleanedWeather
      && forall r :: r in db.cleanedWeather ==> report.coldest.temperature <= r.temperature <= report.hottest.temperature
  {
    var data := OrderByTemperatureDesc(db.cleanedWeather);
    if data == [] {
      return NoData;
    }
    var hot, warm, cold := CountBands(data);
    CountBandPermutation(data, db.cleanedWeather, HotBand);
    CountBandPermutation(data, db.cleanedWeather, WarmBand);
    CountBandPermutation(data, db.cleanedWeather, ColdBand);
    BandsPartition(db.cleanedWeather);
    SortedExtremes(data, db.cleanedWeather);
    report := Report(hot, warm, cold, data[0], data[|data| - 1]);
  }

  /** The first and last rows of a hottest-first ordering of `rows` are its hottest and coldest rows. */
  lemma {:induction false} SortedExtremes(data: seq<CleanRow>, rows: seq<CleanRow>)
    requires SortedDesc(data) && multiset(data) == multiset(rows) && data != []
    ensures data[0] in rows && data[|data| - 1] in rows
    ensures forall r :: r in rows ==> data[|data| - 1].temperature <= r.temperature <= data[0].temperature
  {
    assert data[0] in multiset(data) && data[|data| - 1] in multiset(data);
    forall r | r in rows
      ensures data[|data| - 1].temperature <= r.temperature <= data[0].temperature
    {
      assert r in multiset(data);
      var k :| 0 <= k < |data| && data[k] == r;
    }
  }
}
