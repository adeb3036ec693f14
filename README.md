# Weather pipeline — a verified model

This project models the decision logic of a small weather-ingestion
repository written in Python. The repository has three scripts that share
one SQLite file, `weather.db`:

- `cleaned_weather_pipeline.py` cleans a batch of messy raw records into
  `cleaned_weather`. Each record's fields are trimmed, the temperature is
  parsed, and the record is kept iff city and condition are non-empty and
  -50 <= temperature <= 60. The script then appends one audit row to
  `cleaning_log` and prints a hot/warm/cold report with the hottest and
  coldest row.
- `Refined_pipeline.py` runs a per-city ingestion job. It validates each
  fetched reading and keeps only readings above 20 degrees. It appends each
  kept reading to `weather` and upserts the city's `last_updated` stamp. It
  counts the readings that fail validation and catches every error per
  city. It commits once, after the loop. The same script recomputes a daily
  summary (average, minimum, maximum and a Hot/Warm/Cool category per city
  and day) and exports `weather` to CSV with a category column.
- `first_pipeline.py` is the earlier ingestion job. It does no validation
  and applies no filter. Each city's insert and upsert are committed before
  the next city. Its CSV export writes the header and the rows unchanged.

The database is one `class Database` (`store.dfy`) with one field per
table. Append-only tables are sequences. Tables with a primary key
(`last_updated`, `daily_summary_new`) are maps from that key, so an upsert
is a map update. Each script's operations that change tables are
`method`s. Each is proved against a specification function: `CleanAll`,
the `Run` folds of the two jobs, and `SummaryTable`. The properties the
scripts promise are lemmas about those functions.

Each city's fetch is an input value. A fetch is a transport error, a
malformed response, or a reading with a condition, a temperature, the
timestamp taken, and whether the response carries a humidity field. Which
database statement fails, if any, is an input too. From these the model
decides:

- which rows and stamps each job stores;
- which handler ends each iteration;
- what the skip counter counts.

Decisions taken where the code leaves room:

- **Statement failures.** In the refined job a failing upsert after a
  successful insert keeps the inserted row. SQLite undoes only the failing
  statement, and the transaction is committed after the loop. In the first
  job a failing statement skips that city's commit. Its uncommitted work is
  discarded when the connection object is replaced at the next city's
  connect, before any of that city's statements.
- **Missing humidity.** The humidity field is read only after both writes
  (and, in the first job, after the commit). A response without it
  therefore stores its rows, although the handler that runs is the
  "unexpected error" one.
- **Summary row order.** `GROUP BY` returns groups in an unspecified order.
  The model takes first-appearance order. The resulting table does not
  depend on that choice, because the keys are distinct (`SummaryTableSpec`).
- **Report ties.** `ORDER BY temperature DESC` leaves tied rows in an
  unspecified order. The report's contract therefore states the extremal
  properties of the hottest and coldest rows.
- **Run ids.** `AUTOINCREMENT` is modelled as one more than the largest
  id so far. Nothing here deletes log rows.

The refined export labels every row below 30 degrees "Warm", including
rows at or below 20. The refined job never stores such rows, but the
first job, which shares the `weather` table, does. `ExportCategoryAgrees`
shows that the export's label agrees with the summary's `CategoryOf`
exactly from 20 degrees up. The model keeps the export as written.

## Model

| member | source | states |
|---|---|---|
| Text.Strip | cleaned_weather_pipeline.py:32-34 | `strip()` never lengthens the text and leaves no whitespace at either end |
| Text.StripEmptyIff | cleaned_weather_pipeline.py:32-34 | a field strips to empty exactly when it is all whitespace, the empty text included |
| Text.StripInfix | cleaned_weather_pipeline.py:32-34 | what `strip()` keeps is a slice of the field between a blank prefix and a blank suffix |
| Text.StripPadded | cleaned_weather_pipeline.py:32-34 | surrounding text with whitespace and stripping it gives the text back |
| Text.StripIdempotent | cleaned_weather_pipeline.py:32-34 | stripping a stripped field changes nothing, so stored fields are already trimmed |
| Text.ParseTemp | cleaned_weather_pipeline.py:36-37 | `float()` of empty text fails, and a parsed value has the sign its leading `-` gives it: at most 0 with the minus, at least 0 without |
| Text.ParseDecimal | cleaned_weather_pipeline.py:36-37 | `float()` of a numeral `whole.frac` is the whole part plus the decimal fraction |
| Text.ParseDigits | cleaned_weather_pipeline.py:36-37 | `float()` of a digit string is the number it writes |
| Text.ParseIntText | cleaned_weather_pipeline.py:36-37 | `float(str(n))` is `n` for every integer `n`, negative ones included |
| CleanedPipeline.Field | cleaned_weather_pipeline.py:32-34 | `record.get(key, "")` is the stored value when the key is present and `""` otherwise |
| CleanedPipeline.Validate | cleaned_weather_pipeline.py:32-44 | an accepted record yields a row with trimmed, non-empty city and condition and a temperature in [-50, 60] |
| CleanedPipeline.AcceptedIff | cleaned_weather_pipeline.py:32-44 | a record is accepted iff its trimmed city and condition are non-empty, its trimmed temperature parses, and the value lies in [-50, 60]; the stored row is the trimmed fields and the parsed value |
| CleanedPipeline.MissingFieldRejected | cleaned_weather_pipeline.py:32-34 | a missing key reads as `""`, so the record is rejected rather than raising |
| CleanedPipeline.EmptyFieldRejected | cleaned_weather_pipeline.py:42-44 | an empty city or condition rejects the record whatever its temperature |
| CleanedPipeline.UnparsableRejected | cleaned_weather_pipeline.py:36-40 | a temperature that is not a number after trimming rejects the record |
| CleanedPipeline.IntegerTemperatureBounds | cleaned_weather_pipeline.py:42 | with a non-blank city and condition, an integer temperature `t` is accepted iff -50 <= t <= 60: both bounds are accepted and one beyond either is not |
| CleanedPipeline.CleanAll | cleaned_weather_pipeline.py:31-49 | the rows one batch produces number at most the records, and each is trimmed, non-empty and in bounds |
| CleanedPipeline.CleanedPlusSkipped | cleaned_weather_pipeline.py:28-57 | `cleaned + skipped == len(data)` for every batch, the empty one included |
| CleanedPipeline.CleanAllAppend | cleaned_weather_pipeline.py:31-49 | rows come out in input order: cleaning `a + b` is cleaning `a` then `b`, and the skip counts add |
| CleanedPipeline.StoredIff | cleaned_weather_pipeline.py:42-49 | a row is stored iff some record of the batch validates to it |
| CleanedPipeline.StoreEach | cleaned_weather_pipeline.py:31-49 | the loop appends the accepted rows in input order and its counters equal the numbers accepted and rejected |
| CleanedPipeline.CleanAndStore | cleaned_weather_pipeline.py:16-57 | `cleaned_weather` gains exactly the cleaned rows of the batch, and the result is `(len(data), cleaned, skipped)` with `cleaned + skipped == len(data)` |
| CleanedPipeline.SampleOutcome | cleaned_weather_pipeline.py:4-14 | the built-in batch stores exactly Tokyo 29.5 Sunny, Delhi 38.2 Hazy and Auckland 17 Windy, in that order, and returns `(8, 3, 5)` |
| CleanedPipeline.SampleTokyo | cleaned_weather_pipeline.py:6 | Tokyo's padded fields are trimmed and kept |
| CleanedPipeline.SampleChennai | cleaned_weather_pipeline.py:7 | "N/A" does not parse, so Chennai is skipped |
| CleanedPipeline.SampleLondon | cleaned_weather_pipeline.py:8 | "15C" does not parse, so London is skipped |
| CleanedPipeline.SampleBlankCity | cleaned_weather_pipeline.py:9 | the record with an empty city is skipped |
| CleanedPipeline.SampleKolkata | cleaned_weather_pipeline.py:10 | Kolkata's empty condition makes it skipped |
| CleanedPipeline.SampleDelhi | cleaned_weather_pipeline.py:11 | Delhi is kept as given |
| CleanedPipeline.SampleMumbai | cleaned_weather_pipeline.py:12 | Mumbai's empty temperature does not parse, so it is skipped |
| CleanedPipeline.SampleAuckland | cleaned_weather_pipeline.py:13 | Auckland is kept, its "17" read as 17.0 |
| CleanedPipeline.NextRunId | cleaned_weather_pipeline.py:65 | the next run id is at least 1 and greater than every id already in the log |
| CleanedPipeline.LogCleaningRun | cleaned_weather_pipeline.py:73-76 | the log gains exactly one row, carrying a fresh id and the given counts, with earlier rows untouched; increasing ids stay increasing |
| CleanedPipeline.BandOf | cleaned_weather_pipeline.py:98-108 | temp >= 30 is hot, 20 <= temp < 30 warm, anything lower cold, each both ways |
| CleanedPipeline.BandsPartition | cleaned_weather_pipeline.py:94-108 | hot + warm + cold equals the number of rows |
| CleanedPipeline.CountBandPermutation | cleaned_weather_pipeline.py:85-108 | band counts do not depend on row order, so counting the sorted rows counts the table |
| CleanedPipeline.OrderByTemperatureDesc | cleaned_weather_pipeline.py:85 | the query result is a permutation of the table with temperatures non-increasing |
| CleanedPipeline.CountBands | cleaned_weather_pipeline.py:94-108 | the counting loop's three counters are the numbers of rows in each band |
| CleanedPipeline.GenerateWeatherReport | cleaned_weather_pipeline.py:81-114 | "no data" iff the table is empty; otherwise the band counts of the table, summing to its size, and a hottest and a coldest row from the table that bound every row's temperature |
| CleanedPipeline.SortedExtremes | cleaned_weather_pipeline.py:110-114 | the first and last rows of a hottest-first ordering are rows of the table with its greatest and least temperature |
| Ingestion.RowOf | Refined_pipeline.py:97-100 | the inserted row carries the city, the timestamp, the condition and the temperature as fetched |
| Ingestion.LatestFresh | Refined_pipeline.py:103-107 | there is no latest freshness value for a city iff no upsert names it |
| Ingestion.LatestFreshAt | Refined_pipeline.py:103-107 | the latest freshness value is the one of the last upsert that names the city |
| Ingestion.FreshnessAfterRuns | Refined_pipeline.py:103-107 | after a job's upserts a city has a stamp iff it had one or was written; a written city holds its last written stamp and any other keeps its old one |
| Store.UpsertsSpec | Refined_pipeline.py:103-107 | after a series of `ON CONFLICT DO UPDATE` inserts, a key is present iff it was present or written; a written key holds the value of its last write, the one no later write to that key follows, and any other key keeps its old one |
| Store.Upserts | Refined_pipeline.py:103-107 | a series of `ON CONFLICT DO UPDATE` inserts never removes a key, and the final write is in place afterwards |
| Store.LastWriteAt | Refined_pipeline.py:103-107 | the last write to a key is the write to it that no later write to the same key follows |
| Store.UpsertsKeys | Refined_pipeline.py:103-107 | the keys after the upserts are the old keys plus the written ones, so no key is ever duplicated |
| Store.UpsertsAppend | Refined_pipeline.py:103-107 | two series of upserts in turn are the upserts of both in order |
| RefinedPipeline.ValidIff | Refined_pipeline.py:90 | a reading is valid iff the city and the condition are not all whitespace and the temperature lies in [-50, 60] |
| RefinedPipeline.Outcome | Refined_pipeline.py:90-125 | the handler that ends an iteration: a request error iff the fetch failed; "invalid" iff a fetched reading fails validation; "filtered" iff it is valid but at most 20; a DB error iff it is kept and a statement fails; "saved" iff both writes succeed and humidity is present; "unexpected" for a malformed response or a missing humidity field |
| RefinedPipeline.WeatherWrite | Refined_pipeline.py:90-100 | a row is inserted only for a fetched reading, and it is warm (above 20) and at most 60 |
| RefinedPipeline.FreshnessWrite | Refined_pipeline.py:95-107 | a stamp is upserted only for a fetched city whose row was inserted, and it is that city's timestamp |
| RefinedPipeline.SkippedCity | Refined_pipeline.py:90-93 | a city is counted as skipped iff its reading was fetched and failed validation; cool readings and errors are not counted |
| RefinedPipeline.OutcomeEffects | Refined_pipeline.py:95-125 | how the handler relates to what was stored: "saved" stores both writes; invalid, filtered and request errors store nothing; a DB error keeps the row iff only the upsert failed; a missing humidity field keeps both writes |
| RefinedPipeline.RunSpec | Refined_pipeline.py:76-130 | after the loop `weather` has gained the accepted rows in city-list order, `last_updated` has received one upsert per fully stored city in order, and the counter has grown by the number of invalid readings |
| RefinedPipeline.ProcessCity | Refined_pipeline.py:79-125 | one iteration's validity test, warm filter, insert and upsert change the tables and the counter as one step of the run and end in the handler `Outcome` names |
| RefinedPipeline.Job | Refined_pipeline.py:53-131 | every city of the list is processed in order whatever happened before, and the tables and skip count end as `RunSpec` describes |
| RefinedPipeline.AppendedIff | Refined_pipeline.py:90-100 | a row is appended iff some city's reading was fetched, valid, above 20 and its insert succeeded; the row is that reading |
| RefinedPipeline.AppendedRowsWarm | Refined_pipeline.py:90-100 | every appended row is above 20 and at most 60, with a non-blank city and condition |
| RefinedPipeline.CitiesDistinct | Refined_pipeline.py:54 | the job's city list names no city twice |
| RefinedPipeline.FreshnessAfterJob | Refined_pipeline.py:103-107 | after a run each fully stored city's stamp is this run's timestamp for it; every other city keeps its stamp or its absence |
| RefinedPipeline.FreshnessKeys | Refined_pipeline.py:103-107 | the key set of `last_updated` grows by at most the accepted cities |
| RefinedPipeline.FailureIsolated | Refined_pipeline.py:78-125 | a city that stores nothing leaves the rows and stamps of the other cities as if it were absent from the list, and adds at most its own skip |
| RefinedPipeline.SkippedAndStoredDisjoint | Refined_pipeline.py:90-100 | no city is both skipped and stored: the two counts together never exceed the cities processed |
| RefinedPipeline.ExportCategory | Refined_pipeline.py:38 | the export labels a row Hot iff its temperature is at least 30, and never Cool |
| RefinedPipeline.ExportCategoryAgrees | Refined_pipeline.py:38 | the export's label equals the daily summary's category of the same temperature iff the temperature is at least 20 |
| RefinedPipeline.ExportLine | Refined_pipeline.py:36-39 | a record line holds the row's four columns unchanged and then its category |
| RefinedPipeline.ExportWeatherToCsv | Refined_pipeline.py:24-39 | the file is the header and then one line per `weather` row in table order; dropping the category reads the table back |
| DailySummary.GroupTemps | Refined_pipeline.py:152-156 | a group's temperatures come from rows of that city and day, and the group is non-empty iff some row falls in it |
| DailySummary.GroupTempsCount | Refined_pipeline.py:152-156 | each temperature occurs in a group's list exactly as many times as rows of that city and day carry it, so every row of the group is aggregated once |
| DailySummary.GroupKeys | Refined_pipeline.py:152-156 | the groups are distinct, are exactly the (city, day) keys of the rows, and each has rows |
| DailySummary.DayPrefix | Refined_pipeline.py:153 | `DATE(date)` is the first ten characters of the stamp, or the whole stamp when it is shorter |
| DailySummary.Min | Refined_pipeline.py:153 | `MIN(temp)` is a temperature of the group no greater than any other |
| DailySummary.Max | Refined_pipeline.py:153 | `MAX(temp)` is a temperature of the group no less than any other |
| DailySummary.CategoryOf | Refined_pipeline.py:163-168 | Hot iff avg >= 30, Warm iff 20 <= avg < 30, Cool iff avg < 20 |
| DailySummary.Aggregate | Refined_pipeline.py:153-168 | the average times the count is the sum; min and max are members bounding every temperature; min <= avg <= max; the category is that of the average |
| DailySummary.Aggregates | Refined_pipeline.py:152-158 | the query returns one row per group, holding that group's average, minimum and maximum |
| DailySummary.SummaryWrites | Refined_pipeline.py:160-179 | the loop issues one upsert per group, of the group's key and aggregate |
| DailySummary.UpsertGroups | Refined_pipeline.py:160-179 | the loop over the query's rows leaves the summary table as the old table upserted with each row's key and aggregate, in order |
| DailySummary.UpdateDailySummary | Refined_pipeline.py:133-181 | the summary table becomes the old table upserted with every group's aggregate |
| DailySummary.SummaryWriteFor | Refined_pipeline.py:160-179 | a key receives an upsert iff it is a group, and the last one carries that group's aggregate |
| DailySummary.SummaryTableSpec | Refined_pipeline.py:171-179 | after the update a key is present iff it was before or some row falls in its group; a group's entry is the aggregate of exactly its rows, each row's temperature counted once (`GroupTempsCount`); any other key is untouched |
| DailySummary.UpdateIdempotent | Refined_pipeline.py:171-179 | running the update twice over an unchanged `weather` table gives the same table as running it once |
| DailySummary.GroupLocal | Refined_pipeline.py:152-156 | a group's temperatures are unaffected by rows of other groups appended to the table |
| FirstPipeline.Outcome | first_pipeline.py:94-104 | the handler that ends an iteration: a request error iff the fetch failed; a DB error iff a fetched city's statement fails; "saved" iff the city committed and humidity is present; "unexpected" for a malformed response or a committed city without humidity |
| FirstPipeline.WeatherWrite | first_pipeline.py:73-86 | a row is stored iff the city's fetch succeeded and its transaction committed, and it is the reading as fetched |
| FirstPipeline.FreshnessWrite | first_pipeline.py:79-86 | a stamp is upserted iff the city's transaction committed, and it is the city's timestamp |
| FirstPipeline.OutcomeEffects | first_pipeline.py:85-104 | a city is committed iff its handler is "saved", or "unexpected" after a successful fetch (a missing humidity field); a DB error stores nothing |
| FirstPipeline.RunSpec | first_pipeline.py:38-86 | after the loop `weather` has gained every committed city's reading in city-list order, and `last_updated` one upsert per committed city in the same order |
| FirstPipeline.ProcessCity | first_pipeline.py:39-104 | one city's insert and upsert reach the tables together at the commit or not at all, and the iteration ends in the handler `Outcome` names |
| FirstPipeline.Job | first_pipeline.py:36-104 | every city of the list is processed in order whatever happened before, and the tables end as `RunSpec` describes |
| FirstPipeline.StoredIff | first_pipeline.py:45-86 | a row is stored iff some city's fetch succeeded and committed, with no validation or temperature filter; the row is the reading unchanged |
| FirstPipeline.RowsAndStampsInStep | first_pipeline.py:73-86 | the per-city commit keeps the tables in step: the k-th stored row and the k-th stamp come from the same city and carry the same timestamp |
| FirstPipeline.LastUpdatedIsLatest | first_pipeline.py:79-83 | a city's stamp is the timestamp of its last committed transaction |
| FirstPipeline.UncommittedCityUnchanged | first_pipeline.py:79-86 | a city with no committed transaction keeps its stamp or its absence |
| FirstPipeline.FailureIsolated | first_pipeline.py:38-104 | a city whose transaction does not commit leaves both tables as if it were absent from the list |
| FirstPipeline.ExportLine | first_pipeline.py:26 | a record line holds the row's four columns unchanged and no category |
| FirstPipeline.ExportWeatherToCsv | first_pipeline.py:14-26 | the file is the header and then every `weather` row unchanged, in table order, so it reads back as the table |
| Csv.TableOfRecords | first_pipeline.py:24-26 | a header followed by one record per row, in order, reads back as exactly those rows |

## Left out

- Fetching over HTTP and extracting JSON fields: each city's fetch result is an input value. The humidity field is reduced to whether it is present.
- `datetime.now()`: the timestamp is a parameter. SQLite's `DATE()` is taken as the first ten characters of the stamp; the NULL it gives on a malformed stamp is not modelled.
- SQLite itself: connections, cursors, `CREATE TABLE IF NOT EXISTS`, locking. A failing statement undoes only itself, which is SQLite's behaviour for constraint-type errors; errors that abort the whole transaction (disk full, I/O) are not modelled.
- Statement failures in `clean_and_store`, `log_cleaning_run`, the report and the daily summary: there are no handlers for them in the cleaning script, and the summary's handler only prints. The model treats these statements as succeeding.
- Failing to open the database: the unbound `conn` in the `finally` blocks of Refined_pipeline.py:49 and :189 is an I/O error path.
- Logging, `print`, the rotating log file, the report text, and writing the report and CSV files. CSV quoting and number formatting are not modelled either; an exported file is a sequence of header and record lines.
- Scheduling: the `schedule` timers and the `while True` loops run the jobs repeatedly. Each job is modelled as one run.
- Text.ParseTemp: accepts only an optional sign followed by digits with an optional decimal point, with digits on at least one side of the point (so ".5" and "5." parse). Python's `float()` also takes exponents, underscores, `inf`, `nan` and non-ASCII digits. Of these, `nan` would pass the range test at cleaned_weather_pipeline.py:42.
- Temperatures are exact reals rather than IEEE doubles, and `AVG` is exact division.
- Record values that are not strings: a non-string value would make `.strip()` raise, which nothing in the script catches.
- RefinedPipeline.Job: requires the runs to follow the fixed city list (`OverCityList`), as the source's loop does.
- FirstPipeline.Job: requires the runs to follow the fixed city list (`OverCityList`), as the source's loop does.
- CleanedPipeline.GenerateWeatherReport: states that the hottest and coldest rows bound every temperature. It does not say which of several tied rows SQLite returns first, because `ORDER BY` leaves ties unordered.
- The in-loop logging of the skip counter (Refined_pipeline.py:127-128) is output only.
- api_weather_data.py, write_to_db.py and db_check.py are not part of this model: they fetch or insert and print, with no decisions.
- `Weather Pipeline/weather_pipeline.py` holds a threaded, chunked variant of `clean_and_store`, driven by `Weather Pipeline/main.py`: the batch is cut into chunks of ceil(len/threads) records, a thread pool cleans them, and each insert runs under a shared lock. It is not part of this model, which follows the sequential `clean_and_store` of cleaned_weather_pipeline.py (one loop, one connection, one commit). The rest of "Weather Pipeline" and the "New folder" directory are not part of this model either.
