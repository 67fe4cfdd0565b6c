# Cleaning of building energy consumption readings — a Dafny model

This project models the cleaning job `apps/02_nettoyage_spark.py` of the
building-energy repository. The job reads raw meter readings of the form
(site `batiment_id`, `timestamp` text, `type_energie`, `consommation` text, `unite`).

Its stages:

1. It parses the timestamp with five `strptime` patterns, tried in a fixed
   order. The first pattern that accepts the text wins.
2. It drops the rows whose timestamp no pattern reads.
3. It cleans the value: every comma becomes a point, then the text is read
   as a number.
4. It drops the rows whose value does not parse.
5. It counts negative and outlier values, then keeps only values in `[0, 10000)`.
6. It deduplicates on (site, instant, energy).
7. It adds date, hour, year and month columns.
8. It computes an hourly view and a monthly view.
9. It left-joins the building reference to get each site's commune.
10. It computes a per-commune monthly view.
11. It prints a report of its counters.

The model keeps the job's dataflow. Each dataframe is a sequence of rows. A
row-wise `withColumn` is `Sequences.Map`. A `filter` is `Sequences.Filter`,
and `filter(c).count()` is `|Filter(s, c)|`. Nullable columns are `Option`s.
`main` is the method `Pipeline.CleanConsumptions`. It threads the same locals
in the same order as the source, and its contract ties every counter and every
output dataset to the raw input.

Modules:

| module | file | what it holds |
|---|---|---|
| Options | options.dfy | `Option` |
| Digits | digits.dfy | ASCII digits and decimal numerals |
| Sequences | sequences.dfy | `Map`, `Filter` and their algebra |
| Timestamps | timestamps.dfy | the multi-format timestamp parser |
| Values | values.dfy | `clean_value` |
| Records | records.dfy | the row types of each stage |
| Quality | quality.dfy | the parsing and quality-filter stages, and each raw row's fate |
| Deduplication | dedup.dfy | `dropDuplicates` |
| Enrichment | enrichment.dfy | temporal decomposition and the left join |
| Grouping | grouping.dfy | `groupBy().agg()` with count, sum, mean, min, max and countDistinct |
| Views | views.dfy | the three aggregated views |
| Pipeline | pipeline.dfy | `main` and its report |

## Model

| member | source | states |
|---|---|---|
| Timestamps.ParseWith | apps/02_nettoyage_spark.py:37-43 | Each of the five patterns reads fixed-width digit fields at fixed positions. FR patterns read the day first; the US pattern reads the month first. `%d/%m/%Y %H:%M` sets seconds to 0. A parse succeeds only when the fields form a valid calendar date and time. |
| Timestamps.FirstMatch | apps/02_nettoyage_spark.py:45-51 | It returns None exactly when every format rejects the text. Otherwise it returns the parse of some format all of whose predecessors reject the text. |
| Timestamps.ParseMultiFormat | apps/02_nettoyage_spark.py:25-51 | A null text gives None. A present text gives None iff all five patterns reject it. Any result is a valid date and time. |
| Timestamps.FirstAcceptingFormatWins | apps/02_nettoyage_spark.py:45-49 | When format i accepts the text and every earlier format rejects it, the parser returns format i's parse. |
| Timestamps.Render | data/generate_data_ecf.py:167-168 | For an instant with a four-digit year (the generator writes 2023 and 2024), the generator's `strftime` spelling under each pattern has the pattern's fixed layout: 19 characters (16 for minutes-only FR), with the separators `-`, `T` or space, `/` and `:` at the pattern's positions. |
| Timestamps.ParseIsRender | apps/02_nettoyage_spark.py:37-43 | Conversely, a text that a pattern accepts is exactly that pattern's spelling of the instant it parses to (ISO-T also accepting a lower-case `t`), and minutes-only FR parses carry seconds 0. With RenderRoundTrip, parse and spelling are inverse on each pattern. |
| Timestamps.RenderRoundTrip | data/generate_data_ecf.py:36-41 | Parsing a valid instant's `strftime` spelling under the same pattern gives back the instant. The minutes-only FR pattern gives it back with seconds 0. |
| Timestamps.ReadingGeneratorSpellings | data/generate_data_ecf.py:166-168 | The parser reads every spelling the generator writes. ISO and FR spellings give the instant (FR minutes-only with seconds 0). A US spelling with day ≤ 12 is read day-first, so day and month are swapped; with day > 12 it is read correctly. |
| Timestamps.UsReading | apps/02_nettoyage_spark.py:40-42 | A US spelling is read with day and month swapped when the day is at most 12, and as intended otherwise. |
| Timestamps.SwapDayMonth | apps/02_nettoyage_spark.py:40-42 | Swapping day and month of a valid instant whose day is at most 12 gives a valid instant. |
| Timestamps.AmbiguousSlashDateIsDayFirst | apps/02_nettoyage_spark.py:40-42 | "03/05/2023 08:00:00" is read as 3 May, not 5 March. |
| Timestamps.UsSpellingOfFifthMarch | data/generate_data_ecf.py:167-168 | The generator writes 08:00 on 5 March 2023 under the US pattern as "03/05/2023 08:00:00", the same text as the FR spelling of 3 May. |
| Timestamps.MonthFirstDateNeedsDayAboveTwelve | apps/02_nettoyage_spark.py:40-42 | "01/13/2023 08:00:00" falls through the FR patterns to the US pattern and gives 13 January. |
| Timestamps.SameInstantThreeSpellings | apps/02_nettoyage_spark.py:37-43 | The ISO-T, ISO-space and FR spellings of one instant parse to that instant. |
| Timestamps.CalendarInvalidTextsRejected | apps/02_nettoyage_spark.py:45-51 | "2023-02-29 10:00:00" and "31/04/2023 10:00" are rejected: strptime raises for them, and so every pattern fails. |
| Values.ReplaceCommas | apps/02_nettoyage_spark.py:64 | Every comma becomes a point; the length and all other characters are unchanged. |
| Values.CleanValue | apps/02_nettoyage_spark.py:53-67 | A null cell gives None. |
| Values.ParseDecimal | apps/02_nettoyage_spark.py:65 | A text that reads as a number is non-empty; a negative number is spelled with a leading `-`, and a text with a leading `-` never reads as a positive number. |
| Values.DecimalAcceptsExactlyShape | apps/02_nettoyage_spark.py:65 | `float` accepts a text iff it is an optional sign, then digits with at most one point and at least one digit. |
| Values.CleanValueAcceptsExactlyShape | apps/02_nettoyage_spark.py:62-67 | `clean_value` gives a number iff the text, commas read as points, has the shape: an optional sign, then digits with at most one point and at least one digit. |
| Values.SeparatorInsensitive | apps/02_nettoyage_spark.py:64 | Two texts that differ only by commas versus points clean to the same value. |
| Values.CleanValueReadsHundredths | data/generate_data_ecf.py:158-162 | The generator's two-decimal spelling of c/100, with a point or a comma, cleans to exactly c/100. This holds for negative values too. |
| Values.Hundredths | data/generate_data_ecf.py:158-162 | The generator's `f"{value:.2f}"` spelling, with a point or a comma: a leading `-` exactly for a negative value, at least one integer digit, the separator third from the end, then two digits. |
| Values.JunkTokensRejected | data/generate_data_ecf.py:155 | "erreur", "N/A", "---", "null" and a null cell all clean to None. |
| Values.CommaExample | apps/02_nettoyage_spark.py:63-65 | "12,5" and "12.5" both clean to 12.5. |
| Quality.KeepInRange | apps/02_nettoyage_spark.py:127-129 | Every kept row's value lies in [0, 10000). |
| Quality.Stamp | apps/02_nettoyage_spark.py:93-96 | The `timestamp_parsed` column: the row is kept as it is, a null text gives a null instant, and a present instant is a valid date and time read from a present text. |
| Quality.Measure | apps/02_nettoyage_spark.py:107-110 | The `consommation_clean` column: the row and its instant are kept, and a null cell gives a null value. |
| Quality.IsNegative | apps/02_nettoyage_spark.py:124 | A row counted negative has a value, and that value is below the 10000 limit, so a negative row is never also counted as an outlier. |
| Quality.IsOutlier | apps/02_nettoyage_spark.py:125 | A row counted as an outlier has a non-negative value other than exactly 10000: it is never also negative, and a value of 10000 escapes the count. |
| Quality.InRange | apps/02_nettoyage_spark.py:127-129 | A kept row has a value and is neither negative nor an outlier. A valued row that is not kept is negative, an outlier, or exactly 10000. |
| Quality.CleanRows | apps/02_nettoyage_spark.py:93-129 | Every row that passes all quality filters has a valid instant equal to its text's parse, a value equal to its text's cleaning, and a value in [0, 10000). |
| Quality.OneFate | apps/02_nettoyage_spark.py:99-129 | Each raw row meets exactly one fate: bad timestamp, bad value, negative, exactly 10000, above 10000, or retained. |
| Quality.FateCounts | apps/02_nettoyage_spark.py:99-129 | The counts of the six fates add up to the input row count. |
| Quality.StampStage | apps/02_nettoyage_spark.py:93-100 | The null-timestamp count is the number of rows the parser rejects. The rows kept are the others, in order. |
| Quality.ValueStage | apps/02_nettoyage_spark.py:107-113 | The first null-value count is the number of rows whose timestamp parses but whose value does not. The rows kept are those where both parse, in order. |
| Quality.RecountStage | apps/02_nettoyage_spark.py:119-120 | Once nulls are gone, counting them again gives zero, and filtering them again changes nothing. |
| Quality.RangeStage | apps/02_nettoyage_spark.py:124-129 | The negative count, the `> 10000` count and the range filter equal the raw-row fates NegativeValue and AboveLimit and the dataset `CleanRows`. |
| Pipeline.QualityStages | apps/02_nettoyage_spark.py:93-129 | Steps 1 to 4 of `main`: the timestamp, negative and outlier counters equal the counts of the matching raw-row fates, the value counter is 0, and the clean dataset is `CleanRows` of the raw rows. |
| Deduplication.KeyOf | apps/02_nettoyage_spark.py:135 | The deduplication key is the three columns `batiment_id`, `timestamp_parsed` and `type_energie`: the value, the unit and the timestamp's original spelling are not part of it. |
| Deduplication.IsDedupOf | apps/02_nettoyage_spark.py:134-137 | What `dropDuplicates` promises whichever copy it keeps: unique keys, every row from the input, and every input key kept. |
| Deduplication.Dedup | apps/02_nettoyage_spark.py:135 | The result has unique (site, instant, energy) keys and keeps every key of the input. Every row it keeps comes from the input. |
| Deduplication.DedupSize | apps/02_nettoyage_spark.py:134-137 | Any valid deduplication keeps one row per distinct key. So `duplicates_removed` is the same whichever copy is kept, and it is never negative. |
| Deduplication.DedupKeepsUnique | apps/02_nettoyage_spark.py:135 | A dataset whose keys are already unique is unchanged. |
| Deduplication.DedupIdempotent | apps/02_nettoyage_spark.py:135 | Deduplicating twice is the same as deduplicating once. |
| Deduplication.AnyDedupStable | apps/02_nettoyage_spark.py:135 | Deduplicating an already-deduplicated dataset again, by any choice of copies, keeps exactly the same rows. |
| Deduplication.UniqueKeysCount | apps/02_nettoyage_spark.py:135-136 | A key-unique dataset has as many distinct keys as rows. |
| Enrichment.Decorate | apps/02_nettoyage_spark.py:145-153 | A null instant gives null date, hour, year and month. A present instant gives its own calendar date, hour, year and month; the hour is in 0..23, the month in 1..12 and the day fits the month. |
| Enrichment.DecomposeRecoversInstant | apps/02_nettoyage_spark.py:145-153 | The date and hour, together with the instant's minutes and seconds, rebuild the instant. |
| Enrichment.LeftJoin | apps/02_nettoyage_spark.py:188-195 | The result holds at least one row per left row, and only left rows. A present commune comes from a reference row for that site. A null commune means no reference row names that site. |
| Enrichment.JoinRow | apps/02_nettoyage_spark.py:190-195 | One left row yields `Fanout` joined rows: as many as the reference rows naming its site, or one when there are none. Each carries the left row. The commune `c` appears exactly when the reference has a row (site, `c`). A null commune means no reference row names the site. |
| Enrichment.CommunesOf | apps/02_nettoyage_spark.py:188-195 | The communes for a site, one per reference row that names it, in reference order. A commune is listed exactly when the reference pairs it with the site. |
| Enrichment.JoinRowInOrder | apps/02_nettoyage_spark.py:190-195 | The joined rows of one left row, position by position, are the left row with the commune of each matching reference row. With no match, the result is a single row with a null commune. |
| Enrichment.LeftJoinFanout | apps/02_nettoyage_spark.py:190-195 | The join has exactly the sum of the per-row fan-outs as its row count. Every pair of a left row and a reference row for its site appears as a joined row. |
| Enrichment.SiteListedTwiceFansOut | apps/02_nettoyage_spark.py:190-195 | A site that the reference lists under two communes yields two joined rows, one per commune. |
| Enrichment.LeftJoinOneToOne | apps/02_nettoyage_spark.py:188-195 | When sites are unique in the reference, the join keeps every row exactly once, in order, with the site's commune or null. |
| Grouping.DistinctKeys | apps/02_nettoyage_spark.py:156-157 | The keys are pairwise distinct. Each is the key of some row, and every row's key is among them. |
| Grouping.GroupBy | apps/02_nettoyage_spark.py:156-163 | It gives one summary per distinct key and a summary for every row's key. Each summary gives its group's count and total, a min and a max that bound the group and both occur in it, and the group's distinct sites. |
| Grouping.MeanBetween | apps/02_nettoyage_spark.py:159-161 | The mean lies between the min and the max. |
| Grouping.SummaryBounds | apps/02_nettoyage_spark.py:199-205 | Each summary's mean lies between its min and max. Its number of distinct sites is between 1 and its row count. |
| Grouping.CountsCoverRows | apps/02_nettoyage_spark.py:162 | The summaries' `count("*")` values add up to the number of rows. |
| Views.StatsView | apps/02_nettoyage_spark.py:156-175 | Keys are unique and cover every row. Each output row's count is its group's size, its mean is the group total over the count, and min ≤ mean ≤ max, with min and max attained in the group. |
| Views.HourKeyOf | apps/02_nettoyage_spark.py:156-157 | The hourly key refines the monthly key (same site, energy, year and month). On a decorated row with an instant, its date and hour are the instant's. |
| Views.HourlyView | apps/02_nettoyage_spark.py:156-163 | `df_by_hour` has the StatsView properties on the key (site, energy, date, hour, year, month). |
| Views.MonthlyView | apps/02_nettoyage_spark.py:168-175 | `df_by_month` has the StatsView properties on the key (site, energy, year, month). |
| Views.MonthKeyOf | apps/02_nettoyage_spark.py:168-169 | The monthly key carries the row's site. On a decorated row, year and month are null without an instant and are the instant's otherwise. |
| Views.StatsCountsCoverRows | apps/02_nettoyage_spark.py:162 | A view's row counts add up to the rows it was computed from. |
| Views.StatsWithin | apps/02_nettoyage_spark.py:159-161 | Values within [lo, hi) give every min, mean and max within [lo, hi). |
| Views.CommuneView | apps/02_nettoyage_spark.py:199-205 | Keys are unique and cover every joined row. The total is the group's sum and the mean is total over count. The number of active sites is the group's distinct site count, between 1 and the group size. |
| Views.CommuneKeyOf | apps/02_nettoyage_spark.py:199-200 | The commune key carries the joined commune, and its energy, year and month are those of the row's monthly key. |
| Views.CommuneCountsCoverRows | apps/02_nettoyage_spark.py:199-205 | The commune groups' sizes add up to the joined rows. |
| Views.ActiveSitesWithinReference | apps/02_nettoyage_spark.py:188-205 | After the join, a commune's `nb_batiments_actifs` never exceeds the number of sites the reference places in that commune. |
| Pipeline.ReportOf | apps/02_nettoyage_spark.py:82-137 | As the job computes it: `initial_count` is the input size; the timestamp, negative and outlier counters count the matching raw-row fates; the value counter is always 0; `duplicates_removed` is clean rows minus distinct keys; the total is the sum of the counters. |
| Pipeline.CleanConsumptions | apps/02_nettoyage_spark.py:70-241 | `initial_count` is the input size. `invalid_timestamps`, `negative_count` and `outlier_count` are the counts of the matching raw-row fates, and `invalid_values` is 0. The deduplicated dataset is any valid deduplication of the clean rows (`IsDedupOf`: unique keys, every key kept, rows from the input), whichever copy Spark keeps, and `duplicates_removed` is clean rows minus distinct keys. The joined dataset and the three views are those of the deduplicated rows. Every joined row has a valid instant, a value in [0, 10000), and an hour and month taken from that instant. |
| Pipeline.EnrichedRowsClean | apps/02_nettoyage_spark.py:127-153 | For any valid deduplication of the clean rows, every joined row has a valid instant, a value in [0, 10000), and an hour and month read from that instant. |
| Pipeline.AggregatesWithinRange | apps/02_nettoyage_spark.py:156-175 | For any valid deduplication of the clean rows, every hourly and monthly row satisfies 0 ≤ min ≤ mean ≤ max < 10000. |
| Pipeline.ReportAccounting | apps/02_nettoyage_spark.py:82-241 | The input is the reported removals, plus the unparsable values, plus the values of exactly 10000, plus the kept rows. The two middle terms are the rows the report leaves out. |
| Pipeline.UnparsableValueUncounted | apps/02_nettoyage_spark.py:119 | For a single row with value "erreur", the row is dropped and the report's total is 0; the corrected report counts it. |
| Pipeline.LimitValueUncounted | apps/02_nettoyage_spark.py:125-128 | For a single row with value "10000.00", the row is dropped and the report's total is 0; the corrected report counts it. |
| Pipeline.CorrectedReportOf | apps/02_nettoyage_spark.py:112-128 | The value counter is the unparsable-value count, and the outlier counter counts values ≥ 10000. |
| Pipeline.CorrectedReportConserves | apps/02_nettoyage_spark.py:241 | With the corrected counters, input rows = total removed + kept rows. |
| Pipeline.RepeatedRetainedRow | apps/02_nettoyage_spark.py:134-137 | A retained row read twice is kept once, and the report counts exactly one duplicate and no other removal. |
| Pipeline.DuplicatedReadingScenario | apps/02_nettoyage_spark.py:70-137 | Two identical readings ("B1", "2023-01-01 10:00:00", "electricite", "12,5", "kWh") give one clean row of 12.5 at 10:00 on 1 January 2023, and the report (2, 0, 0, 0, 0, 1, 1). |
| Pipeline.AmbiguousSpellingsCollide | apps/02_nettoyage_spark.py:40-42 | A 3 May reading in ISO spelling and the generator's US spelling of a 5 March reading of the same site and energy are both retained, get one deduplication key though their rows differ, and one is dropped and reported as a duplicate. |

## Left out

- Spark itself, the CSV and Parquet I/O, the session setup, `show` and every `print` are left out. The two input datasets are parameters of `CleanConsumptions`. The Parquet write of `df_enriched` (partitioned by date and energy) is not modelled.
- `F.round(..., 2)` on the aggregates is left out: values, sums and means are exact reals. Python floats and their rounding are not modelled.
- `Values.CleanValue` accepts only plain decimal spellings: an optional sign, digits and at most one point. Python's `float` also accepts surrounding whitespace, `_` separators, exponents, `inf`, `nan` and non-ASCII digits. The model rejects those texts, where the source would accept them.
- `Timestamps.ParseWith` reads fixed-width two- and four-digit ASCII fields. `strptime` also accepts one-digit fields, runs of whitespace for a space, and non-ASCII digits. The model rejects those texts, where the source would accept them.
- Timestamps.Render: the model zero-pads `%Y` to four digits. glibc's `strftime` writes years below 1000 without padding, so for those years the layout stated for `Render` does not match the source. The generator only writes 2023 and 2024.
- Time zones are out of scope: instants are naive wall-clock values, as the job's UDF returns them. Spark stores the UDF's naive `datetime` in a `TimestampType` column (apps/02_nettoyage_spark.py:86), and `F.hour` (line 148) reads it back in the session time zone. Under a zone with daylight saving time, a local time that does not exist may therefore come back shifted by an hour, for example 2023-03-26 02:00 in Europe/Paris. That changes its hour and its deduplication key. The model does not capture this, and it depends on the environment the job runs in.
- Which copy `dropDuplicates` keeps is left open: `CleanConsumptions` picks any dataset satisfying `IsDedupOf`. `Deduplication.Dedup` (keep the first) shows that such a dataset exists and is the one the reference-scenario lemmas use.
- The model assumes that `timestamp` and `consommation` arrive as text or null, so the `AttributeError` branch of `clean_value` is not modelled. The job reads the CSV with `inferSchema` (apps/02_nettoyage_spark.py:77). When no `consommation` cell holds a comma or a junk token, Spark types the column as a double. Every `.replace` then raises `AttributeError` and every value cleans to None. All rows are dropped at line 113, and the report still shows 0 invalid values.
- A null `batiment_id` or `type_energie` and a null `commune` in the reference are not modelled: these are plain strings.
- Aggregates are not proved invariant under a reordering of the input rows. They are specified per key through `Group`, which does not depend on row order except for the order of the output rows.
- The reference file's other columns and the tariff and weather datasets of the repository are not part of this model.

## Findings

| source | as written | input that shows it | evidently intended | confidence | as-written member | corrected member |
|---|---|---|---|---|---|---|
| apps/02_nettoyage_spark.py:119 | `invalid_values` is recounted after the nulls were already dropped at line 113, so it is always 0. | one row with a valid timestamp and value "erreur" | report the count from line 112 | not executed | Pipeline.UnparsableValueUncounted | Pipeline.CorrectedReportOf |
| apps/02_nettoyage_spark.py:125 | the outlier count uses `> 10000`, while the range filter at line 128 removes every value `>= 10000` | one row with a valid timestamp and value "10000.00" | count `>= 10000` as outliers | not executed | Pipeline.LimitValueUncounted | Pipeline.CorrectedReportOf |

`Pipeline.ReportOf` and `Pipeline.CleanConsumptions` reproduce the report as
written. `Pipeline.CorrectedReportConserves` proves that with both
corrections the counters account for every removed row.
