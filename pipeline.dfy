/** The cleaning job's `main`: each stage reads the previous stage's
    dataset, the counters are taken along the way, and the final report is
    their listing. Reading the files, printing and writing the Parquet
    output are outside the model; the two datasets come in as parameters. */
module Pipeline {
  import opened Options
  import opened Timestamps
  import opened Values
  import opened Sequences
  import opened Records
  import opened Quality
  import opened Deduplication
  import opened Enrichment
  import opened Views

  /** The counters the final report prints. */
  datatype Report = Report(
    initialCount: nat,
    invalidTimestamps: nat,
    invalidValues: nat,
    negativeCount: nat,
    outlierCount: nat,
    duplicatesRemoved: nat,
    totalRemoved: nat)

  /** The deduplicated clean rows. */
  function Deduplicated(raws: seq<RawReading>): seq<CleanReading> {
    Dedup(CleanRows(raws))
  }

  /** The report as the job computes it, stated on the raw rows: the value
      counter is always zero, and the outlier counter leaves out values of
      exactly 10000. */
  function ReportOf(raws: seq<RawReading>): (r: Report)
    ensures r.initialCount == |raws|
    ensures r.invalidTimestamps == |Filter(raws, TimestampRejected)|
    ensures r.invalidValues == 0
    ensures r.negativeCount == |Filter(raws, NegativeValue)|
    ensures r.outlierCount == |Filter(raws, AboveLimit)|
    ensures r.duplicatesRemoved == |CleanRows(raws)| - |Keys(CleanRows(raws))|
    ensures r.totalRemoved == r.invalidTimestamps + r.negativeCount + r.outlierCount + r.duplicatesRemoved
  {
    DedupSize(Deduplicated(raws), CleanRows(raws));
    var duplicates := |CleanRows(raws)| - |Deduplicated(raws)|;
    var timestamps, negatives, outliers :=
      |Filter(raws, TimestampRejected)|, |Filter(raws, NegativeValue)|, |Filter(raws, AboveLimit)|;
    Report(|raws|, timestamps, 0, negatives, outliers, duplicates,
      timestamps + 0 + negatives + outliers + duplicates)
  }

  /** Steps 1 to 4 of `main`: parse the timestamps and drop the nulls,
      clean the values and drop the nulls (twice), then count the negative
      and the `> 10000` values and keep the range `[0, 10000)`. */
  method QualityStages(raws: seq<RawReading>)
    returns (invalidTimestamps: nat, invalidValues: nat, negativeCount: nat, outlierCount: nat,
             clean: seq<CleanReading>)
    ensures invalidTimestamps == |Filter(raws, TimestampRejected)|
    ensures invalidValues == 0
    ensures negativeCount == |Filter(raws, NegativeValue)|
    ensures outlierCount == |Filter(raws, AboveLimit)|
    ensures clean == CleanRows(raws)
  {
    var stamped := Map(raws, Stamp);
    invalidTimestamps := |Filter(stamped, LacksInstant)|;
    stamped := Filter(stamped, HasInstant);

    var measured := Map(stamped, Measure);
    invalidValues := |Filter(measured, LacksValue)|;
    measured := Filter(measured, HasValue);
    assert invalidTimestamps == |Filter(raws, TimestampRejected)|
        && measured == Map(Filter(raws, ValueAccepted), ToMeasured) by {
      StampStage(raws);
      ValueStage(raws);
    }

    // The second pass counts the nulls the first pass already removed.
    invalidValues := |Filter(measured, LacksValue)|;
    measured := Filter(measured, HasValue);
    assert invalidValues == 0 && measured == Map(Filter(raws, ValueAccepted), ToMeasured) by {
      RecountStage(Map(Filter(raws, ValueAccepted), ToMeasured));
    }

    negativeCount := |Filter(measured, IsNegative)|;
    outlierCount := |Filter(measured, IsOutlier)|;
    clean := KeepInRange(measured);
    assert negativeCount == |Filter(raws, NegativeValue)|
        && outlierCount == |Filter(raws, AboveLimit)|
        && clean == CleanRows(raws) by {
      RangeStage(raws);
    }
  }

  /** `main`, from the row count to the report. `dropDuplicates` may keep
      any copy of a key, so `deduplicated` is any dataset `IsDedupOf`
      accepts, and the outputs are stated for that choice. */
  method CleanConsumptions(raws: seq<RawReading>, refs: seq<BuildingRef>)
    returns (report: Report, deduplicated: seq<CleanReading>, enriched: seq<Enriched>,
             byHour: seq<ReadingStats<HourKey>>, byMonth: seq<ReadingStats<MonthKey>>,
             byCommune: seq<CommuneRow>)
    ensures report.initialCount == |raws|
    ensures report.invalidTimestamps == |Filter(raws, TimestampRejected)|
    ensures report.invalidValues == 0
    ensures report.negativeCount == |Filter(raws, NegativeValue)|
    ensures report.outlierCount == |Filter(raws, AboveLimit)|
    ensures report.duplicatesRemoved == |CleanRows(raws)| - |Keys(CleanRows(raws))|
    ensures report == ReportOf(raws)
    ensures IsDedupOf(deduplicated, CleanRows(raws))
    ensures enriched == LeftJoin(Map(deduplicated, Decorate), refs)
    ensures byHour == HourlyView(Map(deduplicated, Decorate))
    ensures byMonth == MonthlyView(Map(deduplicated, Decorate))
    ensures byCommune == CommuneView(enriched)
    ensures forall e :: e in enriched ==> IsCleanRow(e)
  {
    var initialCount := |raws|;
    var invalidTimestamps, invalidValues, negativeCount, outlierCount, clean := QualityStages(raws);

    var beforeDedup := |clean|;
    assert IsDedupOf(Dedup(clean), clean);
    deduplicated :| IsDedupOf(deduplicated, clean);
    var afterDedup := |deduplicated|;
    assert afterDedup == |Keys(clean)| <= beforeDedup by {
      DedupSize(deduplicated, clean);
    }
    var duplicatesRemoved := beforeDedup - afterDedup;

    var decorated := Map(deduplicated, Decorate);
    byHour := HourlyView(decorated);
    byMonth := MonthlyView(decorated);
    enriched := LeftJoin(decorated, refs);
    byCommune := CommuneView(enriched);

    var totalRemoved := invalidTimestamps + invalidValues + negativeCount + outlierCount + duplicatesRemoved;
    report := Report(initialCount, invalidTimestamps, invalidValues, negativeCount, outlierCount,
      duplicatesRemoved, totalRemoved);
    EnrichedRowsClean(raws, deduplicated, refs);
  }

  /** What every output row satisfies: a valid instant, a value in the
      retained range, and an hour and month read from that instant. */
  predicate IsCleanRow(e: Enriched) {
    && e.row.reading.instant.Some? && IsValid(e.row.reading.instant.value)
    && 0.0 <= e.row.reading.value < Limit
    && e.row.hour == Some(e.row.reading.instant.value.hour) && 0 <= e.row.hour.value <= 23
    && e.row.month == Some(e.row.reading.instant.value.month) && 1 <= e.row.month.value <= 12
  }

  /** Whichever copies the deduplication keeps, every joined row is clean. */
  lemma EnrichedRowsClean(raws: seq<RawReading>, kept: seq<CleanReading>, refs: seq<BuildingRef>)
    requires IsDedupOf(kept, CleanRows(raws))
    ensures forall e :: e in LeftJoin(Map(kept, Decorate), refs) ==> IsCleanRow(e)
  {
    var decorated := Map(kept, Decorate);
    forall e | e in LeftJoin(decorated, refs)
      ensures IsCleanRow(e)
    {
      assert e.row in decorated;
      var i :| 0 <= i < |decorated| && decorated[i] == e.row;
      assert kept[i] in kept;
    }
  }

  /** Whichever copies the deduplication keeps, the clean rows' range
      carries over to every hourly and monthly min, mean and max. */
  lemma AggregatesWithinRange(raws: seq<RawReading>, kept: seq<CleanReading>)
    requires IsDedupOf(kept, CleanRows(raws))
    ensures forall h :: h in HourlyView(Map(kept, Decorate)) ==>
      0.0 <= h.least <= h.mean <= h.greatest < Limit
    ensures forall m :: m in MonthlyView(Map(kept, Decorate)) ==>
      0.0 <= m.least <= m.mean <= m.greatest < Limit
  {
    var decorated := Map(kept, Decorate);
    forall d | d in decorated
      ensures 0.0 <= d.reading.value < Limit
    {
      var i :| 0 <= i < |decorated| && decorated[i] == d;
      assert kept[i] in kept;
    }
    StatsWithin(decorated, HourKeyOf, 0.0, Limit);
    StatsWithin(decorated, MonthKeyOf, 0.0, Limit);
  }

  /** Every input row is either counted in the report, dropped for a value
      that does not parse, dropped for a value of exactly 10000, or kept. */
  lemma ReportAccounting(raws: seq<RawReading>)
    ensures |raws| ==
      ReportOf(raws).totalRemoved + |Filter(raws, ValueRejected)| + |Filter(raws, AtLimit)| + |Deduplicated(raws)|
  {
    FateCounts(raws);
    DedupSize(Deduplicated(raws), CleanRows(raws));
  }

  // ---- The report as evidently intended ----

  predicate AtOrAboveLimit(r: RawReading) {
    AtLimit(r) || AboveLimit(r)
  }

  /** The report with the value counter taken before the nulls are dropped
      and the outlier counter matching the range filter (`>= 10000`). */
  function CorrectedReportOf(raws: seq<RawReading>): (r: Report)
    ensures r.invalidValues == |Filter(raws, ValueRejected)|
    ensures r.outlierCount == |Filter(raws, AtLimit)| + |Filter(raws, AboveLimit)|
    ensures r.totalRemoved == r.invalidTimestamps + r.invalidValues + r.negativeCount + r.outlierCount + r.duplicatesRemoved
  {
    CountSplit(raws, AtOrAboveLimit, AtLimit, AboveLimit);
    DedupSize(Deduplicated(raws), CleanRows(raws));
    var timestamps, values, negatives, outliers, duplicates :=
      |Filter(raws, TimestampRejected)|, |Filter(raws, ValueRejected)|, |Filter(raws, NegativeValue)|,
      |Filter(raws, AtOrAboveLimit)|, |CleanRows(raws)| - |Deduplicated(raws)|;
    Report(|raws|, timestamps, values, negatives, outliers, duplicates,
      timestamps + values + negatives + outliers + duplicates)
  }

  /** With the corrected counters every removed row is counted once: the
      input is the rows removed plus the rows kept. */
  lemma CorrectedReportConserves(raws: seq<RawReading>)
    ensures |raws| == CorrectedReportOf(raws).totalRemoved + |Deduplicated(raws)|
    ensures CorrectedReportOf(raws).initialCount == |raws|
  {
    ReportAccounting(raws);
  }

  /** The one-row input whose value is the junk token "erreur": the row
      disappears, yet the report counts nothing. */
  lemma UnparsableValueUncounted()
    ensures var raws := [RawReading("BAT0001", Some("2023-03-05 08:00:00"), "electricite", Some("erreur"), "kWh")];
      && ReportOf(raws).totalRemoved == 0
      && |Deduplicated(raws)| == 0
      && CorrectedReportOf(raws).invalidValues == 1
  {
    var r := RawReading("BAT0001", Some("2023-03-05 08:00:00"), "electricite", Some("erreur"), "kWh");
    IsoSpaceExample();
    JunkTokensRejected();
    OneRowFate(r);
    assert ValueRejected(r);
  }

  /** The one-row input whose value is exactly 10000, spelled as the
      generator writes it ("10000.00"): the range filter removes it, yet the
      outlier counter does not count it. */
  lemma LimitValueUncounted()
    ensures var raws := [RawReading("BAT0001", Some("2023-03-05 08:00:00"), "electricite", Some(Hundredths(1000000, '.')), "kWh")];
      && ReportOf(raws).totalRemoved == 0
      && |Deduplicated(raws)| == 0
      && CorrectedReportOf(raws).outlierCount == 1
  {
    var r := RawReading("BAT0001", Some("2023-03-05 08:00:00"), "electricite", Some(Hundredths(1000000, '.')), "kWh");
    IsoSpaceExample();
    CleanValueReadsHundredths(1000000, '.');
    OneRowFate(r);
    assert AtLimit(r);
  }

  /** Counting over a single row is that row's own fate. */
  lemma OneRowFate(r: RawReading)
    ensures |Filter([r], TimestampRejected)| == (if TimestampRejected(r) then 1 else 0)
    ensures |Filter([r], ValueRejected)| == (if ValueRejected(r) then 1 else 0)
    ensures |Filter([r], NegativeValue)| == (if NegativeValue(r) then 1 else 0)
    ensures |Filter([r], AtLimit)| == (if AtLimit(r) then 1 else 0)
    ensures |Filter([r], AboveLimit)| == (if AboveLimit(r) then 1 else 0)
    ensures |CleanRows([r])| == (if Retained(r) then 1 else 0)
  {
    assert [r][..0] == [];
  }

  // ---- Two-row scenarios ----

  /** Two retained rows pass every filter, in order. */
  lemma TwoRowsClean(a: RawReading, b: RawReading)
    requires Retained(a) && Retained(b)
    ensures CleanRows([a, b]) == [ToClean(a), ToClean(b)]
    ensures Filter([a, b], TimestampRejected) == []
    ensures Filter([a, b], NegativeValue) == []
    ensures Filter([a, b], AboveLimit) == []
  {
    assert Filter([a, b], Retained) == [a, b] by {
      FilterAll([a, b], Retained);
    }
    assert Map([a, b], ToClean) == [ToClean(a), ToClean(b)] by {
      assert [a, b][..1] == [a] && [a][..0] == [];
    }
    FilterNone([a, b], TimestampRejected);
    FilterNone([a, b], NegativeValue);
    FilterNone([a, b], AboveLimit);
  }

  /** Two rows with one key deduplicate to the first. */
  lemma SameKeyPair(x: CleanReading, y: CleanReading)
    requires KeyOf(x) == KeyOf(y)
    ensures Keys([x, y]) == {KeyOf(x)}
    ensures Dedup([x, y]) == [x]
  {
    assert [x, y][..1] == [x] && [x][..0] == [];
    assert Dedup([x]) == [x];
  }

  /** The reference scenario's row: its timestamp reads as 10:00 on
      1 January 2023 and its value "12,5" as 12.5. */
  lemma ScenarioRow(r: RawReading)
    requires r == RawReading("B1", Some("2023-01-01 10:00:00"), "electricite", Some("12,5"), "kWh")
    ensures Retained(r) && ToClean(r) == CleanReading(r, Some(DateTime(2023, 1, 1, 10, 0, 0)), 12.5)
  {
    var s := "2023-01-01 10:00:00";
    assert Four(s, 0) == Some(2023) && Two(s, 5) == Some(1) && Two(s, 8) == Some(1);
    assert Two(s, 11) == Some(10) && Two(s, 14) == Some(0) && Two(s, 17) == Some(0);
    FirstAcceptingFormatWins(s, 1);
    CommaExample();
  }

  /** The reference scenario: the same reading twice, with a decimal comma,
      leaves one clean row of 12.5 kWh at 10:00 on 1 January 2023, and the
      report counts one duplicate and nothing else. */
  lemma DuplicatedReadingScenario()
    ensures var r := RawReading("B1", Some("2023-01-01 10:00:00"), "electricite", Some("12,5"), "kWh");
      && Deduplicated([r, r]) == [CleanReading(r, Some(DateTime(2023, 1, 1, 10, 0, 0)), 12.5)]
      && ReportOf([r, r]) == Report(2, 0, 0, 0, 0, 1, 1)
  {
    var r := RawReading("B1", Some("2023-01-01 10:00:00"), "electricite", Some("12,5"), "kWh");
    ScenarioRow(r);
    RepeatedRetainedRow(r);
  }

  /** A retained row read twice is kept once, and the report counts the
      copy as the only duplicate. */
  lemma RepeatedRetainedRow(r: RawReading)
    requires Retained(r)
    ensures Deduplicated([r, r]) == [ToClean(r)]
    ensures ReportOf([r, r]) == Report(2, 0, 0, 0, 0, 1, 1)
  {
    RepeatedRetainedRowKept(r);
    var rep := ReportOf([r, r]);
    assert rep.duplicatesRemoved == 1;
    assert rep.invalidTimestamps == 0 && rep.negativeCount == 0 && rep.outlierCount == 0;
  }

  /** The cleaning of a repeated retained row keeps both copies, under one
      key, and deduplication keeps the first. */
  lemma RepeatedRetainedRowKept(r: RawReading)
    requires Retained(r)
    ensures CleanRows([r, r]) == [ToClean(r), ToClean(r)]
    ensures Filter([r, r], TimestampRejected) == []
    ensures Filter([r, r], NegativeValue) == []
    ensures Filter([r, r], AboveLimit) == []
    ensures |Keys(CleanRows([r, r]))| == 1
    ensures Deduplicated([r, r]) == [ToClean(r)]
  {
    TwoRowsClean(r, r);
    SameKeyPair(ToClean(r), ToClean(r));
  }

  /** The two rows of the collision: an ISO spelling of 08:00 on 3 May 2023
      and a US spelling that the parser also reads as 08:00 on 3 May 2023. */
  lemma CollidingRows(a: RawReading, b: RawReading)
    requires a == RawReading("BAT0001", Some("2023-05-03 08:00:00"), "electricite", Some("12,5"), "kWh")
    requires b == RawReading("BAT0001", Some("03/05/2023 08:00:00"), "electricite", Some("12.5"), "kWh")
    ensures Retained(a) && Retained(b)
    ensures ToClean(a).instant == ToClean(b).instant == Some(DateTime(2023, 5, 3, 8, 0, 0))
  {
    var s := "2023-05-03 08:00:00";
    assert Four(s, 0) == Some(2023) && Two(s, 5) == Some(5) && Two(s, 8) == Some(3);
    assert Two(s, 11) == Some(8) && Two(s, 14) == Some(0) && Two(s, 17) == Some(0);
    FirstAcceptingFormatWins(s, 1);
    AmbiguousSlashDateIsDayFirst();
    CommaExample();
  }

  /** Two genuine readings collide: a 3 May reading in ISO spelling, and the
      generator's US spelling of a 5 March reading of the same site and
      energy, which the parser reads day-first as 3 May. Both rows are
      retained, they share one deduplication key, and one of them is
      dropped and reported as a duplicate. */
  lemma AmbiguousSpellingsCollide()
    ensures Render(Us, DateTime(2023, 3, 5, 8, 0, 0)) == "03/05/2023 08:00:00"
    ensures var a := RawReading("BAT0001", Some("2023-05-03 08:00:00"), "electricite", Some("12,5"), "kWh");
      var b := RawReading("BAT0001", Some("03/05/2023 08:00:00"), "electricite", Some("12.5"), "kWh");
      && Retained(a) && Retained(b)
      && KeyOf(ToClean(a)) == KeyOf(ToClean(b)) && ToClean(a) != ToClean(b)
      && |Deduplicated([a, b])| == 1
      && ReportOf([a, b]).duplicatesRemoved == 1
  {
    var a := RawReading("BAT0001", Some("2023-05-03 08:00:00"), "electricite", Some("12,5"), "kWh");
    var b := RawReading("BAT0001", Some("03/05/2023 08:00:00"), "electricite", Some("12.5"), "kWh");
    UsSpellingOfFifthMarch();
    CollidingRows(a, b);
    assert ToClean(a).raw != ToClean(b).raw;
    TwoRowsClean(a, b);
    SameKeyPair(ToClean(a), ToClean(b));
  }
}
