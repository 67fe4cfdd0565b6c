/** The parsing and quality-filter stages: add the parsed timestamp, drop
    the rows where it is null, add the cleaned value, drop the rows where it
    is null, then keep the values in `[0, 10000)`. */
module Quality {
  import opened Options
  import opened Timestamps
  import opened Values
  import opened Sequences
  import opened Records

  /** The upper bound of the retained range, used by both the outlier count
      and the range filter. */
  const Limit: real := 10000.0

  // ---- Row-wise columns and filter predicates, as the job states them ----

  /** `parse_timestamp_udf(F.col("timestamp"))`: a null text gives a null
      instant, and a present instant is a valid date and time read from a
      present text. */
  function Stamp(r: RawReading): (s: Stamped)
    ensures s.raw == r
    ensures r.timestamp.None? ==> s.instant.None?
    ensures s.instant.Some? ==> r.timestamp.Some? && IsValid(s.instant.value)
  {
    Stamped(r, ParseMultiFormat(r.timestamp))
  }

  predicate LacksInstant(s: Stamped) { s.instant.None? }

  predicate HasInstant(s: Stamped) { s.instant.Some? }

  /** `clean_value_udf(F.col("consommation"))`, added beside the row's
      other columns: a null cell gives a null value. */
  function Measure(s: Stamped): (m: Measured)
    ensures m.raw == s.raw && m.instant == s.instant
    ensures s.raw.consumption.None? ==> m.value.None?
  {
    Measured(s.raw, s.instant, CleanValue(s.raw.consumption))
  }

  predicate LacksValue(m: Measured) { m.value.None? }

  predicate HasValue(m: Measured) { m.value.Some? }

  /** `consommation_clean < 0`; a null value compares as unknown and is not
      counted. A negative value is never also an outlier. */
  predicate IsNegative(m: Measured): (b: bool)
    ensures b ==> HasValue(m) && m.value.value < Limit
  {
    m.value.Some? && m.value.value < 0.0
  }

  /** `consommation_clean > 10000`, the outlier count's test. It leaves out
      a value of exactly 10000. */
  predicate IsOutlier(m: Measured): (b: bool)
    ensures b ==> HasValue(m) && m.value.value >= 0.0 && m.value != Some(Limit)
  {
    m.value.Some? && m.value.value > Limit
  }

  /** `(consommation_clean >= 0) & (consommation_clean < 10000)`, the range
      filter's test. A present value it rejects is negative, an outlier, or
      exactly 10000, and only one of these. */
  predicate InRange(m: Measured): (b: bool)
    ensures b ==> HasValue(m) && !IsNegative(m) && !IsOutlier(m)
    ensures HasValue(m) && !b ==>
      (IsNegative(m) || IsOutlier(m) || m.value == Some(Limit))
  {
    m.value.Some? && 0.0 <= m.value.value < Limit
  }

  /** The row the range filter emits. It is applied only to rows `InRange`
      accepts, which carry a value; the 0.0 is never used. */
  function Settle(m: Measured): CleanReading {
    CleanReading(m.raw, m.instant, if m.value.Some? then m.value.value else 0.0)
  }

  /** The range filter. */
  function KeepInRange(ms: seq<Measured>): (r: seq<CleanReading>)
    ensures forall c :: c in r ==> 0.0 <= c.value < Limit
  {
    var kept := Filter(ms, InRange);
    var r := Map(kept, Settle);
    assert forall i :: 0 <= i < |r| ==> kept[i] in kept;
    r
  }

  // ---- The fate of each raw row, stated on the raw row alone ----

  predicate TimestampRejected(r: RawReading) {
    ParseMultiFormat(r.timestamp).None?
  }

  predicate TimestampAccepted(r: RawReading) {
    !TimestampRejected(r)
  }

  predicate ValueRejected(r: RawReading) {
    !TimestampRejected(r) && CleanValue(r.consumption).None?
  }

  predicate ValueAccepted(r: RawReading) {
    !TimestampRejected(r) && CleanValue(r.consumption).Some?
  }

  predicate NegativeValue(r: RawReading) {
    !TimestampRejected(r) && CleanValue(r.consumption).Some? && CleanValue(r.consumption).value < 0.0
  }

  /** A value of exactly 10000: outside the retained range, yet not above it. */
  predicate AtLimit(r: RawReading) {
    !TimestampRejected(r) && CleanValue(r.consumption) == Some(Limit)
  }

  predicate AboveLimit(r: RawReading) {
    !TimestampRejected(r) && CleanValue(r.consumption).Some? && CleanValue(r.consumption).value > Limit
  }

  predicate Retained(r: RawReading) {
    && !TimestampRejected(r)
    && CleanValue(r.consumption).Some?
    && 0.0 <= CleanValue(r.consumption).value < Limit
  }

  /** The row a raw row becomes once both columns are added. */
  function ToMeasured(r: RawReading): Measured {
    Measure(Stamp(r))
  }

  /** The clean row a retained raw row becomes. */
  function ToClean(r: RawReading): CleanReading {
    Settle(ToMeasured(r))
  }

  /** The rows that pass every quality filter, in input order. */
  function CleanRows(raws: seq<RawReading>): (r: seq<CleanReading>)
    ensures forall c :: c in r ==>
      && c.instant.Some? && IsValid(c.instant.value)
      && c.instant == ParseMultiFormat(c.raw.timestamp)
      && CleanValue(c.raw.consumption) == Some(c.value)
      && 0.0 <= c.value < Limit
  {
    var kept := Filter(raws, Retained);
    var r := Map(kept, ToClean);
    assert forall i :: 0 <= i < |r| ==> kept[i] in kept;
    r
  }

  /** Every raw row meets exactly one fate. */
  lemma OneFate(r: RawReading)
    ensures TimestampRejected(r) || ValueRejected(r) || NegativeValue(r) || AtLimit(r) || AboveLimit(r) || Retained(r)
    ensures !(TimestampRejected(r) && (ValueRejected(r) || NegativeValue(r) || AtLimit(r) || AboveLimit(r) || Retained(r)))
    ensures !(ValueRejected(r) && (NegativeValue(r) || AtLimit(r) || AboveLimit(r) || Retained(r)))
    ensures !(NegativeValue(r) && (AtLimit(r) || AboveLimit(r) || Retained(r)))
    ensures !(AtLimit(r) && (AboveLimit(r) || Retained(r)))
    ensures !(AboveLimit(r) && Retained(r))
  {
  }

  /** The six fates partition the input, so their counts add up to it. */
  lemma FateCounts(raws: seq<RawReading>)
    ensures |raws| ==
      |Filter(raws, TimestampRejected)| + |Filter(raws, ValueRejected)| + |Filter(raws, NegativeValue)|
      + |Filter(raws, AtLimit)| + |Filter(raws, AboveLimit)| + |Filter(raws, Retained)|
  {
    var parsed := (r: RawReading) => !TimestampRejected(r);
    var valued := (r: RawReading) => parsed(r) && CleanValue(r.consumption).Some?;
    var nonNegative := (r: RawReading) => valued(r) && CleanValue(r.consumption).value >= 0.0;
    var atOrAbove := (r: RawReading) => AtLimit(r) || AboveLimit(r);
    var all := (r: RawReading) => true;
    FilterAll(raws, all);
    CountSplit(raws, all, TimestampRejected, parsed);
    CountSplit(raws, parsed, ValueRejected, valued);
    CountSplit(raws, valued, NegativeValue, nonNegative);
    CountSplit(raws, nonNegative, atOrAbove, Retained);
    CountSplit(raws, atOrAbove, AtLimit, AboveLimit);
  }

  // ---- Each stage, restated on the raw rows ----

  /** Adding `timestamp_parsed`: the null count is the rows whose text no
      format reads, and the rows kept are the others, in order. */
  lemma StampStage(raws: seq<RawReading>)
    ensures |Filter(Map(raws, Stamp), LacksInstant)| == |Filter(raws, TimestampRejected)|
    ensures Map(Filter(Map(raws, Stamp), HasInstant), Measure) == Map(Filter(raws, TimestampAccepted), ToMeasured)
  {
    FilterMap(raws, Stamp, LacksInstant, TimestampRejected);
    FilterMap(raws, Stamp, HasInstant, TimestampAccepted);
    var kept := Filter(raws, TimestampAccepted);
    assert Map(Map(kept, Stamp), Measure) == Map(kept, ToMeasured);
  }

  /** Adding `consommation_clean` and dropping its nulls keeps the rows
      whose timestamp and value both parse, in order. */
  lemma ValueStage(raws: seq<RawReading>)
    ensures |Filter(Map(Filter(raws, TimestampAccepted), ToMeasured), LacksValue)| == |Filter(raws, ValueRejected)|
    ensures Filter(Map(Filter(raws, TimestampAccepted), ToMeasured), HasValue) == Map(Filter(raws, ValueAccepted), ToMeasured)
  {
    var kept := Filter(raws, TimestampAccepted);
    var lacks := (r: RawReading) => LacksValue(ToMeasured(r));
    var has := (r: RawReading) => HasValue(ToMeasured(r));
    FilterMap(kept, ToMeasured, LacksValue, lacks);
    FilterFilter(raws, TimestampAccepted, lacks, ValueRejected);
    FilterMap(kept, ToMeasured, HasValue, has);
    FilterFilter(raws, TimestampAccepted, has, ValueAccepted);
  }

  /** Counting null values again once they are gone finds none, and
      dropping them again changes nothing. */
  lemma RecountStage(ms: seq<Measured>)
    requires forall m :: m in ms ==> HasValue(m)
    ensures Filter(ms, LacksValue) == []
    ensures Filter(ms, HasValue) == ms
  {
    FilterNone(ms, LacksValue);
    FilterAll(ms, HasValue);
  }

  /** The negative and outlier counts and the range filter, on the raw rows. */
  lemma RangeStage(raws: seq<RawReading>)
    ensures |Filter(Map(Filter(raws, ValueAccepted), ToMeasured), IsNegative)| == |Filter(raws, NegativeValue)|
    ensures |Filter(Map(Filter(raws, ValueAccepted), ToMeasured), IsOutlier)| == |Filter(raws, AboveLimit)|
    ensures KeepInRange(Map(Filter(raws, ValueAccepted), ToMeasured)) == CleanRows(raws)
  {
    var kept := Filter(raws, ValueAccepted);
    var negative := (r: RawReading) => IsNegative(ToMeasured(r));
    var outlier := (r: RawReading) => IsOutlier(ToMeasured(r));
    var inRange := (r: RawReading) => InRange(ToMeasured(r));
    FilterMap(kept, ToMeasured, IsNegative, negative);
    FilterFilter(raws, ValueAccepted, negative, NegativeValue);
    FilterMap(kept, ToMeasured, IsOutlier, outlier);
    FilterFilter(raws, ValueAccepted, outlier, AboveLimit);
    FilterMap(kept, ToMeasured, InRange, inRange);
    FilterFilter(raws, ValueAccepted, inRange, Retained);
    var retained := Filter(raws, Retained);
    assert Map(Map(retained, ToMeasured), Settle) == Map(retained, ToClean);
  }
}
