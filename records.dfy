/** The rows each stage of the cleaning job produces. Every stage builds a
    new dataset; columns the source leaves nullable stay `Option`. */
module Records {
  import opened Options
  import opened Timestamps

  /** One line of the raw consumption file: `batiment_id`, `timestamp`,
      `type_energie`, `consommation`, `unite`; the two text cells the job
      parses may be empty, which the reader turns into null. */
  datatype RawReading = RawReading(
    siteId: string,
    timestamp: Option<string>,
    energy: string,
    consumption: Option<string>,
    unit: string)

  /** A raw row with its `timestamp_parsed` column. */
  datatype Stamped = Stamped(raw: RawReading, instant: Option<DateTime>)

  /** A row with its `consommation_clean` column as well. */
  datatype Measured = Measured(raw: RawReading, instant: Option<DateTime>, value: Option<real>)

  /** A row the range filter kept; the filter rejects a null value, so the
      value is present. */
  datatype CleanReading = CleanReading(raw: RawReading, instant: Option<DateTime>, value: real)

  /** A calendar date, as `to_date` gives it. */
  datatype Date = Date(year: int, month: int, day: int)

  /** A clean row with the `date`, `hour`, `year` and `month` columns. */
  datatype Decorated = Decorated(
    reading: CleanReading,
    date: Option<Date>,
    hour: Option<int>,
    year: Option<int>,
    month: Option<int>)

  /** One row of the building reference, projected on `batiment_id` and `commune`. */
  datatype BuildingRef = BuildingRef(siteId: string, commune: string)

  /** A decorated row with the `commune` the left join found, or null. */
  datatype Enriched = Enriched(row: Decorated, commune: Option<string>)
}
