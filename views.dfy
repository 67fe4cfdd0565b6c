/** The three aggregated views the job computes from the decorated rows:
    per site, energy and hour; per site, energy and month; and per commune,
    energy and month after the join. */
module Views {
  import opened Options
  import opened Sequences
  import opened Records
  import opened Grouping
  import opened Enrichment

  function Consumption(d: Decorated): real { d.reading.value }

  function SiteOf(d: Decorated): string { d.reading.raw.siteId }

  /** The columns the hourly and monthly views share: mean, min, max and
      row count of `consommation_clean` per key. */
  datatype ReadingStats<K> = ReadingStats(key: K, mean: real, least: real, greatest: real, count: nat)

  function ToStats<K>(s: Summary<K, string>): ReadingStats<K> {
    ReadingStats(s.key, Mean(s), s.least, s.greatest, s.count)
  }

  /** What one output row says about the rows of its key. */
  predicate StatsOfGroup<K(==)>(h: ReadingStats<K>, rows: seq<Decorated>, key: Decorated -> K) {
    var g := Group(rows, key, h.key);
    && h.count == |g| > 0
    && h.mean == Sum(Map(g, Consumption)) / |g| as real
    && h.least <= h.mean <= h.greatest
    && (forall d :: d in g ==> h.least <= d.reading.value <= h.greatest)
    && (exists d :: d in g && d.reading.value == h.least)
    && (exists d :: d in g && d.reading.value == h.greatest)
  }

  lemma SummaryStats<K>(s: Summary<K, string>, rows: seq<Decorated>, key: Decorated -> K)
    requires Describes(s, rows, key, Consumption, SiteOf)
    ensures StatsOfGroup(ToStats(s), rows, key)
  {
    SummaryBounds(s, rows, key, Consumption, SiteOf);
  }

  /** `groupBy(key).agg(mean, min, max, count("*"))` on the decorated rows. */
  function StatsView<K(==)>(rows: seq<Decorated>, key: Decorated -> K): (r: seq<ReadingStats<K>>)
    ensures forall i, j :: 0 <= i < j < |r| ==> r[i].key != r[j].key
    ensures forall d :: d in rows ==> exists i :: 0 <= i < |r| && r[i].key == key(d)
    ensures forall h :: h in r ==> StatsOfGroup(h, rows, key)
  {
    var g := GroupBy(rows, key, Consumption, SiteOf);
    StatsRowsDescribe(g, rows, key);
    Map(g, ToStats)
  }

  lemma StatsRowsDescribe<K>(g: seq<Summary<K, string>>, rows: seq<Decorated>, key: Decorated -> K)
    requires forall s :: s in g ==> Describes(s, rows, key, Consumption, SiteOf)
    ensures forall h :: h in Map(g, ToStats) ==> StatsOfGroup(h, rows, key)
  {
    var r := Map(g, ToStats);
    forall i | 0 <= i < |g|
      ensures StatsOfGroup(r[i], rows, key)
    {
      assert g[i] in g;
      SummaryStats(g[i], rows, key);
    }
  }

  /** The row counts of the view add up to the rows. */
  lemma StatsCountsCoverRows<K>(rows: seq<Decorated>, key: Decorated -> K)
    ensures Tally(StatsView(rows, key), (h: ReadingStats<K>) => h.count) == |rows|
  {
    var g := GroupBy(rows, key, Consumption, SiteOf);
    TallyMap(g, ToStats, (h: ReadingStats<K>) => h.count, (s: Summary<K, string>) => s.count);
    CountsCoverRows(rows, key, Consumption, SiteOf);
  }

  /** Values within bounds give a min, mean and max within the same bounds. */
  lemma StatsWithin<K>(rows: seq<Decorated>, key: Decorated -> K, lo: real, hi: real)
    requires forall d :: d in rows ==> lo <= d.reading.value < hi
    ensures forall h :: h in StatsView(rows, key) ==> lo <= h.least <= h.mean <= h.greatest < hi
  {
    forall h | h in StatsView(rows, key)
      ensures lo <= h.least && h.greatest < hi
    {
      var g := Group(rows, key, h.key);
      var a :| a in g && a.reading.value == h.least;
      var b :| b in g && b.reading.value == h.greatest;
    }
  }

  // ---- By hour: `batiment_id, type_energie, date, hour, year, month` ----

  datatype HourKey = HourKey(
    siteId: string, energy: string, date: Option<Date>, hour: Option<int>, year: Option<int>, month: Option<int>)

  /** The hourly key of a row. It determines the monthly key, so each hourly
      group lies inside one monthly group; on a decorated row its date and
      hour are the instant's. */
  function HourKeyOf(d: Decorated): (k: HourKey)
    ensures MonthKeyOf(d) == MonthKey(k.siteId, k.energy, k.year, k.month)
    ensures d == Decorate(d.reading) && d.reading.instant.Some? ==>
      var t := d.reading.instant.value;
      k.date == Some(Date(t.year, t.month, t.day)) && k.hour == Some(t.hour)
  {
    HourKey(d.reading.raw.siteId, d.reading.raw.energy, d.date, d.hour, d.year, d.month)
  }

  /** `df_by_hour`; its count column is `consommation_par_jour`. */
  function HourlyView(rows: seq<Decorated>): (r: seq<ReadingStats<HourKey>>)
    ensures forall i, j :: 0 <= i < j < |r| ==> r[i].key != r[j].key
    ensures forall d :: d in rows ==> exists i :: 0 <= i < |r| && r[i].key == HourKeyOf(d)
    ensures forall h :: h in r ==> StatsOfGroup(h, rows, HourKeyOf)
  {
    StatsView(rows, HourKeyOf)
  }

  // ---- By month: `batiment_id, type_energie, year, month` ----

  datatype MonthKey = MonthKey(siteId: string, energy: string, year: Option<int>, month: Option<int>)

  /** The monthly key of a row: its site and energy, and on a decorated row
      the instant's year and month, or nulls when there is no instant. */
  function MonthKeyOf(d: Decorated): (k: MonthKey)
    ensures k.siteId == SiteOf(d)
    ensures d == Decorate(d.reading) ==>
      && (d.reading.instant.None? ==> k.year.None? && k.month.None?)
      && (d.reading.instant.Some? ==>
            k.year == Some(d.reading.instant.value.year) && k.month == Some(d.reading.instant.value.month))
  {
    MonthKey(d.reading.raw.siteId, d.reading.raw.energy, d.year, d.month)
  }

  /** `df_by_month`; its count column is `consommation_par_mois`. */
  function MonthlyView(rows: seq<Decorated>): (r: seq<ReadingStats<MonthKey>>)
    ensures forall i, j :: 0 <= i < j < |r| ==> r[i].key != r[j].key
    ensures forall d :: d in rows ==> exists i :: 0 <= i < |r| && r[i].key == MonthKeyOf(d)
    ensures forall m :: m in r ==> StatsOfGroup(m, rows, MonthKeyOf)
  {
    StatsView(rows, MonthKeyOf)
  }

  // ---- By commune: `commune, type_energie, year, month` on the joined rows ----

  datatype CommuneKey = CommuneKey(commune: Option<string>, energy: string, year: Option<int>, month: Option<int>)

  datatype CommuneRow = CommuneRow(key: CommuneKey, total: real, mean: real, activeSites: nat)

  /** The commune key of a joined row: its monthly key with the site
      replaced by the joined commune. */
  function CommuneKeyOf(e: Enriched): (k: CommuneKey)
    ensures k.commune == e.commune
    ensures MonthKeyOf(e.row) == MonthKey(JoinedSite(e), k.energy, k.year, k.month)
  {
    CommuneKey(e.commune, e.row.reading.raw.energy, e.row.year, e.row.month)
  }

  function JoinedConsumption(e: Enriched): real { e.row.reading.value }

  function JoinedSite(e: Enriched): string { e.row.reading.raw.siteId }

  function ToCommune(s: Summary<CommuneKey, string>): CommuneRow {
    CommuneRow(s.key, s.total, Mean(s), |s.sites|)
  }

  /** What one output row says about the joined rows of its key. */
  predicate TotalsOfGroup(c: CommuneRow, rows: seq<Enriched>) {
    var g := Group(rows, CommuneKeyOf, c.key);
    && |g| > 0
    && c.total == Sum(Map(g, JoinedConsumption))
    && c.mean == c.total / |g| as real
    && c.activeSites == |Sites(g, JoinedSite)|
    && 1 <= c.activeSites <= |g|
  }

  lemma SummaryTotals(s: Summary<CommuneKey, string>, rows: seq<Enriched>)
    requires Describes(s, rows, CommuneKeyOf, JoinedConsumption, JoinedSite)
    ensures TotalsOfGroup(ToCommune(s), rows)
  {
    SummaryBounds(s, rows, CommuneKeyOf, JoinedConsumption, JoinedSite);
  }

  /** `df_by_commune_month`: `consommation_totale`, `consommation_moyenne`
      and `nb_batiments_actifs` per key. */
  function CommuneView(rows: seq<Enriched>): (r: seq<CommuneRow>)
    ensures forall i, j :: 0 <= i < j < |r| ==> r[i].key != r[j].key
    ensures forall e :: e in rows ==> exists i :: 0 <= i < |r| && r[i].key == CommuneKeyOf(e)
    ensures forall c :: c in r ==> TotalsOfGroup(c, rows)
  {
    var g := GroupBy(rows, CommuneKeyOf, JoinedConsumption, JoinedSite);
    CommuneRowsTotals(g, rows);
    Map(g, ToCommune)
  }

  lemma CommuneRowsTotals(g: seq<Summary<CommuneKey, string>>, rows: seq<Enriched>)
    requires forall s :: s in g ==> Describes(s, rows, CommuneKeyOf, JoinedConsumption, JoinedSite)
    ensures forall c :: c in Map(g, ToCommune) ==> TotalsOfGroup(c, rows)
  {
    var r := Map(g, ToCommune);
    forall i | 0 <= i < |g|
      ensures TotalsOfGroup(r[i], rows)
    {
      assert g[i] in g;
      SummaryTotals(g[i], rows);
    }
  }

  /** The commune view's rows cover every joined row once. */
  lemma CommuneCountsCoverRows(rows: seq<Enriched>)
    ensures Tally(CommuneView(rows), (c: CommuneRow) => |Group(rows, CommuneKeyOf, c.key)|) == |rows|
  {
    var g := GroupBy(rows, CommuneKeyOf, JoinedConsumption, JoinedSite);
    forall s | s in g
      ensures s.count == |Group(rows, CommuneKeyOf, ToCommune(s).key)|
    {
    }
    TallyMap(g, ToCommune, (c: CommuneRow) => |Group(rows, CommuneKeyOf, c.key)|,
      (s: Summary<CommuneKey, string>) => |Group(rows, CommuneKeyOf, s.key)|);
    TallyCongruent(g, (s: Summary<CommuneKey, string>) => |Group(rows, CommuneKeyOf, s.key)|,
      (s: Summary<CommuneKey, string>) => s.count);
    CountsCoverRows(rows, CommuneKeyOf, JoinedConsumption, JoinedSite);
  }

  /** The sites the reference places in commune `c`. */
  function ReferenceSites(refs: seq<BuildingRef>, c: string): set<string> {
    set r | r in refs && r.commune == c :: r.siteId
  }

  /** After the left join, every site grouped under a commune is one the
      reference places in it. */
  lemma GroupSitesInReference(rows: seq<Decorated>, refs: seq<BuildingRef>, k: CommuneKey)
    requires k.commune.Some?
    ensures Sites(Group(LeftJoin(rows, refs), CommuneKeyOf, k), JoinedSite) <= ReferenceSites(refs, k.commune.value)
  {
    var g := Group(LeftJoin(rows, refs), CommuneKeyOf, k);
    forall s | s in Sites(g, JoinedSite)
      ensures s in ReferenceSites(refs, k.commune.value)
    {
      var e :| e in g && JoinedSite(e) == s;
      assert BuildingRef(s, k.commune.value) in refs;
    }
  }

  lemma {:induction false} SubsetAtMost<S>(a: set<S>, b: set<S>)
    requires a <= b
    ensures |a| <= |b|
  {
    if a != {} {
      var x :| x in a;
      SubsetAtMost(a - {x}, b - {x});
    }
  }

  /** After the left join, a commune never has more active sites than the
      reference places in it. */
  lemma ActiveSitesWithinReference(rows: seq<Decorated>, refs: seq<BuildingRef>, c: CommuneRow)
    requires c in CommuneView(LeftJoin(rows, refs)) && c.key.commune.Some?
    ensures c.activeSites <= |ReferenceSites(refs, c.key.commune.value)|
  {
    GroupSitesInReference(rows, refs, c.key);
    SubsetAtMost(Sites(Group(LeftJoin(rows, refs), CommuneKeyOf, c.key), JoinedSite),
      ReferenceSites(refs, c.key.commune.value));
  }
}
