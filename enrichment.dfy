/** Temporal decomposition of the clean rows, and the left join that adds
    each row's `commune` from the building reference. */
module Enrichment {
  import opened Options
  import opened Timestamps
  import opened Sequences
  import opened Records

  /** `to_date`, `hour`, `year` and `month` of the parsed instant; each is
      null when the instant is. */
  function Decorate(c: CleanReading): (d: Decorated)
    ensures d.reading == c
    ensures c.instant.None? ==> d.date.None? && d.hour.None? && d.year.None? && d.month.None?
    ensures c.instant.Some? && IsValid(c.instant.value) ==>
      && d.date.Some? && d.hour.Some? && d.year.Some? && d.month.Some?
      && 0 <= d.hour.value <= 23
      && 1 <= d.month.value <= 12
      && d.month.value == d.date.value.month
      && 1 <= d.date.value.day <= DaysInMonth(d.date.value.year, d.date.value.month)
      && d.year.value == d.date.value.year
    ensures c.instant.Some? ==>
      var t := c.instant.value;
      && d.date == Some(Date(t.year, t.month, t.day))
      && d.hour == Some(t.hour) && d.year == Some(t.year) && d.month == Some(t.month)
  {
    match c.instant
    case None => Decorated(c, None, None, None, None)
    case Some(t) => Decorated(c, Some(Date(t.year, t.month, t.day)), Some(t.hour), Some(t.year), Some(t.month))
  }

  /** The date and hour are read back from the instant, with nothing lost
      but minutes and seconds. */
  lemma DecomposeRecoversInstant(c: CleanReading)
    requires c.instant.Some?
    ensures var d := Decorate(c); var t := c.instant.value;
      DateTime(d.date.value.year, d.date.value.month, d.date.value.day, d.hour.value, t.minute, t.second) == t
  {
  }

  // ---- The left join on `batiment_id` ----

  /** Whether a reference row names `site`: the join condition. */
  function NamesSite(site: string): BuildingRef -> bool {
    (r: BuildingRef) => r.siteId == site
  }

  /** The reference rows that name `site`, in reference order. */
  function RefsFor(refs: seq<BuildingRef>, site: string): seq<BuildingRef> {
    Filter(refs, NamesSite(site))
  }

  /** The communes the reference gives a site: one per reference row that
      names it, in reference order. */
  function CommunesOf(refs: seq<BuildingRef>, site: string): (cs: seq<string>)
    ensures |cs| == |RefsFor(refs, site)|
    ensures forall i :: 0 <= i < |cs| ==> RefsFor(refs, site)[i] == BuildingRef(site, cs[i])
    ensures forall c :: c in cs <==> BuildingRef(site, c) in refs
  {
    var rs := RefsFor(refs, site);
    var cs := Map(rs, (r: BuildingRef) => r.commune);
    assert forall i :: 0 <= i < |cs| ==> rs[i] in rs;
    forall c | BuildingRef(site, c) in refs ensures c in cs {
      var i :| 0 <= i < |rs| && rs[i] == BuildingRef(site, c);
      assert cs[i] == c;
    }
    cs
  }

  /** How many joined rows one left row yields: one per reference row for
      its site, or a single row when there is none. */
  function Fanout(d: Decorated, refs: seq<BuildingRef>): nat {
    var m := |RefsFor(refs, d.reading.raw.siteId)|;
    if m == 0 then 1 else m
  }

  /** The joined row of `d` with commune `c`. */
  function WithCommune(d: Decorated): string -> Enriched {
    (c: string) => Enriched(d, Some(c))
  }

  /** The rows tagged with a list of communes are exactly `d` with each of
      those communes. */
  lemma TaggedRows(d: Decorated, cs: seq<string>)
    ensures forall e :: e in Map(cs, WithCommune(d)) <==> e.row == d && e.commune.Some? && e.commune.value in cs
  {
    var es := Map(cs, WithCommune(d));
    forall e | e in es ensures e.row == d && e.commune.Some? && e.commune.value in cs {
      var i :| 0 <= i < |es| && es[i] == e;
      assert e == Enriched(d, Some(cs[i]));
    }
    forall c | c in cs ensures Enriched(d, Some(c)) in es {
      var i :| 0 <= i < |cs| && cs[i] == c;
      assert es[i] == Enriched(d, Some(c));
    }
  }

  /** The joined rows of one left row: one per matching reference row, or a
      single row with a null commune when none matches. */
  function JoinRow(d: Decorated, refs: seq<BuildingRef>): (es: seq<Enriched>)
    ensures |es| == Fanout(d, refs) >= 1
    ensures forall c :: Enriched(d, Some(c)) in es <==> BuildingRef(d.reading.raw.siteId, c) in refs
    ensures forall e :: e in es ==> e.row == d
    ensures forall e :: e in es && e.commune.Some? ==> BuildingRef(d.reading.raw.siteId, e.commune.value) in refs
    ensures forall e :: e in es && e.commune.None? ==>
      forall r :: r in refs ==> r.siteId != d.reading.raw.siteId
  {
    var cs := CommunesOf(refs, d.reading.raw.siteId);
    if cs == [] then [Enriched(d, None)]
    else
      TaggedRows(d, cs);
      Map(cs, WithCommune(d))
  }

  /** The number of joined rows a dataset yields. */
  function TotalFanout(rows: seq<Decorated>, refs: seq<BuildingRef>): nat {
    if rows == [] then 0
    else TotalFanout(rows[..|rows| - 1], refs) + Fanout(rows[|rows| - 1], refs)
  }

  /** `df.join(ref, on="batiment_id", how="left")`, keeping the order of
      the left rows. */
  function LeftJoin(rows: seq<Decorated>, refs: seq<BuildingRef>): (r: seq<Enriched>)
    ensures |r| >= |rows|
    ensures forall e :: e in r ==> e.row in rows
    ensures forall d :: d in rows ==> exists e :: e in r && e.row == d
    ensures forall e :: e in r && e.commune.Some? ==> BuildingRef(e.row.reading.raw.siteId, e.commune.value) in refs
    ensures forall e :: e in r && e.commune.None? ==>
      forall ref :: ref in refs ==> ref.siteId != e.row.reading.raw.siteId
  {
    if rows == [] then []
    else
      var init, last := rows[..|rows| - 1], rows[|rows| - 1];
      assert rows == init + [last];
      var left, right := LeftJoin(init, refs), JoinRow(last, refs);
      JoinedAppend(init, last, refs, left, right);
      left + right
  }

  /** The joined rows of a dataset, followed by the joined rows of one more
      row, are the joined rows of the longer dataset. */
  lemma JoinedAppend(init: seq<Decorated>, last: Decorated, refs: seq<BuildingRef>,
                     left: seq<Enriched>, right: seq<Enriched>)
    requires |left| >= |init|
    requires forall e :: e in left ==> e.row in init
    requires forall d :: d in init ==> exists e :: e in left && e.row == d
    requires forall e :: e in left && e.commune.Some? ==> BuildingRef(e.row.reading.raw.siteId, e.commune.value) in refs
    requires forall e :: e in left && e.commune.None? ==>
      forall ref :: ref in refs ==> ref.siteId != e.row.reading.raw.siteId
    requires |right| >= 1
    requires forall e :: e in right ==> e.row == last
    requires forall e :: e in right && e.commune.Some? ==> BuildingRef(last.reading.raw.siteId, e.commune.value) in refs
    requires forall e :: e in right && e.commune.None? ==>
      forall ref :: ref in refs ==> ref.siteId != last.reading.raw.siteId
    ensures var rows, r := init + [last], left + right;
      && |r| >= |rows|
      && (forall e :: e in r ==> e.row in rows)
      && (forall d :: d in rows ==> exists e :: e in r && e.row == d)
      && (forall e :: e in r && e.commune.Some? ==> BuildingRef(e.row.reading.raw.siteId, e.commune.value) in refs)
      && (forall e :: e in r && e.commune.None? ==>
            forall ref :: ref in refs ==> ref.siteId != e.row.reading.raw.siteId)
  {
    var rows, r := init + [last], left + right;
    forall d | d in rows ensures exists e :: e in r && e.row == d {
      if d == last {
        assert right[0] in r;
      } else {
        var e :| e in left && e.row == d;
        assert e in r;
      }
    }
  }

  /** No two reference rows describe the same site. */
  predicate SiteUnique(refs: seq<BuildingRef>) {
    forall i, j :: 0 <= i < j < |refs| ==> refs[i].siteId != refs[j].siteId
  }

  /** The commune of the first reference row for `site`. */
  function Lookup(refs: seq<BuildingRef>, site: string): (c: Option<string>)
    ensures c.Some? ==> BuildingRef(site, c.value) in refs
    ensures c.None? ==> forall r :: r in refs ==> r.siteId != site
  {
    if refs == [] then None
    else if refs[0].siteId == site then Some(refs[0].commune)
    else Lookup(refs[1..], site)
  }

  /** With unique sites, at most one reference row names a site. */
  lemma {:induction false} UniqueSiteMatchesOnce(refs: seq<BuildingRef>, site: string)
    requires SiteUnique(refs)
    ensures |RefsFor(refs, site)| <= 1
  {
    if refs != [] {
      var init, last := refs[..|refs| - 1], refs[|refs| - 1];
      assert refs == init + [last];
      assert SiteUnique(init) by {
        forall i, j | 0 <= i < j < |init| ensures init[i].siteId != init[j].siteId {
          assert init[i] == refs[i] && init[j] == refs[j];
        }
      }
      UniqueSiteMatchesOnce(init, site);
      FilterSnoc(init, last, NamesSite(site));
      if last.siteId == site {
        forall x | x in init ensures !NamesSite(site)(x) {
          var i :| 0 <= i < |init| && init[i] == x;
          assert refs[i] == x;
        }
        FilterNone(init, NamesSite(site));
      }
    }
  }

  lemma CommunesOfUnique(refs: seq<BuildingRef>, site: string)
    requires SiteUnique(refs)
    ensures CommunesOf(refs, site) == if Lookup(refs, site).Some? then [Lookup(refs, site).value] else []
  {
    var rs := RefsFor(refs, site);
    UniqueSiteMatchesOnce(refs, site);
    match Lookup(refs, site)
    case None =>
      FilterNone(refs, NamesSite(site));
    case Some(v) =>
      assert BuildingRef(site, v) in rs;
  }

  lemma LeftJoinSnoc(rows: seq<Decorated>, d: Decorated, refs: seq<BuildingRef>)
    ensures LeftJoin(rows + [d], refs) == LeftJoin(rows, refs) + JoinRow(d, refs)
  {
    assert (rows + [d])[..|rows|] == rows;
  }

  /** The joined rows of one left row, in order: the row with the commune of
      each reference row for its site, or the row with a null commune when
      there is none. */
  lemma JoinRowInOrder(d: Decorated, refs: seq<BuildingRef>)
    ensures var rs := RefsFor(refs, d.reading.raw.siteId);
      && (rs == [] ==> JoinRow(d, refs) == [Enriched(d, None)])
      && (forall i :: 0 <= i < |rs| ==> JoinRow(d, refs)[i] == Enriched(d, Some(rs[i].commune)))
  {
    var site := d.reading.raw.siteId;
    var cs := CommunesOf(refs, site);
    if cs != [] {
      forall i | 0 <= i < |RefsFor(refs, site)|
        ensures JoinRow(d, refs)[i] == Enriched(d, Some(RefsFor(refs, site)[i].commune))
      {
        assert RefsFor(refs, site)[i] == BuildingRef(site, cs[i]);
      }
    }
  }

  /** The join's fan-out: each left row yields `Fanout` joined rows, and
      every pair of a left row and a reference row for its site is among
      them. */
  lemma {:induction false} LeftJoinFanout(rows: seq<Decorated>, refs: seq<BuildingRef>)
    ensures |LeftJoin(rows, refs)| == TotalFanout(rows, refs)
    ensures forall d, ref :: d in rows && ref in refs && ref.siteId == d.reading.raw.siteId ==>
      Enriched(d, Some(ref.commune)) in LeftJoin(rows, refs)
  {
    if rows != [] {
      var init, last := rows[..|rows| - 1], rows[|rows| - 1];
      assert rows == init + [last];
      LeftJoinFanout(init, refs);
      LeftJoinSnoc(init, last, refs);
      forall d, ref | d in rows && ref in refs && ref.siteId == d.reading.raw.siteId
        ensures Enriched(d, Some(ref.commune)) in LeftJoin(rows, refs)
      {
        if d == last {
          assert ref == BuildingRef(last.reading.raw.siteId, ref.commune);
          assert Enriched(d, Some(ref.commune)) in JoinRow(last, refs);
        } else {
          assert d in init;
        }
      }
    }
  }

  /** A site the reference lists under two communes yields two joined rows,
    one per commune, so a join that kept only the first match would differ. */
  lemma SiteListedTwiceFansOut(d: Decorated, a: string, b: string)
    ensures var refs := [BuildingRef(d.reading.raw.siteId, a), BuildingRef(d.reading.raw.siteId, b)];
      LeftJoin([d], refs) == [Enriched(d, Some(a)), Enriched(d, Some(b))]
  {
    var refs := [BuildingRef(d.reading.raw.siteId, a), BuildingRef(d.reading.raw.siteId, b)];
    TwoCommunesTwoRows(d, refs, a, b);
    LeftJoinSnoc([], d, refs);
    assert [] + [d] == [d];
  }

  lemma TwoCommunesTwoRows(d: Decorated, refs: seq<BuildingRef>, a: string, b: string)
    requires refs == [BuildingRef(d.reading.raw.siteId, a), BuildingRef(d.reading.raw.siteId, b)]
    ensures JoinRow(d, refs) == [Enriched(d, Some(a)), Enriched(d, Some(b))]
  {
    assert RefsFor(refs, d.reading.raw.siteId) == refs by {
      FilterAll(refs, NamesSite(d.reading.raw.siteId));
    }
    JoinRowInOrder(d, refs);
  }

  /** When each site appears at most once in the reference, the join keeps
      every row exactly once, in order, with the site's commune or null. */
  lemma {:induction false} LeftJoinOneToOne(rows: seq<Decorated>, refs: seq<BuildingRef>)
    requires SiteUnique(refs)
    ensures |LeftJoin(rows, refs)| == |rows|
    ensures forall i :: 0 <= i < |rows| ==>
      LeftJoin(rows, refs)[i] == Enriched(rows[i], Lookup(refs, rows[i].reading.raw.siteId))
  {
    if rows != [] {
      var init, last := rows[..|rows| - 1], rows[|rows| - 1];
      assert rows == init + [last];
      LeftJoinOneToOne(init, refs);
      LeftJoinSnoc(init, last, refs);
      JoinRowOneToOne(last, refs);
      var left := LeftJoin(init, refs);
      var r := left + [Enriched(last, Lookup(refs, last.reading.raw.siteId))];
      assert LeftJoin(rows, refs) == r;
      LookedUpSnoc(init, last, refs, left);
    }
  }

  /** Appending a row and its looked-up commune keeps a row-by-row lookup. */
  lemma LookedUpSnoc(init: seq<Decorated>, last: Decorated, refs: seq<BuildingRef>, left: seq<Enriched>)
    requires |left| == |init|
    requires forall i :: 0 <= i < |init| ==> left[i] == Enriched(init[i], Lookup(refs, init[i].reading.raw.siteId))
    ensures var rows, r := init + [last], left + [Enriched(last, Lookup(refs, last.reading.raw.siteId))];
      forall i :: 0 <= i < |rows| ==> r[i] == Enriched(rows[i], Lookup(refs, rows[i].reading.raw.siteId))
  {
  }

  lemma JoinRowOneToOne(d: Decorated, refs: seq<BuildingRef>)
    requires SiteUnique(refs)
    ensures JoinRow(d, refs) == [Enriched(d, Lookup(refs, d.reading.raw.siteId))]
  {
    CommunesOfUnique(refs, d.reading.raw.siteId);
    var cs := CommunesOf(refs, d.reading.raw.siteId);
    if cs != [] {
      assert Map(cs, WithCommune(d)) == [Enriched(d, Some(cs[0]))];
    }
  }
}
