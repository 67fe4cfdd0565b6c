/** `groupBy(...).agg(...)`: one summary per distinct key, with the
    aggregate functions the job uses (`count("*")`, `sum`, `mean`, `min`,
    `max`, `countDistinct`). Exact arithmetic; see the README for rounding. */
module Grouping {
  import opened Sequences

  // ---- Aggregate functions over a column ----

  function Sum(vs: seq<real>): real {
    if vs == [] then 0.0 else Sum(vs[..|vs| - 1]) + vs[|vs| - 1]
  }

  function Least(vs: seq<real>): (m: real)
    requires |vs| > 0
    ensures m in vs
    ensures forall v :: v in vs ==> m <= v
  {
    if |vs| == 1 then vs[0]
    else
      var init := vs[..|vs| - 1];
      assert vs == init + [vs[|vs| - 1]];
      var m := Least(init);
      if vs[|vs| - 1] < m then vs[|vs| - 1] else m
  }

  function Greatest(vs: seq<real>): (m: real)
    requires |vs| > 0
    ensures m in vs
    ensures forall v :: v in vs ==> v <= m
  {
    if |vs| == 1 then vs[0]
    else
      var init := vs[..|vs| - 1];
      assert vs == init + [vs[|vs| - 1]];
      var m := Greatest(init);
      if vs[|vs| - 1] > m then vs[|vs| - 1] else m
  }

  /** A sum lies between the count times the smallest and the count times
      the largest term. */
  lemma {:induction false} SumAtLeast(vs: seq<real>, lo: real)
    requires forall v :: v in vs ==> lo <= v
    ensures |vs| as real * lo <= Sum(vs)
  {
    if vs != [] {
      var init, last := vs[..|vs| - 1], vs[|vs| - 1];
      assert vs == init + [last];
      assert forall v :: v in init ==> v in vs;
      SumAtLeast(init, lo);
      assert last in vs;
      assert |vs| as real * lo == |init| as real * lo + lo;
    }
  }

  lemma {:induction false} SumAtMost(vs: seq<real>, hi: real)
    requires forall v :: v in vs ==> v <= hi
    ensures Sum(vs) <= |vs| as real * hi
  {
    if vs != [] {
      var init, last := vs[..|vs| - 1], vs[|vs| - 1];
      assert vs == init + [last];
      assert forall v :: v in init ==> v in vs;
      SumAtMost(init, hi);
      assert last in vs;
      assert |vs| as real * hi == |init| as real * hi + hi;
    }
  }

  lemma QuotientAtLeast(a: real, n: real, lo: real)
    requires n > 0.0 && n * lo <= a
    ensures lo <= a / n
  {
    assert a == n * (a / n);
  }

  lemma QuotientAtMost(a: real, n: real, hi: real)
    requires n > 0.0 && a <= n * hi
    ensures a / n <= hi
  {
    assert a == n * (a / n);
  }

  /** The mean of values bounded below and above is bounded alike. */
  lemma MeanWithin(vs: seq<real>, lo: real, hi: real)
    requires |vs| > 0
    requires forall v :: v in vs ==> lo <= v <= hi
    ensures lo <= Sum(vs) / |vs| as real <= hi
  {
    assert lo <= Sum(vs) / |vs| as real by {
      SumAtLeast(vs, lo);
      QuotientAtLeast(Sum(vs), |vs| as real, lo);
    }
    assert Sum(vs) / |vs| as real <= hi by {
      SumAtMost(vs, hi);
      QuotientAtMost(Sum(vs), |vs| as real, hi);
    }
  }

  /** `mean` lies between `min` and `max`. */
  lemma MeanBetween(vs: seq<real>)
    requires |vs| > 0
    ensures Least(vs) <= Sum(vs) / |vs| as real <= Greatest(vs)
  {
    MeanWithin(vs, Least(vs), Greatest(vs));
  }

  /** The total of a natural-number column. */
  function Tally<X>(xs: seq<X>, n: X -> nat): nat {
    if xs == [] then 0 else Tally(xs[..|xs| - 1], n) + n(xs[|xs| - 1])
  }

  lemma {:induction false} TallyCongruent<X>(xs: seq<X>, n: X -> nat, m: X -> nat)
    requires forall x :: x in xs ==> n(x) == m(x)
    ensures Tally(xs, n) == Tally(xs, m)
  {
    if xs != [] {
      var init := xs[..|xs| - 1];
      assert xs == init + [xs[|xs| - 1]];
      TallyCongruent(init, n, m);
    }
  }

  lemma {:induction false} TallyMap<A, B>(xs: seq<A>, f: A -> B, n: B -> nat, nf: A -> nat)
    requires forall x :: nf(x) == n(f(x))
    ensures Tally(Map(xs, f), n) == Tally(xs, nf)
  {
    if xs != [] {
      var init := xs[..|xs| - 1];
      TallyMap(init, f, n, nf);
      assert Map(xs, f)[..|xs| - 1] == Map(init, f);
    }
  }

  // ---- Grouping ----

  /** The distinct keys of `rows`, in order of first appearance. */
  function DistinctKeys<T, K(==)>(rows: seq<T>, key: T -> K): (ks: seq<K>)
    ensures forall i, j :: 0 <= i < j < |ks| ==> ks[i] != ks[j]
    ensures forall k :: k in ks ==> exists x :: x in rows && key(x) == k
    ensures forall x :: x in rows ==> key(x) in ks
  {
    if rows == [] then []
    else
      var init, last := rows[..|rows| - 1], rows[|rows| - 1];
      assert rows == init + [last];
      var ks := DistinctKeys(init, key);
      if key(last) in ks then ks else ks + [key(last)]
  }

  /** The rows of one key. */
  function Group<T, K(==)>(rows: seq<T>, key: T -> K, k: K): (g: seq<T>)
    ensures forall x :: x in g ==> x in rows && key(x) == k
    ensures forall x :: x in rows && key(x) == k ==> x in g
  {
    Filter(rows, (x: T) => key(x) == k)
  }

  /** The distinct values of `site` in `g`, as `countDistinct` counts them. */
  function Sites<T(==), S(==)>(g: seq<T>, site: T -> S): set<S> {
    set x | x in g :: site(x)
  }

  lemma {:induction false} SitesAtMost<T, S>(g: seq<T>, site: T -> S)
    ensures |Sites(g, site)| <= |g|
  {
    if g != [] {
      var init, last := g[..|g| - 1], g[|g| - 1];
      assert g == init + [last];
      SitesAtMost(init, site);
      assert Sites(g, site) == Sites(init, site) + {site(last)};
    }
  }

  /** One output row of a grouped aggregation. */
  datatype Summary<K, S> = Summary(key: K, count: nat, total: real, least: real, greatest: real, sites: set<S>)

  /** `mean`: the total over the count. */
  function Mean<K, S>(s: Summary<K, S>): real {
    if s.count == 0 then 0.0 else s.total / s.count as real
  }

  function Summarize<T(==), K(==), S(==)>(rows: seq<T>, key: T -> K, value: T -> real, site: T -> S, k: K): Summary<K, S> {
    var g := Group(rows, key, k);
    var vs := Map(g, value);
    if vs == [] then Summary(k, 0, 0.0, 0.0, 0.0, {})
    else Summary(k, |g|, Sum(vs), Least(vs), Greatest(vs), Sites(g, site))
  }

  /** What a summary says about the rows of its key: how many there are,
      their total, a least and a greatest value that both occur, and the
      distinct sites among them. */
  predicate Describes<T(==), K(==), S(==)>(s: Summary<K, S>, rows: seq<T>, key: T -> K, value: T -> real, site: T -> S) {
    var g := Group(rows, key, s.key);
    && s.count == |g| > 0
    && s.total == Sum(Map(g, value))
    && (forall x :: x in g ==> s.least <= value(x) <= s.greatest)
    && (exists x :: x in g && value(x) == s.least)
    && (exists x :: x in g && value(x) == s.greatest)
    && s.sites == Sites(g, site)
  }

  /** `groupBy(key).agg(...)`: one summary per distinct key. */
  function GroupBy<T(==), K(==), S(==)>(rows: seq<T>, key: T -> K, value: T -> real, site: T -> S): (r: seq<Summary<K, S>>)
    ensures forall i, j :: 0 <= i < j < |r| ==> r[i].key != r[j].key
    ensures forall x :: x in rows ==> exists i :: 0 <= i < |r| && r[i].key == key(x)
    ensures forall s :: s in r ==> Describes(s, rows, key, value, site)
  {
    var ks := DistinctKeys(rows, key);
    var r := Map(ks, (k: K) => Summarize(rows, key, value, site, k));
    forall s | s in r
      ensures Describes(s, rows, key, value, site)
    {
      var i :| 0 <= i < |r| && r[i] == s;
      SummaryDescribes(rows, key, value, site, ks[i]);
    }
    forall x | x in rows
      ensures exists i :: 0 <= i < |r| && r[i].key == key(x)
    {
      var i :| 0 <= i < |ks| && ks[i] == key(x);
      assert r[i].key == key(x);
    }
    r
  }

  lemma SummaryDescribes<T, K, S>(rows: seq<T>, key: T -> K, value: T -> real, site: T -> S, k: K)
    requires k in DistinctKeys(rows, key)
    ensures Describes(Summarize(rows, key, value, site, k), rows, key, value, site)
  {
    var g := Group(rows, key, k);
    var vs := Map(g, value);
    var x :| x in rows && key(x) == k;
    assert x in g;
    var j :| 0 <= j < |g| && g[j] == x;
    assert vs[j] == value(x);
    var lo, hi := Least(vs), Greatest(vs);
    forall y | y in g
      ensures lo <= value(y) <= hi
    {
      var i :| 0 <= i < |g| && g[i] == y;
      assert vs[i] in vs;
    }
    var a :| 0 <= a < |vs| && vs[a] == lo;
    assert g[a] in g && value(g[a]) == lo;
    var b :| 0 <= b < |vs| && vs[b] == hi;
    assert g[b] in g && value(g[b]) == hi;
  }

  /** Each summary's mean lies between its min and max, and it counts at
      least one and at most `count` distinct sites. */
  lemma SummaryBounds<T, K, S>(s: Summary<K, S>, rows: seq<T>, key: T -> K, value: T -> real, site: T -> S)
    requires Describes(s, rows, key, value, site)
    ensures s.least <= Mean(s) <= s.greatest
    ensures 1 <= |s.sites| <= s.count
  {
    var g := Group(rows, key, s.key);
    var vs := Map(g, value);
    forall v | v in vs
      ensures s.least <= v <= s.greatest
    {
      var i :| 0 <= i < |vs| && vs[i] == v;
      assert g[i] in g;
    }
    MeanWithin(vs, s.least, s.greatest);
    SitesAtMost(g, site);
    assert site(g[0]) in s.sites;
  }

  // ---- The counts of all groups add up to the rows ----

  function GroupSizes<T, K(==)>(rows: seq<T>, key: T -> K, ks: seq<K>): nat {
    Tally(ks, (k: K) => |Group(rows, key, k)|)
  }

  lemma {:induction false} GroupSizesSnoc<T, K>(rows: seq<T>, x: T, key: T -> K, ks: seq<K>)
    requires forall i, j :: 0 <= i < j < |ks| ==> ks[i] != ks[j]
    ensures GroupSizes(rows + [x], key, ks) == GroupSizes(rows, key, ks) + if key(x) in ks then 1 else 0
  {
    if ks != [] {
      var init, k := ks[..|ks| - 1], ks[|ks| - 1];
      assert ks == init + [k];
      GroupSizesSnoc(rows, x, key, init);
      FilterSnoc(rows, x, (y: T) => key(y) == k);
    }
  }

  /** `count("*")` over every group adds up to the number of rows. */
  lemma {:induction false} GroupSizesCoverRows<T, K>(rows: seq<T>, key: T -> K)
    ensures GroupSizes(rows, key, DistinctKeys(rows, key)) == |rows|
  {
    if rows != [] {
      var init, x := rows[..|rows| - 1], rows[|rows| - 1];
      assert rows == init + [x];
      var ks := DistinctKeys(init, key);
      GroupSizesCoverRows(init, key);
      GroupSizesSnoc(init, x, key, ks);
      if key(x) !in ks {
        FilterSnoc(init, x, (y: T) => key(y) == key(x));
        FilterNone(init, (y: T) => key(y) == key(x));
        assert Tally(ks + [key(x)], (k: K) => |Group(rows, key, k)|)
          == Tally(ks, (k: K) => |Group(rows, key, k)|) + |Group(rows, key, key(x))|;
      }
    }
  }

  /** The summaries' counts add up to the number of rows. */
  lemma CountsCoverRows<T, K, S>(rows: seq<T>, key: T -> K, value: T -> real, site: T -> S)
    ensures Tally(GroupBy(rows, key, value, site), (s: Summary<K, S>) => s.count) == |rows|
  {
    var ks := DistinctKeys(rows, key);
    var f := (k: K) => Summarize(rows, key, value, site, k);
    var size := (k: K) => |Group(rows, key, k)|;
    forall k | k in ks
      ensures size(k) == f(k).count
    {
      SummaryDescribes(rows, key, value, site, k);
    }
    TallyMap(ks, f, (s: Summary<K, S>) => s.count, (k: K) => f(k).count);
    TallyCongruent(ks, (k: K) => f(k).count, size);
    GroupSizesCoverRows(rows, key);
  }
}
