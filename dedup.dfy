/** `dropDuplicates(["batiment_id", "timestamp_parsed", "type_energie"])`:
    one row per (site, instant, energy) key. */
module Deduplication {
  import opened Options
  import opened Timestamps
  import opened Records

  datatype Key = Key(siteId: string, instant: Option<DateTime>, energy: string)

  /** The three `dropDuplicates` columns of a clean row: its site, its
      parsed instant and its energy. */
  function KeyOf(c: CleanReading): (k: Key)
    ensures k.siteId == c.raw.siteId && k.instant == c.instant && k.energy == c.raw.energy
  {
    Key(c.raw.siteId, c.instant, c.raw.energy)
  }

  /** The keys present in a dataset. */
  function Keys(s: seq<CleanReading>): set<Key> {
    set c | c in s :: KeyOf(c)
  }

  /** No two rows share a key. */
  predicate KeyUnique(s: seq<CleanReading>) {
    forall i, j :: 0 <= i < j < |s| ==> KeyOf(s[i]) != KeyOf(s[j])
  }

  /** What `dropDuplicates` promises whichever copy of a key it keeps: keys
      are unique, every row comes from the input, and every key of the input
      survives. */
  predicate IsDedupOf(out: seq<CleanReading>, s: seq<CleanReading>) {
    && KeyUnique(out)
    && (forall c :: c in out ==> c in s)
    && Keys(out) == Keys(s)
  }

  lemma KeysSnoc(s: seq<CleanReading>, x: CleanReading)
    ensures Keys(s + [x]) == Keys(s) + {KeyOf(x)}
  {
    assert forall c :: c in s + [x] <==> c in s || c == x;
  }

  /** The first row of each key, in input order. The engine is free to keep
      another copy; `IsDedupOf` is what the rest of the model relies on. */
  function Dedup(s: seq<CleanReading>): (r: seq<CleanReading>)
    ensures IsDedupOf(r, s)
  {
    if s == [] then []
    else
      var init, last := s[..|s| - 1], s[|s| - 1];
      var r := Dedup(init);
      assert s == init + [last];
      KeysSnoc(init, last);
      if KeyOf(last) in Keys(r) then r
      else
        KeysSnoc(r, last);
        assert forall i :: 0 <= i < |r| ==> KeyOf(r[i]) in Keys(r);
        r + [last]
  }

  /** Two rows of a key-unique dataset with the same key are the same row. */
  lemma SameKeySameRow(s: seq<CleanReading>, x: CleanReading, y: CleanReading)
    requires KeyUnique(s) && x in s && y in s && KeyOf(x) == KeyOf(y)
    ensures x == y
  {
    var i :| 0 <= i < |s| && s[i] == x;
    var j :| 0 <= j < |s| && s[j] == y;
    assert i == j;
  }

  /** A key-unique dataset has as many keys as rows. */
  lemma {:induction false} UniqueKeysCount(s: seq<CleanReading>)
    requires KeyUnique(s)
    ensures |Keys(s)| == |s|
  {
    if s != [] {
      var init, last := s[..|s| - 1], s[|s| - 1];
      assert s == init + [last];
      UniqueKeysCount(init);
      KeysSnoc(init, last);
    }
  }

  /** Any dataset has at most as many keys as rows. */
  lemma {:induction false} KeysAtMostRows(s: seq<CleanReading>)
    ensures |Keys(s)| <= |s|
  {
    if s != [] {
      var init, last := s[..|s| - 1], s[|s| - 1];
      assert s == init + [last];
      KeysAtMostRows(init);
      KeysSnoc(init, last);
    }
  }

  /** Every valid deduplication keeps one row per distinct key, so the
      number of rows it removes does not depend on which copy it keeps, and
      is never negative. */
  lemma DedupSize(out: seq<CleanReading>, s: seq<CleanReading>)
    requires IsDedupOf(out, s)
    ensures |out| == |Keys(s)| <= |s|
  {
    UniqueKeysCount(out);
    KeysAtMostRows(s);
  }

  /** A dataset whose keys are already unique is left as it is. */
  lemma {:induction false} DedupKeepsUnique(s: seq<CleanReading>)
    requires KeyUnique(s)
    ensures Dedup(s) == s
  {
    if s != [] {
      var init, last := s[..|s| - 1], s[|s| - 1];
      assert s == init + [last];
      assert KeyUnique(init);
      DedupKeepsUnique(init);
    }
  }

  /** Deduplicating twice is deduplicating once. */
  lemma DedupIdempotent(s: seq<CleanReading>)
    ensures Dedup(Dedup(s)) == Dedup(s)
  {
    DedupKeepsUnique(Dedup(s));
  }

  /** Whichever copies two engines keep, deduplicating a deduplicated
      dataset again keeps exactly the same rows. */
  lemma AnyDedupStable(s: seq<CleanReading>, a: seq<CleanReading>, b: seq<CleanReading>)
    requires IsDedupOf(a, s) && IsDedupOf(b, a)
    ensures |b| == |a|
    ensures forall c :: c in b <==> c in a
  {
    DedupSize(b, a);
    UniqueKeysCount(a);
    forall c | c in a
      ensures c in b
    {
      assert KeyOf(c) in Keys(a);
      var d :| d in b && KeyOf(d) == KeyOf(c);
      SameKeySameRow(a, c, d);
    }
  }
}
