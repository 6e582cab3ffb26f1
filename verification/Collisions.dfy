/** The check that no two categories write to the same report path. */
module Collisions {
  import opened Wrappers
  import opened Text
  import opened Templates
  import opened Paths
  import opened SampleKeys
  import opened Symbols

  datatype Category = Category(key: string, overridden: Option<string>)

  /** A blank override counts as none. */
  function EffectiveTemplate(global: string, c: Category): string {
    if c.overridden.Some? && Trim(c.overridden.value) != "" then c.overridden.value else global
  }

  function SamplePath(global: string, c: Category): string {
    Sample(EffectiveTemplate(global, c), c.key)
  }

  /** A category's sample path and its key. */
  datatype Entry = Entry(path: string, key: string)

  function Entries(global: string, categories: seq<Category>): (r: seq<Entry>)
    ensures |r| == |categories|
    ensures forall i | 0 <= i < |r| :: r[i] == Entry(SamplePath(global, categories[i]), categories[i].key)
  {
    seq(|categories|, i requires 0 <= i < |categories| => Entry(SamplePath(global, categories[i]), categories[i].key))
  }

  /** The keys of the entries with this path. */
  function KeysAt(entries: seq<Entry>, path: string): seq<string> {
    if entries == [] then []
    else
      var last := entries[|entries| - 1];
      KeysAt(entries[..|entries| - 1], path) + if last.path == path then [last.key] else []
  }

  /** Each path with the keys of the entries that have it. */
  ghost predicate Holds(bucket: map<string, seq<string>>, entries: seq<Entry>) {
    && (forall path :: path in bucket <==> KeysAt(entries, path) != [])
    && (forall path | path in bucket :: bucket[path] == KeysAt(entries, path))
  }

  lemma HoldsNext(bucket: map<string, seq<string>>, entries: seq<Entry>, e: Entry)
    requires Holds(bucket, entries)
    ensures var keys := if e.path in bucket then bucket[e.path] else [];
      Holds(bucket[e.path := keys + [e.key]], entries + [e])
  {
    assert (entries + [e])[..|entries|] == entries;
  }

  /** `collect_cross_category_path_collisions`: each path with the categories that share it. */
  method CollectCollisions(global: string, categories: seq<Category>) returns (r: map<string, seq<string>>)
    ensures forall path :: path in r <==> |KeysAt(Entries(global, categories), path)| > 1
    ensures forall path | path in r :: r[path] == KeysAt(Entries(global, categories), path)
  {
    ghost var entries := Entries(global, categories);
    var bucket: map<string, seq<string>> := map[];
    for i := 0 to |categories|
      invariant Holds(bucket, entries[..i])
    {
      HoldsNext(bucket, entries[..i], entries[i]);
      assert entries[..i] + [entries[i]] == entries[..i + 1];
      var rendered := SamplePath(global, categories[i]);
      var keys := if rendered in bucket then bucket[rendered] else [];
      bucket := bucket[rendered := keys + [categories[i].key]];
    }
    assert entries[..|categories|] == entries;
    r := map path | path in bucket && |bucket[path]| > 1 :: bucket[path];
  }

  predicate Has(entries: seq<Entry>, path: string, i: int) {
    0 <= i < |entries| && entries[i].path == path
  }

  lemma {:induction false} KeysAtEmpty(entries: seq<Entry>, path: string)
    ensures KeysAt(entries, path) != [] <==> exists i :: Has(entries, path, i)
  {
    if entries != [] {
      var rest := entries[..|entries| - 1];
      KeysAtEmpty(rest, path);
      assert forall i | i < |rest| :: Has(entries, path, i) <==> Has(rest, path, i);
      assert Has(entries, path, |rest|) <==> entries[|rest|].path == path;
    }
  }

  /** A path is reported exactly if two categories share it. */
  lemma {:induction false} ReportedIffShared(entries: seq<Entry>, path: string)
    ensures |KeysAt(entries, path)| > 1 <==> exists i, j | i < j :: Has(entries, path, i) && Has(entries, path, j)
  {
    if entries != [] {
      var n := |entries| - 1;
      var rest := entries[..n];
      ReportedIffShared(rest, path);
      KeysAtEmpty(rest, path);
      assert forall i | i < n :: Has(entries, path, i) <==> Has(rest, path, i);
      assert Has(entries, path, n) <==> entries[n].path == path;
    }
  }

  /** Two faithful keys that share a template are reported for it exactly if, on any given day, the
      report of one would overwrite that of the other. */
  lemma ReportedIffOverwritten(global: string, categories: seq<Category>, i: nat, j: nat, s: string)
    requires i < j < |categories| && ParseDate(s).Some?
    requires EffectiveTemplate(global, categories[i]) == EffectiveTemplate(global, categories[j])
    requires var t := EffectiveTemplate(global, categories[i]); Accepted(t) && '\\' !in t
    requires Faithful(categories[i].key) && Faithful(categories[j].key)
    ensures SamplePath(global, categories[i]) == SamplePath(global, categories[j]) <==>
      var t := EffectiveTemplate(global, categories[i]);
      Path(t, categories[i].key, s) == Path(t, categories[j].key, s)
  {
    SampleShowsCollisions(EffectiveTemplate(global, categories[i]), categories[i].key, categories[j].key, s);
  }

  /** If nothing is reported, then no two reports of categories that share a template, of whatever keys
      and days, have the same path. */
  lemma NeverOverwritten(global: string, categories: seq<Category>, i: nat, j: nat, s1: string, s2: string)
    requires forall path :: |KeysAt(Entries(global, categories), path)| <= 1
    requires i < j < |categories| && ParseDate(s1).Some? && ParseDate(s2).Some?
    requires EffectiveTemplate(global, categories[i]) == EffectiveTemplate(global, categories[j])
    requires var t := EffectiveTemplate(global, categories[i]); Accepted(t) && HasDateToken(t)
    ensures var t := EffectiveTemplate(global, categories[i]);
      Path(t, categories[i].key, s1) != Path(t, categories[j].key, s2)
  {
    var (t, k1, k2) := (EffectiveTemplate(global, categories[i]), categories[i].key, categories[j].key);
    var (entries, path) := (Entries(global, categories), SamplePath(global, categories[i]));
    ReportedIffShared(entries, path);
    assert Has(entries, path, i) && !Has(entries, path, j);
    if SameKeys(t, k1, k2) {
      SameKeysSameSample(t, k1, k2);
    }
    PathsSeparate(t, k1, s1, k2, s2);
  }

  // ---- Different templates ----

  function CategorySymbols(global: string, c: Category): seq<Symbol> {
    PathSymbols(EffectiveTemplate(global, c), c.key)
  }

  /** Whether two categories ever write to one path on the same day can be read off their templates and
      keys: the symbols of their paths must agree, place by place, for some day of the calendar. */
  lemma OverwrittenExactly(global: string, c1: Category, c2: Category)
    requires Accepted(EffectiveTemplate(global, c1)) && Accepted(EffectiveTemplate(global, c2))
    ensures (exists s | ParseDate(s).Some? ::
              Path(EffectiveTemplate(global, c1), c1.key, s) == Path(EffectiveTemplate(global, c2), c2.key, s)) <==>
      MayMeet(CategorySymbols(global, c1), CategorySymbols(global, c2))
  {
    CollideExactly(EffectiveTemplate(global, c1), c1.key, EffectiveTemplate(global, c2), c2.key);
  }

  const COMPACT: seq<Piece> := [Placeholder("YYYYMMDD")]
  const SWAPPED: seq<Piece> := [Placeholder("YYYY"), Placeholder("DD"), Placeholder("MM")]

  lemma SwappedGood()
    ensures AllGood(COMPACT, PATH_TOKENS) && AllGood(SWAPPED, PATH_TOKENS)
  {
    TokenNames("YYYYMMDD");
    TokenNames("YYYY");
    TokenNames("DD");
    TokenNames("MM");
  }

  lemma SwappedFilled(key: string, s: string, d: DateParts)
    ensures Filled(COMPACT, PathVars(key, s, d)) == d.year + d.month + d.day
    ensures Filled(SWAPPED, PathVars(key, s, d)) == d.year + (d.day + d.month)
  {
    var v := PathVars(key, s, d);
    PathValues(key, s, d);
    assert SWAPPED[1..][1..] == [Placeholder("MM")];
    assert Filled([Placeholder("MM")], v) == d.month + "" == d.month;
    assert Filled(SWAPPED[1..], v) == d.day + d.month;
    assert Filled(COMPACT, v) == d.year + d.month + d.day + "" == d.year + d.month + d.day;
  }

  lemma SwappedDated()
    ensures Accepted(Source(COMPACT)) && HasDateToken(Source(COMPACT)) && Pieces(Source(COMPACT)) == COMPACT
    ensures Accepted(Source(SWAPPED)) && HasDateToken(Source(SWAPPED)) && Pieces(Source(SWAPPED)) == SWAPPED
  {
    SwappedGood();
    PiecesAccepted(COMPACT);
    PiecesAccepted(SWAPPED);
    TokensAreUsed(Source(COMPACT));
    TokensAreUsed(Source(SWAPPED));
    assert COMPACT[0] in COMPACT && SWAPPED[0] in SWAPPED && SWAPPED[1] in SWAPPED && SWAPPED[2] in SWAPPED;
  }

  lemma SwappedPaths(k1: string, k2: string, s: string, d: DateParts)
    requires ParseDate(s) == Some(d)
    ensures Path(Source(COMPACT), k1, s) == Some(d.year + d.month + d.day)
    ensures Path(Source(SWAPPED), k2, s) == Some(d.year + (d.day + d.month))
  {
    SwappedDated();
    SwappedFilled(k1, s, d);
    SwappedFilled(k2, s, d);
  }

  lemma SampleSwapped()
    ensures SAMPLE.year + SAMPLE.month + SAMPLE.day != SAMPLE.year + (SAMPLE.day + SAMPLE.month)
  {
    assert (SAMPLE.year + SAMPLE.month + SAMPLE.day)[5] == '1';
    assert (SAMPLE.year + (SAMPLE.day + SAMPLE.month))[5] == '3';
  }

  /** With different templates the sample date does not stand for every date: these two have
      different sample paths, and yet the same path on every day whose day and month are equal. */
  lemma SampleMissesOtherTemplates(t1: string, t2: string, k1: string, k2: string, s: string)
    requires t1 == Source(COMPACT) && t2 == Source(SWAPPED)
    requires ParseDate(s).Some? && ParseDate(s).value.day == ParseDate(s).value.month
    ensures Accepted(t1) && HasDateToken(t1) && Accepted(t2) && HasDateToken(t2)
    ensures Path(t1, k1, SAMPLE_DATE) != Path(t2, k2, SAMPLE_DATE)
    ensures Path(t1, k1, s) == Path(t2, k2, s)
  {
    var d := ParseDate(s).value;
    SwappedDated();
    SwappedPaths(k1, k2, s, d);
    SampleDateParses();
    SwappedPaths(k1, k2, SAMPLE_DATE, SAMPLE);
    SampleSwapped();
    Associate(d.year, d.month, d.day);
  }
}
