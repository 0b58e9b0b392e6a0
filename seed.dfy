/**
 * The `seed_taxonomy` management command: the three taxonomy tables are
 * brought up to the baseline lists by `update_or_create` on each row's
 * natural key (district `slug`, tag `key`), inside one transaction.
 */
module SeedTaxonomy {
  import opened Wrappers
  import opened Models
  import opened Store

  /** A district of the baseline list: its slug and its display name. */
  datatype DistrictSeed = DistrictSeed(slug: string, name: string)

  const DISTRICTS: seq<DistrictSeed> := [
    DistrictSeed("beyoglu", "Beyo\U{11F}lu"),
    DistrictSeed("kadikoy", "Kad\U{131}k\U{F6}y"),
    DistrictSeed("sisli", "\U{15E}i\U{15F}li")]

  const FEATURES: seq<FeatureTag> := [
    FeatureTag("alcohol", "Serves Alcohol"),
    FeatureTag("outdoor", "Outdoor Seating"),
    FeatureTag("meal", "Full Meals"),
    FeatureTag("coffee", "Coffee"),
    FeatureTag("dessert", "Dessert")]

  /**
   * The emoji are the four-character strings the command file holds: the
   * UTF-8 bytes of U+1F49E, U+1F4BB and U+1F465 read as Windows-1252.
   */
  const ADDITIONAL_FILTERS: seq<AdditionalFilter> := [
    AdditionalFilter("date-night", "Date Night", "\U{F0}\U{178}\U{2019}\U{17E}"),
    AdditionalFilter("work-friendly", "Work Friendly", "\U{F0}\U{178}\U{2019}\U{BB}"),
    AdditionalFilter("group-friendly", "Group Friendly", "\U{F0}\U{178}\U{2018}\U{A5}")]

  /** The three taxonomy tables, with the district primary-key counter. */
  datatype Taxonomy = Taxonomy(
    districts: seq<District>,
    nextDistrictId: nat,
    tags: map<string, FeatureTag>,
    filters: map<string, AdditionalFilter>)

  // ----- districts -----

  /** The position of the district with this slug, if any. */
  function SlugIndex(ds: seq<District>, slug: string): (r: Option<nat>)
    ensures r.Some? ==> r.value < |ds| && ds[r.value].slug == slug
    ensures r.None? ==> forall i :: 0 <= i < |ds| ==> ds[i].slug != slug
  {
    if ds == [] then None
    else if ds[0].slug == slug then Some(0)
    else
      var r := SlugIndex(ds[1..], slug);
      if r.None? then None else Some(r.value + 1)
  }

  /** Another district (one with a different slug) already has the seed's name. */
  predicate NameClash(ds: seq<District>, s: DistrictSeed) {
    exists j :: 0 <= j < |ds| && ds[j].name == s.name && ds[j].slug != s.slug
  }

  /** Some district has the seed's slug and name. */
  predicate Seeded(ds: seq<District>, s: DistrictSeed) {
    exists i :: 0 <= i < |ds| && ds[i].slug == s.slug && ds[i].name == s.name
  }

  /**
   * `District.objects.update_or_create(slug=..., defaults=...)`: the row
   * with that slug gets the seed's name, or a new row is created with the
   * next primary key. Giving the name of another district breaks the
   * unique constraint on `name` (`None`, an `IntegrityError`).
   */
  function UpsertDistrict(t: Taxonomy, s: DistrictSeed): Option<Taxonomy> {
    if NameClash(t.districts, s) then None
    else match SlugIndex(t.districts, s.slug)
      case Some(i) => Some(t.(districts := t.districts[i := District(t.districts[i].id, s.name, s.slug)]))
      case None =>
        Some(t.(districts := t.districts + [District(t.nextDistrictId, s.name, s.slug)],
                nextDistrictId := t.nextDistrictId + 1))
  }

  /** The districts loop: each seed in turn, stopping at the first error. */
  function SeedDistricts(t: Taxonomy, seeds: seq<DistrictSeed>): Option<Taxonomy> {
    if seeds == [] then Some(t)
    else match SeedDistricts(t, seeds[..|seeds| - 1])
      case None => None
      case Some(t1) => UpsertDistrict(t1, seeds[|seeds| - 1])
  }

  // ----- feature tags and additional filters -----

  /**
   * The loops over tags: `update_or_create(key=..., defaults=...)` on a
   * table keyed by its primary key overwrites the row with that key or
   * creates it, and cannot fail.
   */
  function UpsertAll<T>(m: map<string, T>, items: seq<T>, keyOf: T -> string): map<string, T> {
    if items == [] then m
    else
      var x := items[|items| - 1];
      UpsertAll(m, items[..|items| - 1], keyOf)[keyOf(x) := x]
  }

  function FeatureKey(f: FeatureTag): string { f.key }

  function FilterKey(a: AdditionalFilter): string { a.key }

  /** `handle`: districts, then feature tags, then additional filters. */
  function Seed(t: Taxonomy): Option<Taxonomy> {
    match SeedDistricts(t, DISTRICTS)
    case None => None
    case Some(t1) =>
      Some(t1.(tags := UpsertAll(t1.tags, FEATURES, FeatureKey),
               filters := UpsertAll(t1.filters, ADDITIONAL_FILTERS, FilterKey)))
  }

  // ----- properties of the district upsert -----

  predicate IdsBelow(ds: seq<District>, next: nat) {
    forall d :: d in ds ==> d.id < next
  }

  /** Seeds with pairwise different slugs and pairwise different names. */
  predicate DistinctSeeds(seeds: seq<DistrictSeed>) {
    forall i, j :: 0 <= i < j < |seeds| ==> seeds[i].slug != seeds[j].slug && seeds[i].name != seeds[j].name
  }

  /**
   * One upsert keeps names, slugs and keys unique, leaves the seed's row
   * in place, keeps every other row and every primary key, and adds
   * nothing else.
   */
  lemma UpsertDistrictEffect(t: Taxonomy, s: DistrictSeed)
    requires UniqueDistricts(t.districts) && IdsBelow(t.districts, t.nextDistrictId)
    requires UpsertDistrict(t, s).Some?
    ensures var t' := UpsertDistrict(t, s).value;
      && UniqueDistricts(t'.districts) && IdsBelow(t'.districts, t'.nextDistrictId)
      && Seeded(t'.districts, s)
      && (forall d :: d in t.districts && d.slug != s.slug ==> d in t'.districts)
      && (forall d :: d in t'.districts ==> d in t.districts || (d.slug == s.slug && d.name == s.name))
      && (forall pk :: DistrictExists(t.districts, pk) ==> DistrictExists(t'.districts, pk))
      && t'.tags == t.tags && t'.filters == t.filters
  {
    var ds := t.districts;
    var ds' := UpsertDistrict(t, s).value.districts;
    match SlugIndex(ds, s.slug)
    case Some(i) =>
      forall d | d in ds && d.slug != s.slug ensures d in ds' {
        var k :| 0 <= k < |ds| && ds[k] == d;
        assert ds'[k] == d;
      }
      forall pk | DistrictExists(ds, pk) ensures DistrictExists(ds', pk) {
        var k :| 0 <= k < |ds| && ds[k].id == pk;
        assert ds'[k].id == pk;
      }
      assert ds'[i].slug == s.slug && ds'[i].name == s.name;
    case None =>
      assert ds' == ds + [District(t.nextDistrictId, s.name, s.slug)];
      forall pk | DistrictExists(ds, pk) ensures DistrictExists(ds', pk) {
        var k :| 0 <= k < |ds| && ds[k].id == pk;
        assert ds'[k].id == pk;
      }
      assert ds'[|ds|].slug == s.slug && ds'[|ds|].name == s.name;
  }

  /** The districts loop keeps names, slugs and primary keys unique and every primary key in place. */
  lemma {:induction false} SeedDistrictsRules(t: Taxonomy, seeds: seq<DistrictSeed>)
    requires UniqueDistricts(t.districts) && IdsBelow(t.districts, t.nextDistrictId)
    requires SeedDistricts(t, seeds).Some?
    ensures var t' := SeedDistricts(t, seeds).value;
      && UniqueDistricts(t'.districts) && IdsBelow(t'.districts, t'.nextDistrictId)
      && (forall pk :: DistrictExists(t.districts, pk) ==> DistrictExists(t'.districts, pk))
      && t'.tags == t.tags && t'.filters == t.filters
  {
    if seeds != [] {
      var p := seeds[..|seeds| - 1];
      SeedDistrictsRules(t, p);
      UpsertDistrictEffect(SeedDistricts(t, p).value, seeds[|seeds| - 1]);
    }
  }

  /**
   * The districts loop keeps every district whose slug is not seeded, and
   * every district it leaves is an old one or carries a seed's slug and name.
   */
  lemma {:induction false} SeedDistrictsRows(t: Taxonomy, seeds: seq<DistrictSeed>)
    requires UniqueDistricts(t.districts) && IdsBelow(t.districts, t.nextDistrictId)
    requires SeedDistricts(t, seeds).Some?
    ensures var t' := SeedDistricts(t, seeds).value;
      && (forall d :: d in t.districts && (forall s :: s in seeds ==> d.slug != s.slug) ==> d in t'.districts)
      && (forall d :: d in t'.districts ==> d in t.districts || exists s :: s in seeds && d.slug == s.slug && d.name == s.name)
  {
    if seeds != [] {
      var p := seeds[..|seeds| - 1];
      var s := seeds[|seeds| - 1];
      assert seeds == p + [s];
      SeedDistrictsRows(t, p);
      SeedDistrictsRules(t, p);
      var t1 := SeedDistricts(t, p).value;
      UpsertDistrictEffect(t1, s);
      var t' := UpsertDistrict(t1, s).value;
      assert forall q :: q in p ==> q in seeds;
      forall d | d in t'.districts
        ensures d in t.districts || exists q :: q in seeds && d.slug == q.slug && d.name == q.name
      {
        if d !in t1.districts {
          assert s in seeds && d.slug == s.slug && d.name == s.name;
        }
      }
      forall d | d in t.districts && (forall q :: q in seeds ==> d.slug != q.slug) ensures d in t'.districts {
        assert d in t1.districts;
        assert d.slug != s.slug;
      }
    }
  }

  /** After the districts loop every seed's slug is there with the seed's name. */
  lemma {:induction false} SeedDistrictsSeeded(t: Taxonomy, seeds: seq<DistrictSeed>)
    requires UniqueDistricts(t.districts) && IdsBelow(t.districts, t.nextDistrictId)
    requires DistinctSeeds(seeds) && SeedDistricts(t, seeds).Some?
    ensures forall s :: s in seeds ==> Seeded(SeedDistricts(t, seeds).value.districts, s)
  {
    if seeds != [] {
      var p := seeds[..|seeds| - 1];
      var s := seeds[|seeds| - 1];
      assert seeds == p + [s];
      SeedDistrictsSeeded(t, p);
      SeedDistrictsRules(t, p);
      var t1 := SeedDistricts(t, p).value;
      UpsertDistrictEffect(t1, s);
      var t' := UpsertDistrict(t1, s).value;
      forall q | q in seeds ensures Seeded(t'.districts, q) {
        if q != s {
          var k :| 0 <= k < |p| && p[k] == q;
          assert seeds[k] == q;
          var i :| 0 <= i < |t1.districts| && t1.districts[i].slug == q.slug && t1.districts[i].name == q.name;
          assert t1.districts[i] in t'.districts;
          var j :| 0 <= j < |t'.districts| && t'.districts[j] == t1.districts[i];
        }
      }
    }
  }

  /** An unsuccessful step makes the whole districts loop unsuccessful. */
  lemma {:induction false} SeedDistrictsFailurePersists(t: Taxonomy, seeds: seq<DistrictSeed>, n: nat)
    requires n <= |seeds| && SeedDistricts(t, seeds[..n]).None?
    ensures SeedDistricts(t, seeds).None?
    decreases |seeds| - n
  {
    if n < |seeds| {
      var q := seeds[..n + 1];
      assert q[..|q| - 1] == seeds[..n];
      SeedDistrictsFailurePersists(t, seeds, n + 1);
    } else {
      assert seeds[..n] == seeds;
    }
  }

  /**
   * With unique districts and no seed's name held by a district with
   * another slug, the districts loop goes through.
   */
  lemma {:induction false} SeedDistrictsSucceed(t: Taxonomy, seeds: seq<DistrictSeed>)
    requires UniqueDistricts(t.districts) && IdsBelow(t.districts, t.nextDistrictId) && DistinctSeeds(seeds)
    requires forall s, d :: s in seeds && d in t.districts && d.name == s.name ==> d.slug == s.slug
    ensures SeedDistricts(t, seeds).Some?
  {
    if seeds != [] {
      var p := seeds[..|seeds| - 1];
      var s := seeds[|seeds| - 1];
      assert seeds == p + [s];
      SeedDistrictsSucceed(t, p);
      SeedDistrictsRules(t, p);
      SeedDistrictsRows(t, p);
    }
  }

  /** A second run over districts that already carry every seed changes nothing. */
  lemma {:induction false} SeedDistrictsIdempotent(t: Taxonomy, seeds: seq<DistrictSeed>)
    requires UniqueDistricts(t.districts) && (forall s :: s in seeds ==> Seeded(t.districts, s))
    ensures SeedDistricts(t, seeds) == Some(t)
  {
    if seeds != [] {
      var p := seeds[..|seeds| - 1];
      var s := seeds[|seeds| - 1];
      assert seeds == p + [s];
      SeedDistrictsIdempotent(t, p);
      var ds := t.districts;
      assert Seeded(ds, s);
      var i :| 0 <= i < |ds| && ds[i].slug == s.slug && ds[i].name == s.name;
      assert !NameClash(ds, s) by {
        forall j | 0 <= j < |ds| && ds[j].name == s.name ensures ds[j].slug == s.slug {
          assert j == i;
        }
      }
      var k := SlugIndex(ds, s.slug).value;
      assert k == i by {
        assert ds[k].slug == ds[i].slug;
      }
      assert District(ds[i].id, s.name, s.slug) == ds[i];
      assert ds[i := ds[i]] == ds;
    }
  }

  // ----- properties of the tag upserts -----

  predicate DistinctKeys<T>(items: seq<T>, keyOf: T -> string) {
    forall i, j :: 0 <= i < j < |items| ==> keyOf(items[i]) != keyOf(items[j])
  }

  /**
   * Upserting rows with distinct keys: the table holds every row under
   * its key, every other key keeps its row, and no other key appears.
   */
  lemma {:induction false} UpsertAllEffect<T>(m: map<string, T>, items: seq<T>, keyOf: T -> string)
    requires DistinctKeys(items, keyOf)
    ensures var r := UpsertAll(m, items, keyOf);
      && (forall x :: x in items ==> keyOf(x) in r && r[keyOf(x)] == x)
      && (forall k :: k in m && (forall x :: x in items ==> keyOf(x) != k) ==> k in r && r[k] == m[k])
      && (forall k :: k in r ==> k in m || exists x :: x in items && keyOf(x) == k)
  {
    if items != [] {
      var p := items[..|items| - 1];
      var y := items[|items| - 1];
      assert items == p + [y];
      UpsertAllEffect(m, p, keyOf);
      forall x | x in p ensures keyOf(x) != keyOf(y) {
        var k :| 0 <= k < |p| && p[k] == x;
        assert items[k] == x;
      }
    }
  }

  /** Upserting rows the table already holds under their keys changes nothing. */
  lemma {:induction false} UpsertAllIdempotent<T>(m: map<string, T>, items: seq<T>, keyOf: T -> string)
    requires forall x :: x in items ==> keyOf(x) in m && m[keyOf(x)] == x
    ensures UpsertAll(m, items, keyOf) == m
  {
    if items != [] {
      var p := items[..|items| - 1];
      var y := items[|items| - 1];
      assert items == p + [y];
      UpsertAllIdempotent(m, p, keyOf);
    }
  }

  // ----- properties of the whole command -----

  /** The baseline lists have distinct slugs, names and keys, each key at most 32 characters. */
  lemma SeedListsDistinct()
    ensures DistinctSeeds(DISTRICTS)
    ensures DistinctKeys(FEATURES, FeatureKey) && DistinctKeys(ADDITIONAL_FILTERS, FilterKey)
    ensures forall f :: f in FEATURES ==> |f.key| <= KEY_MAX_LENGTH
    ensures forall a :: a in ADDITIONAL_FILTERS ==> |a.key| <= KEY_MAX_LENGTH
  {
  }

  /**
   * After a successful run every listed district slug, feature key and
   * additional-filter key is present with the listed name, label and emoji,
   * every row with another slug or key is kept as it was, no other row
   * appears, and the tables' rules hold.
   */
  lemma SeedEffect(t: Taxonomy)
    requires UniqueDistricts(t.districts) && IdsBelow(t.districts, t.nextDistrictId)
    requires Seed(t).Some?
    ensures var t' := Seed(t).value;
      && UniqueDistricts(t'.districts) && IdsBelow(t'.districts, t'.nextDistrictId)
      && (forall s :: s in DISTRICTS ==> Seeded(t'.districts, s))
      && (forall f :: f in FEATURES ==> f.key in t'.tags && t'.tags[f.key] == f)
      && (forall a :: a in ADDITIONAL_FILTERS ==> a.key in t'.filters && t'.filters[a.key] == a)
      && (forall d :: d in t.districts && (forall s :: s in DISTRICTS ==> d.slug != s.slug) ==> d in t'.districts)
      && (forall d :: d in t'.districts ==> d in t.districts || exists s :: s in DISTRICTS && d.slug == s.slug && d.name == s.name)
      && (forall k :: k in t.tags && (forall f :: f in FEATURES ==> f.key != k) ==> k in t'.tags && t'.tags[k] == t.tags[k])
      && (forall k :: k in t.filters && (forall a :: a in ADDITIONAL_FILTERS ==> a.key != k) ==>
            k in t'.filters && t'.filters[k] == t.filters[k])
      && (forall k :: k in t'.tags ==> k in t.tags || exists f :: f in FEATURES && f.key == k)
      && (forall k :: k in t'.filters ==> k in t.filters || exists a :: a in ADDITIONAL_FILTERS && a.key == k)
  {
    SeedListsDistinct();
    SeedDistrictsRules(t, DISTRICTS);
    SeedDistrictsRows(t, DISTRICTS);
    SeedDistrictsSeeded(t, DISTRICTS);
    var t1 := SeedDistricts(t, DISTRICTS).value;
    UpsertAllEffect(t1.tags, FEATURES, FeatureKey);
    UpsertAllEffect(t1.filters, ADDITIONAL_FILTERS, FilterKey);
  }

  /** Running the command a second time leaves the tables as the first run left them. */
  lemma SeedIdempotent(t: Taxonomy)
    requires UniqueDistricts(t.districts) && IdsBelow(t.districts, t.nextDistrictId)
    requires Seed(t).Some?
    ensures Seed(Seed(t).value) == Seed(t)
  {
    var t' := Seed(t).value;
    SeedEffect(t);
    SeedDistrictsIdempotent(t', DISTRICTS);
    UpsertAllIdempotent(t'.tags, FEATURES, FeatureKey);
    UpsertAllIdempotent(t'.filters, ADDITIONAL_FILTERS, FilterKey);
  }

  /**
   * The run goes through unless a district with another slug already
   * holds one of the listed names.
   */
  lemma SeedSucceeds(t: Taxonomy)
    requires UniqueDistricts(t.districts) && IdsBelow(t.districts, t.nextDistrictId)
    requires forall s, d :: s in DISTRICTS && d in t.districts && d.name == s.name ==> d.slug == s.slug
    ensures Seed(t).Some?
  {
    SeedListsDistinct();
    SeedDistrictsSucceed(t, DISTRICTS);
  }

  /** A district named "Beyoğlu" under another slug makes the run fail on the unique name. */
  lemma NameHeldElsewhereFails(t: Taxonomy)
    requires t.districts == [District(1, "Beyo\U{11F}lu", "old-beyoglu")]
    ensures Seed(t).None?
  {
    assert NameClash(t.districts, DISTRICTS[0]) by {
      assert t.districts[0].name == DISTRICTS[0].name;
    }
    assert DISTRICTS[..1][..0] == [];
    SeedDistrictsFailurePersists(t, DISTRICTS, 1);
  }

  /** Upserting rows keeps every key already in the table. */
  lemma {:induction false} UpsertAllGrows<T>(m: map<string, T>, items: seq<T>, keyOf: T -> string)
    ensures m.Keys <= UpsertAll(m, items, keyOf).Keys
  {
    if items != [] {
      UpsertAllGrows(m, items[..|items| - 1], keyOf);
    }
  }

  /** Upserting tags whose keys fit keeps every tag stored under its own key. */
  lemma {:induction false} UpsertTagsKeyed(m: map<string, FeatureTag>, items: seq<FeatureTag>)
    requires KeyedTags(m) && forall f :: f in items ==> |f.key| <= KEY_MAX_LENGTH
    ensures KeyedTags(UpsertAll(m, items, FeatureKey))
  {
    if items != [] {
      UpsertTagsKeyed(m, items[..|items| - 1]);
    }
  }

  /** Upserting filters whose keys fit keeps every filter stored under its own key. */
  lemma {:induction false} UpsertFiltersKeyed(m: map<string, AdditionalFilter>, items: seq<AdditionalFilter>)
    requires KeyedFilters(m) && forall a :: a in items ==> |a.key| <= KEY_MAX_LENGTH
    ensures KeyedFilters(UpsertAll(m, items, FilterKey))
  {
    if items != [] {
      UpsertFiltersKeyed(m, items[..|items| - 1]);
    }
  }

  /** A successful run keeps the database's integrity rules; restaurants are not touched. */
  lemma SeedKeepsConsistent(t: Taxonomy, t': Taxonomy, rs: seq<Restaurant>)
    requires Consistent(t.districts, t.nextDistrictId, t.tags, t.filters, rs)
    requires Seed(t) == Some(t')
    ensures Consistent(t'.districts, t'.nextDistrictId, t'.tags, t'.filters, rs)
  {
    SeedListsDistinct();
    SeedDistrictsRules(t, DISTRICTS);
    var t1 := SeedDistricts(t, DISTRICTS).value;
    UpsertTagsKeyed(t1.tags, FEATURES);
    UpsertFiltersKeyed(t1.filters, ADDITIONAL_FILTERS);
    UpsertAllGrows(t1.tags, FEATURES, FeatureKey);
    UpsertAllGrows(t1.filters, ADDITIONAL_FILTERS, FilterKey);
  }

  // ----- the command -----

  function TaxonomyOf(db: Database): Taxonomy
    reads db
  {
    Taxonomy(db.districts, db.nextDistrictId, db.featureTags, db.additionalFilters)
  }

  /** `update_or_create` on the districts table. */
  method UpdateOrCreateDistrict(db: Database, s: DistrictSeed) returns (ok: bool)
    modifies db
    ensures ok <==> UpsertDistrict(old(TaxonomyOf(db)), s).Some?
    ensures ok ==> TaxonomyOf(db) == UpsertDistrict(old(TaxonomyOf(db)), s).value
    ensures !ok ==> TaxonomyOf(db) == old(TaxonomyOf(db))
    ensures db.restaurants == old(db.restaurants)
  {
    if NameClash(db.districts, s) {
      return false;
    }
    var found := SlugIndex(db.districts, s.slug);
    if found.Some? {
      var i := found.value;
      db.districts := db.districts[i := District(db.districts[i].id, s.name, s.slug)];
    } else {
      db.districts := db.districts + [District(db.nextDistrictId, s.name, s.slug)];
      db.nextDistrictId := db.nextDistrictId + 1;
    }
    ok := true;
  }

  /** The districts loop of `handle`: stops at the first error, leaving the earlier writes. */
  method UpsertDistricts(db: Database, seeds: seq<DistrictSeed>) returns (ok: bool)
    modifies db
    ensures ok <==> SeedDistricts(old(TaxonomyOf(db)), seeds).Some?
    ensures ok ==> TaxonomyOf(db) == SeedDistricts(old(TaxonomyOf(db)), seeds).value
    ensures db.restaurants == old(db.restaurants)
  {
    ghost var t0 := TaxonomyOf(db);
    for i := 0 to |seeds|
      invariant SeedDistricts(t0, seeds[..i]) == Some(TaxonomyOf(db))
      invariant db.restaurants == old(db.restaurants)
    {
      assert seeds[..i + 1][..i] == seeds[..i];
      var done := UpdateOrCreateDistrict(db, seeds[i]);
      if !done {
        SeedDistrictsFailurePersists(t0, seeds, i + 1);
        return false;
      }
    }
    assert seeds[..|seeds|] == seeds;
    ok := true;
  }

  /** The feature-tag loop of `handle`. */
  method UpsertFeatureTags(db: Database, items: seq<FeatureTag>)
    modifies db
    ensures db.featureTags == UpsertAll(old(db.featureTags), items, FeatureKey)
    ensures db.districts == old(db.districts) && db.nextDistrictId == old(db.nextDistrictId)
    ensures db.additionalFilters == old(db.additionalFilters) && db.restaurants == old(db.restaurants)
  {
    for i := 0 to |items|
      invariant db.featureTags == UpsertAll(old(db.featureTags), items[..i], FeatureKey)
      invariant db.districts == old(db.districts) && db.nextDistrictId == old(db.nextDistrictId)
      invariant db.additionalFilters == old(db.additionalFilters) && db.restaurants == old(db.restaurants)
    {
      assert items[..i + 1][..i] == items[..i];
      db.featureTags := db.featureTags[items[i].key := items[i]];
    }
    assert items[..|items|] == items;
  }

  /** The additional-filter loop of `handle`. */
  method UpsertAdditionalFilters(db: Database, items: seq<AdditionalFilter>)
    modifies db
    ensures db.additionalFilters == UpsertAll(old(db.additionalFilters), items, FilterKey)
    ensures db.districts == old(db.districts) && db.nextDistrictId == old(db.nextDistrictId)
    ensures db.featureTags == old(db.featureTags) && db.restaurants == old(db.restaurants)
  {
    for i := 0 to |items|
      invariant db.additionalFilters == UpsertAll(old(db.additionalFilters), items[..i], FilterKey)
      invariant db.districts == old(db.districts) && db.nextDistrictId == old(db.nextDistrictId)
      invariant db.featureTags == old(db.featureTags) && db.restaurants == old(db.restaurants)
    {
      assert items[..i + 1][..i] == items[..i];
      db.additionalFilters := db.additionalFilters[items[i].key := items[i]];
    }
    assert items[..|items|] == items;
  }

  /** The three loops of `handle`, in order; the first error stops the run. */
  method RunLoops(db: Database) returns (ok: bool)
    modifies db
    ensures ok <==> Seed(old(TaxonomyOf(db))).Some?
    ensures ok ==> TaxonomyOf(db) == Seed(old(TaxonomyOf(db))).value
    ensures db.restaurants == old(db.restaurants)
  {
    ok := UpsertDistricts(db, DISTRICTS);
    if ok {
      UpsertFeatureTags(db, FEATURES);
      UpsertAdditionalFilters(db, ADDITIONAL_FILTERS);
    }
  }

  /**
   * `handle` under `transaction.atomic`: the three loops; an error rolls
   * every table back to its state before the run.
   */
  method Handle(db: Database) returns (ok: bool)
    requires db.Valid()
    modifies db
    ensures db.Valid()
    ensures db.restaurants == old(db.restaurants)
    ensures ok <==> Seed(old(TaxonomyOf(db))).Some?
    ensures ok ==> TaxonomyOf(db) == Seed(old(TaxonomyOf(db))).value
    ensures !ok ==> TaxonomyOf(db) == old(TaxonomyOf(db))
  {
    var saved := TaxonomyOf(db);
    ok := RunLoops(db);
    if ok {
      SeedKeepsConsistent(saved, TaxonomyOf(db), db.restaurants);
    } else {
      Restore(db, saved);
    }
  }

  /** The rollback of `transaction.atomic`: the taxonomy tables as they were. */
  method Restore(db: Database, t: Taxonomy)
    modifies db
    ensures TaxonomyOf(db) == t && db.restaurants == old(db.restaurants)
  {
    db.districts, db.nextDistrictId := t.districts, t.nextDistrictId;
    db.featureTags, db.additionalFilters := t.tags, t.filters;
  }
}
