/**
 * `RestaurantFilter`: an exact match on the district slug, and OR-over-values
 * membership tests on feature keys and additional-filter keys, each clause
 * narrowing the queryset it is given.
 */
module Filters {
  import opened Wrappers
  import opened Models
  import opened Collections
  import Text

  /** Query parameters: each name with all of its values, in request order. */
  type QueryDict = map<string, seq<string>>

  /** `QueryDict.getlist(name)`. */
  function GetList(q: QueryDict, name: string): seq<string> {
    if name in q then q[name] else []
  }

  /** `QueryDict.get(name)`: the last value given for `name`. */
  function GetLast(q: QueryDict, name: string): (v: Option<string>)
    ensures v.Some? <==> GetList(q, name) != []
    ensures v.Some? ==> v.value == GetList(q, name)[|GetList(q, name)| - 1]
  {
    var values := GetList(q, name);
    if values == [] then None else Some(values[|values| - 1])
  }

  /** A condition a queryset can be narrowed by. */
  datatype Clause =
    | IsActive
    | DistrictSlug(ds: seq<District>, slug: string)
    | AnyKey(rel: Relation, wanted: set<string>)
    | NameContains(query: string, fold: char -> char)

  predicate Matches(r: Restaurant, c: Clause) {
    match c
    case IsActive => r.isActive
    case DistrictSlug(ds, slug) => exists d :: d in ds && d.id == r.district && d.slug == slug
    case AnyKey(rel, wanted) => KeysOf(r, rel) * wanted != {}
    case NameContains(query, fold) => Text.IContains(r.name, query, fold)
  }

  /** `queryset.filter(...)` on one clause: the matching rows, in queryset order. */
  function Keep(qs: seq<Restaurant>, c: Clause): (r: seq<Restaurant>)
    ensures forall x :: x in r <==> x in qs && Matches(x, c)
    ensures multiset(r) <= multiset(qs)
    ensures NoDuplicates(qs) ==> NoDuplicates(r)
  {
    if qs == [] then []
    else
      var p := qs[..|qs| - 1];
      var x := qs[|qs| - 1];
      assert qs == p + [x];
      var k := Keep(p, c);
      if Matches(x, c) then
        assert NoDuplicates(qs) ==> x !in p;
        k + [x]
      else k
  }

  /** `[v for v in values if v]`. */
  function NonEmpty(values: seq<string>): (r: seq<string>)
    ensures forall v :: v in r <==> v in values && v != ""
  {
    if values == [] then []
    else if values[0] == "" then NonEmpty(values[1..])
    else [values[0]] + NonEmpty(values[1..])
  }

  /** `x` repeated `n` times. */
  function Repeat(x: Restaurant, n: nat): (r: seq<Restaurant>)
    ensures |r| == n && forall y :: y in r ==> y == x
  {
    seq(n, _ => x)
  }

  /**
   * The rows of the SQL join behind `filter(features__key__in=...)`: each
   * restaurant once per link whose key is wanted.
   */
  function JoinLinks(qs: seq<Restaurant>, rel: Relation, wanted: set<string>): seq<Restaurant> {
    if qs == [] then []
    else
      var x := qs[|qs| - 1];
      JoinLinks(qs[..|qs| - 1], rel, wanted) + Repeat(x, |KeysOf(x, rel) * wanted|)
  }

  /** A row appears in the join exactly when it has a wanted key. */
  lemma {:induction false} JoinLinksMembers(qs: seq<Restaurant>, rel: Relation, wanted: set<string>, y: Restaurant)
    ensures y in JoinLinks(qs, rel, wanted) <==> y in qs && Matches(y, AnyKey(rel, wanted))
  {
    if qs != [] {
      var p := qs[..|qs| - 1];
      var x := qs[|qs| - 1];
      assert qs == p + [x];
      JoinLinksMembers(p, rel, wanted, y);
      var n := |KeysOf(x, rel) * wanted|;
      if y == x && n > 0 {
        assert Repeat(x, n)[0] == y;
      }
      if KeysOf(x, rel) * wanted != {} {
        assert n > 0;
      }
    }
  }

  lemma {:induction false} DedupRepeat(s: seq<Restaurant>, x: Restaurant, n: nat)
    ensures Dedup(s + Repeat(x, n)) == if n == 0 || x in s then Dedup(s) else Dedup(s) + [x]
  {
    if n > 0 {
      assert s + Repeat(x, n) == (s + Repeat(x, n - 1)) + [x];
      DedupRepeat(s, x, n - 1);
      DedupSnoc(s + Repeat(x, n - 1), x);
      if n - 1 > 0 {
        assert Repeat(x, n - 1)[0] == x;
      }
    } else {
      assert s + Repeat(x, n) == s;
    }
  }

  /**
   * `.distinct()` over the join gives back exactly the rows having a wanted
   * key, once each and in queryset order.
   */
  lemma {:induction false} DistinctJoinIsKeep(qs: seq<Restaurant>, rel: Relation, wanted: set<string>)
    requires NoDuplicates(qs)
    ensures Dedup(JoinLinks(qs, rel, wanted)) == Keep(qs, AnyKey(rel, wanted))
  {
    if qs != [] {
      var p := qs[..|qs| - 1];
      var x := qs[|qs| - 1];
      assert qs == p + [x];
      DistinctJoinIsKeep(p, rel, wanted);
      var n := |KeysOf(x, rel) * wanted|;
      DedupRepeat(JoinLinks(p, rel, wanted), x, n);
      JoinLinksMembers(p, rel, wanted, x);
      assert x !in p;
      assert n > 0 <==> KeysOf(x, rel) * wanted != {};
    }
  }

  /** The keys asked for: every non-empty value. */
  function Wanted(values: seq<string>): set<string> {
    set v | v in values && v != ""
  }

  /**
   * The body shared by `filter_feature` and `filter_additional`: drop empty
   * values; with none left return the queryset, otherwise keep the rows
   * having any of the keys, each once.
   */
  function FilterByKeys(qs: seq<Restaurant>, rel: Relation, values: seq<string>): (r: seq<Restaurant>)
    ensures NonEmpty(values) == [] ==> r == qs
    ensures NonEmpty(values) != [] ==> NoDuplicates(r)
    ensures NonEmpty(values) != [] ==>
      forall x :: x in r <==> x in qs && KeysOf(x, rel) * Wanted(values) != {}
  {
    var cleaned := NonEmpty(values);
    if cleaned == [] then qs
    else
      var wanted := set v | v in cleaned;
      assert wanted == Wanted(values);
      var r := Dedup(JoinLinks(qs, rel, wanted));
      forall x ensures x in r <==> x in qs && KeysOf(x, rel) * wanted != {} {
        JoinLinksMembers(qs, rel, wanted, x);
      }
      r
  }

  /** `filter_feature`: OR over the repeated `feature` values. */
  function FilterFeature(qs: seq<Restaurant>, values: seq<string>): (r: seq<Restaurant>)
    ensures NonEmpty(values) == [] ==> r == qs
    ensures NonEmpty(values) != [] ==> NoDuplicates(r)
    ensures NonEmpty(values) != [] ==>
      forall x :: x in r <==> x in qs && x.features * Wanted(values) != {}
  {
    FilterByKeys(qs, Features, values)
  }

  /** `filter_additional`: as `filter_feature`, over the additional-filter keys. */
  function FilterAdditional(qs: seq<Restaurant>, values: seq<string>): (r: seq<Restaurant>)
    ensures NonEmpty(values) == [] ==> r == qs
    ensures NonEmpty(values) != [] ==> NoDuplicates(r)
    ensures NonEmpty(values) != [] ==>
      forall x :: x in r <==> x in qs && x.additionalFilters * Wanted(values) != {}
  {
    FilterByKeys(qs, AdditionalFilters, values)
  }

  /**
   * The cleaned form value of a filter: the last value given, stripped of
   * whitespace. A filter whose form value is empty is not applied.
   */
  function FormValue(q: QueryDict, name: string): string {
    Text.Strip(GetLast(q, name).GetOr(""))
  }

  predicate DistrictOk(x: Restaurant, ds: seq<District>, q: QueryDict) {
    FormValue(q, "district") == "" || Matches(x, DistrictSlug(ds, FormValue(q, "district")))
  }

  predicate FeatureOk(x: Restaurant, q: QueryDict) {
    FormValue(q, "feature") == "" || x.features * Wanted(GetList(q, "feature")) != {}
  }

  predicate AdditionalOk(x: Restaurant, q: QueryDict) {
    FormValue(q, "additional") == "" || x.additionalFilters * Wanted(GetList(q, "additional")) != {}
  }

  /** A non-empty form value means the value list has a non-empty entry. */
  lemma FormValueNonEmpty(q: QueryDict, name: string)
    ensures FormValue(q, name) != "" ==> NonEmpty(GetList(q, name)) != []
  {
    if FormValue(q, name) != "" {
      var values := GetList(q, name);
      var last := values[|values| - 1];
      assert last != "";
      assert last in NonEmpty(values);
    }
  }

  /**
   * The filter set: the district clause, then `feature`, then `additional`.
   * A row survives exactly when it passes every clause that applies.
   */
  function ApplyFilterSet(qs: seq<Restaurant>, ds: seq<District>, q: QueryDict): (r: seq<Restaurant>)
    ensures forall x :: x in r <==>
      x in qs && DistrictOk(x, ds, q) && FeatureOk(x, q) && AdditionalOk(x, q)
    ensures NoDuplicates(qs) ==> NoDuplicates(r)
  {
    FormValueNonEmpty(q, "feature");
    FormValueNonEmpty(q, "additional");
    var slug := FormValue(q, "district");
    var a := if slug == "" then qs else Keep(qs, DistrictSlug(ds, slug));
    var b := if FormValue(q, "feature") == "" then a else FilterFeature(a, GetList(q, "feature"));
    if FormValue(q, "additional") == "" then b else FilterAdditional(b, GetList(q, "additional"))
  }
}
