/**
 * The read side of `RestaurantViewSet` and the `search_suggestions`
 * endpoint: the list scope, the ordering the list endpoint applies, the
 * UUID-or-slug lookup of a single restaurant, and the suggestion lists.
 */
module Views {
  import opened Wrappers
  import opened Models
  import opened Collections
  import opened Sorting
  import Text
  import opened Filters
  import opened Serializers
  import opened Permissions

  // ----- Responses -----

  /** An HTTP answer, with the body where one is sent. */
  datatype Response =
    | Ok(body: Shape)
    | OkList(items: seq<Shape>)
    | Created(body: Shape)
    | NoContent
    | BadRequest(errors: Errors)
    | Unauthorized
    | Forbidden
    | NotFound
  {
    function Status(): int {
      match this
      case Ok(_) => 200
      case OkList(_) => 200
      case Created(_) => 201
      case NoContent => 204
      case BadRequest(_) => 400
      case Unauthorized => 401
      case Forbidden => 403
      case NotFound => 404
    }
  }

  /** A refused permission check: 401 for a caller without credentials, 403 otherwise. */
  function Denied(d: Denial): (resp: Response)
    ensures resp.Status() == (if d.NotAuthenticated? then 401 else 403)
  {
    match d
    case NotAuthenticated => Unauthorized
    case PermissionDenied => Forbidden
  }

  // ----- List scope and ordering -----

  /** The view's base queryset: active restaurants only. */
  function ListScope(rows: seq<Restaurant>): (r: seq<Restaurant>)
    ensures forall x :: x in r <==> x in rows && x.isActive
    ensures NoDuplicates(rows) ==> NoDuplicates(r)
  {
    Keep(rows, IsActive)
  }

  /** The two fields a client may order by. */
  datatype OrderField = RatingKey | PriceTierKey

  /** One ordering term: a field, ascending or descending (`-field`). */
  datatype OrderTerm = OrderTerm(field: OrderField, descending: bool)

  /** The view's own default, `['-rating']`. */
  const DEFAULT_ORDERING: seq<OrderTerm> := [OrderTerm(RatingKey, true)]

  function KeyOf(r: Restaurant, f: OrderField): int {
    match f
    case RatingKey => r.rating
    case PriceTierKey => r.priceTier
  }

  /** A term of the `ordering` parameter that names an allowed field, optionally after one `-`. */
  function TermOf(term: string): (t: Option<OrderTerm>)
    ensures t.Some? <==> term in ["rating", "-rating", "price_tier", "-price_tier"]
    ensures t.Some? ==> (t.value.descending <==> term[0] == '-')
    ensures t.Some? ==> (t.value.field == RatingKey <==> term in ["rating", "-rating"])
  {
    if term == "rating" then Some(OrderTerm(RatingKey, false))
    else if term == "-rating" then Some(OrderTerm(RatingKey, true))
    else if term == "price_tier" then Some(OrderTerm(PriceTierKey, false))
    else if term == "-price_tier" then Some(OrderTerm(PriceTierKey, true))
    else None
  }

  /** The allowed terms of a comma-separated list, each stripped, in order; the others are dropped. */
  function ValidTerms(fields: seq<string>): (ts: seq<OrderTerm>)
    ensures |ts| <= |fields|
    ensures forall t :: t in ts <==> exists f :: f in fields && TermOf(Text.Strip(f)) == Some(t)
  {
    if fields == [] then []
    else
      var rest := ValidTerms(fields[1..]);
      assert fields == [fields[0]] + fields[1..];
      match TermOf(Text.Strip(fields[0]))
      case Some(t) => [t] + rest
      case None => rest
  }

  /** The terms of a list are the terms of its parts, in the same order. */
  lemma {:induction false} ValidTermsAppend(a: seq<string>, b: seq<string>)
    ensures ValidTerms(a + b) == ValidTerms(a) + ValidTerms(b)
  {
    if a != [] {
      assert (a + b)[1..] == a[1..] + b;
      assert (a + b)[0] == a[0];
      ValidTermsAppend(a[1..], b);
    } else {
      assert a + b == b;
    }
  }

  /** A single field gives its term when it is allowed, and nothing otherwise. */
  lemma ValidTermsSingle(f: string)
    ensures ValidTerms([f]) == if TermOf(Text.Strip(f)).Some? then [TermOf(Text.Strip(f)).value] else []
  {
    assert [f][1..] == [];
  }

  /**
   * The ordering the list endpoint applies: the allowed terms of the last
   * `ordering` value, or the default `-rating` when it is absent, empty or
   * names no allowed field.
   */
  function ParseOrdering(q: QueryDict): (ts: seq<OrderTerm>)
    ensures ts != []
    ensures GetLast(q, "ordering").None? ==> ts == DEFAULT_ORDERING
    ensures GetLast(q, "ordering") == Some("") ==> ts == DEFAULT_ORDERING
    ensures GetLast(q, "ordering").Some? && GetLast(q, "ordering").value != "" ==>
      var given := ValidTerms(Text.Split(GetLast(q, "ordering").value, ','));
      ts == if given == [] then DEFAULT_ORDERING else given
  {
    match GetLast(q, "ordering")
    case None => DEFAULT_ORDERING
    case Some(params) =>
      if params == "" then DEFAULT_ORDERING
      else
        var given := ValidTerms(Text.Split(params, ','));
        if given == [] then DEFAULT_ORDERING else given
  }

  /** `order_by(*terms)`: `a` may come before `b`. Rows equal on every term may come in either order. */
  predicate OrderLe(terms: seq<OrderTerm>, a: Restaurant, b: Restaurant) {
    if terms == [] then true
    else
      var ka := KeyOf(a, terms[0].field);
      var kb := KeyOf(b, terms[0].field);
      if ka == kb then OrderLe(terms[1..], a, b)
      else if terms[0].descending then ka > kb
      else ka < kb
  }

  lemma {:induction false} OrderLeTotal(terms: seq<OrderTerm>, a: Restaurant, b: Restaurant)
    ensures OrderLe(terms, a, b) || OrderLe(terms, b, a)
  {
    if terms != [] {
      OrderLeTotal(terms[1..], a, b);
    }
  }

  lemma {:induction false} OrderLeTransitive(terms: seq<OrderTerm>, a: Restaurant, b: Restaurant, c: Restaurant)
    requires OrderLe(terms, a, b) && OrderLe(terms, b, c)
    ensures OrderLe(terms, a, c)
  {
    if terms != [] {
      var f := terms[0].field;
      if KeyOf(a, f) == KeyOf(b, f) && KeyOf(b, f) == KeyOf(c, f) {
        OrderLeTransitive(terms[1..], a, b, c);
      }
    }
  }

  /** Every ordering is a total preorder, so the database can sort by it. */
  lemma OrderingIsPreorder(terms: seq<OrderTerm>)
    ensures TotalPreorder((a, b) => OrderLe(terms, a, b))
  {
    forall a, b ensures OrderLe(terms, a, b) || OrderLe(terms, b, a) {
      OrderLeTotal(terms, a, b);
    }
    forall a, b, c | OrderLe(terms, a, b) && OrderLe(terms, b, c) ensures OrderLe(terms, a, c) {
      OrderLeTransitive(terms, a, b, c);
    }
  }

  /** Under the default ordering, a list is ordered by rating, highest first. */
  lemma DefaultOrderingIsRatingDescending(a: Restaurant, b: Restaurant)
    ensures OrderLe(DEFAULT_ORDERING, a, b) <==> a.rating >= b.rating
  {
    assert DEFAULT_ORDERING[1..] == [];
  }

  /**
   * The rows of the list endpoint: the active restaurants that pass the
   * filter set, each once, sorted by the requested ordering.
   */
  function ListRows(rows: seq<Restaurant>, ds: seq<District>, q: QueryDict): (r: seq<Restaurant>)
    ensures forall x :: x in r <==>
      x in rows && x.isActive && DistrictOk(x, ds, q) && FeatureOk(x, q) && AdditionalOk(x, q)
    ensures multiset(r) == multiset(ApplyFilterSet(ListScope(rows), ds, q))
    ensures SortedBy(r, (a, b) => OrderLe(ParseOrdering(q), a, b))
    ensures NoDuplicates(rows) ==> NoDuplicates(r)
  {
    var terms := ParseOrdering(q);
    OrderingIsPreorder(terms);
    var filtered := ApplyFilterSet(ListScope(rows), ds, q);
    var r := Sort(filtered, (a, b) => OrderLe(terms, a, b));
    forall x ensures x in r <==> x in filtered {
      assert x in r <==> x in multiset(r);
    }
    assert NoDuplicates(rows) ==> NoDuplicates(r) by {
      if NoDuplicates(rows) {
        PermutationNoDuplicates(filtered, r);
      }
    }
    r
  }

  /** Every row the list endpoint answers with is active. */
  lemma ListOnlyActive(rows: seq<Restaurant>, ds: seq<District>, q: QueryDict)
    ensures forall x :: x in ListRows(rows, ds, q) ==> x.isActive
  {
  }

  /** `list`: the list shape of each row; reads are open to every caller. */
  function List(user: User, rows: seq<Restaurant>, ds: seq<District>, q: QueryDict): (resp: Response)
    requires forall x :: x in rows ==> DistrictExists(ds, x.district)
    ensures resp.OkList?
    ensures |resp.items| == |ListRows(rows, ds, q)|
    ensures forall i :: 0 <= i < |resp.items| ==> Names(resp.items[i]) == LIST_FIELDS
    ensures forall i :: 0 <= i < |resp.items| ==>
      var x := ListRows(rows, ds, q)[i]; resp.items[i] == ListShape(x, FindDistrict(ds, x.district).value)
  {
    var r := ListRows(rows, ds, q);
    assert HasPermission("GET", user);
    OkList(seq(|r|, i requires 0 <= i < |r| => ListShape(r[i], FindDistrict(ds, r[i].district).value)))
  }

  // ----- Single-item lookup -----

  /** The keyword `get_object_or_404` is called with: `pk=...` or `slug=...`. */
  datatype Lookup = ByPk(id: Uuid) | BySlug(slug: string)

  predicate Hits(x: Restaurant, l: Lookup) {
    match l
    case ByPk(id) => x.id == id
    case BySlug(slug) => x.slug == slug
  }

  /** `get_object_or_404` over all restaurants, active or not: the row the keyword selects, if any. */
  function FindRow(rows: seq<Restaurant>, l: Lookup): (r: Option<Restaurant>)
    ensures r.Some? <==> exists x :: x in rows && Hits(x, l)
    ensures r.Some? ==> r.value in rows && Hits(r.value, l)
  {
    if rows == [] then None
    else if Hits(rows[0], l) then Some(rows[0])
    else FindRow(rows[1..], l)
  }

  /**
   * `get_object`: a path value that parses as a UUID (`parse`) is looked up
   * by primary key only, any other value by slug only, over all
   * restaurants whether active or not. An empty value finds nothing.
   */
  function GetObject(rows: seq<Restaurant>, lookup: string, parse: string -> Option<Uuid>): (r: Option<Restaurant>)
    ensures r.Some? ==> r.value in rows && lookup != ""
    ensures lookup != "" && parse(lookup).Some? ==>
      (r.Some? <==> exists x :: x in rows && x.id == parse(lookup).value) &&
      (r.Some? ==> r.value.id == parse(lookup).value)
    ensures lookup != "" && parse(lookup).None? ==>
      (r.Some? <==> exists x :: x in rows && x.slug == lookup) &&
      (r.Some? ==> r.value.slug == lookup)
  {
    if lookup == "" then None
    else match parse(lookup)
      case Some(id) => FindRow(rows, ByPk(id))
      case None => FindRow(rows, BySlug(lookup))
  }

  /** An inactive restaurant is still found, by its id. */
  lemma LookupByIdIgnoresActive(rows: seq<Restaurant>, x: Restaurant, lookup: string, parse: string -> Option<Uuid>)
    requires UniqueRestaurants(rows) && x in rows
    requires lookup != "" && parse(lookup) == Some(x.id)
    ensures GetObject(rows, lookup, parse) == Some(x)
  {
    var r := GetObject(rows, lookup, parse).value;
    var i :| 0 <= i < |rows| && rows[i] == r;
    var j :| 0 <= j < |rows| && rows[j] == x;
    assert i == j;
  }

  /** An inactive restaurant is still found, by its slug, unless the slug parses as a UUID. */
  lemma LookupBySlugIgnoresActive(rows: seq<Restaurant>, x: Restaurant, parse: string -> Option<Uuid>)
    requires UniqueRestaurants(rows) && x in rows
    requires x.slug != "" && parse(x.slug).None?
    ensures GetObject(rows, x.slug, parse) == Some(x)
  {
    var r := GetObject(rows, x.slug, parse).value;
    var i :| 0 <= i < |rows| && rows[i] == r;
    var j :| 0 <= j < |rows| && rows[j] == x;
    assert i == j;
  }

  /** A UUID-shaped value with no matching id is not found, even when a row has it as slug. */
  lemma NoSlugFallback(rows: seq<Restaurant>, lookup: string, parse: string -> Option<Uuid>)
    requires lookup != "" && parse(lookup).Some?
    requires forall x :: x in rows ==> x.id != parse(lookup).value
    ensures GetObject(rows, lookup, parse).None?
  {
  }

  /** `retrieve`: the detail shape of the looked-up row, or 404. */
  function Retrieve(user: User, rows: seq<Restaurant>, ds: seq<District>, lookup: string,
                    parse: string -> Option<Uuid>): (resp: Response)
    requires forall x :: x in rows ==> DistrictExists(ds, x.district)
    ensures resp.NotFound? <==> GetObject(rows, lookup, parse).None?
    ensures resp.Ok? ==> Names(resp.body) == DETAIL_FIELDS
    ensures resp.Ok? ==> resp.body == Detail(GetObject(rows, lookup, parse).value, ds)
    ensures resp.Ok? || resp.NotFound?
  {
    assert HasPermission("GET", user);
    match GetObject(rows, lookup, parse)
    case None => NotFound
    case Some(x) =>
      assert HasObjectPermission("GET", user, x);
      Ok(Detail(x, ds))
  }

  // ----- search_suggestions -----

  /** Rows ordered by name (`order_by('name')`). */
  predicate NameLe(a: Restaurant, b: Restaurant) {
    Text.LexLe(a.name, b.name)
  }

  predicate DistrictNameLe(a: District, b: District) {
    Text.LexLe(a.name, b.name)
  }

  lemma NameOrderIsPreorder()
    ensures TotalPreorder(NameLe)
    ensures TotalPreorder(DistrictNameLe)
  {
    forall a: string, b: string ensures Text.LexLe(a, b) || Text.LexLe(b, a) {
      Text.LexLeTotal(a, b);
    }
    forall a: string, b: string, c: string | Text.LexLe(a, b) && Text.LexLe(b, c) ensures Text.LexLe(a, c) {
      Text.LexLeTransitive(a, b, c);
    }
  }

  const SUGGESTION_LIMIT := 5

  /** Districts whose name contains `query` case-insensitively, in table order. */
  function DistrictsNamed(ds: seq<District>, query: string, fold: char -> char): (r: seq<District>)
    ensures forall d :: d in r <==> d in ds && Text.IContains(d.name, query, fold)
    ensures NoDuplicates(ds) ==> NoDuplicates(r)
  {
    if ds == [] then []
    else
      var p := ds[..|ds| - 1];
      var d := ds[|ds| - 1];
      assert ds == p + [d];
      var k := DistrictsNamed(p, query, fold);
      if Text.IContains(d.name, query, fold) then
        assert NoDuplicates(ds) ==> d !in p;
        k + [d]
      else k
  }

  /** An active restaurant whose name contains the query. */
  predicate Suggestible(x: Restaurant, query: string, fold: char -> char) {
    x.isActive && Text.IContains(x.name, query, fold)
  }

  /**
   * The suggested restaurants for a non-blank query: at most five matching
   * active restaurants, by name; no matching restaurant left out sorts
   * before one shown, and when fewer than five are shown every match is.
   */
  function SuggestedRestaurants(rows: seq<Restaurant>, query: string, fold: char -> char): (r: seq<Restaurant>)
    ensures |r| <= SUGGESTION_LIMIT
    ensures forall x :: x in r ==> x in rows && Suggestible(x, query, fold)
    ensures SortedBy(r, NameLe)
    ensures NoDuplicates(rows) ==>
      forall x, y :: x in r && y in rows && Suggestible(y, query, fold) && y !in r ==> NameLe(x, y)
    ensures |r| < SUGGESTION_LIMIT ==> forall y :: y in rows && Suggestible(y, query, fold) ==> y in r
  {
    NameOrderIsPreorder();
    var matching := Keep(ListScope(rows), NameContains(query, fold));
    var sorted := Sort(matching, NameLe);
    var r := Take(sorted, SUGGESTION_LIMIT);
    forall x ensures x in sorted <==> x in matching {
      assert x in sorted <==> x in multiset(sorted);
    }
    assert NoDuplicates(rows) ==>
      forall x, y :: x in r && y in rows && Suggestible(y, query, fold) && y !in r ==> NameLe(x, y)
    by {
      if NoDuplicates(rows) {
        PermutationNoDuplicates(matching, sorted);
        TakeOfSorted(sorted, NameLe, SUGGESTION_LIMIT);
      }
    }
    assert SortedBy(r, NameLe) by {
      assert r == sorted[..|r|];
    }
    r
  }

  /** The suggested districts for a non-blank query, under the same rules. */
  function SuggestedDistricts(ds: seq<District>, query: string, fold: char -> char): (r: seq<District>)
    ensures |r| <= SUGGESTION_LIMIT
    ensures forall d :: d in r ==> d in ds && Text.IContains(d.name, query, fold)
    ensures SortedBy(r, DistrictNameLe)
    ensures NoDuplicates(ds) ==>
      forall d, e :: d in r && e in ds && Text.IContains(e.name, query, fold) && e !in r ==> DistrictNameLe(d, e)
    ensures |r| < SUGGESTION_LIMIT ==> forall e :: e in ds && Text.IContains(e.name, query, fold) ==> e in r
  {
    NameOrderIsPreorder();
    var matching := DistrictsNamed(ds, query, fold);
    var sorted := Sort(matching, DistrictNameLe);
    var r := Take(sorted, SUGGESTION_LIMIT);
    forall d ensures d in sorted <==> d in matching {
      assert d in sorted <==> d in multiset(sorted);
    }
    assert NoDuplicates(ds) ==>
      forall d, e :: d in r && e in ds && Text.IContains(e.name, query, fold) && e !in r ==> DistrictNameLe(d, e)
    by {
      if NoDuplicates(ds) {
        PermutationNoDuplicates(matching, sorted);
        TakeOfSorted(sorted, DistrictNameLe, SUGGESTION_LIMIT);
      }
    }
    assert SortedBy(r, DistrictNameLe) by {
      assert r == sorted[..|r|];
    }
    r
  }

  /**
   * Over a table without duplicates the suggestions repeat no restaurant,
   * and there are five of them or, when fewer match, every match.
   */
  lemma SuggestedRestaurantsCount(rows: seq<Restaurant>, query: string, fold: char -> char)
    ensures NoDuplicates(rows) ==> NoDuplicates(SuggestedRestaurants(rows, query, fold))
    ensures NoDuplicates(rows) ==>
      var n := |set x | x in rows && Suggestible(x, query, fold)|;
      |SuggestedRestaurants(rows, query, fold)| == if n < SUGGESTION_LIMIT then n else SUGGESTION_LIMIT
  {
    NameOrderIsPreorder();
    var matching := Keep(ListScope(rows), NameContains(query, fold));
    var sorted := Sort(matching, NameLe);
    assert SuggestedRestaurants(rows, query, fold) == Take(sorted, SUGGESTION_LIMIT);
    if NoDuplicates(rows) {
      PermutationNoDuplicates(matching, sorted);
      NoDuplicatesCard(matching);
      assert (set x | x in matching) == (set x | x in rows && Suggestible(x, query, fold));
    }
  }

  /** The same for the suggested districts. */
  lemma SuggestedDistrictsCount(ds: seq<District>, query: string, fold: char -> char)
    ensures NoDuplicates(ds) ==> NoDuplicates(SuggestedDistricts(ds, query, fold))
    ensures NoDuplicates(ds) ==>
      var n := |set d | d in ds && Text.IContains(d.name, query, fold)|;
      |SuggestedDistricts(ds, query, fold)| == if n < SUGGESTION_LIMIT then n else SUGGESTION_LIMIT
  {
    NameOrderIsPreorder();
    var matching := DistrictsNamed(ds, query, fold);
    var sorted := Sort(matching, DistrictNameLe);
    assert SuggestedDistricts(ds, query, fold) == Take(sorted, SUGGESTION_LIMIT);
    if NoDuplicates(ds) {
      PermutationNoDuplicates(matching, sorted);
      NoDuplicatesCard(matching);
      assert (set d | d in matching) == (set d | d in ds && Text.IContains(d.name, query, fold));
    }
  }

  /** One restaurant suggestion: `{'id', 'name', 'slug'}`. */
  datatype RestaurantHit = RestaurantHit(id: Uuid, name: string, slug: string)

  /** One district suggestion: `{'slug', 'name'}`. */
  datatype DistrictHit = DistrictHit(slug: string, name: string)

  /** The suggestion payload. */
  datatype Suggestions = Suggestions(query: string, restaurants: seq<RestaurantHit>, districts: seq<DistrictHit>)

  function RestaurantHits(r: seq<Restaurant>): (hits: seq<RestaurantHit>)
    ensures |hits| == |r|
    ensures forall i :: 0 <= i < |r| ==> hits[i] == RestaurantHit(r[i].id, r[i].name, r[i].slug)
  {
    seq(|r|, i requires 0 <= i < |r| => RestaurantHit(r[i].id, r[i].name, r[i].slug))
  }

  function DistrictHits(d: seq<District>): (hits: seq<DistrictHit>)
    ensures |hits| == |d|
    ensures forall i :: 0 <= i < |d| ==> hits[i] == DistrictHit(d[i].slug, d[i].name)
  {
    seq(|d|, i requires 0 <= i < |d| => DistrictHit(d[i].slug, d[i].name))
  }

  /**
   * `search_suggestions`: the stripped `q` echoed back; a blank query gives
   * two empty lists, otherwise the suggested restaurants and districts.
   */
  function SearchSuggestions(rows: seq<Restaurant>, ds: seq<District>, q: QueryDict, fold: char -> char): (s: Suggestions)
    ensures s.query == Text.Strip(GetLast(q, "q").GetOr(""))
    ensures s.query == "" ==> s.restaurants == [] && s.districts == []
    ensures s.query != "" ==> s.restaurants == RestaurantHits(SuggestedRestaurants(rows, s.query, fold))
    ensures s.query != "" ==> s.districts == DistrictHits(SuggestedDistricts(ds, s.query, fold))
    ensures |s.restaurants| <= SUGGESTION_LIMIT && |s.districts| <= SUGGESTION_LIMIT
  {
    var query := Text.Strip(GetLast(q, "q").GetOr(""));
    if query == "" then Suggestions(query, [], [])
    else
      Suggestions(query, RestaurantHits(SuggestedRestaurants(rows, query, fold)),
                  DistrictHits(SuggestedDistricts(ds, query, fold)))
  }

  /** A query of only whitespace is blank: no suggestions at all. */
  lemma BlankQueryNoSuggestions(rows: seq<Restaurant>, ds: seq<District>, q: QueryDict, fold: char -> char)
    requires GetLast(q, "q").None? || Text.AllSpace(GetLast(q, "q").value)
    ensures SearchSuggestions(rows, ds, q, fold) == Suggestions("", [], [])
  {
    Text.StripBlankIff(GetLast(q, "q").GetOr(""));
  }
}
