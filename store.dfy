/**
 * The write side of `RestaurantViewSet` over the database tables: `create`,
 * `update` (PUT), `partial_update` (PATCH) and `destroy`, each as a
 * state change of the tables, plus `on_delete=PROTECT` for districts.
 * Each write is also described by a function of the old tables, and the
 * integrity rules of the tables are proved to survive every write.
 */
module Store {
  import opened Wrappers
  import opened Models
  import opened Collections
  import opened Serializers
  import opened Permissions
  import opened Views

  /** A view's answer and the restaurant table it leaves. */
  datatype Outcome = Outcome(resp: Response, rows: seq<Restaurant>)

  /** `instance.save()`: the row with the same primary key replaced. */
  function ReplaceById(rs: seq<Restaurant>, row: Restaurant): (r: seq<Restaurant>)
    ensures |r| == |rs|
    ensures forall i :: 0 <= i < |rs| ==> r[i] == if rs[i].id == row.id then row else rs[i]
  {
    seq(|rs|, i requires 0 <= i < |rs| => if rs[i].id == row.id then row else rs[i])
  }

  /** Saving the same row twice is saving its last state. */
  lemma ReplaceTwice(rs: seq<Restaurant>, a: Restaurant, b: Restaurant)
    requires a.id == b.id
    ensures ReplaceById(ReplaceById(rs, a), b) == ReplaceById(rs, b)
  {
  }

  /** Saving the row just appended replaces it in place. */
  lemma ReplaceLast(rs: seq<Restaurant>, a: Restaurant, b: Restaurant)
    requires a.id == b.id && forall x :: x in rs ==> x.id != a.id
    ensures ReplaceById(rs + [a], b) == rs + [b]
  {
    var r := ReplaceById(rs + [a], b);
    forall i | 0 <= i < |rs| ensures r[i] == rs[i] {
      assert rs[i] in rs;
    }
  }

  /** `instance.delete()`: every row with that primary key removed. */
  function RemoveById(rs: seq<Restaurant>, id: Uuid): (r: seq<Restaurant>)
    ensures forall x :: x in r <==> x in rs && x.id != id
    ensures UniqueRestaurants(rs) ==> UniqueRestaurants(r)
  {
    if rs == [] then []
    else
      var p := rs[..|rs| - 1];
      var x := rs[|rs| - 1];
      assert rs == p + [x];
      var k := RemoveById(p, id);
      if x.id == id then k
      else
        RestaurantsSnoc(p, k, x);
        k + [x]
  }

  /** Appending the last row of a unique table to rows taken from the rest keeps it unique. */
  lemma RestaurantsSnoc(p: seq<Restaurant>, k: seq<Restaurant>, x: Restaurant)
    requires forall y :: y in k ==> y in p
    requires UniqueRestaurants(p + [x]) ==> UniqueRestaurants(k)
    ensures UniqueRestaurants(p + [x]) ==> UniqueRestaurants(k + [x])
  {
    if UniqueRestaurants(p + [x]) {
      forall y | y in k ensures y.id != x.id && y.slug != x.slug {
        var i :| 0 <= i < |p| && p[i] == y;
        assert (p + [x])[i] == y && (p + [x])[|p|] == x;
      }
    }
  }

  /** A row's references resolve in the given tables. */
  predicate RowFits(row: Restaurant, ds: seq<District>, tags: map<string, FeatureTag>,
                    filters: map<string, AdditionalFilter>) {
    DistrictExists(ds, row.district) && row.features <= tags.Keys && row.additionalFilters <= filters.Keys
  }

  /** A district that validation let through, or the one the row had, exists. */
  lemma AssignedDistrictExists(row: Restaurant, base: Restaurant, v: Validated, partial: bool,
                               ds: seq<District>, rs: seq<Restaurant>, instance: Option<Uuid>)
    requires Admissible(v, partial, ds, rs, instance) && AssignedFrom(row, base, v.fields)
    requires DistrictField in FieldsOf(v.fields) || DistrictExists(ds, base.district)
    ensures DistrictExists(ds, row.district)
  {
    if DistrictField in FieldsOf(v.fields) {
      var d :| d in v.fields && FieldOf(d) == DistrictField;
      assert Holds(row, d);
    } else {
      assert SameField(row, base, DistrictField);
    }
  }

  /** A slug that validation let through, or the one the row had, clashes with no other row. */
  lemma AssignedSlugFree(row: Restaurant, x: Restaurant, v: Validated, partial: bool,
                         ds: seq<District>, rs: seq<Restaurant>)
    requires UniqueRestaurants(rs) && x in rs
    requires Admissible(v, partial, ds, rs, Some(x.id)) && AssignedFrom(row, x, v.fields)
    ensures forall y :: y in rs && y.id != x.id ==> y.slug != row.slug
  {
    if SlugField in FieldsOf(v.fields) {
      var s :| s in v.fields && FieldOf(s) == SlugField;
      assert Holds(row, s);
    } else {
      assert SameField(row, x, SlugField);
      forall y | y in rs && y.id != x.id ensures y.slug != row.slug {
        var i :| 0 <= i < |rs| && rs[i] == x;
        var j :| 0 <= j < |rs| && rs[j] == y;
        assert i != j;
      }
    }
  }

  // ----- create -----

  /**
   * `perform_create` on validated data: the insert, then the key lists,
   * then the 201 answer with the detail shape. A key error answers 400
   * after the row has been inserted.
   */
  function CreateValid(v: Validated, newId: Uuid, now: Timestamp, ds: seq<District>,
                       tags: map<string, FeatureTag>, filters: map<string, AdditionalFilter>,
                       rs: seq<Restaurant>): Outcome
    requires Admissible(v, false, ds, rs, None)
  {
    CreatedRowFits(v, newId, now, ds, tags, filters, rs);
    var o := CreateOutcome(v, newId, now, tags.Keys, filters.Keys);
    if o.error.Some? then Outcome(BadRequest(o.error.value), rs + [o.row])
    else Outcome(Created(Detail(o.row, ds)), rs + [o.row])
  }

  /** `create` (POST): the permission check, validation, then `perform_create`. */
  function CreateSpec(user: User, input: WriteInput, newId: Uuid, now: Timestamp,
                      ds: seq<District>, tags: map<string, FeatureTag>,
                      filters: map<string, AdditionalFilter>, rs: seq<Restaurant>): Outcome
  {
    match CheckPermissions("POST", user)
    case Some(d) => Outcome(Denied(d), rs)
    case None =>
      match Validate(input, false, ds, rs, None)
      case Failure(e) => Outcome(BadRequest(e), rs)
      case Success(v) =>
        ValidatedAdmissible(input, false, ds, rs, None);
        CreateValid(v, newId, now, ds, tags, filters, rs)
  }

  /** The row `create` inserts has the new id, a slug no other row has, and references that resolve. */
  lemma CreatedRowFits(v: Validated, newId: Uuid, now: Timestamp, ds: seq<District>,
                       tags: map<string, FeatureTag>, filters: map<string, AdditionalFilter>, rs: seq<Restaurant>)
    requires Admissible(v, false, ds, rs, None)
    ensures var row := CreateOutcome(v, newId, now, tags.Keys, filters.Keys).row;
      && RowFits(row, ds, tags, filters)
      && row.id == newId
      && forall x :: x in rs ==> x.slug != row.slug
  {
    var o := CreateOutcome(v, newId, now, tags.Keys, filters.Keys);
    CreateScalars(v, newId, now, tags.Keys, filters.Keys);
    CreateRelations(v, newId, now, tags.Keys, filters.Keys);
    assert AssignedFrom(o.row, BlankRestaurant(newId, now), v.fields);
    AssignedRowFits(o.row, BlankRestaurant(newId, now), v, ds, tags, filters, rs);
  }

  /** A row built from admissible create data, whose keys are known, fits and has a fresh slug. */
  lemma AssignedRowFits(row: Restaurant, base: Restaurant, v: Validated, ds: seq<District>,
                        tags: map<string, FeatureTag>, filters: map<string, AdditionalFilter>, rs: seq<Restaurant>)
    requires Admissible(v, false, ds, rs, None) && AssignedFrom(row, base, v.fields)
    requires row.features <= tags.Keys && row.additionalFilters <= filters.Keys
    ensures RowFits(row, ds, tags, filters)
    ensures forall x :: x in rs ==> x.slug != row.slug
  {
    AssignedDistrictExists(row, base, v, false, ds, rs, None);
    var s :| s in v.fields && FieldOf(s) == SlugField;
    assert Holds(row, s);
  }

  /** Appending a row that fits and clashes with no id or slug keeps the integrity rules. */
  lemma AppendKeepsConsistent(ds: seq<District>, next: nat, tags: map<string, FeatureTag>,
                              filters: map<string, AdditionalFilter>, rs: seq<Restaurant>, row: Restaurant)
    requires Consistent(ds, next, tags, filters, rs) && RowFits(row, ds, tags, filters)
    requires forall x :: x in rs ==> x.id != row.id && x.slug != row.slug
    ensures Consistent(ds, next, tags, filters, rs + [row])
  {
    var r := rs + [row];
    forall i, j | 0 <= i < j < |r| ensures r[i].id != r[j].id && r[i].slug != r[j].slug {
      if j == |rs| {
        assert r[i] in rs;
      } else {
        assert r[i] == rs[i] && r[j] == rs[j];
      }
    }
  }

  /** `perform_create` keeps the integrity rules. */
  lemma CreateKeepsConsistent(v: Validated, newId: Uuid, now: Timestamp, ds: seq<District>, next: nat,
                              tags: map<string, FeatureTag>, filters: map<string, AdditionalFilter>,
                              rs: seq<Restaurant>)
    requires Consistent(ds, next, tags, filters, rs) && Admissible(v, false, ds, rs, None)
    requires forall x :: x in rs ==> x.id != newId
    ensures Consistent(ds, next, tags, filters, CreateValid(v, newId, now, ds, tags, filters, rs).rows)
  {
    var row := CreateOutcome(v, newId, now, tags.Keys, filters.Keys).row;
    CreatedRowFits(v, newId, now, ds, tags, filters, rs);
    AppendKeepsConsistent(ds, next, tags, filters, rs, row);
  }

  /**
   * `perform_create` appends exactly one row with the new id whatever the
   * key lists hold, and answers 201 with the detail shape of that row or
   * 400 for an unknown key.
   */
  lemma CreateValidAnswer(v: Validated, newId: Uuid, now: Timestamp, ds: seq<District>,
                          tags: map<string, FeatureTag>, filters: map<string, AdditionalFilter>,
                          rs: seq<Restaurant>)
    requires Admissible(v, false, ds, rs, None)
    ensures var out := CreateValid(v, newId, now, ds, tags, filters, rs);
      && |out.rows| == |rs| + 1 && out.rows[..|rs|] == rs && out.rows[|rs|].id == newId
      && (out.resp.Created? || out.resp.BadRequest?)
      && (out.resp.Created? ==>
            out.resp.Status() == 201 && Names(out.resp.body) == DETAIL_FIELDS &&
            DistrictExists(ds, out.rows[|rs|].district) && out.resp.body == Detail(out.rows[|rs|], ds))
    ensures var o := CreateOutcome(v, newId, now, tags.Keys, filters.Keys);
      var out := CreateValid(v, newId, now, ds, tags, filters, rs);
      && out.rows == rs + [o.row]
      && (out.resp.Created? <==> o.error.None?)
      && (out.resp.BadRequest? ==> out.resp.errors == o.error.value)
  {
    var row := CreateOutcome(v, newId, now, tags.Keys, filters.Keys).row;
    CreatedRowFits(v, newId, now, ds, tags, filters, rs);
    assert (rs + [row])[..|rs|] == rs;
  }

  /**
   * `create` answers 401/403 to a caller who may not write and 400 on
   * invalid input, both without a write; otherwise it is `perform_create`.
   */
  lemma CreateAnswers(user: User, input: WriteInput, newId: Uuid, now: Timestamp,
                      ds: seq<District>, tags: map<string, FeatureTag>,
                      filters: map<string, AdditionalFilter>, rs: seq<Restaurant>)
    ensures var out := CreateSpec(user, input, newId, now, ds, tags, filters, rs);
      && (!HasPermission("POST", user) ==> out.rows == rs && out.resp.Status() in {401, 403})
      && (HasPermission("POST", user) && Validate(input, false, ds, rs, None).Failure? ==>
            out == Outcome(BadRequest(Validate(input, false, ds, rs, None).error), rs))
      && (HasPermission("POST", user) && Validate(input, false, ds, rs, None).Success? ==>
            Admissible(Validate(input, false, ds, rs, None).value, false, ds, rs, None) &&
            out == CreateValid(Validate(input, false, ds, rs, None).value, newId, now, ds, tags, filters, rs))
  {
    if HasPermission("POST", user) && Validate(input, false, ds, rs, None).Success? {
      ValidatedAdmissible(input, false, ds, rs, None);
    }
  }

  // ----- update and partial_update -----

  /**
   * `perform_update` on validated data: the scalar fields saved, then the
   * key lists, then the 200 answer with the detail shape. A key error
   * answers 400 after the earlier writes.
   */
  function UpdateValid(x: Restaurant, v: Validated, partial: bool, now: Timestamp, ds: seq<District>,
                       tags: map<string, FeatureTag>, filters: map<string, AdditionalFilter>,
                       rs: seq<Restaurant>): Outcome
    requires Admissible(v, partial, ds, rs, Some(x.id)) && DistrictExists(ds, x.district)
  {
    UpdatedRowDistrict(x, v, partial, now, ds, tags, filters, rs);
    var o := UpdateOutcome(x, v, now, tags.Keys, filters.Keys);
    if o.error.Some? then Outcome(BadRequest(o.error.value), ReplaceById(rs, o.row))
    else Outcome(Ok(Detail(o.row, ds)), ReplaceById(rs, o.row))
  }

  /**
   * `_update`: the permission check, the lookup (404 when nothing
   * matches), validation against the found row, then `perform_update`.
   */
  function UpdateSpec(verb: string, partial: bool, user: User, lookup: string, parse: string -> Option<Uuid>,
                      input: WriteInput, now: Timestamp, ds: seq<District>, tags: map<string, FeatureTag>,
                      filters: map<string, AdditionalFilter>, rs: seq<Restaurant>): Outcome
    requires forall x :: x in rs ==> DistrictExists(ds, x.district)
  {
    match CheckPermissions(verb, user)
    case Some(d) => Outcome(Denied(d), rs)
    case None =>
      match GetObject(rs, lookup, parse)
      case None => Outcome(NotFound, rs)
      case Some(x) =>
        match Validate(input, partial, ds, rs, Some(x.id))
        case Failure(e) => Outcome(BadRequest(e), rs)
        case Success(v) =>
          ValidatedAdmissible(input, partial, ds, rs, Some(x.id));
          UpdateValid(x, v, partial, now, ds, tags, filters, rs)
  }

  /** The row `update` saves points at an existing district. */
  lemma UpdatedRowDistrict(x: Restaurant, v: Validated, partial: bool, now: Timestamp, ds: seq<District>,
                           tags: map<string, FeatureTag>, filters: map<string, AdditionalFilter>, rs: seq<Restaurant>)
    requires Admissible(v, partial, ds, rs, Some(x.id)) && DistrictExists(ds, x.district)
    ensures DistrictExists(ds, UpdateOutcome(x, v, now, tags.Keys, filters.Keys).row.district)
  {
    var row := UpdateOutcome(x, v, now, tags.Keys, filters.Keys).row;
    UpdateScalars(x, v, now, tags.Keys, filters.Keys);
    AssignedDistrictExists(row, x, v, partial, ds, rs, Some(x.id));
  }

  /** The row `update` saves keeps its id and has a slug no other row has. */
  lemma UpdatedRowSlug(x: Restaurant, v: Validated, partial: bool, now: Timestamp, ds: seq<District>,
                       tags: map<string, FeatureTag>, filters: map<string, AdditionalFilter>, rs: seq<Restaurant>)
    requires UniqueRestaurants(rs) && x in rs && Admissible(v, partial, ds, rs, Some(x.id))
    ensures var row := UpdateOutcome(x, v, now, tags.Keys, filters.Keys).row;
      row.id == x.id && forall y :: y in rs && y.id != x.id ==> y.slug != row.slug
  {
    var row := UpdateOutcome(x, v, now, tags.Keys, filters.Keys).row;
    UpdateScalars(x, v, now, tags.Keys, filters.Keys);
    AssignedSlugFree(row, x, v, partial, ds, rs);
  }

  /** Replacing a row by one that keeps its id, fits, and clashes with no other slug keeps the integrity rules. */
  lemma ReplaceKeepsConsistent(ds: seq<District>, next: nat, tags: map<string, FeatureTag>,
                               filters: map<string, AdditionalFilter>, rs: seq<Restaurant>,
                               x: Restaurant, row: Restaurant)
    requires Consistent(ds, next, tags, filters, rs) && x in rs && row.id == x.id
    requires RowFits(row, ds, tags, filters)
    requires forall y :: y in rs && y.id != x.id ==> y.slug != row.slug
    ensures Consistent(ds, next, tags, filters, ReplaceById(rs, row))
  {
    var r := ReplaceById(rs, row);
    forall i, j | 0 <= i < j < |r| ensures r[i].id != r[j].id && r[i].slug != r[j].slug {
      assert rs[i].id != rs[j].id;
    }
    forall y | y in r ensures RowFits(y, ds, tags, filters) {
      var i :| 0 <= i < |r| && r[i] == y;
    }
  }

  /** `perform_update` keeps the integrity rules. */
  lemma UpdateKeepsConsistent(x: Restaurant, v: Validated, partial: bool, now: Timestamp, ds: seq<District>,
                              next: nat, tags: map<string, FeatureTag>, filters: map<string, AdditionalFilter>,
                              rs: seq<Restaurant>)
    requires Consistent(ds, next, tags, filters, rs) && x in rs
    requires Admissible(v, partial, ds, rs, Some(x.id))
    ensures DistrictExists(ds, x.district)
    ensures Consistent(ds, next, tags, filters, UpdateValid(x, v, partial, now, ds, tags, filters, rs).rows)
  {
    var row := UpdateOutcome(x, v, now, tags.Keys, filters.Keys).row;
    UpdatedRowDistrict(x, v, partial, now, ds, tags, filters, rs);
    UpdatedRowSlug(x, v, partial, now, ds, tags, filters, rs);
    UpdateRelations(x, v, now, tags.Keys, filters.Keys);
    assert RowFits(x, ds, tags, filters);
    ReplaceKeepsConsistent(ds, next, tags, filters, rs, x, row);
  }

  /**
   * `perform_update` keeps every row's id, changes no row but the found
   * one, and answers 200 with the detail shape of the saved row or 400
   * for an unknown key.
   */
  lemma UpdateValidAnswer(x: Restaurant, v: Validated, partial: bool, now: Timestamp, ds: seq<District>,
                          tags: map<string, FeatureTag>, filters: map<string, AdditionalFilter>,
                          rs: seq<Restaurant>)
    requires Admissible(v, partial, ds, rs, Some(x.id)) && DistrictExists(ds, x.district)
    ensures var out := UpdateValid(x, v, partial, now, ds, tags, filters, rs);
      && |out.rows| == |rs|
      && (forall i :: 0 <= i < |rs| ==> out.rows[i].id == rs[i].id)
      && (forall i :: 0 <= i < |rs| && rs[i].id != x.id ==> out.rows[i] == rs[i])
      && (out.resp.Ok? || out.resp.BadRequest?)
      && (out.resp.Ok? ==> out.resp.Status() == 200 && Names(out.resp.body) == DETAIL_FIELDS)
    ensures var o := UpdateOutcome(x, v, now, tags.Keys, filters.Keys);
      var out := UpdateValid(x, v, partial, now, ds, tags, filters, rs);
      && out.rows == ReplaceById(rs, o.row)
      && (forall i :: 0 <= i < |rs| && rs[i].id == x.id ==> out.rows[i] == o.row)
      && (out.resp.Ok? <==> o.error.None?)
      && (out.resp.Ok? ==> DistrictExists(ds, o.row.district) && out.resp.body == Detail(o.row, ds))
      && (out.resp.BadRequest? ==> out.resp.errors == o.error.value)
  {
    UpdateScalars(x, v, now, tags.Keys, filters.Keys);
    UpdatedRowDistrict(x, v, partial, now, ds, tags, filters, rs);
  }

  /**
   * `update`/`partial_update` answer 401/403 to a caller who may not write,
   * 404 when the lookup finds nothing and 400 on invalid input, all
   * without a write; otherwise they are `perform_update` on the found row.
   */
  lemma UpdateAnswers(verb: string, partial: bool, user: User, lookup: string, parse: string -> Option<Uuid>,
                      input: WriteInput, now: Timestamp, ds: seq<District>, tags: map<string, FeatureTag>,
                      filters: map<string, AdditionalFilter>, rs: seq<Restaurant>)
    requires forall x :: x in rs ==> DistrictExists(ds, x.district)
    ensures var out := UpdateSpec(verb, partial, user, lookup, parse, input, now, ds, tags, filters, rs);
      && (!HasPermission(verb, user) ==> out.rows == rs && out.resp.Status() in {401, 403})
      && (HasPermission(verb, user) && GetObject(rs, lookup, parse).None? ==> out == Outcome(NotFound, rs))
      && (HasPermission(verb, user) && GetObject(rs, lookup, parse).Some? ==>
            var x := GetObject(rs, lookup, parse).value;
            match Validate(input, partial, ds, rs, Some(x.id))
            case Failure(e) => out == Outcome(BadRequest(e), rs)
            case Success(v) =>
              Admissible(v, partial, ds, rs, Some(x.id)) && out == UpdateValid(x, v, partial, now, ds, tags, filters, rs))
  {
    if HasPermission(verb, user) && GetObject(rs, lookup, parse).Some? {
      var x := GetObject(rs, lookup, parse).value;
      if Validate(input, partial, ds, rs, Some(x.id)).Success? {
        ValidatedAdmissible(input, partial, ds, rs, Some(x.id));
      }
    }
  }

  // ----- destroy -----

  /** `destroy`: the permission check, the lookup, then the row is deleted and 204 returned. */
  function DestroySpec(user: User, lookup: string, parse: string -> Option<Uuid>, rs: seq<Restaurant>): (out: Outcome)
    ensures !HasPermission("DELETE", user) ==> out.rows == rs && out.resp.Status() in {401, 403}
    ensures HasPermission("DELETE", user) && GetObject(rs, lookup, parse).None? ==> out == Outcome(NotFound, rs)
    ensures HasPermission("DELETE", user) && GetObject(rs, lookup, parse).Some? ==>
      var x := GetObject(rs, lookup, parse).value;
      out.resp == NoContent && (forall y :: y in out.rows <==> y in rs && y.id != x.id)
    ensures forall y :: y in out.rows ==> y in rs
    ensures UniqueRestaurants(rs) ==> UniqueRestaurants(out.rows)
  {
    match CheckPermissions("DELETE", user)
    case Some(d) => Outcome(Denied(d), rs)
    case None =>
      match GetObject(rs, lookup, parse)
      case None => Outcome(NotFound, rs)
      case Some(x) => Outcome(NoContent, RemoveById(rs, x.id))
  }

  /** Removing rows keeps the integrity rules. */
  lemma DestroyKeepsConsistent(user: User, lookup: string, parse: string -> Option<Uuid>,
                               ds: seq<District>, next: nat, tags: map<string, FeatureTag>,
                               filters: map<string, AdditionalFilter>, rs: seq<Restaurant>)
    requires Consistent(ds, next, tags, filters, rs)
    ensures Consistent(ds, next, tags, filters, DestroySpec(user, lookup, parse, rs).rows)
  {
  }

  // ----- district deletion -----

  /**
   * `on_delete=PROTECT`: a district that a restaurant points at cannot be
   * deleted (`None`, nothing changes); otherwise it is removed.
   */
  function DeleteDistrictSpec(ds: seq<District>, rs: seq<Restaurant>, pk: nat): (r: Option<seq<District>>)
    ensures r.None? <==> DistrictReferenced(rs, pk)
    ensures r.Some? ==> forall d :: d in r.value <==> d in ds && d.id != pk
    ensures r.Some? && UniqueDistricts(ds) ==> UniqueDistricts(r.value)
  {
    if DistrictReferenced(rs, pk) then None else Some(RemoveDistrict(ds, pk))
  }

  function RemoveDistrict(ds: seq<District>, pk: nat): (r: seq<District>)
    ensures forall d :: d in r <==> d in ds && d.id != pk
    ensures UniqueDistricts(ds) ==> UniqueDistricts(r)
  {
    if ds == [] then []
    else
      var p := ds[..|ds| - 1];
      var x := ds[|ds| - 1];
      assert ds == p + [x];
      var k := RemoveDistrict(p, pk);
      if x.id == pk then k
      else
        DistrictsSnoc(p, k, x);
        k + [x]
  }

  /** Appending the last district of a unique table to districts taken from the rest keeps it unique. */
  lemma DistrictsSnoc(p: seq<District>, k: seq<District>, x: District)
    requires forall e :: e in k ==> e in p
    requires UniqueDistricts(p + [x]) ==> UniqueDistricts(k)
    ensures UniqueDistricts(p + [x]) ==> UniqueDistricts(k + [x])
  {
    if UniqueDistricts(p + [x]) {
      forall e | e in k ensures e.id != x.id && e.name != x.name && e.slug != x.slug {
        var i :| 0 <= i < |p| && p[i] == e;
        assert (p + [x])[i] == e && (p + [x])[|p|] == x;
      }
    }
  }

  /** A deletion that goes through leaves every restaurant's district in place. */
  lemma DeleteDistrictKeepsConsistent(ds: seq<District>, next: nat, tags: map<string, FeatureTag>,
                                      filters: map<string, AdditionalFilter>, rs: seq<Restaurant>, pk: nat)
    requires Consistent(ds, next, tags, filters, rs)
    requires DeleteDistrictSpec(ds, rs, pk).Some?
    ensures Consistent(DeleteDistrictSpec(ds, rs, pk).value, next, tags, filters, rs)
  {
    var ds' := DeleteDistrictSpec(ds, rs, pk).value;
    forall x | x in rs ensures DistrictExists(ds', x.district) {
      var i :| 0 <= i < |ds| && ds[i].id == x.district;
      assert x.district != pk by {
        var k :| 0 <= k < |rs| && rs[k] == x;
      }
      assert ds[i] in ds';
    }
  }

  // ----- The database -----

  /** The four tables of the restaurants app. */
  class Database {
    var districts: seq<District>
    var nextDistrictId: nat
    var featureTags: map<string, FeatureTag>
    var additionalFilters: map<string, AdditionalFilter>
    var restaurants: seq<Restaurant>

    ghost predicate Valid()
      reads this
    {
      Consistent(districts, nextDistrictId, featureTags, additionalFilters, restaurants)
    }

    /** An empty database. */
    constructor ()
      ensures Valid()
      ensures districts == [] && featureTags == map[] && additionalFilters == map[] && restaurants == []
    {
      districts := [];
      nextDistrictId := 1;
      featureTags := map[];
      additionalFilters := map[];
      restaurants := [];
    }

    /** `create` (POST). */
    method Create(user: User, input: WriteInput, newId: Uuid, now: Timestamp) returns (resp: Response)
      requires Valid()
      requires forall x :: x in restaurants ==> x.id != newId
      modifies this
      ensures Valid()
      ensures districts == old(districts) && nextDistrictId == old(nextDistrictId)
      ensures featureTags == old(featureTags) && additionalFilters == old(additionalFilters)
      ensures Outcome(resp, restaurants) ==
        CreateSpec(user, input, newId, now, districts, featureTags, additionalFilters, old(restaurants))
    {
      CreateAnswers(user, input, newId, now, districts, featureTags, additionalFilters, restaurants);
      var denial := CheckPermissions("POST", user);
      if denial.Some? {
        resp := Denied(denial.value);
        return;
      }
      var validated := Validate(input, false, districts, restaurants, None);
      if validated.Failure? {
        resp := BadRequest(validated.error);
        return;
      }
      resp := PerformCreate(validated.value, newId, now);
    }

    /** `perform_create`: the row is inserted before its key lists are resolved. */
    method PerformCreate(v: Validated, newId: Uuid, now: Timestamp) returns (resp: Response)
      requires Valid() && Admissible(v, false, districts, restaurants, None)
      requires forall x :: x in restaurants ==> x.id != newId
      modifies this
      ensures Valid()
      ensures districts == old(districts) && nextDistrictId == old(nextDistrictId)
      ensures featureTags == old(featureTags) && additionalFilters == old(additionalFilters)
      ensures Outcome(resp, restaurants) ==
        CreateValid(v, newId, now, districts, featureTags, additionalFilters, old(restaurants))
    {
      ghost var rs0 := restaurants;
      var row, error := InsertAndLink(v, newId, now);
      CreateKeepsConsistent(v, newId, now, districts, nextDistrictId, featureTags, additionalFilters, rs0);
      if error.Some? {
        resp := BadRequest(error.value);
      } else {
        resp := Created(Detail(row, districts));
      }
    }

    /**
     * The writes of `perform_create`: the row is saved, then each non-empty
     * key list replaces its relation until one holds an unknown key.
     */
    method InsertAndLink(v: Validated, newId: Uuid, now: Timestamp) returns (row: Restaurant, error: Option<Errors>)
      requires forall x :: x in restaurants ==> x.id != newId
      modifies this
      ensures districts == old(districts) && nextDistrictId == old(nextDistrictId)
      ensures featureTags == old(featureTags) && additionalFilters == old(additionalFilters)
      ensures restaurants == old(restaurants) + [row]
      ensures WriteOutcome(row, error) == CreateOutcome(v, newId, now, featureTags.Keys, additionalFilters.Keys)
    {
      ghost var rs0 := restaurants;
      row := ApplyScalars(BlankRestaurant(newId, now), v.fields);
      AssignAllUnwritable(BlankRestaurant(newId, now), v.fields);
      restaurants := restaurants + [row];
      error := None;
      var featureKeys := v.featureKeys.GetOr([]);
      if featureKeys != [] {
        ghost var before := row;
        row, error := SetRelation(row, Features, featureKeys, "feature_keys");
        ReplaceLast(rs0, before, row);
      }
      var additionalKeys := v.additionalKeys.GetOr([]);
      if error.None? && additionalKeys != [] {
        ghost var before := row;
        row, error := SetRelation(row, AdditionalFilters, additionalKeys, "additional_keys");
        ReplaceLast(rs0, before, row);
      }
    }

    /** The taxonomy keys a relation may link to. */
    function KnownKeys(rel: Relation): set<string>
      reads this
    {
      match rel
      case Features => featureTags.Keys
      case AdditionalFilters => additionalFilters.Keys
    }

    /**
     * `instance.<relation>.set(_resolve_related(...))`: when every key is
     * known the relation of the stored row is replaced; otherwise the
     * error is returned and nothing changes.
     */
    method SetRelation(row: Restaurant, rel: Relation, keys: seq<string>, fieldName: string)
      returns (row': Restaurant, error: Option<Errors>)
      modifies this
      ensures row'.id == row.id
      ensures districts == old(districts) && nextDistrictId == old(nextDistrictId)
      ensures featureTags == old(featureTags) && additionalFilters == old(additionalFilters)
      ensures match Attach(row, rel, keys, KnownKeys(rel), fieldName)
        case Failure(e) => error == Some(e) && row' == row && restaurants == old(restaurants)
        case Success(r) => error.None? && row' == r && restaurants == ReplaceById(old(restaurants), r)
    {
      var found := ResolveRelated(KnownKeys(rel), keys, fieldName);
      if found.Failure? {
        row', error := row, Some(found.error);
      } else {
        row', error := WithKeys(row, rel, found.value), None;
        restaurants := ReplaceById(restaurants, row');
      }
    }

    /** `update` (PUT): `_update` with `partial=False`. */
    method Update(user: User, lookup: string, parse: string -> Option<Uuid>, input: WriteInput, now: Timestamp)
      returns (resp: Response)
      requires Valid()
      modifies this
      ensures Valid()
      ensures districts == old(districts) && nextDistrictId == old(nextDistrictId)
      ensures featureTags == old(featureTags) && additionalFilters == old(additionalFilters)
      ensures Outcome(resp, restaurants) ==
        UpdateSpec("PUT", false, user, lookup, parse, input, now, districts, featureTags, additionalFilters, old(restaurants))
    {
      resp := UpdateWith("PUT", false, user, lookup, parse, input, now);
    }

    /** `partial_update` (PATCH): `_update` with `partial=True`. */
    method PartialUpdate(user: User, lookup: string, parse: string -> Option<Uuid>, input: WriteInput, now: Timestamp)
      returns (resp: Response)
      requires Valid()
      modifies this
      ensures Valid()
      ensures districts == old(districts) && nextDistrictId == old(nextDistrictId)
      ensures featureTags == old(featureTags) && additionalFilters == old(additionalFilters)
      ensures Outcome(resp, restaurants) ==
        UpdateSpec("PATCH", true, user, lookup, parse, input, now, districts, featureTags, additionalFilters, old(restaurants))
    {
      resp := UpdateWith("PATCH", true, user, lookup, parse, input, now);
    }

    /** `_update`: the permission check, the lookup, validation, then `perform_update`. */
    method UpdateWith(verb: string, partial: bool, user: User, lookup: string, parse: string -> Option<Uuid>,
                      input: WriteInput, now: Timestamp) returns (resp: Response)
      requires Valid()
      modifies this
      ensures Valid()
      ensures districts == old(districts) && nextDistrictId == old(nextDistrictId)
      ensures featureTags == old(featureTags) && additionalFilters == old(additionalFilters)
      ensures Outcome(resp, restaurants) ==
        UpdateSpec(verb, partial, user, lookup, parse, input, now, districts, featureTags, additionalFilters, old(restaurants))
    {
      UpdateAnswers(verb, partial, user, lookup, parse, input, now, districts, featureTags, additionalFilters, restaurants);
      var denial := CheckPermissions(verb, user);
      if denial.Some? {
        resp := Denied(denial.value);
        return;
      }
      var found := GetObject(restaurants, lookup, parse);
      if found.None? {
        resp := NotFound;
        return;
      }
      var instance := found.value;
      var validated := Validate(input, partial, districts, restaurants, Some(instance.id));
      if validated.Failure? {
        resp := BadRequest(validated.error);
        return;
      }
      resp := PerformUpdate(instance, validated.value, partial, now);
    }

    /** `perform_update`: the scalar fields are saved before the key lists are resolved. */
    method PerformUpdate(instance: Restaurant, v: Validated, partial: bool, now: Timestamp) returns (resp: Response)
      requires Valid() && instance in restaurants && Admissible(v, partial, districts, restaurants, Some(instance.id))
      modifies this
      ensures Valid()
      ensures districts == old(districts) && nextDistrictId == old(nextDistrictId)
      ensures featureTags == old(featureTags) && additionalFilters == old(additionalFilters)
      ensures Outcome(resp, restaurants) ==
        UpdateValid(instance, v, partial, now, districts, featureTags, additionalFilters, old(restaurants))
    {
      ghost var rs0 := restaurants;
      var row, error := SaveAndLink(instance, v, now);
      UpdateKeepsConsistent(instance, v, partial, now, districts, nextDistrictId, featureTags, additionalFilters, rs0);
      UpdatedRowDistrict(instance, v, partial, now, districts, featureTags, additionalFilters, rs0);
      if error.Some? {
        resp := BadRequest(error.value);
      } else {
        resp := Ok(Detail(row, districts));
      }
    }

    /**
     * The writes of `perform_update`: the assigned fields and the new
     * `updated_at` are saved, then each key list that is present replaces
     * its relation until one holds an unknown key.
     */
    method SaveAndLink(instance: Restaurant, v: Validated, now: Timestamp) returns (row: Restaurant, error: Option<Errors>)
      modifies this
      ensures districts == old(districts) && nextDistrictId == old(nextDistrictId)
      ensures featureTags == old(featureTags) && additionalFilters == old(additionalFilters)
      ensures restaurants == ReplaceById(old(restaurants), row)
      ensures WriteOutcome(row, error) == UpdateOutcome(instance, v, now, featureTags.Keys, additionalFilters.Keys)
    {
      ghost var rs0 := restaurants;
      row := ApplyScalars(instance, v.fields);
      AssignAllUnwritable(instance, v.fields);
      row := row.(updatedAt := now);
      restaurants := ReplaceById(restaurants, row);
      error := None;
      if v.featureKeys.Some? {
        ghost var before := row;
        row, error := SetRelation(row, Features, v.featureKeys.value, "feature_keys");
        ReplaceTwice(rs0, before, row);
      }
      if error.None? && v.additionalKeys.Some? {
        ghost var before := row;
        row, error := SetRelation(row, AdditionalFilters, v.additionalKeys.value, "additional_keys");
        ReplaceTwice(rs0, before, row);
      }
    }

    /** `destroy` (DELETE). */
    method Destroy(user: User, lookup: string, parse: string -> Option<Uuid>) returns (resp: Response)
      requires Valid()
      modifies this
      ensures Valid()
      ensures districts == old(districts) && nextDistrictId == old(nextDistrictId)
      ensures featureTags == old(featureTags) && additionalFilters == old(additionalFilters)
      ensures Outcome(resp, restaurants) == DestroySpec(user, lookup, parse, old(restaurants))
    {
      DestroyKeepsConsistent(user, lookup, parse, districts, nextDistrictId, featureTags, additionalFilters, restaurants);
      var denial := CheckPermissions("DELETE", user);
      if denial.Some? {
        resp := Denied(denial.value);
        return;
      }
      var found := GetObject(restaurants, lookup, parse);
      if found.None? {
        resp := NotFound;
        return;
      }
      restaurants := RemoveById(restaurants, found.value.id);
      resp := NoContent;
    }

    /** Deleting a district: refused while a restaurant points at it. */
    method DeleteDistrict(pk: nat) returns (deleted: bool)
      requires Valid()
      modifies this
      ensures Valid()
      ensures deleted <==> !DistrictReferenced(restaurants, pk)
      ensures deleted ==> districts == DeleteDistrictSpec(old(districts), restaurants, pk).value
      ensures !deleted ==> districts == old(districts)
      ensures restaurants == old(restaurants) && nextDistrictId == old(nextDistrictId)
      ensures featureTags == old(featureTags) && additionalFilters == old(additionalFilters)
    {
      var remaining := DeleteDistrictSpec(districts, restaurants, pk);
      if remaining.None? {
        deleted := false;
        return;
      }
      DeleteDistrictKeepsConsistent(districts, nextDistrictId, featureTags, additionalFilters, restaurants, pk);
      districts := remaining.value;
      deleted := true;
    }
  }
}
