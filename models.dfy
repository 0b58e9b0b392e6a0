/**
 * The four tables of the restaurant directory and the integrity rules the
 * database enforces on them: unique district names and slugs, taxonomy rows
 * keyed by a short `key`, unique restaurant ids and slugs, and links that
 * only point at existing rows.
 */
module Models {
  import opened Wrappers

  /** A UUID is a 128-bit number; its textual forms are parsed outside the model. */
  const UUID_LIMIT: nat := 0x1_0000_0000_0000_0000_0000_0000_0000_0000
  type Uuid = x: nat | x < UUID_LIMIT

  /** Server clock readings (`auto_now_add` / `auto_now`). */
  type Timestamp = nat

  /** Decimal fields are kept as integers in units of their last decimal place. */
  type Decimal = int

  const NAME_MAX_LENGTH := 140
  const SLUG_MAX_LENGTH := 50
  const ADDRESS_MAX_LENGTH := 255
  const KEY_MAX_LENGTH := 32
  const SMALL_INT_MAX := 32767

  const DEFAULT_PRICE_TIER := 2
  const DEFAULT_RATING: Decimal := 0
  const DEFAULT_REVIEW_COUNT: nat := 0
  const DEFAULT_IS_ACTIVE := true

  /** A district row; `id` is its auto-increment primary key. */
  datatype District = District(id: nat, name: string, slug: string)

  datatype FeatureTag = FeatureTag(key: string, labelText: string)

  datatype AdditionalFilter = AdditionalFilter(key: string, labelText: string, emoji: string)

  /**
   * A restaurant row. `district` is the primary key of its district; the two
   * many-to-many relations are held as the sets of linked taxonomy keys.
   * `latitude`/`longitude` are in millionths, `rating` in tenths.
   */
  datatype Restaurant = Restaurant(
    id: Uuid,
    name: string,
    slug: string,
    district: nat,
    description: string,
    address: string,
    latitude: Option<Decimal>,
    longitude: Option<Decimal>,
    priceTier: int,
    rating: Decimal,
    reviewCount: nat,
    features: set<string>,
    additionalFilters: set<string>,
    isActive: bool,
    createdAt: Timestamp,
    updatedAt: Timestamp)

  /** The two many-to-many relations of a restaurant. */
  datatype Relation = Features | AdditionalFilters

  function KeysOf(r: Restaurant, rel: Relation): set<string> {
    match rel
    case Features => r.features
    case AdditionalFilters => r.additionalFilters
  }

  /** `r.<relation>.set(...)`: the row with that relation replaced. */
  function WithKeys(r: Restaurant, rel: Relation, keys: set<string>): (r': Restaurant)
    ensures KeysOf(r', rel) == keys
    ensures r'.(features := r.features, additionalFilters := r.additionalFilters) == r
    ensures rel == Features ==> r'.additionalFilters == r.additionalFilters
    ensures rel == AdditionalFilters ==> r'.features == r.features
  {
    match rel
    case Features => r.(features := keys)
    case AdditionalFilters => r.(additionalFilters := keys)
  }

  /** A freshly constructed row before any keyword argument is applied. */
  function BlankRestaurant(id: Uuid, now: Timestamp): Restaurant {
    Restaurant(id, "", "", 0, "", "", None, None, DEFAULT_PRICE_TIER, DEFAULT_RATING,
               DEFAULT_REVIEW_COUNT, {}, {}, DEFAULT_IS_ACTIVE, now, now)
  }

  predicate DistrictExists(ds: seq<District>, pk: nat) {
    exists i :: 0 <= i < |ds| && ds[i].id == pk
  }

  /** The district row with primary key `pk`, if any. */
  function FindDistrict(ds: seq<District>, pk: nat): (d: Option<District>)
    ensures d.Some? <==> DistrictExists(ds, pk)
    ensures d.Some? ==> d.value in ds && d.value.id == pk
  {
    if ds == [] then None
    else if ds[0].id == pk then Some(ds[0])
    else FindDistrict(ds[1..], pk)
  }

  /** Primary keys, names and slugs of districts are each unique. */
  predicate UniqueDistricts(ds: seq<District>) {
    forall i, j :: 0 <= i < j < |ds| ==>
      ds[i].id != ds[j].id && ds[i].name != ds[j].name && ds[i].slug != ds[j].slug
  }

  /** Feature tags are stored under their own key, at most 32 characters long. */
  predicate KeyedTags(tags: map<string, FeatureTag>) {
    forall k :: k in tags ==> tags[k].key == k && |k| <= KEY_MAX_LENGTH
  }

  predicate KeyedFilters(filters: map<string, AdditionalFilter>) {
    forall k :: k in filters ==> filters[k].key == k && |k| <= KEY_MAX_LENGTH
  }

  /** Restaurant ids and slugs are each unique, whether or not the row is active. */
  predicate UniqueRestaurants(rs: seq<Restaurant>) {
    forall i, j :: 0 <= i < j < |rs| ==> rs[i].id != rs[j].id && rs[i].slug != rs[j].slug
  }

  /** Every restaurant points at an existing district and existing taxonomy rows. */
  predicate LinksResolve(rs: seq<Restaurant>, ds: seq<District>,
                         tags: map<string, FeatureTag>, filters: map<string, AdditionalFilter>) {
    forall r :: r in rs ==>
      DistrictExists(ds, r.district) && r.features <= tags.Keys && r.additionalFilters <= filters.Keys
  }

  /** The integrity rules of the whole database. */
  predicate Consistent(ds: seq<District>, nextDistrictId: nat, tags: map<string, FeatureTag>,
                       filters: map<string, AdditionalFilter>, rs: seq<Restaurant>) {
    && UniqueDistricts(ds)
    && (forall d :: d in ds ==> d.id < nextDistrictId)
    && KeyedTags(tags)
    && KeyedFilters(filters)
    && UniqueRestaurants(rs)
    && LinksResolve(rs, ds, tags, filters)
  }

  /** `on_delete=PROTECT`: a district may be removed only when no restaurant points at it. */
  predicate DistrictReferenced(rs: seq<Restaurant>, pk: nat) {
    exists i :: 0 <= i < |rs| && rs[i].district == pk
  }
}
