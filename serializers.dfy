/**
 * The restaurant serializers: the list and detail output shapes, validation
 * of write input (`price_tier` range, required fields, referenced rows),
 * related-key resolution, and what `create` and `update` leave in the row.
 */
module Serializers {
  import opened Wrappers
  import opened Models
  import opened Collections
  import Text

  // ----- Output shapes -----

  /** The values an output field can take. */
  datatype Json =
    | JNull
    | JBool(b: bool)
    | JInt(i: int)
    | JStr(s: string)
    | JUuid(u: Uuid)
    | JDecimal(units: int, places: nat)
    | JTime(t: Timestamp)
    | JKeys(keys: set<string>)

  /** An output object: field names with their values, in field order. */
  type Shape = seq<(string, Json)>

  const LIST_FIELDS: seq<string> := [
    "id", "name", "slug", "district", "district_name", "price_tier", "rating",
    "review_count", "features", "additional_filters"]

  const DETAIL_FIELDS: seq<string> := LIST_FIELDS + [
    "description", "address", "latitude", "longitude", "created_at", "updated_at"]

  /** Input-only fields of the write serializer. */
  const WRITE_ONLY_FIELDS: seq<string> := ["feature_keys", "additional_keys"]

  function Names(o: Shape): (names: seq<string>)
    ensures |names| == |o| && forall i :: 0 <= i < |o| ==> names[i] == o[i].0
  {
    seq(|o|, i requires 0 <= i < |o| => o[i].0)
  }

  function NullableDecimal(v: Option<Decimal>, places: nat): Json {
    match v
    case None => JNull
    case Some(x) => JDecimal(x, places)
  }

  /**
   * `RestaurantListSerializer`: the district by slug and name, the two
   * relations by key.
   */
  function ListShape(r: Restaurant, d: District): (o: Shape)
    requires d.id == r.district
    ensures Names(o) == LIST_FIELDS
    ensures forall f :: f in WRITE_ONLY_FIELDS ==> f !in Names(o)
  {
    [("id", JUuid(r.id)), ("name", JStr(r.name)), ("slug", JStr(r.slug)),
     ("district", JStr(d.slug)), ("district_name", JStr(d.name)),
     ("price_tier", JInt(r.priceTier)), ("rating", JDecimal(r.rating, 1)),
     ("review_count", JInt(r.reviewCount)), ("features", JKeys(r.features)),
     ("additional_filters", JKeys(r.additionalFilters))]
  }

  /** `RestaurantDetailSerializer`: the list shape followed by six more fields. */
  function DetailShape(r: Restaurant, d: District): (o: Shape)
    requires d.id == r.district
    ensures Names(o) == DETAIL_FIELDS
    ensures o[..|LIST_FIELDS|] == ListShape(r, d)
    ensures forall f :: f in WRITE_ONLY_FIELDS ==> f !in Names(o)
  {
    ListShape(r, d) +
    [("description", JStr(r.description)), ("address", JStr(r.address)),
     ("latitude", NullableDecimal(r.latitude, 6)), ("longitude", NullableDecimal(r.longitude, 6)),
     ("created_at", JTime(r.createdAt)), ("updated_at", JTime(r.updatedAt))]
  }

  /** The detail shape of a stored row, its district looked up by primary key. */
  function Detail(r: Restaurant, ds: seq<District>): Shape
    requires DistrictExists(ds, r.district)
  {
    DetailShape(r, FindDistrict(ds, r.district).value)
  }

  // ----- Scalar fields and their assignment -----

  /** The scalar fields the write serializer can set. `id`, `rating` and `review_count` are not among them. */
  datatype Field =
    | NameField | SlugField | DistrictField | DescriptionField | AddressField
    | LatitudeField | LongitudeField | PriceTierField | IsActiveField

  /** One validated `(attr, value)` pair. */
  datatype FieldValue =
    | SetName(name: string)
    | SetSlug(slug: string)
    | SetDistrict(pk: nat)
    | SetDescription(description: string)
    | SetAddress(address: string)
    | SetLatitude(latitude: Option<Decimal>)
    | SetLongitude(longitude: Option<Decimal>)
    | SetPriceTier(tier: int)
    | SetIsActive(active: bool)

  function FieldOf(fv: FieldValue): Field {
    match fv
    case SetName(_) => NameField
    case SetSlug(_) => SlugField
    case SetDistrict(_) => DistrictField
    case SetDescription(_) => DescriptionField
    case SetAddress(_) => AddressField
    case SetLatitude(_) => LatitudeField
    case SetLongitude(_) => LongitudeField
    case SetPriceTier(_) => PriceTierField
    case SetIsActive(_) => IsActiveField
  }

  /** `setattr(instance, attr, value)`. */
  function Assign(r: Restaurant, fv: FieldValue): Restaurant {
    match fv
    case SetName(v) => r.(name := v)
    case SetSlug(v) => r.(slug := v)
    case SetDistrict(v) => r.(district := v)
    case SetDescription(v) => r.(description := v)
    case SetAddress(v) => r.(address := v)
    case SetLatitude(v) => r.(latitude := v)
    case SetLongitude(v) => r.(longitude := v)
    case SetPriceTier(v) => r.(priceTier := v)
    case SetIsActive(v) => r.(isActive := v)
  }

  /** Row `r` holds the value that `fv` assigns. */
  predicate Holds(r: Restaurant, fv: FieldValue) {
    Assign(r, fv) == r
  }

  /** Rows `a` and `b` agree on field `f`. */
  predicate SameField(a: Restaurant, b: Restaurant, f: Field) {
    match f
    case NameField => a.name == b.name
    case SlugField => a.slug == b.slug
    case DistrictField => a.district == b.district
    case DescriptionField => a.description == b.description
    case AddressField => a.address == b.address
    case LatitudeField => a.latitude == b.latitude
    case LongitudeField => a.longitude == b.longitude
    case PriceTierField => a.priceTier == b.priceTier
    case IsActiveField => a.isActive == b.isActive
  }

  /** `a` and `b` agree on everything the write serializer cannot set. */
  predicate SameUnwritable(a: Restaurant, b: Restaurant) {
    && a.id == b.id && a.rating == b.rating && a.reviewCount == b.reviewCount
    && a.features == b.features && a.additionalFilters == b.additionalFilters
    && a.createdAt == b.createdAt && a.updatedAt == b.updatedAt
  }

  function FieldsOf(items: seq<FieldValue>): set<Field> {
    set fv | fv in items :: FieldOf(fv)
  }

  /** Validated data is a dictionary: each field at most once. */
  predicate DistinctFields(items: seq<FieldValue>) {
    forall i, j :: 0 <= i < j < |items| ==> FieldOf(items[i]) != FieldOf(items[j])
  }

  /** The `setattr` loop as a fold: `items` applied in order. */
  function AssignAll(r: Restaurant, items: seq<FieldValue>): Restaurant {
    if items == [] then r
    else Assign(AssignAll(r, items[..|items| - 1]), items[|items| - 1])
  }

  lemma AssignOther(r: Restaurant, fv: FieldValue, f: Field)
    requires FieldOf(fv) != f
    ensures SameField(Assign(r, fv), r, f)
  {
  }

  /** `row` holds every value of `items` and agrees with `base` on every other scalar field. */
  predicate AssignedFrom(row: Restaurant, base: Restaurant, items: seq<FieldValue>) {
    && (forall fv :: fv in items ==> Holds(row, fv))
    && (forall f :: f !in FieldsOf(items) ==> SameField(row, base, f))
  }

  /** The `setattr` loop never touches the id, the rating, the counts, the relations or the timestamps. */
  lemma {:induction false} AssignAllUnwritable(r: Restaurant, items: seq<FieldValue>)
    ensures SameUnwritable(AssignAll(r, items), r)
  {
    if items != [] {
      AssignAllUnwritable(r, items[..|items| - 1]);
    }
  }

  /** Assigning one field leaves a value held in another field in place. */
  lemma AssignKeepsHolds(a: Restaurant, x: FieldValue, fv: FieldValue)
    requires FieldOf(x) != FieldOf(fv) && Holds(a, fv)
    ensures Holds(Assign(a, x), fv)
  {
    match x
    case SetName(_) =>
    case SetSlug(_) =>
    case SetDistrict(_) =>
    case SetDescription(_) =>
    case SetAddress(_) =>
    case SetLatitude(_) =>
    case SetLongitude(_) =>
    case SetPriceTier(_) =>
    case SetIsActive(_) =>
  }

  /**
   * Applying validated data assigns exactly the fields it holds: each holds
   * its new value, every other scalar field and every unwritable field keeps
   * its old one.
   */
  lemma {:induction false} AssignAllEffect(r: Restaurant, items: seq<FieldValue>)
    requires DistinctFields(items)
    ensures forall fv :: fv in items ==> Holds(AssignAll(r, items), fv)
    ensures forall f :: f !in FieldsOf(items) ==> SameField(AssignAll(r, items), r, f)
  {
    if items != [] {
      var p := items[..|items| - 1];
      var x := items[|items| - 1];
      assert items == p + [x];
      AssignAllEffect(r, p);
      var a := AssignAll(r, p);
      forall fv | fv in items ensures Holds(Assign(a, x), fv) {
        if fv != x {
          var i :| 0 <= i < |p| && p[i] == fv;
          assert FieldOf(items[i]) != FieldOf(items[|items| - 1]);
          AssignKeepsHolds(a, x, fv);
        }
      }
      forall f | f !in FieldsOf(items) ensures SameField(Assign(a, x), r, f) {
        assert FieldOf(x) in FieldsOf(items);
        assert f !in FieldsOf(p);
        AssignOther(a, x, f);
      }
    }
  }

  /** The `for attr, value in validated_data.items(): setattr(...)` loop of `update`. */
  method ApplyScalars(r: Restaurant, items: seq<FieldValue>) returns (r': Restaurant)
    ensures r' == AssignAll(r, items)
  {
    r' := r;
    var i := 0;
    while i < |items|
      invariant 0 <= i <= |items|
      invariant r' == AssignAll(r, items[..i])
    {
      assert items[..i + 1][..i] == items[..i];
      r' := Assign(r', items[i]);
      i := i + 1;
    }
    assert items[..|items|] == items;
  }

  // ----- Validation -----

  /** Field-name to message: the body of a 400 answer. */
  type Errors = map<string, string>

  /** The outcome of validating one field: left out, a cleaned value, or an error message. */
  datatype Check<T> = Skip | Valid(value: T) | Invalid(message: string)

  /** The write input: each field absent (`None`) or given. */
  datatype WriteInput = WriteInput(
    name: Option<string>,
    slug: Option<string>,
    district: Option<nat>,
    description: Option<string>,
    address: Option<string>,
    latitude: Option<Option<Decimal>>,
    longitude: Option<Option<Decimal>>,
    priceTier: Option<int>,
    featureKeys: Option<seq<string>>,
    additionalKeys: Option<seq<string>>,
    isActive: Option<bool>)

  /** Validated data: the scalar pairs in field order, and the two key lists when given. */
  datatype Validated = Validated(
    fields: seq<FieldValue>,
    featureKeys: Option<seq<string>>,
    additionalKeys: Option<seq<string>>)

  const REQUIRED_MESSAGE := "This field is required."
  const BLANK_MESSAGE := "This field may not be blank."
  const PRICE_TIER_MESSAGE := "price_tier must be between 1 and 4"
  const SLUG_FORMAT_MESSAGE := "Enter a valid \"slug\" consisting of letters, numbers, underscores or hyphens."
  const SLUG_TAKEN_MESSAGE := "restaurant with this slug already exists."

  function MaxLengthMessage(n: nat): string {
    "Ensure this field has no more than " + Text.NatToString(n) + " characters."
  }

  /** `validate_price_tier`: the value itself when it lies in 1..4, otherwise an error. */
  function ValidatePriceTier(value: int): (r: Result<int, string>)
    ensures r.Success? <==> 1 <= value <= 4
    ensures r.Success? ==> r.value == value
    ensures r.Failure? ==> r.error == PRICE_TIER_MESSAGE
  {
    if value < 1 || value > 4 then Failure(PRICE_TIER_MESSAGE) else Success(value)
  }

  /** An absent field: an error only when it is required and the write is not partial. */
  function Absent<T>(required: bool, partial: bool): Check<T> {
    if required && !partial then Invalid(REQUIRED_MESSAGE) else Skip
  }

  /** When a text field passes: present unless required, and once trimmed non-blank (unless allowed) and short enough. */
  predicate TextAcceptable(v: Option<string>, required: bool, partial: bool, allowBlank: bool, maxLength: Option<nat>) {
    match v
    case None => !(required && !partial)
    case Some(s) => (allowBlank || Text.Strip(s) != "") && (maxLength.None? || |Text.Strip(s)| <= maxLength.value)
  }

  /** A text field: whitespace trimmed, blank refused unless allowed, length bounded. */
  function CheckText(v: Option<string>, required: bool, partial: bool, allowBlank: bool,
                     maxLength: Option<nat>): (c: Check<string>)
    ensures c.Invalid? <==> !TextAcceptable(v, required, partial, allowBlank, maxLength)
    ensures c.Valid? <==> v.Some? && TextAcceptable(v, required, partial, allowBlank, maxLength)
    ensures v.None? ==> c == Absent(required, partial)
    ensures !c.Invalid? ==> (c.Valid? <==> v.Some?)
    ensures c.Valid? ==> v.Some? && c.value == Text.Strip(v.value)
    ensures c.Valid? && maxLength.Some? ==> |c.value| <= maxLength.value
    ensures c.Valid? && !allowBlank ==> c.value != ""
  {
    match v
    case None => Absent(required, partial)
    case Some(s) =>
      var t := Text.Strip(s);
      if t == "" then (if allowBlank then Valid("") else Invalid(BLANK_MESSAGE))
      else if maxLength.Some? && |t| > maxLength.value then Invalid(MaxLengthMessage(maxLength.value))
      else Valid(t)
  }

  predicate IsSlugChar(c: char) {
    ('a' <= c <= 'z') || ('A' <= c <= 'Z') || ('0' <= c <= '9') || c == '-' || c == '_'
  }

  /** A trimmed slug that passes: non-empty, at most 50 characters of the slug alphabet, used by no other restaurant. */
  predicate SlugAcceptable(t: string, rs: seq<Restaurant>, instance: Option<Uuid>) {
    && t != "" && |t| <= SLUG_MAX_LENGTH
    && (forall k :: 0 <= k < |t| ==> IsSlugChar(t[k]))
    && (forall r :: r in rs && Some(r.id) != instance ==> r.slug != t)
  }

  /** The slug: a text field of letters, digits, `-` and `_`, unique among the other restaurants. */
  function CheckSlug(v: Option<string>, partial: bool, rs: seq<Restaurant>, instance: Option<Uuid>): (c: Check<string>)
    ensures c.Invalid? <==> if v.None? then !partial else !SlugAcceptable(Text.Strip(v.value), rs, instance)
    ensures v.Some? ==> (c.Valid? <==> SlugAcceptable(Text.Strip(v.value), rs, instance))
    ensures c.Valid? ==> v.Some? && c.value == Text.Strip(v.value)
    ensures v.None? ==> c == Absent(true, partial)
    ensures !c.Invalid? ==> (c.Valid? <==> v.Some?)
    ensures c.Valid? ==> c.value != [] && |c.value| <= SLUG_MAX_LENGTH
    ensures c.Valid? ==> forall r :: r in rs && Some(r.id) != instance ==> r.slug != c.value
  {
    match CheckText(v, true, partial, false, Some(SLUG_MAX_LENGTH))
    case Valid(t) =>
      if exists k :: 0 <= k < |t| && !IsSlugChar(t[k]) then Invalid(SLUG_FORMAT_MESSAGE)
      else if exists r :: r in rs && Some(r.id) != instance && r.slug == t then Invalid(SLUG_TAKEN_MESSAGE)
      else Valid(t)
    case other => other
  }

  /** The district: a primary key that must name an existing district. */
  function CheckDistrict(v: Option<nat>, partial: bool, ds: seq<District>): (c: Check<nat>)
    ensures c.Invalid? <==> if v.None? then !partial else !DistrictExists(ds, v.value)
    ensures v.Some? ==> (c.Valid? <==> DistrictExists(ds, v.value))
    ensures v.None? ==> c == Absent(true, partial)
    ensures !c.Invalid? ==> (c.Valid? <==> v.Some?)
    ensures c.Valid? ==> v == Some(c.value) && DistrictExists(ds, c.value)
    ensures v.Some? && !DistrictExists(ds, v.value) ==> c.Invalid?
  {
    match v
    case None => Absent(true, partial)
    case Some(pk) =>
      if DistrictExists(ds, pk) then Valid(pk)
      else Invalid("Invalid pk \"" + Text.NatToString(pk) + "\" - object does not exist.")
  }

  /** `price_tier`: the bounds of a positive small integer, then `validate_price_tier`. */
  function CheckPriceTier(v: Option<int>): (c: Check<int>)
    ensures v.None? ==> c.Skip?
    ensures !c.Invalid? ==> (c.Valid? <==> v.Some?)
    ensures v.Some? ==> (c.Valid? <==> 1 <= v.value <= 4)
    ensures c.Valid? ==> c.value == v.value
  {
    match v
    case None => Skip
    case Some(p) =>
      if p < 0 then Invalid("Ensure this value is greater than or equal to 0.")
      else if p > SMALL_INT_MAX then Invalid("Ensure this value is less than or equal to 32767.")
      else match ValidatePriceTier(p)
        case Success(t) => Valid(t)
        case Failure(m) => Invalid(m)
  }

  /** Every key of a list, trimmed. */
  function StripAll(keys: seq<string>): (r: seq<string>)
    ensures |r| == |keys| && forall i :: 0 <= i < |keys| ==> r[i] == Text.Strip(keys[i])
  {
    seq(|keys|, i requires 0 <= i < |keys| => Text.Strip(keys[i]))
  }

  /** A key list passes when every key, trimmed, has 1 to 32 characters. */
  predicate KeysAcceptable(keys: seq<string>) {
    forall i :: 0 <= i < |keys| ==> 1 <= |Text.Strip(keys[i])| <= KEY_MAX_LENGTH
  }

  /** A list of keys: each element trimmed, non-blank and at most 32 characters. */
  function CheckKeys(v: Option<seq<string>>): (c: Check<seq<string>>)
    ensures c.Invalid? <==> v.Some? && !KeysAcceptable(v.value)
    ensures c.Valid? <==> v.Some? && KeysAcceptable(v.value)
    ensures c.Valid? ==> c.value == StripAll(v.value)
    ensures v.None? ==> c.Skip?
    ensures !c.Invalid? ==> (c.Valid? <==> v.Some?)
    ensures c.Valid? ==> v.Some? && |c.value| == |v.value|
    ensures c.Valid? ==> forall k :: k in c.value ==> 1 <= |k| <= KEY_MAX_LENGTH
  {
    match v
    case None => Skip
    case Some(keys) =>
      var ts := StripAll(keys);
      if exists i :: 0 <= i < |ts| && ts[i] == "" then Invalid(BLANK_MESSAGE)
      else if exists i :: 0 <= i < |ts| && |ts[i]| > KEY_MAX_LENGTH then Invalid(MaxLengthMessage(KEY_MAX_LENGTH))
      else Valid(ts)
  }

  /** A field that is always valid when given. */
  function CheckAny<T>(v: Option<T>): (c: Check<T>)
    ensures c.Valid? <==> v.Some?
    ensures c.Valid? ==> v == Some(c.value)
  {
    match v
    case None => Skip
    case Some(x) => Valid(x)
  }

  /** The message of a failed check, nothing for any other outcome. */
  function Status<T>(c: Check<T>): (m: Option<string>)
    ensures m.Some? <==> c.Invalid?
    ensures m.Some? ==> m.value == c.message
  {
    if c.Invalid? then Some(c.message) else None
  }

  /** The error map holding `found[i]` under `names[i]` wherever there is one. */
  function ErrorMap(names: seq<string>, found: seq<Option<string>>): (e: Errors)
    requires |names| == |found|
    ensures e.Keys <= set n | n in names
    ensures e.Keys == {} <==> forall i :: 0 <= i < |found| ==> found[i].None?
  {
    if names == [] then map[]
    else
      var r := ErrorMap(names[1..], found[1..]);
      assert forall i :: 1 <= i < |found| ==> found[i] == found[1..][i - 1];
      if found[0].Some? then
        var e := r[names[0] := found[0].value];
        assert names[0] in e.Keys;
        e
      else r
  }

  /** With distinct names, each name is reported exactly when it found something, with what it found. */
  lemma {:induction false} ErrorMapReports(names: seq<string>, found: seq<Option<string>>)
    requires |names| == |found|
    requires forall j, k :: 0 <= j < k < |names| ==> names[j] != names[k]
    ensures forall i :: 0 <= i < |names| ==> (names[i] in ErrorMap(names, found) <==> found[i].Some?)
    ensures forall i :: 0 <= i < |names| && found[i].Some? ==> ErrorMap(names, found)[names[i]] == found[i].value
  {
    if names != [] {
      ErrorMapReports(names[1..], found[1..]);
      forall i | 1 <= i < |names|
        ensures names[i] == names[1..][i - 1] && found[i] == found[1..][i - 1]
      {
      }
    }
  }

  function OptionOf<T>(c: Check<T>): Option<T> {
    if c.Valid? then Some(c.value) else None
  }

  /** The outcome of every field check of one write. */
  datatype FieldChecks = FieldChecks(
    name: Check<string>,
    slug: Check<string>,
    district: Check<nat>,
    description: Check<string>,
    address: Check<string>,
    latitude: Check<Option<Decimal>>,
    longitude: Check<Option<Decimal>>,
    priceTier: Check<int>,
    featureKeys: Check<seq<string>>,
    additionalKeys: Check<seq<string>>,
    isActive: Check<bool>)
  {
    predicate AllPass() {
      && !name.Invalid? && !slug.Invalid? && !district.Invalid? && !description.Invalid?
      && !address.Invalid? && !latitude.Invalid? && !longitude.Invalid? && !priceTier.Invalid?
      && !featureKeys.Invalid? && !additionalKeys.Invalid? && !isActive.Invalid?
    }
  }

  /** The scalar fields in declaration order. */
  const ALL_FIELDS: seq<Field> := [
    NameField, SlugField, DistrictField, DescriptionField, AddressField,
    LatitudeField, LongitudeField, PriceTierField, IsActiveField]

  /** The validated pair for field `f`, when its check produced a value. */
  function ValueFor(c: FieldChecks, f: Field): (v: Option<FieldValue>)
    ensures v.Some? ==> FieldOf(v.value) == f
  {
    match f
    case NameField => if c.name.Valid? then Some(SetName(c.name.value)) else None
    case SlugField => if c.slug.Valid? then Some(SetSlug(c.slug.value)) else None
    case DistrictField => if c.district.Valid? then Some(SetDistrict(c.district.value)) else None
    case DescriptionField => if c.description.Valid? then Some(SetDescription(c.description.value)) else None
    case AddressField => if c.address.Valid? then Some(SetAddress(c.address.value)) else None
    case LatitudeField => if c.latitude.Valid? then Some(SetLatitude(c.latitude.value)) else None
    case LongitudeField => if c.longitude.Valid? then Some(SetLongitude(c.longitude.value)) else None
    case PriceTierField => if c.priceTier.Valid? then Some(SetPriceTier(c.priceTier.value)) else None
    case IsActiveField => if c.isActive.Valid? then Some(SetIsActive(c.isActive.value)) else None
  }

  /** The validated pairs of the fields `fs`, in the order of `fs`. */
  function Collect(c: FieldChecks, fs: seq<Field>): (items: seq<FieldValue>)
    ensures forall fv :: fv in items ==> FieldOf(fv) in fs && ValueFor(c, FieldOf(fv)) == Some(fv)
    ensures FieldsOf(items) == set f | f in fs && ValueFor(c, f).Some?
    ensures NoDuplicates(fs) ==> DistinctFields(items)
  {
    if fs == [] then []
    else
      var rest := Collect(c, fs[1..]);
      var head := if ValueFor(c, fs[0]).Some? then [ValueFor(c, fs[0]).value] else [];
      assert FieldsOf(head + rest) == FieldsOf(head) + FieldsOf(rest);
      head + rest
  }

  /** The error keys of the write serializer, in field order. */
  const ERROR_FIELDS: seq<string> := ["name", "slug", "district", "description", "address", "latitude",
    "longitude", "price_tier", "feature_keys", "additional_keys", "is_active"]

  lemma ErrorFieldsDistinct()
    ensures forall j, k :: 0 <= j < k < |ERROR_FIELDS| ==> ERROR_FIELDS[j] != ERROR_FIELDS[k]
  {
  }

  /** The outcome of each check, in the order of `ERROR_FIELDS`. */
  function Statuses(c: FieldChecks): (s: seq<Option<string>>)
    ensures |s| == |ERROR_FIELDS|
    ensures c.AllPass() <==> forall i :: 0 <= i < |s| ==> s[i].None?
  {
    var s := [Status(c.name), Status(c.slug), Status(c.district), Status(c.description), Status(c.address),
              Status(c.latitude), Status(c.longitude), Status(c.priceTier), Status(c.featureKeys),
              Status(c.additionalKeys), Status(c.isActive)];
    assert (forall i :: 0 <= i < |s| ==> s[i].None?) ==>
      s[0].None? && s[1].None? && s[2].None? && s[3].None? && s[4].None? && s[5].None?
      && s[6].None? && s[7].None? && s[8].None? && s[9].None? && s[10].None?;
    s
  }

  /** All field errors of one write: the key of each failed check, with its message, and no other key. */
  function ErrorsOf(c: FieldChecks): (e: Errors)
    ensures e == map[] <==> c.AllPass()
    ensures e.Keys <= set n | n in ERROR_FIELDS
    ensures forall i :: 0 <= i < |ERROR_FIELDS| ==> (ERROR_FIELDS[i] in e <==> Statuses(c)[i].Some?)
    ensures forall i :: 0 <= i < |ERROR_FIELDS| && Statuses(c)[i].Some? ==> e[ERROR_FIELDS[i]] == Statuses(c)[i].value
  {
    ErrorFieldsDistinct();
    ErrorMapReports(ERROR_FIELDS, Statuses(c));
    var e := ErrorMap(ERROR_FIELDS, Statuses(c));
    assert e == map[] <==> e.Keys == {};
    e
  }

  /** Every field of the write serializer checked on its own. */
  function CheckAll(input: WriteInput, partial: bool, ds: seq<District>, rs: seq<Restaurant>,
                    instance: Option<Uuid>): FieldChecks {
    FieldChecks(
      CheckText(input.name, true, partial, false, Some(NAME_MAX_LENGTH)),
      CheckSlug(input.slug, partial, rs, instance),
      CheckDistrict(input.district, partial, ds),
      CheckText(input.description, false, partial, true, None),
      CheckText(input.address, false, partial, true, Some(ADDRESS_MAX_LENGTH)),
      CheckAny(input.latitude),
      CheckAny(input.longitude),
      CheckPriceTier(input.priceTier),
      CheckKeys(input.featureKeys),
      CheckKeys(input.additionalKeys),
      CheckAny(input.isActive))
  }

  /** Whether the input gives field `f`. */
  predicate Given(input: WriteInput, f: Field) {
    match f
    case NameField => input.name.Some?
    case SlugField => input.slug.Some?
    case DistrictField => input.district.Some?
    case DescriptionField => input.description.Some?
    case AddressField => input.address.Some?
    case LatitudeField => input.latitude.Some?
    case LongitudeField => input.longitude.Some?
    case PriceTierField => input.priceTier.Some?
    case IsActiveField => input.isActive.Some?
  }

  /** The fields of the input that are given. */
  function Provided(input: WriteInput): set<Field> {
    set f | f in ALL_FIELDS && Given(input, f)
  }

  /** When every check passes, a field has a validated value exactly when it is given. */
  lemma ValueForGiven(input: WriteInput, partial: bool, ds: seq<District>, rs: seq<Restaurant>,
                      instance: Option<Uuid>, f: Field)
    requires CheckAll(input, partial, ds, rs, instance).AllPass()
    ensures ValueFor(CheckAll(input, partial, ds, rs, instance), f).Some? <==> Given(input, f)
  {
    var c := CheckAll(input, partial, ds, rs, instance);
    match f
    case NameField => assert c.name == CheckText(input.name, true, partial, false, Some(NAME_MAX_LENGTH));
    case SlugField => assert c.slug == CheckSlug(input.slug, partial, rs, instance);
    case DistrictField => assert c.district == CheckDistrict(input.district, partial, ds);
    case DescriptionField => assert c.description == CheckText(input.description, false, partial, true, None);
    case AddressField => assert c.address == CheckText(input.address, false, partial, true, Some(ADDRESS_MAX_LENGTH));
    case LatitudeField => assert c.latitude == CheckAny(input.latitude);
    case LongitudeField => assert c.longitude == CheckAny(input.longitude);
    case PriceTierField => assert c.priceTier == CheckPriceTier(input.priceTier);
    case IsActiveField => assert c.isActive == CheckAny(input.isActive);
  }

  /** A write that passes every check has a validated pair for exactly its given fields. */
  lemma CollectedProvided(input: WriteInput, partial: bool, ds: seq<District>, rs: seq<Restaurant>,
                          instance: Option<Uuid>)
    requires CheckAll(input, partial, ds, rs, instance).AllPass()
    ensures var items := Collect(CheckAll(input, partial, ds, rs, instance), ALL_FIELDS);
      DistinctFields(items) && FieldsOf(items) == Provided(input)
  {
    var c := CheckAll(input, partial, ds, rs, instance);
    forall f ensures ValueFor(c, f).Some? <==> Given(input, f) {
      ValueForGiven(input, partial, ds, rs, instance, f);
    }
    CollectedGiven(c, input);
  }

  /** Checks that produce a value for exactly the given fields collect exactly those fields. */
  lemma CollectedGiven(c: FieldChecks, input: WriteInput)
    requires forall f :: ValueFor(c, f).Some? <==> Given(input, f)
    ensures var items := Collect(c, ALL_FIELDS);
      DistinctFields(items) && FieldsOf(items) == Provided(input)
  {
    assert NoDuplicates(ALL_FIELDS);
  }

  /** A full (non-partial) write that passes every check gives the name, slug and district. */
  lemma RequiredProvided(input: WriteInput, partial: bool, ds: seq<District>, rs: seq<Restaurant>,
                         instance: Option<Uuid>)
    requires CheckAll(input, partial, ds, rs, instance).AllPass()
    ensures !partial ==> {NameField, SlugField, DistrictField} <= Provided(input)
  {
    if !partial {
      assert input.name.Some? && input.slug.Some? && input.district.Some?;
    }
  }

  /** The validated price tier, district and slug keep the rules their checks enforce. */
  lemma CollectedValues(c: FieldChecks, fs: seq<Field>, ds: seq<District>, rs: seq<Restaurant>, instance: Option<Uuid>)
    requires c.priceTier.Valid? ==> 1 <= c.priceTier.value <= 4
    requires c.district.Valid? ==> DistrictExists(ds, c.district.value)
    requires c.slug.Valid? ==> forall x :: x in rs && Some(x.id) != instance ==> x.slug != c.slug.value
    ensures var items := Collect(c, fs);
      && (forall fv :: fv in items && fv.SetPriceTier? ==> 1 <= fv.tier <= 4)
      && (forall fv :: fv in items && fv.SetDistrict? ==> DistrictExists(ds, fv.pk))
      && (forall fv, x :: fv in items && fv.SetSlug? && x in rs && Some(x.id) != instance ==> x.slug != fv.slug)
  {
    var items := Collect(c, fs);
    forall fv | fv in items && fv.SetPriceTier? ensures 1 <= fv.tier <= 4 {
      assert ValueFor(c, PriceTierField) == Some(fv);
    }
    forall fv | fv in items && fv.SetDistrict? ensures DistrictExists(ds, fv.pk) {
      assert ValueFor(c, DistrictField) == Some(fv);
    }
    forall fv, x | fv in items && fv.SetSlug? && x in rs && Some(x.id) != instance ensures x.slug != fv.slug {
      assert ValueFor(c, SlugField) == Some(fv);
    }
  }

  /**
   * `is_valid()`: every field checked, every error reported together. On
   * success the validated data holds exactly the given fields, each field
   * once, in declaration order. `instance` is the row being updated, if any.
   */
  function Validate(input: WriteInput, partial: bool, ds: seq<District>, rs: seq<Restaurant>,
                    instance: Option<Uuid>): (r: Result<Validated, Errors>)
    ensures r.Success? ==> DistinctFields(r.value.fields)
    ensures r.Success? ==> FieldsOf(r.value.fields) == Provided(input)
    ensures r.Success? && !partial ==> {NameField, SlugField, DistrictField} <= FieldsOf(r.value.fields)
    ensures r.Success? ==> forall fv :: fv in r.value.fields && fv.SetPriceTier? ==> 1 <= fv.tier <= 4
    ensures r.Success? ==> forall fv :: fv in r.value.fields && fv.SetDistrict? ==> DistrictExists(ds, fv.pk)
    ensures r.Success? ==> forall fv, x :: fv in r.value.fields && fv.SetSlug? && x in rs && Some(x.id) != instance ==> x.slug != fv.slug
    ensures r.Success? ==> (r.value.featureKeys.Some? <==> input.featureKeys.Some?)
    ensures r.Success? ==> (r.value.additionalKeys.Some? <==> input.additionalKeys.Some?)
    ensures r.Success? && r.value.featureKeys.Some? ==> forall k :: k in r.value.featureKeys.value ==> |k| <= KEY_MAX_LENGTH
    ensures r.Success? && r.value.additionalKeys.Some? ==> forall k :: k in r.value.additionalKeys.value ==> |k| <= KEY_MAX_LENGTH
    ensures input.priceTier.Some? && !(1 <= input.priceTier.value <= 4) ==> r.Failure? && "price_tier" in r.error
    ensures r.Failure? ==> r.error != map[]
    ensures r.Success? <==> CheckAll(input, partial, ds, rs, instance).AllPass()
    ensures r.Failure? ==> r.error == ErrorsOf(CheckAll(input, partial, ds, rs, instance))
  {
    var c := CheckAll(input, partial, ds, rs, instance);
    if !c.AllPass() then
      PriceTierReported(c);
      Failure(ErrorsOf(c))
    else
      CollectedProvided(input, partial, ds, rs, instance);
      CollectedValues(c, ALL_FIELDS, ds, rs, instance);
      RequiredProvided(input, partial, ds, rs, instance);
      Success(Validated(Collect(c, ALL_FIELDS), OptionOf(c.featureKeys), OptionOf(c.additionalKeys)))
  }

  /**
   * What the rest of a write relies on in validated data: each field once,
   * the required fields of a full write present, the district existing and
   * the slug free among the other restaurants.
   */
  predicate Admissible(v: Validated, partial: bool, ds: seq<District>, rs: seq<Restaurant>, instance: Option<Uuid>) {
    && DistinctFields(v.fields)
    && (!partial ==> {NameField, SlugField, DistrictField} <= FieldsOf(v.fields))
    && (forall fv :: fv in v.fields && fv.SetDistrict? ==> DistrictExists(ds, fv.pk))
    && (forall fv, x :: fv in v.fields && fv.SetSlug? && x in rs && Some(x.id) != instance ==> x.slug != fv.slug)
  }

  lemma ValidatedAdmissible(input: WriteInput, partial: bool, ds: seq<District>, rs: seq<Restaurant>,
                            instance: Option<Uuid>)
    requires Validate(input, partial, ds, rs, instance).Success?
    ensures Admissible(Validate(input, partial, ds, rs, instance).value, partial, ds, rs, instance)
  {
  }

  lemma PriceTierReported(c: FieldChecks)
    ensures c.priceTier.Invalid? ==> "price_tier" in ErrorsOf(c)
  {
    assert ERROR_FIELDS[7] == "price_tier" && Statuses(c)[7] == Status(c.priceTier);
  }

  /** Whether a write passes validation, stated on the input alone. */
  predicate Acceptable(input: WriteInput, partial: bool, ds: seq<District>, rs: seq<Restaurant>,
                       instance: Option<Uuid>) {
    && TextAcceptable(input.name, true, partial, false, Some(NAME_MAX_LENGTH))
    && (if input.slug.None? then partial else SlugAcceptable(Text.Strip(input.slug.value), rs, instance))
    && (if input.district.None? then partial else DistrictExists(ds, input.district.value))
    && TextAcceptable(input.description, false, partial, true, None)
    && TextAcceptable(input.address, false, partial, true, Some(ADDRESS_MAX_LENGTH))
    && (input.priceTier.Some? ==> 1 <= input.priceTier.value <= 4)
    && (input.featureKeys.Some? ==> KeysAcceptable(input.featureKeys.value))
    && (input.additionalKeys.Some? ==> KeysAcceptable(input.additionalKeys.value))
  }

  /** Validation succeeds exactly on acceptable input, and otherwise reports every failed field. */
  lemma ValidateAccepts(input: WriteInput, partial: bool, ds: seq<District>, rs: seq<Restaurant>,
                        instance: Option<Uuid>)
    ensures Validate(input, partial, ds, rs, instance).Success? <==> Acceptable(input, partial, ds, rs, instance)
  {
    var c := CheckAll(input, partial, ds, rs, instance);
    assert c.name == CheckText(input.name, true, partial, false, Some(NAME_MAX_LENGTH));
    assert c.slug == CheckSlug(input.slug, partial, rs, instance);
    assert c.district == CheckDistrict(input.district, partial, ds);
    assert c.description == CheckText(input.description, false, partial, true, None);
    assert c.address == CheckText(input.address, false, partial, true, Some(ADDRESS_MAX_LENGTH));
    assert c.priceTier == CheckPriceTier(input.priceTier);
    assert c.featureKeys == CheckKeys(input.featureKeys) && c.additionalKeys == CheckKeys(input.additionalKeys);
  }

  /** A validated value is the input's own value, with text trimmed. */
  predicate FromInput(fv: FieldValue, input: WriteInput) {
    match fv
    case SetName(n) => input.name.Some? && n == Text.Strip(input.name.value)
    case SetSlug(t) => input.slug.Some? && t == Text.Strip(input.slug.value)
    case SetDistrict(pk) => input.district == Some(pk)
    case SetDescription(d) => input.description.Some? && d == Text.Strip(input.description.value)
    case SetAddress(a) => input.address.Some? && a == Text.Strip(input.address.value)
    case SetLatitude(l) => input.latitude == Some(l)
    case SetLongitude(l) => input.longitude == Some(l)
    case SetPriceTier(t) => input.priceTier == Some(t)
    case SetIsActive(b) => input.isActive == Some(b)
  }

  lemma ValueForFromInput(input: WriteInput, partial: bool, ds: seq<District>, rs: seq<Restaurant>,
                          instance: Option<Uuid>, f: Field)
    ensures var v := ValueFor(CheckAll(input, partial, ds, rs, instance), f); v.Some? ==> FromInput(v.value, input)
  {
    var c := CheckAll(input, partial, ds, rs, instance);
    match f
    case NameField => assert c.name == CheckText(input.name, true, partial, false, Some(NAME_MAX_LENGTH));
    case SlugField => assert c.slug == CheckSlug(input.slug, partial, rs, instance);
    case DistrictField => assert c.district == CheckDistrict(input.district, partial, ds);
    case DescriptionField => assert c.description == CheckText(input.description, false, partial, true, None);
    case AddressField => assert c.address == CheckText(input.address, false, partial, true, Some(ADDRESS_MAX_LENGTH));
    case LatitudeField =>
    case LongitudeField =>
    case PriceTierField => assert c.priceTier == CheckPriceTier(input.priceTier);
    case IsActiveField =>
  }

  /** Every validated value comes from the input, and the key lists are the input's, trimmed. */
  lemma ValidatedFromInput(input: WriteInput, partial: bool, ds: seq<District>, rs: seq<Restaurant>,
                           instance: Option<Uuid>)
    requires Validate(input, partial, ds, rs, instance).Success?
    ensures var v := Validate(input, partial, ds, rs, instance).value;
      && (forall fv :: fv in v.fields ==> FromInput(fv, input))
      && v.featureKeys == (if input.featureKeys.Some? then Some(StripAll(input.featureKeys.value)) else None)
      && v.additionalKeys == (if input.additionalKeys.Some? then Some(StripAll(input.additionalKeys.value)) else None)
  {
    var c := CheckAll(input, partial, ds, rs, instance);
    var v := Validate(input, partial, ds, rs, instance).value;
    assert v.fields == Collect(c, ALL_FIELDS);
    forall fv | fv in v.fields
      ensures FromInput(fv, input)
    {
      ValueForFromInput(input, partial, ds, rs, instance, FieldOf(fv));
    }
    assert c.featureKeys == CheckKeys(input.featureKeys) && c.additionalKeys == CheckKeys(input.additionalKeys);
  }

  // ----- Related-key resolution -----

  /** `[key for key in keys if key not in found_keys]`. */
  function KeepUnknown(keys: seq<string>, known: set<string>): (r: seq<string>)
    ensures forall k :: k in r <==> k in keys && k !in known
    ensures NoDuplicates(keys) ==> NoDuplicates(r)
    ensures NoDuplicates(keys) ==> forall i, j :: 0 <= i < j < |r| ==> FirstIndex(keys, r[i]) < FirstIndex(keys, r[j])
  {
    if keys == [] then []
    else
      var p := keys[..|keys| - 1];
      var x := keys[|keys| - 1];
      assert keys == p + [x];
      var k := KeepUnknown(p, known);
      forall y | y in k ensures FirstIndex(keys, y) == FirstIndex(p, y) {
        FirstIndexPrefix(keys, |keys| - 1, y);
      }
      if x in known then k
      else
        assert NoDuplicates(keys) ==> x !in p && FirstIndex(keys, x) == |keys| - 1;
        k + [x]
  }

  /**
   * The unknown keys of a write, each once, in order of first occurrence in
   * the input.
   */
  function UnknownKeys(known: set<string>, keys: seq<string>): (missing: seq<string>)
    ensures NoDuplicates(missing)
    ensures forall k :: k in missing <==> k in keys && k !in known
    ensures forall i, j :: 0 <= i < j < |missing| ==> FirstIndex(keys, missing[i]) < FirstIndex(keys, missing[j])
  {
    var unique := Dedup(keys);
    var missing := KeepUnknown(unique, known);
    forall i, j | 0 <= i < j < |missing| ensures FirstIndex(keys, missing[i]) < FirstIndex(keys, missing[j]) {
      var a := FirstIndex(unique, missing[i]);
      var b := FirstIndex(unique, missing[j]);
      assert a < b;
    }
    missing
  }

  function UnknownKeysMessage(missing: seq<string>): string {
    "Unknown keys: " + Text.Join(missing, ", ")
  }

  /**
   * `_resolve_related`: when every key names a taxonomy row, the set of
   * rows (by key) the input names; otherwise an error under the field name
   * listing the unknown keys.
   */
  function ResolveRelated(known: set<string>, keys: seq<string>, fieldName: string): (r: Result<set<string>, Errors>)
    ensures r.Success? <==> forall k :: k in keys ==> k in known
    ensures r.Success? ==> r.value == set k | k in keys
    ensures r.Failure? ==> r.error == map[fieldName := UnknownKeysMessage(UnknownKeys(known, keys))]
  {
    var unique := Dedup(keys);
    var found := set k | k in unique && k in known;
    var missing := UnknownKeys(known, keys);
    if missing != [] then
      assert missing[0] in missing;
      Failure(map[fieldName := UnknownKeysMessage(missing)])
    else
      Success(found)
  }

  // ----- create and update -----

  /** The row a write leaves in the table, and the error it answers with, if any. */
  datatype WriteOutcome = WriteOutcome(row: Restaurant, error: Option<Errors>)

  /** Resolve `keys` and, when they all resolve, replace the relation with them. */
  function Attach(row: Restaurant, rel: Relation, keys: seq<string>, known: set<string>,
                  fieldName: string): Result<Restaurant, Errors> {
    match ResolveRelated(known, keys, fieldName)
    case Success(found) => Success(WithKeys(row, rel, found))
    case Failure(e) => Failure(e)
  }

  /**
   * `create`: the row is inserted with the validated fields, then each
   * non-empty key list is resolved and attached. An unknown key stops the
   * write after the insert; the row stays, with what was attached so far.
   */
  function CreateOutcome(v: Validated, id: Uuid, now: Timestamp,
                         knownFeatures: set<string>, knownAdditional: set<string>): WriteOutcome {
    var row := AssignAll(BlankRestaurant(id, now), v.fields);
    var fk := v.featureKeys.GetOr([]);
    var ak := v.additionalKeys.GetOr([]);
    var step1 := if fk != [] then Attach(row, Features, fk, knownFeatures, "feature_keys") else Success(row);
    if step1.Failure? then WriteOutcome(row, Some(step1.error))
    else
      var step2 := if ak != [] then Attach(step1.value, AdditionalFilters, ak, knownAdditional, "additional_keys")
                   else Success(step1.value);
      if step2.Failure? then WriteOutcome(step1.value, Some(step2.error))
      else WriteOutcome(step2.value, None)
  }

  /**
   * `update`: the validated fields are assigned and saved, then each key
   * list that is present (even empty) is resolved and replaces its
   * relation. An unknown key stops the write after the earlier writes.
   */
  function UpdateOutcome(row: Restaurant, v: Validated, now: Timestamp,
                         knownFeatures: set<string>, knownAdditional: set<string>): WriteOutcome {
    var saved := AssignAll(row, v.fields).(updatedAt := now);
    var step1 := if v.featureKeys.Some? then Attach(saved, Features, v.featureKeys.value, knownFeatures, "feature_keys")
                 else Success(saved);
    if step1.Failure? then WriteOutcome(saved, Some(step1.error))
    else
      var step2 := if v.additionalKeys.Some? then Attach(step1.value, AdditionalFilters, v.additionalKeys.value, knownAdditional, "additional_keys")
                   else Success(step1.value);
      if step2.Failure? then WriteOutcome(step1.value, Some(step2.error))
      else WriteOutcome(step2.value, None)
  }

  function AllKnown(keys: seq<string>, known: set<string>): bool {
    forall k :: k in keys ==> k in known
  }

  function UnknownKeysError(fieldName: string, known: set<string>, keys: seq<string>): Errors {
    map[fieldName := UnknownKeysMessage(UnknownKeys(known, keys))]
  }

  /**
   * The relations `create` leaves: an omitted or empty key list leaves its
   * relation empty, a resolved list sets it to exactly the given keys, and
   * an unknown feature key stops the write before the additional keys are
   * looked at. The write fails exactly when some given key is unknown, and
   * the error names the first list with an unknown key.
   */
  lemma CreateRelations(v: Validated, id: Uuid, now: Timestamp,
                        knownFeatures: set<string>, knownAdditional: set<string>)
    ensures var o := CreateOutcome(v, id, now, knownFeatures, knownAdditional);
      var fk := v.featureKeys.GetOr([]);
      var ak := v.additionalKeys.GetOr([]);
      var fkOk := AllKnown(fk, knownFeatures);
      var akOk := AllKnown(ak, knownAdditional);
      && (o.error.None? <==> fkOk && akOk)
      && (!fkOk ==> o.error == Some(UnknownKeysError("feature_keys", knownFeatures, fk)))
      && (fkOk && !akOk ==> o.error == Some(UnknownKeysError("additional_keys", knownAdditional, ak)))
      && o.row.features == (if fkOk then set k | k in fk else {})
      && o.row.additionalFilters == (if fkOk && akOk then set k | k in ak else {})
  {
    var row := AssignAll(BlankRestaurant(id, now), v.fields);
    AssignAllUnwritable(BlankRestaurant(id, now), v.fields);
    var fk := v.featureKeys.GetOr([]);
    var ak := v.additionalKeys.GetOr([]);
    if fk == [] { assert (set k | k in fk) == {}; }
    if ak == [] { assert (set k | k in ak) == {}; }
  }

  /** `a` and `b` agree on every field the write serializer can set. */
  predicate SameScalars(a: Restaurant, b: Restaurant) {
    && a.name == b.name && a.slug == b.slug && a.district == b.district
    && a.description == b.description && a.address == b.address
    && a.latitude == b.latitude && a.longitude == b.longitude
    && a.priceTier == b.priceTier && a.isActive == b.isActive
  }

  /** Rows that agree on the writable fields hold the same values. */
  lemma SameScalarsHold(a: Restaurant, b: Restaurant)
    requires SameScalars(a, b)
    ensures forall fv :: Holds(a, fv) <==> Holds(b, fv)
    ensures forall f :: SameField(a, b, f)
  {
    forall fv ensures Holds(a, fv) <==> Holds(b, fv) {
      match fv
      case SetName(_) =>
      case SetSlug(_) =>
      case SetDistrict(_) =>
      case SetDescription(_) =>
      case SetAddress(_) =>
      case SetLatitude(_) =>
      case SetLongitude(_) =>
      case SetPriceTier(_) =>
      case SetIsActive(_) =>
    }
  }

  /** `create` changes nothing but the relations after the insert. */
  lemma CreateOnlyRelationsAfterInsert(v: Validated, id: Uuid, now: Timestamp,
                                       knownFeatures: set<string>, knownAdditional: set<string>)
    ensures var o := CreateOutcome(v, id, now, knownFeatures, knownAdditional);
      o.row.(features := {}, additionalFilters := {}) == AssignAll(BlankRestaurant(id, now), v.fields)
  {
    AssignAllUnwritable(BlankRestaurant(id, now), v.fields);
  }

  /**
   * The scalar fields `create` inserts: the validated values, and the
   * model defaults for every field the input leaves out (`price_tier` 2,
   * `is_active` true, `rating` and `review_count` 0 always), whatever
   * happens to the key lists afterwards.
   */
  lemma CreateScalars(v: Validated, id: Uuid, now: Timestamp,
                      knownFeatures: set<string>, knownAdditional: set<string>)
    requires DistinctFields(v.fields)
    ensures var o := CreateOutcome(v, id, now, knownFeatures, knownAdditional);
      && (forall fv :: fv in v.fields ==> Holds(o.row, fv))
      && (forall f :: f !in FieldsOf(v.fields) ==> SameField(o.row, BlankRestaurant(id, now), f))
      && o.row.id == id && o.row.createdAt == now && o.row.updatedAt == now
      && o.row.rating == DEFAULT_RATING && o.row.reviewCount == DEFAULT_REVIEW_COUNT
      && (PriceTierField !in FieldsOf(v.fields) ==> o.row.priceTier == DEFAULT_PRICE_TIER)
      && (IsActiveField !in FieldsOf(v.fields) ==> o.row.isActive == DEFAULT_IS_ACTIVE)
  {
    CreateOnlyRelationsAfterInsert(v, id, now, knownFeatures, knownAdditional);
    InsertedScalars(CreateOutcome(v, id, now, knownFeatures, knownAdditional).row, v.fields, id, now);
  }

  /** A row that is the blank row with `fields` assigned, up to its relations. */
  lemma InsertedScalars(r: Restaurant, fields: seq<FieldValue>, id: Uuid, now: Timestamp)
    requires DistinctFields(fields)
    requires r.(features := {}, additionalFilters := {}) == AssignAll(BlankRestaurant(id, now), fields)
    ensures forall fv :: fv in fields ==> Holds(r, fv)
    ensures forall f :: f !in FieldsOf(fields) ==> SameField(r, BlankRestaurant(id, now), f)
    ensures r.id == id && r.createdAt == now && r.updatedAt == now
    ensures r.rating == DEFAULT_RATING && r.reviewCount == DEFAULT_REVIEW_COUNT
    ensures PriceTierField !in FieldsOf(fields) ==> r.priceTier == DEFAULT_PRICE_TIER
    ensures IsActiveField !in FieldsOf(fields) ==> r.isActive == DEFAULT_IS_ACTIVE
  {
    var blank := BlankRestaurant(id, now);
    var row := AssignAll(blank, fields);
    AssignAllEffect(blank, fields);
    AssignAllUnwritable(blank, fields);
    assert SameScalars(r, row);
    ScalarsCarry(r, row, blank, fields);
    assert PriceTierField !in FieldsOf(fields) ==> SameField(r, blank, PriceTierField);
    assert IsActiveField !in FieldsOf(fields) ==> SameField(r, blank, IsActiveField);
  }

  /** A row with the same writable fields as `row` holds what `row` holds and keeps what `row` keeps of `base`. */
  lemma ScalarsCarry(r: Restaurant, row: Restaurant, base: Restaurant, fields: seq<FieldValue>)
    requires SameScalars(r, row)
    requires forall fv :: fv in fields ==> Holds(row, fv)
    requires forall f :: f !in FieldsOf(fields) ==> SameField(row, base, f)
    ensures forall fv :: fv in fields ==> Holds(r, fv)
    ensures forall f :: f !in FieldsOf(fields) ==> SameField(r, base, f)
  {
    SameScalarsHold(r, row);
    forall f | f !in FieldsOf(fields) ensures SameField(r, base, f) {
      assert SameField(row, base, f);
    }
  }

  /**
   * The relations `update` leaves: an absent key list keeps its relation,
   * a present one (even empty) replaces it with exactly its keys once
   * resolved; an unknown feature key stops the write before the
   * additional keys are looked at.
   */
  lemma UpdateRelations(row: Restaurant, v: Validated, now: Timestamp,
                        knownFeatures: set<string>, knownAdditional: set<string>)
    ensures var o := UpdateOutcome(row, v, now, knownFeatures, knownAdditional);
      var fkOk := v.featureKeys.None? || AllKnown(v.featureKeys.value, knownFeatures);
      var akOk := v.additionalKeys.None? || AllKnown(v.additionalKeys.value, knownAdditional);
      && (o.error.None? <==> fkOk && akOk)
      && (!fkOk ==> o.error == Some(UnknownKeysError("feature_keys", knownFeatures, v.featureKeys.value)))
      && (fkOk && !akOk ==> o.error == Some(UnknownKeysError("additional_keys", knownAdditional, v.additionalKeys.value)))
      && o.row.features == (if v.featureKeys.Some? && fkOk then set k | k in v.featureKeys.value else row.features)
      && o.row.additionalFilters ==
           (if v.additionalKeys.Some? && fkOk && akOk then set k | k in v.additionalKeys.value else row.additionalFilters)
  {
    AssignAllUnwritable(row, v.fields);
  }

  /** `update` changes nothing but the relations after the save. */
  lemma UpdateOnlyRelationsAfterSave(row: Restaurant, v: Validated, now: Timestamp,
                                     knownFeatures: set<string>, knownAdditional: set<string>)
    ensures var o := UpdateOutcome(row, v, now, knownFeatures, knownAdditional);
      o.row.(features := {}, additionalFilters := {}) ==
      AssignAll(row, v.fields).(updatedAt := now, features := {}, additionalFilters := {})
  {
    AssignAllUnwritable(row, v.fields);
  }

  /**
   * The scalar fields `update` saves: exactly the validated fields are
   * assigned, every other field keeps its value, and `updated_at` moves to
   * the save time. These writes land even when a key list then fails.
   */
  lemma UpdateScalars(row: Restaurant, v: Validated, now: Timestamp,
                      knownFeatures: set<string>, knownAdditional: set<string>)
    requires DistinctFields(v.fields)
    ensures var o := UpdateOutcome(row, v, now, knownFeatures, knownAdditional);
      && (forall fv :: fv in v.fields ==> Holds(o.row, fv))
      && (forall f :: f !in FieldsOf(v.fields) ==> SameField(o.row, row, f))
      && o.row.id == row.id && o.row.rating == row.rating && o.row.reviewCount == row.reviewCount
      && o.row.createdAt == row.createdAt && o.row.updatedAt == now
  {
    var a := AssignAll(row, v.fields);
    AssignAllEffect(row, v.fields);
    AssignAllUnwritable(row, v.fields);
    UpdateOnlyRelationsAfterSave(row, v, now, knownFeatures, knownAdditional);
    var r := UpdateOutcome(row, v, now, knownFeatures, knownAdditional).row;
    assert SameScalars(r, a);
    SameScalarsHold(r, a);
    forall f | f !in FieldsOf(v.fields) ensures SameField(r, row, f) {
      assert SameField(a, row, f);
    }
  }
}
