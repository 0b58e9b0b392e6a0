# yumistanbul-bff restaurants, modelled in Dafny

This project models the `restaurants` app of the yumistanbul-bff backend, a
Django REST Framework service behind a restaurant-finder frontend. The
database is modelled as four tables held in memory:

- `districts`, a sequence of `District` rows with an auto-increment primary
  key and its counter;
- `featureTags` and `additionalFilters`, maps from each taxonomy key to its
  row;
- `restaurants`, a sequence of `Restaurant` rows in storage order. Each row
  holds its two many-to-many relations as sets of taxonomy keys.

The model covers the following parts of the app:

- **Models** (`models.dfy`). The four entities as datatypes. Their
  uniqueness rules, key lengths and referential links are gathered in one
  integrity predicate, `Models.Consistent`. `on_delete=PROTECT` for
  districts is part of this.
- **Permissions** (`permissions.dfy`). `IsRestaurantEditor.has_permission`.
  Safe methods are open to everyone. Mutations need an authenticated member
  of `editors`.
- **Filters** (`filters.dfy`). `RestaurantFilter`, made of three parts:
  - the exact district-slug clause;
  - `filter_feature` and `filter_additional`, which OR over repeated values,
    drop empty values, and return each row once. The join and `.distinct()`
    are both modelled, so the proof shows each row comes back once;
  - the guard that applies a filter only when its cleaned form value is
    non-empty.
- **Serializers** (`serializers.dfy`):
  - the list and detail output shapes;
  - validation of write input: required fields, lengths, slug format and
    uniqueness, an existing district, the `price_tier` range, and key
    lengths;
  - related-key resolution with its `Unknown keys: …` error;
  - the row that `create` and `update` leave behind.
- **Views, read side** (`views.py` in `views.dfy`):
  - the active-only list scope;
  - `OrderingFilter`, which allows only `rating` and `price_tier` and
    defaults to `-rating`;
  - the UUID-or-slug `get_object`, which ignores `is_active`;
  - `search_suggestions`: the query is trimmed, at most five active
    restaurants and five districts come back, and each list is sorted by
    name.
- **Views, write side** (`store.dfy`). The class `Store.Database` holds the
  four tables. Its methods `Create`, `Update` (PUT), `PartialUpdate` (PATCH)
  and `Destroy`:
  - check permission first: 401 without credentials, 403 otherwise;
  - look the row up: 404 when it is missing;
  - validate: 400 on an error;
  - then write row by row, in the order the serializer writes.

  Each method is proved equal to a specification function of the old tables
  (`CreateSpec`, `UpdateSpec`, `DestroySpec`). Every write is proved to keep
  `Consistent`. `Database.DeleteDistrict` models the PROTECT rule.
- **`seed_taxonomy`** (`seed.dfy`). The management command as three loops of
  `update_or_create` over the real tables. A district name clash is the
  `IntegrityError` that aborts `transaction.atomic`. In that case the tables
  are restored to their state before the run. The loops are proved against
  `SeedTaxonomy.Seed`, a function of the old tables. That function is proved:
  - to be idempotent;
  - to upsert by natural key;
  - to leave unlisted rows alone;
  - to succeed whenever no listed district name is held under another
    slug. A concrete clash is proved to make it fail.

`wrappers.dfy`, `text.dfy`, `collections.dfy` and `sorting.dfy` hold the
helpers: `Option`/`Result`, whitespace stripping and case-folded substring
search, first-occurrence de-duplication, and a stable sort by a total
preorder.

Behaviour of the code as written that is worth noting:

- **Create and update are not atomic.** Create inserts the row before it
  resolves the keys. Update saves the scalar fields and replaces the
  features before it resolves the additional keys. No transaction wraps a
  request. So after an unknown key the model keeps the earlier writes and
  still answers 400 (`Serializers.CreateOutcome`, `Serializers.UpdateOutcome`).
- **The default list ordering is rating descending only.** The name
  tie-break on the model `Meta` is not applied by the view.
- **The object-level permission check always passes.** `IsRestaurantEditor`
  overrides only `has_permission`.
- **A UUID-shaped lookup value is looked up by primary key only.** There is
  no fallback to the slug.
- **The seeded emoji are mis-decoded.** The text of `seed_taxonomy.py`
  holds each additional-filter emoji as four characters: the UTF-8 bytes of
  U+1F49E, U+1F4BB and U+1F465 read as Windows-1252 (for the first,
  U+00F0 U+0178 U+2019 U+017E). The command stores those strings, and so
  does the model. This is most likely a bug in the source file.

## Model

| member | source | states |
|---|---|---|
| Models.WithKeys | restaurants/serializers.py:91-96 | `relation.set(...)` replaces exactly that relation with the given keys and leaves every other field of the row unchanged |
| Models.FindDistrict | restaurants/models.py:44 | the district a restaurant's foreign key points at is found exactly when a district with that primary key exists |
| Permissions.HasPermission | restaurants/permissions.py:9-15 | safe methods are always allowed. Without an authenticated user a mutation is refused. An authenticated user may mutate exactly when in the `editors` group |
| Permissions.CheckPermissions | restaurants/permissions.py:12-15 | the request passes exactly when `has_permission` holds. A refusal is "not authenticated" only for a mutation by a caller without credentials, and "permission denied" only for an authenticated non-editor |
| Permissions.OnlyEditorMembershipMatters | restaurants/permissions.py:7-15 | for an authenticated user the decision depends only on membership of `editors`, not on other groups |
| Views.Denied | restaurants/views.py:29 | a refused permission answers 401 for a caller without credentials and 403 otherwise |
| Views.ListScope | restaurants/views.py:23-27 | the base queryset holds exactly the active restaurants, each once |
| Views.ListOnlyActive | restaurants/views.py:40-46 | the list action yields only restaurants with `is_active` true |
| Views.TermOf | restaurants/views.py:30 | an ordering term is accepted only for `rating` and `price_tier`, and a leading `-` means descending |
| Views.ValidTerms | restaurants/views.py:30 | the accepted terms are exactly the stripped requested terms that name an allowed field, never more terms than fields |
| Views.ValidTermsAppend | restaurants/views.py:30 | the terms of a concatenated list are the terms of the first part followed by the terms of the second, so requested order is kept |
| Views.ValidTermsSingle | restaurants/views.py:30 | one field gives its term when it names an allowed field and nothing otherwise |
| Views.ParseOrdering | restaurants/views.py:30-31 | with no `ordering` parameter, an empty one, or no valid term in it, the ordering is the view default. Otherwise it is the valid terms as given |
| Views.OrderingIsPreorder | restaurants/views.py:30-31 | every ordering built from the allowed terms is a total preorder, so sorting by it is well defined |
| Views.DefaultOrderingIsRatingDescending | restaurants/views.py:31 | the default ordering compares by rating alone, highest first, with no name tie-break |
| Views.ListRows | restaurants/views.py:22-46 | the list holds exactly the active rows passing every filter clause that applies, each once, as a permutation of the filtered scope, sorted by the requested ordering |
| Views.List | restaurants/views.py:33-35 | the list answers 200 with, at each position, the list shape of the listed row at that position and its district |
| Views.FindRow | restaurants/views.py:58-60 | `get_object_or_404` by `pk` or by `slug` finds a row exactly when some row, active or not, has that key, and the row found has it |
| Views.GetObject | restaurants/views.py:48-62 | an empty lookup finds nothing. A UUID-shaped value finds exactly the row with that primary key. Any other value finds exactly the row with that slug. Active and inactive rows are searched alike |
| Views.LookupByIdIgnoresActive | restaurants/views.py:52-60 | every stored row, inactive ones included, is found by its own id |
| Views.LookupBySlugIgnoresActive | restaurants/views.py:52-58 | every stored row, inactive ones included, is found by its own slug when the slug is not UUID-shaped |
| Views.NoSlugFallback | restaurants/views.py:55-60 | a UUID-shaped value with no row of that id gives not-found, even when some slug equals it |
| Views.Retrieve | restaurants/views.py:36-62 | retrieve answers 404 exactly when the lookup fails, and otherwise 200 with the detail shape of the row the lookup found |
| Views.NameOrderIsPreorder | restaurants/views.py:119-121 | ordering restaurants or districts by name is a total preorder |
| Views.DistrictsNamed | restaurants/views.py:121 | the district filter keeps exactly the districts whose name contains the query case-insensitively |
| Views.SuggestedRestaurants | restaurants/views.py:117-120 | the suggestions are at most five active restaurants whose name contains the query, sorted by name. No matching restaurant left out sorts before one shown. With fewer than five shown, every match is shown |
| Views.SuggestedDistricts | restaurants/views.py:121 | at most five districts whose name contains the query, sorted by name. No match left out sorts before one shown. With fewer than five shown, every match is shown |
| Views.SuggestedRestaurantsCount | restaurants/views.py:117-120 | over a table without duplicates the restaurant suggestions repeat nothing and number exactly five, or every match when fewer than five match |
| Views.SuggestedDistrictsCount | restaurants/views.py:121 | over a table without duplicates the district suggestions repeat nothing and number exactly five, or every match when fewer than five match |
| Views.RestaurantHits | restaurants/views.py:124-127 | each suggested restaurant is reported as its id, name and slug, in order |
| Views.DistrictHits | restaurants/views.py:128-131 | each suggested district is reported as its slug and name, in order |
| Views.SearchSuggestions | restaurants/views.py:111-133 | the answer echoes the stripped `q`. A blank query gives two empty lists. Otherwise it gives the restaurant and district suggestions, each list at most five long |
| Views.BlankQueryNoSuggestions | restaurants/views.py:113-116 | a missing or all-whitespace `q` gives an empty query and two empty lists |
| Text.Strip | restaurants/views.py:113 | `strip()` removes exactly the leading and trailing whitespace, and the result neither starts nor ends with whitespace |
| Text.StripBlankIff | restaurants/views.py:113-116 | a value strips to the empty string exactly when it is all whitespace |
| Text.StripIdempotent | restaurants/views.py:113 | stripping twice is stripping once |
| Filters.GetLast | restaurants/filters.py:7-9 | a filter's form value is the last value given for its name, and there is one exactly when some value was given |
| Filters.Keep | restaurants/filters.py:7 | `queryset.filter(...)` keeps exactly the rows matching the clause, in queryset order, without adding duplicates |
| Filters.NonEmpty | restaurants/filters.py:17 | the cleaned values are exactly the non-empty given values |
| Filters.JoinLinksMembers | restaurants/filters.py:20 | a row appears in the key join exactly when it has one of the wanted keys |
| Filters.DistinctJoinIsKeep | restaurants/filters.py:20 | `.distinct()` over the join gives the rows having a wanted key, once each, in queryset order |
| Filters.FilterFeature | restaurants/filters.py:15-20 | with no non-empty value the queryset is returned unchanged. Otherwise the result is exactly the rows having any wanted feature key, each once |
| Filters.FilterAdditional | restaurants/filters.py:22-27 | the same as `filter_feature`, over the additional-filter keys |
| Filters.ApplyFilterSet | restaurants/filters.py:6-9 | a row survives exactly when it passes every applicable clause (district slug, feature OR, additional OR). Every clause only narrows, so combined clauses intersect, and no duplicate is introduced |
| Collections.Dedup | restaurants/filters.py:20 | `.distinct()` keeps each element once, exactly the elements of the input, in order of first occurrence |
| Collections.Take | restaurants/views.py:119 | the slice `[:5]` is the prefix of exactly five elements, or the whole input when it is shorter, and repeats nothing the input does not |
| Sorting.Sort | restaurants/views.py:119 | `order_by` returns a permutation of its input sorted by the ordering |
| Sorting.TakeOfSorted | restaurants/views.py:119-121 | a prefix of a sorted sequence is sorted, and nothing left out sorts strictly before anything kept |
| Serializers.ListShape | restaurants/serializers.py:24-43 | the list shape has exactly the ten list fields in order, and neither write-only field |
| Serializers.DetailShape | restaurants/serializers.py:46-55 | the detail shape is the list shape followed by description, address, latitude, longitude, created_at and updated_at, and has neither write-only field |
| Serializers.ValidatePriceTier | restaurants/serializers.py:82-85 | `price_tier` is accepted unchanged exactly when 1 ≤ value ≤ 4. Otherwise the error is "price_tier must be between 1 and 4" |
| Serializers.CheckText | restaurants/serializers.py:66-80 | a text field fails exactly when it is absent though required, blank after stripping where blank is not allowed, or longer than its maximum once stripped. It passes exactly when given and acceptable, with the stripped value |
| Serializers.CheckSlug | restaurants/models.py:43 | a given slug passes exactly when, stripped, it is non-empty, at most 50 characters of letters, digits, `-` and `_`, and used by no other restaurant; it passes with the stripped value. An absent slug fails exactly on a full write |
| Serializers.CheckDistrict | restaurants/models.py:44 | a given district passes exactly when it names an existing district, with that key. An absent one fails exactly on a full write |
| Serializers.CheckPriceTier | restaurants/serializers.py:82-85 | a given `price_tier` is valid exactly when it lies in 1..4 |
| Serializers.CheckKeys | restaurants/serializers.py:59-64 | a given key list passes exactly when every key, stripped, has 1 to 32 characters, and then its value is the list of stripped keys. An absent list is skipped |
| Serializers.CheckAny | restaurants/serializers.py:66-80 | a field without field-level rules is valid exactly when given, with its value |
| Serializers.ErrorMapReports | restaurants/serializers.py:66-85 | with distinct field names, a field is a key of the error map exactly when its check failed, and maps to that check's message |
| Serializers.ErrorsOf | restaurants/serializers.py:66-85 | the error map is empty exactly when every field passes. Its keys are field names, each failed check's field is a key mapped to that check's message, and no passing field is a key |
| Serializers.RequiredProvided | restaurants/serializers.py:68-71 | a full (non-partial) validation that passes had name, slug and district given |
| Serializers.Validate | restaurants/serializers.py:58-85 | validation succeeds exactly when every field check passes, and otherwise fails with the error map of all the checks. Validated data assigns each given scalar field exactly once, and only those. It includes name, slug and district when not partial. Its price tier is in 1..4, its district exists, and its slug is free. It keeps each key list exactly when given, with keys of at most 32 characters. A bad `price_tier` always fails |
| Serializers.ValidateAccepts | restaurants/serializers.py:58-85 | validation succeeds exactly when the input is acceptable field by field: required fields given, text non-blank and short enough once stripped, slug well-formed and free, district existing, tier in 1..4, keys of 1 to 32 characters |
| Serializers.ValidatedFromInput | restaurants/serializers.py:58-85 | every validated value is the input's own value, text stripped, and each key list kept is the input's list with every key stripped |
| Serializers.ValidatedAdmissible | restaurants/serializers.py:58-85 | whatever validation lets through is admissible for a write |
| Serializers.AssignAllEffect | restaurants/serializers.py:102-103 | the `setattr` loop leaves every validated pair holding and every other scalar field unchanged |
| Serializers.AssignAllUnwritable | restaurants/serializers.py:102-103 | the `setattr` loop never changes id, rating, review count, relations or timestamps |
| Serializers.ApplyScalars | restaurants/serializers.py:102-103 | the loop computes the same row as the fold of assignments |
| Serializers.KeepUnknown | restaurants/serializers.py:123 | the missing keys are exactly the input keys not found, each once and in input order when the input has no repeats |
| Serializers.UnknownKeys | restaurants/serializers.py:120-123 | after `dict.fromkeys`, every unknown key is reported exactly once, in first-occurrence order |
| Serializers.ResolveRelated | restaurants/serializers.py:119-126 | resolution succeeds exactly when every key is known, and then yields exactly the set of input keys. Otherwise the error is keyed by the field name with the `Unknown keys: …` message |
| Serializers.CreateRelations | restaurants/serializers.py:87-97 | on create, an omitted or empty list leaves the relation empty and a non-empty list sets it. An unknown feature key is reported and the additional keys are then never looked at |
| Serializers.CreateOnlyRelationsAfterInsert | restaurants/serializers.py:90 | apart from its two relations, the created row is exactly the row `objects.create` inserted |
| Serializers.CreateScalars | restaurants/serializers.py:87-90 | the created row has every validated field and the new id and timestamps. Other fields take their defaults: rating 0, review count 0, price tier 2, active |
| Serializers.UpdateRelations | restaurants/serializers.py:99-111 | on update, an absent list leaves the relation untouched and a present list, even empty, replaces it. An unknown feature key leaves the additional filters untouched |
| Serializers.UpdateOnlyRelationsAfterSave | restaurants/serializers.py:102-104 | apart from its two relations, the updated row is exactly the row `instance.save()` stored |
| Serializers.UpdateScalars | restaurants/serializers.py:102-104 | update assigns exactly the validated fields present. Every other scalar field, the id, rating, review count and creation time are unchanged, and `updated_at` is the save time |
| Store.ReplaceById | restaurants/serializers.py:104 | `save()` replaces the row with the same primary key and changes no other row |
| Store.RemoveById | restaurants/views.py:48-62 | `delete()` removes exactly the rows with that id and keeps ids and slugs unique |
| Store.CreatedRowFits | restaurants/serializers.py:87-97 | the created row points at an existing district and at known keys, has the new id, and has a slug no stored row uses |
| Store.CreateKeepsConsistent | restaurants/views.py:64-73 | a create keeps every integrity rule, even when it answers 400 after inserting |
| Store.CreateValidAnswer | restaurants/views.py:64-73 | a create appends exactly the row `CreateOutcome` leaves, with the new id. It answers 201 with that row's detail shape exactly when key resolution succeeded, and otherwise 400 with the resolution error |
| Store.CreateAnswers | restaurants/views.py:64-73 | without permission the table is unchanged and the answer is 401/403. A validation failure answers 400 with its errors. Otherwise the outcome is the validated create |
| Store.UpdateKeepsConsistent | restaurants/views.py:83-93 | an update keeps every integrity rule, even when it answers 400 after saving |
| Store.UpdateValidAnswer | restaurants/views.py:83-93 | an update replaces the target row by the row `UpdateOutcome` leaves, keeping the number of rows and every id and changing no other row. It answers 200 with that row's detail shape exactly when key resolution succeeded, and otherwise 400 with the resolution error |
| Store.UpdateAnswers | restaurants/views.py:75-93 | without permission nothing changes and the answer is 401/403. A failed lookup gives 404. A validation failure gives 400. Otherwise the outcome is the validated update of the row found |
| Store.DestroySpec | restaurants/views.py:40-62 | without permission nothing changes (401/403). A failed lookup gives 404. Otherwise the answer is 204 and exactly the looked-up row is gone, whether active or not |
| Store.DestroyKeepsConsistent | restaurants/views.py:40-62 | a destroy keeps every integrity rule |
| Store.DeleteDistrictSpec | restaurants/models.py:44 | a district is deleted exactly when no restaurant references it, and then only that district goes |
| Store.DeleteDistrictKeepsConsistent | restaurants/models.py:44 | a permitted district deletion leaves every restaurant's district in place |
| Store.Database.constructor | restaurants/models.py:6-59 | a new database has empty tables and satisfies every integrity rule |
| Store.Database.Create | restaurants/views.py:64-73 | `create` leaves the tables and the answer that `CreateSpec` describes, and keeps the integrity rules |
| Store.Database.PerformCreate | restaurants/views.py:67 | `perform_create` leaves the tables and the answer of the validated create, and keeps the integrity rules |
| Store.Database.InsertAndLink | restaurants/serializers.py:87-97 | `create` appends one row and then sets its relations. What it leaves is `CreateOutcome` |
| Store.Database.SetRelation | restaurants/serializers.py:91-96 | setting a relation either fails with the unknown-keys error and changes nothing, or saves the row with the resolved keys |
| Store.Database.Update | restaurants/views.py:75-77 | PUT is the non-partial update described by `UpdateSpec` |
| Store.Database.PartialUpdate | restaurants/views.py:79-81 | PATCH is the partial update described by `UpdateSpec` |
| Store.Database.UpdateWith | restaurants/views.py:83-93 | `_update` leaves the tables and the answer that `UpdateSpec` describes, and keeps the integrity rules |
| Store.Database.PerformUpdate | restaurants/views.py:88 | `perform_update` leaves the tables and the answer of the validated update, and keeps the integrity rules |
| Store.Database.SaveAndLink | restaurants/serializers.py:99-111 | `update` saves the row and then replaces its relations. What it leaves is `UpdateOutcome` |
| Store.Database.Destroy | restaurants/views.py:40-62 | `destroy` leaves the tables and the answer that `DestroySpec` describes, and keeps the integrity rules |
| Store.Database.DeleteDistrict | restaurants/models.py:44 | PROTECT: a district is deleted exactly when unreferenced. Otherwise the table is unchanged. The integrity rules hold |
| SeedTaxonomy.UpsertDistrictEffect | restaurants/management/commands/seed_taxonomy.py:33 | one `update_or_create` by slug leaves the listed district present, keeps every other district, adds nothing else, and keeps names, slugs and ids unique |
| SeedTaxonomy.SeedDistrictsRules | restaurants/management/commands/seed_taxonomy.py:32-33 | the district loop keeps uniqueness, keeps every existing primary key and leaves the other tables alone |
| SeedTaxonomy.SeedDistrictsRows | restaurants/management/commands/seed_taxonomy.py:32-33 | the district loop keeps every unlisted district, and every district afterwards is an old one or a listed one |
| SeedTaxonomy.SeedDistrictsSeeded | restaurants/management/commands/seed_taxonomy.py:32-33 | after the district loop every listed slug is present with its listed name |
| SeedTaxonomy.SeedDistrictsFailurePersists | restaurants/management/commands/seed_taxonomy.py:30-33 | once an `update_or_create` fails, the whole district loop fails |
| SeedTaxonomy.SeedDistrictsSucceed | restaurants/management/commands/seed_taxonomy.py:32-33 | the district loop succeeds when no listed name is held by a district under another slug |
| SeedTaxonomy.SeedDistrictsIdempotent | restaurants/management/commands/seed_taxonomy.py:32-33 | on tables already holding every listed district, the district loop changes nothing |
| SeedTaxonomy.UpsertAllEffect | restaurants/management/commands/seed_taxonomy.py:35-42 | upserting by key leaves every listed row under its key, keeps every unlisted key, and adds no other key |
| SeedTaxonomy.UpsertAllIdempotent | restaurants/management/commands/seed_taxonomy.py:35-42 | upserting rows that are already stored changes nothing |
| SeedTaxonomy.SeedListsDistinct | restaurants/management/commands/seed_taxonomy.py:6-24 | the seed lists have distinct slugs, names and keys, and every key fits in 32 characters |
| SeedTaxonomy.SeedEffect | restaurants/management/commands/seed_taxonomy.py:31-42 | after seeding, every listed district, tag and filter is stored as listed, unlisted rows are unchanged, nothing else is added, and districts stay unique |
| SeedTaxonomy.SeedIdempotent | restaurants/management/commands/seed_taxonomy.py:31-42 | running the command twice leaves the same tables as running it once |
| SeedTaxonomy.SeedSucceeds | restaurants/management/commands/seed_taxonomy.py:31-42 | the command succeeds whenever no listed district name is held under another slug |
| SeedTaxonomy.NameHeldElsewhereFails | restaurants/management/commands/seed_taxonomy.py:33 | a district named "Beyoğlu" under another slug makes the command fail on the unique name |
| SeedTaxonomy.UpsertTagsKeyed | restaurants/management/commands/seed_taxonomy.py:36 | upserting feature tags keeps every tag stored under its own key of at most 32 characters |
| SeedTaxonomy.UpsertFiltersKeyed | restaurants/management/commands/seed_taxonomy.py:39-42 | upserting additional filters keeps every filter stored under its own key of at most 32 characters |
| SeedTaxonomy.SeedKeepsConsistent | restaurants/management/commands/seed_taxonomy.py:30-42 | a successful run keeps every integrity rule of the database |
| SeedTaxonomy.UpdateOrCreateDistrict | restaurants/management/commands/seed_taxonomy.py:33 | one `update_or_create` on the tables does what `UpsertDistrict` describes, and fails without a change on a name clash |
| SeedTaxonomy.UpsertDistricts | restaurants/management/commands/seed_taxonomy.py:32-33 | the district loop over the tables succeeds exactly when `SeedDistricts` does, and then leaves its result |
| SeedTaxonomy.UpsertFeatureTags | restaurants/management/commands/seed_taxonomy.py:35-36 | the feature loop leaves the tags `UpsertAll` describes and changes no other table |
| SeedTaxonomy.UpsertAdditionalFilters | restaurants/management/commands/seed_taxonomy.py:38-42 | the additional-filter loop leaves the filters `UpsertAll` describes and changes no other table |
| SeedTaxonomy.RunLoops | restaurants/management/commands/seed_taxonomy.py:31-42 | the three loops succeed exactly when `Seed` does, and then leave its tables |
| SeedTaxonomy.Handle | restaurants/management/commands/seed_taxonomy.py:30-42 | all or nothing: on success the tables are `Seed` of the old ones, on failure they are the old ones. Restaurants are untouched and the integrity rules hold |
| SeedTaxonomy.Restore | restaurants/management/commands/seed_taxonomy.py:30 | the rollback puts the taxonomy tables back as they were |

## Left out

- **Pagination.** `LimitOffsetPagination` is not modelled. Lists are whole
  sequences.
- **Authentication.** JWT authentication and token handling are not
  modelled. The caller is a given `User`: none, anonymous, or authenticated
  with a set of groups.
- **Generated values.** `uuid.uuid4`, `auto_now_add` and `auto_now` are not
  modelled. They are parameters (`newId`, `now`). `Database.Create`
  requires the new id to be unused.
- Views.GetObject: for an empty lookup value the view defers to DRF's own
  `get_object`. The router never routes an empty value here, so the model
  answers not-found.
- **UUID parsing.** `uuid.UUID(...)` parsing is the parameter `parse`.
- **Case folding.** The case folding behind `icontains` is the parameter
  `fold`, because it depends on the database collation.
- **Decimals.** Decimal fields are integers in fixed units (rating in
  tenths, coordinates in millionths). No decimal arithmetic is done.
- **Request bodies.** Write input is the parsed JSON body, one optional
  value per field. Form-encoded input is not modelled; there a missing
  `is_active` would read as false.
- Serializers.CheckKeys: DRF's child `CharField` also rejects a key holding
  a null character ("Null characters are not allowed."). The model accepts
  such a key.
- Views.List: a `district`, `feature` or `additional` query value holding a
  null character makes the filter form invalid, and the list then answers
  400. The model always answers 200.
- Serializers.CheckText: DRF's rejection of text holding a null character
  ("Null characters are not allowed.") is not modelled.
- Views.SuggestedRestaurants: `order_by('name')` sorts by the database
  collation. The model compares names by Unicode code point, so its order
  and its choice of the first five are proved for that order only.
- Views.SuggestedDistricts: sorted by name under the same code-point order,
  for the same reason.
- Serializers.CheckAny: latitude, longitude and `is_active` are taken as
  already-parsed values. DRF's `max_digits`/`decimal_places` checks and its
  type coercion are not modelled.
- Serializers.ErrorsOf: error messages are the strings the app and DRF
  produce for the modelled checks. DRF's full error structure (lists of
  messages, non-field errors) is not modelled.
- **Relations in output.** `features` and `additional_filters` are output as
  the set of linked keys. The order in which the database returns them is
  not modelled.
- Views.ListRows: the order of rows that tie under the requested ordering is
  the database's own and is unspecified. The model breaks ties by a stable
  insertion sort. Its contract promises only a sorted permutation.
- Sorting.Sort: stands in for `order_by`. Only the sorted-permutation
  property is relied on.
- **Taxonomy list endpoints.** `FeatureTagViewSet`, `AdditionalFilterViewSet`
  and `DistrictViewSet` are plain list endpoints with no decision logic.
  They are not modelled.
- **Success message.** The `seed_taxonomy` message written to stdout is not
  modelled.
- SeedTaxonomy.Handle: on rollback the district primary-key counter is
  restored too. A real database sequence would keep the ids it handed out.
- **Concurrency.** Requests and the command run one at a time. Transaction
  isolation is not modelled.
- **`select_related` and `prefetch_related`.** These only change
  performance and are not modelled.
