# Blood-pressure tracker: measurement core in Dafny

This project models the core of a multi-tenant blood-pressure tracking web
application and proves properties of that model. Users record readings with a
systolic value, a diastolic value, a date, and optional pulse, notes and posture.
The application lists the readings with filters, sorting and paging. It also
edits and soft-deletes them, and aggregates them into a category breakdown and
a trend over time.

Three parts of the source are modelled:

- **Classifier** (`BpMeasurement.dfy`, module `Models`). `Categorize` is the
  first-match-wins chain of threshold tests that maps any integer pair to one of
  "Hypertensive Crisis", "Stage 2", "Stage 1", "Elevated" or "Normal". The
  record `BpMeasurement` has its derived `Category()` accessor and its audit
  defaults.
- **View models** (`MeasurementViewModels.dfy`, module `ViewModels`). This holds
  the list filter and its defaults, the create/edit input and its validation
  constraints, the list row, and the paged result with `TotalPages`.
- **Measurement service** (`MeasurementService.dfy`, module
  `MeasurementService`). The query side is pure functions of the table:
  - `List`: owner/soft-delete scope, conjunctive filters, key/direction sort,
    skip/take paging, and projection to rows with category and CSS class.
  - `CategoryBreakdown`: a group-by count.
  - `Trend`: the scoped readings in ascending date order.

  The mutators are methods of the class `MeasurementStore`, whose `table`
  field is the in-memory stand-in for the database table: `Create`, `Update`,
  `Delete`.
- `Linq.dfy` models the .NET sequence operators the service composes: `Where`,
  `OrderBy`/`OrderByDescending` on an integer key (a stable insertion sort
  whose contract promises only "sorted and a permutation"), `Skip` and `Take`.
  `Wrappers.dfy` holds `Option`, which stands for C# nullable types.
- `MeasurementServiceProperties.dfy` holds the lemmas that relate the
  operations: ownership isolation, filter monotonicity, paging against
  `TotalPages`, breakdown totals against the trend length, and the effect of a
  soft delete.

Dates and timestamps are integers (only their order matters). The clock is a
`now` parameter. The database's id generator is the table's largest id plus one,
but `Create`'s contract promises only a positive id that no existing record has.

## Model

| member | source | states |
|---|---|---|
| `Models.Categorize` | BPA1/Models/BpMeasurement.cs:41-48 | total: every integer pair gets one of the five labels, with no error path |
| `Models.LabelsDistinct` | BPA1/Models/BpMeasurement.cs:41-48 | the five labels are pairwise distinct, so exactly one category is returned |
| `Models.Severity` | BPA1/Models/BpMeasurement.cs:43-47 | the rank of a label is its position in the order Normal < Elevated < Stage 1 < Stage 2 < Crisis |
| `Models.CrisisRegion` | BPA1/Models/BpMeasurement.cs:43 | the result is "Hypertensive Crisis" exactly when sys >= 180 or dia >= 120, whatever the other value |
| `Models.Stage2Region` | BPA1/Models/BpMeasurement.cs:43-44 | "Stage 2" exactly when not crisis and (sys >= 140 or dia >= 90) |
| `Models.Stage1Region` | BPA1/Models/BpMeasurement.cs:43-45 | "Stage 1" exactly when sys < 140, dia < 90 and (sys >= 130 or dia >= 80) |
| `Models.ElevatedRegion` | BPA1/Models/BpMeasurement.cs:43-46 | "Elevated" exactly when 120 <= sys < 130 and dia < 80 |
| `Models.NormalRegion` | BPA1/Models/BpMeasurement.cs:43-47 | "Normal" exactly when sys < 120 and dia < 80 |
| `Models.CategorizeMonotone` | BPA1/Models/BpMeasurement.cs:43-47 | raising either reading never lowers the category's rank |
| `Models.CategorizeVectors` | tests/CategorizeTests.cs:10-14 | the five unit-test vectors hold, and so do the boundary vectors (179,119) -> Stage 2 and (120,79) -> Elevated |
| `Models.CategoryIsDerived` | BPA1/Models/BpMeasurement.cs:38-39 | the category is a function of the two readings alone and is always one of the five labels |
| `Models.NewMeasurement` | BPA1/Models/BpMeasurement.cs:29-36 | a new record has IsDeleted false, UpdatedAt unset, CreatedAt the current time, Id still 0, and the given fields |
| `ViewModels.DefaultFilter` | BPA1/ViewModels/MeasurementViewModels.cs:8-18 | default filter: page 1, page size 10, sort by "Date", descending, every bound and the category unset |
| `ViewModels.PagedResult.TotalPages` | BPA1/ViewModels/MeasurementViewModels.cs:52 | the integer ceiling of TotalCount / PageSize: n * PageSize >= TotalCount, (n - 1) * PageSize < TotalCount when TotalCount > 0, and n == 0 exactly when TotalCount == 0 |
| `ViewModels.EmptyPagedResult` | BPA1/ViewModels/MeasurementViewModels.cs:48-51 | a result built with no properties set has no items and a zero total |
| `Linq.Where` | BPA1/Services/MeasurementService.cs:28-37 | every kept element satisfies the predicate, and the result is no longer than the input |
| `Linq.WhereContents` | BPA1/Services/MeasurementService.cs:28-37 | Where keeps every occurrence of each satisfying element and nothing else (multiset characterisation) |
| `Linq.WhereMonotone` | BPA1/Services/MeasurementService.cs:30-37 | a weaker predicate keeps a super-multiset: adding a condition only shrinks |
| `Linq.OrderBy` | BPA1/Services/MeasurementService.cs:39-44 | the result is a permutation of the input, sorted by the key ascending, or descending when asked; ties are left unspecified |
| `Linq.SkipTake` | BPA1/Services/MeasurementService.cs:47 | Skip(off).Take(size) is the slice starting at off, of length min(size, max(0, n - off)) |
| `Linq.Skip` | BPA1/Services/MeasurementService.cs:47 | drops the first n elements: the rest in order, all of them for n <= 0, none for n >= length |
| `Linq.Take` | BPA1/Services/MeasurementService.cs:47 | keeps the first n elements in order: none for n <= 0, all for n >= length |
| `Linq.CountWhere` | BPA1/Services/MeasurementService.cs:117-118 | a group's count is the number of elements Where keeps |
| `MeasurementService.CategoryClassMap` | BPA1/Services/MeasurementService.cs:13-21 | the result is "bg-secondary" exactly for strings other than the five labels |
| `MeasurementService.CategoryClassesDistinct` | BPA1/Services/MeasurementService.cs:13-21 | the five labels get five different classes |
| `MeasurementService.SortKeyOf` | BPA1/Services/MeasurementService.cs:39-44 | SortBy selects systolic (diastolic) exactly when it spells "systolic" ("diastolic") in any mix of upper and lower case; anything else, or no value, selects the date |
| `MeasurementService.IsNullOrWhiteSpace` | BPA1/Services/MeasurementService.cs:36 | a null or empty category is blank, so it imposes nothing; none of the five labels is blank, so filtering by a label always applies |
| `MeasurementService.ToListItem` | BPA1/Services/MeasurementService.cs:48-59 | a row carries its record's id, readings, date, pulse and notes; its category equals Categorize of its own readings; its class is CategoryClassMap of that category, never the fallback; its position is present exactly when the record's reference resolves, and is then that position's name |
| `MeasurementService.List` | BPA1/Services/MeasurementService.cs:23-68 | TotalCount is the number of matches before paging; Items has length min(PageSize, max(0, TotalCount - (Page-1)*PageSize)); item k is the row of the ordered matches at (Page-1)*PageSize + k |
| `MeasurementService.GroupCount` | BPA1/Services/MeasurementService.cs:117-118 | every key is a category label and every value is at least 1 |
| `MeasurementService.CategoryBreakdown` | BPA1/Services/MeasurementService.cs:111-119 | the owner's live records in the date bounds counted by category: every key is a label and every count at least 1 (exact keys and counts in BreakdownCounts, total in BreakdownTotalIsTrendLength) |
| `MeasurementService.Trend` | BPA1/Services/MeasurementService.cs:121-129 | one point per scoped record, in non-decreasing date order |
| `MeasurementService.FindLive` | BPA1/Services/MeasurementService.cs:89 | returns the first record with this id and owner that is not deleted, or reports that none exists |
| `MeasurementService.Created` | BPA1/Services/MeasurementService.cs:72-80 | the created record's editable fields are exactly the input; it is the owner's, live, unedited, stamped now, with the given id |
| `MeasurementService.Edited` | BPA1/Services/MeasurementService.cs:91-97 | the edit writes exactly the input's fields and UpdatedAt := now; Id, UserId, CreatedAt and IsDeleted are kept |
| `MeasurementService.Retired` | BPA1/Services/MeasurementService.cs:106 | the delete sets IsDeleted and keeps every other field |
| `MeasurementService.MaxId` | BPA1/Services/MeasurementService.cs:83-84 | bounds every id in the table, so one more is a fresh key |
| `MeasurementService.MeasurementStore.constructor` | BPA1/Services/MeasurementService.cs:11 | the store starts with an empty table, which keeps the primary-key and foreign-key invariant, over the given positions |
| `MeasurementService.MeasurementStore.Create` | BPA1/Services/MeasurementService.cs:70-85 | fails (None, nothing stored) exactly when the input names an unknown position, as the save's foreign-key check does; otherwise appends the created record under a positive id no existing record has and returns that id |
| `MeasurementService.MeasurementStore.Update` | BPA1/Services/MeasurementService.cs:87-100 | Some(false) exactly when no live record of the owner has the id; otherwise a foreign-key failure (None) exactly when the new position is unknown; in both cases the table is unchanged; on Some(true) only the found record is rewritten by Edited |
| `MeasurementService.MeasurementStore.Delete` | BPA1/Services/MeasurementService.cs:102-109 | same lookup and outcome; only the found record gets IsDeleted; afterwards no live record of the owner has the id |
| `MeasurementService.SoftDeleteIsFinal` | BPA1/Services/MeasurementService.cs:87-109 | after a delete, a second delete and an update of the same id both report false (the lookup fails before any save) |
| `MeasurementServiceProperties.OrderedIsPermutation` | BPA1/Services/MeasurementService.cs:28-44 | the sorted query holds the same records, with the same multiplicities, as the owner's filtered live records, and nothing else |
| `MeasurementServiceProperties.ListItemsFromScope` | BPA1/Services/MeasurementService.cs:28-37 | every listed row is the projection of a live record of the owner that passes the filter |
| `MeasurementServiceProperties.ListedItemsWithinBounds` | BPA1/Services/MeasurementService.cs:30-37 | every listed row satisfies each set bound inclusively, and a non-blank category exactly |
| `MeasurementServiceProperties.ListItemsSorted` | BPA1/Services/MeasurementService.cs:39-44 | a page's rows are ordered by the chosen key, descending exactly when Desc |
| `MeasurementServiceProperties.TotalIndependentOfPage` | BPA1/Services/MeasurementService.cs:46 | TotalCount does not depend on the page asked for |
| `MeasurementServiceProperties.PageNonEmptyIffWithinTotalPages` | BPA1/Services/MeasurementService.cs:46-47 | a page holds rows exactly when Page <= TotalPages, so a page past the end is empty |
| `MeasurementServiceProperties.FilterNarrows` | BPA1/Services/MeasurementService.cs:30-37 | adding or tightening a bound only shrinks the matches (as a multiset) and the total |
| `MeasurementServiceProperties.UnsetBoundsImposeNothing` | BPA1/Services/MeasurementService.cs:30-36 | with no bound set and a null or whitespace category, the matches are all of the owner's live records; the default filter is such a filter |
| `MeasurementServiceProperties.CategoryFilterExact` | BPA1/Services/MeasurementService.cs:36-37 | a non-blank category keeps exactly the records whose Categorize equals it as a string; any other string keeps nothing |
| `MeasurementServiceProperties.GroupCountIsCount` | BPA1/Services/MeasurementService.cs:117-118 | a category is a key exactly when it occurs, and its value is its number of records |
| `MeasurementServiceProperties.BreakdownCounts` | BPA1/Services/MeasurementService.cs:111-118 | the breakdown's keys are exactly the categories of the owner's live, date-bounded records, each mapped to its count (at least 1) |
| `MeasurementServiceProperties.GroupCountTotal` | BPA1/Services/MeasurementService.cs:117-118 | the group counts add up to the number of records grouped |
| `MeasurementServiceProperties.BreakdownTotalIsTrendLength` | BPA1/Services/MeasurementService.cs:111-128 | the breakdown's values sum to the number of scoped records, which is the trend's length for the same arguments |
| `MeasurementServiceProperties.TrendPointsFromScope` | BPA1/Services/MeasurementService.cs:123-128 | every trend point comes from a scoped record, and every scoped record gives a point |
| `MeasurementServiceProperties.NotLiveIsInvisible` | BPA1/Services/MeasurementService.cs:28 | with no live record of the owner carrying an id (as after Delete), no listed row and no aggregated record has that id |
| `MeasurementServiceProperties.DeleteShrinksScope` | BPA1/Services/MeasurementService.cs:106 | soft-deleting a live in-range record removes exactly it from the owner's scope, so the trend loses one point and the breakdown's counts sum to one less |
| `MeasurementServiceProperties.OtherOwnersInvisible` | BPA1/Services/MeasurementService.cs:28 | two tables holding the same records of an owner, in the same order, give that owner the same list, breakdown and trend, whatever other owners' records they hold and wherever these stand |
| `MeasurementServiceProperties.OtherOwnersCreateInvisible` | BPA1/Services/MeasurementService.cs:70-85 | a record appended for another owner (their create) leaves this owner's list, breakdown and trend unchanged |
| `MeasurementServiceProperties.CreatedIsListed` | BPA1/Services/MeasurementService.cs:70-85 | a created record matches any filter without bounds; its row repeats the input (readings, date, pulse, notes, and the name of the input's position when it resolves, none when the input has none) with Categorize of the input's readings |
| `MeasurementServiceProperties.ListedPositionsResolve` | BPA1/Services/MeasurementService.cs:56 | when every stored position reference resolves (the store's foreign-key invariant), each listed row has a position exactly when its record has one, and so never shows a missing name for a set reference |
| `MeasurementServiceProperties.ValidInputGivesValidRecord` | BPA1/ViewModels/MeasurementViewModels.cs:23-27 | an input within the declared ranges (Systolic 20..400, Diastolic 10..300, Notes up to 512) yields created and edited records within the entity's ranges |
| `MeasurementServiceProperties.EntityRangesMatchInputRanges` | BPA1/Models/BpMeasurement.cs:10-23 | the entity's range attributes (Systolic 20..400, Diastolic 10..300, Notes up to 512) accept a record exactly when the input constraints accept its editable fields |
| `MeasurementServiceProperties.CreateInputBoundaries` | BPA1/ViewModels/MeasurementViewModels.cs:23-27 | the input limits are inclusive: 20/400 and 10/300 pass, 19/401 and 9/301 fail; 512 characters of notes pass, 513 fail |
| `MeasurementServiceProperties.EditLastWriteWins` | BPA1/Services/MeasurementService.cs:91-97 | a second edit leaves no trace of the first, and the category follows the new readings |
| `MeasurementServiceProperties.EndToEndScenario` | BPA1/Services/MeasurementService.cs:70-118 | a (181, 110) reading created for "u1" on an empty table, under any id, is the only row of the default list, with that id and categorised "Hypertensive Crisis", and the breakdown is {"Hypertensive Crisis": 1} |
| `MeasurementServiceProperties.CreateThenList` | BPA1/Services/MeasurementService.cs:70-118 | the same through the store: a new store, one Create, then the default list holds one row whose id is the id Create returned, categorised crisis, and the breakdown is {"Hypertensive Crisis": 1} |

## Left out

- `GetPositionsAsync` (BPA1/Services/MeasurementService.cs:131-138): a name-ordered read of static reference data whose string order depends on the database collation. Positions are a map from id to name. A row's position name is looked up there. The foreign key from a record's PositionId into them is checked by `MeasurementStore.Create` and `MeasurementStore.Update` and kept as part of the store's invariant.
- The foreign-key violation is an exception (`DbUpdateException`) in the source. The model reports it as the `None` result of `Create` and `Update`. Other database failures (connectivity, constraint kinds other than this key) are not modelled.
- The database: EF Core, `AsNoTracking`, `Include`, translation of LINQ to SQL and `SaveChangesAsync`. The table is a sequence of record values held by `MeasurementStore`, and each operation is one atomic step.
- async/await and `CancellationToken`: cancellation and concurrent last-write-wins between requests are storage concerns, outside this model.
- The clock and id generation: `DateTime.UtcNow` is a `now` parameter and `DateTime` is an integer. The id is the largest id plus one. The contracts promise only that it is positive and fresh.
- `MeasurementService.List`: requires Page >= 1, PageSize >= 1 and an offset (Page-1)*PageSize that fits in 32 bits. Outside that range the C# multiplication can wrap, and a negative skip or non-positive take is handled by the database provider (typically an error).
- `ViewModels.PagedResult.TotalPages`: integer ceiling instead of `Math.Ceiling` on doubles (the two agree on all 32-bit inputs); PageSize <= 0 (division by zero in doubles) is not modelled.
- `Linq.OrderBy`: a stable sort, but no contract speaks of the order of records with equal keys, which the database leaves unspecified.
- `MeasurementService.SortKeyOf`: `ToLower()` uses the current culture. The model lowers ASCII letters only, each `'A'..'Z'` to its `'a'..'z'`. This assumes a culture in which `'I'` lowers to `'i'`. Under a Turkish or Azeri culture, `'I'` lowers to a dotless `'ı'`, so `"SYSTOLIC"` would fall back to date order where the model picks systolic. Culture-specific lowering of non-ASCII characters is not modelled either.
- `MeasurementService.IsNullOrWhiteSpace`: follows .NET's `Char.IsWhiteSpace` set, written out; strings are sequences of Unicode scalar values.
- `ViewModels.ValidCreateInput`: the 512-character limit counts characters. .NET counts UTF-16 code units, so the two differ for characters outside the Basic Multilingual Plane. The `[Required]` date always has a value here. Validation happens before the service is called and is not enforced by the store; this matches the source, where the controllers check `ModelState`.
- HTTP controllers, identity, logging, Swagger, health checks and the seeding routines: glue and startup I/O outside the core.
