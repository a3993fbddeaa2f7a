# Dune: Awakening crafting catalog — verified model

This project models the logic that `main.py` of the Dune: Awakening crafting API implements itself. The file serves a fixed catalog of craftable items. The model covers four parts:

- **Data shapes** (`Catalog`): crafting materials, the seven item types, stored items, startup dataset records and the response view.
- **Deep Desert cost projection** (`CostProjection`): every crafting quantity `q` becomes `(q + 1) // 2`, which is the ceiling of `q / 2`. Names and order are kept, and every stored field is copied into the response.
- **Read endpoints** (`Queries`): list-all, get-by-id and search-by-name, over the store's items in store order. Get-by-id and search answer `Ok(v)` or `NotFound`; list-all returns the list itself.
- **Populate-if-empty startup** (`Loader`): the `ItemStore` class and its `OnStartup` method. The method is proved against the pure function `Startup`, and the lemmas state what `Startup` promises: a populated store is left alone; an empty one receives the dataset in order under fresh, distinct ids in one commit; the store invariant is kept; and a second run changes nothing.

The search's name match is delegated to the database engine. It is modelled in `SqlLike` as an explicit assumption about that engine. The code builds the pattern `f"%{name}%"` in Python and binds it as one parameter. On SQLite the ORM's `ilike` then becomes `lower(item.name) LIKE lower(?)`. `lower()` folds only the ASCII letters. `LIKE` has no escape character, so `%` matches any run of characters and `_` matches any single character.

Points of the code's behaviour worth knowing:
- A search term's own `%` and `_` act as wildcards, so a plain substring reading of the search disagrees for terms that contain them. The contract of `NameMatches` proves the two agree for terms without wildcard characters, and `UnderscoreMatchesAnyName` shows where they differ.
- The code has no handler for a missing dataset file or any other error during population. Here the dataset is a parameter, so the model has no such failure.
- A material's quantity is an unbounded integer with no sign constraint. The rounding lemmas therefore hold for negative quantities too.

## Model

| member | source | states |
|---|---|---|
| Catalog.NewItem | main.py:48-55 | the item built from a dataset record carries the given id, copies name, description, type and materials, and takes each power field from the record or 0 when it is absent |
| CostProjection.HalfUp | main.py:110 | `2*r - 1 <= q <= 2*r`, i.e. r is the ceiling of q/2 for every integer q; for q >= 0 also 0 <= r <= q |
| CostProjection.HalfUpIsLeast | main.py:110 | every s with 2*s >= q is at least HalfUp(q), so HalfUp is the least such value |
| CostProjection.HalfUpExamples | main.py:110 | 0→0, 1→1, 2→1, 3→2, 7→4, 10→5, 11→6 |
| CostProjection.DeepDesertMaterials | main.py:106-113 | same length as the crafting materials; the i-th entry keeps the i-th name and has quantity HalfUp of the i-th quantity |
| CostProjection.DeepDesertMaterialsDetermined | main.py:106-113 | any list that keeps the names and halves each quantity equals the projection |
| CostProjection.DeepDesertMaterialsAppend | main.py:106-113 | the projection of a concatenation is the concatenation of the projections (it works element by element, in order) |
| CostProjection.CreateItemResponse | main.py:103-119 | dropping the derived field gives back the stored item unchanged; the Deep Desert list has the materials' length, names and halved quantities |
| CostProjection.CreateItemResponseInjective | main.py:116-119 | two items have the same response exactly when they are equal |
| SqlLike.FoldChar | main.py:147 | the folded character is never an upper-case ASCII letter and differs from the input only by moving 'A'..'Z' to 'a'..'z' |
| SqlLike.Fold | main.py:147 | the folded string has the same length and folds each character in place |
| SqlLike.FoldIdempotent | main.py:147 | folding twice is folding once |
| SqlLike.Like | main.py:147 | `s LIKE p` on folded strings, `%` matching any run and `_` any one character; for a pattern without wildcards it holds if and only if s == p |
| SqlLike.LikePercentMatchesAll | main.py:147 | the pattern `%` matches every string |
| SqlLike.LikeLiteralPrefix | main.py:147 | a wildcard-free pattern prefix matches exactly the same literal prefix of the string |
| SqlLike.LikeLeadingPercent | main.py:147 | a leading `%` lets the rest of the pattern match any suffix |
| SqlLike.LikeContains | main.py:147 | for a wildcard-free t, `%t%` matches s if and only if t is a substring of s |
| Queries.GetAllItems | main.py:127-131 | exactly one response per stored item, in store order, each that item's projection; the empty store gives the empty list |
| Queries.GetItemById | main.py:135-141 | NotFound if and only if no stored item has the id; otherwise the projection of a stored item with that id |
| Queries.GetItemByIdFindsStored | main.py:137-141 | with unique ids, the lookup of a stored item's id returns exactly that item's projection |
| Queries.NameMatches | main.py:147 | the `ilike` test `lower(name) LIKE lower('%term%')`; for a term without `%` or `_`, a name matches if and only if its folded form contains the folded term |
| Queries.Matching | main.py:147-148 | an item is selected if and only if it is stored and its name matches the term |
| Queries.MatchingAppend | main.py:147-148 | selection keeps store order: the matches of a + b are the matches of a followed by those of b |
| Queries.SearchItemsByName | main.py:145-152 | NotFound if and only if no stored name matches; otherwise the non-empty list of projections of the selected items in store order |
| Queries.NameMatchesIgnoresCase | main.py:147 | changing the ASCII case of the name or of the term does not change the match |
| Queries.ShieldMatchesEnergyShieldGenerator | main.py:147 | the term "shield" matches the name "Energy Shield Generator" |
| Queries.ShieldFindsEnergyShieldGenerator | main.py:145-152 | a search for "shield" over that one item answers with its response |
| Queries.UnderscoreMatchesAnyName | main.py:147 | the term "_" matches every non-empty name, because `_` is a wildcard |
| Loader.NewItems | main.py:92-95 | one new item per dataset record, in order, the i-th built from the i-th record under id firstId + i |
| Loader.NewItemsUniqueNames | main.py:50 | the new items' names are pairwise distinct if and only if the dataset's are |
| Loader.NewItemsFreshIds | main.py:49 | the new items' ids are pairwise distinct and all lie in [firstId, firstId + n) |
| Loader.Startup | main.py:74-98 | the pure startup step: outcome AlreadyPopulated if and only if the store has items; Populated if and only if the store is empty and the dataset's names are distinct; any other outcome leaves the state unchanged |
| Loader.StartupPopulatesEmptyStore | main.py:87-98 | on an empty store with distinct dataset names: outcome Populated; the store holds one item per record in dataset order, each built from its record, with distinct ids that are fresh (at least the old next id, below the new one) |
| Loader.StartupRejectsDuplicateNames | main.py:92-98 | on an empty store with a repeated dataset name, the single commit fails and the store is unchanged |
| Loader.StartupPreservesValid | main.py:84-98 | unique ids, unique names and ids below the next id are kept, whatever the dataset |
| Loader.StartupIdempotent | main.py:84-85 | a second startup leaves the store exactly as the first left it |
| Loader.ListAllAfterStartup | main.py:127-131 | right after a fresh store is filled, list-all returns one response per record in dataset order with the record's name, materials and Deep Desert materials |
| Loader.OrnithopterScenario | main.py:135-141 | an Ornithopter needing 7 Plastanium, loaded into an empty store, is served under the first id with Deep Desert materials [Plastanium 4] |
| Loader.ItemStore.constructor | main.py:31-32 | a new table is empty, satisfies the invariant and starts its id counter at the given value |
| Loader.ItemStore.OnStartup | main.py:74-98 | the new state and outcome are those of `Startup` on the old state; a non-empty store is unchanged; when populated, the items are the dataset's records in order with fresh ids; otherwise nothing changes; the invariant is kept |
| Loader.StartupTwice | main.py:84-85 | a first boot and a restart against the same store leave the same rows; the first boot stores one row per record, with the records' names in order, exactly when the names are distinct |
| Loader.StartupAsWritten | main.py:84-89 | the routine as written never changes the store, and raises NameError exactly when the store is empty |
| Loader.AsWrittenNeverPopulates | main.py:88-89 | as written, startup on an empty store raises and leaves it empty, while the intended routine fills it |

## Findings

| source | as written | input that shows it | evidently intended | confidence | as-written member | corrected member |
|---|---|---|---|---|---|---|
| main.py:89 | `json.load(f)` is called, but `json` is never imported, so the name lookup raises `NameError` | any start against an empty store with a non-empty dataset | parse the dataset file and insert its records | high; not executed | Loader.AsWrittenNeverPopulates (over Loader.StartupAsWritten) | Loader.ItemStore.OnStartup (specified by Loader.Startup, proved in Loader.StartupPopulatesEmptyStore) |

## Left out

- Rate limiting (the `Limiter`, the per-endpoint `@limiter.limit` ceilings and the 429 handler) is not modelled. It depends on wall-clock time windows and concurrent requests inside an external middleware.
- HTTP routing, the application object, `read_root`, response-model validation and JSON serialisation are not modelled. They are framework plumbing.
- The SQLite engine, the `Session` lifecycle and `get_db` are not modelled. The store is the item sequence in iteration order, and schema creation (`create_db_and_tables`) is the `ItemStore` constructor.
- `db.get` is a primary-key lookup. `GetItemById` scans for the first item with the id, which gives the same answer when ids are unique, as the store invariant guarantees.
- Ids come from a counter that every insert advances. The model promises only that they are fresh and distinct, not SQLite's own rowid numbering.
- Reading `items_data.json` is not modelled. The dataset is a parameter, so the error raised for a missing or malformed file is not modelled either.
- The startup error on a duplicate name is modelled as the `ConstraintViolation` outcome with the store unchanged, reflecting the one all-or-nothing commit. The exception that would end startup is not modelled.
- In `OnStartup`, ids are assigned while the loop adds items, not when the session flushes at commit. Only the final state is observable, so nothing follows from the difference.
- Pydantic/SQLModel coercion of field values, such as enum strings to `ItemType`, is not modelled. `ItemType` is a plain datatype.
- Case folding and `LIKE` matching beyond ASCII, and pattern collation settings, are not modelled. They are engine behaviour outside the ASCII assumption stated above.
