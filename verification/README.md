# Growtopia recipe catalog — a Dafny model

This project models the core of a small Discord bot that keeps a catalog of
craftable Growtopia items. Each item has an id, a name, a tier, a recipe and
an image URL. The catalog lives in one SQLite table, `items`, keyed by `id`.
The model covers:

- the catalog store of `database.py`: `save_item` upserts by id; the lookups
  by name ignore case; `search_items` is a substring search via `LIKE`;
  `get_all_items` lists every row; `load_all_items` replaces the table in
  one transaction;
- the sync of `items_parser.py`, which upserts every well-formed feed entry
  and reports the entries whose lowered name the catalog did not know before
  the sync began; and its bulk loader with a success count;
- the image-URL backfill of `update_database.py`;
- the keyword filter of the `?search` command and the truthiness branch of
  the `?recipe` command in `bot.py`.

The table is a `seq<Item>`, held by the class `Catalog.Store`. An INSERT
appends a row and an UPDATE rewrites a row in place, so the model's table
order is insertion order (see "## Left out" for how SQLite orders rows).
The feed (`items.json`) is an input of type `Option<seq<Descriptor>>`, where
None means the file is missing or cannot be parsed. In a `Descriptor`, a
field is None when its key is absent. Lower-casing is ASCII case folding,
which is what SQLite's `LOWER` does. `LIKE` is modelled with its `%` and `_`
wildcards and is proved equal to substring containment for keywords without
wildcards.

Modules: `Base` (Option, subsequence), `Text` (lower-casing, substring,
`LIKE`), `Feed` (feed entries), `Catalog` (database.py), `ItemsParser`
(items_parser.py), `UpdateDatabase` (update_database.py) and `Bot` (bot.py).

## Behaviour of the code the model pins down

- `save_item` overwrites by `id`. Nothing makes names unique: two rows with
  distinct ids may share a lowered name, and a lookup by name returns the
  first one (`Catalog.SharedNamesAreAllowed`).
- An empty search keyword lists every stored name
  (`Bot.EmptyKeywordListsAll`).
- `get_all_items` has no `ORDER BY`.
- Recipe defaults differ between code paths. The sync, the bulk loader and
  the backfill store `"Tidak ada recipe"`. `load_all_items` in database.py
  stores `''`, and stores `''` for a missing image URL.
- Every sync resets `image_url` to NULL on each row it writes
  (`ItemsParser.IngestClearsImageUrls`).
- The backfill saves under the feed entry's id, not the stored row's id. A
  feed id no row has adds a second row with the name
  (`UpdateDatabase.DifferentFeedIdAddsRow`). A feed id that belongs to
  another row overwrites that row, whatever item it held
  (`UpdateDatabase.FeedIdOverwritesItsRow`,
  `UpdateDatabase.BackfillCanReplaceAnotherItem`).

## Model

| member | source | states |
|---|---|---|
| Text.Lower | database.py:50 | `LOWER(s)` and `s.lower()`: same length, each ASCII capital replaced by its small letter, every other character kept |
| Text.Contains | bot.py:45 | Python's `k in s`: only a needle no longer than the text occurs, and every prefix of the text occurs |
| Text.Like | database.py:94 | SQLite's `LIKE` with `%` and `_`; a pattern without wildcards matches exactly the string equal to it |
| Text.LowerIdempotent | items_parser.py:23 | lower-casing twice equals lower-casing once, so names that differ only in case share one key |
| Text.EmptyIsContained | bot.py:45 | the empty keyword occurs in every name |
| Text.LikeIsSubstring | database.py:94 | the pattern `'%' + k + '%'` matches a string exactly when `k` occurs in it, for `k` without `%` or `_` |
| Text.SqlLikeIsCaseInsensitiveSubstring | database.py:94 | `LOWER(name) LIKE LOWER('%' + k + '%')` holds exactly when the lowered `k` occurs in the lowered name, for wildcard-free `k` |
| Catalog.IndexOfId | database.py:119-120 | the position of the row with the given id: None exactly when no row has it; otherwise the row at that position has the id, and no earlier row does |
| Catalog.Upsert | database.py:118-129 | the row `save_item` writes is in the table afterwards, and at most one row is added |
| Catalog.UpsertStoresRecord | database.py:118-129 | after a save the primary key still holds, and exactly one row has the id, holding the given name, tier, recipe and image_url |
| Catalog.UpsertSize | database.py:122-129 | a save adds one row when the id was absent and leaves the row count unchanged when it was present |
| Catalog.UpsertKeepsOthers | database.py:124-129 | a save leaves every row with another id at its position and unchanged, and adds no row other than the saved one |
| Catalog.FindByName | database.py:50-51 | the first row in table order whose lowered name equals the lowered query; None exactly when no row matches |
| Catalog.FindByNameIgnoresCase | database.py:50 | queries equal after lower-casing ("Dirt", "dirt", "DIRT") find the same row |
| Catalog.SharedNamesAreAllowed | database.py:11-16 | two rows with distinct ids and the same lowered name satisfy the primary key, and a lookup returns the first |
| Catalog.RecipeOf | database.py:50-54 | get_recipe's value is present exactly when some row matches, and it is the first matching row's recipe |
| Catalog.Pairs | database.py:82-86 | one (id, name) pair per row, in table order |
| Catalog.MatchingPairs | database.py:94-98 | a pair is kept exactly when it is stored and its lowered name is LIKE the lowered `%keyword%`, as many times as it is stored; the result keeps table order |
| Catalog.SearchIsSubstringSearch | database.py:94-98 | for a keyword without wildcards, search returns exactly the stored pairs whose lowered name contains the lowered keyword |
| Catalog.Snapshot | database.py:31-38 | the committed table exists exactly when every entry has id and name and no two ids repeat; it then has one row per entry in feed order, with tier 0, recipe '' and image_url '' by default |
| Catalog.Store.constructor | database.py:11-18 | init_db on a fresh database yields an empty table |
| Catalog.Store.SaveItem | database.py:113-132 | the new table is the upsert of the given row by id; image_url defaults to NULL; the primary key is kept |
| Catalog.Store.GetRecipe | database.py:44-54 | None exactly when no lowered name equals the lowered query; otherwise the recipe of a matching row (the first) |
| Catalog.Store.GetItemDetails | database.py:56-75 | None exactly when no row matches ignoring case; otherwise the first matching row in table order |
| Catalog.Store.GetItemImageUrl | database.py:100-110 | the first matching row's image_url; None when no row matches or the URL is NULL |
| Catalog.Store.GetAllItems | database.py:77-86 | every (id, name) pair in table order |
| Catalog.Store.SearchItems | database.py:88-98 | exactly the stored pairs whose lowered name is LIKE `%keyword%`, as a subsequence of the table |
| Catalog.Store.LoadAllItems | database.py:21-42 | on success the table equals the snapshot and the loaded count is reported; an unreadable feed, a missing key or a repeated id leaves the table unchanged |
| ItemsParser.SaveDescriptor | items_parser.py:26-34 | an entry without `id` or `name` leaves the table unchanged; otherwise its row is stored, adding at most one row |
| ItemsParser.Ingest | items_parser.py:26-34 | the table after the loop: it has at least as many rows as before and at most one more per entry with both keys |
| ItemsParser.IngestWritesOnlyKeyed | items_parser.py:26-34 | every row after the sync was there before or is the row of an entry with both `id` and `name`; an entry lacking either is never saved |
| ItemsParser.IngestLastWriteWins | items_parser.py:26-34 | when entries with both keys repeat an id, the last one's row is stored and is the only row with that id |
| ItemsParser.NewlySeen | items_parser.py:23-43 | an item is reported exactly when some entry has id and name and its lowered name is not among the known names; no more items than entries |
| ItemsParser.NewlySeenIsFilter | items_parser.py:23-43 | the returned list equals the reports of all entries with both keys, filtered by the names known before the loop: each new entry appears once per occurrence, in feed order |
| ItemsParser.NewlySeenKeepsOrder | items_parser.py:26-43 | the reported items are a subsequence of the well-formed entries, in feed order |
| ItemsParser.FirstSyncReportsAll | items_parser.py:23-43 | against an empty catalog, every well-formed entry is reported, in order |
| ItemsParser.NothingNewWhenAllKnown | items_parser.py:37 | when every well-formed entry's lowered name is known, nothing is reported |
| ItemsParser.RepeatedNewNameReportedTwice | items_parser.py:37-43 | two entries with the same new lowered name are both reported, because the known set is not updated in the loop |
| ItemsParser.IngestKeepsIdsDistinct | items_parser.py:26-34 | the sync keeps the primary key |
| ItemsParser.IngestKeepsUnfedRows | items_parser.py:26-34 | a row whose id no well-formed entry carries is still in the table after the sync |
| ItemsParser.IngestStoresEach | items_parser.py:28-34 | with pairwise distinct feed ids, each well-formed entry is stored with tier 0 and recipe "Tidak ada recipe" by default |
| ItemsParser.IngestClearsImageUrls | items_parser.py:34 | every row whose id the sync wrote has a NULL image_url afterwards |
| ItemsParser.SecondSyncReportsNothing | items_parser.py:23-37 | with pairwise distinct feed ids, a second sync of the same feed reports nothing |
| ItemsParser.KeyedCountPositive | items_parser.py:66-79 | the number of completed saves is positive exactly when some entry has both id and name |
| ItemsParser.FetchAndParseItems | items_parser.py:7-50 | with no readable feed it returns [] and saves nothing; otherwise the table is the sync of every well-formed entry, and the result is the newly seen list for the names known before the loop |
| ItemsParser.LoadAllItems | items_parser.py:52-79 | upserts every well-formed entry and always returns False, because save_item returns None |
| ItemsParser.OneEntrySavedYetReportedFailed | items_parser.py:66-79 | a feed of one entry with id and name leads to one completed save and a stored row, the input on which the loader still returns False |
| ItemsParser.LoadAllItemsCounted | items_parser.py:65-79 | the corrected loader counts each completed save and returns True exactly when some entry was saved |
| UpdateDatabase.ImageMapping | update_database.py:22 | the keys are exactly the lowered feed names |
| UpdateDatabase.MappingKeepsLastUrl | update_database.py:22 | the URL mapped for a name is that of the last feed entry with that lowered name |
| UpdateDatabase.FirstNamed | update_database.py:35-36 | the first feed entry whose lowered name equals the key; None exactly when there is none |
| UpdateDatabase.Step | update_database.py:29-45 | one stored row: nothing after a KeyError; a KeyError saves nothing; the table changes only for a name mapped to a truthy URL, and then the count grows by one |
| UpdateDatabase.Reconcile | update_database.py:29-45 | the walk over the stored rows: the count never decreases, and nothing happens once a KeyError has escaped |
| UpdateDatabase.FailureEndsTheWalk | update_database.py:37-38 | after a KeyError escapes, the remaining stored rows change nothing |
| UpdateDatabase.CountAtMostStored | update_database.py:28-45 | each stored row causes at most one save, so updated_count is at most the number of stored rows |
| UpdateDatabase.CountIsTruthyRows | update_database.py:29-44 | a walk that finishes re-saves exactly the stored rows whose lowered name maps to a truthy URL |
| UpdateDatabase.ResaveTakesFirstEntryAndLastUrl | update_database.py:30-45 | a re-save takes id, name, tier and recipe from the first feed entry with the name, defaulting to 0 and "Tidak ada recipe", and takes the URL from the last one |
| UpdateDatabase.DifferentFeedIdAddsRow | update_database.py:35-43 | when the chosen feed entry's id is carried by no row, the re-save appends one row and keeps every existing row as it was |
| UpdateDatabase.FeedIdOverwritesItsRow | update_database.py:35-43 | when the chosen feed entry's id is carried by some row, that row is replaced by the re-saved one, whatever item it held |
| UpdateDatabase.BackfillCanReplaceAnotherItem | update_database.py:29-45 | with rows "Dirt" (id 5) and "Rock" (id 7) and a feed entry "DIRT" with id 7, the backfill replaces "Rock", adds no row, and no row named "Rock" remains |
| UpdateDatabase.ResaveStored | update_database.py:29-45 | for one stored pair: nothing happens unless its lowered name maps to a truthy URL; otherwise the first feed entry with that name is re-saved and counted, or the walk fails when that entry has no id |
| UpdateDatabase.UpdateExistingDatabase | update_database.py:5-47 | an unreadable feed, or an entry without a name, saves nothing; otherwise the table and the count are those of the walk over the rows stored before it, stopping at a KeyError on a missing id |
| Bot.SearchResults | bot.py:45 | a name is listed exactly when it is stored and contains the keyword ignoring case; the list keeps table order, and a matching name appears once per row that carries it |
| Bot.SharedNameListedPerRow | bot.py:45 | two rows named "Dirt" searched with "dirt" list "Dirt" twice |
| Bot.SearchFindsEveryMatch | bot.py:45 | every stored name containing the keyword, ignoring case, is listed |
| Bot.EmptyKeywordListsAll | bot.py:45 | an empty keyword lists every stored name, in order |
| Bot.NothingMatchesNothingListed | bot.py:45 | when no stored name contains the keyword, the list is empty |
| Bot.Search | bot.py:44-49 | the "no matching item" reply is sent exactly when no stored name contains the keyword; otherwise the matching names are sent |
| Bot.ReplyToRecipe | bot.py:35-38 | a shown recipe is the returned text and is non-empty; the "no recipe" message is sent exactly for None and '' |
| Bot.RecipeReplyShowsOnlyNonEmpty | bot.py:34-38 | a recipe is shown exactly when a stored name matches and the first match's recipe is non-empty; an empty recipe gets the same reply as a missing item |

## Left out

- Connections, commits and closing are not modelled. Each operation acts on
  the table atomically. The one multi-statement transaction, `load_all_items`
  in database.py, is modelled as commit-or-unchanged.
- Reading and decoding `items.json` is an input: a missing or unparseable
  file is `None`.
- Feed values of the wrong JSON type are not modelled: a non-integer id, a
  non-string name, JSON `null`, or a non-object entry. Neither are the
  `except Exception` paths they would take. A `null` value is treated like
  an absent key. The code instead passes a `null` on, because `item[...]`
  and `.get(...)` return None for a key that is present with value `null`:
  - a `null` id passes `item["id"]` and reaches `save_item(None, ...)`,
    which inserts a row with an id SQLite assigns;
  - a `null` name is saved (items_parser.py:34) before `name.lower()` raises
    at line 37. From then on every sync raises, uncaught, at line 23
    (`None.lower()`), and so does the backfill at update_database.py:30;
  - a `null` tier or recipe is stored as NULL, not as 0 or
    "Tidak ada recipe", by the sync (items_parser.py:30-31), the bulk loader
    (items_parser.py:70-71) and the backfill (update_database.py:40-41). For
    a stored NULL recipe, `get_recipe` returns None and the bot sends the
    "no recipe" reply (bot.py:35-38);
  - a `null` image_url in database.py's `load_all_items` (line 36) is stored
    as NULL, not as `''`.
- SQLite errors other than the duplicate primary key are not modelled, such
  as a locked or missing database. A save never fails.
- `update_db_schema` is imported by update_database.py but is not defined in
  database.py, so that script fails at import. The model describes
  `update_existing_database` as if the import succeeded.
- `init_db` on an existing database keeps the table. Only the fresh, empty
  table is modelled (`Catalog.Store.constructor`).
- Text.Lower: folds ASCII letters only. Python's `str.lower` also folds
  non-ASCII letters, where it differs from SQLite's `LOWER`.
- The bot's Discord side is not modelled: client setup, the event and
  command handlers, message texts and sending, channel lookup, the 24-hour
  task loop and reading the token.
- Printed log lines are not modelled. The counts they show are returned
  values.
- Row order: the model keeps rows in insertion order. With
  `id INTEGER PRIMARY KEY` (database.py:12) the id is the rowid, and a scan
  without `ORDER BY` returns rows by ascending id. So where names are shared,
  the row `Catalog.FindByName` calls first (database.py:50-51), and the
  order in which the backfill walks the stored rows, can differ from
  SQLite's. The results of `get_all_items` and `search_items` can also come
  out in a different order.

## Findings

| source | as written | input that shows it | evidently intended | confidence | as-written member | corrected member |
|---|---|---|---|---|---|---|
| items_parser.py:73-79 | `if save_item(...)` tests the return value of `save_item`, which is always None, so `success_count` never grows and the loader returns False | a feed with one entry that has `id` and `name` (`ItemsParser.OneEntrySavedYetReportedFailed`): the entry is saved, yet the result is False and the log says 0 items were loaded | count each completed save and return True when at least one was saved | high; not executed | ItemsParser.LoadAllItems | ItemsParser.LoadAllItemsCounted |
