# Recent-search store of the Kiwix Android reader, in Dafny

This project models the Kiwix reader's store of recent search terms,
`NewRecentSearchRoomDao`. The store is a Room/SQLite table `RecentSearchRoomEntity`
with the columns `id` (primary key), `searchTerm` and `zimId`. The DAO has one
query and four writes:

- `search(zimId)` selects the rows whose **`id`** column is `LIKE` the given ZIM
  id, newest (highest `id`) first.
- `recentSearches(zimId)` turns that list into what the search screen shows:
  `distinctBy(searchTerm)`, then `take(NUM_RECENT_RESULTS)` with the constant 100,
  then a list item per term.
- `saveSearch(title, id)` inserts a row. Its `id` argument goes into the `zimId`
  column.
- `deleteSearchString(term)` deletes every row of one term, under every ZIM id.
- `deleteSearchHistory()` deletes every row.
- `migrationToRoomInsert(box)` copies the records of the legacy ObjectBox store
  by calling `saveSearch(record.searchTerm, record.id)` once per record.

The model has two modules:

- `RecentSearch` (`recent_search.dfy`) holds the rows and the read path as pure
  functions: `Matching` (the WHERE clause), `SortByIdDesc` (ORDER BY id DESC),
  `Search`, `DistinctByTerm`, `Take`, `ToListItems` and `RecentSearches`. The
  properties of the read path are proved as lemmas. The same file also holds
  the rows a DELETE leaves (`WithoutTerm`) and a worked example.
- `RecentSearchDao` (`recent_search_dao.dfy`) holds the class
  `NewRecentSearchRoomDao`. Its fields are the row sequence and the next primary
  key. Its methods are the four writes, and its invariant `Valid` says that ids
  are below `nextId` and increase in storage order.

Two behaviours of the code are modelled as written:

- The query compares the row's `id` column, not `zimId`, with the argument
  (NewRecentSearchRoomDao.kt line 34). `saveSearch` writes its argument into
  `zimId` (line 46). So a search by ZIM id selects rows by primary key. The
  evident intent is a filter on `zimId`, but the model keeps what the code
  does, and `Matches` states it.
- The migration passes the legacy record's `id` as the new row's `zimId` value
  (line 60). The record's id does not become the new row's primary key or its
  ordering key. The row gets a fresh primary key like any other insert.

SQL `LIKE` is not interpreted. `Matches` takes the matcher as a parameter
`like: (int, string) -> bool`. A null ZIM id (`None`) matches no row, as an SQL
comparison with NULL does.

## Model

| member | source | states |
|---|---|---|
| RecentSearch.Matching | core/src/main/java/org/kiwix/kiwixmobile/core/dao/NewRecentSearchRoomDao.kt:34 | the WHERE clause keeps exactly the rows whose `id` matches the argument, in storage order (a subsequence of the table) |
| RecentSearch.SortByIdDesc | core/src/main/java/org/kiwix/kiwixmobile/core/dao/NewRecentSearchRoomDao.kt:34-35 | ORDER BY id DESC returns a permutation of its input, ordered by descending id, and strictly so when the ids are distinct |
| RecentSearch.Search | core/src/main/java/org/kiwix/kiwixmobile/core/dao/NewRecentSearchRoomDao.kt:33-37 | `search` returns every matching row and only matching rows, each as often as it is stored, in descending id order, strictly descending when the table's ids are distinct |
| RecentSearch.SearchOfAscendingRows | core/src/main/java/org/kiwix/kiwixmobile/core/dao/NewRecentSearchRoomDao.kt:33-37 | on a table stored in increasing id order, `search` is the matching rows in reverse storage order |
| RecentSearch.NullZimIdReadsNothing | core/src/main/java/org/kiwix/kiwixmobile/core/dao/NewRecentSearchRoomDao.kt:33-44 | a null ZIM id makes both `search` and `recentSearches` empty |
| RecentSearch.FirstOccurrenceIsNewest | core/src/main/java/org/kiwix/kiwixmobile/core/dao/NewRecentSearchRoomDao.kt:34-35 | in a list ordered newest first, the first row of a term has the highest id of all rows of that term |
| RecentSearch.DistinctByTerm | core/src/main/java/org/kiwix/kiwixmobile/core/dao/NewRecentSearchRoomDao.kt:41 | `distinctBy(searchTerm)` returns a subsequence of its input with no term twice and every term of the input that was not already seen |
| RecentSearch.DistinctKeepsFirstOccurrence | core/src/main/java/org/kiwix/kiwixmobile/core/dao/NewRecentSearchRoomDao.kt:41 | every row `distinctBy` keeps is the first row of its term in the input |
| RecentSearch.Take | core/src/main/java/org/kiwix/kiwixmobile/core/dao/NewRecentSearchRoomDao.kt:41 | `take(n)` returns the leading elements, all of them when there are at most `n`, otherwise exactly `n` |
| RecentSearch.ToListItems | core/src/main/java/org/kiwix/kiwixmobile/core/dao/NewRecentSearchRoomDao.kt:42 | one list item per row, in order, carrying that row's term |
| RecentSearch.RecentSearches | core/src/main/java/org/kiwix/kiwixmobile/core/dao/NewRecentSearchRoomDao.kt:39-44 | `recentSearches` returns at most NUM_RECENT_RESULTS (100) items, never the same term twice, and only terms of matching rows |
| RecentSearch.RecentSearchesKeepSearchOrder | core/src/main/java/org/kiwix/kiwixmobile/core/dao/NewRecentSearchRoomDao.kt:39-44 | the items of `recentSearches` are a subsequence of the terms `search` returns, in the same newest-first order |
| RecentSearch.NewestOccurrenceWins | core/src/main/java/org/kiwix/kiwixmobile/core/dao/NewRecentSearchRoomDao.kt:33-41 | each row kept after de-duplication is a matching row, no matching row of its term has a higher id, and with distinct ids the kept rows are strictly newest first |
| RecentSearch.RecentSearchesComplete | core/src/main/java/org/kiwix/kiwixmobile/core/dao/NewRecentSearchRoomDao.kt:39-44 | if the matching rows hold at most 100 distinct terms, `recentSearches` returns every one of them; otherwise it returns exactly 100 |
| RecentSearch.RecentSearchesDropOldest | core/src/main/java/org/kiwix/kiwixmobile/core/dao/NewRecentSearchRoomDao.kt:39-44 | with distinct ids, every matching row whose term is dropped is older than the newest row of every returned term, so the 100 returned terms are the most recently used ones |
| RecentSearch.DroppedRowIsOlder | core/src/main/java/org/kiwix/kiwixmobile/core/dao/NewRecentSearchRoomDao.kt:39-44 | with distinct ids, a matching row whose term `recentSearches` does not return has a lower id than the row behind any returned item |
| RecentSearch.SavedSearchReadFirst | core/src/main/java/org/kiwix/kiwixmobile/core/dao/NewRecentSearchRoomDao.kt:33-47 | a saved row with an id above every stored id, if it matches, is the first row of `search`, and its term is the first item of `recentSearches` |
| RecentSearch.WithoutTerm | core/src/main/java/org/kiwix/kiwixmobile/core/dao/NewRecentSearchRoomDao.kt:49-50 | deleting a term keeps exactly the rows of every other term, whatever their `zimId`, in their order |
| RecentSearch.DeleteAbsentTermIsNoOp | core/src/main/java/org/kiwix/kiwixmobile/core/dao/NewRecentSearchRoomDao.kt:49-50 | deleting a term that no row has leaves the table unchanged |
| RecentSearch.DeleteIsIdempotent | core/src/main/java/org/kiwix/kiwixmobile/core/dao/NewRecentSearchRoomDao.kt:49-50 | deleting a term twice leaves the same table as deleting it once |
| RecentSearch.DeletedTermIsNeverRead | core/src/main/java/org/kiwix/kiwixmobile/core/dao/NewRecentSearchRoomDao.kt:33-50 | after a term is deleted, neither `search` nor `recentSearches` returns it, for any ZIM id |
| RecentSearch.WorkedExample | core/src/main/java/org/kiwix/kiwixmobile/core/dao/NewRecentSearchRoomDao.kt:39-44 | rows "cat", "dog", "cat", "bird" with ids 1 to 4, all matching, read back as "bird", "cat", "dog" |
| RecentSearchDao.NewRecentSearchRoomDao.SaveSearch | core/src/main/java/org/kiwix/kiwixmobile/core/dao/NewRecentSearchRoomDao.kt:46-47 | appends exactly one row with a fresh id, `searchTerm = title` and `zimId = id`; earlier rows, including rows of the same term, are unchanged; if the new row matches a query, its term becomes the first recent search |
| RecentSearchDao.NewRecentSearchRoomDao.DeleteSearchString | core/src/main/java/org/kiwix/kiwixmobile/core/dao/NewRecentSearchRoomDao.kt:49-50 | the table becomes `WithoutTerm` of the old table, the id counter is kept, and no later `recentSearches` returns the term |
| RecentSearchDao.NewRecentSearchRoomDao.DeleteSearchHistory | core/src/main/java/org/kiwix/kiwixmobile/core/dao/NewRecentSearchRoomDao.kt:52-53 | the table is empty, so every `search` and every `recentSearches` afterwards is empty |
| RecentSearchDao.NewRecentSearchRoomDao.MigrationToRoomInsert | core/src/main/java/org/kiwix/kiwixmobile/core/dao/NewRecentSearchRoomDao.kt:55-62 | the table grows by exactly one row per legacy record, in box order, with term = the record's `searchTerm`, `zimId` = the record's `id` and consecutive fresh ids; the old rows are kept |
| RecentSearchDao.MigrateTwice | core/src/main/java/org/kiwix/kiwixmobile/core/dao/NewRecentSearchRoomDao.kt:55-62 | running the migration twice stores every legacy record twice under different ids, so the migration is not idempotent |
| RecentSearchDao.RecentSearchesExample | core/src/main/java/org/kiwix/kiwixmobile/core/dao/NewRecentSearchRoomDao.kt:39-47 | saving "cat", "dog", "cat", "bird" into an empty table and reading back gives "bird", "cat", "dog" |

## Left out

- The `Flow` streams of `search` and `recentSearches` are not modelled. Each read is one snapshot of the table, computed from its current rows. Subscriptions and change notifications are out of scope.
- SQL `LIKE` matching, with its `%` and `_` wildcards and its conversion of an integer `id` to text, is not interpreted. It is the parameter `like`.
- The generation of primary keys belongs to `RecentSearchRoomEntity`, which is not part of this model. The model assumes that each insert receives a fresh id above every id the table holds (`nextId`, starting at 1 and never reused). The class invariant records this assumption.
- The `zimId` column's type is declared in `RecentSearchRoomEntity`. It is modelled as the integer `saveSearch` receives. The 64-bit range of Kotlin's `Long` is not modelled, because the model never does arithmetic on these values.
- Storage failures (a full disk, a missing table, a migration interrupted partway) are not modelled. Each statement here always succeeds.
- The ObjectBox `Box` is a foreign library. It is modelled only as the sequence of records `box.all` returns.
- Threading and the dispatchers of the DAO's callers are out of scope.
- `app/src/androidTest/java/org/kiwix/kiwixmobile/utils/files/FileUtilsTest.kt` is not modelled. It is an instrumentation test of `FileUtils`, and `FileUtils` is not part of this model.
- A persisted "migration done" flag, which would make the migration idempotent, is not modelled. The code has no such flag, and `MigrateTwice` shows the duplication that results.
- When two rows share an id, ORDER BY leaves their relative order unspecified, while `SortByIdDesc` fixes one order. The class invariant rules out equal ids.
