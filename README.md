# MovieGuru search coordinator and movie cache, in Dafny

This project models two pieces of the MovieGuru Android app:

- **The movie-search coordinator** (`MovieViewModel`). It holds the query
  text, the handle of the pending search job, the published movie list and
  the settings UI state. It reacts to `OnSearchQueryChange`,
  `OnSortToggled` and `OnSearchInitiated` and to its own `init` by issuing
  fetch requests to the movie repository. A blank query is sent as `"love"`.
  Module `Movies` (file `movie_view_model.dfy`) models it as the class
  `MovieViewModel`. `requests` is the log of every repository call, as
  (sort flag, effective query). Job handles are generation numbers, and
  `cancelledJobs` records which of them `cancel()` was called on. The
  invariant `Valid()` states that no request ever carries a blank query.
  Each event method preserves it.
- **The cached movie table** behind the Room DAO `MovieDao`. Module
  `MovieDao` (file `movie_dao.dfy`) models the table as the class
  `MovieTable`. It holds a `map` from primary key (`imdbID`) to
  `MovieEntity` row. `InsertAll` is a loop that replaces rows on key
  conflict, and `ClearAll` empties the map. The count and the two reads are
  functions. A Dafny function cannot change state, so the reads leave the
  table untouched by construction.

Supporting modules:

- `MovieEntities` holds the row record.
- `SqliteText` holds the text order of SQLite's BINARY collation, with
  proofs that it is a total order.
- `KotlinText` holds Kotlin's `isWhitespace`, `isBlank` and `ifBlank`.
- `Wrappers` holds `Option`.

Two modelling choices about the app's code:

- The filter `year > 2000` compares TEXT. `year` is a `String` column, so
  under section 4.2 of SQLite's "Datatypes In SQLite" the literal takes
  text affinity. It is compared as the text `'2000'`, so `"999"` and
  `"N/A"` pass and `"10000"` does not (`MovieDao.YearFilterIsTextual`).
  `ORDER BY year` is text order too.
- Coroutines are modelled sequentially: a launched job reaches its
  repository call before the next event is handled.

Two facts about cancellation in the app's code:

- Cancelling `searchJob` does not stop a fetch already issued, because
  `getMovies` collects the results in a coroutine of its own, which nothing
  cancels. `OnPagingDataEmitted` therefore accepts emissions of any issued
  request, and the results of an older fetch can overwrite the list
  (`SearchSession` shows this).
- `OnSortToggled` and `OnSearchInitiated` start another fetch without
  touching `searchJob`.

## Model

| member | source | states |
|---|---|---|
| `KotlinText.IsWhitespace` | app/src/main/java/com/frogtest/movieguru/presentation/movies/MovieViewModel.kt:110 | Kotlin's whitespace test, which `ifBlank` applies to each character: space, tab, newline and carriage return are whitespace, ASCII letters and digits are not |
| `KotlinText.IsBlank` | app/src/main/java/com/frogtest/movieguru/presentation/movies/MovieViewModel.kt:110 | the empty string is blank, and a string with an ASCII letter or digit is not |
| `KotlinText.IfBlank` | app/src/main/java/com/frogtest/movieguru/presentation/movies/MovieViewModel.kt:110 | `ifBlank` returns the default for a blank string and the string itself otherwise, so with a non-blank default the result is never blank |
| `Movies.EffectiveQuery` | app/src/main/java/com/frogtest/movieguru/presentation/movies/MovieViewModel.kt:110 | the query sent to the repository is never blank: a blank query becomes "love", any other query is passed unchanged |
| `Movies.SettingsUiStateOf` | app/src/main/java/com/frogtest/movieguru/presentation/movies/MovieViewModel.kt:37-43 | every settings value maps to the `Success` form carrying exactly the stored `sort` flag |
| `Movies.MovieViewModel.constructor` | app/src/main/java/com/frogtest/movieguru/presentation/movies/MovieViewModel.kt:93-97 | initial state: empty query, empty published list, settings UI `Loading`, no search job; `init` issues exactly one request, with the stored sort flag and "love" (the effective form of "") |
| `Movies.MovieViewModel.UpdateSearchQuery` | app/src/main/java/com/frogtest/movieguru/presentation/movies/MovieViewModel.kt:100-102 | sets the query to the argument; its frame allows no other change, so no request is issued |
| `Movies.MovieViewModel.GetMovies` | app/src/main/java/com/frogtest/movieguru/presentation/movies/MovieViewModel.kt:105-110 | appends exactly one request, with the given sort flag and the effective query |
| `Movies.MovieViewModel.OnPagingDataEmitted` | app/src/main/java/com/frogtest/movieguru/presentation/movies/MovieViewModel.kt:111-117 | an emission of any issued request, stale ones included, replaces the published list with the entities mapped one to one through `toMovie`, in order |
| `Movies.MovieViewModel.OnSettingsEmitted` | app/src/main/java/com/frogtest/movieguru/presentation/movies/MovieViewModel.kt:35-54 | the settings UI state becomes `Success` carrying the persisted sort flag |
| `Movies.MovieViewModel.OnMovieEvent` | app/src/main/java/com/frogtest/movieguru/presentation/movies/MovieViewModel.kt:66-91 | same query: nothing changes. New query: the query is set, the old job is cancelled, one new job issues one request with the stored sort and the new query. Sort toggle: the flag is persisted, then one request with it and the unchanged query, job untouched. Search initiated: one request with the stored sort and the query, nothing else changes. No request is ever blank |
| `Wrappers.Elements` | app/src/main/java/com/frogtest/movieguru/presentation/movies/MovieViewModel.kt:71 | a null job handle contributes no cancelled job, a present handle contributes exactly its own |
| `SqliteText.TextLeReflexive` | app/src/main/java/com/frogtest/movieguru/data/cache/dao/MovieDao.kt:19 | the text order used by `ORDER BY year` is reflexive |
| `SqliteText.TextLeTotal` | app/src/main/java/com/frogtest/movieguru/data/cache/dao/MovieDao.kt:19 | any two years are comparable in text order |
| `SqliteText.TextLeAntisymmetric` | app/src/main/java/com/frogtest/movieguru/data/cache/dao/MovieDao.kt:19 | two texts each at most the other are equal |
| `SqliteText.TextLeTransitive` | app/src/main/java/com/frogtest/movieguru/data/cache/dao/MovieDao.kt:19 | the text order is transitive |
| `SqliteText.TextLtIsStrict` | app/src/main/java/com/frogtest/movieguru/data/cache/dao/MovieDao.kt:18 | the strict comparison used by `year > 2000` is the text order minus equality |
| `MovieDao.YearPasses` | app/src/main/java/com/frogtest/movieguru/data/cache/dao/MovieDao.kt:18 | `year > 2000` on the TEXT column: the year is above the text '2000' in text order, that is at least '2000' and not equal to it |
| `MovieDao.YearFilterByFirstChar` | app/src/main/java/com/frogtest/movieguru/data/cache/dao/MovieDao.kt:18 | for every non-empty year: a first character above '2' passes the filter and one below '2' fails it, whatever the length |
| `MovieDao.Upsert` | app/src/main/java/com/frogtest/movieguru/data/cache/dao/MovieDao.kt:13-14 | one REPLACE insert: the row's id is stored with exactly that row, every other stored row is kept, and no other key appears |
| `MovieDao.UpsertAll` | app/src/main/java/com/frogtest/movieguru/data/cache/dao/MovieDao.kt:13-14 | the rows of a batch inserted first to last: no stored key disappears, and the batch's last row is stored under its id |
| `MovieDao.RowsPassing` | app/src/main/java/com/frogtest/movieguru/data/cache/dao/MovieDao.kt:23-26 | the table scan: it returns at most one row per listed key, and only stored rows that pass the year filter |
| `MovieDao.YearFilterIsTextual` | app/src/main/java/com/frogtest/movieguru/data/cache/dao/MovieDao.kt:17-18 | the filter compares text: "2001" and "2010–2015" pass, "2000" and "1999" do not, "999" and "N/A" pass, "10000" does not |
| `MovieDao.UpsertAllLastWins` | app/src/main/java/com/frogtest/movieguru/data/cache/dao/MovieDao.kt:13-14 | after a bulk insert, an id in the batch maps to the last entity of the batch carrying that id |
| `MovieDao.UpsertAllKeepsOthers` | app/src/main/java/com/frogtest/movieguru/data/cache/dao/MovieDao.kt:13-14 | an id not in the batch keeps its row, or stays absent |
| `MovieDao.UpsertAllKeys` | app/src/main/java/com/frogtest/movieguru/data/cache/dao/MovieDao.kt:13-14 | the stored keys afterwards are exactly the old keys plus the batch's ids |
| `MovieDao.UpsertAllKeyed` | app/src/main/java/com/frogtest/movieguru/data/cache/entity/MovieEntity.kt:8-9 | the bulk insert keeps every row stored under its own primary key |
| `MovieDao.UpsertAllGrows` | app/src/main/java/com/frogtest/movieguru/data/cache/dao/MovieDao.kt:13-14 | the row count never decreases, and grows by at most the batch length |
| `MovieDao.Enumerate` | app/src/main/java/com/frogtest/movieguru/data/cache/dao/MovieDao.kt:23-26 | the engine's visiting order lists every stored key exactly once |
| `MovieDao.RowsPassingCounts` | app/src/main/java/com/frogtest/movieguru/data/cache/dao/MovieDao.kt:23-26 | scanning distinct keys returns each stored row that passes the year filter exactly once, and no other row |
| `MovieDao.InsertByYear` | app/src/main/java/com/frogtest/movieguru/data/cache/dao/MovieDao.kt:19 | placing one row into an ordered result adds exactly that row |
| `MovieDao.SortByYear` | app/src/main/java/com/frogtest/movieguru/data/cache/dao/MovieDao.kt:19 | ordering by year is a permutation of its input |
| `MovieDao.InsertByYearSorted` | app/src/main/java/com/frogtest/movieguru/data/cache/dao/MovieDao.kt:19 | placing a row into a result in year order keeps it in year order |
| `MovieDao.SortByYearSorted` | app/src/main/java/com/frogtest/movieguru/data/cache/dao/MovieDao.kt:19 | the ordered result is in non-decreasing text order of `year` |
| `MovieDao.IdsAreKeys` | app/src/main/java/com/frogtest/movieguru/data/cache/entity/MovieEntity.kt:8-9 | with `imdbID` as primary key, the ids carried by the stored rows are exactly the table's keys |
| `MovieDao.MovieTable.constructor` | app/src/main/java/com/frogtest/movieguru/data/cache/entity/MovieEntity.kt:6-14 | the table starts empty and keyed |
| `MovieDao.MovieTable.InsertAll` | app/src/main/java/com/frogtest/movieguru/data/cache/dao/MovieDao.kt:13-14 | the new table is the old one with the rows inserted first to last, each replacing the row with its key; it stays keyed and the count does not drop |
| `MovieDao.MovieTable.ClearAll` | app/src/main/java/com/frogtest/movieguru/data/cache/dao/MovieDao.kt:32-33 | the table is empty and the count is 0 |
| `MovieDao.MovieTable.GetCount` | app/src/main/java/com/frogtest/movieguru/data/cache/dao/MovieDao.kt:29-30 | the count is the number of distinct `imdbID`s stored |
| `MovieDao.MovieTable.GetMovies` | app/src/main/java/com/frogtest/movieguru/data/cache/dao/MovieDao.kt:23-26 | returns each stored row whose year passes `year > 2000` exactly once and no other row; no order |
| `MovieDao.MovieTable.GetSortedMovies` | app/src/main/java/com/frogtest/movieguru/data/cache/dao/MovieDao.kt:16-21 | returns the same rows as `GetMovies` (same multiset), in non-decreasing `year` text order |
| `MovieDao.FilteredOutRowStillCounted` | app/src/main/java/com/frogtest/movieguru/data/cache/dao/MovieDao.kt:17-30 | a stored row failing the year filter still counts toward `getCount` but neither read returns it |

## Left out

- Coroutine scheduling and interleavings: each launched job is taken to run up to its repository call before the next event. So `cancel()` on the search job never withdraws an issued request. In the app, a job cancelled while suspended in `userSettings.first()` would issue none.
- No claim is made that only the latest fetch's results are published, because the code does not guarantee it (see above).
- Paging: `PagingSource` page boundaries, `PagingData`, `cachedIn` and Room's invalidation of a source when the table changes. A read returns the whole result, and a collector's emission is a whole sequence of entities.
- `repository.getMovies`, which merges the remote source into the cache, is not part of this model. Only its calls are recorded.
- `toMovie`: the mapper's definition is not part of this model. It is a function the view model is constructed with.
- The settings store: only the `sort` flag is modelled. The other settings, and the other setters of `UserSettingsRepositoryImpl`, are not. Settings emissions are one explicit step, `OnSettingsEmitted`.
- `getSignedInUser` and the authentication repository, which wrap a sign-in SDK.
- `Log.d` calls and the `TAG` constant.
- MovieDao.MovieTable.GetMovies: the order in which SQLite visits rows is an arbitrary choice (`Enumerate`). No order is claimed for it.
- MovieDao.MovieTable.GetSortedMovies: the order among rows with equal `year` is not claimed.
- MovieDao.MovieTable.GetCount: returns an unbounded `nat`, while Kotlin's `Int` is 32 bits. A table of more than 2^31 - 1 rows is not modelled.
- Unicode-version differences in which characters Kotlin treats as whitespace. The set used is the Zs/Zl/Zp separators plus the JVM's control whitespace.
- The Compose screens, dialogs and top bars, the YouTube player and the sign-in client and state. These are UI and SDK wrapping outside the core.
