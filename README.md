# Distill summary store and health check, in Dafny

Distill is a small web backend. It takes a URL, scrapes the page, has a
locally hosted language model summarise it, and keeps the result. This
project models the two parts of the repository that hold real logic:

- **The summary repository** (`app/repositories/summary.py`). It stores
  `Summary` rows `(id, url, content?, summary, model, created_at)`.
  `SummaryRepository.SummaryStore` is a class that holds:
  - the rows, in insertion order;
  - the next primary key;
  - the database clock.

  Its `Create` and `Delete` methods change that state. The history listing
  (`GetAll`) and the point lookup (`GetById`) are pure functions of the
  stored rows, so they cannot change the store. `GetAll` goes through the
  same steps as the source:
  - filter on `q`, case-insensitively, over `url` or `summary`;
  - count the matches;
  - order by `created_at`, most recent first;
  - skip `(page - 1) * size` rows and keep at most `size`;
  - echo `page` and `size`.

  Its contract does not fix the order of rows with equal timestamps. It
  promises only that the page is cut from *some* most-recent-first
  arrangement of the matching rows, which is all `ORDER BY created_at DESC`
  guarantees.
- **The health decision** (`app/routes/health.py`). `Health.HealthCheck`
  maps two inputs to the status code and the three-field JSON body. The
  inputs are the outcome of the database probe (returned, or raised some
  `Exception`) and the model server's liveness boolean.

The `Ilike` module models the filter as SQLite runs it: `.ilike()` becomes `lower(column) LIKE lower(pattern)`, and SQLite's `lower()` folds only ASCII letters.
The module holds the pattern match as the repository writes it and the
plain substring test the filter is evidently meant to be (see Findings).

Modules: `Wrappers` (Option), `Ilike`, `SummaryModel` (the row),
`SummaryRepository` (queries, deletion, the store class), `Health`.

## Model

| member | source | states |
|---|---|---|
| `SummaryRepository.SummaryStore.Create` | app/repositories/summary.py:7-15 | The new row carries the given url, summary and model and no content. Its key is the counter's value, which differs from every stored key, and no other key becomes present, so a deleted key stays absent. The row is stamped no earlier than any stored row. It is appended, so every earlier row is unchanged. It is then found by its key. The key counter moves by one, the clock is monotone, and the store invariant (keys ascending, at least 1 and below the counter, stamps not after the clock) is kept |
| `SummaryRepository.GetById` | app/repositories/summary.py:41-48 | Finds a row exactly when some stored row has the key. A row it returns is stored and carries that key |
| `SummaryRepository.GetByIdFindsRow` | app/repositories/summary.py:48 | When no two stored rows share a key, looking up a stored row's key returns that very row |
| `SummaryRepository.NeverIssuedKeyAbsent` | app/repositories/summary.py:41-48 | In a valid store, a key never handed out (below 1, or not yet reached by the counter) finds nothing |
| `SummaryRepository.MatchesMeaning` | app/repositories/summary.py:31-34 | An absent or empty `q` admits every row. A non-empty `q` admits a row iff `q` occurs, ignoring ASCII case, at some position of its url or of its summary |
| `SummaryRepository.EmptyQueryAdmitsAll` | app/repositories/summary.py:31-33 | Applies `Ilike.EmptyQueryMatchesAsWritten` to both fields of a row: with an empty query the pattern as written would admit its url and its summary, so the `if q:` shortcut loses nothing |
| `Ilike.EmptyQueryMatchesAsWritten` | app/repositories/summary.py:33 | The pattern `%%` built from an empty query matches every text |
| `SummaryRepository.Matches` | app/repositories/summary.py:31-34 | The filter the listing applies to one row: an absent or empty `q` admits it. Otherwise the row is admitted when `q` is a substring of its url or of its summary, ignoring ASCII case (the corrected filter, see Findings) |
| `SummaryRepository.Filter` | app/repositories/summary.py:31-35 | The filtered rows hold each row the filter admits as many times as the store holds it, and no other row. So their number is the count of matches |
| `SummaryRepository.FilterMembership` | app/repositories/summary.py:31-34 | A row survives the filter iff it is stored and the filter admits it |
| `SummaryRepository.FilterNoQuery` | app/repositories/summary.py:31 | Without a query, the rows are passed through unchanged |
| `SummaryRepository.SortByRecency` | app/repositories/summary.py:37 | Gives one arrangement that `ORDER BY created_at DESC` may return: the same rows (as a multiset), most recent first |
| `SummaryRepository.Window` | app/repositories/summary.py:36-37 | OFFSET/LIMIT: the run of rows starting at `(page - 1) * size`. Its length is `min(size, max(0, n - offset))` |
| `SummaryRepository.GetAll` | app/repositories/summary.py:18-38 | `page`, `size` and `q` default to 1, 10 and none, as in the source. Echoes `page` and `size`. `total` is the number of matching rows, for every page. The items are the window at `(page - 1) * size` of some most-recent-first arrangement of the matching rows. At most `size` items are returned, exactly `min(size, max(0, total - offset))`, most recent first |
| `SummaryRepository.ListingRowsMatch` | app/repositories/summary.py:30-37 | Every listed item is a stored row that the filter admits |
| `SummaryRepository.ListingOrder` | app/repositories/summary.py:37 | `GetAll` promises its items newest first. On such a page, an item with a strictly later `created_at` comes before one with an earlier one |
| `SummaryRepository.EmptyStoreListing` | app/repositories/summary.py:35-38 | An empty store lists no items and a total of 0, and echoes `page` and `size` |
| `SummaryRepository.UnfilteredTotal` | app/repositories/summary.py:35 | Without a query, `total` is the number of stored rows whatever the page |
| `SummaryRepository.LatestRowFirst` | app/repositories/summary.py:37 | A row stamped strictly later than all others heads the first page of the unfiltered listing |
| `SummaryRepository.Without` | app/repositories/summary.py:59 | After removal, the rows are exactly the stored rows whose key differs from the deleted one |
| `SummaryRepository.WithoutAbsentKey` | app/repositories/summary.py:55-57 | Deleting a key that is not stored changes nothing |
| `SummaryRepository.WithoutRemovesOne` | app/repositories/summary.py:59-60 | With keys ascending in stored order (the store's invariant), deleting a stored key removes exactly one row |
| `SummaryRepository.WithoutKeepsIdsAscending` | app/repositories/summary.py:59-60 | Removal keeps the keys ascending, so they stay distinct |
| `SummaryRepository.DeleteIdempotent` | app/repositories/summary.py:51-61 | After a deletion the key finds nothing, and deleting it again changes nothing |
| `SummaryRepository.SummaryStore.Delete` | app/repositories/summary.py:51-61 | Returns what a lookup of the key gave beforehand, `None` when absent. On `None` the rows are unchanged. Otherwise exactly that row is removed, the other rows keep their order, and the key then finds nothing. The counter and clock are untouched and the invariant is kept |
| `Ilike.ContainsFoldedMeaning` | app/repositories/summary.py:33 | The substring test holds iff `q` occurs, ignoring ASCII case, at some offset of the text |
| `Ilike.IlikeAgreesWithoutWildcards` | app/repositories/summary.py:33 | For a `q` without `%` or `_`, `lower(t) LIKE lower('%q%')` as written holds iff the substring test does |
| `Ilike.IlikeAsWritten` | app/repositories/summary.py:33 | The filter as written: both the text and the pattern `%q%` are ASCII lower-cased, then matched under SQL LIKE, where `%` matches any run of characters and `_` any single character. No escape is applied to `q` |
| `Ilike.UnderscoreIsWildcard` | app/repositories/summary.py:33 | As written, `q = "a_c"` matches the text `"abc"`, which does not contain `a_c` |
| `Health.DbConnectivity` | app/routes/health.py:17-21 | The database counts as reachable iff `SELECT 1` returned. Any `Exception` it raises is absorbed as unreachable |
| `Health.HealthCheck` | app/routes/health.py:17-29 | The code is 200 iff both probes succeeded, and 503 otherwise. `status` is "ok" exactly for 200 and "error" exactly for 503. `db` is "ok"/"unreachable" exactly as `SELECT 1` returned or raised. `ollama` is "ok"/"unreachable" exactly as the liveness call returned true or false |
| `Health.ResponseDeterminesProbes` | app/routes/health.py:23-29 | The response determines both probe results. So the model server is consulted and reported whatever the database did |
| `Health.DbFailureAbsorbed` | app/routes/health.py:17-28 | Whatever the database raises, the handler answers 503 with status "error", db "unreachable" and the model server's own result |

## Left out

- The scraper, the language-model client, the `/summarize` route handlers, the engine, session and `get_db`, the settings and the ORM column declarations are not part of this model. In the repository they are unimplemented stubs. The row shape follows the column list in the doc comment of `app/models/summary.py`.
- URL validation against private addresses, the DELETE route, and the mapping of scraper and model-server errors to 422/503 appear only in the route tests. There is no implementing code for them, so they are not modelled.
- The health router is never mounted: `app/main.py` includes only the summarize router. The model describes the handler itself.
- `SummaryRepository.GetAll`: `page >= 1` and `size >= 1` are preconditions, so the model says nothing about `page < 1` or `size < 1`. The code does not guard them: it passes a negative OFFSET or LIMIT straight to SQLite, whose behaviour with those is engine-specific.
- `SummaryRepository.GetAll`, `SummaryRepository.GetById` and `SummaryRepository.SummaryStore.Delete` work on unbounded integers. Keys, `page`, `size` and the offset have no 64-bit limit. The sqlite3 driver raises `OverflowError` for a bound parameter outside the signed 64-bit range. Two examples: `page = 2**62` with the default `size = 10` overflows the OFFSET at line 37, and `summary_id = 2**63` overflows the key at lines 48 and 55. There, the model returns an empty page or `None` instead of raising.
- `SummaryRepository.GetAll`: for a `q` containing `%` or `_`, the listing uses the plain substring filter, not the source's LIKE pattern, in which those characters act as wildcards (see Findings).
- Real timestamps are replaced by ticks of a monotone clock. `SummaryStore.Create` takes as input the time elapsed since the previous `Create`. `Delete` does not move the clock. Elapsed time may be zero, so equal timestamps stay possible.
- How rows with equal timestamps are ordered is not fixed. Two calls to `get_all` may therefore arrange such rows differently, and the model promises nothing about rows that repeat or go missing across pages when timestamps tie.
- Keys come from a counter that never reuses a value. This follows "auto-incremented" in the model's doc comment. A SQLite `INTEGER PRIMARY KEY` without `AUTOINCREMENT` could reuse the largest key after that row is deleted.
- `SummaryStore.Create` never sets `content`. `create` does not pass it, so the column keeps its default, null.
- Case folding is ASCII only, as SQLite's `lower()` and `LIKE` do. Full Unicode folding is not modelled.
- Sessions, commit and refresh, transactions, concurrent requests, async/await, logging and app wiring are not modelled. Each write is one atomic step on the store.
- `Health.DbConnectivity` models only the `Exception` subclasses that `except Exception` catches. A `BaseException` such as `KeyboardInterrupt` raised by `SELECT 1` escapes the handler and is not modelled.
- The network I/O inside the two health probes is not modelled. The probes are inputs to `Health.HealthCheck`. The liveness call is assumed to return a boolean and never raise. Line 23 has no `try`, so a raise there would escape the handler. `check_health` is not defined in `app/services/ollama.py` and is not part of this model.
- URL normalisation by pydantic's `HttpUrl` (the trailing slash) is not modelled. Stored URLs are whatever string `create` receives.

## Findings

| source | as written | input that shows it | evidently intended | confidence | as-written member | corrected member |
|---|---|---|---|---|---|---|
| app/repositories/summary.py:33 | `q` goes unescaped into the pattern `%q%` of `lower(column) LIKE lower('%q%')`, so `%` and `_` in a search act as wildcards | searching `q = "a_c"` lists a row whose url is `"abc"` | a plain case-insensitive substring search on url or summary | medium; not executed | `Ilike.IlikeAsWritten`, `Ilike.UnderscoreIsWildcard` | `Ilike.ContainsFolded`, `Ilike.ContainsFoldedMeaning`, `Ilike.IlikeAgreesWithoutWildcards` |

Every `GetAll` property above uses the corrected filter. The as-written
pattern, `Ilike.IlikeAsWritten`, agrees with it on every query free of
`%` and `_` (`Ilike.IlikeAgreesWithoutWildcards`).
