# URL shortener core, modelled in Dafny

This project models the core of a small URL-shortening service: the `urls`
table and the four service operations over it.

- `create_short_url` turns a URL into a short code. If a row already holds
  exactly that URL string, its code is returned. Otherwise up to ten
  candidate codes are tried. Each candidate is the first eight characters of
  a generator output, and it is inserted as a new row. An insert rejected by
  the table's unique constraint on `code` is discarded and the next
  candidate is tried. After ten rejections the call fails.
- `get_original_url` resolves a code to its URL, or to nothing.
- `update_original_url` overwrites the URL stored under a code and reports
  whether a row was hit.
- `delete_url` removes the row of a code and reports whether a row was hit.

Two modules:

- `UrlsTable` (`urls_table.dfy`) is the table. A `Row` holds
  `(id, originalUrl, code)`. A `Table` value holds the rows in storage
  order together with the AUTOINCREMENT counter. `WellFormed` carries the
  schema's constraints: codes are unique, and ids ascend in storage order
  and stay below the counter. Each SQL statement the service issues is a
  pure function over the rows: `FirstMatch` for `SELECT … WHERE … = ?` plus
  `fetchone()`, `SetUrlWhereCode` for the UPDATE, `DeleteWhereCode` for the
  DELETE, `MatchCount` for `rowcount`, and `Inserted` for the INSERT. The
  `Database` class stands for the connection. Its fields are the rows and
  the counter, and its methods run the three writing statements.
  `Mapping` is the table's meaning, a map from code to URL. It is the
  reference that insert, update, delete and lookup are all proved against.
- `ShortenerService` (`shortener_service.dfy`) holds the four operations.
  `Create` is the pure specification of one `create_short_url` call.
  `CreateShortUrl` is the imperative retry loop, proved equal to it. The
  lemmas state idempotence, the round trip, the bounded retry, the shape
  of new codes, and that every operation preserves the schema's
  constraints. Three client methods, `ScenarioCreate`,
  `ScenarioMissingCode` and `ScenarioUpdateDelete`, follow the cases of
  `tests/test_shortener.py` through the contracts alone. They cover
  creating twice, resolving, update, delete, a second delete, and a code
  that was never issued. Invalid-URL rejection is a transport matter and
  is not among them.

Choices the source leaves open:

- **Which row a URL lookup returns.** The `SELECT code FROM urls WHERE
  original_url = ?` has no `ORDER BY`. `update_original_url` can give two
  rows the same URL, so several rows can match. The model takes the first
  row in id order. SQLite scans a table in rowid order when no index covers
  the column, so this matches what the engine does. `CreateReusesExisting`
  states it.
- **The code generator** (`shortuuid.uuid()`) is a parameter
  `gen: nat -> string`. `gen(k)` is the output used on attempt `k` of one
  call. The slice `[:8]` is `Truncate`, which, like Python, returns the
  whole string when it is shorter than eight characters.
- **The id counter.** AUTOINCREMENT is modelled as a counter that starts
  at 1 and grows only on a successful insert. An insert rejected by the
  constraint writes nothing.

## Model

| member | source | states |
|---|---|---|
| UrlsTable.FirstMatch | app/services/shortener_service.py:20-21 | the index returned holds the value in the filtered column and no earlier row does; none is returned exactly when no row matches |
| UrlsTable.MatchCount | app/services/shortener_service.py:74-79 | the rowcount of a `WHERE code = ?` statement is positive exactly when the code is present, and is at most one under the unique constraint |
| UrlsTable.SetUrlWhereCode | app/services/shortener_service.py:74-77 | the UPDATE keeps every row's id, code and position, and changes the URL of exactly the rows carrying the code |
| UrlsTable.DeleteWhereCode | app/services/shortener_service.py:93 | the DELETE keeps exactly the rows whose code differs, loses as many rows as the rowcount, and leaves the code absent |
| UrlsTable.Mapping | app/database.py:29-33 | the code-to-URL view has exactly the table's codes as keys |
| UrlsTable.FirstMatchCodeMapping | app/services/shortener_service.py:53-57 | the row the code lookup finds exists exactly when the code is a key of the map, and its URL is what the map gives |
| UrlsTable.MappingAt | app/database.py:32 | under the unique constraint every row is what the map says for its code |
| UrlsTable.MappingAppend | app/services/shortener_service.py:28-31 | inserting a row under a new code adds exactly that code and its URL to the map |
| UrlsTable.MappingSetUrl | app/services/shortener_service.py:74-79 | the UPDATE rebinds the code to the new URL when present, and leaves the map unchanged otherwise |
| UrlsTable.MappingDelete | app/services/shortener_service.py:93-95 | the DELETE removes exactly that code from the map |
| UrlsTable.AbsentCodeUntouched | app/services/shortener_service.py:74-95 | an UPDATE or DELETE of a code that is not present leaves the rows as they were |
| UrlsTable.WellFormed | app/database.py:29-33 | the schema's constraints: no two rows share a code, ids ascend in storage order, and every id is below the AUTOINCREMENT counter |
| UrlsTable.Inserted | app/services/shortener_service.py:28-31 | an insert adds exactly its code to the table's codes; when the code was absent it binds that code to the URL in the map and keeps the schema's constraints |
| UrlsTable.AppendWellFormed | app/database.py:29-33 | appending a row under a code not yet present and the next id keeps codes unique and ids ascending and below the counter |
| UrlsTable.SetUrlWellFormed | app/services/shortener_service.py:74-77 | an UPDATE keeps the schema's constraints |
| UrlsTable.DeleteWellFormed | app/services/shortener_service.py:93 | a DELETE keeps the schema's constraints |
| UrlsTable.Database.constructor | app/database.py:27-35 | a newly created table is empty, well formed, and hands out id 1 first |
| UrlsTable.Database.Insert | app/services/shortener_service.py:27-37 | the insert succeeds exactly when the code is absent, and then appends one row with the next id; on an IntegrityError the table is unchanged |
| UrlsTable.Database.UpdateUrl | app/services/shortener_service.py:74-79 | the table becomes the UPDATE's result, the counter is unchanged, and the rowcount is that of the code (at most one) |
| UrlsTable.Database.DeleteCode | app/services/shortener_service.py:93-95 | the table becomes the DELETE's result, the counter is unchanged, and the rowcount is that of the code (at most one) |
| ShortenerService.Truncate | app/services/shortener_service.py:26 | the code is a prefix of the generator output, eight characters long, or the whole output when that is shorter |
| ShortenerService.Candidate | app/services/shortener_service.py:26 | a candidate code is a prefix of the generator's output and has at most eight characters |
| ShortenerService.FirstFreeAttempt | app/services/shortener_service.py:25-37 | the attempt chosen is below ten, its candidate is free, and every earlier attempt collided; none is chosen exactly when all ten collide |
| ShortenerService.Create | app/services/shortener_service.py:20-39 | one create call reuses the code of the first row holding the URL; otherwise it inserts one row under the first free candidate of ten; otherwise it fails. A returned code is present afterwards. Either the table is unchanged or it gained exactly one row under a code that was absent. Failure happens exactly when no row holds the URL and all ten candidates collide, and it leaves the table unchanged |
| ShortenerService.CreateUsesTenCandidates | app/services/shortener_service.py:25-26 | create consults the generator only on its ten attempts: generators that agree on attempts 0 to 9 give the same outcome |
| ShortenerService.CreateShortUrl | app/services/shortener_service.py:6-39 | the loop leaves the table and answers exactly as the `Create` specification does, and keeps the schema's constraints |
| ShortenerService.GetOriginalUrl | app/services/shortener_service.py:42-57 | the lookup finds a URL exactly when the code is present, that URL belongs to a row with the code, and it equals the map's entry for the code; the table is only read |
| ShortenerService.UpdateOriginalUrl | app/services/shortener_service.py:60-79 | the result is true exactly when the code existed; afterwards the code maps to the new URL and every other code is unchanged; when the result is false nothing changes |
| ShortenerService.DeleteUrl | app/services/shortener_service.py:82-95 | the result is true exactly when the code existed; afterwards the code is absent and every other code is unchanged; when the result is false nothing changes |
| ShortenerService.CreateReusesExisting | app/services/shortener_service.py:20-23 | a URL already present gets the code of its first row in id order, and the table is unchanged |
| ShortenerService.CreateNew | app/services/shortener_service.py:25-39 | for a new URL, success appends exactly one row `(next id, url, code)`. The code was absent before and is the candidate of the first attempt that did not collide. Failure happens exactly when all ten candidates collide, and then leaves the table unchanged |
| ShortenerService.CreatedCodeShape | app/services/shortener_service.py:26 | a newly generated code is a prefix of one of the ten generator outputs, and has eight characters when those outputs have at least eight |
| ShortenerService.CreateWellFormed | app/services/shortener_service.py:25-37 | create keeps codes unique and ids ascending |
| ShortenerService.CreateIdempotent | app/services/shortener_service.py:20-33 | after a successful create, creating the same URL again, with any generator, returns the same code and changes nothing |
| ShortenerService.CreateRoundTrip | app/services/shortener_service.py:20-33 | after a successful create, the returned code maps to the given URL and every other code keeps its URL |
| ShortenerService.UpdateThenResolve | app/services/shortener_service.py:74-79 | after an update of a present code, that code resolves to the new URL |
| ShortenerService.DeleteTwice | app/services/shortener_service.py:93-95 | after a delete the code resolves to nothing, and a second delete hits no row and changes nothing |

## Left out

- Connection handling, schema creation and durability (`get_db`,
  `create_table`, `commit`): the model's table is always the committed
  state. Only the schema's constraints are carried over.
- Database errors other than `IntegrityError`, such as an unreachable or
  locked database file, are not modelled. In the source they propagate
  out of every operation, because only `IntegrityError` is caught
  (app/services/shortener_service.py:34). The model's operations always
  complete. The source retries on any `IntegrityError`; with a URL string
  that is never null, only the `code` constraint can raise one.
- The randomness of `shortuuid.uuid()`: the generator is a parameter.
  Nothing is assumed about its alphabet or its collision rate.
- Concurrency: calls are sequential. Two racing inserts of one code are
  not modelled. The unique constraint is stated as an invariant instead.
- The HTTP layer in `app/routers/shortener.py`: status codes, the 307
  redirect, and the catch-all exception handler. Its calls pass no
  database argument to the service, and that wiring is not modelled.
- URL validation and normalisation by the request schema (`HttpUrl`). The
  core receives an already validated string and compares URLs by exact
  string equality.
- Logging, configuration loading and application start-up.
