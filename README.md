# go-shorturl: the URL resolution service and its store, in Dafny

This project models the core of a URL shortener. `ShortenURL` normalises a
long URL and derives an 8-character code from 6 random bytes. It saves the
record in a durable store, then writes the code-to-URL pair through to a
cache. `GetOriginalURL` resolves a code read-through: it tries the cache,
and on a miss it reads the store and backfills the cache. Either way it
schedules one asynchronous click increment. `GetStats` lists at most 10
records: those among the 10 most clicked that decode.

Modules:

- `Domain` (domain.dfy): the `Url` record (id, short code, long URL, clicks,
  creation time), the `Error` values, and `Option` and `Result`.
- `Base64Url` (base64url.dfy): the padded base64url encoder of section 5 of
  RFC 4648, as Go's `base64.URLEncoding` writes it. It comes with a strict
  decoder and the proof that decoding undoes encoding.
- `Repository` (repository.dfy): the Postgres repository as an in-memory
  `urls` table. It is a class `UrlTable` whose rows are a sequence kept in
  insertion order. The schema's constraints are checked explicitly:
  `short_code VARCHAR(10) UNIQUE`, `clicks INTEGER DEFAULT 0` (32-bit),
  `id SERIAL` and `created_at DEFAULT CURRENT_TIMESTAMP`. `ORDER BY clicks
  DESC LIMIT n` is a stable insertion sort followed by a cut. The scan loop
  of `GetTopURLs` is a `while` loop proved against the filter `Scanned`.
- `CachePort` (cache.dfy): the cache as a class over a map. `Set` may fail,
  and `Expire` removes an entry at any time, standing for the 24-hour TTL.
- `Services` (services.dfy): normalisation, code generation, and the class
  `UrlService`. It holds the table, the cache, and the list of spawned click
  increments that have not run yet (`pending`).

The service keeps one invariant, `UrlService.Valid`:

- every cache entry equals the store's long URL for that code;
- every pending increment names a stored code.

`ShortenURL`, `GetOriginalURL`, the goroutine (`RunPending`) and cache
expiry all preserve it. As a result, a resolved URL is always the stored one,
and `ShortenThenResolve` proves the shorten-then-resolve round trip.
Click counting is stated through `Owed(c)`, the stored clicks plus the
pending increments for `c`. A successful resolve raises it by exactly one.
Running a pending increment leaves it unchanged when the store is reachable
and the count is below the 32-bit maximum. Otherwise the increment is
lost: the table stays as it was and the click is dropped. So each
successful resolution raises `Owed` for its code by exactly one, and each
increment that lands moves one unit from pending to stored. The model proves
these per-step facts, not their sum over N steps.

Each call to a gateway that can fail takes a `reachable` flag. The random
bytes, the service clock (`now`) and the database clock (`dbNow`) are
parameters. The rows whose scan fails are given as a set of ids
(`corrupt`).

What the code does, as opposed to what one might expect of it; the model
follows the code:

- `ShortenURL` returns the record it built, not the stored row. Its id is 0
  and its time is the service clock. The store assigns its own id and
  `created_at`.
- `rand.Read`'s error is ignored (url_service.go:46), so there is no entropy
  failure.
- A code that already exists surfaces as the store's error. There is no
  retry.
- The store rejects a long URL holding the NUL character, so `ShortenURL`
  fails for such a URL even though it is never validated. It rejects a
  looked-up short code holding NUL the same way, so `GetOriginalURL`
  returns that error on a cache miss, not NotFound.

## Model

| member | source | states |
|---|---|---|
| Services.Normalize | internal/core/services/url_service.go:27-29 | the result always starts with http:// or https://; an input that already does is returned unchanged; any other input becomes exactly "https://" + input |
| Services.NormalizeIdempotent | internal/core/services/url_service.go:27-29 | normalising twice equals normalising once |
| Services.NormalizeKeepsNul | internal/core/services/url_service.go:27-29 | the normalised URL holds a NUL exactly when the given one does |
| Services.GenerateShortCode | internal/core/services/url_service.go:44-48 | the code of 6 bytes has exactly 8 characters, all from A-Z a-z 0-9 '-' '_' with no '=' padding, and the cut to 8 keeps the whole encoding |
| Services.ShortCodeInjective | internal/core/services/url_service.go:44-48 | different 6-byte inputs give different codes |
| Services.ShortCodeFitsColumn | internal/config/config.go:51 | every generated code fits short_code VARCHAR(10) unchanged and holds no NUL, so the store never rejects it for its text |
| Base64Url.EncodeSextet | internal/core/services/url_service.go:47 | every 6-bit value maps to a character of the URL-safe alphabet |
| Base64Url.DecodeChar | internal/core/services/url_service.go:47 | a character decodes exactly when it is in the URL-safe alphabet, so '=' never does |
| Base64Url.Encode | internal/core/services/url_service.go:47 | EncodeToString's output is whole groups of four characters, each one from the alphabet or '=' |
| Base64Url.EncodeLength | internal/core/services/url_service.go:47 | n bytes encode to 4 * ceil(n / 3) characters, so 6 bytes give 8 |
| Base64Url.EncodeUnpadded | internal/core/services/url_service.go:47 | when the byte count is a multiple of 3, every character is from the alphabet (no padding) |
| Base64Url.DecodeEncode | internal/core/services/url_service.go:47 | decoding the encoding of any byte string gives back that byte string |
| Base64Url.GroupRoundTrip | internal/core/services/url_service.go:47 | joining the four sextets of a 3-byte group gives back each of the three bytes |
| Base64Url.DecodeGroupOfEncodeGroup | internal/core/services/url_service.go:47 | the four characters of a complete group decode to its three bytes |
| Base64Url.DecodeFinalOne | internal/core/services/url_service.go:47 | a final group of two characters and "==" whose unused bits are zero decodes to one byte |
| Base64Url.DecodeFinalTwo | internal/core/services/url_service.go:47 | a final group of three characters and "=" whose unused bits are zero decodes to two bytes |
| Base64Url.DecodeEncodeOne | internal/core/services/url_service.go:47 | a single byte survives encoding and decoding |
| Base64Url.DecodeEncodeTwo | internal/core/services/url_service.go:47 | two bytes survive encoding and decoding |
| Base64Url.DecodeAppendGroup | internal/core/services/url_service.go:47 | a complete group in front of a decodable string decodes to the group's bytes followed by that string's bytes |
| Base64Url.DecodeEncodeGroup | internal/core/services/url_service.go:47 | if the bytes after the first three round-trip, the whole byte string does |
| Base64Url.EncodeInjective | internal/core/services/url_service.go:47 | equal encodings come from equal byte strings |
| Services.UrlService.ShortenURL | internal/core/services/url_service.go:26-42 | an unreachable store gives Unavailable; with a reachable store the call succeeds exactly when the URL holds no NUL, the id sequence is not exhausted and the code is new, whatever the cache does, and otherwise returns InvalidText, IdsExhausted or DuplicateCode in that order of precedence; on an error neither table, id sequence nor cache changes; on success the id sequence advances by one; on success the result has the generated code, the normalised URL and 0 clicks, the table gains that one row, the cache gains code -> URL only if its write succeeded, and the cache invariant holds |
| Services.UrlService.GetOriginalURL | internal/core/services/url_service.go:54-70 | on a cache hit the cached value comes back whatever the store's state, the cache is unchanged and exactly one increment is scheduled; on a miss an unreachable store gives Unavailable, a code holding NUL gives InvalidText and an absent code gives NotFound, each with no cache write and no increment; on a miss with the code present the stored URL comes back, the cache is backfilled when its write succeeds and one increment is scheduled; any URL returned is the stored one; the table is not changed and the cache invariant holds |
| Services.UrlService.SpawnIncrement | internal/core/services/url_service.go:57 | a spawned increment (here and at line 68) is recorded once, raising the clicks owed to that code by exactly one and to no other code |
| Services.UrlService.RunPending | internal/core/services/url_service.go:68 | running a spawned increment removes it from the pending ones and keeps the table's length and id sequence; with a reachable store and a count below the INTEGER maximum it raises exactly that code's row by one and leaves the clicks owed to every code unchanged; otherwise the table is unchanged and the click is lost |
| Services.UrlService.GetStats | internal/core/services/url_service.go:50-52 | the result is the store's top listing with limit 10: at most 10 records in non-increasing order of clicks; the cache is not touched |
| Services.UrlService.ExpireCached | internal/adapters/cache/redis_cache.go:20-22 | an entry expiring keeps the cache invariant |
| Services.UrlService.constructor | internal/core/services/url_service.go:19-24 | a service over a table and a cache that agree satisfies the invariant, with nothing pending |
| Services.ShortenThenResolve | internal/core/services/url_service.go:37-69 | with a reachable store, shortening succeeds exactly when the URL holds no NUL, ids remain and the code is new; after a successful ShortenURL(u), resolving its code returns the normalised u, whether the cache entry was written, expired, or the cache read failed |
| Services.AgreementSurvivesGrowth | internal/core/services/url_service.go:40-67 | a cache that agrees with the table keeps agreeing while rows are only appended and their clicks raised |
| Services.CountRemove | internal/core/services/url_service.go:68 | running one pending increment lowers that code's pending count by exactly one and no other |
| Services.AgreementAfterSet | internal/core/services/url_service.go:67 | writing the stored long URL of a code into an agreeing cache keeps it agreeing |
| Services.AllStoredSurvives | internal/core/services/url_service.go:62-68 | while rows are only appended and their clicks raised, every code of a spawned increment stays stored, also after one of them has run |
| Services.OwedKeptByIncrement | internal/core/services/url_service.go:68 | running one pending increment on its stored row leaves the clicks owed to every code unchanged |
| Repository.UrlTable.Save | internal/adapters/repositories/postgres_repository.go:20-24 | fails with Unavailable, InvalidText (a NUL in either value), IdsExhausted (the SERIAL sequence is past 2147483647), ValueTooLong (a code longer than 10 with anything but spaces past the 10th character) or DuplicateCode (the stored code is present), in that order, and leaves the table unchanged; otherwise appends exactly one row with the code as the column stores it, the URL, the next id, 0 clicks and the store's clock, ignoring the caller's id, clicks and time |
| Repository.UrlTable.GetByShortCode | internal/adapters/repositories/postgres_repository.go:26-37 | an unreachable store gives Unavailable; a code holding NUL is rejected with InvalidText; otherwise a row with the requested code comes back exactly when one exists, and NotFound when none does |
| Repository.UrlTable.IncrementClicks | internal/adapters/repositories/postgres_repository.go:39-43 | an unreachable store gives Unavailable and a code holding NUL gives InvalidText, both changing nothing; otherwise it raises the matching row's clicks by exactly 1 and changes nothing else; no matching row is a no-op without error; a count at the INTEGER maximum fails and changes nothing |
| Repository.UrlTable.GetTopURLs | internal/adapters/repositories/postgres_repository.go:45-65 | a negative limit or an unreachable store is an error; otherwise the result is the sorted, limited query result without the rows that fail to scan, in query order: at most limit rows, in non-increasing order of clicks, each one a stored row |
| Repository.UrlTable.constructor | internal/config/config.go:48-55 | the table starts empty with the id sequence at 1 |
| Repository.ColumnValue | internal/config/config.go:51 | VARCHAR(10) accepts a value exactly when it fits or has only spaces past the 10th character; a value that fits is stored unchanged, and an over-long one is cut to exactly 10 characters, only spaces being cut |
| Repository.Find | internal/adapters/repositories/postgres_repository.go:27 | the WHERE clause: a position whose row has the code, or none when no row has it |
| Repository.FindUnique | internal/config/config.go:51 | under the UNIQUE constraint the matching row is the only one |
| Repository.GrowsKeepsLongUrl | internal/adapters/repositories/postgres_repository.go:20-43 | since statements only insert rows or raise clicks, a stored code keeps its long URL |
| Repository.BumpClicksOf | internal/adapters/repositories/postgres_repository.go:40 | `clicks = clicks + 1` on one row changes the count of that row's code by one and of no other code, and keeps codes unique |
| Repository.InsertWellFormed | internal/adapters/repositories/postgres_repository.go:20-24 | inserting a new code that fits VARCHAR(10), with the next id and 0 clicks, keeps the schema's constraints and only appends |
| Repository.BumpWellFormed | internal/adapters/repositories/postgres_repository.go:39-43 | raising one count below the INTEGER maximum keeps the schema's constraints and changes no code or URL |
| Repository.InsertBehind | internal/adapters/repositories/postgres_repository.go:46 | the step of the ordering: a sorted insertion behind a larger first row stays sorted |
| Repository.InsertByClicks | internal/adapters/repositories/postgres_repository.go:46 | inserting into a listing ordered by clicks keeps it ordered and adds exactly that row |
| Repository.SortByClicks | internal/adapters/repositories/postgres_repository.go:46 | ORDER BY clicks DESC returns a permutation of the rows in non-increasing order of clicks |
| Repository.ScannedFilters | internal/adapters/repositories/postgres_repository.go:56-64 | the scan loop keeps exactly the rows that decode |
| Repository.ScannedAppend | internal/adapters/repositories/postgres_repository.go:56-64 | the scan loop keeps rows in query order: scanning two consecutive parts of a query result gives the kept rows of the first part followed by those of the second |
| Repository.ScannedKeepsOrder | internal/adapters/repositories/postgres_repository.go:56-64 | a listing in non-increasing order of clicks stays in that order after the scan loop drops rows |
| Repository.Scanned | internal/adapters/repositories/postgres_repository.go:56-64 | the rows kept by the scan loop are no more than the queried rows, and each is a queried row that decodes |
| Repository.TopRows | internal/adapters/repositories/postgres_repository.go:46 | ORDER BY clicks DESC LIMIT n gives at most n rows in non-increasing order of clicks, drawn from the table (as a multiset), and all of them when the table has no more than n |
| Repository.TopRowsAreTop | internal/adapters/repositories/postgres_repository.go:46 | the listing for LIMIT n has exactly min(n, number of rows) rows, and no row left out has more clicks than any row kept |
| Repository.PrefixHoldsTop | internal/adapters/repositories/postgres_repository.go:46 | cutting a listing ordered by clicks after n rows leaves out exactly the rows after the cut, none with more clicks than a row kept |
| Repository.TopListingBounded | internal/adapters/repositories/postgres_repository.go:46-64 | the listing for limit n has at most n rows, ordered by clicks, each one a queried row that decodes |
| CachePort.Cache.Set | internal/core/ports/repositories.go:17 | a reachable cache stores key -> value; an unreachable one returns Unavailable and stores nothing |
| CachePort.Cache.Get | internal/core/ports/repositories.go:18 | returns the live value exactly when the key is present, CacheMiss when it is absent, Unavailable when the cache cannot be reached |
| CachePort.Cache.Expire | internal/adapters/cache/redis_cache.go:21 | an entry disappears, as when its 24-hour expiry passes |

## Left out

- HTTP handling, templates, configuration, connection setup and wiring
  (http_handler.go, config.go apart from the schema, main.go) are not part
  of this model.
- Goroutines run later, in any order, as `RunPending(i)`. Their interleaving
  with other requests and their detachment from the request's context are
  not modelled.
- Context deadlines and cancellation are not modelled. A failed call is a
  `reachable` flag, not a timeout.
- The clocks (`time.Now`, `CURRENT_TIMESTAMP`) and `crypto/rand` are
  parameters.
- Postgres leaves the order of rows with equal clicks open. The model picks
  insertion order.
- Repository.UrlTable.Save: ids advance by one per successful insert, and a
  failed insert leaves the sequence where it was. A Postgres sequence also
  consumes a value on a failed insert (a duplicate or an over-long code),
  so real ids can have gaps the model does not have.
- Repository.UrlTable.Save: strings are sequences of characters, so a Go
  string holding invalid UTF-8, which Postgres rejects, cannot be expressed.
  Only the NUL character is modelled as rejected text.
- Repository.UrlTable.GetTopURLs: which rows fail to scan is an input (a set
  of ids). An error that ends the `rows.Next()` iteration early is not
  modelled. The code never checks `rows.Err()`, so such an error would
  return a shortened listing with no error.
- Repository.UrlTable.GetByShortCode: the single-row `Scan` never fails in
  the model. Only the listing's scan loop can meet a row that does not
  decode.
- The cache's 24-hour TTL has no clock. Expiry is the `Expire` operation,
  which may happen at any time. A failed Redis write is modelled as writing
  nothing.
- No uniqueness retry or URL validation exists in the code, so none is
  modelled.
