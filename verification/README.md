# Dashboard cache-aside core, modelled in Dafny

This project models the read path of a withdrawal dashboard backend:

- the serialization normaliser `safeSerialize`;
- the fail-open Redis port `CacheService`, with `get`, `set`, `delete` and `clear`;
- the cache-aside accessors of `UserModel`, `WithdrawalModel` and `UserBalanceModel` in `src/core/database/models.ts`;
- the pure part of five route handlers in `dist/index.js`: `/dashboard/users`, `/dashboard/withdrawals`, `/dashboard/withdrawals/status/:status`, `/dashboard/users/:id` and `/cached-data`.

Values are JavaScript values as the code sees them (`Json.J`). Rows come from PostgreSQL and may carry bigints and Dates.

- `Json.ToWire` models the trip through Redis text, that is `JSON.parse(JSON.stringify(v))`. A value holding a bigint, or `undefined` at the top, cannot be written.
- The cache is a map from key to entry. An entry holds the parsed JSON value, its TTL in seconds and the instant it was written. The clock is abstract, in whole seconds.
- Every Redis call may fault. The model receives each fault as a boolean, and the port swallows it.
- The database is a function from a query to its answer: rows, or a failure that rejects the accessor.
- Every cached accessor is one instance of a single protocol, `CacheAside.Step`, parameterised by:
  - the key;
  - the TTL;
  - the shape function turning rows into a value;
  - the fill condition.

Files and modules:

| file | module | contents |
|---|---|---|
| json.dfy | `Wrappers`, `Json` | values, truthiness, property reads, object spread, JSON text round trip |
| normalizer.dfy | `Normalizer` | `safeSerialize` as written and as intended |
| cache.dfy | `CacheService` | the Redis port |
| store.dfy | `Store` | queries and their answers |
| keys.dfy | `Keys` | cache keys and their injectivity |
| cache_aside.dfy | `CacheAside` | the generic cached read and the cache typing invariant |
| user_model.dfy, withdrawal_model.dfy, user_balance_model.dfy | `UserModel`, `WithdrawalModel`, `UserBalanceModel` | the accessors |
| routes.dfy | `Routes` | the handlers |

## Model

| member | source | states |
|---|---|---|
| Normalizer.SafeSerialize | src/core/database/models.ts:5-27 | safeSerialize as written. A bigint becomes the number with its value, and no bigint remains anywhere. A Date becomes `{}`. Null, undefined, booleans, numbers and strings are returned as they are. An array becomes its items serialized one by one, in order. An object becomes its members serialized one by one, under the same names in the same order. Truthiness is kept |
| Normalizer.Normalize | src/core/database/models.ts:5-27 | the corrected normaliser. A bigint becomes the number with its value, and no bigint remains anywhere. Every other scalar, a Date included, is unchanged. Array items and object members are normalised one by one, in order and under the same names. The tree keeps its shape and its truthiness |
| Normalizer.NormalizeFixesBigFree | src/core/database/models.ts:5-27 | a value tree without bigints is left exactly as it is |
| Normalizer.NormalizeIdempotent | src/core/database/models.ts:5-27 | normalising twice is the same as normalising once |
| Normalizer.NormalizeLookup | src/core/database/models.ts:18-23 | each property of the rebuilt object is the normalised property of the original, under the same key; absent keys stay absent |
| Normalizer.NormalizeStorable | src/core/database/models.ts:52-53 | anything other than undefined, once normalised, can be written to the cache |
| Normalizer.SafeSerializeIdempotent | src/core/database/models.ts:5-27 | safeSerialize as written is idempotent |
| Normalizer.SafeSerializeLookup | src/core/database/models.ts:18-23 | each property of the rebuilt object is safeSerialize of the original property |
| Normalizer.SafeSerializeAfterNormalize | src/core/database/models.ts:5-27 | for every value, safeSerialize of the corrected result equals safeSerialize of the original, so on a cache miss the value the code returns is safeSerialize of the value the model returns |
| Normalizer.SafeSerializeIsJsonValue | src/core/database/models.ts:5-27 | on a value with no undefined anywhere, safeSerialize as written gives a JSON value that can always be cached and reads back unchanged, so the code's cache hit returns exactly what its miss returned |
| Normalizer.SafeSerializeMatchesNormalize | src/core/database/models.ts:5-27 | on a value with no Date anywhere, safeSerialize as written and the corrected normaliser agree |
| Normalizer.SafeSerializeErasesDates | src/core/database/models.ts:18-23 | as written, a Date column comes back as `{}`; under the corrected normaliser it comes back as the Date, whose JSON text is its ISO string |
| Json.Lookup | src/core/database/models.ts:20-21 | a property read is undefined exactly when the key is absent; otherwise it returns a member that is present under that key |
| Json.PutLookup | src/core/database/models.ts:182-185 | after spreading in `k: v`, reading `k` gives `v` |
| Json.LookupMapped | src/core/database/models.ts:20-21 | rebuilding an object property by property with a function turns every property read into that function of the original read, and keeps absent keys absent |
| Json.PutExisting | src/core/database/models.ts:182-185 | overwriting a property keeps the property names and their order |
| Json.PutNew | src/core/database/models.ts:182-185 | a new property name is appended last |
| Json.PutNewAppends | src/core/database/models.ts:182-185 | spreading in a member that no existing one is named after gives the object with that member added at the end |
| Json.LookupPutOther | src/core/database/models.ts:182-185 | spreading one property in leaves every other property read unchanged |
| Json.Truthy | src/core/database/models.ts:47 | the hit test `if (cached)`: a value is falsy exactly when it is undefined, null, false, 0, 0n or the empty string; empty arrays and objects are truthy |
| Json.Defined | dist/core/cache/redis.js:27 | `JSON.stringify` writes exactly the members whose value is not undefined |
| Json.DefinedCounts | dist/core/cache/redis.js:27 | each defined member is written as many times as it occurs in the object, and no undefined member is written |
| Json.DefinedConcat | dist/core/cache/redis.js:27 | dropping undefined members works part by part, so the kept members stay in their order |
| Json.EncodeShape | dist/core/cache/redis.js:17-27 | `JSON.parse(JSON.stringify(·))`: null, booleans, numbers and strings are unchanged; a Date becomes its ISO string; an array keeps its length, with undefined items read back as null; an object keeps exactly its defined member names, in order |
| Json.ToWire | dist/core/cache/redis.js:27 | a value cannot be written to the cache exactly when it is undefined or holds a bigint |
| Json.EncodeFixesJsonValues | dist/core/cache/redis.js:17 | a JSON value comes back unchanged from `JSON.parse(JSON.stringify(·))` |
| Json.EncodeLookup | dist/core/cache/redis.js:17 | a defined property of an object survives the text round trip, encoded, under the same key |
| Json.ToWireOfJsonValue | dist/core/cache/redis.js:17 | writing back a value that was read stores the same value |
| CacheService.Get | dist/core/cache/redis.js:14-23 | get returns null on a fault, on an absent or expired key and on an empty stored string; any non-null result is the parsed text of a live entry |
| CacheService.Set | dist/core/cache/redis.js:25-32 | set writes only its own key, with a default TTL of 3600; a fault, a value that cannot be stringified, or a TTL that is not positive leaves the cache unchanged |
| CacheService.Delete | dist/core/cache/redis.js:34-41 | delete removes its key and nothing else; a fault is swallowed |
| CacheService.Clear | dist/core/cache/redis.js:43-50 | clear empties the cache; a fault leaves it unchanged |
| CacheService.GetAfterSet | dist/core/cache/redis.js:14-32 | round trip: until the entry expires, get returns the JSON image of the value set |
| CacheService.GetAfterSetElsewhere | dist/core/cache/redis.js:25-32 | a set is invisible to reads of every other key |
| CacheService.GetAfterDelete | dist/core/cache/redis.js:34-41 | after a delete, the key reads as a miss |
| CacheService.GetAfterClear | dist/core/cache/redis.js:43-50 | after a clear, every key reads as a miss |
| CacheService.MissStaysMiss | dist/core/cache/redis.js:14-23 | entries only expire: a miss stays a miss at a later time unless something is written |
| CacheService.SetsCommute | dist/core/cache/redis.js:25-32 | writes to two different keys commute |
| Store.FirstOrNull | src/core/database/models.ts:50 | `rows[0] \|\| null` is null exactly when there are no rows, and otherwise the first row |
| Keys.Digits | src/core/database/models.ts:128 | the decimal text of a number is non-empty and all digits |
| Keys.ParseDigitsOfDigits | src/core/database/models.ts:128 | reading back the decimal text of a number gives the number |
| Keys.Decimal | src/core/database/models.ts:128 | `${limit}` is non-empty and starts with a minus sign exactly when the limit is negative |
| Keys.DecimalInjective | src/core/database/models.ts:128 | different limits give different `${limit}` texts |
| Keys.KeyOf | src/core/database/models.ts:44-211 | the cached reads are exactly those other than by email, by page, per-user withdrawals and per-user balance |
| Keys.KeyOfInjective | src/core/database/models.ts:44-211 | no two cached reads share a key |
| Keys.ExampleKeyIsFree | dist/index.js:201 | the key of the example endpoint is not the key of any accessor |
| CacheAside.Step | src/core/database/models.ts:43-54 | a cached read writes only its own key. On a truthy hit it returns the cached value with no query. On a miss it sends exactly its one query. It rejects exactly on a miss whose query fails, and then leaves the cache unchanged. On success it returns the shaped rows and fills the cache when the fill condition holds |
| CacheAside.ReadThrough | src/core/database/models.ts:57-60 | an uncached read leaves the cache unchanged, sends one query, and rejects exactly when the query fails |
| CacheAside.FirstNormalized | src/core/database/models.ts:50-53 | the result is null for no rows, otherwise the normalised first row |
| CacheAside.NormalizedRows | src/core/database/models.ts:70 | one normalised object per row, in order |
| CacheAside.StepFailOpen | dist/core/cache/redis.js:19-31 | when every cache call faults, a cached read answers exactly as reading the store directly would |
| CacheAside.StepRepeats | src/core/database/models.ts:46-53 | after a miss that filled the cache, the same read before expiry sends no query and returns the JSON image of the first result |
| CacheAside.SetKeepsWellTyped | src/core/database/models.ts:43-100 | writing a value of the read's kind under that read's key keeps every entry of the kind its read promises |
| CacheAside.StepKeepsWellTyped | src/core/database/models.ts:43-100 | a cached read keeps the cache well typed, and on a hit it returns a value of its kind |
| UserModel.FindById | src/core/database/models.ts:43-54 | key `user:{id}`, TTL 300; the cache is written only when a row was found; "not found" is null and leaves the cache unchanged |
| UserModel.FindByEmail | src/core/database/models.ts:57-60 | not cached; returns the normalised first row or null |
| UserModel.FindPaginated | src/core/database/models.ts:63-71 | not cached; returns one normalised object per row of the page |
| UserModel.CountOf | src/core/database/models.ts:80 | `parseInt` of the count column: its value for a number or a bigint, 0 for no row, null or absent |
| UserModel.Count | src/core/database/models.ts:74-84 | key `users_count`, TTL 120; the parsed count is written even when it is 0 |
| UserModel.CountByStatus | src/core/database/models.ts:87-100 | key `users_by_status`, TTL 120; the rows are written even when there are none |
| UserModel.FindByIdRepeats | src/core/database/models.ts:46-53 | a found user is served from the cache until expiry, with the same JSON and no query |
| UserModel.FindByIdNotFoundThenCreated | src/core/database/models.ts:49-53 | a miss is not cached, so a user created later is found on the next lookup |
| UserModel.ZeroCountIsRefetched | src/core/database/models.ts:76-82 | a count of 0 is written but, being falsy, is queried again on the next call |
| UserModel.EmptyStatusCountsAreCached | src/core/database/models.ts:89-98 | an empty breakdown `[]` is truthy and is served until it expires |
| UserModel.UncachedUserReadsIgnoreCache | src/core/database/models.ts:57-71 | the reads by email and by page do not depend on the cache |
| UserModel.UserReadsWellTyped | src/core/database/models.ts:43-100 | the user reads keep the cache well typed and return a user object or null, a number, and an array |
| WithdrawalModel.FindByUserId | src/core/database/models.ts:117-124 | not cached; one normalised object per withdrawal row |
| WithdrawalModel.FindRecent | src/core/database/models.ts:127-140 | key `recent_withdrawals:{limit}`, TTL 60; the rows are written unconditionally |
| WithdrawalModel.CountByStatus | src/core/database/models.ts:143-156 | key `withdrawals_by_status`, TTL 120; the rows are written unconditionally |
| WithdrawalModel.GetDashboardStats | src/core/database/models.ts:159-189 | key `dashboard_stats`, TTL 60; on a miss it returns, and writes, the aggregate row stamped with the current instant |
| WithdrawalModel.Snapshot | src/core/database/models.ts:182-185 | the aggregate row with the fill instant spread in is an object, has no bigint, and can always be written to the cache |
| WithdrawalModel.SnapshotTimestamp | src/core/database/models.ts:182-185 | the snapshot is a bigint-free object whose `timestamp` is the instant of the fill |
| WithdrawalModel.SnapshotColumns | src/core/database/models.ts:182-185 | every other column of the snapshot is the normalised aggregate column |
| WithdrawalModel.DashboardStatsKeepFillTime | src/core/database/models.ts:159-189 | until expiry, later calls report the instant of the fill, not their own, and send no query |
| WithdrawalModel.EmptyRecentIsCached | src/core/database/models.ts:129-138 | an empty recent list is served from the cache until it expires |
| WithdrawalModel.FindRecentSeparatesLimits | src/core/database/models.ts:128 | filling the list for one limit never changes what another limit reads |
| WithdrawalModel.FindRecentWellTyped | src/core/database/models.ts:127-140 | keeps the cache well typed and returns an array |
| WithdrawalModel.CountByStatusWellTyped | src/core/database/models.ts:143-156 | keeps the cache well typed and returns an array |
| WithdrawalModel.DashboardStatsWellTyped | src/core/database/models.ts:159-189 | keeps the cache well typed and returns an object |
| UserBalanceModel.FindByUserId | src/core/database/models.ts:204-207 | not cached; returns the normalised first balance row or null |
| UserBalanceModel.TotalOf | src/core/database/models.ts:216 | `Number(result[0]?.total \|\| 0)`: 0 for no row or a falsy total; a number or bigint as its value; true as 1 |
| UserBalanceModel.GetTotalPlatformBalance | src/core/database/models.ts:210-220 | key `total_platform_balance`, TTL 300; the total is written even when it is 0 |
| UserBalanceModel.ZeroTotalIsRefetched | src/core/database/models.ts:212-218 | a total of 0 is written but queried again on the next call |
| UserBalanceModel.NonZeroTotalIsCached | src/core/database/models.ts:212-218 | a non-zero total is served from the cache until it expires |
| UserBalanceModel.BalanceReadsWellTyped | src/core/database/models.ts:210-220 | keeps the cache well typed and returns a number |
| Routes.PageParams | dist/index.js:89-91 | page defaults to 1; limit defaults to 50 and is capped at 100; offset skips every earlier page |
| Routes.NextPageFollows | dist/index.js:91 | page n+1 starts where page n ends |
| Routes.CeilDiv | dist/index.js:107 | `Math.ceil(total / limit)` is the integer bracketing total between two consecutive multiples of limit, for either sign of limit |
| Routes.PagesOf | dist/index.js:107 | `Math.ceil(total / limit)` of what the count read returned: for a number, null when the limit is 0 and otherwise the ceiling, bracketed for either sign of the limit; any other total gives null (its JavaScript coercion is left out) |
| Routes.Pages | dist/index.js:107 | pages is null exactly when the limit is 0, and otherwise the ceiling of total / limit |
| Routes.PageCountSign | dist/index.js:107 | no rows give 0 pages; any row gives at least one |
| Routes.PageHoldsRows | dist/index.js:91-107 | a page holds rows exactly when its number is at most the page count |
| Routes.UsersRoute | dist/index.js:88-110 | the first query is the page query. The handler succeeds exactly when all three reads resolve. The body's `users`, `total` and `by_status` are exactly what `findPaginated`, `count` and `countByStatus` returned. The cache is the one the two cached reads leave, and only their two keys change. A body reports the paging parameters and a page count that brackets the total |
| Routes.UsersRouteFails | dist/index.js:92-96 | the handler fails exactly when one of its three reads reaches the store and the store fails |
| Routes.UsersRouteWellTyped | dist/index.js:97-108 | over a well-typed cache, the total is a number, the breakdown is an array, and a positive limit yields a page count |
| Routes.CountsCommute | dist/index.js:92-96 | the two concurrent cached reads give the same results and the same cache in either order |
| Routes.RecentLimit | dist/index.js:118 | the limit defaults to 100 and is capped at 500 |
| Routes.LengthOf | dist/index.js:122 | for a value that is not null or undefined (on which `.length` throws): the element count of an array, the length of a string, the `length` property of an object, and undefined for a number or a boolean |
| Routes.WithdrawalsRoute | dist/index.js:117-124 | returns what `findRecent(limit)` returns, with `total` as its length; fails exactly when the accessor rejects |
| Routes.WithdrawalsRouteTotal | dist/index.js:119-122 | over a well-typed cache, the list is an array and `total` is its length |
| Routes.HasStatus | dist/index.js:166 | `w.status === status` holds only of an object with a `status` member, never of null or undefined |
| Routes.Filterable | dist/index.js:166 | `filter` runs to the end exactly on an array holding neither null nor undefined |
| Routes.FilterByStatus | dist/index.js:166 | the filter keeps exactly the elements with the status, each as often as in the input |
| Routes.FilterConcat | dist/index.js:166 | filtering a concatenation filters each part |
| Routes.FilterKeepsMatching | dist/index.js:166 | a list whose every element matches is kept whole |
| Routes.FirstResults | dist/index.js:170 | `slice(0, 100)` is the prefix of the matches of length min(count, 100): exactly the first 100 when there are more, all of them otherwise |
| Routes.StatusRoute | dist/index.js:157-173 | an unknown status is refused with no cache or store access. Otherwise the handler filters the 1000 most recent withdrawals by status. It returns exactly the first min(count, 100) matches, in order, and the full match count. It fails exactly when the scan rejects or cannot be filtered |
| Routes.StatusRouteMissResolves | dist/index.js:165-166 | on a miss that the store answers, filtering never throws |
| Routes.UserDetailsRoute | dist/index.js:131-150 | "not found" is reported exactly when the user is falsy. Otherwise the body carries the user `findById` returned, the balance (zeros when absent), exactly the withdrawals `findByUserId` returned, and their count. The handler fails exactly when one of the reads rejects |
| Routes.UnknownUserNotFound | dist/index.js:137-142 | a user that does not exist is reported as not found, and the cache is left unchanged |
| Routes.CachedDataRoute | dist/index.js:200-226 | a truthy hit is returned as coming from the cache, unchanged. Otherwise the fixed payload is written for 300 seconds and returned as coming from the database. No other key changes |
| Routes.CachedDataRepeats | dist/index.js:203-220 | after a fill, requests before expiry get the same payload from the cache |
| Routes.CachedDataLeavesAccessorsAlone | dist/index.js:201 | the example endpoint never changes what an accessor reads |
| Routes.CachedDataKeepsWellTyped | dist/index.js:200-220 | the example endpoint keeps the cache well typed |

## Left out

- The Redis client, its connection settings and `testRedisConnection` are left out. The model sees the client only through its outcome: a fault flag per call, and entries that expire by TTL.
- The PostgreSQL driver and SQL semantics are left out. `src/core/database/postgres.ts` is not part of this model. Each query's answer is a free function of the query: filtering, ordering, `COUNT`, `GROUP BY` and `COALESCE(SUM(...))` are not modelled.
- Numbers are integers. Floating point, `Number(bigint)` precision loss, and decimal strings from `numeric` columns are not modelled.
- The query parameters `page` and `limit` arrive already through `parseInt`, as `Option<int>`. A NaN result from a non-numeric parameter is not modelled.
- `Promise.all` runs its accessors one after another in the model. `Routes.CountsCommute` shows the order of the two cached reads of `/dashboard/users` does not matter. The other reads of that handler are uncached.
- The wall clock is a parameter. It gives seconds for the TTL and ISO text for timestamps. On the cache-hit path of `/cached-data`, the `timestamp` taken when the response is built is the same instant.
- Logging, the framework's error hook and 404 handler, CORS and Swagger are not modelled.
- The remaining endpoints are not modelled:
  - `/` (dist/index.js:233-249) returns a constant and calls nothing;
  - `/test/:name` (dist/index.js:251-256) echoes its parameter with a timestamp;
  - `/health` (dist/index.js:48-61) calls the database and Redis connection tests, which are outside this model;
  - `/dashboard/stats` (dist/index.js:70-80) spreads `getDashboardStats()` and adds a wall-clock response time;
  - `/dashboard/balance-summary` (dist/index.js:180-191) returns `getTotalPlatformBalance()` and the two `countByStatus()` reads with a timestamp.
  The last two only compose accessors modelled here.
- Response bodies are datatypes whose fields are the members of the JSON object each handler returns. Rendering them as JSON objects, with member names and fixed messages, is not modelled.
- The default arguments of `findPaginated(limit = 50, offset = 0)` and `findRecent(limit = 100)` are left out, because every caller in the modelled handlers passes them explicitly.
- UserModel.FindById: returns and caches the first row under the corrected `Normalize`, which keeps Date columns as Dates. The code returns and caches `safeSerialize` of that row, which turns them into `{}` (see Findings). On a miss, `Normalizer.SafeSerializeAfterNormalize` shows the code's value is `SafeSerialize` of the modelled value, and `Normalizer.SafeSerializeMatchesNormalize` shows the two agree on rows without Dates. On a hit they differ for a row with a Date: the model returns the JSON image of the normalised row, with the Date as its ISO text, while the code returns the `{}` it cached. `Normalizer.SafeSerializeIsJsonValue` shows the code's hit returns exactly what its miss returned.
- UserModel.FindByEmail: returns the corrected `Normalize` of the row. The code's Date columns are `{}` instead; `Normalizer.SafeSerializeAfterNormalize` and `Normalizer.SafeSerializeMatchesNormalize` relate them; this read never uses the cache.
- UserModel.FindPaginated: returns the corrected `Normalize` of each row. The code's `created_at` is `{}` instead; `Normalizer.SafeSerializeAfterNormalize` and `Normalizer.SafeSerializeMatchesNormalize` relate them; this read never uses the cache.
- WithdrawalModel.FindByUserId: returns the corrected `Normalize` of each row. The code's Date columns are `{}` instead; `Normalizer.SafeSerializeAfterNormalize` and `Normalizer.SafeSerializeMatchesNormalize` relate them; this read never uses the cache.
- WithdrawalModel.FindRecent: returns and caches the corrected `Normalize` of each row. The code returns and caches `{}` for Date columns; the lemmas named under `UserModel.FindById` relate them, on a miss and on a hit.
- UserBalanceModel.FindByUserId: returns the corrected `Normalize` of the balance row. The code's Date columns are `{}` instead; `Normalizer.SafeSerializeAfterNormalize` and `Normalizer.SafeSerializeMatchesNormalize` relate them; this read never uses the cache.
- CacheAside.FirstNormalized: normalises with the corrected `Normalize`, not `safeSerialize` as written, for the reason given under Findings.
- CacheAside.NormalizedRows: normalises with the corrected `Normalize`, not `safeSerialize` as written, for the reason given under Findings.
- Routes.UserDetailsRoute: carries the user, balance and withdrawals of the accessors above, so its Date columns follow the corrected normaliser.
- UserModel.CountOf: covers a count column holding a number, a bigint, null or nothing. It does not cover a string, a boolean, an array or an object, for which the code's value depends on JavaScript's `toString` and `parseInt` (a string's leading digits, `[12]` giving 12, NaN for most others); the model gives 0 for all of them and does not compute that coercion.
- UserBalanceModel.TotalOf: covers a total column holding a number, a bigint, a boolean, null or nothing. It does not cover a string, an array or an object, for which the code's value depends on JavaScript's `Number` coercion (a numeric string or `[5]` converts); the model gives 0 for them and does not compute that coercion.
- Routes.LengthOf: the length of a string counts characters, not UTF-16 code units.
- Routes.PagesOf: gives null for a total that is not a number. JavaScript coerces such a total before dividing (`"100"/50` gives 2, `true/50` gives 1, `[]/50` gives 0); the model does not compute that coercion.
- Routes.UsersRoute: when the count read returns something that is not a number, the page count is null, as under `Routes.PagesOf`. The model does not compute JavaScript's coercion of that value.
- Empty results: an empty result of `findRecent`, `countByStatus` and `getDashboardStats` is written to the cache like any other result, because the code writes unconditionally. The model follows the code. Only `findById` skips the write when nothing was found.

## Findings

| source | as written | input that shows it | evidently intended | confidence | as-written member | corrected member |
|---|---|---|---|---|---|---|
| src/core/database/models.ts:18-23 | `safeSerialize` sends every `typeof data === 'object'` value through `Object.entries`, Dates included | a user row whose `created_at` is a Date: it comes back as `{}` and is cached as `{}` | a Date passes through, and JSON writes it as its ISO text | not executed; high (a Date has no own enumerable properties) | Normalizer.SafeSerializeErasesDates | Normalizer.NormalizeFixesBigFree |
