# A model of Corvus and what is proved about it

Corvus is an HTTP gateway over PostgreSQL and Redis. This project models its stateful components in
Dafny and proves what they are for. Each component is written twice: as objects whose methods follow
the C++ code command by command, and as a state machine over values. The methods are proved against
the state machine, and the theorems are about every run of it.

- **Versioned cache-aside** (`common.dfy`, `cache_*.dfy`, `resource_service.dfy`). Readers and writers
  of one resource interleave their commands to PostgreSQL and Redis in any order; commands may be
  refused, never arrive, or lose their reply after taking effect; a writer may crash between its commit
  and its eviction; Redis may drop a body or a version counter. Facts the program cannot see (which
  commit a cached row was read from, which evictions took effect, whether the counter vanished under an
  outstanding version) are carried along as data.
- **Cursors and pagination** (`base64.dfy`, `base64_alphabet.dfy`, `cursor.dfy`, `pagination.dfy`, `walk.dfy`). The base64
  loops run on a 32-bit accumulator that wraps; pages are walked while other transactions insert,
  update and delete rows.
- **Rate limiter** (`rate_limiter.dfy`, `token_bucket.dfy`, `rate_theorems.dfy`, `rate_eviction.dfy`,
  `rate_predictions.dfy`).
  Times and tokens are real numbers, and calls take the lock in the order of their clock readings.
- **Connection pool** (`pool_state.dfy`, `pg_pool.dfy`). Every critical section is one step; connections
  break at any moment, and handles are moved and destroyed.
- **API-key cache** (`api_key_*.dfy`). HMSET and EXPIRE are separate commands with everything else free
  to happen in between. The system clock, Redis and PostgreSQL share one clock.
- **Credentials** (`scopes.dfy`, `authenticator.dfy`). The two credential checks are arbitrary functions.
- **Migrations** (`migrations.dfy`, `migration_theorems.dfy`). A run may stop at any point, in particular
  between executing a migration and recording it.

Times are integers in milliseconds, except in the rate limiter. A key with an expiry still exists at
the instant of its expiry.

Some things the code does not always do. Each has a run that shows it and the exact condition:

- A reader's version can be matched by count after the counter was lost, so a superseded row can be
  cached (`CacheReuse.TokenReuseReachable`). For a reader about to store this can still happen exactly
  if the counter reads less than the version it holds, or equals it although a commit newer than its
  row has been evicted, and the row is still there or, if it was removed, enough evictions that catch
  up with the version are still to come (`CacheReuse.PoisonedIffCounterBehindToken`).
- With a version lifetime that is not positive an eviction leaves no counter behind, and superseded rows
  can be cached without any loss (`CacheReuse.PositiveTtlIff`).
- A page walk hands a resource out twice exactly if an update moves a resource it already handed out
  below its cursor, which takes a decreasing updated_at (`Walk.RepeatsIffMovedBelowCursor`).
- Eviction of idle rate-limit buckets changes results, and breaks the rate bound, unless a bucket
  refills within its idle time (`RateEviction.EvictionInvisibleIff`, `RateEviction.RateBoundIff`);
  `retry_after` overestimates the wait unless one token does (`RatePredictions.RetryAfterIsExactIff`),
  and `remaining` is exact unless the client's bucket is about to be evicted before it is full
  (`RatePredictions.RemainingIsExactIff`).
- The staleness bound of accepted API keys fails for exactly those outcomes of HMSET and EXPIRE that cut
  a store short (`ApiKeyExposure.CutShortBreaksIff`). Not every such store does harm: a state leads to a
  late acceptance exactly if the cached entry has no time to live, or one that ends too late, and no
  EXPIRE is to come (`ApiKeyExposure.BreachFollowsIffExposed`), and the steps that bring a run into such
  a state are characterised exactly (`ApiKeyExposure.ExposingStepIff`). On a missing key the entry then
  lives for ever (`ApiKeyExposure.CutShortNeverExpires`); on a key that an earlier validation's entry
  serves a lost HMSET is harmless (`ApiKeyExposure.OwnEntryShields`).
- A completed migration run does not mean that every file's SQL ran, unless versions are distinct
  (`MigrationTheorems.CompletionCoversIff`).
- A cursor round-trips only for non-empty parts without a bar in the first (`Cursor.CursorRoundTrip`).

## Model

| member | source | states |
|---|---|---|
| Cache.KeysCollide | src/db/cache_aside.cpp:14-22 | body keys and version keys collide exactly when the body's key is "ver:" followed by the other key |
| Cache.ResourceKeysDoNotCollide | src/resources/resource_service.cpp:13-16 | for client ids without a colon no resource's body shares a key with a version counter, and distinct resources have distinct keys |
| Cache.Redis.EvalPutIfVersion | src/db/cache_aside.cpp:26-35 | the script stores exactly when the visible version is the expected one, with the given time to live, and touches no other key |
| Cache.Redis.EvalInvalidate | src/db/cache_aside.cpp:37-42 | the script raises the visible version by one, re-arms its expiry and drops the body, and touches no other key |
| Cache.StoreMeaning | src/db/cache_aside.cpp:27-34 | a row stored under the visible version is seen for exactly its time to live, and under any other version nothing changes |
| Cache.EvictMeaning | src/db/cache_aside.cpp:37-42 | after an eviction no row is seen, and for the version lifetime the version is one higher |
| Cache.CacheAside.EnsureConnected | src/db/cache_aside.cpp:45-67 | a broken connection is retried no earlier than one second after the last failure, and a failure sets the next attempt |
| Cache.CacheAside.Get | src/db/cache_aside.cpp:69-88 | a delivered read returns the live body; every failure is a miss |
| Cache.CacheAside.Version | src/db/cache_aside.cpp:192-209 | a delivered read returns the live counter, 0 for a missing or expired one; every failure is no version |
| Cache.CacheAside.PutIfVersion | src/db/cache_aside.cpp:211-246 | the entry is stored if the command takes effect under the expected version, even when the answer is false because the reply was lost; keys that share no Redis key with this one are untouched |
| Cache.CacheAside.InvalidateVersioned | src/db/cache_aside.cpp:248-277 | true only if the eviction took effect; it may take effect although the answer is false; keys that share no Redis key with this one are untouched |
| CacheSafety.NextKeepsInv | src/resources/resource_service.cpp:30-90 | every step of every reader, writer, clock or server keeps the invariant: readings are true, and a version that was never lost and is still current proves that no newer commit was evicted |
| CacheTheorems.CacheNeverStale | src/db/cache_aside.cpp:26-42 | for every positive version lifetime, in every run in which no store is accepted under a version whose counter was lost since it was read, the cached row was read from the table and no commit whose eviction took effect is newer |
| CacheTheorems.QuiescentCacheIsCurrent | src/resources/resource_service.cpp:30-90 | in such a run, once every update and removal has had its eviction take effect, the cache holds nothing or exactly the current row |
| CacheTheorems.GetSeesSettledWrites | src/resources/resource_service.cpp:30-90 | in such a run, a get that starts after an evicted write returns that write or a newer state of the row |
| CacheTheorems.InstalledFor60Seconds | src/resources/resource_service.cpp:43-45 | a store under the current version answers delivered reads for exactly 60 s, and a hit does not renew it |
| CacheTheorems.BoundedStaleness | src/resources/resource_service.cpp:33-46 | in every run whatever, what a get returns was the row's value at some instant in the last 60 s + d, d bounding the time from table read to store |
| CacheTheorems.TimelyInstallIsFresh | src/db/cache_aside.cpp:192-277 | for every positive version lifetime and unless Redis evicts counters, a store accepted before the captured counter's expiry never installs a row that a completed eviction has superseded |
| CacheTheorems.FreshKeyInstallIsFresh | src/db/cache_aside.cpp:37-42 | for a key without a counter that deadline is the full version time to live after the version was read, because every increment re-arms the expiry |
| CacheReuse.PoisonedIffCounterBehindToken | src/db/cache_aside.cpp:27-28 | for any reader about to store: some continuation lets it install a superseded row if and only if the counter reads less than its version, or equals it although a newer commit's eviction took effect, and the row is still there or enough evictions are pending to catch up, one of them newer than its row unless such a one took effect already |
| CacheReuse.PositiveTtlIff | src/db/cache_aside.cpp:252-263 | the version lifetime is positive if and only if no run without such a store caches a superseded row |
| CacheReuse.TokenReuseReachable | src/db/cache_aside.cpp:37-42 | a reachable run: version 1 is read, the counter is evicted, one update brings it back to 1, and the old row is stored |
| ResourceService.ResourceService.Get | src/resources/resource_service.cpp:30-47 | with others' steps between any two of its commands, get is a run of the protocol and returns what its reader found; while the connection is up its own commands are exactly cache read, version, table read and conditional store, in this order until it has its answer; and if no store is accepted under a version whose counter was lost it answers with a state at least as new as every write evicted before it began |
| ResourceService.ResourceService.Update | src/resources/resource_service.cpp:54-76 | on success its own commands are the commit of the new row and one eviction, whose outcome is what the network makes of it while the connection is up; once it takes effect no body is left and the commit counts as evicted; a conflict or missing row commits nothing |
| ResourceService.ResourceService.Remove | src/resources/resource_service.cpp:78-90 | the same for the removal of the row; a missing row commits nothing |
| Base64.Encode | src/resources/resource_repository.cpp:44-70 | the loop over the wrapping accumulator computes the encoding of section 4 of RFC 4648 for every byte string |
| Base64Alphabet.AlphabetMeaning | src/resources/resource_repository.cpp:34-37 | the letters are exactly the characters A-Z, a-z, 0-9, + and / in this order, and the padding is = |
| Base64Alphabet.QuantumValue | src/resources/resource_repository.cpp:48-60 | four sextets read as one number are three octets read as one number |
| Base64.AdditionDoesNotOverflow | src/resources/resource_repository.cpp:51-51 | after the wrapping shift, adding the next byte never overflows 32 bits |
| Base64.BuildTable | src/resources/resource_repository.cpp:74-79 | the table maps every byte to its value in the alphabet, or -1 |
| Base64.Decode | src/resources/resource_repository.cpp:72-97 | the loop over the wrapping accumulator computes the octets packed from the alphabet characters, ignoring all others |
| Base64.RoundTrip | src/resources/resource_repository.cpp:44-97 | decoding the encoding of any byte string gives it back |
| Base64.ForeignBytesIgnored | src/resources/resource_repository.cpp:86-87 | inserting or removing bytes outside the alphabet, padding included, anywhere does not change the decoding |
| Base64.DecodedLength | src/resources/resource_repository.cpp:88-94 | n alphabet characters decode to floor(6n/8) bytes |
| Cursor.DecodeCursor | src/resources/resource_repository.cpp:110-119 | decoding a cursor is splitting its decoded text at the first bar |
| Cursor.ParseCursorMeaning | src/resources/resource_repository.cpp:113-118 | a text is accepted with two parts exactly when it is a non-empty bar-free part, a bar and a non-empty part |
| Cursor.CursorRoundTrip | src/resources/resource_repository.cpp:99-119 | decode(encode(ts, id)) gives back (ts, id) exactly when both are non-empty and ts has no bar |
| Pagination.DescendingUnique | src/resources/resource_repository.cpp:191-191 | the result order is the only one that is strictly descending in (updated_at, id) and holds the same rows |
| Pagination.CursorPointsBack | src/resources/resource_repository.cpp:183-189 | the cursor made from a row starts the next page right after that row |
| Pagination.Repository.Select | src/resources/resource_repository.cpp:172-194 | one query returns the first n matching rows below the cursor, in descending order, all of them this client's and of the kind and status asked for |
| Pagination.Repository.List | src/resources/resource_repository.cpp:167-213 | by the fields of the rows: only this client's rows of the kind and status asked for, below the cursor, later and greater ids first, none left out, as many as the limit between 1 and 200 allows; has_more is true exactly if such rows remain, and next_cursor points at the last row; a malformed cursor is an error |
| Walk.NoResourceTwice | src/resources/resource_repository.cpp:183-211 | a walk amid inserts, deletes and updates that never decrease updated_at never emits a resource twice |
| Walk.RepeatsIffMovedBelowCursor | src/resources/resource_repository.cpp:183-191 | with updates that may set any updated_at: a walk without repetition so far will repeat a resource exactly when one it emitted now matches at a position below its cursor |
| Walk.UntouchedRowExactlyOnce | src/resources/resource_repository.cpp:183-211 | a finished walk emits every matching row that was untouched throughout exactly once, whatever updates do to other rows |
| Walk.PagesConcatenate | src/resources/resource_repository.cpp:172-212 | on an unchanged table the pages, whatever their limits, concatenate to the filtered rows in descending order |
| Walk.WalkTerminates | src/resources/resource_repository.cpp:196-212 | on an unchanged table a walk ends after at most as many fetches as there are rows, having emitted exactly the filtered rows |
| RateLimiter.RateLimiter.Refill | src/gateway/rate_limiter.cpp:92-107 | saturating refill over the elapsed time, nothing for a clock that did not advance |
| RateLimiter.RateLimiter.MaybeCleanup | src/gateway/rate_limiter.cpp:109-129 | the erase loop removes exactly the buckets idle longer than the entry's time to live, and only when a cleanup is due |
| RateLimiter.RateLimiter.Allow | src/gateway/rate_limiter.cpp:18-46 | cleanup, then create or refill, then pay; the whole new state |
| RateLimiter.RateLimiter.Remaining | src/gateway/rate_limiter.cpp:48-62 | the whole tokens a client would find, without changing the bucket |
| RateLimiter.RateLimiter.RetryAfter | src/gateway/rate_limiter.cpp:64-84 | the predicted wait, without changing the bucket |
| RateTheorems.LevelLater | src/gateway/rate_limiter.cpp:92-107 | saturating refill composes over split intervals |
| RateTheorems.AfterIsValid | src/gateway/rate_limiter.cpp:18-46 | in every reachable state token counts stay within the bucket and no time lies ahead of the clock |
| RateTheorems.EvictionInvisible | src/gateway/rate_limiter.cpp:109-129 | if idle buckets are full before they may be evicted, every run gives the results of the limiter that never evicts |
| RateTheorems.ClientSeesPlainBucket | src/gateway/rate_limiter.cpp:18-46 | a client's results depend only on its own calls: they are those of one plain token bucket |
| TokenBucket.WindowBound | src/gateway/rate_limiter.cpp:92-107 | a plain bucket grants in any window at most its size plus what the window refills |
| RateTheorems.RateBound | src/gateway/rate_limiter.cpp:18-46 | in any run of the real limiter the calls granted to one client at times in [s, t] number at most max_tokens + refill_rate*(t-s) |
| RateTheorems.DeniedCallsDoNotMatter | src/gateway/rate_limiter.cpp:39-45 | removing any denied calls from a run leaves every other result unchanged |
| RateEviction.EvictionInvisibleIff | src/gateway/rate_limiter.cpp:109-129 | eviction changes no result of any run if and only if entry_ttl*refill_rate >= max_tokens |
| RateEviction.RateBoundIff | src/gateway/rate_limiter.cpp:18-46 | the rate bound holds in every run for every client and window if and only if entry_ttl*refill_rate >= max_tokens |
| RatePredictions.RemainingIsExactIff | src/gateway/rate_limiter.cpp:48-62 | remaining is the number of immediate calls that succeed before the first denial, if and only if the next call does not evict the client's bucket while it is not full |
| RatePredictions.FullBucketsAreNotReset | src/gateway/rate_limiter.cpp:48-62 | if idle buckets are full before they may be evicted, remaining is exact in every state |
| RatePredictions.RetryAfterIsExact | src/gateway/rate_limiter.cpp:64-84 | if entry_ttl*refill_rate >= 1, then whatever other clients do, a call d whole seconds later succeeds if and only if d is at least the prediction |
| RatePredictions.RetryAfterIsExactIff | src/gateway/rate_limiter.cpp:64-129 | retry_after is exact in this sense for every client in every reachable state if and only if entry_ttl*refill_rate >= 1 |
| PgPool.PgPool.Open | src/db/pg_pool.cpp:40-64 | a pool opens exactly for a valid configuration whose first connections succeed, and otherwise reports the first problem |
| PgPool.PgPool.Acquire | src/db/pg_pool.cpp:75-125 | the loop between two waits, with dead connections and failed reconnects, makes exactly the specified choice and hands out one handle for it |
| PgPool.PgPool.ReturnConnection | src/db/pg_pool.cpp:151-165 | an open connection goes to the end of the queue, a closed one leaves the count |
| PgPool.PgConnection.Destroy | src/db/pg_pool.cpp:13-19 | a handle that holds a connection gives it back once; an empty one does nothing |
| PgPool.PgConnection.MoveFrom | src/db/pg_pool.cpp:21-24 | the connection moves to the new handle and the old one is empty |
| PgPool.PgConnection.AssignFrom | src/db/pg_pool.cpp:26-38 | the target's connection is given back first, then the source's moves; self-assignment does nothing |
| PoolState.NextKeepsInv | src/db/pg_pool.cpp:13-165 | every critical section and every breaking connection keeps the count, the ownership and the lending account |
| PoolState.PoolStaysConsistent | src/db/pg_pool.cpp:75-165 | in every interleaving total = idle + lent <= max, every open connection has exactly one owner, and every lend was returned once or is still out |
| PoolState.AllReturnedAtTheEnd | src/db/pg_pool.cpp:13-38 | once all handles are gone, lends and returns balance for every connection |
| PoolState.AcquireOutcome | src/db/pg_pool.cpp:79-124 | acquire waits if and only if all max_connections are lent; it fails to connect if and only if there is room, no idle connection is open and every attempt fails |
| PoolState.AcquiredIsOpen | src/db/pg_pool.cpp:83-118 | what is handed out is open and held by nobody else: the open connection that waited longest, or a new one |
| PoolState.ReturnedIsLast | src/db/pg_pool.cpp:85-86 | first in, first out: a connection given back is handed out again after exactly those that were waiting before it |
| PoolState.AssignMeaning | src/db/pg_pool.cpp:26-38 | move assignment returns what the target held and nothing else, and leaves other handles alone |
| ApiKeyProtocol.CacheTtlRange | src/auth/api_key_validator.cpp:43-53 | a minute without an expiry, otherwise the whole seconds left until the expiry, up to its rounding, but at least 1 s and at most 60 s |
| ApiKeyProtocol.OthersKeepCall | src/auth/api_key_validator.cpp:186-228 | a call's progress depends on its own commands only |
| ApiKeyValidator.ApiKeyValidator.FromCache | src/auth/api_key_validator.cpp:134-167 | one retry after a broken connection; seeded entries are ignored when a lookup is installed |
| ApiKeyValidator.ApiKeyValidator.Lookup | src/auth/pg_api_key_lookup.cpp:8-41 | the row is found exactly if its active flag is set and its expiry is absent or later than now |
| ApiKeyValidator.ApiKeyValidator.StoreInCache | src/auth/api_key_validator.cpp:169-184 | exactly the commands HMSET and, if it is confirmed, the time to live computed then and EXPIRE, in this order; whatever fails never changes the answer |
| ApiKeyValidator.ApiKeyValidator.Validate | src/auth/api_key_validator.cpp:186-228 | validate is a run of the protocol whose own commands are exactly cache read, lookup, HMSET and EXPIRE in this order until it has its answer; it answers as its call ends, never without a client, and an accepted key meets the staleness bounds in every orderly run |
| ApiKeyTheorems.NextKeepsEntryOk | src/auth/api_key_validator.cpp:169-184 | every step keeps: an entry's writer has yet to expire it, or it has expired, or its expiry is bounded by a recent lookup |
| ApiKeyTheorems.AcceptedWasUsable | src/auth/api_key_validator.cpp:134-228 | with a lookup and stores that are whole, a key accepted at t had a row with its active flag set and an expiry absent or still to come at some instant in [t - (60 s + d), t], and a row with the returned client and scopes at some instant in [t - (60 s + 2d), t] |
| ApiKeyTheorems.RevokedIsRefused | src/auth/api_key_validator.cpp:134-228 | a key whose row is missing or inactive from some commit on is not accepted later than 60 s + d after it |
| ApiKeyExposure.UnexposedRunsAreSafe | src/auth/api_key_validator.cpp:134-228 | the same for runs with any cut-short stores, as long as no state is exposed |
| ApiKeyExposure.BreachFollowsIffExposed | src/auth/api_key_validator.cpp:134-184 | a state leads to an acceptance in breach of the bounds, by whole steps in time, if and only if it is exposed |
| ApiKeyExposure.ExposingStepIff | src/auth/api_key_validator.cpp:169-184 | the steps that expose a state are exactly a lost HMSET reply or an ineffective last EXPIRE on a key whose time to live does not end in time |
| ApiKeyExposure.OwnEntryShields | src/auth/api_key_validator.cpp:172-178 | a lost HMSET is harmless on a key that a client's entry written from the table already serves |
| ApiKeyExposure.CutShortBreaksIff | src/auth/api_key_validator.cpp:169-184 | two outcomes of HMSET and EXPIRE can break the bounds, in runs whose other stores are whole, if and only if HMSET takes effect and no effective EXPIRE follows |
| ApiKeyExposure.StoreLeaves | src/auth/api_key_validator.cpp:169-184 | the entry an undisturbed store leaves on a missing key, on one with and on one without a time to live, for all outcomes of its commands |
| ApiKeyTheorems.ExpiryRespected | src/auth/api_key_validator.cpp:43-53 | a key whose expiry is never changed is not accepted later than 1 s + d past it |
| ApiKeyExposure.CutShortNeverExpires | src/auth/api_key_validator.cpp:175-178 | after any cut-short store on a missing key, a key revoked at once is accepted after any time |
| ApiKeyExposure.StoreLeavesImmortalEntryIff | src/auth/api_key_validator.cpp:172-183 | a store leaves an entry without a time to live exactly if it is cut short on a key that has none, or has no effect on one that has none |
| Scopes.ParseScopes | src/auth/authenticator.cpp:14-34 | the loop returns exactly the maximal separator-free runs |
| Scopes.SeparatorsMeaning | src/auth/authenticator.cpp:20-20 | a comma, a blank or a tab between two names separates them, any other character joins them |
| Scopes.UnionOfParts | src/auth/authenticator.cpp:14-34 | parsing two lists joined by a separator gives the union of both parses |
| Scopes.JoinRoundTrip | src/auth/authenticator.cpp:14-34 | joining non-empty separator-free names and parsing gives exactly these names |
| Authenticator.Authenticate | src/auth/authenticator.cpp:36-120 | succeeds exactly with good credentials - a key the check knows, a token after "Bearer " bound to the same client - that grant "read" for GET, HEAD and OPTIONS and "write" for every other verb; good credentials without that scope are forbidden; errors come in the order of the checks |
| Authenticator.BothIffEach | src/auth/authenticator.cpp:95-105 | both credentials together authenticate if and only if each alone does for that method and both name the same client; the scopes are the intersection |
| Authenticator.EveryCredentialGrants | src/auth/authenticator.cpp:41-120 | every scope of a principal was granted by every credential presented, so a second credential never widens access |
| Authenticator.RefusalKinds | src/auth/authenticator.cpp:64-117 | unavailable exactly if the key store could not be asked, forbidden exactly if only the method's scope is missing |
| Migrations.NameMeaning | src/db/migration_runner.cpp:21-30 | the names selected are exactly digits, an underscore, a non-empty rest without line breaks, and .sql |
| Migrations.ReadsDecimal | src/db/migration_runner.cpp:33-33 | reading the decimal text of n, with any leading zeros, gives n |
| Migrations.MigrationRunner.Discover | src/db/migration_runner.cpp:17-55 | every regular file named by a number becomes a migration of that version with the file's content, smaller numbers first, or the first problem met: a number above 64 bits, an unreadable or an empty file |
| Migrations.MigrationRunner.Apply | src/db/migration_runner.cpp:149-178 | the SQL takes effect before the version is recorded, and the run may stop in between |
| Migrations.MigrationRunner.ApplyPending | src/db/migration_runner.cpp:103-126 | the loop over the migrations against the versions recorded at its beginning, wherever it stops |
| Migrations.MigrationRunner.Migrate | src/db/migration_runner.cpp:103-126 | discovery in numeric order and loop together; a bad directory changes nothing |
| Migrations.ListedMeaning | src/db/migration_runner.cpp:21-48 | discovery finds exactly the migrations of the matching regular files, unless one of them has a problem |
| MigrationTheorems.DiscoveredOrders | src/db/migration_runner.cpp:49-54 | with distinct file names a run works through an ascending listing of the directory without repetition |
| MigrationTheorems.RunExecutesOnlyUnrecorded | src/db/migration_runner.cpp:103-126 | a run executes in ascending order, re-executes nothing recorded before it began, and returns how many it executed |
| MigrationTheorems.RecordedImpliesExecuted | src/db/migration_runner.cpp:149-178 | after any runs that stop anywhere, a recorded version has had its SQL executed |
| MigrationTheorems.CompletedMeansDone | src/db/migration_runner.cpp:103-126 | after a completed run no run over the same directory changes anything, and each returns 0 |
| MigrationTheorems.RetriesFollowTheOrder | src/db/migration_runner.cpp:49-178 | with distinct versions, however runs die, SQL is executed in the directory's order, only the migration at which a run died may repeat, and nothing repeats if no run dies between SQL and record |
| MigrationTheorems.CompletionCoversIff | src/db/migration_runner.cpp:103-126 | "a completed run leaves no migration unexecuted" holds of a directory if and only if its versions are distinct |

## Left out

- Cache.CacheAside.Version: versions are compared as numbers, the script compares their decimal text; INCR's 64-bit overflow is not modelled.
- Cache.CacheAside.Get: bodies are never empty, so the extra EXISTS query for empty values is not modelled.
- ResourceService.ResourceService.Get: JSON is a lossless encoding of the row; a cached body that does not parse is not modelled.
- ResourceService.ResourceService.Update: a name conflict is an input, the uniqueness constraint itself is not modelled; `create` never touches the cache and appears only as a step.
- Redis: bodies and counters are kept in two maps, which is sound for keys that share no Redis key, like all resource keys (`Cache.KeysCollide`, `Cache.ResourceKeysDoNotCollide`); client ids are taken to contain no colon, as they are UUIDs.
- `put`, `get_or_fetch`, `invalidate`, `invalidate_prefix` and `exists` of the cache: unversioned and unused by the resource service.
- Monotone reads are not claimed: between a commit and its eviction one reader may see the new row and a later one the old.
- Walk.NoResourceTwice: assumes that updates never decrease a row's updated_at; the trigger writes the transaction's start time, so two overlapping transactions on one row could violate that, with the effect stated by Walk.RepeatsIffMovedBelowCursor.
- Pagination.Repository.Select: SQL text, quoting and query planning are replaced by their meaning on the set of rows; timestamp and id texts are an abstract injective encoding.
- Base64.Encode: shifts are those of C++20, modular to the left and arithmetic to the right.
- RateLimiter.RateLimiter.Allow: real numbers instead of doubles, so rounding is not modelled; clock readings are nondecreasing in lock order and the refill rate is not negative.
- RateLimiter.RateLimiter.RetryAfter: division by a zero refill rate, infinity in the source, is the value Forever.
- PgPool.PgPool.Acquire: waiting itself, fairness and the timeout, after which acquire gives up without looking again; only what happens between waits is modelled.
- PgPool.PgConnection.MoveFrom: all handles belong to one pool, and a moved-from handle's return function is empty; the pool's destructor and a handle outliving its pool are not modelled.
- ApiKeyValidator.ApiKeyValidator.Validate: SHA-256 and the key prefix (one key is modelled at a time), the validator's own idle connections and the constructor's five attempts.
- ApiKeyTheorems.AcceptedWasUsable: others seed a key by replacing its whole hash; a partial edit of an entry written by the validator would keep its src field. Without an installed lookup every live entry is accepted, and no bound is claimed.
- ApiKeyProtocol.CacheTtlRange: expires_at is rounded to the nearest second, ties upwards.
- Authenticator.Authenticate: messages are reduced to reasons; exceptions other than the three that are caught are not modelled, nor are the token's signature and expiry checks.
- Migrations.MigrationRunner.Discover: a version above 64 bits, which ends in an uncaught standard exception, is an error value; the library sort is modelled by an insertion sort of which only the order is used; failures to list the directory are not modelled.
- Migrations.MigrationRunner.Apply: a migration's SQL takes effect wholly or not at all, and records no version but possibly its own; two runners at a time are not modelled.
- HTTP handling, routes, middleware, proxies and forwarded addresses, health checks, the audit log, resource validation and configuration from the environment: plumbing without a hard property.
