# FraiseQL: verified models

Dafny models of the stateful and the order-sensitive parts of FraiseQL, with proofs of what they
promise over whole runs. `dafny verify dfyconfig.toml` checks everything.

| file | what it models |
|---|---|
| `RateLimiter.dfy`, `LimiterRuns.dfy` | the keyed rate limiter: fixed windows, the periodic sweep, the capacity cap; runs of any interleaving of callers |
| `GlobMatch.dfy`, `QueryCache.dfy` | the greedy `*` matcher against real globs; the TTL cache against its operation history |
| `Canonical.dfy`, `ParityCompare.dfy` | `normalise` as a canonical form up to reordering; which divergences the comparison script reports |
| `TokenClient.dfy` | the single-flight token refresh as a step system: one step per piece of code between awaits |
| `PkceStore.dfy` | the one-shot PKCE stores, in memory and in Redis |
| `ArrowPipeline.dfy` | JSON rows to typed cells to columns, and the two schema inferences |
| `ClickHouseSink.dfy`, `Subscriptions.dfy` | batching with retries; event delivery and its filters |
| `Rbac.dfy` | role evaluation |
| `StableSort.dfy`, `Strings.dfy`, `Wrappers.dfy` | the library operations these use |

Objects that the source updates in place are classes here; each method is tied to a
specification function or relation (`Step`, `Apply`, `Next`, `Memory`, `Redis`, `Run`), and the
theorems are about all runs of those. Clocks, random keys, hash-map order, network answers and
the outcome of inserts are inputs, so every theorem holds for all of them.

Where the code and its documentation disagree, the model follows the code:

- The limiter's documentation speaks of a sliding window; a window restarts only when it has
  expired, so up to `2 * max_requests - 1` requests pass within one window-length (`BurstBound`,
  `BurstIsTight`).
- A comment says that new keys are denied at the cap; the code evicts an oldest entry.
- With `max_requests = 0` a swept key and an expired one are treated differently; the condition
  under which the sweep cannot be noticed, at any capacity, is `SweepUnobservableExactly`.
- `ab*bc` matches `abc`, because the last literal may overlap the others (`OverlapIsAccepted`,
  `GlobIsMatchThatFits`).
- The `except TypeError` branch of `normalise` cannot be reached: both sorts compare strings.
- The comparison script calls files identical that have no item in common: it skips items
  missing from either side (`CompareCategory`).
- Every failed refresh attempt is reported once (`AttemptsAreReportedOnce`), but the `catch` around
  the expiry check also catches a failed refresh and starts a second attempt: a refused call
  reports once exactly when its token could not be read, and twice when it was about to expire
  (`RefusalIsReportedOnceExactly`). And a refresh in flight undoes a logout
  (`LogoutIsFinalExactly`).
- The two stages of the row pipeline agree on no timestamp unit (`NoTimestampPasses`), and
  columns of the GraphQL types DateTime, Time and Decimal carry no values
  (`GraphqlTypesThatCarryValues`).
- Integers that do not fit i64 pass the service as doubles and are rounded; which values read back
  as they were is `QueryReadsBackExactly`.
- A filter written for equality or inequality is misread when its operator occurs earlier too, when
  an equality contains ` != `, when the value begins or ends with a quote, and when the field is
  empty or has spaces around it; otherwise it means what it says (`WrittenFilterExactly`).

## Model

| member | source | states |
|---|---|---|
| RateLimiter.KeyedRateLimiter.Check | crates/fraiseql-auth/src/rate_limiting.rs:264-332 | one call is exactly one `Step` of the specification: it sweeps when the wrapping call counter is a multiple of 1000, evicts only a newcomer's oldest rival at capacity, decides the key's record by the three cases, and touches nothing when disabled |
| RateLimiter.KeyedRateLimiter.OldestKey | crates/fraiseql-auth/src/rate_limiting.rs:295-297 | returns an entry whose window starts no later than any other's |
| RateLimiter.KeyedRateLimiter.MakeRoom | crates/fraiseql-auth/src/rate_limiting.rs:290-304 | evicts only for a new key at a positive cap that is reached, and then exactly one oldest entry |
| RateLimiter.KeyedRateLimiter.Serve | crates/fraiseql-auth/src/rate_limiting.rs:306-331 | changes the key's own record only, as decided by the three cases, with RateLimited carrying the window length |
| RateLimiter.KeyedRateLimiter.Clear | crates/fraiseql-auth/src/rate_limiting.rs:344-350 | forgets all records and keeps the call counter |
| LimiterRuns.AnswersAreOwn | crates/fraiseql-auth/src/rate_limiting.rs:264-332 | in every run at every capacity with a non-decreasing clock, the answers a key gets are those it would get alone since it was last evicted or cleared, although sweeps depend on everyone's calls |
| LimiterRuns.KeyIndependence | crates/fraiseql-auth/src/rate_limiting.rs:110-112 | two unbounded runs in which a key asks at the same times answer it alike, whatever other keys do |
| LimiterRuns.SweepsDoNotMatter | crates/fraiseql-auth/src/rate_limiting.rs:283-304 | at every capacity, runs with the same calls, any two sweep schedules and the same rule for breaking ties between oldest entries give the same answers |
| LimiterRuns.SameLiveEntries | crates/fraiseql-auth/src/rate_limiting.rs:283-331 | such runs hold the same unexpired entries after every call, although swept and unswept maps evict at different moments |
| LimiterRuns.EvictionIsLive | crates/fraiseql-auth/src/rate_limiting.rs:283-304 | an eviction takes an unexpired entry exactly where a limiter holding only the unexpired entries would, and the same one |
| LimiterRuns.SweepUnobservableExactly | crates/fraiseql-auth/src/rate_limiting.rs:283-331 | at every capacity the every-1000-calls sweep is unobservable against never sweeping if and only if the limiter is off, or max_requests is at least 1, or the window is 0 or u64::MAX |
| LimiterRuns.BurstBound | crates/fraiseql-auth/src/rate_limiting.rs:312-331 | in every run, between two moments at which the key is forgotten and while the clock stays below u64::MAX, any half-open interval of one window-length lets at most 2*max-1 requests of a key through (max where windows cannot be straddled) |
| LimiterRuns.BurstIsTight | crates/fraiseql-auth/src/rate_limiting.rs:264-332 | for every limiting configuration, capacity and key there is a run, sweeping on schedule, in which some window-length lets exactly the burst bound of the key's requests through |
| LimiterRuns.AnyTimesHaveARun | crates/fraiseql-auth/src/rate_limiting.rs:264-332 | every non-decreasing sequence of times is that of a key's requests in some run that sweeps on schedule |
| LimiterRuns.WindowAnswers | crates/fraiseql-auth/src/rate_limiting.rs:110-112 | of the requests inside one window exactly the first max_requests are allowed and the others are refused with the window's length |
| LimiterRuns.ExpiredPastIsForgotten | crates/fraiseql-auth/src/rate_limiting.rs:313-318 | from a request that finds the window expired on, the key is answered as if it were new |
| LimiterRuns.SaturatedClockAllowsAll | crates/fraiseql-auth/src/rate_limiting.rs:196-199 | with the clock at u64::MAX every request is allowed |
| LimiterRuns.CapacityIsKept | crates/fraiseql-auth/src/rate_limiting.rs:290-310 | in every run the map never holds more entries than a positive cap |
| LimiterRuns.EvictionNeedsACrowd | crates/fraiseql-auth/src/rate_limiting.rs:290-304 | a key evicted at cap m has been followed by requests of at least m distinct other keys no earlier than the start of its window |
| GlobMatch.MatchesPattern | crates/fraiseql-arrow/src/cache.rs:200-236 | without a star literal equality, else the cursor loop; it computes the specification `Matches` |
| GlobMatch.PlaceParts | crates/fraiseql-arrow/src/cache.rs:208-236 | the cursor loop places all parts but the last greedily and tests the last at the end; its slice index never leaves the query |
| GlobMatch.MatchesExactly | crates/fraiseql-arrow/src/cache.rs:200-236 | with a star in the pattern a query matches if and only if all literals but the last can be placed in order without overlap, the first at the start, and the query ends with the last |
| GlobMatch.GreedyIsLeast | crates/fraiseql-arrow/src/cache.rs:226-232 | exchange argument: if any placement of the middle literals exists the leftmost-greedy one exists and ends no later |
| GlobMatch.GlobExactly | crates/fraiseql-arrow/src/cache.rs:166-169 | a glob accepts a text if and only if its literals cover it from start to end in order without overlap |
| GlobMatch.GlobIsMatchThatFits | crates/fraiseql-arrow/src/cache.rs:200-236 | a query is accepted by the real glob if and only if the code matches it and the last literal fits behind the greedy end of the others; so the code accepts all the glob does |
| GlobMatch.OverlapIsAccepted | crates/fraiseql-arrow/src/cache.rs:221-225 | the code accepts abc for ab*bc and the glob does not |
| Strings.SplitJoins | crates/fraiseql-arrow/src/cache.rs:202-202 | the pieces of a split contain no separator and join back to the text |
| Strings.JoinSplits | crates/fraiseql-arrow/src/cache.rs:202-202 | splitting a join of separator-free pieces gives the pieces back |
| QueryCache.Cache.Get | crates/fraiseql-arrow/src/cache.rs:86-97 | returns the stored result exactly while now is before the expiry, and leaves the map alone |
| QueryCache.Cache.Put | crates/fraiseql-arrow/src/cache.rs:105-112 | stores the result with expiry now plus TTL and changes no other entry |
| QueryCache.Cache.Clear | crates/fraiseql-arrow/src/cache.rs:115-117 | leaves the empty map |
| QueryCache.Cache.InvalidateViews | crates/fraiseql-arrow/src/cache.rs:143-164 | leaves, unchanged, exactly the entries in whose query none of the names occurs anywhere, and returns the drop in size |
| QueryCache.Cache.InvalidatePattern | crates/fraiseql-arrow/src/cache.rs:178-197 | leaves, unchanged, exactly the entries whose query does not fit: its literals cannot be laid in order or it does not end with the last one (without a star: is not the pattern); returns the drop in size |
| QueryCache.GetAgreesWithHistory | crates/fraiseql-arrow/src/cache.rs:86-197 | after any operations a lookup returns v if and only if the last put of the query stored v, is younger than the TTL, and since then nothing cleared the cache, named a view occurring in the query, or gave a pattern that it fits |
| Canonical.CanonicalExactly | tools/compare_parity_schemas.py:46-55 | equal normal forms imply equality up to reordering at every depth; and all reorderings of a value share its normal form if and only if `str` tells different normalised siblings of every list apart |
| Canonical.NormaliseIsIdempotent | tools/compare_parity_schemas.py:46-55 | normalising twice is normalising once |
| Canonical.EqualNormalsAreSame | tools/compare_parity_schemas.py:46-55 | values with one normal form can be paired off, level by level |
| Canonical.SameHaveEqualNormals | tools/compare_parity_schemas.py:46-55 | a value whose siblings are told apart has the normal form of each of its reorderings |
| Canonical.ReorderingShows | tools/compare_parity_schemas.py:52-52 | a value with siblings not told apart has a reordering with another normal form, because the sort is stable |
| Canonical.NumberAndItsText | tools/compare_parity_schemas.py:52-52 | 1 and "1" as siblings: reordering them changes the normal form |
| Canonical.SortThenNormaliseMembers | tools/compare_parity_schemas.py:49-49 | sorting an object's items before or after normalising their values is the same |
| StableSort.StableSortIsUnique | tools/compare_parity_schemas.py:52-52 | an ordered stable rearrangement is unique, so the sorting algorithm does not matter |
| StableSort.SortIsStable | tools/compare_parity_schemas.py:52-52 | elements with equal keys keep their order |
| StableSort.LexExactly | tools/compare_parity_schemas.py:49-52 | strings compare by code point at their first difference, a prefix before what it begins |
| ParityCompare.SectionToList | tools/compare_parity_schemas.py:58-75 | the dict items of an array, or of an object with the key as name where none is given |
| ParityCompare.ExtractFields | tools/compare_parity_schemas.py:78-89 | by name, the required fields of every named item, the later of two same-named items counting |
| ParityCompare.ExtractByMembers | tools/compare_parity_schemas.py:58-89 | a name is extracted if and only if the file's section lists an item of it, and then the values are those members of the last such item, null where it has none; for array and object sections |
| ParityCompare.FormatsAgree | tools/compare_parity_schemas.py:5-7 | the array and the object format of the same items yield the same extraction |
| ParityCompare.DivergesExactly | tools/compare_parity_schemas.py:120-125 | two items diverge if and only if some field non-null in the reference differs by more than reordering (siblings told apart) |
| ParityCompare.ReportedExactly | tools/compare_parity_schemas.py:105-130 | an item is reported if and only if both files have it and some field non-null in the first differs by more than the order of lists and members (the first file's siblings told apart) |
| ParityCompare.ReportedByMembers | tools/compare_parity_schemas.py:58-130 | for valid files, a name is reported if and only if both sections list it and some compared field other than the name is a non-null member of the first file's item and no member of the other's item is the same up to order (the first file's siblings told apart) |
| ParityCompare.ComparedFields | tools/compare_parity_schemas.py:21-43 | which fields of which category are compared |
| ParityCompare.RequiredFieldsAreDistinct | tools/compare_parity_schemas.py:21-43 | no category lists a field twice |
| ParityCompare.CompareCategory | tools/compare_parity_schemas.py:113-130 | reports exactly the names whose filtered values have different normal forms; for valid files, exactly those that diverge by the members of the two files |
| ParityCompare.Compare | tools/compare_parity_schemas.py:105-130 | for every category and later file, exactly the names that diverge from the first file, also by the members of the files |
| TokenClient.AuthClient.GetValidTokens | examples/native-auth-app/client.ts:123-145 | up to its await a call is the specified step: without tokens it throws, with a good token it returns the stored tokens and changes nothing else, otherwise it enters the refresh inside or outside the try |
| TokenClient.AuthClient.RefreshTokens | examples/native-auth-app/client.ts:147-153 | joins the attempt in the slot, or fills the empty slot with a new attempt that it owns |
| TokenClient.AuthClient.PerformTokenRefresh | examples/native-auth-app/client.ts:169-185 | sends the stored refresh token once, or fails at once without sending |
| TokenClient.AuthClient.Resume | examples/native-auth-app/client.ts:155-167 | the owner stores or clears and reopens the slot in one step; a joiner changes nothing but itself |
| TokenClient.AuthClient.RetryAfterFailure | examples/native-auth-app/client.ts:139-142 | the catch branch enters the refresh again, this time unguarded |
| TokenClient.AuthClient.LogIn | examples/native-auth-app/client.ts:188-226 | login and register overwrite tokens and user |
| TokenClient.AuthClient.ClearAuth | examples/native-auth-app/client.ts:320-323 | drops tokens and user and leaves the slot alone |
| TokenClient.OneInFlight | examples/native-auth-app/client.ts:148-166 | in every interleaving at most one refresh request is in flight, and a filled slot always has its owner to reopen it |
| TokenClient.JoinersShareTheOutcome | examples/native-auth-app/client.ts:149-151 | all callers that waited for one attempt, the initiator included, get its tokens, or none of them does |
| TokenClient.NoTokenIsSentTwice | examples/native-auth-app/client.ts:155-166 | if every issued refresh token is new, no token is ever sent in two refresh requests |
| TokenClient.StoredExactly | examples/native-auth-app/client.ts:155-226 | in every interleaving the stored tokens are t if and only if the last event that overwrote them was a login with t or the end of a refresh that the server answered with t, or there was none and the storage began with t |
| TokenClient.GoodCallGetsStored | examples/native-auth-app/client.ts:123-145 | a call that returned without waiting was made with a good token and returned what was stored at that moment |
| TokenClient.WaitingCallGetsAnswer | examples/native-auth-app/client.ts:147-167 | a call that waited returned what the server answered to the attempt it waited for |
| TokenClient.ThrownCallFoundNothing | examples/native-auth-app/client.ts:124-128 | a call that threw without waiting found no stored tokens |
| TokenClient.SecondTryExactly | examples/native-auth-app/client.ts:131-142 | in every interleaving a failed attempt sends a waiting call into the catch branch if and only if its token was expiring and it has not been there before; otherwise the call throws |
| TokenClient.UserStays | examples/native-auth-app/client.ts:155-226 | the user is who logged in last, or none once a logout or a failed refresh ended the session |
| TokenClient.LogoutIsFinalExactly | examples/native-auth-app/client.ts:228-250 | after a logout no tokens reappear before the next login if and only if the slot was empty or its attempt had failed |
| TokenClient.AttemptsAreReportedOnce | examples/native-auth-app/client.ts:155-166 | in every state of every interleaving the reports are the failed attempts, less one while a failed attempt holds the slot because its owner has not resumed |
| TokenClient.RefusalIsReportedOnceExactly | examples/native-auth-app/client.ts:131-166 | a call that meets an idle client with stored tokens and is refused reports once if and only if its token is unreadable, twice if and only if it is expiring, never if and only if it is good; it sends the refresh token once at most and throws unless good |
| TokenClient.RefusedCallFinishes | examples/native-auth-app/client.ts:131-166 | such a call takes at most five steps and always has a next one until it has returned or thrown |
| TokenClient.FailedRefreshIsReportedTwice | examples/native-auth-app/client.ts:131-142 | the run of a new client that shows two reports for one request |
| TokenClient.UserHasTokens | examples/native-auth-app/client.ts:197-203 | no interleaving stores a user without tokens |
| PkceStore.InMemoryPkceStateStore.CreateState | crates/fraiseql-auth/src/pkce.rs:107-134 | stores the state under the internal key and returns the outbound token and verifier |
| PkceStore.InMemoryPkceStateStore.ConsumeState | crates/fraiseql-auth/src/pkce.rs:136-155 | removes the entry whatever its age, and tells unknown, expired and valid states apart |
| PkceStore.InMemoryPkceStateStore.CleanupExpired | crates/fraiseql-auth/src/pkce.rs:157-159 | keeps, unchanged, exactly the entries created at most a TTL ago |
| PkceStore.RedisPkceStateStore.CreateState | crates/fraiseql-auth/src/pkce.rs:218-255 | the same state and token in Redis |
| PkceStore.RedisPkceStateStore.ConsumeState | crates/fraiseql-auth/src/pkce.rs:257-300 | GETDEL: the entry is gone and is returned unless its time was over |
| PkceStore.BackendsAgree | crates/fraiseql-auth/src/pkce.rs:107-300 | driven by the same requests, keys and clock the two backends answer alike once StateExpired reads StateNotFound; inserting cleanups anywhere changes no other answer |
| PkceStore.ConsumeExactly | crates/fraiseql-auth/src/pkce.rs:136-155 | a token yields (verifier, uri) if and only if its key was created with them at most a TTL ago and has not been used or created again since |
| PkceStore.OneShot | crates/fraiseql-auth/src/pkce.rs:147-147 | after a consumption a key that is not created again never yields another Ok, by whatever token |
| PkceStore.CreateThenConsume | crates/fraiseql-auth/src/pkce.rs:107-155 | with sound encryption the token just issued yields its verifier and URI until the TTL is over, and StateExpired after |
| ArrowPipeline.ConvertDbRows | crates/fraiseql-arrow/src/db_convert.rs:64-91 | succeeds if and only if every cell is null, missing or of a kind and range its column takes; each cell is in place, null for null or missing, and otherwise stands for the row's value |
| ArrowPipeline.ConversionByKind | crates/fraiseql-arrow/src/db_convert.rs:94-195 | told by the kind of the JSON value: which columns take it, with the bounds of i32 and i64, and what it becomes: objects and arrays their own text, numbers and booleans theirs, parsed strings their day or microseconds |
| ArrowPipeline.ConversionKeepsExactly | crates/fraiseql-arrow/src/db_convert.rs:94-195 | an accepted value reads back as it was if and only if it is a string in a text column, a number in a date or timestamp column, a double in a float column, or in another column; else as its text, its parsed day or microseconds, or its rounded double |
| ArrowPipeline.AppendValue | crates/fraiseql-arrow/src/convert.rs:157-254 | appends a null or a value of the column's type, and rejects everything else |
| ArrowPipeline.AppendRow | crates/fraiseql-arrow/src/convert.rs:126-129 | appends one cell to every builder if and only if each accepts its own |
| ArrowPipeline.TryNew | crates/fraiseql-arrow/src/convert.rs:132-136 | builds a batch if and only if there is a column and no null where none is allowed |
| ArrowPipeline.ConvertBatch | crates/fraiseql-arrow/src/convert.rs:108-137 | succeeds exactly on empty input or well-typed rows of the right width under a buildable schema, and the columns are the transposed rows |
| ArrowPipeline.PipelineExactly | crates/fraiseql-arrow/src/convert.rs:108-254 | a table passes both stages if and only if it has a column and every cell is present with a convertible value of a shared type, or absent in a nullable buildable field |
| ArrowPipeline.NoTimestampPasses | crates/fraiseql-arrow/src/db_convert.rs:136-165 | no non-null timestamp of either unit passes both stages |
| ArrowPipeline.ConvertChunks | crates/fraiseql-arrow/src/flight_server/service.rs:605-611 | cutting the rows into batches of n, the last one shorter, changes neither success nor the joined columns |
| ArrowPipeline.RowsToBatches | crates/fraiseql-arrow/src/flight_server/service.rs:596-611 | both stages over chunks: success exactly when every cell passes, and the cell at (r, c) of the joined batches is the conversion of row r's field c |
| ArrowPipeline.InferSchemaFromRow | crates/fraiseql-arrow/src/metadata.rs:53-89 | fails exactly on an empty row, else one nullable field per column in any map order |
| ArrowPipeline.InferSchemaFromRows | crates/fraiseql-arrow/src/schema_gen.rs:107-126 | fails exactly without rows, else one nullable field per column of the first row |
| ArrowPipeline.ViewInferenceExactly | crates/fraiseql-arrow/src/metadata.rs:53-89 | under the registry's inference the inferring row passes end to end if and only if it has a column and no integer above i64::MAX |
| ArrowPipeline.ViewReadsBackExactly | crates/fraiseql-arrow/src/metadata.rs:53-89 | under the registry's inference every converted value of the inferring row reads back as it was unless it is an array or an object |
| ArrowPipeline.ValueInferenceExactly | crates/fraiseql-arrow/src/schema_gen.rs:107-152 | under the service's inference the first row passes end to end if and only if it has a column and no null |
| ArrowPipeline.ConvertQueryRows | crates/fraiseql-arrow/src/flight_server/service.rs:595-611 | inference and both stages over all rows: succeeds if and only if the first row has a column and no null and every later cell of its columns is absent or convertible to the first one's type; then each cell is in place and reads back exactly when it is of its column's kind |
| ArrowPipeline.QueryReadsBackExactly | crates/fraiseql-arrow/src/flight_server/service.rs:595-611 | of a result that passes, a null or missing cell is null and any other reads back as it was if and only if it is a string, a boolean in a boolean column, a double in a numeric column, or an integer in a column whose first value is an integer that fits i64 |
| ArrowPipeline.GraphqlTypesThatCarryValues | crates/fraiseql-arrow/src/schema_gen.rs:33-53 | a column of a GraphQL type can carry a value end to end if and only if the type is not DateTime, Time or Decimal |
| ArrowPipeline.GraphqlColumnCarries | crates/fraiseql-arrow/src/schema_gen.rs:33-53 | exactly which values a column of each GraphQL type carries end to end |
| ClickHouseSink.ProcessBatch | crates/fraiseql-arrow/src/clickhouse_sink.rs:370-475 | succeeds exactly when the eight columns are there with their types; then there is one row per row, and each of the eight fields holds the column of its name, null user and org ids as absent |
| ClickHouseSink.TransientExactly | crates/fraiseql-arrow/src/clickhouse_sink.rs:540-546 | an error is transient if and only if one of the five texts occurs in its message |
| ClickHouseSink.FlushBatch | crates/fraiseql-arrow/src/clickhouse_sink.rs:479-518 | succeeds if and only if some allowed attempt is accepted after only transient failures; stops at the first permanent one; returns the last error; sleeps 100*(2^made - 2) ms in all |
| ClickHouseSink.BackoffsFitExactly | crates/fraiseql-arrow/src/clickhouse_sink.rs:499-502 | every backoff that can be slept fits u64 if and only if max_retries is at most 58 |
| ClickHouseSink.RunSink | crates/fraiseql-arrow/src/clickhouse_sink.rs:334-367 | the receive and timeout loop computes the specified run |
| ClickHouseSink.RowsAreConserved | crates/fraiseql-arrow/src/clickhouse_sink.rs:334-475 | in every run flushed rows followed by the buffer are exactly the rows that arrived, in order; once the loop has returned, those that arrived before the unreadable batch, or up to the input whose flush failed |
| ClickHouseSink.BufferStaysShort | crates/fraiseql-arrow/src/clickhouse_sink.rs:345-348 | at every loop head fewer than batch_size rows wait, and no flush was empty |
| ClickHouseSink.LoopRunsExactly | crates/fraiseql-arrow/src/clickhouse_sink.rs:334-367 | the loop is still running if and only if every batch was readable and every flush that was due, at batch_size rows or at a timeout with rows waiting, succeeded |
| ClickHouseSink.TimeoutEmptiesBuffer | crates/fraiseql-arrow/src/clickhouse_sink.rs:357-364 | after a timeout that the loop survives no row is waiting |
| ClickHouseSink.FlushesAreFull | crates/fraiseql-arrow/src/clickhouse_sink.rs:345-348 | without timeouts no flush has fewer than batch_size rows |
| Subscriptions.SubscriptionManager.Subscribe | crates/fraiseql-arrow/src/subscription.rs:58-78 | replaces the subscription of the id with one on a new receiver |
| Subscriptions.SubscriptionManager.Unsubscribe | crates/fraiseql-arrow/src/subscription.rs:81-87 | ends the subscription and says whether there was one |
| Subscriptions.SubscriptionManager.BroadcastEvent | crates/fraiseql-arrow/src/subscription.rs:98-110 | in any map order, sends the event once to exactly the receivers that want it |
| Subscriptions.ReceiverGetsItsEvents | crates/fraiseql-arrow/src/subscription.rs:58-146 | in every run a receiver has got exactly the events matching its type and filter, in broadcast order, until its id was unsubscribed or subscribed again |
| Subscriptions.WrittenFilterExactly | crates/fraiseql-arrow/src/subscription.rs:118-146 | for every field and value, a filter written for equality or for inequality means it on all events if and only if its operator is the first of its kind, an equality has no ` != `, the field is not empty and has no spaces around it, and the value has no quotes around it |
| Subscriptions.AcceptsAllExactly | crates/fraiseql-arrow/src/subscription.rs:119-126 | a filter accepts every event if and only if it is missing or blank |
| Subscriptions.AcceptsNoneExactly | crates/fraiseql-arrow/src/subscription.rs:119-146 | a filter rejects every event if and only if it is not blank and has no operator once trimmed |
| Subscriptions.QuoteIsLost | crates/fraiseql-arrow/src/subscription.rs:134-137 | the value n' with its quote: its filter does not mean equality |
| Rbac.RBACPolicy.constructor | crates/fraiseql-auth/src/operation_rbac.rs:157-223 | there are three roles: an admin may do everything, an operator all but the eight management, import and delete permissions, a viewer export data and view audit logs |
| Rbac.RankIsPlace | crates/fraiseql-auth/src/operation_rbac.rs:20-65 | a permission ranks by its place in the declaration |
| Rbac.RBACPolicy.Authorize | crates/fraiseql-auth/src/operation_rbac.rs:235-259 | succeeds if and only if some known role that the user claims bundles the permission |
| Rbac.RBACPolicy.AuthorizeAny | crates/fraiseql-auth/src/operation_rbac.rs:266-280 | succeeds if and only if one of the permissions is granted |
| Rbac.RBACPolicy.AuthorizeAll | crates/fraiseql-auth/src/operation_rbac.rs:287-296 | succeeds if and only if all of the permissions are granted |
| Rbac.RBACPolicy.GetUserPermissions | crates/fraiseql-auth/src/operation_rbac.rs:299-314 | strictly increasing, and exactly the permissions that Authorize grants |
| Rbac.ExtractUserRoles | crates/fraiseql-auth/src/operation_rbac.rs:317-349 | strictly increasing, and exactly the roles claimed as role, roles or fraiseql_roles |
| Rbac.RBACPolicy.RegisterRole | crates/fraiseql-auth/src/operation_rbac.rs:226-228 | puts the role under its name and keeps all others |
| Rbac.RegisteringAffectsClaimantsOnly | crates/fraiseql-auth/src/operation_rbac.rs:226-259 | after a registration a permission is granted exactly by the new role to its claimants or by another known role |
| Rbac.SortDedup | crates/fraiseql-auth/src/operation_rbac.rs:309-311 | sort then dedup lists exactly the elements, each once, in order |

## Left out

- RateLimiter.KeyedRateLimiter.Check: the mutex and its poisoning; one call is one step because the lock is held throughout.
- LimiterRuns.SweepUnobservableExactly: a hash map that breaks ties between equally old entries differently once swept; here the choice depends on the tied keys only.
- LimiterRuns.AnswersAreOwn: a clock that runs backwards (`system_clock` returns 0 on error); a sweep at such a reading can be noticed.
- QueryCache.Cache.Put: overflow of now plus TTL; times are unbounded here, and text is a sequence of characters where the code indexes UTF-8 bytes at character boundaries.
- QueryCache.Cache.InvalidateViews: other calls between its two loops; a concurrent map iterates weakly consistently, here each call is atomic.
- Canonical.CanonicalExactly: Python's 1 == True == 1.0 and NaN; JSON values are equal when they are written alike.
- ParityCompare.ExtractFields: item names that are not strings; the script would use a number as a key and fail on a list.
- ParityCompare.Compare: order of the error lines, file reading and exit codes.
- TokenClient.OneInFlight: other tabs sharing the storage, an `onTokenExpired` handler that calls back into the client, and answers that are not tokens.
- PkceStore.BackendsAgree: failures of Redis or of encryption, and a zero TTL, which Redis refuses; an entry is alive up to and including its TTL in both stores.
- ArrowPipeline.ConvertDbRows: which error is reported, chrono's date and timestamp parsers, the text of numbers, and how an integer is rounded to a double, which are parameters.
- ArrowPipeline.RowsToBatches: a chunk size of 0, which the slice operation refuses.
- ClickHouseSink.ProcessBatch: reading a null in a required column, taken as the empty string or 0.
- ClickHouseSink.FlushBatch: rows that a refused insert may have written, and wrap-around of backoffs beyond 58 retries.
- Subscriptions.ReceiverGetsItsEvents: receivers that were dropped, to which sends fail silently.
- Rbac.RBACPolicy.Authorize: the texts of errors.
- HTTP, OIDC, Redis and database calls, DNS, and the token exchange: I/O.
- Cryptography and base64: abstract functions with a stated assumption (`PkceStore.Sound`).
- The schema registry's version counter, `graphql_type_to_arrow` beyond its table, monitoring counters, defaults and constant tables: easy members only.
- URL validation of the sink and IP range tests: short functional checks without state.
