# Request governance and order bookkeeping of the energy-trading back-end

This project models four parts of the back-end of the energy-trading
simulator and proves properties of them in Dafny.

- **API key pool** (`KeyPool`, `keypool.dfy`). `ApiKeyPool` hands out keys
  for the grid-data API. Each key has a record:
  - a request count;
  - a consecutive-failure count;
  - an optional rate-limited-until time;
  - an active flag.

  The pool also keeps a rotation cursor. The model covers:
  - the availability scan, which clears cooldowns that have passed;
  - the wait for the shortest cooldown when no key is available;
  - the three selection strategies;
  - the three outcome marks: rate-limited, success, deactivate;
  - the statistics report;
  - the parsing of the comma-separated key list.
- **Retry wrapper** (`Retry`, `retry.dfy`). `api_request_with_rotation`
  runs up to `max_retries` attempts, each with a fresh key from the pool.
  It handles four cases:
  - HTTP 429: rate-limits the key, then tries again at once;
  - HTTP 403: deactivates the key for good, then tries again;
  - any other HTTP error: stops;
  - any other failure: sleeps 2^attempt seconds first, except after the
    last attempt.
- **TTL response cache** (`Cache`, `cache.dfy`). `SimpleCache` maps a key
  built from the function name and its arguments to a value and a timestamp.
  - `get` deletes an entry that has expired.
  - `cached_api_call` answers from a fresh entry, and otherwise calls the
    function and stores the result.
- **Order listing** (`FetchOrders`, `fetch_orders.dfy`):
  - which columns are selected, kept in the preferred field order;
  - how each result row becomes a dictionary with the preferred fields first;
  - how the SQL text and its parameters are built for the open and the
    closed bucket.
- **Order moderation** (`Moderator`, `moderator.dfy`):
  - approving one order by id, a guarded status transition;
  - the random approval of the pending day-ahead orders of one hour, which
    splits them into approved and unfilled orders.

`Wrappers` (`Option`, `Result`) and `Strings` hold the shared pieces:
- Python's `strip`, `split` and `join`;
- string order;
- counting a character.

Time is an integer clock in microseconds, the resolution of Python's
`datetime` (`Clock.Seconds(n)` is n seconds), so 1.5 minutes is
`Seconds(90)`. Several things are passed in as parameters:
- the clock reading;
- the wrapped API request (`respond`, the outcome of each attempt);
- how long each attempt's call and the handling of its outcome take
  (`timing`);
- the random draws (`pick`, `approve`);
- the database (`db`, from SQL text and parameters to rows).

## Model

| member | source | states |
|---|---|---|
| KeyPool.InitialStats | backend/keypool_manager.py:11-31 | one record per key, in list order, with no requests, no failures, no cooldown, and active |
| KeyPool.ApiKeyPool.constructor | backend/keypool_manager.py:20-33 | the pool starts with those records, the given strategy name and cursor 0 |
| KeyPool.AvailableIndicesSpec | backend/keypool_manager.py:67-85 | a key is in the available list iff it is active and has no cooldown; the list is empty iff no key is; it keeps list order |
| KeyPool.ScanAvailability | backend/keypool_manager.py:67-85 | after the scan a key is available iff it is active and its cooldown is absent or has passed; a record changes only when its cooldown had passed, and then the cooldown is cleared and the failure count reset to 0; nothing else changes |
| KeyPool.ApiKeyPool.GetAvailableKeys | backend/keypool_manager.py:67-85 | the loop updates the records in place as the scan function does and returns the available positions |
| KeyPool.EarliestCooldownSpec | backend/keypool_manager.py:150-160 | the earliest cooldown still in the future, if there is one: later than now, held by some key, and no later than any other future cooldown |
| KeyPool.CooldownWait | backend/keypool_manager.py:150-160 | the wait is shorter than one cooldown period (90 s) |
| KeyPool.ScanWithWaitSpec | backend/keypool_manager.py:39-52 | the clock moves only when no key is usable at the start; afterwards a key is available iff it is usable at the new clock; keys, counts and active flags are unchanged |
| KeyPool.WaitThenSelect | backend/keypool_manager.py:150-160 | when nothing is usable but the earliest cooldown ends within 90 s, the selection waits exactly until then and hands out a key |
| KeyPool.StrategyOf | backend/keypool_manager.py:58-65 | "random" and "least_used" select those strategies; any other name falls back to round-robin |
| KeyPool.ChooseSpec | backend/keypool_manager.py:58-65 | every strategy chooses an available key |
| KeyPool.NextKeyOutcome | backend/keypool_manager.py:35-65 | a key is handed out iff some key is usable at the clock after the wait, and that key is usable; otherwise the error is "All API keys are exhausted or inactive" and the cursor does not move |
| KeyPool.NextKeyCounts | backend/keypool_manager.py:87-120 | the chosen key's request count goes up by exactly 1 and no other count changes; no key changes its name or active flag |
| KeyPool.ApiKeyPool.GetNextKey | backend/keypool_manager.py:35-65 | the method's new records, cursor, clock and result are those of the selection function |
| KeyPool.ApiKeyPool.SelectByStrategy | backend/keypool_manager.py:58-65 | dispatches to the chosen strategy exactly as the choice function does |
| KeyPool.RoundRobinPick | backend/keypool_manager.py:87-106 | the probe chooses a key in range and moves the cursor forward by between 1 and the number of keys |
| KeyPool.RoundRobinPickSpec | backend/keypool_manager.py:87-100 | the round-robin probe always finds an available key |
| KeyPool.ApiKeyPool.RoundRobinSelection | backend/keypool_manager.py:87-106 | the probing loop gives the probe's key and cursor, and touches only that record; with nothing available it returns None and changes nothing |
| KeyPool.RoundRobinAdvance | backend/keypool_manager.py:87-100 | a successful round-robin selection advances the cursor by between 1 and the number of keys |
| KeyPool.RoundRobinAllUsable | backend/keypool_manager.py:87-100 | with every key usable, round-robin hands out the key under the cursor, advances the cursor by exactly one, and leaves every key usable |
| KeyPool.RoundRobinCycles | backend/keypool_manager.py:87-100 | along a run of selections with every key usable, the i-th pick is (cursor + i) mod n |
| KeyPool.RoundRobinTraceExists | backend/keypool_manager.py:87-100 | such a run of any length exists from any cursor |
| KeyPool.RoundRobinVisitsEachOnce | backend/keypool_manager.py:87-100 | n consecutive round-robin selections over n usable keys hand out every key exactly once |
| KeyPool.ApiKeyPool.RandomSelection | backend/keypool_manager.py:108-113 | the key the random draw selects among the available ones is counted and returned; the cursor stays |
| KeyPool.RandomKeepsCursor | backend/keypool_manager.py:108-113 | the random strategy never moves the cursor |
| KeyPool.LeastUsedSpec | backend/keypool_manager.py:115-120 | the least-used position has a minimal request count, and it is the earliest on ties |
| KeyPool.LeastUsedChoice | backend/keypool_manager.py:115-120 | least-used hands out a usable key whose request count is minimal among the usable keys, the earliest on ties, and keeps the cursor |
| KeyPool.ApiKeyPool.LeastUsedSelection | backend/keypool_manager.py:115-120 | the method counts and returns the key at the least-used position |
| KeyPool.WithRateLimit | backend/keypool_manager.py:122-131 | only the first record with the key changes: its cooldown ends at now + retry_after minutes (90 s when retry_after is None or 0) and its failure count goes up by one |
| KeyPool.ApiKeyPool.MarkRateLimited | backend/keypool_manager.py:122-131 | the search loop leaves the records as the rate-limit function gives them |
| KeyPool.WithSuccess | backend/keypool_manager.py:133-139 | only the first record with the key changes, and only its failure count, which drops to 0 |
| KeyPool.ApiKeyPool.MarkSuccess | backend/keypool_manager.py:133-139 | the search loop leaves the records as the success function gives them |
| KeyPool.WithDeactivation | backend/keypool_manager.py:141-148 | only the first record with the key changes, and only its active flag, which becomes false |
| KeyPool.ApiKeyPool.DeactivateKey | backend/keypool_manager.py:141-148 | the search loop leaves the records as the deactivation function gives them |
| KeyPool.InactiveStaysInactive | backend/keypool_manager.py:141-148 | no operation of the pool makes an inactive key active again, and no selection hands one out |
| KeyPool.Prefix | backend/keypool_manager.py:177 | the key preview is the first 8 characters, or the whole key if it is shorter |
| KeyPool.AvailableCounts | backend/keypool_manager.py:162-188 | available keys are at most the active keys, and available plus cooling keys are at most all keys |
| KeyPool.StatsBounds | backend/keypool_manager.py:162-188 | in the report, available <= active <= total, available + rate-limited <= total, and there is one entry per key |
| KeyPool.ApiKeyPool.GetStats | backend/keypool_manager.py:162-188 | the report is computed from the records before the call, and the records are left refreshed by the scan |
| KeyPool.CleanKeys | backend/keypool_manager.py:252 | the cleaned list is no longer than the split parts; its contents are stated by `CleanKeysSpec` and `CleanKeysMembers` |
| KeyPool.CleanKeysSpec | backend/keypool_manager.py:252 | the cleaned list is exactly the stripped parts, in their order, taken at the positions (listed in increasing order) whose stripped text is non-empty; a part with surrounding white space is stripped, not dropped |
| KeyPool.CleanKeysMembers | backend/keypool_manager.py:252 | a key is in the cleaned list iff it is non-empty and some part strips to it |
| KeyPool.CleanKeysAreClean | backend/keypool_manager.py:252 | every parsed key is non-empty and has no surrounding white space |
| KeyPool.CleanKeysKeepsClean | backend/keypool_manager.py:252 | cleaning a list of clean keys changes nothing |
| KeyPool.ParseApiKeys | backend/keypool_manager.py:247-255 | an empty variable is the "not found or empty" error naming the variable; a non-empty value whose cleaned split is empty is the "No valid API keys found in" error naming the variable; otherwise the result is a success holding exactly the cleaned split, a non-empty list of clean keys |
| KeyPool.ParseJoinRoundTrip | backend/keypool_manager.py:247-255 | parsing the comma-join of a non-empty list of clean keys without commas gives the list back |
| KeyPool.InitializeApiPool | backend/keypool_manager.py:245-258 | a parse error is returned unchanged; otherwise a new pool over the parsed keys, with cursor 0 and the strategy |
| Strings.StripLeft | backend/keypool_manager.py:252 | drops exactly the leading white space |
| Strings.StripRight | backend/keypool_manager.py:252 | drops exactly the trailing white space |
| Strings.StripIsStripped | backend/keypool_manager.py:252 | a stripped string has no white space at either end |
| Strings.StripIdentity | backend/keypool_manager.py:252 | stripping a stripped string changes nothing |
| Strings.Split | backend/keypool_manager.py:252 | split gives at least one part, and no part holds the separator |
| Strings.JoinSplit | backend/keypool_manager.py:252 | joining the parts of a split with the separator gives the string back |
| Strings.SplitJoin | backend/keypool_manager.py:252 | splitting a join of separator-free parts gives the parts back |
| Retry.Backoff | backend/keypool_manager.py:234-236 | the sleep after a generic failure is 0 exactly on the last attempt |
| Retry.MinutesOf | backend/keypool_manager.py:217 | `// 60` rounds down: m*60 <= seconds < m*60 + 60 |
| Retry.Handle | backend/keypool_manager.py:206-236 | handling an outcome keeps one record per key |
| Retry.Attempt | backend/keypool_manager.py:200-236 | one attempt keeps one record per key |
| Retry.UpdatesMarkOnly | backend/keypool_manager.py:122-148 | each of the three marks keeps every key name and every request count and never reactivates a key |
| Retry.AttemptMarksOnly | backend/keypool_manager.py:206-236 | after `get_next_key`, the rest of an attempt changes no key name and no request count and reactivates no key |
| Retry.AttemptKeepsRecords | backend/keypool_manager.py:200-236 | an attempt keeps every key name; inactive keys stay inactive; request counts never go down |
| Retry.AttemptSuccess | backend/keypool_manager.py:200-210 | an attempt returns a value iff `get_next_key` handed out a non-empty key and the request called with that key returned; the value is that response, the success is marked on that key and the clock is read when the call returns |
| Retry.AttemptWithoutKey | backend/keypool_manager.py:200-236 | when no key is handed out, or the empty one, no call is made, nothing is marked, the exception is the pool's exhaustion or "No API keys available", and the clock moves by the gap plus the backoff |
| Retry.AttemptRateLimited | backend/keypool_manager.py:212-221 | a 429 whose header `int()` accepts marks the key just handed out as rate-limited when the call returns, for the header's whole minutes or the default; the next attempt follows after the gap with no sleep |
| Retry.AttemptForbidden | backend/keypool_manager.py:222-225 | a 403 deactivates the first record with the key just handed out; the next attempt follows after the gap with no sleep |
| Retry.AttemptOtherHttp | backend/keypool_manager.py:226-228 | any other HTTP status stops the wrapper with that error after exactly this call, with nothing marked |
| Retry.AttemptGenericFailure | backend/keypool_manager.py:230-236 | any other exception marks nothing, and the clock moves by the call and gap time plus exactly 2^attempt seconds, or nothing extra on the last attempt |
| Retry.AttemptBounds | backend/keypool_manager.py:199-236 | an attempt makes at most one call; the clock moves by less than one cooldown plus the call and gap time, plus the backoff when it goes on |
| Retry.AttemptSkipsInactive | backend/keypool_manager.py:199-236 | an inactive key is never handed out: its request count stays and it stays inactive |
| Retry.AttemptAllRateLimited | backend/keypool_manager.py:212-221 | when the call is answered 429 with a usable header, the attempt goes on, with the 429 or the pool's exhaustion as the exception caught |
| Retry.RetryKeepsRecords | backend/keypool_manager.py:199-238 | over all remaining attempts, key names are kept, inactive keys stay inactive, and counts never go down |
| Retry.RetrySkipsInactive | backend/keypool_manager.py:199-238 | a key that is inactive, e.g. after a 403, is never handed out again in the run |
| Retry.RetrySuccessIsResponse | backend/keypool_manager.py:199-238 | a value is returned only if some attempt's request returned it for one of the pool's keys |
| Retry.RetryAllRateLimited | backend/keypool_manager.py:199-238 | when every call is answered 429 with a usable header, the wrapper raises the last 429 or the pool's exhaustion, or the generic exception when it made no attempt |
| Retry.RetryBounds | backend/keypool_manager.py:199-238 | at most one call per remaining attempt; the clock moves forward by less than the budget of cooldown waits, call and gap times and backoffs |
| Retry.BackoffStep | backend/keypool_manager.py:234-236 | one backoff sleep plus the sleeps after it add up to 2^(max_retries-1) - 2^attempt seconds |
| Retry.BudgetClosedForm | backend/keypool_manager.py:234-236 | the backoff sleeps of the remaining attempts add up to 2^(max_retries-1) - 2^attempt seconds |
| Retry.RetryWrapper | backend/keypool_manager.py:192-238 | with max_retries <= 0 it raises "All retry attempts failed" and changes nothing; otherwise it makes at most max_retries calls, and the clock moves by less than max_retries cooldowns plus the call and gap times plus 2^(max_retries-1) - 1 seconds; a returned value came from the request; records are kept |
| Retry.RateLimitedKeyReturns | backend/keypool_manager.py:150-160 | a single key answered 429 without header and then successfully is handed out again and the value returned, as soon as any time passes between the mark and the next scan |
| Retry.SingleKeyRateLimited | backend/keypool_manager.py:212-221 | the only key, answered 429 without header, is put on the default cooldown, which ends less than one cooldown after the next attempt starts when some time passes first |
| Retry.SingleKeyReturns | backend/keypool_manager.py:150-160 | an active key whose cooldown ends within one cooldown is handed out, waiting if need be, and its response is returned |
| Retry.HandleOutcome | backend/keypool_manager.py:206-236 | the `except` clauses and the sleep do on the pool what the handling function describes |
| Retry.AttemptOnce | backend/keypool_manager.py:200-236 | the method does on the pool what the attempt function describes |
| Retry.ApiRequestWithRotation | backend/keypool_manager.py:192-238 | the attempt loop's result, clock, records and cursor are those of the retry function |
| Strings.LessIrreflexive | backend/simple_cache.py:16 | string order is irreflexive |
| Strings.LessTransitive | backend/simple_cache.py:16 | string order is transitive |
| Strings.LessTotal | backend/simple_cache.py:16 | string order is total |
| Cache.SortItems | backend/simple_cache.py:16 | sorting the keyword items is a permutation |
| Cache.SortItemsSorted | backend/simple_cache.py:16 | the sorted items are in order |
| Cache.SortedUnique | backend/simple_cache.py:16 | two sorted permutations of the same items are equal |
| Cache.RenderItems | backend/simple_cache.py:16 | each keyword item is rendered as "k=v", in order |
| Cache.CacheKeyIgnoresKwargOrder | backend/simple_cache.py:13-17 | any reordering of the keyword arguments gives the same cache key |
| Cache.CacheKeyPositional | backend/simple_cache.py:13-17 | with no keyword arguments, the key is the "\|"-join of the positional arguments |
| Cache.SimpleCache.constructor | backend/simple_cache.py:7-11 | empty cache and lock maps; the TTL is the minutes times 60 seconds |
| Cache.SimpleCache.Get | backend/simple_cache.py:19-29 | it is fresh iff an entry exists with now - timestamp < ttl, and then the data is returned and nothing changes; otherwise None, and the entry (if any) is deleted |
| Cache.SimpleCache.Set | backend/simple_cache.py:31-34 | the entry for the key becomes (data, now); every other entry and the locks are unchanged |
| Cache.SimpleCache.GetLock | backend/simple_cache.py:36-41 | an existing lock is returned unchanged; otherwise a new lock is stored under the key; the cache is unchanged |
| Cache.SimpleCache.Clear | backend/simple_cache.py:43-47 | both maps become empty |
| Cache.StatsPartition | backend/simple_cache.py:49-67 | fresh plus expired entries equals total entries |
| Cache.SimpleCache.GetStats | backend/simple_cache.py:49-67 | the counting loop counts by the same `< ttl` test as `get`, and the counts add up to the total |
| Cache.CachedApiCall | backend/simple_cache.py:72-108 | a fresh entry is returned without calling the function and nothing changes; otherwise the function's outcome is returned. A success is stored under the key; on failure no entry remains for the key; in both cases the key gets a lock and every existing lock is kept |
| Cache.GetCacheStats | backend/simple_cache.py:110-112 | the shared cache's statistics, whose fresh and expired counts add up |
| Cache.ClearCache | backend/simple_cache.py:114-117 | empties the shared cache and answers "Cache cleared successfully" |
| FetchOrders.StatusLists | backend/simulate/fetch_orders.py:10-11 | open and closed statuses are disjoint, and the two lists are those sets in sorted order |
| FetchOrders.IndexIn | backend/simulate/fetch_orders.py:14-19 | the position of a field in the preferred order: in range iff the field is there, and its first occurrence |
| FetchOrders.KeepExistingSpec | backend/simulate/fetch_orders.py:35 | filtering keeps exactly the fields present, each once, in the order of the list filtered |
| FetchOrders.BuildSelectSpec | backend/simulate/fetch_orders.py:33-39 | the kept fields are exactly the preferred fields that exist, each once, in preferred order; the reject_reason append never applies; the column list is their ", "-join and holds no "?" |
| FetchOrders.Dedup | backend/simulate/fetch_orders.py:44 | a dictionary built from the field list has each of its fields exactly once |
| FetchOrders.Project | backend/simulate/fetch_orders.py:44 | the row's dictionary has exactly the selected fields, once each, with the row's values, the numeric columns coerced |
| FetchOrders.Coerce | backend/simulate/fetch_orders.py:45-54 | an integer in qty_mwh, limit_price or approval_rt_lmp becomes a real (exactly; see Left out); everything else, NULL included, is kept |
| FetchOrders.ReorderedKeys | backend/simulate/fetch_orders.py:55-63 | the reordered dictionary has the same keys, each once |
| FetchOrders.ReorderedValues | backend/simulate/fetch_orders.py:55-63 | every key keeps its value |
| FetchOrders.ReorderedOrder | backend/simulate/fetch_orders.py:55-63 | the preferred fields come first, in preferred order, then the other keys |
| FetchOrders.Reorder | backend/simulate/fetch_orders.py:55-63 | the two loops build the reordered dictionary |
| FetchOrders.RowDicts | backend/simulate/fetch_orders.py:41-65 | one dictionary per row |
| FetchOrders.RowDictsSpec | backend/simulate/fetch_orders.py:41-65 | each row's dictionary has exactly the selected fields, once each, with the row's (coerced) values, preferred fields first in preferred order |
| FetchOrders.RowsToDicts | backend/simulate/fetch_orders.py:41-65 | the loop yields the row dictionaries in row order |
| FetchOrders.PlaceholderCount | backend/simulate/fetch_orders.py:75 | the placeholder list for n statuses holds exactly n "?" |
| FetchOrders.WherePlaceholders | backend/simulate/fetch_orders.py:75-79 | the WHERE clause holds one "?" per status, plus one for a non-empty location |
| FetchOrders.PlaceholdersMatchParams | backend/simulate/fetch_orders.py:75-87 | for any column list without "?", the number of "?" in the query equals the number of parameters |
| FetchOrders.QueryBucket | backend/simulate/fetch_orders.py:67-89 | the query text and parameters built step by step are the bucket query, and the result is its rows as dictionaries |
| FetchOrders.FetchOrders | backend/simulate/fetch_orders.py:112-128 | a table without columns gives two empty buckets; each count is the length of its order list; the buckets hold the open and closed queries' rows |
| Moderator.FirstById | backend/simulate/moderator.py:116 | the lookup finds nothing iff no order has the id; otherwise an order with that id |
| Moderator.FirstByIdUnique | backend/simulate/moderator.py:116 | with unique ids, the lookup finds exactly that order |
| Moderator.UpdateWhereId | backend/simulate/moderator.py:121 | the update sets status and reason on the orders with that id and leaves every other order as it was |
| Moderator.ApproveUnknown | backend/simulate/moderator.py:116-118 | an unknown id is refused with "order_not_found" |
| Moderator.ApproveKnown | backend/simulate/moderator.py:119-123 | a known order is approved iff its status is PENDING, REJECTED or UNFILLED; the refusal names the status |
| Moderator.OrdersTable.ApproveById | backend/simulate/moderator.py:115-123 | the reply is the approval decision; only an approval changes the table, and then only that order, which becomes APPROVED with no reason |
| Moderator.CandidateIds | backend/simulate/moderator.py:128-140 | no more candidates than orders (one per matching order, listed in table order; the query may return them in any order) |
| Moderator.CandidateIdsSpec | backend/simulate/moderator.py:128-140 | an id is a candidate iff some order with it is day-ahead and pending, is for that hour, and matches the location and location type when these are given |
| Moderator.CandidateIdsUnique | backend/simulate/moderator.py:128-140 | with unique order ids, the candidates are distinct |
| Moderator.PartitionSpec | backend/simulate/moderator.py:141-143 | approvals and rejections together are the candidates as a multiset |
| Moderator.PartitionSizes | backend/simulate/moderator.py:141-143 | their sizes add up to the number of candidates |
| Moderator.PartitionMembers | backend/simulate/moderator.py:141-143 | a candidate whose draw approves is in the approvals; otherwise it is in the rejections |
| Moderator.ChosenSpec | backend/simulate/moderator.py:141-143 | the positions with a given draw are listed once each, in increasing order |
| Moderator.ApprovalsInOrder | backend/simulate/moderator.py:141-143 | the approvals are the ids at the approved positions, in the query's order: a subsequence of the candidates |
| Moderator.RejectionsInOrder | backend/simulate/moderator.py:141-143 | the unfilled ids are the ids at the other positions, in the query's order: a subsequence of the candidates |
| Moderator.PartitionDisjoint | backend/simulate/moderator.py:141-143 | for distinct candidates, no id is in both lists |
| Moderator.UpdateAllSpec | backend/simulate/moderator.py:146-149 | an update loop sets status and reason on the orders whose id is listed and leaves the others as they were |
| Moderator.OrdersTable.UpdateEach | backend/simulate/moderator.py:146-149 | the loop leaves the table as the update function gives it |
| Moderator.RandomApproveEffect | backend/simulate/moderator.py:146-149 | approved candidates become APPROVED with no reason, rejected ones UNFILLED with "moderator_unfilled", and every other order is untouched |
| Moderator.OrdersTable.RandomApproveForHour | backend/simulate/moderator.py:125-159 | for the query's answer, any arrangement of the candidates, the report holds the candidates, counts and id lists of the partition; the table is updated by the two update loops |
| Moderator.ReportTotals | backend/simulate/moderator.py:151-159 | for any order the query returns the candidates in: total_candidates = approved + unfilled, with unique ids no order is both approved and unfilled, the candidates are distinct, and they are exactly the matching orders |
| Moderator.DistinctPermutation | backend/simulate/moderator.py:138-139 | reordering the query's answer keeps its ids distinct |

## Left out

- Locks and threads are not modelled. This covers the pool lock, the cache's
  global and per-key locks, and the double-check under the key lock. The
  methods run one at a time, and only the sequential effect of the
  double-check is modelled: the second `get` cannot hit.
- Clocks are integer microseconds, passed as parameters. `datetime.now()`
  and `time.time()` are clock readings. `last_used` is that reading, and
  `isoformat` is not modelled.
- The clock readings within one `get_next_key` (the scan, the wait, the
  rescan and `last_used`) are taken as one instant, apart from the wait
  itself. Time passing between the call's end and the next attempt is the
  oracle `timing`, and may be 0.
- Sleeps are not performed. `_wait_for_cooldown` and the backoff sleep only
  advance the clock by the amount the source would sleep.
- Python's float seconds are whole microseconds here.
- `random.choice` is an oracle `pick(attempt)`, taken modulo the number of
  available keys.
- `random.random() < approval_rate` is an oracle `approve(i)` for the i-th
  candidate. The `seed` and the value of `approval_rate` are not modelled.
- The wrapped API request is an oracle `respond(attempt, key)`. It returns
  a value, an HTTP error with its status and Retry-After header, or some
  other failure. The header is absent, an integer number of seconds, or text
  that `int()` rejects, which raises ValueError out of the wrapper.
- `*args`/`**kwargs` other than the key are not passed along.
- `print` output and the emoji status lines are not modelled.
- `get_stats` of the pool: the `keys` entries carry the key preview, the
  counts, the flags and the cooldown. The ISO text of the timestamps is not
  modelled.
- `str(arg)` in `_get_cache_key`: arguments are taken as already rendered
  strings. `sorted` over keyword items compares names first, then values.
- The cache's `ttl_minutes` is the TTL divided by 60 seconds on integers.
  This is exact because the TTL is always minutes times 60 seconds.
- The cache never falls back to expired data, because `get` has already
  deleted it. HTTP 403 deactivates a key permanently.
- KeyPool.WithRateLimit: a `Retry-After` so large that `timedelta` or the
  addition to `datetime.now()` overflows raises OverflowError out of the
  wrapper in the source; the model stores the cooldown end whatever its
  size, because integers are unbounded here.
- `fetch_orders` takes the column names of the `orders` table as a
  parameter. The SQLite connection, `PRAGMA table_info` and closing the
  connection are not modelled.
- The database is a function from SQL text and parameters to rows, so the
  row order (`ORDER BY datetime(created_at) DESC`) is whatever it returns.
- FetchOrders.QueryBucket, FetchOrders.FetchOrders: errors raised by the
  SQLite engine are not modelled, because the database function always
  answers. In the source, `con.execute` raises out of `fetch_orders`, which
  has only a `finally` that closes the connection. Two inputs do this. A
  table whose columns are non-empty but include none of the order fields
  makes the column list empty, and `SELECT  FROM orders` is a syntax error.
  A table without `status`, `location` (when filtering by it) or
  `created_at` raises "no such column". For these inputs the model returns
  buckets where the source raises.
- FetchOrders.Coerce: the integer is converted exactly. Python's `float()`
  rounds an integer beyond 2^53 to the nearest double and raises
  OverflowError beyond the double range; neither is modelled.
- FetchOrders.Coerce: `float()` of a text value is not modelled. Text stays
  text. In the source, text in `qty_mwh` or `limit_price` is parsed or
  raises ValueError. In `approval_rt_lmp` it is parsed or kept.
- `random_approve_for_hour`: its SQL text is not modelled, only what it
  selects (`Moderator.CandidateIds`). The query has no `ORDER BY`, so its
  answer is a parameter that may list the candidates in any order; which
  order SQLite picks (table order, or the order of an index) is not
  modelled. The table is a sequence of orders. Only the columns the two
  operations read or write are kept.
- Transactions (`BEGIN`, `commit`) are not modelled.
- The interactive helpers of `moderator.py` (`ask*`, `iso_utc`, `main`) are
  not part of this model.
- `backend/request_queue.py`, the HTTP services, the scheduler, the FastAPI
  endpoints and the seeding and cleaning scripts are not part of this model.
