# Verified model of anilibria-torznab

This project models the parts of anilibria-torznab whose correctness does not show in any single
function, and proves properties of them over every input, every run and every interleaving.

* **Bounded cache.** `ExpiryHeap.dfy` and `Lru.dfy` keep the three structures of the cache, a hash map, a
  recency list and a min-heap on expiry with its back-pointers, as objects updated in place, with the sift
  operations of `container/heap` written out on top of `Less`, `Swap`, `Push` and `Pop`. `CacheSpec.dfy`
  has the cache as a value in two forms: the lazy one that the objects implement, and the eager reference
  cache that purges every expired cell before each operation and evicts only the least recently used live
  one. `ClockShape.dfy` says exactly which clocks hide the difference. `Lru.Replay` runs the objects on any
  list of operations under such a clock and gets the answers of the reference. `Recency.dfy` says what an
  operation does without naming either machine: what a later lookup finds, which key an insertion evicts,
  and that the cells of every run stand in descending order of the last touch of their keys.
* **Coalescer.** `Deadlines.dfy` and `Coalescer.dfy` hold the mutex-protected regions as methods on
  objects, each proved against a function on a table of calls. `CoalescerProtocol.dfy` interleaves these
  functions over any number of callers and keys and proves what holds in every reachable state.
  `ServiceProtocol.dfy` puts the cache, the second look into the cache and the upstream call around it, and
  `ServiceOutcomes.dfy` proves which events decide what a load ends with and what its callers get.
* **Upstream client.** `Retry.dfy` has the decisions between two attempts, `Client.dfy` one request on
  the gate and the limiter, `ClientProtocol.dfy` all requests of a client at once.
* **Result pipeline.** `Pipeline.dfy` has the fan-out, flattening, deduplication, filtering, ordering and
  paging of results.
* **Query, titles and text.** `QueryTokens.dfy`, `TechnicalPairs.dfy`, `EdgeSeparators.dfy`,
  `Whitespace.dfy` and `Query.dfy` clean a query; `Decimal.dfy`, `Seasons.dfy` and `Title.dfy` parse labels
  and render titles. `TokenForms.dfy`, `SeasonForms.dfy` and `TitleForms.dfy` state the texts that the scanners
  read, form by form, with the numbers they are read as, and `CleanedTitles.dfy` puts cleanup together from end
  to end: what is left of a title with an episode tag in front of it or behind it. `JsonText.dfy` and
  `JsonUtf8.dfy` check the encoding of JSON strings (sections 7 and 8.2 of RFC 8259, section 4 of RFC 3629).
  `Runes.dfy` holds the character classes, `Common.dfy` two result types.

Text is a sequence of Unicode scalar values, because the HTTP layer rejects every parameter that is not
valid UTF-8; byte offsets become rune offsets and the length limit of a query counts UTF-8 bytes. Instants
and durations are integers. Clocks, random numbers, contexts, the HTTP exchange, `http.ParseTime` and the
Unicode tables of letters and digits are parameters.

## Where a promise has a limit

* **The clock of the cache.** The lazy and the eager cache answer every list of operations at given instants
  alike if and only if the instants have no peak, that is, none that lies above both an earlier and a later one
  (`ExactlyWithoutPeak`). So a clock may run backwards until it first advances; a backward step after an
  advance can show, as in the run of `BackwardClockIsObservable`.
* **The zero instant means "unset".** `EffectiveDeadline` uses the zero time as its sentinel. It gives the
  right deadline for every iteration order of the waiters if and only if it is not the case that the zero
  instant is the latest deadline while an earlier waiter is not hidden by the base (`EveryOrderAgrees`). The
  coalescer can be in such a state (`ZeroCanBeLost`), but only with contexts of a caller's own making:
  `DoShared` turns away a context that is already done (internal/cache/coalescer.go:76-78), and a standard
  context is done once its deadline has passed.
* **Very long Retry-After numerals.** A number of seconds is honoured, saturating at the longest
  duration, exactly when it fits an int64; a longer one, which section 10.2.3 of RFC 9110 allows, is
  rejected and local backoff is used instead (`SecondsAreUnderstood`, `HugeDelayIsNotUnderstood`). A negative one of any
  length counts as zero.
* **JSON escapes are read as bytes.** After a backslash the scanner skips one byte, whatever it is, unless it
  is a `u`. An accepted text is therefore well-formed UTF-8 if and only if no escape is a backslash and a byte
  beyond ASCII (`AcceptedIsUtf8Exactly`), and without such escapes the scanner accepts exactly the well-formed
  UTF-8 texts whose escapes are complete, with surrogates in pairs (`AcceptsExactlyUtf8`). With them it accepts
  a backslash before the byte ff, which is not UTF-8, and rejects one before an e with an acute accent, which
  is (`ShortEscapesAreBytes`). Bare quotes and control characters inside a literal pass too
  (`QuotesAndControlsPass`): the scanner checks the encoding, not the grammar of JSON.

## Model

| member | source | states |
|---|---|---|
| CacheSpec.LazyRunRefinesEagerRun | internal/cache/lru.go:97-183 | for every sequence of Get, Set, Delete and Len under a non-decreasing clock the lazily expiring cache answers exactly as the cache that purges before each operation |
| CacheSpec.LazyRefinesEager | internal/cache/lru.go:97-183 | one operation from states that agree on their live cells gives the same answer and states that agree again, recency order included |
| CacheSpec.GetRefines | internal/cache/lru.go:97-115 | Get on both caches: an expired cell is as good as none |
| CacheSpec.SetRefines | internal/cache/lru.go:119-152 | Set on both caches, also on a key that is present but expired |
| CacheSpec.DeleteRefines | internal/cache/lru.go:155-161 | Delete on both caches |
| CacheSpec.LenRefines | internal/cache/lru.go:164-170 | Len on both caches counts the live cells |
| CacheSpec.OverflowIsEager | internal/cache/lru.go:146-151 | shedding expired cells only when the cache is overfull leaves the same live cells as shedding them at once, and one live cell at most is evicted, the least recent |
| CacheSpec.LazyStepKeepsBounds | internal/cache/lru.go:97-183 | every operation keeps keys distinct and the size within the capacity |
| CacheSpec.SetKeyIsStored | internal/cache/lru.go:141-151 | a key set with a positive TTL is in the cache afterwards with its value and expiry, never its own victim |
| CacheSpec.BackwardClockIsObservable | internal/cache/lru.go:107-110 | one run with a peak in its instants on which the two caches differ |
| Recency.GetAfterSet | internal/cache/lru.go:97-152 | a lookup finds the value just set exactly while its TTL is positive and has not run out |
| Recency.GetAfterDelete | internal/cache/lru.go:155-161 | a deleted key is missing and every other lookup answers as before |
| Recency.GetAfterGet | internal/cache/lru.go:97-115 | a lookup answers a cell that has not expired, and later lookups answer as without it unless it removed an expired cell of their own key |
| Recency.LenCounts | internal/cache/lru.go:164-170 | Len is the number of cells that have not expired |
| Recency.EvictsExactly | internal/cache/lru.go:141-151 | storing an absent key: with room all other cells stay; in a full cache exactly the expired ones go, or, if there are none, exactly the last |
| Recency.StepOrder | internal/cache/lru.go:97-161 | an operation moves the key it sets or finds to the front and keeps the order of the others |
| Recency.CellsStandByLastTouch | internal/cache/lru.go:97-161 | in every run from an empty cache the cells stand in descending order of the last operation that set or found their key |
| Recency.VictimWasTouchedLongestAgo | internal/cache/lru.go:146-151 | over every run the victim of an insertion into a full cache without expired cells is the key touched longest ago, and only it goes |
| ClockShape.ExactlyWithoutPeak | internal/cache/lru.go:97-183 | all lists of operations at given instants get the same answers from both caches if and only if no instant lies above an earlier and a later one |
| ClockShape.NoPeakNoDifference | internal/cache/lru.go:97-183 | without such a peak no operation tells the caches apart, for any capacity |
| ClockShape.ProbeTellsThemApart | internal/cache/lru.go:97-115 | for every peak, a value stored before it, expiring at it and asked for after it is found by the lazy cache only |
| ClockShape.StepKeepsLive | internal/cache/lru.go:97-183 | while nothing has expired both caches take the same step, and nothing expires by it |
| ExpiryHeap.Heap.Swap | internal/cache/lru.go:43-47 | exchanges two entries and keeps every heapIndex equal to the place of its entry |
| ExpiryHeap.Heap.Push | internal/cache/lru.go:49-53 | appends an entry with its index |
| ExpiryHeap.Heap.Pop | internal/cache/lru.go:55-63 | takes the last entry off, marks it as out of the heap and keeps the order of the others |
| ExpiryHeap.Heap.Fix | internal/cache/lru.go:134-136 | after one expiry has changed, sifting down and then up restores the heap order and keeps the entries |
| ExpiryHeap.Heap.Insert | internal/cache/lru.go:145 | heap.Push: the heap gains exactly the entry and is ordered |
| ExpiryHeap.Heap.Remove | internal/cache/lru.go:176 | heap.Remove: the heap loses exactly the entry at the index and is ordered |
| ExpiryHeap.Heap.Up | internal/cache/lru.go:39-47 | sifting up repairs a heap that is out of order only above one place |
| ExpiryHeap.Heap.Down | internal/cache/lru.go:39-47 | sifting down repairs a heap that is out of order only below one place, or moves nothing |
| HeapOrder.UpStep | internal/cache/lru.go:39-47 | one exchange with the parent moves the only disorder up |
| HeapOrder.DownStep | internal/cache/lru.go:39-47 | one exchange with the earlier child moves the only disorder down |
| HeapOrder.RootIsEarliest | internal/cache/lru.go:179-183 | the root of an ordered heap expires no later than any other entry, so removeExpired need look at nothing else |
| Lru.LRU.Get | internal/cache/lru.go:97-115 | keeps map, list and heap in bijection and takes the lazy machine's step on the contents |
| Lru.LRU.Set | internal/cache/lru.go:119-152 | likewise, for every branch: removal, update in place with a re-sift, insertion with eviction |
| Lru.LRU.Delete | internal/cache/lru.go:155-161 | removes exactly the key from all three structures |
| Lru.LRU.Len | internal/cache/lru.go:164-170 | purges the expired entries and counts the rest |
| Lru.LRU.Unlink | internal/cache/lru.go:172-177 | removes one element from map, list and heap together |
| Lru.LRU.RemoveExpired | internal/cache/lru.go:179-183 | terminates with exactly the live entries left, in recency order |
| Lru.LRU.Evict | internal/cache/lru.go:146-151 | an overfull cache drops its expired entries and then, if still overfull, the least recently used |
| Lru.ExpiredIsNotMissed | internal/cache/lru.go:107-110 | removing an expired cell changes nothing about the live ones |
| Lru.Replay | internal/cache/lru.go:81-183 | the object, created empty and driven by any operations at instants without a peak, answers as the eager reference cache |
| Deadlines.EveryOrderAgrees | internal/cache/coalescer.go:172-182 | the loop over the budgets gives the effective deadline for every iteration order if and only if the zero-instant case does not occur |
| Deadlines.WrongOrder | internal/cache/coalescer.go:172-182 | in that case a concrete order gives a wrong deadline |
| Deadlines.OrdinaryDeadlinesAgree | internal/cache/coalescer.go:172-191 | deadlines after the zero instant always come out right |
| Deadlines.EffectiveIsUnique | internal/cache/coalescer.go:163-165 | the effective deadline is determined by the base and the budgets |
| Deadlines.JoinNeverShortens | internal/cache/coalescer.go:120-127 | joining a call somebody waits for never makes its deadline earlier |
| Deadlines.LeavingNeverExtends | internal/cache/coalescer.go:151-152 | leaving a call that others still wait for never makes its deadline later |
| Coalescer.Call.AddWaiter | internal/cache/coalescer.go:120-127 | a fresh waiter number with its budget, one waiter more |
| Coalescer.Call.EffectiveDeadline | internal/cache/coalescer.go:166-192 | visiting the budgets in any order, the base if nobody or somebody unbounded waits, otherwise the latest deadline capped by the base |
| Coalescer.Coalescer.Join | internal/cache/coalescer.go:80-109 | the locked region of DoShared joins the call of the key or creates one, and changes no other call |
| Coalescer.Coalescer.Finish | internal/cache/coalescer.go:132-141 | the locked region of run stores the outcome, closes done, cancels, and removes the map entry only if it is this call's |
| Coalescer.Coalescer.Detach | internal/cache/coalescer.go:144-161 | nothing after completion; otherwise one waiter less, and removal and cancellation with the last |
| CoalescerProtocol.ZeroCanBeLost | internal/cache/coalescer.go:172-182 | a reachable state of the coalescer with two callers in which the zero-instant case occurs |
| CoalescerProtocol.ReachableIsSound | internal/cache/coalescer.go:65-161 | the joint invariant of calls, callers and keys holds in every reachable state, for any callers, keys and interleaving |
| CoalescerProtocol.StepKeeps | internal/cache/coalescer.go:65-161 | each atomic step keeps that invariant |
| CoalescerProtocol.OneLiveCallPerKey | internal/cache/coalescer.go:84-103 | a call is neither completed nor cancelled exactly when it is the one in the map under its key, so there is at most one per key |
| CoalescerProtocol.CountsAreExact | internal/cache/coalescer.go:120-127 | until its load returns, waiters, the number of budgets and the number of attached callers are equal, the budgets are exactly those callers' budgets, and the call is cancelled exactly when no caller is left |
| CoalescerProtocol.DoneClosesOnce | internal/cache/coalescer.go:132-141 | done has been closed once if the load has returned and never otherwise, and then the context of the load is cancelled |
| CoalescerProtocol.NewcomersJoinALiveCall | internal/cache/coalescer.go:84-109 | whoever arrives joins a call for its own key that is neither completed nor cancelled |
| CoalescerProtocol.LateReturnIsHarmless | internal/cache/coalescer.go:136-138 | a load that returns after it was abandoned leaves the map and every other call alone, and nobody is attached to it |
| CoalescerProtocol.LeavingDetachesOnlyTheCaller | internal/cache/coalescer.go:144-161 | a caller's cancellation detaches only that caller; the load is cancelled and forgotten exactly when it was the last |
| CoalescerProtocol.CallersGetTheirOwnCallsOutcome | internal/cache/coalescer.go:111-117 | over any continuation of a run a caller stays with the call it joined, and if it returns through done it has the outcome of that call, which never changes |
| ServiceProtocol.SuccessesAreBounded | internal/service/service.go:272-334 | over a whole run the client succeeds for a key at most once, plus once for each load of it that all callers had left and each value of it that expired, was evicted or was not stored |
| ServiceProtocol.AtMostOneSuccessfulCall | internal/service/service.go:272-334 | for a key without an abandoned load and without a lost value the client succeeds at most once in the whole run, however many requests race |
| ServiceProtocol.OneCallInFlight | internal/service/service.go:278-289 | of two upstream calls in flight for one key at least one has been abandoned by all its callers |
| ServiceProtocol.ValuesComeFromTheClient | internal/service/service.go:272-334 | what a request gets from the cache or from a load, and what the cache holds, was returned by the client for that very key; so errors are never cached |
| ServiceProtocol.StepKeeps | internal/service/service.go:272-334 | each step of request, load, cache and coalescer keeps the joint invariant |
| ServiceProtocol.ProtocolStep | internal/service/service.go:278-289 | every step of the service is a step of the coalescer protocol or leaves it alone |
| ServiceProtocol.RecheckKeeps | internal/service/service.go:279-281 | the second look into the cache keeps a late arrival from calling the client for a value that is there: every success stays accounted for |
| ServiceProtocol.AnsweredKeeps | internal/service/service.go:282-285 | a success is in the hands of the one load at work for its key, or of an abandoned one |
| ServiceProtocol.OtherKeeps | internal/cache/coalescer.go:65-161 | joining, returning and leaving keep every success accounted for, also when a load with an answer in hand is abandoned |
| ServiceProtocol.StoreKeeps | internal/service/service.go:286-288 | storing hands the success over from the load to the cache, or counts it as lost |
| ServiceOutcomes.StepSettles | internal/service/service.go:278-289 | an event settles the end of a load exactly when it decides it, a found second look, an answer or a failure of the client, and no later event decides it again |
| ServiceOutcomes.LoadsEndAsDecided | internal/service/service.go:278-289 | over every run a returned load ended with a value exactly if its second look found that value or the client returned it for that call, and with an error exactly if that call to the client failed |
| ServiceOutcomes.CallersReturnWhatWasDecided | internal/service/service.go:278-290 | a caller that returns from a load has what was decided for the very call it joined |
| ServiceOutcomes.ErrorsComeFromFailedCalls | internal/service/service.go:282-285 | an error returned to a caller means that the client failed for the call it had joined |
| ServiceOutcomes.RequestsAskTheCacheFirst | internal/service/service.go:273-277 | a request is answered from the cache exactly when it holds an unexpired value for the key |
| ServiceOutcomes.AnswersAreStored | internal/service/service.go:286-287 | an answer is stored under its key for the negative lifetime if it is empty and for the positive one otherwise, or not at all if that is not positive |
| Retry.NegativeDecimal | internal/anilibria/client.go:442-452 | the loop recognises exactly a minus sign followed by one or more digits |
| Retry.ParseRetryAfter | internal/anilibria/client.go:416-440 | every accepted delay lies between zero and the longest duration |
| Retry.SecondsAreUnderstood | internal/anilibria/client.go:416-430 | a delay in seconds is read and saturates without overflow if and only if the number fits an int64 |
| Retry.HugeDelayIsNotUnderstood | internal/anilibria/client.go:418-434 | the smallest number of seconds that is rejected |
| Retry.DatesAreUnderstood | internal/anilibria/client.go:431-439 | any other value is rejected, or is a date and the wait ends exactly then, at once if it has passed and saturated if it is too far |
| Retry.ParseRetryAfterMeans | internal/anilibria/client.go:416-440 | for every header: a numeral that fits an int64 gives its saturated seconds, otherwise a date the saturated time to it, otherwise nothing |
| Retry.Backoff | internal/anilibria/client.go:407-414 | local backoff lies between half its ceiling and the ceiling |
| Retry.BackoffGrows | internal/anilibria/client.go:407-414 | a later backoff is never shorter than an earlier one and never beyond the maximum |
| Retry.CeilingsDouble | internal/anilibria/client.go:408-411 | the ceiling is a quarter of a second and doubles from attempt to attempt up to five seconds |
| Retry.BackoffIsItsShare | internal/anilibria/client.go:412-413 | the backoff is the one whole number of nanoseconds that the random number picks from the upper half of the ceiling |
| Retry.DelayIsAsTold | internal/anilibria/client.go:318-321 | the delay chosen is the told one, or the local backoff if nothing was told, and no other |
| Retry.RefusalIsExact | internal/anilibria/client.go:461-463 | saturating subtraction does not matter: a wait is refused exactly when the deadline comes before its end |
| Retry.SharedRefusal | internal/anilibria/client.go:454-465 | with the effective deadline, refused exactly when the base or every waiting budget ends too early |
| SharedRetry.OnePatientCallerIsEnough | internal/anilibria/client.go:454-465 | in every reachable state of the coalescer, with the deadline that the loop of EffectiveDeadline answers in any order, the retry of a load with attached callers is refused exactly when all of them or the base run out before it; one with time enough keeps it alive |
| Client.IntervalLimiter.TryReserve | internal/anilibria/client.go:392-398 | one look at the clock is the step of the limiter that the client protocol takes, and starts stay spaced whatever the clock does |
| Client.StartsSpan | internal/anilibria/client.go:387-405 | any k + 1 consecutive starts span at least k intervals |
| Client.WindowBound | internal/anilibria/client.go:387-405 | no window of any length holds more than length / interval + 1 starts |
| Client.ReservesAsSoonAsAllowed | internal/anilibria/client.go:392-398 | a start is reserved exactly when the interval since the last one is over |
| Client.RetriesAreEarned | internal/anilibria/client.go:286-321 | another attempt follows exactly 429, 500, 502, 503 or 504 with a live context before the third attempt, success exactly a decoded 2xx, and every other way out reports the current attempt |
| Client.WaitsAreAsTold | internal/anilibria/client.go:296-321 | a turn waits for a given delay exactly after one of the five statuses before the third attempt, and exactly when the Retry-After value, or local backoff for want of one, asks for that delay |
| Client.KindTellsTheCause | internal/anilibria/client.go:286-314 | each error class is reported for exactly the statuses, errors and cancellations it stands for |
| Client.Gate.Acquire | internal/anilibria/client.go:367-381 | takes one slot exactly if the context lives and the gate has room, and none on every other exit |
| Client.Gate.Release | internal/anilibria/client.go:383-385 | gives one slot back |
| Client.GetJSON | internal/anilibria/client.go:268-327 | whatever happens, and however other requests use the gate meanwhile, each slot taken has been given back on return, the reported attempts are the exchanges made, and the loop never falls through to the panic |
| Client.AttemptsAreEarned | internal/anilibria/client.go:268-327 | at most three attempts, and exactly as many as follow each other by a status worth retrying and a wait that was as told, admitted and ran out |
| Client.EndsWithItsLastTurn | internal/anilibria/client.go:268-327 | the outcome is canceled without a status if the first attempt does not come to its exchange, and otherwise the one its last turn calls for |
| ClientProtocol.GateIsNeverExceeded | internal/anilibria/client.go:367-385 | in every reachable state of all requests together the slots in use are those between acquire and release, at most the capacity, and a slot can be taken exactly while they are fewer |
| ClientProtocol.EveryRequestIsInOrder | internal/anilibria/client.go:268-327 | each request has released every slot it took except in the three phases that hold one, none while backing off or after return; its counter stays within three, its outcome reports its exchanges, and each further exchange followed a retriable reply and an admitted wait that ran out and was as long as that reply told |
| ClientProtocol.StartsAreSpaced | internal/anilibria/client.go:387-405 | over all requests and retries one reserved start per exchange, k + 1 consecutive ones span k intervals, and no window holds more than length / interval + 1 |
| ClientProtocol.StepKeeps | internal/anilibria/client.go:268-405 | each step of any request keeps the joint invariant |
| ClientProtocol.MovedIsOk | internal/anilibria/client.go:268-327 | each step keeps attempt counter, history and outcome of its request in agreement |
| Pipeline.DistinctReleaseIDs | internal/service/service.go:447-461 | the loop returns the first occurrences in order, as many of them as the limit allows |
| Pipeline.DistinctFacts | internal/service/service.go:447-461 | these hold every ID of the input once |
| Pipeline.DistinctKeepsOrder | internal/service/service.go:447-461 | in the order of their first occurrences |
| Pipeline.FlattenedInOrder | internal/service/service.go:248-265 | the torrents of each loaded release stand behind those of the releases in front of it, in their own order |
| Pipeline.SucceededIsTheNumber | internal/service/service.go:247-263 | the succeeded branches are counted |
| Pipeline.FanOut | internal/service/service.go:232-241 | in whatever order the branches finish, each slot ends with the result for its own ID |
| Pipeline.LoadSearch | internal/service/service.go:217-270 | the answer is a function of the IDs and of what each load ends with, independent of completion order, and failed plus succeeded branches make the release count |
| Pipeline.SearchFailsOnlyCompletely | internal/service/service.go:246-269 | absent cancellation the search fails exactly when there are releases and every one failed |
| Pipeline.SearchAnswersInOrder | internal/service/service.go:246-269 | a search that is not cancelled and loads something answers all torrents of all loaded releases, each at the place its release gives it, and nothing else |
| Pipeline.Process | internal/service/service.go:336-403 | the loop, the sort and the context checks compute the ordered items of the first occurrences, or the cancellation |
| Pipeline.ItemExistsExactly | internal/service/service.go:351-388 | a torrent becomes an item exactly when its type is supported, its category asked for, its title parsed, its season the one asked for if one is, its range holding the episode asked for if one is, and its peers addable within 64 bits; and the item carries its fields |
| Pipeline.ProcessedFacts | internal/service/service.go:336-403 | the answer is strictly ordered, newest first and then by hash, and is a permutation of the items of the deduplicated input |
| Pipeline.AnswerIsNewestFirst | internal/service/service.go:393-398 | of two items of the answer the one in front is newer, or equally new with a hash that is smaller at the first difference |
| Pipeline.ProcessedIsTheOnlyOne | internal/service/service.go:393-398 | no other strictly ordered list holds these items |
| Pipeline.FirstOccurrenceDecides | internal/service/service.go:345-366 | a hash is in the answer exactly when its first torrent passes the filters, with that torrent's item; a later duplicate never revives it |
| Pipeline.OnlyTheFirstsMatter | internal/service/service.go:336-403 | inputs whose first occurrences are permutations of each other give the same answer |
| Pipeline.DedupeKeepsFirsts | internal/service/service.go:345-349 | deduplication keeps exactly the first torrent of each lower-case hash |
| Pipeline.LowerIsCaseBlind | internal/service/service.go:345 | two hashes count as one exactly when they differ at most in the case of their letters |
| Pipeline.StableSortSorts | internal/service/service.go:393-398 | sorting distinct hashes gives a strictly ordered permutation |
| Pipeline.BeforeIsStrictOrder | internal/service/service.go:393-398 | the comparison is a strict order, total on distinct hashes |
| Pipeline.LexLessExactly | internal/service/service.go:397 | one text is less than another exactly if it is smaller at the first place where they differ or a proper prefix |
| Pipeline.PageItems | internal/service/service.go:463-470 | the page is the stretch from the offset of length min(limit, max(0, total - offset)), and the conversion to int is exact for every 64-bit offset |
| Pipeline.PagesRebuildTheFeed | internal/service/service.go:463-470 | the pages at 0, limit, 2 * limit and so on put together are the whole list once |
| TechnicalPairs.MarkEmptyTechnicalPairs | internal/torznab/query.go:240-288 | the one-pass stack scan marks exactly what removing emptied pairs until none is left marks, for every nesting, unbalanced or mismatched brackets included |
| TechnicalPairs.SweepsAgree | internal/torznab/query.go:240-288 | the slow algorithm has one result, whatever order it removes pairs in |
| TechnicalPairs.EmptiedPairsAreIndependent | internal/torznab/query.go:264-282 | removing one emptied pair leaves every other one emptied, and the order of two removals does not matter |
| TechnicalPairs.MarkBytes | internal/torznab/query.go:379-388 | marks the range and says whether that changed anything |
| EdgeSeparators.LeadingScan | internal/torznab/query.go:303-333 | finds the leading run of spaces, separators and removed text, its separators, and whether a token is in it |
| EdgeSeparators.TrailingScan | internal/torznab/query.go:335-359 | the same from the end |
| EdgeSeparators.MarkTechnicalEdgeSeparators | internal/torznab/query.go:303-359 | marks exactly the unremoved separators of the leading and trailing runs that hold a token, sparing the one next to the title that belongs to it |
| QueryTokens.FindAllIsLeftmost | internal/torznab/query.go:70 | every place where a token matches is covered by a found token |
| QueryTokens.FindAllMatches | internal/torznab/query.go:70 | every found token is a match |
| TokenForms.TokensHaveTheseForms | internal/torznab/query.go:70 | every token found is one of the declared forms: a pair S1E2, 1x2, a word and a number, a letter and a number |
| TokenForms.TokensAreLongest | internal/torznab/query.go:70 | wherever such a form starts a token is found, and it is no shorter than any form that starts there |
| QueryTokens.ParseToken | internal/torznab/query.go:149-169 | an accepted token has a season in 1..999 or an episode in 1..9999 |
| TokenForms.PairForm | internal/torznab/query.go:150-154 | S, a number, white space or none, E and a number, in either case, are read as these two numbers if both are in bounds |
| TokenForms.CrossForm | internal/torznab/query.go:155-159 | two numbers with an x between them likewise |
| TokenForms.LetterForm | internal/torznab/query.go:160-167 | S and a number is a season, E and a number an episode |
| TokenForms.WordForm | internal/torznab/query.go:160-167 | the words Season, Ep and Episode with white space and a number likewise |
| QueryTokens.HasNumericContinuationAfter | internal/torznab/query.go:187-212 | the scan over spaces, separator and digits finds exactly a numeric continuation |
| QueryTokens.NumericContinuationBefore | internal/torznab/query.go:214-238 | the same backwards |
| TokenForms.ContinuesAfterExactly | internal/torznab/query.go:187-212 | a token continues exactly if white space or none, a continuation rune, white space or none and digits follow it, unless the separator is spaced on both sides and the number may belong to the title |
| TokenForms.ContinuesBeforeExactly | internal/torznab/query.go:214-238 | the same in front of a token, unless the separator is spaced on both sides |
| TokenForms.ContinuationsByCode | internal/torznab/query.go:191 | the five continuation runes by code point |
| QueryTokens.SkipSpaceForward | internal/torznab/query.go:390-399 | stops at the first rune that is no white space |
| QueryTokens.SkipSpaceBackward | internal/torznab/query.go:401-410 | stops behind the last rune that is no white space |
| Query.NormalizeQuery | internal/torznab/query.go:56-132 | fails exactly when the query is too long or has an unsupported token, or a filter is malformed or two sources disagree wherever they stand, and reports the first fault: length, explicit season, explicit episode, then the first faulty token, its text before its season before its episode; otherwise the effective numbers are exactly the supplied ones and the clean query is the query without the final marks, collapsed |
| Query.ReportedIsUnique | internal/torznab/query.go:57-97 | the inputs determine which parameter is reported |
| Query.MergeStep | internal/torznab/query.go:86-97 | the merged season and episode are, after each token, exactly what the sources so far supply |
| Query.ScanTokens | internal/torznab/query.go:70-103 | the token loop stops at the first faulty token, or gathers the values of all tokens and marks exactly the tokens |
| Query.BuildClean | internal/torznab/query.go:107-124 | the unmarked text with its white space collapsed and trimmed |
| Query.NoTitleTextIsLost | internal/torznab/query.go:98-124 | the letters and digits of the clean query are, in order, exactly those outside tokens, with the word boundaries of the text that is kept, and it is trimmed with single ASCII spaces |
| Query.CleanTextKeepsWords | internal/torznab/query.go:107-124 | two runes of the kept text stand next to each other in the clean text exactly if no white space stands between them in the kept text |
| Query.KeptInPlace | internal/torznab/query.go:107-122 | an unmarked rune is kept behind exactly the unmarked runes in front of it |
| Query.CleanupRemovesNoText | internal/torznab/query.go:98-105 | marks are only added, and everything removed besides tokens is a space or bracket of an emptied pair or a separator in an edge run that holds a token |
| Query.RemovedIsUnique | internal/torznab/query.go:104-105 | the query determines what is removed |
| Query.ParseExplicit | internal/torznab/query.go:134-147 | an accepted filter lies within its bounds |
| TokenForms.FilterForm | internal/torznab/query.go:134-147 | a number with or without its letter in either case, white space around it, is read as that number exactly if it is in bounds |
| Query.ByteLengthCounts | internal/torznab/query.go:57 | the length of a query counts the bytes of its UTF-8 form |
| Whitespace.CollapseKeepsText | internal/torznab/query.go:171-173 | collapsing keeps all other text in order and leaves single ASCII spaces inside only |
| Whitespace.TrimKeepsFields | internal/torznab/query.go:123-124 | trimming first does not change the words |
| Whitespace.TrimsExactly | internal/torznab/query.go:123 | trimming removes white space only, and all of it at both ends |
| Whitespace.CollapseKeepsWords | internal/torznab/query.go:171-173 | collapsing keeps every rune that is not white space, in order, and set apart from the one before it exactly if it was |
| Whitespace.FieldsOfJoin | internal/torznab/query.go:172 | joined words are found again as the fields |
| CleanedTitles.CollapsedIsRendered | internal/torznab/query.go:171-173 | a collapsed text is determined by its runes and the boundaries between them |
| CleanedTitles.FindOnlyTheTag | internal/torznab/query.go:70 | in a query without other digits the one token found is its episode tag |
| CleanedTitles.SlowMarksAre | internal/torznab/query.go:104 | of a tag in a pair of brackets all goes, the brackets included, and of a bare tag just the tag |
| CleanedTitles.TagInFront | internal/torznab/query.go:70-124 | the whole cleanup: a title behind an episode tag, in brackets or not, is what is left, with the last separator if it stands apart from the tag and clings to the title, whatever else stands between the two |
| CleanedTitles.TagBehind | internal/torznab/query.go:70-124 | the mirror image for a tag behind the title |
| CleanedTitles.TagSettles | internal/torznab/query.go:70-103 | such a query settles on the season and the episode of its tag and is not rejected |
| CleanedTitles.UntouchedWithoutTokens | internal/torznab/query.go:70-124 | a query without a token loses nothing but white space |
| CleanedTitles.GluedTagStays | internal/torznab/query.go:74-77 | a tag that touches a letter or a digit is no token: it stays, and no season or episode is taken from it |
| Runes.BracketsPairUp | internal/torznab/query.go:290-301 | round, square and curly brackets, each closed by its own kind |
| Runes.SeparatorsByCode | internal/torznab/query.go:412-414 | the ten separators by code point |
| Decimal.BoundedPositive | internal/torznab/title.go:223-229 | an accepted number lies between one and the maximum |
| Decimal.BoundedExactly | internal/torznab/title.go:223-229 | accepted are exactly the texts of digits whose value lies between one and the maximum |
| Decimal.ValueByPlaces | internal/torznab/title.go:224 | the first digit counts most |
| Decimal.PaddedReadsBack | internal/torznab/title.go:96-105 | a zero-padded number is read back as itself |
| Decimal.PaddedIsInjective | internal/torznab/title.go:96-105 | different numbers print differently |
| Decimal.PaddedWidth | internal/torznab/title.go:98 | numbers are printed with two digits, or as many as they have |
| QueryTokens.EpisodeTagReadsBack | internal/torznab/query.go:149-154 | for every season and episode the rendered tag is one token and is parsed as the same numbers |
| QueryTokens.SeasonTagReadsBack | internal/torznab/query.go:160-163 | the same for a season alone |
| Seasons.ParseSeason | internal/torznab/title.go:131-171 | the first complete explicit season decides, also that there is none; without one the first ordinal that is out of range or carries its English suffix; without either the Roman numeral at the end; in 1..999 |
| Seasons.NamesOneSeason | internal/torznab/title.go:131-171 | these rules leave one answer |
| Seasons.SeasonNameReadsBack | internal/torznab/title.go:132-147 | a season from 1 to 999 that is spelled out is read as its number |
| Seasons.OrdinalReadsBack | internal/torznab/title.go:149-161 | an ordinal is read as its number with its English suffix and as no season with any of the other three |
| Seasons.RomanSeason | internal/torznab/title.go:247-258 | the first number whose canonical form is the text, if one is |
| SeasonForms.ExplicitExactly | internal/torznab/title.go:34 | a match of the explicit expression is Season or Series, white space and a number, or S and a number, and is as long as any such text that starts there |
| SeasonForms.SeasonIsNamed | internal/torznab/title.go:132-147 | each of these texts names its number as the season, or none if it is out of bounds |
| SeasonForms.ContinuedSeasonIsNone | internal/torznab/title.go:136-138 | with a continuation rune and another number right behind it no season is named |
| SeasonForms.OrdinalExactly | internal/torznab/title.go:36 | a match of the ordinal expression is exactly a number, one of four suffixes, white space and Season |
| SeasonForms.SuffixFollowsEnglish | internal/torznab/title.go:231-245 | st, nd and rd after 1, 2 and 3 but not after 11, 12 and 13, and th after all others |
| SeasonForms.TableIsRoman | internal/torznab/title.go:248-251 | each numeral of the table has, by the rules of Roman numerals, the value of its place |
| SeasonForms.TableIsCanonical | internal/torznab/title.go:248-251 | and is the canonical numeral of it |
| SeasonForms.TrailingRomanExactly | internal/torznab/title.go:164 | the numeral found is exactly the Roman letters that end the text as a word of their own |
| SeasonForms.RomanIsNamed | internal/torznab/title.go:163-169 | a numeral up to twenty as the last word, in either case, names its value as the season of a title without digits |
| SeasonForms.YearGoes | internal/torznab/title.go:163 | a year at the end, in parentheses or not, goes with the white space around it |
| SeasonForms.OnlyYearsGo | internal/torznab/title.go:163 | and nothing else goes |
| SeasonForms.DistributorGoes | internal/torznab/title.go:79 | a dash and a distributor at the end, with or without its domain, go with the white space around them |
| SeasonForms.OnlyDistributorsGo | internal/torznab/title.go:79 | and nothing else goes |
| Title.ParseEpisodes | internal/torznab/title.go:173-205 | the last bracket group that is an episode expression decides, with 1 <= start <= end <= 9999 |
| Title.GroupRange | internal/torznab/title.go:191-202 | an accepted range lies within its bounds and does not run backwards |
| Title.GroupsExactly | internal/torznab/title.go:174 | the groups are exactly the texts between two brackets without another between them |
| Title.LastGroup | internal/torznab/title.go:174 | the group that comes last in the text is the last of the groups |
| TitleForms.LastOfRanges | internal/torznab/title.go:175-204 | of the groups that give a range the last one decides |
| TitleForms.SingleGroup | internal/torznab/title.go:176-202 | a number, bare or behind E or Ep, is a range of that one episode if it is in bounds |
| TitleForms.RangeGroup | internal/torznab/title.go:176-202 | two numbers with a dash of any of three kinds between them are a range if both are in bounds and do not run backwards |
| TitleForms.WordGroups | internal/torznab/title.go:176-202 | Episode and a number, and Episodes and two numbers with a dash, likewise |
| TitleForms.GroupsHaveTheseForms | internal/torznab/title.go:178-189 | and nothing else is read as episodes |
| TitleForms.DashesByCode | internal/torznab/title.go:41-44 | the three dashes by code point |
| Title.ParseTitle | internal/torznab/title.go:62-109 | fails exactly for a missing name, label or semantic title or an unknown type, with the first of these; otherwise the season is the one the title names, serial types carry a season, a movie carries one exactly when it carries episodes, and the title is rendered from these |
| TitleForms.DistributedTitleIsLeft | internal/torznab/title.go:75-79 | of a title, a distributor and whatever stands from the first bracket on, the title is left |
| TitleForms.PlainTitleIsLeft | internal/torznab/title.go:75-79 | a title that no distributor ends is left as it stands, without its white space and what stands from the first bracket on |
| Title.TagSpells | internal/torznab/title.go:97-105 | a tag is a space, S and the season, E and the first episode, and for a range -E and the last, each number in decimal with at least two digits |
| Title.MatchesExactly | internal/torznab/title.go:112-120 | a filter asks for that season and for a range that holds that episode, whichever of the two it has, and for nothing else |
| Title.OwnEpisodeTagMatches | internal/torznab/title.go:97-120 | metadata matches the filter parsed from its own single-episode tag, and other metadata matches it exactly when the season is the same and the range holds the episode |
| Title.OwnSeasonTagMatches | internal/torznab/title.go:97-120 | the tag of a season is read back as the filter that exactly the metadata of that season satisfies |
| Title.TagsAreInjective | internal/torznab/title.go:97-105 | tags determine season and episodes, ranges and missing parts included |
| Title.TagIsFoundInItsTitle | internal/torznab/title.go:96-106 | a tag between any two texts is found there as one complete token and parsed as its numbers |
| Title.NoMatchAcross | internal/torznab/query.go:70 | no token that starts in front of a rendered tag runs into it |
| JsonText.ValidJSONStringEncoding | internal/anilibria/models.go:235-279 | a quoted literal is accepted exactly when its inside splits into backslashes with a byte other than u, single and paired \u escapes, ASCII bytes and well-formed UTF-8 sequences; the index always advances and stays inside |
| JsonUtf8.AcceptedIsUtf8Exactly | internal/anilibria/models.go:239-278 | an accepted text is well-formed UTF-8 if and only if no escape is a backslash and a byte beyond ASCII |
| JsonUtf8.AcceptsExactlyUtf8 | internal/anilibria/models.go:239-278 | without such escapes acceptance is well-formed UTF-8 with complete escapes and paired surrogates |
| JsonUtf8.ShortEscapesAreBytes | internal/anilibria/models.go:244-247 | one literal that is accepted without being UTF-8 and one that is rejected although it is |
| JsonUtf8.QuotesAndControlsPass | internal/anilibria/models.go:268-271 | bare quotes and control characters are accepted |
| JsonUtf8.UnitStep | internal/anilibria/models.go:240-276 | any other unit is passed alike by the UTF-8 reader and the two escape readers |
| JsonText.UnitAt | internal/anilibria/models.go:240-276 | one turn of the loop finds the one unit at the index, if there is one |
| JsonText.UnitsArePrefixFree | internal/anilibria/models.go:240-276 | at most one unit starts at any place |
| JsonText.SplitsByNextUnit | internal/anilibria/models.go:239-278 | so reading greedily never misses a split |
| JsonText.JsonHexQuad | internal/anilibria/models.go:281-300 | four hexadecimal digits and their value, within 16 bits, or failure |
| JsonText.HexDigits | internal/anilibria/models.go:287-296 | the sixteen digits, letters in either case, with their values |
| JsonText.QuadByPlaces | internal/anilibria/models.go:281-300 | the first digit of a quad counts most |
| JsonText.QuadStaysInside | internal/anilibria/models.go:248-262 | reading a quad over the whole literal is reading it inside the quotes, because a quote is no hexadecimal digit |
| JsonText.DecodesExactlyTheEncodings | internal/anilibria/models.go:272-276 | the decoder accepts exactly the encodings of scalar values beyond ASCII |
| JsonText.EncodingCarriesItsScalar | internal/anilibria/models.go:272-276 | the bytes of an encoding carry its scalar value, the lead byte the highest bits |

## Left out

- HTTP routing, authentication, logging, request IDs, process lifecycle and configuration loading.
- XML rendering, magnet and base URL handling, JSON decoding and number parsing; decoded values are inputs.
- Liveness and fairness: a request in the limiter can be overtaken for ever, and nothing is claimed about it.
- Time arithmetic beyond int64 outside Retry-After and the retry deadline: `now.Add(ttl)` and the limiter's `now.Add(interval)` are unbounded sums.
- The wrap-around of the 64-bit waiter number after 2^64 joins of one call.
- `container/list` is a sequence of elements; its own links are not modelled.
- `sort.SliceStable` is an insertion sort with the same comparison; since the result is unique, the algorithm does not matter.
- Regular expressions: the query tokens, bracket groups and episode expressions are written as scanners, and so are the season expressions, the trailing year and numeral and the distributor suffix of titles.
- Unicode tables of letters and digits are parameters that are disjoint from spaces, separators and brackets and contain the ASCII ones.
- Lower-casing covers ASCII, which is all that a hash validated by the client contains.
- Invalid UTF-8 in queries and labels, which the HTTP layer and the string check keep out.
- Copies of slices made by `cloneIDs` and `cloneTorrents`: values cannot be aliased here.
- The loads of the fan-out are results by ID; their path through the cache and the coalescer is the service protocol.
- The counters of cache hits and misses and the sampling of rejected torrents for the log.
- Checking single torrents (`validateTorrent`, `validTorrents`): independent field checks.
- Parsing of the category parameter; only its matching rule is used.
- CoalescerProtocol.ReachableIsSound: the contexts of loads are modelled by who has cancelled them; how a load reacts to its cancelled context is left open, so it may return anything at any time.
- ServiceProtocol.SuccessesAreBounded: counts successful upstream calls; failed ones may repeat, as in the source.
