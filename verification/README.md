# Job tracker: verified model

A Dafny model of the parts of the job application tracker that hold state over many requests or
parse what strangers send, with proofs of what those parts promise. `dafny verify dfyconfig.toml`
checks all of it.

Strings are byte strings, one `char` a byte, as in Go; integers are unbounded. What the program
takes from outside is a parameter: SHA-256 and HMAC (RFC 2104) are arbitrary functions, clocks are
sequences of readings, random values and identifiers are arguments, and the parsers of `net/netip`
and `net/url` are partial functions.

## What is modelled

- **Rate limiter** (`BucketNames`, `Counters`, `MemoryStore`, `RedisStore`, `Limiter`,
  `LimiterRuns`, `LimiterKeys`, `LimiterBounds`, `LimiterOrder`, `StoreCounts`, `StoreRuns`,
  `Interleaving`, `Sleepers`, `Login`, `LoginInterleaving`). Buckets are named by the aligned window
  a first clock reading falls in and expire one window after their first hit, on a second reading.
  `Counters` says what a store means as a history of hits and clears. `MemoryStore` changes its
  buckets in place and is proved to follow it; `RedisStore` runs the script's three commands over
  expiring keys. `Limiter` consumes every rule of every key over either store. `LimiterRuns` proves
  that, with one reading per call, its decisions are those of counting the requests of the current
  window, and `LimiterKeys` that calls of other keys leave them alone. `StoreCounts` and `StoreRuns`
  state the limits over either store while requests and replies are lost, as the program deploys it
  (`backend/cmd/api/main.go:99`). `Interleaving` drops the single reading and lets goroutines sleep
  between naming and counting. `Login` puts the limiter in front of the password check, and
  `LoginInterleaving` states the cap on attempts for interleaved ones.
- **Client addresses** (`ForwardedHeader`, `ClientIp`, `ClientAnswers`, `OpenQuotes`,
  `TrustedProxies`). The quote-aware splitter of the `Forwarded` header, related to the grammar in
  section 4 of RFC 7239; the chain of hops from both header families; the walk from the right past
  trusted proxies, and the answer said of the header text; what text with an open quote does.
- **Sessions and CSRF** (`Csrf`, `CsrfProtocol`, `CsrfSessions`, `CsrfClient`). Signed tokens bound
  to a session, the server's guards and handlers as transitions over one browser's two cookies and
  the live sessions, what begins and ends a session, and the page's request function with its one
  retry.
- **Applications** (`Sanitising`, `Recleaning`, `Domain`, `Listings`, `Applications`,
  `ApplicationRuns`, `Paging`, `ApplicationAnswers`). Cleaning of text, the five owner-scoped
  operations on a map from id to document, PATCH as a map of fields, the sorted listing and the
  client's walk over its pages. `ApplicationAnswers` says what a client reads off the answers, field
  by field.
- **Accounts** (`Emails`, `Accounts`, `AccountRuns`). Folded addresses, the startup migration in
  which any call to the database may lose its request or its reply, signups under the unique index,
  and what an account holds over runs of signups and password changes.

`Text` and `Wrappers` hold what several of these share.

## Where the code differs from what is said of it

The model follows the code.

- `README.md:206` says login is not rate limited; `backend/internal/http/handlers/auth.go:112`
  limits it, and `Login.AttemptCap` states the cap.
- `Retry-After` (`backend/internal/rate-limiter/middleware.go:125`) drops the fraction of a second,
  and waiting for all of RetryAfter refills the rules that tripped but not one that was exactly at
  its limit: `HeaderCoversWait`, `WaitingSuffices`, `WaitingMayNotBeEnough`.
- The client's retry (`frontend/src/api.ts:171-179`) is meant to recover from any stale token. It
  cannot when the session cookie holds "!", since no token verifies for such an id, nor when it holds
  "%", a space or a comma, since the script percent-decodes what it reads and Go writes a value with a
  space or comma quoted. Nor can it when the CSRF cookie itself, which any page of the host can write,
  holds a character above U+00FF: the script finds a token, `fetch` refuses the header, and no retry
  is made (`WideCookieIsNotRecovered`). From an empty jar the server never leads to any of these
  (`ServerWrittenJarsSucceed`). `RequestSucceeds` gives the exact condition.
- Agreement of the two stores: on a server that still serves a key in the millisecond its expiry
  names, they agree on a history exactly when no hit lands in that millisecond (`HistoriesAgree`;
  `LingeringStoresDisagree` is an instance). A limiter whose calls read the clock once never reaches
  that instant (`LimitersAgree`).
- A limit bounds the attempts counted before the window their bucket is named for ends. An attempt that
  sleeps past that end between naming and counting can be admitted on top (`SleeperIsAdmitted`).
- The migration (`backend/internal/common/mongoWrap/client.go:129-137`) keeps the old unique index
  until the backfill is complete. If two addresses then turn out to fold together the new index cannot
  be created, and the collection is left with neither: `EnsureIndexes`, and a collection on which it
  happens in `CollisionLosesBothIndexes`.
- Cleaning is not idempotent: saving a value that was read back escapes its "&" again, and drops a
  space the cut left at the end. `Recleaning.CleanAgain` says exactly which values are stable.
- The split of a `Forwarded` header relies on the text in front of the proxy's own record closing its
  quotes, and nothing makes it. If it leaves one open, a header without backslashes that is well formed
  by itself is always dropped whole; then, if there is no platform header, no X-Forwarded-For line and
  no other Forwarded line, the peer is used. A header with an escaped quote may instead
  be accepted with the proxy's record swallowed by the sender's, whose own "for" then decides
  (`OpenQuoteDrops`, `OpenQuoteMerges`, `OpenQuoteChoosesTheAddress`). `HarmlessIffBalanced` has the
  exact condition.

## Model

| member | source | states |
|---|---|---|
| `Text.FieldsUnique` | backend/internal/rate-limiter/limiter.go:183-184 | A text joined from two fields by a separator the first field lacks can be taken apart in one way only |
| `Text.SplitAtSeparator` | backend/internal/rate-limiter/clientip.go:176 | Splitting a text at one of its separators splits the two sides independently, for any texts |
| `Text.TrimSpaceTakesOnlyWhiteSpace` | backend/internal/rate-limiter/clientip.go:215 | Trimming takes whole white-space runes, ASCII or Unicode, off both ends until none is left there, and leaves the rest as it is |
| `BucketNames.SameWindow` | backend/internal/rate-limiter/limiter.go:181 | Two instants truncate to the same window start exactly when neither lies a window after it, and later instants never truncate earlier |
| `BucketNames.WindowStartUnique` | backend/internal/rate-limiter/limiter.go:181 | For whole-second windows the printed Unix second identifies the aligned window |
| `BucketNames.DecimalInjective` | backend/internal/rate-limiter/limiter.go:183-184 | Printing an integer in decimal, sign included, loses nothing |
| `BucketNames.HexInjective` | backend/internal/rate-limiter/limiter.go:184 | Printing bytes in hexadecimal loses nothing |
| `BucketNames.NameInjective` | backend/internal/rate-limiter/limiter.go:179-185 | Two printed bucket names are equal if and only if scope, type, window length and the first 128 bits of the digests agree and the two clock readings fall in one aligned window |
| `BucketNames.ValuesOwnTheirBuckets` | backend/internal/rate-limiter/limiter.go:179-185 | Said of the digest itself: two charges share a bucket name if and only if scope, type, window length and the first 128 bits of the digests of their values agree in one aligned window |
| `Counters.SweptStoresAgree` | backend/internal/rate-limiter/memory.go:74-80 | Under a nondecreasing clock a store that is swept on every hit and one that never is hold the same live buckets |
| `Counters.SweepIsInvisible` | backend/internal/rate-limiter/memory.go:41-56 | Every hit gets the count and remaining life that a never-swept store would give |
| `Counters.StoreStaysSmall` | backend/internal/rate-limiter/memory.go:68-80 | Right after a hit the map has no more entries than distinct names hit within the longest window |
| `Counters.CountsSinceClear` | backend/internal/rate-limiter/memory.go:41-56 | Until the aligned window in its name ends, a bucket counts the hits since its last clear and expires one window after the first of them |
| `Counters.ReplyCountsHistory` | backend/internal/rate-limiter/memory.go:41-56 | The reply to a hit is the number of hits since the last clear, itself included, and the life left from the first of them |
| `Counters.LimitHolds` | backend/internal/rate-limiter/memory.go:41-56 | For any ordered history, between clears of a bucket at most `limit` of the hits read before its window ends are answered with a count within the limit |
| `Counters.CountIsSince` | backend/internal/rate-limiter/memory.go:41-56 | With one window length per name and any start, the count answered is the number of hits since the last clear if and only if there was none before or one window has not passed since the first; otherwise it is smaller |
| `Counters.AliveLimit` | backend/internal/rate-limiter/memory.go:41-56 | Between clears at most `limit` of exactly those hits are admitted |
| `MemoryStores.MemoryStore.constructor` | backend/internal/rate-limiter/memory.go:30-39 | The store starts empty |
| `MemoryStores.MemoryStore.Sweep` | backend/internal/rate-limiter/memory.go:74-80 | The loop leaves exactly the buckets that have not expired, unchanged |
| `MemoryStores.MemoryStore.Open` | backend/internal/rate-limiter/memory.go:47-52 | Yields the live bucket of a name, or a new empty one that expires one window from now |
| `MemoryStores.MemoryStore.Count` | backend/internal/rate-limiter/memory.go:54 | Counts in place; no other bucket changes |
| `MemoryStores.MemoryStore.Incr` | backend/internal/rate-limiter/memory.go:41-56 | The whole new map and the reply are those of one hit on the specification store |
| `MemoryStores.MemoryStore.Del` | backend/internal/rate-limiter/memory.go:58-66 | Removes exactly the named buckets |
| `RedisStores.RedisStore.IncrScript` | backend/internal/rate-limiter/redis.go:32-36 | INCR, PEXPIRE on the first hit only, PTTL, as one step |
| `RedisStores.RedisStore.Incr` | backend/internal/rate-limiter/redis.go:40-67 | A lost request changes nothing, a lost reply has still counted, and a negative PTTL is reported as a whole window |
| `RedisStores.RedisStore.Del` | backend/internal/rate-limiter/redis.go:69-77 | No keys means no call; otherwise exactly the named keys go |
| `RedisStores.EveryKeyExpires` | backend/internal/rate-limiter/redis.go:32-67 | In every state reachable by hits and clears each key carries an expiry |
| `RedisStores.StoresAgree` | backend/internal/rate-limiter/redis.go:40-67 | On one millisecond clock, after a history in which no hit landed on its bucket's expiry, both stores answer the next hit alike if and only if it does not either or the server no longer serves a key in the millisecond its expiry names |
| `RedisStores.HistoriesAgree` | backend/internal/rate-limiter/redis.go:32-67 | For every ordered whole-millisecond history, a server that still serves a key in that millisecond answers every hit as memory does if and only if no hit lands in the expiry of its bucket |
| `RedisStores.LingeringStoresDisagree` | backend/internal/rate-limiter/redis.go:40-67 | An instance: a second hit exactly one window after the first is answered 1 by memory and 2 by such a server |
| `RedisStores.ShortWindowsCountOne` | backend/internal/rate-limiter/redis.go:60-65 | A window under a millisecond keeps no key, and every hit is answered with a count of one and a whole window |
| `Limiters.Limiter.constructor` | backend/internal/rate-limiter/limiter.go:115-121 | A limiter is its store, policy and clock, with no reading taken |
| `Limiters.Limiter.Incr` | backend/internal/rate-limiter/limiter.go:61-64 | Either store answers and changes as one hit does; memory never fails |
| `Limiters.Limiter.Consume` | backend/internal/rate-limiter/limiter.go:136-149 | One rule reads the clock twice, names with the first and counts with the second reading, and folds the reply into the decision |
| `Limiters.Limiter.Allow` | backend/internal/rate-limiter/limiter.go:123-154 | Without a store error every rule of every key is consumed once, in order, whatever the earlier replies were; with one the call stops there and denies for that window |
| `Limiters.Limiter.NameAll` | backend/internal/rate-limiter/limiter.go:157-162 | Names every bucket the keys address |
| `Limiters.Limiter.Reset` | backend/internal/rate-limiter/limiter.go:156-167 | Deletes exactly the named buckets, makes no call when there are none, and reports success exactly when there were none or the store answered |
| `Limiters.ChargesPrefix` | backend/internal/rate-limiter/limiter.go:126-135 | What has been consumed part-way through the two loops is a prefix of what the call consumes |
| `LimiterRuns.ChargesMembers` | backend/internal/rate-limiter/limiter.go:126-135 | A call consumes exactly its keys paired with their rules |
| `LimiterRuns.PromptHitsStayInWindow` | backend/internal/rate-limiter/limiter.go:179-185 | With one reading per call, all hits on a bucket name fall in the window it names and use its length |
| `LimiterRuns.SpentIsSince` | backend/internal/rate-limiter/limiter.go:123-167 | The hits on a bucket since its last clear are the charges to that counter in the current aligned window since the last Reset |
| `LimiterRuns.VerdictMeaning` | backend/internal/rate-limiter/limiter.go:141-149 | A decision allows exactly when no rule is over its limit, and its wait covers the remaining life of every rule that is |
| `LimiterRuns.WaitIsSomeRules` | backend/internal/rate-limiter/limiter.go:146-148 | A positive wait is the remaining life of some tripped rule |
| `LimiterRuns.ReplyToCharge` | backend/internal/rate-limiter/limiter.go:136 | The count answered is this window's spending so far plus one; the life left is positive, at most the window, and never ends before the aligned window does |
| `LimiterRuns.AllowedIffRoom` | backend/internal/rate-limiter/limiter.go:123-154 | Refinement: over every run, a call whose rules own distinct counters is allowed if and only if each counter has been charged fewer times than its limit in the current aligned window since its last Reset |
| `LimiterRuns.AllowedFindsRoom` | backend/internal/rate-limiter/limiter.go:141-149 | Even when counters coincide an allowed call found room in every one |
| `LimiterKeys.SharingSpends` | backend/internal/rate-limiter/limiter.go:179-185 | Calls that share no key with a call never charge or clear a counter of it, where the first 128 bits of the digests tell their values apart |
| `LimiterKeys.OtherKeysDoNotMatter` | backend/internal/rate-limiter/limiter.go:123-185 | Over every run whose key values the first 128 bits tell apart, the verdict and the wait of a call are those of the run with every call sharing no key with it removed |
| `LimiterKeys.OtherKeysDoNotMatterOverRedis` | backend/internal/rate-limiter/redis.go:32-67 | The same over Redis on whole-millisecond readings, whether or not keys linger |
| `StoreCounts.ServedIsReached` | backend/internal/rate-limiter/redis.go:40-67 | Whatever requests and replies are lost, the store holds the replay of the calls that arrived |
| `StoreCounts.RedisCountsSinceClear` | backend/internal/rate-limiter/redis.go:32-67 | On any readings a Redis key named after an aligned window cannot have expired before it ends and counts the hits since its last clear |
| `StoreCounts.AnswerCounts` | backend/internal/rate-limiter/limiter.go:136 | Over either store with any faults, an answer before the window ends is the number of hits that arrived since the last clear that arrived |
| `StoreCounts.LimitHoldsOver` | backend/internal/rate-limiter/limiter.go:136-141 | Over either store with any faults, between clears that arrive at most `limit` hits read before the aligned window ends are answered within it |
| `StoreRuns.AllowedMeaning` | backend/internal/rate-limiter/limiter.go:135-150 | A call is let through if and only if every one of its hits is answered with a count within its rule; a store error denies |
| `StoreRuns.ClassFollowsStore` | backend/internal/rate-limiter/limiter.go:123-154 | What Allow does to either store with one clock value, also when it stops at a store error, is a step of the run, with the same decision |
| `StoreRuns.ResetFollowsStore` | backend/internal/rate-limiter/limiter.go:156-167 | The same for Reset |
| `StoreRuns.MemoryRunsAgree` | backend/internal/rate-limiter/memory.go:41-56 | Over memory these runs and decisions are those of `LimiterRuns` |
| `StoreRuns.AllowedIsWithin` | backend/internal/rate-limiter/limiter.go:141-149 | A call let through was within each of its rules |
| `StoreRuns.WindowCap` | backend/internal/rate-limiter/limiter.go:123-154 | Over either store with any requests and replies lost: between Resets at most `limit` calls read in one aligned window are within a rule for one key, whatever their other rules said |
| `StoreRuns.SlidingBound` | backend/internal/rate-limiter/limiter.go:66-94 | Over either store with any faults, in every half-open interval of length T at most limit × (ceil(T / window) + 1) calls are within a rule for one key, so at most 2 × limit in one window |
| `LimiterBounds.RetryAfterMeaning` | backend/internal/rate-limiter/limiter.go:141-149 | On a denial RetryAfter is positive, at most the window of a rule that tripped, equal to its remaining life, and covers every other tripped rule |
| `LimiterBounds.LifeFromFirstCharge` | backend/internal/rate-limiter/memory.go:47-55 | The life answered ends exactly one window after the first charge to the counter in the current window since its last reset, or after this one when there was none |
| `LimiterBounds.RefillInstant` | backend/internal/rate-limiter/limiter.go:141-149 | With no other traffic a tripped rule has room again at an instant if and only if its aligned window is over |
| `LimiterBounds.WaitingSuffices` | backend/internal/rate-limiter/limiter.go:143-148 | Once RetryAfter has elapsed every rule that tripped has room |
| `LimiterBounds.NextDecision` | backend/internal/rate-limiter/limiter.go:123-154 | Exactly when the same call is allowed later, for all its rules at once |
| `LimiterBounds.HeaderCoversWait` | backend/internal/rate-limiter/middleware.go:124-131 | The Retry-After header covers the wait if and only if the wait is at most a second or a whole number of seconds |
| `LimiterBounds.WaitingMayNotBeEnough` | backend/internal/rate-limiter/middleware.go:124-131 | A run in which a client that obeys the header comes back early, and one that waits all of RetryAfter is refused by a rule that was at its limit but not over it |
| `LimiterOrder.ClassFollowsRun` | backend/internal/rate-limiter/limiter.go:123-167 | What Allow and Reset leave in a memory store, read with one clock value, is what the run semantics says |
| `LimiterOrder.PermutedCharges` | backend/internal/rate-limiter/limiter.go:126-135 | Permuting the keys permutes what is consumed |
| `LimiterOrder.CallLeaves` | backend/internal/rate-limiter/memory.go:41-56 | What a call leaves in each bucket, with no reference to order |
| `LimiterOrder.VerdictWithoutOrder` | backend/internal/rate-limiter/limiter.go:141-149 | A decision over distinct counters, described without order |
| `LimiterOrder.OrderDoesNotMatter` | backend/internal/rate-limiter/limiter.go:123-154 | Every permutation of the keys gives the same decision, the same wait and the same counters |
| `LimiterOrder.EveryBucketIsCountedOnce` | backend/internal/rate-limiter/limiter.go:135-150 | Each configured bucket is incremented once by a call, also after an earlier one denied |
| `LimiterOrder.LimitersAgree` | backend/internal/rate-limiter/redis.go:32-67 | On every run of whole-millisecond readings a limiter over Redis takes the decision and the wait of one over memory, whether or not keys linger through their last millisecond |
| `Interleaving.StepKeepsInv` | backend/internal/rate-limiter/limiter.go:135-136 | Every step of any goroutine, over either store with any faults, keeps: the store is the replay of the log, readings are ordered, answers are the store's, names were read before they were counted |
| `Interleaving.ReachableInv` | backend/internal/rate-limiter/limiter.go:123-167 | Hence every reachable state satisfies it |
| `Interleaving.LimitUnderInterleaving` | backend/internal/rate-limiter/limiter.go:135-150 | With goroutines interleaved arbitrarily between naming and the call on the store, over either store with any faults, between clears of a bucket at most `limit` hits read before its window ends are admitted |
| `Interleaving.StepKeepsAttempts` | backend/internal/rate-limiter/limiter.go:123-154 | Every step keeps: an attempt still allowed was within every rule it consumed and has the rest before it, and one that passed consumed every charge of its keys within its rule |
| `Interleaving.ReachableAttempts` | backend/internal/rate-limiter/limiter.go:123-154 | Hence in every reachable state |
| `Interleaving.PassingIsCounted` | backend/internal/rate-limiter/limiter.go:123-154 | No attempt passes without a hit, answered within its rule, for every rule of every key |
| `Interleaving.AttemptsUnderInterleaving` | backend/internal/rate-limiter/limiter.go:123-154 | Counted in attempts: between clears at most `limit` of those that pass hit a bucket before its aligned window ended |
| `Sleepers.SleeperIsAdmitted` | backend/internal/rate-limiter/limiter.go:135-136 | Reading before the end is needed: a reachable state in which, with a limit of one, two attempts passed on one bucket, the second having slept a window after naming it |
| `Emails.FoldingATrimmedAddress` | backend/internal/service/auth.go:321-323 | Folding the trimmed address, as signup does, and the typed one, as login does, agree |
| `Login.AllowRequest` | backend/internal/rate-limiter/middleware.go:68-102 | Over either store a request proceeds if and only if every bucket answered and no rule tripped; otherwise it is told to wait the seconds of the decision, or of the rule that met the store error, and at least one |
| `Login.Authenticate` | backend/internal/http/handlers/auth.go:107-140 | Over either store the password check decides the response if and only if every bucket answered and no rule tripped: only an accepted password logs in and clears the buckets, a wrong one is unauthorized and leaves the hits of the attempt counted, a broken check is an error |
| `Login.DefaultTable` | backend/internal/rate-limiter/limiter.go:76-94 | The default policy, in numbers: which rules every key has |
| `Login.ConcernedKeyIsCharged` | backend/internal/http/handlers/auth.go:107-112 | An attempt is charged to a login counter if and only if its client, or its trimmed and folded address, is that of the counter |
| `Login.AttemptsCountAndSuccessClears` | backend/internal/http/handlers/auth.go:107-136 | Every attempt adds to each counter of its client and of its address, and a success empties every one of them |
| `Login.OnlySuccessResets` | backend/internal/http/handlers/auth.go:132 | Nothing but a successful login to an address, or from a client, with the same first 128 bits of the digest clears its counter |
| `Login.ReachedIsPassed` | backend/internal/http/handlers/auth.go:107-116 | Attempts with a key that reach the password check are among the calls each rule of the key lets through |
| `Login.AttemptCap` | backend/internal/rate-limiter/limiter.go:82-85 | Over every run, over memory or Redis with any requests and replies lost, between successful logins to one folded address at most 5 attempts per aligned five minutes and 20 per aligned hour reach the password check, whatever spellings or client addresses are used |
| `Login.ClientCap` | backend/internal/rate-limiter/limiter.go:78-81 | The same for a client address between successful logins from it, whatever accounts it tries: 10 per aligned minute and 60 per aligned hour |
| `LoginInterleaving.PassingAttemptIsMarked` | backend/internal/http/handlers/auth.go:107-116 | Every attempt that passes with a key hit the counter of each of its rules, and is one of those counted in the window its bucket was named for if it counted before that ended |
| `LoginInterleaving.PassingLoginIsCounted` | backend/internal/http/handlers/auth.go:107-116 | With goroutines interleaved, a login that passes has a hit, answered within the limit, in each counter of its client and of the address its spelling folds to |
| `LoginInterleaving.AttemptCapUnderInterleaving` | backend/internal/http/handlers/auth.go:107-116 | With goroutines interleaved over either store with any faults: between clears of an address's buckets at most 5 and 20 of the attempts that pass hit one aligned window's bucket before it ended; only attempts that pass reach the password check |
| `LoginInterleaving.ClientCapUnderInterleaving` | backend/internal/http/handlers/auth.go:107-116 | The same for a client address: 10 and 60 |
| `ForwardedHeader.SplitForwarded` | backend/internal/rate-limiter/clientip.go:247-286 | The loop with its start index and two flags returns the trimmed pieces, or nothing when the header ends inside quotes |
| `ForwardedHeader.PiecesJoinBack` | backend/internal/rate-limiter/clientip.go:275-276 | The pieces before trimming, joined with commas, are the header |
| `ForwardedHeader.PiecesCountCommas` | backend/internal/rate-limiter/clientip.go:274-276 | There is one more piece than there are commas outside quotes |
| `ForwardedHeader.PiecesAreRecords` | backend/internal/rate-limiter/clientip.go:256-284 | Every piece of an accepted header is quote-balanced and has no comma outside quotes |
| `ForwardedHeader.PiecesSplitAtComma` | backend/internal/rate-limiter/clientip.go:271-277 | Quote-balanced text before a comma splits off, whatever follows |
| `ForwardedHeader.OneReading` | backend/internal/rate-limiter/clientip.go:247-286 | A list of records joins to a header if and only if the header is balanced and the list is its pieces |
| `ForwardedHeader.SplitAfterJoin` | backend/internal/rate-limiter/clientip.go:247-286 | Joining any nonempty list of trimmed balanced records without bare commas and splitting returns the list |
| `ForwardedHeader.SplitIsNormalForm` | backend/internal/rate-limiter/clientip.go:275-284 | Joining what was returned and splitting again changes nothing, so trimming never breaks a record |
| `ForwardedHeader.GrammarSplits` | backend/internal/rate-limiter/clientip.go:242-246 | Text built of bare characters and whole quoted strings is balanced and cut at its bare commas only |
| `ForwardedHeader.SplitFollowsGrammar` | backend/internal/rate-limiter/clientip.go:247-286 | Splitting succeeds if and only if the header is made of bare characters and quoted strings in the sense of section 4 of RFC 7239, and then cuts it at the bare commas and nowhere else |
| `ClientIps.ForValueIsRead` | backend/internal/rate-limiter/clientip.go:203-207 | A "for" parameter in any letter case gives its value back, bare or quoted |
| `ClientIps.FirstForDecides` | backend/internal/rate-limiter/clientip.go:202-209 | Parameters of other names are passed over and the first "for" ends the search |
| `ClientIps.ForwardedFor` | backend/internal/rate-limiter/clientip.go:201-210 | The first "for" parameter of a record decides, whether or not it parses |
| `ClientIps.ForwardedChain` | backend/internal/rate-limiter/clientip.go:172-198 | Both header families in order, every line of each, malformed Forwarded headers dropped whole |
| `ClientIps.Rightmost` | backend/internal/rate-limiter/clientip.go:115-120 | Yields an untrusted address of the chain, and none exactly when all are trusted |
| `ClientIps.ClientIP` | backend/internal/rate-limiter/clientip.go:95-124 | Peer, then platform header, then the walk from the right; a peer that is missing or untrusted is the answer whatever the headers say |
| `ClientAnswers.HeadersCountIffPeerTrusted` | backend/internal/rate-limiter/clientip.go:95-101 | Every header is ignored, and the peer answered, if and only if the peer is missing or not on the trust list |
| `ClientAnswers.StrangersHeadersDoNotMatter` | backend/internal/rate-limiter/clientip.go:98-101 | Two requests from one untrusted peer resolve alike with any headers |
| `ClientAnswers.PlatformHeaderIsTheAnswer` | backend/internal/rate-limiter/clientip.go:103-111 | From a trusted peer a platform header that parses is the answer, and any other is as if it were not there |
| `ClientAnswers.LineListsAddresses` | backend/internal/rate-limiter/clientip.go:175-181 | An X-Forwarded-For line of any parts contributes the addresses they parse to, in the order written, and nothing else |
| `ClientAnswers.EightNames` | backend/internal/rate-limiter/clientip.go:204 | The parameter is recognised under exactly the eight spellings of "for" |
| `ClientAnswers.OtherNamesAreNotRead` | backend/internal/rate-limiter/clientip.go:203-206 | A parameter of any other name names nobody |
| `ClientAnswers.HeaderListsAddresses` | backend/internal/rate-limiter/clientip.go:183-195 | A Forwarded header of records with a "for" parameter, bare or quoted, contributes the addresses they parse to, in order, and nothing else |
| `ClientAnswers.ChainIsWhatWasWritten` | backend/internal/rate-limiter/clientip.go:172-198 | The chain of a request is what its lines and headers list, X-Forwarded-For first |
| `ClientAnswers.RightmostUntrustedIsTheAnswer` | backend/internal/rate-limiter/clientip.go:113-120 | From a trusted peer without a platform header, an untrusted address followed in the chain by trusted ones only is the answer |
| `ClientAnswers.ClientIsLastUntrusted` | backend/internal/rate-limiter/clientip.go:95-124 | Said of the header text: the answer is the last address written that is not on the trust list, and the peer when there is none |
| `ClientIps.RightmostOfConcat` | backend/internal/rate-limiter/clientip.go:115-120 | An untrusted hop hides everything to its left; a fully trusted chain hides nothing |
| `ClientIps.XffTextDoesNotMatter` | backend/internal/rate-limiter/clientip.go:175-181 | Any text and a comma before the first X-Forwarded-For value leaves the client address alone as soon as the chain holds an untrusted address; when it holds none the rightmost untrusted address of the text is the answer |
| `ClientIps.XffLinesDoNotMatter` | backend/internal/rate-limiter/clientip.go:175-181 | The same for whole X-Forwarded-For lines added before the others |
| `ClientIps.ForwardedTextDoesNotMatter` | backend/internal/rate-limiter/clientip.go:183-195 | The same for quote-balanced text before a single Forwarded value |
| `OpenQuotes.OpenQuoteDrops` | backend/internal/rate-limiter/clientip.go:247-286 | Behind text that leaves a quote open a header is accepted if and only if, read from inside a quoted string, it ends outside one; without backslashes that is if and only if the header alone is malformed, so every well-formed header without backslashes, quoted IPv6 included, is dropped |
| `OpenQuotes.OpenQuoteHidesTheChain` | backend/internal/rate-limiter/clientip.go:184-189 | A header dropped that way leaves no chain, and the peer is used |
| `OpenQuotes.PiecesMerge` | backend/internal/rate-limiter/clientip.go:253-278 | Splitting balanced text followed by anything joins only the two pieces that meet |
| `OpenQuotes.OpenQuoteMerges` | backend/internal/rate-limiter/clientip.go:253-285 | Which records result when such a header is accepted: those of the text, its open piece joined with the header up to the first closing quote and the next bare comma, and the rest |
| `OpenQuotes.OpenQuoteChoosesTheAddress` | backend/internal/rate-limiter/clientip.go:201-210 | With one escaped quote in a well-formed header, text with an open quote in front replaces the client address by the one it names itself |
| `OpenQuotes.HarmlessIffBalanced` | backend/internal/rate-limiter/clientip.go:183-195 | Text before a single Forwarded value is harmless for every header, parser, trust list and peer if and only if it is quote-balanced |
| `TrustedProxies.ParseTrustedProxies` | backend/internal/rate-limiter/clientip.go:290-310 | Refused if and only if an entry that is not blank describes nothing; otherwise an address is trusted if and only if some entry describes it |
| `TrustedProxies.MaskedContainsTheSame` | backend/internal/rate-limiter/clientip.go:299-301 | Clearing the host bits of a prefix changes nothing about what it contains |
| `TrustedProxies.BareAddressIsOneHost` | backend/internal/rate-limiter/clientip.go:303-307 | A bare address admits itself alone |
| `TrustedProxies.PrefixIsABlock` | backend/internal/rate-limiter/clientip.go:86-93 | A prefix contains an address of its family without zone if and only if both lie in one aligned block of its size |
| `TrustedProxies.IsTrusted` | backend/internal/rate-limiter/clientip.go:86-93 | True exactly when some prefix contains the address |
| `TrustedProxies.SameClient` | backend/internal/rate-limiter/clientip.go:137-149 | Two addresses get one bucket value if and only if they are the same IPv4 host or share an IPv6 /64 |
| `Base64Url.EncodeAlphabet` | backend/internal/authentication/csrf.go:50 | base64url output (section 5 of RFC 4648) contains neither separator |
| `Base64Url.DecodeEncode` | backend/internal/authentication/csrf.go:50 | The encoding reads back to the bytes, so no two byte strings share one |
| `Cookies.CookieRoundTrip` | backend/internal/authentication/csrf.go:112-125 | A value of cookie bytes survives being written, stored and read |
| `CsrfTokens.VerifySigned` | backend/internal/authentication/csrf.go:65-85 | A signed message verifies exactly for what follows its last "!" |
| `CsrfTokens.TokenBinding` | backend/internal/authentication/csrf.go:54-85 | A minted token verifies for a session if and only if that is the part of the id it was minted for after its last "!"; so for ids without "!" exactly for that id, and for an id with "!" never for itself |
| `CsrfTokens.AcceptedTokens` | backend/internal/authentication/csrf.go:65-85 | Exactly which tokens are accepted: a message ending in "!" and the session id, followed by "." and the encoded authentication code of that message |
| `CsrfTokens.AcceptedUnderOneSecret` | backend/internal/authentication/csrf.go:65-85 | A token accepted under one secret carries the code of its message, and is accepted under another if and only if that gives the message the same code |
| `CsrfTokens.MintInjective` | backend/internal/authentication/csrf.go:54-61 | Two minted tokens are equal if and only if nonce and session are |
| `CsrfTokens.TokenBindsOneSession` | backend/internal/authentication/csrf.go:65-85 | No token is good for two sessions |
| `CsrfTokens.MintedIsCookieText` | backend/internal/authentication/csrf.go:54-61 | A token minted for a well-formed id is a well-formed cookie value |
| `CsrfTokens.SessionIdIsPlain` | backend/internal/authentication/session.go:60-65 | A generated session id contains no separator, escape, space or comma |
| `CsrfProtocol.SessionManager.CreateSession` | backend/internal/authentication/session.go:71-100 | A session is stored unless the write failed, and its cookie is returned only when the write and its expiry both succeeded |
| `CsrfProtocol.SessionManager.DeleteSession` | backend/internal/authentication/session.go:104-110 | Removes that session and no other |
| `CsrfProtocol.SessionManager.EnsureCSRFToken` | backend/internal/authentication/session.go:151-171 | Keeps a token that still verifies, otherwise sets one for the session presented |
| `CsrfProtocol.SessionManager.SignOut` | backend/internal/service/auth.go:118-209 | Ends the session presented and no other when the store answers, and leaves a token bound to the anonymous state, or no cookies at all when none can be minted |
| `CsrfProtocol.SessionManager.Handle` | backend/internal/authentication/middleware.go:51-120 | One request through the guards and its handler takes the transition of the protocol |
| `CsrfProtocol.FreshToken` | backend/internal/authentication/session.go:151-171 | A token written for the presented session verifies if and only if its id has no "!" |
| `CsrfProtocol.SafeRequestRestores` | backend/internal/authentication/session.go:151-171 | One safe request repairs any jar if and only if its session id has no "!" |
| `CsrfProtocol.StepKeepsJar` | backend/internal/service/auth.go:65-209 | Every request keeps the invariant, also when login, logout or a password change fails half-way |
| `CsrfProtocol.JarInvariant` | backend/internal/authentication/session.go:151-171 | In every reachable state the token is absent or bound to the session held |
| `CsrfProtocol.GoodJarPassesGuard` | backend/internal/authentication/middleware.go:66-93 | Such a jar passes the guard by echoing its token and by nothing else |
| `CsrfProtocol.LoginRotatesToken` | backend/internal/service/auth.go:91-103 | A login that hands out a new session retires the token that authorised it |
| `CsrfProtocol.EndedSessionsStayEnded` | backend/internal/service/auth.go:118-142 | A session that has ended never comes back unless its id is drawn again |
| `CsrfSessions.WhatBecomesOfASession` | backend/internal/service/auth.go:65-209 | One request ends a session if and only if it signs out of it with a deletion that works or expires it, begins one if and only if it is a login whose write succeeds, then for that user, and leaves every other session and its user alone |
| `CsrfSessions.RefusedRequestsChangeNothing` | backend/internal/authentication/middleware.go:51-93 | A request that fails the guard, a refused login and a refused password change or one without a live session change neither store nor jar |
| `CsrfSessions.SignedOutCookieIsWorthless` | backend/internal/service/auth.go:118-209 | After an accepted logout or password change whose deletion works, over any later requests no jar presenting the old id passes the session check until that id is drawn again |
| `CsrfSessions.SessionsLast` | backend/internal/service/auth.go:65-209 | Over any run a session nobody ends or draws again stays with its user |
| `CsrfSessions.LoginBegins` | backend/internal/service/auth.go:91-113 | After a login the browser presents the new id, which is live for that user |
| `CsrfSessions.SignOutLeavesNoSession` | backend/internal/service/auth.go:118-142 | After a sign-out the browser presents no session and its token is good for none; a password change leaves what a logout leaves |
| `CsrfSessions.IdsAreDrawn` | backend/internal/authentication/session.go:60-65 | Two session ids are equal if and only if one UUID was drawn twice |
| `CsrfClient.EnsureCsrfToken` | frontend/src/api.ts:48-65 | Which token the script finds and which jar it leaves |
| `CsrfClient.Request` | frontend/src/api.ts:147-190 | Sends, handler runs and outcome of a mutating request with its one retry |
| `CsrfClient.MintedEcho` | frontend/src/api.ts:38-46 | A written token comes back from the script as itself if and only if the session id has no "%", space or comma |
| `CsrfClient.CookieIsRead` | frontend/src/api.ts:38-46 | The script reads back every text up to U+00FF, each character written raw or percent-escaped in UTF-8 |
| `CsrfClient.HeaderArrives` | frontend/src/api.ts:152-166 | A header value arrives without the white space around it unless it holds a control character |
| `CsrfClient.RequestSucceeds` | frontend/src/api.ts:167-183 | From every jar: the handler runs exactly once within two sends if and only if the held token can be read and sent and either is accepted and echoes faithfully or is replaced for a session id without "!", "%", space and comma; otherwise it never runs |
| `CsrfClient.WideCookieIsNotRecovered` | frontend/src/api.ts:167-183 | A CSRF cookie with a raw character above U+00FF is never recovered from: nothing is sent and nothing retried |
| `CsrfClient.StepKeepsServerJar` | backend/internal/authentication/session.go:151-171 | Every request, also one that fails half-way, leaves a generated session or none and a token minted for what is presented or none |
| `CsrfClient.ServerWrittenJarsSucceed` | frontend/src/api.ts:167-183 | From an empty jar, after every run of requests, a mutating request runs its handler exactly once |
| `Sanitising.UnescapeEscape` | backend/internal/service/application.go:69 | Escaping loses nothing: decoding the five entities gives the text back |
| `Sanitising.Clean` | backend/internal/service/application.go:67-74 | At most `max` bytes, none of < > " ', and empty exactly when the trimmed text is |
| `Sanitising.CleanCutsOnlyTheEnd` | backend/internal/service/application.go:67-74 | What is stored is the beginning of an inert text that decodes to the trimmed one, and all of it unless the cap is reached |
| `Sanitising.EscapeStaysTrimmed` | backend/internal/service/application.go:68-69 | Escaping a trimmed text leaves it trimmed |
| `Recleaning.CleanKeepsText` | backend/internal/service/application.go:67-74 | For every text and cap, a stored value still decodes to the trimmed text if and only if its escape fits the cap, or the text ends in a beginning of "&amp;" and the cap cuts just that much of its escape |
| `Recleaning.CutOfEscape` | backend/internal/service/application.go:69-72 | Escaping a stored text again and cutting gives it back if and only if it holds no "&", or fills the cap with nothing but repetitions of "amp;" after its first one |
| `Recleaning.CleanAgain` | backend/internal/service/application.go:67-74 | For every text and cap, cleaning a stored value once more changes nothing if and only if it does not end in white space and either holds no "&" or fills the cap with nothing but repetitions of "amp;" after its first one; below the cap that is if and only if the text held none of the five escaped bytes |
| `Recleaning.CutLeavesASpace` | backend/internal/service/application.go:70-72 | A text without escaped bytes that cleaning twice changes, because the cut left a space |
| `Recleaning.AmpersandGrows` | backend/internal/service/application.go:69 | A text whose ampersand is escaped again on every save |
| `Sanitising.DistinctItems` | backend/internal/service/application.go:84-90 | Every nonempty item once and nothing else |
| `Sanitising.Cleaned` | backend/internal/service/application.go:76-97 | A list field holds bounded, nonempty, pairwise different, inert items |
| `Sanitising.CleanedKeepsTheFirst` | backend/internal/service/application.go:76-97 | The items stand in the order in which they first occur, and a nonempty item is left out only when as many as fit occur before it |
| `Sanitising.CleanList` | backend/internal/service/application.go:78-97 | The loop with its seen set and early break returns the first distinct nonempty cleaned items up to the cap |
| `Listings.Sorted` | backend/internal/common/mongoWrap/application.go:70-76 | The matching documents, each once, newest first with ties broken by id |
| `Listings.SortedIsUnique` | backend/internal/common/mongoWrap/application.go:70-74 | No other list has these documents in this order, so the order of pages is determined |
| `Listings.PagesArePrefix` | backend/internal/common/mongoWrap/application.go:75-76 | For every page size, consecutive pages are a prefix of the list: nothing repeated, nothing skipped |
| `Applications.Collection.CreateApplication` | backend/internal/common/mongoWrap/application.go:30-40 | Stamps id and times and inserts; a taken id is refused |
| `Applications.Collection.FindApplication` | backend/internal/common/mongoWrap/application.go:43-53 | Found exactly when the document exists and belongs to the caller |
| `Applications.Collection.UpdateApplication` | backend/internal/common/mongoWrap/application.go:121-147 | An empty set is a read; any other stamps updated_at and changes one owned document |
| `Applications.Collection.DeleteApplication` | backend/internal/common/mongoWrap/application.go:150-159 | Removes one owned document or reports it missing |
| `Applications.Service.Create` | backend/internal/service/application.go:142-201 | The checks in their order, the document built, and the whole new collection |
| `Applications.Service.Compensate` | backend/internal/service/application.go:126-136 | Amounts kept, free text and benefits cleaned |
| `Applications.Service.Get` | backend/internal/service/application.go:207-218 | A malformed application id reads as one that is not there |
| `Applications.Service.List` | backend/internal/service/application.go:220-260 | The refusals, the effective page number and size, and only documents of the caller with the status and the tag asked for |
| `Applications.Service.Update` | backend/internal/service/application.go:269-350 | Ids, then validation, then one scoped update: the whole new collection and the answer |
| `Applications.Service.BuildSet` | backend/internal/service/application.go:279-343 | The map filled field by field is the patch's set, or the first rejection in the order of the checks |
| `Applications.Service.AddFreeFields` | backend/internal/service/application.go:309-323 | The fields that are never rejected |
| `Applications.Service.AddNullables` | backend/internal/service/application.go:325-343 | The two nullable fields, each absent, cleared, malformed or replaced |
| `Applications.Service.ApplyNullable` | backend/internal/service/application.go:354-373 | Absent leaves the field alone, null clears it, a value replaces it, anything else is rejected |
| `Applications.Service.Delete` | backend/internal/service/application.go:379-388 | One scoped delete: the whole new collection and the answer |
| `Applications.SentUpTo` | backend/internal/service/application.go:279-343 | After n fields the map holds exactly what the patch says about those |
| `Applications.SameIdentifier` | backend/internal/service/application.go:400-410 | Two well-formed identifiers denote one document or user if and only if they differ in letter case only |
| `Applications.StepKeepsKeys` | backend/internal/common/mongoWrap/application.go:25-27 | Every operation keeps every document under its own id |
| `ApplicationRuns.SetIsGood` | backend/internal/service/application.go:279-343 | What an accepted patch stores is permitted for every field |
| `ApplicationRuns.CreatedIsGood` | backend/internal/service/application.go:152-194 | What Create builds is valid and belongs to the caller |
| `ApplicationRuns.StepKeepsGood` | backend/internal/service/application.go:142-388 | Every operation keeps every document valid |
| `ApplicationRuns.ReachableDocsAreValid` | backend/internal/service/application.go:29-46 | Over every run from an empty collection each document has a permitted status, bounded nonempty company and title, bounded duplicate-free lists, an empty or http(s) link, and no raw < > " ' in cleaned text |
| `ApplicationRuns.SetChangesOnlyItsFields` | backend/internal/common/mongoWrap/application.go:137-139 | An update gives the fields it names the values it names and leaves every other field alone |
| `ApplicationRuns.ApplySetKeepsIdentity` | backend/internal/common/mongoWrap/application.go:137-139 | Id, owner and creation time survive every update |
| `ApplicationRuns.SetsCompose` | backend/internal/common/mongoWrap/application.go:132-139 | Two updates in a row are one update by the right-biased union |
| `ApplicationRuns.MergeIsUnion` | backend/internal/domain/application_request.go:46-67 | Merging two accepted patches is accepted and says what both say, the later one winning |
| `ApplicationRuns.PatchesCompose` | backend/internal/service/application.go:269-350 | Two accepted patches in a row equal their merge on the whole collection and in the answer, updated_at being that of the last one that said anything |
| `ApplicationRuns.OwnStep` | backend/internal/common/mongoWrap/application.go:25-159 | A user's request is answered from that user's documents alone and changes only them |
| `ApplicationRuns.OtherStep` | backend/internal/common/mongoWrap/application.go:25-159 | Somebody else's request leaves a user's documents as they are |
| `ApplicationRuns.UsersDoNotInterfere` | backend/internal/common/mongoWrap/application.go:25-159 | For every interleaving of everybody's requests with fresh ids, one user gets exactly the answers of the run with all other users' requests removed, and ends with the same documents |
| `ApplicationRuns.UsersSeeOnlyTheirOwn` | backend/internal/common/mongoWrap/application.go:20-27 | The same from an empty collection |
| `ApplicationRuns.ForeignLooksAbsent` | backend/internal/common/mongoWrap/application.go:22-27 | Somebody else's document answers like one that was never there |
| `Paging.PagingIsExact` | backend/internal/service/application.go:237-259 | On an unchanging collection, for every effective page size, the pages the service answers concatenate to the sorted list of exactly the caller's documents with the status, the tag and the search text asked for |
| `ApplicationAnswers.ListedIffAsked` | backend/internal/common/mongoWrap/application.go:92-118 | Whatever the page size, a document is on some page if and only if it is stored, the caller's, has the status and the tag asked for, and holds the search text in its company, position, notes or a tag |
| `ApplicationAnswers.PagesInOrder` | backend/internal/common/mongoWrap/application.go:70-74 | Through all pages the later application date comes first, and of two alike the greater id |
| `ApplicationAnswers.SixListingsPartition` | backend/internal/domain/application_request.go:8-26 | Over validated documents the unfiltered listing is the disjoint union of the six listings by status, and the totals add up |
| `ApplicationAnswers.QueryRefusedIff` | backend/internal/service/application.go:225-236 | A query is answered if and only if the user is well formed, the status blank or one of the six, and the search at most 200 bytes |
| `ApplicationAnswers.PageAsked` | backend/internal/service/application.go:237-247 | Page numbers start at 1, sizes are 20 by default and 200 at most, and a page is full when there are enough documents |
| `ApplicationAnswers.IdentifierIff` | backend/internal/service/application.go:400-410 | Exactly texts of 24 hexadecimal digits are identifiers |
| `ApplicationAnswers.LinkIff` | backend/internal/service/application.go:104-120 | A link is accepted if and only if it is blank or an http or https URL with a host of at most 2000 bytes, and is kept trimmed |
| `ApplicationAnswers.CreatedIff` | backend/internal/service/application.go:142-201 | A document is made if and only if user, company, position, status and link pass and the id is free; otherwise nothing changes |
| `ApplicationAnswers.RefusedCreateNamesAFault` | backend/internal/service/application.go:152-172 | A refused request names a field that is at fault |
| `ApplicationAnswers.CreateThenGet` | backend/internal/service/application.go:142-218 | Reading a created document gives each field from the request's field of its own name, cleaned to its own cap, the defaults, the new id, its owner and the time |
| `ApplicationAnswers.GetIff` | backend/internal/service/application.go:207-218 | A document is read, as stored, if and only if its owner asks for its id; reading changes nothing |
| `ApplicationAnswers.DeleteThenGet` | backend/internal/service/application.go:379-388 | Deleting succeeds if and only if reading does, leaves every other document, and the next read finds nothing |
| `ApplicationAnswers.PatchAcceptedIff` | backend/internal/service/application.go:279-343 | Exactly which patches are accepted |
| `ApplicationAnswers.RejectedPatchChangesNothing` | backend/internal/service/application.go:269-343 | A rejected patch changes no document |
| `ApplicationAnswers.RejectionNamesAFault` | backend/internal/service/application.go:279-343 | The rejection names a field that is at fault |
| `ApplicationAnswers.UpdateSetsFields` | backend/internal/service/application.go:269-350 | An accepted patch of one's own document sets each of the eleven fields it sends, cleaned to its own cap, leaves the others, stamps updated_at unless it sends nothing, answers the document and touches no other |
| `Paging.ListAllApplications` | frontend/src/api.ts:363-378 | The loop ends and returns the whole list up to 10,000 matches and its first 10,000 beyond, or the service's refusal |
| `Accounts.BackfillResumes` | backend/internal/common/mongoWrap/client.go:138-165 | Wherever the backfill stopped, finishing it reaches the same accounts |
| `Accounts.AccountStore.constructor` | backend/internal/common/mongoWrap/client.go:17-22 | A deployment before the migration: any accounts the old index admits |
| `Accounts.AccountStore.Missing` | backend/internal/common/mongoWrap/client.go:139-150 | Yields each account without the field once, in any order |
| `Accounts.AccountStore.SetFolded` | backend/internal/common/mongoWrap/client.go:152-159 | Fills in one account, perhaps without hearing so; refused without a failing call only when the new index exists and two addresses fold together |
| `Accounts.AccountStore.Backfill` | backend/internal/common/mongoWrap/client.go:152-159 | The loop only ever fills accounts in, and all of them when it completes |
| `Accounts.AccountStore.DropLegacyIndex` | backend/internal/common/mongoWrap/client.go:168-190 | Tolerates absence; an index that was not there never appears, and failure means a failed call |
| `Accounts.AccountStore.MigrateEmails` | backend/internal/common/mongoWrap/client.go:138-165 | The old index is dropped only when every account is filled in |
| `Accounts.AccountStore.DropUniqueAppsIndex` | backend/internal/common/mongoWrap/client.go:200-225 | Drops the superseded unique index on applications if it is there |
| `Accounts.AccountStore.CreateFoldedIndex` | backend/internal/common/mongoWrap/client.go:107-121 | Created, or refused without a failing call exactly over repeated values |
| `Accounts.AccountStore.CreateLookupIndexes` | backend/internal/common/mongoWrap/client.go:111-121 | All three calls are made whatever fails; exactly the indexes asked for by a call that arrived are added, and it succeeds exactly when no call failed |
| `Accounts.AccountStore.EnsureIndexes` | backend/internal/common/mongoWrap/client.go:87-127 | In every state it can stop in: accounts only filled in, the old index kept while one is missing, the new one only over distinct values; with no failing call it succeeds if and only if no two addresses fold together, and otherwise, on a first migration, ends with neither index |
| `Accounts.CollisionLosesBothIndexes` | backend/internal/common/mongoWrap/client.go:99-125 | Two accounts made with two spellings of one address under the old index: the start-up fails without a failing call and leaves them under neither index |
| `Accounts.RestartsConverge` | backend/internal/common/mongoWrap/client.go:80-127 | However often it is interrupted and started again, no account is lost, the old index outlives every unfilled state, and the first success has the accounts of an uninterrupted run |
| `Accounts.AccountStore.CreateUser` | backend/internal/common/mongoWrap/query.go:78-100 | Service and store together: an accepted signup stores the trimmed address, its folded form, the cleaned name and the hash of the password; a lost request changes nothing, and behind a lost reply the insert has been carried out |
| `Accounts.AccountStore.FindUserByEmail` | backend/internal/common/mongoWrap/query.go:42-52 | Some account with the folded address, or none when there is none |
| `Accounts.AccountStore.EditUserPassword` | backend/internal/common/mongoWrap/query.go:54-75 | Changes one hash, and reports a missing account, or nothing when the reply is lost |
| `Accounts.AddressesStayUnique` | backend/internal/common/mongoWrap/query.go:77-100 | Once the index exists no run of signups and password changes lets two addresses fold together or loses an account |
| `Accounts.AnySpellingFindsTheAccount` | backend/internal/service/auth.go:312-323 | After any run, login finds an account by a spelling if and only if the spelling folds to its address |
| `Accounts.RefusedIffTaken` | backend/internal/common/mongoWrap/query.go:93-96 | A valid signup is refused as taken if and only if some account folds to its address |
| `AccountRuns.SignupStores` | backend/internal/service/auth.go:256-301 | When a signup is refused and why, and the whole account an accepted one stores, with its password hashed |
| `AccountRuns.PasswordChangeIsLocal` | backend/internal/common/mongoWrap/query.go:54-75 | A password change gives one account the new hash and changes nothing else of it or of any other |
| `AccountRuns.HashIsOfTheLastPassword` | backend/internal/service/auth.go:282-293 | Over every run of signups and password changes an account holds the hash of the password of the signup that made it or the value of the last change on it |
| `AccountRuns.SignupThenFind` | backend/internal/service/auth.go:256-323 | Over every later run without a password change on it, every spelling that folds to its address finds the account, with the trimmed address, the cleaned name and the hash of its password |

## Left out

- The Mongo and Redis drivers, connections, timeouts and health checks; collections and key spaces are maps with the semantics of the commands used.
- SHA-256, HMAC, bcrypt and random generation, and how long anything takes; the limiter's statements hold for any digest, so keys whose 128-bit fingerprints collide share counters in the model as they would in the program.
- `net/netip`, `net/url`, `net/mail` and `regexp`: parsing, printing and matching are parameters.
- Windows that are not whole positive seconds, and colons in scopes or key types: bucket names are claimed to be injective without them only, and the repository uses neither.
- Go's 64-bit integers: counts, page numbers and durations do not wrap around.
- Several clock readings within one call, outside `Counters`, `StoreCounts`, `Limiter`, `Interleaving` and what builds on it: the statements about runs of calls read the clock once per call.
- A Redis server whose clock differs from the program's: one clock names buckets and expires keys.
- Several cookies of one name, `Secure`, cookie expiry in the browser and overlapping requests of several tabs; a session may still expire in its store.
- A semicolon inside quotes in one `Forwarded` record: it ends the parameter in the model because it does so in the code.
- The password policy, the shape of an address, cleaning of a user's name and sending mail; they are conditions a signup passes or not.
- The list of uploaded resumes of an application, which is created empty and never changed here.
- Time values are whole milliseconds in stored documents; that Create answers with the nanoseconds it had before storing is not shown.
- Which of several equal rejections an error message words, the JSON envelope, routing, logging, configuration and redirect cookies.
- The `/signup` and `/reset-password` handlers as rate-limited endpoints: they call the same limiter, which is covered for any policy and keys.
- Which refusal a header value with control characters meets, in `fetch` or in the server's header parser: in both cases the request never reaches the guard.
- The user interface and the browser extension.
