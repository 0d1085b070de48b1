# Verified model of the URL shortener

A Dafny model of the URL shortener's services, and proofs of what they promise. Check it with
`dafny verify dfyconfig.toml`.

## What is modelled

**The click pipeline.** A click is an outbox row; any number of coordinators claim rows under a
30-second lease, workers publish and mark them, the broker queues and redelivers, and one
analytics consumer deduplicates, counts, checks milestones, commits, and acks or nacks.
`Outbox.dfy` and `Analytics.dfy` hold the operations as the program runs them, each proved against
a function of the state; `AnalyticsFacts.dfy` gives one delivery in closed form and
`ClickSettlement.dfy` how it is settled, told by its calls; `Pipeline.dfy`
puts the same functions together as a step machine in which every hop may fail, repeat or stop
halfway; `PipelineClaims.dfy`, `PipelineBroker.dfy` and `PipelineLedger.dfy` prove its invariant,
`PipelineTheorems.dfy` what follows for whole runs, and `OutboxFairness.dfy` that failing batches
do not block the rows behind them. `Notifications.dfy` is the other consumer, and
`NotificationBroker.dfy` puts a broker around it.

**The circuit breaker.** One lock section is one atomic step, so calls overlap freely.
`Breaker.dfy` holds the steps, runs and the invariant, `BreakerTrip.dfy` when it trips,
`BreakerProbe.dfy` how many trial calls a HalfOpen episode admits, `BreakerTrials.dfy` how many can
be in flight at once, and `CircuitBreaker.dfy` the object itself and the delivery of its callbacks.

**The url-service.** `UrlService.dfy` holds shorten, deactivate, redirect and the cache;
`UrlWrites.dfy` proves the transactional outbox, `UrlCache.dfy` redirects through a cache that is
written late and deleted unreliably.

**Listings, codes and limits.** `Pagination.dfy` and `Listings.dfy` (both cursors),
`Base62.dfy` and `CodeGen.dfy` (short codes), `RateLimiter.dfy` (the fixed-window limiter).
`Arithmetic.dfy`, `Sets.dfy`, `Options.dfy`, `Events.dfy` and `Settlements.dfy` are shared.

Each call to a database, broker, cache or publisher is atomic, and how it ends (normally, with an
error, by panicking, or reported as failed although it took effect) is a parameter chosen by the
environment. Times are integers read from a clock that does not run backwards.

## Assumptions

- Event ids are fresh (`shared/events/events.go:28-35`). The claim statement, like every statement
  and every commit, is atomic; in particular no other transaction holds locks on claimable rows at
  that moment, which `SKIP LOCKED` would pass over.
- A publish that reports no error has put the message on the bound durable queue, and the broker
  loses no message.
- There is one analytics consumer, one delivery at a time (`services/analytics-service/consumer.go:40`,
  one replica in `k8s/apps.yaml`). Looking an event up and then inserting it with
  `ON CONFLICT DO NOTHING` would not deduplicate two concurrent ones.
- Short codes are unique in the table (`services/url-service/migration.sql:4`).
- `maxFailures >= 1`, non-negative breaker durations, and a limiter window of at least one
  millisecond.

## What the code does not do

Of the repository's own descriptions:

- `LOAD_TESTING.md:78` says that five consecutive failures within ten seconds open the breaker.
  The window tumbles, so that is false: for every limit above one and every window longer than
  zero, as many failing calls one after another can leave it closed (`AlwaysTripsIff`).
  `TripsExactlyWhen` says for which runs they suffice; `TwoWindowsBound` and
  `BreakerTrip.BoundIsTight` give the sharp number of failures that a closed breaker can absorb.
- `services/url-service/service.go:213-218` answers 404 for a missing code, but `FindByCode`
  reports a missing row as neither row nor error (`services/url-service/store.go:50-53`), so
  `RedirectToURL` dereferences nil instead. The model keeps this: the answer is `Crash`, exactly
  when the cache misses, the read succeeds and no row has the code, and `NotFound` never occurs
  (`MissingCodes`, `MissingCodeCrashes`).
- `services/url-service/codegen.go:26` speaks of five retries, `services/url-service/service.go:92`
  makes three attempts; the model makes three.

Of what one might expect of the code:

- One probe at a time. A stale call, admitted while the breaker was closed, lets a second trial in
  while the first is in flight: within the episode by being cancelled, or in the next episode by
  failing (`TwoProbesInFlight`, for every configuration). It can happen exactly when some other
  call is in flight as the trial begins (`SecondTrialIff`), and afterwards exactly when one has
  reported (`AnotherTrialIff`). `NextProbeCondition` is about admissions within one episode only.
- At most `limit` calls per window. True of window lengths that begin with a lifetime of the key,
  and for a limit of one; false at every later offset (`WithinLimitIff`). `SlidingBound` bounds
  the calls in any interval; it is attained for intervals of up to as many windows as a window has
  milliseconds (`RateLimiter.BoundIsTight`). A lost EXPIRE blocks the key for good (`RecoversIff`).
- Marked and drained means counted. The consumer's panic handler acks, so a panic loses the click
  (`PanicLosesAClick`); `DrainedCount` gives the exact shortfall.
- ceil(n/50) polls serve n claimable rows. Older rows whose lease lapses meanwhile, or that are
  committed late, go first (`ClaimableRowsDoNotCount`); `PollsNeeded` is the exact number, and with
  no lease outstanding and no such arrival ceil(n/50) is enough (`NoLeasesNoCompetitors`).
- One notification per event. There is no deduplication (`RedeliveryDuplicates`). A drained broker
  has left one more row for every copy put back after it was recorded, and one less for every copy
  acked unrecorded, no others (`DrainedRows`); `HistoryStep` and `DecidedHow` say when that happens.

Every run shown as an example of the breaker is one that calls can make: `Realisable` in
`Breaker.dfy`. What is proved of all runs holds for more than those.

## Model

| member | source | states |
|---|---|---|
| `PipelineTheorems.ExactlyOnce` | services/analytics-service/consumer.go:81-129 | Over every run: the clicks counted for a code are exactly as many as its url.clicked outbox rows whose event id is processed, hence never more than its rows, whatever is republished, redelivered, rolled back or committed in doubt |
| `PipelineTheorems.NoLoss` | services/url-service/outbox.go:88-97 | Over every run: a marked url.clicked row is queued, held by the consumer, processed, or was acked by the panic handler |
| `PipelineTheorems.DrainedCount` | services/analytics-service/consumer.go:129-153 | Once all rows are marked and the queue is drained, clicks plus the rows given up by the panic handler equal the url.clicked rows of the code: the exact shortfall |
| `PipelineTheorems.CalmDrainedExact` | services/analytics-service/consumer.go:72-131 | Without panics in the consumer a drained pipeline has counted every url.clicked row exactly once |
| `PipelineTheorems.PanicLosesAClick` | services/analytics-service/consumer.go:148-153 | A concrete run in which the panic handler acks: the row is marked, everything is drained, and the click is never counted |
| `PipelineTheorems.MilestonesAreExact` | services/analytics-service/milestone.go:39-85 | Over every run: recorded milestones of a code are exactly the thresholds its click count has reached; every announcement ever made, rolled back or not, has total = threshold; announcements per (code, threshold) are one if recorded plus the rolled-back ones |
| `PipelineTheorems.CopiesAtMostClaims` | services/url-service/outbox.go:74-97 | Over every run: copies of a row's message in the queue and at the consumer never exceed the claims of that row |
| `PipelineTheorems.RowsOfCount` | services/analytics-service/store.go:12-17 | Distinct ledger events of a code have as many outbox rows as the clicks table counts: the cardinality step behind the exactly-once count |
| `PipelineLedger.Always` | services/analytics-service/consumer.go:72-131 | The inductive invariant of every reachable state: outbox, broker and ledger groups together |
| `PipelineLedger.ConsumeKeepsBijection` | services/analytics-service/consumer.go:107-127 | A transaction, however it ends, keeps click rows, processed ids and committed events in one-to-one correspondence |
| `PipelineLedger.ConsumeKeepsAttempts` | services/analytics-service/milestone.go:64-85 | A transaction, however it ends, keeps "announced durably exactly once per recorded milestone" and the truth of every announcement |
| `PipelineLedger.HeldIsSourced` | services/analytics-service/consumer.go:133-146 | Whatever the consumer holds is a well-formed event of some outbox row |
| `PipelineClaims.OutboxAlways` | services/url-service/outbox_store.go:45-91 | Over every run: claimed rows stay leased until marked, claims of one row are more than a lease apart, and every mark was made by a claim that had published |
| `PipelineClaims.FetchKeepsClaims` | services/url-service/outbox_store.go:46-61 | The claim statement keeps lease exclusion: a row handed out again was last claimed more than 30 s before |
| `PipelineClaims.DuplicateBound` | services/url-service/outbox_store.go:51-57 | Any consecutive claims of one row within a span of L ms number at most 1 + L / 30000, however many coordinators poll |
| `PipelineClaims.MarkIsFinal` | services/url-service/outbox_store.go:81-91 | Over every continuation of a run a row keeps its payload, is never unpublished, and its publication time is set once |
| `PipelineBroker.TransferKeepsBroker` | services/analytics-service/consumer.go:165-175 | Deliver, ack, nack and lost connection neither lose a message that is not handled nor add a copy |
| `PipelineBroker.PublishKeepsBroker` | services/url-service/outbox.go:88-92 | A publish, reported as failed but received included, keeps the copy bound and the no-loss invariant |
| `OutboxFairness.EveryRowIsClaimed` | services/url-service/outbox.go:58-72 | No head-of-line blocking: within one lease period, as soon as the polls can hold, in batches of 50, the rows no younger than it that are claimable, become so or arrive, a row claimable at the start has been claimed or marked, even if every publish fails and newer rows keep arriving |
| `OutboxFairness.PollsNeeded` | services/url-service/outbox.go:58-97 | Exactly how many: p polls are enough for a row in every period with at most a given number of late arrivals of older rows if and only if 50*p is at least the rows ahead of it plus that number; the same decides being marked, when every claim is |
| `OutboxFairness.ClaimableRowsDoNotCount` | services/url-service/outbox_store.go:50-53 | A concrete period in which the only claimable row is passed over by ceil(1/50) = 1 poll, which takes 50 older rows whose lease has just lapsed |
| `OutboxFairness.EveryRowEndsMarked` | services/url-service/outbox.go:88-97 | If moreover every claim of the period is followed by its mark, the row ends marked after as many polls |
| `OutboxFairness.PollTakesCompetitors` | services/url-service/outbox_store.go:48-55 | While an initially claimable row waits, every poll takes a full batch of rows that are ahead of it and that no earlier poll of the period took |
| `OutboxFairness.NoLeasesNoCompetitors` | services/url-service/outbox_store.go:50-51 | With no lease outstanding at the start only claimable rows compete, and ceil(n/50) polls, n counting late arrivals of older rows too, are enough for each of them |
| `Outbox.SelectClaimable` | services/url-service/outbox_store.go:47-55 | The selection returns at most `limit` claimable rows, fewer only if there are no more, none left behind older than one taken, each once and with its own payload |
| `Outbox.ClaimMeans` | services/url-service/outbox_store.go:46-61 | The claim's new table: picked rows were unpublished with no lease or a lapsed one and are leased for 30 000 ms, payloads kept; other rows are unchanged, and a claimable one left out means a full batch of rows no younger than it |
| `Outbox.MarkMeans` | services/url-service/outbox_store.go:81-91 | The mark's new table: the unpublished row of that id gets the publication time and loses its lease, keeping its payload; no other row changes |
| `Outbox.OutboxStore.FetchUnpublished` | services/url-service/outbox_store.go:45-79 | Exactly the selected rows, unpublished and not under a lease, get one of 30 000 ms, and everything else is unchanged; an unreadable result still leaves them leased |
| `Outbox.OutboxStore.MarkPublished` | services/url-service/outbox_store.go:81-91 | Sets the publication time and clears the lease of that unpublished row only; reports no row otherwise |
| `Outbox.OutboxStore.InsertEvent` | services/url-service/outbox_store.go:35-43 | Adds one unleased, unpublished row; fails on a taken id and changes nothing; any other error may hide that it took effect |
| `Outbox.OutboxCoordinator.Poll` | services/url-service/outbox.go:58-72 | Leases a valid pick and appends to the channel as many of its jobs, in order, as the context allows; nothing is sent |
| `Outbox.OutboxCoordinator.Work` | services/url-service/outbox.go:74-97 | Takes the oldest job, publishes it, and marks its row only if the publish reported success |
| `AnalyticsFacts.ProcessEffect` | services/analytics-service/consumer.go:81-131 | Closed form of one delivery: it adds exactly the event id, its click row and the threshold just reached, or nothing; what it announces is that threshold with that very total |
| `AnalyticsFacts.CheckExact` | services/analytics-service/milestone.go:45-85 | The threshold loop announces and records nothing but the threshold the click reaches, for any list of distinct thresholds |
| `AnalyticsFacts.ProcessKeepsMilestones` | services/analytics-service/milestone.go:39-54 | Every delivery keeps recorded milestones equal to the thresholds reached |
| `AnalyticsFacts.Settled` | services/analytics-service/consumer.go:72-153 | A nack means nothing committed unless the commit reported the error; an ack of a well-formed event outside the panic handler means it is on record |
| `AnalyticsFacts.RedeliveryIsHarmless` | services/analytics-service/consumer.go:95-105 | Redelivering a recorded event changes and announces nothing |
| `ClickSettlement.SettledEarly` | services/analytics-service/consumer.go:76-105 | A poison body is acked; an event on record is acked as soon as it is found to be, and nacked exactly when beginning or looking it up errs; neither changes nor announces anything |
| `ClickSettlement.SettledExactly` | services/analytics-service/consumer.go:107-131 | A new event is nacked exactly when the first of its calls that does not end normally is an error, acked otherwise, a panic included; it is recorded exactly when all calls before the commit end normally and the commit does or took effect all the same |
| `ClickSettlement.RecordedRow` | services/analytics-service/consumer.go:155-163 | A recorded event adds its id and one click row, each column from the event's own field, an empty referer as NULL |
| `ClickSettlement.CheckEnds` | services/analytics-service/milestone.go:39-85 | The milestone check ends as the first of its calls that does not end normally: one look per threshold reached, an insert and a publish for each not on record, publisher errors aside |
| `ClickSettlement.AnnouncementsNameOwner` | services/analytics-service/milestone.go:87-96 | Every announcement names the code, owner, address and correlation id of the click that was being counted |
| `Analytics.ClickConsumer.ProcessDelivery` | services/analytics-service/consumer.go:72-146 | New tables, announcements and the single ack or nack, for every way each call can end, commits in doubt and panics included; the rows of module `ClickSettlement` say which, call by call |
| `Analytics.ClickConsumer.RecordClick` | services/analytics-service/consumer.go:107-131 | The same from the dedup row on, for an event that is not on record |
| `Analytics.ClickConsumer.CheckAndPublish` | services/analytics-service/milestone.go:39-54 | Count error, else the result of the threshold loop; dedup and click rows untouched |
| `Analytics.ClickConsumer.CheckThresholds` | services/analytics-service/milestone.go:45-53 | The loop equals its recursive specification, stopping at the first error |
| `Analytics.ClickConsumer.PublishIfNewMilestone` | services/analytics-service/milestone.go:64-85 | Records and announces a milestone that is not on record, ignoring publisher errors |
| `Breaker.AlwaysSound` | gateway/circuitbreaker.go:73-167 | In every interleaving of lock sections the probe flag implies HalfOpen, and Closed implies failures below the limit |
| `Breaker.Transitions` | gateway/circuitbreaker.go:79-165 | Only Closed-Open, Open-HalfOpen, HalfOpen-Open, HalfOpen-Closed occur, each from the one section that may cause it; nothing is admitted into Open |
| `Breaker.Quarantine` | gateway/circuitbreaker.go:80-89 | Leaving Open needs more than the open timeout since every failure recorded so far, stale ones included |
| `Breaker.EntriesBalance` | gateway/circuitbreaker.go:85-141 | Entries to Open equal entries to HalfOpen, plus one exactly while Open |
| `Breaker.TrialLife` | gateway/circuitbreaker.go:80-159 | In every run: an open breaker lets a trial in exactly when more than the open timeout has passed since the last recorded failure; the next report of a failure reopens it, of a success closes it, and nothing else ends the HalfOpen state |
| `BreakerTrip.TripIsJustified` | gateway/circuitbreaker.go:129-144 | At a Closed-to-Open step the last maxFailures outcomes are failures recorded while Closed within one failure window |
| `BreakerTrip.TwoWindowsBound` | gateway/circuitbreaker.go:130-138 | Conversely: a breaker that stays Closed over one window length without a success has absorbed at most 2*maxFailures - 2 failures, so one more always trips it |
| `BreakerTrip.ZeroWindowBound` | gateway/circuitbreaker.go:130-138 | With a window of length zero the number absorbed is at most maxFailures - 1 |
| `BreakerTrip.BoundIsTight` | gateway/circuitbreaker.go:130-138 | Calls that are admitted and fail one after another attain 2*maxFailures - 2 if and only if maxFailures is 1 or the window is longer than zero |
| `BreakerTrip.TripsExactlyWhen` | gateway/circuitbreaker.go:129-144 | In every run: maxFailures failures recorded within one window length, without a success but whatever else other calls do in between, open a Closed breaker if and only if the first comes after the open window lapsed or those still inside it fill the counter |
| `BreakerTrip.FreshWindow` | gateway/circuitbreaker.go:160-164 | In every run: birth, and each success that leaves the breaker Closed, starts a window; without another success, failures no later than its end open the breaker if and only if there are maxFailures of them |
| `BreakerTrip.FreshAfterTrial` | gateway/circuitbreaker.go:155-159 | The success of a trial starts a window of its own: after it, without another success and within one window length, the breaker opens exactly when maxFailures failures are recorded |
| `BreakerTrip.AlwaysTripsIff` | gateway/circuitbreaker.go:129-144 | maxFailures failing calls in a row within a window length open a Closed breaker in every run of calls if and only if maxFailures is 1 or the window has length zero |
| `BreakerTrip.TripCondition` | gateway/circuitbreaker.go:129-144 | The condition of `TripsExactlyWhen` for the failures alone, folded |
| `BreakerTrip.FailAllIsRun` | gateway/circuitbreaker.go:74-148 | Over any stretch of a run without a success, a Closed breaker opens exactly when its recorded failures alone would open it, and until then they alone determine its fields |
| `BreakerProbe.AdmissionsAreAccounted` | gateway/circuitbreaker.go:90-113 | Within a HalfOpen episode, admissions balance exactly against the flag and the cancellations that took it down |
| `BreakerProbe.EpisodeAdmissions` | gateway/circuitbreaker.go:80-113 | A HalfOpen episode admits at least one call and at most one plus the cancellation sections executed in it, stale calls included |
| `BreakerProbe.NextProbeCondition` | gateway/circuitbreaker.go:90-113 | Within one episode: after an admission the next caller is let in as well if and only if a cancellation section has run since |
| `BreakerTrials.TwoProbesInFlight` | gateway/circuitbreaker.go:80-125 | For every configuration, two runs that calls can make, in which a second trial begins although the first has not reported: in one episode after the cancellation of a call admitted while Closed, and in the next episode, without any cancellation, after its failure |
| `BreakerTrials.SecondTrialIff` | gateway/circuitbreaker.go:80-165 | When a trial begins: calls can go on so that a second trial begins before it reports, in this episode or a later one, if and only if some other call is in flight at that moment |
| `BreakerTrials.AnotherTrialIff` | gateway/circuitbreaker.go:80-165 | Later on, if none of the calls let through so far reports again: another trial begins in some continuation if and only if some call has reported since the trial began |
| `BreakerTrials.FlagStays` | gateway/circuitbreaker.go:90-95 | Until some call reports, the flag of a trial stays up and everyone is refused |
| `CircuitBreaker.CircuitBreaker.AdmitSection` | gateway/circuitbreaker.go:74-102 | One admission step of the run; admits when Closed, when HalfOpen without a trial, or when Open for longer than the timeout since the last failure; every field of the new state, and the announcement of exactly its change |
| `CircuitBreaker.CircuitBreaker.CancelSection` | gateway/circuitbreaker.go:104-112 | One cancellation step of the run; takes the flag down in HalfOpen and changes no other field |
| `CircuitBreaker.CircuitBreaker.FailureSection` | gateway/circuitbreaker.go:117-148 | One failure step of the run; every field of the new state, by the old state, the window and the limit, and the announcement of exactly its change |
| `CircuitBreaker.CircuitBreaker.SuccessSection` | gateway/circuitbreaker.go:150-166 | One success step of the run; it closes a HalfOpen breaker, clears the counter and the flag and starts the window now, and announces exactly the change of state |
| `CircuitBreaker.CircuitBreaker.Do` | gateway/circuitbreaker.go:73-167 | An undisturbed call is one admission and at most one report, and announces exactly the changes of state it makes, in order; it is rejected exactly when the admission refuses, and then changes nothing |
| `CircuitBreaker.NotificationsMatchChanges` | gateway/circuitbreaker.go:65-71 | However late and in whatever order callbacks run, delivered plus pending notifications are the transitions, as multisets |
| `CircuitBreaker.ChangesAreEntries` | gateway/circuitbreaker.go:100-102 | Notifications towards a state are as many as its entries |
| `UrlWrites.AlwaysCorresponds` | services/url-service/service.go:92-161 | Over every interleaving of shorten attempts, deactivations, clicks and coordinators, with collisions, rollbacks and commits in doubt: one url.created row per url row, agreeing with it, and one url.deleted row exactly when it is inactive |
| `UrlWrites.ShortenOutcome` | services/url-service/service.go:92-161 | One shorten call, whatever other transactions do between its attempts: attempts before the one that settles it collide and change nothing; that one stores exactly one row and event under a free code, or nothing unless its commit was in doubt; conflict exactly when every attempt collides with what it finds, an error exactly when a step of the last attempt fails otherwise |
| `UrlWrites.ShortenAlone` | services/url-service/service.go:92-161 | With nothing in between this is the call that `ShortenURL` runs |
| `UrlWrites.NewEventIsClaimable` | services/url-service/outbox_store.go:35-43 | A committed attempt leaves the row of the request and a url.created row that any poll from then on may claim |
| `UrlWrites.DeactivateKeeps` | services/url-service/service.go:303-327 | A deactivation, however it ends, keeps rows and events in correspondence |
| `UrlWrites.DeactivateOutcome` | services/url-service/service.go:303-342 | Forbidden exactly when no active row of that code belongs to the caller; done exactly when one does and every statement and the commit succeed; a change clears the bit of that row alone, by its owner, and adds one url.deleted row that any poll from then on may claim |
| `UrlWrites.OnlyCoordinatorsTouch` | services/url-service/outbox.go:58-97 | Every step but a coordinator's leaves each outbox row as it is, and adds rows neither published nor leased |
| `UrlWrites.AlwaysIdsUnique` | services/url-service/migration.sql:3-4 | Over every run a row id names one short code, so listing by id lists rows |
| `UrlService.URLService.InsertInTransaction` | services/url-service/service.go:97-136 | Both inserts take effect or neither; a duplicate key of either table is a collision; the url row holds code, target, owner, address and expiry of the request and is active, the event row tells of the same and is unpublished and unleased |
| `UrlService.URLService.ShortenURL` | services/url-service/service.go:74-181 | At most three attempts; on success the row and event of the last, column by column, an expiry of 1 to 8760 hours or else 24 from now, and one scheduled cache write, otherwise none |
| `UrlService.URLService.DeactivateURL` | services/url-service/service.go:300-349 | Clears the active bit of the caller's own active row and adds its unpublished url.deleted event, or changes nothing; deletes the cache entry, as far as Redis does, exactly on reported success |
| `UrlService.URLService.WriteAnalyticsEvent` | services/url-service/handler.go:182-209 | Adds one unpublished, unleased url.clicked row whose event names code, owner, address, visitor and time of the redirect, and changes no url |
| `UrlService.URLService.FindByCode` | services/url-service/store.go:45-57 | A missing row is no row and no error |
| `UrlService.URLService.RedirectToURL` | services/url-service/service.go:183-266 | Deactivated when the copy or row found is inactive, expired when now is after its expiry, else its target; which cache write is scheduled, with which lifetime; the nil dereference exactly when the cache misses, the read succeeds and no row has the code; never a 404 |
| `UrlService.RedisCache.Get` | services/url-service/cache.go:36-48 | Any error reads as a miss; a live entry is returned |
| `UrlService.RedisCache.Set` | services/url-service/cache.go:50-56 | Stores the entry with its lifetime, 0 never ending; a reported error may hide that it did |
| `UrlService.URLService.RunCacheWrite` | services/url-service/service.go:163-173 | A scheduled cache write runs once, and its error is ignored |
| `UrlService.RedisCache.Delete` | services/url-service/cache.go:58-60 | Removes just that entry; a reported error may hide that it did |
| `UrlCache.RedirectsRefineTheDatabase` | services/url-service/service.go:183-266 | In every run every successful redirect gave target, owner and address of the one row with that code, at a time no later than its expiry, however late cache writes land or deletes fail |
| `UrlCache.HeldAnswers` | services/url-service/service.go:190-238 | A redirect that holds a copy or row answers deactivated exactly when that is inactive, expired exactly when it is active and now is after its expiry, and found exactly otherwise |
| `UrlCache.MissingCodes` | services/url-service/service.go:212-227 | In every run no redirect is answered "not found", and each answer for a code that does not exist is a crash or a database error |
| `UrlCache.MissingCodeCrashes` | services/url-service/store.go:50-53 | The first redirect of any code in an empty system, with a readable database, crashes |
| `UrlCache.AlwaysInv` | services/url-service/service.go:163-258 | Cache entries, pending writes and redirects under way agree with the database on everything but the active bit, in every reachable state |
| `UrlCache.AloneRefines` | services/url-service/service.go:183-266 | With nothing in between, the steps of a redirect in the step machine give the answer and schedule the cache write of `RedirectToURL` |
| `UrlCache.WasActive` | services/url-service/service.go:107-108 | Every row, and so every row a redirect was answered from, was active at some earlier moment |
| `UrlCache.QuietForever` | services/url-service/service.go:344-345 | If no stale redirect, write or entry is around once a code is inactive, every later redirect is Gone, or a database error |
| `UrlCache.DeactivationIsFinalIff` | services/url-service/service.go:241-258 | For an inactive, unexpired row some continuation still redirects if and only if a copy is cached, about to be written, or held by a redirect |
| `Pagination.NothingTwice` | services/url-service/service.go:283-297 | Whatever rows come and go, keys on later pages are below all keys on earlier ones: no row is returned twice |
| `Pagination.NothingMissed` | services/url-service/service.go:283-297 | A finished walk returned every row that stayed eligible throughout |
| `Pagination.WalkAtRest` | services/url-service/store.go:59-98 | On a table at rest the pages of a finished walk concatenate to the sorted list and number max(1, ceil(n/limit)) |
| `Pagination.WalkEnds` | services/url-service/service.go:283-297 | On a table at rest no walk has more pages than that, and it is finished exactly when it has as many |
| `Pagination.DescendingIsSorted` | services/url-service/store.go:70-74 | The reference listing is strictly descending and holds exactly the given keys, each once |
| `Pagination.SortedUnique` | services/url-service/store.go:70-74 | A strictly descending listing is determined by its rows, so any correct ORDER BY yields the reference listing |
| `Listings.RowCursor` | services/url-service/store.go:78-97 | Taking the greatest key not yet seen, up to the limit, yields the prefix of the sorted listing |
| `Listings.UrlListing` | services/url-service/store.go:66-76 | The rows of the specification's page are the user's own, active, unexpired, below the cursor and in descending order |
| `Listings.UrlLeftOut` | services/url-service/store.go:66-76 | Such a row that is left out is below all that are listed, and the list is full |
| `Listings.UrlStore.FindByUserID` | services/url-service/store.go:59-98 | At most limit + 1 rows in descending order of id, each the user's own, active, with no expiry or a later one, and below the cursor; one such row that is missing is below them all, the list being full |
| `Listings.UrlStore.GetUserUrls` | services/url-service/service.go:268-298 | The page of the page specification: rows of that user only, active and unexpired, below the cursor, in descending order; the next cursor is the last id exactly when there is more, and such a row not on the page is below it |
| `Listings.UrlRequestsWalk` | services/url-service/service.go:283-297 | Following next_cursor of the URL list, each request on the table it finds, is a walk: the pagination theorems apply |
| `Listings.EveryRowIsListed` | services/url-service/service.go:283-297 | A finished walk over changing tables returns every row that is the user's own, active and unexpired throughout, and returns no row twice |
| `Listings.ClampLimit` | services/url-service/handler.go:134-140 | The page size is the requested one held to 1..100, at the nearer end when outside, 20 when missing or no number |
| `Listings.NotificationStore.QueryNotifications` | services/notification-service/store.go:137-174 | The user's own notifications after the cursor's in (created_at, id) order, newest first, complete up to the limit; an unknown or foreign cursor yields none |
| `Listings.NotificationStore.ListByUser` | services/notification-service/store.go:113-135 | A page of those of the given size, 20 if not positive; a next cursor exactly when there is more, and then the last id, after which every notification left out comes |
| `Listings.NoteRequestsWalk` | services/notification-service/store.go:32-41 | Following next_cursor of the notification list is a walk although the cursor row is looked up again at each request |
| `Listings.NoteListing` | services/notification-service/store.go:32-41 | The notifications of the specification's list are the user's own, after the cursor, newest first |
| `Listings.NoteLeftOut` | services/notification-service/store.go:32-41 | A notification of the user after the cursor that is left out comes after all that are listed, and the list is full |
| `Listings.NotePageListing` | services/notification-service/store.go:113-135 | What a page holds and leaves out, by owner and (created_at, id) |
| `RateLimiter.SlidingBound` | gateway/ratelimit.go:32-58 | In every interleaving of INCR and EXPIRE, late, repeated or missing ones included, any interval of at most k windows has at most (k+1)*limit - 1 grants after a successful INCR |
| `RateLimiter.LifetimeBound` | gateway/ratelimit.go:38-57 | One lifetime of the key grants at most the limit, even if EXPIRE never happens |
| `RateLimiter.WithinLimitIff` | gateway/ratelimit.go:38-57 | "At most limit per window": holds in every run for the window lengths that begin d after a lifetime of the key if and only if d is 0 or the limit is 1, for every d |
| `RateLimiter.RecoversIff` | gateway/ratelimit.go:38-57 | From a key that has used up its count without a deadline on, some later call finds room in a continuation by calls if and only if an EXPIRE has run since, which only the first call of a lifetime sends |
| `RateLimiter.GrantedIff` | gateway/ratelimit.go:38-57 | A call is granted after a successful INCR exactly when it finds room and gets its reply |
| `RateLimiter.BoundIsTight` | gateway/ratelimit.go:43-57 | The sliding bound is attained for every k up to the window in milliseconds; for a limit above 1 for no other k |
| `RateLimiter.AlwaysBounded` | gateway/ratelimit.go:38-47 | The inductive invariant: grants so far against lifetimes begun since the first grant of the interval |
| `RateLimiter.RateLimiter.Allow` | gateway/ratelimit.go:32-58 | Answer, error, retry time and new counter for every way its three commands can end: granted when the counter gives no reply, and else exactly when the new count is at most the limit, or is the first and its EXPIRE gives no reply; the deadline is set by the first call of a lifetime only |
| `RateLimiter.WaitSeconds` | gateway/ratelimit.go:49-54 | The retry time of a refused call is the rest of the key's life to the nearest second, 0 without a deadline |
| `RateLimiter.KeysAreDistinct` | gateway/ratelimit.go:64-66 | Different routes and addresses never share a counter |
| `Notifications.OneRowPerTransaction` | services/notification-service/store.go:75-111 | Over every run there is one row per transaction that took effect, and no row is ever visible as pending |
| `Notifications.RowsPerDelivery` | services/notification-service/consumer.go:67-84 | Over every run, what a delivery asks for is on record exactly once per transaction of its deliveries that took effect |
| `Notifications.DuplicatedIff` | services/notification-service/consumer.go:67-84 | It is on record twice if and only if two of those transactions took effect |
| `NotificationBroker.DrainedRows` | services/notification-service/consumer.go:67-84 | In every run of broker and consumer that has drained: rows of a delivery plus copies acked unrecorded equal copies published plus copies put back after being recorded; so it is on record as often as published if and only if the latter two are as many |
| `NotificationBroker.AlwaysBalanced` | services/notification-service/consumer.go:67-84 | The balance of copies and rows in every reachable state, and every row being what its delivery asks for |
| `NotificationBroker.HistoryStep` | services/notification-service/consumer.go:76-82 | Copies are put back after being recorded only by a nack or a lost connection after the transaction took effect, and acked unrecorded only by an ack after one that did not |
| `NotificationBroker.DecidedHow` | services/notification-service/consumer.go:67-84 | A transaction that took effect is nacked exactly when its commit reported an error; one that did not is acked exactly for a delivery that does not decode, or a panic |
| `NotificationBroker.RedeliveryDuplicates` | services/notification-service/consumer.go:76-80 | A run in which one published copy, its commit being in doubt, is nacked, redelivered and recorded twice |
| `Notifications.Settled` | services/notification-service/consumer.go:67-84 | A nack means nothing committed unless the commit reported the error; an ack outside the panic handler of a decodable delivery means its row is there, sent |
| `Notifications.SettledExactly` | services/notification-service/consumer.go:67-84 | A delivery that does not decode is acked; another is nacked exactly when the first of its calls that does not end normally is an error, and recorded as sent exactly when all end normally or a commit in doubt took effect; no other row changes |
| `Notifications.NotificationConsumer.ProcessDelivery` | services/notification-service/consumer.go:67-84 | New table and the single ack or nack for every way the calls can end |
| `Notifications.NotificationConsumer.NotificationFromDelivery` | services/notification-service/consumer.go:86-114 | A record exactly for a supported routing key with an event id, a decodable body, a user id and an address; it names that user, address and event type and keeps the raw body |
| `Notifications.NotificationConsumer.InsertNotification` | services/notification-service/store.go:75-111 | Insert and mark together or not at all: one row of the user with that event type and payload, sent, and every other row as it was |
| `Base62.RoundTrips` | services/url-service/base62.go:14-69 | A code is always that many alphabet characters; decoding it gives |n| mod 62^len; encoding a decoded word gives the word back, for every length |
| `Base62.OrderPreserved` | services/url-service/base62.go:27-46 | On 0 .. 62^k - 1 numeric order is byte-lexicographic order of codes |
| `Base62.EncodesTo` | services/url-service/base62.go:31-32 | A number has a given code if and only if it agrees with the code's value modulo 62^len |
| `Base62.IndexIsDigit` | services/url-service/base62.go:60-63 | Searching the alphabet finds the digit of a character, or -1 exactly for other characters |
| `Base62.DigitOf` | services/url-service/base62.go:9-9 | Digits are 0-9, then A-Z, then a-z, and nothing else is a digit |
| `Base62.CodeSpace` | services/url-service/base62.go:29-29 | There are 62^7 = 3 521 614 606 208 codes |
| `Base62.Encode` | services/url-service/base62.go:14-47 | The in-place digit loop computes the specified code: seven alphabet characters whose value is |n| modulo 3 521 614 606 208 |
| `Base62.Decode` | services/url-service/base62.go:51-69 | Accepts exactly the words of seven letters and digits and returns their value |
| `CodeGen.Balanced` | services/url-service/codegen.go:30-40 | Counting over all k-byte inputs, a code has 256^k / 62^len preimages, rounded down, or one more, and which of the two |
| `CodeGen.EveryInputOnce` | services/url-service/codegen.go:38-38 | Big-endian reading is a bijection between byte strings and numbers, so the count ranges over each input once |
| `CodeGen.FirstByteWeighs` | services/url-service/codegen.go:38-38 | The reading is big-endian: the first byte of k weighs 256^(k-1) |
| `CodeGen.ResidueCount` | services/url-service/base62.go:31-32 | How many numbers below n leave remainder r modulo m |
| `CodeGen.Generate` | services/url-service/codegen.go:30-40 | The seven-character code whose value is the big-endian number of the eight random bytes modulo 62^7 |

## Left out

- Calls inside one breaker section read the clock several times; the model uses one reading per section.
- An upstream function that panics inside `Do` never reports; the breaker model has no such call.
- `Breaker.AlwaysSound`: needs `maxFailures >= 1`; with 0 the first failure opens the breaker all the same.
- Which section belongs to which call of the breaker: sections carry no names. A run in which some call has not reported is one whose reports the other calls let through can account for.
- Channel capacity, the number of workers and the two-second ticker of the coordinator: `Poll` takes the number of sends that succeed as a parameter, and the step machine lets jobs wait, be taken or be dropped at any time.
- The order of the rows that the claim statement returns within a batch: any order is allowed.
- A consumer crash inside a transaction is modelled as a transaction that ends with an error and a lost connection, not as a step of its own.
- The record that `InsertNotification` returns carries the process clock as its sent time, and nobody reads it; only the table row is modelled.
- Expiry of cache entries in `UrlCache`: entries may vanish at any time instead of at their deadline, which covers every timing; `RedisCache` keeps the deadlines.
- The 50 ms and 100 ms timeouts: a timed-out command is one that ends with an error, applied or not.
- The retry loop's sleeps, and time passing between the clock readings of one request.
- JSON encoding and decoding, URL validation, UUID syntax (a cursor that is not a UUID is a database error), SHA-256 of addresses, JWT and bcrypt: values are already decoded, ids are numbers or strings, URL validity is a parameter.
- The truncation of `big.Int` and machine integers: counters are unbounded.
- Database errors of the two listing queries: they answer an error and change nothing.
- HTTP handlers, CORS, proxying, health checks, configuration, logging, metrics numbering, reconnect backoff, the statistics queries and the user service: they would add easy members only.
