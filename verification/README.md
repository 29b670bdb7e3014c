# Verified model of Odudu's small state machines and codecs

This project models, in Dafny, the parts of Odudu whose correctness the source settles on its own:
the two rate limiters and the budgets built on them, the trace differ of the console's end-to-end
suite, the module registry, the branding cache with the message-override reader on top of it, the
packing of API pages, template slots, the scheduler, and the two codecs (client address to throttle
key, icon files). Code that works by changing state is a class or a method with loops, each proved
against functions; what the source promises is then proved about those functions, over every input,
every run or every interleaving.

`dafny verify dfyconfig.toml` checks the whole project.

## How the files fit together

- **Shared**: `InsertionMaps` (the insertion-ordered map of ECMAScript), `Numbers`, `Sequences`, `Sets`, `Strings`.
- **Limiters**: `Limits` (what one call does to one key's memory) and `Recency` (the bounded map
  and the theorem that a call is answered from the earlier calls of its own key alone) carry both
  windows, and `MapSizes` bounds how many keys it holds. `SlidingLog` and `SlidingCounter` are the classes; `SlidingLogRuns` and
  `SlidingCounterRuns` hold what they promise over whole runs; `Selection` and `Refusals` say what
  deleting calls from a run does, and `RefusalTraces` when it changes the rest; `SlidingWindows`, `AuditBudget` and `RegistrationBudget` compose them.
  Runs are sequences of checks with a clock that does not step back; `Ran` is the relation between
  the checks and their answers that every class keeps as its invariant.
- **Differ**: `Lcs` (table, walk, hunks), `TraceDiff` (identities, moves and pairing) and `TraceReports` (the order of the report). "How often" is counted
  per line, for an arbitrary line, which is equality of multisets.
- **Registry**: the order, and the start, rollback and stop lifecycle over a log of events.
- **Overrides**: `BrandingCache`, `Locales`, `MessageOverrides`. Every method of the class
  `MessageOverrides` is one atomic step of the event loop, so a sequence of calls is an interleaving,
  and its invariant holds in every reachable state.
- **Pages**: `Packing` (greedy cutting, generic) and `OpenApiPages`.
- **Templates**: `Slots` and `Escaping`.
- **Scheduler**: again one method per atomic step.
- **Codecs**: `ThrottleOrigin` and `Ico`.

## Where the code differs from what is said of it

Each entry names the lemma with a failing run and the one with the exact condition.

- The counter's Retry-After is capped at one window when the window's own count has reached the
  limit (`apps/server/src/throttle-counter.ts:65-76`). The cap makes the answer too short exactly
  when the refusal comes in the first `W / limit` milliseconds of a window that is full by itself:
  `CounterRetryAfterSufficesIff` over all runs, `CapFallsShortHere` for a run with a limit of one.
- "A key whose read failed is not read again for this long" (`apps/server/src/message-overrides.ts:21-22`)
  holds in a later state exactly while the tenant's generation is still the read's own, no failure
  since has emptied the map of back-offs, and no later read of the key has failed:
  `MessageOverrides.BackOffLastsIff` in every reachable state. `ReadAgain` is a run in which an
  invalidation lets the key be read again in the very moment it failed.
- The branding cache may answer an entry stored under a generation older than the tenant's current
  one, since a forgotten count raises the floor (`packages/domain-theme/src/service/branding-cache.ts:92-98`)
  without dropping entries. `StoredUnderCurrentIff` says exactly when an entry was stored under the
  current one, `AnswersOutdated` is a run in which one was not. No invalidation of the tenant is lost
  by that: `Resolve` proves the freshness that matters, counted in invalidations rather than generations.
- "An address already refused spends none of the tenant's" (`apps/server/src/mcp-registration-budget.ts:14-21`)
  is unconditional only where no address is crowded out of the map: a refused check touches its key,
  and so can have another one evicted. `SpendNothingIff` gives the exact condition on the kept
  requests, whatever is evicted; `RefusalTraces.RefusedAddressCanMatter` is a run of the budget at its
  own ceiling in which a refused check decides a later one, for `AddressesDiffer`'s IPv4 addresses too.

## Model

| member | source | states |
|---|---|---|
| Limits.StaleIsSpent | apps/server/src/throttle-log.ts:20-27 | a memory that the sweep finds stale answers every later call as no memory at all would, for both windows |
| Limits.ServeSound | apps/server/src/throttle-log.ts:30-39 | what one call leaves keeps the invariant of the memories: ascending stamps no later than now, never more than the limit; both counts within the limit |
| Limits.FitsExactly | apps/server/src/throttle-counter.ts:58-60 | the estimate's comparison, which divides, is a comparison of integers |
| Recency.ReplayAgrees | apps/server/src/throttle-log.ts:16-44 | after any run a held key has exactly the memory its own calls left it, is followed in the map by exactly the keys checked since, and a key not held has nothing left that counts |
| Recency.ServesFromOwnMemory | apps/server/src/throttle-log.ts:20-45 | sweeping and eviction never change an answer, except that enough distinct other keys since a key's last call make it a new key: eviction is by last touch |
| Recency.ServedAtPlace | apps/server/src/throttle-log.ts:20-45 | all that a call makes of its key's memory, and not the decision alone, is what its own earlier calls make of it |
| Recency.RunExists | apps/server/src/throttle-log.ts:29-54 | every sequence of calls has a run |
| MapSizes.HoldsNoMoreThanChecked | apps/server/src/throttle-log.ts:20-27 | the sweep of one key a call is enough: however long a run, the map never holds more keys than some call of it had seen checked within its window (the two fixed windows, for the counter) |
| SlidingLog.Seconds | apps/server/src/throttle-log.ts:52-53 | the whole seconds answered are the least that cover the milliseconds |
| SlidingLog.SlidingWindowLog.Check | apps/server/src/throttle-log.ts:30-54 | one check extends the run by itself and its answer, keeps the run and the map in step, and answers what `AnswerAt` says of the run so far |
| SlidingLog.SlidingWindowLog.DropColdestIfStale | apps/server/src/throttle-log.ts:22-27 | the in-place sweep is the specified sweep |
| SlidingLog.SlidingWindowLog.DropPastCeiling | apps/server/src/throttle-log.ts:40-44 | the eviction loop keeps exactly the most recently touched keys |
| SlidingLogRuns.LogIsExact | apps/server/src/throttle-log.ts:35-38 | with eviction: a check is refused exactly when `limit` admissions of its key in the window are not forgotten by a crowding-out |
| SlidingLogRuns.RememberedIsExact | apps/server/src/throttle-log.ts:7-12 | where a check remembers its key's admissions in the last window it is refused exactly when `limit` of them lie there |
| SlidingLogRuns.UncrowdedRemembers | apps/server/src/throttle-log.ts:40-44 | with fewer than `maxKeys` distinct other keys between any two checks of a key, every one of its calls is remembered |
| SlidingLogRuns.NeverRefusesUnspent | apps/server/src/throttle-log.ts:35-38 | even under eviction nobody is refused who has not had `limit` admissions in the window |
| SlidingLogRuns.WindowHoldsAtMostLimit | apps/server/src/throttle-log.ts:7-12 | no window of any placement holds more than `limit` admissions of a key that remember each other, whatever is evicted outside it |
| SlidingLogRuns.LogAnswers | apps/server/src/throttle-log.ts:30-54 | what `Check` answers in any run is the answer computed from the key's own hits |
| SlidingLogRuns.AnswerIsExact | apps/server/src/throttle-log.ts:47-53 | what `Check` answers lies between one second and the window, is the second in which the oldest hit leaves, and the cap never shortens it |
| SlidingLogRuns.OpensExactly | apps/server/src/throttle-log.ts:35-53 | while nothing else of the key is admitted and the refusal is remembered, a later check is admitted exactly from the instant the oldest hit leaves |
| SlidingLogRuns.RefusedUntilOpen | apps/server/src/throttle-log.ts:7-12 | until that instant every check of the key is refused, whatever retries happen |
| SlidingLogRuns.RetryAfterSuffices | apps/server/src/throttle-log.ts:47-53 | a check that stays away for the seconds `Check` answered is admitted if nothing else of the key was |
| SlidingLogRuns.OpensWhenOldestLeaves | apps/server/src/throttle-log.ts:47-48 | the instant is one window after the oldest admission still charged |
| SlidingCounter.CeilOf | apps/server/src/throttle-counter.ts:75 | the least whole number not below |
| SlidingCounter.Tally.Roll | apps/server/src/throttle-counter.ts:35-40 | the in-place roll is the specified roll |
| SlidingCounter.SlidingWindowCounter.Check | apps/server/src/throttle-counter.ts:43-77 | one check extends the run by itself and its answer, keeps the shared tallies apart and in step with the run, and answers what `CounterAnswerAt` says of the run so far |
| SlidingCounterRuns.CounterIsExact | apps/server/src/throttle-counter.ts:43-63 | with eviction: a check is admitted exactly when the weighted sum of the two fixed windows' admissions that no crowding-out has made it forget leaves room |
| SlidingCounterRuns.CounterIsExactOnCounts | apps/server/src/throttle-counter.ts:48-63 | for a check that remembers them those are all admissions of the two fixed windows |
| SlidingCounterRuns.CounterNeverRefusesUnspent | apps/server/src/throttle-counter.ts:43-63 | even under eviction nobody is refused whose admissions in the two fixed windows leave room |
| SlidingCounterRuns.FixedAtMostLimit | apps/server/src/throttle-counter.ts:58-63 | no fixed window holds more than `limit` admissions of a key that remember each other |
| SlidingCounterRuns.WindowHoldsLessThanTwiceLimit | apps/server/src/throttle-counter.ts:14-21 | no trailing window holds more than `2 * limit - 1` admissions of a key that remember each other, whatever is evicted outside it, and fewer still when the limit is over half the window's milliseconds |
| SlidingCounterRuns.WorstCaseReached | apps/server/src/throttle-counter.ts:14-21 | for every limit and window a run that reaches that bound |
| SlidingCounterRuns.EvenlySpreadHoldsAtMostLimit | apps/server/src/throttle-counter.ts:14-21 | where the previous window's hits are spread as the estimate assumes, the bound is `limit` |
| SlidingCounterRuns.FormulaByRoom | apps/server/src/throttle-counter.ts:70-74 | on a refusal the first formula is used exactly when the window's own count is below the limit |
| SlidingCounterRuns.OpensAfterWait | apps/server/src/throttle-counter.ts:65-74 | with nothing admitted in between, the estimate leaves room exactly from the end of the unrounded wait, in the same fixed window or a later one |
| SlidingCounterRuns.CounterOpensExactly | apps/server/src/throttle-counter.ts:43-76 | the same over runs: a later check of the key that remembers the refusal is admitted exactly from the end of the unrounded wait |
| SlidingCounterRuns.CounterAnswers | apps/server/src/throttle-counter.ts:43-77 | what `Check` answers in any run is the answer computed from the key's own counts |
| SlidingCounterRuns.CounterRetryAfterIsNeeded | apps/server/src/throttle-counter.ts:65-76 | what `Check` answers lies between one second and the window, and whoever comes back a second too early is refused |
| SlidingCounterRuns.CounterRetryAfterSufficesIff | apps/server/src/throttle-counter.ts:65-76 | over all runs that go on from any refusal, staying away for the seconds answered is enough if and only if the window's own count is below the limit or enough of the window has passed for the cap not to bind |
| SlidingCounterRuns.CapFallsShort | apps/server/src/throttle-counter.ts:65-76 | from any refusal at which the cap binds, a run in which whoever comes back exactly when told is refused again |
| SlidingCounterRuns.CapFallsShortHere | apps/server/src/throttle-counter.ts:65-76 | such a run from the start: a limit of one, the answer is one second, and after one second the check is refused |
| Selection.SelectedAt | apps/server/src/mcp-registration-budget.ts:26-31 | what one limiter passes on to the next is the subsequence of the calls it admitted, each at its place |
| Refusals.RefusalIsNeutral | apps/server/src/throttle-log.ts:7-12 | a refusal leaves a memory that answers every later call as before |
| Refusals.KeptCallIsAdmitted | apps/server/src/throttle-log.ts:7-12 | deleting every refused call from a run leaves every admitted call of a key that is never crowded out admitted, whatever becomes of other keys |
| Refusals.RefusedCallsLeaveNoTrace | apps/server/src/throttle-log.ts:7-12 | so where no key is crowded out, a run of any length without its refused calls is admitted in full |
| Refusals.NoTraceIff | apps/server/src/throttle-log.ts:29-45 | on every run: what is left is admitted in full if and only if each kept call finds room among the kept calls |
| RefusalTraces.RefusedCallCanMatter | apps/server/src/throttle-log.ts:29-45 | for every ceiling of two keys or more, a run in which a refused call decides a later one, by keeping its key in the map at another's expense |
| Refusals.AnswersAreUnique | apps/server/src/throttle-log.ts:29-54 | a run's answers are determined by its calls |
| SlidingWindows.SlidingWindow | apps/server/src/throttle.ts:21-27 | a new limiter of the given limit and window, with the default ceiling, that is the counter exactly when the limit is above 100 |
| SlidingWindows.Limiter.Check | apps/server/src/throttle.ts:23-27 | either limiter extends its run by the check, and answers what the run of its kind says at that place, seconds included |
| SlidingWindows.CheckBeside | apps/server/src/mcp-registration-budget.ts:22-31 | a check of one of two limiters leaves the other as it was, and is answered as by itself |
| SlidingWindows.WindowHoldsAtMost | apps/server/src/throttle.ts:15-27 | whichever limiter it is, a window holds at most `limit` or `2 * limit - 1` admissions that remember each other |
| SlidingWindows.RefusalInWindow | apps/server/src/throttle-log.ts:47-53 | a refusal of either limiter names at least one second and at most the window |
| SlidingWindows.RetryAfterHolds | apps/server/src/throttle.ts:15-27 | for either limiter: while nothing else of the key is admitted and the refusal is remembered, coming back a second too early is refused, and coming back when told is admitted unless the counter's cap binds |
| SlidingWindows.NothingAllowed | apps/server/src/throttle-log.ts:46-53 | with a limit of nothing either limiter refuses everything, each time for the whole window |
| AuditBudget.AuditRefusalBudget.Take | apps/server/src/app.ts:370-373 | `row`, `last_row` or `log`, in step with the runs of the two limiters behind it |
| AuditBudget.AuditRefusalBudget.HistoryIsRun | apps/server/src/app.ts:352-375 | in every state the budget's history is a run of the two limiters, of which the next two rows speak |
| AuditBudget.AuditWindowBound | apps/server/src/app.ts:352-375 | in any window whose admissions remember each other one key is told `row` at most 19 times and `last_row` at most once |
| AuditBudget.LogLineMeansSpent | apps/server/src/app.ts:352-375 | `log` is answered only when the last window held 19 of the one and one of the other |
| RegistrationBudget.McpRegistrationBudget.Check | apps/server/src/mcp-registration-budget.ts:26-31 | the address is checked first and only if it allows is the tenant; a refusal names the refusing scope and carries what that limiter answered, seconds included; the histories stay a run of the budget over the requests so far |
| RegistrationBudget.McpRegistrationBudget.RefusalSays | apps/server/src/mcp-registration-budget.ts:26-31 | the seconds of a refusal are those of the limiter its scope names, at the request's place in that limiter's run, and lie between one and that limiter's window |
| RegistrationBudget.AddressRetryAfter | apps/server/src/mcp-registration-budget.ts:26-28 | a request its address refused is not let through more than a second before the answered seconds are over, and is let through when they are, unless the counter's cap binds |
| RegistrationBudget.TenantRetryAfter | apps/server/src/mcp-registration-budget.ts:29-31 | the same for a request its tenant refused, counted among the requests that passed their addresses |
| RegistrationBudget.AddressKeysDecide | apps/server/src/mcp-registration-budget.ts:27 | two requests share an address budget exactly when they share the tenant and the throttle key |
| RegistrationBudget.TenantBound | apps/server/src/mcp-registration-budget.ts:14-33 | in the runs the budget keeps, allowed attempts respect the tenant's limit over all addresses in every window whose admissions remember each other |
| RegistrationBudget.AddressBound | apps/server/src/mcp-registration-budget.ts:14-33 | in the runs the budget keeps, allowed attempts respect the limit of each tenant and address in every such window |
| RegistrationBudget.RefusedAddressesSpendNothing | apps/server/src/mcp-registration-budget.ts:16-28 | where no address is crowded out, deleting every address-refused attempt from a run of any length changes none of the tenant limiter's answers |
| RegistrationBudget.SpendNothingIff | apps/server/src/mcp-registration-budget.ts:16-28 | on every run: it changes none of them if and only if each kept attempt finds room at its address among the kept ones |
| RefusalTraces.RefusedAddressCanMatter | apps/server/src/mcp-registration-budget.ts:16-28 | a run of the budget at its ceiling of 10,000 keys in which deleting the one refused attempt has another one refused, and the tenant's answers change |
| RefusalTraces.AddressesDiffer | apps/server/src/throttle-origin.ts:30-45 | there are enough client addresses with distinct keys for that run |
| RegistrationBudget.TenantAnswersAsBefore | apps/server/src/mcp-registration-budget.ts:26-31 | the tenant limiter answers as before exactly when every kept attempt still passes its address |
| Lcs.NoneLonger | apps/admin-console/e2e/trace-diff.ts:107-117 | no common subsequence is longer than the recurrence says |
| Lcs.SomeAsLong | apps/admin-console/e2e/trace-diff.ts:107-117 | some common subsequence is as long |
| Lcs.FillTable | apps/admin-console/e2e/trace-diff.ts:108-117 | each cell (i, j) of the flat table holds the longest common length of the two suffixes |
| Lcs.WalkSpells | apps/admin-console/e2e/trace-diff.ts:124-141 | kept and dropped lines interleave to the base, kept and added to the final side, and what is kept is longest |
| Lcs.WalkIsMinimal | apps/admin-console/e2e/trace-diff.ts:124-141 | no other edit script between the same sides drops or adds fewer lines |
| Lcs.WalkIsFirst | apps/admin-console/e2e/trace-diff.ts:124-141 | among all scripts that keep as many lines, the walk is the one that keeps a line wherever it can, and drops before it adds |
| Lcs.HunksAreMinimal | apps/admin-console/e2e/trace-diff.ts:105-144 | the hunks remove exactly the base's and add exactly the final side's lines beyond the common length, and no hunk is empty |
| Lcs.HunksAreOneSided | apps/admin-console/e2e/trace-diff.ts:105-144 | no hunk removes and adds the same line |
| Lcs.HunksAreRuns | apps/admin-console/e2e/trace-diff.ts:105-144 | the hunks are the whole runs between the lines both sides share: woven with the same gaps they give the base and the final side, and no two of them touch |
| Lcs.Hunks | apps/admin-console/e2e/trace-diff.ts:107-144 | the table and the walk over it compute the specified hunks |
| TraceDiff.TakeOutMoves | apps/admin-console/e2e/trace-diff.ts:161-172 | the loops over runs and the list of every added line compute the specified moves |
| TraceDiff.PairUp | apps/admin-console/e2e/trace-diff.ts:175-182 | the loop that pairs removals with additions computes the specified report of one run |
| TraceDiff.SequenceDifferences | apps/admin-console/e2e/trace-diff.ts:153-186 | the whole method computes the specified differences |
| TraceDiff.SameIdentityIff | apps/admin-console/e2e/trace-diff.ts:72-75 | two lines share their identity exactly when they are requests of one method and one path, whatever query, body and status follow |
| TraceDiff.EveryLineRequests | apps/admin-console/e2e/trace-diff.ts:72-75 | every line, however malformed, is a request of some method and path in that sense |
| TraceDiff.MovesAreMaximal | apps/admin-console/e2e/trace-diff.ts:161-172 | each move takes its line once off either side, and afterwards no line is left on both sides |
| TraceDiff.PairingIsMaximal | apps/admin-console/e2e/trace-diff.ts:173-184 | pairs share their identity, and no removed and added line that are left do |
| TraceDiff.DifferencesCount | apps/admin-console/e2e/trace-diff.ts:153-186 | every line the hunks removed or added is reported exactly once |
| TraceDiff.DifferencesConserve | apps/admin-console/e2e/trace-diff.ts:153-186 | taking the reported base lines out of the base and putting the reported final lines in gives the final side, line by line |
| TraceDiff.MovedAsOftenAsShared | apps/admin-console/e2e/trace-diff.ts:161-172 | a line is reported moved exactly as often as it is both removed and added |
| TraceDiff.PermutationOnlyMoves | apps/admin-console/e2e/trace-diff.ts:161-185 | a permutation of the input yields only moved entries |
| TraceDiff.NoDifferencesIffEqual | apps/admin-console/e2e/trace-diff.ts:153-186 | the result is empty exactly when both sides are equal |
| TraceReports.ChangedIffSameRequest | apps/admin-console/e2e/trace-diff.ts:153-186 | two different single lines are reported as one change exactly when they are requests of one method and path |
| TraceReports.SingleLines | apps/admin-console/e2e/trace-diff.ts:173-185 | otherwise, or without pairing, as the old line removed and then the new one added |
| TraceReports.ReportInOrder | apps/admin-console/e2e/trace-diff.ts:153-186 | for any two sides, moves come last and in the base's order; before them, what the base lost is reported in its order and what the final side alone has in its own |
| Registry.ResolveOrder | packages/kernel/src/registry.ts:79-114 | returns an order exactly when every named dependency is registered and the graph is acyclic; it lists each module once after its dependencies, each being the one that the search from the first registered name still to place comes to; a failure is a real cycle or a real missing dependency |
| Registry.Resolution.Visit | packages/kernel/src/registry.ts:83-109 | keeps the colouring, the trail and the order, terminates on the modules not yet coloured, and justifies every failure |
| Registry.Resolution.Revisit | packages/kernel/src/registry.ts:84-93 | the slice of the trail reported as a cycle is one |
| Registry.OrderMeansAcyclic | packages/kernel/src/registry.ts:79-114 | a complete dependency order leaves no room for a cycle or an unknown dependency |
| Registry.FailureMeansNoOrder | packages/kernel/src/registry.ts:86-101 | a justified failure means the registry has no order |
| Registry.OrderIsOnly | packages/kernel/src/registry.ts:79-114 | there is only one such order: which module comes next is decided by the order of registration and of the named dependencies |
| Registry.RegisteredInTurn | packages/kernel/src/registry.ts:111 | modules registered after their dependencies keep the order they were registered in |
| Registry.ModuleRegistry.Register | packages/kernel/src/registry.ts:23-29 | a new module is added; a name already taken is refused and changes nothing |
| Registry.ModuleRegistry.StartAll | packages/kernel/src/registry.ts:33-37 | modules start in order up to the first whose start fails, or the first after whose start the logger does, and all of them exactly when none does; a module counts as started only after its own start |
| Registry.StartsEndOnce | packages/kernel/src/registry.ts:33-37 | which starts happen and which error ends them is decided by what fails, and by nothing else |
| Registry.ModuleRegistry.Start | packages/kernel/src/registry.ts:31-55 | every module is started, in dependency order, exactly when there is an order and neither a start nor the logger fails; otherwise the error is that of the first failure, and everything running is stopped again, once each and last started first, with nothing recorded as started |
| Registry.ModuleRegistry.Stop | packages/kernel/src/registry.ts:57-77 | every started module is stopped exactly once in reverse order even when some stops fail; each stop that fails is recorded as such, and they are counted |
| Registry.SafeStep | packages/kernel/src/registry.ts:31-77 | at every event the running modules are closed under their dependencies and whatever is stopped is the last still running |
| Locales.CanonicalIsStable | packages/contracts/src/profile-claims.ts:44-56 | a canonical tag is its own canonical form |
| Locales.CanonicalIsPlain | packages/contracts/src/profile-claims.ts:22-24 | a canonical tag holds only letters, digits and hyphens, so neither separator of the reader's keys |
| Locales.CanonicalIffTyped | packages/contracts/src/profile-claims.ts:22-24 | a tag has a canonical form exactly when it is a language of two or three letters, then perhaps a script of four, then perhaps a region of two letters or three digits |
| Locales.CanonicalCasing | packages/contracts/src/profile-claims.ts:44-56 | the canonical form is the tag up to case: the language in lower case, a script in title case, a region in upper case |
| Locales.OneSpellingIff | packages/contracts/src/profile-claims.ts:44-56 | two tags have one canonical form exactly when they differ in case alone |
| BrandingCache.BrandingCache.Get | packages/domain-theme/src/service/branding-cache.ts:66-76 | a live entry is answered and becomes the most recent, an expired one is dropped, the weight stays the sum of the entries |
| BrandingCache.BrandingCache.Set | packages/domain-theme/src/service/branding-cache.ts:77-87 | ignored for an outdated generation or too heavy a value; otherwise most recent, the oldest dropped until both bounds hold |
| BrandingCache.BrandingCache.InvalidateTenant | packages/domain-theme/src/service/branding-cache.ts:88-102 | the tenant's entries and only those go; its generation rises and nobody's falls, even when an old count is forgotten |
| BrandingCache.BrandingCache.StoredUnderCurrentIff | packages/domain-theme/src/service/branding-cache.ts:77-98 | an entry was stored under its tenant's current generation exactly when the tenant's count is still kept or the floor is what it was stored under; never under a later one |
| BrandingCache.AnswersOutdated | packages/domain-theme/src/service/branding-cache.ts:66-98 | a run in which an entry stored under an earlier generation is answered |
| BrandingCache.BrandingCache.Evict | packages/domain-theme/src/service/branding-cache.ts:83-86 | the loop drops the oldest entries until the rest fits |
| BrandingCache.TrimmedKeepsMost | packages/domain-theme/src/service/branding-cache.ts:83-86 | what is kept is the latest part of the list and one entry more would not have fitted |
| BrandingCache.LastIsKept | packages/domain-theme/src/service/branding-cache.ts:77-87 | the entry just set outlives the eviction it causes |
| BrandingCache.ForgettingRaises | packages/domain-theme/src/service/branding-cache.ts:92-98 | the raised floor lies above the forgotten count, so no generation falls |
| BrandingCache.OldestIsForgotten | packages/domain-theme/src/service/branding-cache.ts:88-98 | the tenant just invalidated has its count, one higher; one is forgotten exactly when a tenant more would be counted than may be, and it is the one invalidated longest ago |
| BrandingCache.WithoutKeepsOrder | packages/domain-theme/src/service/branding-cache.ts:99-101 | what other tenants have keeps its order of use |
| BrandingCache.WeightAfterDelete | packages/domain-theme/src/service/branding-cache.ts:60-63 | dropping an entry takes exactly its bytes off the weight |
| MessageOverrides.KeysAreDistinct | apps/server/src/message-overrides.ts:73-75 | a key stands for one tenant and one locale, whatever characters a tenant's name holds |
| MessageOverrides.FlightsAreDistinct | apps/server/src/message-overrides.ts:88 | a flight stands for one key and one generation |
| MessageOverrides.MessageOverrides.Resolve | apps/server/src/message-overrides.ts:72-96 | whatever is answered comes from a read of this tenant and locale that began after the tenant's last invalidation: stored or failed a short while ago, or still running and promised; a read starts exactly when none of these is there; only a bad tag is answered empty without one |
| MessageOverrides.MessageOverrides.ReadDone | apps/server/src/message-overrides.ts:57-59 | the map is offered to the cache, which stores it exactly when the read still carries the tenant's generation and the map is not too heavy; the invariant holds on |
| MessageOverrides.MessageOverrides.ReadFailed | apps/server/src/message-overrides.ts:60-69 | at most 1024 back-offs, emptied when full; right after the failure the key backs off for a second exactly if the read's generation is still the tenant's |
| MessageOverrides.MessageOverrides.BackOffLastsIff | apps/server/src/message-overrides.ts:21-22 | in every later state, a failure is what its key backs off for exactly until its second is over, the tenant's generation has changed, a failure has emptied the map, or another read of the key has failed |
| MessageOverrides.MessageOverrides.BackingOffIff | apps/server/src/message-overrides.ts:77-84 | in every state, a key backs off exactly when some failure of a read of its tenant and locale lasts |
| MessageOverrides.ReadAgain | apps/server/src/message-overrides.ts:72-102 | a run in which a key is read again the moment its read failed, after an invalidation |
| MessageOverrides.MessageOverrides.Settle | apps/server/src/message-overrides.ts:91-93 | a settled read yields its own result and removes its own registration and no other |
| MessageOverrides.MessageOverrides.InvalidateTenant | apps/server/src/message-overrides.ts:100-102 | the tenant's entries and only those go, its generation rises, the invariant holds on |
| MessageOverrides.MessageOverrides.Begin | apps/server/src/message-overrides.ts:88-94 | a new read is registered unless 256 are, and is fresh |
| MessageOverrides.InvalidationKeeps | apps/server/src/message-overrides.ts:86-102 | after an invalidation every earlier read of the tenant holds an outdated generation, and the whole invariant holds on |
| MessageOverrides.StoreKeeps | apps/server/src/message-overrides.ts:55-59 | what is stored was found by a read no invalidation has overtaken |
| MessageOverrides.BackoffKeeps | apps/server/src/message-overrides.ts:66-67 | after a failure, with the map emptied first or not, every back-off is blamed on its key's latest failure and every failure since the last emptying has one |
| MessageOverrides.BeginKeeps | apps/server/src/message-overrides.ts:86-95 | starting a read nobody has registered keeps the invariant |
| MessageOverrides.AdvanceKeeps | apps/server/src/message-overrides.ts:57-68 | a read coming further, in any interleaving, keeps the invariant |
| MessageOverrides.OverlapNeedsCrowding | apps/server/src/message-overrides.ts:18-20 | two reads of one tenant, locale and generation run together only if the earlier began while the in-flight map was full |
| MessageOverrides.CurrentFlightIsFresh | apps/server/src/message-overrides.ts:86-90 | a registered read of the tenant's current generation began after its last invalidation |
| Packing.GreedyCuts | apps/docs/scripts/openapi-pages.ts:707-716 | greedy cutting loses nothing, keeps the order, and every block is one item or within the limit |
| Packing.GreedyIsFewest | apps/docs/scripts/openapi-pages.ts:707-716 | among all cuts into such blocks it has the fewest, and among those with as few none has a shorter last block |
| Packing.GreedyIsFull | apps/docs/scripts/openapi-pages.ts:707-716 | a block is only begun for an item that the block before had no room for |
| OpenApiPages.TopLevelIsPrefix | apps/docs/scripts/openapi-pages.ts:373-375 | the top level is the part of a path before its first dot or bracket |
| OpenApiPages.InsideHasSameTop | apps/docs/scripts/openapi-pages.ts:377-378 | whatever lies inside a field has that field's top level |
| OpenApiPages.GroupRows | apps/docs/scripts/openapi-pages.ts:380-385 | the loop over the map of groups computes the specified groups |
| OpenApiPages.GroupsAreFields | apps/docs/scripts/openapi-pages.ts:380-385 | each group is exactly its field's rows in their order |
| OpenApiPages.ChunkRows | apps/docs/scripts/openapi-pages.ts:379-393 | the loop over groups computes the specified chunks |
| OpenApiPages.NothingLost | apps/docs/scripts/openapi-pages.ts:379-393 | the chunks in turn hold each field's rows, once each and in their order |
| OpenApiPages.EveryRowOnce | apps/docs/scripts/openapi-pages.ts:379-393 | no row is lost or duplicated |
| OpenApiPages.FieldsStayTogether | apps/docs/scripts/openapi-pages.ts:377-393 | two chunks never share a top-level field |
| OpenApiPages.FirstFieldFirst | apps/docs/scripts/openapi-pages.ts:380-392 | the tables list the fields in the order of their first rows |
| OpenApiPages.TogetherStays | apps/docs/scripts/openapi-pages.ts:379-393 | rows that stand together by field already keep their places |
| OpenApiPages.NextFieldHadNoRoom | apps/docs/scripts/openapi-pages.ts:386-391 | a table is only begun for a field that the table before had no room for |
| OpenApiPages.OverfullIsOneField | apps/docs/scripts/openapi-pages.ts:387-391 | no chunk is empty, and one over 60 rows is a single field |
| OpenApiPages.FewestTables | apps/docs/scripts/openapi-pages.ts:386-392 | no other cut of the groups into such tables has fewer |
| OpenApiPages.Pack | apps/docs/scripts/openapi-pages.ts:707-716 | the pages hold the sections in order, none over 60 rows unless it is one section; no such paging has fewer pages, and a page is only begun for a section that the one before had no room for |
| Slots.NameAtIsOnly | packages/kernel/src/slots.ts:13-16 | looking at the longest run of name characters finds whatever the pattern matches |
| Slots.TokenMeans | packages/kernel/src/slots.ts:16-30 | a well-formed slot that stands at a place is what is found there, and nothing is found exactly where no double brace starts |
| Slots.MalformedMeans | packages/kernel/src/slots.ts:11-27 | a place is malformed exactly when double braces stand there and no slot with a name of at most 64 characters does |
| Slots.ScanSlots | packages/kernel/src/slots.ts:18-32 | the loop over matches computes the specified scan |
| Slots.ScanIsTidy | packages/kernel/src/slots.ts:18-32 | slots are in order and apart, each is what stands there, and no double brace starts between them |
| Slots.TidyIsUnique | packages/kernel/src/slots.ts:18-32 | there is only one such list |
| Slots.ScanOfPrint | packages/kernel/src/slots.ts:15-32 | scanning what was printed from brace-free literals and well-formed slots finds those slots in their places |
| Slots.FillTemplate | packages/kernel/src/slots.ts:46-71 | the filling loop computes the specified result, errors included |
| Slots.TemplateIsWoven | packages/kernel/src/slots.ts:54-70 | a template is its gaps woven with its slots as they were spelled |
| Slots.FilledIsWoven | packages/kernel/src/slots.ts:44-71 | filling succeeds exactly when every slot can be filled, and gives the same gaps woven with the values, whatever the values hold |
| Slots.FirstBadSlotDecides | packages/kernel/src/slots.ts:59-66 | a failure names the first slot that cannot be filled |
| Slots.FillOfPrint | packages/kernel/src/slots.ts:44-71 | filling what was printed gives literals, raw parts and escaped texts one after another |
| Escaping.EscapeIsPerCharacter | packages/kernel/src/slots.ts:34-42 | the six replacements in sequence are one replacement of each character |
| Escaping.UnescapeInverts | packages/kernel/src/slots.ts:34-42 | escaping loses nothing |
| Escaping.EscapedIsQuiescent | packages/kernel/src/slots.ts:34-45 | escaped text holds no angle bracket, quote or backtick |
| Scheduler.DelayStaysInBand | apps/server/src/scheduler.ts:18-26 | never before the interval, never after the interval and the jitter |
| Scheduler.DelayReachesAll | apps/server/src/scheduler.ts:18-26 | every whole millisecond of the band is some draw's delay |
| Scheduler.Scheduler.constructor | apps/server/src/scheduler.ts:33-69 | starts with one armed timer and the invariant |
| Scheduler.Scheduler.Fire | apps/server/src/scheduler.ts:41-49 | a pass begins only while not stopped and none runs; the invariant holds on |
| Scheduler.Scheduler.PassEnds | apps/server/src/scheduler.ts:54-67 | success, failure or a failing logger alike, the next timer is armed an interval or more ahead unless stopped |
| Scheduler.Scheduler.Stop | apps/server/src/scheduler.ts:72-74 | disarms the timer and waits for the pass in flight |
| Scheduler.Scheduler.StopResolves | apps/server/src/scheduler.ts:75-79 | when it resolves nothing is armed and nothing runs |
| Scheduler.Scheduler.PassesAreSpaced | apps/server/src/scheduler.ts:18-67 | in every state the passes are spaced as the next rows need, and until it is stopped either a pass runs or one timer is armed, never both |
| Scheduler.Scheduler.StoppedForGood | apps/server/src/scheduler.ts:14-15 | in every state after a stop no timer is armed and no pass has begun since; once it has resolved none runs |
| Scheduler.PassesDoNotOverlap | apps/server/src/scheduler.ts:18-67 | passes never overlap, and each begins an interval or more after every earlier one ended |
| Scheduler.NoBursts | apps/server/src/scheduler.ts:18-67 | the n-th pass begins no sooner than n intervals after the start |
| ThrottleOrigin.HextetsOfSpelling | apps/server/src/throttle-origin.ts:5-19 | reading any text form of section 2.2 of RFC 4291 gives the address it spells |
| ThrottleOrigin.SpellingDoesNotMatter | apps/server/src/throttle-origin.ts:30-45 | the key depends on the address alone: not on leading zeros, `::`, case, a dotted tail or a zone |
| ThrottleOrigin.KeyIsNetwork | apps/server/src/throttle-origin.ts:22-45 | two addresses that are not mapped share a key exactly when their first four groups agree |
| ThrottleOrigin.KeyReadsBack | apps/server/src/throttle-origin.ts:41-44 | the key of an address that is not mapped is text of that form itself: without leading zeros, it spells the network, the address with its last four groups zero |
| ThrottleOrigin.MappedIsIPv4 | apps/server/src/throttle-origin.ts:25-40 | a mapped address (section 2.5.5.2) has the key of the IPv4 address it carries and of no other |
| ThrottleOrigin.IPv4IsItsKey | apps/server/src/throttle-origin.ts:31-32 | an IPv4 address is its own key |
| ThrottleOrigin.NetworkIsNoIPv4 | apps/server/src/throttle-origin.ts:32-44 | an address that is not mapped never has an IPv4 address's key |
| ThrottleOrigin.OtherTextIsCut | apps/server/src/throttle-origin.ts:26-33 | anything else passes through, cut to 64 characters |
| Ico.LeValueOfBytes | brand/build.ts:264-274 | a number that fits its bytes is read back from them |
| Ico.WriteEntry | brand/build.ts:268-274 | the six writes at their offsets put one directory entry in place of zeros, or fail exactly when a value does not fit |
| Ico.PackIco | brand/build.ts:261-278 | writing succeeds exactly when every value fits where it is written, and the buffer and the images are then the specified file |
| Ico.SmallEnoughFits | brand/build.ts:261-278 | byte sizes, fewer than 65536 of them, and a total below four gigabytes are enough |
| Ico.RecordedRange | brand/build.ts:272-274 | the length and offset recorded for an image are its own |
| Ico.RecordedHeader | brand/build.ts:262-264 | the header says icon file, and how many images |
| Ico.RecordedKind | brand/build.ts:268-271 | each entry says its size twice, no palette, one plane and 32 bits |
| Ico.RangesTile | brand/build.ts:265-277 | the recorded ranges tile the file after the header without gap or overlap |
| Ico.RoundTrip | brand/build.ts:153-160 | what was packed is what is found: each size's image, empty where there was none |

## Left out

- Floating-point rounding in the counter's estimate, its wait and the scheduler's jitter: exact arithmetic stands in for IEEE doubles.
- Clocks that step back: the limiters' runs assume a clock that does not; the overrides' freshness does not need that.
- `size` and `retained` of the limiters and `size` of the cache: they only read what the invariants and `MapSizes` bound.
- MapSizes.HoldsNoMoreThanChecked: for a log with a limit of nothing the clock starts at the epoch, where the source's stand-in for a missing stamp lies.
- RegistrationBudget.AddressKeysDecide: takes tenants' ids to hold no colon, as UUIDs do.
- SlidingLogRuns.WindowHoldsAtMostLimit: an admission that an eviction inside the window has made a limiter forget is not bounded, as the source does not count it either; `LogIsExact` and `CounterIsExact` say what is counted on every run.
- RegistrationBudget.RefusedAddressesSpendNothing: speaks of runs in which no address is crowded out; `SpendNothingIff` covers the others.
- RegistrationBudget.McpRegistrationBudget.Check: takes the map from address text to throttle key as a parameter; `ThrottleOrigin` says what that map is.
- Scheduler.Scheduler.StoppedForGood: a pass that calls its own scheduler's stop is not modelled, nor a platform timer that fires early.
- Registry.ModuleRegistry.Start: a stop that overlaps a start still in progress is not modelled; start and stop are sequential.
- The test name and area that a trace difference carries along, the reading of trace files, and the report around them.
- TraceDiff.TakeOutMoves: hunks are values in a sequence, told apart by their index, where the source compares object identity.
- Lcs.FillTable: both sides are shorter than 2^32 lines, as a table of 32-bit cells requires.
- The size estimate of an override map and the wording of log lines; the logger is assumed not to throw in the override reader, and one clock reading stands for the few within a call.
- MessageOverrides.MessageOverrides.ReadDone: the map's weight is a parameter.
- The database reader behind the overrides, which is I/O.
- ThrottleOrigin.SpellingDoesNotMatter: Node's address predicates are stated as the grammar of RFC 4291 rather than as its regular expressions, and lower-casing is that of ASCII, which decides the same for addresses.
- `parseInt` and `Number` on text that is no number: an address that reaches them has been recognised first.
- Unicode beyond code units in templates: a `char` stands for one UTF-16 code unit.
- Slots.FillTemplate: a catalogue lookup that throws is not modelled.
- The other module hooks of `app.ts`, route files, transports, mailers, persistence and the browser-driven half of the brand build: wiring and I/O.
