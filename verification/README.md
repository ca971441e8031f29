# DevPulse, verified

A Dafny model of the algorithms and protocols inside DevPulse: how an import
task gets its share of repos and works through it, how events travel from the
GitHub API into the tables, how far back a repo has been imported, which API
token is used next, what the server keeps in memory between requests, and how
queries and time series are put together. Each module says what the code does,
as methods and classes where the code changes state, and proves what that
guarantees over all inputs, all runs and all interleavings.

| module | what it models |
|---|---|
| `Packing`, `Sharding` | the deduplicated work list, the stable sort heaviest first, greedy packing onto tasks, and Graham's 4/3 bound for it |
| `WorkerPool` | the dispatcher and the workers of one task, as a state machine with cancellation at any moment |
| `Events`, `Developers`, `EventImporter` | primary key order, batches, column-wise upserts, the batch transaction, crash and replay |
| `EventLocks` | row locks of concurrent batch transactions and the wait-for graph |
| `EventBuffer`, `ImportRuns` | the shared buffer with its critical sections, and every interleaving of adds, flushes, commits and failures |
| `Backfill`, `BackfillRuns` | the state rows, one import of a repo, and series of imports moving the backfill cursor |
| `TokenPool` | round-robin selection with timed exhaustion |
| `ResponseCache`, `CacheRuns` | the bounded TTL cache, alone and under interleaved get and set, against a map that never evicts |
| `RateLimiter`, `DeliveryCache` | the per-IP limiter and the webhook replay defence, against specifications without garbage collection |
| `QueryBuilder` | numbered placeholders over chained builders, with a reader that gives the SQL text its meaning |
| `Calendar`, `GapFill`, `DailyTotals` | days, weeks and months; gap filling; the clamped backwards walk over daily counts |
| `Migrations` | resumable numbered migrations over directories that grow from release to release |
| `Lexical`, `Decimals`, `Options` | string order, decimal text, optional values |

Some properties one might expect are false of the code. Each of these has its
exact condition and a concrete input that fails:

- `BuildWorkList` groups rows by `org + "/" + repo`. It keeps every repo apart
  exactly when those keys do, which holds when no org contains a slash
  (`Sharding.WorkListGroupsIff`, `SlashInOrgMergesRepos`).
- The shards are meant not to depend on the order of the input. They do not
  exactly when repos of equal weight whose lower-cased names agree are equal
  (`Sharding.OrderFreeIff`); `Web` and `web` are not (`CaseTwinsDepend`).
- The backfill cursor can move forward. When the fresh pass fails to read it,
  the code treats it as unset and saves a later one
  (`BackfillRuns.CursorMovesForwardIff`). With the default settings one failed
  read gives up 32 days (`FailedReadLosesProgress`).
- An import that finds no cursor need not leave one: it does exactly when one of
  its two saves succeeds and finds a state row (`BackfillRuns.CursorStoredIff`);
  with no rows written its chunk still counts as done (`NoRowsNoCursor`).
- Developers are written under their trimmed logins, events under the raw
  ones. The foreign key lets a batch through exactly when each of its logins is
  stored or is the trimmed form of one in the batch
  (`EventImporter.AcceptedIff`); `@bob` and ` bob` alone are refused
  (`AtSignAndSpaceRefused`).
- The order in which a batch writes its developers is left open by the map walk
  and the sort. It shows nowhere exactly when users that share a trimmed login
  agree on everything else (`Developers.OrderHiddenIff`); `bob` and `@bob` with
  different names do not (`BobAndAtBobDisagree`).
- A rate below 1 still lets the first request after a pause through, so the
  sliding-window limit holds exactly for rates of at least 1
  (`RateLimiter.RateKeptIff`, `RateBelowOneLetsOnePass`).
- The webhook handler reads the clock before it takes the lock, so readings can
  step back. The delivery cache answers like a set that never forgets, and
  keeps accepted repeats a window apart, exactly when no reading falls before
  an expiry that an earlier one was past (`DeliveryCache.AgreesIff`); two
  nanoseconds are enough (`TwoNanosecondsBackForget`).
- `sinceDate` is read once for a query and again for the gap filler. No date is
  lost between them exactly when both readings fall in the same week or month
  (`GapFill.CoversWindowIff`, `MidnightLosesAWeek`).
- Migrations survive all cut-offs and releases exactly when their versions are
  positive and strictly increasing in file-name order
  (`Migrations.ResumesRightIff`); `9_a.sql` and `10_b.sql` are not
  (`UnpaddedLosesOne`).
- The daily totals never fall exactly when the current total is not negative or
  there is only one day (`DailyTotals.NeverFallsIff`, `NegativeTotalFalls`),
  and each rise is the day's count exactly when the current total covers the
  later counts (`EveryGainShowsIff`, `GainsBeyondTotal`).

`ImportEvents` has a parameter for the end of its window but ignores it, so the
backfill modules speak of the windows that are requested, not of the events
that are fetched.

Times are integers (seconds in the backfill modules, nanoseconds in the token
pool, the limiter, the cache and the delivery set, days in the calendar), a
clock reading is a parameter, and a failure of the database or of GitHub is a
parameter or a step of its own. `None` in `Option` stands for a nil pointer,
SQL NULL or the zero time.

## Model

| member | source | states |
|---|---|---|
| Packing.GreedyNearOptimal | pkg/importer/shard.go:100-113 | for jobs in descending order, every load of greedy packing is at most (4m-1)/3m times the heaviest load of any assignment whatever |
| Packing.GreedyBalanced | pkg/importer/shard.go:100-113 | any two loads differ by at most the largest job |
| Packing.RoomForLongJob | pkg/importer/shard.go:100-113 | if the last and shortest job is longer than a third of a bound that some assignment meets, it fits on some machine under that bound however the others are placed |
| Packing.LoadsAddUp | pkg/importer/shard.go:102-113 | the loads add up to the jobs: no work is lost or doubled |
| Sharding.BuildWorkList | pkg/importer/shard.go:43-74 | the loop with its index map computes the work list of the rows |
| Sharding.WorkListGroups | pkg/importer/shard.go:41-74 | each repo of the rows is listed once, with all its tenant refs in row order and the event count of its first row |
| Sharding.WorkListGroupsIff | pkg/importer/shard.go:48-62 | that grouping is right exactly when different repos have different keys |
| Sharding.SlashFreeOrgsTellApart | pkg/importer/shard.go:52 | orgs without a slash give different repos different keys |
| Sharding.SlashInOrgMergesRepos | pkg/importer/shard.go:52-60 | two rows of different repos that share a key, one of which loses its item |
| Sharding.StableSort | pkg/importer/shard.go:85-98 | the copied slice is sorted in place into the stable sort of its old contents |
| Sharding.SortedOrdered | pkg/importer/shard.go:89-98 | the result is ordered by the comparison and is a permutation of the input |
| Sharding.SortStable | pkg/importer/shard.go:89-98 | items that tie keep their input order |
| Sharding.OrderFreeIff | pkg/importer/shard.go:85-98 | the shards of all task counts depend on the bag of repos alone exactly when repos with equal weight and equal lower-cased names are equal |
| Sharding.CaseTwinsDepend | pkg/importer/shard.go:93-97 | names that differ only in case leave the order to the input |
| Sharding.AssignTasks | pkg/importer/shard.go:102-113 | the loops over both slices compute longest-first greedy packing with ties to the lower task |
| Sharding.LeastLoaded | pkg/importer/shard.go:105-110 | the inner loop finds the least loaded task, the lowest index among several |
| Sharding.ShardRepos | pkg/importer/shard.go:80-122 | the whole function computes the shard of one task index; empty for no repos or fewer than one task |
| Sharding.ShardsPartition | pkg/importer/shard.go:76-79 | the shards of all task indices together hold every repo exactly as often as the input |
| Sharding.OutOfRangeShardEmpty | pkg/importer/shard.go:115-120 | a task index that no task has selects nothing |
| Sharding.ShardOrdered | pkg/importer/shard.go:115-120 | every shard lists its repos heaviest first |
| Sharding.RowsReachOneShard | pkg/importer/shard.go:43-122 | from rows whose keys tell repos apart to shards: a row's repo is in exactly one shard, once, with all refs of its rows |
| Sharding.ShardsBalanced | pkg/importer/shard.go:76-79 | any two shards differ in weight by at most the largest effective weight |
| Sharding.SplitAsAssignment | pkg/importer/shard.go:100-120 | any split of the same bag of repos is an assignment of the sorted list with the same loads |
| Sharding.ShardsNearOptimal | pkg/importer/shard.go:76-113 | for any rival split of the repos whose shards stay within a bound, 3m times any shard's weight is at most (4m-1) times that bound |
| WorkerPool.StepKeepsInv | pkg/importer/importer.go:173-217 | every step keeps each repo sent in exactly one place and the counters equal to what was counted |
| WorkerPool.AtMostOnce | pkg/importer/importer.go:173-216 | in every reachable state a repo was counted at most once and is held by at most one worker, never both |
| WorkerPool.FinishedRunComplete | pkg/importer/importer.go:171-219 | at the end total equals errors plus skips plus successes; without cancellation every repo was imported exactly once |
| WorkerPool.CancelLetsRunningImportsEnd | pkg/importer/importer.go:181-217 | whenever a run is cancelled, its final total is the total then plus exactly the imports then under way; after the close nothing more is sent |
| WorkerPool.RunsAreShort | pkg/importer/importer.go:173-217 | no schedule takes more than four steps a repo, one a worker and two more |
| WorkerPool.NeverStuckIff | pkg/importer/importer.go:173-217 | an unfinished run can go on exactly when it has a worker, was cancelled, or has nothing left to send |
| Events.CompareKeysTransitive | pkg/data/postgres/event.go:41-55 | the comparison by primary key is transitive, strictly where one side is strict |
| Events.CompareKeysFlips | pkg/data/postgres/event.go:41-55 | and antisymmetric |
| Events.CompareKeysMeaning | pkg/data/postgres/event.go:41-55 | an event comes first exactly when its first differing column, in the order org, repo, username, type, date, is less |
| Lexical.CompareMeaning | pkg/data/postgres/event.go:41-55 | a string comes first exactly when it is a proper prefix of the other or less at their first difference |
| Events.SortEvents | pkg/data/postgres/event.go:516 | the events come out sorted by primary key, none lost or added |
| Events.SplitIntoBatches | pkg/data/postgres/event.go:472-487 | full batches in order, only the last one shorter, that concatenate to the items |
| Events.UpsertsKeepLastValues | pkg/data/postgres/event.go:87-106 | after any sequence of upserts the overwritten columns come from the last event with the key, each nullable column keeps its last non-null value or what was stored |
| Events.EventReplay | pkg/data/postgres/event.go:94-105 | upserting any prefix first changes nothing about upserting the whole sequence |
| Developers.BatchDevelopers | pkg/data/postgres/event.go:585-597 | the known users of the batch's events, each once, mapped and sorted by username |
| Developers.RowAfterDevelopers | pkg/data/postgres/developer.go:40-55 | after any developer upserts a row holds the last written columns, and the last non-empty entity or the stored one |
| Developers.WrittenUser | pkg/data/ghutil/gh.go:36-59 | each stored column comes from its own field of the user, trimmed; an empty company keeps the stored entity |
| Developers.TrimMeaning | pkg/data/ghutil/gh.go:54-59 | exactly the white space around a text goes, and then every `@` |
| Developers.UpsertsWriteNames | pkg/data/postgres/event.go:589-613 | if users that share a trimmed login agree, the order of the developer upserts does not show |
| Developers.OrderHiddenIff | pkg/data/postgres/event.go:589-613 | for all batches and tables that is so exactly when they agree |
| Developers.CleanLoginsAgree | pkg/data/ghutil/gh.go:54-59 | users whose logins trimming leaves alone always agree |
| Developers.BobAndAtBobDisagree | pkg/data/ghutil/gh.go:54-59 | users `bob` and `@bob` with different names, each under its own login, leave the name to the order |
| Developers.WithDevelopersTwice | pkg/data/postgres/developer.go:40-55 | under the same condition writing users again leaves what writing them once left |
| Developers.CleanOrderStrict | pkg/data/postgres/event.go:595-597 | with logins that trimming leaves alone the developers come in strictly rising username order |
| EventImporter.WriteDevelopers | pkg/data/postgres/event.go:607-613 | the loop writes all developers, in order |
| EventImporter.WriteEvents | pkg/data/postgres/event.go:617-630 | the loop upserts all events, or stops at one whose developer is missing |
| EventImporter.FlushBatch | pkg/data/postgres/event.go:582-636 | one transaction: developers then events of the batch, or nothing; succeeds exactly when every username has a developer and the database does not fail |
| EventImporter.AcceptedIff | pkg/data/postgres/event.go:585-630 | the foreign key lets a batch of known users through exactly when each login is stored or is the trimmed form of one in the batch |
| EventImporter.KnownUsersCommit | pkg/data/postgres/event.go:585-613 | so a batch of logins that trimming leaves alone is never refused |
| EventImporter.LoneUncleanLoginRefused | pkg/data/ghutil/gh.go:36-59 | a batch of one event whose login trimming changes is let through exactly when that very login is stored |
| EventImporter.AtSignAndSpaceRefused | pkg/data/ghutil/gh.go:54-59 | an empty developer table refuses the event of `@bob` and that of ` bob`, though both users are written as `bob` |
| EventImporter.BatchLocksRiseIff | pkg/data/postgres/event.go:595-630 | the row locks of a batch transaction, those of its foreign key included, are asked for in rising order exactly when every login of the batch is the trimmed form of one; its statements' own locks are among those of the run theorems whatever the logins |
| EventImporter.BatchingInvisible | pkg/data/postgres/event.go:535-541 | if users that share a trimmed login agree, how the events are cut into batches does not show in the tables their commits leave |
| EventImporter.CrashAndReplay | pkg/data/postgres/event.go:516-541 | under the same condition the commits of a flush stopped after any batch and of a full one after it, with any batch size, leave the tables of one uninterrupted flush |
| EventImporter.AnyCrashesAndReplay | pkg/data/postgres/event.go:516-541 | the same after any number of crashes anywhere |
| EventLocks.BatchRowsRiseIff | pkg/data/postgres/event.go:516-630 | developers by username, then events by primary key with the developer each refers to, is a rising request order exactly when the batch writes all those developers |
| EventLocks.OwnRowsRise | pkg/data/postgres/event.go:516-630 | developers by username, then events by primary key, always is one |
| EventLocks.BeforeTransitive | pkg/data/postgres/event.go:41-55 | the lock order, developers before events, is transitive |
| EventLocks.BeforeTotal | pkg/data/postgres/event.go:41-55 | and total |
| EventLocks.RunKeepsInv | pkg/data/postgres/event.go:599-635 | in every run of such batch transactions no two open ones hold the same row, and each asks in rising order |
| EventLocks.WaitForGraphAcyclic | pkg/data/postgres/event.go:599-635 | in every reachable state the wait-for graph of any number of batch transactions, for their own locks or with those of the foreign key, has no cycle |
| EventLocks.SomeTransactionCanStep | pkg/data/postgres/event.go:599-635 | while a transaction is open some open transaction can go on |
| EventBuffer.Importer.Append | pkg/data/postgres/event.go:435-440 | the critical section of add: the event, its count and its user, and whether the buffer is due |
| EventBuffer.Importer.UpdatePage | pkg/data/postgres/event.go:385-391 | the page of one event type, and of no other, changes |
| EventBuffer.Importer.Flush | pkg/data/postgres/event.go:489-578 | the buffer is taken, sorted, split and committed batch by batch up to a failure, then the states are written up to a failure; the buffer is empty in any case, counts and users stay, flushed grows by the buffered events only if all of it succeeds |
| EventBuffer.Importer.Add | pkg/data/postgres/event.go:406-448 | no user or no login, no effect; otherwise the event is buffered under the owner, the repo, the login, its type and its date, its type is counted, and the buffer is flushed once it holds 500 events |
| EventBuffer.FlushStoresBuffer | pkg/data/postgres/event.go:489-578 | a successful flush leaves the tables with exactly the buffered events upserted in its sorted order, and every event type's row with its state |
| EventBuffer.FlushStoresEvents | pkg/data/postgres/event.go:489-541 | each buffered event is then in the event table under its own key, with the text of a buffered event of that key |
| ImportRuns.StepKeepsInv | pkg/data/postgres/event.go:406-578 | every step of every interleaving keeps conservation, coverage by users and the tables within what was added |
| ImportRuns.RunKeepsInv | pkg/data/postgres/event.go:406-578 | so in every run added events are the disjoint union of the buffer and what flushes took, counts are adds per type, every taken event has its user in the same snapshot |
| ImportRuns.CountsAreByType | pkg/data/postgres/event.go:435-440 | in every run of one repo the count under a type is the number of events of that type added so far |
| ImportRuns.NextBatchAcceptedIff | pkg/data/postgres/event.go:504-541 | in every reachable state the next batch of any open flush comes with all its users, and commits exactly when its logins are covered |
| ImportRuns.NoBatchRefused | pkg/data/postgres/event.go:504-541 | in a run whose added logins trimming leaves alone no batch is ever refused |
| ImportRuns.QuietRunStoredAll | pkg/data/postgres/event.go:406-578 | once the buffer is empty and all flushes finished, exactly the added keys are stored and the flushed counter equals the adds |
| ImportRuns.QuietRunTexts | pkg/data/postgres/event.go:406-578 | the row of an added key then carries the text columns of an added event with that key; rows of other keys are untouched |
| ImportRuns.ValuesComeFromEvents | pkg/data/postgres/event.go:94-105 | in every run each nullable column of each row holds a value an added event with its key brought, or the one it had at the start |
| Backfill.StateStore.GetBackfillUntil | pkg/data/postgres/state.go:144-164 | the least non-null cursor of the repo's rows; nothing when the read fails |
| Backfill.StateStore.SaveBackfillUntil | pkg/data/postgres/state.go:166-180 | every row gets the new cursor, or none when the save fails |
| Backfill.StateStore.SaveStates | pkg/data/postgres/event.go:543-562 | the states are written one by one up to a failure |
| Backfill.RowsHoldStates | pkg/data/postgres/event.go:550-562 | the types written then have the states of the snapshot, the others keep their rows |
| Backfill.CursorIsLeast | pkg/data/postgres/state.go:144-164 | the cursor is unset when every row is, and else the least value set |
| Backfill.StateStore.ImportEvents | pkg/data/postgres/event.go:450-562 | the rows after an import: page and resume point of the types a flush got to, with the cursor loaded at the start |
| Backfill.WrittenRow | pkg/data/postgres/event.go:450-470 | a type that was written resumes from the later of its stored point and the window start, or from the start without a row; other types keep their rows |
| Backfill.ImportMetaAndCheckSkip | pkg/importer/importer.go:387-444 | all branches of the skip check, which SkipsIff spells out |
| Backfill.SkipsIff | pkg/importer/importer.go:387-444 | an import skips exactly when all reads succeed, there are state rows and fork data, the repo was not pushed after its last event, and its cursor is unreadable, unset or at least 90 days back |
| Backfill.PushedRepoImported | pkg/importer/skip_unchanged.go:30-38 | a repo pushed after its last event is not skipped: unless stopped its fresh pass runs, and a type it writes resumes no earlier than the fresh window |
| Backfill.RunFreshPass | pkg/importer/importer.go:556-598 | the fresh import, then the cursor it reads, or the fresh start it saves and returns when it reads none |
| Backfill.FreshPassResumes | pkg/importer/importer.go:556-583 | each type it wrote resumes at the later of its stored point and the fresh window start |
| Backfill.RunBackfillPass | pkg/importer/importer.go:675-722 | nothing at the target; otherwise one chunk ending at the cursor, cut off at the target, that moves the cursor on success |
| Backfill.BackfillPassResumes | pkg/importer/importer.go:690-717 | each type it wrote resumes at the later of its stored point and the chunk start; the others where they did |
| Backfill.ImportRepo | pkg/importer/importer.go:446-550 | one import as far as the cursor goes: skip check, fresh pass, backfill pass; a repo pushed after its last event is never skipped |
| Backfill.ImportKeepsCursor | pkg/data/postgres/event.go:550-561 | importing events in whatever window leaves the cursor where it is |
| BackfillRuns.CursorMovesForwardIff | pkg/importer/importer.go:584-595 | the cursor moves forward in an import exactly when the fresh pass runs, fails to read it, and the stored cursor is before the chunk start or the fresh start that is saved, by the guards of the two passes |
| BackfillRuns.FailedReadLosesProgress | pkg/importer/importer.go:585-594 | with default settings one failed read moves a cursor 60 days back to 28 days back |
| BackfillRuns.AsksExactlyWhilePending | pkg/importer/importer.go:423-433 | a readable cursor after the target, 90 days back, is never skipped: the import asks for exactly the chunk that ends at it, cut off at the target; at the target it asks for nothing |
| BackfillRuns.ResumePointNeverMovesBack | pkg/data/postgres/event.go:460-464 | the stored resume point of a type never moves back, and a flush takes it at least to the window start |
| BackfillRuns.RunsChain | pkg/importer/importer.go:682-722 | over any series of imports each requested window begins where the last advanced one stopped |
| BackfillRuns.WindowsTile | pkg/importer/importer.go:690-720 | advanced windows are adjacent and disjoint: each moment between the cursors lies in exactly one |
| BackfillRuns.ProgressBound | pkg/importer/importer.go:682-722 | after any series of imports the cursor has moved a full chunk for each advanced pass, or is at the target |
| BackfillRuns.BackfillReachesTarget | pkg/importer/importer.go:682-722 | ceil((90-fresh)/chunk) advanced passes reach the target, after which the backfill pass does nothing |
| BackfillRuns.PassesBounded | pkg/importer/importer.go:682-722 | and no series of imports, however long, advances more often than that |
| BackfillRuns.FirstImportStartsChain | pkg/importer/importer.go:584-595 | the first import of a repo, once its fresh pass has written state rows, sets the cursor to the fresh start and chains its first chunk to it |
| BackfillRuns.CursorStoredIff | pkg/importer/importer.go:584-722 | an import that finds no cursor leaves one exactly when the fresh save or the backfill save succeeds with a state row to save it in |
| BackfillRuns.NoRowsNoCursor | pkg/importer/importer.go:584-722 | with no state rows written the cursor stays unset, although the backfill pass counts its chunk as done |
| TokenPool.Pool.Token | pkg/data/ghutil/tokenpool.go:80-100 | the loop, which reads the clock anew at each position, returns the first token found never exhausted or past its window, counts it and moves behind it |
| TokenPool.SteadyReadings | pkg/data/ghutil/tokenpool.go:70-76 | with readings that agree the tokens found active are those in rotation at that moment |
| TokenPool.Pool.Exhaust | pkg/data/ghutil/tokenpool.go:105-115 | the first position with the token is out until the window has passed; nothing else changes |
| TokenPool.Pool.ExhaustThenTokens | pkg/data/ghutil/tokenpool.go:80-115 | with distinct tokens, no number of calls whose readings are all before the end of the window returns an exhausted token |
| TokenPool.BackAfterWindow | pkg/data/ghutil/tokenpool.go:70-76 | from the end of its window on it is in the turn again, once |
| TokenPool.Pool.ActiveCount | pkg/data/ghutil/tokenpool.go:118-129 | the number of tokens in rotation |
| TokenPool.TurnRotates | pkg/data/ghutil/tokenpool.go:90-97 | a token just used moves to the end of the turn |
| TokenPool.NoTokenIffAllExhausted | pkg/data/ghutil/tokenpool.go:78-100 | no token is returned exactly when every token is exhausted |
| TokenPool.EachOnceInATurn | pkg/data/ghutil/tokenpool.go:80-100 | as many calls as there are active tokens return each of them exactly once, from any starting point |
| TokenPool.CallsRepeatTurn | pkg/data/ghutil/tokenpool.go:80-100 | any number of calls walks through the turn again and again |
| TokenPool.FairShare | pkg/data/ghutil/tokenpool.go:80-100 | over any stretch of calls active tokens are used equally often give or take one, exhausted ones never |
| TokenPool.Pool.Tokens | pkg/data/ghutil/tokenpool.go:80-100 | any number of calls of Token while the same tokens stay in rotation: the tokens given walk the turn, each is counted, and the counts gained by active tokens differ by at most one |
| ResponseCache.Cache.Get | pkg/server/data.go:90-107 | alone, a hit is an entry whose expiry the clock has not passed, and a miss leaves no entry |
| ResponseCache.Cache.SetWithTTL | pkg/server/data.go:113-124 | the value is stored, an eviction follows, and the size is within the limit |
| ResponseCache.Cache.SetThenGet | pkg/server/data.go:90-124 | a get after a set hits only while no more than the time to live has passed, with the value set; with room for the key exactly then |
| ResponseCache.Cache.EvictLocked | pkg/server/data.go:128-166 | nothing within the limit, 5000 if none is given; else expired entries go; else exactly limit - limit/10 entries stay; no kept entry expires before a dropped one |
| ResponseCache.Cache.PurgeExpired | pkg/server/data.go:79-88 | exactly the entries whose expiry the clock has not passed stay |
| ResponseCache.Cache.DeleteIfSame | pkg/server/data.go:98-103 | the entry goes only if it is the very one that was read |
| ResponseCache.Cache.InvalidatePrefix | pkg/server/data.go:168-176 | exactly the keys without the prefix stay |
| ResponseCache.SortVictims | pkg/server/data.go:156-162 | all keys once, soonest expiry first |
| ResponseCache.FirstsDropped | pkg/server/data.go:150-165 | dropping the first n victims leaves n fewer entries, none expiring before a dropped one |
| CacheRuns.StepKeepsInv | pkg/server/data.go:79-176 | every locked section, in any interleaving, keeps the cache a part of the simple map that misses only what expired or was evicted |
| CacheRuns.DeletesOnlyExpired | pkg/server/data.go:97-103 | the conditional delete of get never removes an unexpired entry |
| CacheRuns.GetsAgreeWithSimpleMap | pkg/server/data.go:90-107 | in every run a hit is what a map without eviction held, unexpired, when the entry was read |
| CacheRuns.TimeToLiveKept | pkg/server/data.go:90-124 | in every run a hit was checked no later than its set time plus its time to live; a miss of a key neither evicted nor invalidated later than that |
| CacheRuns.FittingRunIsExact | pkg/server/data.go:90-135 | while that map never outgrows the limit every miss is a miss there too |
| CacheRuns.SortingEvictionsFarApart | pkg/server/data.go:148-165 | at least limit/10 + 1 sets of absent keys lie between two sorting evictions |
| RateLimiter.Limiter.Allow | pkg/server/ratelimit.go:76-95 | the new visitor map and the answer to one request |
| RateLimiter.Limiter.Cleanup | pkg/server/ratelimit.go:57-65 | exactly the visitors seen no more than three windows before their own clock reading stay |
| RateLimiter.AllowedIffStreakShort | pkg/server/ratelimit.go:50-95 | a request is allowed exactly while its streak without a pause longer than the window is no longer than the rate |
| RateLimiter.CleanupsChangeNoAnswer | pkg/server/ratelimit.go:50-67 | running the cleanup at any moments changes no answer |
| RateLimiter.AtMostRatePerWindow | pkg/server/ratelimit.go:76-95 | any closed interval as long as the window holds at most rate allowed requests of an IP |
| RateLimiter.RateKeptIff | pkg/server/ratelimit.go:83-91 | that holds in all runs exactly for rates of at least 1 |
| RateLimiter.RateBelowOneLetsOnePass | pkg/server/ratelimit.go:83-86 | below that one request still passes |
| DeliveryCache.SeenCache.SeenOrRecord | pkg/server/webhook.go:59-79 | the answer and the entries after one delivery |
| DeliveryCache.CleanupInvisible | pkg/server/webhook.go:66-78 | every answer equals that of a set that never forgets, unless a reading falls before an expiry that an earlier one was past |
| DeliveryCache.AcceptedFarApart | pkg/server/webhook.go:55-79 | under the same condition two accepted deliveries of one id are at least the window apart |
| DeliveryCache.DuplicateIff | pkg/server/webhook.go:59-79 | under the same condition a delivery is a duplicate exactly when one with its id was accepted less than 24 hours before |
| DeliveryCache.EmptyIdAccepted | pkg/server/webhook.go:60-62 | an empty id is never a duplicate and changes nothing |
| DeliveryCache.AgreesIff | pkg/server/webhook.go:59-79 | for given readings both hold for every choice of ids exactly under that condition |
| DeliveryCache.ClockedExpiriesStay | pkg/server/webhook.go:66-76 | readings that never go back meet it |
| DeliveryCache.FallingBackForgets | pkg/server/webhook.go:66-76 | for any readings that break it: one id accepted twice within the window |
| DeliveryCache.TwoNanosecondsBackForget | pkg/server/webhook.go:66-107 | a step back of two nanoseconds breaks it |
| QueryBuilder.Builder.AddOptional | pkg/data/postgres/query_helpers.go:369-376 | an equality filter is added to the builder; a nil one leaves text, arguments and numbering alone |
| QueryBuilder.Builder.AddOptionalGte | pkg/data/postgres/query_helpers.go:379-386 | the same for a lower bound |
| QueryBuilder.Builder.AddOptionalLte | pkg/data/postgres/query_helpers.go:389-396 | the same for an upper bound |
| QueryBuilder.Builder.AddOptionalLike | pkg/data/postgres/query_helpers.go:399-406 | the same for a pattern |
| QueryBuilder.Builder.WhereClause | pkg/data/postgres/query_helpers.go:409-419 | the loop joins the clauses of exactly the builder's filters |
| QueryBuilder.Builder.NextParam | pkg/data/postgres/query_helpers.go:422-424 | the first number that no argument of the builder uses |
| QueryBuilder.ClauseReads | pkg/data/postgres/query_helpers.go:373 | a clause in the text reads back as its column, its operator and the argument its number names |
| QueryBuilder.WhereMeansFilters | pkg/data/postgres/query_helpers.go:358-419 | a builder that starts after the arguments bound before it: its text, with all arguments, evaluates on every row to the conjunction of its non-nil filters |
| QueryBuilder.RightStartIff | pkg/data/postgres/query_helpers.go:364-366 | that holds for all filters and rows exactly when the builder starts at the next free number |
| QueryBuilder.ChainMeansFilters | pkg/data/postgres/insights.go:1456-1476 | over any number of chained builders, after any fixed arguments and before any later ones, each text means its own filters |
| QueryBuilder.PortfolioSummaryQuery | pkg/data/postgres/insights.go:1453-1476 | all three texts let through exactly the rows of the org and the repo given, and the two fixed arguments keep their numbers |
| QueryBuilder.SearchEventsQuery | pkg/data/postgres/query.go:118-136 | the text lets through exactly the rows that meet every criterion given; page size and offset are bound at the numbers used for them |
| QueryBuilder.EventFiltersMean | pkg/data/postgres/query.go:105-126 | criterion by criterion, which rows the nine filters let through; mention and label need only be contained |
| Decimals.DecimalRoundTrip | pkg/data/postgres/query_helpers.go:373 | a number written in decimal reads back as itself |
| Calendar.CivilRoundTrip | pkg/data/postgres/query_helpers.go:203-217 | counting day by day and counting in years, leap years and months agree on every day |
| Calendar.DateRoundTrip | pkg/data/postgres/query_helpers.go:216-330 | formatting a date up to year 9999 and parsing it gives the date back |
| Calendar.DateReads | pkg/data/postgres/query_helpers.go:336 | a date label reads as year, month and day, four, two and two digits with dashes between |
| Calendar.MonthBeginsDate | pkg/data/postgres/query_helpers.go:342 | a month label is what the date labels of the month begin with |
| Calendar.LabelsTellApart | pkg/data/postgres/query_helpers.go:335-337 | up to year 9999 a date label names one day |
| GapFill.GeneratePeriods | pkg/data/postgres/query_helpers.go:327-347 | the week or month loop yields the periods from sinceDate to now |
| GapFill.EveryDateOnce | pkg/data/postgres/query_helpers.go:326-347 | every date of the days asked for, and back to sinceDate, has its label among the periods exactly once |
| GapFill.NoIdlePeriod | pkg/data/postgres/query_helpers.go:326-347 | every period is the label of some date of the window, each a week or a month after the one before |
| GapFill.PeriodsDistinct | pkg/data/postgres/query_helpers.go:334-344 | no period is listed twice |
| GapFill.NewGapFiller | pkg/data/postgres/query_helpers.go:287-294 | the periods of the window, and each label's last position |
| GapFill.GapFillSlice | pkg/data/postgres/query_helpers.go:316-324 | the loop fills each period from the position its label was last seen at, zero elsewhere |
| GapFill.FilledKeepsValues | pkg/data/postgres/query_helpers.go:316-324 | with distinct labels each period holds its label's own value, and zero without one |
| GapFill.SumKeptIff | pkg/data/postgres/query_helpers.go:287-324 | over distinct periods the sum survives for all values exactly when the labels are distinct periods |
| GapFill.CoversWindowIff | pkg/data/postgres/insights.go:746-784 | every date the query could return has its label among the filler's periods exactly when the two readings of sinceDate fall in one bucket |
| GapFill.MidnightLosesAWeek | pkg/data/postgres/insights.go:746-784 | a 30-day query that reaches back to a Sunday's week, with its filler read after midnight, loses that week |
| GapFill.DualSeries | pkg/data/postgres/insights.go:767-785 | the rows are scanned into labels and two value lists, each filled over the periods |
| GapFill.DualSeriesConservesIff | pkg/data/postgres/insights.go:740-786 | for rows of any dates, gap filling keeps the sums whatever the values exactly when every row's bucket lies from the filler's first to that of now |
| GapFill.DualSeriesConserves | pkg/data/postgres/insights.go:740-786 | so a query up to now loses nothing unless sinceDate crosses a bucket in between |
| DailyTotals.BuildDailyTotals | pkg/data/postgres/metric_history.go:256-284 | both loops: the dates, and each day's totals as the backwards walk finds them |
| DailyTotals.WalkedClosedForm | pkg/data/postgres/metric_history.go:267-281 | each day before the last holds max(0, current - later counts) |
| DailyTotals.NeverFallsIff | pkg/data/postgres/metric_history.go:267-281 | the series ends at the current total, and never falls exactly when that is not negative or stands alone |
| DailyTotals.NegativeTotalFalls | pkg/data/postgres/metric_history.go:267-281 | a total of -1 comes after a zero |
| DailyTotals.EveryGainShowsIff | pkg/data/postgres/metric_history.go:273-280 | every day's rise is that day's count exactly when the current total covers all later counts |
| DailyTotals.GainsBeyondTotal | pkg/data/postgres/metric_history.go:273-280 | with a total of three and five gained today the rise is three |
| DailyTotals.DatesDistinct | pkg/data/postgres/metric_history.go:258-261 | no two days of the walk share a date, so no count is taken off twice |
| Migrations.Database.ApplyOneMigration | pkg/data/postgres/migrate.go:112-136 | one transaction: the script and its version row, or nothing |
| Migrations.Database.ApplyMigrations | pkg/data/postgres/migrate.go:65-110 | the loop applies the pending migrations in name order up to the one that fails; succeeds exactly when it gets through all |
| Migrations.NumberedFileParsed | pkg/data/postgres/migrate.go:79-93 | a file named with white space, a sign, digits and anything up to an underscore is the migration of that number |
| Migrations.OthersPassedOver | pkg/data/postgres/migrate.go:79-93 | directories, names without an underscore and names that start with no number are passed over |
| Migrations.NewestIsLargest | pkg/data/postgres/migrate.go:65-68 | the version to resume from is the largest recorded, 0 when there is none |
| Migrations.ByNameSorts | pkg/data/postgres/migrate.go:75-77 | the entries are sorted by name, none lost |
| Migrations.RunExtendsPrefix | pkg/data/postgres/migrate.go:65-110 | a run keeps the applied migrations a prefix of the list and moves it forward |
| Migrations.AlwaysAPrefix | pkg/data/postgres/migrate.go:65-136 | after any runs over growing directories the recorded versions and executed scripts are a prefix of the list |
| Migrations.ResumesRightIff | pkg/data/postgres/migrate.go:65-136 | any cut-off runs followed by a complete one execute every migration exactly once and in order, exactly when versions are positive and strictly increasing |
| Migrations.LateNumberNeverRuns | pkg/data/postgres/migrate.go:95-97 | a run executes only versions above the newest recorded one |
| Migrations.PaddedNamesResume | pkg/data/postgres/migrate.go:75-93 | names padded to one width with distinct positive numbers meet that condition |
| Migrations.UnpaddedLosesOne | pkg/data/postgres/migrate.go:75-97 | names without padding do not |

## Left out

- 64-bit overflow of weight sums, counters and times; 32-bit overflow of migration versions.
- Lower-casing and trimming of characters outside ASCII.
- Parsing of the token list (pkg/data/ghutil/tokenpool.go:50-67); joining of mentions and labels (pkg/data/postgres/event.go:418-419); page fetches, retries and rate-limit waits.
- The database engine and row-level security: tables are maps or rows with atomic commits.
- EventLocks.WaitForGraphAcyclic: every lock is exclusive, which PostgreSQL's foreign-key locks are not; with those locks counted it speaks of batches that write the developers their events refer to. The reputation and enrichment writers do not sort their updates and are not part of it.
- Sorting: the library sorts are modelled by insertion. For the unstable ones only what they promise is used, except that the cache sorts keys and the migrations sort names into one particular order.
- EventImporter.CrashAndReplay: speaks of batches that commit; which ones the foreign key refuses is said by AcceptedIff, and depends on how the events are cut into batches.
- ResponseCache.Cache.DeleteIfSame: the address of an entry is modelled by a number that no two entries share.
- GapFill.DualSeries: the values are real numbers; rounding of floating-point sums is not modelled.
- GapFill.EveryDateOnce: dates run from year 1 to year 9999.
- QueryBuilder.WhereMeansFilters: columns are names without spaces, as all callers pass; which comparisons hold of a row is left open.
- BackfillRuns.BackfillReachesTarget: days are 86400 seconds, as in UTC; a local time zone with daylight saving is not modelled. State rows exist, their cursor can be read, and one import of a repo runs at a time.
- Migrations.Database.ApplyMigrations: white space outside ASCII before the number in a file name is not skipped; the advisory lock keeps runs one after the other.
- WorkerPool.NeverStuckIff: an import always ends, in whatever way.
- Metadata, enrichment, reputation, insights, digests and billing; HTTP handlers, sessions, OAuth, exports and the browser code: plumbing around the parts above.
