# Verified core of the Atlas decision engine

The decision engine publishes governed decision graphs, runs them, and keeps a signed trail of what happened. This
project models the parts whose correctness rests on interleaving, on exact arithmetic or on text that must be read
back, and proves what they promise:

* **Background jobs** (`JobScheduling`, `JobHistory`, `JobSchedulerService`): timers, batches, wakes and manual runs as a
  state machine of run-to-completion callbacks; exclusion, no lost wake, a permanent polling safety net, and every delay
  as a function of the history of the run.
* **The audit chain** (`CanonicalJson`, `JsonText`, `JsonReader`, `CanonicalText`, `AdvisoryLock`, `LockCollision`,
  `HashKeys`, `AuditChain`, `AuditChainSafety`, `AuditSealing`, `AuditJournal`, `AuditVerification`, `AuditStore`):
  concurrent transactions under per-tenant locks that read the last event, sign the next one and commit or roll back,
  with key rotation; what is committed, one chain per tenant, no forks, and exactly what tampering is noticed. Below it, a
  canonical text that any reader of JSON reads back, and lock keys that separate the identifiers of one domain.
* **The seed layout** (`TreeLevels`, `QueueRuns`, `QueueEnding`, `StartOnce`, `QueueForEver`, `RunLevels`, `LongestPaths`,
  `LevelExamples`, `RankedSort`, `TreeGeometry`, `TreeLayout`): exactly when the level queue ends, its levels against
  declarative longest paths whatever cycles the graph has, barycentre sweeps, and coordinates that stay apart, in order
  and on the canvas.
* **Artifact versions** (`VersionLifecycle`, `VersionService`, `VersionTables`, `VersionClone`, `VersionCloneService`,
  `VersionDiff`): status machine, optimistic lock, history, compilation; cloning with consistent replacement of ids;
  the comparison of two versions.
* **Denials and limits** (`DenialBuffer`, `DenialDrain`, `DenialAuditor`, `RateLimiter`, `CacheService`): a bounded retry
  buffer whose flush is suspended at every write, and a fixed-window limiter.
* **Callbacks** (`EventBus`, `CallbackDelivery`, `CallbackDispatcher`): in-process events, and at-least-once delivery to
  the other backend over redeliveries, crashes and configuration changes.
* **Texts** (`Texts`, `Money`, `Cursors`, `Pagination`, `LikeEscape`): decimal money, page cursors and walks, search
  patterns.

Where the source updates fields or rows in place, a class does the same and each method is proved to be one step of a
pure state machine; the theorems are about every run of that machine. The database is maps and sequences, a
transaction sees the committed rows and its own, the clock is a number that never goes back, HMAC is a parameter
(collision-free where a lemma says so), and each JavaScript callback is one atomic step.

## Findings

Where the code does not do what its comments or its callers expect. Each point names the lemma with an input, or with the
runs, on which it happens, and the equivalence that says exactly when, if there is one.

* `canonicalize` drops an own property named `__proto__`, as it drops an undefined one; no other is dropped. The
  equivalence is `CanonicalJson.EntryIsVisible`.
* An overflow of the denial buffer during an awaited write that then succeeds loses one denial that was neither written
  nor counted as dropped (`DenialBuffer.OverflowUnderWriteLosesTheNext`, `DenialBuffer.VanishesExactly`).
* An old unsubscribe can remove handlers that subscribed since: when it runs a second time
  (`EventBus.SecondCallSilencesTheNewcomer`), or, with one handler subscribed twice, when each of the two closures runs
  once (`EventBus.TwinClosuresSilenceTheNewcomer`). `EventBus.ClosureSilencesExactly` says for every state what a closure
  silences, `EventBus.TwinsSilenceExactly` what the next one does to a live subscription over runs that never had twins
  when a closure ran.
* The level queue need not end (`LevelExamples.LoopNeverEnds`). For every graph and order of its nodes it runs for ever if
  and only if at some turn all nodes of one cycle have their counts used up (`QueueForEver.NeverEndsExactly`). On the graph
  alone: with START on a cycle it ends if and only if another ancestor of START lies on a cycle that avoids START
  (`QueueRuns.EndsExactlyWhenBlocked`); off the cycles it ends when no edge enters START, when such a cycle blocks it
  (`QueueRuns.PoppedOnceEnds`) or when no cycle is reachable from START (`QueueEnding.EndsWithoutCycleBelow`). START is
  popped no more than once if and only if such a cycle blocks it or all its predecessors are sources listed before it, and
  then the queue ends (`StartOnce.StartPoppedOnceExactly`). Otherwise the order of the nodes counts:
  `LevelExamples.NodeOrderDecides` gives one graph in two orders, the first of which never ends.
* The comment puts cycles in the last column. A node that is never popped stands behind everything reached exactly when
  no popped node points to it, and otherwise, unless a cycle blocks START as above, one above its greatest popped
  predecessor (`LongestPaths.LongestPathLevels`); in `LevelExamples.CycleTakesTheNextColumn` a node of a cycle stands two
  columns before the end of another branch.
* The dispatcher takes every status below 500 that is neither 2xx nor 408, 425 or 429 for permanent, 3xx included; its
  comment says the rest of 4xx (`CallbackDelivery.PermanentExactly`).
* `decodeCursor` accepts texts that no page ever issued, although it announces to reject malformed cursors: blanks, leading
  zeros and left-over bits (`Cursors.BlankCursorIsAccepted`, `Cursors.ZeroLeadingCursorIsAccepted`,
  `Cursors.LeftOverBitsAreIgnored`). An accepted cursor is the one issued for its id if and only if it is canonical
  (`Cursors.AcceptedWasIssuedExactly`).
* A comment expects that two identifiers in either order never share a lock key. Two positive 64-bit ones that do are in
  `LockCollision.ReorderedPartsCollide`; two identifiers do exactly when they leave the same trace on the key of the
  domain (`AdvisoryLock.ReorderedPartsShareExactly`).
* Another comment says that mixing in the domain removes coincidences by construction. For the same parts it does
  (`AdvisoryLock.DomainsNeverShareKeys`); but any key of any domain is also the key of one residue, and only one, taken
  alone in any other domain (`AdvisoryLock.OnePartMeetsEveryKey`, which computes it).
* The verifier of the audit chain never compares the columns of an event with its stored signed text: every edit of the
  columns alone goes unnoticed (`AuditVerification.ColumnsAreNotCompared`). For one replaced row in all its fields, when it
  goes unnoticed is `AuditVerification.ReplacedRowUnnoticedExactly`.
* Comparing two versions counts as changed what did not change, because nodes, edges, conditions and actions carry their
  database ids: an untouched clone is reported whole (`VersionDiff.UntouchedCloneIsAllChanged`). Only real changes are
  reported if and only if common items of equal content are the same row (`VersionDiff.OnlyRealChangesExactly`).
* The status table lets a version go back from COMPILED to VALIDATED, where the same graph cannot be compiled again,
  because it has the same checksum and the table of compilations holds one row per version and checksum
  (`VersionLifecycle.RecompilationIsRefused`, `VersionLifecycle.CompilesExactly`). This rests on the table alone: `validate`
  rejects a compiled version, and no other operation moves one to VALIDATED.
* A job whose `runOnce` throws instead of rejecting would be left without timer and batch, exactly when the scheduler is
  started and not stopped (`JobScheduling.SynchronousThrowLosesPolling`). Every `runOnce` of the repository is async, so
  no present job does this.
* No failure but a sharper promise: the limiter admits at most 2 * limit - 1 calls in any interval as long as the window
  (`RateLimiter.SlidingBound`), and for every limit a burst reaches that (`RateLimiter.SlidingBoundIsTight`).

## Model

| member | source | states |
|---|---|---|
| JobScheduling.NeverTwoBatches | src/common/jobs/job-scheduler.service.ts:261-305 | in every run, at most one batch of a job is running and none runs beside an armed timer, even with several manual callers waiting |
| JobScheduling.AlwaysPolledOrRunning | src/common/jobs/job-scheduler.service.ts:112-142 | while started and not stopped every job has exactly one of timer and batch; once stopped no timer is armed |
| JobScheduling.DelaysAreBounded | src/common/jobs/job-scheduler.service.ts:199-223 | no armed delay exceeds the greatest of initial delay, idle ceiling and error ceiling, so a lost notification only delays work |
| JobScheduling.NoWakeIsLost | src/common/jobs/job-scheduler.service.ts:235-255 | from an accepted wake until the job's next batch, either a batch is in flight with the wake noted or a timer is armed within the minimum idle interval, with delay 0 behind a timer-driven batch, however it ends |
| JobScheduling.ImmediateTimer | src/common/jobs/job-scheduler.service.ts:289-301 | once the batch that owed an immediate wake has freed the slot, the timer that follows has no delay |
| JobScheduling.BackoffClosedForm | src/common/jobs/job-scheduler.service.ts:378-381 | the k-th idle delay is the minimum times the factor to the k-1, capped |
| JobScheduling.BackoffOverRuns | src/common/jobs/job-scheduler.service.ts:340-371 | over any undisturbed stretch of a run after a productive batch the stored idle delay follows that closed form |
| JobScheduling.FreedSlotArmsIdleDelay | src/common/jobs/job-scheduler.service.ts:340-371 | a timer-driven batch that ends without a noted wake arms the timer with the stored idle delay |
| JobHistory.ErrorDelaysGrow | src/common/jobs/job-scheduler.service.ts:387-389 | error delays start at the base delay, double with every further error up to 1024 times it, and are capped |
| JobHistory.ErrorDelayClosedForm | src/common/jobs/job-scheduler.service.ts:387-389 | the delay after the n-th error in a row is the base delay times 2 to the min(n-1, 10), capped |
| JobHistory.CadenceFollowsHistory | src/common/jobs/job-scheduler.service.ts:340-381 | over every run the failure count of a job is the number of timer-driven batches that failed since its last one that did not, and its stored delay is the one that its wakes and the ends of its timer-driven batches call for |
| JobHistory.ErrorTimer | src/common/jobs/job-scheduler.service.ts:289-301 | behind the k-th error in a row the timer is armed with the k-th error delay, unless a wake is noted |
| JobHistory.TimersExactly | src/common/jobs/job-scheduler.service.ts:112-305 | over every run and for every event, whether the timer of a job is armed afterwards, and with which delay |
| JobHistory.WakesAreNotedExactly | src/common/jobs/job-scheduler.service.ts:235-301 | over every run a wake is noted if and only if one came while a batch held the slot and no timer-driven batch has answered for it since |
| JobHistory.EveryCallStartsOneBatch | src/common/jobs/job-scheduler.service.ts:261-305 | over every run timers that fired and manual runs that were asked for are the batches started and the callers still waiting |
| JobHistory.BatchesEndOnce | src/common/jobs/job-scheduler.service.ts:272-305 | a running batch settles once, only then its slot can be freed, and that ends it |
| JobHistory.RegistrationFollowsHistory | src/common/jobs/job-scheduler.service.ts:199-223 | over every run the registered jobs are the declared ones, each with the channel and cadence of its first declaration and the defaults for the rest |
| JobHistory.FlagsFollowHistory | src/common/jobs/job-scheduler.service.ts:112-136 | polling begins with the bootstrap of an enabled scheduler and ends with its destruction |
| JobScheduling.SynchronousThrowLosesPolling | src/common/jobs/job-scheduler.service.ts:261-287 | a synchronous throw of a manual run or of one that waited keeps the invariant of a state if and only if the scheduler is not started or is stopped |
| JobScheduling.HarmlessThrowsKeepInv | src/common/jobs/job-scheduler.service.ts:261-287 | runs of callbacks and throws keep the invariant when throws come only before the start or after the stop |
| JobScheduling.StepKeepsInv | src/common/jobs/job-scheduler.service.ts:199-371 | every callback keeps the invariant of every job |
| JobScheduling.StartsAfterStopExactly | src/common/jobs/job-scheduler.service.ts:261-305 | over every run: after the stop a batch starts exactly by a manual run, new or waiting, that finds the slot free |
| JobSchedulerService.Service.RegisterJob | src/common/jobs/job-scheduler.service.ts:199-223 | a second registration of a name is refused without effect; otherwise the new job is the step's, armed at once when polling has begun |
| JobSchedulerService.Service.OnApplicationBootstrap | src/common/jobs/job-scheduler.service.ts:112-133 | the loop over the registry arms every job with its initial delay, or does nothing when disabled |
| JobSchedulerService.Service.WakeChannel | src/common/jobs/job-scheduler.service.ts:235-255 | the loop wakes exactly the jobs that listen to the channel |
| JobSchedulerService.Service.OnTimer | src/common/jobs/job-scheduler.service.ts:289-305 | the timer callback starts a batch that takes the slot |
| JobSchedulerService.Service.OnBatchSettled | src/common/jobs/job-scheduler.service.ts:340-371 | the tail of a timer-driven batch updates failures and idle delay as the step says |
| JobSchedulerService.Service.OnSlotFreed | src/common/jobs/job-scheduler.service.ts:279-305 | the continuation frees the slot and returns to the cadence, at once when a wake was noted |
| JobSchedulerService.Service.CallRunNowOf | src/common/jobs/job-scheduler.service.ts:261-287 | a manual run waits while a batch is in flight, takes the slot otherwise, and an unknown name is an error |
| JobSchedulerService.Service.ResumeRunNow | src/common/jobs/job-scheduler.service.ts:261-287 | a waiting caller looks at the slot again before taking it |
| JobSchedulerService.Service.OnModuleDestroy | src/common/jobs/job-scheduler.service.ts:135-157 | every timer is cleared and the batches to be awaited are exactly those in flight |
| AuditChainSafety.CommittedEventsFormOneChain | src/common/audit/audit.service.ts:70-122 | over every interleaving of transactions, rollbacks and rotations, the committed events of each tenant, by id, form one chain from a null previous hash |
| AuditChainSafety.StepKeepsInv | src/common/audit/audit.service.ts:70-122 | lock, read, insert, commit, rollback and rotation each keep chains, genuine rows and disjoint locks |
| AuditChainSafety.CommitInvisible | src/common/audit/audit.service.ts:70-89 | a commit is invisible under any other tenant lock, so what a holder read stays the last event |
| AuditSealing.SealedTextDetermines | src/common/audit/audit.service.ts:90-105 | two signed texts are the same if and only if tenant, type, aggregate type, aggregate id, actor, request id and previous hash agree and the payloads say the same |
| AuditSealing.SealedSaysExactly | src/common/audit/audit.service.ts:90-104 | the signed text exists exactly when the payload says something or is left out, and says the eight properties of the event under their names and nothing else |
| AuditSealing.NamesAreSpelled | src/common/audit/audit.service.ts:90-99 | the eight names, as they are spelled in the signed text |
| AuditJournal.CommittedExactly | src/common/audit/audit.service.ts:49-122 | over every run a row is in the committed table if and only if the steps say so: its lock was asked for, the last event of its tenant read, the row signed under the key then active and stored under the next id, and its transaction committed before it was rolled back or ended otherwise |
| AuditJournal.CommittedStays | src/common/audit/audit.service.ts:49-68 | a committed row never changes and never disappears |
| AuditJournal.FreeAppendCommits | src/common/audit/audit.service.ts:70-122 | with the lock of the tenant free, an event that can be signed is committed under the next id behind the last committed event of its tenant, and nothing else changes |
| AuditJournal.RotationTakesEffect | src/common/crypto/hash.service.ts:20-55 | from a rotation on events are signed under the new id with the new secret, and nothing else changes |
| AuditJournal.RollbackEnds | src/common/audit/audit.service.ts:49-55 | a rollback ends its transaction without a trace and touches no other |
| AuditJournal.LastIsGreatest | src/common/audit/audit.service.ts:85-89 | the last event of a tenant is the one with the greatest id, and is missing only if there is none |
| AuditJournal.TenantsNeverWait | src/common/audit/audit.service.ts:74-83 | two tenants, as the database numbers them, share a lock only if they are one |
| AuditVerification.CommittedHashesUnique | src/common/audit/audit.service.ts:70-122 | with a collision-free keyed hash no two committed events, of any tenants, share an event hash |
| AuditVerification.NoForks | src/common/audit/audit.service.ts:70-122 | two committed events of one tenant never follow the same predecessor |
| AuditVerification.VerifyChain | src/modules/audit-query/audit-query.service.ts:137-193 | the walk in batches of any size, over rows with or without a stored text, reports exactly the list of problems of the chain, in order, with count and head hash, and is valid exactly when the chain verifies |
| AuditVerification.ProblemsExactly | src/modules/audit-query/audit-query.service.ts:155-185 | a problem is in the list if and only if its row has it: wrong link, wrong hash or unknown key |
| AuditVerification.ProblemsInOrder | src/modules/audit-query/audit-query.service.ts:155-185 | the list is in the order of the rows |
| AuditVerification.ReportedExactly | src/modules/audit-query/audit-query.service.ts:155-190 | a row is reported if and only if its link or its hash is wrong |
| AuditVerification.CommittedChainVerifies | src/modules/audit-query/audit-query.service.ts:137-197 | every reachable stored chain verifies, whatever rotations happened on the way |
| AuditVerification.RotationsKeepVerification | src/common/crypto/hash.service.ts:20-43 | a chain that verifies still verifies after any further rotations that keep the retired secrets |
| AuditVerification.ChangedPayloadBreaks | src/modules/audit-query/audit-query.service.ts:137-193 | any other signed text in a row is noticed, whether one was stored or not |
| AuditVerification.ReplacedRowUnnoticedExactly | src/modules/audit-query/audit-query.service.ts:137-193 | one row replaced in all its fields goes unnoticed if and only if it has the old link, its own hash is right and, unless it is the last, that hash is the old one |
| AuditVerification.InnerRowKeepsItsText | src/modules/audit-query/audit-query.service.ts:137-193 | a replaced row that goes unnoticed inside the chain carries the old signed text, link and hash |
| AuditVerification.ColumnsAreNotCompared | src/modules/audit-query/audit-query.service.ts:155-185 | where the signed text is stored, no edit of the columns alone changes the verdict |
| AuditVerification.StoredTextIsOptional | src/modules/audit-query/audit-query.service.ts:159-180 | rows without a stored text are checked against the one their columns yield, as those with it |
| AuditVerification.RebuiltColumnsExactly | src/modules/audit-query/audit-query.service.ts:159-180 | where it is rebuilt from the columns, an edit of them goes unnoticed if and only if they can still be signed and say the same event |
| AuditVerification.OnlyPrefixesVerify | src/modules/audit-query/audit-query.service.ts:137-197 | a sequence of stored events, in any order and with omissions or repetitions, verifies if and only if it is a prefix of the stored chain |
| AuditVerification.RemovedEventBreaks | src/modules/audit-query/audit-query.service.ts:137-197 | removing an event other than the last is noticed |
| AuditVerification.SwappedEventsBreak | src/modules/audit-query/audit-query.service.ts:137-197 | swapping two events is noticed |
| AuditVerification.CommittedChainIsTamperEvident | src/common/audit/audit.service.ts:100-122 | every reachable stored chain meets the hypotheses of the three lemmas above |
| AuditVerification.HeadFixesHistory | src/common/audit/audit.service.ts:90-120 | chains with sealed links and equal head hashes have equal signed histories |
| AuditStore.Store.FindLast | src/common/audit/audit.service.ts:85-89 | the row of the tenant with the greatest id among what the transaction sees, or none |
| AuditStore.Store.AppendWithin | src/common/audit/audit.service.ts:70-122 | an append is the lock, read and insert steps in this order; the row carries the event and its own signed text under the active key; a payload or key that cannot be sealed rolls back |
| AuditStore.Store.CommitTransaction | src/common/audit/audit.service.ts:49-68 | a commit adds exactly the rows of the transaction to the committed ones and closes it |
| HashKeys.RotationAddsOneKey | src/common/crypto/hash.service.ts:20-55 | a rotation adds one key id and changes what no other id resolves to |
| HashKeys.RotationsKeepSecrets | src/common/crypto/hash.service.ts:37-55 | after any number of rotations an id that resolved still resolves to the same secret |
| HashKeys.UnknownIdAlwaysErrs | src/common/crypto/hash.service.ts:31-43 | an id that neither the configuration nor a rotation introduced never signs |
| HashKeys.SecretExactly | src/common/crypto/hash.service.ts:37-43 | which ids sign and with which secret: the active one with its own, any other with a retired one that is not empty; otherwise which error |
| HashKeys.ActiveKeyExactly | src/common/crypto/hash.service.ts:20-23 | the id that signs is the configured one, or v1 |
| CanonicalJson.CanonicalTextIdentifies | src/common/crypto/canonical-json.ts:10-39 | two supported values have one canonical text if and only if they say the same |
| CanonicalJson.SupportedExactly | src/common/crypto/canonical-json.ts:10-39 | a value has a canonical text if and only if it is supported, that is, says something |
| CanonicalJson.FailsExactly | src/common/crypto/canonical-json.ts:10-39 | a value fails exactly when something in it raises an error, and with an error that is raised |
| CanonicalJson.NormalizeCorrect | src/common/crypto/canonical-json.ts:10-35 | normalizing keeps what a value says and yields ordered, distinct keys |
| CanonicalJson.NormalizeIdempotent | src/common/crypto/canonical-json.ts:10-35 | normalizing a normalized value changes nothing |
| CanonicalJson.NormalDetermined | src/common/crypto/canonical-json.ts:10-35 | a normal tree is determined by what it says |
| CanonicalJson.ReorderingKeepsText | src/common/crypto/canonical-json.ts:22-35 | the order in which an object lists its properties does not reach the text |
| CanonicalJson.EntryIsVisible | src/common/crypto/canonical-json.ts:22-35 | adding a property changes the text except exactly when its value is undefined or its name is `__proto__` |
| CanonicalJson.PrototypeIsSpelled | src/common/crypto/canonical-json.ts:28-31 | the name under which nothing is kept is `__proto__` |
| JsonText.PrintInjective | src/common/crypto/canonical-json.ts:37-39 | JSON text with the string escapes of section 7 of RFC 8259 reads back as one tree |
| JsonText.PrintUnique | src/common/crypto/canonical-json.ts:37-39 | equal texts with delimited continuations are prints of equal trees, for nested arrays and objects |
| JsonReader.PrintIsJson | src/common/crypto/canonical-json.ts:37-39 | a reader of the grammar of RFC 8259, with blanks and escapes in every spelling, reads the text of a value as that value |
| JsonReader.PrintIsShortest | src/common/crypto/canonical-json.ts:37-39 | no JSON text that reads as the value is shorter: no blanks, and an escape only where one is needed |
| JsonReader.EscapesExactly | src/common/crypto/canonical-json.ts:37-39 | the seven short escapes, lower-case hexadecimal for other control units and lone surrogates, and every other unit as it is |
| CanonicalText.CanonicalTextReads | src/common/crypto/canonical-json.ts:10-39 | whoever reads a canonical text as JSON gets exactly what the value says, with the keys of every object in order, and no text of that tree is shorter |
| CanonicalText.NormalKeysRise | src/common/crypto/canonical-json.ts:22-35 | at every depth keys are array indices by number first and then names by their UTF-16 units |
| AdvisoryLock.MixBijective | src/common/prisma/advisory-lock.ts:35-40 | `mix` is a bijection on 64-bit words, with its inverse given |
| AdvisoryLock.XorShiftBijective | src/common/prisma/advisory-lock.ts:35-40 | each xor-shift is a bijection |
| AdvisoryLock.TimesBijective | src/common/prisma/advisory-lock.ts:35-40 | each multiplication by an odd constant is undone modulo 2^64 |
| AdvisoryLock.MixSeparates | src/common/prisma/advisory-lock.ts:35-40 | two integers mix alike if and only if they agree modulo 2^64 |
| AdvisoryLock.DomainsNeverShareKeys | src/common/prisma/advisory-lock.ts:49-57 | the same parts give one key under two domains if and only if the domains are equal |
| AdvisoryLock.OnePartDecidesKey | src/common/prisma/advisory-lock.ts:49-57 | changing exactly one part changes the key unless the parts agree modulo 2^64 |
| AdvisoryLock.ReorderedPartsShareExactly | src/common/prisma/advisory-lock.ts:49-57 | two parts in either order give one key if and only if both leave the same trace on the key of the domain |
| LockCollision.ReorderedPartsCollide | src/common/prisma/advisory-lock.ts:49-57 | two given positive 64-bit identifiers have one deployment key in either order |
| LockCollision.KeysOfTheDomains | src/common/prisma/advisory-lock.ts:24-57 | the words that the keys of the three domains start from, in numbers |
| AdvisoryLock.OnePartMeetsEveryKey | src/common/prisma/advisory-lock.ts:49-57 | any key of any parts in any domain is the key, in any domain, of exactly one residue taken alone |
| AdvisoryLock.DatabaseIdsNeverShareKeys | src/common/prisma/advisory-lock.ts:49-57 | a one-part key belongs to one signed 64-bit identifier |
| AdvisoryLock.AdvisoryLockKey | src/common/prisma/advisory-lock.ts:49-57 | the loop over the parts computes the key, which fits a signed 64-bit integer |
| QueueRuns.RunKeepsInv | src/common/graph/tree-layout.ts:84-98 | after any number of turns no count exceeds the unpopped predecessors, and apart from START, which is queued at once, a node is queued or popped exactly when its count is used up |
| QueueRuns.StartKeyExactly | src/common/graph/tree-layout.ts:84 | the start node is the first one of type START |
| QueueRuns.EndsExactlyWhenBlocked | src/common/graph/tree-layout.ts:84-98 | with START on a cycle, for every order of the nodes, the queue ends if and only if another ancestor of START lies on a cycle that avoids START |
| QueueRuns.PoppedOnceEnds | src/common/graph/tree-layout.ts:84-98 | with no edge into START, or with such a cycle, the queue ends and no node is popped twice |
| QueueEnding.EndsWithoutCycleBelow | src/common/graph/tree-layout.ts:84-98 | with no cycle reachable from START the queue ends, whatever cycles the graph has elsewhere and wherever START stands |
| QueueEnding.AcyclicEnds | src/common/graph/tree-layout.ts:84-98 | without cycles the queue ends, also with edges into START |
| QueueEnding.RunStaysCalm | src/common/graph/tree-layout.ts:84-98 | in every run nodes not reachable from START are popped at most once, exactly when all their predecessors are, and never on or below a cycle |
| QueueForEver.NeverEndsExactly | src/common/graph/tree-layout.ts:84-98 | for all graphs and orders of nodes, the queue never ends if and only if at some turn every node of some cycle has a count of 0 or less |
| StartOnce.StartPoppedOnceExactly | src/common/graph/tree-layout.ts:84-98 | for all graphs and orders of nodes, START is popped at most once if and only if a cycle blocks it or all its predecessors are sources listed before it; then no node is popped twice and the queue ends |
| StartOnce.PredecessorsFirstEnds | src/common/graph/tree-layout.ts:84-98 | with such predecessors the queue ends and no node is popped twice |
| RunLevels.TurnKeepsLevels | src/common/graph/tree-layout.ts:90-98 | a turn keeps every level the length of some path and supported by a popped predecessor, and leaves each node queued, waiting or below all its targets |
| RunLevels.RunKeepsLevels | src/common/graph/tree-layout.ts:84-98 | the same after any number of turns from the initial state, also when nodes are popped again |
| RunLevels.LevelsAreLongestPaths | src/common/graph/tree-layout.ts:77-103 | once the queue is empty every node without endless paths has been popped and its level is the length of the longest path that ends there |
| RunLevels.ReachedFits | src/common/graph/tree-layout.ts:90-98 | once the queue is empty a node with popped predecessors, popped or not, stands one above the greatest of them, unless a cycle blocks START |
| TreeLevels.EndlessPaths | src/common/graph/tree-layout.ts:77-103 | when unpopped nodes have unpopped predecessors, paths of every length through unpopped nodes end at each |
| TreeLevels.AcyclicPathsAreShort | src/common/graph/tree-layout.ts:78-103 | without cycles no path has more nodes than the graph |
| LongestPaths.BuildNeighbours | src/common/graph/tree-layout.ts:39-47 | the two neighbour maps list the kept edges in order, both ways |
| LongestPaths.InitialSearch | src/common/graph/tree-layout.ts:84-88 | the loop builds the state the runs start from: START and the sources queued at level 0, counts of incoming edges |
| LongestPaths.FillUnreached | src/common/graph/tree-layout.ts:100-102 | nodes without a level take the one after the greatest, the others keep theirs |
| LongestPaths.LongestPathLevels | src/common/graph/tree-layout.ts:78-103 | whenever the queue ends: each node has endless paths or is popped with the longest one for level; edges out of popped nodes climb (out of START unless a cycle blocks it); an unpopped node stands behind everything reached if and only if no popped node points to it, and otherwise, with that exception, one above its greatest popped predecessor; levels stay below the number of nodes; with no edge into START exactly the nodes with a longest path are popped, once each; without cycles all are |
| LevelExamples.LoopNeverEnds | src/common/graph/tree-layout.ts:84-98 | on START and a step that point to each other the queue is never empty |
| LevelExamples.CycleTakesTheNextColumn | src/common/graph/tree-layout.ts:77-103 | below START a node of a two-node cycle takes column 1 while another branch goes on to column 3, against the comment |
| LevelExamples.NodeOrderDecides | src/common/graph/tree-layout.ts:84-98 | for any four keys, a START node off the cycles with one predecessor and a cycle behind it: listed first the queue never ends, listed second it does |
| RankedSort.StableSortSorts | src/common/graph/tree-layout.ts:132 | the sorted column is a permutation ordered by rank |
| RankedSort.StableSortIsStable | src/common/graph/tree-layout.ts:132 | keys of equal rank keep their order |
| TreeLayout.BuildColumns | src/common/graph/tree-layout.ts:50-54 | every node stands once, in the column of its level, and each column is in the order of the nodes |
| TreeLayout.SortColumn | src/common/graph/tree-layout.ts:121-134 | one column is sorted stably by barycentre, the others stay as they are |
| TreeLayout.Sweep | src/common/graph/tree-layout.ts:117-135 | each column of the sweep is its former keys, stably ordered by the rows its neighbours have at that moment, final for the columns passed |
| TreeLayout.OrderRows | src/common/graph/tree-layout.ts:106-139 | every column is ordered by predecessors on the way right and by successors on the way back |
| TreeLayout.SweptRowsOrdered | src/common/graph/tree-layout.ts:117-139 | down each final column the mean final row of the successors never falls, for nodes whose edges climb |
| TreeLayout.RankExactly | src/common/graph/tree-layout.ts:124-132 | a node is ranked by the mean row of its neighbours in other columns, or by its own row if it has none |
| TreeLayout.BarycentreExactly | src/common/graph/tree-layout.ts:126-130 | that mean times the number of those neighbours is the sum of their rows |
| TreeLayout.RowIsThePlace | src/common/graph/tree-layout.ts:113-118 | the row of a node is its place in its column |
| TreeLayout.PlacedOrder | src/common/graph/tree-layout.ts:57-72 | rounded places are equal only for one node, x is in the order of levels, y in the order of each column |
| TreeLayout.PlacedOnCanvas | src/common/graph/tree-layout.ts:57-72 | x stays within 4 and 88, y within 8 and 88 |
| TreeGeometry.XExactly | src/common/graph/tree-layout.ts:57-67 | up to six levels behind the first stand 14 apart from 4 on, more of them share 84, a single one stands at 38 |
| TreeGeometry.YExactly | src/common/graph/tree-layout.ts:58-68 | up to seven rows stand 13 apart, more of them share 80, and the longest column begins at 8 |
| TreeGeometry.ColumnsAreCentred | src/common/graph/tree-layout.ts:63-64 | all columns have one middle |
| TreeGeometry.RoundedIsNearest | src/common/graph/tree-layout.ts:75 | a coordinate is rounded to the nearest hundredth, upwards where two are as near |
| TreeLayout.LayoutSeedNodes | src/common/graph/tree-layout.ts:32-73 | whenever the level queue ends: the levels are the longest-path levels above, the columns those of the nodes swept right by predecessors and back by successors, and every node is at the rounded place of its level and row, on the canvas; up to 8000 nodes have distinct places in the order of levels and columns |
| VersionLifecycle.DeployedGraphWasReviewed | src/modules/artifacts/version-state.service.ts:7-83 | over every run an approved, deployed or suspended version passed IN_REVIEW then APPROVED and its graph is the one last submitted |
| VersionLifecycle.ApprovedIsNeverEdited | src/modules/artifacts/artifact-graph-writer.service.ts:45-87 | once approved, no later save is ever accepted and graph, lock, checksum and compilations stay as they are |
| VersionLifecycle.OneSavePerLock | src/modules/artifacts/artifact-graph-writer.service.ts:68-87 | of any saves that hold one lock version at most one is ever accepted |
| VersionLifecycle.LockCountsSaves | src/modules/artifacts/artifact-graph-writer.service.ts:68-80 | the lock version is the initial one plus the number of accepted saves |
| VersionLifecycle.SavesAreNumbered | src/modules/artifacts/artifact-graph-writer.service.ts:35-87 | after any run the next save is accepted if and only if it comes from the tenant, on a draft or failed version, with one more than the number of accepted saves |
| VersionLifecycle.GraphIsLastSaved | src/modules/artifacts/artifact-graph-writer.service.ts:67-100 | over every run the graph is that of the last accepted save, or the initial one without any |
| VersionLifecycle.StatusIsTheVerdict | src/modules/artifacts/artifact-lifecycle.service.ts:48-73 | over every run a version counts as validated, with the checksum, or as failed only by the verdict of the validator on the graph it holds |
| VersionLifecycle.AnswersExactly | src/modules/artifacts/artifact-lifecycle.service.ts:24-131 | for every state and operation, whether it is accepted and with which error it is not; a validation or compilation never asks for a move that the table lacks |
| VersionLifecycle.AcceptedEffect | src/modules/artifacts/artifact-lifecycle.service.ts:48-167 | what an accepted operation leaves: only a save changes graph and lock, only a validation that passes sets the checksum, only a compilation adds one, and every change of status has its row |
| VersionLifecycle.EnteredExactly | src/modules/artifacts/version-state.service.ts:7-31 | the table of moves read the other way: from where each status is entered |
| VersionLifecycle.HistoryLinks | src/modules/artifacts/version-state.service.ts:56-83 | history rows are moves of the table and link end to end, with exactly one gap per accepted save of a version whose validation had failed |
| VersionLifecycle.ServedGraphWasCompiled | src/modules/artifacts/artifact-lifecycle.service.ts:90-167 | a version under review or in service has exactly one compilation, of the very graph it holds, found valid |
| VersionLifecycle.CompilesExactly | src/modules/artifacts/artifact-lifecycle.service.ts:90-167 | when a reached version compiles, as an if-and-only-if; the checksum mismatch never occurs with atomic operations |
| VersionLifecycle.RecompilationIsRefused | src/modules/artifacts/artifact-lifecycle.service.ts:133-151 | after the move to VALIDATED that the table allows, the same graph is refused |
| VersionService.Service.MoveTo | src/modules/artifacts/version-state.service.ts:37-83 | unknown version, forbidden move, silent no-op on the same status, or a move with its history row, on that row alone |
| VersionService.Service.ReplaceDraftGraph | src/modules/artifacts/artifact-graph-writer.service.ts:28-145 | every rejection in order, or the step of a save, after which the version holds the given graph under the next lock version |
| VersionService.Service.GuardedUpdate | src/modules/artifacts/artifact-graph-writer.service.ts:68-87 | the writing statement itself checks lock and status |
| VersionService.Service.ValidateVersion | src/modules/artifacts/artifact-lifecycle.service.ts:24-88 | validation stores the checksum and leaves the status of its verdict |
| VersionService.Service.CompileVersion | src/modules/artifacts/artifact-lifecycle.service.ts:90-167 | compilation's rejections in order, or the record and the move together |
| VersionClone.CloneReadsLikeSource | src/modules/artifacts/clone-version-graph.ts:5-101 | every list of the clone, as a multiset of rows without database ids, equals that of its source |
| VersionClone.CloneLeavesOthersAlone | src/modules/artifacts/clone-version-graph.ts:5-101 | every list of every other version is the same multiset of rows as before |
| VersionClone.CloneKeepsTables | src/modules/artifacts/clone-version-graph.ts:5-101 | ids stay unique and every reference resolvable |
| VersionClone.IdMapIsInjective | src/modules/artifacts/clone-version-graph.ts:10-62 | the condition, action and node maps send different rows to different ids |
| VersionClone.CopyFinds | src/modules/artifacts/clone-version-graph.ts:63-99 | a replaced id finds the copy of the row the old id finds |
| VersionClone.ClonedNodesView | src/modules/artifacts/artifact-graph-reader.service.ts:211-246 | nodes with their bound conditions, actions and calculated-field calls coincide as multisets |
| VersionClone.ClonedEdgesView | src/modules/artifacts/artifact-graph-reader.service.ts:247-259 | edges with their endpoint keys and bound conditions coincide as multisets |
| VersionCloneService.ResolvesExactly | src/modules/artifacts/clone-version-graph.ts:63-99 | every reference has a replacement if and only if none leaves the source version |
| VersionCloneService.Database.CopyDeclarations | src/modules/artifacts/clone-version-declarations.ts:8-89 | dependencies, intermediates, output fields one by one, scripts and calculated-field uses are copied to the new version |
| VersionCloneService.Database.CopyConditions | src/modules/artifacts/clone-version-graph.ts:10-24 | one row per condition and the map of their ids |
| VersionCloneService.Database.BindNodes | src/modules/artifacts/clone-version-graph.ts:63-80 | bindings are added to the created nodes with replaced ids; it fails exactly when one has no replacement |
| VersionCloneService.Database.CopyEdges | src/modules/artifacts/clone-version-graph.ts:81-100 | edges are created with replaced endpoints and bindings; it fails exactly when one has no replacement |
| VersionCloneService.Database.CopyGraph | src/modules/artifacts/clone-version-graph.ts:5-101 | the five loops together compute the clone of the graph or fail |
| VersionCloneService.Database.CloneVersion | src/modules/artifacts/version-clone.service.ts:20-88 | success, exactly for a version of the tenant whose references stay inside it, is a new version of that tenant that reads like its source, row for row, while all others read as before; failure changes nothing |
| VersionDiff.DiffByKey | src/modules/artifacts/artifact-lifecycle.service.ts:192-208 | added, removed and changed hold exactly the right items, each once, in the order of the lists |
| VersionDiff.DiffIsUnique | src/modules/artifacts/artifact-lifecycle.service.ts:192-208 | contents and order leave nothing open: two lists have one difference |
| VersionDiff.ByKeyExactly | src/modules/artifacts/artifact-lifecycle.service.ts:193-194 | of several items with one key the last counts |
| VersionDiff.DiffDeterminesRight | src/modules/artifacts/artifact-lifecycle.service.ts:192-208 | the left side and the difference determine the right side |
| VersionDiff.DiffMirrors | src/modules/artifacts/artifact-lifecycle.service.ts:192-208 | the difference taken the other way is the mirrored one |
| VersionDiff.CommonKeysAlwaysChange | src/modules/artifacts/artifact-lifecycle.service.ts:176-208 | between lists without a common row every common key counts as changed |
| VersionDiff.OnlyRealChangesExactly | src/modules/artifacts/artifact-lifecycle.service.ts:192-208 | for all lists, every reported change is one of content if and only if common items of equal content are the same row |
| VersionDiff.UntouchedCloneIsAllChanged | src/modules/artifacts/artifact-lifecycle.service.ts:176-208 | for a list and its copy under new row ids nothing is added or removed and every item is reported although no content changed |
| DenialBuffer.EveryRunKeepsInv | src/common/security/access-denial-auditor.service.ts:53-150 | over every interleaving pending is a contiguous suffix of what was enqueued, bounded, with one write at most; counts are conserved; what waits has a timer or a flush; after stop no timer |
| DenialBuffer.VanishesExactly | src/common/security/access-denial-auditor.service.ts:109-150 | a run loses a denial without a trace if and only if some write succeeded after an overflow under it |
| DenialBuffer.StepVanishes | src/common/security/access-denial-auditor.service.ts:109-150 | which denial vanishes, step by step |
| DenialBuffer.EveryRunIsFifo | src/common/security/access-denial-auditor.service.ts:126-150 | retries reach the database in order, each at most once |
| DenialDrain.LastFlushDrains | src/common/security/access-denial-auditor.service.ts:53-59 | after the shutdown as many writes as denials wait, all successful, leave nothing behind: everything is written in order |
| DenialDrain.FlushDrains | src/common/security/access-denial-auditor.service.ts:130-150 | a flush whose writes succeed ends with an empty buffer, everything written in order |
| DenialDrain.TimerAndFlushExactly | src/common/security/access-denial-auditor.service.ts:53-150 | over every run and for every event, whether the timer is armed and a flush goes on afterwards |
| DenialDrain.FailureStops | src/common/security/access-denial-auditor.service.ts:126-150 | a write that fails ends its flush with everything kept: nothing is written again before the timer |
| DenialDrain.RoomIsUsed | src/common/security/access-denial-auditor.service.ts:109-117 | a denial is dropped only when the buffer has no room left |
| DenialDrain.EverythingIsEnqueued | src/common/security/access-denial-auditor.service.ts:109-124 | over every run what was enqueued is exactly what was handed over, in order |
| DenialDrain.StoppedExactly | src/common/security/access-denial-auditor.service.ts:53-54 | the service runs from the start until its shutdown |
| DenialBuffer.OverflowUnderWriteLosesTheNext | src/common/security/access-denial-auditor.service.ts:109-150 | the shortest run that loses one |
| DenialAuditor.Auditor.EnqueueDenial | src/common/security/access-denial-auditor.service.ts:109-124 | the enqueue step in place, overflow included |
| DenialAuditor.Auditor.ArmRetry | src/common/security/access-denial-auditor.service.ts:62-70 | a timer is armed only when none is, something waits and the service runs |
| DenialAuditor.Auditor.OnRetryTimer | src/common/security/access-denial-auditor.service.ts:64-67 | the timer callback clears itself and starts a flush |
| DenialAuditor.Auditor.OnWriteSucceeded | src/common/security/access-denial-auditor.service.ts:134-149 | the loop removes the first entry and goes on or ends |
| DenialAuditor.Auditor.OnWriteFailed | src/common/security/access-denial-auditor.service.ts:134-149 | the loop ends with the entries kept and a retry armed |
| DenialAuditor.Auditor.OnModuleDestroy | src/common/security/access-denial-auditor.service.ts:53-59 | the timer goes and a last flush starts |
| RateLimiter.WindowOf | src/common/cache/cache.service.ts:123-134 | a window opens with a call and takes in every call of its length, counted in order |
| RateLimiter.WindowsAreApart | src/common/cache/cache.service.ts:123-134 | successive windows open at least one length apart |
| RateLimiter.FirstCallsAreAdmitted | src/common/security/rate-limit.guard.ts:42-60 | each window admits exactly its first calls up to the limit |
| RateLimiter.SlidingBound | src/common/security/rate-limit.guard.ts:42-60 | no half-open interval of one window length sees more than 2 * limit - 1 admitted calls |
| RateLimiter.SlidingBoundIsTight | src/common/security/rate-limit.guard.ts:42-60 | that bound is reached for every limit |
| RateLimiter.KeysDoNotInterfere | src/common/cache/cache.service.ts:123-134 | the counter of a key depends on its own calls alone |
| RateLimiter.RetryAfterIsExact | src/common/security/rate-limit.guard.ts:46-60 | waiting the announced seconds opens a new window, one second less does not |
| CacheService.Cache.ConsumeFixedWindow | src/common/cache/cache.service.ts:123-134 | the counter updated in place is the specified one, and the seconds left are rounded up |
| RateLimiter.ResetIsNeverEarly | src/common/security/rate-limit.guard.ts:48-51 | the announced reset is never before the end of the window and at most two roundings up plus the delay of the response after it |
| CacheService.Cache.CanActivate | src/common/security/rate-limit.guard.ts:42-61 | admission, remaining, reset and retry headers follow from the calls of that key so far |
| CallbackDelivery.AttemptEffect | src/modules/atlas-callback/atlas-callback.dispatcher.ts:82-158 | at most one POST, one audit row and one mark per attempt, each exactly when its flags and the status of the answer call for it, and when the attempt returns normally |
| CallbackDelivery.MarksAreEntitled | src/modules/atlas-callback/atlas-callback.dispatcher.ts:82-158 | over every run a mark exists only after a status from 200 to 299, an audited answer that is neither that nor worth retrying, or the declared opt-out |
| CallbackDelivery.NoPostAfterMark | src/modules/atlas-callback/atlas-callback.dispatcher.ts:91-92 | once marked, an event stays marked and is never posted again |
| CallbackDelivery.ReturnMeansSettled | src/modules/atlas-callback/atlas-callback.dispatcher.ts:82-158 | a normal return leaves the mark, unless the event was malformed |
| CallbackDelivery.AcceptedAtMostOnceMore | src/modules/atlas-callback/atlas-callback.dispatcher.ts:124-131 | the other side answers an event with 200 to 299 at most once more than the times such an answer was not followed by the mark |
| CallbackDelivery.PermanentExactly | src/modules/atlas-callback/atlas-callback.dispatcher.ts:181-186 | which statuses count as permanent |
| CallbackDelivery.ClassifiesExactly | src/modules/atlas-callback/atlas-callback.dispatcher.ts:160-186 | delivered exactly for a status from 200 to 299, transient exactly for a network error, 500 or more, 408, 425 or 429, permanent for the rest |
| CallbackDelivery.WellFormedExactly | src/modules/atlas-callback/atlas-callback.dispatcher.ts:243-248 | which payloads can be delivered: a route that begins with a slash and a body that is an object |
| CallbackDelivery.PublishedMeansSettled | src/common/events/event-bus.ts:38-47 | an outbox row is published only with its mark written, unless malformed, whatever other handlers do |
| CallbackDelivery.PublishedExactly | src/common/events/event-bus.ts:38-47 | a row leaves the outbox exactly with the first emission in which all handlers succeed and the attempt returns |
| CallbackDelivery.RelayIsARun | src/common/events/event-bus.ts:38-47 | what the relay does to the other side is a run of attempts, so what holds of every run holds of it |
| CallbackDelivery.GoodEmissionSettles | src/modules/atlas-callback/atlas-callback.dispatcher.ts:82-158 | with everything in order and a status from 200 to 299 the next emission settles the row |
| CallbackDispatcher.Dispatcher.HandleEvent | src/modules/atlas-callback/atlas-callback.dispatcher.ts:82-158 | the method in place is one attempt, with the POST, the audit row, the mark and the return that the status calls for |
| CallbackDispatcher.Dispatcher.SendNotice | src/modules/atlas-callback/atlas-callback.dispatcher.ts:160-186 | one POST, taken for delivered, transient or permanent by its status |
| CallbackDispatcher.Dispatcher.MarkDelivered | src/modules/atlas-callback/atlas-callback.dispatcher.ts:234-239 | the mark is written at most once and survives a death after it |
| EventBus.BusDeliversToTheLive | src/common/events/event-bus.ts:23-47 | when no closure runs twice, nor while another live subscription has its type and handler, the bus delivers to exactly the handlers of the live subscriptions, each once, in order |
| EventBus.UnsubscribeRemoves | src/common/events/event-bus.ts:28-31 | what an unsubscribe takes away, in each of its three situations |
| EventBus.ClosureSilencesExactly | src/common/events/event-bus.ts:28-31 | in every state, which handlers of which types a closure silences: its own from its own set, and the whole type when its set is stale |
| EventBus.SilencesExactly | src/common/events/event-bus.ts:28-31 | other handlers go silent if and only if the closure is stale and there are others |
| EventBus.TwinsSilenceExactly | src/common/events/event-bus.ts:24-32 | after such a run the next closure, run for the first time, silences another live subscription if and only if that one has the same type and handler |
| EventBus.TwinClosuresSilenceTheNewcomer | src/common/events/event-bus.ts:24-32 | two closures of one handler, each run once, take away a handler that subscribed in between |
| EventBus.SecondCallSilencesTheNewcomer | src/common/events/event-bus.ts:24-32 | the shortest run in which they do |
| EventBus.Service.SubscribeHandler | src/common/events/event-bus.ts:24-32 | the set of the type gains the handler and the closure captures that set |
| EventBus.Service.RunClosure | src/common/events/event-bus.ts:28-31 | the captured set loses the handler and, when empty, the type its entry |
| EventBus.Service.Emit | src/common/events/event-bus.ts:39-47 | handlers run in order up to the first failure; success means all succeeded |
| Money.RoundTrip | src/common/money/money.ts:35-46 | parsing a printed amount gives it back, for every integer and scale 0 to 8 |
| Money.PrintOfParse | src/common/money/money.ts:105-113 | printing a parsed text returns it if and only if it was canonical |
| Money.PrintIsCanonical | src/common/money/money.ts:105-113 | printing always yields the canonical text |
| Money.ParseIsExact | src/common/money/money.ts:35-46 | minor units are the denoted rational moved by the scale |
| Money.PrintIsExact | src/common/money/money.ts:105-113 | the printed text denotes the minor units moved back |
| Money.AddIsExact | src/common/money/money.ts:65-68 | a printed sum denotes the exact sum |
| Money.SubtractIsExact | src/common/money/money.ts:70-73 | a printed difference denotes the exact difference |
| Money.CompareIsExact | src/common/money/money.ts:81-86 | comparison orders amounts as the rationals they print |
| Money.ParseSeparatesValues | src/common/money/money.ts:35-46 | two texts parse to one amount if and only if they denote one rational |
| Money.ParsesExactly | src/common/money/money.ts:35-46 | which texts are accepted at a scale: between blanks a minus or none, digits, and a point with at most that many digits or none; otherwise which error |
| Money.CombinesExactly | src/common/money/money.ts:65-128 | sums, differences and comparisons ask for one scale and one currency and keep both; otherwise which error |
| Cursors.CursorRoundTrip | src/common/http/pagination.ts:91-109 | ids up to 2^63-1 come back from their cursor and larger numbers are rejected |
| Cursors.DecodeEncode | src/common/http/pagination.ts:91-93 | base64url of section 5 of RFC 4648 returns any bytes |
| Cursors.BitsExactly | src/common/http/pagination.ts:91-93 | the sextets of a text write the number that its bytes write, filled up with zero bits |
| Cursors.LengthExactly | src/common/http/pagination.ts:91-93 | as many characters as the bits need, without padding |
| Cursors.AlphabetExactly | src/common/http/pagination.ts:91-93 | each sextet is its character of the table in section 5 of RFC 4648, both ways |
| Cursors.CursorsAreDistinct | src/common/http/pagination.ts:91-93 | different ids have different cursors |
| Cursors.CursorFits | src/common/http/pagination.ts:70-74 | an issued cursor is not empty and passes the length limit |
| Cursors.AcceptsExactly | src/common/http/pagination.ts:96-109 | a cursor over the alphabet with ASCII bytes is accepted as an id if and only if its text is, between blanks, nothing, decimal digits with at most a sign, or digits behind 0x, 0o or 0b, of that value in range |
| Cursors.PrefixExactly | src/common/http/pagination.ts:96-98 | which prefixes choose the bases 16, 8 and 2 |
| Cursors.DigitExactly | src/common/http/pagination.ts:96-98 | which characters are digits of a base, and of what value |
| Cursors.AcceptedWasIssuedExactly | src/common/http/pagination.ts:91-109 | an accepted cursor is the one issued for the id it reads as if and only if it is canonical: no left-over bits, decimal digits without leading zeros |
| Cursors.LeftOverBitsAreIgnored | src/common/http/pagination.ts:96-109 | MB reads as 0, like the issued MA |
| Cursors.BlankCursorIsAccepted | src/common/http/pagination.ts:96-109 | a blank is accepted as 0 |
| Cursors.ZeroLeadingCursorIsAccepted | src/common/http/pagination.ts:96-109 | leading zeros are accepted |
| Pagination.PageAfter | src/common/http/pagination.ts:116-144 | behind p rows seen a page holds the next ones, with a cursor exactly when more remain, whatever newer rows arrived |
| Pagination.PageExactly | src/common/http/pagination.ts:116-144 | for any table and query: an error exactly for a cursor that stands for nothing, otherwise the newest rows below it, with more announced exactly when some are left out |
| Pagination.FetchesOneMore | src/common/http/pagination.ts:116-134 | the query asks for one row more than the page and gets no second one |
| Pagination.SizeExactly | src/common/http/pagination.ts:116-121 | the size of a page is what was asked for, or 25, capped |
| Pagination.WalkVisitsEverything | src/common/http/pagination.ts:116-144 | a walk to the null cursor visits every initial row exactly once, in descending order, in the number of pages the rows fill |
| Pagination.Crawl | src/common/http/pagination.ts:116-144 | following the cursors ends and collects the initial rows |
| LikeEscape.ContainsMeansOccurs | src/common/persistence/like-escape.ts:10-12 | the escaped pattern matches a text if and only if the term occurs in it, up to case folding |
| LikeEscape.EscapedIsLiteral | src/common/persistence/like-escape.ts:10-12 | an escaped term matches itself and leaves the rest of the pattern to the rest of the text |
| LikeEscape.EscapesOnlySpecials | src/common/persistence/like-escape.ts:10-12 | nothing but the three characters is escaped |
| LikeEscape.UnescapedFindsTooMuch | src/common/persistence/like-escape.ts:10-12 | without escaping a lone wildcard finds texts that do not contain it |

## Left out

- LongestPaths.LongestPathLevels: a call whose queue never ends has no result, so the method asks that it ends; the exact condition for all graphs is read off the run, and off the graph alone only in the cases listed above.
- TreeLayout.LayoutSeedNodes: same requirement; beyond 8000 nodes rounding to two decimals may merge places; coordinates are exact reals, not doubles.
- JobSchedulerService.Service.OnModuleDestroy: up to the list of batches to await; the race of those batches with the drain deadline and the warning that names the abandoned ones are not modelled.
- JobScheduling.NoWakeIsLost: assumes that `runOnce` does not call `wake` before its first await and returns a promise; the drain deadline of a shutdown is not modelled.
- AuditVerification.HeadFixesHistory: about chains whose stored links are the sealed ones, because the verifier compares the link column and never reads the link inside the payload.
- AuditVerification.CommittedHashesUnique: needs a collision-free keyed hash, as do the lemmas that use it; HMAC itself is a parameter.
- CanonicalJson.FailsExactly: which of several errors comes first; the source takes the properties of an object in sorted order.
- AuditJournal.CommittedExactly: ids are handed out without gaps, those of rolled back rows included; the database may skip some.
- AdvisoryLock.ReorderedPartsShareExactly: two parts, as the deployment lock has.
- VersionLifecycle.ServedGraphWasCompiled: assumes that only `compile` moves a version to COMPILED, as its callers do.
- VersionLifecycle.StatusIsTheVerdict: assumes that only `validate` moves a version to VALIDATED or VALIDATION_FAILED, as its callers do.
- VersionLifecycle.DeployedGraphWasReviewed: each operation is atomic; a validation or a transition that reads before another one commits is not modelled.
- VersionClone.CloneReadsLikeSource: children of equal order are compared as multisets, since the reader leaves ties open; version numbers, semantic versions and processing declarations of the clone are not modelled.
- VersionCloneService.Database.CloneVersion: ids handed out by a failed clone are handed out again, which no reader can see; uniqueness of keys per version is the schema's and is not needed.
- VersionDiff.CommonKeysAlwaysChange: about the lists whose items carry a row id; variables carry the id of their shared version instead.
- CallbackDelivery.MarksAreEntitled: redeliveries are sequential; the completion of missing identifiers before a POST is not modelled.
- Cursors.CursorRoundTrip: what the runtime decodes outside the base64url alphabet, and UTF-8 beyond ASCII, are parameters.
- RateLimiter.SlidingBound: the in-memory counter; the Redis script and deletions of a counter key are not modelled.
- LikeEscape.ContainsMeansOccurs: case folding is any function on single characters.
- `Money.fromNumber`, `multiplyByInteger` and `equals`: floating point or easy.
- The graph validator and compiler, the outbox relay's retry schedule, deployments and approvals: parameters or environment steps.
- Direct writes of a denial that succeed at once: they never reach the buffer.
- Metrics, logging, tracing, environment parsing, request validation, Redis, PostgreSQL and Nest wiring: not part of this model.
