# Verified models of the classroom platform's state-keeping cores

Each module models one component of the repository and proves what that component promises over
all inputs, all runs or all interleavings.

| module | component | what is proved |
|---|---|---|
| `Walks`, `CurriculumGraph` | course graph | depth-first search and Kahn's queue decide the same question; closures, depth and validation are exact |
| `PrerequisiteResolver` | unlock rules | for any course and honest progress, pressing Continue or opening whatever the access check allows, what is left can be finished exactly when no cycle runs through shut modules only (with work a lock keeps away) and no shut module keeps a prerequisite beside a missing one, in exactly as many moves as there are unfinished lessons; every course that validates can be finished |
| `TurnRotation`, `TurnFleet` | TURN secret rotation | each phase is left exactly when its wait is over; label discipline over all runs; no credential is ever rejected exactly when the retire wait covers the lifetime plus the age of the oldest ring a signer signs with, and, if a promotion may crash, the accept time does too |
| `StorageGuard` | storage reservations | the pending counter covers the live reservations in every run; a run stays within the quota exactly when each granted reservation and each commit fits beside all that is stored, being committed and reserved |
| `SessionStore`, `SessionRaces` | sessions and refresh tokens | each operation ends or renews the sessions it names and no other; sign-out is total; only the latest token works; reuse ends a session exactly while its family record lives; an ended session stays ended exactly if no rotation of it is between read and write |
| `Migrate` | concurrent migration runners | every file commits at most once, the applied files are always a prefix, and from every reachable state a running runner can finish |
| `RoomRegistry` | room placement | all concurrent callers get the same node; with expiry, exactly which commands keep them together |
| `PresenterLock`, `ScreenShare` | presenter lock, as runs and on live peers | who is granted, refused or displaced; at most one live share in every run without a re-acquire; exactly the states from which a second share can never come; exactly the runs with one host throughout |
| `Attendance` | join/leave ledger | the ledger merges exactly the short breaks, and what it misses when several devices overlap; reported durations are bounded |
| `Grading` | rubric marks | accepted points count in full, marks are bounded and monotone, under exact conditions |
| `ByteRange` | Range headers | parsing reads back what is printed |

`Basics` and `Redis` hold shared vocabulary.

Objects that the source changes in place are classes whose methods are proved against functions
on the abstract state (`RotationHandler`, `RingCache`, `TurnSecretRing`, `StorageRedis`, `SessionRedis`,
`DepthFirst`, `Peer`, `Room`, `ScreenShareManager`, `AttendanceService`); loops are methods with invariants.
Systems in which several parties act at once are transition systems whose steps are those functions
or single commands, and their theorems quantify over every run.

## Where the code and its documentation part ways

- handler.js:12-13 says that after the 24 h retire wait no client can hold an old credential. A
  signer signs with a ring of up to ten minutes (TurnSecretRing.js:54, 140-145), so a 24 h credential
  signed after the promotion can outlive the wait; exactly 24 h and ten minutes are enough:
  `TurnFleet.NeverRejectsIffCovered`, `TurnFleet.ShippedConfigurationFallsShort`. secrets.js:399-401
  argues that a cached ring of any age may be served during an outage; no wait covers a signer that
  does so: `TurnFleet.NoWaitCoversOutages`.
- handler.js:16-18 says that a failed run simply retries on the next tick. A promotion that fails
  before its last call has lost its phase: nothing retires the old version or waits for its
  credentials, and the next promotion displaces it (`TurnRotation.CrashSkipsRetireWait`). The promise
  survives that exactly if the accept time covers what the retire wait should have:
  `TurnFleet.CrashedThenReplaced`, `TurnFleet.NeverRejectsIffCovered`.
- render-config.sh:89 reads AWSCURRENT before AWSPENDING. A node whose first two reads a promotion
  separates serves without the version that now signs: `TurnFleet.PromotionBetweenReads`,
  `TurnFleet.LoadIsSafeIffCurrentSeen`.
- StorageGuard.js:17-20 says that reservations keep simultaneous uploads within the quota. The
  script's test leaves out the bytes of a commit under way, and a commit records its bytes whether
  its reservation is live or not. What each step must meet instead is
  `StorageGuard.NeverOversoldIffFits`; the quota is sold twice in `StorageGuard.CommitWindowOversells`,
  `StorageGuard.ExpiredCommitOversells` and `StorageGuard.StaleReadOversells`. All callers of the gate
  (UploadService.js:61, ChatAttachmentService.js:52, media.routes.js:81) pass no asset id and so
  reserve nothing, and nothing calls commitReservation: these theorems are about the guarded API as
  its documentation describes it.
- SessionStore.js:97-101 says that reuse of a rotated token kills the family. The family record is
  not renewed by `rotate`, so a session kept alive beyond one refresh period survives reuse:
  `SessionStore.ReuseEndsTheSessionIffFamilyLives`, `SessionStore.ReplayAfterTheFamilyExpired`.
- SessionStore.js:217-220 says "everything". `rotate` writes back a record it read earlier, so a
  revocation in between is undone: `SessionRaces.EndsForGoodIffNotInFlight`,
  `SessionRaces.SignOutIsFinalIff`.
- RoomRegistry.js:120-122 says that SET NX keeps two people from being sent to two nodes. A caller that
  found the room's node dead deletes the key whatever it holds by then:
  `RoomRegistry.AlwaysAgreedIffHarmless`, `RoomRegistry.StaleDeletePartsARoom`.
- ModerationControls.js:183-186 says that a room never has two hosts or none. It has none once the host
  disconnects, and two once the host's account connects again:
  `PresenterLock.OneHostInEveryRunIff`.
- CurriculumGraph.js:10-14 says that a cycle makes a course unfinishable. Previews open in spite of a
  lock, and modules without work need no opening: `PrerequisiteResolver.FinishableIffPassable`,
  `PrerequisiteResolver.PreviewOpensACycle`.
- ScreenShareManager.js:5-8 says one person shares at a time. A sharing holder that acquires again
  turns its lock pending; it goes stale with the share still live, and a second share can always
  follow: `PresenterLock.GrantIsSafeIffNotSharing`, `PresenterLock.ReacquireLeadsToTwoShares`.
- CurriculumGraph.js:188-195 says that a learner is not stuck in a course without errors. A quiz can
  be recorded as completed without a score (ProgressService.js:78-108), and behind an edge that asks
  to pass it Continue then offers nothing while work is left; the learner has to find the quiz and
  take it again: `PrerequisiteResolver.NeverStuckIffNoQuizGate`. No route records that for a quiz today:
  progress.routes.js:113 calls a completeLesson that ProgressService.js does not define, so the theorem
  is about updateLessonProgress as it is exported.
- AttendanceService.js:57 lets a second device join an open interval; when one of the two leaves, the
  interval closes although the other stays: `Attendance.LedgerMissesExactly`,
  `Attendance.LedgerIsExactIffUnbroken`.
- GradingService.js:80-83 wants a complete rubric; a criterion scored twice is accepted and can push
  the mark above the maximum: `Grading.BoundedIffScoredOnce`. Scores are checked against the first
  criterion of an id (line 97) and counted against the last (line 52), so a rubric with a repeated id
  can cut an accepted score: `Grading.AcceptedCountsInFullIff`.

## Model

| member | source | states |
|---|---|---|
| Walks.SourcelessSetHasCycle | server/src/courses/CurriculumGraph.js:10-14 | modules that all wait for one another contain a real cycle |
| CurriculumGraph.Index | server/src/courses/CurriculumGraph.js:25-36 | the adjacency lists are exactly the known edges out of and into each module, in edge order |
| CurriculumGraph.DepthFirst.Visit | server/src/courses/CurriculumGraph.js:55-74 | a visit ends with an elementary cycle, or with the module finished, the stack restored and fewer untouched modules |
| CurriculumGraph.DepthFirst.CloseCycle | server/src/courses/CurriculumGraph.js:61-64 | the reported part of the stack is an elementary cycle of real edges |
| CurriculumGraph.FindCycle | server/src/courses/CurriculumGraph.js:50-83 | sound and complete: a closed walk repeating only its endpoint, or nothing exactly when there is no cycle |
| CurriculumGraph.HasCycle | server/src/courses/CurriculumGraph.js:85 | true exactly for cyclic graphs |
| CurriculumGraph.UnmetStep | server/src/courses/CurriculumGraph.js:116-120 | ordering a module lowers each in-degree by exactly its edges, repeated edges included |
| CurriculumGraph.Relax | server/src/courses/CurriculumGraph.js:116-120 | counting down one module's edges queues exactly the modules whose count reaches zero, once each |
| CurriculumGraph.TopologicalOrderOf | server/src/courses/CurriculumGraph.js:107-124 | a permutation of the modules with every source before its target, or null exactly when there is a cycle |
| CurriculumGraph.OrderableIffAcyclic | server/src/courses/CurriculumGraph.js:103-106 | an order respecting all edges exists exactly for acyclic graphs |
| CurriculumGraph.EntriesHaveNoArc | server/src/courses/CurriculumGraph.js:92-95 | entry modules are exactly those no known edge leads into |
| CurriculumGraph.UnreachableModules | server/src/courses/CurriculumGraph.js:131-144 | exactly the modules no walk from an entry module reaches, in course order |
| CurriculumGraph.AcyclicIsReachable | server/src/courses/CurriculumGraph.js:126-130 | without a cycle every module is reachable from an entry |
| CurriculumGraph.AcyclicHasEntry | server/src/courses/CurriculumGraph.js:246-252 | without a cycle there is an entry, so no_entry_point is never reported |
| CurriculumGraph.AllPrerequisitesOf | server/src/courses/CurriculumGraph.js:151-165 | exactly the modules with a non-empty walk to the target, each once |
| CurriculumGraph.Depth | server/src/courses/CurriculumGraph.js:168-182 | the number of modules on a longest chain, 0 for a cyclic graph |
| CurriculumGraph.EdgeErrors | server/src/courses/CurriculumGraph.js:202-217 | every self reference and every unknown endpoint is reported at its position, nothing else |
| CurriculumGraph.DuplicateWarnings | server/src/courses/CurriculumGraph.js:220-231 | exactly the edges whose printed endpoints occurred before |
| CurriculumGraph.PrintedAlikeIffSame | server/src/courses/CurriculumGraph.js:220-231 | edges are printed alike exactly when they join the same modules, unless an id holds a '>' |
| CurriculumGraph.Validate | server/src/courses/CurriculumGraph.js:196-265 | valid exactly when all edges are known and there is no cycle; a reported cycle is real; unreachable and no_entry_point never arise |
| PrerequisiteResolver.ModuleCompletion | server/src/courses/PrerequisiteResolver.js:27-54 | the exact counts of lessons that count and of those done, and whether the module is complete and passed |
| PrerequisiteResolver.QuizPassedByScore | server/src/courses/PrerequisiteResolver.js:27-54 | a recorded score passes from the lesson's own percentage on, or 70; no score passes only a negative one |
| PrerequisiteResolver.LockedByUnmetEdge | server/src/courses/PrerequisiteResolver.js:79-96 | locked exactly when a known edge leads in and some edge in is unmet |
| PrerequisiteResolver.FindNextLesson | server/src/courses/PrerequisiteResolver.js:129-147 | the first lesson in progress, else the first untouched one, over all unlocked modules |
| PrerequisiteResolver.NextIsByStatus | server/src/courses/PrerequisiteResolver.js:129-147 | among the lessons on offer: the first in progress, else the first not started, and none exactly if all are completed |
| PrerequisiteResolver.Resolve | server/src/courses/PrerequisiteResolver.js:60-121 | every module in course order, locked exactly where a known edge leads in and some edge in is unmet, the ids of exactly the unlocked ones, and the next lesson; an instructor gets everything and no next lesson |
| PrerequisiteResolver.OfferedLesson | server/src/courses/PrerequisiteResolver.js:132-141 | a lesson can be offered exactly when it counts and its module is unlocked |
| PrerequisiteResolver.BlockedByNamesWhatIsMissing | server/src/courses/PrerequisiteResolver.js:86-110 | a locked module names exactly the sources of its unmet edges |
| PrerequisiteResolver.AccessOf | server/src/courses/PrerequisiteResolver.js:154-181 | the outcome of the access check in every case of preview, lock and draft |
| PrerequisiteResolver.NoAccessWithoutLesson | server/src/courses/PrerequisiteResolver.js:157-161 | a lesson outside the course is not found |
| PrerequisiteResolver.SomeUnfinishedModuleIsOpen | server/src/courses/PrerequisiteResolver.js:79-96 | in a course passable by Continue some unfinished module is unlocked |
| PrerequisiteResolver.UnfinishedCourseOffersALesson | server/src/courses/PrerequisiteResolver.js:123-147 | such a course offers a lesson the learner may open exactly while one is unfinished |
| PrerequisiteResolver.SomethingCanBeOpened | server/src/courses/PrerequisiteResolver.js:163-178 | in a course passable by browsing the access check allows some unfinished lesson |
| PrerequisiteResolver.ContinueFinishesOne | server/src/courses/PrerequisiteResolver.js:129-147 | completing the offered lesson removes exactly it from the unfinished ones |
| PrerequisiteResolver.PassableCourseFinishes | server/src/courses/PrerequisiteResolver.js:60-181 | on either way a passable course is finished in exactly as many moves as there are unfinished lessons, and a run can go on precisely until then |
| PrerequisiteResolver.NeverStuckIffNoQuizGate | server/src/courses/ProgressService.js:78-108 | with quizzes recorded as completed without a score, such a course is never stuck exactly when no edge asks to pass a quiz before counting lessons |
| PrerequisiteResolver.GateLeavesNothingOffered | server/src/courses/PrerequisiteResolver.js:40-51 | behind such an edge there is progress that leaves work while Continue offers nothing |
| PrerequisiteResolver.CycleIsLocked | server/src/courses/CurriculumGraph.js:10-14 | unfinished modules that depend on each other in a loop are all locked |
| PrerequisiteResolver.TrapIsNeverFinished | server/src/courses/CurriculumGraph.js:10-14 | shut modules that wait for one another or for a missing one stay shut, by Continue and by browsing |
| PrerequisiteResolver.FinishableIffPassable | server/src/courses/PrerequisiteResolver.js:79-181 | for any course, honest progress and way: what is left can be finished exactly when no cycle runs through shut modules only and no shut module keeps a prerequisite beside a missing one |
| PrerequisiteResolver.ValidatedCanBeFinished | server/src/courses/CurriculumGraph.js:188-195 | a course that validates can be finished from any honest progress, on either way |
| PrerequisiteResolver.FinishableIffValidated | server/src/courses/CurriculumGraph.js:188-195 | with known edges only and work behind every lock, validate decides exactly whether a new learner can finish |
| PrerequisiteResolver.BrowsingIsNoWorse | server/src/courses/PrerequisiteResolver.js:163-167 | what Continue can finish, browsing can |
| PrerequisiteResolver.PreviewOpensACycle | server/src/courses/PrerequisiteResolver.js:165-167 | a course with a cycle that Continue never finishes and browsing does |
| TurnRotation.RotationHandler.Find | infra/functions/turn-secret-rotation/handler.js:76-89 | the version carrying a label |
| TurnRotation.RotationHandler.PutPending | infra/functions/turn-secret-rotation/handler.js:101-108 | a new pending version, refused when the token was used before |
| TurnRotation.RotationHandler.MoveCurrent | infra/functions/test/functions.test.js:140-148 | moving AWSCURRENT makes the version it leaves AWSPREVIOUS and no other |
| TurnRotation.RotationHandler.Promote | infra/functions/turn-secret-rotation/handler.js:133-142 | pending becomes current, current becomes previous, the phase becomes retire-wait |
| TurnRotation.RotationHandler.Retire | infra/functions/turn-secret-rotation/handler.js:144-151 | previous loses its label, the phase becomes idle |
| TurnRotation.RotationHandler.Handle | infra/functions/turn-secret-rotation/handler.js:153-201 | an invocation on the version stages has exactly the effect the lemmas below state of labels and tags, keeping every label on one version |
| TurnRotation.HandledKeepsDiscipline | infra/functions/turn-secret-rotation/handler.js:153-201 | pending and previous never coexist between invocations and the phase tag matches the labels, emergencies included |
| TurnRotation.IdleStartsIff | infra/functions/turn-secret-rotation/handler.js:196-200 | between rotations a version becomes pending exactly when it is asked for or the interval since the last promotion is over; otherwise nothing changes |
| TurnRotation.PendingIsPromotedIff | infra/functions/turn-secret-rotation/handler.js:176-187 | a pending version signs exactly once the accept time is over and all nodes accept it; until then nothing changes |
| TurnRotation.PreviousIsRetiredIff | infra/functions/turn-secret-rotation/handler.js:189-195 | the previous version is retired exactly once the retire wait is over; until then nothing changes |
| TurnRotation.EmergencyLeavesOneLabel | infra/functions/turn-secret-rotation/handler.js:158-174 | an emergency leaves the pending version, or a new one, as the only labelled one |
| TurnRotation.RotationRunIsDisciplined | infra/functions/turn-secret-rotation/handler.js:153-201 | over any run the labels stay disciplined and unforced successive promotions are at least retireAfter + minAccept apart |
| TurnRotation.ScheduledRunIsSpaced | infra/functions/turn-secret-rotation/handler.js:153-201 | over any run of ticks alone successive promotions are at least the interval or the retire wait, and the accept time, apart |
| TurnRotation.ThreeTicksRotate | infra/functions/turn-secret-rotation/handler.js:176-199 | three ticks far enough apart accept, sign and retire, in that order |
| TurnRotation.CrashSkipsRetireWait | infra/functions/turn-secret-rotation/handler.js:137-140 | after a promotion whose tag was lost no run of invocations retires the old version before the next promotion displaces it |
| TurnFleet.RingCache.GetTurnSecretRing | server/src/config/secrets.js:429-475 | a young cached ring unless forced, else a fetched one, else the stale one of any age |
| TurnFleet.ServedByAge | server/src/config/secrets.js:429-475 | when a ring is served as cached, when as fetched, and when a failed fetch falls back |
| TurnFleet.TurnSecretRing.Refresh | classroom-app/server/src/rtc/TurnSecretRing.js:101-121 | a failed refresh leaves the loaded secret and its age as they are |
| TurnFleet.TurnSecretRing.SigningSecret | classroom-app/server/src/rtc/TurnSecretRing.js:124-145 | the loaded secret until it is older than the limit, then nothing |
| TurnFleet.RunKeepsInv | infra/functions/turn-secret-rotation/handler.js:3-13 | nodes, rings and unexpired credentials follow the labels in every run |
| TurnFleet.CrashedThenReplaced | infra/functions/turn-secret-rotation/handler.js:133-142 | a promotion cut off before its tag, and a rotation right after it, reject an unexpired credential if the accept time is too short |
| TurnFleet.ARejectedCredential | infra/functions/turn-secret-rotation/handler.js:189-194 | whenever a wait is too short some run rejects an unexpired credential |
| TurnFleet.NeverRejectsIffCovered | infra/functions/turn-secret-rotation/handler.js:3-4 | no run rejects an unexpired credential exactly when the age of a signing ring is bounded, retireAfter covers it with the lifetime, and, with crashes, minAccept does too |
| TurnFleet.ShippedConfigurationFallsShort | infra/functions/turn-secret-rotation/handler.js:24-26 | the shipped waits fall short; exactly a retire wait of 24 h and ten minutes is enough without crashes, and with them exactly if the accept time is as long |
| TurnFleet.NoWaitCoversOutages | server/src/config/secrets.js:399-401 | with a cache that serves any age during an outage no wait is long enough |
| TurnFleet.PromotionBetweenReads | classroom-app/turn/bootstrap/render-config.sh:89-98 | a node misses a promotion exactly if it falls between its first two reads |
| TurnFleet.LoadIsSafeIffCurrentSeen | classroom-app/turn/bootstrap/render-config.sh:83-98 | a node is safe for all that may follow exactly if what it read holds the version that now signs |
| StorageGuard.StorageRedis.Reserve | server/src/capacity/StorageGuard.js:60-82 | granted exactly when committed, pending and new bytes fit; counter and reservation are written with the same expiry |
| StorageGuard.StorageRedis.Release | server/src/capacity/StorageGuard.js:84-104 | the reservation is gone, the counter drops by it and keeps its expiry, or is deleted |
| StorageGuard.StorageRedis.AssertStorageAvailable | server/src/capacity/StorageGuard.js:166-213 | the gate lets through exactly what fits and reserves only for an asset |
| StorageGuard.ReservedIsReadUntilExpiry | server/src/capacity/StorageGuard.js:60-82 | what GET reads of counter and reservation at any later instant, each for exactly the reservation's lifetime |
| StorageGuard.ReleasedIsReadUntilExpiry | server/src/capacity/StorageGuard.js:84-104 | the same after a release: what is left of the counter expires when it would have |
| StorageGuard.LiveBytesSplit | server/src/capacity/StorageGuard.js:75-79 | the live total is the sum over reservations in any order |
| StorageGuard.ReserveKeepsCover | server/src/capacity/StorageGuard.js:60-82 | the counter stays above the live total and outlives its parts; only reserving an asset again leaves bytes behind in it |
| StorageGuard.ReleaseKeepsCover | server/src/capacity/StorageGuard.js:84-104 | a release takes exactly the reserved bytes off the counter and off the live total |
| StorageGuard.CounterAlwaysCovers | server/src/capacity/StorageGuard.js:60-104 | in every run the counter is at least the live reservations and outlives each that holds bytes |
| StorageGuard.StepStaysWithinIffFits | server/src/capacity/StorageGuard.js:60-82 | from within the quota a step stays within it exactly when a granted reservation or a commit fits beside everything but what it replaces |
| StorageGuard.NeverOversoldIffFits | server/src/capacity/StorageGuard.js:15-20 | a run is within the quota throughout exactly when it starts there and each of its steps fits |
| StorageGuard.FitsAnyQuotaIffCareful | server/src/capacity/StorageGuard.js:68-73 | under any quota a step fits exactly when what is stored and in flight is covered by the usage read, the slack and what is replaced, or a smaller reservation replaces a larger one, or a commit is within its live reservation |
| StorageGuard.UpToDateIsCareful | server/src/capacity/StorageGuard.js:68-73 | with nothing in flight and a usage that is not out of date every reservation is |
| StorageGuard.NeverOversold | server/src/capacity/StorageGuard.js:15-20 | callers that take only such steps never exceed the quota |
| StorageGuard.CommittedBytesAddUp | server/src/capacity/StorageGuard.js:220-227 | over any run what is stored and in flight grows by exactly what is committed and shrinks by no more than what is deleted |
| StorageGuard.CommitWindowOversells | server/src/capacity/StorageGuard.js:220-227 | a reservation between releasing and adjusting sells any quota twice |
| StorageGuard.ExpiredCommitOversells | server/src/capacity/StorageGuard.js:220-227 | so does committing an upload whose reservation has expired, with no overlap at all |
| StorageGuard.StaleReadOversells | server/src/capacity/StorageGuard.js:166-191 | so does reserving on a usage read before another commit |
| SessionStore.SessionRedis.CreateSession | server/src/identity/SessionStore.js:59-92 | session, index entry and family record with the same expiry |
| SessionStore.SessionRedis.Rotate | server/src/identity/SessionStore.js:103-130 | not found, reuse and family revocation, or the new token with renewed session and index |
| SessionStore.SessionRedis.RevokeSession | server/src/identity/SessionStore.js:194-207 | the session, its index entry and its family record go together |
| SessionStore.SessionRedis.RevokeFamily | server/src/identity/SessionStore.js:210-215 | the family's session goes if its record lives, the record goes anyway |
| SessionStore.SessionRedis.RevokeAllForUser | server/src/identity/SessionStore.js:221-248 | all indexed sessions but the excepted one go, and the cutoff is written unless there was none |
| SessionStore.RunKeepsInv | server/src/identity/SessionStore.js:80-88 | in every run each live session is indexed, the index outlives it, and its family record names it |
| SessionStore.CreationAddsOne | server/src/identity/SessionStore.js:59-92 | in every run a sign-in adds one session for one refresh period; every other keeps its record, expiry, index entry and family record |
| SessionStore.RotationRenewsOne | server/src/identity/SessionStore.js:118-130 | so does a granted rotation, which renews its own session under the new token |
| SessionStore.RefusalEndsAtMostOne | server/src/identity/SessionStore.js:103-116 | a refused rotation ends at most the session it was asked for, exactly if its token was superseded and its family record lives |
| SessionStore.RevokeSessionEndsOne | server/src/identity/SessionStore.js:194-207 | signing out ends that session, its index entry and family record, and leaves every other as it was |
| SessionStore.RevokeFamilyEndsItsSession | server/src/identity/SessionStore.js:210-215 | revoking a family ends the session its live record names and no other |
| SessionStore.RevokeAllTouchesItsTargets | server/src/identity/SessionStore.js:221-248 | signing out everywhere leaves every session but its targets as it was |
| SessionStore.SignOutEverywhereIsTotal | server/src/identity/SessionStore.js:217-248 | after a mass revocation only the excepted session of the user lives; other users keep theirs |
| SessionStore.CutoffOutlivesAccessTokens | server/src/identity/SessionStore.js:234-263 | tokens issued before the cutoff stay rejected until they expire, whatever follows |
| SessionStore.CutoffRejectsExactly | server/src/identity/SessionStore.js:255-263 | which issue instants a cutoff rejects, to the second |
| SessionStore.OnlyTheLatestTokenRotates | server/src/identity/SessionStore.js:103-130 | with rotations as single steps, a session accepts its latest token and no other in every run |
| SessionStore.ReuseEndsTheSessionIffFamilyLives | server/src/identity/SessionStore.js:109-116 | a superseded token is reported as reuse and ends the session exactly within one refresh period of its creation |
| SessionStore.EndedForGood | server/src/identity/SessionStore.js:194-248 | with rotations as single steps, an ended session never comes back |
| SessionStore.ReplayAfterTheFamilyExpired | server/src/identity/SessionStore.js:122-127 | a run in which reuse leaves the session alive |
| SessionRaces.WriteIsRotationIff | server/src/identity/SessionStore.js:103-130 | writing back is a rotation exactly if the session is live and unchanged since the read |
| SessionRaces.CleanRunRefines | server/src/identity/SessionStore.js:103-130 | runs in which every write is one refine runs of whole rotations |
| SessionRaces.EndsForGoodIffNotInFlight | server/src/identity/SessionStore.js:104-127 | an ended session never comes back exactly if no rotation of it is between read and write |
| SessionRaces.SignOutIsFinalIff | server/src/identity/SessionStore.js:217-248 | signing out everywhere ends each targeted session, and for good exactly those |
| SessionRaces.OverlapTurnsIntoReuse | server/src/identity/SessionStore.js:94-101 | of two overlapping rotations that both succeed, the first one's token is reported as reuse |
| Migrate.NotInMembers | server/src/db/migrate.js:113 | the pending list is exactly the files not applied, each once |
| Migrate.EveryFileCommitsAtMostOnce | server/src/db/migrate.js:128-174 | over any interleaving with failures no file commits twice, nothing committed is lost, and the primary key never fires |
| Migrate.CommitTakesTheNext | server/src/db/migrate.js:145-158 | a commit applies the first file of the list not applied yet |
| Migrate.AppliedIsAlwaysAPrefix | server/src/db/migrate.js:93-174 | the applied files stay a prefix of the shipped list, all of it once a runner finishes |
| Migrate.RunnerCanFinish | server/src/db/migrate.js:93-174 | from every reachable state a running runner that finds the lock free or its own finishes by itself, committing exactly the missing files in order, and leaves the lock free |
| Migrate.OneWayOn | server/src/db/migrate.js:113-174 | a running runner that neither fails nor only reports has one next step, and waits for nothing but another's lock |
| Migrate.FailingTakesOwnLock | server/src/db/migrate.js:161-174 | a runner may fail anywhere; it loses its own lock and nothing that was committed |
| RoomRegistry.CandidatesMembers | server/src/classroom/RoomRegistry.js:96-111 | the candidates are the pool's assignable nodes |
| RoomRegistry.Emptiest | server/src/classroom/RoomRegistry.js:143-145 | the first node with the fewest rooms |
| RoomRegistry.FoundIsReturned | server/src/classroom/RoomRegistry.js:126-131 | a call by itself returns the room's node if that is alive, and changes nothing |
| RoomRegistry.DeadIsUnplaced | server/src/classroom/RoomRegistry.js:132-136 | if it is dead the room's key goes and the call goes on to choose |
| RoomRegistry.UnplacedIsPlaced | server/src/classroom/RoomRegistry.js:138-157 | a room without a node is placed on the first of the emptiest assignable nodes, or the call fails if there is none |
| RoomRegistry.LateIsRedirected | server/src/classroom/RoomRegistry.js:147-153 | a call that chose too late returns the room's node, or its own choice if that one is dead |
| RoomRegistry.StepKeepsInv | server/src/classroom/RoomRegistry.js:126-157 | once set the room's node never changes, and every caller's view agrees with it |
| RoomRegistry.AllCallersAgree | server/src/classroom/RoomRegistry.js:119-157 | in every steady run all returning callers name one node; at most one is told it assigned it, none if it was already there |
| RoomRegistry.StepKeepsAgreementIffHarmless | server/src/classroom/RoomRegistry.js:126-157 | whatever expires, a command keeps callers at living nodes together exactly under its guard |
| RoomRegistry.AlwaysAgreedIffHarmless | server/src/classroom/RoomRegistry.js:117-157 | a run keeps them together throughout exactly if each command meets its guard |
| RoomRegistry.SteadyIsHarmless | server/src/classroom/RoomRegistry.js:126-157 | in a steady run every command does |
| RoomRegistry.StaleDeletePartsARoom | server/src/classroom/RoomRegistry.js:127-135 | a run in which a late delete sends two callers to two living nodes |
| PresenterLock.NotAllowedIsForbidden | server/src/classroom/ScreenShareManager.js:50-53 | a learner where learners may not share, and whoever is not in the room, is refused and nothing changes |
| PresenterLock.HeldLockIsKept | server/src/classroom/ScreenShareManager.js:55-65 | while another's lock is confirmed or less than a minute old nobody but a host gets it: the holder is named and nothing changes |
| PresenterLock.HostTakesOver | server/src/classroom/ScreenShareManager.js:57-78 | a host gets it, the holder's share ends, and nobody else changes |
| PresenterLock.FreeLockIsGranted | server/src/classroom/ScreenShareManager.js:50-78 | a lock that is free, overdue or one's own goes to whoever may share, and nobody changes |
| PresenterLock.FirstComeFirstServed | server/src/classroom/ScreenShareManager.js:5-8 | of two peers asking for a free lock the first gets it and the second, no host, is told so for a minute, and gets it afterwards |
| PresenterLock.ProducedIsLiveForTheHolder | server/src/classroom/ScreenShareManager.js:87-123 | a new screen is live and confirms the lock exactly for its holder |
| PresenterLock.ReleaseEndsOwnShare | server/src/classroom/ScreenShareManager.js:125-147 | giving up the lock ends one's own share, and nothing without the lock |
| PresenterLock.OnlyModeratorsAct | server/src/classroom/ModerationControls.js:136-226 | what a learner, or somebody outside the room, tries as a moderator changes nothing |
| PresenterLock.ModeratorsAct | server/src/classroom/ModerationControls.js:136-226 | what a moderator can do to whom, the host excepted |
| PresenterLock.HostHandsOver | server/src/classroom/ModerationControls.js:187-202 | only the host hands over, to a peer in the room, and becomes a co-host |
| PresenterLock.EffectKeepsGuard | server/src/classroom/ScreenShareManager.js:50-157 | every step but granting the lock to a sharing peer keeps live shares under a confirmed lock of their peer |
| PresenterLock.OneShareInEveryCleanRun | server/src/classroom/ScreenShareManager.js:5-8 | from an empty room, every run without such a grant has at most one live share, under a lock that names its producer |
| PresenterLock.SafeIffGuarded | server/src/classroom/ScreenShareManager.js:5-8 | of all states, exactly those whose shares are under a confirmed lock can never come to two live shares |
| PresenterLock.GrantIsSafeIffNotSharing | server/src/classroom/ScreenShareManager.js:69-75 | in a safe room granting the lock stays safe exactly when the peer is not sharing already |
| PresenterLock.ReacquireAdmitsASecondShare | server/src/classroom/ScreenShareManager.js:30-41 | in any state, once a sharing peer was granted the lock again, any other peer that may share can become a second one |
| PresenterLock.ReacquireLeadsToTwoShares | server/src/classroom/ScreenShareManager.js:69-75 | a run from any empty room of sharing learners that ends with two live shares |
| PresenterLock.OneHostInEveryRunIff | server/src/classroom/ModerationControls.js:183-202 | there is exactly one host throughout a run exactly as long as the host does not disconnect and no second host connects |
| ScreenShare.Peer.SharesIffSeen | server/src/classroom/Peer.js:118-120 | a live screen is what the lock's rules see of a peer |
| ScreenShare.Peer.AddProducer | server/src/classroom/Peer.js:77-93 | replaces a slot and closes what was in it |
| ScreenShare.Peer.CloseScreenShare | server/src/classroom/Peer.js:112-116 | screen and screen audio close together, nothing else does |
| ScreenShare.Peer.Close | server/src/classroom/Peer.js:144-160 | closes every producer once |
| ScreenShare.ScreenShareManager.ActiveFor | server/src/classroom/ScreenShareManager.js:30-41 | the lock unless it is pending for more than a minute |
| ScreenShare.ScreenShareManager.Acquire | server/src/classroom/ScreenShareManager.js:50-81 | who is refused, who waits, who takes over, and the whole room and lock afterwards |
| ScreenShare.ScreenShareManager.AttachProducer | server/src/classroom/ScreenShareManager.js:87-123 | confirms the holder's lock, closes anybody else's producer |
| ScreenShare.ScreenShareManager.Produce | server/src/signaling/socketHandlers.js:544-575 | a screen becomes live exactly for the lock holder, and nothing else changes |
| ScreenShare.ScreenShareManager.Release | server/src/classroom/ScreenShareManager.js:125-147 | only the holder's lock goes, and its share with it |
| ScreenShare.ScreenShareManager.ReleaseForPeer | server/src/classroom/ScreenShareManager.js:154-157 | a leaving peer holds no lock afterwards |
| ScreenShare.ScreenShareManager.Leave | server/src/signaling/socketHandlers.js:437-445 | the lock goes, then the peer, closed |
| ScreenShare.ScreenShareManager.LoseTransports | server/src/signaling/socketHandlers.js:237-247 | a lost transport ends the share but keeps the lock |
| ScreenShare.ScreenShareManager.StopScreenShare | server/src/classroom/ModerationControls.js:136-139 | a moderator ends the peer's share and nothing else |
| ScreenShare.ScreenShareManager.Remove | server/src/classroom/ModerationControls.js:145-161 | who can be removed; the removed peer leaves no lock and no share |
| ScreenShare.SetRole | server/src/classroom/ModerationControls.js:163-181 | changes one non-host's role and nothing else |
| ScreenShare.TransferHost | server/src/classroom/ModerationControls.js:187-202 | the actor steps down and the target up, also when they are the same peer |
| Attendance.AttendanceService.RecordJoin | server/src/classroom/AttendanceService.js:48-83 | one user's record is joined, all others are untouched |
| Attendance.AttendanceService.RecordLeave | server/src/classroom/AttendanceService.js:85-92 | one user's open interval is closed |
| Attendance.AttendanceService.Finalise | server/src/classroom/AttendanceService.js:153-185 | everyone still present leaves, every record is summarised, the ledger is gone |
| Attendance.SummaryOfRecord | server/src/classroom/AttendanceService.js:113-135 | first join, last leave or the session's end, and reconnects come from the record |
| Attendance.SummaryOfConnections | server/src/classroom/AttendanceService.js:113-135 | for connections in sequence the summary runs from the first to the last and counts a reconnect per short break |
| Attendance.LedgerIsWellKept | server/src/classroom/AttendanceService.js:48-92 | intervals stay ordered, disjoint and more than the grace period apart, only the last open |
| Attendance.ReportedDurationIsSound | server/src/classroom/AttendanceService.js:113-132 | the reported duration never exceeds the rounded span and is within half a second per interval of the truth |
| Attendance.LedgerMergesShortBreaks | server/src/classroom/AttendanceService.js:8-13 | for connections in sequence, one interval per long break and one more, a reconnect per short break, and their exact total |
| Attendance.LedgerMissesExactly | server/src/classroom/AttendanceService.js:48-92 | for overlapping devices, the ledger is the presence less exactly what passed after a device's leave closed it while others stayed |
| Attendance.LedgerIsExactIffUnbroken | server/src/classroom/AttendanceService.js:56-66 | it equals the presence exactly when each leave that closed it for long was that of the last connected device |
| Grading.ValidateRubric | server/src/assignments/AssignmentService.js:35-78 | accepts no rubric, refuses an empty one, and reports exactly the unnamed, worthless or over-levelled criteria and a wrong total |
| Grading.TitleCountsIffTrimmed | server/src/assignments/AssignmentService.js:50-52 | a title counts exactly if trimming leaves something of it |
| Grading.StoredRubricIsWorth | server/src/assignments/AssignmentService.js:80-90 | a rubric that passes is stored with the total it was validated with, every criterion worth something and no level above it |
| Grading.StoredAsGiven | server/src/assignments/AssignmentService.js:80-90 | each criterion is stored in its place as it came, with a fresh id only if it brought none |
| Grading.ValidateRubricScores | server/src/assignments/GradingService.js:84-109 | reports exactly the criteria without a score, the scores without a criterion and the scores above a maximum |
| Grading.ComputeScore | server/src/assignments/GradingService.js:40-78 | by one pass over the scores against the criteria by id, the mark the lemmas below are about |
| Grading.EarnedByCriterion | server/src/assignments/GradingService.js:51-60 | a score counts as given within its criterion, nothing below zero and the maximum above it; of criteria with one id the last counts |
| Grading.AcceptedCountsInFullIff | server/src/assignments/GradingService.js:51-60 | accepted scores, none negative, add up to exactly what was given, whatever they are, exactly if no criterion gives way to a later one of its id that is worth less |
| Grading.AcceptedScoresCountInFull | server/src/assignments/GradingService.js:84-109 | so they do wherever ids are distinct |
| Grading.PlainMark | server/src/assignments/GradingService.js:61-63 | without a rubric the one number given counts, within 0 and the maximum |
| Grading.MarkIsNearest | server/src/assignments/GradingService.js:65-77 | raw points, penalised points and percentage are the exact values rounded to nearest |
| Grading.RawWithinTotal | server/src/assignments/GradingService.js:54-60 | with one score per criterion the raw points are within the rubric's total, also when criteria share an id |
| Grading.RubricMarkIsBounded | server/src/assignments/GradingService.js:65-77 | 0 <= points <= rawPoints <= maxPoints and 0 <= percent <= 100 |
| Grading.RaisingNeverLowers | server/src/assignments/GradingService.js:40-78 | raising scores never lowers points, percent or passed |
| Grading.FullMarksFitIff | server/src/assignments/GradingService.js:68 | rounding stays within the maximum exactly when its part below a hundredth is less than half |
| Grading.BoundedIffScoredOnce | server/src/assignments/GradingService.js:84-109 | accepted scores stay within the total exactly when no criterion is scored twice |
| ByteRange.DecimalReadsBack | server/src/files/FileStore.js:61 | a printed number reads back |
| ByteRange.ParsesByShape | server/src/files/fileRules.js:178-192 | what each header shape means, in all cases |
| ByteRange.SpaceAroundIsIgnored | server/src/files/fileRules.js:178-180 | white space around the header changes nothing |
| ByteRange.AcceptedRangesFit | server/src/files/fileRules.js:178-192 | accepted ranges lie inside the file and come from the header shape |
| ByteRange.PrintedRangeReadsBack | server/src/files/FileStore.js:61 | parsing the printed range gives it back |
| ByteRange.SuffixRangeIsTheEnd | server/src/files/fileRules.js:183-186 | a suffix range is exactly the last min(n, size) bytes |

## Left out

- Secrets Manager, Redis, Postgres, S3 and mediasoup themselves: only the effect of each call on labels, keys, rows or producers is modelled, a Lua script, MULTI or transaction being one step.
- TurnFleet.NeverRejectsIffCovered: assumes that the registered nodes are the serving ones, that an invocation, but for the one crash, a fetch and a node's load are one step each, that a retired version number is not issued again, and that an expiry is exact where the issuer rounds down to the second; emergency rotation is outside the promise.
- TurnFleet.RingCache.GetTurnSecretRing: callers that share a fetch in flight, and rings read from the environment.
- PutSecretValue with a token that was used before is modelled as refused.
- StorageGuard.NeverOversoldIffFits: the quota is fixed, and recomputeUsage, which deletes the counter, is not a step.
- SessionStore.SessionRedis.Rotate: reading the session and writing it back is one step here and two in SessionRaces; the reads inside the revocations are not split; touch and the per-token denylist are not modelled, and tokens stand for their fingerprints.
- Migrate.AppliedIsAlwaysAPrefix: checksum drift, status and dry runs appear only as a runner stopping; SQL effects of a migration are not modelled.
- RoomRegistry.AllCallersAgree: no release and no key expiring during the run, which AlwaysAgreedIffHarmless takes in; no avoid list.
- ScreenShare.ScreenShareManager.Acquire: broadcasts, labels, profiles and recording are not modelled; only producer slots, roles and locks are. A peer that was removed acts no more: the moment until its socket is disconnected is not followed.
- CurriculumGraph.AllPrerequisitesOf: the order of discovery is not stated.
- PrerequisiteResolver.Resolve: the lock reason's wording and titles; progress is given as the map built from its entries, and two modules with one id are not told apart.
- Attendance: interaction counts, display names and persistence.
- Grading.ComputeScore: binary floating point; points are exact reals.
- Grading.BoundedIffScoredOnce: criterion ids are distinct; that a mark of distinct scores is bounded does not need it.
- ByteRange.ParseRange: numbers beyond 2^53 lose digits in the source and are exact here.
- CapacityGuard seats, billing, messaging, community, hub and user-interface code: their rules live in tables and scripts that are not part of this model.
