# Verified models of the shared core

Dafny 4.11 models of the stateful and text-transforming parts of this repository, with proofs of what they are
relied on for. `dafny verify dfyconfig.toml` checks everything.

| part | files | source |
|---|---|---|
| saga orchestrator | `Saga`, `SagaOrchestrator`, `SagaTheorems`, `SagaVerdicts`, `SagaRestore`, `SagaExact`, `SagaSchedules`, `SagaReplay` | `Dimensionals/cross_bridge_orchestrator.py` |
| contained open and path checks | `ContainedOpen`, `ContainedFailures`, `ContainedReaders`, `ListingOrder`, `ContainedTheorems`, `Paths` | `Dimensionals/path_validation.py` |
| vector clocks, event bus | `VectorClocks`, `EventBus` | `Dimensionals/models.py`, `Dimensionals/bus.py` |
| service registry | `Registry` | `Dimensionals/registry.py` |
| rate limiter | `RateLimit` | `archive/api_enhanced.py` |
| requirements pins | `Requirements`, `TextLines`, `Pins`, `PinTheorems`, `PinLines`, `PinFiles` | `scripts/align_framework_pins.py` |
| generated blocks | `MarkerBlock`, `TextRows`, `SharedCoreBlock`, `SharedCoreRows`, `SharedCoreTheorems`, `SharedCoreInsertion`, `SharedCoreFiles` | `scripts/build_matrix_index.py`, `scripts/apply_shared_core_contexts.py` |
| degraded-bot detector | `Watchdog` | `scripts/bot_health_watchdog.py` |
| log sanitising | `Sanitize` | `Dimensionals/sanitize.py` |
| route order | `Routes` | `api.py` |
| shared helpers | `Wrappers`, `Sequences` | |

How the models are built:

- Code that updates objects is a class with those fields, or a method with the source's loop; each such method is
  proved equal to a specification function, and the theorems are about that function. Code that only computes is a
  function.
- Outside behaviour is a parameter quantified over. A bridge handler is any function of the bridge state, the log so
  far, the action and the payload. The file system of the contained open is any sequence of trees indexed by the
  instant of each system call, and each call may also fail. Handlers of the bus raise as they like, request times are
  any non-decreasing reals, and a detector of degraded runs is any test.
- Interleavings are explicit. `Gather` picks the next parallel executor nondeterministically and records the schedule;
  the theorems hold for every schedule. The contained open takes one instant per system call, with any script of the
  other actor's operations between two of them.
- What a result means is stated apart from the functions that compute it: outcomes, characters, rows and table
  entries are written out where a contract speaks of them.
- Every lemma is marked `{:induction false}`: its body is its whole proof.

What the proofs found about the code:

- Saga. A failed run in which nothing is compensatable leaves the workflow COMPENSATING. A compensation that answers
  an error counts as done; one that raises leaves its step COMPENSATING and the workflow FAILED. An attempt that takes
  effect and then times out is never undone, although the run can end COMPENSATED (`TimedOutEffectIsKept`). Ending
  COMPENSATED means restored, for a list of steps and every tail of it, exactly when failing attempts come to nothing
  and every undo that returns is a left inverse where a run can reach it (`RestoresExactlyWhen`). The tails are needed:
  alone, one workflow can restore the state by two errors that cancel (`ErrorsCanCancel`). In parallel the undos still
  run in list order, so two steps, each undone exactly, are restored on every schedule exactly when they commute
  (`RestoresExactlyWhenCommuting`).
- Contained open. A descriptor is leaked exactly when, after some components were entered, the next one opens and the
  close of its directory fails (`LeaksExactlyWhenACloseFails`); it is then the one just opened, and the failed close is
  tried a second time. With no failing call there is no leak (`NoFaultNoLeak`). The reader closes its descriptor twice
  exactly when the file is readable and no larger than allowed, `fdopen` does take it over, and the encoding is then
  found to be unknown (`ClosesTwice`). Those two are exactly the cases in which the reader's caller sees EBADF
  (`BadDescriptorIsSeen`). On every other path descriptors are conserved.
- Vector clocks. With absent entries read as 0, `merge` is the least upper bound exactly when the receiver holds no
  negative entry that the argument lacks; it commutes and associates under conditions of the same kind. Clocks built
  by `increment` and `merge` never hold a negative entry.
- Registry. Registering a name that is still live keeps the index exact only if the old entry offered nothing and no
  later service shares a capability with the new one (`RegisterAgainIsExact`); `StaleEntryHappens` is a run that leaves
  an entry behind.
- Rate limiter. The bound holds for intervals of one window with one end excluded. With both ends included up to twice the
  limit is admitted, never more (`ClosedIntervalBound`), and that is reached for every limit (`ClosedIntervalExceeds`).
  The limit itself holds there exactly when every admitted request finds fewer than the limit admitted in the closed
  window that ends with it (`ClosedBoundExactly`): a request exactly one window old would have to count, which the
  strict comparison of line 111 leaves out.
- Event bus. A limit of 0 keeps the whole log and a negative one keeps nothing.
- Pins. `Fast-API` is not treated as `fastapi`, contrary to the docstring of `_canonical_key`: separators become `-`
  and no canonical key holds one, so only case is dropped (`KeyOnlyDropsCase`). Line endings are kept by `align_text`,
  but `main` reads in text mode, so a rewritten file keeps its line endings exactly when it holds no carriage return
  (`EndingsSurviveExactlyWithoutReturns`, and `LostReturnHappens` for a file that does). `patch_dockerfile` reads in the
  same way: what stands around the block survives a rewriting exactly when there is no carriage return in it.
- Generated blocks. `apply` is a fixed point exactly when the text holds neither marker, or the first opening marker
  before the first closing one. `patch_dockerfile` is one when the USER line stands outside the block it refreshes; a
  file with one inside is in `UserInsideHappens`.
  After an insertion a second run leaves the file alone exactly when the block went in between two rows with no opening
  marker above it. An earlier unclosed marker makes it delete everything down to the new block; where the line above the
  comments ends in a break other than "\n", the block's marker does not begin a row and the file is written again.
- Detector. One healthy run on any older PR clears a bot, so a flag is stricter than the documented leading streak.
- Sanitising. Idempotence needs a limit of at least 0, up to the two cases in `ForLogIsIdempotent`.

## Model

| member | source | states |
|---|---|---|
| SagaVerdicts.ExecuteTrace | Dimensionals/cross_bridge_orchestrator.py:158-282 | for every dispatcher the log of a sequential run is the attempts of steps 0..k in order and then one undo per completed step with a compensation, in strict reverse order; the logged outcomes alone fix every field of every step, the workflow's status and its error: COMPLETED exactly when each step got an answer that is no unsimulated error within its attempts |
| SagaVerdicts.StepVerdict | Dimensionals/cross_bridge_orchestrator.py:158-190 | a step is FAILED exactly when all max_retries+1 outcomes are a timeout, an exception, no dictionary, or an error that is not simulated, with the last one's text; otherwise COMPLETED at the first other outcome, with that answer |
| SagaVerdicts.SimulatedSucceeds | Dimensionals/cross_bridge_orchestrator.py:120-136 | without a handler a step completes at once with a simulated answer and no bridge changes |
| SagaVerdicts.DeniedFails | Dimensionals/cross_bridge_orchestrator.py:168-171 | a workflow whose one step is answered with an error ends COMPENSATING with that error |
| SagaTheorems.CallTrace | Dimensionals/cross_bridge_orchestrator.py:158-282 | the calls of a run read off the final fields: steps 0..k, each max_retries+1 times at most, then the undos in reverse order; final statuses follow, and later steps are untouched |
| SagaRestore.CompensatedMeansRestored | Dimensionals/cross_bridge_orchestrator.py:204-282 | if failed attempts change nothing and compensations are left inverses, a run that ends COMPENSATED (or COMPENSATING with nothing to undo) leaves the bridge state as it was |
| SagaRestore.ParallelTrace | Dimensionals/cross_bridge_orchestrator.py:284-309 | for every interleaving each step makes its own attempts, and its fields are those their outcomes call for, before any undo; the undos are the completed compensatable steps in reverse list order |
| SagaRestore.ParallelCompensatedMeansRestored | Dimensionals/cross_bridge_orchestrator.py:284-309 | with pairwise commuting steps, compensation restores the bridge state after every interleaving |
| SagaReplay.LogDeterminesRun | Dimensionals/cross_bridge_orchestrator.py:158-282 | the log alone determines the final fields: playing its outcomes back reproduces the run and the log |
| SagaExact.RestoresExactlyWhen | Dimensionals/cross_bridge_orchestrator.py:158-282 | for every dispatcher: all clean runs of the workflow and of its tails, from all worlds, restore the state exactly when each step's failing attempts change nothing and each undo that returns, called on the state the step left and the log the later steps left, gives back the state before |
| SagaExact.ReversibleIsEnough | Dimensionals/cross_bridge_orchestrator.py:158-282 | steps reversible at every log meet that condition |
| SagaExact.HarmlessIsPerAttempt | Dimensionals/cross_bridge_orchestrator.py:164-190 | without retries the condition on failures is that one failing attempt changes nothing |
| SagaExact.ErrorsCanCancel | Dimensionals/cross_bridge_orchestrator.py:204-282 | a workflow that restores the state from every world although a failed attempt changes it, as another undo takes that back; its tail does not restore |
| SagaExact.FirstFails | Dimensionals/cross_bridge_orchestrator.py:266-282 | a run whose first step fails ends COMPENSATING in exactly the world its attempts left |
| SagaExact.FirstCompletes | Dimensionals/cross_bridge_orchestrator.py:266-282 | a run whose first step completes is the run of the other steps followed by the first step's undo |
| SagaSchedules.RestoresExactlyWhenCommuting | Dimensionals/cross_bridge_orchestrator.py:284-309 | two steps with inverse compensations, run beside one that refuses, are restored from every world on every finished schedule exactly when their effects commute |
| SagaSchedules.OrderCanShow | Dimensionals/cross_bridge_orchestrator.py:284-309 | a parallel run of reversible steps that ends COMPENSATED with the bridge state changed |
| SagaReplay.TimedOutEffectIsKept | Dimensionals/cross_bridge_orchestrator.py:180-190 | a run that ends COMPENSATED with the bridge state changed, when an attempt takes effect and then times out |
| SagaRestore.ScheduleTrace | Dimensionals/cross_bridge_orchestrator.py:289-290 | after any turns of the executors the log interleaves what each has attempted on its own |
| SagaRestore.ScheduleEffect | Dimensionals/cross_bridge_orchestrator.py:289-290 | with commuting steps the state at any point of any schedule is that of the completed steps applied in list order |
| SagaTheorems.PrefixTrace | Dimensionals/cross_bridge_orchestrator.py:271-278 | the loop after n steps: which calls were made, how often, and that it stopped at the first failed step |
| SagaTheorems.StepTrace | Dimensionals/cross_bridge_orchestrator.py:158-190 | one step: its final fields are those its logged outcomes call for, whatever its first ones |
| SagaTheorems.CompensateTrace | Dimensionals/cross_bridge_orchestrator.py:219-233 | one undo per listed step, with the compensation's own action and payload; COMPENSATED with its answer exactly where it returned, COMPENSATING where it raised |
| Saga.EligibleIsExact | Dimensionals/cross_bridge_orchestrator.py:209-213 | the undo list holds exactly the completed compensatable steps, strictly descending |
| SagaOrchestrator.BridgeDispatcher.Send | Dimensionals/cross_bridge_orchestrator.py:120-136 | a dispatch calls the bridge's handler, or simulates a success when there is none, and logs the call |
| SagaOrchestrator.BridgeDispatcher.RegisterHandler | Dimensionals/cross_bridge_orchestrator.py:112-114 | the handler of one bridge is replaced |
| SagaOrchestrator.BridgeDispatcher.UnregisterHandler | Dimensionals/cross_bridge_orchestrator.py:116-118 | the handler of one bridge is dropped |
| SagaOrchestrator.StepExecutor.Execute | Dimensionals/cross_bridge_orchestrator.py:158-190 | the retry loop leaves the step and the world as `RunStep` says |
| SagaOrchestrator.StepExecutor.Resume | Dimensionals/cross_bridge_orchestrator.py:158-190 | the same coroutine run up to its next dispatch is one `Turn` |
| SagaOrchestrator.CompensationManager.Compensate | Dimensionals/cross_bridge_orchestrator.py:204-240 | steps, workflow and world end as `CompensateWorkflow` says, including the early return |
| SagaOrchestrator.CompensationManager.ListCompensatable | Dimensionals/cross_bridge_orchestrator.py:209-213 | the reversed, filtered list |
| SagaOrchestrator.CompensationManager.RunUndos | Dimensionals/cross_bridge_orchestrator.py:219-233 | the loop over that list |
| SagaOrchestrator.CrossBridgeOrchestrator.Run | Dimensionals/cross_bridge_orchestrator.py:266-282 | `execute` refines `Saga.Execute` and records the workflow |
| SagaOrchestrator.CrossBridgeOrchestrator.RunSteps | Dimensionals/cross_bridge_orchestrator.py:271-278 | its loop over the steps, left at the first failure |
| SagaOrchestrator.CrossBridgeOrchestrator.RunParallel | Dimensionals/cross_bridge_orchestrator.py:284-309 | `execute_parallel` refines some schedule of the executors followed by `AfterGather` |
| SagaOrchestrator.CrossBridgeOrchestrator.Gather | Dimensionals/cross_bridge_orchestrator.py:289-290 | the executors run, in any interleaving of their turns, until all have returned |
| SagaOrchestrator.CrossBridgeOrchestrator.Conclude | Dimensionals/cross_bridge_orchestrator.py:292-306 | what follows the gather |
| ContainedTheorems.OpenedByDescent | Dimensionals/path_validation.py:249-292 | under any interference a returned descriptor names an inode reached by looking up base and each component in turn, one per instant, none of them a symlink when looked up |
| ContainedTheorems.OpenedStaysInside | Dimensionals/path_validation.py:244-292 | for every script of an actor that creates, deletes, renames, symlinks and hard-links within base, each inode of the descent lies in base's own tree when it is entered, and the one returned still does at the end |
| ContainedTheorems.TextIsFromInside | Dimensionals/path_validation.py:312-337 | a text the reader returns is what a regular file of base's own tree, reached by a descent inside it, holds at the instant of the read, and no longer than allowed |
| ContainedTheorems.ChildrenAreFromInside | Dimensionals/path_validation.py:398-427 | the children the lister returns are exactly the entries whose stat answers, one child each with its name, type, size and time, of a directory of base's own tree reached by a descent inside it, and all entries lie inside |
| ContainedReaders.VisitedIsExact | Dimensionals/path_validation.py:409-423 | a child is found exactly for each entry whose stat answers, directories with size 0 included, and no two share a name |
| ContainedTheorems.StillReadIsPlain | Dimensionals/path_validation.py:312-337 | on a still tree the reader gives what resolution leads to: the decoded content of a regular file within the limit, and otherwise the error due |
| ContainedTheorems.TextExactlyWhen | Dimensionals/path_validation.py:321-336 | a text comes back exactly when nothing failed: a regular file, within the limit, still regular when read, in a known encoding |
| ContainedTheorems.StillWalkResolves | Dimensionals/path_validation.py:249-292 | on a still tree the walk, with or without O_DIRECTORY, finds exactly what path resolution finds, and reports an attack exactly when the first obstacle is a symlink |
| ContainedTheorems.ActKeepsContained | Dimensionals/path_validation.py:201-223 | each operation of the confined actor keeps base's tree closed under its entries |
| ContainedTheorems.DescentStaysInside | Dimensionals/path_validation.py:259-279 | a descent enters base's tree at its first entry and never leaves it |
| ContainedFailures.LeaksExactlyWhenACloseFails | Dimensionals/path_validation.py:258-291 | the walk leaks exactly when for some k the components before k were entered, component k opens and the close of its directory fails |
| ContainedFailures.NoFaultNoLeak | Dimensionals/path_validation.py:258-291 | when no call after the first fails, the walk never leaks |
| ContainedFailures.LeakHappens | Dimensionals/path_validation.py:278-291 | a host on which it does |
| ContainedFailures.BadDescriptorIsSeen | Dimensionals/path_validation.py:312-337 | the reader's caller sees EBADF exactly when the walk leaked a descriptor or the reader closed its own twice |
| ContainedFailures.SecondCloseHappens | Dimensionals/path_validation.py:331-336 | a host and an unknown encoding for which it does |
| ContainedOpen.Process.OpenContained | Dimensionals/path_validation.py:249-292 | outcome and time are those of `Walk`; the descriptor table gains the one returned, is as before on an exception, and after a leak holds just the leaked one more |
| ContainedOpen.Process.WalkDown | Dimensionals/path_validation.py:258-291 | the loop over the components, holding one descriptor |
| ContainedOpen.Process.StepInto | Dimensionals/path_validation.py:260-288 | one component: open, classify the failure, close the parent, test for a directory |
| ContainedOpen.Process.CheckDirectory | Dimensionals/path_validation.py:280-288 | the fstat test that stands in for O_DIRECTORY |
| ContainedOpen.Process.Classified | Dimensionals/path_validation.py:264-277 | ELOOP or ENOTDIR becomes a traversal error exactly when lstat finds a symlink |
| ContainedOpen.Process.CloseAndRaise | Dimensionals/path_validation.py:289-291 | the handler closes what is held and re-raises |
| ContainedOpen.Process.OsIsLink | Dimensionals/path_validation.py:193-198 | the lstat test, false when it fails |
| ContainedReaders.ReadValidatedFileText | Dimensionals/path_validation.py:312-337 | text, size and each error as `Read` gives them, with decoding a parameter; the descriptor table is as before except after a leak, which adds that one, and the only second close is that of `ClosesTwice` |
| ContainedReaders.ReadOpened | Dimensionals/path_validation.py:321-336 | its part after the open: which error a refusal, a fault, a failing fdopen or a failing close gives, and the ownership hand-over |
| ContainedReaders.ListValidatedChildren | Dimensionals/path_validation.py:398-427 | NotADirectoryError and FileNotFoundError are raised anew and every other error as it is; otherwise the sorted listing of what the directory holds, each entry once, and the descriptor closed exactly once |
| ContainedReaders.ListOpened | Dimensionals/path_validation.py:407-427 | its part after the open |
| ContainedReaders.Scan | Dimensionals/path_validation.py:409-423 | the loop over the entries, in any order: one child per entry whose stat succeeds, with its type, size and time |
| ListingOrder.DirectoriesFirst | Dimensionals/path_validation.py:427 | in the listing no file stands before a directory, and within a kind lower-case names ascend |
| ListingOrder.BelowIsLexicographic | Dimensionals/path_validation.py:427 | the string order is by prefix or first difference |
| ListingOrder.TiesAre | Dimensionals/path_validation.py:427 | two children tie exactly when neither has to come first |
| ListingOrder.SortIsSorted | Dimensionals/path_validation.py:427 | the listing is sorted with directories first and then by lower-case name, is a permutation of what was found, and keeps the order of ties |
| Paths.ValidatePath | Dimensionals/path_validation.py:80-120 | a returned path has base as a component-wise prefix |
| Paths.SafeJoin | Dimensionals/path_validation.py:145-172 | the same for joined components |
| Paths.ValidatedExactlyWhen | Dimensionals/path_validation.py:80-120 | a path is accepted exactly when it is nonempty, holds no null byte and no two dots together, resolves under base, and exists if that is asked; it is missing exactly when only that fails, and a traversal otherwise |
| Paths.JoinedExactlyWhen | Dimensionals/path_validation.py:145-172 | components are joined exactly when each is nonempty, relative and unsuspicious and the result lies under base; the first one refused decides the error |
| Paths.ParentTraversalIs | Dimensionals/path_validation.py:31-51 | the segment test holds exactly of a null byte or of two dots between separators or ends |
| Paths.PartsAre | Dimensionals/path_validation.py:95 | how a text is cut into path components, and that an absolute one replaces base |
| Paths.GuardsCompared | Dimensionals/path_validation.py:31-51 | the segment test rejects strictly less than the substring test |
| Paths.NormaliseSteps | Dimensionals/path_validation.py:95 | resolution without symlinks steps down for a name and back for "..", as far as the root |
| Paths.ContainmentOnPlainTree | Dimensionals/path_validation.py:95-102 | on a symlink-free tree every relative input without a ".." segment passes containment; an absolute one passes exactly when base prefixes it |
| Paths.ValidInputsAreAccepted | Dimensionals/path_validation.py:87-102 | on such a tree every nonempty relative input that passes the guard is accepted |
| Paths.ComplaintIsExact | Dimensionals/path_validation.py:150-157 | the component checks raise exactly when some component is empty, suspicious or absolute |
| Paths.ValidatedPartsAreClean | Dimensionals/path_validation.py:80-102 | the components of a validated path below base hold no "..", whenever the resolver leaves none, as lexical resolution does |
| Paths.JoinAgreesWithValidate | Dimensionals/path_validation.py:80-102 | on every file system, joining components agrees with validating the joined string, once no component is empty or absolute |
| VectorClocks.CompareDecidesCausality | Dimensionals/models.py:79-108 | in every run "before" is Lamport's happens-before between distinct events, "after" its converse, "concurrent" the absence of both |
| VectorClocks.MergeIsLeastUpperBound | Dimensionals/models.py:89-92 | `merge` is the least upper bound exactly under the stated condition on negative entries |
| VectorClocks.MergeIsSemilattice | Dimensionals/models.py:89-92 | for all clocks: idempotent; commutative and associative exactly under conditions on negative entries, which clocks without any meet |
| VectorClocks.CompareIsStrictOrder | Dimensionals/models.py:85-108 | the verdict flips on swapping, "before" is transitive, `increment` moves strictly after |
| VectorClocks.Compare | Dimensionals/models.py:94-108 | the four answers in terms of all nodes, absent entries as 0 |
| VectorClocks.VectorClock.Increment | Dimensionals/models.py:85-87 | adds one to the node's entry |
| VectorClocks.VectorClock.Merge | Dimensionals/models.py:89-92 | entry-wise maximum over the argument's entries, in any order and when merging a clock with itself |
| VectorClocks.Execute | Dimensionals/models.py:79-92 | running any schedule with the class gives every event the stamp the theorems are about |
| VectorClocks.StampsAreNonNegative | Dimensionals/models.py:85-92 | no clock of a run holds a negative entry |
| Registry.IndexOverEveryRun | Dimensionals/registry.py:30-58 | after any run the index misses no live service and keeps no empty bucket; with fresh names it equals a scan of the services in registration order |
| Registry.ExactIsKept | Dimensionals/registry.py:30-58 | each operation keeps the exact index when registered names are fresh |
| Registry.CompleteIsKept | Dimensionals/registry.py:30-58 | each operation keeps completeness without that rule |
| Registry.RegisterAgainIsExact | Dimensionals/registry.py:30-34 | exactly when registering a live name keeps the index exact |
| Registry.StaleEntryHappens | Dimensionals/registry.py:30-34 | a service registered again without its capability stays in that capability's bucket |
| Registry.FindIsScan | Dimensionals/registry.py:64-71 | with an exact index `find_by_capability` is a scan of all services, one result per matching capability, unhealthy ones left out |
| Registry.UsableIsExact | Dimensionals/registry.py:64-71 | whatever the index holds, a lookup gives exactly the live, not unhealthy services named in the bucket |
| Registry.FindMissesNone | Dimensionals/registry.py:64-71 | with a complete index it misses no live, not unhealthy service |
| Registry.ServiceRegistry.RegisterService | Dimensionals/registry.py:30-34 | a new service comes last and a known name keeps its place; the index as `Apply` says |
| Registry.ServiceRegistry.DeregisterService | Dimensionals/registry.py:42-58 | that service is gone and returned, all others as they were, and empty buckets deleted |
| Registry.ServiceRegistry.UpdateServiceHealth | Dimensionals/registry.py:87-93 | sets two fields of one service and leaves the index alone |
| Registry.ServiceRegistry.FindByCapability | Dimensionals/registry.py:64-71 | the bucket filtered by liveness and health |
| Registry.ServiceRegistry.FindHealthy | Dimensionals/registry.py:73-81 | None exactly when there is no candidate; otherwise a candidate, HEALTHY whenever one is, than which none of those preferred was seen later, nor an earlier one as late |
| RateLimit.RateBound | archive/api_enhanced.py:106-119 | at most the limit of a client's requests are admitted in any half-open interval of one window |
| RateLimit.PruningIsSound | archive/api_enhanced.py:111-113 | the pruned list answers later requests as the whole history would |
| RateLimit.ClosedBoundExactly | archive/api_enhanced.py:106-119 | over any clock that never goes back, no closed interval of one window admits more than the limit exactly when each admitted request finds fewer than the limit admitted in the one that ends with it |
| RateLimit.RateLimiter.ClosedBounded | archive/api_enhanced.py:106-119 | the same, and the bound of twice the limit, in every reachable state |
| RateLimit.ClosedIntervalBound | archive/api_enhanced.py:106-119 | with both ends included at most twice the limit is admitted, and at most the limit when nothing is admitted at the left end |
| RateLimit.ClosedIntervalExceeds | archive/api_enhanced.py:110-114 | for every limit and window, a lawful history over a clock that never goes back reaches twice the limit |
| RateLimit.LawfulExtends | archive/api_enhanced.py:110-114 | one more request keeps every verdict the one the history calls for |
| RateLimit.RateLimiter.Check | archive/api_enhanced.py:106-119 | stores the request and admits it exactly when the window holds no more than the limit |
| RateLimit.RateLimiter.Hits | archive/api_enhanced.py:110-112 | the pruned list is the client's whole history within the window |
| RateLimit.RateLimiter.Bounded | archive/api_enhanced.py:106-119 | the bound in every reachable state |
| EventBus.LateSubscriberSeesSuffix | Dimensionals/bus.py:45-109 | a handler that replays a topic and then subscribes has been given, after any further events and whatever others subscribe or unsubscribe between them, a gap-free and repeat-free suffix of that topic, all of it while nothing was trimmed |
| EventBus.EventBus.JoinLate | Dimensionals/bus.py:45-109 | driving the bus through replay, subscription and any later actions delivers exactly what that theorem is about |
| EventBus.EventBus.PerformAll | Dimensionals/bus.py:45-87 | any sequence of publications, subscriptions and unsubscriptions leaves the log, the subscribers and the deliveries the specification gives |
| EventBus.LogIsExact | Dimensionals/bus.py:68-71 | the log for every limit, after any number of events |
| EventBus.EventBus.Publish | Dimensionals/bus.py:63-87 | logs the event, counts it in the clock and calls every matching subscription once, in order, whoever raises |
| EventBus.PublishCallsEach | Dimensionals/bus.py:73-87 | a publish calls the handlers of the type and then those of "*", in order, each as often as it stands in the two lists |
| EventBus.OfTypeIsFilter | Dimensionals/bus.py:94-98 | the replay filter judges each event alone and keeps the order |
| EventBus.EventBus.Record | Dimensionals/bus.py:65-71 | log and clock after one event |
| EventBus.EventBus.Notify | Dimensionals/bus.py:76-87 | one call per handler, in order |
| EventBus.EventBus.Subscribe | Dimensionals/bus.py:45-47 | appends the handler to its topic |
| EventBus.EventBus.Unsubscribe | Dimensionals/bus.py:56-61 | drops every subscription of the handler to that topic and no other |
| EventBus.EventBus.Replay | Dimensionals/bus.py:89-109 | returns the logged events of the topic and gives each to the handler once |
| Requirements.ParseIsMatch | scripts/align_framework_pins.py:90-100 | groups found by the parser spell the line and lie in the grammar of `_REQ_LINE`, with the longest version |
| Requirements.ParseIsComplete | scripts/align_framework_pins.py:90-100 | the parser finds a match whenever the grammar has one, and an exact pin parses to its own groups |
| Requirements.ParseIsPreferred | scripts/align_framework_pins.py:90-100 | of all the ways a line matches, the parser takes the expression's: forced groups before the operator, then the longest operator and version |
| Requirements.KeyOnlyDropsCase | scripts/align_framework_pins.py:103-110 | a name refers to a canonical package exactly when its lower-case form is the key |
| PinLines.RewrittenExactlyWhenStale | scripts/align_framework_pins.py:79-201 | a line is rewritten exactly when it is indent, name, extras, "==", version, rest and ending in characters written out, for a listed package in any case and at another version |
| PinLines.StaleIsRewritten | scripts/align_framework_pins.py:192-201 | such a line gets the target in the place of its version and keeps everything else, ";" and "#" included |
| PinLines.OthersAreLeft | scripts/align_framework_pins.py:172-191 | a pin at its target, or of no listed package, is left alone |
| PinLines.OthersAreNoted | scripts/align_framework_pins.py:181-188 | a listed package under any other operator is noted with it |
| PinLines.SpacesAre | scripts/align_framework_pins.py:90-100 | the white space of the expression, character by character |
| PinLines.NamesAre | scripts/align_framework_pins.py:92 | the characters of a name |
| PinLines.VersionsAre | scripts/align_framework_pins.py:97 | a version ends at white space, ";" or "#" |
| PinLines.ReferenceIs | scripts/align_framework_pins.py:79-110 | which names refer to which package at which version |
| TextLines.LinesAre | scripts/align_framework_pins.py:167 | the lines are the text cut after every break and nowhere else, "\r\n" kept together |
| TextLines.BreaksAre | scripts/align_framework_pins.py:167 | the breaks, character by character |
| TextLines.ReadTextIs | scripts/align_framework_pins.py:229 | text mode turns "\r\n" and a lone "\r" into "\n" and keeps the rest |
| TextLines.SplitThenJoin | scripts/align_framework_pins.py:167 | splitting with line ends kept and joining gives the text back |
| TextLines.LineStaysWhole | scripts/align_framework_pins.py:193-201 | exchanging a break-free word inside a line moves no line boundary |
| Pins.AlignText | scripts/align_framework_pins.py:159-203 | the loop returns the aligned text, its changes and its notes |
| Pins.SkippedLinesNeverMatch | scripts/align_framework_pins.py:172-174 | blank and comment lines hold no requirement, so skipping them loses none |
| PinTheorems.OnlyTheVersionChanges | scripts/align_framework_pins.py:162-201 | a line is rewritten exactly when it is an exact pin of a canonical package at another version; only the version is exchanged, and the result parses to the same groups with the canonical version |
| PinTheorems.LineSettles | scripts/align_framework_pins.py:171-201 | a treated line is rewritten no further and keeps its note |
| PinTheorems.LinesSurvive | scripts/align_framework_pins.py:167-203 | the new text splits into the rewritten lines, one for each old line |
| PinTheorems.SecondPassFindsNothing | scripts/align_framework_pins.py:159-203 | aligning again changes nothing, reports no change and repeats the notes |
| PinTheorems.ChangesAreEdits | scripts/align_framework_pins.py:199-203 | changes are reported exactly when the text comes out different |
| PinTheorems.ChangesAreExact | scripts/align_framework_pins.py:199-201 | one change per rewritten line, under its own number |
| PinTheorems.NotesAreExact | scripts/align_framework_pins.py:182-188 | one note per line refused for its operator |
| PinFiles.Tree.Run | scripts/align_framework_pins.py:216-263 | files and exit status under `--write` and `--check`, and the refusal of both |
| PinFiles.CheckPassesAfterWrite | scripts/align_framework_pins.py:228-263 | after a writing run every file passes the check, and writing again changes none |
| PinFiles.EndingsSurviveExactlyWithoutReturns | scripts/align_framework_pins.py:229-237 | a rewritten file keeps everything but its versions exactly when it holds no carriage return |
| PinFiles.WrittenIs | scripts/align_framework_pins.py:228-237 | a file that does not drift is left as it is; in one that does exactly the lines to be rewritten are |
| PinFiles.DriftsExactlyWhen | scripts/align_framework_pins.py:228-232 | a file drifts exactly when a line of it is to be rewritten |
| PinFiles.LostReturnHappens | scripts/align_framework_pins.py:229-237 | a drifting file whose "\r\n" is lost |
| PinFiles.WriteThenCheck | scripts/align_framework_pins.py:216-263 | on any tree, a writing run followed by a checking one exits 0 both times, and keeps all other files |
| MarkerBlock.SettledExactlyWhenOrderly | scripts/build_matrix_index.py:148-153 | on orderly text a later block replaces an earlier one and a second run changes nothing; on any other text it changes something |
| MarkerBlock.AppendKeepsText | scripts/build_matrix_index.py:149-153 | with a marker missing the result is the text up to its trailing white space, the rule, the block and a line end |
| MarkerBlock.ReplaceKeepsOutside | scripts/build_matrix_index.py:149-152 | with both there what stands before the first opening and after the first closing marker is kept |
| MarkerBlock.OutsideIsKept | scripts/build_matrix_index.py:149-152 | text outside the two markers is kept |
| MarkerBlock.Appended | scripts/build_matrix_index.py:153 | a block appended to unmarked text is found and replaced by the next run |
| MarkerBlock.CrossedGrows | scripts/build_matrix_index.py:149-152 | with the closing marker first every run makes the text longer |
| MarkerBlock.HalfMarkedChanges | scripts/build_matrix_index.py:149-153 | with one marker alone the second run changes the text |
| MarkerBlock.HalfMarkedHappens | scripts/build_matrix_index.py:149-153 | a text with one of the script's markers for which it does |
| MarkerBlock.InventoryIsProper | scripts/build_matrix_index.py:42-43 | the script's own markers meet the assumptions of these lemmas |
| SharedCoreBlock.Dockerfile.Patch | scripts/apply_shared_core_contexts.py:174-209 | the file's content and the flag after patching, as `Patched` says of the text that reading the content gives |
| SharedCoreFiles.EndingsSurviveExactlyWithoutReturns | scripts/apply_shared_core_contexts.py:184-209 | a written file keeps what stands above and below the block byte for byte exactly when there is no carriage return in it |
| SharedCoreFiles.UserInsideHappens | scripts/apply_shared_core_contexts.py:186-195 | a file with a USER line inside its block that the second run writes again |
| SharedCoreBlock.CommentsAbove | scripts/apply_shared_core_contexts.py:202-205 | the loop over the comment lines ends at the insertion point |
| SharedCoreRows.BlockHasEveryRow | scripts/apply_shared_core_contexts.py:147-160 | every context has its COPY row with its own name and destination, in order, and the other rows are the fixed ones |
| SharedCoreRows.FlagsAre | scripts/apply_shared_core_contexts.py:147 | one build flag per context, in order |
| SharedCoreRows.UserRowIs | scripts/apply_shared_core_contexts.py:186-189 | a USER line is "USER ", a word and nothing but white space, and the word is the user |
| SharedCoreRows.CommentLineIs | scripts/apply_shared_core_contexts.py:204 | a comment line is white space and then "#" |
| SharedCoreRows.BlockFoundIs | scripts/apply_shared_core_contexts.py:192 | the block found runs from the first opening row to the first closing row from there |
| SharedCoreBlock.TemplateIsProper | scripts/apply_shared_core_contexts.py:147-160 | the script's markers and comment lines meet the assumptions of the lemmas |
| SharedCoreTheorems.BlockIsBlock | scripts/apply_shared_core_contexts.py:140-160 | a rendered block has its markers at its two ends only and holds no USER line |
| SharedCoreTheorems.GoesAboveComments | scripts/apply_shared_core_contexts.py:198-206 | a new block goes above exactly the comment lines that stand right above USER |
| SharedCoreTheorems.RefreshSettles | scripts/apply_shared_core_contexts.py:191-195 | refreshing keeps the text around the block, and exactly when a second run leaves the file alone |
| SharedCoreTheorems.RefreshIsIdempotent | scripts/apply_shared_core_contexts.py:186-195 | it does whenever the USER line stands outside the block |
| SharedCoreTheorems.InsertionBetweenRows | scripts/apply_shared_core_contexts.py:196-209 | an insertion between rows: a second run leaves the file alone exactly when no row above opens a block, and otherwise what it deletes |
| SharedCoreInsertion.InsertionSettles | scripts/apply_shared_core_contexts.py:186-209 | after an insertion into any text a second run leaves the file alone exactly when the insertion point is between rows and no row above opens a block; otherwise it writes the file again |
| SharedCoreInsertion.CutHappens | scripts/apply_shared_core_contexts.py:184-209 | a text that reading leaves as it is, whose insertion point lies inside a row, and which the second run writes again |
| Watchdog.DetectDegradedBots | scripts/bot_health_watchdog.py:88-117 | a bot is flagged exactly when all its runs are degraded and there are at least max(threshold, 1), with their PR numbers in order; each bot is listed once, in the order of the first PR it ran on |
| Watchdog.ReadOne | scripts/bot_health_watchdog.py:103-115 | the inner loop updates every bot still streaking, in any order, and lists new findings last |
| Watchdog.FlaggedIsStreakAndNoOlderRecovery | scripts/bot_health_watchdog.py:92-98 | a flag is the documented leading streak together with no healthy older run |
| Watchdog.RanIs | scripts/bot_health_watchdog.py:103-112 | the runs that count are the first of the bot's runs on each PR on which it ran, most recent first |
| Watchdog.SilentPrsDoNotCount | scripts/bot_health_watchdog.py:106-109 | PRs on which a bot did not run never change its answer |
| Watchdog.OlderPrsOnlyClear | scripts/bot_health_watchdog.py:113-115 | older PRs leave a flagged bot flagged exactly when they show it degraded throughout |
| Sanitize.ForLogIsSafe | Dimensionals/sanitize.py:40-72 | no control character and nothing `str.splitlines` breaks on is left, the length is bounded, and a cut keeps the first characters |
| Sanitize.ForLogIsIdempotent | Dimensionals/sanitize.py:60-72 | exactly when sanitising twice is sanitising once, truncation included |
| Sanitize.ControlsDropped | Dimensionals/sanitize.py:62-63 | every control character is dropped and every other one kept in its place |
| Sanitize.RunBecomesOne | Dimensionals/sanitize.py:65-66 | each maximal run of newlines becomes one replacement and the text on both sides is treated alone |
| Sanitize.RunWithControlsBecomesOne | Dimensionals/sanitize.py:62-66 | newlines with only control characters between them become one replacement |
| Sanitize.ControlsAre | Dimensionals/sanitize.py:27 | the control characters, by code point |
| Sanitize.NewlinesAre | Dimensionals/sanitize.py:34 | the newline characters, by code point |
| Sanitize.LongTextIsCut | Dimensionals/sanitize.py:68-72 | text over the limit is cut there and marked, for every limit |
| Sanitize.CleanTextIsUntouched | Dimensionals/sanitize.py:60-72 | clean text within the limit is returned as it is |
| Sanitize.SanitizeDict | Dimensionals/sanitize.py:75-122 | the recursive loop over a dictionary equals the specification |
| Sanitize.EveryEntryIs | Dimensionals/sanitize.py:108-122 | along every path of keys that are not sensitive strings are sanitised, other values kept and dictionaries keep their keys; a sensitive key holds the redaction |
| Sanitize.SanitizedIsSafe | Dimensionals/sanitize.py:75-122 | at every depth keys are kept, sensitive ones redacted and strings safe |
| Sanitize.SanitizedIsIdempotent | Dimensionals/sanitize.py:75-122 | the dictionary form is idempotent |
| Routes.Router.MoveFallbackLast | api.py:2720-2727 | the loop leaves the other routes and then the fallbacks, each in their order |
| Routes.EveryRouteIsKept | api.py:2720-2727 | no route is lost or added |
| Routes.FallbackOnlyWhenNothingElse | api.py:2709-2719 | a request goes to the first matching route that is no fallback, as declared, and to a fallback exactly when no other route matches |

## Left out

- Saga: step statuses other than PENDING on entry, one step object listed twice, workflow ids, timestamps, logging, `get_status`, `start` and `stop`.
- Saga: time itself; a timeout is an outcome the handler chooses, whatever it did to the bridge before. A dispatch is one atomic turn of an executor, and cancellation of a whole run is not modelled.
- Saga: an exception that escapes `StepExecutor.execute` into `asyncio.gather` (lines 294-297); the executor catches every `Exception`.
- ContainedOpen: base's ancestors are trusted, so opening base is one lookup; O_NOFOLLOW is assumed to exist. A descriptor number is never used twice.
- ContainedReaders.ListValidatedChildren: the names are those of one instant; a directory read that fails half-way; `lower()` is any function of the name; `is_dir`, `is_file` and `stat` of one entry are one call.
- ContainedReaders.ReadValidatedFileText: decoding is any function of the content; the content is that of one instant.
- Paths: path resolution is a parameter, except where a tree without symlinks is named; `must_exist` and `allow_create` use an existence test that is a parameter; POSIX paths only.
- `sanitize_filename`, `list_validated_children`: easy compositions of string operations and of the checks above.
- VectorClocks: `to_dict`, and what messages carry besides the clock.
- Registry: watchers, the health loop, `list_all`, logging; `last_seen` is one ordered number.
- RateLimit: choosing the client's address, and the response on refusal; time is a real number and the clock never goes back. The results on closed intervals are for a window above zero; with a window of zero no request counts against another.
- EventBus: `start`, `stop`, `get_log`; handlers that call back into the bus; a topic named `*`, to which a matching handler is called twice.
- Requirements: the file list, the skipped directories and the submodules; the version table is the one in the script.
- Pins: the wording of notes and of the printed report; a note is a line number and an operator.
- PinFiles.Tree.Run: files that cannot be read or written; writing does not translate line ends, as on POSIX.
- MarkerBlock: rendering the inventory, and reading and writing the file; a block is any text that begins with the opening marker and holds the closing one at its end only.
- SharedCoreBlock: deciding which contexts a worker needs, `patch_compose`, `verify`; a missing Dockerfile.
- Watchdog.DetectDegradedBots: the order among bots first seen on one PR, which the source takes from a set; the phrases that make a run degraded are any test of the bot and the run.
- Sanitize: `SafeLogger`; a replacement with a backslash, which `re.sub` would expand; which words make a key sensitive; the order of the entries. Keys are kept as they are.
- Routes: how a route matches a request is a parameter; routes are compared as values, as `list.remove` does.
- Endpoints, middleware, the three-bridge coordinator, scoring scripts, dashboards, report generators and training code.
