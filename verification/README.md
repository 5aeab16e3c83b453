# zen-gc in Dafny

zen-gc is a Kubernetes controller that deletes resources when their time has come. A
GarbageCollectionPolicy names a target (kind, namespace, selectors), a time to live, conditions and a
deletion behaviour; the controller lists the target's resources from a shared informer, judges each
one, and deletes the expired ones in batches, with a rate limiter and a retry loop. This project
models that machine and the parts around it whose correctness is not obvious, and proves what they
promise, or exactly when they do not keep it.

`dafny verify dfyconfig.toml` checks everything.

## How it is modelled

Everything outside the controller is a *world* (`Worlds.dfy`): a trace of events, and an environment
that says for every position of the trace what the outside answers there: whether the context is done,
what the clock shows, whether a token is granted, what the API server answers to a delete, what a
store holds, what a policy fetch returns. A statement about all environments is a statement about
everything the outside may do, at any moment.

Each operation of the controller has two forms. A function gives the events it adds to a trace of a
given length, and its result. A method does the same to a `World`, with the loops, maps and early
exits of the code, and is proved equal to the function. The laws are then proved about the functions,
for every environment and every run; where they speak of what a policy says, they say it in the terms
of `Terms`, which names none of the functions that decide it in the code. Log limiter, sampler, backoff and resolver are classes with the
fields of the original; the limiter's lists are arrays compacted in place.

| file | what it models |
|---|---|
| `Reconciling`, `Reconcilers`, `ReconcilingLaws` | reconciliation, its maps and limiters, and their life over runs |
| `Safety`, `Completeness`, `Reports` | the whole machine: nothing deleted without authority, what is due deleted, reports that add up |
| `Evaluation`, `EvaluationLaws` | the two evaluation paths, and that they agree |
| `Deletion`, `DeletionLaws` | API delete, retry loop, batches, queue; conservation and token accounting |
| `Ttl`, `FieldPath`, `Policies` | expiry arithmetic, path parsers, selectors, conditions, settings |
| `Terms` | what a policy says, defined without the controller's functions: whom it means, how fast and in which way to delete, where to look |
| `LogLimiter`, `LogLimiterArrays`, `Sampling` | sliding-window log limiter and counter sampling |
| `Backoff`, `GvrResolver`, `Admission` | backoff arithmetic, the kind cache under interleaving, the defaulting webhook |
| `Int64`, `Arith`, `Wrappers`, `Worlds` | int64 with wrap-around, arithmetic facts, Option, the world |

## What the code does that its documentation does not say

- A log limiter that limits is the sliding window it is meant to be exactly for windows up to 2^62 ns: a
  larger window wraps when cleanup doubles it, and cleanup then forgets the whole window, unless its
  interval is so long that it never runs; and the smallest negative window, which is its own negation,
  counts what it should not, unless the interval is negative (`ExactlyWhenHarmless`, with both
  counterexamples).
- The sampling counter moves by two per entry and the threshold is 1/rate truncated, so the documented
  share of a rate is logged exactly for rates 1/d with d odd: the documented 10% of INFO logs one
  entry in five, and a rate of 0.7 logs every entry (`DocumentedShareOnlyWhenOdd`).
- The batch size that the controller is configured with is not checked. With zero the batch loop never
  ends while the context is not done, and with a negative one it panics in its first turn
  (`BatchLoopEnds`).
- "Exists" is documented for field conditions, but no resource ever meets it, so such a policy deletes
  nothing. `FieldConditionMeetable` says which field conditions can be met, `UnmeetableConditionBlocks` what
  one that cannot be met does.
- TTLs beyond 9223372036 seconds overflow int64 nanoseconds and expire at another time
  (`AddSecondsExact`, `FixedTtlHonouredWhenRepresentable`).
- The defaulting webhook writes batchSize 50 into policies that left it open, which overrides the
  batch size that the controller was configured with
  (`MutationKeepsBatchSizeOnlyForDefaultConfig`). It also emits an "add" below `/spec/targetResource`
  that cannot apply when the document has no such object (`MutationFillsDefaults`).
- A policy deleted and created again under the same name before its deletion was reconciled leaves
  its limiter and tracked spec behind for good (`LeaksExactlyWhenAbandoned`, `LeakIsForGood`).
- A kind that contains a slash can make two targets share a service and an informer: `KeysCanCollide`
  has an example, `KeysCollideExactly` says which do.
- The comparison of label selectors takes an empty value for a missing key (`EmptyValuesAreOverlooked`).
- A dry run reports the resources it would have deleted as deleted (`TokenAccounting`).
- The two field-path parsers differ exactly on paths with a backslash before a dot (`ParsersAgree`).
- A relative TTL that has run out reaches the caller of IsExpired as an error, not as an answer
  (`IsExpiredAgrees`).

## Model

| member | source | states |
|---|---|---|
| Safety.EveryDeleteIsAuthorised | pkg/controller/reconciler.go:207-246 | Over every run: an API delete is made only for the policy fetched last, neither paused nor a dry run; of a resource listed after that fetch (unless keys of fetched targets clash, from an informer of the target's kind, in its namespace, or in all of them for "" and "*") and seen expired by a clock reading after the listing; in the target's namespace, taken by its label selector, with each selected field holding its string, and with every phase, label, annotation and field condition holding; with propagation "Foreground" or "Orphan" just when the policy says so and "Background" otherwise, and the policy's grace period; right after a token granted, on a context not done, at maxDeletionsPerSecond if that is positive and at 10 otherwise. Every listing and every token asked for is likewise for the policy fetched last |
| Terms.SelectedExactly | pkg/controller/shared.go:482-531 | A resource is selected exactly when its namespace is the target's or the target's is "" or "*", the label selector takes its labels, and each selected path, cut at its dots, leads through nested objects to the selected string |
| Terms.ConditionsExactly | pkg/controller/shared.go:348-479 | The conditions are met exactly when status.phase is one of the phases, if any are given; every label is there, is there with its value, or is not there with it, as its operator says; every annotation has its value; and at every field path there is a string that satisfies its operator |
| Terms.NestedIsReached | pkg/controller/shared.go:441-479 | The walk along a path finds a value exactly when a trail through nested objects, one member for each segment, leads to it |
| Terms.StringAtExactly | pkg/controller/field_path.go:8-13 | Cutting a path and walking along it finds a string exactly when that string is at the end of segments without dots that join to the path |
| Terms.BehaviorAsAsked | pkg/controller/shared.go:258-267 | The rate is the policy's when positive and 10 otherwise; the options carry its grace period, and "Foreground" or "Orphan" exactly when it says so, else "Background"; the batch size is the policy's when positive, else the controller's, or 50 without a configuration |
| Safety.ReconcileAuthorised | pkg/controller/reconciler.go:207-246 | The same for one reconciliation from any state with properly shared informers |
| Safety.EvaluationGrounded | pkg/controller/reconciler.go:339-391 | On either path, each delete of an evaluation stands on one listing and a later clock reading |
| Safety.NoDeleteAfterCancellation | pkg/controller/reconciler.go:449-453 | Once the context is done, no API delete starts in the rest of the run, across batches, retries and reconciliations; what becomes of the remaining resources is in BatchAfterDone and CancelledQueue |
| DeletionLaws.BatchAfterDone | pkg/controller/shared.go:187-202 | A batch once the context is done, from any resource on: nothing more is deleted, each resource before the next periodic look (the next multiple of 50) becomes one error for want of a token, in order, and at that look the batch stops, skipping the rest |
| DeletionLaws.CancelledQueue | pkg/controller/evaluate_policy_refactored.go:241-258 | The same for the queue that the batch belongs to: no further batch is handled, and fewer than 50 more resources become errors |
| EvaluationLaws.ServiceAfterDone | pkg/controller/evaluate_policy_refactored.go:175-192 | An evaluation once the context is done, from any resource on: it counts the matches before the next multiple of 100, and there it stops |
| EvaluationLaws.DirectAfterDone | pkg/controller/evaluate_policy_shared.go:67-89 | The same for the direct path |
| Safety.NoEarlyDelete | internal/ttl/evaluator.go:57-126 | A deleted resource has a lifetime under the policy's TTL, and if the TTL fits int64 nanoseconds the clock was read after base plus TTL before the delete |
| Completeness.DueIsDeleted | pkg/controller/reconciler.go:207-246 | After every run, when the context is not done, tokens are granted, informers sync and no resource gets a fatal answer or five retryable ones in a row, a reconciliation lists the target's informer and the API server confirms as gone every listed resource that was due when the policy was fetched |
| Completeness.DueIsHandled | pkg/controller/reconciler.go:207-246 | After every run, on either path, whatever the rate limiter and the API server do: a reconciliation that lists a store and sees no cancellation leaves every resource of it that was due when the policy was fetched gone or in an error of its own, unless in a dry run; and, dry run or not, it reports as matched just the listed resources that the target selects, of which so many are deleted, so many in errors, and the rest pending |
| Completeness.ServiceDeletesDue | pkg/controller/evaluate_policy_refactored.go:82-156 | The same for one evaluation by a service |
| Completeness.QueueIsGone | pkg/controller/evaluate_policy_refactored.go:218-274 | With a cooperative outside exactly the queue is gone, as a multiset |
| Completeness.RetrySucceeds | pkg/controller/shared.go:294-332 | With up to four retryable answers in a row the retry loop goes on until the resource is gone |
| Reports.ReportsAddUp | pkg/controller/evaluate_policy_refactored.go:132-148 | The account of every run: deleted plus pending never exceed matched in a report, and the reported deletions are exactly the API server's confirmed ones and those that dry runs reported |
| Reports.EvaluationSettles | pkg/controller/reconciler.go:339-391 | Each evaluation, on either path and cancelled anywhere, reports exactly what it deleted (a dry run deletes nothing) |
| EvaluationLaws.PathsAgree | pkg/controller/evaluate_policy_shared.go:46-105 | Same store, same instant, no cancellation: service and direct path give the same counts, the same ordered queue and the same reasons, namely those of an independent definition |
| EvaluationLaws.ScopeIsImplied | pkg/controller/adapters.go:49-68 | The lister's namespace filter removes only resources that the selectors would reject, for counts and for the queue |
| EvaluationLaws.ListedOneByOne | pkg/controller/adapters.go:49-68 | What is listed of a store is what is listed of each of its items, in order: an object of the namespace, or of any for "" and "*", and nothing for an item that is no object |
| EvaluationLaws.ServiceRight | pkg/controller/evaluate_policy_refactored.go:159-215 | At every exit: matched is pending plus queued; queued resources were given, are eligible, were seen expired, each no more often than given, with their reason; it stops exactly when it finds the context done, and otherwise counts every match and queues all that was due at the start |
| EvaluationLaws.DirectRight | pkg/controller/evaluate_policy_shared.go:46-105 | The same for the direct path |
| EvaluationLaws.JudgeSound | pkg/controller/evaluate_policy_refactored.go:308-331 | A verdict to delete comes with a clock reading at which the resource is expired, in every TTL mode |
| EvaluationLaws.JudgeComplete | pkg/controller/evaluate_policy_refactored.go:308-331 | What one reading would delete, the two readings made later delete too |
| EvaluationLaws.FieldConditionMeetable | pkg/controller/shared.go:441-479 | A field condition is met by some resource exactly when it has a path and its operator is Equals, NotEquals, NotIn, or In with values |
| EvaluationLaws.FieldExistsNeverMet | pkg/api/v1alpha1/types.go:137-143 | The documented field operator "Exists" is met by no resource |
| EvaluationLaws.UnmeetableConditionBlocks | pkg/controller/shared.go:441-479 | A policy with a field condition that cannot be met, such as "Exists", never queues anything, on either path |
| Evaluation.EvaluateResources | pkg/controller/evaluate_policy_refactored.go:159-215 | The loop over the listed resources does what the function Service says; unless it finds the context done, it counts as matched exactly the resources that the target selects, and all that it queues satisfy selectors and conditions, in the terms of SelectedExactly and ConditionsExactly |
| Evaluation.EvaluatePolicyResources | pkg/controller/evaluate_policy_shared.go:46-105 | The same for the loop over the store's items and the function Direct |
| Evaluation.ListResources | pkg/controller/adapters.go:49-68 | Exactly the unstructured objects of the namespace, in the store's order |
| Evaluation.ShouldDeleteNow | pkg/controller/evaluate_policy_refactored.go:308-331 | The verdict, and the clock readings made on the way (two in relative mode) |
| Evaluation.ShouldDeleteCheckedNow | pkg/controller/reconciler.go:404-435 | The same with the conditions first: the reason is "condition_not_met" exactly when there are conditions that do not hold, and then nothing is deleted |
| DeletionLaws.RetryContract | pkg/controller/shared.go:280-345 | At most five answers; Deleted exactly when the last is Accepted or NotFound (a dry run asks nothing), all earlier ones retryable; a fatal answer ends the loop; Cancelled only on a context done by the end of its events; rate-limited only by a refused token after fewer than five answers; so Exhausted only after, and always after, five retryable answers, unless the context is done then |
| DeletionLaws.RetryEventByEvent | pkg/controller/shared.go:280-345 | The whole trace of the retry loop: rounds of a look at the context, a token asked for at the policy's rate (or 10), an API delete of this resource with the policy's propagation and grace period, and a sleep of 105 ms times two to the round; the next event comes exactly when the context was not done, the token granted (and no dry run), the answer retryable, or the sleep not cut short, up to five rounds; the last event decides the result |
| DeletionLaws.TurnsExplained | pkg/controller/shared.go:294-340 | The same after any number of turns, and the loop goes on only while every answer was retryable |
| DeletionLaws.RetrySleepsAtMost | pkg/controller/shared.go:320-331 | The sleeps of one retry loop sum to at most 3.255 s |
| DeletionLaws.TokenAccounting | pkg/controller/shared.go:198-218 | Over a queue: reported deletions equal confirmed ones; tokens are asked for, granted or not, once by every resource deleted or in an error and once by every attempt to delete; granted ones equal API deletes plus resources past their own wait, so 2 * deleted is at most granted; a dry run spends tokens and calls nothing |
| DeletionLaws.QueueAccounted | pkg/controller/reconciler.go:449-469 | The token account is balanced to the last token at the end of every queue |
| DeletionLaws.BatchConserves | pkg/controller/shared.go:172-232 | After k resources of a batch, deleted plus errors is k exactly when no periodic look has found the context done |
| DeletionLaws.QueueConserves | pkg/controller/evaluate_policy_refactored.go:218-274 | Deleted plus errors is the queue's length exactly when the loop over the batches, or a batch, is not left at a look that finds the context done; a context that is done but not looked at loses nothing |
| DeletionLaws.BatchHandled | pkg/controller/shared.go:188-231 | The resources of a batch are gone or in one error, as multisets |
| DeletionLaws.QueueHandled | pkg/controller/evaluate_policy_shared.go:108-165 | The batches cut the queue into consecutive disjoint pieces: no queued resource is handled twice, and every one exactly once, being gone or in one error, just when the queue is not cut short at a look |
| DeletionLaws.UnseenCancellationLosesNothing | pkg/controller/evaluate_policy_shared.go:125-132 | Without a look that finds the context done, nothing of the queue is lost, in dry runs too |
| DeletionLaws.QueueProper | pkg/controller/shared.go:280-345 | Each API delete of a queue is of a queued resource, for this policy, with its options, right after a granted token, not in a dry run |
| DeletionLaws.BatchSizeIsPositive | pkg/controller/batch_config.go:26-35 | With a queue and no cancellation, the batch loop comes to its end exactly when the policy, or else the configuration, has a positive size, or there is no configuration; and for all policies exactly when the configured size is positive |
| DeletionLaws.BatchLoopEnds | pkg/controller/evaluate_policy_refactored.go:241-258 | For every int64 size: the loop ends exactly for an empty queue, a positive size, a context done at its start, or size zero and a context done at some time; it panics exactly for a negative size otherwise |
| DeletionLaws.ZeroStays | pkg/controller/evaluate_policy_refactored.go:241-258 | Size zero: while the context is not done, the loop is at index 0 after any number of turns, having deleted nothing |
| DeletionLaws.NegativeAtOnce | pkg/controller/evaluate_policy_refactored.go:241-258 | A negative size panics in the first turn, unless the context is done there |
| Deletion.QueueTurnsAre | pkg/controller/evaluate_policy_refactored.go:241-273 | For positive sizes the turns of the loop do what DeleteQueue says, and never panic |
| Deletion.Deleter.DeleteResource | pkg/controller/reconciler.go:449-469 | One token asked for at the policy's rate or 10; without it no call; in a dry run success without a call; otherwise one API delete of this resource with the propagation and grace period that the policy names, success being Accepted or NotFound |
| Deletion.Deleter.DeleteResourceWithBackoff | pkg/controller/shared.go:280-345 | The retry loop with its backoff object does what DeleteWithBackoff says |
| Deletion.Deleter.DeleteBatch | pkg/controller/shared.go:172-232 | The batch loop, its periodic look at the context and its two error paths do what BatchTo says |
| Deletion.Deleter.DeleteQueueInBatches | pkg/controller/evaluate_policy_refactored.go:218-274 | For every size with which it ends, the loop over slices of the queue does what its turns say, panic included; for positive sizes that is DeleteQueue |
| Reconcilers.Reconciler.constructor | pkg/controller/reconciler.go:132-167 | A new reconciler holds nothing |
| Reconcilers.Reconciler.GetOrCreateRateLimiter | pkg/controller/shared.go:118-163 | The limiter of this UID alone, made or reused, at maxDeletionsPerSecond if that is positive and at 10 otherwise; no other UID's rate changes |
| Reconcilers.Reconciler.GetOrCreateResourceInformer | pkg/controller/reconciler.go:472-559 | The target's shared informer; a new one watches the target's kind, in its namespace or in all of them for "" and "*"; one that does not sync is not kept |
| Reconcilers.Reconciler.GetOrCreateEvaluationService | pkg/controller/reconciler.go:288-334 | The cached service, or one made of the target's informer; nothing cached on failure |
| Reconcilers.Reconciler.EvaluateWithService | pkg/controller/evaluate_policy_refactored.go:82-156 | Events, state and success of an evaluation by a service |
| Reconcilers.Reconciler.EvaluateWithoutService | pkg/controller/reconciler.go:344-391 | Events, state and success of the direct path |
| Reconcilers.Reconciler.DeleteAndReport | pkg/controller/evaluate_policy_refactored.go:136-148 | A limiter is made only when something is deleted, and the status gets the counts |
| Reconcilers.Reconciler.DeleteInBatches | pkg/controller/evaluate_policy_shared.go:108-165 | Limiter and batches together, the batches being of the policy's size if that is positive and of the controller's otherwise |
| Reconcilers.Reconciler.Evaluate | pkg/controller/reconciler.go:339-391 | The choice between the two paths |
| Reconcilers.Reconciler.HandleInformerRecreation | pkg/controller/reconciler_helpers.go:51-62 | This policy's tracked spec goes exactly when its target or label selector changed; no other does |
| Reconcilers.EmptyValuesAreOverlooked | pkg/controller/label_selectors.go:40-50 | The comparison of label maps is equality, whatever the other map, exactly for maps without empty values |
| Reconcilers.RetargetedExactly | pkg/controller/reconciler.go:667-689 | Between targets whose label selectors have no empty values, a new informer is wanted exactly when anything but the field selector differs |
| Reconcilers.Reconciler.CleanupPolicyResources | pkg/controller/reconciler.go:692-743 | Gives up the name, and the limiter and spec of its UID, and nothing else |
| Reconcilers.Reconciler.ReconcilePolicy | pkg/controller/reconciler.go:207-246 | Events, state and requeue interval of a reconciliation |
| Reconcilers.Reconciler.RunPolicies | pkg/controller/reconciler.go:207-246 | A new reconciler over any sequence of names makes the trace and state of RunOf, so that every law about RunOf is about it |
| ReconcilingLaws.KeyIsInjective | pkg/controller/reconciler.go:278-282 | For kinds and namespaces without a slash, keys are equal exactly when the targets are |
| ReconcilingLaws.KeysCanCollide | pkg/controller/reconciler.go:278-282 | Two targets that ParseGVR accepts, with one key and different informers |
| ReconcilingLaws.KeysCollideExactly | pkg/controller/reconciler.go:278-282 | For namespaces without a slash, two targets have one key exactly when they are the same, or in one namespace with a slash in the kind of one where the apiVersion of the other has it |
| ReconcilingLaws.RunShared | pkg/controller/reconciler.go:472-559 | Over every run in which no fetched targets clash, each cached informer and service is the one its target would make now |
| ReconcilingLaws.OwnInformer | pkg/controller/reconciler_helpers.go:131-141 | The informer made for a target has its apiVersion and kind, and an empty namespace exactly for "" and "*", otherwise the target's own |
| ReconcilingLaws.KeptInformersHaveSynced | pkg/controller/reconciler.go:532-559 | Over every run, each informer and service that is held was seen to sync in that run; one that was not is given up |
| ReconcilingLaws.EvaluationServes | pkg/controller/reconciler.go:288-334 | An evaluation leaves a service for its target exactly if it finds one, finds an informer, or makes one that syncs |
| Reports.InformersAddUp | pkg/controller/reconciler.go:472-559 | The account of informers of every run: as many are held as have synced, so none that has is lost, or made again for its key |
| ReconcilingLaws.ParsesExactly | pkg/validation/gvr.go:36-81 | A target is accepted exactly with a kind, and an apiVersion that is v and more without a slash, or a group and a version, neither empty nor with a slash, around one slash |
| ReconcilingLaws.PlainTargetsDoNotClash | pkg/controller/reconciler.go:278-282 | Targets without a slash in kind and namespace never clash |
| ReconcilingLaws.SharingIsTransparent | pkg/controller/reconciler.go:288-334 | A reconciliation has the same events and outcome after any two runs that both serve its target, by a service or by an informer alone, or both do not: who made them, and what was reconciled before, does not matter |
| ReconcilingLaws.InformersStay | pkg/controller/reconciler.go:720-728 | No reconciliation, of a deletion or of anything else, removes or changes an informer or service |
| ReconcilingLaws.EvaluatePolicyKeeps | pkg/controller/reconciler.go:339-391 | An evaluation changes no tracking, removes no informer or service, and sets this policy's rate exactly when it has a queue to delete |
| ReconcilingLaws.OutcomesAreAsPromised | pkg/controller/reconciler.go:207-274 | A reconciliation is finished when the policy is gone, fails when it cannot be fetched, and otherwise comes again: after the configured interval when paused, after 30 s when no status was updated, and else after the policy's own positive interval, or the configured one |
| ReconcilingLaws.LimitersCarryTheRateLastAsked | pkg/controller/shared.go:118-163 | Over every run, each UID that has asked for a limiter and was not released has one, at the rate that the policy it last asked for gave (10 if it gave none), and no other UID has |
| ReconcilingLaws.LeaksExactlyWhenAbandoned | pkg/controller/reconciler.go:651-664 | Reconciling a fetched policy leaks exactly when its name was tracking another UID that holds something and that no other name tracks |
| ReconcilingLaws.LeakIsForGood | pkg/controller/reconciler.go:692-718 | What is left behind stays, whatever is reconciled, unless a policy with that UID comes back |
| ReconcilingLaws.DeletionReleases | pkg/controller/reconciler_helpers.go:37-42 | Reconciling a deletion gives up all that is held for the UID and touches no other UID, informer or service |
| ReconcilingLaws.OrderlyRunsLeakNothing | pkg/controller/reconciler.go:207-246 | Over runs in which a name's UID changes only after its deletion was reconciled, every limiter and tracked spec belongs to a tracked name |
| ReconcilingLaws.RunsLeakExactlyWhenTheyAbandon | pkg/controller/reconciler.go:207-246 | A run leaks nothing at any of its stages exactly when at none of them a name changes its UID while the old one still holds something that no other name tracks |
| ReconcilingLaws.ALeakingRun | pkg/controller/reconciler.go:651-664 | A run of two reconciliations that leaks |
| Ttl.ShouldDeleteMeaning | pkg/controller/evaluate_policy_refactored.go:308-331 | The verdict is that the last clock reading is past the documented lifetime, although relative mode reads twice and signals expiry as an error; a zero expiry is never deleted except in relative mode |
| Ttl.ExpiredByOneReading | pkg/controller/evaluate_policy_refactored.go:308-331 | When the two readings are the same, what is deleted is exactly what is past its lifetime by that reading |
| Ttl.VerdictsGiveTheirReason | pkg/controller/evaluate_policy_refactored.go:308-331 | A verdict is to delete exactly when its reason is "ttl_expired"; otherwise the reason is "no_ttl" exactly without a lifetime or with a zero expiry, and "not_expired" else |
| Ttl.ErrorsSayWhy | internal/ttl/evaluator.go:57-126 | An expiry, namely base plus TTL, is returned exactly when there is a lifetime that has not run out in relative mode; and each of the six errors exactly in its own case |
| Ttl.ShouldDeleteIsMonotone | pkg/controller/evaluate_policy_refactored.go:308-331 | Later readings never take a verdict to delete back |
| Ttl.IsExpiredAgrees | internal/ttl/evaluator.go:130-141 | IsExpired answers as the verdict does, except that it returns an error exactly when a relative TTL has run out |
| Ttl.AddSecondsExact | internal/ttl/evaluator.go:63-66 | The int64 nanosecond sum is base plus seconds exactly for seconds up to 9223372036 in magnitude, and in general off by a multiple of 2^64 that brings the difference into range |
| Ttl.FixedTtlHonouredWhenRepresentable | internal/ttl/evaluator.go:63-66 | A fixed TTL is honoured for every creation and reading exactly when it is that small |
| FieldPath.ParseFieldPath | internal/ttl/evaluator.go:147-167 | The byte loop computes Parse |
| FieldPath.PrintParse | internal/ttl/evaluator.go:147-167 | Printing, with dots in segments escaped, undoes parsing for every string |
| FieldPath.ParsePrint | internal/ttl/evaluator.go:147-167 | Parsing undoes printing exactly for paths other than one empty segment in which no segment before the last ends in a backslash |
| FieldPath.ParseIsBijective | internal/ttl/evaluator.go:147-167 | The parser is a bijection from strings onto those paths |
| FieldPath.FewerSegments | pkg/controller/field_path.go:8-13 | The escaping parser gives as many segments as the plain split, or fewer exactly when a dot is escaped |
| FieldPath.CutIsExact | pkg/controller/field_path.go:8-13 | The plain split gives exactly the segments without dots that join, with dots, to the path |
| FieldPath.ParsersAgree | pkg/controller/field_path.go:8-13 | The two parsers agree exactly on paths without a backslash before a dot |
| LogLimiter.ExactlyWhenHarmless | internal/logging/sampling.go:183-244 | All ordered runs answer as counting the allowed calls of the last window does, exactly when limiting is off or the durations survive int64 negation and doubling |
| LogLimiter.RunIsNaive | internal/logging/sampling.go:183-244 | The run-by-run direction: pruning, cleanup at two windows and the unwritten rejection change no answer |
| LogLimiter.AllowTracks | internal/logging/sampling.go:183-226 | One call answers as the definition and keeps each key's list standing for its history |
| LogLimiter.CleanedTracks | internal/logging/sampling.go:229-244 | Cleanup keeps that invariant for every key |
| LogLimiter.StandsAppended | internal/logging/sampling.go:205-223 | Compacting and appending is what the history does |
| LogLimiter.AtMostMaxInAnyWindow | internal/logging/sampling.go:205-225 | At most max allowed calls of a key in any window of the configured size, over any run and interleaving |
| LogLimiter.KeysAreIndependent | internal/logging/sampling.go:199-203 | A key gets the answers it would get from a limiter of its own |
| LogLimiter.OverflowingWindowForgets | internal/logging/sampling.go:230-230 | For every window above 2^62 ns (unless cleanup never runs) a run that answers wrongly |
| LogLimiter.NegatedMinCounts | internal/logging/sampling.go:206-206 | For the smallest window, whose negation is itself, a run that answers wrongly |
| LogLimiterArrays.Compact | internal/logging/sampling.go:207-213 | Compaction in place: the newer instants in order at the front, the rest of the array untouched |
| LogLimiterArrays.RateLimiter.PruneKey | internal/logging/sampling.go:231-243 | One key's list is pruned in place, or dropped when nothing is left; no other key changes |
| LogLimiterArrays.RateLimiter.Cleanup | internal/logging/sampling.go:229-244 | Every key's list is pruned to two windows |
| LogLimiterArrays.RateLimiter.Admit | internal/logging/sampling.go:199-225 | The part after cleanup: no write-back on rejection, although the array was compacted |
| LogLimiterArrays.RateLimiter.Allow | internal/logging/sampling.go:183-226 | On arrays, slices and the map, a call answers and changes the state as LogLimiter.Allow |
| Sampling.Sampler.ShouldLog | internal/logging/sampling.go:77-103 | Decision and counters of a call; an error is logged when the error rate is 1 or more and dropped when it is 0 or less, whatever the other rates are, and so is a warning by the warning rate |
| Sampling.SeverityDecides | internal/logging/sampling.go:82-101 | Errors go by the error rate alone and warnings by the warning rate alone; an entry of another level is always logged; none of them moves a counter |
| Sampling.ClockSamplesItsShare | internal/logging/sampling.go:106-116 | Of any hundred consecutive instants exactly floor(100 * rate) log an error, for an error rate between 0 and 1, and the same for warnings |
| Sampling.CountersMove | internal/logging/sampling.go:88-98 | After any entries, a class's counter has moved by two for each of its entries, or by one where its rate is not between 0 and 1, modulo 2^64 |
| Sampling.LoggedCount | internal/logging/sampling.go:119-130 | Of the first n entries of a class exactly n / period are logged, the period being the threshold, or half of it when it is even, for every n before the counter wraps and whatever else is logged |
| Sampling.DocumentedShareOnlyWhenOdd | internal/logging/sampling.go:27-58 | The share that the comments promise, n * rate of n entries (rounded down), is what is logged exactly for rates 1/d with d odd, besides 0, 1, and rates so small that the counter wraps before the first entry is logged |
| Backoff.Backoff.Next | internal/backoff/backoff.go:73-105 | The recomputing loop returns the wait of the current step and moves on one step, or zero when exhausted |
| Backoff.Backoff.Reset | internal/backoff/backoff.go:109-113 | Back to the first step |
| Backoff.ClosedForm | internal/backoff/backoff.go:86-92 | With a whole factor, multiplying and clamping step by step is the cap or duration times factor to the k, for every start and step (the first step is not clamped) |
| Backoff.NonDecreasingWhenStartsWithinCap | internal/backoff/backoff.go:86-92 | Steps never get shorter exactly when the first is within the cap |
| Backoff.WaitZeroOnlyWhenExhausted | internal/backoff/backoff.go:77-79 | A zero wait means exhausted, and nothing else does |
| Backoff.WaitBound | internal/backoff/backoff.go:96-101 | A wait is at most the cap and half its jitter |
| Backoff.TotalWaitBound | internal/backoff/backoff.go:73-105 | So are all waits together, times the steps |
| Backoff.DefaultWaits | internal/backoff/backoff.go:46-54 | The controller's retries wait 105 ms to 1.68 s, 3.255 s in all |
| GvrResolver.CacheIsConfirmed | pkg/controller/gvr_resolver.go:82-85 | In every interleaving of calls, each cached pair is the mapper's; a pluralised guess is never cached |
| GvrResolver.CacheIsTransparent | pkg/controller/gvr_resolver.go:52-88 | In every interleaving, a call's result is what a resolver without a cache would have answered at a moment between its start and its return |
| GvrResolver.DiscoveredKindIsResolved | pkg/controller/gvr_resolver.go:47-51 | A call that has not returned when its kind is discovered, started or not, missed or not, gets the mapper's answer |
| GvrResolver.AnswersAreOfTwoKinds | pkg/controller/gvr_resolver.go:52-88 | In every interleaving a call returns either the mapper's answer for its kind, or its own group and version with the plural of its kind, and this only without a mapper or when the mapper did not know the kind at some moment of the call |
| GvrResolver.WrittenOnceReadEverAfter | pkg/controller/gvr_resolver.go:55-88 | In every interleaving, what a call has written for its kind is what every call that reads the cache for that kind afterwards returns at once |
| GvrResolver.UninterruptedCall | pkg/controller/gvr_resolver.go:52-88 | The four steps of a call without an interruption give the result and the cache that ResolveGvr promises |
| GvrResolver.Resolver.ResolveGvr | pkg/controller/gvr_resolver.go:52-88 | Result and cache of an uninterrupted call |
| Admission.MutatePolicy | pkg/webhook/webhook.go:285-364 | The patch list, built step by step, is Patches; nothing but creation is patched; a document that does not decode, in the members the webhook reads or in the rest, is refused |
| Admission.DecodesExactly | pkg/webhook/webhook.go:293-304 | A document decodes to a policy exactly when it writes down each member that the webhook reads, with its type, or leaves it out or null where the value is zero |
| Admission.RestIsElsewhere | pkg/webhook/webhook.go:305-363 | The rest of a document holds everything off the paths that the webhook may write to |
| Admission.MutationFillsDefaults | pkg/webhook/webhook.go:305-363 | The "add" operations (section 4.1 of RFC 6902) apply exactly when the document has a target object; then it decodes to the policy with its defaults written out, its rest is unchanged, and so is everything off their paths |
| Admission.MutationIsIdempotent | pkg/webhook/webhook.go:305-363 | The patched document gets no patches |
| Admission.MutationKeepsValidity | pkg/validation/validator.go:71-88 | Validation gives the patched policy the same answer, down to the refusal |
| Admission.ValidationAccepts | pkg/validation/validator.go:71-88 | A policy is admitted exactly with an accepted target, a namespace that is "", "*" or a label not beginning with a digit, an accepted selector and TTL, rate, batch size and grace period not negative, and a propagation that is empty or one of the three |
| Admission.RefusalsAreTrue | pkg/validation/validator.go:307-332 | The refusal names something that is wrong with the policy |
| Admission.MutationKeepsSettings | pkg/webhook/webhook.go:329-361 | No value that the user set is changed |
| Admission.MutationKeepsMeaning | pkg/controller/shared.go:482-494 | Selector matching, deletion rate and delete options are unchanged |
| Admission.MutationKeepsBatchSizeOnlyForDefaultConfig | pkg/controller/batch_config.go:26-35 | The batch size is unchanged exactly when the policy set one or the controller's own is 50 or missing |
| Admission.PatchElsewhere | pkg/webhook/webhook.go:305-363 | A patch changes nothing off the paths of its operations |

## Left out

- Kubernetes clients, informer machinery, REST discovery, HTTP, TLS and JSON parsing: stores, fetches, answers and syncs are the environment's; the mapper is a growing map.
- Concurrent reconciliations: runs are sequences of reconciliations with one context. Only the kind cache is modelled under interleaving, step by step.
- The token bucket inside the rate limiter: a wait grants or fails, and fails on a done context; the limiter keeps its rate.
- Label selector matching, RFC 3339 parsing, DNS-1123 labels, PluralizeKind and the decoding of members that the webhook does not read are parameters, the same wherever they are used. An invalid label selector matches nothing, as in the code.
- validateTTL and validateLabelSelector are uninterpreted checks of parts that the webhook does not touch.
- Floating point: factor, jitter and rates are reals with the code's truncations; rounding and conversions out of int64's range are not modelled.
- The range of Go's time values: instants are unbounded; durations are int64 and wrap.
- Metrics, events, log output and the status object: only the counts that are reported. A status update that fails because its own timeout ran out counts as one that did not fail.
- Completeness.DueIsDeleted: its environment gives no five retryable answers in a row at any time, asked for or not; DueIsHandled assumes nothing about answers.
- Errors are modelled by their class (token refused, retryable, fatal, NotFound), not by their text or wrapping.
- The kind's plural form in traces: an informer is identified by apiVersion, kind and namespace, and the resolution between token and delete is only in GvrResolver.
- Optional parts of the reconciler: it has a status updater and a resolver. (The constructor with a leader check leaves the resolver nil.)
- Reconcilers.Reconciler.ReconcilePolicy: demands a positive batch size of the policy or else of the configuration, for a policy that is found and not paused (as do the laws about runs, for all of them). The code does not check it; BatchLoopEnds says what the batch loop does with any other size.
- Deletion.Deleter.DeleteQueueInBatches: demands that the loop ends, which size zero does not without a cancellation (BatchLoopEnds).
- The overflow of an index in the batch loop, for queues of more than 2^62 resources.
- Backoff.ClosedForm: whole factors only; for other factors truncation at each step has no such form, and RawBounds bounds them.
- Backoff.WaitBound: durations that start within the cap and a jitter that is not negative.
- Safety.EveryDeleteIsAuthorised: ties the listing to the target's own informer when no fetched targets clash, because KeysCanCollide shows that others can share one. The authority is about the object that was listed: the code deletes by namespace and name without its UID, and objects created again under a name are not modelled.
- ReconcilingLaws.SharingIsTransparent: compares runs that both serve the target or both do not; where only one does, the other's reconciliation has the informer's synchronisation among its events.
- EvaluationLaws.PathsAgree: at one instant and without a cancellation; with a moving clock the paths read it at different moments, and ServiceRight and DirectRight hold for each.
- Leader election, health checks, command line and configuration loading.
