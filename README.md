# Blue-green reconciliation pass of the rollout controller

This project models `controller/bluegreen.go` of the argo-rollouts controller in Dafny. That file holds the pass a rollout controller runs each time a blue-green rollout needs reconciling. The pass looks up the rollout's new replica set, its old ones, and its preview and active services. It then runs these steps in a strict priority order:

1. Scale the new replica set towards the rollout's desired count.
2. Switch the preview service, then hold at the verification gate while `status.verifyingPreview` is set.
3. Switch the active service.
4. Shrink the old replica sets. This means evicting unhealthy units first, then setting every old replica set to zero, but only when enough units are available.
5. Clean up old rollouts once the rollout is complete.

The first step that acts, or fails, ends the pass. The old replica sets' step is the exception: when its eviction or scale-down fails, possibly after some updates, it reports no change and no error, so the pass goes on to cleanup and the status sync (`SwallowedErrorPassContinues`). A pass that ends without an error ends by syncing the rollout's status.

The model has two layers:

- **`BlueGreen`** (bluegreen.dfy) describes each step as a function of the observed state. The calls the pass makes into the cluster are an ordered list of `Call`s:
  - an update of a replica set's desired count, accepted or rejected;
  - the preview cutover;
  - the active cutover;
  - the cleanup;
  - the status sync.
- **`RolloutController.Controller`** (controller.dfy) is the controller as the source runs it:
  - it works step by step over arrays of replica sets;
  - it sorts those arrays and updates them in place;
  - it records each call in a ghost `trace` and numbers the calls with `issued`.

  Each method is proved to make exactly the calls, and return exactly the results and array contents, that the matching `BlueGreen` function computes.

Everything the pass learns from code outside this file is an input, the `Env` record:

- the replica sets and services found;
- the ramp value for the new replica set;
- what the two cutovers report;
- saturation;
- the replica sets `FilterActiveReplicaSets` keeps;
- completion;
- the results of cleanup and of the status sync.

Four of these collaborators are also `Call`s in the trace: the two cutovers, the cleanup and the status sync. With the replica set updates, they make up the whole trace. The others (the two lookups, the ramp, saturation, the filter and completion) are only values read from `Env` and leave no entry in the trace.

A rejected replica set update is chosen by call number. `failing` is the set of call numbers at which the update is refused.

Replica sets are `ReplicaSets.ReplicaSet` records: name, creation time, desired count and available count. `sort.Sort(ReplicaSetsByCreationTimestamp(...))` is modelled as an insertion sort by `ReplicaSetsByCreationTimestamp`'s order: creation time, ties broken by name. It is proved to return a permutation of its input in that order, so oldest first. The properties are proved about the functions in `EvictionProofs` (eviction), `OldReplicaSetProofs` (scale-down and the old replica sets' step) and `PassProofs` (the whole pass). Through the method contracts, they hold of the controller too.

## Model

| member | source | states |
|---|---|---|
| BlueGreen.VerifyingPreview | controller/bluegreen.go:82-95 | the gate holds exactly when all three are true: the preview service name is non-empty, the active selector has the unique-label key, and `verifyingPreview` is present and true |
| BlueGreen.ReconcileNew | controller/bluegreen.go:97-114 | at most one call, only ever to the new replica set. At target: no call and no change. Over target: one call, setting it to the target. Under target: one call to the ramp value, or no call and the ramp's error. It reports a change exactly when its call was accepted and moved the count. The only errors are a rejected call and the ramp's error |
| RolloutController.Controller.ReconcileNewReplicaSet | controller/bluegreen.go:97-114 | the method makes exactly the calls of `ReconcileNew`, with the same changed flag and error |
| BlueGreen.ScaleCall | controller/bluegreen.go:105 | one update of a replica set's desired count: exactly one call, to that replica set with the requested count. It fails exactly when its call number is in `failing`, and reports a change exactly when it was accepted and the count differed |
| RolloutController.Controller.Perform | controller/bluegreen.go:43 | a call whose answer comes from a collaborator (a cutover, the cleanup, the status sync): appends that one call to the trace and takes the next call number |
| RolloutController.Controller.ScaleReplicaSetAndRecordEvent | controller/bluegreen.go:105 | one replica set update: appends one call to the trace, fails exactly when its call number is in `failing`, and on success returns the replica set with its new desired count |
| RolloutController.SortByCreationTimestamp | controller/bluegreen.go:151 | the array is reordered in place into `SortByCreation` of its old contents |
| ReplicaSets.SortByCreationPermutes | controller/bluegreen.go:151 | sorting by creation time returns a permutation of its input |
| ReplicaSets.SortByCreationSorted | controller/bluegreen.go:191 | sorting by creation time returns the replica sets oldest first |
| ReplicaSets.SortByCreationOrdered | controller/bluegreen.go:151 | sorting returns the replica sets in `ReplicaSetsByCreationTimestamp`'s order: no replica set sorts (earlier creation, or same time and smaller name) before one ahead of it |
| ReplicaSets.SortTieByName | controller/bluegreen.go:191 | two replica sets created at the same time come out in name order |
| ReplicaSets.TotalReplicasSorted | controller/bluegreen.go:191-207 | sorting does not change the sum of desired counts |
| ReplicaSets.Filter | controller/bluegreen.go:65 | the old replica sets handed to the old replica sets' step are exactly those that are in the kept set |
| EvictionProofs.EvictAll | controller/bluegreen.go:156-178 | the reference eviction that `EvictSucceeds` compares the loop with: every replica set, in order, evicted |
| BlueGreen.EvictFrom | controller/bluegreen.go:156-179 | the eviction loop from index `i` on. It has no ensures of its own; `EvictFromGroups`, `EvictFromCalls`, `EvictFromAccepted`, `EvictFromCallsMade` and `EvictFromTotal` state where it stops, what it writes back, its calls, its total and its error |
| BlueGreen.Evict | controller/bluegreen.go:150-180 | cleanupUnhealthyReplicas: sort, then the loop. It has no ensures of its own; `EvictNeverRaises`, `EvictSucceeds`, `EvictErrorFree`, `EvictPartialProgress`, `EvictCallsShape`, `EvictTargetsOld` and `EvictOldestFirst` state its properties |
| RolloutController.Controller.CleanupUnhealthyReplicas | controller/bluegreen.go:150-180 | sorts the array in place, then runs the eviction loop. Its calls, its total, its error and the array's new contents are those of `Evict` |
| RolloutController.Controller.EvictUnhealthy | controller/bluegreen.go:155-179 | the eviction loop. Its loop invariant ties each iteration to `EvictFrom`: calls, total, error, and the array with each updated replica set written back |
| EvictionProofs.EvictFromGroups | controller/bluegreen.go:156-178 | from any state, the loop stops at index `processed`. Every replica set before the stop is evicted (lowered to its available count); the rest are left alone. It never passes a replica set it would have to raise. It ends without an error exactly when it reaches the end |
| EvictionProofs.EvictFromCalls | controller/bluegreen.go:156-178 | the loop's calls, total and error from any state. A refusal adds no call and reports total 0. A rejected update is the last call and reports the units evicted before it |
| EvictionProofs.EvictFromAccepted | controller/bluegreen.go:172-175 | every call before the stop is accepted, and a stop at a replica set the loop does not refuse is a rejected call |
| EvictionProofs.EvictFromCallsMade | controller/bluegreen.go:156-178 | the calls are the accepted evictions before the stop, then the rejected call if there is one |
| EvictionProofs.EvictFromTotal | controller/bluegreen.go:167-176 | the total is 0 after a refusal, and otherwise the sum of desired minus available over the replica sets evicted. The error names the replica set the loop stopped at |
| EvictionProofs.EvictCallsTargets | controller/bluegreen.go:157-172 | each eviction call lowers a replica set that has unhealthy units to its available count. Over a sorted slice the calls come oldest first |
| EvictionProofs.EvictCallsSplit | controller/bluegreen.go:156-178 | the reference eviction calls and units of a slice are those of its two halves |
| EvictionProofs.EvictNeverRaises | controller/bluegreen.go:167-171 | eviction never raises a desired count. Each replica set is left as it was, or lowered to its available count |
| EvictionProofs.EvictSucceeds | controller/bluegreen.go:156-179 | without an error, the replica sets are `EvictAll` of the sorted slice: every old replica set is evicted, oldest first. The calls are exactly the updates of the replica sets with unhealthy units, and the total is the sum of desired minus available over them |
| EvictionProofs.EvictErrorFree | controller/bluegreen.go:169-175 | eviction succeeds exactly when no old replica set would have to be raised and none of its updates is rejected |
| EvictionProofs.EvictPartialProgress | controller/bluegreen.go:169-175 | on an error, the loop stops at a replica set with unhealthy units. Earlier replica sets keep their updates (no rollback); it and later ones are untouched. A refusal makes no call for it and reports 0. A rejected update is the last call |
| EvictionProofs.EvictCallsShape | controller/bluegreen.go:156-178 | eviction's calls: the accepted updates before the stop, then the rejected one, if any |
| EvictionProofs.EvictTargetsOld | controller/bluegreen.go:172 | every eviction call targets an old replica set and lowers it, strictly, to its available count |
| EvictionProofs.EvictOldestFirst | controller/bluegreen.go:151 | eviction calls are issued oldest first |
| EvictionProofs.EvictionsCount | controller/bluegreen.go:176 | each evicted replica set loses at least one unit, so units evicted are at least the calls made |
| EvictionProofs.EvictOldestFirstExample | controller/bluegreen.go:150-180 | two old replica sets given newest first: only the older, unhealthy one is lowered, and the slice ends sorted |
| BlueGreen.ScaleDownFrom | controller/bluegreen.go:193-210 | the scale-down loop from index `i` on. It has no ensures of its own; `ScaleDownFromShape`, `ScaleDownFromStops` and `ScaleDownFromCallsMade` state where it stops, its calls, its total and its error |
| BlueGreen.ScaleDown | controller/bluegreen.go:183-211 | scaleDownOldReplicaSetsForBlueGreen. It has no ensures of its own; `ScaleDownCallsShape`, `ScaleDownZeroesOld`, `ScaleDownStopsAtRejected`, `ScaleDownTargetsOld` and `ScaleDownOldestFirst` state its properties |
| RolloutController.Controller.ScaleDownOldReplicaSetsForBlueGreen | controller/bluegreen.go:183-211 | the method's calls, total and error are those of `ScaleDown`. The array is sorted in place exactly when there were surplus units |
| RolloutController.Controller.ScaleDownAll | controller/bluegreen.go:193-210 | the scale-down loop. Its invariant ties each iteration to `ScaleDownFrom` |
| OldReplicaSetProofs.ScaleDownFromShape | controller/bluegreen.go:194-210 | from any state, the loop stops at the end, or at the first rejected update, which is its last call. The total is the sum of desired counts it passed |
| OldReplicaSetProofs.ScaleDownFromStops | controller/bluegreen.go:194-210 | where the scale-down loop stops and why, with its total. Every call before the stop is accepted |
| OldReplicaSetProofs.ScaleDownFromCallsMade | controller/bluegreen.go:194-210 | the calls are the accepted zeroings before the stop, then the rejected one if the loop stopped early |
| OldReplicaSetProofs.DownCallsTargets | controller/bluegreen.go:195-202 | each scale-down call sets a replica set with a non-zero desired count to zero |
| OldReplicaSetProofs.DownCallsOrdered | controller/bluegreen.go:191-202 | over a sorted slice, zeroing calls come oldest first |
| OldReplicaSetProofs.DownCallsCount | controller/bluegreen.go:199-207 | each zeroed replica set had at least one unit |
| OldReplicaSetProofs.DownCallsSplit | controller/bluegreen.go:194-208 | the zeroing calls of a slice are those of its two halves |
| OldReplicaSetProofs.ScaleDownZeroesOld | controller/bluegreen.go:184-210 | with surplus and no rejection, every old replica set with desired > 0 is set to zero, oldest first. The total is the sum of the old replica sets' prior desired counts |
| OldReplicaSetProofs.ScaleDownStopsAtRejected | controller/bluegreen.go:202-205 | with surplus, scale-down succeeds exactly when no update is rejected. A rejection ends it after the accepted updates of the older replica sets |
| OldReplicaSetProofs.ScaleDownCallsShape | controller/bluegreen.go:184-210 | with no surplus there are no calls, the total is 0 and there is no error. Otherwise the calls are the accepted zeroings before the stop, then the rejected one, if any |
| OldReplicaSetProofs.ScaleDownTargetsOld | controller/bluegreen.go:184-202 | a call is made only when available units exceed the rollout's count, and every call sets an old replica set with desired > 0 to zero |
| OldReplicaSetProofs.ScaleDownOldestFirst | controller/bluegreen.go:191 | scale-down calls are issued oldest first |
| BlueGreen.ReconcileOld | controller/bluegreen.go:116-147 | the old replica sets' step never reports an error. It makes no call and reports no change when the old replica sets' desired total is 0 or the new replica set is not saturated |
| BlueGreen.ReconcileOldScales | controller/bluegreen.go:116-147 | the old replica sets' step only updates replica sets |
| OldReplicaSetProofs.ReconcileOldChanged | controller/bluegreen.go:117-146 | the step reports a change exactly when it passed both guards, eviction and scale-down both completed, and at least one update was made |
| OldReplicaSetProofs.ReconcileOldTargetsOld | controller/bluegreen.go:131-142 | every update goes to a replica set named like an old one, so a new replica set with a distinct name is never touched |
| OldReplicaSetProofs.EvictKeepsNames | controller/bluegreen.go:177 | the replica sets written back by eviction keep the old replica sets' names |
| OldReplicaSetProofs.SurplusCleanupExample | controller/bluegreen.go:116-147 | one healthy old replica set with surplus units is set to zero, and the step reports a change |
| OldReplicaSetProofs.SwallowedEvictionErrorExample | controller/bluegreen.go:131-134 | an eviction that fails after lowering one replica set keeps that update, yet the step reports no change and no error |
| BlueGreen.ReconcileOldGroups | controller/bluegreen.go:131-142 | the old replica sets' slice after the step: as eviction left it, then sorted in place when scale-down ran. It has no ensures of its own; `Controller.ReconcileOldReplicaSets` ties the array to it, and `EvictNeverRaises` and `EvictKeepsNames` state what eviction leaves |
| RolloutController.Controller.ReconcileOldReplicaSets | controller/bluegreen.go:116-147 | the method's calls, changed flag and error are those of `ReconcileOld`. Its array ends as `ReconcileOldGroups` says |
| RolloutController.Controller.CleanupThenScaleDown | controller/bluegreen.go:131-146 | past the two guards: eviction, then scale-down over the slice eviction left, with both errors swallowed as `ReconcileOld` says |
| RolloutController.Controller.ReconcileActiveOldReplicaSets | controller/bluegreen.go:65 | the old replica sets' step runs on a fresh array of exactly the replica sets `FilterActiveReplicaSets` keeps |
| BlueGreen.Cutovers | controller/bluegreen.go:42-63 | when the cutovers let the pass go on, they made the preview call (if there is a preview service), then the active call |
| BlueGreen.ActiveCutover | controller/bluegreen.go:57-63 | the active cutover lets the pass go on exactly when it reports neither an error nor a switch |
| RolloutController.Controller.ReconcileCutovers | controller/bluegreen.go:42-63 | the method's calls are those of `Cutovers`. It goes on exactly when `Cutovers` proceeds, and otherwise returns the halt's error |
| BlueGreen.Pass | controller/bluegreen.go:22-80 | one pass: the two lookups, then the three stages. It has no ensures of its own; the `PassProofs` lemmas below state its properties |
| BlueGreen.ScaleUpStage | controller/bluegreen.go:31-40 | the pass once the lookups succeeded. It has no ensures of its own; `PassScaleUpStops`, `PassGoesOn` and `ScaleUpStageSyncLast` state its properties |
| BlueGreen.CutoverStage | controller/bluegreen.go:42-63 | the pass after the new replica set held still. It has no ensures of its own; `CutoverHalts`, `CutoverGoesOn` and `CutoverStageSyncLast` state its properties |
| BlueGreen.OldStage | controller/bluegreen.go:64-79 | the pass after both cutovers held still. It has no ensures of its own; `OldStageWritten`, `PassPastActive`, `PassCleanupIff` and `OldStageSyncLast` state its properties |
| RolloutController.Controller.RolloutBlueGreen | controller/bluegreen.go:22-80 | one pass of the controller makes exactly the calls of `Pass`, in order, and returns its error |
| RolloutController.Controller.ReconcileScaleUpStage | controller/bluegreen.go:31-63 | the pass once the lookups succeeded: calls and error of `ScaleUpStage` |
| RolloutController.Controller.ReconcileCutoverStage | controller/bluegreen.go:42-79 | the pass after the new replica set held still: calls and error of `CutoverStage` |
| RolloutController.Controller.ReconcileOldStage | controller/bluegreen.go:64-79 | the pass after both cutovers held still: calls and error of `OldStage` |
| PassProofs.DownScales | controller/bluegreen.go:65 | the old replica sets' step, as the pass runs it, only updates replica sets |
| PassProofs.CutoversProceed | controller/bluegreen.go:42-63 | the cutovers let the pass go on exactly when it reaches the old replica sets' step |
| PassProofs.PassGoesOn | controller/bluegreen.go:33-40 | past the new replica set, the pass is that step's calls followed by the cutover stage |
| PassProofs.PassHalts | controller/bluegreen.go:42-63 | cutovers that halt end the pass with their calls and error |
| PassProofs.PassToOld | controller/bluegreen.go:42-65 | a pass that reaches the old replica sets is the calls before the active cutover, that cutover, and the old replica sets' stage |
| PassProofs.PassPastActive | controller/bluegreen.go:64-79 | past the active cutover, the pass ends in one of four ways: old replica sets scaled then sync; cleanup failed; cleanup then sync; or sync |
| PassProofs.PassScaleUpStops | controller/bluegreen.go:33-40 | a scaled new replica set ends the pass with the status sync. No service cutover is attempted and no other replica set is updated |
| PassProofs.PassPreviewStops | controller/bluegreen.go:42-55 | when a preview service exists and it switches, or the verification gate holds, the pass syncs and stops. No active cutover is attempted and no old replica set is updated |
| PassProofs.PassActiveStops | controller/bluegreen.go:57-63 | a switched active service ends the pass with the sync, before the old replica sets' step |
| PassProofs.PassActiveFails | controller/bluegreen.go:57-60 | a failed active cutover ends the pass with its error |
| PassProofs.PassScaleDownStops | controller/bluegreen.go:64-71 | scaled old replica sets end the pass with the sync. Cleanup does not run |
| PassProofs.PassActiveIff | controller/bluegreen.go:33-57 | the active cutover is attempted exactly when the pass gets past the new replica set, the preview cutover and the verification gate |
| PassProofs.PassPreviewStopsCalls | controller/bluegreen.go:42-55 | a preview service that blocks the pass leaves only the preview call, and at most the sync after it |
| PassProofs.PassBeforeOld | controller/bluegreen.go:22-63 | a pass that stops before the old replica sets' step makes only the new replica set's calls, the cutovers and the sync |
| PassProofs.PassOldUpdatesLast | controller/bluegreen.go:22-71 | every update of a replica set other than the new one comes from the old replica sets' step, which runs only after both cutovers held still. So at most one mutating step acts per pass |
| PassProofs.PassCleanupIff | controller/bluegreen.go:64-77 | cleanup runs exactly when the pass reaches the old replica sets, they did not scale, and the rollout is complete |
| PassProofs.PassSyncLast | controller/bluegreen.go:22-80 | when the status sync is made, it is the pass's last call, made once, and its error is the pass's result. Every pass that ends without an error ends with it |
| PassProofs.SwallowedErrorPassContinues | controller/bluegreen.go:65-79 | an eviction that lowers one old replica set and then fails does not end the pass: the step reports no change and no error, so the pass goes on to cleanup and the status sync |
| PassProofs.FreshRolloutScenario | controller/bluegreen.go:33-40 | a fresh rollout scales its new replica set to the ramp value and stops after the sync |
| PassProofs.OverProvisionedScenario | controller/bluegreen.go:97-107 | an over-provisioned new replica set goes straight to the target, and the pass stops after the sync |

## Left out

- `setVerifyingPreview` (controller/bluegreen.go:213-227) is not part of this model. It only marshals a patch and sends it to the API server.
- The collaborators, whose code is not part of this model, are inputs fixed for the pass in `Env`:
  - `getAllReplicaSetsAndSyncRevision`, `getPreviewAndActiveServices`, `replicasetutil.NewRSNewReplicas`, `reconcilePreviewService` and `reconcileActiveService`;
  - `annotations.IsSaturated`, `controller.FilterActiveReplicaSets`, `conditions.RolloutComplete`, `cleanupRollouts` and `syncRolloutStatus`.

  What they do to the cluster is not modelled. For `reconcilePreviewService`, `reconcileActiveService`, `cleanupRollouts` and `syncRolloutStatus`, the fact and order of the call are recorded in the trace. The other six (`getAllReplicaSetsAndSyncRevision`, `getPreviewAndActiveServices`, `NewRSNewReplicas`, `IsSaturated`, `FilterActiveReplicaSets` and `RolloutComplete`) are values read from `Env`; the trace records neither that they ran nor in what order. In particular, a new replica set that `getAllReplicaSetsAndSyncRevision` creates (it is called with `true` at controller/bluegreen.go:23) does not appear in the trace. `FilterActiveReplicaSets` is the set of replica sets it keeps; the order of the old replica sets is preserved.
- `GetRolloutReplicasOrDefault`: the rollout's `replicas` is the count after its default is applied.
- The body of `scaleReplicaSetAndRecordEvent` is not modelled. The model assumes the following of it:
  - it fails only at the call numbers in `failing`;
  - otherwise it reports a change exactly when the count differs;
  - it returns the replica set with the new desired count.

  It records no event.
- The model assumes `getPreviewAndActiveServices` always returns an active service. `Services.active` is not optional, so the pass with a missing active service is not modelled; the code would dereference it at controller/bluegreen.go:86 without a nil check.
- A service is reduced to the set of keys of its selector. The unique-label key is a constructor of its own rather than the string "rollouts-pod-template-hash".
- Names are compared by code point; Go compares their UTF-8 bytes, which gives the same order on well-formed text. Go's `sort.Sort` is not stable; the model's sort is. The two can differ only on replica sets with the same creation time and the same name.
- Counts are unbounded natural numbers. `int32` overflow of `totalScaledDown` and of the summed counts is not modelled.
- klog logging, event recording, the work queue and concurrency between rollouts are not modelled.
- Idempotence of a second pass, and the capacity safety of scale-down, are not stated. They depend on what the cluster and the oracles answer on the next pass, which the model leaves open.
- The errors of eviction and scale-down are swallowed as the code does (controller/bluegreen.go:132-134 and 140-142). The step reports no change even when some replica sets were already updated, and the pass then goes on to cleanup (when the rollout is complete) and the status sync. `SwallowedEvictionErrorExample` and `SwallowedErrorPassContinues` show one.
