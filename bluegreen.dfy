/**
  The decisions of one blue-green reconciliation pass (controller/bluegreen.go),
  written as functions of the observed state. Every effect the pass has on the
  cluster is listed, in order, as a `Call`; the controller class in
  controller.dfy performs the same calls one by one and is proved to produce
  exactly the lists computed here.

  Fault injection: calls are numbered from the controller's start; `failing`
  is the set of numbers at which a replica set update is rejected, and `k`
  is the number the next call will get.
 */
module BlueGreen {
  import opened Wrappers
  import opened ReplicaSets

  /** The part of a rollout the pass reads. `replicas` is the desired count
      after defaults are applied (`GetRolloutReplicasOrDefault`);
      `verifyingPreview` is the optional `status.verifyingPreview` flag. */
  datatype Rollout = Rollout(replicas: nat, previewService: string, verifyingPreview: Option<bool>)

  /** A key of a service's selector: the key under which services route to
      a pod template hash (`v1alpha1.DefaultRolloutUniqueLabelKey`, whose
      value is "rollouts-pod-template-hash"), or any other key. */
  datatype SelectorKey = UniqueLabelKey | OtherKey(name: string)

  /** A service, reduced to the keys of its selector. */
  datatype Service = Service(selectorKeys: set<SelectorKey>)

  datatype Error =
    | External(reason: string)                     // returned by a collaborator, passed on unchanged
    | ScaleFailed(name: string)                    // the replica set update was rejected
    | InvalidScaleDown(name: string, from: nat, to: nat)

  /** One effect on the cluster. */
  datatype Call =
    | Scale(target: ReplicaSet, to: nat, ok: bool) // scaleReplicaSetAndRecordEvent; ok = the update was accepted
    | ReconcilePreview                             // reconcilePreviewService
    | ReconcileActive                              // reconcileActiveService
    | Cleanup                                      // cleanupRollouts
    | SyncStatus                                   // syncRolloutStatus

  /** The new replica set and the old ones (getAllReplicaSetsAndSyncRevision). */
  datatype Groups = Groups(newRS: ReplicaSet, oldRSs: seq<ReplicaSet>)

  /** The preview service, if configured, and the active one (getPreviewAndActiveServices). */
  datatype Services = Services(preview: Option<Service>, active: Service)

  /** What the collaborators the pass consults answer during this pass. */
  datatype Env = Env(
    groups: Result<Groups, Error>,
    services: Result<Services, Error>,
    ramp: Result<nat, Error>,           // replicasetutil.NewRSNewReplicas
    previewSwitch: Result<bool, Error>, // reconcilePreviewService
    activeSwitch: Result<bool, Error>,  // reconcileActiveService
    saturated: bool,                    // annotations.IsSaturated for the new replica set
    active: set<ReplicaSet>,            // the replica sets controller.FilterActiveReplicaSets keeps
    complete: bool,                     // conditions.RolloutComplete
    cleanup: Option<Error>,             // cleanupRollouts
    sync: Option<Error>)                // syncRolloutStatus

  /** What a step that may scale reports: the calls it made, whether a
      replica set's desired count really changed, and its error. */
  datatype StepOutcome = StepOutcome(calls: seq<Call>, changed: bool, err: Option<Error>)

  // ---------------------------------------------------------------------
  // Verification gate (reconcileVerifyingPreview)

  /** The pass halts on the preview until the verification flag is cleared. */
  function VerifyingPreview(active: Service, r: Rollout): (held: bool)
    ensures held <==>
      && r.previewService != ""
      && UniqueLabelKey in active.selectorKeys
      && r.verifyingPreview == Some(true)
  {
    if r.previewService == "" then false
    else if UniqueLabelKey !in active.selectorKeys then false
    else if r.verifyingPreview.None? then false
    else r.verifyingPreview.value
  }

  // ---------------------------------------------------------------------
  // One update of a replica set's desired count (scaleReplicaSetAndRecordEvent)

  /** Call number `k` asks for `rs` to run `to` units. It fails when `k` is
      in `failing`; when it succeeds it reports a change exactly when the
      count differed. */
  function ScaleCall(rs: ReplicaSet, to: nat, k: nat, failing: set<nat>): (o: StepOutcome)
    ensures o.calls == [Scale(rs, to, k !in failing)]
    ensures o.err.Some? <==> k in failing
    ensures o.changed <==> k !in failing && rs.replicas != to
  {
    if k in failing then StepOutcome([Scale(rs, to, false)], false, Some(ScaleFailed(rs.name)))
    else StepOutcome([Scale(rs, to, true)], rs.replicas != to, None)
  }

  // ---------------------------------------------------------------------
  // New replica set (reconcileNewReplicaSet)

  function ReconcileNew(newRS: ReplicaSet, rolloutReplicas: nat, ramp: Result<nat, Error>,
                        k: nat, failing: set<nat>): (o: StepOutcome)
    // at most one call, and only ever to the new replica set
    ensures |o.calls| <= 1
    ensures forall c | c in o.calls :: c.Scale? && c.target == newRS
    // it reports a change exactly when its one call was accepted and moved the count
    ensures o.changed <==> |o.calls| == 1 && o.calls[0].ok && o.calls[0].to != newRS.replicas
    // the only errors are a rejected call and the ramp's own error
    ensures o.err.None? <==> (forall c | c in o.calls :: c.ok) && !(o.calls == [] && newRS.replicas < rolloutReplicas && ramp.Failure?)
    // at target: nothing to do
    ensures newRS.replicas == rolloutReplicas ==> o.calls == [] && !o.changed
    // over target: straight down to the target
    ensures newRS.replicas > rolloutReplicas ==> |o.calls| == 1 && o.calls[0].to == rolloutReplicas
    // under target: to the ramp value, or no call and the ramp's error
    ensures newRS.replicas < rolloutReplicas ==>
      match ramp
      case Success(n) => |o.calls| == 1 && o.calls[0].to == n
      case Failure(e) => o == StepOutcome([], false, Some(e))
  {
    if newRS.replicas == rolloutReplicas then StepOutcome([], false, None)
    else if newRS.replicas > rolloutReplicas then ScaleCall(newRS, rolloutReplicas, k, failing)
    else
      match ramp
      case Failure(e) => StepOutcome([], false, Some(e))
      case Success(n) => ScaleCall(newRS, n, k, failing)
  }

  // ---------------------------------------------------------------------
  // Unhealthy replicas of old replica sets (cleanupUnhealthyReplicas)

  /** Where the eviction loop stopped and what it did. `groups` is the
      working slice with every replica set it updated replaced by the
      updated one; `processed` is the loop index when it stopped. */
  datatype EvictOutcome = EvictOutcome(calls: seq<Call>, groups: seq<ReplicaSet>, processed: nat,
                                       total: nat, err: Option<Error>)

  /** The eviction loop from index `i` on: `s` is the working slice, `total`
      the units evicted so far, `done` the calls made so far. */
  function EvictFrom(s: seq<ReplicaSet>, i: nat, total: nat, k: nat, failing: set<nat>,
                     done: seq<Call>): (o: EvictOutcome)
    requires i <= |s|
    decreases |s| - i
  {
    if i == |s| then EvictOutcome(done, s, i, total, None)
    else
      var rs := s[i];
      if rs.replicas == 0 || rs.replicas == rs.available then
        EvictFrom(s, i + 1, total, k, failing, done)
      else if rs.available > rs.replicas then
        EvictOutcome(done, s, i, 0, Some(InvalidScaleDown(rs.name, rs.replicas, rs.available)))
      else if k in failing then
        EvictOutcome(done + [Scale(rs, rs.available, false)], s, i, total, Some(ScaleFailed(rs.name)))
      else
        EvictFrom(s[i := rs.(replicas := rs.available)], i + 1, total + (rs.replicas - rs.available),
                  k + 1, failing, done + [Scale(rs, rs.available, true)])
  }

  /** Every call the eviction loop adds updates a replica set. */
  lemma {:induction false} EvictFromScales(s: seq<ReplicaSet>, i: nat, total: nat, k: nat, failing: set<nat>,
                                           done: seq<Call>)
    requires i <= |s|
    ensures forall c | c in EvictFrom(s, i, total, k, failing, done).calls :: c in done || c.Scale?
    decreases |s| - i
  {
    if i < |s| {
      var rs := s[i];
      if rs.replicas == 0 || rs.replicas == rs.available {
        EvictFromScales(s, i + 1, total, k, failing, done);
      } else if rs.available <= rs.replicas && k !in failing {
        EvictFromScales(s[i := rs.(replicas := rs.available)], i + 1, total + (rs.replicas - rs.available),
                        k + 1, failing, done + [Scale(rs, rs.available, true)]);
      }
    }
  }

  /** cleanupUnhealthyReplicas: sort oldest first, then run the loop. */
  function Evict(oldRSs: seq<ReplicaSet>, k: nat, failing: set<nat>): EvictOutcome
  {
    EvictFrom(SortByCreation(oldRSs), 0, 0, k, failing, [])
  }

  // ---------------------------------------------------------------------
  // Scaling old replica sets to zero (scaleDownOldReplicaSetsForBlueGreen)

  datatype DownOutcome = DownOutcome(calls: seq<Call>, processed: nat, total: nat, err: Option<Error>)

  /** The scale-down loop from index `i` on. */
  function ScaleDownFrom(s: seq<ReplicaSet>, i: nat, total: nat, k: nat, failing: set<nat>,
                         done: seq<Call>): (o: DownOutcome)
    requires i <= |s|
    decreases |s| - i
  {
    if i == |s| then DownOutcome(done, i, total, None)
    else if s[i].replicas == 0 then ScaleDownFrom(s, i + 1, total, k, failing, done)
    else if k in failing then
      DownOutcome(done + [Scale(s[i], 0, false)], i, total, Some(ScaleFailed(s[i].name)))
    else ScaleDownFrom(s, i + 1, total + s[i].replicas, k + 1, failing, done + [Scale(s[i], 0, true)])
  }

  /** Every call the scale-down loop adds updates a replica set. */
  lemma {:induction false} ScaleDownFromScales(s: seq<ReplicaSet>, i: nat, total: nat, k: nat, failing: set<nat>,
                                               done: seq<Call>)
    requires i <= |s|
    ensures forall c | c in ScaleDownFrom(s, i, total, k, failing, done).calls :: c in done || c.Scale?
    decreases |s| - i
  {
    if i < |s| {
      if s[i].replicas == 0 {
        ScaleDownFromScales(s, i + 1, total, k, failing, done);
      } else if k !in failing {
        ScaleDownFromScales(s, i + 1, total + s[i].replicas, k + 1, failing, done + [Scale(s[i], 0, true)]);
      }
    }
  }

  /** scaleDownOldReplicaSetsForBlueGreen: only with surplus available
      units, every old replica set goes to zero, oldest first. */
  function ScaleDown(allRSs: seq<ReplicaSet>, oldRSs: seq<ReplicaSet>, rolloutReplicas: nat,
                     k: nat, failing: set<nat>): DownOutcome
  {
    if TotalAvailable(allRSs) <= rolloutReplicas then DownOutcome([], 0, 0, None)
    else ScaleDownFrom(SortByCreation(oldRSs), 0, 0, k, failing, [])
  }

  // ---------------------------------------------------------------------
  // Old replica sets (reconcileOldReplicaSets)

  /** Eviction, then scale-down over the old replica sets as eviction left
      them plus the new one. An error of either step is reported as "nothing
      scaled" and no error (bluegreen.go:132-134 and :140-142). */
  function ReconcileOld(oldRSs: seq<ReplicaSet>, newRS: ReplicaSet, rolloutReplicas: nat,
                        saturated: bool, k: nat, failing: set<nat>): (o: StepOutcome)
    ensures o.err == None
    ensures TotalReplicas(oldRSs) == 0 || !saturated ==> o.calls == [] && !o.changed
  {
    if TotalReplicas(oldRSs) == 0 then StepOutcome([], false, None)
    else if !saturated then StepOutcome([], false, None)
    else
      var e := Evict(oldRSs, k, failing);
      if e.err.Some? then StepOutcome(e.calls, false, None)
      else
        var d := ScaleDown(e.groups + [newRS], e.groups, rolloutReplicas, k + |e.calls|, failing);
        if d.err.Some? then StepOutcome(e.calls + d.calls, false, None)
        else StepOutcome(e.calls + d.calls, e.total + d.total > 0, None)
  }

  /** reconcileOldReplicaSets only updates replica sets: it makes no
      service, cleanup or status call. */
  lemma ReconcileOldScales(oldRSs: seq<ReplicaSet>, newRS: ReplicaSet, rolloutReplicas: nat,
                           saturated: bool, k: nat, failing: set<nat>)
    ensures forall c | c in ReconcileOld(oldRSs, newRS, rolloutReplicas, saturated, k, failing).calls :: c.Scale?
  {
    if TotalReplicas(oldRSs) != 0 && saturated {
      var e := Evict(oldRSs, k, failing);
      EvictFromScales(SortByCreation(oldRSs), 0, 0, k, failing, []);
      if e.err.None? {
        ScaleDownFromScales(SortByCreation(e.groups), 0, 0, k + |e.calls|, failing, []);
      }
    }
  }

  /** The contents of the (sorted in place) slice of old replica sets after
      reconcileOldReplicaSets. */
  function ReconcileOldGroups(oldRSs: seq<ReplicaSet>, newRS: ReplicaSet, rolloutReplicas: nat,
                              saturated: bool, k: nat, failing: set<nat>): seq<ReplicaSet>
  {
    if TotalReplicas(oldRSs) == 0 || !saturated then oldRSs
    else
      var e := Evict(oldRSs, k, failing);
      if e.err.Some? || TotalAvailable(e.groups + [newRS]) <= rolloutReplicas then e.groups
      else SortByCreation(e.groups)
  }

  // ---------------------------------------------------------------------
  // One pass (rolloutBlueGreen)

  datatype PassOutcome = PassOutcome(calls: seq<Call>, err: Option<Error>)

  lemma AppendAssoc(a: seq<Call>, b: seq<Call>, c: seq<Call>)
    ensures a + b + c == a + (b + c)
  {
  }

  /** The calls `pre`, then the rest of the pass. */
  function Then(pre: seq<Call>, rest: PassOutcome): PassOutcome
  {
    PassOutcome(pre + rest.calls, rest.err)
  }

  /** Stop here: sync the status, whose error is the pass's result. */
  function Synced(calls: seq<Call>, env: Env): PassOutcome
  {
    PassOutcome(calls + [SyncStatus], env.sync)
  }

  /** One pass: the new replica set, then the service cutovers, then the old
      replica sets; each stops the pass when it acts or fails. `k` numbers
      the pass's first call. */
  function Pass(r: Rollout, env: Env, k: nat, failing: set<nat>): (p: PassOutcome)
  {
    match env.groups
    case Failure(e) => PassOutcome([], Some(e))
    case Success(g) =>
      match env.services
      case Failure(e) => PassOutcome([], Some(e))
      case Success(svc) => ScaleUpStage(r, env, g, svc, k, failing)
  }

  /** The pass once the replica sets and services are known. */
  function ScaleUpStage(r: Rollout, env: Env, g: Groups, svc: Services, k: nat, failing: set<nat>): PassOutcome
  {
    var up := ReconcileNew(g.newRS, r.replicas, env.ramp, k, failing);
    if up.err.Some? then PassOutcome(up.calls, up.err)
    else if up.changed then Synced(up.calls, env)
    else
      var rest := CutoverStage(r, env, g, svc, k + |up.calls|, failing);
      Then(up.calls, rest)
  }

  /** The pass after the new replica set held still; `k` numbers its first call. */
  function CutoverStage(r: Rollout, env: Env, g: Groups, svc: Services, k: nat, failing: set<nat>): PassOutcome
  {
    match Cutovers(r, env, svc)
    case Halt(calls, err) => PassOutcome(calls, err)
    case Proceed(calls) =>
      var rest := OldStage(r, env, g, k + |calls|, failing);
      Then(calls, rest)
  }

  /** How the service cutovers end: the pass halts with these calls and this
      error, or proceeds to the old replica sets after these calls. */
  datatype CutoverOutcome = Halt(calls: seq<Call>, err: Option<Error>) | Proceed(calls: seq<Call>)

  /** The preview cutover and verification gate, when a preview service
      exists, then the active cutover. Neither updates a replica set. */
  function Cutovers(r: Rollout, env: Env, svc: Services): (o: CutoverOutcome)
    ensures o.Proceed? ==> o.calls == (if svc.preview.Some? then [ReconcilePreview] else []) + [ReconcileActive]
  {
    if svc.preview.None? then ActiveCutover(env, [])
    else
      match env.previewSwitch
      case Failure(e) => Halt([ReconcilePreview], Some(e))
      case Success(switched) =>
        if switched then Halt([ReconcilePreview, SyncStatus], env.sync)
        else if VerifyingPreview(svc.active, r) then Halt([ReconcilePreview, SyncStatus], env.sync)
        else ActiveCutover(env, [ReconcilePreview])
  }

  /** The active cutover, after the calls `before`. */
  function ActiveCutover(env: Env, before: seq<Call>): (o: CutoverOutcome)
    ensures o.Proceed? <==> env.activeSwitch == Success(false)
    ensures o.Proceed? ==> o.calls == before + [ReconcileActive]
  {
    match env.activeSwitch
    case Failure(e) => Halt(before + [ReconcileActive], Some(e))
    case Success(switched) =>
      if switched then Halt(before + [ReconcileActive, SyncStatus], env.sync)
      else Proceed(before + [ReconcileActive])
  }

  /** The pass after both cutovers held still: old replica sets, cleanup
      and the final sync. */
  function OldStage(r: Rollout, env: Env, g: Groups, k: nat, failing: set<nat>): PassOutcome
  {
    var down := ReconcileOld(Filter(env.active, g.oldRSs), g.newRS, r.replicas, env.saturated, k, failing);
    if down.err.Some? then PassOutcome(down.calls, down.err)
    else if down.changed then Synced(down.calls, env)
    else if env.complete then
      if env.cleanup.Some? then PassOutcome(down.calls + [Cleanup], env.cleanup)
      else Synced(down.calls + [Cleanup], env)
    else Synced(down.calls, env)
  }
}
