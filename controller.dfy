/**
  The controller's blue-green pass as the source runs it: step by step, with
  every effect on the cluster performed through one of the controller's
  methods. The replica sets a step works on are an array that it sorts and
  updates in place; the cluster itself is represented by the ghost `trace`
  of calls made so far, and `issued` numbers them.

  Each method is proved to do exactly what the matching function of module
  BlueGreen describes, so every property proved about those functions holds
  of the controller.
 */
module RolloutController {
  import opened Wrappers
  import opened ReplicaSets
  import opened BlueGreen

  /** sort.Sort(controller.ReplicaSetsByCreationTimestamp(a)): reorder the
      slice in place, oldest first. */
  method SortByCreationTimestamp(a: array<ReplicaSet>)
    modifies a
    ensures a[..] == SortByCreation(old(a[..]))
  {
    var sorted := SortByCreation(a[..]);
    forall j | 0 <= j < a.Length {
      a[j] := sorted[j];
    }
    assert a[..] == sorted;
  }

  // One step of each loop, as the loop bodies below take it.

  lemma EvictFromSkip(s: seq<ReplicaSet>, i: nat, total: nat, k: nat, failing: set<nat>, done: seq<Call>)
    requires i < |s| && (s[i].replicas == 0 || s[i].replicas == s[i].available)
    ensures EvictFrom(s, i, total, k, failing, done) == EvictFrom(s, i + 1, total, k, failing, done)
  {
  }

  lemma EvictFromInvalid(s: seq<ReplicaSet>, i: nat, total: nat, k: nat, failing: set<nat>, done: seq<Call>)
    requires i < |s| && s[i].replicas != 0 && s[i].available > s[i].replicas
    ensures EvictFrom(s, i, total, k, failing, done)
         == EvictOutcome(done, s, i, 0, Some(InvalidScaleDown(s[i].name, s[i].replicas, s[i].available)))
  {
  }

  lemma EvictFromRejected(s: seq<ReplicaSet>, i: nat, total: nat, k: nat, failing: set<nat>, done: seq<Call>)
    requires i < |s| && s[i].replicas != 0 && s[i].available < s[i].replicas && k in failing
    ensures EvictFrom(s, i, total, k, failing, done)
         == EvictOutcome(done + [Scale(s[i], s[i].available, false)], s, i, total, Some(ScaleFailed(s[i].name)))
  {
  }

  lemma EvictFromUpdate(s: seq<ReplicaSet>, i: nat, total: nat, k: nat, failing: set<nat>, done: seq<Call>,
                        updated: ReplicaSet, total': nat)
    requires i < |s| && s[i].replicas != 0 && s[i].available < s[i].replicas && k !in failing
    requires updated == s[i].(replicas := s[i].available) && total' == total + (s[i].replicas - s[i].available)
    ensures EvictFrom(s, i, total, k, failing, done)
         == EvictFrom(s[i := updated], i + 1, total', k + 1, failing, done + [Scale(s[i], s[i].available, true)])
  {
  }

  lemma ScaleDownFromSkip(s: seq<ReplicaSet>, i: nat, total: nat, k: nat, failing: set<nat>, done: seq<Call>)
    requires i < |s| && s[i].replicas == 0
    ensures ScaleDownFrom(s, i, total, k, failing, done) == ScaleDownFrom(s, i + 1, total, k, failing, done)
  {
  }

  lemma ScaleDownFromRejected(s: seq<ReplicaSet>, i: nat, total: nat, k: nat, failing: set<nat>, done: seq<Call>)
    requires i < |s| && s[i].replicas != 0 && k in failing
    ensures ScaleDownFrom(s, i, total, k, failing, done)
         == DownOutcome(done + [Scale(s[i], 0, false)], i, total, Some(ScaleFailed(s[i].name)))
  {
  }

  lemma ScaleDownFromUpdate(s: seq<ReplicaSet>, i: nat, total: nat, k: nat, failing: set<nat>, done: seq<Call>)
    requires i < |s| && s[i].replicas != 0 && k !in failing
    ensures ScaleDownFrom(s, i, total, k, failing, done)
         == ScaleDownFrom(s, i + 1, total + s[i].replicas, k + 1, failing, done + [Scale(s[i], 0, true)])
  {
  }

  /** reconcileOldReplicaSets when eviction fails. */
  lemma ReconcileOldEvictFailed(oldRSs: seq<ReplicaSet>, newRS: ReplicaSet, rolloutReplicas: nat,
                                k: nat, failing: set<nat>)
    requires TotalReplicas(oldRSs) != 0 && Evict(oldRSs, k, failing).err.Some?
    ensures var e := Evict(oldRSs, k, failing);
      && ReconcileOld(oldRSs, newRS, rolloutReplicas, true, k, failing) == StepOutcome(e.calls, false, None)
      && ReconcileOldGroups(oldRSs, newRS, rolloutReplicas, true, k, failing) == e.groups
  {
  }

  /** reconcileOldReplicaSets when eviction succeeds. */
  lemma ReconcileOldEvicted(oldRSs: seq<ReplicaSet>, newRS: ReplicaSet, rolloutReplicas: nat,
                            k: nat, failing: set<nat>)
    requires TotalReplicas(oldRSs) != 0 && Evict(oldRSs, k, failing).err.None?
    ensures var e := Evict(oldRSs, k, failing);
      var d := ScaleDown(e.groups + [newRS], e.groups, rolloutReplicas, k + |e.calls|, failing);
      && ReconcileOld(oldRSs, newRS, rolloutReplicas, true, k, failing)
         == StepOutcome(e.calls + d.calls, d.err.None? && e.total + d.total > 0, None)
      && ReconcileOldGroups(oldRSs, newRS, rolloutReplicas, true, k, failing)
         == if TotalAvailable(e.groups + [newRS]) <= rolloutReplicas then e.groups else SortByCreation(e.groups)
  {
  }

  /** The controller for one rollout: the calls it has made so far. Calls
      into the cluster are numbered from 0; those numbered in `failing` are
      rejected. */
  class Controller {
    /** Numbers of the calls at which a replica set update is rejected. */
    const failing: set<nat>
    /** How many calls the controller has made; the next call gets this number. */
    var issued: nat
    /** Every call the controller has made, in order. */
    ghost var trace: seq<Call>

    constructor (failing: set<nat>)
      ensures this.failing == failing && trace == [] && issued == 0
    {
      this.failing := failing;
      issued := 0;
      trace := [];
    }

    /** A call whose answer comes from a collaborator outside the core. */
    method Perform(c: Call)
      modifies this
      ensures trace == old(trace) + [c] && issued == old(issued) + 1
    {
      trace := trace + [c];
      issued := issued + 1;
    }

    /** scaleReplicaSetAndRecordEvent: ask for `rs` to run `newScale` units. */
    method ScaleReplicaSetAndRecordEvent(rs: ReplicaSet, newScale: nat)
      returns (scaled: bool, updated: ReplicaSet, err: Option<Error>)
      modifies this
      ensures var o := ScaleCall(rs, newScale, old(issued), failing);
        && trace == old(trace) + o.calls
        && scaled == o.changed && err == o.err
      ensures issued == old(issued) + 1
      ensures err.Some? <==> old(issued) in failing
      ensures err == None ==> updated == rs.(replicas := newScale)
    {
      if issued in failing {
        scaled, updated, err := false, rs, Some(ScaleFailed(rs.name));
      } else {
        scaled, updated, err := rs.replicas != newScale, rs.(replicas := newScale), None;
      }
      trace := trace + [Scale(rs, newScale, issued !in failing)];
      issued := issued + 1;
    }

    /** reconcileNewReplicaSet */
    method ReconcileNewReplicaSet(newRS: ReplicaSet, rolloutReplicas: nat, ramp: Result<nat, Error>)
      returns (scaled: bool, err: Option<Error>)
      modifies this
      ensures var o := ReconcileNew(newRS, rolloutReplicas, ramp, old(issued), failing);
        && trace == old(trace) + o.calls
        && issued == old(issued) + |o.calls|
        && scaled == o.changed && err == o.err
    {
      if newRS.replicas == rolloutReplicas {
        return false, None;
      }
      if newRS.replicas > rolloutReplicas {
        var s, _, e := ScaleReplicaSetAndRecordEvent(newRS, rolloutReplicas);
        return s, e;
      }
      match ramp
      case Failure(e) =>
        return false, Some(e);
      case Success(newReplicasCount) =>
        var s, _, e := ScaleReplicaSetAndRecordEvent(newRS, newReplicasCount);
        return s, e;
    }

    /** cleanupUnhealthyReplicas: sort the old replica sets in place, then
        lower each one's desired count to its available count. */
    method CleanupUnhealthyReplicas(oldRSs: array<ReplicaSet>) returns (total: nat, err: Option<Error>)
      modifies this, oldRSs
      ensures var o := Evict(old(oldRSs[..]), old(issued), failing);
        && trace == old(trace) + o.calls
        && issued == old(issued) + |o.calls|
        && oldRSs[..] == o.groups
        && total == o.total && err == o.err
    {
      SortByCreationTimestamp(oldRSs);
      total, err := EvictUnhealthy(oldRSs);
    }

    /** The loop of cleanupUnhealthyReplicas, over the sorted slice. */
    method EvictUnhealthy(oldRSs: array<ReplicaSet>) returns (total: nat, err: Option<Error>)
      modifies this, oldRSs
      ensures var o := EvictFrom(old(oldRSs[..]), 0, 0, old(issued), failing, []);
        && trace == old(trace) + o.calls
        && issued == old(issued) + |o.calls|
        && oldRSs[..] == o.groups
        && total == o.total && err == o.err
    {
      ghost var g := oldRSs[..];
      ghost var o0 := EvictFrom(g, 0, 0, issued, failing, []);
      ghost var t0, k0 := trace, issued;
      ghost var done: seq<Call> := [];
      total := 0;
      var i := 0;
      while i < oldRSs.Length
        invariant 0 <= i <= oldRSs.Length == |g|
        invariant oldRSs[..] == g
        invariant trace == t0 + done && issued == k0 + |done|
        invariant EvictFrom(g, i, total, issued, failing, done) == o0
      {
        var targetRS := oldRSs[i];
        if targetRS.replicas == 0 || targetRS.replicas == targetRS.available {
          EvictFromSkip(g, i, total, issued, failing, done);
        } else {
          if targetRS.available > targetRS.replicas {
            EvictFromInvalid(g, i, total, issued, failing, done);
            return 0, Some(InvalidScaleDown(targetRS.name, targetRS.replicas, targetRS.available));
          }
          var scaledDownCount := targetRS.replicas - targetRS.available;
          var _, updatedOldRS, e := ScaleReplicaSetAndRecordEvent(targetRS, targetRS.available);
          if e.Some? {
            EvictFromRejected(g, i, total, issued - 1, failing, done);
            return total, e;
          }
          EvictFromUpdate(g, i, total, issued - 1, failing, done, updatedOldRS, total + scaledDownCount);
          total := total + scaledDownCount;
          oldRSs[i] := updatedOldRS;
          g := g[i := updatedOldRS];
          done := done + [Scale(targetRS, targetRS.available, true)];
        }
        i := i + 1;
      }
      err := None;
    }

    /** scaleDownOldReplicaSetsForBlueGreen: with surplus available units,
        sort the old replica sets in place and scale each one to zero. */
    method ScaleDownOldReplicaSetsForBlueGreen(allRSs: seq<ReplicaSet>, oldRSs: array<ReplicaSet>,
                                               rolloutReplicas: nat)
      returns (total: nat, err: Option<Error>)
      modifies this, oldRSs
      ensures var o := ScaleDown(allRSs, old(oldRSs[..]), rolloutReplicas, old(issued), failing);
        && trace == old(trace) + o.calls
        && issued == old(issued) + |o.calls|
        && total == o.total && err == o.err
      ensures oldRSs[..] == if TotalAvailable(allRSs) <= rolloutReplicas then old(oldRSs[..])
                            else SortByCreation(old(oldRSs[..]))
    {
      var availablePodCount := TotalAvailable(allRSs);
      if availablePodCount <= rolloutReplicas {
        return 0, None;
      }
      SortByCreationTimestamp(oldRSs);
      total, err := ScaleDownAll(oldRSs);
    }

    /** The loop of scaleDownOldReplicaSetsForBlueGreen, over the sorted
        slice; it changes the cluster but not the slice. */
    method ScaleDownAll(oldRSs: array<ReplicaSet>) returns (total: nat, err: Option<Error>)
      modifies this
      ensures var o := ScaleDownFrom(oldRSs[..], 0, 0, old(issued), failing, []);
        && trace == old(trace) + o.calls
        && issued == old(issued) + |o.calls|
        && total == o.total && err == o.err
    {
      ghost var g := oldRSs[..];
      ghost var o0 := ScaleDownFrom(g, 0, 0, issued, failing, []);
      ghost var t0, k0 := trace, issued;
      ghost var done: seq<Call> := [];
      total := 0;
      var i := 0;
      while i < oldRSs.Length
        invariant 0 <= i <= oldRSs.Length == |g|
        invariant trace == t0 + done && issued == k0 + |done|
        invariant ScaleDownFrom(g, i, total, issued, failing, done) == o0
      {
        var targetRS := oldRSs[i];
        if targetRS.replicas == 0 {
          ScaleDownFromSkip(g, i, total, issued, failing, done);
        } else {
          var scaleDownCount := targetRS.replicas;
          var _, _, e := ScaleReplicaSetAndRecordEvent(targetRS, 0);
          if e.Some? {
            ScaleDownFromRejected(g, i, total, issued - 1, failing, done);
            return total, e;
          }
          ScaleDownFromUpdate(g, i, total, issued - 1, failing, done);
          total := total + scaleDownCount;
          done := done + [Scale(targetRS, 0, true)];
        }
        i := i + 1;
      }
      err := None;
    }

    /** reconcileOldReplicaSets: eviction, then scale-down; an error of
        either is reported as "nothing scaled" and no error. */
    method ReconcileOldReplicaSets(oldRSs: array<ReplicaSet>, newRS: ReplicaSet, rolloutReplicas: nat,
                                   saturated: bool)
      returns (scaled: bool, err: Option<Error>)
      modifies this, oldRSs
      ensures var o := ReconcileOld(old(oldRSs[..]), newRS, rolloutReplicas, saturated, old(issued), failing);
        && trace == old(trace) + o.calls
        && issued == old(issued) + |o.calls|
        && scaled == o.changed && err == o.err
      ensures oldRSs[..] == ReconcileOldGroups(old(oldRSs[..]), newRS, rolloutReplicas, saturated,
                                               old(issued), failing)
    {
      var oldPodsCount := TotalReplicas(oldRSs[..]);
      if oldPodsCount == 0 {
        return false, None;
      }
      if !saturated {
        return false, None;
      }
      scaled, err := CleanupThenScaleDown(oldRSs, newRS, rolloutReplicas);
    }

    /** The part of reconcileOldReplicaSets past its two guards. */
    method CleanupThenScaleDown(oldRSs: array<ReplicaSet>, newRS: ReplicaSet, rolloutReplicas: nat)
      returns (scaled: bool, err: Option<Error>)
      requires TotalReplicas(oldRSs[..]) != 0
      modifies this, oldRSs
      ensures var o := ReconcileOld(old(oldRSs[..]), newRS, rolloutReplicas, true, old(issued), failing);
        && trace == old(trace) + o.calls
        && issued == old(issued) + |o.calls|
        && scaled == o.changed && err == o.err
      ensures oldRSs[..] == ReconcileOldGroups(old(oldRSs[..]), newRS, rolloutReplicas, true,
                                               old(issued), failing)
    {
      ghost var a0, t0, k0 := oldRSs[..], trace, issued;
      ghost var ev := Evict(a0, k0, failing);
      var cleanupCount, e := CleanupUnhealthyReplicas(oldRSs);
      if e.Some? {
        ReconcileOldEvictFailed(a0, newRS, rolloutReplicas, k0, failing);
        return false, None;
      }
      var allRSs := oldRSs[..] + [newRS];
      ghost var t1, k1 := trace, issued;
      ghost var dn := ScaleDown(allRSs, ev.groups, rolloutReplicas, k1, failing);
      ReconcileOldEvicted(a0, newRS, rolloutReplicas, k0, failing);
      var scaledDownCount, e' := ScaleDownOldReplicaSetsForBlueGreen(allRSs, oldRSs, rolloutReplicas);
      assert trace == t0 + (ev.calls + dn.calls);
      if e'.Some? {
        return false, None;
      }
      return cleanupCount + scaledDownCount > 0, None;
    }

    /** rolloutBlueGreen: one pass, in the source's priority order. The
        collaborators' answers for this pass are `env`. */
    method RolloutBlueGreen(r: Rollout, env: Env) returns (err: Option<Error>)
      modifies this
      ensures var p := Pass(r, env, old(issued), failing);
        && trace == old(trace) + p.calls
        && issued == old(issued) + |p.calls|
        && err == p.err
    {
      if env.groups.Failure? {
        return Some(env.groups.error);
      }
      var g := env.groups.value;
      if env.services.Failure? {
        return Some(env.services.error);
      }
      var svc := env.services.value;
      err := ReconcileScaleUpStage(r, env, g, svc);
    }

    /** The part of rolloutBlueGreen once the replica sets and services are known. */
    method ReconcileScaleUpStage(r: Rollout, env: Env, g: Groups, svc: Services) returns (err: Option<Error>)
      modifies this
      ensures var p := ScaleUpStage(r, env, g, svc, old(issued), failing);
        && trace == old(trace) + p.calls
        && issued == old(issued) + |p.calls|
        && err == p.err
    {
      ghost var k0, t0 := issued, trace;
      ghost var up := ReconcileNew(g.newRS, r.replicas, env.ramp, k0, failing);
      // Scale up, if we can.
      var scaledUp, e := ReconcileNewReplicaSet(g.newRS, r.replicas, env.ramp);
      if e.Some? {
        return e;
      }
      if scaledUp {
        Perform(SyncStatus);
        return env.sync;
      }
      assert issued == k0 + |up.calls|;
      ghost var rest := CutoverStage(r, env, g, svc, issued, failing);
      err := ReconcileCutoverStage(r, env, g, svc);
      AppendAssoc(t0, up.calls, rest.calls);
    }

    /** The part of rolloutBlueGreen after the new replica set held still. */
    method ReconcileCutoverStage(r: Rollout, env: Env, g: Groups, svc: Services) returns (err: Option<Error>)
      modifies this
      ensures var p := CutoverStage(r, env, g, svc, old(issued), failing);
        && trace == old(trace) + p.calls
        && issued == old(issued) + |p.calls|
        && err == p.err
    {
      var proceed;
      proceed, err := ReconcileCutovers(r, env, svc);
      if !proceed {
        return err;
      }
      ghost var calls := Cutovers(r, env, svc).calls;
      ghost var t1 := trace;
      err := ReconcileOldStage(r, env, g);
      assert trace == t1 + OldStage(r, env, g, old(issued) + |calls|, failing).calls;
    }

    /** The preview cutover and verification gate, when a preview service
        exists, then the active cutover. Each cutover is one call whose
        answer is in `env`; on a halt, `err` is the pass's result. */
    method ReconcileCutovers(r: Rollout, env: Env, svc: Services) returns (proceed: bool, err: Option<Error>)
      modifies this
      ensures var o := Cutovers(r, env, svc);
        && trace == old(trace) + o.calls
        && issued == old(issued) + |o.calls|
        && proceed == o.Proceed?
        && (o.Halt? ==> err == o.err)
    {
      if svc.preview.Some? {
        Perform(ReconcilePreview);
        if env.previewSwitch.Failure? {
          return false, Some(env.previewSwitch.error);
        }
        if env.previewSwitch.value {
          Perform(SyncStatus);
          return false, env.sync;
        }
        var verifyingPreview := VerifyingPreview(svc.active, r);
        if verifyingPreview {
          Perform(SyncStatus);
          return false, env.sync;
        }
      }
      Perform(ReconcileActive);
      if env.activeSwitch.Failure? {
        return false, Some(env.activeSwitch.error);
      }
      if env.activeSwitch.value {
        Perform(SyncStatus);
        return false, env.sync;
      }
      return true, None;
    }

    /** reconcileOldReplicaSets on a fresh slice holding the old replica
        sets that controller.FilterActiveReplicaSets keeps. */
    method ReconcileActiveOldReplicaSets(g: Groups, active: set<ReplicaSet>, rolloutReplicas: nat,
                                         saturated: bool)
      returns (scaled: bool, err: Option<Error>)
      modifies this
      ensures var o := ReconcileOld(Filter(active, g.oldRSs), g.newRS, rolloutReplicas, saturated,
                                    old(issued), failing);
        && trace == old(trace) + o.calls
        && issued == old(issued) + |o.calls|
        && scaled == o.changed && err == o.err
    {
      var kept := Filter(active, g.oldRSs);
      var activeRSs := new ReplicaSet[|kept|](j requires 0 <= j < |kept| => kept[j]);
      assert activeRSs[..] == kept;
      scaled, err := ReconcileOldReplicaSets(activeRSs, g.newRS, rolloutReplicas, saturated);
    }

    /** The part of rolloutBlueGreen after both cutovers held still. */
    method ReconcileOldStage(r: Rollout, env: Env, g: Groups) returns (err: Option<Error>)
      modifies this
      ensures var p := OldStage(r, env, g, old(issued), failing);
        && trace == old(trace) + p.calls
        && issued == old(issued) + |p.calls|
        && err == p.err
    {
      // Scale down, if we can.
      var scaledDown, e := ReconcileActiveOldReplicaSets(g, env.active, r.replicas, env.saturated);
      if e.Some? {
        return e;
      }
      if scaledDown {
        Perform(SyncStatus);
        return env.sync;
      }

      if env.complete {
        Perform(Cleanup);
        if env.cleanup.Some? {
          return env.cleanup;
        }
      }
      Perform(SyncStatus);
      return env.sync;
    }
  }
}
