/**
  Properties of one whole blue-green pass (rolloutBlueGreen): the order of
  its steps, that it stops after the first step that acts, where cleanup and
  the status sync happen, and two of its scenarios.
 */
module PassProofs {
  import opened Wrappers
  import opened ReplicaSets
  import opened BlueGreen
  import opened OldReplicaSetProofs

  // ---------------------------------------------------------------------
  // How far a pass gets

  /** The new replica set's step, as the pass runs it. */
  function Up(r: Rollout, env: Env, k: nat, failing: set<nat>): StepOutcome
    requires env.groups.Success?
  {
    ReconcileNew(env.groups.value.newRS, r.replicas, env.ramp, k, failing)
  }

  /** The lookups succeeded and the new replica set neither failed nor scaled. */
  predicate PastScaleUp(r: Rollout, env: Env, k: nat, failing: set<nat>)
  {
    && env.groups.Success? && env.services.Success?
    && Up(r, env, k, failing).err.None? && !Up(r, env, k, failing).changed
  }

  /** The pass gets to the active cutover: past the new replica set, and, when
      a preview service exists, its cutover did not switch and the
      verification gate is open. */
  predicate ReachesActive(r: Rollout, env: Env, k: nat, failing: set<nat>)
  {
    && PastScaleUp(r, env, k, failing)
    && (env.services.value.preview.Some? ==>
          env.previewSwitch == Success(false) && !VerifyingPreview(env.services.value.active, r))
  }

  /** The pass gets to the old replica sets: the active cutover did not switch either. */
  predicate ReachesOld(r: Rollout, env: Env, k: nat, failing: set<nat>)
  {
    ReachesActive(r, env, k, failing) && env.activeSwitch == Success(false)
  }

  /** The calls made before the active cutover. */
  function BeforeActive(r: Rollout, env: Env, k: nat, failing: set<nat>): seq<Call>
    requires env.groups.Success? && env.services.Success?
  {
    Up(r, env, k, failing).calls + (if env.services.value.preview.Some? then [ReconcilePreview] else [])
  }

  /** reconcileOldReplicaSets, as the pass runs it. */
  function Down(r: Rollout, env: Env, k: nat, failing: set<nat>): StepOutcome
    requires env.groups.Success? && env.services.Success?
  {
    var g := env.groups.value;
    ReconcileOld(Filter(env.active, g.oldRSs), g.newRS, r.replicas, env.saturated,
                 k + |BeforeActive(r, env, k, failing)| + 1, failing)
  }

  /** The old replica sets' step only updates replica sets. */
  lemma DownScales(r: Rollout, env: Env, k: nat, failing: set<nat>)
    requires env.groups.Success? && env.services.Success?
    ensures forall c | c in Down(r, env, k, failing).calls :: c.Scale?
  {
    var g := env.groups.value;
    ReconcileOldScales(Filter(env.active, g.oldRSs), g.newRS, r.replicas, env.saturated,
                       k + |BeforeActive(r, env, k, failing)| + 1, failing);
  }

  /** The cutovers let the pass proceed exactly when it reaches the old
      replica sets' step, and then they made the preview call, if any, and
      the active call. */
  lemma CutoversProceed(r: Rollout, env: Env, k: nat, failing: set<nat>)
    requires PastScaleUp(r, env, k, failing)
    ensures var o := Cutovers(r, env, env.services.value);
      && (o.Proceed? <==> ReachesOld(r, env, k, failing))
      && (o.Proceed? ==> Up(r, env, k, failing).calls + o.calls == BeforeActive(r, env, k, failing) + [ReconcileActive])
  {
  }

  /** Past the new replica set, the pass is the new replica set's calls
      followed by the cutover stage. */
  lemma PassGoesOn(r: Rollout, env: Env, k: nat, failing: set<nat>)
    requires PastScaleUp(r, env, k, failing)
    ensures var up := Up(r, env, k, failing);
      var o := CutoverStage(r, env, env.groups.value, env.services.value, k + |up.calls|, failing);
      Pass(r, env, k, failing) == PassOutcome(up.calls + o.calls, o.err)
  {
  }

  /** Cutovers that halt end the pass with their calls and error. */
  lemma PassHalts(r: Rollout, env: Env, k: nat, failing: set<nat>)
    requires PastScaleUp(r, env, k, failing) && !ReachesOld(r, env, k, failing)
    ensures var o := Cutovers(r, env, env.services.value);
      o.Halt? && Pass(r, env, k, failing) == PassOutcome(Up(r, env, k, failing).calls + o.calls, o.err)
  {
    CutoversProceed(r, env, k, failing);
    PassGoesOn(r, env, k, failing);
    CutoverHalts(r, env, env.groups.value, env.services.value, k + |Up(r, env, k, failing).calls|, failing);
  }

  lemma CutoverHalts(r: Rollout, env: Env, g: Groups, svc: Services, k: nat, failing: set<nat>)
    requires Cutovers(r, env, svc).Halt?
    ensures var o := Cutovers(r, env, svc); CutoverStage(r, env, g, svc, k, failing) == PassOutcome(o.calls, o.err)
  {
  }

  lemma CutoverGoesOn(r: Rollout, env: Env, g: Groups, svc: Services, k: nat, failing: set<nat>)
    requires Cutovers(r, env, svc).Proceed?
    ensures var calls := Cutovers(r, env, svc).calls; var o := OldStage(r, env, g, k + |calls|, failing);
      CutoverStage(r, env, g, svc, k, failing) == PassOutcome(calls + o.calls, o.err)
  {
  }

  /** A pass that reaches the old replica sets is the calls before the
      active cutover, the cutover, and the old replica sets' stage. */
  lemma PassToOld(r: Rollout, env: Env, k: nat, failing: set<nat>)
    requires ReachesOld(r, env, k, failing)
    ensures var o := OldStage(r, env, env.groups.value, k + |BeforeActive(r, env, k, failing)| + 1, failing);
      Pass(r, env, k, failing) == PassOutcome(BeforeActive(r, env, k, failing) + [ReconcileActive] + o.calls, o.err)
  {
    var g, svc := env.groups.value, env.services.value;
    var up := Up(r, env, k, failing);
    var calls := Cutovers(r, env, svc).calls;
    CutoversProceed(r, env, k, failing);
    PassGoesOn(r, env, k, failing);
    CutoverGoesOn(r, env, g, svc, k + |up.calls|, failing);
    assert k + |up.calls| + |calls| == k + |BeforeActive(r, env, k, failing)| + 1;
    AppendAssoc(up.calls, calls, OldStage(r, env, g, k + |up.calls| + |calls|, failing).calls);
  }

  /** The pass past the active cutover, written out. */
  lemma PassPastActive(r: Rollout, env: Env, k: nat, failing: set<nat>)
    requires ReachesOld(r, env, k, failing)
    ensures var p := Pass(r, env, k, failing); var pre := BeforeActive(r, env, k, failing) + [ReconcileActive];
      var down := Down(r, env, k, failing);
      p == if down.changed then PassOutcome(pre + down.calls + [SyncStatus], env.sync)
           else if env.complete && env.cleanup.Some? then PassOutcome(pre + down.calls + [Cleanup], env.cleanup)
           else if env.complete then PassOutcome(pre + down.calls + [Cleanup, SyncStatus], env.sync)
           else PassOutcome(pre + down.calls + [SyncStatus], env.sync)
  {
    var down := Down(r, env, k, failing);
    OldStageWritten(r, env, env.groups.value, k + |BeforeActive(r, env, k, failing)| + 1, failing);
    if down.changed || !env.complete {
      PassEnds(r, env, k, failing, [SyncStatus], env.sync);
    } else if env.cleanup.Some? {
      PassEnds(r, env, k, failing, [Cleanup], env.cleanup);
    } else {
      assert down.calls + [Cleanup] + [SyncStatus] == down.calls + [Cleanup, SyncStatus];
      PassEnds(r, env, k, failing, [Cleanup, SyncStatus], env.sync);
    }
  }

  /** The pass past the active cutover, when the old replica sets' stage
      ends with the calls `tail` and the error `err`. */
  lemma PassEnds(r: Rollout, env: Env, k: nat, failing: set<nat>, tail: seq<Call>, err: Option<Error>)
    requires ReachesOld(r, env, k, failing)
    requires var o := OldStage(r, env, env.groups.value, k + |BeforeActive(r, env, k, failing)| + 1, failing);
      o == PassOutcome(Down(r, env, k, failing).calls + tail, err)
    ensures Pass(r, env, k, failing)
         == PassOutcome(BeforeActive(r, env, k, failing) + [ReconcileActive] + Down(r, env, k, failing).calls + tail, err)
  {
    PassToOld(r, env, k, failing);
    AppendAssoc(BeforeActive(r, env, k, failing) + [ReconcileActive], Down(r, env, k, failing).calls, tail);
  }

  /** The old replica sets' stage, given that their step reports no error. */
  lemma OldStageWritten(r: Rollout, env: Env, g: Groups, k: nat, failing: set<nat>)
    ensures var down := ReconcileOld(Filter(env.active, g.oldRSs), g.newRS, r.replicas, env.saturated, k, failing);
      OldStage(r, env, g, k, failing) ==
        if down.changed then PassOutcome(down.calls + [SyncStatus], env.sync)
        else if env.complete && env.cleanup.Some? then PassOutcome(down.calls + [Cleanup], env.cleanup)
        else if env.complete then PassOutcome(down.calls + [Cleanup] + [SyncStatus], env.sync)
        else PassOutcome(down.calls + [SyncStatus], env.sync)
  {
  }

  // ---------------------------------------------------------------------
  // The pass stops after the first step that acts

  /** A scaled new replica set ends the pass: no service is touched and no
      old replica set is updated; only the status sync follows. */
  lemma PassScaleUpStops(r: Rollout, env: Env, k: nat, failing: set<nat>)
    requires env.groups.Success? && env.services.Success? && Up(r, env, k, failing).changed
    ensures var p := Pass(r, env, k, failing); var newRS := env.groups.value.newRS;
      && p == PassOutcome(Up(r, env, k, failing).calls + [SyncStatus], env.sync)
      && ReconcilePreview !in p.calls && ReconcileActive !in p.calls
      && forall c | c in p.calls && c.Scale? :: c.target == newRS
  {
  }

  /** When a preview service exists and its cutover switches, or the
      verification gate holds, the pass syncs and stops: no active cutover
      and no update of an old replica set. */
  lemma PassPreviewStops(r: Rollout, env: Env, k: nat, failing: set<nat>)
    requires PastScaleUp(r, env, k, failing) && env.services.value.preview.Some?
    requires || env.previewSwitch == Success(true)
             || (env.previewSwitch == Success(false) && VerifyingPreview(env.services.value.active, r))
    ensures var p := Pass(r, env, k, failing); var newRS := env.groups.value.newRS;
      && p == PassOutcome(Up(r, env, k, failing).calls + [ReconcilePreview, SyncStatus], env.sync)
      && ReconcileActive !in p.calls
      && forall c | c in p.calls && c.Scale? :: c.target == newRS
  {
    PassHalts(r, env, k, failing);
    assert ReconcileActive !in Up(r, env, k, failing).calls;
  }

  /** A switched active service ends the pass before any old replica set is touched. */
  lemma PassActiveStops(r: Rollout, env: Env, k: nat, failing: set<nat>)
    requires ReachesActive(r, env, k, failing) && env.activeSwitch == Success(true)
    ensures Pass(r, env, k, failing)
         == PassOutcome(BeforeActive(r, env, k, failing) + [ReconcileActive, SyncStatus], env.sync)
  {
    PassHalts(r, env, k, failing);
    var svc := env.services.value;
    var pre := if svc.preview.Some? then [ReconcilePreview] else [];
    assert Cutovers(r, env, svc).calls == pre + [ReconcileActive, SyncStatus];
    AppendAssoc(Up(r, env, k, failing).calls, pre, [ReconcileActive, SyncStatus]);
  }

  /** A failed active cutover ends the pass with its error. */
  lemma PassActiveFails(r: Rollout, env: Env, k: nat, failing: set<nat>)
    requires ReachesActive(r, env, k, failing) && env.activeSwitch.Failure?
    ensures Pass(r, env, k, failing)
         == PassOutcome(BeforeActive(r, env, k, failing) + [ReconcileActive], Some(env.activeSwitch.error))
  {
    PassHalts(r, env, k, failing);
    var svc := env.services.value;
    var pre := if svc.preview.Some? then [ReconcilePreview] else [];
    assert Cutovers(r, env, svc).calls == pre + [ReconcileActive];
    AppendAssoc(Up(r, env, k, failing).calls, pre, [ReconcileActive]);
  }

  /** Scaled old replica sets end the pass: cleanup does not run and only the
      status sync follows. */
  lemma PassScaleDownStops(r: Rollout, env: Env, k: nat, failing: set<nat>)
    requires ReachesOld(r, env, k, failing) && Down(r, env, k, failing).changed
    ensures var p := Pass(r, env, k, failing);
      && p == PassOutcome(BeforeActive(r, env, k, failing) + [ReconcileActive]
                          + Down(r, env, k, failing).calls + [SyncStatus], env.sync)
      && Cleanup !in p.calls
  {
    PassPastActive(r, env, k, failing);
    DownScales(r, env, k, failing);
    var pre := BeforeActive(r, env, k, failing) + [ReconcileActive];
    assert Cleanup !in Up(r, env, k, failing).calls;
    assert Cleanup !in pre;
  }

  // ---------------------------------------------------------------------
  // Which steps run

  /** The active cutover is attempted exactly when the pass gets past the new
      replica set, the preview cutover and the verification gate. */
  lemma PassActiveIff(r: Rollout, env: Env, k: nat, failing: set<nat>)
    ensures ReconcileActive in Pass(r, env, k, failing).calls <==> ReachesActive(r, env, k, failing)
  {
    var p := Pass(r, env, k, failing);
    if env.groups.Success? && env.services.Success? {
      var up := Up(r, env, k, failing);
      assert ReconcileActive !in up.calls;
      if ReachesActive(r, env, k, failing) {
        var before := BeforeActive(r, env, k, failing);
        if env.activeSwitch == Success(true) {
          PassActiveStops(r, env, k, failing);
          assert p.calls[|before|] == ReconcileActive;
        } else if env.activeSwitch.Failure? {
          PassActiveFails(r, env, k, failing);
          assert p.calls[|before|] == ReconcileActive;
        } else {
          PassPastActive(r, env, k, failing);
          assert p.calls[|before|] == ReconcileActive;
        }
      } else if !PastScaleUp(r, env, k, failing) {
        assert p.calls == up.calls || p.calls == up.calls + [SyncStatus];
      } else {
        PassPreviewStopsCalls(r, env, k, failing);
      }
    }
  }

  /** Past the new replica set, a preview service that blocks the pass
      leaves it with the preview call and at most the sync after it. */
  lemma PassPreviewStopsCalls(r: Rollout, env: Env, k: nat, failing: set<nat>)
    requires PastScaleUp(r, env, k, failing) && !ReachesActive(r, env, k, failing)
    ensures var up := Up(r, env, k, failing); var p := Pass(r, env, k, failing);
      p.calls == up.calls + [ReconcilePreview] || p.calls == up.calls + [ReconcilePreview, SyncStatus]
  {
    var up := Up(r, env, k, failing);
    assert [ReconcilePreview] + [SyncStatus] == [ReconcilePreview, SyncStatus];
  }

  /** A pass that stops before the old replica sets' step makes only the new
      replica set's calls, the two cutovers and the status sync. */
  lemma PassBeforeOld(r: Rollout, env: Env, k: nat, failing: set<nat>)
    requires env.groups.Success? && env.services.Success? && !ReachesOld(r, env, k, failing)
    ensures var p := Pass(r, env, k, failing);
      forall c | c in p.calls :: c in Up(r, env, k, failing).calls || c in [ReconcilePreview, ReconcileActive, SyncStatus]
  {
    var p := Pass(r, env, k, failing);
    var up := Up(r, env, k, failing);
    if ReachesActive(r, env, k, failing) {
      if env.activeSwitch == Success(true) {
        PassActiveStops(r, env, k, failing);
      } else {
        PassActiveFails(r, env, k, failing);
      }
    } else if PastScaleUp(r, env, k, failing) {
      PassPreviewStopsCalls(r, env, k, failing);
    } else {
      assert p.calls == up.calls || p.calls == up.calls + [SyncStatus];
    }
  }

  /** Every update of a replica set other than the new one comes from the
      old replica sets' step, which runs only after both cutovers held still. */
  lemma PassOldUpdatesLast(r: Rollout, env: Env, k: nat, failing: set<nat>)
    ensures var p := Pass(r, env, k, failing);
      forall c | c in p.calls && c.Scale? && c.target != env.groups.value.newRS ::
        ReachesOld(r, env, k, failing) && c in Down(r, env, k, failing).calls
  {
    if env.groups.Success? && env.services.Success? {
      if ReachesOld(r, env, k, failing) {
        OldUpdatesAfterActive(r, env, k, failing);
      } else {
        PassBeforeOld(r, env, k, failing);
      }
    }
  }

  lemma OldUpdatesAfterActive(r: Rollout, env: Env, k: nat, failing: set<nat>)
    requires ReachesOld(r, env, k, failing)
    ensures var p := Pass(r, env, k, failing);
      forall c | c in p.calls && c.Scale? && c.target != env.groups.value.newRS :: c in Down(r, env, k, failing).calls
  {
    PassPastActive(r, env, k, failing);
    var pre := BeforeActive(r, env, k, failing) + [ReconcileActive];
    forall c | c in pre && c.Scale?
      ensures c.target == env.groups.value.newRS
    {
    }
  }

  /** Cleanup runs exactly when the pass gets to the old replica sets, they
      did not scale, and the rollout is complete. */
  lemma PassCleanupIff(r: Rollout, env: Env, k: nat, failing: set<nat>)
    ensures Cleanup in Pass(r, env, k, failing).calls <==>
      ReachesOld(r, env, k, failing) && !Down(r, env, k, failing).changed && env.complete
  {
    if env.groups.Success? && env.services.Success? {
      if ReachesOld(r, env, k, failing) {
        CleanupAfterActive(r, env, k, failing);
      } else {
        PassBeforeOld(r, env, k, failing);
      }
    }
  }

  lemma CleanupAfterActive(r: Rollout, env: Env, k: nat, failing: set<nat>)
    requires ReachesOld(r, env, k, failing)
    ensures Cleanup in Pass(r, env, k, failing).calls <==> !Down(r, env, k, failing).changed && env.complete
  {
    var p := Pass(r, env, k, failing);
    PassPastActive(r, env, k, failing);
    DownScales(r, env, k, failing);
    var pre := BeforeActive(r, env, k, failing) + [ReconcileActive];
    var down := Down(r, env, k, failing);
    assert Cleanup !in Up(r, env, k, failing).calls;
    assert Cleanup !in pre + down.calls;
    if !down.changed && env.complete {
      assert p.calls[|pre + down.calls|] == Cleanup;
    }
  }

  /** The status sync is the pass's last call and is made at most once; when
      it is made, its error is the pass's result; and every pass that ends
      without an error ends with it. */
  lemma PassSyncLast(r: Rollout, env: Env, k: nat, failing: set<nat>)
    ensures var p := Pass(r, env, k, failing);
      && (SyncStatus in p.calls ==>
            && p.calls[|p.calls| - 1] == SyncStatus
            && SyncStatus !in p.calls[..|p.calls| - 1]
            && p.err == env.sync)
      && (p.err.None? ==> SyncStatus in p.calls)
  {
    if env.groups.Success? && env.services.Success? {
      ScaleUpStageSyncLast(r, env, env.groups.value, env.services.value, k, failing);
    }
  }

  /** `p` makes the status sync last, at most once, with its error as the
      result, and makes it whenever it ends without an error. */
  predicate SyncLast(p: PassOutcome, sync: Option<Error>)
  {
    && (SyncStatus in p.calls ==>
          && p.calls[|p.calls| - 1] == SyncStatus
          && SyncStatus !in p.calls[..|p.calls| - 1]
          && p.err == sync)
    && (p.err.None? ==> SyncStatus in p.calls)
  }

  /** Calls without a sync in front of an outcome keep its sync last. */
  lemma SyncLastAfter(pre: seq<Call>, p: PassOutcome, sync: Option<Error>)
    requires SyncStatus !in pre && SyncLast(p, sync)
    ensures SyncLast(Then(pre, p), sync)
  {
    var calls := pre + p.calls;
    if SyncStatus in calls {
      assert SyncStatus in p.calls;
      assert calls[|calls| - 1] == p.calls[|p.calls| - 1];
      assert calls[..|calls| - 1] == pre + p.calls[..|p.calls| - 1];
    }
  }

  /** The step that syncs and stops. */
  lemma SyncedSyncLast(pre: seq<Call>, env: Env)
    requires SyncStatus !in pre
    ensures SyncLast(Synced(pre, env), env.sync)
  {
    SyncLastAfter(pre, PassOutcome([SyncStatus], env.sync), env.sync);
  }

  lemma ScaleUpStageSyncLast(r: Rollout, env: Env, g: Groups, svc: Services, k: nat, failing: set<nat>)
    ensures SyncLast(ScaleUpStage(r, env, g, svc, k, failing), env.sync)
  {
    var up := ReconcileNew(g.newRS, r.replicas, env.ramp, k, failing);
    var p := ScaleUpStage(r, env, g, svc, k, failing);
    assert SyncStatus !in up.calls;
    if up.err.Some? {
      assert p == PassOutcome(up.calls, up.err);
    } else if up.changed {
      assert p == Synced(up.calls, env);
      SyncedSyncLast(up.calls, env);
    } else {
      ScaleUpGoesOnSyncLast(r, env, g, svc, k, failing);
    }
  }

  lemma ScaleUpGoesOnSyncLast(r: Rollout, env: Env, g: Groups, svc: Services, k: nat, failing: set<nat>)
    requires var up := ReconcileNew(g.newRS, r.replicas, env.ramp, k, failing); up.err.None? && !up.changed
    ensures SyncLast(ScaleUpStage(r, env, g, svc, k, failing), env.sync)
  {
    var up := ReconcileNew(g.newRS, r.replicas, env.ramp, k, failing);
    var rest := CutoverStage(r, env, g, svc, k + |up.calls|, failing);
    assert SyncStatus !in up.calls;
    assert ScaleUpStage(r, env, g, svc, k, failing) == Then(up.calls, rest);
    CutoverStageSyncLast(r, env, g, svc, k + |up.calls|, failing);
    SyncLastAfter(up.calls, rest, env.sync);
  }

  lemma CutoverStageSyncLast(r: Rollout, env: Env, g: Groups, svc: Services, k: nat, failing: set<nat>)
    ensures SyncLast(CutoverStage(r, env, g, svc, k, failing), env.sync)
  {
    if Cutovers(r, env, svc).Halt? {
      CutoverHaltSyncLast(r, env, g, svc, k, failing);
    } else {
      CutoverProceedSyncLast(r, env, g, svc, k, failing);
    }
  }

  lemma CutoverHaltSyncLast(r: Rollout, env: Env, g: Groups, svc: Services, k: nat, failing: set<nat>)
    requires Cutovers(r, env, svc).Halt?
    ensures SyncLast(CutoverStage(r, env, g, svc, k, failing), env.sync)
  {
    CutoversSyncLast(r, env, svc);
    CutoverHalts(r, env, g, svc, k, failing);
  }

  lemma CutoverProceedSyncLast(r: Rollout, env: Env, g: Groups, svc: Services, k: nat, failing: set<nat>)
    requires Cutovers(r, env, svc).Proceed?
    ensures SyncLast(CutoverStage(r, env, g, svc, k, failing), env.sync)
  {
    var calls := Cutovers(r, env, svc).calls;
    CutoversSyncLast(r, env, svc);
    OldStageAfterSyncLast(r, env, g, k + |calls|, failing, calls);
  }

  /** The old replica sets' stage keeps the sync last behind calls without one. */
  lemma OldStageAfterSyncLast(r: Rollout, env: Env, g: Groups, k: nat, failing: set<nat>, pre: seq<Call>)
    requires SyncStatus !in pre
    ensures var o := OldStage(r, env, g, k, failing); SyncLast(Then(pre, o), env.sync)
  {
    OldStageSyncLast(r, env, g, k, failing);
    SyncLastAfter(pre, OldStage(r, env, g, k, failing), env.sync);
  }

  /** Cutovers that halt end with the sync or fail without it; cutovers that
      let the pass proceed make no sync. */
  lemma CutoversSyncLast(r: Rollout, env: Env, svc: Services)
    ensures var o := Cutovers(r, env, svc);
      && (o.Halt? ==> SyncLast(PassOutcome(o.calls, o.err), env.sync))
      && (o.Proceed? ==> SyncStatus !in o.calls)
  {
    if svc.preview.None? {
      ActiveCutoverSyncLast(env, []);
    } else if env.previewSwitch.Success? {
      if env.previewSwitch.value || VerifyingPreview(svc.active, r) {
        SyncedSyncLast([ReconcilePreview], env);
      } else {
        ActiveCutoverSyncLast(env, [ReconcilePreview]);
      }
    }
  }

  /** The same for the active cutover after calls without a sync. */
  lemma ActiveCutoverSyncLast(env: Env, before: seq<Call>)
    requires SyncStatus !in before
    ensures var o := ActiveCutover(env, before);
      && (o.Halt? ==> SyncLast(PassOutcome(o.calls, o.err), env.sync))
      && (o.Proceed? ==> SyncStatus !in o.calls)
  {
    if env.activeSwitch == Success(true) {
      SyncedSyncLast(before + [ReconcileActive], env);
      assert before + [ReconcileActive] + [SyncStatus] == before + [ReconcileActive, SyncStatus];
    }
  }

  lemma OldStageSyncLast(r: Rollout, env: Env, g: Groups, k: nat, failing: set<nat>)
    ensures SyncLast(OldStage(r, env, g, k, failing), env.sync)
  {
    var down := ReconcileOld(Filter(env.active, g.oldRSs), g.newRS, r.replicas, env.saturated, k, failing);
    ReconcileOldScales(Filter(env.active, g.oldRSs), g.newRS, r.replicas, env.saturated, k, failing);
    OldStageWritten(r, env, g, k, failing);
    assert SyncStatus !in down.calls + [Cleanup];
    if down.changed || !env.complete {
      SyncedSyncLast(down.calls, env);
    } else if env.cleanup.None? {
      SyncedSyncLast(down.calls + [Cleanup], env);
    }
  }

  // ---------------------------------------------------------------------
  // Scenarios

  /** A fresh rollout of four: a new replica set at zero and no old ones. The
      new replica set goes to the ramp value and the pass stops after the sync. */
  lemma FreshRolloutScenario(r: Rollout, env: Env, newRS: ReplicaSet, ramp: nat)
    requires r.replicas == 4 && newRS.replicas == 0 && newRS.available == 0
    requires env.groups == Success(Groups(newRS, [])) && env.services.Success?
    requires env.ramp == Success(ramp) && ramp > 0
    ensures Pass(r, env, 0, {}) == PassOutcome([Scale(newRS, ramp, true), SyncStatus], env.sync)
  {
  }

  /** An over-provisioned new replica set: five units against a target of
      two go straight to two, the step reports a change, and the pass stops. */
  lemma OverProvisionedScenario(r: Rollout, env: Env, newRS: ReplicaSet)
    requires r.replicas == 2 && newRS.replicas == 5
    requires env.groups.Success? && env.groups.value.newRS == newRS && env.services.Success?
    ensures ReconcileNew(newRS, 2, env.ramp, 0, {}) == StepOutcome([Scale(newRS, 2, true)], true, None)
    ensures Pass(r, env, 0, {}) == PassOutcome([Scale(newRS, 2, true), SyncStatus], env.sync)
  {
  }
  /** A swallowed eviction error does not end the pass. With no preview
      service, a complete rollout and old replica sets B (desired 1,
      available 2) and A (created earlier, desired 3, available 1),
      eviction lowers A to 1 and then refuses B. The old replica sets' step
      reports no change and no error, so the pass goes on to cleanup and the
      status sync (bluegreen.go:131-134, :73-79). */
  lemma SwallowedErrorPassContinues(r: Rollout, env: Env)
    requires r.replicas == 4
    requires env.groups == Success(Groups(ReplicaSet("n", 3, 4, 4), [ReplicaSet("b", 2, 1, 2), ReplicaSet("a", 1, 3, 1)]))
    requires env.services.Success? && env.services.value.preview.None?
    requires env.activeSwitch == Success(false) && env.saturated && env.complete && env.cleanup.None?
    requires ReplicaSet("a", 1, 3, 1) in env.active && ReplicaSet("b", 2, 1, 2) in env.active
    ensures Pass(r, env, 0, {})
         == PassOutcome([ReconcileActive, Scale(ReplicaSet("a", 1, 3, 1), 1, true), Cleanup, SyncStatus], env.sync)
  {
    var a := ReplicaSet("a", 1, 3, 1);
    var b := ReplicaSet("b", 2, 1, 2);
    var n := ReplicaSet("n", 3, 4, 4);
    assert Filter(env.active, [b, a]) == [b, a] by {
      assert [b, a][1..] == [a] && [a][1..] == [];
      assert Filter(env.active, [a]) == [a] + Filter(env.active, []) == [a];
      assert Filter(env.active, [b, a]) == [b] + Filter(env.active, [a]);
    }
    assert SortByCreation([b, a]) == [a, b] by {
      assert [b, a][1..] == [a] && [a][1..] == [];
      assert SortByCreation([a]) == Insert(a, []) == [a];
      assert Insert(b, [a]) == [a] + Insert(b, []) == [a, b];
    }
    assert ReconcileOld([b, a], n, 4, true, 1, {}) == StepOutcome([Scale(a, 1, true)], false, None);
  }
}
