/**
  What scaleDownOldReplicaSetsForBlueGreen and reconcileOldReplicaSets do:
  scale-down removes whole old replica sets only when the available units
  exceed the rollout's replica count, and reconcileOldReplicaSets reports a
  change exactly when eviction and scale-down both completed and made a call.
 */
module OldReplicaSetProofs {
  import opened Wrappers
  import opened ReplicaSets
  import opened BlueGreen
  import opened EvictionProofs

  /** The accepted updates that set every replica set of `s` with a
      non-zero desired count to zero, in order. */
  function DownCalls(s: seq<ReplicaSet>): seq<Call>
  {
    if s == [] then []
    else (if s[0].replicas > 0 then [Scale(s[0], 0, true)] else []) + DownCalls(s[1..])
  }

  /** The names of the replica sets in `s`. */
  function Names(s: seq<ReplicaSet>): set<string>
  {
    set x | x in s :: x.name
  }

  /** The scale-down loop from any state stops at index `processed`: at the
      end, or at the first rejected update, which is its last call. The
      total is the sum of the desired counts it passed. */
  lemma ScaleDownFromShape(s: seq<ReplicaSet>, i: nat, t: nat, k: nat, failing: set<nat>, done: seq<Call>)
    requires i <= |s|
    ensures var o := ScaleDownFrom(s, i, t, k, failing, done); var p := o.processed;
      && i <= p <= |s|
      && (o.err.Some? <==> p < |s|)
      && AllAccepted(k, |DownCalls(s[i..p])|, failing)
      && o.total == t + TotalReplicas(s[i..p])
      && (o.err == None ==> o.calls == done + DownCalls(s[i..p]))
      && (o.err.Some? ==>
            && s[p].replicas > 0
            && o.err == Some(ScaleFailed(s[p].name))
            && k + |DownCalls(s[i..p])| in failing
            && o.calls == done + DownCalls(s[i..p]) + [Scale(s[p], 0, false)])
  {
    ScaleDownFromStops(s, i, t, k, failing, done);
    ScaleDownFromCallsMade(s, i, t, k, failing, done);
  }

  /** Peeling the first replica set off a slice. */
  lemma DownCallsHead(s: seq<ReplicaSet>, i: nat, p: nat)
    requires i < p <= |s|
    ensures DownCalls(s[i..p]) == (if s[i].replicas > 0 then [Scale(s[i], 0, true)] else []) + DownCalls(s[i + 1..p])
    ensures TotalReplicas(s[i..p]) == s[i].replicas + TotalReplicas(s[i + 1..p])
  {
    SliceHead(s, i, p);
  }

  /** Where the loop stops and why, the total, and that every call before
      the stop is accepted. */
  lemma {:induction false} ScaleDownFromStops(s: seq<ReplicaSet>, i: nat, t: nat, k: nat, failing: set<nat>,
                                              done: seq<Call>)
    requires i <= |s|
    ensures var o := ScaleDownFrom(s, i, t, k, failing, done); var p := o.processed;
      && i <= p <= |s|
      && (o.err.Some? <==> p < |s|)
      && AllAccepted(k, |DownCalls(s[i..p])|, failing)
      && o.total == t + TotalReplicas(s[i..p])
      && (o.err.Some? ==>
            && s[p].replicas > 0
            && o.err == Some(ScaleFailed(s[p].name))
            && k + |DownCalls(s[i..p])| in failing)
    decreases |s| - i
  {
    if i < |s| && (s[i].replicas == 0 || k !in failing) {
      var k', t', done' := k, t, done;
      if s[i].replicas > 0 {
        k', t', done' := k + 1, t + s[i].replicas, done + [Scale(s[i], 0, true)];
      }
      ScaleDownFromStops(s, i + 1, t', k', failing, done');
      DownCallsHead(s, i, ScaleDownFrom(s, i + 1, t', k', failing, done').processed);
    }
  }

  /** The calls: the accepted updates before the stop, then the rejected
      one if the loop stopped early. */
  lemma {:induction false} ScaleDownFromCallsMade(s: seq<ReplicaSet>, i: nat, t: nat, k: nat, failing: set<nat>,
                                                  done: seq<Call>)
    requires i <= |s|
    ensures var o := ScaleDownFrom(s, i, t, k, failing, done); var p := o.processed;
      && i <= p <= |s|
      && o.calls == done + DownCalls(s[i..p]) + (if p < |s| then [Scale(s[p], 0, false)] else [])
    decreases |s| - i
  {
    if i < |s| && (s[i].replicas == 0 || k !in failing) {
      var k', t', done' := k, t, done;
      if s[i].replicas > 0 {
        k', t', done' := k + 1, t + s[i].replicas, done + [Scale(s[i], 0, true)];
      }
      ScaleDownFromCallsMade(s, i + 1, t', k', failing, done');
      var p := ScaleDownFrom(s, i + 1, t', k', failing, done').processed;
      DownCallsHead(s, i, p);
      assert done' + DownCalls(s[i + 1..p]) == done + DownCalls(s[i..p]);
    }
  }

  lemma {:induction false} DownCallsTargets(s: seq<ReplicaSet>)
    ensures forall c | c in DownCalls(s) :: c.Scale? && c.ok && c.target in s && c.to == 0 && c.target.replicas > 0
  {
    if s != [] {
      DownCallsTargets(s[1..]);
      forall c | c in DownCalls(s[1..]) ensures c.target in s {
        assert c.target in s[1..];
      }
    }
  }

  lemma {:induction false} DownCallsOrdered(s: seq<ReplicaSet>)
    requires SortedByCreation(s)
    ensures OldestFirst(DownCalls(s))
  {
    if s != [] {
      DownCallsOrdered(s[1..]);
      var rest := DownCalls(s[1..]);
      if s[0].replicas > 0 {
        DownCallsTargets(s[1..]);
        forall c | c in rest ensures s[0].created <= c.target.created {
          var j :| 0 <= j < |s[1..]| && s[1..][j] == c.target;
          assert s[1 + j] == c.target;
        }
        var calls := DownCalls(s);
        assert calls == [Scale(s[0], 0, true)] + rest;
        forall a, b | 0 <= a < b < |calls| && calls[a].Scale? && calls[b].Scale?
          ensures calls[a].target.created <= calls[b].target.created
        {
          if a == 0 {
            assert calls[b] in rest;
          } else {
            assert calls[a] == rest[a - 1] && calls[b] == rest[b - 1];
          }
        }
      }
    }
  }

  /** Each replica set that scale-down zeroes had at least one unit. */
  lemma {:induction false} DownCallsCount(s: seq<ReplicaSet>)
    ensures TotalReplicas(s) >= |DownCalls(s)|
    ensures DownCalls(s) == [] ==> TotalReplicas(s) == 0
  {
    if s != [] {
      DownCallsCount(s[1..]);
    }
  }

  /** With surplus available units and no rejected update, every old
      replica set with a non-zero desired count is set to zero, oldest
      first, and the total is the sum of their prior desired counts. */
  lemma ScaleDownZeroesOld(allRSs: seq<ReplicaSet>, oldRSs: seq<ReplicaSet>, rolloutReplicas: nat,
                           k: nat, failing: set<nat>)
    requires TotalAvailable(allRSs) > rolloutReplicas
    ensures var o := ScaleDown(allRSs, oldRSs, rolloutReplicas, k, failing);
      o.err == None ==>
        && o.calls == DownCalls(SortByCreation(oldRSs))
        && o.total == TotalReplicas(oldRSs)
  {
    var sorted := SortByCreation(oldRSs);
    ScaleDownFromShape(sorted, 0, 0, k, failing, []);
    assert sorted[0..|sorted|] == sorted;
    TotalReplicasSorted(oldRSs);
  }

  /** With surplus available units, scale-down succeeds exactly when none
      of its updates is rejected; a rejected update ends it, after the
      accepted updates of the older replica sets, which stay in place. */
  lemma ScaleDownStopsAtRejected(allRSs: seq<ReplicaSet>, oldRSs: seq<ReplicaSet>, rolloutReplicas: nat,
                                 k: nat, failing: set<nat>)
    requires TotalAvailable(allRSs) > rolloutReplicas
    ensures var o := ScaleDown(allRSs, oldRSs, rolloutReplicas, k, failing);
      var sorted := SortByCreation(oldRSs); var p := o.processed;
      && (o.err == None <==> AllAccepted(k, |DownCalls(sorted)|, failing))
      && (o.err.Some? ==>
            && p < |sorted|
            && o.err == Some(ScaleFailed(sorted[p].name))
            && o.calls == DownCalls(sorted[..p]) + [Scale(sorted[p], 0, false)]
            && o.total == TotalReplicas(sorted[..p]))
  {
    var sorted := SortByCreation(oldRSs);
    var o := ScaleDown(allRSs, oldRSs, rolloutReplicas, k, failing);
    var p := o.processed;
    ScaleDownFromShape(sorted, 0, 0, k, failing, []);
    assert sorted[0..p] == sorted[..p];
    if o.err == None {
      assert sorted[..p] == sorted;
    } else {
      DownCallsSplit(sorted, p);
      assert sorted[p..][0] == sorted[p];
      assert DownCalls(sorted[p..])[0] == Scale(sorted[p], 0, true);
    }
  }

  lemma {:induction false} DownCallsSplit(s: seq<ReplicaSet>, p: nat)
    requires p <= |s|
    ensures DownCalls(s) == DownCalls(s[..p]) + DownCalls(s[p..])
  {
    if p > 0 {
      DownCallsSplit(s[1..], p - 1);
      assert s[1..][..p - 1] == s[..p][1..];
      assert s[1..][p - 1..] == s[p..];
    } else {
      assert s[..p] == [];
      assert s[p..] == s;
    }
  }

  /** The calls scale-down makes: none without surplus (and then it reports
      0 and no error); otherwise the
      accepted updates before the replica set it stopped at, then the
      rejected update of that one if there was one. */
  lemma ScaleDownCallsShape(allRSs: seq<ReplicaSet>, oldRSs: seq<ReplicaSet>, rolloutReplicas: nat,
                            k: nat, failing: set<nat>)
    ensures var o := ScaleDown(allRSs, oldRSs, rolloutReplicas, k, failing);
      var sorted := SortByCreation(oldRSs); var p := o.processed;
      && p <= |sorted|
      && (TotalAvailable(allRSs) <= rolloutReplicas ==> o.calls == [] && o.total == 0 && o.err == None)
      && (o.err.Some? ==> p < |sorted|)
      && (TotalAvailable(allRSs) > rolloutReplicas ==>
            o.calls == if o.err.Some? then DownCalls(sorted[..p]) + [Scale(sorted[p], 0, false)]
                       else DownCalls(sorted[..p]))
      && (o.err.Some? ==> sorted[p].replicas > 0)
  {
    var sorted := SortByCreation(oldRSs);
    var p := ScaleDown(allRSs, oldRSs, rolloutReplicas, k, failing).processed;
    ScaleDownFromShape(sorted, 0, 0, k, failing, []);
    assert sorted[0..p] == sorted[..p];
  }

  /** Scale-down calls go only to old replica sets with a non-zero desired
      count and set each to zero; a call is only ever made when the
      available units exceed the rollout's count. */
  lemma ScaleDownTargetsOld(allRSs: seq<ReplicaSet>, oldRSs: seq<ReplicaSet>, rolloutReplicas: nat,
                            k: nat, failing: set<nat>)
    ensures var o := ScaleDown(allRSs, oldRSs, rolloutReplicas, k, failing);
      && (o.calls != [] ==> TotalAvailable(allRSs) > rolloutReplicas)
      && (forall c | c in o.calls :: c.Scale? && c.target in oldRSs && c.to == 0 && c.target.replicas > 0)
  {
    var o := ScaleDown(allRSs, oldRSs, rolloutReplicas, k, failing);
    ScaleDownCallsShape(allRSs, oldRSs, rolloutReplicas, k, failing);
    if TotalAvailable(allRSs) > rolloutReplicas {
      var sorted := SortByCreation(oldRSs);
      var p := o.processed;
      var prefix := sorted[..p];
      DownCallsTargets(prefix);
      forall c | c in o.calls ensures c.Scale? && c.target in oldRSs && c.to == 0 && c.target.replicas > 0 {
        var j: nat;
        if c in DownCalls(prefix) {
          j :| j < p && prefix[j] == c.target;
        } else {
          j := p;
        }
        assert c.target == sorted[j];
        InSorted(sorted[j], oldRSs);
      }
    }
  }

  /** Scale-down calls are issued oldest first. */
  lemma ScaleDownOldestFirst(allRSs: seq<ReplicaSet>, oldRSs: seq<ReplicaSet>, rolloutReplicas: nat,
                             k: nat, failing: set<nat>)
    ensures OldestFirst(ScaleDown(allRSs, oldRSs, rolloutReplicas, k, failing).calls)
  {
    var o := ScaleDown(allRSs, oldRSs, rolloutReplicas, k, failing);
    ScaleDownCallsShape(allRSs, oldRSs, rolloutReplicas, k, failing);
    if TotalAvailable(allRSs) > rolloutReplicas {
      var sorted := SortByCreation(oldRSs);
      var p := o.processed;
      var prefix := sorted[..p];
      SortByCreationSorted(oldRSs);
      assert SortedByCreation(prefix);
      DownCallsOrdered(prefix);
      if o.err.Some? {
        DownCallsTargets(prefix);
        forall c | c in DownCalls(prefix) && c.Scale? ensures c.target.created <= sorted[p].created {
          var j :| 0 <= j < p && prefix[j] == c.target;
        }
        OldestFirstAppend(DownCalls(prefix), sorted[p], 0, false);
      }
    }
  }

  /** reconcileOldReplicaSets reports a change exactly when it got past
      both guards, eviction and scale-down both completed, and at least
      one replica set was updated. */
  lemma ReconcileOldChanged(oldRSs: seq<ReplicaSet>, newRS: ReplicaSet, rolloutReplicas: nat,
                            saturated: bool, k: nat, failing: set<nat>)
    ensures var o := ReconcileOld(oldRSs, newRS, rolloutReplicas, saturated, k, failing);
      var e := Evict(oldRSs, k, failing);
      var d := ScaleDown(e.groups + [newRS], e.groups, rolloutReplicas, k + |e.calls|, failing);
      o.changed <==>
        && TotalReplicas(oldRSs) > 0 && saturated
        && e.err == None && d.err == None
        && o.calls != []
  {
    var e := Evict(oldRSs, k, failing);
    var d := ScaleDown(e.groups + [newRS], e.groups, rolloutReplicas, k + |e.calls|, failing);
    if TotalReplicas(oldRSs) > 0 && saturated && e.err == None && d.err == None {
      var sorted := SortByCreation(oldRSs);
      EvictSucceeds(oldRSs, k, failing);
      EvictErrorFree(oldRSs, k, failing);
      EvictionsCount(sorted);
      if TotalAvailable(e.groups + [newRS]) > rolloutReplicas {
        ScaleDownZeroesOld(e.groups + [newRS], e.groups, rolloutReplicas, k + |e.calls|, failing);
        TotalReplicasSorted(e.groups);
        DownCallsCount(SortByCreation(e.groups));
      }
    }
  }

  /** The replica sets that eviction leaves keep the names of the old ones. */
  lemma EvictKeepsNames(oldRSs: seq<ReplicaSet>, k: nat, failing: set<nat>)
    ensures forall x | x in Evict(oldRSs, k, failing).groups :: x.name in Names(oldRSs)
  {
    var sorted := SortByCreation(oldRSs);
    var groups := Evict(oldRSs, k, failing).groups;
    EvictNeverRaises(oldRSs, k, failing);
    forall x | x in groups ensures x.name in Names(oldRSs) {
      var j :| 0 <= j < |groups| && groups[j] == x;
      assert x.name == sorted[j].name;
      InSorted(sorted[j], oldRSs);
    }
  }

  lemma EvictCallsNamed(oldRSs: seq<ReplicaSet>, k: nat, failing: set<nat>)
    ensures forall c | c in Evict(oldRSs, k, failing).calls :: c.Scale? && c.target.name in Names(oldRSs)
  {
    EvictTargetsOld(oldRSs, k, failing);
  }

  /** Every update reconcileOldReplicaSets makes goes to a replica set named
      like one of the old ones, so the new replica set, whose name differs
      from theirs, is never touched. */
  lemma ReconcileOldTargetsOld(oldRSs: seq<ReplicaSet>, newRS: ReplicaSet, rolloutReplicas: nat,
                               saturated: bool, k: nat, failing: set<nat>)
    ensures var o := ReconcileOld(oldRSs, newRS, rolloutReplicas, saturated, k, failing);
      && (forall c | c in o.calls :: c.Scale? && c.target.name in Names(oldRSs))
      && (newRS.name !in Names(oldRSs) ==> forall c | c in o.calls :: c.Scale? && c.target.name != newRS.name)
  {
    if TotalReplicas(oldRSs) > 0 && saturated {
      EvictCallsNamed(oldRSs, k, failing);
      if Evict(oldRSs, k, failing).err == None {
        ScaleDownCallsNamed(oldRSs, newRS, rolloutReplicas, k, failing);
      }
    }
  }

  /** The scale-down that follows a successful eviction updates only
      replica sets named like the old ones. */
  lemma ScaleDownCallsNamed(oldRSs: seq<ReplicaSet>, newRS: ReplicaSet, rolloutReplicas: nat,
                            k: nat, failing: set<nat>)
    ensures var e := Evict(oldRSs, k, failing);
      var d := ScaleDown(e.groups + [newRS], e.groups, rolloutReplicas, k + |e.calls|, failing);
      forall c | c in d.calls :: c.Scale? && c.target.name in Names(oldRSs)
  {
    var e := Evict(oldRSs, k, failing);
    ScaleDownTargetsOld(e.groups + [newRS], e.groups, rolloutReplicas, k + |e.calls|, failing);
    EvictKeepsNames(oldRSs, k, failing);
  }

  /** Scenario: new replica set at 4 of 4, one old replica set X at 4 of 4,
      rollout replicas 4. Eight units are available, more than 4, so X is
      set to zero and the step reports a change. */
  lemma SurplusCleanupExample()
    ensures var x := ReplicaSet("x", 1, 4, 4); var n := ReplicaSet("n", 2, 4, 4);
      ReconcileOld([x], n, 4, true, 0, {}) == StepOutcome([Scale(x, 0, true)], true, None)
  {
    var x := ReplicaSet("x", 1, 4, 4);
    var n := ReplicaSet("n", 2, 4, 4);
    assert [x][1..] == [];
    assert SortByCreation([x]) == [x];
    assert TotalReplicas([x]) == 4;
    assert EvictFrom([x], 1, 0, 0, {}, []) == EvictOutcome([], [x], 1, 0, None);
    assert Evict([x], 0, {}) == EvictOutcome([], [x], 1, 0, None);
    assert [x] + [n] == [x, n] && [x, n][1..] == [n] && [n][1..] == [];
    assert TotalAvailable([n]) == 4;
    assert TotalAvailable([x, n]) == 8;
    assert ScaleDownFrom([x], 1, 4, 1, {}, [Scale(x, 0, true)]) == DownOutcome([Scale(x, 0, true)], 1, 4, None);
  }

  /** Scenario for the swallowed error of bluegreen.go:132-134: A (desired
      3, available 1) is lowered to 1, then B (desired 1, available 2)
      would have to be raised. The update of A stays in place, yet the
      step reports that nothing changed. */
  lemma SwallowedEvictionErrorExample()
    ensures var a := ReplicaSet("a", 1, 3, 1); var b := ReplicaSet("b", 2, 1, 2);
      var o := ReconcileOld([b, a], ReplicaSet("n", 3, 4, 4), 4, true, 0, {});
      o.calls == [Scale(a, 1, true)] && !o.changed && o.err == None
  {
    var a := ReplicaSet("a", 1, 3, 1);
    var b := ReplicaSet("b", 2, 1, 2);
    assert SortByCreation([b, a]) == [a, b] by {
      assert [b, a][1..] == [a];
      assert SortByCreation([a]) == [a] by {
        assert [a][1..] == [];
        assert SortByCreation([a]) == Insert(a, []);
      }
      assert Insert(b, [a]) == [a] + Insert(b, []) == [a, b] by {
        assert [a][1..] == [];
      }
    }
  }
}
