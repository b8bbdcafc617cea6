/**
  What the unhealthy-replica eviction of cleanupUnhealthyReplicas does, stated
  against a declarative reference: every old replica set with unhealthy units
  gets its desired count lowered to its available count, oldest first, and the
  loop stops at the first replica set it may not or could not update.
 */
module EvictionProofs {
  import opened Wrappers
  import opened ReplicaSets
  import opened BlueGreen

  /** A replica set from which the loop evicts units (bluegreen.go:157-165). */
  predicate NeedsEviction(rs: ReplicaSet)
  {
    rs.replicas != 0 && rs.replicas != rs.available
  }

  /** A replica set the loop refuses: it would have to raise the desired count. */
  predicate WouldRaise(rs: ReplicaSet)
  {
    NeedsEviction(rs) && rs.available > rs.replicas
  }

  /** The replica set after eviction: desired count lowered to the available count. */
  function Evicted(rs: ReplicaSet): ReplicaSet
  {
    if NeedsEviction(rs) then rs.(replicas := rs.available) else rs
  }

  /** The reference eviction: every replica set of `s`, in order, evicted. */
  function EvictAll(s: seq<ReplicaSet>): (r: seq<ReplicaSet>)
    ensures |r| == |s|
    ensures forall j | 0 <= j < |s| :: r[j] == Evicted(s[j])
  {
    if s == [] then [] else [Evicted(s[0])] + EvictAll(s[1..])
  }

  /** The accepted updates eviction makes over `s`, in order. */
  function EvictCalls(s: seq<ReplicaSet>): seq<Call>
  {
    if s == [] then []
    else (if NeedsEviction(s[0]) then [Scale(s[0], s[0].available, true)] else []) + EvictCalls(s[1..])
  }

  /** Sum of desired minus available over the replica sets eviction modifies. */
  function Evictions(s: seq<ReplicaSet>): int
  {
    if s == [] then 0
    else (if NeedsEviction(s[0]) then s[0].replicas - s[0].available else 0) + Evictions(s[1..])
  }

  /** None of the `n` calls numbered from `k` on is rejected. */
  predicate AllAccepted(k: nat, n: nat, failing: set<nat>)
  {
    forall m | k <= m < k + n :: m !in failing
  }

  lemma SliceHead(s: seq<ReplicaSet>, i: nat, p: nat)
    requires i < p <= |s|
    ensures s[i..p][0] == s[i] && s[i..p][1..] == s[i+1..p]
  {
  }

  /** The loop, from any state, stops at index `processed`, having applied
      the reference eviction to every replica set before it and left the rest
      as they were; it stops before the end only at a replica set with
      unhealthy units, and never passes one it would have had to raise. */
  lemma {:induction false} EvictFromGroups(s: seq<ReplicaSet>, i: nat, t: nat, k: nat, failing: set<nat>,
                                           done: seq<Call>)
    requires i <= |s|
    ensures var o := EvictFrom(s, i, t, k, failing, done); var p := o.processed;
      && i <= p <= |s|
      && |o.groups| == |s|
      && (forall j | 0 <= j < |s| :: o.groups[j] == if i <= j < p then Evicted(s[j]) else s[j])
      && (forall j | i <= j < p :: !WouldRaise(s[j]))
      && (o.err == None <==> p == |s|)
      && (o.err.Some? ==> NeedsEviction(s[p]))
    decreases |s| - i
  {
    if i < |s| {
      var rs := s[i];
      if rs.replicas == 0 || rs.replicas == rs.available {
        EvictFromGroups(s, i + 1, t, k, failing, done);
      } else if rs.available <= rs.replicas && k !in failing {
        var s' := s[i := rs.(replicas := rs.available)];
        EvictFromGroups(s', i + 1, t + (rs.replicas - rs.available), k + 1, failing,
                        done + [Scale(rs, rs.available, true)]);
      }
    }
  }

  /** The calls the loop makes from any state, the total it reports, and
      why it stopped: at a replica set it would have had to raise (no call,
      total 0) or at a rejected update (the accumulated total). */
  lemma EvictFromCalls(s: seq<ReplicaSet>, i: nat, t: nat, k: nat, failing: set<nat>, done: seq<Call>)
    requires i <= |s|
    ensures var o := EvictFrom(s, i, t, k, failing, done); var p := o.processed;
      && i <= p <= |s|
      && (o.err.Some? <==> p < |s|)
      && AllAccepted(k, |EvictCalls(s[i..p])|, failing)
      && (o.err == None ==> o.calls == done + EvictCalls(s[i..p]) && o.total == t + Evictions(s[i..p]))
      && (o.err.Some? && WouldRaise(s[p]) ==>
            && o.err == Some(InvalidScaleDown(s[p].name, s[p].replicas, s[p].available))
            && o.calls == done + EvictCalls(s[i..p])
            && o.total == 0)
      && (o.err.Some? && !WouldRaise(s[p]) ==>
            && o.err == Some(ScaleFailed(s[p].name))
            && k + |EvictCalls(s[i..p])| in failing
            && o.calls == done + EvictCalls(s[i..p]) + [Scale(s[p], s[p].available, false)]
            && o.total == t + Evictions(s[i..p]))
  {
    EvictFromGroups(s, i, t, k, failing, done);
    EvictFromAccepted(s, i, t, k, failing, done);
    EvictFromCallsMade(s, i, t, k, failing, done);
    EvictFromTotal(s, i, t, k, failing, done);
  }

  /** Peeling the first replica set off a slice. */
  lemma EvictCallsHead(s: seq<ReplicaSet>, i: nat, p: nat)
    requires i < p <= |s|
    ensures EvictCalls(s[i..p]) ==
      (if NeedsEviction(s[i]) then [Scale(s[i], s[i].available, true)] else []) + EvictCalls(s[i + 1..p])
    ensures Evictions(s[i..p]) ==
      (if NeedsEviction(s[i]) then s[i].replicas - s[i].available else 0) + Evictions(s[i + 1..p])
  {
    SliceHead(s, i, p);
  }

  /** An update in place at `i` leaves the slices after `i` alone. */
  lemma UpdateKeepsTail(s: seq<ReplicaSet>, i: nat, rs: ReplicaSet, p: nat)
    requires i < p <= |s|
    ensures s[i := rs][i + 1..p] == s[i + 1..p]
    ensures p < |s| ==> s[i := rs][p] == s[p]
  {
  }

  /** Every call before the stop is accepted; a stop at a replica set the
      loop does not refuse outright is a rejected call. */
  lemma {:induction false} EvictFromAccepted(s: seq<ReplicaSet>, i: nat, t: nat, k: nat, failing: set<nat>,
                                             done: seq<Call>)
    requires i <= |s|
    ensures var o := EvictFrom(s, i, t, k, failing, done); var p := o.processed;
      && i <= p <= |s|
      && AllAccepted(k, |EvictCalls(s[i..p])|, failing)
      && (p < |s| && !WouldRaise(s[p]) ==> k + |EvictCalls(s[i..p])| in failing)
    decreases |s| - i
  {
    if i < |s| {
      var rs := s[i];
      if rs.replicas == 0 || rs.replicas == rs.available {
        EvictFromAccepted(s, i + 1, t, k, failing, done);
        var p := EvictFrom(s, i + 1, t, k, failing, done).processed;
        EvictCallsHead(s, i, p);
      } else if rs.available <= rs.replicas && k !in failing {
        var s' := s[i := rs.(replicas := rs.available)];
        EvictFromAccepted(s', i + 1, t + (rs.replicas - rs.available), k + 1, failing,
                          done + [Scale(rs, rs.available, true)]);
        var p := EvictFrom(s', i + 1, t + (rs.replicas - rs.available), k + 1, failing,
                           done + [Scale(rs, rs.available, true)]).processed;
        EvictCallsHead(s, i, p);
        UpdateKeepsTail(s, i, rs.(replicas := rs.available), p);
      }
    }
  }

  /** The rejected call the eviction loop ends with when it stops at `p`
      on a replica set it does not refuse outright. */
  function RejectedAt(s: seq<ReplicaSet>, p: nat): seq<Call>
    requires p <= |s|
  {
    if p < |s| && !WouldRaise(s[p]) then [Scale(s[p], s[p].available, false)] else []
  }

  /** The calls: the accepted evictions before the stop, then the rejected
      call if the loop stopped at one. */
  lemma {:induction false} EvictFromCallsMade(s: seq<ReplicaSet>, i: nat, t: nat, k: nat, failing: set<nat>,
                                              done: seq<Call>)
    requires i <= |s|
    ensures var o := EvictFrom(s, i, t, k, failing, done); var p := o.processed;
      && i <= p <= |s|
      && o.calls == done + EvictCalls(s[i..p]) + RejectedAt(s, p)
    decreases |s| - i
  {
    if i < |s| {
      var rs := s[i];
      if rs.replicas == 0 || rs.replicas == rs.available {
        EvictFromCallsMade(s, i + 1, t, k, failing, done);
        var p := EvictFrom(s, i + 1, t, k, failing, done).processed;
        EvictCallsHead(s, i, p);
      } else if rs.available <= rs.replicas && k !in failing {
        var s' := s[i := rs.(replicas := rs.available)];
        var c := Scale(rs, rs.available, true);
        EvictFromCallsMade(s', i + 1, t + (rs.replicas - rs.available), k + 1, failing, done + [c]);
        var p := EvictFrom(s', i + 1, t + (rs.replicas - rs.available), k + 1, failing, done + [c]).processed;
        EvictedCallsMade(s, i, p, done);
      }
    }
  }

  /** The calls after an eviction at `i`, seen from the slice before it. */
  lemma EvictedCallsMade(s: seq<ReplicaSet>, i: nat, p: nat, done: seq<Call>)
    requires i < p <= |s| && NeedsEviction(s[i]) && !WouldRaise(s[i])
    ensures var s' := s[i := s[i].(replicas := s[i].available)];
      done + [Scale(s[i], s[i].available, true)] + EvictCalls(s'[i + 1..p]) + RejectedAt(s', p)
        == done + EvictCalls(s[i..p]) + RejectedAt(s, p)
  {
    var rs := s[i];
    var c := Scale(rs, rs.available, true);
    EvictCallsHead(s, i, p);
    UpdateKeepsTail(s, i, rs.(replicas := rs.available), p);
    assert done + [c] + EvictCalls(s[i + 1..p]) == done + EvictCalls(s[i..p]);
  }

  /** The error and the total: a refusal reports total 0, anything else the
      units evicted before the stop. */
  lemma {:induction false} EvictFromTotal(s: seq<ReplicaSet>, i: nat, t: nat, k: nat, failing: set<nat>,
                                          done: seq<Call>)
    requires i <= |s|
    ensures var o := EvictFrom(s, i, t, k, failing, done); var p := o.processed;
      && i <= p <= |s|
      && o.total == (if p < |s| && WouldRaise(s[p]) then 0 else t + Evictions(s[i..p]))
      && (p < |s| ==> o.err == if WouldRaise(s[p]) then Some(InvalidScaleDown(s[p].name, s[p].replicas, s[p].available))
                                else Some(ScaleFailed(s[p].name)))
    decreases |s| - i
  {
    if i < |s| {
      var rs := s[i];
      if rs.replicas == 0 || rs.replicas == rs.available {
        EvictFromTotal(s, i + 1, t, k, failing, done);
        var p := EvictFrom(s, i + 1, t, k, failing, done).processed;
        EvictCallsHead(s, i, p);
      } else if rs.available <= rs.replicas && k !in failing {
        var s' := s[i := rs.(replicas := rs.available)];
        EvictFromTotal(s', i + 1, t + (rs.replicas - rs.available), k + 1, failing,
                       done + [Scale(rs, rs.available, true)]);
        var p := EvictFrom(s', i + 1, t + (rs.replicas - rs.available), k + 1, failing,
                           done + [Scale(rs, rs.available, true)]).processed;
        EvictCallsHead(s, i, p);
        UpdateKeepsTail(s, i, rs.(replicas := rs.available), p);
      }
    }
  }

  lemma {:induction false} EvictCallsSplit(s: seq<ReplicaSet>, p: nat)
    requires p <= |s|
    ensures EvictCalls(s) == EvictCalls(s[..p]) + EvictCalls(s[p..])
    ensures Evictions(s) == Evictions(s[..p]) + Evictions(s[p..])
  {
    if p > 0 {
      EvictCallsSplit(s[1..], p - 1);
      assert s[1..][..p - 1] == s[..p][1..];
      assert s[1..][p - 1..] == s[p..];
    } else {
      assert s[..p] == [];
      assert s[p..] == s;
    }
  }

  /** Every accepted eviction call lowers a replica set of `s` that has
      unhealthy units to its available count, and the calls follow the
      order of `s`. */
  lemma {:induction false} EvictCallsTargets(s: seq<ReplicaSet>)
    ensures forall c | c in EvictCalls(s) ::
      c.Scale? && c.ok && c.target in s && NeedsEviction(c.target) && c.to == c.target.available
    ensures SortedByCreation(s) ==> OldestFirst(EvictCalls(s))
  {
    if s != [] {
      EvictCallsTargets(s[1..]);
      var rest := EvictCalls(s[1..]);
      forall c | c in rest ensures c.target in s {
        assert c.target in s[1..];
      }
      if SortedByCreation(s) {
        assert SortedByCreation(s[1..]);
        forall c | c in rest ensures s[0].created <= c.target.created {
          var j :| 0 <= j < |s[1..]| && s[1..][j] == c.target;
          assert s[1 + j] == c.target;
        }
        if NeedsEviction(s[0]) {
          var calls := EvictCalls(s);
          assert calls == [Scale(s[0], s[0].available, true)] + rest;
          forall a, b | 0 <= a < b < |calls| && calls[a].Scale? && calls[b].Scale?
            ensures calls[a].target.created <= calls[b].target.created
          {
            if a == 0 {
              assert calls[b] in rest;
            } else {
              assert calls[a] == rest[a - 1] && calls[b] == rest[b - 1];
            }
          }
        }
      }
    }
  }

  /** Eviction only ever lowers a desired count: each replica set of the
      sorted slice is either left as it was or lowered to its available
      count, and its name and creation time are kept. */
  lemma EvictNeverRaises(oldRSs: seq<ReplicaSet>, k: nat, failing: set<nat>)
    ensures var o := Evict(oldRSs, k, failing); var sorted := SortByCreation(oldRSs);
      && |o.groups| == |oldRSs|
      && forall j | 0 <= j < |o.groups| ::
           && o.groups[j].replicas <= sorted[j].replicas
           && (o.groups[j] == sorted[j] ||
               (o.groups[j] == sorted[j].(replicas := sorted[j].available) && sorted[j].available < sorted[j].replicas))
  {
    EvictFromGroups(SortByCreation(oldRSs), 0, 0, k, failing, []);
  }

  /** Without an error, eviction is the reference eviction of every old
      replica set, oldest first; the calls are exactly the accepted updates
      of the replica sets with unhealthy units, and the total is the sum of
      desired minus available over them. */
  lemma EvictSucceeds(oldRSs: seq<ReplicaSet>, k: nat, failing: set<nat>)
    ensures var o := Evict(oldRSs, k, failing); var sorted := SortByCreation(oldRSs);
      o.err == None ==>
        && o.groups == EvictAll(sorted)
        && o.calls == EvictCalls(sorted)
        && o.total == Evictions(sorted)
  {
    var sorted := SortByCreation(oldRSs);
    var o := Evict(oldRSs, k, failing);
    EvictFromGroups(sorted, 0, 0, k, failing, []);
    EvictFromCalls(sorted, 0, 0, k, failing, []);
    assert sorted[0..|sorted|] == sorted;
    if o.err == None {
      assert o.groups == EvictAll(sorted);
    }
  }

  /** Eviction succeeds exactly when no old replica set would have to be
      raised and none of its updates is rejected. */
  lemma EvictErrorFree(oldRSs: seq<ReplicaSet>, k: nat, failing: set<nat>)
    ensures var o := Evict(oldRSs, k, failing); var sorted := SortByCreation(oldRSs);
      o.err == None <==>
        (forall j | 0 <= j < |sorted| :: !WouldRaise(sorted[j])) && AllAccepted(k, |EvictCalls(sorted)|, failing)
  {
    var sorted := SortByCreation(oldRSs);
    var o := Evict(oldRSs, k, failing);
    var p := o.processed;
    assert p <= |sorted| && (o.err == None <==> p == |sorted|) && (forall j | 0 <= j < p :: !WouldRaise(sorted[j]))
      && (o.err.Some? ==> NeedsEviction(sorted[p])) by {
      EvictFromGroups(sorted, 0, 0, k, failing, []);
    }
    assert AllAccepted(k, |EvictCalls(sorted[..p])|, failing)
      && (o.err.Some? && !WouldRaise(sorted[p]) ==> k + |EvictCalls(sorted[..p])| in failing) by {
      EvictFromCalls(sorted, 0, 0, k, failing, []);
      assert sorted[0..p] == sorted[..p];
    }
    if o.err == None {
      assert sorted[..p] == sorted;
    } else if !WouldRaise(sorted[p]) {
      EvictCallsSplit(sorted, p);
      assert sorted[p..][0] == sorted[p];
      assert EvictCalls(sorted[p..])[0] == Scale(sorted[p], sorted[p].available, true);
    }
  }

  /** An error stops eviction at the replica set being processed. A
      replica set that would have to be raised gets no call and the total
      is 0; a rejected update is the last call and the total counts the
      earlier ones. Either way the replica sets before it keep their
      accepted updates, and it and the later ones are untouched. */
  lemma EvictPartialProgress(oldRSs: seq<ReplicaSet>, k: nat, failing: set<nat>)
    ensures var o := Evict(oldRSs, k, failing); var sorted := SortByCreation(oldRSs); var p := o.processed;
      o.err.Some? ==>
        && p < |sorted|
        && NeedsEviction(sorted[p])
        && |o.groups| == |sorted|
        && (forall j | 0 <= j < p :: o.groups[j] == Evicted(sorted[j]))
        && (forall j | p <= j < |sorted| :: o.groups[j] == sorted[j])
        && (o.err.value.InvalidScaleDown? ==>
              && sorted[p].available > sorted[p].replicas
              && o.calls == EvictCalls(sorted[..p])
              && o.total == 0)
        && (o.err.value.ScaleFailed? ==>
              && sorted[p].available < sorted[p].replicas
              && k + |EvictCalls(sorted[..p])| in failing
              && o.calls == EvictCalls(sorted[..p]) + [Scale(sorted[p], sorted[p].available, false)]
              && o.total == Evictions(sorted[..p]))
  {
    var sorted := SortByCreation(oldRSs);
    EvictFromGroups(sorted, 0, 0, k, failing, []);
    EvictFromCalls(sorted, 0, 0, k, failing, []);
    var p := Evict(oldRSs, k, failing).processed;
    assert sorted[0..p] == sorted[..p];
  }

  /** Scale calls in `calls` are issued oldest first. */
  predicate OldestFirst(calls: seq<Call>)
  {
    forall a, b | 0 <= a < b < |calls| && calls[a].Scale? && calls[b].Scale? ::
      calls[a].target.created <= calls[b].target.created
  }

  lemma OldestFirstAppend(calls: seq<Call>, last: ReplicaSet, to: nat, ok: bool)
    requires OldestFirst(calls)
    requires forall c | c in calls && c.Scale? :: c.target.created <= last.created
    ensures OldestFirst(calls + [Scale(last, to, ok)])
  {
    var all := calls + [Scale(last, to, ok)];
    forall a, b | 0 <= a < b < |all| && all[a].Scale? && all[b].Scale?
      ensures all[a].target.created <= all[b].target.created
    {
      assert all[a] == calls[a];
      if b < |calls| {
        assert all[b] == calls[b];
      }
    }
  }

  /** The calls eviction makes: the accepted updates before the replica set
      it stopped at, then the rejected update of that one if there was one. */
  lemma EvictCallsShape(oldRSs: seq<ReplicaSet>, k: nat, failing: set<nat>)
    ensures var o := Evict(oldRSs, k, failing); var sorted := SortByCreation(oldRSs); var p := o.processed;
      && p <= |sorted|
      && (forall j | 0 <= j < p :: !WouldRaise(sorted[j]))
      && (o.err.Some? ==> p < |sorted| && NeedsEviction(sorted[p]))
      && o.calls == if o.err.Some? && !WouldRaise(sorted[p])
                    then EvictCalls(sorted[..p]) + [Scale(sorted[p], sorted[p].available, false)]
                    else EvictCalls(sorted[..p])
  {
    var sorted := SortByCreation(oldRSs);
    var p := Evict(oldRSs, k, failing).processed;
    EvictFromGroups(sorted, 0, 0, k, failing, []);
    EvictFromCalls(sorted, 0, 0, k, failing, []);
    assert sorted[0..p] == sorted[..p];
  }

  /** Eviction calls go only to old replica sets, each lowering one to its
      available count. */
  lemma EvictTargetsOld(oldRSs: seq<ReplicaSet>, k: nat, failing: set<nat>)
    ensures var o := Evict(oldRSs, k, failing);
      forall c | c in o.calls ::
        c.Scale? && c.target in oldRSs && c.to == c.target.available && c.to < c.target.replicas
  {
    var sorted := SortByCreation(oldRSs);
    var o := Evict(oldRSs, k, failing);
    var p := o.processed;
    EvictCallsShape(oldRSs, k, failing);
    var prefix := sorted[..p];
    EvictCallsTargets(prefix);
    forall c | c in o.calls
      ensures c.Scale? && c.target in oldRSs && c.to == c.target.available && c.to < c.target.replicas
    {
      var j: nat;
      if c in EvictCalls(prefix) {
        j :| j < p && prefix[j] == c.target;
      } else {
        j := p;
      }
      assert c.target == sorted[j] && !WouldRaise(sorted[j]);
      InSorted(sorted[j], oldRSs);
    }
  }

  lemma InSorted(x: ReplicaSet, s: seq<ReplicaSet>)
    requires x in SortByCreation(s)
    ensures x in s
  {
    SortByCreationPermutes(s);
    assert x in multiset(SortByCreation(s));
  }

  /** Eviction calls are issued oldest first. */
  lemma EvictOldestFirst(oldRSs: seq<ReplicaSet>, k: nat, failing: set<nat>)
    ensures OldestFirst(Evict(oldRSs, k, failing).calls)
  {
    var sorted := SortByCreation(oldRSs);
    var o := Evict(oldRSs, k, failing);
    var p := o.processed;
    EvictCallsShape(oldRSs, k, failing);
    var prefix := sorted[..p];
    var calls := EvictCalls(prefix);
    SortByCreationSorted(oldRSs);
    assert SortedByCreation(prefix);
    EvictCallsTargets(prefix);
    if o.err.Some? && !WouldRaise(sorted[p]) {
      forall c | c in calls && c.Scale? ensures c.target.created <= sorted[p].created {
        var j :| 0 <= j < p && prefix[j] == c.target;
      }
      OldestFirstAppend(calls, sorted[p], sorted[p].available, false);
    }
  }

  /** Each replica set eviction lowers loses at least one unit. */
  lemma {:induction false} EvictionsCount(s: seq<ReplicaSet>)
    requires forall j | 0 <= j < |s| :: !WouldRaise(s[j])
    ensures Evictions(s) >= |EvictCalls(s)|
    ensures EvictCalls(s) == [] ==> Evictions(s) == 0
  {
    if s != [] {
      EvictionsCount(s[1..]);
    }
  }

  /** Scenario: A (created first, desired 3, available 1) and B (created
      later, desired 2, available 2), given newest first. Eviction lowers A
      to 1 and leaves B alone. */
  lemma EvictOldestFirstExample()
    ensures var a := ReplicaSet("a", 1, 3, 1); var b := ReplicaSet("b", 2, 2, 2);
      Evict([b, a], 0, {}) == EvictOutcome([Scale(a, 1, true)], [a.(replicas := 1), b], 2, 2, None)
  {
    var a := ReplicaSet("a", 1, 3, 1);
    var b := ReplicaSet("b", 2, 2, 2);
    assert SortByCreation([b, a]) == [a, b] by {
      assert [b, a][1..] == [a];
      assert SortByCreation([a]) == [a] by {
        assert [a][1..] == [];
        assert SortByCreation([a]) == Insert(a, []);
      }
      assert Insert(b, [a]) == [a] + Insert(b, []) == [a, b] by {
        assert [a][1..] == [];
      }
      assert [a][1..] == [];
    }
    var s' := [a.(replicas := 1), b];
    var calls := [Scale(a, 1, true)];
    assert [a, b][0 := a.(replicas := 1)] == s';
    assert EvictFrom(s', 2, 2, 1, {}, calls) == EvictOutcome(calls, s', 2, 2, None);
    assert EvictFrom(s', 1, 2, 1, {}, calls) == EvictOutcome(calls, s', 2, 2, None);
    assert [] + calls == calls;
    assert EvictFrom([a, b], 0, 0, 0, {}, []) == EvictOutcome(calls, s', 2, 2, None);
  }
}
