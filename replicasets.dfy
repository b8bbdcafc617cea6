/**
  Replica sets as the blue-green reconciliation sees them, the sums it takes
  over them, and the ordering by creation time it imposes before touching old
  replica sets.
 */
module ReplicaSets {

  /** A replica set: its name, its creation timestamp, its desired count
      (`spec.replicas`) and its available count (`status.availableReplicas`). */
  datatype ReplicaSet = ReplicaSet(name: string, created: int, replicas: nat, available: nat)

  /** Sum of the desired counts. */
  function TotalReplicas(s: seq<ReplicaSet>): nat
  {
    if s == [] then 0 else s[0].replicas + TotalReplicas(s[1..])
  }

  /** Sum of the available counts. */
  function TotalAvailable(s: seq<ReplicaSet>): nat
  {
    if s == [] then 0 else s[0].available + TotalAvailable(s[1..])
  }

  /** Oldest first: creation timestamps never decrease along the sequence. */
  predicate SortedByCreation(s: seq<ReplicaSet>)
  {
    forall i, j :: 0 <= i < j < |s| ==> s[i].created <= s[j].created
  }

  /** Go's `<` on strings: lexicographic. (Go compares the UTF-8 bytes,
      which orders well-formed text as its code points are ordered.) */
  predicate NameLess(a: string, b: string)
  {
    if b == [] then false
    else if a == [] then true
    else if a[0] != b[0] then a[0] < b[0]
    else NameLess(a[1..], b[1..])
  }

  lemma {:induction false} NameLessAsymmetric(a: string, b: string)
    requires NameLess(a, b)
    ensures !NameLess(b, a)
  {
    if a != [] && a[0] == b[0] {
      NameLessAsymmetric(a[1..], b[1..]);
    }
  }

  /** Not-greater is transitive: a <= b <= c implies a <= c. */
  lemma {:induction false} NameNotLessTransitive(a: string, b: string, c: string)
    requires !NameLess(b, a) && !NameLess(c, b)
    ensures !NameLess(c, a)
  {
    if a != [] && b != [] && c != [] && a[0] == b[0] && b[0] == c[0] {
      NameNotLessTransitive(a[1..], b[1..], c[1..]);
    }
  }

  /** `ReplicaSetsByCreationTimestamp.Less`: `x` sorts before `y` when it
      was created earlier, or at the same time with a smaller name. */
  predicate CreatedBefore(x: ReplicaSet, y: ReplicaSet)
  {
    x.created < y.created || (x.created == y.created && NameLess(x.name, y.name))
  }

  lemma CreatedBeforeAsymmetric(x: ReplicaSet, y: ReplicaSet)
    requires CreatedBefore(x, y)
    ensures !CreatedBefore(y, x)
  {
    if x.created == y.created {
      NameLessAsymmetric(x.name, y.name);
    }
  }

  lemma CreatedNotBeforeTransitive(x: ReplicaSet, y: ReplicaSet, z: ReplicaSet)
    requires !CreatedBefore(y, x) && !CreatedBefore(z, y)
    ensures !CreatedBefore(z, x)
  {
    if x.created == y.created && y.created == z.created {
      NameNotLessTransitive(x.name, y.name, z.name);
    }
  }

  /** The order `ReplicaSetsByCreationTimestamp` sorts by: no replica set
      sorts before one that comes earlier in the sequence. */
  predicate OrderedByCreation(s: seq<ReplicaSet>)
  {
    forall i, j :: 0 <= i < j < |s| ==> !CreatedBefore(s[j], s[i])
  }

  /** Inserts `x` before the first element that does not sort before it. */
  function Insert(x: ReplicaSet, s: seq<ReplicaSet>): (r: seq<ReplicaSet>)
    ensures |r| == |s| + 1
    ensures forall y | y in r :: y == x || y in s
  {
    if s == [] then [x]
    else if !CreatedBefore(s[0], x) then [x] + s
    else
      assert s == [s[0]] + s[1..];
      [s[0]] + Insert(x, s[1..])
  }

  lemma {:induction false} InsertPermutes(x: ReplicaSet, s: seq<ReplicaSet>)
    ensures multiset(Insert(x, s)) == multiset(s) + multiset{x}
  {
    if s != [] && CreatedBefore(s[0], x) {
      InsertPermutes(x, s[1..]);
      assert s == [s[0]] + s[1..];
    }
  }

  lemma {:induction false} InsertSorted(x: ReplicaSet, s: seq<ReplicaSet>)
    requires SortedByCreation(s)
    ensures SortedByCreation(Insert(x, s))
  {
    if s != [] && CreatedBefore(s[0], x) {
      InsertSorted(x, s[1..]);
      var rest := Insert(x, s[1..]);
      forall j | 0 <= j < |rest| ensures s[0].created <= rest[j].created {
        assert rest[j] in rest;
      }
    }
  }

  lemma {:induction false} InsertOrdered(x: ReplicaSet, s: seq<ReplicaSet>)
    requires OrderedByCreation(s)
    ensures OrderedByCreation(Insert(x, s))
  {
    var r := Insert(x, s);
    if s == [] {
    } else if !CreatedBefore(s[0], x) {
      forall j | 1 < j < |r| ensures !CreatedBefore(r[j], x) {
        assert r[j] == s[j - 1];
        CreatedNotBeforeTransitive(x, s[0], r[j]);
      }
    } else {
      InsertOrdered(x, s[1..]);
      var rest := Insert(x, s[1..]);
      CreatedBeforeAsymmetric(s[0], x);
      forall j | 0 <= j < |rest| ensures !CreatedBefore(rest[j], s[0]) {
        assert rest[j] in rest;
      }
    }
  }

  /** The order `sort.Sort(ReplicaSetsByCreationTimestamp(...))` leaves old
      replica sets in: ordered by creation time, ties by name
      (SortByCreationOrdered), so oldest first (SortByCreationSorted), and a
      permutation of the input (SortByCreationPermutes). */
  function SortByCreation(s: seq<ReplicaSet>): (r: seq<ReplicaSet>)
    ensures |r| == |s|
  {
    if s == [] then [] else Insert(s[0], SortByCreation(s[1..]))
  }

  lemma {:induction false} SortByCreationPermutes(s: seq<ReplicaSet>)
    ensures multiset(SortByCreation(s)) == multiset(s)
  {
    if s != [] {
      SortByCreationPermutes(s[1..]);
      InsertPermutes(s[0], SortByCreation(s[1..]));
      assert s == [s[0]] + s[1..];
    }
  }

  lemma {:induction false} SortByCreationSorted(s: seq<ReplicaSet>)
    ensures SortedByCreation(SortByCreation(s))
  {
    if s != [] {
      SortByCreationSorted(s[1..]);
      InsertSorted(s[0], SortByCreation(s[1..]));
    }
  }

  lemma {:induction false} SortByCreationOrdered(s: seq<ReplicaSet>)
    ensures OrderedByCreation(SortByCreation(s))
  {
    if s != [] {
      SortByCreationOrdered(s[1..]);
      InsertOrdered(s[0], SortByCreation(s[1..]));
    }
  }

  /** Two replica sets created at the same time sort by name. */
  lemma SortTieByName()
    ensures var a := ReplicaSet("a", 1, 2, 2); var b := ReplicaSet("b", 1, 3, 3);
      SortByCreation([b, a]) == [a, b]
  {
    var a := ReplicaSet("a", 1, 2, 2);
    var b := ReplicaSet("b", 1, 3, 3);
    assert [b, a][1..] == [a] && [a][1..] == [];
    assert SortByCreation([a]) == Insert(a, []) == [a];
    assert NameLess(a.name, b.name);
    assert Insert(b, [a]) == [a] + Insert(b, []) == [a, b];
  }

  /** Sorting does not change the sum of desired counts. */
  lemma {:induction false} TotalReplicasSorted(s: seq<ReplicaSet>)
    ensures TotalReplicas(SortByCreation(s)) == TotalReplicas(s)
  {
    if s != [] {
      TotalReplicasSorted(s[1..]);
      TotalReplicasInsert(s[0], SortByCreation(s[1..]));
    }
  }

  lemma {:induction false} TotalReplicasInsert(x: ReplicaSet, s: seq<ReplicaSet>)
    ensures TotalReplicas(Insert(x, s)) == x.replicas + TotalReplicas(s)
  {
    if s != [] && CreatedBefore(s[0], x) {
      TotalReplicasInsert(x, s[1..]);
      assert Insert(x, s)[1..] == Insert(x, s[1..]);
    }
  }

  /** The replica sets of `s` that are in `keep`, in their original order. */
  function Filter(keep: set<ReplicaSet>, s: seq<ReplicaSet>): (r: seq<ReplicaSet>)
    ensures forall x | x in r :: x in s && x in keep
    ensures forall x | x in s && x in keep :: x in r
  {
    if s == [] then []
    else if s[0] in keep then [s[0]] + Filter(keep, s[1..])
    else Filter(keep, s[1..])
  }
}
