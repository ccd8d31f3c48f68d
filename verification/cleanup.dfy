/**
 * The keep/delete partition of `cleanupSnapshots` (main.go): every snapshot
 * of the sorted list whose id is not in the retained set is deleted, in list
 * order. The provider calls themselves are not modelled.
 */
module Cleanup {
  import opened Seqs
  import opened Snapshots
  import opened Retention

  /** The test `cleanupSnapshots` applies: the snapshot's id is absent from the retained set. */
  function NotRetained(retained: set<Uuid>): Snapshot -> bool
  {
    (x: Snapshot) => x.id !in retained
  }

  /** The complementary test: the snapshot survives the cleanup. */
  function IsRetained(retained: set<Uuid>): Snapshot -> bool
  {
    (x: Snapshot) => x.id in retained
  }

  /** The snapshots `cleanupSnapshots` asks the provider to delete, in the order it asks. */
  function SnapshotsToDelete(snapshots: seq<Snapshot>, retained: set<Uuid>): (r: seq<Snapshot>)
    ensures forall x :: x in r <==> x in snapshots && x.id !in retained
    ensures forall x :: multiset(r)[x] == if x.id in retained then 0 else multiset(snapshots)[x]
    ensures IdSet(r) !! retained
    ensures IsSubsequence(r, snapshots)
  {
    FilterCount(snapshots, NotRetained(retained));
    FilterSubsequence(snapshots, NotRetained(retained));
    Filter(snapshots, NotRetained(retained))
  }

  /** The snapshots left in place by the cleanup, in list order. */
  function SnapshotsKept(snapshots: seq<Snapshot>, retained: set<Uuid>): (r: seq<Snapshot>)
    ensures forall x :: x in r <==> x in snapshots && x.id in retained
  {
    Filter(snapshots, IsRetained(retained))
  }

  /** Every listed snapshot is either deleted or kept, never both, and none is lost or duplicated. */
  lemma CleanupPartitions(snapshots: seq<Snapshot>, retained: set<Uuid>)
    ensures multiset(SnapshotsToDelete(snapshots, retained)) + multiset(SnapshotsKept(snapshots, retained))
         == multiset(snapshots)
    ensures IdSet(SnapshotsToDelete(snapshots, retained)) !! IdSet(SnapshotsKept(snapshots, retained))
  {
    PartitionComplete(snapshots, IsRetained(retained), NotRetained(retained));
  }

  /**
   * After the selector and the cleanup run on the same sorted list, the
   * snapshots left carry exactly the retained ids, and the deleted ones carry
   * every other id of the list.
   */
  lemma CleanupLeavesExactlyRetained(snapshots: seq<Snapshot>, order: seq<Snapshot>, retention: SnapshotRetention)
    requires IsNewestFirstOrder(order, snapshots)
    ensures var retained := CategorizeSnapshots(snapshots, order, retention);
            && IdSet(SnapshotsKept(order, retained)) == retained
            && IdSet(SnapshotsToDelete(order, retained)) == IdSet(snapshots) - retained
  {
    var retained := CategorizeSnapshots(snapshots, order, retention);
    OrderKeepsIds(order, snapshots);
    var kept := SnapshotsKept(order, retained);
    forall id | id in retained ensures id in IdSet(kept) {
      var x :| x in order && x.id == id;
      assert x in kept;
    }
  }
}
