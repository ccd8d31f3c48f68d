/**
 * The selector as main.go writes it: a loop over the timeframes around a
 * loop over the sorted snapshots that skips claimed ids, retains admitted
 * snapshots into one mutable set and breaks once the count reaches the limit.
 * Each method is proved to compute the functional model of module Retention.
 */
module RetentionLoop {
  import opened Wrappers
  import opened Snapshots
  import opened Retention

  /** The retained set a walk ends with, from the state it is in when `rest` is still to be visited. */
  function RetainFrom(rest: seq<Snapshot>, tf: Timeframe, last: Option<int>, count: nat, claimed: set<Uuid>): set<Uuid>
  {
    claimed + IdSet(Picks(rest, tf, last, count, claimed))
  }

  /** An iteration that passes over the next snapshot leaves the outcome to the rest of the walk. */
  lemma RetainFromPassOver(rest: seq<Snapshot>, tf: Timeframe, last: Option<int>, count: nat, claimed: set<Uuid>)
    requires rest != [] && (rest[0].id in claimed || !Admits(tf, last, rest[0].createdAt))
    ensures RetainFrom(rest, tf, last, count, claimed) == RetainFrom(rest[1..], tf, last, count, claimed)
  {
  }

  /** An iteration that retains the next snapshot and reaches the limit ends the walk. */
  lemma RetainFromBreak(rest: seq<Snapshot>, tf: Timeframe, last: Option<int>, count: nat, claimed: set<Uuid>)
    requires rest != [] && rest[0].id !in claimed && Admits(tf, last, rest[0].createdAt)
    requires count + 1 >= tf.limit
    ensures RetainFrom(rest, tf, last, count, claimed) == claimed + {rest[0].id}
  {
    assert IdSet([rest[0]]) == {rest[0].id};
  }

  /** An iteration that retains the next snapshot below the limit goes on from it. */
  lemma RetainFromRetain(rest: seq<Snapshot>, tf: Timeframe, last: Option<int>, count: nat, claimed: set<Uuid>)
    requires rest != [] && rest[0].id !in claimed && Admits(tf, last, rest[0].createdAt)
    requires count + 1 < tf.limit
    ensures RetainFrom(rest, tf, last, count, claimed)
         == RetainFrom(rest[1..], tf, Some(rest[0].createdAt), count + 1, claimed + {rest[0].id})
  {
    var s := rest[0];
    var tail := Picks(rest[1..], tf, Some(s.createdAt), count + 1, claimed + {s.id});
    assert IdSet([s] + tail) == {s.id} + IdSet(tail);
  }

  /** `retainForTimeframe`: adds this timeframe's retentions to `claimed`. */
  method RetainForTimeframeLoop(order: seq<Snapshot>, tf: Timeframe, claimed: set<Uuid>) returns (retained: set<Uuid>)
    ensures retained == RetainForTimeframe(order, tf, claimed)
  {
    retained := claimed;
    var last: Option<int> := None;
    var count: nat := 0;
    var i := 0;
    while i < |order|
      invariant 0 <= i <= |order|
      invariant RetainFrom(order[i..], tf, last, count, retained) == RetainForTimeframe(order, tf, claimed)
    {
      var s := order[i];
      assert order[i..][1..] == order[i + 1..];
      if s.id !in retained && Admits(tf, last, s.createdAt) {
        if count + 1 >= tf.limit {
          RetainFromBreak(order[i..], tf, last, count, retained);
          retained := retained + {s.id};
          break;
        }
        RetainFromRetain(order[i..], tf, last, count, retained);
        last := Some(s.createdAt);
        retained := retained + {s.id};
        count := count + 1;
      } else {
        RetainFromPassOver(order[i..], tf, last, count, retained);
      }
      i := i + 1;
    }
  }

  /**
   * `categorizeSnapshots`: sorts the snapshots newest first (one of the orders
   * `sort.Slice` may produce) and runs every timeframe in order over the
   * shared set. The caller's slice ends up in that order, so it is returned.
   */
  method CategorizeSnapshotsLoop(snapshots: seq<Snapshot>, retention: SnapshotRetention) returns (order: seq<Snapshot>, retained: set<Uuid>)
    ensures IsNewestFirstOrder(order, snapshots)
    ensures retained == CategorizeSnapshots(snapshots, order, retention)
  {
    order := SortNewestFirst(snapshots);
    var timeframes := Timeframes(retention);
    retained := {};
    for k := 0 to |timeframes|
      invariant RetainAll(order, timeframes[k..], retained) == RetainAll(order, timeframes, {})
    {
      assert timeframes[k..][1..] == timeframes[k + 1..];
      retained := RetainForTimeframeLoop(order, timeframes[k], retained);
    }
  }
}
