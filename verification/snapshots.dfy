/**
 * Snapshot records as the provider lists them, the newest-first order the
 * selector walks, and the per-instance filter applied to the provider's list
 * (`getSnapshots`, main.go).
 */
module Snapshots {
  import opened Seqs

  /** A UUID in its textual form; the selector keys its retained set by this string. */
  type Uuid = string

  /**
   * One listed snapshot: its id, the instance whose volume it copies, and its
   * creation time in nanoseconds.
   */
  datatype Snapshot = Snapshot(id: Uuid, instance: Uuid, createdAt: int)

  /** The ids of the snapshots in `s`. */
  function IdSet(s: seq<Snapshot>): set<Uuid>
  {
    set x | x in s :: x.id
  }

  /** A sequence has at most as many distinct ids as elements. */
  lemma {:induction false} IdSetSize(s: seq<Snapshot>)
    ensures |IdSet(s)| <= |s|
    decreases |s|
  {
    if s != [] {
      IdSetSize(s[1..]);
      assert s == [s[0]] + s[1..];
      assert IdSet(s) == {s[0].id} + IdSet(s[1..]);
    }
  }

  /** Creation times never increase along `s`: newest first. */
  predicate NewestFirst(s: seq<Snapshot>)
  {
    forall i, j :: 0 <= i < j < |s| ==> s[i].createdAt >= s[j].createdAt
  }

  /**
   * `order` is an order `sort.Slice` may produce from `snapshots`: the same
   * snapshots, newest first. The sort is not stable, so snapshots with equal
   * creation times may come in any relative order.
   */
  predicate IsNewestFirstOrder(order: seq<Snapshot>, snapshots: seq<Snapshot>)
  {
    NewestFirst(order) && multiset(order) == multiset(snapshots)
  }

  /** A newest-first order has the same snapshots, hence the same ids, as its input. */
  lemma OrderKeepsIds(order: seq<Snapshot>, snapshots: seq<Snapshot>)
    requires IsNewestFirstOrder(order, snapshots)
    ensures IdSet(order) == IdSet(snapshots)
    ensures |order| == |snapshots|
  {
    assert forall x :: x in order <==> x in snapshots by {
      forall x ensures x in order <==> x in snapshots {
        assert x in order <==> x in multiset(order);
        assert x in snapshots <==> x in multiset(snapshots);
      }
    }
    assert |multiset(order)| == |multiset(snapshots)|;
  }

  /** Putting a snapshot at least as new as the head in front keeps a sequence newest first. */
  lemma ConsNewestFirst(h: Snapshot, t: seq<Snapshot>)
    requires NewestFirst(t)
    requires t == [] || h.createdAt >= t[0].createdAt
    ensures NewestFirst([h] + t)
  {
    var r := [h] + t;
    forall i, j | 0 <= i < j < |r| ensures r[i].createdAt >= r[j].createdAt {
      assert r[j] == t[j - 1];
      if i == 0 {
        assert t[0].createdAt >= t[j - 1].createdAt;
      } else {
        assert r[i] == t[i - 1];
      }
    }
  }

  /** Places `x` into the newest-first sequence `s`. */
  function Insert(x: Snapshot, s: seq<Snapshot>): (r: seq<Snapshot>)
    requires NewestFirst(s)
    ensures NewestFirst(r)
    ensures multiset(r) == multiset(s) + multiset{x}
    ensures r[0] == x || (s != [] && r[0] == s[0])
  {
    if s == [] then [x]
    else if x.createdAt >= s[0].createdAt then
      ConsNewestFirst(x, s);
      [x] + s
    else
      assert s == [s[0]] + s[1..];
      var t := Insert(x, s[1..]);
      assert s[1..] != [] ==> s[0].createdAt >= s[1].createdAt;
      ConsNewestFirst(s[0], t);
      [s[0]] + t
  }

  /**
   * One order `sort.Slice` may produce: an insertion sort on creation time,
   * newest first. It shows that every input has a newest-first order.
   */
  function SortNewestFirst(s: seq<Snapshot>): (r: seq<Snapshot>)
    ensures IsNewestFirstOrder(r, s)
  {
    if s == [] then []
    else
      assert s == [s[0]] + s[1..];
      Insert(s[0], SortNewestFirst(s[1..]))
  }

  /** The test `getSnapshots` applies to each listed snapshot. */
  function BelongsTo(instance: Uuid): Snapshot -> bool
  {
    (x: Snapshot) => x.instance == instance
  }

  /** The snapshots of the provider's list that belong to `instance`, in list order. */
  function SnapshotsOfInstance(listed: seq<Snapshot>, instance: Uuid): (r: seq<Snapshot>)
    ensures forall x :: x in r <==> x in listed && x.instance == instance
    ensures forall x :: multiset(r)[x] == if x.instance == instance then multiset(listed)[x] else 0
    ensures IsSubsequence(r, listed)
  {
    FilterCount(listed, BelongsTo(instance));
    FilterSubsequence(listed, BelongsTo(instance));
    Filter(listed, BelongsTo(instance))
  }

  /** Filtering a concatenated list filters each part and keeps them in order. */
  lemma SnapshotsOfInstanceAppend(a: seq<Snapshot>, b: seq<Snapshot>, instance: Uuid)
    ensures SnapshotsOfInstance(a + b, instance)
         == SnapshotsOfInstance(a, instance) + SnapshotsOfInstance(b, instance)
  {
    FilterAppend(a, b, BelongsTo(instance));
  }

  /** Filtering an already filtered list changes nothing. */
  lemma SnapshotsOfInstanceIdempotent(listed: seq<Snapshot>, instance: Uuid)
    ensures SnapshotsOfInstance(SnapshotsOfInstance(listed, instance), instance)
         == SnapshotsOfInstance(listed, instance)
  {
    FilterIdempotent(listed, BelongsTo(instance));
  }
}
