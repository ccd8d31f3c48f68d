/**
 * The retention selector of main.go (`categorizeSnapshots` and
 * `retainForTimeframe`): it walks five timeframes in a fixed order and, for
 * each, greedily keeps unclaimed snapshots spaced more than one interval minus
 * a 10% margin apart, up to the timeframe's limit. All timeframes share one
 * set of retained ids.
 */
module Retention {
  import opened Wrappers
  import opened Seqs
  import opened Snapshots

  /** One hour in nanoseconds, the unit of Go's `time.Duration`. */
  const Hour: int := 3_600_000_000_000

  /** The per-instance retention counts of the configuration (`SnapshotRetention`). */
  datatype SnapshotRetention = SnapshotRetention(hourly: int, daily: int, weekly: int, monthly: int, yearly: int)

  /** One retention tier: its interval in nanoseconds and the count it may keep. */
  datatype Timeframe = Timeframe(duration: int, limit: int)

  /** The timeframes in the order the selector processes them: 1h, 24h, 7d, 30d, 365d. */
  function Timeframes(retention: SnapshotRetention): (r: seq<Timeframe>)
    ensures |r| == 5
    ensures forall i, j :: 0 <= i < j < |r| ==> 0 < r[i].duration < r[j].duration
    ensures forall i :: 0 <= i < |r| ==> r[i].duration % Hour == 0
    ensures r[0].limit == retention.hourly && r[1].limit == retention.daily
    ensures r[2].limit == retention.weekly && r[3].limit == retention.monthly
    ensures r[4].limit == retention.yearly
  {
    [ Timeframe(Hour, retention.hourly),
      Timeframe(24 * Hour, retention.daily),
      Timeframe(7 * 24 * Hour, retention.weekly),
      Timeframe(30 * 24 * Hour, retention.monthly),
      Timeframe(365 * 24 * Hour, retention.yearly) ]
  }

  /**
   * The tolerance of a timeframe, a tenth of its interval. main.go computes
   * `float64(d) * 0.1` and truncates; every interval is a multiple of ten
   * nanoseconds, where both agree.
   */
  function Margin(duration: int): int
  {
    duration / 10
  }

  /**
   * For every timeframe the margin is exactly a tenth of the interval, so
   * the integer division loses nothing against main.go's floating-point
   * product, and the margin is positive and shorter than the interval.
   */
  lemma MarginIsExactTenth(retention: SnapshotRetention)
    ensures forall tf :: tf in Timeframes(retention) ==>
              Margin(tf.duration) * 10 == tf.duration && 0 < Margin(tf.duration) < tf.duration
  {
  }

  /**
   * Whether a snapshot created at `created` may be retained when the last one
   * retained for this timeframe was created at `last` (`None`: nothing yet).
   */
  predicate Admits(tf: Timeframe, last: Option<int>, created: int)
  {
    last.None? || created < last.value - tf.duration + Margin(tf.duration)
  }

  /** Consecutive snapshots of `p` are more than `duration - Margin(duration)` apart, newest first. */
  predicate Spaced(p: seq<Snapshot>, duration: int)
  {
    forall i :: 0 < i < |p| ==> p[i].createdAt < p[i - 1].createdAt - duration + Margin(duration)
  }

  /** `n` when it is positive, else 1: a limit below one still lets one snapshot through. */
  function AtLeastOne(n: int): int
  {
    if n > 1 then n else 1
  }

  /**
   * The snapshots one timeframe retains while walking `rest`, in walk order,
   * when `last` is the creation time of its previous retention, `count` the
   * number retained so far and `claimed` the ids retained already. The limit
   * is tested only after a retention.
   */
  function Picks(rest: seq<Snapshot>, tf: Timeframe, last: Option<int>, count: nat, claimed: set<Uuid>): (r: seq<Snapshot>)
    ensures |r| <= AtLeastOne(tf.limit - count)
    ensures forall i :: 0 <= i < |r| ==> r[i] in rest && r[i].id !in claimed
    ensures forall i, j :: 0 <= i < j < |r| ==> r[i].id != r[j].id
    ensures r != [] ==> Admits(tf, last, r[0].createdAt)
    ensures Spaced(r, tf.duration)
    decreases |rest|
  {
    if rest == [] then []
    else
      var s := rest[0];
      if s.id in claimed then Picks(rest[1..], tf, last, count, claimed)
      else if Admits(tf, last, s.createdAt) then
        if count + 1 >= tf.limit then [s]
        else [s] + Picks(rest[1..], tf, Some(s.createdAt), count + 1, claimed + {s.id})
      else Picks(rest[1..], tf, last, count, claimed)
  }

  /** What one timeframe leaves in the shared retained set, starting from `claimed`. */
  function RetainForTimeframe(order: seq<Snapshot>, tf: Timeframe, claimed: set<Uuid>): (r: set<Uuid>)
    ensures claimed <= r
    ensures r - claimed <= IdSet(order)
    ensures |r - claimed| <= AtLeastOne(tf.limit)
    ensures r == claimed <==> forall x :: x in order ==> x.id in claimed
  {
    var p := Picks(order, tf, None, 0, claimed);
    assert forall x :: x in p ==> x.id !in claimed;
    IdSetSize(p);
    UnclaimedIsPicked(order, tf, 0, claimed);
    assert p != [] ==> p[0].id in IdSet(p);
    claimed + IdSet(p)
  }

  /** A timeframe with no anchor yet retains something exactly when an unclaimed snapshot is left. */
  lemma {:induction false} UnclaimedIsPicked(rest: seq<Snapshot>, tf: Timeframe, count: nat, claimed: set<Uuid>)
    ensures Picks(rest, tf, None, count, claimed) != [] <==> exists x :: x in rest && x.id !in claimed
    decreases |rest|
  {
    if (exists x :: x in rest && x.id !in claimed) && rest[0].id in claimed {
      var x :| x in rest && x.id !in claimed;
      assert rest == [rest[0]] + rest[1..];
      assert x in rest[1..];
      UnclaimedIsPicked(rest[1..], tf, count, claimed);
    }
  }

  /**
   * The first snapshot of the walk a timeframe retains is the first one not
   * yet claimed: claimed snapshots are skipped and nothing else is tested
   * before the first retention.
   */
  lemma {:induction false} FirstUnclaimedIsFirstPick(rest: seq<Snapshot>, tf: Timeframe, count: nat, claimed: set<Uuid>, j: nat)
    requires j < |rest| && rest[j].id !in claimed
    requires forall k :: 0 <= k < j ==> rest[k].id in claimed
    ensures Picks(rest, tf, None, count, claimed) != []
    ensures Picks(rest, tf, None, count, claimed)[0] == rest[j]
    decreases j
  {
    if j > 0 {
      assert rest[0].id in claimed;
      FirstUnclaimedIsFirstPick(rest[1..], tf, count, claimed, j - 1);
    }
  }

  /**
   * On a newest-first walk, the snapshot a timeframe retains first is the
   * newest one not yet claimed.
   */
  lemma NewestUnclaimedRetained(order: seq<Snapshot>, tf: Timeframe, claimed: set<Uuid>, j: nat)
    requires NewestFirst(order)
    requires j < |order| && order[j].id !in claimed
    requires forall k :: 0 <= k < j ==> order[k].id in claimed
    ensures order[j].id in RetainForTimeframe(order, tf, claimed)
    ensures forall x :: x in order && x.id !in claimed ==> x.createdAt <= order[j].createdAt
    ensures var p := Picks(order, tf, None, 0, claimed); p != [] && p[0] == order[j]
  {
    var p := Picks(order, tf, None, 0, claimed);
    FirstUnclaimedIsFirstPick(order, tf, 0, claimed, j);
    assert p[0].id in IdSet(p);
    forall x | x in order && x.id !in claimed ensures x.createdAt <= order[j].createdAt {
      var k :| 0 <= k < |order| && order[k] == x;
      assert k >= j;
    }
  }

  /** In any walk order, the first snapshot not yet claimed is retained. */
  lemma NewestUnclaimedRetainedAnyOrder(order: seq<Snapshot>, tf: Timeframe, claimed: set<Uuid>, j: nat)
    requires j < |order| && order[j].id !in claimed
    requires forall k :: 0 <= k < j ==> order[k].id in claimed
    ensures order[j].id in RetainForTimeframe(order, tf, claimed)
  {
    var p := Picks(order, tf, None, 0, claimed);
    FirstUnclaimedIsFirstPick(order, tf, 0, claimed, j);
    assert p[0].id in IdSet(p);
  }

  /** The picks of one timeframe come in walk order: they are a subsequence of the walk. */
  lemma {:induction false} PicksInWalkOrder(rest: seq<Snapshot>, tf: Timeframe, last: Option<int>, count: nat, claimed: set<Uuid>)
    ensures IsSubsequence(Picks(rest, tf, last, count, claimed), rest)
    decreases |rest|
  {
    if rest != [] {
      var s := rest[0];
      if s.id in claimed || !Admits(tf, last, s.createdAt) {
        PicksInWalkOrder(rest[1..], tf, last, count, claimed);
      } else if count + 1 < tf.limit {
        PicksInWalkOrder(rest[1..], tf, Some(s.createdAt), count + 1, claimed + {s.id});
        var tail := Picks(rest[1..], tf, Some(s.createdAt), count + 1, claimed + {s.id});
        assert ([s] + tail)[1..] == tail;
      } else {
        assert [s][1..] == [];
      }
    }
  }

  /** The anchor in force after the picks `q`: the last of them, or `last` when there are none. */
  function LastPick(q: seq<Snapshot>, last: Option<int>): Option<int>
  {
    if q == [] then last else Some(q[|q| - 1].createdAt)
  }

  /**
   * Whether the walk retains `x` when it reaches it, having picked `q` so
   * far: the limit is not reached yet, its id is unclaimed (neither before
   * the timeframe nor by an earlier pick), and it is old enough next to the
   * anchor in force.
   */
  predicate RetainsNext(tf: Timeframe, last: Option<int>, count: nat, claimed: set<Uuid>, q: seq<Snapshot>, x: Snapshot)
  {
    |q| < AtLeastOne(tf.limit - count)
    && x.id !in claimed && x.id !in IdSet(q)
    && Admits(tf, LastPick(q, last), x.createdAt)
  }

  /**
   * One iteration of the loop: the picks of a walk extended by `x` are the
   * picks of the walk, plus `x` exactly when the walk retains it there.
   */
  lemma {:induction false} PicksSnoc(pre: seq<Snapshot>, x: Snapshot, tf: Timeframe, last: Option<int>, count: nat, claimed: set<Uuid>)
    ensures var q := Picks(pre, tf, last, count, claimed);
            Picks(pre + [x], tf, last, count, claimed)
              == if RetainsNext(tf, last, count, claimed, q, x) then q + [x] else q
    decreases |pre|, 1
  {
    if pre == [] {
      assert pre + [x] == [x] + [];
      PicksCons(x, [], tf, last, count, claimed);
    } else {
      var s := pre[0];
      if s.id in claimed || !Admits(tf, last, s.createdAt) {
        PicksSnocPassOver(pre, x, tf, last, count, claimed);
      } else if count + 1 < tf.limit {
        PicksSnocAfterPick(pre, x, tf, last, count, claimed);
      } else {
        assert pre == [s] + pre[1..] && pre + [x] == [s] + (pre[1..] + [x]);
        PicksCons(s, pre[1..], tf, last, count, claimed);
        PicksCons(s, pre[1..] + [x], tf, last, count, claimed);
      }
    }
  }

  /** `PicksSnoc` when the walk passes over its first snapshot. */
  lemma {:induction false} PicksSnocPassOver(pre: seq<Snapshot>, x: Snapshot, tf: Timeframe, last: Option<int>, count: nat, claimed: set<Uuid>)
    requires pre != [] && (pre[0].id in claimed || !Admits(tf, last, pre[0].createdAt))
    ensures var q := Picks(pre, tf, last, count, claimed);
            Picks(pre + [x], tf, last, count, claimed)
              == if RetainsNext(tf, last, count, claimed, q, x) then q + [x] else q
    decreases |pre|, 0
  {
    var s := pre[0];
    var t := pre[1..];
    assert Picks(pre, tf, last, count, claimed) == Picks(t, tf, last, count, claimed)
        && Picks(pre + [x], tf, last, count, claimed) == Picks(t + [x], tf, last, count, claimed) by {
      assert pre == [s] + t && pre + [x] == [s] + (t + [x]);
      PicksCons(s, t, tf, last, count, claimed);
      PicksCons(s, t + [x], tf, last, count, claimed);
    }
    PicksSnoc(t, x, tf, last, count, claimed);
  }

  /** `PicksSnoc` when the walk retains its first snapshot and goes on. */
  lemma {:induction false} PicksSnocAfterPick(pre: seq<Snapshot>, x: Snapshot, tf: Timeframe, last: Option<int>, count: nat, claimed: set<Uuid>)
    requires pre != [] && pre[0].id !in claimed && Admits(tf, last, pre[0].createdAt) && count + 1 < tf.limit
    ensures var q := Picks(pre, tf, last, count, claimed);
            Picks(pre + [x], tf, last, count, claimed)
              == if RetainsNext(tf, last, count, claimed, q, x) then q + [x] else q
    decreases |pre|, 0
  {
    var s := pre[0];
    var t := pre[1..];
    var last' := Some(s.createdAt);
    var claimed' := claimed + {s.id};
    var q' := Picks(t, tf, last', count + 1, claimed');
    var q1' := Picks(t + [x], tf, last', count + 1, claimed');
    var q := Picks(pre, tf, last, count, claimed);
    var q1 := Picks(pre + [x], tf, last, count, claimed);
    assert q == [s] + q' && q1 == [s] + q1' by {
      assert pre == [s] + t && pre + [x] == [s] + (t + [x]);
      PicksCons(s, t, tf, last, count, claimed);
      PicksCons(s, t + [x], tf, last, count, claimed);
    }
    var b := RetainsNext(tf, last, count, claimed, q, x);
    var b' := RetainsNext(tf, last', count + 1, claimed', q', x);
    assert q1' == (if b' then q' + [x] else q') by {
      PicksSnoc(t, x, tf, last', count + 1, claimed');
    }
    assert b == b' by {
      RetainsNextShift(tf, last, count, claimed, s, q', x);
    }
    ConsStep(q, q1, q', q1', s, x, b);
  }

  /**
   * A step of the tail's walk seen from the whole walk: putting `s` in front
   * of the picks before and after the step keeps the step's shape.
   */
  lemma ConsStep(q: seq<Snapshot>, q1: seq<Snapshot>, q': seq<Snapshot>, q1': seq<Snapshot>, s: Snapshot, x: Snapshot, b: bool)
    requires q == [s] + q' && q1 == [s] + q1'
    requires q1' == if b then q' + [x] else q'
    ensures q1 == if b then q + [x] else q
  {
    if b {
      assert [s] + (q' + [x]) == ([s] + q') + [x];
    }
  }

  /** `Picks` on a walk with `s` in front, one loop iteration unfolded. */
  lemma PicksCons(s: Snapshot, t: seq<Snapshot>, tf: Timeframe, last: Option<int>, count: nat, claimed: set<Uuid>)
    ensures Picks([s] + t, tf, last, count, claimed)
      == if s.id in claimed || !Admits(tf, last, s.createdAt) then Picks(t, tf, last, count, claimed)
         else if count + 1 >= tf.limit then [s]
         else [s] + Picks(t, tf, Some(s.createdAt), count + 1, claimed + {s.id})
  {
    assert ([s] + t)[1..] == t;
  }

  /** After retaining `s` below the limit, the test for the next snapshot is the same test from `s` on. */
  lemma RetainsNextShift(tf: Timeframe, last: Option<int>, count: nat, claimed: set<Uuid>, s: Snapshot, q': seq<Snapshot>, x: Snapshot)
    requires count + 1 < tf.limit
    ensures RetainsNext(tf, last, count, claimed, [s] + q', x)
         == RetainsNext(tf, Some(s.createdAt), count + 1, claimed + {s.id}, q', x)
  {
    IdSetCons(s, q');
    assert LastPick([s] + q', last) == LastPick(q', Some(s.createdAt));
  }

  /** The ids of a sequence with one snapshot put in front. */
  lemma IdSetCons(s: Snapshot, q: seq<Snapshot>)
    ensures IdSet([s] + q) == {s.id} + IdSet(q)
  {
    assert forall x :: x in [s] + q <==> x == s || x in q;
  }

  /** What a timeframe picks from a prefix of the walk starts what it picks from the whole walk. */
  lemma {:induction false} PicksPrefix(rest: seq<Snapshot>, tf: Timeframe, last: Option<int>, count: nat, claimed: set<Uuid>, k: nat)
    requires k <= |rest|
    ensures Picks(rest[..k], tf, last, count, claimed) <= Picks(rest, tf, last, count, claimed)
    decreases |rest| - k
  {
    if k < |rest| {
      assert Picks(rest[..k], tf, last, count, claimed) <= Picks(rest[..k + 1], tf, last, count, claimed) by {
        assert rest[..k + 1] == rest[..k] + [rest[k]];
        PicksSnoc(rest[..k], rest[k], tf, last, count, claimed);
      }
      PicksPrefix(rest, tf, last, count, claimed, k + 1);
    } else {
      assert rest[..k] == rest;
    }
  }

  /**
   * The greedy walk leaves nothing out without cause: a snapshot it reaches
   * below the limit, with an unclaimed id, old enough next to the previous
   * pick (or the anchor) is retained, in the place after the earlier picks;
   * one that fails any of these is passed over.
   */
  lemma PicksAreMaximal(rest: seq<Snapshot>, tf: Timeframe, last: Option<int>, count: nat, claimed: set<Uuid>, k: nat)
    requires k < |rest|
    ensures var q := Picks(rest[..k], tf, last, count, claimed);
            var p := Picks(rest, tf, last, count, claimed);
            RetainsNext(tf, last, count, claimed, q, rest[k]) ==> |q| < |p| && p[|q|] == rest[k]
    ensures var q := Picks(rest[..k], tf, last, count, claimed);
            !RetainsNext(tf, last, count, claimed, q, rest[k]) ==> Picks(rest[..k + 1], tf, last, count, claimed) == q
  {
    var q := Picks(rest[..k], tf, last, count, claimed);
    assert rest[..k + 1] == rest[..k] + [rest[k]];
    PicksSnoc(rest[..k], rest[k], tf, last, count, claimed);
    PicksPrefix(rest, tf, last, count, claimed, k + 1);
    if RetainsNext(tf, last, count, claimed, q, rest[k]) {
      assert (q + [rest[k]])[|q|] == rest[k];
    }
  }

  /** The most the timeframes `tfs` can add together: each keeps at most `AtLeastOne(limit)`. */
  function Capacity(tfs: seq<Timeframe>): int
  {
    if tfs == [] then 0 else AtLeastOne(tfs[0].limit) + Capacity(tfs[1..])
  }

  /** A superset of `a` has `|a|` elements plus those it adds. */
  lemma SupersetSize(a: set<Uuid>, b: set<Uuid>)
    requires a <= b
    ensures |b| == |a| + |b - a|
  {
    assert b == a + (b - a);
  }

  /** The shared retained set after the timeframes `tfs`, in order, starting from `claimed`. */
  function RetainAll(order: seq<Snapshot>, tfs: seq<Timeframe>, claimed: set<Uuid>): (r: set<Uuid>)
    ensures claimed <= r
    ensures r - claimed <= IdSet(order)
    ensures |r| <= |claimed| + Capacity(tfs)
    decreases |tfs|
  {
    if tfs == [] then claimed
    else
      var next := RetainForTimeframe(order, tfs[0], claimed);
      SupersetSize(claimed, next);
      RetainAll(order, tfs[1..], next)
  }

  /** Once every id of the walk is claimed, later timeframes retain nothing more. */
  lemma {:induction false} AllClaimedIsFixpoint(order: seq<Snapshot>, tfs: seq<Timeframe>, claimed: set<Uuid>)
    requires forall x :: x in order ==> x.id in claimed
    ensures RetainAll(order, tfs, claimed) == claimed
    decreases |tfs|
  {
    if tfs != [] {
      AllClaimedIsFixpoint(order, tfs[1..], claimed);
    }
  }

  /** The ids retained by any of the timeframes whose picks are `ps`. */
  function AllIds(ps: seq<seq<Snapshot>>): set<Uuid>
  {
    if ps == [] then {} else IdSet(ps[0]) + AllIds(ps[1..])
  }

  /** What each timeframe of `tfs` retains, in timeframe order; together they make up the shared set. */
  function PicksPerTimeframe(order: seq<Snapshot>, tfs: seq<Timeframe>, claimed: set<Uuid>): (r: seq<seq<Snapshot>>)
    ensures |r| == |tfs|
    ensures claimed + AllIds(r) == RetainAll(order, tfs, claimed)
    decreases |tfs|
  {
    if tfs == [] then []
    else
      var p := Picks(order, tfs[0], None, 0, claimed);
      [p] + PicksPerTimeframe(order, tfs[1..], claimed + IdSet(p))
  }

  /** Timeframe `k` of `ps` is the walk of `tfs[k]` with the ids claimed before it. */
  predicate SeesEarlierClaims(ps: seq<seq<Snapshot>>, order: seq<Snapshot>, tfs: seq<Timeframe>, claimed: set<Uuid>)
    requires |ps| == |tfs|
  {
    forall k :: 0 <= k < |ps| ==> ps[k] == Picks(order, tfs[k], None, 0, claimed + AllIds(ps[..k]))
  }

  /** The ids claimed by the first `k + 1` timeframes are those of the first plus those of the next `k`. */
  lemma AllIdsPrefix(p: seq<Snapshot>, rest: seq<seq<Snapshot>>, k: nat)
    requires 0 < k <= |rest| + 1
    ensures AllIds(([p] + rest)[..k]) == IdSet(p) + AllIds(rest[..k - 1])
  {
    assert ([p] + rest)[..k] == [p] + rest[..k - 1];
  }

  /** The inductive step of `EachTimeframeSeesEarlierClaims`, for one later timeframe `k`. */
  lemma SeesEarlierClaimsShift(order: seq<Snapshot>, tfs: seq<Timeframe>, claimed: set<Uuid>,
                               p: seq<Snapshot>, rest: seq<seq<Snapshot>>, k: nat)
    requires |tfs| == |rest| + 1 && 0 < k < |tfs|
    requires SeesEarlierClaims(rest, order, tfs[1..], claimed + IdSet(p))
    ensures ([p] + rest)[k] == Picks(order, tfs[k], None, 0, claimed + AllIds(([p] + rest)[..k]))
  {
    AllIdsPrefix(p, rest, k);
    var before := claimed + AllIds(([p] + rest)[..k]);
    var before' := (claimed + IdSet(p)) + AllIds(rest[..k - 1]);
    assert before == before';
    assert tfs[k] == tfs[1..][k - 1];
    assert ([p] + rest)[k] == rest[k - 1];
    assert rest[k - 1] == Picks(order, tfs[k], None, 0, before');
  }

  /** The first timeframe's walk in front of later walks that saw its claims sees earlier claims throughout. */
  lemma ConsSeesEarlierClaims(order: seq<Snapshot>, tfs: seq<Timeframe>, claimed: set<Uuid>,
                              p: seq<Snapshot>, rest: seq<seq<Snapshot>>)
    requires |tfs| == |rest| + 1
    requires p == Picks(order, tfs[0], None, 0, claimed)
    requires SeesEarlierClaims(rest, order, tfs[1..], claimed + IdSet(p))
    ensures SeesEarlierClaims([p] + rest, order, tfs, claimed)
  {
    var r := [p] + rest;
    assert r[0] == Picks(order, tfs[0], None, 0, claimed + AllIds(r[..0])) by {
      assert r[..0] == [];
      assert claimed + AllIds(r[..0]) == claimed;
    }
    forall k | 0 < k < |r| ensures r[k] == Picks(order, tfs[k], None, 0, claimed + AllIds(r[..k])) {
      SeesEarlierClaimsShift(order, tfs, claimed, p, rest, k);
    }
    assert SeesEarlierClaims(r, order, tfs, claimed);
  }

  /**
   * Timeframe `k` walks the list with the ids claimed before the selector
   * started and by the timeframes before it already in the shared set.
   */
  lemma {:induction false} EachTimeframeSeesEarlierClaims(order: seq<Snapshot>, tfs: seq<Timeframe>, claimed: set<Uuid>)
    ensures SeesEarlierClaims(PicksPerTimeframe(order, tfs, claimed), order, tfs, claimed)
    decreases |tfs|
  {
    if tfs != [] {
      var p := Picks(order, tfs[0], None, 0, claimed);
      var claimed' := claimed + IdSet(p);
      var rest := PicksPerTimeframe(order, tfs[1..], claimed');
      EachTimeframeSeesEarlierClaims(order, tfs[1..], claimed');
      ConsSeesEarlierClaims(order, tfs, claimed, p, rest);
      assert PicksPerTimeframe(order, tfs, claimed) == [p] + rest;
    }
  }

  /** Timeframe `i` of `ps` keeps at most `AtLeastOne` of its limit, spaced by its interval less the margin. */
  predicate CappedAndSpaced(ps: seq<seq<Snapshot>>, tfs: seq<Timeframe>)
    requires |ps| == |tfs|
  {
    forall i :: 0 <= i < |ps| ==> |ps[i]| <= AtLeastOne(tfs[i].limit) && Spaced(ps[i], tfs[i].duration)
  }

  /** Extending capped and spaced picks in front with one more capped and spaced list. */
  lemma ConsCappedAndSpaced(p: seq<Snapshot>, rest: seq<seq<Snapshot>>, tfs: seq<Timeframe>)
    requires tfs != [] && |rest| == |tfs| - 1
    requires |p| <= AtLeastOne(tfs[0].limit) && Spaced(p, tfs[0].duration)
    requires CappedAndSpaced(rest, tfs[1..])
    ensures CappedAndSpaced([p] + rest, tfs)
  {
    var r := [p] + rest;
    forall i | 0 < i < |r| ensures |r[i]| <= AtLeastOne(tfs[i].limit) && Spaced(r[i], tfs[i].duration) {
      assert r[i] == rest[i - 1];
      assert tfs[i] == tfs[1..][i - 1];
    }
  }

  /** Each timeframe keeps at most `AtLeastOne(limit)` snapshots, spaced by its interval less the margin. */
  lemma {:induction false} EachTimeframeCappedAndSpaced(order: seq<Snapshot>, tfs: seq<Timeframe>, claimed: set<Uuid>)
    ensures CappedAndSpaced(PicksPerTimeframe(order, tfs, claimed), tfs)
    decreases |tfs|
  {
    if tfs != [] {
      var p := Picks(order, tfs[0], None, 0, claimed);
      var rest := PicksPerTimeframe(order, tfs[1..], claimed + IdSet(p));
      EachTimeframeCappedAndSpaced(order, tfs[1..], claimed + IdSet(p));
      ConsCappedAndSpaced(p, rest, tfs);
      assert PicksPerTimeframe(order, tfs, claimed) == [p] + rest;
    }
  }

  /**
   * Every timeframe's picks come from `order` in walk order and avoid the ids
   * in `claimed` and the ids picked by the timeframes before it.
   */
  predicate AllFresh(ps: seq<seq<Snapshot>>, order: seq<Snapshot>, claimed: set<Uuid>)
  {
    forall i :: 0 <= i < |ps| ==> IsSubsequence(ps[i], order) && IdSet(ps[i]) !! claimed + AllIds(ps[..i])
  }

  /** No id is picked by two different timeframes. */
  predicate PairwiseDisjoint(ps: seq<seq<Snapshot>>)
  {
    forall i, j :: 0 <= i < j < |ps| ==> IdSet(ps[i]) !! IdSet(ps[j])
  }

  /** Fresh picks in front of picks that are fresh once their ids are claimed stay fresh together. */
  lemma ConsAllFresh(p: seq<Snapshot>, rest: seq<seq<Snapshot>>, order: seq<Snapshot>, claimed: set<Uuid>)
    requires IsSubsequence(p, order) && IdSet(p) !! claimed
    requires AllFresh(rest, order, claimed + IdSet(p))
    ensures AllFresh([p] + rest, order, claimed)
  {
    var r := [p] + rest;
    assert IdSet(r[0]) !! claimed + AllIds(r[..0]) by {
      assert r[..0] == [];
    }
    forall i | 0 < i < |r| ensures IsSubsequence(r[i], order) && IdSet(r[i]) !! claimed + AllIds(r[..i]) {
      assert r[i] == rest[i - 1];
      AllIdsPrefix(p, rest, i);
      assert claimed + AllIds(r[..i]) == (claimed + IdSet(p)) + AllIds(rest[..i - 1]);
    }
  }

  /**
   * Each timeframe retains only snapshots of the walk whose ids were not
   * retained before it: neither before the selector started nor by an
   * earlier timeframe.
   */
  lemma {:induction false} EachTimeframeClaimsFresh(order: seq<Snapshot>, tfs: seq<Timeframe>, claimed: set<Uuid>)
    ensures AllFresh(PicksPerTimeframe(order, tfs, claimed), order, claimed)
    decreases |tfs|
  {
    if tfs != [] {
      var p := Picks(order, tfs[0], None, 0, claimed);
      var claimed' := claimed + IdSet(p);
      var rest := PicksPerTimeframe(order, tfs[1..], claimed');
      EachTimeframeClaimsFresh(order, tfs[1..], claimed');
      PicksInWalkOrder(order, tfs[0], None, 0, claimed);
      assert IdSet(p) !! claimed;
      ConsAllFresh(p, rest, order, claimed);
      assert PicksPerTimeframe(order, tfs, claimed) == [p] + rest;
    }
  }

  /** A part of `b + c` that is disjoint from `a` leaves `c` disjoint from `a`. */
  lemma DisjointFromPart(a: set<Uuid>, b: set<Uuid>, c: set<Uuid>)
    requires a !! (b + c)
    ensures c !! a
  {
  }

  /**
   * Picks `p` followed by pairwise disjoint picks that all avoid the ids of
   * `p` are pairwise disjoint together.
   */
  lemma ConsDisjoint(p: seq<Snapshot>, rest: seq<seq<Snapshot>>, order: seq<Snapshot>, claimed: set<Uuid>)
    requires PairwiseDisjoint(rest)
    requires AllFresh(rest, order, claimed + IdSet(p))
    ensures PairwiseDisjoint([p] + rest)
  {
    var r := [p] + rest;
    forall i, j | 0 <= i < j < |r| ensures IdSet(r[i]) !! IdSet(r[j]) {
      assert r[j] == rest[j - 1];
      if i == 0 {
        DisjointFromPart(IdSet(rest[j - 1]), claimed, IdSet(p));
      } else {
        assert r[i] == rest[i - 1];
      }
    }
  }

  /** No two timeframes retain the same id: a snapshot claimed once is skipped from then on. */
  lemma {:induction false} TimeframesClaimDisjointly(order: seq<Snapshot>, tfs: seq<Timeframe>, claimed: set<Uuid>)
    ensures PairwiseDisjoint(PicksPerTimeframe(order, tfs, claimed))
    decreases |tfs|
  {
    if tfs != [] {
      var p := Picks(order, tfs[0], None, 0, claimed);
      var claimed' := claimed + IdSet(p);
      var rest := PicksPerTimeframe(order, tfs[1..], claimed');
      TimeframesClaimDisjointly(order, tfs[1..], claimed');
      EachTimeframeClaimsFresh(order, tfs[1..], claimed');
      ConsDisjoint(p, rest, order, claimed);
      assert PicksPerTimeframe(order, tfs, claimed) == [p] + rest;
    }
  }

  /**
   * The set `categorizeSnapshots` returns for `snapshots`, when `sort.Slice`
   * put them in the newest-first order `order`.
   */
  function CategorizeSnapshots(snapshots: seq<Snapshot>, order: seq<Snapshot>, retention: SnapshotRetention): (r: set<Uuid>)
    requires IsNewestFirstOrder(order, snapshots)
    ensures r <= IdSet(snapshots)
    ensures r == {} <==> snapshots == []
    ensures |r| <= Capacity(Timeframes(retention))
  {
    OrderKeepsIds(order, snapshots);
    var tfs := Timeframes(retention);
    if order != [] then
      assert order[0] in order;
      RetainAll(order, tfs, {})
    else
      RetainAll(order, tfs, {})
  }

  /**
   * What `categorizeSnapshots` promises as a whole: the retained set is the
   * union of what the five timeframes claim, each within its cap and spacing,
   * each only from the input, and no two claiming the same id.
   */
  lemma CategorizeSnapshotsByTimeframe(snapshots: seq<Snapshot>, order: seq<Snapshot>, retention: SnapshotRetention)
    requires IsNewestFirstOrder(order, snapshots)
    ensures var tfs := Timeframes(retention);
            var r := PicksPerTimeframe(order, tfs, {});
            && CategorizeSnapshots(snapshots, order, retention) == AllIds(r)
            && CappedAndSpaced(r, tfs)
            && AllFresh(r, order, {})
            && PairwiseDisjoint(r)
            && SeesEarlierClaims(r, order, tfs, {})
  {
    var tfs := Timeframes(retention);
    var r := PicksPerTimeframe(order, tfs, {});
    assert CappedAndSpaced(r, tfs) by { EachTimeframeCappedAndSpaced(order, tfs, {}); }
    assert AllFresh(r, order, {}) by { EachTimeframeClaimsFresh(order, tfs, {}); }
    assert PairwiseDisjoint(r) by { TimeframesClaimDisjointly(order, tfs, {}); }
    assert SeesEarlierClaims(r, order, tfs, {}) by { EachTimeframeSeesEarlierClaims(order, tfs, {}); }
    assert {} + AllIds(r) == AllIds(r);
  }

  /** The smaller of `a` and `b`. */
  function Min(a: int, b: int): int
  {
    if a <= b then a else b
  }

  /**
   * With every limit at most one, each timeframe retains exactly one snapshot
   * as long as unclaimed ids remain: a limit of zero does not retain nothing.
   */
  lemma {:induction false} SmallLimitsRetainOneEach(order: seq<Snapshot>, tfs: seq<Timeframe>, claimed: set<Uuid>)
    requires forall i :: 0 <= i < |tfs| ==> tfs[i].limit <= 1
    requires claimed <= IdSet(order)
    ensures |RetainAll(order, tfs, claimed)| == Min(|claimed| + |tfs|, |IdSet(order)|)
  {
    SmallLimitsRetainUpTo(order, tfs, claimed, Min(|claimed| + |tfs|, |IdSet(order)|));
  }

  /** `SmallLimitsRetainOneEach` with the final size named `n`, which every step keeps. */
  lemma {:induction false} SmallLimitsRetainUpTo(order: seq<Snapshot>, tfs: seq<Timeframe>, claimed: set<Uuid>, n: int)
    requires forall i :: 0 <= i < |tfs| ==> tfs[i].limit <= 1
    requires claimed <= IdSet(order)
    requires n == Min(|claimed| + |tfs|, |IdSet(order)|)
    ensures |RetainAll(order, tfs, claimed)| == n
    decreases |tfs|
  {
    var ids := IdSet(order);
    if tfs == [] {
      assert |claimed| <= |ids| by { SubsetSize(claimed, ids); }
    } else {
      var tfs' := tfs[1..];
      var next := RetainForTimeframe(order, tfs[0], claimed);
      assert forall i :: 0 <= i < |tfs'| ==> tfs'[i].limit <= 1 by {
        forall i | 0 <= i < |tfs'| ensures tfs'[i].limit <= 1 {
          assert tfs'[i] == tfs[i + 1];
        }
      }
      SmallLimitRetainsOne(order, tfs[0], claimed);
      assert n == Min(|next| + |tfs'|, |ids|);
      SmallLimitsRetainUpTo(order, tfs', next, n);
      assert RetainAll(order, tfs, claimed) == RetainAll(order, tfs', next);
    }
  }

  /** One timeframe adds exactly one id while some id of the walk is unclaimed, and none after. */
  lemma SmallLimitRetainsOne(order: seq<Snapshot>, tf: Timeframe, claimed: set<Uuid>)
    requires tf.limit <= 1 && claimed <= IdSet(order)
    ensures var next := RetainForTimeframe(order, tf, claimed);
            next <= IdSet(order)
            && (claimed == IdSet(order) ==> next == claimed)
            && (claimed != IdSet(order) ==> |next| == |claimed| + 1 && |claimed| < |IdSet(order)|)
  {
    var next := RetainForTimeframe(order, tf, claimed);
    SupersetSize(claimed, next);
    if claimed != IdSet(order) {
      var id :| id in IdSet(order) && id !in claimed;
      assert next != claimed;
      SubsetSize(claimed, IdSet(order));
    }
  }

  /** A subset is no larger than its superset, and a proper subset is smaller. */
  lemma SubsetSize(a: set<Uuid>, b: set<Uuid>)
    requires a <= b
    ensures |a| <= |b|
    ensures a < b ==> |a| < |b|
  {
    SupersetSize(a, b);
    if a < b {
      var x :| x in b && x !in a;
      assert x in b - a;
    }
  }

  /**
   * An all-zero policy still keeps the newest snapshots: up to five ids, one
   * per timeframe, because each timeframe tests its limit only after a
   * retention.
   */
  lemma ZeroPolicyStillRetains(snapshots: seq<Snapshot>, order: seq<Snapshot>, retention: SnapshotRetention)
    requires IsNewestFirstOrder(order, snapshots)
    requires retention.hourly <= 1 && retention.daily <= 1 && retention.weekly <= 1
    requires retention.monthly <= 1 && retention.yearly <= 1
    ensures |CategorizeSnapshots(snapshots, order, retention)| == Min(5, |IdSet(snapshots)|)
  {
    OrderKeepsIds(order, snapshots);
    SmallLimitsRetainOneEach(order, Timeframes(retention), {});
  }

  /** No two snapshots of `s` share an id. */
  predicate DistinctIds(s: seq<Snapshot>)
  {
    forall i, j :: 0 <= i < j < |s| ==> s[i].id != s[j].id
  }

  /**
   * With distinct ids and every limit at most one, the timeframes take the
   * snapshots in walk order, one each: after the first `m` are claimed, the
   * next `|tfs|` (or all that remain) are.
   */
  lemma {:induction false} SmallLimitsTakeInWalkOrder(order: seq<Snapshot>, tfs: seq<Timeframe>, m: nat)
    requires DistinctIds(order) && m <= |order|
    requires forall i :: 0 <= i < |tfs| ==> tfs[i].limit <= 1
    ensures RetainAll(order, tfs, IdSet(order[..m])) == IdSet(order[..Min(m + |tfs|, |order|)])
  {
    SmallLimitsTakeUpTo(order, tfs, m, Min(m + |tfs|, |order|));
  }

  /** `SmallLimitsTakeInWalkOrder` with the end of the claimed prefix named `n`, for the induction. */
  lemma {:induction false} SmallLimitsTakeUpTo(order: seq<Snapshot>, tfs: seq<Timeframe>, m: nat, n: nat)
    requires DistinctIds(order) && m <= n <= |order| && n == Min(m + |tfs|, |order|)
    requires forall i :: 0 <= i < |tfs| ==> tfs[i].limit <= 1
    ensures RetainAll(order, tfs, IdSet(order[..m])) == IdSet(order[..n])
    decreases |tfs|
  {
    if tfs == [] {
    } else if m == |order| {
      assert order[..m] == order;
      AllClaimedIsFixpoint(order, tfs, IdSet(order));
    } else {
      var tfs' := tfs[1..];
      assert forall i :: 0 <= i < |tfs'| ==> tfs'[i].limit <= 1 by {
        forall i | 0 <= i < |tfs'| ensures tfs'[i].limit <= 1 {
          assert tfs'[i] == tfs[i + 1];
        }
      }
      SmallLimitsFirstStep(order, tfs, m);
      SmallLimitsTakeUpTo(order, tfs', m + 1, n);
    }
  }

  /** The first timeframe of `tfs`, with a limit of at most one, claims the next snapshot of the walk. */
  lemma SmallLimitsFirstStep(order: seq<Snapshot>, tfs: seq<Timeframe>, m: nat)
    requires DistinctIds(order) && m < |order|
    requires tfs != [] && tfs[0].limit <= 1
    ensures RetainAll(order, tfs, IdSet(order[..m])) == RetainAll(order, tfs[1..], IdSet(order[..m + 1]))
  {
    SmallLimitTakesNext(order, tfs[0], m);
  }

  /** With distinct ids and a limit of at most one, a timeframe claims just the next snapshot of the walk. */
  lemma SmallLimitTakesNext(order: seq<Snapshot>, tf: Timeframe, m: nat)
    requires DistinctIds(order) && m < |order| && tf.limit <= 1
    ensures RetainForTimeframe(order, tf, IdSet(order[..m])) == IdSet(order[..m + 1])
  {
    var claimed := IdSet(order[..m]);
    NextIdUnclaimed(order, m);
    NewestUnclaimedRetainedAnyOrder(order, tf, claimed, m);
    var next := RetainForTimeframe(order, tf, claimed);
    OnlyAddition(claimed, next, order[m].id);
    IdSetSnoc(order, m);
  }

  /** Under distinct ids, the snapshot at `m` is not among the ids before it, but all earlier ones are. */
  lemma NextIdUnclaimed(order: seq<Snapshot>, m: nat)
    requires DistinctIds(order) && m < |order|
    ensures forall k :: 0 <= k < m ==> order[k].id in IdSet(order[..m])
    ensures order[m].id !in IdSet(order[..m])
  {
    forall k | 0 <= k < m ensures order[k].id in IdSet(order[..m]) {
      assert order[k] in order[..m];
    }
  }

  /** A set that grows by at most one element, and by `x`, grows by exactly `x`. */
  lemma OnlyAddition(a: set<Uuid>, b: set<Uuid>, x: Uuid)
    requires a <= b && x in b && x !in a && |b - a| <= 1
    ensures b == a + {x}
  {
    assert x in b - a;
    if b - a != {x} {
      var y :| y in b - a && y != x;
      assert {x, y} <= b - a;
      assert |{x, y}| == 2;
      SubsetSize({x, y}, b - a);
    }
  }

  /** The ids of a prefix one longer gain the id of the new last snapshot. */
  lemma IdSetSnoc(order: seq<Snapshot>, m: nat)
    requires m < |order|
    ensures IdSet(order[..m + 1]) == IdSet(order[..m]) + {order[m].id}
  {
    assert order[..m + 1] == order[..m] + [order[m]];
  }
}
