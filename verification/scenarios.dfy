/**
 * Concrete runs of the selector: a limit of 0 that still keeps a snapshot,
 * and a tie order that decides which snapshot is deleted.
 */
module Scenarios {
  import opened Wrappers
  import opened Snapshots
  import opened Retention

  /** Snapshots taken at hour 1000, 30 minutes, 90 minutes and 25 hours before, in nanoseconds. */
  function Taken(): seq<Snapshot>
  {
    [ Snapshot("a", "vm", 3_600_000_000_000_000),
      Snapshot("b", "vm", 3_598_200_000_000_000),
      Snapshot("c", "vm", 3_594_600_000_000_000),
      Snapshot("d", "vm", 3_510_000_000_000_000) ]
  }

  /** The hourly timeframe keeps a, passes over b (30 minutes is under 54) and stops at c, its second. */
  lemma HourlyKeepsAC()
    ensures RetainForTimeframe(Taken(), Timeframe(Hour, 2), {}) == {"a", "c"}
  {
    var s := Taken();
    var tf := Timeframe(Hour, 2);
    assert Picks(s[2..], tf, Some(s[0].createdAt), 1, {"a"}) == [s[2]];
    assert Picks(s[1..], tf, Some(s[0].createdAt), 1, {"a"}) == [s[2]];
    assert {} + {"a"} == {"a"};
    assert Picks(s, tf, None, 0, {}) == [s[0], s[2]];
    assert IdSet([s[0], s[2]]) == {"a", "c"};
  }

  /** The daily timeframe keeps b, the newest snapshot left unclaimed, and stops at its limit of 1. */
  lemma DailyKeepsB()
    ensures RetainForTimeframe(Taken(), Timeframe(24 * Hour, 1), {"a", "c"}) == {"a", "b", "c"}
  {
    var s := Taken();
    var tf := Timeframe(24 * Hour, 1);
    assert Picks(s[1..], tf, None, 0, {"a", "c"}) == [s[1]];
    assert Picks(s, tf, None, 0, {"a", "c"}) == [s[1]];
    assert IdSet([s[1]]) == {"b"};
  }

  /** The weekly timeframe, with a limit of 0, still keeps d, the one snapshot left. */
  lemma WeeklyKeepsD()
    ensures RetainForTimeframe(Taken(), Timeframe(7 * 24 * Hour, 0), {"a", "b", "c"}) == {"a", "b", "c", "d"}
  {
    var s := Taken();
    var tf := Timeframe(7 * 24 * Hour, 0);
    assert Picks(s, tf, None, 0, {"a", "b", "c"}) == [s[3]] by {
      assert Picks(s[3..], tf, None, 0, {"a", "b", "c"}) == [s[3]];
      assert Picks(s[2..], tf, None, 0, {"a", "b", "c"}) == [s[3]];
      assert Picks(s[1..], tf, None, 0, {"a", "b", "c"}) == [s[3]];
    }
    assert IdSet([s[3]]) == {"d"};
  }

  /** After the weekly timeframe every snapshot is claimed, so the monthly and yearly ones add nothing. */
  lemma RestAddNothing(tfs: seq<Timeframe>)
    ensures RetainAll(Taken(), tfs, {"a", "b", "c", "d"}) == {"a", "b", "c", "d"}
  {
    var s := Taken();
    forall x | x in s ensures x.id in {"a", "b", "c", "d"} {
      var k :| 0 <= k < |s| && s[k] == x;
    }
    AllClaimedIsFixpoint(s, tfs, {"a", "b", "c", "d"});
  }

  /**
   * Policy {hourly: 2, daily: 1} over the snapshots of `Taken`: every
   * snapshot is retained, the 30-minute one by the daily timeframe and the
   * 25-hour one by the weekly timeframe despite its limit of 0.
   */
  lemma HourlyTwoDailyOne()
    ensures CategorizeSnapshots(Taken(), Taken(), SnapshotRetention(2, 1, 0, 0, 0)) == {"a", "b", "c", "d"}
  {
    var s := Taken();
    var tfs := Timeframes(SnapshotRetention(2, 1, 0, 0, 0));
    assert IsNewestFirstOrder(s, s);
    HourlyKeepsAC();
    DailyKeepsB();
    WeeklyKeepsD();
    RestAddNothing(tfs[3..]);
    assert tfs[2..][1..] == tfs[3..];
    assert tfs[1..][1..] == tfs[2..];
  }

  /** Six snapshots taken at the same instant, listed in one order. */
  function Tied(): seq<Snapshot>
  {
    [ Snapshot("1", "vm", 1000), Snapshot("2", "vm", 1000), Snapshot("3", "vm", 1000),
      Snapshot("4", "vm", 1000), Snapshot("5", "vm", 1000), Snapshot("6", "vm", 1000) ]
  }

  /** The same six snapshots in the opposite order, equally newest first. */
  function TiedReversed(): seq<Snapshot>
  {
    [ Snapshot("6", "vm", 1000), Snapshot("5", "vm", 1000), Snapshot("4", "vm", 1000),
      Snapshot("3", "vm", 1000), Snapshot("2", "vm", 1000), Snapshot("1", "vm", 1000) ]
  }

  /** The id of the `i`-th snapshot of `Tied`: its 1-based position as a digit. */
  lemma TiedIdIsPosition(i: nat)
    requires i < 6
    ensures Tied()[i].id == [('1' as int + i) as char]
    ensures TiedReversed()[i].id == [('6' as int - i) as char]
  {
  }

  /** Both listings hold the same six snapshots. */
  lemma TiedSameSnapshots()
    ensures multiset(TiedReversed()) == multiset(Tied())
  {
  }

  /** Both listings are newest first: all six were taken at the same instant. */
  lemma TiedNewestFirst()
    ensures NewestFirst(Tied()) && NewestFirst(TiedReversed())
  {
    assert forall i :: 0 <= i < 6 ==> Tied()[i].createdAt == 1000 && TiedReversed()[i].createdAt == 1000;
  }

  /** No two of the six share an id, in either listing. */
  lemma TiedDistinct()
    ensures DistinctIds(Tied()) && DistinctIds(TiedReversed())
  {
    forall i, j | 0 <= i < j < 6
      ensures Tied()[i].id != Tied()[j].id && TiedReversed()[i].id != TiedReversed()[j].id
    {
      TiedIdIsPosition(i);
      TiedIdIsPosition(j);
      assert Tied()[i].id[0] != Tied()[j].id[0];
      assert TiedReversed()[i].id[0] != TiedReversed()[j].id[0];
    }
  }

  /** Under an all-zero policy the first five snapshots of a tied walk survive. */
  lemma AllZeroKeepsFirstFive(s: seq<Snapshot>)
    requires IsNewestFirstOrder(s, Tied()) && DistinctIds(s)
    ensures CategorizeSnapshots(Tied(), s, SnapshotRetention(0, 0, 0, 0, 0)) == IdSet(s[..5])
  {
    OrderKeepsIds(s, Tied());
    assert s[..0] == [];
    SmallLimitsTakeInWalkOrder(s, Timeframes(SnapshotRetention(0, 0, 0, 0, 0)), 0);
  }

  /**
   * For a list this short (twelve or fewer), `sort.Slice` sorts by
   * insertion and never swaps tied snapshots, so their newest-first order
   * follows the order in which they are listed, and that order decides which one is deleted: under an
   * all-zero policy each timeframe keeps one snapshot, so five of the six
   * survive, but which five depends on the listing. The selection is not a
   * function of the set of snapshots.
   */
  lemma TieOrderDecidesDeletion()
    ensures IsNewestFirstOrder(Tied(), Tied()) && IsNewestFirstOrder(TiedReversed(), Tied())
    ensures "6" !in CategorizeSnapshots(Tied(), Tied(), SnapshotRetention(0, 0, 0, 0, 0))
    ensures "6" in CategorizeSnapshots(Tied(), TiedReversed(), SnapshotRetention(0, 0, 0, 0, 0))
  {
    TiedSameSnapshots();
    TiedNewestFirst();
    TiedDistinct();
    AllZeroKeepsFirstFive(Tied());
    AllZeroKeepsFirstFive(TiedReversed());
    SixOnlyLastInTied();
  }

  /** Snapshot "6" comes last in `Tied` and first in `TiedReversed`. */
  lemma SixOnlyLastInTied()
    ensures "6" !in IdSet(Tied()[..5])
    ensures "6" in IdSet(TiedReversed()[..5])
  {
    assert TiedReversed()[..5][0].id == "6";
    var first := Tied()[..5];
    forall x | x in first ensures x.id != "6" {
      var k :| 0 <= k < 5 && first[k] == x;
      TiedIdIsPosition(k);
    }
  }
}
