/**
 Three worked allocations, computed through the model for every reference
 instant `now` (milliseconds) and every positive unit of credit `u`. The
 figures in the comments below are the case `u == 1.0`.
 */
module Scenarios {
  import opened Credit
  import opened Priority
  import opened Totals
  import opened Allocator

  const Day: int := 86_400_000

  // Scenario 1: free 50 and a package of 100 expiring a day later; usage 120.

  lemma FreeBeforePackageOrder(now: int, u: real)
    requires u > 0.0
    ensures var free := Bucket(Free, 50.0 * u, 0.0, None);
            var package := Bucket(Package, 100.0 * u, 0.0, Some(now + Day));
            PriorityOrder([free, package], now) == [0, 1]
  {
    var free := Bucket(Free, 50.0 * u, 0.0, None);
    var package := Bucket(Package, 100.0 * u, 0.0, Some(now + Day));
    var credits := [free, package];
    assert Indices(2) == [0, 1];
    assert [0, 1][1..] == [1];
    assert SortIndices(credits, now, [1]) == [1];
    assert Precedes(free, package, now);
    assert Insert(credits, now, 0, [1]) == [0, 1];
  }

  lemma FreeBeforePackageWalk(now: int, u: real)
    requires u > 0.0
    ensures var free := Bucket(Free, 50.0 * u, 0.0, None);
            var package := Bucket(Package, 100.0 * u, 0.0, Some(now + Day));
            var entries := [Entry(Free, 50.0 * u, UsedNotice(None)), Entry(Package, 70.0 * u, UsedNotice(Some(now + Day)))];
            WalkOrder([free, package], [0, 1], 120.0 * u, now)
              == Walked([free.(used := 50.0 * u), package.(used := 70.0 * u)], entries, 0.0)
  {
    var free := Bucket(Free, 50.0 * u, 0.0, None);
    var package := Bucket(Package, 100.0 * u, 0.0, Some(now + Day));
    var afterFree := [free.(used := 50.0 * u), package];
    var afterPackage := [free.(used := 50.0 * u), package.(used := 70.0 * u)];
    assert Draw(free, 120.0 * u, now) == Entry(Free, 50.0 * u, UsedNotice(None));
    assert [free, package][0 := Deduct(free, 50.0 * u)] == afterFree;
    assert Draw(package, 70.0 * u, now) == Entry(Package, 70.0 * u, UsedNotice(Some(now + Day)));
    assert afterFree[1 := Deduct(package, 70.0 * u)] == afterPackage;
    assert [0, 1][1..] == [1];
    assert WalkOrder(afterPackage, [], 0.0, now) == Walked(afterPackage, [], 0.0);
    assert WalkOrder(afterFree, [1], 70.0 * u, now)
        == Walked(afterPackage, [Entry(Package, 70.0 * u, UsedNotice(Some(now + Day)))], 0.0);
  }

  /** Free credit is used up before the package, which covers the rest. */
  lemma FreeBeforePackage(now: int, u: real)
    requires u > 0.0
    ensures var free := Bucket(Free, 50.0 * u, 0.0, None);
            var package := Bucket(Package, 100.0 * u, 0.0, Some(now + Day));
            var r := CalculateCreditUsage([free, package], 120.0 * u, now);
            && r.usageBreakdown == [Entry(Free, 50.0 * u, UsedNotice(None)),
                                    Entry(Package, 70.0 * u, UsedNotice(Some(now + Day)))]
            && r.remainingUsage == 0.0
            && r.remainingTotal == 30.0 * u
  {
    var free := Bucket(Free, 50.0 * u, 0.0, None);
    var package := Bucket(Package, 100.0 * u, 0.0, Some(now + Day));
    var after := [free.(used := 50.0 * u), package.(used := 70.0 * u)];
    FreeBeforePackageOrder(now, u);
    FreeBeforePackageWalk(now, u);
    assert Available(after[0], now) == 0.0;
    assert Available(after[1], now) == 30.0 * u;
    assert after[1..] == [after[1]];
    assert after[1..][1..] == [];
    assert TotalAvailable(after[1..], now) == 30.0 * u;
  }

  // Scenario 2: a package of 100 that expired a day earlier; usage 10.

  /** An expired package yields a zero "expired" entry and covers nothing. */
  lemma ExpiredPackageCoversNothing(now: int, u: real)
    requires u > 0.0
    ensures var package := Bucket(Package, 100.0 * u, 0.0, Some(now - Day));
            var r := CalculateCreditUsage([package], 10.0 * u, now);
            && r.usageBreakdown == [Entry(Package, 0.0, ExpiredNotice)]
            && r.remainingUsage == 10.0 * u
            && r.remainingTotal == 0.0
  {
    var package := Bucket(Package, 100.0 * u, 0.0, Some(now - Day));
    assert Indices(1) == [0];
    assert PriorityOrder([package], now) == [0];
    assert Draw(package, 10.0 * u, now) == Entry(Package, 0.0, ExpiredNotice);
    assert [package][0 := Deduct(package, 0.0)] == [package];
    assert WalkOrder([package], [], 10.0 * u, now) == Walked([package], [], 10.0 * u);
    assert WalkOrder([package], [0], 10.0 * u, now)
        == Walked([package], [Entry(Package, 0.0, ExpiredNotice)], 10.0 * u);
    assert TotalAvailable([package], now) == 0.0;
  }

  // Scenario 3: a package expiring in two days and a top-up expiring in one; usage 5.

  lemma SoonestExpiryOrder(now: int, u: real)
    requires u > 0.0
    ensures var package := Bucket(Package, 10.0 * u, 0.0, Some(now + 2 * Day));
            var topup := Bucket(Topup, 10.0 * u, 0.0, Some(now + Day));
            PriorityOrder([package, topup], now) == [1, 0]
  {
    var package := Bucket(Package, 10.0 * u, 0.0, Some(now + 2 * Day));
    var topup := Bucket(Topup, 10.0 * u, 0.0, Some(now + Day));
    var credits := [package, topup];
    assert Indices(2) == [0, 1];
    assert [0, 1][1..] == [1];
    assert SortIndices(credits, now, [1]) == [1];
    assert !Precedes(package, topup, now);
    assert Insert(credits, now, 0, []) == [0];
  }

  lemma SoonestExpiryWalk(now: int, u: real)
    requires u > 0.0
    ensures var package := Bucket(Package, 10.0 * u, 0.0, Some(now + 2 * Day));
            var topup := Bucket(Topup, 10.0 * u, 0.0, Some(now + Day));
            WalkOrder([package, topup], [1, 0], 5.0 * u, now)
              == Walked([package, topup.(used := 5.0 * u)], [Entry(Topup, 5.0 * u, UsedNotice(Some(now + Day)))], 0.0)
  {
    var package := Bucket(Package, 10.0 * u, 0.0, Some(now + 2 * Day));
    var topup := Bucket(Topup, 10.0 * u, 0.0, Some(now + Day));
    var after := [package, topup.(used := 5.0 * u)];
    assert Draw(topup, 5.0 * u, now) == Entry(Topup, 5.0 * u, UsedNotice(Some(now + Day)));
    assert [package, topup][1 := Deduct(topup, 5.0 * u)] == after;
    assert [1, 0][1..] == [0];
    assert WalkOrder(after, [0], 0.0, now) == Walked(after, [], 0.0);
  }

  /** Of two valid buckets the one expiring sooner is drawn first, and the
      other is untouched. */
  lemma SoonestExpiryFirst(now: int, u: real)
    requires u > 0.0
    ensures var package := Bucket(Package, 10.0 * u, 0.0, Some(now + 2 * Day));
            var topup := Bucket(Topup, 10.0 * u, 0.0, Some(now + Day));
            var r := CalculateCreditUsage([package, topup], 5.0 * u, now);
            && r.usageBreakdown == [Entry(Topup, 5.0 * u, UsedNotice(Some(now + Day)))]
            && r.remainingUsage == 0.0
            && r.credits == [package, topup.(used := 5.0 * u)]
  {
    SoonestExpiryOrder(now, u);
    SoonestExpiryWalk(now, u);
  }
}
