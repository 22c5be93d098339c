# Credit deduction engine — a Dafny model

This project models the credit-deduction engine of the DemoTesting credit calculator (`web/index.js`, lines 8-87). It covers two parts.

- **Credit buckets.** `createCreditObject` builds a bucket of free, package or top-up credit, with three methods: `getExpiryDate`, `isExpired` and `getAvailableAmount`.
- **The allocator.** `calculateCreditUsage` does three things:
  - it sorts a copy of the bucket list into priority order: free first, then valid non-free buckets by soonest expiry, then expired ones;
  - it walks that order and deducts the usage from each bucket in turn, writing one breakdown entry per bucket it visits;
  - it reports the usage it could not deduct and the total still available over the original list.

The model is written with pure functions over immutable values.

- **Amounts and instants.** Amounts are exact `real`s. Instants are `int` milliseconds.
- **Positions instead of objects.** The source mutates the caller's bucket objects, because the sorted copy shares them with the input list. In the model, the sort permutes the indices `0..n-1`, and the walk returns the bucket list with each visited bucket's `used` raised. Every bucket stays at its input position.
- **Messages.** A breakdown entry's message is modelled as a `Notice`:
  - `ExpiredNotice` for the "credit expired (value set to 0)" text;
  - `UsedNotice(expiry)` for the "Used … from … credit (expires …)" text.

  The source writes the "expired" text whenever nothing is available, so a valid bucket that is fully used is also reported as expired. The model keeps that behaviour.
- **Modules.** There is one module per concept:
  - `Credit`: buckets and their three methods;
  - `Priority`: the sort key, the comparator as written, and the stable sort;
  - `Totals`: sums over bucket lists;
  - `Allocator`: the walk and `calculateCreditUsage`;
  - `Scenarios`: three worked allocations.

In two places the model follows the code rather than the obvious intent:
- Availability is not clamped at zero, so a bucket used beyond its amount has a negative balance.
- A missing expiry compares as the epoch, because `aExpiry - bExpiry` turns `null` into 0.

## Model

| member | source | states |
|---|---|---|
| Credit.ExpiryDate | web/index.js:14-17 | A free bucket reports no expiry. Any other bucket reports its own expiry instant, which may be missing. |
| Credit.IsExpired | web/index.js:14-21 | A free bucket never expires. A non-free bucket is expired exactly when it has an expiry instant and the date is strictly after it. |
| Credit.Available | web/index.js:22-25 | Availability is 0 when expired and exactly `amount - used` whenever not expired. It is always `amount - used` for free credit. It lies between 0 and `amount - used` when `used <= amount`. |
| Credit.ValidUpToExpiry | web/index.js:18-21 | A bucket is still valid, with its full balance, at its own expiry instant and at every earlier date. |
| Credit.ExpiryIsPermanent | web/index.js:18-25 | Moving the date forward never revives an expired bucket. Until expiry, the balance does not depend on the date. |
| Priority.PrecedesIsTotalPreorder | web/index.js:34-50 | The priority key (rank: free, valid, expired; then expiry instant) is reflexive, total and transitive, so it is a valid sort order. |
| Priority.SourceComparator | web/index.js:34-50 | The comparator as written, read against the key. A lower rank (free, then valid, then expired) gives a negative value, and a higher rank a positive one. Two free buckets give -1. Two valid non-free buckets give the difference of their expiry instants, with a missing one counted as 0. Two expired buckets give 0. |
| Priority.SourceComparatorMatchesKey | web/index.js:34-50 | The comparator as written returns a value `<= 0` exactly when the key lets `a` go first. Unless both buckets are free, it returns a value `< 0` exactly when `a` must go first. |
| Priority.SourceComparatorIsInconsistent | web/index.js:36-37 | For any two free buckets and any date, the comparator as written puts each before the other. |
| Priority.PriorityOrder | web/index.js:34-50 | The priority order is a permutation of all input positions. It is sorted by the key, keeps ties in input order, and gathers the same multiset of buckets. |
| Priority.SortedIffPriorityRules | web/index.js:33-50 | Being sorted by the key is equivalent to obeying the three rules. Free buckets come before non-free ones. Among non-free buckets, valid ones come before expired ones. Among valid non-free buckets, the soonest expiry comes first. |
| Priority.SortedCopy | web/index.js:34-50 | The sorted copy has the same buckets, as a multiset, and obeys the three priority rules. |
| Totals.TotalAvailable | web/index.js:85 | The `reduce` over the bucket list. The sum is not negative when no bucket is overdrawn, and not positive when no bucket has anything available. |
| Totals.TotalAvailableIsDrawable | web/index.js:85 | When no bucket is overdrawn, the remaining total equals the total the allocator could draw. |
| Totals.TotalAvailableUpdate | web/index.js:70-85 | Changing one bucket changes the remaining total by exactly the change in that bucket's availability. |
| Totals.DrawableTotalPermutation | web/index.js:34-52 | Reordering the buckets does not change the total credit the walk can draw. |
| Allocator.Draw | web/index.js:56-78 | With usage still due, the step writes one of two entries. If nothing is available, it is a zero "expired" entry. Otherwise it is a positive deduction equal to the smaller of the balance and the remaining usage, carrying the bucket's reported expiry. The bucket's availability falls by the entry's amount. |
| Allocator.WalkOrder | web/index.js:52-80 | The breakdown accounts for exactly the usage deducted, with at most one entry per position in the order. The remaining usage never grows and never goes negative from a positive start. Nothing happens when the usage is not positive. The walk stops early only once the usage is covered. |
| Allocator.WalkReports | web/index.js:58-78 | Entry `j` reports bucket `order[j]` as it stood before the walk: either a zero "expired" entry for a bucket with nothing available, or a positive amount no larger than its balance, carrying its reported expiry. |
| Allocator.WalkDrawsAt | web/index.js:52-71 | For one entry `j`: the usage still due before it is positive, and the entry is exactly the draw on bucket `order[j]` for that due usage. |
| Allocator.WalkDraws | web/index.js:52-71 | The walk is greedy in the given order. Before entry `j` the usage still due (the usage minus the first `j` entries) is positive. Entry `j` is exactly the draw on bucket `order[j]` for that due usage: the smaller of its balance and the due usage, or a zero "expired" entry when it has nothing. So no entry follows once the usage is covered. |
| Allocator.WalkUpdates | web/index.js:67-71 | Each visited bucket's `used` grows by exactly its entry's amount. |
| Allocator.WalkLeavesOthers | web/index.js:52-53 | Buckets the walk did not reach are unchanged. |
| Allocator.WalkDrains | web/index.js:52-71 | If usage remains after the walk, every visited bucket gave all it had available. |
| Allocator.WalkTotal | web/index.js:67-85 | The total availability falls by exactly the usage deducted. |
| Allocator.WalkShortfall | web/index.js:52-80 | For positive usage, the usage left after the walk is `max(0, usage - drawable)`, where `drawable` sums the positive balances of the buckets walked. (For non-positive usage the walk does nothing; see `Allocator.WalkOrder`.) |
| Allocator.CalculateCreditUsage | web/index.js:29-87 | Conservation: the entries sum to `usageAmount - remainingUsage`. For non-negative usage, `remainingUsage` lies in `[0, usageAmount]`. For non-positive usage nothing changes. The walk reaches every bucket unless the usage is covered first. Greedy draining in priority order: before entry `j` the usage still due is positive, and entry `j` is exactly the draw on the `j`-th bucket of the sorted copy for that due usage. So no entry follows once the usage is covered. |
| Allocator.BreakdownFollowsPriority | web/index.js:52-78 | Entry `j` reports the `j`-th bucket of the sorted copy as it stood before the call: a zero "expired" entry or a positive amount no larger than its balance. |
| Allocator.RemainingTotalAccounting | web/index.js:82-86 | `remainingTotal` is the input list's total availability minus exactly the usage deducted. |
| Allocator.RemainingUsageIsShortfall | web/index.js:29-80 | For non-positive usage nothing is deducted and `remainingUsage` is the usage itself. Otherwise `remainingUsage` is the shortfall of the total positive balance, `max(0, usage - drawable)`. For non-negative usage it is 0 exactly when the buckets can cover the usage. |
| Allocator.InsufficientCreditExhaustsBuckets | web/index.js:52-85 | When usage remains, every bucket was visited and has nothing available, and `remainingTotal <= 0`. |
| Allocator.WalkExhausts | web/index.js:52-71 | When the walk ends with usage remaining, no visited bucket has a positive balance. |
| Allocator.DeductionsMatchBreakdown | web/index.js:52-79 | Only `used` changes. Visited buckets grow by exactly their entries' amounts, in priority order. Unreached buckets are untouched. No bucket grows by more than it had to give. |
| Scenarios.FreeBeforePackage | web/index.js:29-87 | Free 50 and a package of 100 valid for a day, with usage 120. Entries are free 50 then package 70; nothing remains; the remaining total is 30 (scaled by any unit). |
| Scenarios.ExpiredPackageCoversNothing | web/index.js:29-87 | A package that expired a day ago, with usage 10. One zero "expired" entry; all 10 remain; the remaining total is 0. |
| Scenarios.SoonestExpiryFirst | web/index.js:29-87 | A top-up expiring in one day is drawn before a package expiring in two. The package is untouched. |

## Left out

- `calculateTotal`, `testFutureScenario` and the rest of `web/index.js` after line 87 are left out. They read the DOM, parse form input, build `Date`s from the clock and render HTML.
- `CREDIT_RULES` is left out because nothing reads it.
- `vite.config.js` is left out because it is build configuration.
- Floating-point arithmetic, `NaN` amounts and invalid `Date`s are not modelled. Amounts are exact reals and instants are integers.
- An `undefined` expiry is not modelled. A missing expiry is `null`, which compares as 0; `undefined` would make the comparator return `NaN`.
- The text of the breakdown messages (`toFixed(2)`, `toLocaleString`) is not modelled. Each message is reduced to its `Notice`.
- The order the engine's sort actually produces is not modelled. The comparator as written is not a consistent comparator (see Findings), so that order depends on the engine. The model sorts with the consistent key it is meant to express, using a stable insertion sort.
- The `deduction > 0` guard (line 69) has no branch of its own. It always holds there, because `Allocator.Draw` proves every deduction positive.
- Aliasing is not modelled: a list that holds the same bucket object twice has no counterpart here. Buckets are values at distinct positions.
- The source returns no `credits` field. Its effect on the caller's objects is modelled as the updated list in the `credits` field of `Usage`.

## Findings

| source | as written | input that shows it | evidently intended | confidence | as-written member | corrected member |
|---|---|---|---|---|---|---|
| web/index.js:36-37 | The comparator returns -1 whenever `a` is free, even when `b` is free too. So `cmp(a, b)` and `cmp(b, a)` are both negative. | Two free buckets, e.g. 10 and 20 | Free buckets compare equal (0), so they form one class that comes first | medium; not executed | Priority.SourceComparatorIsInconsistent | Priority.PrecedesIsTotalPreorder |
