/**
 The allocator (`calculateCreditUsage`): walk the buckets in priority order,
 deduct the usage from each in turn, and report the breakdown, the usage
 left undeducted and the remaining total.

 The source mutates `used` on the caller's bucket objects; here the walk
 returns the bucket list with those updates applied, each bucket keeping its
 position in the input list.
 */
module Allocator {
  import opened Credit
  import opened Priority
  import opened Totals

  /** What a breakdown entry's message says: that the bucket had nothing
      available ("expired"), or how much was used and the bucket's expiry. */
  datatype Notice = ExpiredNotice | UsedNotice(expiry: Option<int>)

  /** One line of the usage breakdown. */
  datatype Entry = Entry(kind: Kind, amount: real, notice: Notice)

  /** The state of a walk: the buckets, the breakdown so far and the usage
      still to deduct. */
  datatype Walk = Walked(credits: seq<Bucket>, breakdown: seq<Entry>, remaining: real)

  /** The result of `calculateCreditUsage`, with the buckets as they stand
      after the deduction. */
  datatype Usage = Usage(remainingUsage: real, usageBreakdown: seq<Entry>, remainingTotal: real,
                         credits: seq<Bucket>)

  function Min(a: real, b: real): real
  {
    if a <= b then a else b
  }

  /** The bucket after `d` more of it has been used. */
  function Deduct(b: Bucket, d: real): Bucket
  {
    b.(used := b.used + d)
  }

  /** The total amount the breakdown records as deducted. */
  function Deducted(breakdown: seq<Entry>): real
  {
    if breakdown == [] then 0.0 else breakdown[0].amount + Deducted(breakdown[1..])
  }

  /** `e` is the entry written for bucket `b` (as it stood before the walk
      reached it): a zero "expired" entry when nothing is available, else a
      positive deduction no larger than the balance. */
  predicate Reports(b: Bucket, e: Entry, date: int)
  {
    && e.kind == b.kind
    && if Available(b, date) <= 0.0 then e.amount == 0.0 && e.notice == ExpiredNotice
       else 0.0 < e.amount <= Available(b, date) && e.notice == UsedNotice(ExpiryDate(b))
  }

  /** The entry the walk writes for bucket `b` with `remaining` still to
      deduct: a zero "expired" entry when nothing is available, else a
      deduction of the smaller of the balance and the remaining usage. */
  function Draw(b: Bucket, remaining: real, date: int): (e: Entry)
    ensures remaining > 0.0 ==> Reports(b, e, date)
    ensures remaining > 0.0 ==> e.amount == Min(Drawable(b, date), remaining)
    ensures Available(Deduct(b, e.amount), date) == Available(b, date) - e.amount
  {
    var available := Available(b, date);
    if available <= 0.0 then Entry(b.kind, 0.0, ExpiredNotice)
    else Entry(b.kind, Min(available, remaining), UsedNotice(ExpiryDate(b)))
  }

  /** Walks the buckets named by `order`, deducting `remaining` from them in
      turn and stopping once it is covered. Entry `j` of the breakdown belongs
      to bucket `order[j]`. A bucket with nothing available is written back
      unchanged (its entry's amount is zero). */
  function WalkOrder(credits: seq<Bucket>, order: seq<nat>, remaining: real, date: int): (w: Walk)
    requires InRange(order, |credits|) && Distinct(order)
    ensures |w.credits| == |credits| && |w.breakdown| <= |order|
    // conservation: the breakdown accounts for exactly the usage deducted
    ensures Deducted(w.breakdown) == remaining - w.remaining
    ensures w.remaining <= remaining
    ensures remaining > 0.0 ==> w.remaining >= 0.0
    ensures remaining <= 0.0 ==> w == Walked(credits, [], remaining)
    // the walk stops early only once the usage is covered
    ensures |w.breakdown| < |order| ==> w.remaining <= 0.0
    decreases |order|
  {
    if order == [] || remaining <= 0.0 then Walked(credits, [], remaining)
    else
      var b := credits[order[0]];
      var e := Draw(b, remaining, date);
      var rest := WalkOrder(credits[order[0] := Deduct(b, e.amount)], order[1..], remaining - e.amount, date);
      Walked(rest.credits, [e] + rest.breakdown, rest.remaining)
  }

  /** Entry `j` of the breakdown is the report for bucket `order[j]`. */
  lemma {:induction false} WalkReports(credits: seq<Bucket>, order: seq<nat>, remaining: real, date: int)
    requires InRange(order, |credits|) && Distinct(order)
    ensures var w := WalkOrder(credits, order, remaining, date);
            forall j :: 0 <= j < |w.breakdown| ==> Reports(credits[order[j]], w.breakdown[j], date)
    decreases |order|
  {
    if order != [] && remaining > 0.0 {
      var b := credits[order[0]];
      var e := Draw(b, remaining, date);
      var next := credits[order[0] := Deduct(b, e.amount)];
      var rem := remaining - e.amount;
      var w := WalkOrder(credits, order, remaining, date);
      var rest := WalkOrder(next, order[1..], rem, date);
      assert w.breakdown == [e] + rest.breakdown;
      WalkReports(next, order[1..], rem, date);
      forall j | 1 <= j < |w.breakdown|
        ensures Reports(credits[order[j]], w.breakdown[j], date)
      {
        assert order[1..][j - 1] == order[j] != order[0];
        assert next[order[j]] == credits[order[j]];
        assert w.breakdown[j] == rest.breakdown[j - 1];
      }
    }
  }

  /** The deducted total of a breakdown prefix that starts with `e`. */
  lemma DeductedPrefix(e: Entry, tail: seq<Entry>, j: nat)
    requires 1 <= j <= |tail| + 1
    ensures Deducted(([e] + tail)[..j]) == e.amount + Deducted(tail[..j - 1])
  {
    assert ([e] + tail)[..j] == [e] + tail[..j - 1];
    assert ([e] + tail[..j - 1])[1..] == tail[..j - 1];
  }

  /** Entry `j > 0` of a walk that first wrote `e` and then changed only
      bucket `order[0]` (giving `next`) is entry `j - 1` of the rest of the
      walk, which drew on the same, still untouched, bucket `order[j]`. */
  lemma DrawAfterFirst(credits: seq<Bucket>, order: seq<nat>, next: seq<Bucket>, e: Entry, rest: seq<Entry>,
                       remaining: real, date: int, j: nat)
    requires InRange(order, |credits|) && Distinct(order)
    requires 1 <= j < |order| && j <= |rest|
    requires |next| == |credits|
    requires forall i :: 0 <= i < |credits| && i != order[0] ==> next[i] == credits[i]
    requires remaining - e.amount - Deducted(rest[..j - 1]) > 0.0
    requires rest[j - 1] == Draw(next[order[j]], remaining - e.amount - Deducted(rest[..j - 1]), date)
    ensures remaining - Deducted(([e] + rest)[..j]) > 0.0
    ensures ([e] + rest)[j] == Draw(credits[order[j]], remaining - Deducted(([e] + rest)[..j]), date)
  {
    DeductedPrefix(e, rest, j);
    assert order[j] != order[0];
  }

  /** Entry `j` of the walk is written while usage is still due, and it is
      the step `Draw` takes on bucket `order[j]`, as that bucket stood before
      the walk, with the usage left after the entries before it. */
  lemma {:induction false} WalkDrawsAt(credits: seq<Bucket>, order: seq<nat>, remaining: real, date: int, j: nat)
    requires InRange(order, |credits|) && Distinct(order)
    requires j < |WalkOrder(credits, order, remaining, date).breakdown|
    ensures var w := WalkOrder(credits, order, remaining, date);
            && remaining - Deducted(w.breakdown[..j]) > 0.0
            && w.breakdown[j] == Draw(credits[order[j]], remaining - Deducted(w.breakdown[..j]), date)
    decreases j, 1
  {
    var w := WalkOrder(credits, order, remaining, date);
    if j == 0 {
      assert w.breakdown[0] == Draw(credits[order[0]], remaining, date);
      assert w.breakdown[..0] == [];
    } else {
      WalkDrawsLater(credits, order, remaining, date, j);
    }
  }

  /** `WalkDrawsAt` for `j > 0`: entry `j` is entry `j - 1` of the rest of
      the walk, which drew on the same, still untouched, bucket. */
  lemma {:induction false} WalkDrawsLater(credits: seq<Bucket>, order: seq<nat>, remaining: real, date: int, j: nat)
    requires InRange(order, |credits|) && Distinct(order)
    requires 0 < j < |WalkOrder(credits, order, remaining, date).breakdown|
    ensures var w := WalkOrder(credits, order, remaining, date);
            && remaining - Deducted(w.breakdown[..j]) > 0.0
            && w.breakdown[j] == Draw(credits[order[j]], remaining - Deducted(w.breakdown[..j]), date)
    decreases j, 0
  {
    var b := credits[order[0]];
    var e := Draw(b, remaining, date);
    var next := credits[order[0] := Deduct(b, e.amount)];
    var rem := remaining - e.amount;
    var rest := WalkOrder(next, order[1..], rem, date);
    assert WalkOrder(credits, order, remaining, date).breakdown == [e] + rest.breakdown;
    WalkDrawsAt(next, order[1..], rem, date, j - 1);
    assert order[1..][j - 1] == order[j];
    DrawAfterFirst(credits, order, next, e, rest.breakdown, remaining, date, j);
  }

  /** The walk is greedy in the order given: entry `j` is written while usage
      is still due (so no entry follows once the usage is covered), and it is
      exactly the step `Draw` takes on bucket `order[j]`, as that bucket stood
      before the walk, with the usage left after the entries before it. */
  lemma WalkDraws(credits: seq<Bucket>, order: seq<nat>, remaining: real, date: int)
    requires InRange(order, |credits|) && Distinct(order)
    ensures var w := WalkOrder(credits, order, remaining, date);
            forall j :: 0 <= j < |w.breakdown| ==>
              && remaining - Deducted(w.breakdown[..j]) > 0.0
              && w.breakdown[j] == Draw(credits[order[j]], remaining - Deducted(w.breakdown[..j]), date)
  {
    var w := WalkOrder(credits, order, remaining, date);
    forall j | 0 <= j < |w.breakdown|
      ensures remaining - Deducted(w.breakdown[..j]) > 0.0
      ensures w.breakdown[j] == Draw(credits[order[j]], remaining - Deducted(w.breakdown[..j]), date)
    {
      WalkDrawsAt(credits, order, remaining, date, j);
    }
  }

  /** The buckets the walk does not reach are unchanged. */
  lemma {:induction false} WalkLeavesOthers(credits: seq<Bucket>, order: seq<nat>, remaining: real, date: int)
    requires InRange(order, |credits|) && Distinct(order)
    ensures var w := WalkOrder(credits, order, remaining, date);
            forall i :: 0 <= i < |credits| && i !in order[..|w.breakdown|] ==> w.credits[i] == credits[i]
    decreases |order|
  {
    if order != [] && remaining > 0.0 {
      var b := credits[order[0]];
      var e := Draw(b, remaining, date);
      var next := credits[order[0] := Deduct(b, e.amount)];
      var rem := remaining - e.amount;
      var rest := WalkOrder(next, order[1..], rem, date);
      var w := WalkOrder(credits, order, remaining, date);
      assert w.credits == rest.credits && |w.breakdown| == |rest.breakdown| + 1;
      WalkLeavesOthers(next, order[1..], rem, date);
      UntouchedAfterStep(credits, order, |rest.breakdown|, Deduct(b, e.amount), rest.credits);
    }
  }

  /** One step of the walk, as sequence bookkeeping: the first bucket grew by
      the first entry, and the rest of the walk updated the others from there. */
  lemma UpdatedAfterStep(credits: seq<Bucket>, order: seq<nat>, e: Entry, tail: seq<Entry>, after: seq<Bucket>)
    requires InRange(order, |credits|) && Distinct(order) && |tail| < |order| && |after| == |credits|
    requires after[order[0]] == Deduct(credits[order[0]], e.amount)
    requires forall j :: 0 <= j < |tail| ==>
               after[order[1..][j]] == Deduct(credits[order[0] := Deduct(credits[order[0]], e.amount)][order[1..][j]], tail[j].amount)
    ensures forall j :: 0 <= j < |tail| + 1 ==> after[order[j]] == Deduct(credits[order[j]], ([e] + tail)[j].amount)
  {
    forall j | 1 <= j < |tail| + 1
      ensures after[order[j]] == Deduct(credits[order[j]], ([e] + tail)[j].amount)
    {
      assert order[1..][j - 1] == order[j] != order[0];
    }
  }

  /** One step of the walk, as sequence bookkeeping: if the rest of the walk
      leaves alone every bucket outside its first `k` positions, the whole
      walk leaves alone every bucket outside its first `k + 1`. */
  lemma UntouchedAfterStep(credits: seq<Bucket>, order: seq<nat>, k: nat, v: Bucket, after: seq<Bucket>)
    requires InRange(order, |credits|) && k < |order| && |after| == |credits|
    requires forall i :: 0 <= i < |credits| && i !in order[1..][..k] ==> after[i] == credits[order[0] := v][i]
    ensures forall i :: 0 <= i < |credits| && i !in order[..k + 1] ==> after[i] == credits[i]
  {
    assert order[..k + 1] == [order[0]] + order[1..][..k];
  }

  /** Each visited bucket's `used` grows by exactly its entry's amount. */
  lemma {:induction false} WalkUpdates(credits: seq<Bucket>, order: seq<nat>, remaining: real, date: int)
    requires InRange(order, |credits|) && Distinct(order)
    ensures var w := WalkOrder(credits, order, remaining, date);
            forall j :: 0 <= j < |w.breakdown| ==>
              w.credits[order[j]] == Deduct(credits[order[j]], w.breakdown[j].amount)
    decreases |order|
  {
    if order != [] && remaining > 0.0 {
      var b := credits[order[0]];
      var e := Draw(b, remaining, date);
      var next := credits[order[0] := Deduct(b, e.amount)];
      var rem := remaining - e.amount;
      var rest := WalkOrder(next, order[1..], rem, date);
      var w := WalkOrder(credits, order, remaining, date);
      assert w.credits == rest.credits && w.breakdown == [e] + rest.breakdown;
      assert order[0] !in order[1..][..|rest.breakdown|];
      WalkUpdates(next, order[1..], rem, date);
      WalkLeavesOthers(next, order[1..], rem, date);
      UpdatedAfterStep(credits, order, e, rest.breakdown, rest.credits);
    }
  }

  /** When the usage is not covered, every entry took all its bucket could give. */
  lemma {:induction false} WalkDrains(credits: seq<Bucket>, order: seq<nat>, remaining: real, date: int)
    requires InRange(order, |credits|) && Distinct(order)
    ensures var w := WalkOrder(credits, order, remaining, date);
            w.remaining > 0.0 ==>
              forall j :: 0 <= j < |w.breakdown| ==> w.breakdown[j].amount == Drawable(credits[order[j]], date)
    decreases |order|
  {
    if order != [] && remaining > 0.0 {
      var b := credits[order[0]];
      var e := Draw(b, remaining, date);
      var next := credits[order[0] := Deduct(b, e.amount)];
      var rem := remaining - e.amount;
      var w := WalkOrder(credits, order, remaining, date);
      var rest := WalkOrder(next, order[1..], rem, date);
      assert w.breakdown == [e] + rest.breakdown && w.remaining == rest.remaining;
      WalkDrains(next, order[1..], rem, date);
      if w.remaining > 0.0 {
        forall j | 1 <= j < |w.breakdown|
          ensures w.breakdown[j].amount == Drawable(credits[order[j]], date)
        {
          assert order[1..][j - 1] == order[j] != order[0];
          assert w.breakdown[j] == rest.breakdown[j - 1];
        }
      }
    }
  }

  /** The remaining total falls by exactly the usage deducted. */
  lemma {:induction false} WalkTotal(credits: seq<Bucket>, order: seq<nat>, remaining: real, date: int)
    requires InRange(order, |credits|) && Distinct(order)
    ensures var w := WalkOrder(credits, order, remaining, date);
            TotalAvailable(w.credits, date) == TotalAvailable(credits, date) - (remaining - w.remaining)
    decreases |order|
  {
    if order != [] && remaining > 0.0 {
      var b := credits[order[0]];
      var e := Draw(b, remaining, date);
      var next := credits[order[0] := Deduct(b, e.amount)];
      var w := WalkOrder(credits, order, remaining, date);
      var rest := WalkOrder(next, order[1..], remaining - e.amount, date);
      assert w.credits == rest.credits && w.remaining == rest.remaining;
      TotalAvailableUpdate(credits, order[0], Deduct(b, e.amount), date);
      WalkTotal(next, order[1..], remaining - e.amount, date);
    }
  }

  /** The usage left undeducted is the shortfall of the drawable total. */
  lemma {:induction false} WalkShortfall(credits: seq<Bucket>, order: seq<nat>, remaining: real, date: int)
    requires InRange(order, |credits|) && Distinct(order)
    requires remaining > 0.0
    ensures var w := WalkOrder(credits, order, remaining, date);
            var drawable := DrawableTotal(Gather(credits, order), date);
            w.remaining == if remaining > drawable then remaining - drawable else 0.0
    decreases |order|
  {
    if order != [] {
      var b := credits[order[0]];
      var e := Draw(b, remaining, date);
      var next := credits[order[0] := Deduct(b, e.amount)];
      var rem := remaining - e.amount;
      GatherCons(credits, order);
      assert Gather(next, order[1..]) == Gather(credits, order[1..]) by {
        forall j | 0 <= j < |order[1..]|
          ensures next[order[1..][j]] == credits[order[1..][j]]
        {
          assert order[1..][j] == order[j + 1] != order[0];
        }
      }
      var gathered := Gather(credits, order);
      assert gathered[1..] == Gather(credits, order[1..]);
      if rem > 0.0 {
        WalkShortfall(next, order[1..], rem, date);
      }
    }
  }

  /** `WalkDraws` for the priority walk, read against the sorted copy. */
  lemma WalkDrawsSorted(credits: seq<Bucket>, usageAmount: real, date: int)
    ensures var w := WalkOrder(credits, PriorityOrder(credits, date), usageAmount, date);
            forall j :: 0 <= j < |w.breakdown| ==>
              && usageAmount - Deducted(w.breakdown[..j]) > 0.0
              && w.breakdown[j] == Draw(SortedCopy(credits, date)[j], usageAmount - Deducted(w.breakdown[..j]), date)
  {
    var order := PriorityOrder(credits, date);
    var w := WalkOrder(credits, order, usageAmount, date);
    forall j | 0 <= j < |w.breakdown|
      ensures usageAmount - Deducted(w.breakdown[..j]) > 0.0
      ensures w.breakdown[j] == Draw(SortedCopy(credits, date)[j], usageAmount - Deducted(w.breakdown[..j]), date)
    {
      WalkDrawsAt(credits, order, usageAmount, date, j);
      SortedCopyAt(credits, date, j);
    }
  }

  /** `calculateCreditUsage`: deduct `usageAmount` from the buckets in priority
      order at `date`, then total what remains available over the input list. */
  function CalculateCreditUsage(credits: seq<Bucket>, usageAmount: real, date: int): (r: Usage)
    ensures |r.credits| == |credits| && |r.usageBreakdown| <= |credits|
    // conservation: the breakdown accounts for exactly the usage deducted
    ensures Deducted(r.usageBreakdown) == usageAmount - r.remainingUsage
    ensures usageAmount >= 0.0 ==> 0.0 <= r.remainingUsage <= usageAmount
    ensures usageAmount <= 0.0 ==>
              r.remainingUsage == usageAmount && r.usageBreakdown == [] && r.credits == credits
    // the walk visits every bucket unless the usage is covered first
    ensures |r.usageBreakdown| < |credits| ==> r.remainingUsage <= 0.0
    // greedy: entry j drains the j-th bucket of the sorted copy as far as the
    // usage still due allows, and no entry is written once that is covered
    ensures forall j :: 0 <= j < |r.usageBreakdown| ==>
              && usageAmount - Deducted(r.usageBreakdown[..j]) > 0.0
              && r.usageBreakdown[j]
                 == Draw(SortedCopy(credits, date)[j], usageAmount - Deducted(r.usageBreakdown[..j]), date)
  {
    var order := PriorityOrder(credits, date);
    var w := WalkOrder(credits, order, usageAmount, date);
    WalkDrawsSorted(credits, usageAmount, date);
    Usage(w.remaining, w.breakdown, TotalAvailable(w.credits, date), w.credits)
  }

  /** Entry `j` of the breakdown reports the `j`-th bucket of the sorted copy:
      a zero "expired" entry when that bucket had nothing available, else a
      positive deduction no larger than its balance, with its expiry. */
  lemma BreakdownFollowsPriority(credits: seq<Bucket>, usageAmount: real, date: int)
    ensures var r := CalculateCreditUsage(credits, usageAmount, date);
            forall j :: 0 <= j < |r.usageBreakdown| ==>
              Reports(SortedCopy(credits, date)[j], r.usageBreakdown[j], date)
  {
    var r := CalculateCreditUsage(credits, usageAmount, date);
    forall j | 0 <= j < |r.usageBreakdown|
      ensures Reports(SortedCopy(credits, date)[j], r.usageBreakdown[j], date)
    {
      var due := usageAmount - Deducted(r.usageBreakdown[..j]);
      assert due > 0.0 && r.usageBreakdown[j] == Draw(SortedCopy(credits, date)[j], due, date);
    }
  }

  /** The remaining total is the input's total availability less exactly the
      usage deducted. */
  lemma RemainingTotalAccounting(credits: seq<Bucket>, usageAmount: real, date: int)
    ensures var r := CalculateCreditUsage(credits, usageAmount, date);
            r.remainingTotal == TotalAvailable(credits, date) - (usageAmount - r.remainingUsage)
  {
    WalkTotal(credits, PriorityOrder(credits, date), usageAmount, date);
  }

  /** The usage left undeducted is exactly the shortfall of the credit that
      could be drawn: nothing is left when the buckets can cover the usage. */
  lemma RemainingUsageIsShortfall(credits: seq<Bucket>, usageAmount: real, date: int)
    ensures var r := CalculateCreditUsage(credits, usageAmount, date);
            var drawable := DrawableTotal(credits, date);
            && r.remainingUsage == (if usageAmount <= 0.0 then usageAmount
                                    else if usageAmount > drawable then usageAmount - drawable
                                    else 0.0)
            && (usageAmount >= 0.0 ==> (r.remainingUsage == 0.0 <==> usageAmount <= drawable))
  {
    var order := PriorityOrder(credits, date);
    var w := WalkOrder(credits, order, usageAmount, date);
    assert CalculateCreditUsage(credits, usageAmount, date).remainingUsage == w.remaining;
    DrawableTotalPermutation(Gather(credits, order), credits, date);
    if usageAmount > 0.0 {
      WalkShortfall(credits, order, usageAmount, date);
    }
  }

  /** Insufficient credit means every bucket was reached and exhausted, so
      nothing at all remains. */
  lemma InsufficientCreditExhaustsBuckets(credits: seq<Bucket>, usageAmount: real, date: int)
    ensures var r := CalculateCreditUsage(credits, usageAmount, date);
            r.remainingUsage > 0.0 ==>
              && |r.usageBreakdown| == |credits|
              && (forall i :: 0 <= i < |credits| ==> Available(r.credits[i], date) <= 0.0)
              && r.remainingTotal <= 0.0
  {
    var order := PriorityOrder(credits, date);
    var w := WalkOrder(credits, order, usageAmount, date);
    var r := CalculateCreditUsage(credits, usageAmount, date);
    assert r.credits == w.credits && r.remainingUsage == w.remaining && r.usageBreakdown == w.breakdown;
    assert r.remainingTotal == TotalAvailable(w.credits, date);
    if w.remaining > 0.0 {
      WalkExhausts(credits, order, usageAmount, date);
      assert DrawableTotal(w.credits, date) == 0.0;
    }
  }

  /** When the usage is not covered, every bucket listed in `order` ends with
      nothing available. */
  lemma WalkExhausts(credits: seq<Bucket>, order: seq<nat>, remaining: real, date: int)
    requires InRange(order, |credits|) && Distinct(order)
    ensures var w := WalkOrder(credits, order, remaining, date);
            w.remaining > 0.0 ==> forall i :: 0 <= i < |credits| && i in order ==> Available(w.credits[i], date) <= 0.0
  {
    var w := WalkOrder(credits, order, remaining, date);
    if w.remaining > 0.0 {
      WalkDrains(credits, order, remaining, date);
      WalkUpdates(credits, order, remaining, date);
      forall i | 0 <= i < |credits| && i in order
        ensures Available(w.credits[i], date) <= 0.0
      {
        var j :| 0 <= j < |order| && order[j] == i;
        assert w.breakdown[j].amount == Drawable(credits[i], date);
        assert w.credits[i] == Deduct(credits[i], Drawable(credits[i], date));
        DrainedBucketIsEmpty(credits[i], date);
      }
    }
  }

  lemma DrainedBucketIsEmpty(b: Bucket, date: int)
    ensures Available(Deduct(b, Drawable(b, date)), date) <= 0.0
  {
  }

  /** A bucket the walk reached grew by its entry's amount, which is no more
      than that bucket could give; so only `used` changed, and by at most its
      drawable balance. */
  lemma WalkBoundsBucket(credits: seq<Bucket>, order: seq<nat>, remaining: real, date: int, i: nat)
    requires InRange(order, |credits|) && Distinct(order) && i < |credits|
    ensures var w := WalkOrder(credits, order, remaining, date);
            && w.credits[i] == credits[i].(used := w.credits[i].used)
            && credits[i].used <= w.credits[i].used <= credits[i].used + Drawable(credits[i], date)
  {
    var w := WalkOrder(credits, order, remaining, date);
    WalkLeavesOthers(credits, order, remaining, date);
    if i in order[..|w.breakdown|] {
      var j :| 0 <= j < |w.breakdown| && order[..|w.breakdown|][j] == i;
      assert order[j] == i;
      WalkUpdates(credits, order, remaining, date);
      WalkReports(credits, order, remaining, date);
      assert w.credits[i] == Deduct(credits[i], w.breakdown[j].amount);
      assert Reports(credits[i], w.breakdown[j], date);
    }
  }

  /** Only `used` changes: each bucket grows by at most what it could give,
      the buckets reached grow by exactly their entries' amounts, in priority
      order, and the buckets not reached are untouched. */
  lemma DeductionsMatchBreakdown(credits: seq<Bucket>, usageAmount: real, date: int)
    ensures var r := CalculateCreditUsage(credits, usageAmount, date);
            var order := PriorityOrder(credits, date);
            && (forall j :: 0 <= j < |r.usageBreakdown| ==>
                  r.credits[order[j]] == Deduct(credits[order[j]], r.usageBreakdown[j].amount))
            && (forall i :: 0 <= i < |credits| && i !in order[..|r.usageBreakdown|] ==>
                  r.credits[i] == credits[i])
            && (forall i :: 0 <= i < |credits| ==>
                  && r.credits[i] == credits[i].(used := r.credits[i].used)
                  && credits[i].used <= r.credits[i].used <= credits[i].used + Drawable(credits[i], date))
  {
    var order := PriorityOrder(credits, date);
    var w := WalkOrder(credits, order, usageAmount, date);
    var r := CalculateCreditUsage(credits, usageAmount, date);
    assert r.credits == w.credits && r.usageBreakdown == w.breakdown;
    WalkUpdates(credits, order, usageAmount, date);
    WalkLeavesOthers(credits, order, usageAmount, date);
    forall i | 0 <= i < |credits|
      ensures r.credits[i] == credits[i].(used := r.credits[i].used)
      ensures credits[i].used <= r.credits[i].used <= credits[i].used + Drawable(credits[i], date)
    {
      WalkBoundsBucket(credits, order, usageAmount, date, i);
    }
  }
}
