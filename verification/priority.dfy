/**
 The priority order in which buckets are drawn down: free buckets first, then
 non-free buckets that are still valid (soonest expiry first), then expired
 buckets.

 The order is a sort on the explicit key (rank, expiry). Buckets keep their
 identity by position: the sort permutes the indices 0..n-1 of the bucket
 list, and `Gather` reads the buckets back in that order (the sorted copy).
 */
module Priority {
  import opened Credit

  /** First key component: 0 for free, 1 for valid non-free, 2 for expired non-free. */
  function Rank(b: Bucket, date: int): nat
  {
    if b.kind == Free then 0 else if IsExpired(b, date) then 2 else 1
  }

  /** The number an expiry instant becomes when two are subtracted: a missing
      instant (`null`) becomes 0, the epoch, so it compares as the earliest. */
  function Stamp(expiry: Option<int>): int
  {
    if expiry.Some? then expiry.value else 0
  }

  /** Whether `a` may be drawn before `b`: lexicographic on (rank, expiry), the
      expiry being compared only between valid non-free buckets. */
  predicate Precedes(a: Bucket, b: Bucket, date: int)
  {
    || Rank(a, date) < Rank(b, date)
    || (Rank(a, date) == Rank(b, date) && (Rank(a, date) != 1 || Stamp(a.expiry) <= Stamp(b.expiry)))
  }

  /** `Precedes` is a total preorder, which a sort comparator must be. */
  lemma PrecedesIsTotalPreorder(a: Bucket, b: Bucket, c: Bucket, date: int)
    ensures Precedes(a, a, date)
    ensures Precedes(a, b, date) || Precedes(b, a, date)
    ensures Precedes(a, b, date) && Precedes(b, c, date) ==> Precedes(a, c, date)
  {
  }

  /** The comparator handed to `Array.prototype.sort`, as written: negative puts
      `a` first, positive puts `b` first, zero keeps them as they are. */
  function SourceComparator(a: Bucket, b: Bucket, date: int): (r: int)
    ensures Rank(a, date) < Rank(b, date) ==> r < 0
    ensures Rank(b, date) < Rank(a, date) ==> r > 0
    ensures Rank(a, date) == Rank(b, date) == 0 ==> r == -1
    ensures Rank(a, date) == Rank(b, date) == 1 ==> r == Stamp(a.expiry) - Stamp(b.expiry)
    ensures Rank(a, date) == Rank(b, date) == 2 ==> r == 0
  {
    if a.kind == Free then -1
    else if b.kind == Free then 1
    else if IsExpired(a, date) && !IsExpired(b, date) then 1
    else if !IsExpired(a, date) && IsExpired(b, date) then -1
    else if IsExpired(a, date) && IsExpired(b, date) then 0
    else Stamp(ExpiryDate(a)) - Stamp(ExpiryDate(b))
  }

  /** The key order agrees with the comparator: `a` may go first exactly when
      the comparator does not put `b` first, and, unless both are free, `a` must
      go first exactly when the comparator says so. */
  lemma SourceComparatorMatchesKey(a: Bucket, b: Bucket, date: int)
    ensures SourceComparator(a, b, date) <= 0 <==> Precedes(a, b, date)
    ensures a.kind != Free || b.kind != Free ==>
              (SourceComparator(a, b, date) < 0 <==> !Precedes(b, a, date))
  {
  }

  /** For two free buckets the comparator puts each before the other, so it is
      not a consistent comparator and the engine may order them either way. */
  lemma SourceComparatorIsInconsistent(a: Bucket, b: Bucket, date: int)
    requires a.kind == Free && b.kind == Free
    ensures SourceComparator(a, b, date) < 0 && SourceComparator(b, a, date) < 0
  {
  }

  predicate InRange(order: seq<nat>, n: nat)
  {
    forall k :: 0 <= k < |order| ==> order[k] < n
  }

  predicate Distinct(order: seq<nat>)
  {
    forall j, k :: 0 <= j < k < |order| ==> order[j] != order[k]
  }

  predicate Increasing(order: seq<nat>)
  {
    forall j, k :: 0 <= j < k < |order| ==> order[j] < order[k]
  }

  /** The buckets named by `order`, in that order. */
  function Gather(credits: seq<Bucket>, order: seq<nat>): seq<Bucket>
    requires InRange(order, |credits|)
  {
    seq(|order|, k requires 0 <= k < |order| => credits[order[k]])
  }

  /** `order` lists buckets in priority order. */
  predicate Sorted(credits: seq<Bucket>, order: seq<nat>, date: int)
    requires InRange(order, |credits|)
  {
    forall j, k :: 0 <= j < k < |order| ==> Precedes(credits[order[j]], credits[order[k]], date)
  }

  /** Buckets of equal priority stay in their input order. */
  predicate Stable(credits: seq<Bucket>, order: seq<nat>, date: int)
    requires InRange(order, |credits|)
  {
    forall j, k :: 0 <= j < k < |order| && Precedes(credits[order[k]], credits[order[j]], date) ==>
      order[j] < order[k]
  }

  /** Inserts index `x` before the first entry of `s` that `x` may precede. */
  function Insert(credits: seq<Bucket>, date: int, x: nat, s: seq<nat>): (r: seq<nat>)
    requires x < |credits| && InRange(s, |credits|)
    ensures |r| == |s| + 1 && InRange(r, |credits|)
    ensures multiset(r) == multiset(s) + multiset{x}
    decreases |s|
  {
    if s == [] || Precedes(credits[x], credits[s[0]], date) then [x] + s
    else
      assert s == [s[0]] + s[1..];
      [s[0]] + Insert(credits, date, x, s[1..])
  }

  /** Insertion sort of the indices in `s` by priority. */
  function SortIndices(credits: seq<Bucket>, date: int, s: seq<nat>): (r: seq<nat>)
    requires InRange(s, |credits|)
    ensures |r| == |s| && InRange(r, |credits|)
    ensures multiset(r) == multiset(s)
    decreases |s|
  {
    if s == [] then []
    else
      assert s == [s[0]] + s[1..];
      Insert(credits, date, s[0], SortIndices(credits, date, s[1..]))
  }

  lemma {:induction false} InsertKeepsSorted(credits: seq<Bucket>, date: int, x: nat, s: seq<nat>)
    requires x < |credits| && InRange(s, |credits|)
    requires Sorted(credits, s, date)
    ensures Sorted(credits, Insert(credits, date, x, s), date)
    decreases |s|
  {
    if s == [] {
    } else if Precedes(credits[x], credits[s[0]], date) {
      forall k | 0 < k < |s|
        ensures Precedes(credits[x], credits[s[k]], date)
      {
        PrecedesIsTotalPreorder(credits[x], credits[s[0]], credits[s[k]], date);
      }
    } else {
      var tail := Insert(credits, date, x, s[1..]);
      assert Insert(credits, date, x, s) == [s[0]] + tail;
      PrecedesIsTotalPreorder(credits[x], credits[s[0]], credits[x], date);
      InsertKeepsSorted(credits, date, x, s[1..]);
      forall k | 0 <= k < |tail|
        ensures Precedes(credits[s[0]], credits[tail[k]], date)
      {
        var y := tail[k];
        assert y in multiset(tail);
        if y != x {
          assert y in s[1..];
          var m :| 0 <= m < |s[1..]| && s[1..][m] == y;
          assert s[m + 1] == y;
        }
      }
    }
  }

  /** Where position `k` of `Insert(.., x, s)` came from: `x` itself
      (`m == -1`) or position `m` of `s`. */
  lemma {:induction false} InsertOrigin(credits: seq<Bucket>, date: int, x: nat, s: seq<nat>, k: nat) returns (m: int)
    requires x < |credits| && InRange(s, |credits|) && k < |s| + 1
    ensures -1 <= m < |s|
    ensures m == -1 ==> Insert(credits, date, x, s)[k] == x
    ensures m >= 0 ==> Insert(credits, date, x, s)[k] == s[m]
    decreases |s|
  {
    if s == [] || Precedes(credits[x], credits[s[0]], date) {
      m := k - 1;
    } else if k == 0 {
      m := 0;
    } else {
      var n := InsertOrigin(credits, date, x, s[1..], k - 1);
      m := if n == -1 then -1 else n + 1;
    }
  }

  lemma {:induction false} InsertKeepsStable(credits: seq<Bucket>, date: int, x: nat, s: seq<nat>)
    requires x < |credits| && InRange(s, |credits|)
    requires Stable(credits, s, date)
    requires forall k :: 0 <= k < |s| ==> x < s[k]
    ensures Stable(credits, Insert(credits, date, x, s), date)
    decreases |s|
  {
    if s == [] || Precedes(credits[x], credits[s[0]], date) {
    } else {
      var tail := Insert(credits, date, x, s[1..]);
      InsertKeepsStable(credits, date, x, s[1..]);
      var r := Insert(credits, date, x, s);
      forall k | 0 < k < |r| && Precedes(credits[r[k]], credits[s[0]], date)
        ensures s[0] < r[k]
      {
        var m := InsertOrigin(credits, date, x, s[1..], k - 1);
        if m >= 0 {
          assert r[k] == s[m + 1];
        }
      }
    }
  }

  lemma {:induction false} InsertKeepsDistinct(credits: seq<Bucket>, date: int, x: nat, s: seq<nat>)
    requires x < |credits| && InRange(s, |credits|)
    requires Distinct(s) && x !in s
    ensures Distinct(Insert(credits, date, x, s))
    decreases |s|
  {
    if s == [] || Precedes(credits[x], credits[s[0]], date) {
    } else {
      var tail := Insert(credits, date, x, s[1..]);
      assert s == [s[0]] + s[1..];
      InsertKeepsDistinct(credits, date, x, s[1..]);
      assert s[0] !in multiset(s[1..]) + multiset{x};
      assert s[0] !in tail;
    }
  }

  lemma {:induction false} InsertGathers(credits: seq<Bucket>, date: int, x: nat, s: seq<nat>)
    requires x < |credits| && InRange(s, |credits|)
    ensures multiset(Gather(credits, Insert(credits, date, x, s)))
         == multiset(Gather(credits, s)) + multiset{credits[x]}
    decreases |s|
  {
    if s == [] || Precedes(credits[x], credits[s[0]], date) {
      assert Insert(credits, date, x, s) == [x] + s;
      assert ([x] + s)[1..] == s;
      GatherCons(credits, [x] + s);
    } else {
      var tail := Insert(credits, date, x, s[1..]);
      assert Insert(credits, date, x, s) == [s[0]] + tail;
      assert ([s[0]] + tail)[1..] == tail;
      GatherCons(credits, [s[0]] + tail);
      GatherCons(credits, s);
      InsertGathers(credits, date, x, s[1..]);
    }
  }

  lemma {:induction false} SortIndicesSorted(credits: seq<Bucket>, date: int, s: seq<nat>)
    requires InRange(s, |credits|)
    ensures Sorted(credits, SortIndices(credits, date, s), date)
    decreases |s|
  {
    if s != [] {
      SortIndicesSorted(credits, date, s[1..]);
      InsertKeepsSorted(credits, date, s[0], SortIndices(credits, date, s[1..]));
    }
  }

  lemma {:induction false} SortIndicesDistinct(credits: seq<Bucket>, date: int, s: seq<nat>)
    requires InRange(s, |credits|) && Distinct(s)
    ensures Distinct(SortIndices(credits, date, s))
    decreases |s|
  {
    if s != [] {
      var tail := SortIndices(credits, date, s[1..]);
      SortIndicesDistinct(credits, date, s[1..]);
      assert s[0] !in multiset(s[1..]);
      assert s[0] !in tail;
      InsertKeepsDistinct(credits, date, s[0], tail);
    }
  }

  lemma {:induction false} SortIndicesStable(credits: seq<Bucket>, date: int, s: seq<nat>)
    requires InRange(s, |credits|) && Increasing(s)
    ensures Stable(credits, SortIndices(credits, date, s), date)
    decreases |s|
  {
    if s != [] {
      var tail := SortIndices(credits, date, s[1..]);
      SortIndicesStable(credits, date, s[1..]);
      forall k | 0 <= k < |tail|
        ensures s[0] < tail[k]
      {
        assert tail[k] in multiset(s[1..]);
        var m :| 0 <= m < |s[1..]| && s[1..][m] == tail[k];
        assert s[m + 1] == tail[k];
      }
      InsertKeepsStable(credits, date, s[0], tail);
    }
  }

  lemma GatherCons(credits: seq<Bucket>, s: seq<nat>)
    requires InRange(s, |credits|) && s != []
    ensures Gather(credits, s) == [credits[s[0]]] + Gather(credits, s[1..])
  {
  }

  lemma {:induction false} SortIndicesGathers(credits: seq<Bucket>, date: int, s: seq<nat>)
    requires InRange(s, |credits|)
    ensures multiset(Gather(credits, SortIndices(credits, date, s))) == multiset(Gather(credits, s))
    decreases |s|
  {
    if s != [] {
      var tail := SortIndices(credits, date, s[1..]);
      SortIndicesGathers(credits, date, s[1..]);
      InsertGathers(credits, date, s[0], tail);
      GatherCons(credits, s);
    }
  }

  /** The indices 0..n-1 in input order. */
  function Indices(n: nat): (r: seq<nat>)
    ensures |r| == n && InRange(r, n)
  {
    seq(n, i => i)
  }

  lemma EveryIndexSorted(credits: seq<Bucket>, date: int)
    ensures forall i :: 0 <= i < |credits| ==> i in SortIndices(credits, date, Indices(|credits|))
  {
    var all := Indices(|credits|);
    var order := SortIndices(credits, date, all);
    forall i | 0 <= i < |credits|
      ensures i in order
    {
      assert all[i] == i;
      assert i in multiset(order);
    }
  }

  /** The priority order of the whole bucket list: the indices of `credits`
      sorted by priority, every bucket exactly once, ties kept in input order. */
  function PriorityOrder(credits: seq<Bucket>, date: int): (order: seq<nat>)
    ensures |order| == |credits| && InRange(order, |credits|)
    ensures Distinct(order)
    ensures forall i :: 0 <= i < |credits| ==> i in order
    ensures Sorted(credits, order, date)
    ensures Stable(credits, order, date)
    ensures multiset(Gather(credits, order)) == multiset(credits)
  {
    var all := Indices(|credits|);
    SortIndicesSorted(credits, date, all);
    SortIndicesDistinct(credits, date, all);
    SortIndicesStable(credits, date, all);
    SortIndicesGathers(credits, date, all);
    EveryIndexSorted(credits, date);
    assert Gather(credits, all) == credits;
    SortIndices(credits, date, all)
  }

  /** The three priority rules, stated on a sequence of buckets. */
  predicate PriorityRules(s: seq<Bucket>, date: int)
  {
    // free buckets come before every non-free bucket
    && (forall j, k :: 0 <= j < k < |s| && s[k].kind == Free ==> s[j].kind == Free)
    // among non-free buckets, valid ones come before expired ones
    && (forall j, k :: 0 <= j < k < |s| && s[j].kind != Free && s[k].kind != Free && IsExpired(s[j], date) ==>
          IsExpired(s[k], date))
    // among valid non-free buckets, the soonest expiry comes first
    && (forall j, k ::
          (0 <= j < k < |s| && s[j].kind != Free && s[k].kind != Free &&
           !IsExpired(s[j], date) && !IsExpired(s[k], date)) ==>
          Stamp(s[j].expiry) <= Stamp(s[k].expiry))
  }

  /** Being sorted on the key is the same as obeying the three priority rules. */
  lemma SortedIffPriorityRules(credits: seq<Bucket>, order: seq<nat>, date: int)
    requires InRange(order, |credits|)
    ensures Sorted(credits, order, date) <==> PriorityRules(Gather(credits, order), date)
  {
    var s := Gather(credits, order);
    if PriorityRules(s, date) {
      forall j, k | 0 <= j < k < |order|
        ensures Precedes(credits[order[j]], credits[order[k]], date)
      {
        assert s[j] == credits[order[j]] && s[k] == credits[order[k]];
      }
    }
  }

  /** The sorted copy `[...credits].sort(...)`: a permutation of the buckets
      that obeys the priority rules. */
  function SortedCopy(credits: seq<Bucket>, date: int): (sorted: seq<Bucket>)
    ensures |sorted| == |credits|
    ensures multiset(sorted) == multiset(credits)
    ensures PriorityRules(sorted, date)
  {
    var order := PriorityOrder(credits, date);
    SortedIffPriorityRules(credits, order, date);
    Gather(credits, order)
  }

  /** Position `j` of the sorted copy is the bucket the priority order puts
      there. */
  lemma SortedCopyAt(credits: seq<Bucket>, date: int, j: nat)
    requires j < |credits|
    ensures SortedCopy(credits, date)[j] == credits[PriorityOrder(credits, date)[j]]
  {
  }
}
