/**
 Sums over bucket lists: the remaining total the allocator reports, and the
 total it can draw on.
 */
module Totals {
  import opened Credit

  /** No bucket has a negative balance at `date`. */
  predicate NoneOverdrawn(s: seq<Bucket>, date: int)
  {
    s == [] || (Available(s[0], date) >= 0.0 && NoneOverdrawn(s[1..], date))
  }

  /** No bucket has a positive balance at `date`. */
  predicate NoneAvailable(s: seq<Bucket>, date: int)
  {
    s == [] || (Available(s[0], date) <= 0.0 && NoneAvailable(s[1..], date))
  }

  /** The sum of the balances available at `date`, in list order (the
      `reduce` that computes the remaining total). */
  function TotalAvailable(s: seq<Bucket>, date: int): (r: real)
    ensures NoneOverdrawn(s, date) ==> r >= 0.0
    ensures NoneAvailable(s, date) ==> r <= 0.0
  {
    if s == [] then 0.0 else Available(s[0], date) + TotalAvailable(s[1..], date)
  }

  /** What the allocator can draw from one bucket: its balance when positive,
      nothing otherwise. */
  function Drawable(b: Bucket, date: int): (r: real)
    ensures r >= 0.0
    ensures r > 0.0 <==> Available(b, date) > 0.0
    ensures r >= Available(b, date)
  {
    if Available(b, date) > 0.0 then Available(b, date) else 0.0
  }

  /** The total the allocator can draw from a list of buckets. It is zero
      exactly when no bucket has a positive balance. */
  function DrawableTotal(s: seq<Bucket>, date: int): (r: real)
    ensures r >= 0.0
    ensures r >= TotalAvailable(s, date)
    ensures r == 0.0 <==> forall k :: 0 <= k < |s| ==> Available(s[k], date) <= 0.0
  {
    if s == [] then 0.0
    else
      var rest := DrawableTotal(s[1..], date);
      assert (forall k :: 0 <= k < |s| ==> Available(s[k], date) <= 0.0)
         <==> Available(s[0], date) <= 0.0 && forall k :: 0 <= k < |s[1..]| ==> Available(s[1..][k], date) <= 0.0
      by {
        if forall k :: 0 <= k < |s[1..]| ==> Available(s[1..][k], date) <= 0.0 {
          forall k | 1 <= k < |s|
            ensures Available(s[k], date) <= 0.0
          {
            assert s[k] == s[1..][k - 1];
          }
        }
      }
      Drawable(s[0], date) + rest
  }

  /** When no bucket is overdrawn, the remaining total is exactly what the
      allocator could still draw. */
  lemma {:induction false} TotalAvailableIsDrawable(s: seq<Bucket>, date: int)
    requires NoneOverdrawn(s, date)
    ensures TotalAvailable(s, date) == DrawableTotal(s, date)
    decreases |s|
  {
    if s != [] {
      TotalAvailableIsDrawable(s[1..], date);
    }
  }

  /** Replacing one bucket changes the remaining total by exactly the change
      in that bucket's balance. */
  lemma {:induction false} TotalAvailableUpdate(s: seq<Bucket>, i: nat, v: Bucket, date: int)
    requires i < |s|
    ensures TotalAvailable(s[i := v], date) == TotalAvailable(s, date) - Available(s[i], date) + Available(v, date)
    decreases i
  {
    if i == 0 {
      assert s[i := v][1..] == s[1..];
    } else {
      assert s[i := v][1..] == s[1..][i - 1 := v];
      TotalAvailableUpdate(s[1..], i - 1, v, date);
    }
  }

  lemma {:induction false} DrawableTotalAppend(a: seq<Bucket>, b: seq<Bucket>, date: int)
    ensures DrawableTotal(a + b, date) == DrawableTotal(a, date) + DrawableTotal(b, date)
    decreases |a|
  {
    if a == [] {
      assert a + b == b;
    } else {
      assert (a + b)[1..] == a[1..] + b;
      DrawableTotalAppend(a[1..], b, date);
    }
  }

  /** Taking bucket `k` out of a list leaves the rest of its multiset. */
  lemma RemoveAtMultiset(b: seq<Bucket>, k: nat)
    requires k < |b|
    ensures multiset(b[..k] + b[k + 1..]) == multiset(b) - multiset{b[k]}
  {
    assert b == b[..k] + ([b[k]] + b[k + 1..]);
  }

  /** Taking bucket `k` out of a list lowers the drawable total by exactly
      that bucket's drawable balance. */
  lemma DrawableTotalRemoveAt(b: seq<Bucket>, k: nat, date: int)
    requires k < |b|
    ensures DrawableTotal(b, date) == Drawable(b[k], date) + DrawableTotal(b[..k] + b[k + 1..], date)
  {
    assert b == b[..k] + ([b[k]] + b[k + 1..]);
    DrawableTotalAppend(b[..k], [b[k]] + b[k + 1..], date);
    DrawableTotalAppend(b[..k], b[k + 1..], date);
    assert ([b[k]] + b[k + 1..])[1..] == b[k + 1..];
  }

  /** The drawable total does not depend on the order of the buckets. */
  lemma {:induction false} DrawableTotalPermutation(a: seq<Bucket>, b: seq<Bucket>, date: int)
    requires multiset(a) == multiset(b)
    ensures DrawableTotal(a, date) == DrawableTotal(b, date)
    decreases |a|
  {
    if a == [] {
      assert |b| == |multiset(b)| == 0;
    } else {
      var x := a[0];
      assert x in multiset(b);
      var k :| 0 <= k < |b| && b[k] == x;
      var rest := b[..k] + b[k + 1..];
      RemoveAtMultiset(b, k);
      assert a == [x] + a[1..];
      assert multiset(a[1..]) == multiset(rest);
      DrawableTotalPermutation(a[1..], rest, date);
      DrawableTotalRemoveAt(b, k, date);
    }
  }
}
