/**
 A credit bucket: one source of credit (free, package or top-up) with its
 granted amount, the amount used so far and an optional expiry instant.

 Amounts are exact reals and instants are integers (milliseconds since the
 epoch), so there is no floating-point rounding and no invalid date.
 */
module Credit {

  /** An optional value: a bucket built without an expiry instant holds `None`. */
  datatype Option<+T> = None | Some(value: T)

  /** The three kinds of credit a customer can hold. */
  datatype Kind = Free | Package | Topup

  /** One credit bucket, as built by `createCreditObject` (where `used` defaults to 0). */
  datatype Bucket = Bucket(kind: Kind, amount: real, used: real, expiry: Option<int>)

  /** The expiry instant the bucket reports: a free bucket reports none,
      whatever instant it was built with. */
  function ExpiryDate(b: Bucket): (r: Option<int>)
    ensures b.kind == Free ==> r.None?
    ensures r.None? <==> b.kind == Free || b.expiry.None?
    ensures r.Some? ==> r == b.expiry
  {
    if b.kind == Free then None else b.expiry
  }

  /** Whether the bucket has expired at `date`: only a reported expiry can
      expire, and only strictly after its instant. */
  function IsExpired(b: Bucket, date: int): (r: bool)
    ensures b.kind == Free ==> !r
    ensures r <==> b.kind != Free && b.expiry.Some? && b.expiry.value < date
  {
    var expiry := ExpiryDate(b);
    expiry.Some? && date > expiry.value
  }

  /** The usable balance of the bucket at `date`. Nothing clamps it: a bucket
      whose `used` exceeds its `amount` has a negative balance. */
  function Available(b: Bucket, date: int): (r: real)
    ensures r == 0.0 || r == b.amount - b.used
    ensures IsExpired(b, date) ==> r == 0.0
    ensures !IsExpired(b, date) ==> r == b.amount - b.used
    ensures b.kind == Free ==> r == b.amount - b.used
    ensures b.used <= b.amount ==> 0.0 <= r <= b.amount - b.used
  {
    if IsExpired(b, date) then 0.0 else b.amount - b.used
  }

  /** A bucket is still valid at its own expiry instant and at every earlier one. */
  lemma ValidUpToExpiry(b: Bucket, date: int)
    requires b.expiry.Some? && date <= b.expiry.value
    ensures !IsExpired(b, date)
    ensures Available(b, date) == b.amount - b.used
  {
  }

  /** Moving the reference date forward never revives a bucket: once expired it
      stays expired with nothing available, and until then its balance does
      not depend on the date. */
  lemma ExpiryIsPermanent(b: Bucket, earlier: int, later: int)
    requires earlier <= later
    ensures IsExpired(b, earlier) ==> IsExpired(b, later) && Available(b, later) == 0.0
    ensures !IsExpired(b, later) ==> Available(b, earlier) == Available(b, later)
  {
  }
}
