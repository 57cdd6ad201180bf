/** Resource pools as the part modules use them: one bounded amount per
    scope, with the host's RequestResource semantics (a positive request
    withdraws, a negative one deposits, and the signed amount actually
    moved is returned). */
module Resources {

  function Min(a: real, b: real): (r: real)
    ensures r <= a && r <= b && (r == a || r == b)
  {
    if a <= b then a else b
  }

  function Abs(x: real): (r: real)
    ensures 0.0 <= r && (r == x || r == -x)
  {
    if x < 0.0 then -x else x
  }

  /** The signed amount a pool holding amount out of max hands over for a
      request r: never more than asked for, of the same sign, and never
      past empty or full; it falls short of r only when the pool ends up
      empty (withdrawal) or full (deposit). */
  function Transfer(amount: real, max: real, r: real): (got: real)
    requires 0.0 <= amount <= max
    ensures 0.0 <= r ==> 0.0 <= got <= r
    ensures r <= 0.0 ==> r <= got <= 0.0
    ensures 0.0 <= amount - got <= max
    ensures got == r || (0.0 < r && amount - got == 0.0) || (r < 0.0 && amount - got == max)
  {
    if 0.0 <= r then (if r <= amount then r else amount)
    else (if amount - r <= max then r else amount - max)
  }

  /** A request is honoured in full exactly when it fits between the
      pool's contents and its free space. */
  lemma TransferInFull(amount: real, max: real, r: real)
    requires 0.0 <= amount <= max
    ensures Transfer(amount, max, r) == r <==> (0.0 <= amount - r <= max)
  {
  }

  /** A withdrawal obtains nothing exactly when the pool is empty. */
  lemma TransferNothing(amount: real, max: real, r: real)
    requires 0.0 <= amount <= max && 0.0 < r
    ensures Transfer(amount, max, r) == 0.0 <==> amount == 0.0
  {
  }

  /** A resource container (a PartResource, or the vessel-wide aggregate
      of one resource). */
  class Pool {
    var amount: real
    const maxAmount: real

    predicate Valid()
      reads this
    {
      0.0 <= amount <= maxAmount
    }

    constructor (amount: real, maxAmount: real)
      requires 0.0 <= amount <= maxAmount
      ensures Valid() && this.amount == amount && this.maxAmount == maxAmount
    {
      this.amount := amount;
      this.maxAmount := maxAmount;
    }

    /** RequestResource: moves Transfer(amount, maxAmount, r) out of the pool. */
    method Request(r: real) returns (got: real)
      requires Valid()
      modifies this
      ensures Valid()
      ensures got == Transfer(old(amount), maxAmount, r)
      ensures amount == old(amount) - got
    {
      got := Transfer(amount, maxAmount, r);
      amount := amount - got;
    }
  }

  /** Stand-in for Util.StartupRequest, which is not part of this model:
      it charges the pool for the time the vessel was unloaded (elapsed
      seconds, from the host clock) at rate per second and answers how
      many of those seconds the pool could not cover. Callers rely only
      on its contract. */
  method StartupRequest(pool: Pool, rate: real, elapsed: real) returns (secondsRemaining: real)
    requires pool.Valid() && 0.0 < rate && 0.0 <= elapsed
    modifies pool
    ensures pool.Valid()
    ensures 0.0 <= secondsRemaining
    ensures pool.amount <= old(pool.amount)
  {
    var wanted := rate * elapsed;
    var got := pool.Request(wanted);
    secondsRemaining := (wanted - got) / rate;
  }
}
