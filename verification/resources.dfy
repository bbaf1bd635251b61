/** The resource pool a workshop part draws on through Part.RequestResource.
    The pool is abstract in the source; here it holds the amount available
    in each channel, a draw is granted as much as is available up to the
    request, and a negative request puts the amount back. */
module Resources {
  import opened Common

  /** The structure resource (Material Kits) and electric charge. */
  datatype Channel = Structure | ElectricCharge

  /** Amount available to the workshop part in each channel. */
  datatype Pool = Pool(structure: real, charge: real) {
    predicate Valid() {
      structure >= 0.0 && charge >= 0.0
    }

    function Amount(c: Channel): real {
      match c
      case Structure => structure
      case ElectricCharge => charge
    }

    function Set(c: Channel, amount: real): (p: Pool)
      ensures p.Amount(c) == amount
      ensures forall d :: d != c ==> p.Amount(d) == Amount(d)
    {
      match c
      case Structure => this.(structure := amount)
      case ElectricCharge => this.(charge := amount)
    }
  }

  /** One call of Part.RequestResource: a positive amount draws, a negative
      amount refunds. */
  datatype Request = Request(channel: Channel, amount: real)

  /** Part.RequestResource(channel, amount): returns what was granted and the
      pool afterwards. */
  function RequestResource(pool: Pool, c: Channel, amount: real): (r: (Pool, real))
    requires pool.Valid()
    ensures r.0.Valid()
    ensures amount >= 0.0 ==> 0.0 <= r.1 <= amount && r.1 <= pool.Amount(c)
    ensures amount >= 0.0 && r.1 < amount ==> r.0.Amount(c) == 0.0
    ensures amount < 0.0 ==> r.1 == amount
    ensures r.0.Amount(c) == pool.Amount(c) - r.1
    ensures forall d :: d != c ==> r.0.Amount(d) == pool.Amount(d)
  {
    var granted := if amount >= 0.0 then MinReal(amount, pool.Amount(c)) else amount;
    (pool.Set(c, pool.Amount(c) - granted), granted)
  }

  /** Total put back into channel `c` by the refunds in a request log. */
  function Refunded(log: seq<Request>, c: Channel): real {
    if |log| == 0 then 0.0
    else
      Refunded(log[..|log| - 1], c)
      + (if log[|log| - 1].channel == c && log[|log| - 1].amount < 0.0 then -log[|log| - 1].amount else 0.0)
  }

  /** Total asked for (not necessarily granted) on channel `c` by the draws in a log. */
  function Requested(log: seq<Request>, c: Channel): real {
    if |log| == 0 then 0.0
    else
      Requested(log[..|log| - 1], c)
      + (if log[|log| - 1].channel == c && log[|log| - 1].amount > 0.0 then log[|log| - 1].amount else 0.0)
  }

  /** A log of draws only holds no refund. */
  lemma {:induction false} RefundedDraws(log: seq<Request>, c: Channel)
    requires forall i :: 0 <= i < |log| ==> log[i].amount > 0.0
    ensures Refunded(log, c) == 0.0
    decreases |log|
  {
    if |log| > 0 {
      RefundedDraws(log[..|log| - 1], c);
    }
  }
}
