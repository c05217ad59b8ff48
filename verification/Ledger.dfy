/**
 The ledgers of a diff: bytes are charged to the account in chunks, ahead of their use, and never past
 the budget.
 */
module Ledger {
  import opened Arithmetic
  import opened Bytes
  import opened Records
  import opened ExactState

  const CHUNK: nat := 1024 * 1024

  /** `ledger_charge`: whole chunks while they fit, the remainder once they do not. */
  function Charge(needed: nat, remaining: nat): nat {
    if remaining < CHUNK then remaining else if needed < CHUNK then CHUNK else if needed > remaining then remaining
      else needed
  }

  /** A charge is what is needed, or one chunk if that is more, or all that remains if that is less. */
  lemma ChargeBounds(needed: nat, remaining: nat)
    ensures Charge(needed, remaining) == Smaller(remaining, Larger(needed, 1048576))
    ensures Charge(needed, remaining) <= remaining && (Charge(needed, remaining) == 0 <==> remaining == 0)
    ensures needed <= remaining ==> Charge(needed, remaining) >= needed
    ensures Charge(needed, remaining) <= if needed < CHUNK then CHUNK else needed
  {
  }

  function Total(charges: seq<nat>): nat {
    if charges == [] then 0 else Total(charges[..|charges| - 1]) + charges[|charges| - 1]
  }

  class ByteLedger {
    const limit: nat
    var reservations: seq<nat>
    var reserved: nat
    var used: nat

    ghost predicate Valid()
      reads this
    {
      used <= reserved <= limit && reserved == Total(reservations)
    }

    constructor (limit: nat)
      ensures Valid() && used == reserved == 0 && this.limit == limit
    {
      this.limit, reservations, reserved, used := limit, [], 0, 0;
    }

    /**
     Accounts for more bytes. Unless the account itself refuses a charge, this succeeds exactly when the
     budget has room; what was charged ahead of use stays below one chunk, or what was charged before.
     */
    method ReserveAdditional(bytes: nat) returns (r: Result<()>, ghost refused: bool)
      requires Valid() && limit < U64
      modifies this
      ensures !refused ==> (r.Success? <==> old(used) + bytes <= limit)
      ensures r.Success? ==> Valid() && used == old(used) + bytes && old(reserved) <= reserved
      ensures r.Success? ==> reserved == old(reserved) || reserved < used + CHUNK
    {
      refused := false;
      if used + bytes >= U64 {
        return Failure(Limit), refused;
      }
      used := used + bytes;
      ghost var begun := reserved;
      while reserved < used
        invariant reserved <= limit && reserved == Total(reservations) && begun <= reserved
        invariant used == old(used) + bytes && !refused
        invariant reserved == begun || reserved < used + CHUNK
        decreases limit - reserved
      {
        var needed, remaining := used - reserved, limit - reserved;
        var charge := Charge(needed, remaining);
        ChargeBounds(needed, remaining);
        if charge == 0 {
          return Failure(Limit), refused;
        }
        var granted := Reserve();
        if !granted {
          refused := true;
          return Failure(Limit), refused;
        }
        assert (reservations + [charge])[..|reservations|] == reservations;
        reservations, reserved := reservations + [charge], reserved + charge;
      }
      r := Success(());
    }
  }
}
