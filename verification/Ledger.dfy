/** The byte and count ledgers as the runtime updates them in place. */
module Ledger {
  import opened Wrappers
  import opened Types
  import opened Sums
  import opened SizeClass
  import opened Accounting

  class Book {
    var reserved: map<Charge, nat>
    var committed: map<Charge, nat>
    var counts: map<NamespaceId, nat>

    function Value(): Accounts
      reads this
    {
      Accounts(reserved, committed, counts)
    }

    constructor ()
      ensures Value() == Accounts(map[], map[], map[])
    {
      reserved, committed, counts := map[], map[], map[];
    }

    method Reserve(k: Charge, ceiling: Ceiling, bytes: nat) returns (error: Option<ErrorCode>)
      modifies this
      ensures
        match ReserveAmount(old(Value()), k, ceiling, bytes)
        case Ok(a) => error == None && Value() == a
        case Err(e) => error == Some(e) && Value() == old(Value())
    {
      if bytes == 0 {
        return None;
      }
      var total := (Get(committed, k) + Get(reserved, k) + bytes) % U64;
      if ceiling.cap != 0 && total > ceiling.cap {
        return Some(OutOfCapacity);
      }
      if ceiling.quota != 0 && total > ceiling.quota {
        return Some(QuotaExceeded);
      }
      reserved := reserved[k := (Get(reserved, k) + bytes) % U64];
      return None;
    }

    method Commit(k: Charge, bytes: nat) returns (error: Option<ErrorCode>)
      modifies this
      ensures
        match CommitAmount(old(Value()), k, bytes)
        case Ok(a) => error == None && Value() == a
        case Err(e) => error == Some(e) && Value() == old(Value())
    {
      if Get(reserved, k) < bytes {
        return Some(StateInvalid);
      }
      reserved := reserved[k := Get(reserved, k) - bytes];
      committed := committed[k := (Get(committed, k) + bytes) % U64];
      return None;
    }

    method Unreserve(k: Charge, bytes: nat)
      modifies this
      ensures Value() == UnreserveAmount(old(Value()), k, bytes)
    {
      var r := Get(reserved, k);
      reserved := reserved[k := if r >= bytes then r - bytes else 0];
    }

    method Uncharge(k: Charge, bytes: nat)
      modifies this
      ensures Value() == FreeAccounting(old(Value()), k, bytes)
    {
      var c := Get(committed, k);
      committed := committed[k := if c >= bytes then c - bytes else 0];
    }

    method TakeCount(ns: NamespaceId, nss: map<NamespaceId, NamespaceConfig>) returns (error: Option<ErrorCode>)
      modifies this
      ensures
        match ReserveCount(old(Value()), ns, nss)
        case Ok(a) => error == None && Value() == a
        case Err(e) => error == Some(e) && Value() == old(Value())
    {
      var n := Get(counts, ns);
      var quota := if ns in nss then nss[ns].countQuota else 0;
      if quota != 0 && n >= quota {
        return Some(QuotaExceeded);
      }
      counts := counts[ns := n + 1];
      return None;
    }

    method GiveCount(ns: NamespaceId)
      modifies this
      ensures Value() == ReleaseCount(old(Value()), ns)
    {
      var n := Get(counts, ns);
      counts := counts[ns := if n > 0 then n - 1 else 0];
    }

    /** The bytes telemetry reports for a domain: a walk over the accounts in no particular order. */
    method CommittedOn(d: Domain) returns (total: int)
      ensures total == MapSum(committed, OnDomain(d))
    {
      total := 0;
      var left := committed;
      while left.Keys != {}
        invariant total + MapSum(left, OnDomain(d)) == MapSum(committed, OnDomain(d))
        decreases |left.Keys|
      {
        var k :| k in left.Keys;
        MapSumPick(left, k, OnDomain(d));
        if k.domain == d {
          total := total + left[k];
        }
        left := left - {k};
      }
      assert left == map[];
    }
  }
}
