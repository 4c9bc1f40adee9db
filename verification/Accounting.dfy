/** Reserve/commit byte accounting per namespace and domain (src/runtime.cpp, reserve_amount to
    release_count). Counters are 64-bit: additions wrap, subtractions are clamped at zero. */
module Accounting {
  import opened Wrappers
  import opened Types
  import opened Sums
  import opened SizeClass

  datatype Charge = Charge(ns: NamespaceId, domain: Domain)

  datatype Accounts = Accounts(reserved: map<Charge, nat>, committed: map<Charge, nat>, counts: map<NamespaceId, nat>) {

    function Reserved(k: Charge): nat { Get(reserved, k) }

    function Committed(k: Charge): nat { Get(committed, k) }

    /** What the capacity and quota tests look at. */
    function Charged(k: Charge): nat { Committed(k) + Reserved(k) }
  }

  function Minus(x: nat, y: nat): nat {
    if x >= y then x - y else 0
  }

  /** The two ceilings of a charge; zero means none. */
  datatype Ceiling = Ceiling(cap: nat, quota: nat)

  /** capacity_for / cap_for: the configured cap, at most what the backend reports. */
  function Capacity(cfg: Config, d: Domain): nat {
    if d !in cfg.domains then 0
    else
      var total, cap := cfg.domains[d].total, Get(cfg.caps, d);
      if cap == 0 then total else if total == 0 || cap <= total then cap else total
  }

  function Quota(nss: map<NamespaceId, NamespaceConfig>, k: Charge): nat {
    if k.ns in nss then Get(nss[k.ns].quota, k.domain) else 0
  }

  function CeilingOf(cfg: Config, nss: map<NamespaceId, NamespaceConfig>, k: Charge): Ceiling {
    Ceiling(Capacity(cfg, k.domain), Quota(nss, k))
  }

  function ReserveAmount(a: Accounts, k: Charge, c: Ceiling, bytes: nat): Result<Accounts> {
    if bytes == 0 then Ok(a)
    else
      var total := (a.Committed(k) + a.Reserved(k) + bytes) % U64;
      if c.cap != 0 && total > c.cap then Err(OutOfCapacity)
      else if c.quota != 0 && total > c.quota then Err(QuotaExceeded)
      else Ok(a.(reserved := a.reserved[k := (a.Reserved(k) + bytes) % U64]))
  }

  function CommitAmount(a: Accounts, k: Charge, bytes: nat): Result<Accounts> {
    if a.Reserved(k) < bytes then Err(StateInvalid)
    else Ok(a.(reserved := a.reserved[k := a.Reserved(k) - bytes],
               committed := a.committed[k := (a.Committed(k) + bytes) % U64]))
  }

  function UnreserveAmount(a: Accounts, k: Charge, bytes: nat): Accounts {
    a.(reserved := a.reserved[k := Minus(a.Reserved(k), bytes)])
  }

  function FreeAccounting(a: Accounts, k: Charge, bytes: nat): Accounts {
    a.(committed := a.committed[k := Minus(a.Committed(k), bytes)])
  }

  function ReserveCount(a: Accounts, ns: NamespaceId, nss: map<NamespaceId, NamespaceConfig>): Result<Accounts> {
    var n := Get(a.counts, ns);
    var quota := if ns in nss then nss[ns].countQuota else 0;
    if quota != 0 && n >= quota then Err(QuotaExceeded) else Ok(a.(counts := a.counts[ns := n + 1]))
  }

  function ReleaseCount(a: Accounts, ns: NamespaceId): Accounts {
    a.(counts := a.counts[ns := Minus(Get(a.counts, ns), 1)])
  }

  /** Accounts that read the same everywhere: a zero entry and an absent one are not told apart. */
  ghost predicate SameBalance(a: Accounts, b: Accounts) {
    && (forall k: Charge :: a.Reserved(k) == b.Reserved(k))
    && (forall k: Charge :: a.Committed(k) == b.Committed(k))
    && (forall ns: NamespaceId :: Get(a.counts, ns) == Get(b.counts, ns))
  }

  /** The largest number of bytes one call can charge. */
  const MAX_CHARGE: nat := MAX_REQUEST + MAX_ALIGNMENT

  /** Room for one more charge below 2^64. */
  predicate Roomy(a: Accounts, k: Charge) {
    a.Charged(k) + MAX_CHARGE < U64
  }

  lemma NoWrap(x: nat)
    requires x < U64
    ensures x % U64 == x
  {
  }

  /** A reservation that is not committed is undone exactly, as far as the sums do not wrap. */
  lemma ReserveThenUndo(a: Accounts, k: Charge, c: Ceiling, bytes: nat)
    requires bytes <= MAX_CHARGE && Roomy(a, k)
    requires ReserveAmount(a, k, c, bytes).Ok?
    ensures SameBalance(UnreserveAmount(ReserveAmount(a, k, c, bytes).value, k, bytes), a)
  {
  }

  /** Reserve then commit of the same amount moves it from nothing to committed. */
  lemma ReserveThenCommit(a: Accounts, k: Charge, c: Ceiling, bytes: nat)
    requires bytes <= MAX_CHARGE && Roomy(a, k)
    requires ReserveAmount(a, k, c, bytes).Ok?
    ensures
      var r := CommitAmount(ReserveAmount(a, k, c, bytes).value, k, bytes);
      && r.Ok?
      && r.value.counts == a.counts
      && (forall j: Charge :: r.value.Reserved(j) == a.Reserved(j))
      && (forall j: Charge :: r.value.Committed(j) == a.Committed(j) + if j == k then bytes else 0)
  {
    NoWrap(a.Reserved(k) + bytes);
    NoWrap(a.Committed(k) + bytes);
    var b := ReserveAmount(a, k, c, bytes).value;
    assert b.Reserved(k) == a.Reserved(k) + bytes && b.committed == a.committed;
  }

  // ------------------------------------------------------------------ shifts

  /** b is a with reserved and committed of k and the count of its namespace moved by these amounts. */
  ghost predicate Shift(a: Accounts, b: Accounts, k: Charge, reserved: int, committed: int, count: int) {
    && (forall j: Charge :: b.Reserved(j) == a.Reserved(j) + if j == k then reserved else 0)
    && (forall j: Charge :: b.Committed(j) == a.Committed(j) + if j == k then committed else 0)
    && (forall ns: NamespaceId :: Get(b.counts, ns) == Get(a.counts, ns) + if ns == k.ns then count else 0)
  }

  function Least(x: nat, y: nat): nat {
    if x <= y then x else y
  }

  lemma ShiftTwice(a: Accounts, b: Accounts, c: Accounts, k: Charge, x: int, y: int, n: int, x': int, y': int, n': int)
    requires Shift(a, b, k, x, y, n) && Shift(b, c, k, x', y', n')
    ensures Shift(a, c, k, x + x', y + y', n + n')
  {
    forall j: Charge
      ensures c.Reserved(j) == a.Reserved(j) + if j == k then x + x' else 0
      ensures c.Committed(j) == a.Committed(j) + if j == k then y + y' else 0
    {
      assert b.Reserved(j) == a.Reserved(j) + if j == k then x else 0;
      assert b.Committed(j) == a.Committed(j) + if j == k then y else 0;
    }
  }

  lemma ShiftZero(a: Accounts, b: Accounts, k: Charge, x: int, y: int, n: int)
    requires Shift(a, b, k, x, y, n)
    ensures SameBalance(b, a) <==> x == 0 && y == 0 && n == 0
  {
    assert b.Reserved(k) == a.Reserved(k) + x && b.Committed(k) == a.Committed(k) + y;
    assert Get(b.counts, k.ns) == Get(a.counts, k.ns) + n;
  }

  lemma ReserveShifts(a: Accounts, k: Charge, c: Ceiling, bytes: nat)
    requires a.Charged(k) + bytes < U64 && ReserveAmount(a, k, c, bytes).Ok?
    ensures Shift(a, ReserveAmount(a, k, c, bytes).value, k, bytes, 0, 0)
  {
    NoWrap(a.Reserved(k) + bytes);
  }

  lemma CommitShifts(a: Accounts, k: Charge, bytes: nat)
    requires a.Reserved(k) >= bytes && a.Committed(k) + bytes < U64
    ensures CommitAmount(a, k, bytes).Ok? && Shift(a, CommitAmount(a, k, bytes).value, k, 0 - bytes, bytes, 0)
  {
    NoWrap(a.Committed(k) + bytes);
  }

  lemma UnreserveShifts(a: Accounts, k: Charge, bytes: nat)
    ensures Shift(a, UnreserveAmount(a, k, bytes), k, 0 - Least(a.Reserved(k), bytes), 0, 0)
  {
  }

  lemma FreeShifts(a: Accounts, k: Charge, bytes: nat)
    ensures Shift(a, FreeAccounting(a, k, bytes), k, 0, 0 - Least(a.Committed(k), bytes), 0)
  {
  }

  lemma TakeCountShifts(a: Accounts, k: Charge, nss: map<NamespaceId, NamespaceConfig>)
    requires ReserveCount(a, k.ns, nss).Ok?
    ensures Shift(a, ReserveCount(a, k.ns, nss).value, k, 0, 0, 1)
  {
  }

  lemma GiveCountShifts(a: Accounts, k: Charge)
    requires Get(a.counts, k.ns) > 0
    ensures Shift(a, ReleaseCount(a, k.ns), k, 0, 0, -1)
  {
  }

  // ------------------------------------------------------------------ totals per domain

  function OnDomain(d: Domain): (Charge, nat) -> int {
    (k: Charge, v: nat) => if k.domain == d then v else 0
  }

  lemma {:induction false} MapSumNonNegative(m: map<Charge, nat>, d: Domain)
    ensures MapSum(m, OnDomain(d)) >= 0
    decreases |m|
  {
    if m != map[] {
      var k :| k in m;
      MapSumPick(m, k, OnDomain(d));
      MapSumNonNegative(m - {k}, d);
    }
  }

  lemma {:induction false} MapSumLeq(m: map<Charge, nat>, m': map<Charge, nat>, d: Domain)
    requires forall j: Charge :: j.domain == d ==> Get(m', j) <= Get(m, j)
    ensures MapSum(m', OnDomain(d)) <= MapSum(m, OnDomain(d))
    decreases |m'|
  {
    if m' == map[] {
      MapSumNonNegative(m, d);
    } else {
      var k :| k in m';
      MapSumPick(m', k, OnDomain(d));
      WithoutKey(m, k, d);
      forall j: Charge | j.domain == d ensures Get(m' - {k}, j) <= Get(m - {k}, j) {
        assert Get(m', j) <= Get(m, j);
      }
      MapSumLeq(m - {k}, m' - {k}, d);
      assert k.domain == d ==> Get(m', k) <= Get(m, k);
    }
  }

  lemma WithoutKey(m: map<Charge, nat>, k: Charge, d: Domain)
    ensures MapSum(m - {k}, OnDomain(d)) == MapSum(m, OnDomain(d)) - if k.domain == d then Get(m, k) else 0
  {
    if k in m {
      MapSumPick(m, k, OnDomain(d));
    } else {
      assert m - {k} == m;
    }
  }

  /** Accounts that read the same on a domain have the same total. */
  lemma MapSumSame(m: map<Charge, nat>, m': map<Charge, nat>, d: Domain)
    requires forall j: Charge :: j.domain == d ==> Get(m', j) == Get(m, j)
    ensures MapSum(m', OnDomain(d)) == MapSum(m, OnDomain(d))
  {
    MapSumLeq(m, m', d);
    MapSumLeq(m', m, d);
  }

  /** One account moves by x. */
  lemma MapSumShift(m: map<Charge, nat>, m': map<Charge, nat>, k: Charge, x: int, d: Domain)
    requires forall j: Charge :: j.domain == d ==> Get(m', j) == Get(m, j) + if j == k then x else 0
    ensures MapSum(m', OnDomain(d)) == MapSum(m, OnDomain(d)) + if k.domain == d then x else 0
  {
    if k.domain == d {
      var v := Get(m', k);
      MapSumWrite(m, k, v, OnDomain(d));
      assert v == Get(m, k) + x;
      MapSumSame(m[k := v], m', d);
    } else {
      MapSumSame(m, m', d);
    }
  }
}
