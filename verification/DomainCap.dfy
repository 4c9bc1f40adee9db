/** The capacity of a domain over all namespaces: exactly when an operation keeps the whole domain within
    its capacity, and that one namespace alone always does. */
module DomainCap {
  import opened Types
  import opened Sums
  import opened SizeClass
  import opened Accounting
  import opened Storage
  import opened Records
  import opened Outcomes
  import opened Quotas
  import opened Reservations

  /** Committed plus reserved bytes of a domain, over all namespaces. */
  ghost function DomainCharge(a: Accounts, d: Domain): int {
    MapSum(a.reserved, OnDomain(d)) + MapSum(a.committed, OnDomain(d))
  }

  // ------------------------------------------------------------------ what a call adds

  /** The bytes by which an operation charges a domain, for every answer of the backends; less than zero
      where a failing call takes away more than it leaves. */
  function Growth(st: Store, op: StoreOp, d: Domain): int {
    match op
    case DoAllocate(req, env) =>
      var e := AllocateEffect(st, req, env);
      if req.domain == d then e.reserved + e.committed else 0
    case DoMigrate(c, target, env) =>
      if CanMigrate(st, c, target) && target == d then
        var e := MoveEffect(st, c, target, env);
        e.reserved + e.committed
      else 0
    case _ => 0
  }

  lemma ShiftCharge(a: Accounts, b: Accounts, k: Charge, x: int, y: int, count: int, d: Domain)
    requires Shift(a, b, k, x, y, count)
    ensures DomainCharge(b, d) == DomainCharge(a, d) + if k.domain == d then x + y else 0
  {
    forall j: Charge
      ensures Get(b.reserved, j) == Get(a.reserved, j) + if j == k then x else 0
      ensures Get(b.committed, j) == Get(a.committed, j) + if j == k then y else 0
    {
      assert b.Reserved(j) == a.Reserved(j) + if j == k then x else 0;
      assert b.Committed(j) == a.Committed(j) + if j == k then y else 0;
    }
    MapSumShift(a.reserved, b.reserved, k, x, d);
    MapSumShift(a.committed, b.committed, k, y, d);
  }

  lemma AllocateCharge(st: Store, req: Request, env: Env, d: Domain)
    requires NoWrapAt(st, DoAllocate(req, env))
    ensures DomainCharge(Allocate(st, req, env).0.acc, d) == DomainCharge(st.acc, d) + Growth(st, DoAllocate(req, env), d)
  {
    var e := AllocateEffect(st, req, env);
    AllocateShifts(st, req, env);
    ShiftCharge(st.acc, Allocate(st, req, env).0.acc, Charge(req.ns, req.domain), e.reserved, e.committed, e.count, d);
  }

  /** One account shifted, another, on another domain, reduced. */
  lemma TransferCharge(a: Accounts, b: Accounts, k: Charge, e: Effect, k0: Charge, less: nat, d: Domain)
    requires Transferred(a, b, k, e, k0, less) && k.domain != k0.domain
    ensures
      if d == k.domain then DomainCharge(b, d) == DomainCharge(a, d) + e.reserved + e.committed
      else DomainCharge(b, d) <= DomainCharge(a, d)
  {
    forall j: Charge
      ensures Get(b.reserved, j) == Get(a.reserved, j) + if j == k then e.reserved else 0
      ensures Get(b.committed, j) == Get(a.committed, j) + (if j == k then e.committed else 0) - if j == k0 then less else 0
    {
      assert b.Reserved(j) == a.Reserved(j) + if j == k then e.reserved else 0;
      assert b.Committed(j) == a.Committed(j) + (if j == k then e.committed else 0) - if j == k0 then less else 0;
    }
    MapSumShift(a.reserved, b.reserved, k, e.reserved, d);
    if d == k.domain {
      MapSumShift(a.committed, b.committed, k, e.committed, d);
    } else {
      MapSumLeq(a.committed, b.committed, d);
    }
  }

  lemma MigrateCharge(st: Store, c: nat, target: Domain, env: Env, d: Domain)
    requires CanMigrate(st, c, target) && NoWrapAt(st, DoMigrate(c, target, env))
    ensures
      var before, after := DomainCharge(st.acc, d), DomainCharge(Migrate(st, c, target, env).0.acc, d);
      if d == target then after == before + Growth(st, DoMigrate(c, target, env), d) else after <= before
  {
    var r := st.recs[c];
    MigrateShifts(st, c, target, env);
    TransferCharge(st.acc, Migrate(st, c, target, env).0.acc, Charge(r.ns, target), MoveEffect(st, c, target, env),
                   Charge(r.ns, r.domain), Released(st, c, target, env), d);
  }

  lemma FinalizeLess(st: Store, c: nat, j: Charge)
    ensures Get(Finalize(st, c).acc.committed, j) <= Get(st.acc.committed, j)
  {
  }

  lemma TrimLess(st: Store, j: Charge)
    ensures Get(Trim(st).acc.committed, j) <= Get(st.acc.committed, j)
  {
  }

  /** A step charges a domain by exactly its growth, or takes charges away. */
  lemma StepCharge(st: Store, op: StoreOp, d: Domain)
    requires NoWrapAt(st, op)
    ensures
      var before, after, more := DomainCharge(st.acc, d), DomainCharge(Apply(st, op).acc, d), Growth(st, op, d);
      after == before + more || (more == 0 && after <= before)
  {
    match op
    case DoAllocate(req, env) => AllocateCharge(st, req, env, d);
    case DoFinalize(c) =>
      FinalizeReserved(st, c);
      forall j: Charge ensures Get(Finalize(st, c).acc.committed, j) <= Get(st.acc.committed, j) {
        FinalizeLess(st, c, j);
      }
      MapSumLeq(st.acc.committed, Finalize(st, c).acc.committed, d);
    case DoMigrate(c, target, env) =>
      if CanMigrate(st, c, target) {
        MigrateCharge(st, c, target, env, d);
      }
    case DoTrim =>
      forall j: Charge ensures Get(Trim(st).acc.committed, j) <= Get(st.acc.committed, j) {
        TrimLess(st, j);
      }
      MapSumLeq(st.acc.committed, Trim(st).acc.committed, d);
    case _ =>
  }

  /** The domain stays within its capacity across a step, whatever the backends answer, if and only if what
      all namespaces are charged together and what the step adds fit; the code looks at one namespace only. */
  lemma CapExactly(st: Store, op: StoreOp, d: Domain)
    requires NoWrapAt(st, op) && 0 < Capacity(st.cfg, d)
    requires DomainCharge(st.acc, d) <= Capacity(st.cfg, d)
    ensures DomainCharge(Apply(st, op).acc, d) <= Capacity(st.cfg, d) <==>
            DomainCharge(st.acc, d) + Growth(st, op, d) <= Capacity(st.cfg, d)
  {
    StepCharge(st, op, d);
  }

  // ------------------------------------------------------------------ one namespace

  /** Nobody but namespace n is charged on d. */
  ghost predicate Sole(a: Accounts, n: NamespaceId, d: Domain) {
    forall j: Charge :: j.domain == d && j.ns != n ==> a.Reserved(j) == 0 && a.Committed(j) == 0
  }

  lemma SoleCharge(a: Accounts, n: NamespaceId, d: Domain)
    requires Sole(a, n, d)
    ensures DomainCharge(a, d) == a.Charged(Charge(n, d))
  {
    var k := Charge(n, d);
    MapSumShift(map[], a.reserved, k, a.Reserved(k), d);
    MapSumShift(map[], a.committed, k, a.Committed(k), d);
  }

  /** A modest step that charges d for nobody but n. */
  ghost function Alone(n: NamespaceId, d: Domain): (Store, StoreOp) -> bool {
    (st: Store, op: StoreOp) =>
      && Modest(st, op)
      && (op.DoAllocate? && op.req.domain == d ==> op.req.ns == n)
      && (op.DoMigrate? && op.target == d && op.c < |st.recs| ==> st.recs[op.c].ns == n)
  }

  /** The accounts other than k read at most what they did. */
  ghost predicate OthersShrink(a: Accounts, b: Accounts, k: Charge) {
    forall j: Charge :: j != k ==> b.Reserved(j) <= a.Reserved(j) && b.Committed(j) <= a.Committed(j)
  }

  lemma HitOthers(st: Store, req: Request, plan: Plan, acc: Accounts, i: nat, env: Env)
    requires i < |st.pool|
    ensures OthersShrink(acc, AllocateHit(st, req, plan, acc, i, env).0.acc, Charge(req.ns, req.domain))
  {
  }

  lemma FreshOthers(st: Store, req: Request, plan: Plan, acc: Accounts, env: Env)
    ensures OthersShrink(acc, AllocateFresh(st, req, plan, acc, env).0.acc, Charge(req.ns, req.domain))
  {
  }

  lemma AllocateOthers(st: Store, req: Request, env: Env)
    ensures OthersShrink(st.acc, Allocate(st, req, env).0.acc, Charge(req.ns, req.domain))
  {
    var v := Validate(st.cfg, req);
    if v.Ok? && ReserveFor(st, req, v.value.bytes).Ok? {
      var a, i := ReserveFor(st, req, v.value.bytes).value, SlotFor(st, req, v.value);
      if i < |st.pool| {
        HitOthers(st, req, v.value, a, i, env);
      } else {
        FreshOthers(st, req, v.value, a, env);
      }
    }
  }

  lemma OneTouched(a: Accounts, k: Charge, bytes: nat)
    ensures OthersShrink(a, UnreserveAmount(a, k, bytes), k) && OthersShrink(a, FreeAccounting(a, k, bytes), k)
    ensures CommitAmount(a, k, bytes).Ok? ==> OthersShrink(a, CommitAmount(a, k, bytes).value, k)
    ensures forall j: Charge :: OthersShrink(a, FreeAccounting(a, j, bytes), k)
  {
  }

  lemma OthersTwice(a: Accounts, b: Accounts, c: Accounts, k: Charge)
    requires OthersShrink(a, b, k) && OthersShrink(b, c, k)
    ensures OthersShrink(a, c, k)
  {
    forall j: Charge | j != k ensures c.Reserved(j) <= a.Reserved(j) && c.Committed(j) <= a.Committed(j) {
      assert b.Reserved(j) <= a.Reserved(j) && b.Committed(j) <= a.Committed(j);
    }
  }

  lemma MigrateReservedOthers(st: Store, c: nat, target: Domain, n: nat, acc: Accounts, env: Env)
    requires c < |st.recs|
    ensures OthersShrink(acc, MigrateReserved(st, c, target, n, acc, env).0.acc, Charge(st.recs[c].ns, target))
  {
    var r, st' := st.recs[c], MigrateReserved(st, c, target, n, acc, env).0;
    var k := Charge(r.ns, target);
    OneTouched(acc, k, n);
    if env.allocateOk && env.copyOk && CommitAmount(acc, k, n).Ok? {
      var acc1 := CommitAmount(acc, k, n).value;
      var acc2 := if target != DEVICE then FreeAccounting(acc1, k, n) else acc1;
      OneTouched(acc1, k, n);
      OneTouched(acc2, k, n);
      OneTouched(acc1, k, r.backing.committed);
      OthersTwice(acc, acc1, if env.verifyOk then st'.acc else acc2, k);
      OthersTwice(acc, acc2, UnreserveAmount(acc2, k, n), k);
    }
  }

  lemma MigrateOthers(st: Store, c: nat, target: Domain, env: Env)
    requires c < |st.recs|
    ensures OthersShrink(st.acc, Migrate(st, c, target, env).0.acc, Charge(st.recs[c].ns, target))
  {
    var r := st.recs[c];
    var n, k := MoveBytes(r), Charge(r.ns, target);
    var a := ReserveAmount(st.acc, k, CeilingOf(st.cfg, st.nss, k), n);
    if target in st.cfg.domains && a.Ok? {
      MigrateReservedOthers(st, c, target, n, a.value, env);
    }
  }

  lemma StepSole(st: Store, op: StoreOp, n: NamespaceId, d: Domain)
    requires Sole(st.acc, n, d) && Alone(n, d)(st, op)
    ensures Sole(Apply(st, op).acc, n, d)
  {
    match op
    case DoAllocate(req, env) => AllocateOthers(st, req, env);
    case DoFinalize(c) =>
      FinalizeReserved(st, c);
      forall j: Charge ensures Get(Finalize(st, c).acc.committed, j) <= Get(st.acc.committed, j) {
        FinalizeLess(st, c, j);
      }
    case DoMigrate(c, target, env) =>
      if CanMigrate(st, c, target) {
        MigrateOthers(st, c, target, env);
      }
    case DoTrim =>
      forall j: Charge ensures Get(Trim(st).acc.committed, j) <= Get(st.acc.committed, j) {
        TrimLess(st, j);
      }
    case _ =>
  }

  /** A domain that only one namespace is charged on stays within its capacity in every run. */
  lemma OneNamespaceWithinCap(cfg: Config, nss: map<NamespaceId, NamespaceConfig>, n: NamespaceId, d: Domain, ops: seq<StoreOp>)
    requires StoreRun(Alone(n, d), Init(cfg, nss), ops)
    requires 0 < Capacity(cfg, d)
    ensures DomainCharge(ApplyAll(Init(cfg, nss), ops).acc, d) <= Capacity(cfg, d)
  {
    var inv := (s: Store) => Within(s) && Sole(s.acc, n, d) && s.cfg == cfg;
    forall s: Store, op: StoreOp | inv(s) && Alone(n, d)(s, op) ensures inv(Apply(s, op)) {
      StepWithin(s, op);
      StepSole(s, op, n, d);
      StepChanges(s, op);
    }
    Induct(Alone(n, d), inv, Init(cfg, nss), ops);
    var st := ApplyAll(Init(cfg, nss), ops);
    SoleCharge(st.acc, n, d);
    assert Under(st.acc.Charged(Charge(n, d)), CeilingOf(st.cfg, st.nss, Charge(n, d)));
  }
}
