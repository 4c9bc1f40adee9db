/** Ceilings: no account is ever charged beyond its capacity or quota. */
module Quotas {
  import opened Types
  import opened Sums
  import opened SizeClass
  import opened Accounting
  import opened Storage
  import opened Conservation
  import Crc32c

  // ------------------------------------------------------------------ ceilings

  /** Some ceiling is set low enough that a sum tested against it cannot wrap past 2^64. */
  predicate Bounded(c: Ceiling) {
    (0 < c.cap && c.cap + MAX_CHARGE < U64) || (0 < c.quota && c.quota + MAX_CHARGE < U64)
  }

  predicate Under(charged: nat, c: Ceiling) {
    (c.cap != 0 ==> charged <= c.cap) && (c.quota != 0 ==> charged <= c.quota)
  }

  ghost predicate WithinFor(a: Accounts, cfg: Config, nss: map<NamespaceId, NamespaceConfig>) {
    forall k: Charge :: Under(a.Charged(k), CeilingOf(cfg, nss, k))
  }

  /** No account is charged beyond its capacity or its quota. */
  ghost predicate Within(st: Store) {
    WithinFor(st.acc, st.cfg, st.nss)
  }

  /** The test of a charge is meaningful: there is no ceiling, or one that keeps the sum from wrapping, or the
      sum does not wrap anyway. */
  predicate Testable(a: Accounts, k: Charge, c: Ceiling, bytes: nat) {
    (c.cap == 0 && c.quota == 0) || (Bounded(c) && bytes <= MAX_CHARGE) || a.Charged(k) + bytes < U64
  }

  lemma ReserveUnder(a: Accounts, k: Charge, c: Ceiling, bytes: nat)
    requires Testable(a, k, c, bytes) && Under(a.Charged(k), c) && ReserveAmount(a, k, c, bytes).Ok?
    ensures Under(ReserveAmount(a, k, c, bytes).value.Charged(k), c)
  {
    if c.cap != 0 || c.quota != 0 {
      NoWrap(a.Charged(k) + bytes);
      NoWrap(a.Reserved(k) + bytes);
    }
  }

  /** With any 64-bit ceiling, an accepted reservation stays under it if and only if the sum that is tested
      does not wrap, or the reserved counter wraps along with it. */
  lemma ReserveUnderExactly(a: Accounts, k: Charge, c: Ceiling, bytes: nat)
    requires c.cap < U64 && c.quota < U64 && (c.cap != 0 || c.quota != 0) && Under(a.Charged(k), c)
    requires 0 < bytes <= MAX_CHARGE && ReserveAmount(a, k, c, bytes).Ok?
    ensures Under(ReserveAmount(a, k, c, bytes).value.Charged(k), c) <==>
            a.Charged(k) + bytes < U64 || a.Reserved(k) + bytes >= U64
  {
    Modulo(a.Charged(k) + bytes);
    Modulo(a.Reserved(k) + bytes);
  }

  lemma Modulo(x: nat)
    requires x < 2 * U64
    ensures x % U64 == if x < U64 then x else x - U64
  {
  }

  /** The sum can wrap: an account filled to a capacity of 2^64 - 1 accepts one more byte. */
  lemma ReserveWraps(a: Accounts, k: Charge)
    requires a.Committed(k) == U64 - 1 && a.Reserved(k) == 0
    ensures ReserveAmount(a, k, Ceiling(U64 - 1, 0), 1).Ok?
    ensures !Under(ReserveAmount(a, k, Ceiling(U64 - 1, 0), 1).value.Charged(k), Ceiling(U64 - 1, 0))
  {
    Modulo(U64);
    NoWrap(1);
  }

  lemma ReserveWithin(a: Accounts, cfg: Config, nss: map<NamespaceId, NamespaceConfig>, k: Charge, bytes: nat)
    requires WithinFor(a, cfg, nss) && Testable(a, k, CeilingOf(cfg, nss, k), bytes)
    requires ReserveAmount(a, k, CeilingOf(cfg, nss, k), bytes).Ok?
    ensures WithinFor(ReserveAmount(a, k, CeilingOf(cfg, nss, k), bytes).value, cfg, nss)
  {
    var b := ReserveAmount(a, k, CeilingOf(cfg, nss, k), bytes).value;
    forall j: Charge ensures Under(b.Charged(j), CeilingOf(cfg, nss, j)) {
      assert Under(a.Charged(j), CeilingOf(cfg, nss, j));
      if j == k {
        ReserveUnder(a, k, CeilingOf(cfg, nss, k), bytes);
      }
    }
  }

  lemma CommitWithin(a: Accounts, cfg: Config, nss: map<NamespaceId, NamespaceConfig>, k: Charge, bytes: nat)
    requires WithinFor(a, cfg, nss) && CommitAmount(a, k, bytes).Ok?
    ensures WithinFor(CommitAmount(a, k, bytes).value, cfg, nss)
  {
    var b := CommitAmount(a, k, bytes).value;
    assert b.Committed(k) <= a.Committed(k) + bytes;
    forall j: Charge ensures b.Charged(j) <= a.Charged(j) {
    }
    LessWithin(a, b, cfg, nss);
  }

  /** Accounts that are charged no more stay within. */
  lemma LessWithin(a: Accounts, b: Accounts, cfg: Config, nss: map<NamespaceId, NamespaceConfig>)
    requires WithinFor(a, cfg, nss)
    requires forall j: Charge :: b.Charged(j) <= a.Charged(j)
    ensures WithinFor(b, cfg, nss)
  {
    forall j: Charge ensures Under(b.Charged(j), CeilingOf(cfg, nss, j)) {
      assert Under(a.Charged(j), CeilingOf(cfg, nss, j));
    }
  }

  lemma GiveBackWithin(a: Accounts, cfg: Config, nss: map<NamespaceId, NamespaceConfig>, k: Charge, bytes: nat, ns: NamespaceId)
    requires WithinFor(a, cfg, nss)
    ensures WithinFor(UnreserveAmount(a, k, bytes), cfg, nss)
    ensures WithinFor(FreeAccounting(a, k, bytes), cfg, nss)
    ensures WithinFor(ReleaseCount(a, ns), cfg, nss)
  {
    LessWithin(a, UnreserveAmount(a, k, bytes), cfg, nss);
    LessWithin(a, FreeAccounting(a, k, bytes), cfg, nss);
    LessWithin(a, ReleaseCount(a, ns), cfg, nss);
  }

  lemma ReserveForWithin(st: Store, req: Request, bytes: nat)
    requires Within(st) && ReserveFor(st, req, bytes).Ok?
    requires Testable(st.acc, Charge(req.ns, req.domain), CeilingOf(st.cfg, st.nss, Charge(req.ns, req.domain)), bytes)
    ensures WithinFor(ReserveFor(st, req, bytes).value, st.cfg, st.nss)
  {
    var a := ReserveCount(st.acc, req.ns, st.nss).value;
    LessWithin(st.acc, a, st.cfg, st.nss);
    ReserveWithin(a, st.cfg, st.nss, Charge(req.ns, req.domain), bytes);
  }

  lemma HitWithin(st: Store, req: Request, plan: Plan, acc: Accounts, i: nat, env: Env)
    requires i < |st.pool| && WithinFor(acc, st.cfg, st.nss)
    ensures Within(AllocateHit(st, req, plan, acc, i, env).0)
  {
    GiveBackWithin(acc, st.cfg, st.nss, Charge(req.ns, req.domain), st.pool[i].backing.committed, req.ns);
  }

  lemma FreshWithin(st: Store, req: Request, plan: Plan, acc: Accounts, env: Env)
    requires WithinFor(acc, st.cfg, st.nss)
    ensures Within(AllocateFresh(st, req, plan, acc, env).0)
  {
    var k := Charge(req.ns, req.domain);
    var undone := UnreserveAmount(acc, k, plan.bytes);
    GiveBackWithin(acc, st.cfg, st.nss, k, plan.bytes, req.ns);
    GiveBackWithin(undone, st.cfg, st.nss, k, 0, req.ns);
    if CommitAmount(acc, k, plan.bytes).Ok? {
      CommitWithin(acc, st.cfg, st.nss, k, plan.bytes);
      var acc1 := CommitAmount(acc, k, plan.bytes).value;
      GiveBackWithin(acc1, st.cfg, st.nss, k, plan.bytes, req.ns);
      GiveBackWithin(UnreserveAmount(acc1, k, plan.bytes), st.cfg, st.nss, k, 0, req.ns);
    }
  }

  /** A call's charge is testable, and a namespace is created before it is charged. */
  ghost predicate Modest(st: Store, op: StoreOp) {
    match op
    case DoAllocate(req, _) =>
      var v, k := Validate(st.cfg, req), Charge(req.ns, req.domain);
      v.Ok? ==> Testable(st.acc, k, CeilingOf(st.cfg, st.nss, k), v.value.bytes)
    case DoMigrate(c, target, _) =>
      c < |st.recs| ==>
        var k := Charge(st.recs[c].ns, target);
        Testable(st.acc, k, CeilingOf(st.cfg, st.nss, k), MoveBytes(st.recs[c]))
    case DoCreateNamespace(_) =>
      |st.nss| + 1 !in st.nss
      && (forall k: Charge :: k.ns == |st.nss| + 1 ==> st.acc.Charged(k) == 0)
      && Get(st.acc.counts, |st.nss| + 1) == 0
    case _ => true
  }

  lemma AllocateWithin(st: Store, req: Request, env: Env)
    requires Within(st) && Modest(st, DoAllocate(req, env))
    ensures Within(Allocate(st, req, env).0)
  {
    AcceptedPlan(st.cfg, req);
    var v := Validate(st.cfg, req);
    if v.Ok? {
      var plan := v.value;
      if ReserveFor(st, req, plan.bytes).Ok? {
        var a := ReserveFor(st, req, plan.bytes).value;
        ReserveForWithin(st, req, plan.bytes);
        if SlotFor(st, req, plan) < |st.pool| {
          HitWithin(st, req, plan, a, SlotFor(st, req, plan), env);
        } else {
          FreshWithin(st, req, plan, a, env);
        }
      } else {
        LessWithin(st.acc, RefusedAccounts(st, req), st.cfg, st.nss);
      }
    }
  }

  lemma MigrateReservedWithin(st: Store, c: nat, target: Domain, n: nat, acc: Accounts, env: Env)
    requires c < |st.recs| && WithinFor(acc, st.cfg, st.nss)
    ensures Within(MigrateReserved(st, c, target, n, acc, env).0)
  {
    var r := st.recs[c];
    var k, k0 := Charge(r.ns, target), Charge(r.ns, r.domain);
    GiveBackWithin(acc, st.cfg, st.nss, k, n, r.ns);
    if CommitAmount(acc, k, n).Ok? {
      CommitWithin(acc, st.cfg, st.nss, k, n);
      var acc1 := CommitAmount(acc, k, n).value;
      GiveBackWithin(acc1, st.cfg, st.nss, k, n, r.ns);
      GiveBackWithin(acc1, st.cfg, st.nss, k0, r.backing.committed, r.ns);
      GiveBackWithin(FreeAccounting(acc1, k, n), st.cfg, st.nss, k, n, r.ns);
    }
  }

  lemma MigrateWithin(st: Store, c: nat, target: Domain, env: Env)
    requires Within(st) && CanMigrate(st, c, target) && Modest(st, DoMigrate(c, target, env))
    ensures Within(Migrate(st, c, target, env).0)
  {
    var r := st.recs[c];
    var n, k := MoveBytes(r), Charge(r.ns, target);
    var a := ReserveAmount(st.acc, k, CeilingOf(st.cfg, st.nss, k), n);
    if target in st.cfg.domains && a.Ok? {
      ReserveWithin(st.acc, st.cfg, st.nss, k, n);
      MigrateReservedWithin(st, c, target, n, a.value, env);
    }
  }

  lemma NewNamespaceWithin(st: Store, nsc: NamespaceConfig)
    requires Within(st) && Modest(st, DoCreateNamespace(nsc))
    ensures Within(CreateNamespace(st, nsc))
  {
    var st' := CreateNamespace(st, nsc);
    var id := |st.nss| + 1;
    forall k: Charge ensures Under(st'.acc.Charged(k), CeilingOf(st'.cfg, st'.nss, k)) {
      if k.ns == id {
        assert st.acc.Charged(k) == 0;
      } else {
        assert CeilingOf(st'.cfg, st'.nss, k) == CeilingOf(st.cfg, st.nss, k);
      }
    }
  }

  lemma WrapWithin(st: Store, x: ExternalMemory, fill: seq<Crc32c.Byte>)
    requires Within(st)
    ensures Within(Wrap(st, x, fill).0)
  {
    LessWithin(st.acc, Wrap(st, x, fill).0.acc, st.cfg, st.nss);
  }

  lemma FinalizeCharged(st: Store, c: nat, j: Charge)
    ensures Finalize(st, c).acc.Charged(j) <= st.acc.Charged(j)
  {
  }

  lemma FinalizeWithin(st: Store, c: nat)
    requires Within(st)
    ensures Within(Finalize(st, c))
  {
    forall j: Charge ensures Finalize(st, c).acc.Charged(j) <= st.acc.Charged(j) {
      FinalizeCharged(st, c, j);
    }
    LessWithin(st.acc, Finalize(st, c).acc, st.cfg, st.nss);
  }

  lemma TrimWithin(st: Store)
    requires Within(st)
    ensures Within(Trim(st))
  {
    forall k: Charge ensures Trim(st).acc.Charged(k) <= st.acc.Charged(k) {
      TrimmedReads(st.acc.committed, st.pool, k);
    }
    LessWithin(st.acc, Trim(st).acc, st.cfg, st.nss);
  }

  /** Ceilings hold across every operation, whatever the backends answer. */
  lemma StepWithin(st: Store, op: StoreOp)
    requires Within(st) && Modest(st, op)
    ensures Within(Apply(st, op))
  {
    match op
    case DoAllocate(req, env) => AllocateWithin(st, req, env);
    case DoWrap(x, fill) => WrapWithin(st, x, fill);
    case DoFinalize(c) => FinalizeWithin(st, c);
    case DoMigrate(c, target, env) =>
      if CanMigrate(st, c, target) {
        MigrateWithin(st, c, target, env);
      }
    case DoTrim => TrimWithin(st);
    case DoWrite(c, data) =>
    case DoCreateNamespace(nsc) => NewNamespaceWithin(st, nsc);
    case DoTakeId =>
  }

  /** In every run each account stays within its capacity and its quota. */
  lemma RunWithin(cfg: Config, nss: map<NamespaceId, NamespaceConfig>, ops: seq<StoreOp>)
    requires StoreRun(Modest, Init(cfg, nss), ops)
    ensures Within(ApplyAll(Init(cfg, nss), ops))
  {
    forall s: Store, op: StoreOp | Within(s) && Modest(s, op) ensures Within(Apply(s, op)) {
      StepWithin(s, op);
    }
    Induct(Modest, Within, Init(cfg, nss), ops);
  }

  /** A bounded account always has room for one more charge below 2^64. */
  lemma BoundedIsRoomy(st: Store, k: Charge)
    requires Within(st) && Bounded(CeilingOf(st.cfg, st.nss, k))
    ensures Roomy(st.acc, k)
  {
    assert Under(st.acc.Charged(k), CeilingOf(st.cfg, st.nss, k));
  }

  /** With exact books the ceilings bound the native bytes themselves. */
  lemma NativeWithin(st: Store, k: Charge)
    requires Within(st) && Exact(st)
    ensures
      var c := CeilingOf(st.cfg, st.nss, k);
      (c.cap != 0 ==> Native(st, k) <= c.cap) && (c.quota != 0 ==> Native(st, k) <= c.quota)
  {
    assert Under(st.acc.Charged(k), CeilingOf(st.cfg, st.nss, k));
    assert st.acc.Committed(k) == Native(st, k);
  }
}
