/** What one call does to the accounts, for every answer of the backends. */
module Outcomes {
  import opened Wrappers
  import opened Types
  import opened Sums
  import opened SizeClass
  import opened Accounting
  import opened Storage

  /** No 64-bit sum of the step wraps. */
  predicate NoWrapAt(st: Store, op: StoreOp) {
    match op
    case DoAllocate(req, _) => Roomy(st.acc, Charge(req.ns, req.domain))
    case DoMigrate(c, target, _) =>
      c < |st.recs| ==> st.acc.Charged(Charge(st.recs[c].ns, target)) + MoveBytes(st.recs[c]) < U64
    case _ => true
  }

  /** The shift of one account. */
  datatype Effect = Effect(reserved: int, committed: int, count: int)

  const NOTHING: Effect := Effect(0, 0, 0)

  // ------------------------------------------------------------------ allocation

  /** The request reaches the zeroing step and the backend fails it. */
  predicate ZeroFails(st: Store, req: Request, env: Env) {
    !env.zeroOk &&
    var v := Validate(st.cfg, req);
    v.Ok? && ReserveFor(st, req, v.value.bytes).Ok? &&
    var i := SlotFor(st, req, v.value);
    if i < |st.pool| then WantZero(Policy(st.nss, req), Some(st.pool[i].lastOwner), req.ns)
    else env.allocateOk && WantZero(Policy(st.nss, req), None, req.ns)
  }

  /** A pool hit leaves its bytes reserved, and uncharges the slot if it cannot be zeroed; a fresh block
      moves them to committed, and leaves them there, unreserving them once more, if it cannot be. */
  function AllocateEffect(st: Store, req: Request, env: Env): Effect {
    var v, k := Validate(st.cfg, req), Charge(req.ns, req.domain);
    if v.Err? || ReserveFor(st, req, v.value.bytes).Err? then NOTHING
    else
      var bytes, i := v.value.bytes, SlotFor(st, req, v.value);
      if i < |st.pool| then
        if ZeroFails(st, req, env) then Effect(bytes, 0 - Least(st.acc.Committed(k), st.pool[i].backing.committed), 1)
        else Effect(bytes, 0, 1)
      else if !env.allocateOk then NOTHING
      else if ZeroFails(st, req, env) then Effect(0 - Least(st.acc.Reserved(k), bytes), bytes, 0)
      else Effect(0, bytes, 1)
  }

  lemma ReserveForShifts(st: Store, req: Request, bytes: nat)
    requires st.acc.Charged(Charge(req.ns, req.domain)) + bytes < U64 && ReserveFor(st, req, bytes).Ok?
    ensures Shift(st.acc, ReserveFor(st, req, bytes).value, Charge(req.ns, req.domain), bytes, 0, 1)
  {
    var k := Charge(req.ns, req.domain);
    var a := ReserveCount(st.acc, req.ns, st.nss).value;
    TakeCountShifts(st.acc, k, st.nss);
    ReserveShifts(a, k, CeilingOf(st.cfg, st.nss, k), bytes);
    ShiftTwice(st.acc, a, ReserveFor(st, req, bytes).value, k, 0, 0, 1, bytes, 0, 0);
  }

  lemma RefusedShifts(st: Store, req: Request)
    ensures Shift(st.acc, RefusedAccounts(st, req), Charge(req.ns, req.domain), 0, 0, 0)
  {
  }

  /** The rollback of a refused allocation. */
  lemma UndoShifts(a: Accounts, k: Charge, bytes: nat)
    requires Get(a.counts, k.ns) > 0
    ensures Shift(a, ReleaseCount(UnreserveAmount(a, k, bytes), k.ns), k, 0 - Least(a.Reserved(k), bytes), 0, -1)
  {
    var b := UnreserveAmount(a, k, bytes);
    UnreserveShifts(a, k, bytes);
    GiveCountShifts(b, k);
    ShiftTwice(a, b, ReleaseCount(b, k.ns), k, 0 - Least(a.Reserved(k), bytes), 0, 0, 0, 0, -1);
  }

  /** The accounts of a pool hit: acc, or acc with the lost slot uncharged. */
  lemma HitAccounts(st: Store, req: Request, plan: Plan, acc: Accounts, i: nat, env: Env)
    requires i < |st.pool|
    ensures
      var lost := !env.zeroOk && WantZero(Policy(st.nss, req), Some(st.pool[i].lastOwner), req.ns);
      AllocateHit(st, req, plan, acc, i, env).0.acc ==
      if lost then FreeAccounting(acc, Charge(req.ns, req.domain), st.pool[i].backing.committed) else acc
  {
  }

  lemma HitShifts(st: Store, req: Request, plan: Plan, acc: Accounts, i: nat, env: Env)
    requires i < |st.pool| && Shift(st.acc, acc, Charge(req.ns, req.domain), plan.bytes, 0, 1)
    ensures
      var lost := !env.zeroOk && WantZero(Policy(st.nss, req), Some(st.pool[i].lastOwner), req.ns);
      var k, n := Charge(req.ns, req.domain), st.pool[i].backing.committed;
      Shift(st.acc, AllocateHit(st, req, plan, acc, i, env).0.acc, k, plan.bytes,
            if lost then 0 - Least(st.acc.Committed(k), n) else 0, 1)
  {
    var k, n := Charge(req.ns, req.domain), st.pool[i].backing.committed;
    HitAccounts(st, req, plan, acc, i, env);
    FreeShifts(acc, k, n);
    ShiftTwice(st.acc, acc, FreeAccounting(acc, k, n), k, plan.bytes, 0, 1, 0, 0 - Least(acc.Committed(k), n), 0);
  }

  /** The accounts of a fresh allocation whose reservation covers the commit. */
  lemma FreshAccounts(st: Store, req: Request, plan: Plan, acc: Accounts, env: Env)
    requires CommitAmount(acc, Charge(req.ns, req.domain), plan.bytes).Ok?
    ensures
      var k := Charge(req.ns, req.domain);
      var acc1 := CommitAmount(acc, k, plan.bytes).value;
      var failed := !env.zeroOk && WantZero(Policy(st.nss, req), None, req.ns);
      AllocateFresh(st, req, plan, acc, env).0.acc ==
      if !env.allocateOk then ReleaseCount(UnreserveAmount(acc, k, plan.bytes), req.ns)
      else if failed then ReleaseCount(UnreserveAmount(acc1, k, plan.bytes), req.ns) else acc1
  {
  }

  lemma FreshShifts(st: Store, req: Request, plan: Plan, acc: Accounts, env: Env)
    requires st.acc.Charged(Charge(req.ns, req.domain)) + plan.bytes < U64
    requires Shift(st.acc, acc, Charge(req.ns, req.domain), plan.bytes, 0, 1)
    ensures
      var k := Charge(req.ns, req.domain);
      var failed := env.allocateOk && !env.zeroOk && WantZero(Policy(st.nss, req), None, req.ns);
      Shift(st.acc, AllocateFresh(st, req, plan, acc, env).0.acc, k,
            if failed then 0 - Least(st.acc.Reserved(k), plan.bytes) else 0,
            if env.allocateOk then plan.bytes else 0, if env.allocateOk && !failed then 1 else 0)
  {
    var k := Charge(req.ns, req.domain);
    var bytes: nat := plan.bytes;
    assert acc.Reserved(k) == st.acc.Reserved(k) + bytes && Get(acc.counts, k.ns) == Get(st.acc.counts, k.ns) + 1;
    CommitShifts(acc, k, bytes);
    var acc1 := CommitAmount(acc, k, bytes).value;
    ShiftTwice(st.acc, acc, acc1, k, bytes, 0, 1, 0 - bytes, bytes, 0);
    FreshAccounts(st, req, plan, acc, env);
    UndoShifts(acc, k, bytes);
    ShiftTwice(st.acc, acc, ReleaseCount(UnreserveAmount(acc, k, bytes), k.ns), k, bytes, 0, 1, 0 - bytes, 0, -1);
    UndoShifts(acc1, k, bytes);
    ShiftTwice(st.acc, acc1, ReleaseCount(UnreserveAmount(acc1, k, bytes), k.ns), k, 0, bytes, 1,
               0 - Least(acc1.Reserved(k), bytes), 0, -1);
  }

  /** An allocation shifts exactly one account, by its effect. */
  lemma AllocateShifts(st: Store, req: Request, env: Env)
    requires NoWrapAt(st, DoAllocate(req, env))
    ensures
      var e := AllocateEffect(st, req, env);
      Shift(st.acc, Allocate(st, req, env).0.acc, Charge(req.ns, req.domain), e.reserved, e.committed, e.count)
  {
    AcceptedPlan(st.cfg, req);
    var v := Validate(st.cfg, req);
    if v.Ok? {
      if ReserveFor(st, req, v.value.bytes).Ok? {
        var a, i := ReserveFor(st, req, v.value.bytes).value, SlotFor(st, req, v.value);
        ReserveForShifts(st, req, v.value.bytes);
        if i < |st.pool| {
          HitShifts(st, req, v.value, a, i, env);
        } else {
          FreshShifts(st, req, v.value, a, env);
        }
      } else {
        RefusedShifts(st, req);
      }
    }
  }

  // ------------------------------------------------------------------ migration

  /** The destination is verified after the bytes were committed, and the check fails. */
  predicate VerifyFails(st: Store, c: nat, target: Domain, env: Env)
    requires c < |st.recs|
  {
    var r := st.recs[c];
    var n, k := MoveBytes(r), Charge(r.ns, target);
    target in st.cfg.domains && ReserveAmount(st.acc, k, CeilingOf(st.cfg, st.nss, k), n).Ok?
    && env.allocateOk && env.copyOk && !env.verifyOk
  }

  /** On the target's account: a migration that passes commits its bytes; one that fails verification
      unreserves them a second time and, on a device, leaves them committed. */
  function MoveEffect(st: Store, c: nat, target: Domain, env: Env): Effect
    requires c < |st.recs|
  {
    var n, k := MoveBytes(st.recs[c]), Charge(st.recs[c].ns, target);
    if VerifyFails(st, c, target, env) then
      Effect(0 - Least(st.acc.Reserved(k), n), if target == DEVICE then n else 0, 0)
    else if MigrationPasses(st, c, target, env) then Effect(0, n, 0)
    else NOTHING
  }

  /** What a migration that passes takes off the source's account. */
  function Released(st: Store, c: nat, target: Domain, env: Env): nat
    requires c < |st.recs|
  {
    var r := st.recs[c];
    if MigrationPasses(st, c, target, env) then Least(st.acc.Committed(Charge(r.ns, r.domain)), r.backing.committed) else 0
  }

  /** b is a after a migration: one account shifted, and one reduced. */
  ghost predicate Transferred(a: Accounts, b: Accounts, k: Charge, e: Effect, k0: Charge, less: nat) {
    && (forall j: Charge :: b.Reserved(j) == a.Reserved(j) + if j == k then e.reserved else 0)
    && (forall j: Charge :: b.Committed(j) == a.Committed(j) + (if j == k then e.committed else 0) - if j == k0 then less else 0)
    && (forall ns: NamespaceId :: Get(b.counts, ns) == Get(a.counts, ns))
  }

  lemma ShiftedOnly(a: Accounts, b: Accounts, k: Charge, e: Effect, k0: Charge)
    requires Shift(a, b, k, e.reserved, e.committed, 0)
    ensures Transferred(a, b, k, e, k0, 0)
  {
  }

  /** The accounts a migration leaves, once its bytes are reserved. */
  lemma MoveAccounts(st: Store, c: nat, target: Domain, n: nat, acc: Accounts, env: Env)
    requires c < |st.recs| && CommitAmount(acc, Charge(st.recs[c].ns, target), n).Ok?
    ensures
      var r := st.recs[c];
      var k := Charge(r.ns, target);
      var acc1 := CommitAmount(acc, k, n).value;
      MigrateReserved(st, c, target, n, acc, env).0.acc ==
      if !env.allocateOk || !env.copyOk then UnreserveAmount(acc, k, n)
      else if env.verifyOk then FreeAccounting(acc1, Charge(r.ns, r.domain), r.backing.committed)
      else UnreserveAmount(if target != DEVICE then FreeAccounting(acc1, k, n) else acc1, k, n)
  {
  }

  lemma VerifyShifts(a: Accounts, acc1: Accounts, k: Charge, n: nat, device: bool)
    requires Shift(a, acc1, k, 0, n, 0)
    ensures
      var acc2 := if device then acc1 else FreeAccounting(acc1, k, n);
      Shift(a, UnreserveAmount(acc2, k, n), k, 0 - Least(a.Reserved(k), n), if device then n else 0, 0)
  {
    var acc2 := if device then acc1 else FreeAccounting(acc1, k, n);
    FreeShifts(acc1, k, n);
    assert acc1.Committed(k) == a.Committed(k) + n && acc1.Reserved(k) == a.Reserved(k);
    ShiftTwice(a, acc1, FreeAccounting(acc1, k, n), k, 0, n, 0, 0, 0 - n, 0);
    UnreserveShifts(acc2, k, n);
    ShiftTwice(a, acc2, UnreserveAmount(acc2, k, n), k, 0, if device then n else 0, 0, 0 - Least(acc2.Reserved(k), n), 0, 0);
  }

  lemma PassShifts(a: Accounts, acc1: Accounts, k: Charge, n: nat, k0: Charge, n0: nat)
    requires Shift(a, acc1, k, 0, n, 0) && k != k0
    ensures Transferred(a, FreeAccounting(acc1, k0, n0), k, Effect(0, n, 0), k0, Least(a.Committed(k0), n0))
  {
    FreeShifts(acc1, k0, n0);
    assert acc1.Committed(k0) == a.Committed(k0);
  }

  lemma MoveReservedShifts(st: Store, c: nat, target: Domain, n: nat, acc: Accounts, env: Env)
    requires c < |st.recs| && st.recs[c].domain != target
    requires st.acc.Charged(Charge(st.recs[c].ns, target)) + n < U64
    requires Shift(st.acc, acc, Charge(st.recs[c].ns, target), n, 0, 0)
    ensures
      var r := st.recs[c];
      var k, k0 := Charge(r.ns, target), Charge(r.ns, r.domain);
      var passes, failed := env.allocateOk && env.copyOk && env.verifyOk, env.allocateOk && env.copyOk && !env.verifyOk;
      var e := if failed then Effect(0 - Least(st.acc.Reserved(k), n), if target == DEVICE then n else 0, 0)
               else if passes then Effect(0, n, 0) else NOTHING;
      Transferred(st.acc, MigrateReserved(st, c, target, n, acc, env).0.acc, k, e, k0,
            if passes then Least(st.acc.Committed(k0), r.backing.committed) else 0)
  {
    var r := st.recs[c];
    var k, k0 := Charge(r.ns, target), Charge(r.ns, r.domain);
    assert acc.Reserved(k) == st.acc.Reserved(k) + n;
    CommitShifts(acc, k, n);
    var acc1 := CommitAmount(acc, k, n).value;
    MoveAccounts(st, c, target, n, acc, env);
    if !env.allocateOk || !env.copyOk {
      UnreserveShifts(acc, k, n);
      ShiftTwice(st.acc, acc, UnreserveAmount(acc, k, n), k, n, 0, 0, 0 - n, 0, 0);
      ShiftedOnly(st.acc, UnreserveAmount(acc, k, n), k, NOTHING, k0);
    } else {
      ShiftTwice(st.acc, acc, acc1, k, n, 0, 0, 0 - n, n, 0);
      if env.verifyOk {
        PassShifts(st.acc, acc1, k, n, k0, r.backing.committed);
      } else {
        VerifyShifts(st.acc, acc1, k, n, target == DEVICE);
      }
    }
  }

  /** A migration shifts the target's account by its effect and takes the source's bytes off the other. */
  lemma MigrateShifts(st: Store, c: nat, target: Domain, env: Env)
    requires CanMigrate(st, c, target) && NoWrapAt(st, DoMigrate(c, target, env))
    ensures
      var r := st.recs[c];
      Transferred(st.acc, Migrate(st, c, target, env).0.acc, Charge(r.ns, target), MoveEffect(st, c, target, env),
            Charge(r.ns, r.domain), Released(st, c, target, env))
  {
    var r := st.recs[c];
    var n, k := MoveBytes(r), Charge(r.ns, target);
    var a := ReserveAmount(st.acc, k, CeilingOf(st.cfg, st.nss, k), n);
    if target in st.cfg.domains && a.Ok? {
      ReserveShifts(st.acc, k, CeilingOf(st.cfg, st.nss, k), n);
      assert a.value.Reserved(k) == st.acc.Reserved(k) + n;
      MoveReservedShifts(st, c, target, n, a.value, env);
    }
  }
}
