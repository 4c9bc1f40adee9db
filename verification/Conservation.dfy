/** Conservation of bytes: what an account is charged against what it really holds. */
module Conservation {
  import opened Wrappers
  import opened Types
  import opened Sums
  import opened SizeClass
  import opened Accounting
  import opened Storage
  import opened Records
  import opened Ownership
  import opened Outcomes
  import Crc32c

  /** Bytes of a live runtime-owned record charged to k. */
  function LiveBytes(k: Charge): Record -> int {
    (r: Record) => if !r.finalized && r.ownership == RUNTIME && Charge(r.ns, r.domain) == k then r.backing.committed else 0
  }

  /** Native bytes held on account k: live buffers of its namespace plus idle slots it released last. */
  function Native(st: Store, k: Charge): int {
    Sum(st.recs, LiveBytes(k)) + Sum(st.pool, SlotBytesFor(k))
  }

  /** The committed amount of every account is exactly the native bytes behind it. */
  ghost predicate Exact(st: Store) {
    forall k: Charge :: st.acc.Committed(k) == Native(st, k)
  }

  /** The request would be served from a slot that another namespace released. */
  predicate CrossHit(st: Store, req: Request) {
    Hits(st, req) && st.pool[SlotFor(st, req, Validate(st.cfg, req).value)].lastOwner != req.ns
  }

  lemma NativeNonNegative(st: Store, k: Charge)
    ensures Sum(st.recs, LiveBytes(k)) >= 0 && Sum(st.pool, SlotBytesFor(k)) >= 0
  {
    SumNonNegative(st.recs, LiveBytes(k));
    SumNonNegative(st.pool, SlotBytesFor(k));
  }

  // ------------------------------------------------------------------ steps on the native side

  lemma NativeAdded(st: Store, st': Store, r: Record, k: Charge)
    requires st'.recs == st.recs + [r] && st'.pool == st.pool
    ensures Native(st', k) == Native(st, k) + LiveBytes(k)(r)
  {
    SumAppend(st.recs, r, LiveBytes(k));
  }

  lemma NativeTaken(st: Store, st': Store, r: Record, i: nat, k: Charge)
    requires i < |st.pool| && st'.recs == st.recs + [r] && st'.pool == RemoveAt(st.pool, i)
    ensures Native(st', k) == Native(st, k) + LiveBytes(k)(r) - SlotBytesFor(k)(st.pool[i])
  {
    SumAppend(st.recs, r, LiveBytes(k));
    SumRemove(st.pool, i, SlotBytesFor(k));
  }

  lemma NativeReplaced(st: Store, st': Store, c: nat, r: Record, k: Charge)
    requires c < |st.recs| && st'.recs == st.recs[c := r] && st'.pool == st.pool
    ensures Native(st', k) == Native(st, k) - LiveBytes(k)(st.recs[c]) + LiveBytes(k)(r)
  {
    SumUpdate(st.recs, c, r, LiveBytes(k));
  }

  lemma NativePooled(st: Store, st': Store, c: nat, r: Record, e: PoolEntry, k: Charge)
    requires c < |st.recs| && st'.recs == st.recs[c := r] && st'.pool == st.pool + [e]
    ensures Native(st', k) == Native(st, k) - LiveBytes(k)(st.recs[c]) + LiveBytes(k)(r) + SlotBytesFor(k)(e)
  {
    SumUpdate(st.recs, c, r, LiveBytes(k));
    SumAppend(st.pool, e, SlotBytesFor(k));
  }

  /** A live record's bytes are part of what its account holds. */
  lemma LiveCharged(st: Store, c: nat)
    requires Live(st, c) && st.recs[c].ownership == RUNTIME
    ensures st.recs[c].backing.committed <= Native(st, Charge(st.recs[c].ns, st.recs[c].domain))
  {
    var k := Charge(st.recs[c].ns, st.recs[c].domain);
    SumMember(st.recs, c, LiveBytes(k));
    NativeNonNegative(st, k);
  }

  // ------------------------------------------------------------------ what calls do to records and slots

  /** A slot the search returns belongs to the requested domain. */
  lemma SlotDomain(st: Store, req: Request, plan: Plan)
    requires SlotFor(st, req, plan) < |st.pool|
    ensures
      var e := st.pool[SlotFor(st, req, plan)];
      e.key.domain == req.domain && e.backing.committed >= plan.bytes
  {
    var r := NewRecord(st, req, plan, Backing(0, 0, 0));
    assert r.domain == req.domain;
  }

  /** What an allocation does to records and slots: a slot goes, a record of the namespace comes. */
  ghost predicate HitShape(st: Store, st': Store, i: nat, k: Charge, ok: bool)
    requires i < |st.pool|
  {
    && st'.pool == RemoveAt(st.pool, i)
    && (!ok ==> st'.recs == st.recs)
    && (ok ==>
          && |st'.recs| == |st.recs| + 1 && st'.recs == st.recs + [st'.recs[|st.recs|]]
          && (forall j: Charge :: LiveBytes(j)(st'.recs[|st.recs|]) == if j == k then st.pool[i].backing.committed else 0))
  }

  lemma HitRecord(st: Store, req: Request, plan: Plan, acc: Accounts, i: nat, env: Env)
    requires i < |st.pool|
    ensures
      var lost := !env.zeroOk && WantZero(Policy(st.nss, req), Some(st.pool[i].lastOwner), req.ns);
      HitShape(st, AllocateHit(st, req, plan, acc, i, env).0, i, Charge(req.ns, req.domain), !lost)
  {
  }

  lemma FreshRecord(st: Store, req: Request, plan: Plan, acc: Accounts, env: Env)
    ensures
      var (st', o) := AllocateFresh(st, req, plan, acc, env);
      var k := Charge(req.ns, req.domain);
      && st'.pool == st.pool
      && (o.Err? ==> st'.recs == st.recs)
      && (o.Ok? ==>
            && |st'.recs| == |st.recs| + 1 && st'.recs == st.recs + [st'.recs[|st.recs|]]
            && (forall j: Charge :: LiveBytes(j)(st'.recs[|st.recs|]) == if j == k then plan.bytes else 0))
  {
  }

  lemma FreshOutcome(st: Store, req: Request, plan: Plan, acc: Accounts, env: Env)
    requires acc.Reserved(Charge(req.ns, req.domain)) >= plan.bytes
    ensures AllocateFresh(st, req, plan, acc, env).1.Ok? <==>
            env.allocateOk && (env.zeroOk || !WantZero(Policy(st.nss, req), None, req.ns))
  {
  }

  /** The record a migration that passes leaves behind. */
  lemma MoveRecords(st: Store, c: nat, target: Domain, env: Env)
    requires CanMigrate(st, c, target)
    ensures
      var r, st' := st.recs[c], Migrate(st, c, target, env).0;
      && st'.pool == st.pool && |st'.recs| == |st.recs|
      && (!MigrationPasses(st, c, target, env) ==> st'.recs == st.recs)
      && (MigrationPasses(st, c, target, env) ==>
            && st'.recs == st.recs[c := st'.recs[c]]
            && !st'.recs[c].finalized && st'.recs[c].ownership == r.ownership && st'.recs[c].ns == r.ns
            && st'.recs[c].domain == target && st'.recs[c].backing.committed == MoveBytes(r))
  {
    MigrateExactly(st, c, target, env);
    MigrateChanges(st, c, target, env);
    MigrateKeepsPool(st, c, target, env);
    if MigrationPasses(st, c, target, env) {
      MovedBytes(st, c, target, env);
    }
  }

  lemma MovedBytes(st: Store, c: nat, target: Domain, env: Env)
    requires c < |st.recs| && MigrationPasses(st, c, target, env)
    ensures
      var st' := Migrate(st, c, target, env).0;
      |st'.recs| == |st.recs| && st'.recs[c].backing.committed == MoveBytes(st.recs[c])
  {
  }

  // ------------------------------------------------------------------ exactness

  /** The operation is a pool hit across namespaces. */
  predicate Crosses(st: Store, op: StoreOp) {
    op.DoAllocate? && CrossHit(st, op.req)
  }

  /** The other steps that upset exact books: a fresh block that cannot be zeroed, a copy on a device that
      cannot be verified, a migration of wrapped memory, and the release of adopted or shared memory on an
      account that is charged for something. */
  predicate Upsets(st: Store, op: StoreOp) {
    match op
    case DoAllocate(req, env) => ZeroFails(st, req, env) && !Hits(st, req)
    case DoMigrate(c, target, env) =>
      CanMigrate(st, c, target) &&
      if st.recs[c].ownership == RUNTIME then target == DEVICE && VerifyFails(st, c, target, env)
      else MigrationPasses(st, c, target, env) || (target == DEVICE && VerifyFails(st, c, target, env))
    case DoFinalize(c) =>
      && Live(st, c) && (st.recs[c].ownership == ADOPTED || st.recs[c].ownership == SHARED)
      && st.acc.Committed(Charge(st.recs[c].ns, st.recs[c].domain)) > 0
    case _ => false
  }

  lemma HitExact(st: Store, st': Store, i: nat, k: Charge, lost: bool)
    requires Exact(st) && i < |st.pool| && st.pool[i].backing.committed > 0 && st.pool[i].key.domain == k.domain
    requires HitShape(st, st', i, k, !lost)
    requires forall j: Charge :: st'.acc.Committed(j)
               == st.acc.Committed(j) - if j == k && lost then Least(st.acc.Committed(k), st.pool[i].backing.committed) else 0
    ensures Exact(st') <==> st.pool[i].lastOwner == k.ns
  {
    var e := st.pool[i];
    var o := Owner(e);
    forall j: Charge
      ensures Native(st', j) == Native(st, j) + (if j == k && !lost then e.backing.committed else 0) - SlotBytesFor(j)(e)
    {
      if lost {
        SumRemove(st.pool, i, SlotBytesFor(j));
      } else {
        NativeTaken(st, st', st'.recs[|st.recs|], i, j);
      }
    }
    assert st.acc.Committed(o) == Native(st, o) && st.acc.Committed(k) == Native(st, k);
    if o != k {
      assert st'.acc.Committed(o) != Native(st', o);
    } else {
      NativeIdle(st, i);
      forall j: Charge ensures st'.acc.Committed(j) == Native(st', j) {
        assert st.acc.Committed(j) == Native(st, j);
      }
    }
  }

  /** An idle slot's bytes are part of what its last owner's account holds. */
  lemma NativeIdle(st: Store, i: nat)
    requires i < |st.pool|
    ensures st.pool[i].backing.committed <= Native(st, Owner(st.pool[i]))
  {
    SumMember(st.pool, i, SlotBytesFor(Owner(st.pool[i])));
    NativeNonNegative(st, Owner(st.pool[i]));
  }

  lemma FreshExact(st: Store, st': Store, k: Charge, bytes: nat)
    requires Exact(st) && st'.pool == st.pool
    requires |st'.recs| == |st.recs| + 1 && st'.recs == st.recs + [st'.recs[|st.recs|]]
    requires forall j: Charge :: LiveBytes(j)(st'.recs[|st.recs|]) == if j == k then bytes else 0
    requires forall j: Charge :: st'.acc.Committed(j) == st.acc.Committed(j) + if j == k then bytes else 0
    ensures Exact(st')
  {
    forall j: Charge ensures st'.acc.Committed(j) == Native(st', j) {
      NativeAdded(st, st', st'.recs[|st.recs|], j);
      assert st.acc.Committed(j) == Native(st, j);
    }
  }

  /** Nothing is held that was not, but an account is charged x more. */
  lemma ChargedOnly(st: Store, st': Store, k: Charge, x: int)
    requires Exact(st) && st'.recs == st.recs && st'.pool == st.pool
    requires forall j: Charge :: st'.acc.Committed(j) == st.acc.Committed(j) + if j == k then x else 0
    ensures Exact(st') <==> x == 0
  {
    forall j: Charge ensures Native(st', j) == Native(st, j) && st.acc.Committed(j) == Native(st, j) {
    }
    assert st'.acc.Committed(k) == st.acc.Committed(k) + x;
  }

  lemma AllocateExact(st: Store, req: Request, env: Env)
    requires Exact(st) && SlotsOk(st.cfg, st.mem, st.pool) && NoWrapAt(st, DoAllocate(req, env))
    ensures Exact(Allocate(st, req, env).0) <==> !CrossHit(st, req) && !Upsets(st, DoAllocate(req, env))
  {
    AcceptedPlan(st.cfg, req);
    AllocateShifts(st, req, env);
    var st', k, v := Allocate(st, req, env).0, Charge(req.ns, req.domain), Validate(st.cfg, req);
    if v.Ok? && ReserveFor(st, req, v.value.bytes).Ok? {
      if Hits(st, req) {
        HitCallExact(st, req, env);
      } else {
        FreshCallExact(st, req, env);
      }
    } else {
      ChargedOnly(st, st', k, 0);
    }
  }

  lemma HitCallExact(st: Store, req: Request, env: Env)
    requires Exact(st) && SlotsOk(st.cfg, st.mem, st.pool) && Hits(st, req)
    requires
      var e := AllocateEffect(st, req, env);
      Shift(st.acc, Allocate(st, req, env).0.acc, Charge(req.ns, req.domain), e.reserved, e.committed, e.count)
    ensures Exact(Allocate(st, req, env).0) <==> !CrossHit(st, req)
  {
    var plan, k := Validate(st.cfg, req).value, Charge(req.ns, req.domain);
    var i := SlotFor(st, req, plan);
    SlotDomain(st, req, plan);
    assert SlotOk(st.cfg, st.mem, st.pool[i]);
    HitRecord(st, req, plan, ReserveFor(st, req, plan.bytes).value, i, env);
    HitExact(st, Allocate(st, req, env).0, i, k, ZeroFails(st, req, env));
  }

  lemma FreshCallExact(st: Store, req: Request, env: Env)
    requires Exact(st) && NoWrapAt(st, DoAllocate(req, env)) && !Hits(st, req)
    requires Validate(st.cfg, req).Ok? && ReserveFor(st, req, Validate(st.cfg, req).value.bytes).Ok?
    requires
      var e := AllocateEffect(st, req, env);
      Shift(st.acc, Allocate(st, req, env).0.acc, Charge(req.ns, req.domain), e.reserved, e.committed, e.count)
    ensures Exact(Allocate(st, req, env).0) <==> !ZeroFails(st, req, env)
  {
    var st', plan, k := Allocate(st, req, env).0, Validate(st.cfg, req).value, Charge(req.ns, req.domain);
    var a := ReserveFor(st, req, plan.bytes).value;
    AcceptedPlan(st.cfg, req);
    ReserveForShifts(st, req, plan.bytes);
    FreshRecord(st, req, plan, a, env);
    assert a.Reserved(k) == st.acc.Reserved(k) + plan.bytes;
    FreshOutcome(st, req, plan, a, env);
    if AllocateFresh(st, req, plan, a, env).1.Ok? {
      FreshExact(st, st', k, plan.bytes);
    } else {
      ChargedOnly(st, st', k, AllocateEffect(st, req, env).committed);
    }
  }

  lemma WrapExact(st: Store, x: ExternalMemory, fill: seq<Crc32c.Byte>)
    requires Exact(st)
    ensures Exact(Wrap(st, x, fill).0)
  {
    var st' := Wrap(st, x, fill).0;
    if Wrap(st, x, fill).1.Ok? {
      forall k: Charge ensures st'.acc.Committed(k) == Native(st', k) {
        NativeAdded(st, st', st'.recs[|st.recs|], k);
        assert st.acc.Committed(k) == Native(st, k);
      }
    }
  }

  /** No clamped subtraction ever clamps for runtime memory: the account holds at least the record's bytes. */
  lemma OwnReleaseExact(st: Store, c: nat)
    requires Exact(st) && Live(st, c) && st.recs[c].ownership == RUNTIME
    ensures Exact(Finalize(st, c))
  {
    var r, st' := st.recs[c], Finalize(st, c);
    var n := r.backing.committed;
    LiveCharged(st, c);
    assert st.acc.Committed(Charge(r.ns, r.domain)) >= n;
    forall k: Charge ensures st'.acc.Committed(k) == Native(st', k) {
      assert st.acc.Committed(k) == Native(st, k);
      if GoesToPool(st, r) && !PoolFull(st, n) {
        NativePooled(st, st', c, Dead(r), st'.pool[|st.pool|], k);
      } else {
        NativeReplaced(st, st', c, Dead(r), k);
      }
    }
  }

  /** Releasing wrapped memory: exact if and only if it was borrowed or its account was empty. */
  lemma WrapReleaseExact(st: Store, c: nat)
    requires Exact(st) && Live(st, c) && st.recs[c].ownership != RUNTIME
    requires AllShaped(st) && RecordOk(st.cfg, st.mem, st.recs[c])
    ensures Exact(Finalize(st, c)) <==>
            st.recs[c].ownership == BORROWED || st.acc.Committed(Charge(st.recs[c].ns, st.recs[c].domain)) == 0
  {
    var r, st' := st.recs[c], Finalize(st, c);
    var k := Charge(r.ns, r.domain);
    assert Shaped(st.cfg, r);
    forall j: Charge ensures Native(st', j) == Native(st, j) && st.acc.Committed(j) == Native(st, j) {
      SumUpdate(st.recs, c, Dead(r), LiveBytes(j));
    }
    assert st'.acc.Committed(k) == if r.ownership == BORROWED then st.acc.Committed(k) else Minus(st.acc.Committed(k), r.backing.committed);
    forall j: Charge | j != k ensures st'.acc.Committed(j) == st.acc.Committed(j) {
    }
  }

  lemma FinalizeExact(st: Store, c: nat)
    requires Exact(st) && AllShaped(st) && RecordsOk(st.cfg, st.mem, st.recs)
    ensures Exact(Finalize(st, c)) <==> !Upsets(st, DoFinalize(c))
  {
    if Live(st, c) {
      assert RecordOk(st.cfg, st.mem, st.recs[c]);
      if st.recs[c].ownership == RUNTIME {
        OwnReleaseExact(st, c);
      } else {
        WrapReleaseExact(st, c);
      }
    }
  }

  /** A record that moved, with the accounts that go with it. */
  lemma MovedExact(st: Store, st': Store, c: nat, k: Charge, n: nat)
    requires Exact(st) && Live(st, c) && n > 0 && st'.pool == st.pool
    requires k == Charge(st.recs[c].ns, k.domain) && k.domain != st.recs[c].domain
    requires |st'.recs| == |st.recs| && st'.recs == st.recs[c := st'.recs[c]] && !st'.recs[c].finalized
    requires st'.recs[c].ownership == st.recs[c].ownership && Charge(st'.recs[c].ns, st'.recs[c].domain) == k
    requires st'.recs[c].backing.committed == st.recs[c].backing.committed == n
    requires
      var k0 := Charge(st.recs[c].ns, st.recs[c].domain);
      Transferred(st.acc, st'.acc, k, Effect(0, n, 0), k0, Least(st.acc.Committed(k0), n))
    ensures Exact(st') <==> st.recs[c].ownership == RUNTIME
  {
    var r := st.recs[c];
    var k0 := Charge(r.ns, r.domain);
    forall j: Charge
      ensures st.acc.Committed(j) == Native(st, j)
      ensures Native(st', j) == Native(st, j) - LiveBytes(j)(r) + LiveBytes(j)(st'.recs[c])
    {
      NativeReplaced(st, st', c, st'.recs[c], j);
    }
    assert st'.acc.Committed(k) == st.acc.Committed(k) + n;
    if r.ownership == RUNTIME {
      LiveCharged(st, c);
    } else {
      assert Native(st', k) == Native(st, k);
    }
  }

  lemma MigrateExact(st: Store, c: nat, target: Domain, env: Env)
    requires Exact(st) && CanMigrate(st, c, target) && NoWrapAt(st, DoMigrate(c, target, env))
    requires RecordOk(st.cfg, st.mem, st.recs[c])
    ensures Exact(Migrate(st, c, target, env).0) <==> !Upsets(st, DoMigrate(c, target, env))
  {
    var r, st' := st.recs[c], Migrate(st, c, target, env).0;
    var k := Charge(r.ns, target);
    MigrateShifts(st, c, target, env);
    MoveRecords(st, c, target, env);
    if MigrationPasses(st, c, target, env) {
      MovedExact(st, st', c, k, MoveBytes(r));
    } else {
      ChargedOnly(st, st', k, MoveEffect(st, c, target, env).committed);
    }
  }

  lemma TrimmedReads(committed: map<Charge, nat>, pool: Pool, k: Charge)
    ensures Get(TrimmedCommitted(committed, pool), k) == Minus(Get(committed, k), SumNat(pool, k))
  {
    if k !in committed.Keys + Owners(pool) {
      NoneOwned(pool, k);
    }
  }

  lemma {:induction false} NoneOwned(pool: Pool, k: Charge)
    requires k !in Owners(pool)
    ensures Sum(pool, SlotBytesFor(k)) == 0
  {
    if pool != [] {
      assert pool[0] in pool;
      forall e | e in pool[1..] ensures Owner(e) != k {
        assert e in pool;
      }
      assert k !in Owners(pool[1..]);
      NoneOwned(pool[1..], k);
    }
  }

  lemma TrimExact(st: Store)
    requires Exact(st)
    ensures Exact(Trim(st))
  {
    var st' := Trim(st);
    forall k: Charge ensures st'.acc.Committed(k) == Native(st', k) {
      TrimmedReads(st.acc.committed, st.pool, k);
      NativeNonNegative(st, k);
      assert st.acc.Committed(k) == Native(st, k);
    }
  }

  /** From exact books a step leaves exact books, whatever the backends answer, if and only if it is neither
      a cross-namespace pool hit nor one of the steps that upset them. */
  lemma StepExact(st: Store, op: StoreOp)
    requires Safe(st) && Exact(st) && NoWrapAt(st, op)
    ensures Exact(Apply(st, op)) <==> !Crosses(st, op) && !Upsets(st, op)
  {
    match op
    case DoAllocate(req, env) => AllocateExact(st, req, env);
    case DoWrap(x, fill) => WrapExact(st, x, fill);
    case DoFinalize(c) => FinalizeExact(st, c);
    case DoMigrate(c, target, env) =>
      if CanMigrate(st, c, target) {
        assert RecordOk(st.cfg, st.mem, st.recs[c]);
        MigrateExact(st, c, target, env);
      }
    case DoTrim => TrimExact(st);
    case DoWrite(c, data) => SameBooks(st, Apply(st, op));
    case DoCreateNamespace(nsc) => SameBooks(st, Apply(st, op));
    case DoTakeId => SameBooks(st, Apply(st, op));
  }

  lemma SameBooks(st: Store, st': Store)
    requires Exact(st) && st'.recs == st.recs && st'.pool == st.pool && st'.acc.committed == st.acc.committed
    ensures Exact(st')
  {
    forall k: Charge ensures st'.acc.Committed(k) == Native(st', k) {
      assert st.acc.Committed(k) == Native(st, k);
    }
  }

  // ------------------------------------------------------------------ runs

  /** A step that keeps exact books exact. */
  predicate Balancing(st: Store, op: StoreOp) {
    NoWrapAt(st, op) && !Crosses(st, op) && !Upsets(st, op)
  }

  ghost predicate Balanced(st: Store) {
    Safe(st) && Exact(st)
  }

  lemma InitBalanced(cfg: Config, nss: map<NamespaceId, NamespaceConfig>)
    ensures Balanced(Init(cfg, nss))
  {
    InitSafe(cfg, nss);
  }

  /** Any number of namespaces: the books are exact after every run of such steps. */
  lemma RunExact(cfg: Config, nss: map<NamespaceId, NamespaceConfig>, ops: seq<StoreOp>)
    requires StoreRun(Balancing, Init(cfg, nss), ops)
    ensures Balanced(ApplyAll(Init(cfg, nss), ops))
  {
    InitBalanced(cfg, nss);
    forall s: Store, op: StoreOp | Balanced(s) && Balancing(s, op) ensures Balanced(Apply(s, op)) {
      StepSafe(s, op);
      StepExact(s, op);
    }
    Induct(Balancing, Balanced, Init(cfg, nss), ops);
  }

  /** The books are exact in every state of the run. */
  ghost predicate AlwaysExact(st: Store, ops: seq<StoreOp>)
    decreases |ops|
  {
    Exact(st) && (ops != [] ==> AlwaysExact(Apply(st, ops[0]), ops[1..]))
  }

  /** Exact books over whole runs, exactly: throughout a run that does not wrap if and only if every step
      keeps them. */
  lemma {:induction false} RunExactly(st: Store, ops: seq<StoreOp>)
    requires Balanced(st) && StoreRun(NoWrapAt, st, ops)
    ensures AlwaysExact(st, ops) <==> StoreRun(Balancing, st, ops)
    decreases |ops|
  {
    if ops != [] {
      StepSafe(st, ops[0]);
      StepExact(st, ops[0]);
      if Exact(Apply(st, ops[0])) {
        RunExactly(Apply(st, ops[0]), ops[1..]);
      }
    }
  }

  /** Everything the runtime owns was allocated by namespace n. */
  ghost predicate OneOwner(st: Store, n: NamespaceId) {
    && (forall i :: 0 <= i < |st.recs| && st.recs[i].ownership == RUNTIME ==> st.recs[i].ns == n)
    && (forall i :: 0 <= i < |st.pool| ==> st.pool[i].lastOwner == n)
  }

  predicate UsesOnly(n: NamespaceId, st: Store, op: StoreOp) {
    NoWrapAt(st, op) && !Upsets(st, op) && (op.DoAllocate? ==> op.req.ns == n)
  }

  lemma HitOneOwner(st: Store, req: Request, plan: Plan, acc: Accounts, i: nat, env: Env)
    requires OneOwner(st, req.ns) && i < |st.pool|
    ensures OneOwner(AllocateHit(st, req, plan, acc, i, env).0, req.ns)
  {
  }

  lemma FreshOneOwner(st: Store, req: Request, plan: Plan, acc: Accounts, env: Env)
    requires OneOwner(st, req.ns)
    ensures OneOwner(AllocateFresh(st, req, plan, acc, env).0, req.ns)
  {
  }

  lemma AllocateOneOwner(st: Store, req: Request, env: Env)
    requires OneOwner(st, req.ns)
    ensures OneOwner(Allocate(st, req, env).0, req.ns)
  {
    var v := Validate(st.cfg, req);
    if v.Ok? && ReserveFor(st, req, v.value.bytes).Ok? {
      var plan, a := v.value, ReserveFor(st, req, v.value.bytes).value;
      if SlotFor(st, req, plan) < |st.pool| {
        HitOneOwner(st, req, plan, a, SlotFor(st, req, plan), env);
      } else {
        FreshOneOwner(st, req, plan, a, env);
      }
    }
  }

  lemma FinalizeOneOwner(st: Store, c: nat, n: NamespaceId)
    requires OneOwner(st, n) && AllShaped(st)
    ensures OneOwner(Finalize(st, c), n)
  {
    if Live(st, c) {
      assert Shaped(st.cfg, st.recs[c]);
    }
  }

  lemma MigrateOneOwner(st: Store, c: nat, target: Domain, env: Env, n: NamespaceId)
    requires OneOwner(st, n) && c < |st.recs|
    ensures OneOwner(Migrate(st, c, target, env).0, n)
  {
  }

  lemma StepOneOwner(st: Store, op: StoreOp, n: NamespaceId)
    requires OneOwner(st, n) && AllShaped(st) && (op.DoAllocate? ==> op.req.ns == n)
    ensures OneOwner(Apply(st, op), n) && !Crosses(st, op)
  {
    match op
    case DoAllocate(req, env) => AllocateOneOwner(st, req, env);
    case DoFinalize(c) => FinalizeOneOwner(st, c, n);
    case DoMigrate(c, target, env) =>
      if CanMigrate(st, c, target) {
        MigrateOneOwner(st, c, target, env, n);
      }
    case _ =>
  }

  /** With one namespace no pool hit can cross, so the books are exact in every run that does not upset them. */
  lemma OneNamespaceExact(cfg: Config, nss: map<NamespaceId, NamespaceConfig>, n: NamespaceId, ops: seq<StoreOp>)
    requires StoreRun((st, op) => UsesOnly(n, st, op), Init(cfg, nss), ops)
    ensures Balanced(ApplyAll(Init(cfg, nss), ops)) && OneOwner(ApplyAll(Init(cfg, nss), ops), n)
  {
    var inv := (s: Store) => Balanced(s) && OneOwner(s, n);
    var ok := (st, op) => UsesOnly(n, st, op);
    InitBalanced(cfg, nss);
    forall s: Store, op: StoreOp | inv(s) && ok(s, op) ensures inv(Apply(s, op)) {
      StepOneOwner(s, op, n);
      StepSafe(s, op);
      StepExact(s, op);
    }
    Induct(ok, inv, Init(cfg, nss), ops);
  }

  lemma {:induction false} NothingLive(recs: seq<Record>, k: Charge)
    requires forall i :: 0 <= i < |recs| ==> recs[i].finalized || recs[i].ownership != RUNTIME
    ensures Sum(recs, LiveBytes(k)) == 0
  {
    if recs != [] {
      NothingLive(recs[1..], k);
    }
  }

  /** Released and trimmed, exact books read zero everywhere. */
  lemma DrainedToZero(st: Store, k: Charge)
    requires Exact(st)
    requires forall i :: 0 <= i < |st.recs| ==> st.recs[i].finalized || st.recs[i].ownership != RUNTIME
    ensures Trim(st).acc.Committed(k) == 0
  {
    TrimExact(st);
    NothingLive(st.recs, k);
    assert Trim(st).acc.Committed(k) == Native(Trim(st), k);
  }

  // ------------------------------------------------------------------ never under-reported

  function LiveOn(d: Domain): Record -> int {
    (r: Record) => if !r.finalized && r.ownership == RUNTIME && r.domain == d then r.backing.committed else 0
  }

  function IdleOn(d: Domain): PoolEntry -> int {
    (e: PoolEntry) => if e.key.domain == d then e.backing.committed else 0
  }

  /** Committed bytes of a domain, all namespaces together (what telemetry reports). */
  ghost function Reported(st: Store, d: Domain): int {
    MapSum(st.acc.committed, OnDomain(d))
  }

  function NativeOn(st: Store, d: Domain): int {
    Sum(st.recs, LiveOn(d)) + Sum(st.pool, IdleOn(d))
  }

  ghost predicate Covered(st: Store) {
    forall d: Domain :: Reported(st, d) >= NativeOn(st, d)
  }

  /** A clamped subtraction takes away at most what was asked. */
  lemma FreeReports(committed: map<Charge, nat>, k: Charge, bytes: nat, d: Domain)
    ensures MapSum(committed[k := Minus(Get(committed, k), bytes)], OnDomain(d))
         >= MapSum(committed, OnDomain(d)) - if k.domain == d then bytes else 0
  {
    MapSumWrite(committed, k, Minus(Get(committed, k), bytes), OnDomain(d));
  }

  lemma RemovedMembers(pool: Pool, i: nat, x: PoolEntry)
    requires i < |pool|
    ensures x in pool <==> x == pool[i] || x in RemoveAt(pool, i)
  {
    if x in pool {
      var j :| 0 <= j < |pool| && pool[j] == x;
      if j < i {
        assert RemoveAt(pool, i)[j] == x;
      } else if j > i {
        assert RemoveAt(pool, i)[j - 1] == x;
      }
    }
  }

  lemma RemovedOwners(pool: Pool, i: nat)
    requires i < |pool|
    ensures Owners(pool) == Owners(RemoveAt(pool, i)) + {Owner(pool[i])}
  {
    forall x ensures x in pool <==> x == pool[i] || x in RemoveAt(pool, i) {
      RemovedMembers(pool, i, x);
    }
  }

  /** Freeing one slot first does not change what a trim leaves committed. */
  lemma FreeOneCommitted(committed: map<Charge, nat>, pool: Pool, i: nat)
    requires i < |pool|
    ensures
      var k, n := Owner(pool[i]), pool[i].backing.committed;
      TrimmedCommitted(committed[k := Minus(Get(committed, k), n)], RemoveAt(pool, i)) == TrimmedCommitted(committed, pool)
  {
    var k, n, rest := Owner(pool[i]), pool[i].backing.committed, RemoveAt(pool, i);
    var a, b := TrimmedCommitted(committed[k := Minus(Get(committed, k), n)], rest), TrimmedCommitted(committed, pool);
    assert a.Keys == b.Keys by {
      RemovedOwners(pool, i);
    }
    forall x | x in a ensures a[x] == b[x] {
      SumRemove(pool, i, SlotBytesFor(x));
    }
    SameMap(a, b);
  }

  lemma {:induction false} TrimReports(committed: map<Charge, nat>, pool: Pool, d: Domain)
    ensures MapSum(TrimmedCommitted(committed, pool), OnDomain(d))
         >= MapSum(committed, OnDomain(d)) - Sum(pool, IdleOn(d))
    decreases |pool|
  {
    if pool == [] {
      assert TrimmedCommitted(committed, pool) == committed;
    } else {
      var k := Owner(pool[0]);
      FreeReports(committed, k, pool[0].backing.committed, d);
      FreeOneCommitted(committed, pool, 0);
      assert RemoveAt(pool, 0) == pool[1..];
      TrimReports(committed[k := Minus(Get(committed, k), pool[0].backing.committed)], pool[1..], d);
    }
  }

  /** Wrapped memory is only borrowed: adopted and shared wraps are uncharged but released as if charged. */
  ghost predicate OnlyBorrowed(st: Store) {
    forall i :: 0 <= i < |st.recs| ==> st.recs[i].ownership == RUNTIME || st.recs[i].ownership == BORROWED
  }

  /** A step that does not wrap; wraps are borrowed, and only memory the runtime allocated is migrated. */
  predicate Steady(st: Store, op: StoreOp) {
    && NoWrapAt(st, op)
    && (op.DoWrap? ==> op.x.ownership == BORROWED)
    && (op.DoMigrate? && CanMigrate(st, op.c, op.target) ==> st.recs[op.c].ownership == RUNTIME)
  }

  lemma ChangesOnlyBorrowed(st: Store, st': Store, ch: Change)
    requires OnlyBorrowed(st) && Changes(st, st', ch)
    requires ch.Added? ==> ch.r.ownership == RUNTIME || ch.r.ownership == BORROWED
    ensures OnlyBorrowed(st')
  {
  }

  lemma AllocateIsRuntime(st: Store, req: Request, env: Env)
    ensures
      var (st', o) := Allocate(st, req, env);
      o.Ok? && |st'.recs| == |st.recs| + 1 ==> st'.recs[|st.recs|].ownership == RUNTIME
  {
  }

  lemma StepOnlyBorrowed(st: Store, op: StoreOp)
    requires OnlyBorrowed(st) && (op.DoWrap? ==> op.x.ownership == BORROWED)
    ensures OnlyBorrowed(Apply(st, op))
  {
    StepChanges(st, op);
    if op.DoAllocate? {
      AllocateAdds(st, op.req, op.env);
      AllocateIsRuntime(st, op.req, op.env);
    }
    ChangesOnlyBorrowed(st, Apply(st, op), ChangeOf(st, op));
  }

  /** The record's bytes, read per account, fix them per domain. */
  lemma LiveOnFrom(r: Record, k: Charge, bytes: nat, d: Domain)
    requires forall j: Charge :: LiveBytes(j)(r) == if j == k then bytes else 0
    ensures LiveOn(d)(r) == if k.domain == d then bytes else 0
  {
    assert LiveBytes(k)(r) == bytes;
    assert LiveBytes(Charge(r.ns, r.domain))(r) == if Charge(r.ns, r.domain) == k then bytes else 0;
  }

  /** One account moves by x, and the natives of its domain by at most that. */
  lemma ShiftCovered(st: Store, st': Store, k: Charge, x: int)
    requires Covered(st)
    requires forall j: Charge :: st'.acc.Committed(j) == st.acc.Committed(j) + if j == k then x else 0
    requires forall d: Domain :: NativeOn(st', d) <= NativeOn(st, d) + if d == k.domain then x else 0
    ensures Covered(st')
  {
    forall j: Charge ensures Get(st'.acc.committed, j) == Get(st.acc.committed, j) + if j == k then x else 0 {
      assert st'.acc.Committed(j) == st.acc.Committed(j) + if j == k then x else 0;
    }
    forall d: Domain ensures Reported(st', d) >= NativeOn(st', d) {
      MapSumShift(st.acc.committed, st'.acc.committed, k, x, d);
      assert Reported(st, d) >= NativeOn(st, d);
    }
  }

  lemma HitCovered(st: Store, st': Store, i: nat, k: Charge, ok: bool, x: int)
    requires Covered(st) && i < |st.pool| && st.pool[i].key.domain == k.domain && HitShape(st, st', i, k, ok)
    requires forall j: Charge :: st'.acc.Committed(j) == st.acc.Committed(j) + if j == k then x else 0
    requires if ok then x == 0 else 0 - st.pool[i].backing.committed <= x
    ensures Covered(st')
  {
    forall d: Domain ensures NativeOn(st', d) <= NativeOn(st, d) + if d == k.domain then x else 0 {
      SumRemove(st.pool, i, IdleOn(d));
      if ok {
        var r := st'.recs[|st.recs|];
        LiveOnFrom(r, k, st.pool[i].backing.committed, d);
        SumAppend(st.recs, r, LiveOn(d));
      }
    }
    ShiftCovered(st, st', k, x);
  }

  lemma HitCallCovered(st: Store, req: Request, env: Env)
    requires Covered(st) && Hits(st, req) && NoWrapAt(st, DoAllocate(req, env))
    ensures Covered(Allocate(st, req, env).0)
  {
    var plan, k := Validate(st.cfg, req).value, Charge(req.ns, req.domain);
    var i := SlotFor(st, req, plan);
    AllocateShifts(st, req, env);
    SlotDomain(st, req, plan);
    HitRecord(st, req, plan, ReserveFor(st, req, plan.bytes).value, i, env);
    HitCovered(st, Allocate(st, req, env).0, i, k, !ZeroFails(st, req, env), AllocateEffect(st, req, env).committed);
  }

  lemma FreshCallCovered(st: Store, req: Request, env: Env)
    requires Covered(st) && NoWrapAt(st, DoAllocate(req, env)) && !Hits(st, req)
    requires Validate(st.cfg, req).Ok? && ReserveFor(st, req, Validate(st.cfg, req).value.bytes).Ok?
    ensures Covered(Allocate(st, req, env).0)
  {
    var st', plan, k := Allocate(st, req, env).0, Validate(st.cfg, req).value, Charge(req.ns, req.domain);
    var a := ReserveFor(st, req, plan.bytes).value;
    AcceptedPlan(st.cfg, req);
    AllocateShifts(st, req, env);
    ReserveForShifts(st, req, plan.bytes);
    FreshRecord(st, req, plan, a, env);
    assert a.Reserved(k) == st.acc.Reserved(k) + plan.bytes;
    FreshOutcome(st, req, plan, a, env);
    var x := AllocateEffect(st, req, env).committed;
    forall d: Domain ensures NativeOn(st', d) <= NativeOn(st, d) + if d == k.domain then x else 0 {
      if AllocateFresh(st, req, plan, a, env).1.Ok? {
        var r := st'.recs[|st.recs|];
        LiveOnFrom(r, k, plan.bytes, d);
        SumAppend(st.recs, r, LiveOn(d));
      }
    }
    ShiftCovered(st, st', k, x);
  }

  lemma AllocateCovered(st: Store, req: Request, env: Env)
    requires Covered(st) && NoWrapAt(st, DoAllocate(req, env))
    ensures Covered(Allocate(st, req, env).0)
  {
    var v := Validate(st.cfg, req);
    if v.Ok? && ReserveFor(st, req, v.value.bytes).Ok? {
      if Hits(st, req) {
        HitCallCovered(st, req, env);
      } else {
        FreshCallCovered(st, req, env);
      }
    } else {
      AllocateShifts(st, req, env);
      ShiftCovered(st, Allocate(st, req, env).0, Charge(req.ns, req.domain), 0);
    }
  }

  lemma SameCovered(st: Store, st': Store)
    requires Covered(st) && st'.recs == st.recs && st'.pool == st.pool && st'.acc.committed == st.acc.committed
    ensures Covered(st')
  {
    forall d: Domain ensures Reported(st', d) >= NativeOn(st', d) {
      assert Reported(st, d) >= NativeOn(st, d);
    }
  }

  lemma FinalizeCovered(st: Store, c: nat)
    requires Covered(st) && OnlyBorrowed(st)
    ensures Covered(Finalize(st, c))
  {
    if Live(st, c) {
      var r, st' := st.recs[c], Finalize(st, c);
      var n, k := r.backing.committed, Charge(r.ns, r.domain);
      forall d: Domain ensures Reported(st', d) >= NativeOn(st', d) {
        assert Reported(st, d) >= NativeOn(st, d);
        SumUpdate(st.recs, c, Dead(r), LiveOn(d));
        FreeReports(st.acc.committed, k, n, d);
        if r.ownership != BORROWED && GoesToPool(st, r) && !PoolFull(st, n) {
          SumAppend(st.pool, st'.pool[|st.pool|], IdleOn(d));
        }
      }
    }
  }

  lemma MovedCovered(st: Store, st': Store, c: nat, k: Charge, e: Effect, less: nat)
    requires Covered(st) && Live(st, c) && st.recs[c].ownership == RUNTIME && st'.pool == st.pool
    requires k.domain != st.recs[c].domain && less <= st.recs[c].backing.committed
    requires |st'.recs| == |st.recs| && st'.recs == st.recs[c := st'.recs[c]] && !st'.recs[c].finalized
    requires st'.recs[c].ownership == RUNTIME && st'.recs[c].domain == k.domain && st'.recs[c].backing.committed == e.committed
    requires Transferred(st.acc, st'.acc, k, e, Charge(st.recs[c].ns, st.recs[c].domain), less)
    ensures Covered(st')
  {
    var r := st.recs[c];
    var k0 := Charge(r.ns, r.domain);
    forall j: Charge
      ensures Get(st'.acc.committed, j)
           == Get(st.acc.committed, j) + (if j == k then e.committed else 0) - if j == k0 then less else 0
    {
      assert st'.acc.Committed(j) == st.acc.Committed(j) + (if j == k then e.committed else 0) - if j == k0 then less else 0;
    }
    forall d: Domain ensures Reported(st', d) >= NativeOn(st', d) {
      SumUpdate(st.recs, c, st'.recs[c], LiveOn(d));
      if d == k0.domain {
        MapSumShift(st.acc.committed, st'.acc.committed, k0, 0 - less, d);
      } else {
        MapSumShift(st.acc.committed, st'.acc.committed, k, e.committed, d);
      }
      assert Reported(st, d) >= NativeOn(st, d);
    }
  }

  lemma MigrateCovered(st: Store, c: nat, target: Domain, env: Env)
    requires Covered(st) && CanMigrate(st, c, target) && Steady(st, DoMigrate(c, target, env))
    ensures Covered(Migrate(st, c, target, env).0)
  {
    var r, st', e := st.recs[c], Migrate(st, c, target, env).0, MoveEffect(st, c, target, env);
    MigrateShifts(st, c, target, env);
    MoveRecords(st, c, target, env);
    if MigrationPasses(st, c, target, env) {
      MovedCovered(st, st', c, Charge(r.ns, target), e, Released(st, c, target, env));
    } else {
      ShiftCovered(st, st', Charge(r.ns, target), e.committed);
    }
  }

  lemma TrimCovered(st: Store)
    requires Covered(st)
    ensures Covered(Trim(st))
  {
    var st' := Trim(st);
    forall d: Domain ensures Reported(st', d) >= NativeOn(st', d) {
      TrimReports(st.acc.committed, st.pool, d);
      assert Reported(st, d) >= NativeOn(st, d);
    }
  }

  lemma WrapCovered(st: Store, x: ExternalMemory, fill: seq<Crc32c.Byte>)
    requires Covered(st)
    ensures Covered(Wrap(st, x, fill).0)
  {
    var st' := Wrap(st, x, fill).0;
    forall d: Domain ensures Reported(st', d) >= NativeOn(st', d) {
      if Wrap(st, x, fill).1.Ok? {
        SumAppend(st.recs, st'.recs[|st.recs|], LiveOn(d));
      }
      assert Reported(st, d) >= NativeOn(st, d);
    }
  }

  lemma StepCovered(st: Store, op: StoreOp)
    requires OnlyBorrowed(st) && Covered(st) && Steady(st, op)
    ensures Covered(Apply(st, op))
  {
    match op
    case DoAllocate(req, env) => AllocateCovered(st, req, env);
    case DoWrap(x, fill) => WrapCovered(st, x, fill);
    case DoFinalize(c) => FinalizeCovered(st, c);
    case DoMigrate(c, target, env) =>
      if CanMigrate(st, c, target) {
        MigrateCovered(st, c, target, env);
      }
    case DoTrim => TrimCovered(st);
    case DoWrite(c, data) => SameCovered(st, Apply(st, op));
    case DoCreateNamespace(nsc) => SameCovered(st, Apply(st, op));
    case DoTakeId => SameCovered(st, Apply(st, op));
  }

  ghost predicate CoveredBorrowed(st: Store) {
    OnlyBorrowed(st) && Covered(st)
  }

  /** Any namespaces, any pool reuse, any answers of the backends: the reported bytes of a domain are never
      below the native ones. */
  lemma NeverUnderReported(cfg: Config, nss: map<NamespaceId, NamespaceConfig>, ops: seq<StoreOp>)
    requires StoreRun(Steady, Init(cfg, nss), ops)
    ensures CoveredBorrowed(ApplyAll(Init(cfg, nss), ops))
  {
    forall s: Store, op: StoreOp | CoveredBorrowed(s) && Steady(s, op) ensures CoveredBorrowed(Apply(s, op)) {
      StepOnlyBorrowed(s, op);
      StepCovered(s, op);
    }
    Induct(Steady, CoveredBorrowed, Init(cfg, nss), ops);
  }
}
