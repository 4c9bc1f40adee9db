/** Reservations: exactly which failed calls give everything back, and what stays reserved between calls. */
module Reservations {
  import opened Types
  import opened Sums
  import opened SizeClass
  import opened Accounting
  import opened Storage
  import opened Outcomes

  /** The bytes a pool hit reserves on k and never gives back. */
  function HitBytes(st: Store, req: Request, k: Charge): nat {
    if Hits(st, req) && k == Charge(req.ns, req.domain) then Validate(st.cfg, req).value.bytes else 0
  }

  lemma AllocateOk(st: Store, req: Request, env: Env)
    requires NoWrapAt(st, DoAllocate(req, env))
    ensures Allocate(st, req, env).1.Ok? <==>
            var v := Validate(st.cfg, req);
            v.Ok? && ReserveFor(st, req, v.value.bytes).Ok? && (Hits(st, req) || env.allocateOk) && !ZeroFails(st, req, env)
  {
    AcceptedPlan(st.cfg, req);
    var v := Validate(st.cfg, req);
    if v.Ok? && ReserveFor(st, req, v.value.bytes).Ok? && !Hits(st, req) {
      var k, a := Charge(req.ns, req.domain), ReserveFor(st, req, v.value.bytes).value;
      ReserveForShifts(st, req, v.value.bytes);
      assert a.Reserved(k) == st.acc.Reserved(k) + v.value.bytes;
    }
  }

  /** The accounts after an allocation: a hit leaves its bytes reserved, a fresh block moves them to
      committed, and a failure gives everything back exactly unless zeroing failed. */
  lemma AllocateShift(st: Store, req: Request, env: Env)
    requires NoWrapAt(st, DoAllocate(req, env))
    ensures
      var (st', o) := Allocate(st, req, env);
      var k := Charge(req.ns, req.domain);
      && (o.Err? ==> (SameBalance(st'.acc, st.acc) <==> !ZeroFails(st, req, env)))
      && (o.Ok? ==>
            var bytes := Validate(st.cfg, req).value.bytes;
            if Hits(st, req) then Shift(st.acc, st'.acc, k, bytes, 0, 1) else Shift(st.acc, st'.acc, k, 0, bytes, 1))
  {
    var e, k := AllocateEffect(st, req, env), Charge(req.ns, req.domain);
    AcceptedPlan(st.cfg, req);
    AllocateOk(st, req, env);
    AllocateShifts(st, req, env);
    ShiftZero(st.acc, Allocate(st, req, env).0.acc, k, e.reserved, e.committed, e.count);
  }

  /** A failed migration gives everything back exactly, unless the destination fails verification on a
      device or while other bytes are still reserved there. */
  lemma MigrateShift(st: Store, c: nat, target: Domain, env: Env)
    requires CanMigrate(st, c, target) && MoveBytes(st.recs[c]) > 0 && NoWrapAt(st, DoMigrate(c, target, env))
    ensures
      var (st', o) := Migrate(st, c, target, env);
      var k := Charge(st.recs[c].ns, target);
      && (o.Err? ==>
            (SameBalance(st'.acc, st.acc) <==>
             !(VerifyFails(st, c, target, env) && (target == DEVICE || st.acc.Reserved(k) > 0))))
      && (o.Ok? ==>
            && (forall j: Charge :: st'.acc.Reserved(j) == st.acc.Reserved(j))
            && (forall ns: NamespaceId :: Get(st'.acc.counts, ns) == Get(st.acc.counts, ns)))
  {
    var e, k := MoveEffect(st, c, target, env), Charge(st.recs[c].ns, target);
    MigrateExactly(st, c, target, env);
    MigrateShifts(st, c, target, env);
    var st' := Migrate(st, c, target, env).0;
    assert st'.acc.Reserved(k) == st.acc.Reserved(k) + e.reserved;
    if !MigrationPasses(st, c, target, env) {
      assert st'.acc.Committed(k) == st.acc.Committed(k) + e.committed;
    }
  }

  // ------------------------------------------------------------------ whole runs

  /** A step that neither wraps nor fails after its bytes were committed. */
  predicate Settling(st: Store, op: StoreOp) {
    && NoWrapAt(st, op)
    && (op.DoAllocate? ==> Hits(st, op.req) || !ZeroFails(st, op.req, op.env))
    && (op.DoMigrate? && CanMigrate(st, op.c, op.target) ==> !VerifyFails(st, op.c, op.target, op.env))
  }

  /** What the pool hits of the run reserved on k. */
  function HitTotal(st: Store, ops: seq<StoreOp>, k: Charge): nat
    decreases |ops|
  {
    if ops == [] then 0
    else (if ops[0].DoAllocate? then HitBytes(st, ops[0].req, k) else 0) + HitTotal(Apply(st, ops[0]), ops[1..], k)
  }

  lemma FinalizeReserved(st: Store, c: nat)
    ensures Finalize(st, c).acc.reserved == st.acc.reserved
  {
  }

  lemma StepReserved(st: Store, op: StoreOp, k: Charge)
    requires Settling(st, op)
    ensures Apply(st, op).acc.Reserved(k) == st.acc.Reserved(k) + if op.DoAllocate? then HitBytes(st, op.req, k) else 0
  {
    match op
    case DoAllocate(req, env) => AllocateShifts(st, req, env);
    case DoFinalize(c) => FinalizeReserved(st, c);
    case DoMigrate(c, target, env) =>
      if CanMigrate(st, c, target) {
        MigrateShifts(st, c, target, env);
      }
    case _ =>
  }

  /** With no call in progress, an account's reserved bytes are exactly what its pool hits left behind:
      the intended zero if and only if no allocation on it was ever served from the pool. */
  lemma {:induction false} ReservedIsHits(st: Store, ops: seq<StoreOp>, k: Charge)
    requires StoreRun(Settling, st, ops)
    ensures ApplyAll(st, ops).acc.Reserved(k) == st.acc.Reserved(k) + HitTotal(st, ops, k)
    decreases |ops|
  {
    if ops != [] {
      StepReserved(st, ops[0], k);
      ReservedIsHits(Apply(st, ops[0]), ops[1..], k);
    }
  }
}
