/** Allocation counts: a namespace's count is the number of its live buffers, except for what a lost pool
    hit leaves behind, and never exceeds the quota. */
module Counting {
  import opened Wrappers
  import opened Types
  import opened Sums
  import opened SizeClass
  import opened Accounting
  import opened Storage
  import opened Records
  import opened Ownership

  function LiveIn(ns: NamespaceId): Record -> int {
    (r: Record) => if !r.finalized && r.ns == ns then 1 else 0
  }

  /** Every count is the number of live buffers. */
  ghost predicate Counted(st: Store) {
    forall ns: NamespaceId :: Get(st.acc.counts, ns) == Sum(st.recs, LiveIn(ns))
  }

  /** No namespace has more live buffers than its count says. */
  ghost predicate CountsCover(st: Store) {
    forall ns: NamespaceId :: Sum(st.recs, LiveIn(ns)) <= Get(st.acc.counts, ns)
  }

  // ------------------------------------------------------------------ what operations do to the counts

  lemma HitCounts(st: Store, req: Request, plan: Plan, acc: Accounts, i: nat, env: Env)
    requires i < |st.pool|
    ensures AllocateHit(st, req, plan, acc, i, env).0.acc.counts == acc.counts
  {
  }

  lemma FreshCounts(st: Store, req: Request, plan: Plan, acc: Accounts, env: Env)
    ensures
      var (st', o) := AllocateFresh(st, req, plan, acc, env);
      st'.acc.counts == if o.Ok? then acc.counts else ReleaseCount(acc, req.ns).counts
  {
  }

  lemma ReserveForCounts(st: Store, req: Request, bytes: nat)
    requires ReserveFor(st, req, bytes).Ok?
    ensures ReserveCount(st.acc, req.ns, st.nss).Ok?
    ensures ReserveFor(st, req, bytes).value.counts == st.acc.counts[req.ns := Get(st.acc.counts, req.ns) + 1]
  {
  }

  lemma RefusedCounts(st: Store, req: Request, ns: NamespaceId)
    ensures Get(RefusedAccounts(st, req).counts, ns) == Get(st.acc.counts, ns)
  {
  }

  /** An allocation takes a count if it succeeds, or if it loses its block. */
  predicate TakesCount(st: Store, req: Request, env: Env) {
    Allocate(st, req, env).1.Ok? || LosesBlock(st, DoAllocate(req, env))
  }

  lemma AllocateCounts(st: Store, req: Request, env: Env, ns: NamespaceId)
    ensures Get(Allocate(st, req, env).0.acc.counts, ns)
         == Get(st.acc.counts, ns) + if ns == req.ns && TakesCount(st, req, env) then 1 else 0
    ensures TakesCount(st, req, env) ==> ReserveCount(st.acc, req.ns, st.nss).Ok?
  {
    var v := Validate(st.cfg, req);
    if v.Ok? {
      if ReserveFor(st, req, v.value.bytes).Ok? {
        var a, i := ReserveFor(st, req, v.value.bytes).value, SlotFor(st, req, v.value);
        ReserveForCounts(st, req, v.value.bytes);
        if i < |st.pool| {
          HitCounts(st, req, v.value, a, i, env);
          HitOutcome(st, req, v.value, a, i, env);
        } else {
          FreshCounts(st, req, v.value, a, env);
        }
      } else {
        RefusedCounts(st, req, ns);
      }
    }
  }

  lemma HitOutcome(st: Store, req: Request, plan: Plan, acc: Accounts, i: nat, env: Env)
    requires i < |st.pool|
    ensures AllocateHit(st, req, plan, acc, i, env).1.Ok? <==>
            env.zeroOk || !WantZero(Policy(st.nss, req), Some(st.pool[i].lastOwner), req.ns)
  {
  }

  lemma FinalizeCounts(st: Store, c: nat, ns: NamespaceId)
    ensures Get(Finalize(st, c).acc.counts, ns)
         == if Live(st, c) && st.recs[c].ns == ns then Minus(Get(st.acc.counts, ns), 1) else Get(st.acc.counts, ns)
  {
  }

  lemma MigrateReservedCounts(st: Store, c: nat, target: Domain, n: nat, acc: Accounts, env: Env)
    requires c < |st.recs| && acc.counts == st.acc.counts
    ensures MigrateReserved(st, c, target, n, acc, env).0.acc.counts == st.acc.counts
    ensures MigrateReserved(st, c, target, n, acc, env).0.nss == st.nss
  {
  }

  lemma MigrateCounts(st: Store, c: nat, target: Domain, env: Env)
    requires c < |st.recs|
    ensures Migrate(st, c, target, env).0.acc.counts == st.acc.counts
    ensures Migrate(st, c, target, env).0.nss == st.nss
  {
    var r := st.recs[c];
    var n, k := MoveBytes(r), Charge(r.ns, target);
    var a := ReserveAmount(st.acc, k, CeilingOf(st.cfg, st.nss, k), n);
    if target in st.cfg.domains && a.Ok? {
      MigrateReservedCounts(st, c, target, n, a.value, env);
    }
  }

  /** The change of a count across a step. */
  function CountShift(st: Store, op: StoreOp, ns: NamespaceId): int {
    match op
    case DoAllocate(req, env) => if ns == req.ns && TakesCount(st, req, env) then 1 else 0
    case DoWrap(x, fill) => if ns == DEFAULT_NAMESPACE && Wrap(st, x, fill).1.Ok? then 1 else 0
    case DoFinalize(c) => if Live(st, c) && st.recs[c].ns == ns then Minus(Get(st.acc.counts, ns), 1) - Get(st.acc.counts, ns) else 0
    case _ => 0
  }

  lemma StepCounts(st: Store, op: StoreOp, ns: NamespaceId)
    ensures Get(Apply(st, op).acc.counts, ns) == Get(st.acc.counts, ns) + CountShift(st, op, ns)
  {
    match op
    case DoAllocate(req, env) => AllocateCounts(st, req, env, ns);
    case DoFinalize(c) => FinalizeCounts(st, c, ns);
    case DoMigrate(c, target, env) =>
      if CanMigrate(st, c, target) {
        MigrateCounts(st, c, target, env);
      }
    case _ =>
  }

  // ------------------------------------------------------------------ what they do to the live buffers

  /** The change of the number of live buffers across a change of the records. */
  function LiveShift(st: Store, ch: Change, ns: NamespaceId): int {
    match ch
    case Added(r) => if r.ns == ns then 1 else 0
    case Retired(c) => if c < |st.recs| && st.recs[c].ns == ns then -1 else 0
    case _ => 0
  }

  lemma ChangedLive(st: Store, st': Store, ch: Change, ns: NamespaceId)
    requires Changes(st, st', ch)
    ensures Sum(st'.recs, LiveIn(ns)) == Sum(st.recs, LiveIn(ns)) + LiveShift(st, ch, ns)
  {
    match ch
    case Same =>
    case Added(r) => SumAppend(st.recs, r, LiveIn(ns));
    case Retired(c) => SumUpdate(st.recs, c, Dead(st.recs[c]), LiveIn(ns));
    case Moved(c, target, backing) => SumUpdate(st.recs, c, Rebound(st.cfg, st.recs[c], target, backing), LiveIn(ns));
  }

  /** The namespaces stay, and a new record belongs to ns. */
  ghost predicate NewIn(st: Store, r: (Store, Result<nat>), ns: NamespaceId) {
    r.0.nss == st.nss && (r.1.Ok? ==> r.0.recs != [] && r.0.recs[|r.0.recs| - 1].ns == ns)
  }

  lemma HitNamespace(st: Store, req: Request, plan: Plan, acc: Accounts, i: nat, env: Env)
    requires i < |st.pool|
    ensures NewIn(st, AllocateHit(st, req, plan, acc, i, env), req.ns)
  {
  }

  lemma FreshNamespace(st: Store, req: Request, plan: Plan, acc: Accounts, env: Env)
    ensures NewIn(st, AllocateFresh(st, req, plan, acc, env), req.ns)
  {
  }

  lemma AllocateNamespace(st: Store, req: Request, env: Env)
    ensures NewIn(st, Allocate(st, req, env), req.ns)
  {
    var v := Validate(st.cfg, req);
    if v.Ok? && ReserveFor(st, req, v.value.bytes).Ok? {
      var a, i := ReserveFor(st, req, v.value.bytes).value, SlotFor(st, req, v.value);
      if i < |st.pool| {
        HitNamespace(st, req, v.value, a, i, env);
      } else {
        FreshNamespace(st, req, v.value, a, env);
      }
    }
  }

  lemma AddedNamespace(st: Store, op: StoreOp)
    requires (op.DoAllocate? || op.DoWrap?) && ChangeOf(st, op).Added?
    ensures ChangeOf(st, op).r.ns == if op.DoAllocate? then op.req.ns else DEFAULT_NAMESPACE
  {
    if op.DoAllocate? {
      AllocateNamespace(st, op.req, op.env);
    }
  }

  lemma AllocateOutcome(st: Store, op: StoreOp)
    ensures op.DoAllocate? ==> (ChangeOf(st, op).Added? <==> Allocate(st, op.req, op.env).1.Ok?)
    ensures op.DoWrap? ==> (ChangeOf(st, op).Added? <==> Wrap(st, op.x, op.fill).1.Ok?)
  {
    if op.DoAllocate? {
      AllocateAdds(st, op.req, op.env);
    }
  }

  /** Both change alike, unless a block is lost or a count is clamped. */
  lemma ShiftsAgree(st: Store, op: StoreOp, ns: NamespaceId)
    requires CountsCover(st)
    ensures CountShift(st, op, ns)
         == LiveShift(st, ChangeOf(st, op), ns) + if LosesBlock(st, op) && ns == op.req.ns then 1 else 0
  {
    AllocateOutcome(st, op);
    match op
    case DoAllocate(req, env) =>
      LostFails(st, req, env);
      if ChangeOf(st, op).Added? {
        AddedNamespace(st, op);
      }
    case DoWrap(x, fill) =>
      if ChangeOf(st, op).Added? {
        AddedNamespace(st, op);
      }
    case DoFinalize(c) =>
      if Live(st, c) && st.recs[c].ns == ns {
        SumMember(st.recs, c, LiveIn(ns));
        assert Sum(st.recs, LiveIn(ns)) <= Get(st.acc.counts, ns);
      }
    case _ =>
  }

  /** No step lets the live buffers of a namespace outgrow its count, whatever the backends answer. */
  lemma StepCovers(st: Store, op: StoreOp)
    requires CountsCover(st)
    ensures CountsCover(Apply(st, op))
  {
    StepChanges(st, op);
    forall ns: NamespaceId ensures Sum(Apply(st, op).recs, LiveIn(ns)) <= Get(Apply(st, op).acc.counts, ns) {
      StepCounts(st, op, ns);
      ChangedLive(st, Apply(st, op), ChangeOf(st, op), ns);
      ShiftsAgree(st, op, ns);
      assert Sum(st.recs, LiveIn(ns)) <= Get(st.acc.counts, ns);
    }
  }

  /** Exact counts stay exact across a step if and only if it does not lose a block. */
  lemma StepCounted(st: Store, op: StoreOp)
    requires Counted(st)
    ensures Counted(Apply(st, op)) <==> !LosesBlock(st, op)
  {
    StepChanges(st, op);
    var st' := Apply(st, op);
    forall ns: NamespaceId
      ensures Get(st'.acc.counts, ns) == Sum(st'.recs, LiveIn(ns)) + if LosesBlock(st, op) && ns == op.req.ns then 1 else 0
    {
      StepCounts(st, op, ns);
      ChangedLive(st, st', ChangeOf(st, op), ns);
      ShiftsAgree(st, op, ns);
      assert Get(st.acc.counts, ns) == Sum(st.recs, LiveIn(ns));
    }
    if LosesBlock(st, op) {
      assert Get(st'.acc.counts, op.req.ns) != Sum(st'.recs, LiveIn(op.req.ns));
    }
  }

  // ------------------------------------------------------------------ quotas

  ghost predicate CountsWithin(st: Store) {
    forall ns :: ns in st.nss && st.nss[ns].countQuota != 0 ==> Get(st.acc.counts, ns) <= st.nss[ns].countQuota
  }

  /** A namespace is created before its identifier is used. */
  predicate NamedFirst(st: Store, op: StoreOp) {
    op.DoCreateNamespace? ==> Get(st.acc.counts, |st.nss| + 1) == 0
  }

  lemma StepNamespaces(st: Store, op: StoreOp)
    requires !op.DoCreateNamespace?
    ensures Apply(st, op).nss == st.nss
  {
    match op
    case DoAllocate(req, env) => AllocateNamespace(st, req, env);
    case DoMigrate(c, target, env) =>
      if CanMigrate(st, c, target) {
        MigrateCounts(st, c, target, env);
      }
    case _ =>
  }

  /** A count only grows where the quota allows it. */
  lemma GrowsWithinQuota(st: Store, op: StoreOp, ns: NamespaceId)
    requires CountShift(st, op, ns) > 0
    ensures CountShift(st, op, ns) == 1 && ReserveCount(st.acc, ns, st.nss).Ok?
  {
    if op.DoAllocate? {
      AllocateCounts(st, op.req, op.env, ns);
    }
  }

  lemma StepCountsWithin(st: Store, op: StoreOp)
    requires CountsWithin(st) && NamedFirst(st, op)
    ensures CountsWithin(Apply(st, op))
  {
    var st' := Apply(st, op);
    forall ns | ns in st'.nss && st'.nss[ns].countQuota != 0 ensures Get(st'.acc.counts, ns) <= st'.nss[ns].countQuota {
      StepCounts(st, op, ns);
      if !op.DoCreateNamespace? {
        StepNamespaces(st, op);
      }
      if CountShift(st, op, ns) > 0 {
        GrowsWithinQuota(st, op, ns);
      }
    }
  }

  ghost predicate CountSound(st: Store) {
    CountsCover(st) && CountsWithin(st)
  }

  /** In every run, whatever the backends answer, a namespace has at most as many live buffers as its
      count quota. */
  lemma LiveWithinCountQuota(cfg: Config, nss: map<NamespaceId, NamespaceConfig>, ops: seq<StoreOp>)
    requires StoreRun(NamedFirst, Init(cfg, nss), ops)
    ensures
      var st := ApplyAll(Init(cfg, nss), ops);
      forall ns :: ns in st.nss && st.nss[ns].countQuota != 0 ==> Sum(st.recs, LiveIn(ns)) <= st.nss[ns].countQuota
  {
    forall s: Store, op: StoreOp | CountSound(s) && NamedFirst(s, op) ensures CountSound(Apply(s, op)) {
      StepCovers(s, op);
      StepCountsWithin(s, op);
    }
    Induct(NamedFirst, CountSound, Init(cfg, nss), ops);
    var st := ApplyAll(Init(cfg, nss), ops);
    forall ns | ns in st.nss && st.nss[ns].countQuota != 0 ensures Sum(st.recs, LiveIn(ns)) <= st.nss[ns].countQuota {
      assert Sum(st.recs, LiveIn(ns)) <= Get(st.acc.counts, ns);
    }
  }
}
