/** The reuse pool: its counters, its bounds, and what a slot handed out is guaranteed to fit. */
module Pooling {
  import opened Words
  import opened Types
  import opened Sums
  import opened SizeClass
  import opened Accounting
  import opened NativeMemory
  import opened Storage
  import opened Records

  // ------------------------------------------------------------------ bookkeeping

  /** The counters are the real totals, within their limits; so no clamped decrement ever clamps. */
  ghost predicate Booked(st: Store) {
    && st.poolCount == |st.pool| <= st.cfg.pool.maxObjects
    && st.poolIdle == IdleTotal(st.pool) <= st.cfg.pool.maxIdleBytes
  }

  lemma TakeBooked(st: Store, i: nat)
    requires Booked(st) && i < |st.pool|
    ensures Booked(TakeSlot(st, i))
    ensures TakeSlot(st, i).poolCount == st.poolCount - 1
    ensures TakeSlot(st, i).poolIdle == st.poolIdle - st.pool[i].backing.committed
  {
    SumRemove(st.pool, i, SlotBytes());
    SumMember(st.pool, i, SlotBytes());
  }

  lemma PutBooked(st: Store, st': Store, e: PoolEntry)
    requires Booked(st) && !PoolFull(st, e.backing.committed)
    requires st'.cfg == st.cfg && st'.pool == st.pool + [e]
    requires st'.poolCount == st.poolCount + 1 && st'.poolIdle == st.poolIdle + e.backing.committed
    ensures Booked(st')
  {
    SumAppend(st.pool, e, SlotBytes());
  }

  lemma SameBooked(st: Store, st': Store)
    requires Booked(st) && st'.cfg == st.cfg
    requires st'.pool == st.pool && st'.poolCount == st.poolCount && st'.poolIdle == st.poolIdle
    ensures Booked(st')
  {
  }

  lemma HitBooked(st: Store, req: Request, plan: Plan, acc: Accounts, i: nat, env: Env)
    requires Booked(st) && i < |st.pool|
    ensures Booked(AllocateHit(st, req, plan, acc, i, env).0)
  {
    TakeBooked(st, i);
    SameBooked(TakeSlot(st, i), AllocateHit(st, req, plan, acc, i, env).0);
  }

  lemma AllocateBooked(st: Store, req: Request, env: Env)
    requires Booked(st)
    ensures Booked(Allocate(st, req, env).0)
  {
    var v := Validate(st.cfg, req);
    if v.Ok? && ReserveFor(st, req, v.value.bytes).Ok? && SlotFor(st, req, v.value) < |st.pool| {
      HitBooked(st, req, v.value, ReserveFor(st, req, v.value.bytes).value, SlotFor(st, req, v.value), env);
    } else {
      SameBooked(st, Allocate(st, req, env).0);
    }
  }

  lemma FinalizeBooked(st: Store, c: nat)
    requires Booked(st)
    ensures Booked(Finalize(st, c))
  {
    if Live(st, c) {
      var r, st' := st.recs[c], Finalize(st, c);
      if r.ownership != BORROWED && GoesToPool(st, r) && !PoolFull(st, r.backing.committed) {
        PutBooked(st, st', PoolEntry(KeyOf(st.cfg, r), r.backing, r.ns));
      } else {
        SameBooked(st, st');
      }
    }
  }

  lemma MigrateBooked(st: Store, c: nat, target: Domain, env: Env)
    requires Booked(st) && c < |st.recs|
    ensures Booked(Migrate(st, c, target, env).0)
  {
    MigrateKeepsPool(st, c, target, env);
    SameBooked(st, Migrate(st, c, target, env).0);
  }

  lemma StepBooked(st: Store, op: StoreOp)
    requires Booked(st)
    ensures Booked(Apply(st, op))
  {
    match op
    case DoAllocate(req, env) => AllocateBooked(st, req, env);
    case DoFinalize(c) => FinalizeBooked(st, c);
    case DoMigrate(c, target, env) =>
      if CanMigrate(st, c, target) {
        MigrateBooked(st, c, target, env);
      }
    case DoTrim =>
    case _ => SameBooked(st, Apply(st, op));
  }

  // ------------------------------------------------------------------ fit

  /** The smallest class is a multiple of every admissible alignment, as with the default of 4096. */
  predicate RoundClasses(p: PoolConfig) {
    MinClass(p) % MAX_ALIGNMENT == 0
  }

  /** A backing suits a key: aligned as asked and, below the largest class, no larger than the class. */
  ghost predicate Suits(cfg: Config, b: Backing, alignment: nat, sizeClass: nat) {
    && alignment > 0 && b.alignment % alignment == 0
    && (RoundClasses(cfg.pool) && sizeClass < MaxClass(cfg.pool) ==> b.committed <= sizeClass)
  }

  ghost predicate SlotSuits(cfg: Config, e: PoolEntry) {
    Suits(cfg, e.backing, e.key.alignment, e.key.sizeClass)
  }

  ghost predicate RecordSuits(cfg: Config, r: Record) {
    r.eligible ==> Suits(cfg, r.backing, r.alignment, ClassOf(cfg.pool, r.size))
  }

  ghost predicate Suited(st: Store) {
    && (forall i :: 0 <= i < |st.pool| ==> SlotSuits(st.cfg, st.pool[i]))
    && (forall i :: 0 <= i < |st.recs| ==> RecordSuits(st.cfg, st.recs[i]))
  }

  lemma {:induction false} Pow2Splits(k: nat, m: nat)
    requires k <= m
    ensures Pow2(m) % Pow2(k) == 0
    decreases m
  {
    if k == m {
      ModUnique(Pow2(m), Pow2(k), 1, 0);
    } else {
      Pow2Splits(k, m - 1);
      var q := Pow2(m - 1) / Pow2(k);
      assert Pow2(m - 1) == Pow2(k) * q;
      assert Pow2(m) == Pow2(k) * (2 * q);
      ModUnique(Pow2(m), Pow2(k), 2 * q, 0);
    }
  }

  lemma {:induction false} Pow2Order(k: nat, m: nat)
    requires Pow2(k) <= Pow2(m)
    ensures k <= m
    decreases k
  {
    if k > 0 && m > 0 {
      Pow2Order(k - 1, m - 1);
    }
  }

  /** An admissible alignment divides 4096. */
  lemma AlignmentDivides(a: nat)
    requires 0 < a <= MAX_ALIGNMENT && IsPow2(a)
    ensures MAX_ALIGNMENT % a == 0 && (a < 8 ==> 8 % a == 0)
  {
    var k: nat :| a == Pow2(k);
    assert Pow2(12) == MAX_ALIGNMENT;
    assert Pow2(3) == 8;
    Pow2Order(k, 12);
    Pow2Splits(k, 12);
    if a < 8 {
      Pow2Order(k, 3);
      Pow2Splits(k, 3);
    }
  }

  lemma MultipleOfMultiple(x: nat, y: nat, a: nat)
    requires a > 0 && y > 0 && x % y == 0 && y % a == 0
    ensures x % a == 0
  {
    var p, q := x / y, y / a;
    assert x == y * p && y == a * q;
    assert x == a * (q * p);
    ModUnique(x, a, q * p, 0);
  }

  /** The charged bytes of a request never exceed its size class, below the largest class. */
  lemma PlanWithinClass(cfg: Config, req: Request)
    requires Validate(cfg, req).Ok? && RoundClasses(cfg.pool) && ClassOf(cfg.pool, req.size) < MaxClass(cfg.pool)
    ensures Validate(cfg, req).value.bytes <= ClassOf(cfg.pool, req.size)
  {
    AcceptedPlan(cfg, req);
    var plan, cls, min := Validate(cfg, req).value, ClassOf(cfg.pool, req.size), MinClass(cfg.pool);
    ClassFit(min, req.size, MaxClass(cfg.pool));
    var k: nat :| cls == Pow2(k) * min;
    ModUnique(cls, min, Pow2(k), 0);
    AlignmentDivides(plan.alignment);
    MultipleOfMultiple(cls, min, MAX_ALIGNMENT);
    MultipleOfMultiple(cls, MAX_ALIGNMENT, plan.alignment);
  }

  lemma FreshSuits(cfg: Config, req: Request, b: Block)
    requires Validate(cfg, req).Ok?
    ensures
      var plan := Validate(cfg, req).value;
      Suits(cfg, Backing(b, plan.bytes, NativeAlignment(req.domain, plan.alignment)), plan.alignment, ClassOf(cfg.pool, req.size))
  {
    AcceptedPlan(cfg, req);
    var plan := Validate(cfg, req).value;
    AlignmentDivides(plan.alignment);
    ModUnique(plan.alignment, plan.alignment, 1, 0);
    if RoundClasses(cfg.pool) && ClassOf(cfg.pool, req.size) < MaxClass(cfg.pool) {
      PlanWithinClass(cfg, req);
    }
  }

  /** The slot a request gets is compatible in every dimension of the key. */
  lemma SlotMatches(st: Store, req: Request)
    requires Validate(st.cfg, req).Ok? && SlotFor(st, req, Validate(st.cfg, req).value) < |st.pool|
    ensures
      var plan := Validate(st.cfg, req).value;
      var e := st.pool[SlotFor(st, req, plan)];
      && e.key == PoolKey(req.domain, if req.domain == DEVICE then req.device else -1,
                          ClassOf(st.cfg.pool, req.size), plan.alignment, req.exportable)
      && e.backing.committed >= plan.bytes
  {
    AcceptedPlan(st.cfg, req);
  }

  lemma HitSuited(st: Store, req: Request, plan: Plan, acc: Accounts, i: nat, env: Env)
    requires Suited(st) && i < |st.pool|
    requires st.pool[i].key.alignment == plan.alignment && st.pool[i].key.sizeClass == ClassOf(st.cfg.pool, req.size)
    ensures Suited(AllocateHit(st, req, plan, acc, i, env).0)
  {
    var st' := AllocateHit(st, req, plan, acc, i, env).0;
    assert SlotSuits(st.cfg, st.pool[i]);
    forall j | 0 <= j < |st'.pool| ensures SlotSuits(st.cfg, st'.pool[j]) {
      assert SlotSuits(st.cfg, if j < i then st.pool[j] else st.pool[j + 1]);
    }
  }

  lemma FreshSuited(st: Store, req: Request, acc: Accounts, env: Env)
    requires Suited(st) && Validate(st.cfg, req).Ok?
    ensures Suited(AllocateFresh(st, req, Validate(st.cfg, req).value, acc, env).0)
  {
    FreshSuits(st.cfg, req, st.mem.next);
  }

  lemma AllocateSuited(st: Store, req: Request, env: Env)
    requires Suited(st)
    ensures Suited(Allocate(st, req, env).0)
  {
    var v := Validate(st.cfg, req);
    if v.Ok? && ReserveFor(st, req, v.value.bytes).Ok? {
      var a, i := ReserveFor(st, req, v.value.bytes).value, SlotFor(st, req, v.value);
      if i < |st.pool| {
        SlotMatches(st, req);
        HitSuited(st, req, v.value, a, i, env);
      } else {
        FreshSuited(st, req, a, env);
      }
    }
  }

  lemma FinalizeSuited(st: Store, c: nat)
    requires Suited(st) && AllShaped(st)
    ensures Suited(Finalize(st, c))
  {
    if Live(st, c) {
      assert Shaped(st.cfg, st.recs[c]) && RecordSuits(st.cfg, st.recs[c]);
    }
  }

  lemma MigrateSuited(st: Store, c: nat, target: Domain, env: Env)
    requires Suited(st) && c < |st.recs|
    ensures Suited(Migrate(st, c, target, env).0)
  {
  }

  lemma StepSuited(st: Store, op: StoreOp)
    requires Suited(st) && AllShaped(st)
    ensures Suited(Apply(st, op))
  {
    match op
    case DoAllocate(req, env) => AllocateSuited(st, req, env);
    case DoFinalize(c) => FinalizeSuited(st, c);
    case DoMigrate(c, target, env) =>
      if CanMigrate(st, c, target) {
        MigrateSuited(st, c, target, env);
      }
    case _ =>
  }

  ghost predicate PoolSound(st: Store) {
    Identified(st) && Booked(st) && Suited(st)
  }

  predicate Anything(st: Store, op: StoreOp) {
    true
  }

  /** In every run, whatever the backends answer, the pool's books are right and its slots fit. */
  lemma RunPoolSound(cfg: Config, nss: map<NamespaceId, NamespaceConfig>, ops: seq<StoreOp>)
    requires StoreRun(Anything, Init(cfg, nss), ops)
    ensures PoolSound(ApplyAll(Init(cfg, nss), ops))
  {
    forall s: Store, op: StoreOp | PoolSound(s) && Anything(s, op) ensures PoolSound(Apply(s, op)) {
      StepIdentified(s, op);
      StepBooked(s, op);
      StepSuited(s, op);
    }
    Induct(Anything, PoolSound, Init(cfg, nss), ops);
  }

  /** What a pool hit hands out: aligned as requested, at least the least multiple of the alignment that
      holds the size, and, below the largest class, less than twice the size (or the smallest class). */
  lemma PoolHitFits(st: Store, req: Request)
    requires PoolSound(st)
    requires Validate(st.cfg, req).Ok? && SlotFor(st, req, Validate(st.cfg, req).value) < |st.pool|
    ensures
      var plan := Validate(st.cfg, req).value;
      var b, cls := st.pool[SlotFor(st, req, plan)].backing, ClassOf(st.cfg.pool, req.size);
      && b.alignment % plan.alignment == 0
      && b.committed >= plan.bytes >= req.size && plan.bytes % plan.alignment == 0
      && (forall m: nat :: req.size <= m && m % plan.alignment == 0 ==> plan.bytes <= m)
      && (RoundClasses(st.cfg.pool) && cls < MaxClass(st.cfg.pool) ==>
            b.committed <= cls && (req.size > MinClass(st.cfg.pool) ==> b.committed < 2 * req.size))
  {
    AcceptedPlan(st.cfg, req);
    SlotMatches(st, req);
    assert SlotSuits(st.cfg, st.pool[SlotFor(st, req, Validate(st.cfg, req).value)]);
    ClassFit(MinClass(st.cfg.pool), req.size, MaxClass(st.cfg.pool));
  }
}
