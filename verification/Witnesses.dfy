/** Runs from an empty runtime that show where the code falls short, with one configuration, two
    namespaces and buffers of one size. */
module Witnesses {
  import opened Wrappers
  import opened CheckedMath
  import opened Words
  import opened Types
  import opened Sums
  import opened SizeClass
  import opened Accounting
  import opened NativeMemory
  import opened Storage
  import opened Records
  import opened Ownership
  import opened Outcomes
  import opened Conservation
  import opened Reservations
  import opened Contents
  import opened Provenance
  import opened DomainCap
  import opened Quotas
  import opened Protocol
  import opened Tokens

  const SIZE: Size := 4096

  const CFG: Config := Config(
    map[HOST := Backend(6144, 64), PINNED_HOST := Backend(65536, 64), DEVICE := Backend(65536, 64)], true,
    PoolConfig(true, 65536, 16, 64, 65536), map[], 1, 0)

  /** The default namespace, and one that never zeroes. */
  function Namespaces(): map<NamespaceId, NamespaceConfig> {
    map[1 := DefaultNamespace(), 2 := NamespaceConfig(map[], 0, NEVER, true)]
  }

  /** That is what a runtime with one configured namespace starts with. */
  lemma Configured()
    ensures NamespacesFrom([NamespaceConfig(map[], 0, NEVER, true)]) == Namespaces()
  {
    var c := [NamespaceConfig(map[], 0, NEVER, true)];
    assert c[..0] == [];
    assert NamespacesFrom(c) == NamespacesFrom([])[2 := c[0]];
  }

  function Index(d: Domain): int {
    if d == DEVICE then 0 else -1
  }

  function Ask(ns: NamespaceId, d: Domain): Request {
    Request(ns, d, Index(d), SIZE, 64, Types.READ_WRITE, true, false, None)
  }

  const ENV: Env := Env(true, true, true, true, [])

  lemma AskPlan(ns: NamespaceId, d: Domain)
    requires d in CFG.domains
    ensures Validate(CFG, Ask(ns, d)) == Ok(Plan(64, SIZE))
  {
    Pow2Test(64);
    assert IsPow2(64) by {
      assert Pow2(6) == 64;
    }
    AlignUpIsLeastMultiple(SIZE, 64);
  }

  const FIRST: Backing := Backing(0, SIZE, 64)

  function RecordFor(ns: NamespaceId, lo: nat, d: Domain): Record {
    Record(BufferId(1, lo), 1, ns, d, Index(d), SIZE, 64, true, false, Types.READ_WRITE, true, RUNTIME, FIRST, 0, false)
  }

  /** What the run relies on, before and after the release. */
  ghost predicate Common(st: Store, d: Domain) {
    && st.cfg == CFG && st.nss == Namespaces() && st.nextId == 2 && st.mem.next == 1
    && st.acc.Committed(Charge(1, d)) == SIZE && st.acc.Committed(Charge(2, d)) == 0
    && st.acc.Reserved(Charge(2, d)) == 0 && Get(st.acc.counts, 2) == 0
  }

  /** Namespace 1 has allocated one buffer on d. */
  ghost predicate Started(st: Store, d: Domain) {
    && Common(st, d) && st.recs == [RecordFor(1, 1, d)] && st.pool == [] && st.poolCount == 0 && st.poolIdle == 0
    && st.mem.heap == map[0 := Filled(SIZE, [], Fresh)]
    && st.acc.reserved == map[Charge(1, d) := 0] && st.acc.committed == map[Charge(1, d) := SIZE]
  }

  lemma FreshOf(st: Store, acc: Accounts, d: Domain)
    requires st == Init(CFG, Namespaces()) && d in CFG.domains
    requires acc.reserved == map[Charge(1, d) := SIZE] && acc.committed == map[] && Get(acc.counts, 2) == 0
    ensures Started(AllocateFresh(st, Ask(1, d), Plan(64, SIZE), acc, ENV).0, d)
  {
    NoWrap(SIZE);
    assert ClassOf(CFG.pool, SIZE) == SIZE;
    assert NewRecord(st, Ask(1, d), Plan(64, SIZE), FIRST) == RecordFor(1, 1, d);
  }

  lemma AllocationOf(st: Store, d: Domain)
    requires st == Init(CFG, Namespaces()) && d in CFG.domains
    ensures Started(Allocate(st, Ask(1, d), ENV).0, d)
  {
    AskPlan(1, d);
    NoWrap(SIZE);
    var acc := ReserveFor(st, Ask(1, d), SIZE).value;
    assert acc.reserved == map[Charge(1, d) := SIZE];
    FreshOf(st, acc, d);
  }

  function Slot(ns: NamespaceId, d: Domain): PoolEntry {
    PoolEntry(PoolKey(d, Index(d), SIZE, 64, false), FIRST, ns)
  }

  ghost predicate Tainted(m: Memory) {
    0 in m.heap && |m.heap[0]| == SIZE && m.heap[0][0] == Cell(7, Wrote(1))
  }

  lemma ReleaseOf(st: Store, d: Domain)
    requires Common(st, d) && st.recs == [RecordFor(1, 1, d)] && st.pool == [] && st.poolCount == 0 && st.poolIdle == 0
    ensures
      var st' := Finalize(st, 0);
      && Common(st', d) && st'.recs == [Dead(RecordFor(1, 1, d))] && st'.mem == st.mem
      && st'.pool == [Slot(1, d)] && st'.poolCount == 1 && st'.poolIdle == SIZE
  {
    assert ClassOf(CFG.pool, SIZE) == SIZE;
    assert KeyOf(CFG, RecordFor(1, 1, d)) == Slot(1, d).key;
  }

  lemma WriteOf(st: Store)
    requires Common(st, HOST) && st.recs == [RecordFor(1, 1, HOST)] && st.mem.heap == map[0 := Filled(SIZE, [], Fresh)]
    ensures
      var st' := Apply(st, DoWrite(0, [7]));
      Common(st', HOST) && Tainted(st'.mem) && st' == st.(mem := st'.mem)
  {
    assert Written([7], 1)[0] == Cell(7, Wrote(1));
  }

  lemma ReuseOf(st: Store)
    requires Common(st, HOST) && st.recs == [Dead(RecordFor(1, 1, HOST))]
    requires st.pool == [Slot(1, HOST)] && st.poolCount == 1 && st.poolIdle == SIZE
    ensures
      var (st', o) := Allocate(st, Ask(2, HOST), ENV);
      && o.Ok? && st'.recs == [Dead(RecordFor(1, 1, HOST)), RecordFor(2, 2, HOST)] && st'.pool == [] && st'.mem == st.mem
      && st'.acc.Committed(Charge(1, HOST)) == SIZE && st'.acc.Reserved(Charge(2, HOST)) == SIZE
      && st'.acc.Committed(Charge(2, HOST)) == 0
      && st'.cfg == CFG && st'.nss == Namespaces() && st'.poolCount == 0 && st'.poolIdle == 0
  {
    AskPlan(2, HOST);
    assert ClassOf(CFG.pool, SIZE) == SIZE;
    assert KeyOf(CFG, NewRecord(st, Ask(2, HOST), Plan(64, SIZE), Backing(0, 0, 0))) == Slot(1, HOST).key;
    assert SlotFor(st, Ask(2, HOST), Plan(64, SIZE)) == 0;
    assert NewRecord(TakeSlot(st, 0), Ask(2, HOST), Plan(64, SIZE), FIRST) == RecordFor(2, 2, HOST);
  }

  /** Namespace 1 has allocated; it writes a byte and releases. */
  lemma WriteAndRelease(a: Store, b: Store, c: Store)
    requires Common(a, HOST) && a.recs == [RecordFor(1, 1, HOST)] && a.pool == [] && a.poolCount == 0 && a.poolIdle == 0
    requires a.mem.heap == map[0 := Filled(SIZE, [], Fresh)]
    requires b == Apply(a, DoWrite(0, [7])) && c == Finalize(b, 0)
    ensures Common(c, HOST) && c.recs == [Dead(RecordFor(1, 1, HOST))] && Tainted(c.mem)
    ensures c.pool == [Slot(1, HOST)] && c.poolCount == 1 && c.poolIdle == SIZE
  {
    WriteOf(a);
    ReleaseOf(b, HOST);
  }

  /** Namespace 2 holds the block that namespace 1 had. */
  ghost predicate Shared(d: Store) {
    && d.cfg == CFG && d.nss == Namespaces() && d.pool == [] && d.poolCount == 0 && d.poolIdle == 0
    && d.recs == [Dead(RecordFor(1, 1, HOST)), RecordFor(2, 2, HOST)]
    && d.acc.Reserved(Charge(2, HOST)) == SIZE && d.acc.Committed(Charge(2, HOST)) == 0
  }

  lemma Leaked(d: Store)
    requires Shared(d) && Tainted(d.mem)
    ensures Cells(d, 1) != [] && Cells(d, 1)[0] == Cell(7, Wrote(1)) && !Private(d)
  {
    assert !Own(d, 1);
  }

  /** Namespace 2 allocates the same size: it reads what namespace 1 wrote, namespace 1 is still charged for
      memory it no longer has, and the reservation made for namespace 2 stays. */
  lemma ReuseLeaks(p: Request, q: Request, env: Env, a: Store, b: Store, c: Store, d: Store)
    requires p == Ask(1, HOST) && q == Ask(2, HOST) && env == ENV
    requires a == Allocate(Init(CFG, Namespaces()), p, env).0 && b == Apply(a, DoWrite(0, [7])) && c == Finalize(b, 0)
    requires d == Allocate(c, q, env).0
    ensures Shared(d) && Cells(d, 1) != [] && Cells(d, 1)[0] == Cell(7, Wrote(1)) && !Private(d)
    ensures d.acc.Committed(Charge(1, HOST)) == SIZE
  {
    AllocationOf(Init(CFG, Namespaces()), HOST);
    WriteAndRelease(a, b, c);
    ReuseOf(c);
    Leaked(d);
  }

  lemma SecondRelease(d: Store)
    requires Shared(d)
    ensures
      var e := Finalize(d, 1);
      && e.cfg == CFG && e.nss == Namespaces() && e.recs == [Dead(RecordFor(1, 1, HOST)), Dead(RecordFor(2, 2, HOST))]
      && e.pool == [Slot(2, HOST)]
      && e.acc.Reserved(Charge(2, HOST)) == SIZE && e.acc.Committed(Charge(2, HOST)) == 0
  {
    assert ClassOf(CFG.pool, SIZE) == SIZE;
    assert KeyOf(CFG, RecordFor(2, 2, HOST)) == Slot(1, HOST).key;
  }

  lemma Refused(e: Store, q: Request, env: Env)
    requires q == Ask(2, HOST) && e.cfg == CFG && e.nss == Namespaces()
    requires e.acc.Reserved(Charge(2, HOST)) == SIZE && e.acc.Committed(Charge(2, HOST)) == 0
    ensures Allocate(e, q, env).1 == Err(OutOfCapacity)
  {
    AskPlan(2, HOST);
    assert ReserveCount(e.acc, 2, e.nss).Ok?;
    NoRoom(ReserveCount(e.acc, 2, e.nss).value, e.cfg, e.nss);
  }

  lemma NoRoom(a: Accounts, cfg: Config, nss: map<NamespaceId, NamespaceConfig>)
    requires cfg == CFG && nss == Namespaces() && a.Reserved(Charge(2, HOST)) == SIZE && a.Committed(Charge(2, HOST)) == 0
    ensures ReserveAmount(a, Charge(2, HOST), CeilingOf(cfg, nss, Charge(2, HOST)), SIZE) == Err(OutOfCapacity)
  {
    NoWrap(2 * SIZE);
  }

  /** And when namespace 2 releases it too, nothing is in use and a fitting slot is idle, yet a further
      request of the same size is refused for lack of capacity: the reservation of the hit still counts. */
  lemma ReuseStarves(q: Request, env: Env, d: Store, e: Store)
    requires q == Ask(2, HOST) && Shared(d) && e == Finalize(d, 1)
    ensures forall i :: 0 <= i < |e.recs| ==> e.recs[i].finalized
    ensures SlotFor(e, q, Plan(64, SIZE)) < |e.pool| && Allocate(e, q, env).1 == Err(OutOfCapacity)
  {
    SecondRelease(d);
    Refused(e, q, env);
    assert ClassOf(CFG.pool, SIZE) == SIZE;
    assert KeyOf(CFG, NewRecord(e, q, Plan(64, SIZE), Backing(0, 0, 0))) == Slot(1, HOST).key;
  }

  /** Nor does a trim settle the books: with every block freed, namespace 1 is still charged. */
  lemma PhantomCharge(d: Store, e: Store)
    requires Shared(d) && d.acc.Committed(Charge(1, HOST)) == SIZE && e == Finalize(d, 1)
    ensures Trim(e).acc.Committed(Charge(1, HOST)) == SIZE && Native(Trim(e), Charge(1, HOST)) == 0
    ensures Reported(Trim(e), HOST) > NativeOn(Trim(e), HOST)
  {
    SecondRelease(d);
    KeepsFirst(d);
    SumZero(e.pool, SlotBytesFor(Charge(1, HOST)));
    SumZero(Trim(e).recs, LiveBytes(Charge(1, HOST)));
    SumZero(Trim(e).recs, LiveOn(HOST));
    EntryReported(Trim(e).acc.committed, Charge(1, HOST));
  }

  lemma EntryReported(m: map<Charge, nat>, k: Charge)
    requires k in m
    ensures MapSum(m, OnDomain(k.domain)) >= m[k]
  {
    MapSumPick(m, k, OnDomain(k.domain));
    MapSumNonNegative(m - {k}, k.domain);
  }

  lemma KeepsFirst(d: Store)
    requires Shared(d)
    ensures Finalize(d, 1).acc.Committed(Charge(1, HOST)) == d.acc.Committed(Charge(1, HOST))
  {
  }

  // ------------------------------------------------------------------ capacity

  lemma SecondAsk(a: Store, q: Request, env: Env)
    requires q == Ask(2, HOST) && env == ENV && Common(a, HOST) && a.pool == []
    ensures NoWrapAt(a, DoAllocate(q, env)) && Growth(a, DoAllocate(q, env), HOST) == SIZE
  {
    AskPlan(2, HOST);
    NoWrap(SIZE);
  }

  /** Two namespaces fill a domain beyond its capacity: each asks for what fits, together they have 8192 of
      6144 bytes. */
  lemma CapFilledTwice(p: Request, q: Request, env: Env, a: Store, b: Store)
    requires p == Ask(1, HOST) && q == Ask(2, HOST) && env == ENV
    requires a == Allocate(Init(CFG, Namespaces()), p, env).0 && b == Allocate(a, q, env).0
    ensures DomainCharge(a.acc, HOST) == SIZE && DomainCharge(b.acc, HOST) == 2 * SIZE && Capacity(b.cfg, HOST) == 6144
  {
    AllocationOf(Init(CFG, Namespaces()), HOST);
    AskedTwice(a, q, env, b);
  }

  lemma AskedTwice(a: Store, q: Request, env: Env, b: Store)
    requires q == Ask(2, HOST) && env == ENV && b == Allocate(a, q, env).0 && Common(a, HOST) && a.pool == []
    requires a.acc.reserved == map[Charge(1, HOST) := 0] && a.acc.committed == map[Charge(1, HOST) := SIZE]
    ensures DomainCharge(a.acc, HOST) == SIZE && DomainCharge(b.acc, HOST) == 2 * SIZE && Capacity(b.cfg, HOST) == 6144
  {
    AloneOnHost(a.acc);
    SecondAsk(a, q, env);
    AllocateCharge(a, q, env, HOST);
    AllocateAdds(a, q, env);
  }

  lemma AloneOnHost(a: Accounts)
    requires a.reserved == map[Charge(1, HOST) := 0] && a.committed == map[Charge(1, HOST) := SIZE]
    ensures DomainCharge(a, HOST) == SIZE
  {
    assert Sole(a, 1, HOST);
    SoleCharge(a, 1, HOST);
  }

  // ------------------------------------------------------------------ wrapped memory

  function Lent(ownership: Types.Ownership): ExternalMemory {
    ExternalMemory(false, SIZE, 64, HOST, -1, ownership)
  }

  lemma WrapOf(st: Store, x: ExternalMemory)
    requires x == Lent(BORROWED) && st == Init(CFG, Namespaces())
    ensures
      var st' := Wrap(st, x, []).0;
      && st'.cfg == CFG && st'.nss == Namespaces() && |st'.recs| == 1 && Live(st', 0)
      && st'.recs[0].ownership == BORROWED && st'.recs[0].domain == HOST && st'.recs[0].ns == 1
      && st'.recs[0].backing == Backing(0, SIZE, 64) && 0 in st'.mem.lent
      && st'.acc.reserved == map[] && st'.acc.committed == map[]
  {
  }

  /** Memory lent to the runtime is wrapped, migrated, and thereby freed under its lender. */
  lemma LentMemoryFreed(x: ExternalMemory, env: Env, a: Store, b: Store)
    requires x == Lent(BORROWED) && env == ENV
    requires a == Wrap(Init(CFG, Namespaces()), x, []).0 && b == Apply(a, DoMigrate(0, PINNED_HOST, env))
    ensures FreesLent(a, DoMigrate(0, PINNED_HOST, env)) && 0 in a.mem.lent
    ensures Get(b.mem.freed, 0) == Get(a.mem.freed, 0) + 1
  {
    WrapOf(Init(CFG, Namespaces()), x);
    NoWrap(SIZE);
    MigrateExactly(a, 0, PINNED_HOST, env);
    MigrateFrees(a, 0, PINNED_HOST, env, 0);
  }

  /** Adopted memory is wrapped beside an allocated buffer and released: the buffer's charge is gone while
      it still has its bytes. */
  lemma AdoptedUncharges(p: Request, env: Env, x: ExternalMemory, a: Store, b: Store, c: Store)
    requires p == Ask(1, HOST) && env == ENV && x == Lent(ADOPTED)
    requires a == Allocate(Init(CFG, Namespaces()), p, env).0 && b == Wrap(a, x, []).0 && c == Finalize(b, 1)
    ensures c.acc.Committed(Charge(1, HOST)) == 0 && |c.recs| == 2 && c.recs[0] == RecordFor(1, 1, HOST) && !Exact(c)
  {
    AllocationOf(Init(CFG, Namespaces()), HOST);
    WrapBeside(a, x);
    SumMember(c.recs, 0, LiveBytes(Charge(1, HOST)));
    SumNonNegative(c.pool, SlotBytesFor(Charge(1, HOST)));
    assert Native(c, Charge(1, HOST)) >= SIZE;
  }

  lemma WrapBeside(a: Store, x: ExternalMemory)
    requires x == Lent(ADOPTED) && Common(a, HOST) && a.recs == [RecordFor(1, 1, HOST)]
    ensures
      var c := Finalize(Wrap(a, x, []).0, 1);
      c.acc.Committed(Charge(1, HOST)) == 0 && |c.recs| == 2 && c.recs[0] == RecordFor(1, 1, HOST)
  {
  }

  // ------------------------------------------------------------------ failing backends

  /** Zeroing of a fresh device block fails: the block is freed but its bytes stay charged. */
  lemma FailedZeroCharges(p: Request, env: Env, st: Store)
    requires p == Ask(1, DEVICE).(zeroing := Some(ALWAYS)) && env == ENV.(zeroOk := false) && st == Init(CFG, Namespaces())
    ensures Allocate(st, p, env).1.Err? && !SameBalance(Allocate(st, p, env).0.acc, st.acc)
  {
    FreshZeroFails(p, env, st);
    AllocateOk(st, p, env);
    AllocateShift(st, p, env);
  }

  lemma FreshZeroFails(p: Request, env: Env, st: Store)
    requires p == Ask(1, DEVICE).(zeroing := Some(ALWAYS)) && env == ENV.(zeroOk := false) && st == Init(CFG, Namespaces())
    ensures ZeroFails(st, p, env)
  {
    AlwaysPlan(p);
    FirstReserves(p, st);
    assert WantZero(Policy(st.nss, p), None, p.ns) && st.pool == [];
  }

  lemma FirstReserves(p: Request, st: Store)
    requires p == Ask(1, DEVICE).(zeroing := Some(ALWAYS)) && st == Init(CFG, Namespaces())
    ensures ReserveFor(st, p, SIZE).Ok?
  {
    NoWrap(SIZE);
    var a := ReserveCount(st.acc, 1, st.nss).value;
    assert a.Charged(Charge(1, DEVICE)) == 0;
  }

  lemma AlwaysPlan(p: Request)
    requires p == Ask(1, DEVICE).(zeroing := Some(ALWAYS)) || p == Ask(2, DEVICE).(zeroing := Some(ALWAYS))
    ensures Validate(CFG, p) == Ok(Plan(64, SIZE))
  {
    AskPlan(1, DEVICE);
    AskPlan(2, DEVICE);
  }

  /** Zeroing of a device slot of the pool fails: its block is lost, neither held, idle nor freed. */
  lemma FailedZeroLoses(p: Request, q: Request, env: Env, bad: Env, a: Store, b: Store)
    requires p == Ask(1, DEVICE) && q == Ask(2, DEVICE).(zeroing := Some(ALWAYS)) && env == ENV && bad == ENV.(zeroOk := false)
    requires a == Allocate(Init(CFG, Namespaces()), p, env).0 && b == Finalize(a, 0)
    ensures LosesBlock(b, DoAllocate(q, bad)) && Owned(b) && !Owned(Apply(b, DoAllocate(q, bad)))
  {
    AllocationOf(Init(CFG, Namespaces()), DEVICE);
    ReleaseOf(a, DEVICE);
    SoundSetting(p, env, a, b);
    WouldLose(b, q, bad);
    StepOwned(b, DoAllocate(q, bad));
  }

  lemma SoundSetting(p: Request, env: Env, a: Store, b: Store)
    requires env.zeroOk && a == Allocate(Init(CFG, Namespaces()), p, env).0 && b == Finalize(a, 0)
    ensures Sound(b)
  {
    var st := Init(CFG, Namespaces());
    InitSound(CFG, Namespaces());
    assert a == Apply(st, DoAllocate(p, env)) && b == Apply(a, DoFinalize(0));
    StepSound(st, DoAllocate(p, env));
    StepSound(a, DoFinalize(0));
  }

  lemma WouldLose(c: Store, q: Request, bad: Env)
    requires q == Ask(2, DEVICE).(zeroing := Some(ALWAYS)) && bad == ENV.(zeroOk := false)
    requires Common(c, DEVICE) && c.recs == [Dead(RecordFor(1, 1, DEVICE))] && c.pool == [Slot(1, DEVICE)]
    ensures LosesBlock(c, DoAllocate(q, bad))
  {
    AlwaysPlan(q);
    NoWrap(SIZE);
    assert ClassOf(CFG.pool, SIZE) == SIZE;
    assert KeyOf(CFG, NewRecord(c, q, Plan(64, SIZE), Backing(0, 0, 0))) == Slot(1, DEVICE).key;
    assert SlotFor(c, q, Plan(64, SIZE)) == 0;
    assert ReserveFor(c, q, SIZE).Ok?;
  }

  /** Verification of a copy on a device fails: the copy is freed but its bytes stay charged. */
  lemma FailedVerifyCharges(p: Request, env: Env, bad: Env, a: Store)
    requires p == Ask(1, HOST) && env == ENV && bad == ENV.(verifyOk := false) && a == Allocate(Init(CFG, Namespaces()), p, env).0
    ensures
      && CanMigrate(a, 0, DEVICE) && Migrate(a, 0, DEVICE, bad).1.Err?
      && !SameBalance(Migrate(a, 0, DEVICE, bad).0.acc, a.acc)
  {
    AllocationOf(Init(CFG, Namespaces()), HOST);
    DeviceFails(a, bad);
    MigrateExactly(a, 0, DEVICE, bad);
    MigrateShift(a, 0, DEVICE, bad);
  }

  lemma DeviceFails(a: Store, bad: Env)
    requires bad == ENV.(verifyOk := false) && Common(a, HOST) && a.recs == [RecordFor(1, 1, HOST)]
    requires a.acc.reserved == map[Charge(1, HOST) := 0] && a.acc.committed == map[Charge(1, HOST) := SIZE]
    ensures VerifyFails(a, 0, DEVICE, bad) && !MigrationPasses(a, 0, DEVICE, bad)
  {
    NoWrap(SIZE);
  }

  // ------------------------------------------------------------------ a full account

  const HUGE: Config := Config(
    map[HOST := Backend(0, 64), PINNED_HOST := Backend(U64 - 1, 64)], true, PoolConfig(true, 65536, 16, 64, 65536), map[], 1, 0)

  /** Nothing bounds the size a caller gives for memory it lends. */
  lemma FullAccount(x: ExternalMemory, env: Env, a: Store, b: Store, k: Charge)
    requires x == ExternalMemory(false, U64 - 1, 64, HOST, -1, ADOPTED) && env == ENV && k == Charge(1, PINNED_HOST)
    requires a == Wrap(Init(HUGE, Namespaces()), x, []).0 && b == Apply(a, DoMigrate(0, PINNED_HOST, env))
    ensures
      var c := CeilingOf(b.cfg, b.nss, k);
      && c == Ceiling(U64 - 1, 0) && Under(b.acc.Charged(k), c)
      && ReserveAmount(b.acc, k, c, 1).Ok? && !Under(ReserveAmount(b.acc, k, c, 1).value.Charged(k), c)
  {
    WrapHuge(Init(HUGE, Namespaces()), x, a);
    HugePasses(a, env, k);
    MigrateShifts(a, 0, PINNED_HOST, env);
    StepChanges(a, DoMigrate(0, PINNED_HOST, env));
    ReserveWraps(b.acc, k);
  }

  lemma WrapHuge(st: Store, x: ExternalMemory, a: Store)
    requires x == ExternalMemory(false, U64 - 1, 64, HOST, -1, ADOPTED) && st == Init(HUGE, Namespaces())
    requires a == Wrap(st, x, []).0
    ensures
      && a.cfg == HUGE && a.nss == Namespaces() && |a.recs| == 1 && CanMigrate(a, 0, PINNED_HOST)
      && a.recs[0].ns == 1 && a.recs[0].backing.committed == U64 - 1
      && a.acc.reserved == map[] && a.acc.committed == map[]
  {
  }

  lemma HugePasses(a: Store, env: Env, k: Charge)
    requires env == ENV && a.cfg == HUGE && a.nss == Namespaces() && |a.recs| == 1 && k == Charge(1, PINNED_HOST)
    requires a.recs[0].ns == 1 && a.recs[0].backing.committed == U64 - 1
    requires a.acc.reserved == map[] && a.acc.committed == map[]
    ensures CeilingOf(HUGE, Namespaces(), k) == Ceiling(U64 - 1, 0)
    ensures MigrationPasses(a, 0, PINNED_HOST, env)
  {
    NoWrap(U64 - 1);
  }

  // ------------------------------------------------------------------ a pointer left behind

  /** A buffer is mapped and then migrated: the map is still held, and points at a block that is gone. */
  lemma MapLeftBehind(p: Request, target: Domain, env: Env, s1: State, s2: State, s3: State)
    requires p == Ask(1, HOST) && target == PINNED_HOST && env == ENV
    requires s1 == AllocateBuffer(InitState(CFG, Namespaces()), p, env).0
    requires s2 == OpenMap(s1, 0, READ).0 && s3 == MigrateBuffer(s2, 0, target, env).0
    ensures LeftBehind(s3)
  {
    AllocationOf(Init(CFG, Namespaces()), HOST);
    FirstHandle(p, env, s1);
    FirstMap(s1, s2);
    MappedMigrates(s2, target, env, s3);
  }

  lemma FirstHandle(p: Request, env: Env, s: State)
    requires p == Ask(1, HOST) && env == ENV && s == AllocateBuffer(InitState(CFG, Namespaces()), p, env).0
    ensures s.store == Allocate(Init(CFG, Namespaces()), p, env).0
    ensures s.ctls == [FirstHeld()] && s.tokens == [Token(HandleToken, 0, 1, true)]
  {
    AllocationOf(Init(CFG, Namespaces()), HOST);
    AllocateAdds(Init(CFG, Namespaces()), p, env);
    assert Allocate(Init(CFG, Namespaces()), p, env).1.Ok?;
  }

  lemma MappedMigrates(s: State, target: Domain, env: Env, s': State)
    requires target == PINNED_HOST && env == ENV && s.ctls == [Control(2, 0, 0, 0, 1, MAPPED)]
    requires s.tokens == [Token(HandleToken, 0, 1, true), Token(MapToken(Some(0)), 0, 1, true)]
    requires Common(s.store, HOST) && s.store.recs == [RecordFor(1, 1, HOST)]
    requires s.store.acc.reserved == map[Charge(1, HOST) := 0] && s.store.acc.committed == map[Charge(1, HOST) := SIZE]
    requires s' == MigrateBuffer(s, 0, target, env).0
    ensures LeftBehind(s')
  {
    assert Alive(s, 0) == Ok(0);
    GuardsPassed(s, 0, 0, target, env);
    LeaveMap(s, target, env, s');
  }

  lemma FirstMap(s1: State, s2: State)
    requires Common(s1.store, HOST) && s1.store.recs == [RecordFor(1, 1, HOST)]
    requires s1.ctls == [FirstHeld()] && s1.tokens == [Token(HandleToken, 0, 1, true)] && s2 == OpenMap(s1, 0, READ).0
    ensures s2.store == s1.store && s2.ctls == [Control(2, 0, 0, 0, 1, MAPPED)]
    ensures s2.tokens == [Token(HandleToken, 0, 1, true), Token(MapToken(Some(0)), 0, 1, true)]
  {
  }

  /** Object 1 is a map of a block that no longer exists. */
  ghost predicate LeftBehind(s: State) {
    && |s.tokens| == 3 && s.tokens[1] == Token(MapToken(Some(0)), 0, 1, true)
    && 0 !in s.store.mem.heap && |s.store.recs| == 1 && s.store.recs[0].generation == 2
  }

  lemma LeaveMap(s: State, target: Domain, env: Env, s': State)
    requires target == PINNED_HOST && env == ENV && s.ctls == [Control(2, 0, 0, 0, 1, MAPPED)]
    requires s.tokens == [Token(HandleToken, 0, 1, true), Token(MapToken(Some(0)), 0, 1, true)]
    requires Common(s.store, HOST) && s.store.recs == [RecordFor(1, 1, HOST)]
    requires s.store.acc.reserved == map[Charge(1, HOST) := 0] && s.store.acc.committed == map[Charge(1, HOST) := SIZE]
    requires s' == Arrived(s, 0, Migrate(s.store, 0, target, env)).0
    ensures LeftBehind(s')
  {
    MovedAway(s.store, target, env);
    MapStays(s, Migrate(s.store, 0, target, env));
  }

  lemma MovedAway(st: Store, target: Domain, env: Env)
    requires target == PINNED_HOST && env == ENV && Common(st, HOST) && st.recs == [RecordFor(1, 1, HOST)]
    requires st.acc.reserved == map[Charge(1, HOST) := 0] && st.acc.committed == map[Charge(1, HOST) := SIZE]
    ensures
      var r := Migrate(st, 0, target, env);
      r.1.Ok? && Migrates(st, 0, r) && 0 !in r.0.mem.heap
  {
    PinnedPasses(st, env);
    MigrateExactly(st, 0, target, env);
    MigrateTakes(st, 0, target, env);
    MigrateTracks(st, 0, target, env);
  }

  lemma GuardsPassed(s: State, h: nat, c: nat, target: Domain, env: Env)
    requires Alive(s, h) == Ok(c) && HasControl(s, c) && s.store.recs[c].domain != target
    requires s.ctls[c].writeLeases == 0 && s.ctls[c].exclusiveLeases == 0
    ensures MigrateBuffer(s, h, target, env) == Arrived(s, c, Migrate(s.store, c, target, env))
  {
  }

  lemma PinnedPasses(st: Store, env: Env)
    requires env == ENV && Common(st, HOST) && st.recs == [RecordFor(1, 1, HOST)]
    requires st.acc.reserved == map[Charge(1, HOST) := 0] && st.acc.committed == map[Charge(1, HOST) := SIZE]
    ensures MigrationPasses(st, 0, PINNED_HOST, env)
  {
    NoWrap(SIZE);
  }

  lemma MapStays(s: State, r: (Store, Result<()>))
    requires s.store.recs == [RecordFor(1, 1, HOST)] && s.ctls == [Control(2, 0, 0, 0, 1, MAPPED)]
    requires s.tokens == [Token(HandleToken, 0, 1, true), Token(MapToken(Some(0)), 0, 1, true)]
    requires r.1.Ok? && Migrates(s.store, 0, r) && 0 !in r.0.mem.heap
    ensures LeftBehind(Arrived(s, 0, r).0)
  {
  }
}
