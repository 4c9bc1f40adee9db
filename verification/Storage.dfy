/** The storage half of the runtime (src/runtime.cpp): records with their backing, the reuse pool,
    the accounts and the native memory, with one function for every operation that touches them.
    Protocol state (references, leases, maps, lifecycle) is in module Protocol. */
module Storage {
  import opened Wrappers
  import opened Types
  import opened Sums
  import opened SizeClass
  import opened Accounting
  import opened NativeMemory
  import opened Crc32c

  /** A NativeAllocation. Record::committed always equals backing.committed, so it is kept once. */
  datatype Backing = Backing(block: Block, committed: nat, alignment: nat)

  /** The metadata record of one buffer; finalized is the control block's flag. Once it is set the
      backing is no longer the record's, whatever the field still holds. */
  datatype Record = Record(
    id: BufferId, generation: nat, ns: NamespaceId, domain: Domain, device: int,
    size: nat, alignment: nat, poolable: bool, exportable: bool, access: AccessMode,
    eligible: bool, ownership: Ownership, backing: Backing, metaCrc: nat, finalized: bool)

  /** Compatibility dimensions; the backend is determined by the domain. */
  datatype PoolKey = PoolKey(domain: Domain, device: int, sizeClass: nat, alignment: nat, exportable: bool)

  datatype PoolEntry = PoolEntry(key: PoolKey, backing: Backing, lastOwner: NamespaceId)

  /** The deques of all keys, merged in the order the slots were put. */
  type Pool = seq<PoolEntry>

  datatype Store = Store(
    cfg: Config,
    nss: map<NamespaceId, NamespaceConfig>,
    nextId: nat,
    recs: seq<Record>,
    registry: map<BufferId, nat>,
    pool: Pool,
    poolCount: nat,
    poolIdle: nat,
    acc: Accounts,
    mem: Memory,
    allocations: nat,
    frees: nat)

  function Init(cfg: Config, nss: map<NamespaceId, NamespaceConfig>): Store {
    Store(cfg, nss, 1, [], map[], [], 0, 0, Accounts(map[], map[], map[]),
          Memory(map[], map[], {}, map[], 0), 0, 0)
  }

  /** How the backend answers during one call. Copy can only fail on a device. */
  datatype Env = Env(allocateOk: bool, zeroOk: bool, copyOk: bool, verifyOk: bool, fill: seq<Byte>)

  // ------------------------------------------------------------------ pool

  predicate PoolOn(cfg: Config) {
    cfg.enablePool && cfg.pool.enabled
  }

  function KeyOf(cfg: Config, r: Record): PoolKey {
    PoolKey(r.domain, r.device, ClassOf(cfg.pool, r.size), if r.alignment != 0 then r.alignment else 1, r.exportable)
  }

  predicate Fits(e: PoolEntry, key: PoolKey, bytes: nat) {
    e.key == key && e.backing.committed >= bytes
  }

  /** pool_take: the first slot of the key's deque that is large enough. */
  function FindSlot(pool: Pool, key: PoolKey, bytes: nat): (i: nat)
    ensures i <= |pool|
    ensures i < |pool| ==> Fits(pool[i], key, bytes)
    ensures forall j :: 0 <= j < i ==> !Fits(pool[j], key, bytes)
  {
    if pool == [] then 0
    else if Fits(pool[0], key, bytes) then 0
    else 1 + FindSlot(pool[1..], key, bytes)
  }

  // ------------------------------------------------------------------ allocation

  /** HostDomain::allocate raises small alignments to the pointer size. */
  function NativeAlignment(d: Domain, alignment: nat): nat {
    if d == HOST && alignment < 8 then 8 else alignment
  }

  function Policy(nss: map<NamespaceId, NamespaceConfig>, req: Request): ZeroingPolicy {
    if req.zeroing.Some? then req.zeroing.value
    else if req.ns in nss then nss[req.ns].zeroing
    else ON_CROSS_OWNER_REUSE
  }

  predicate WantZero(p: ZeroingPolicy, lastOwner: Option<NamespaceId>, ns: NamespaceId) {
    match p
    case NEVER => false
    case ON_ALLOCATE => true
    case ON_RELEASE => false
    case ON_CROSS_OWNER_REUSE => lastOwner.Some? && lastOwner.value != ns
    case ALWAYS => true
  }

  function NewRecord(st: Store, req: Request, plan: Plan, backing: Backing): Record {
    Record(
      BufferId(st.cfg.idHi, st.nextId), 1, req.ns, req.domain, if req.domain == DEVICE then req.device else -1,
      req.size, plan.alignment, req.poolable, req.exportable, req.access,
      PoolOn(st.cfg) && req.size >= st.cfg.pool.minClassSize && ClassOf(st.cfg.pool, req.size) <= st.cfg.pool.maxClassSize,
      RUNTIME, backing, 0, false)
  }

  /** register_control. */
  function Register(st: Store, r: Record): Store {
    st.(recs := st.recs + [r], registry := st.registry[r.id := |st.recs|], nextId := st.nextId + 1,
        allocations := st.allocations + 1)
  }

  /** reserve_count then reserve_amount; the count is given back when the amount is refused. */
  function ReserveFor(st: Store, req: Request, bytes: nat): Result<Accounts> {
    match ReserveCount(st.acc, req.ns, st.nss)
    case Err(e) => Err(e)
    case Ok(a) =>
      var k := Charge(req.ns, req.domain);
      ReserveAmount(a, k, CeilingOf(st.cfg, st.nss, k), bytes)
  }

  /** The accounts after a refused reservation: what reserve_count did is undone. */
  function RefusedAccounts(st: Store, req: Request): Accounts {
    match ReserveCount(st.acc, req.ns, st.nss)
    case Err(_) => st.acc
    case Ok(a) => ReleaseCount(a, req.ns)
  }

  /** The store once slot i left the pool and its block (zeroed if asked) backs a new record. */
  function TakeSlot(st: Store, i: nat): Store
    requires i < |st.pool|
  {
    st.(pool := RemoveAt(st.pool, i), poolCount := Minus(st.poolCount, 1),
        poolIdle := Minus(st.poolIdle, st.pool[i].backing.committed))
  }

  function AllocateHit(st: Store, req: Request, plan: Plan, acc: Accounts, i: nat, env: Env): (Store, Result<nat>)
    requires i < |st.pool|
  {
    var e := st.pool[i];
    var st1 := TakeSlot(st, i).(acc := acc);
    if !WantZero(Policy(st.nss, req), Some(e.lastOwner), req.ns) then
      (Register(st1, NewRecord(st1, req, plan, e.backing)), Ok(|st.recs|))
    else if env.zeroOk then
      (Register(st1.(mem := ZeroBlock(st1.mem, e.backing.block)), NewRecord(st1, req, plan, e.backing)), Ok(|st.recs|))
    else
      // The slot's block is dropped without being freed, and its bytes are uncharged.
      (st1.(acc := FreeAccounting(acc, Charge(req.ns, req.domain), e.backing.committed), nextId := st.nextId + 1),
       Err(BackendFailure))
  }

  function AllocateFresh(st: Store, req: Request, plan: Plan, acc: Accounts, env: Env): (Store, Result<nat>) {
    var k := Charge(req.ns, req.domain);
    var undone := ReleaseCount(UnreserveAmount(acc, k, plan.bytes), req.ns);
    var st1 := st.(nextId := st.nextId + 1);
    if !env.allocateOk then (st1.(acc := undone), Err(OutOfCapacity))
    else
      var b := st.mem.next;
      var mem := Obtain(st.mem, Filled(plan.bytes, env.fill, Fresh));
      var backing := Backing(b, plan.bytes, NativeAlignment(req.domain, plan.alignment));
      match CommitAmount(acc, k, plan.bytes)
      case Err(e) => (st1.(acc := undone, mem := Free(mem, b)), Err(e))
      case Ok(acc1) =>
        if !WantZero(Policy(st.nss, req), None, req.ns) then
          (Register(st.(acc := acc1, mem := mem), NewRecord(st, req, plan, backing)), Ok(|st.recs|))
        else if env.zeroOk then
          (Register(st.(acc := acc1, mem := ZeroBlock(mem, b)), NewRecord(st, req, plan, backing)), Ok(|st.recs|))
        else
          // The committed bytes stay charged.
          (st1.(acc := ReleaseCount(UnreserveAmount(acc1, k, plan.bytes), req.ns), mem := Free(mem, b)),
           Err(BackendFailure))
  }

  /** The slot a request would be served from; |pool| if none. */
  function SlotFor(st: Store, req: Request, plan: Plan): (i: nat)
    ensures i <= |st.pool|
  {
    if req.poolable && PoolOn(st.cfg)
    then FindSlot(st.pool, KeyOf(st.cfg, NewRecord(st, req, plan, Backing(0, 0, 0))), plan.bytes)
    else |st.pool|
  }

  /** The request passes validation and the ceilings, and the pool has a slot for it. */
  predicate Hits(st: Store, req: Request) {
    var v := Validate(st.cfg, req);
    v.Ok? && ReserveFor(st, req, v.value.bytes).Ok? && SlotFor(st, req, v.value) < |st.pool|
  }

  /** allocate_record followed by register_control; yields the index of the new control. */
  function Allocate(st: Store, req: Request, env: Env): (Store, Result<nat>) {
    match Validate(st.cfg, req)
    case Err(e) => (st, Err(e))
    case Ok(plan) =>
      match ReserveFor(st, req, plan.bytes)
      case Err(e) => (st.(acc := RefusedAccounts(st, req)), Err(e))
      case Ok(acc) =>
        var i := SlotFor(st, req, plan);
        if i < |st.pool| then AllocateHit(st, req, plan, acc, i, env)
        else AllocateFresh(st, req, plan, acc, env)
  }

  /** wrap_external: the caller's memory becomes the block mem.next. */
  function Wrap(st: Store, x: ExternalMemory, fill: seq<Byte>): (Store, Result<nat>) {
    if x.isNull || x.size == 0 || x.ownership == RUNTIME then (st, Err(InvalidArgument))
    else if x.domain !in st.cfg.domains then (st, Err(UnsupportedDomain))
    else
      match ReserveCount(st.acc, DEFAULT_NAMESPACE, st.nss)
      case Err(e) => (st, Err(e))
      case Ok(acc) =>
        var b := st.mem.next;
        var alignment := if x.alignment != 0 then x.alignment else 64;
        var mem := Obtain(st.mem, Filled(x.size, fill, External));
        var r := Record(
          BufferId(st.cfg.idHi, st.nextId), 1, DEFAULT_NAMESPACE, x.domain, x.device,
          x.size, alignment, false, false, if x.ownership == BORROWED then READ else READ_WRITE,
          false, x.ownership, Backing(b, x.size, alignment), 0, false);
        (Register(st.(acc := acc, mem := if x.ownership == BORROWED then mem.(lent := mem.lent + {b}) else mem), r),
         Ok(|st.recs|))
  }

  // ------------------------------------------------------------------ finalization

  predicate Live(st: Store, c: nat) {
    c < |st.recs| && !st.recs[c].finalized
  }

  predicate ZeroOnRelease(nss: map<NamespaceId, NamespaceConfig>, ns: NamespaceId) {
    ns in nss && (nss[ns].zeroing == ON_RELEASE || nss[ns].zeroing == ALWAYS)
  }

  predicate GoesToPool(st: Store, r: Record) {
    r.eligible && r.poolable && PoolOn(st.cfg)
  }

  predicate PoolFull(st: Store, bytes: nat) {
    st.poolCount >= st.cfg.pool.maxObjects || st.poolIdle + bytes > st.cfg.pool.maxIdleBytes
  }

  /** What happens to the backing of record r: handed back, pooled, evicted or freed. */
  function Dispose(st: Store, r: Record): Store {
    var b, n := r.backing.block, r.backing.committed;
    if r.ownership == BORROWED then
      st.(mem := st.mem.(returned := st.mem.returned[b := Get(st.mem.returned, b) + 1]))
    else if GoesToPool(st, r) && !PoolFull(st, n) then
      st.(mem := if ZeroOnRelease(st.nss, r.ns) then ZeroBlock(st.mem, b) else st.mem,
          pool := st.pool + [PoolEntry(KeyOf(st.cfg, r), r.backing, r.ns)],
          poolCount := st.poolCount + 1,
          poolIdle := st.poolIdle + n)
    else
      st.(mem := Free(st.mem, b), acc := FreeAccounting(st.acc, Charge(r.ns, r.domain), n))
  }

  /** Mark record c finalized and forget its registration. */
  function Retire(st: Store, c: nat): Store
    requires c < |st.recs|
  {
    var r := st.recs[c];
    st.(recs := st.recs[c := r.(finalized := true)], registry := st.registry - {r.id},
        acc := ReleaseCount(st.acc, r.ns), frees := st.frees + 1)
  }

  /** finalize: the flag makes every call after the first a no-op. */
  function Finalize(st: Store, c: nat): Store {
    if !Live(st, c) then st else Retire(Dispose(st, st.recs[c]), c)
  }

  // ------------------------------------------------------------------ migration

  /** meta_crc_of: identity, generation, domain, size and alignment as they lie in memory. */
  function DomainByte(d: Domain): Byte {
    match d
    case HOST => 0
    case PINNED_HOST => 1
    case DEVICE => 2
    case SHARED_HOST => 3
    case MMAP_STORAGE => 4
  }

  function MetaBytes(r: Record): seq<Byte> {
    LittleEndian(r.id.hi, 8) + LittleEndian(r.id.lo, 8) + LittleEndian(r.generation, 8) + [DomainByte(r.domain)]
    + LittleEndian(r.size, 8) + LittleEndian(r.alignment, 8)
  }

  function MetaCrc(r: Record): nat {
    Crc(MetaBytes(r), 0)
  }

  function Relocated(cfg: Config, r: Record, target: Domain, backing: Backing): Record {
    r.(backing := backing, domain := target,
       device := if target != DEVICE then -1 else if cfg.cudaDevice >= 0 then cfg.cudaDevice else 0,
       eligible := false, generation := r.generation + 1)
  }

  /** The record once it is bound to the new backing, with its metadata checksum. */
  function Rebound(cfg: Config, r: Record, target: Domain, backing: Backing): Record {
    var r1 := Relocated(cfg, r, target, backing);
    r1.(metaCrc := MetaCrc(r1))
  }

  /** Swap the binding to block b, then free the old block on the old domain's account. */
  function Rebind(st: Store, c: nat, target: Domain, b: Block, n: nat): Store
    requires c < |st.recs|
  {
    var r := st.recs[c];
    st.(recs := st.recs[c := Rebound(st.cfg, r, target, Backing(b, n, NativeAlignment(target, r.alignment)))],
        mem := Free(st.mem, r.backing.block),
        acc := FreeAccounting(st.acc, Charge(r.ns, r.domain), r.backing.committed))
  }

  /** migrate once n bytes are reserved in the target domain: allocate, copy, commit, verify, swap. */
  function MigrateReserved(st: Store, c: nat, target: Domain, n: nat, acc: Accounts, env: Env): (Store, Result<()>)
    requires c < |st.recs|
  {
    var r := st.recs[c];
    var k, b := Charge(r.ns, target), st.mem.next;
    var undone := UnreserveAmount(acc, k, n);
    var raw := Obtain(st.mem, Filled(n, env.fill, Fresh));
    var copied := WritePrefix(raw, b, Content(st.mem, r.backing.block));
    if !env.allocateOk then (st.(acc := undone), Err(OutOfCapacity))
    else if !env.copyOk then (st.(acc := undone, mem := Free(raw, b)), Err(BackendFailure))
    else
      match CommitAmount(acc, k, n)
      case Err(e) => (st.(acc := undone, mem := Free(copied, b)), Err(e))
      case Ok(acc1) =>
        if env.verifyOk then (Rebind(st.(acc := acc1, mem := copied), c, target, b, n), Ok(()))
        else
          // A device target keeps the committed bytes of the block it has just freed.
          var acc2 := if target != DEVICE then FreeAccounting(acc1, k, n) else acc1;
          (st.(acc := UnreserveAmount(acc2, k, n), mem := Free(copied, b)), Err(BackendFailure))
  }

  /** The bytes a migration asks for. */
  function MoveBytes(r: Record): nat {
    if r.backing.committed != 0 then r.backing.committed else r.size
  }

  /** migrate, from the point where the buffer is known to be live, elsewhere and not write-leased. */
  function Migrate(st: Store, c: nat, target: Domain, env: Env): (Store, Result<()>)
    requires c < |st.recs|
  {
    var r := st.recs[c];
    var n, k := MoveBytes(r), Charge(r.ns, target);
    if target !in st.cfg.domains then (st, Err(UnsupportedDomain))
    else
      match ReserveAmount(st.acc, k, CeilingOf(st.cfg, st.nss, k), n)
      case Err(e) => (st, Err(e))
      case Ok(acc) => MigrateReserved(st, c, target, n, acc, env)
  }

  /** Every guard of a migration passes: the target is enabled, the reservation is accepted and covers the
      commit, and the backends allocate, copy and verify. */
  predicate MigrationPasses(st: Store, c: nat, target: Domain, env: Env)
    requires c < |st.recs|
  {
    var n, k := MoveBytes(st.recs[c]), Charge(st.recs[c].ns, target);
    var a := ReserveAmount(st.acc, k, CeilingOf(st.cfg, st.nss, k), n);
    && target in st.cfg.domains && a.Ok? && a.value.Reserved(k) >= n
    && env.allocateOk && env.copyOk && env.verifyOk
  }

  lemma MigrateExactly(st: Store, c: nat, target: Domain, env: Env)
    requires c < |st.recs|
    ensures Migrate(st, c, target, env).1.Ok? <==> MigrationPasses(st, c, target, env)
  {
  }

  // ------------------------------------------------------------------ trimming, writing, namespaces

  function Owner(e: PoolEntry): Charge {
    Charge(e.lastOwner, e.key.domain)
  }

  function SlotHolds(b: Block): PoolEntry -> int {
    (e: PoolEntry) => if e.backing.block == b then 1 else 0
  }

  /** Bytes of a slot charged to k by its last owner. */
  function SlotBytesFor(k: Charge): PoolEntry -> int {
    (e: PoolEntry) => if Owner(e) == k then e.backing.committed else 0
  }

  function Owners(pool: Pool): set<Charge> {
    set e | e in pool :: Owner(e)
  }

  function SumNat(pool: Pool, k: Charge): (n: nat) {
    SumNonNegative(pool, SlotBytesFor(k));
    Sum(pool, SlotBytesFor(k))
  }

  function SlotBytes(): PoolEntry -> int {
    (e: PoolEntry) => e.backing.committed
  }

  function IdleTotal(pool: Pool): (n: nat) {
    SumNonNegative(pool, SlotBytes());
    Sum(pool, SlotBytes())
  }

  /** The committed amounts after every idle slot was freed on its last owner's account, whatever the
      order in which the source's hash map is walked. */
  function TrimmedCommitted(committed: map<Charge, nat>, pool: Pool): map<Charge, nat> {
    map k | k in committed.Keys + Owners(pool) :: Minus(Get(committed, k), SumNat(pool, k))
  }

  function BlocksOf(pool: Pool): set<Block> {
    set e | e in pool :: e.backing.block
  }

  function IdleCount(pool: Pool, b: Block): (n: nat) {
    SumNonNegative(pool, SlotHolds(b));
    Sum(pool, SlotHolds(b))
  }

  function TrimmedFreed(freed: map<Block, nat>, pool: Pool): map<Block, nat> {
    map b | b in freed.Keys + BlocksOf(pool) :: Get(freed, b) + IdleCount(pool, b)
  }

  /** pool_trim: every idle slot is freed. */
  function Trim(st: Store): Store {
    st.(pool := [], poolCount := Minus(st.poolCount, |st.pool|), poolIdle := Minus(st.poolIdle, IdleTotal(st.pool)),
        acc := st.acc.(committed := TrimmedCommitted(st.acc.committed, st.pool)),
        mem := st.mem.(heap := st.mem.heap - BlocksOf(st.pool), freed := TrimmedFreed(st.mem.freed, st.pool)))
  }

  /** copy_from, once its checks have passed. */
  function WriteBuffer(st: Store, c: nat, data: seq<Byte>): Store
    requires c < |st.recs|
  {
    var r := st.recs[c];
    st.(mem := WritePrefix(st.mem, r.backing.block, Written(data, r.ns)))
  }

  /** The namespace every runtime has. */
  function DefaultNamespace(): NamespaceConfig {
    NamespaceConfig(map[], 0, ON_CROSS_OWNER_REUSE, true)
  }

  /** The namespaces of a new runtime: the default one, then the configured ones in order. */
  function NamespacesFrom(configured: seq<NamespaceConfig>): (nss: map<NamespaceId, NamespaceConfig>)
    ensures |nss| == |configured| + 1 && forall id :: id in nss <==> 1 <= id <= |configured| + 1
  {
    if configured == [] then map[DEFAULT_NAMESPACE := DefaultNamespace()]
    else
      var n := |configured| - 1;
      NamespacesFrom(configured[..n])[n + 2 := configured[n]]
  }

  /** Configured namespace i has identifier i + 2, after the default one. */
  lemma {:induction false} NamespacesInOrder(configured: seq<NamespaceConfig>, i: nat)
    requires i < |configured|
    ensures NamespacesFrom(configured)[i + 2] == configured[i]
    ensures NamespacesFrom(configured)[DEFAULT_NAMESPACE] == DefaultNamespace()
    decreases |configured|
  {
    var n := |configured| - 1;
    if n > 0 {
      NamespacesInOrder(configured[..n], if i < n then i else 0);
    }
  }

  /** create_namespace: ids are handed out by size, starting after the default one. */
  function CreateNamespace(st: Store, c: NamespaceConfig): Store {
    st.(nss := st.nss[|st.nss| + 1 := c])
  }

  /** next_id, for an identifier that ends up unused. */
  function TakeId(st: Store): Store {
    st.(nextId := st.nextId + 1)
  }

  // ------------------------------------------------------------------ runs

  datatype StoreOp =
    | DoAllocate(req: Request, env: Env)
    | DoWrap(x: ExternalMemory, fill: seq<Byte>)
    | DoFinalize(c: nat)
    | DoMigrate(c: nat, target: Domain, env: Env)
    | DoTrim
    | DoWrite(c: nat, data: seq<Byte>)
    | DoCreateNamespace(nsc: NamespaceConfig)
    | DoTakeId

  predicate CanMigrate(st: Store, c: nat, target: Domain) {
    Live(st, c) && st.recs[c].domain != target
  }

  predicate CanWrite(st: Store, c: nat, n: nat) {
    Live(st, c) && n <= st.recs[c].size
  }

  function Apply(st: Store, op: StoreOp): Store {
    match op
    case DoAllocate(req, env) => Allocate(st, req, env).0
    case DoWrap(x, fill) => Wrap(st, x, fill).0
    case DoFinalize(c) => Finalize(st, c)
    case DoMigrate(c, target, env) => if CanMigrate(st, c, target) then Migrate(st, c, target, env).0 else st
    case DoTrim => Trim(st)
    case DoWrite(c, data) => if CanWrite(st, c, |data|) then WriteBuffer(st, c, data) else st
    case DoCreateNamespace(nsc) => CreateNamespace(st, nsc)
    case DoTakeId => TakeId(st)
  }

  function ApplyAll(st: Store, ops: seq<StoreOp>): Store
    decreases |ops|
  {
    if ops == [] then st else ApplyAll(Apply(st, ops[0]), ops[1..])
  }

  /** Every operation of the run meets the hypothesis in the state it starts from. */
  ghost predicate StoreRun(ok: (Store, StoreOp) -> bool, st: Store, ops: seq<StoreOp>)
    decreases |ops|
  {
    ops == [] || (ok(st, ops[0]) && StoreRun(ok, Apply(st, ops[0]), ops[1..]))
  }

  /** What every step keeps holds after the whole run. */
  lemma {:induction false} Induct(
    ok: (Store, StoreOp) -> bool, inv: Store -> bool, st: Store, ops: seq<StoreOp>)
    requires inv(st) && StoreRun(ok, st, ops)
    requires forall s: Store, op: StoreOp :: inv(s) && ok(s, op) ==> inv(Apply(s, op))
    ensures inv(ApplyAll(st, ops))
    decreases |ops|
  {
    if ops != [] {
      Induct(ok, inv, Apply(st, ops[0]), ops[1..]);
    }
  }
}
