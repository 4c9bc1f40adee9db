/** RuntimeImpl and the objects it hands out, in place: every method is proved to do to the runtime's
    state what the corresponding function of modules Storage and Protocol does to its value. */
module Runtime {
  import opened Wrappers
  import opened CheckedMath
  import opened Types
  import opened Sums
  import opened SizeClass
  import opened Accounting
  import opened NativeMemory
  import opened Storage
  import opened ReusePool
  import opened Conservation
  import opened Ledger
  import opened Protocol
  import opened Controls
  import opened Crc32c
  import Words

  ghost function ControlsOf(blocks: seq<ControlBlock>): (r: seq<Control>)
    reads blocks
    ensures |r| == |blocks| && forall i :: 0 <= i < |r| ==> r[i] == blocks[i].Value()
  {
    seq(|blocks|, (i: int) requires 0 <= i < |blocks| reads blocks => blocks[i].Value())
  }

  ghost predicate Distinct(blocks: seq<ControlBlock>) {
    forall i, j :: 0 <= i < j < |blocks| ==> blocks[i] != blocks[j]
  }

  /** The store with entry i of its pool freed on its last owner's account. */
  function FreeSlot(st: Store, i: nat): Store
    requires i < |st.pool|
  {
    var e := st.pool[i];
    TakeSlot(st, i).(mem := Free(st.mem, e.backing.block), acc := FreeAccounting(st.acc, Owner(e), e.backing.committed))
  }

  lemma RemovedBlocks(pool: Pool, i: nat)
    requires i < |pool|
    ensures BlocksOf(pool) == BlocksOf(RemoveAt(pool, i)) + {pool[i].backing.block}
  {
    forall x ensures x in pool <==> x == pool[i] || x in RemoveAt(pool, i) {
      RemovedMembers(pool, i, x);
    }
  }

  lemma FreedAt(m: Memory, pool: Pool, i: nat, z: Block)
    requires i < |pool|
    ensures Get(Free(m, pool[i].backing.block).freed, z) + IdleCount(RemoveAt(pool, i), z) == Get(m.freed, z) + IdleCount(pool, z)
  {
    SumRemove(pool, i, SlotHolds(z));
  }

  lemma FreeOneFreed(m: Memory, pool: Pool, i: nat)
    requires i < |pool|
    ensures TrimmedFreed(Free(m, pool[i].backing.block).freed, RemoveAt(pool, i)) == TrimmedFreed(m.freed, pool)
  {
    var x, y := TrimmedFreed(Free(m, pool[i].backing.block).freed, RemoveAt(pool, i)), TrimmedFreed(m.freed, pool);
    assert x.Keys == y.Keys by {
      RemovedBlocks(pool, i);
    }
    forall z | z in x ensures x[z] == y[z] {
      FreedAt(m, pool, i, z);
    }
    SameMap(x, y);
  }

  lemma FreeOneHeap(heap: map<Block, seq<Cell>>, pool: Pool, i: nat)
    requires i < |pool|
    ensures heap - {pool[i].backing.block} - BlocksOf(RemoveAt(pool, i)) == heap - BlocksOf(pool)
  {
    RemovedBlocks(pool, i);
  }

  /** Freeing the slots one at a time, in any order, comes to the same as pool_trim's specification. */
  lemma FreeSlotTrims(st: Store, i: nat)
    requires i < |st.pool|
    ensures Trim(FreeSlot(st, i)) == Trim(st)
  {
    var st' := FreeSlot(st, i);
    assert TrimmedCommitted(st'.acc.committed, st'.pool) == TrimmedCommitted(st.acc.committed, st.pool) by {
      FreeOneCommitted(st.acc.committed, st.pool, i);
    }
    assert TrimmedFreed(st'.mem.freed, st'.pool) == TrimmedFreed(st.mem.freed, st.pool) by {
      FreeOneFreed(st.mem, st.pool, i);
    }
    assert st'.mem.heap - BlocksOf(st'.pool) == st.mem.heap - BlocksOf(st.pool) by {
      FreeOneHeap(st.mem.heap, st.pool, i);
    }
    assert IdleTotal(st'.pool) == IdleTotal(st.pool) - st.pool[i].backing.committed by {
      SumRemove(st.pool, i, SlotBytes());
    }
    TrimmedAlike(st', st);
  }

  /** Trimming gives the same store if the parts it computes agree and the others are the same. */
  lemma TrimmedAlike(st: Store, st': Store)
    requires TrimmedCommitted(st.acc.committed, st.pool) == TrimmedCommitted(st'.acc.committed, st'.pool)
    requires TrimmedFreed(st.mem.freed, st.pool) == TrimmedFreed(st'.mem.freed, st'.pool)
    requires st.mem.heap - BlocksOf(st.pool) == st'.mem.heap - BlocksOf(st'.pool)
    requires Minus(st.poolCount, |st.pool|) == Minus(st'.poolCount, |st'.pool|)
    requires Minus(st.poolIdle, IdleTotal(st.pool)) == Minus(st'.poolIdle, IdleTotal(st'.pool))
    requires st'.acc == st.acc.(committed := st'.acc.committed)
    requires st'.mem == st.mem.(freed := st'.mem.freed, heap := st'.mem.heap)
    requires st' == st.(pool := st'.pool, poolCount := st'.poolCount, poolIdle := st'.poolIdle, acc := st'.acc, mem := st'.mem)
    ensures Trim(st) == Trim(st')
  {
  }

  lemma TrimEmpty(st: Store)
    requires st.pool == []
    ensures Trim(st) == st
  {
    assert TrimmedCommitted(st.acc.committed, []) == st.acc.committed;
    assert TrimmedFreed(st.mem.freed, []) == st.mem.freed;
    assert st.mem.heap - BlocksOf([]) == st.mem.heap;
  }

  /** meta_crc_of: five calls, each seeded with the result of the one before. */
  method MetaCrcOf(r: Record) returns (crc: nat)
    ensures crc == MetaCrc(r)
  {
    var a := LittleEndian(r.id.hi, 8) + LittleEndian(r.id.lo, 8);
    var b := a + LittleEndian(r.generation, 8);
    var c := b + [DomainByte(r.domain)];
    var d := c + LittleEndian(r.size, 8);
    crc := Checksum(a, 0);
    crc := Checksum(LittleEndian(r.generation, 8), crc);
    Chaining(a, LittleEndian(r.generation, 8), 0);
    crc := Checksum([DomainByte(r.domain)], crc);
    Chaining(b, [DomainByte(r.domain)], 0);
    crc := Checksum(LittleEndian(r.size, 8), crc);
    Chaining(c, LittleEndian(r.size, 8), 0);
    crc := Checksum(LittleEndian(r.alignment, 8), crc);
    Chaining(d, LittleEndian(r.alignment, 8), 0);
  }

  /** The constructor's loop: an identifier is one more than the namespaces there are. */
  method NumberNamespaces(configured: seq<NamespaceConfig>) returns (nss: map<NamespaceId, NamespaceConfig>)
    ensures nss == NamespacesFrom(configured)
  {
    nss := map[DEFAULT_NAMESPACE := DefaultNamespace()];
    for i := 0 to |configured|
      invariant nss == NamespacesFrom(configured[..i])
    {
      assert configured[..i + 1][..i] == configured[..i];
      nss := nss[|nss| + 1 := configured[i]];
    }
    assert configured[..|configured|] == configured;
  }

  class RuntimeImpl {
    const cfg: Config
    const pool: SlotPool
    const book: Book
    var nss: map<NamespaceId, NamespaceConfig>
    var nextId: nat
    var recs: seq<Record>
    var blocks: seq<ControlBlock>
    var registry: map<BufferId, nat>
    var mem: Memory
    var allocations: nat
    var frees: nat
    var tokens: seq<Token>

    ghost predicate Valid()
      reads this, pool
    {
      pool.Valid() && Distinct(blocks)
    }

    ghost function StoreValue(): Store
      reads this, pool, book
    {
      Store(cfg, nss, nextId, recs, registry, pool.order, pool.count, pool.idle, book.Value(), mem, allocations, frees)
    }

    ghost function Value(): State
      reads this, pool, book, blocks
    {
      State(StoreValue(), ControlsOf(blocks), tokens)
    }

    /** The default namespace first, then one identifier after another for the configured ones. */
    constructor (c: Config, namespaces: seq<NamespaceConfig>)
      ensures Valid() && Value() == InitState(c, NamespacesFrom(namespaces)) && fresh(pool) && fresh(book)
    {
      var numbered := NumberNamespaces(namespaces);
      cfg, nss, nextId := c, numbered, 1;
      pool := new SlotPool();
      book := new Book();
      recs, blocks, registry, tokens := [], [], map[], [];
      mem, allocations, frees := Memory(map[], map[], {}, map[], 0), 0, 0;
    }

    // ---------------------------------------------------------------- finalization

    /** The backend frees a block, and its owner is no longer charged for it. */
    method FreeBacking(b: Backing, k: Charge)
      requires Valid()
      modifies this`mem, book
      ensures Valid() && mem == Free(old(mem), b.block) && book.Value() == FreeAccounting(old(book.Value()), k, b.committed)
    {
      mem := Free(mem, b.block);
      book.Uncharge(k, b.committed);
    }

    /** The pool takes the backing, or evicts it when it is full. */
    method Recycle(r: Record)
      requires Valid() && GoesToPool(StoreValue(), r) && r.ownership != BORROWED
      modifies this`mem, pool, book
      ensures Valid() && StoreValue() == Storage.Dispose(old(StoreValue()), r)
    {
      var b, n := r.backing.block, r.backing.committed;
      ghost var before := mem;
      if r.ns in nss && (nss[r.ns].zeroing == ON_RELEASE || nss[r.ns].zeroing == ALWAYS) {
        mem := ZeroBlock(mem, b);
      }
      if pool.count >= cfg.pool.maxObjects || pool.idle + n > cfg.pool.maxIdleBytes {
        assert mem.heap - {b} == before.heap - {b};
        FreeBacking(r.backing, Charge(r.ns, r.domain));
      } else {
        pool.Put(KeyOf(cfg, r), PoolSlot(r.backing, r.ns));
      }
    }

    /** What becomes of the backing. */
    method Dispose(r: Record)
      requires Valid()
      modifies this`mem, pool, book
      ensures Valid() && StoreValue() == Storage.Dispose(old(StoreValue()), r)
    {
      var b := r.backing.block;
      if r.ownership == BORROWED {
        mem := mem.(returned := mem.returned[b := Get(mem.returned, b) + 1]);
      } else if r.eligible && r.poolable && cfg.enablePool && cfg.pool.enabled {
        Recycle(r);
      } else {
        FreeBacking(r.backing, Charge(r.ns, r.domain));
      }
    }

    /** finalize, without the control block's state. */
    method FinalizeStore(c: nat)
      requires Valid() && c < |recs|
      modifies this`recs, this`mem, this`registry, this`frees, pool, book
      ensures Valid() && StoreValue() == Storage.Finalize(old(StoreValue()), c)
    {
      var r := recs[c];
      if r.finalized {
        return;
      }
      Dispose(r);
      recs := recs[c := r.(finalized := true)];
      book.GiveCount(r.ns);
      registry := registry - {r.id};
      frees := frees + 1;
    }

    // ---------------------------------------------------------------- allocation

    /** register_control for a record that carries the identifier just drawn. */
    method Register(r: Record)
      requires Valid()
      modifies this`recs, this`registry, this`nextId, this`allocations
      ensures Valid() && StoreValue() == Storage.Register(old(StoreValue()), r)
    {
      registry := registry[r.id := |recs|];
      recs, nextId, allocations := recs + [r], nextId + 1, allocations + 1;
    }

    /** A record for an accepted request. */
    method Describe(req: Request, plan: Plan, backing: Backing) returns (r: Record)
      requires Valid()
      ensures r == NewRecord(StoreValue(), req, plan, backing)
    {
      var eligible := cfg.enablePool && cfg.pool.enabled && req.size >= cfg.pool.minClassSize
                      && ClassOf(cfg.pool, req.size) <= cfg.pool.maxClassSize;
      r := Record(BufferId(cfg.idHi, nextId), 1, req.ns, req.domain, if req.domain == DEVICE then req.device else -1,
                  req.size, plan.alignment, req.poolable, req.exportable, req.access, eligible, RUNTIME, backing, 0, false);
    }

    /** Slot i was taken from the pool; its backing becomes a buffer. */
    method UseSlot(req: Request, plan: Plan, slot: PoolSlot, env: Env, ghost st: Store, ghost i: nat, ghost acc: Accounts)
      returns (r: Result<nat>)
      requires Valid() && i < |st.pool| && slot == SlotOf(st.pool[i]) && StoreValue() == TakeSlot(st, i).(acc := acc)
      modifies this`recs, this`registry, this`nextId, this`allocations, this`mem, book
      ensures Valid() && (StoreValue(), r) == AllocateHit(st, req, plan, acc, i, env)
    {
      if WantZero(Policy(nss, req), Some(slot.lastOwner), req.ns) {
        if !env.zeroOk {
          book.Uncharge(Charge(req.ns, req.domain), slot.backing.committed);
          nextId := nextId + 1;
          return Err(BackendFailure);
        }
        mem := ZeroBlock(mem, slot.backing.block);
      }
      var rec := Describe(req, plan, slot.backing);
      r := Ok(|recs|);
      Register(rec);
    }

    /** No slot fits: the backend allocates. */
    method UseFresh(req: Request, plan: Plan, env: Env, ghost st: Store, ghost acc: Accounts) returns (r: Result<nat>)
      requires Valid() && StoreValue() == st.(acc := acc)
      modifies this`recs, this`registry, this`nextId, this`allocations, this`mem, book
      ensures Valid() && (StoreValue(), r) == AllocateFresh(st, req, plan, acc, env)
    {
      var k := Charge(req.ns, req.domain);
      if !env.allocateOk {
        Undo(k, plan.bytes);
        return Err(OutOfCapacity);
      }
      var b := mem.next;
      mem := Obtain(mem, Filled(plan.bytes, env.fill, Fresh));
      r := Activate(req, plan, b, env, st, acc);
    }

    /** The new block is charged, zeroed if asked, and becomes a buffer. */
    method Activate(req: Request, plan: Plan, b: Block, env: Env, ghost st: Store, ghost acc: Accounts) returns (r: Result<nat>)
      requires Valid() && env.allocateOk && b == st.mem.next
      requires StoreValue() == st.(acc := acc, mem := Obtain(st.mem, Filled(plan.bytes, env.fill, Fresh)))
      modifies this`recs, this`registry, this`nextId, this`allocations, this`mem, book
      ensures Valid() && (StoreValue(), r) == AllocateFresh(st, req, plan, acc, env)
    {
      var k := Charge(req.ns, req.domain);
      var error := book.Commit(k, plan.bytes);
      if error.Some? {
        Abort(k, b, plan.bytes);
        return Err(error.value);
      }
      r := Bring(req, plan, b, env, st, acc);
    }

    /** The block is charged: zero it if asked and register it, or give it up. */
    method Bring(req: Request, plan: Plan, b: Block, env: Env, ghost st: Store, ghost acc: Accounts) returns (r: Result<nat>)
      requires Valid() && env.allocateOk && b == st.mem.next && CommitAmount(acc, Charge(req.ns, req.domain), plan.bytes).Ok?
      requires
        var acc1 := CommitAmount(acc, Charge(req.ns, req.domain), plan.bytes).value;
        StoreValue() == st.(acc := acc1, mem := Obtain(st.mem, Filled(plan.bytes, env.fill, Fresh)))
      modifies this`recs, this`registry, this`nextId, this`allocations, this`mem, book
      ensures Valid() && (StoreValue(), r) == AllocateFresh(st, req, plan, acc, env)
    {
      if WantZero(Policy(nss, req), None, req.ns) {
        if !env.zeroOk {
          Abort(Charge(req.ns, req.domain), b, plan.bytes);
          return Err(BackendFailure);
        }
        mem := ZeroBlock(mem, b);
      }
      var rec := Describe(req, plan, Backing(b, plan.bytes, NativeAlignment(req.domain, plan.alignment)));
      r := Ok(|recs|);
      Register(rec);
    }

    /** The rollback of a refused allocation; its identifier is spent. */
    method Undo(k: Charge, bytes: nat)
      requires Valid()
      modifies this`nextId, book
      ensures Valid() && book.Value() == ReleaseCount(UnreserveAmount(old(book.Value()), k, bytes), k.ns)
      ensures nextId == old(nextId) + 1
    {
      book.Unreserve(k, bytes);
      book.GiveCount(k.ns);
      nextId := nextId + 1;
    }

    method Abort(k: Charge, b: Block, bytes: nat)
      requires Valid()
      modifies this`mem, this`nextId, book
      ensures Valid() && book.Value() == ReleaseCount(UnreserveAmount(old(book.Value()), k, bytes), k.ns)
      ensures nextId == old(nextId) + 1 && mem == Free(old(mem), b)
    {
      mem := Free(mem, b);
      Undo(k, bytes);
    }

    /** allocate_record, then register_control. */
    method AllocateStore(req: Request, env: Env) returns (r: Result<nat>)
      requires Valid()
      modifies this`recs, this`registry, this`nextId, this`allocations, this`mem, pool, book
      ensures Valid() && (StoreValue(), r) == Storage.Allocate(old(StoreValue()), req, env)
    {
      ghost var st := StoreValue();
      var v := Validate(cfg, req);
      if v.Err? {
        return Err(v.error);
      }
      var plan, k := v.value, Charge(req.ns, req.domain);
      var error := book.TakeCount(req.ns, nss);
      if error.Some? {
        return Err(error.value);
      }
      error := book.Reserve(k, CeilingOf(cfg, nss, k), plan.bytes);
      if error.Some? {
        book.GiveCount(req.ns);
        return Err(error.value);
      }
      ghost var acc := book.Value();
      if req.poolable && cfg.enablePool && cfg.pool.enabled {
        var rec := Describe(req, plan, Backing(0, 0, 0));
        var slot := pool.Take(KeyOf(cfg, rec), plan.bytes);
        if slot.Some? {
          r := UseSlot(req, plan, slot.value, env, st, SlotFor(st, req, plan), acc);
          return;
        }
      }
      r := UseFresh(req, plan, env, st, acc);
    }

    /** wrap_external. */
    method WrapStore(x: ExternalMemory, fill: seq<Crc32c.Byte>) returns (r: Result<nat>)
      requires Valid()
      modifies this`recs, this`registry, this`nextId, this`allocations, this`mem, book
      ensures Valid() && (StoreValue(), r) == Wrap(old(StoreValue()), x, fill)
    {
      if x.isNull || x.size == 0 || x.ownership == RUNTIME {
        return Err(InvalidArgument);
      }
      if x.domain !in cfg.domains {
        return Err(UnsupportedDomain);
      }
      var error := book.TakeCount(DEFAULT_NAMESPACE, nss);
      if error.Some? {
        return Err(error.value);
      }
      var b, alignment := mem.next, if x.alignment != 0 then x.alignment else 64;
      mem := Obtain(mem, Filled(x.size, fill, External));
      if x.ownership == BORROWED {
        mem := mem.(lent := mem.lent + {b});
      }
      var rec := Record(BufferId(cfg.idHi, nextId), 1, DEFAULT_NAMESPACE, x.domain, x.device, x.size, alignment, false, false,
                        if x.ownership == BORROWED then READ else READ_WRITE, false, x.ownership,
                        Backing(b, x.size, alignment), 0, false);
      r := Ok(|recs|);
      Register(rec);
    }

    // ---------------------------------------------------------------- migration

    /** migrate, from its reservation on. */
    method MigrateStore(c: nat, target: Domain, env: Env) returns (r: Result<()>)
      requires Valid() && c < |recs|
      modifies this`recs, this`mem, book
      ensures Valid() && (StoreValue(), r) == Storage.Migrate(old(StoreValue()), c, target, env)
    {
      var rec := recs[c];
      if target !in cfg.domains {
        return Err(UnsupportedDomain);
      }
      var n, k := MoveBytes(rec), Charge(rec.ns, target);
      ghost var st := StoreValue();
      var error := book.Reserve(k, CeilingOf(cfg, nss, k), n);
      if error.Some? {
        return Err(error.value);
      }
      r := MoveBacking(c, target, n, env, st, book.Value());
    }

    /** Allocate in the target, copy, commit, verify, swap, and free the old block. */
    method MoveBacking(c: nat, target: Domain, n: nat, env: Env, ghost st: Store, ghost acc: Accounts) returns (r: Result<()>)
      requires Valid() && c < |recs| && StoreValue() == st.(acc := acc)
      modifies this`recs, this`mem, book
      ensures Valid() && (StoreValue(), r) == MigrateReserved(st, c, target, n, acc, env)
    {
      var rec := recs[c];
      var k, b := Charge(rec.ns, target), mem.next;
      if !env.allocateOk {
        book.Unreserve(k, n);
        return Err(OutOfCapacity);
      }
      var source := Content(mem, rec.backing.block);
      mem := Obtain(mem, Filled(n, env.fill, Fresh));
      if !env.copyOk {
        Discard(k, b, n, false);
        return Err(BackendFailure);
      }
      mem := WritePrefix(mem, b, source);
      r := Settle(c, target, n, b, env, st, acc);
    }

    /** The copy is made: commit and verify it, then swap and free the old block, or give up. */
    method Settle(c: nat, target: Domain, n: nat, b: Block, env: Env, ghost st: Store, ghost acc: Accounts)
      returns (r: Result<()>)
      requires Valid() && c < |recs| && env.allocateOk && env.copyOk && b == st.mem.next && c < |st.recs|
      requires
        var raw := Obtain(st.mem, Filled(n, env.fill, Fresh));
        StoreValue() == st.(acc := acc, mem := WritePrefix(raw, b, Content(st.mem, st.recs[c].backing.block)))
      modifies this`recs, this`mem, book
      ensures Valid() && (StoreValue(), r) == MigrateReserved(st, c, target, n, acc, env)
    {
      var rec := recs[c];
      var k := Charge(rec.ns, target);
      var error := book.Commit(k, n);
      if error.Some? {
        Discard(k, b, n, false);
        return Err(error.value);
      }
      if !env.verifyOk {
        Discard(k, b, n, target != DEVICE);
        return Err(BackendFailure);
      }
      Swap(c, target, Backing(b, n, NativeAlignment(target, rec.alignment)));
      FreeBacking(rec.backing, Charge(rec.ns, rec.domain));
      return Ok(());
    }

    /** Bind record c to its new backing. */
    method Swap(c: nat, target: Domain, backing: Backing)
      requires Valid() && c < |recs|
      modifies this`recs
      ensures recs == old(recs)[c := Rebound(cfg, old(recs)[c], target, backing)]
    {
      var rec := recs[c];
      var moved := Relocated(cfg, rec, target, backing);
      var crc := MetaCrcOf(moved);
      recs := recs[c := moved.(metaCrc := crc)];
    }

    /** Free a block that is not going to be used. */
    method Discard(k: Charge, b: Block, n: nat, uncharge: bool)
      requires Valid()
      modifies this`mem, book
      ensures Valid() && mem == Free(old(mem), b)
      ensures book.Value() == UnreserveAmount(if uncharge then FreeAccounting(old(book.Value()), k, n) else old(book.Value()), k, n)
    {
      mem := Free(mem, b);
      if uncharge {
        book.Uncharge(k, n);
      }
      book.Unreserve(k, n);
    }

    // ---------------------------------------------------------------- trimming

    /** pool_trim: deque after deque, in whatever order the hash map yields them. */
    method PoolTrim()
      requires Valid()
      modifies this`mem, pool, book
      ensures Valid() && StoreValue() == Trim(old(StoreValue()))
    {
      var keys := pool.deques.Keys;
      while keys != {}
        invariant Valid() && Trim(StoreValue()) == old(Trim(StoreValue()))
        invariant forall key :: key !in keys ==> Slots(pool.deques, key) == []
        decreases |keys|
      {
        var key :| key in keys;
        while |Slots(pool.deques, key)| > 0
          invariant Valid() && Trim(StoreValue()) == old(Trim(StoreValue()))
          invariant forall other :: other !in keys ==> Slots(pool.deques, other) == []
          decreases |Slots(pool.deques, key)|
        {
          FreeFront(key);
        }
        keys := keys - {key};
      }
      if pool.order != [] {
        SomeDeque(pool.order);
        assert false;
      }
      TrimEmpty(StoreValue());
    }

    /** Pop the oldest slot of a key and free it on its last owner's account. */
    method FreeFront(key: PoolKey)
      requires Valid() && |Slots(pool.deques, key)| > 0
      modifies this`mem, pool, book
      ensures Valid() && Trim(StoreValue()) == old(Trim(StoreValue()))
      ensures Slots(pool.deques, key) == old(Slots(pool.deques, key))[1..]
      ensures forall other :: other != key ==> Slots(pool.deques, other) == old(Slots(pool.deques, other))
    {
      ghost var st, i := StoreValue(), Position(pool.order, key, 0);
      var slot := pool.Remove(key, 0);
      FreeBacking(slot.backing, Charge(slot.lastOwner, key.domain));
      FreeSlotTrims(st, i);
    }

    // ---------------------------------------------------------------- handles

    /** validate_alive. */
    method ValidateAlive(h: nat) returns (r: Result<nat>)
      requires Valid()
      ensures r == Alive(Value(), h)
    {
      if h >= |tokens| || !tokens[h].live || tokens[h].kind != HandleToken {
        return Err(StaleHandle);
      }
      var c := tokens[h].ctl;
      if c >= |blocks| || c >= |recs| || recs[c].finalized {
        return Err(StaleHandle);
      }
      if tokens[h].gen != recs[c].generation {
        return Err(StaleGeneration);
      }
      var b := blocks[c].state;
      if b == RELEASED || b == QUARANTINED || b == INVALID {
        return Err(StaleHandle);
      }
      return Ok(c);
    }

    method CheckAccess(h: nat, want: AccessMode) returns (r: Result<nat>)
      requires Valid()
      ensures r == EnsureValid(Value(), h, want)
    {
      r := ValidateAlive(h);
      if r.Ok? && want == WRITE && recs[r.value].access == READ {
        r := Err(PermissionFailure);
      }
    }

    /** A new handle or view on control c. */
    method Hold(c: nat, k: TokenKind, gen: nat)
      requires Valid() && c < |blocks| && (k.HandleToken? || k.ViewToken?)
      modifies this`tokens, blocks[c]
      ensures Valid() && Value() == Take(old(Value()), c, k, gen)
    {
      blocks[c].Retain();
      tokens := tokens + [Token(k, c, gen, true)];
      assert ControlsOf(blocks) == old(ControlsOf(blocks))[c := blocks[c].Value()];
    }

    method Share(h: nat) returns (r: Result<nat>)
      requires Valid()
      modifies this`tokens, blocks
      ensures Valid() && (Value(), r) == Protocol.Share(old(Value()), h)
    {
      var a := ValidateAlive(h);
      if a.Err? {
        return Err(a.error);
      }
      r := Ok(|tokens|);
      Hold(a.value, HandleToken, tokens[h].gen);
    }

    method View(h: nat, offset: Size, length: Size, access: AccessMode) returns (r: Result<nat>)
      requires Valid()
      modifies this`tokens, blocks
      ensures Valid() && (Value(), r) == OpenView(old(Value()), h, offset, length, access)
    {
      var a := CheckAccess(h, access);
      if a.Err? {
        return Err(a.error);
      }
      var rec := recs[a.value];
      if !(rec.size <= MAX_SIZE && RangeInBounds(offset, length, rec.size)) {
        return Err(BoundsError);
      }
      if length == 0 {
        return Err(InvalidArgument);
      }
      r := Ok(|tokens|);
      Hold(a.value, ViewToken(HostBlock(rec), offset, length), tokens[h].gen);
    }

    method Map(h: nat, access: AccessMode) returns (r: Result<nat>)
      requires Valid()
      modifies this`tokens, blocks
      ensures Valid() && (Value(), r) == OpenMap(old(Value()), h, access)
    {
      var a := CheckAccess(h, access);
      if a.Err? {
        return Err(a.error);
      }
      var c, rec := a.value, recs[a.value];
      if rec.domain == DEVICE {
        return Err(UnsupportedCapability);
      }
      if rec.domain !in cfg.domains {
        return Err(UnsupportedDomain);
      }
      r := Ok(|tokens|);
      blocks[c].EnterMap();
      tokens := tokens + [Token(MapToken(Some(rec.backing.block)), c, tokens[h].gen, true)];
      assert ControlsOf(blocks) == old(ControlsOf(blocks))[c := blocks[c].Value()];
    }

    method TryLease(c: nat, kind: LeaseKind) returns (granted: bool)
      requires Valid() && c < |blocks|
      modifies blocks[c]
      ensures granted == !Conflicts(old(ControlsOf(blocks)[c]), kind)
      ensures ControlsOf(blocks) == if granted
                then old(ControlsOf(blocks))[c := Taken(old(ControlsOf(blocks)[c]), LeaseToken(kind))] else old(ControlsOf(blocks))
    {
      granted := blocks[c].Acquire(kind);
    }

    /** acquire_read, acquire_write and acquire_exclusive. */
    method Acquire(h: nat, kind: LeaseKind) returns (r: Result<nat>)
      requires Valid()
      modifies this`tokens, blocks
      ensures Valid() && (Value(), r) == Protocol.Acquire(old(Value()), h, kind)
    {
      var a := ValidateAlive(h);
      if a.Err? {
        return Err(a.error);
      }
      var c := a.value;
      var granted := TryLease(c, kind);
      if !granted {
        return Err(LeaseConflict);
      }
      r := Ok(|tokens|);
      tokens := tokens + [Token(LeaseToken(kind), c, tokens[h].gen, true)];
    }

    // ---------------------------------------------------------------- giving up

    /** The control block's part of a release: leases and maps leave, then the reference goes. */
    method Leave(c: nat, k: TokenKind) returns (last: bool)
      requires Valid() && c < |blocks|
      modifies blocks[c]
      ensures ControlsOf(blocks) == old(ControlsOf(blocks))[c := Dropped(old(ControlsOf(blocks)[c]), k)]
      ensures last == (old(ControlsOf(blocks)[c]).refs == 1)
    {
      match k {
        case HandleToken =>
        case LeaseToken(l) => blocks[c].LeaveLease(l);
        case MapToken(_) => blocks[c].LeaveMap();
        case ViewToken(_, _, _) =>
      }
      last := blocks[c].Unref();
    }

    method FinalizeControl(c: nat)
      requires Valid() && c < |blocks|
      modifies this`recs, this`mem, this`registry, this`frees, pool, book, blocks[c]
      ensures Valid() && Value() == Protocol.FinalizeControl(old(Value()), c)
    {
      if c < |recs| && !recs[c].finalized {
        FinalizeStore(c);
        blocks[c].state := RELEASED;
        assert ControlsOf(blocks) == old(ControlsOf(blocks))[c := blocks[c].Value()];
      }
    }

    /** release of a handle, lease, map or view, and every destructor. */
    method Release(t: nat)
      requires Valid()
      modifies this`recs, this`mem, this`registry, this`frees, this`tokens, pool, book, blocks
      ensures Valid() && Value() == Protocol.Release(old(Value()), t)
    {
      if t >= |tokens| || !tokens[t].live || tokens[t].ctl >= |blocks| {
        return;
      }
      var k := tokens[t];
      tokens := tokens[t := k.(live := false)];
      var last := Leave(k.ctl, k.kind);
      if last {
        FinalizeControl(k.ctl);
      }
    }

    method MoveAssign(dst: nat, src: nat)
      requires Valid()
      modifies this`recs, this`mem, this`registry, this`frees, this`tokens, pool, book, blocks
      ensures Valid() && Value() == Protocol.MoveAssign(old(Value()), dst, src)
    {
      if dst >= |tokens| || src >= |tokens| || dst == src || !SameClass(tokens[dst].kind, tokens[src].kind) {
        return;
      }
      Release(dst);
      if dst < |tokens| && src < |tokens| {
        var k := tokens[src];
        tokens := tokens[dst := k][src := k.(live := false)];
      }
    }

    // ---------------------------------------------------------------- runtime calls

    /** A new control block for the record just registered, and its first handle. */
    method Adopt(c: nat, ghost s: State, ghost st: Store)
      requires Valid() && Value() == s.(store := st)
      modifies this`blocks, this`tokens
      ensures Valid() && Value() == Adopted(s, (st, Ok(c))).0
      ensures |blocks| == |old(blocks)| + 1 && blocks[..|old(blocks)|] == old(blocks) && fresh(blocks[|old(blocks)|])
    {
      var ctl := new ControlBlock();
      ctl.Retain();
      ghost var before := blocks;
      blocks, tokens := blocks + [ctl], tokens + [Token(HandleToken, c, 1, true)];
      assert ControlsOf(blocks) == old(ControlsOf(blocks)) + [FirstHeld()];
    }

    /** Runtime::allocate. */
    method Allocate(req: Request, env: Env) returns (r: Result<nat>)
      requires Valid()
      modifies this, pool, book
      ensures Valid() && (Value(), r) == AllocateBuffer(old(Value()), req, env)
      ensures forall b :: b in blocks ==> b in old(blocks) || fresh(b)
    {
      var c := AllocateStore(req, env);
      if c.Err? {
        return Err(c.error);
      }
      r := Ok(|tokens|);
      Adopt(c.value, old(Value()), StoreValue());
    }

    /** Runtime::wrap_external. */
    method WrapExternal(x: ExternalMemory, fill: seq<Byte>) returns (r: Result<nat>)
      requires Valid()
      modifies this, pool, book
      ensures Valid() && (Value(), r) == Protocol.WrapExternal(old(Value()), x, fill)
      ensures forall b :: b in blocks ==> b in old(blocks) || fresh(b)
    {
      var c := WrapStore(x, fill);
      if c.Err? {
        return Err(c.error);
      }
      r := Ok(|tokens|);
      Adopt(c.value, old(Value()), StoreValue());
    }

    /** Runtime::migrate. */
    method Migrate(h: nat, target: Domain, env: Env) returns (r: Result<nat>)
      requires Valid()
      modifies this`recs, this`mem, this`tokens, book, blocks
      ensures Valid() && (Value(), r) == MigrateBuffer(old(Value()), h, target, env)
    {
      var a := ValidateAlive(h);
      if a.Err? {
        return Err(a.error);
      }
      var c := a.value;
      if recs[c].domain == target {
        r := Ok(|tokens|);
        Hold(c, HandleToken, tokens[h].gen);
        return;
      }
      if blocks[c].writeLeases > 0 || blocks[c].exclusiveLeases > 0 {
        return Err(LeaseConflict);
      }
      r := MoveAway(c, target, env);
    }

    /** The guards are passed: move the backing, and hand out a handle of the new generation. */
    method MoveAway(c: nat, target: Domain, env: Env) returns (r: Result<nat>)
      requires Valid() && c < |blocks| && c < |recs|
      modifies this`recs, this`mem, this`tokens, book, blocks
      ensures Valid() && (Value(), r) == Arrived(old(Value()), c, Storage.Migrate(old(StoreValue()), c, target, env))
    {
      var gen := recs[c].generation;
      var moved := MigrateStore(c, target, env);
      if moved.Err? {
        return Err(moved.error);
      }
      r := Ok(|tokens|);
      Arrive(c, gen, old(Value()), StoreValue());
    }

    method Arrive(c: nat, gen: nat, ghost s: State, ghost st: Store)
      requires Valid() && HasControl(s, c) && Value() == s.(store := st) && gen == s.store.recs[c].generation
      modifies this`tokens, blocks[c]
      ensures Valid() && Value() == Arrived(s, c, (st, Ok(()))).0
    {
      blocks[c].state := ALLOCATED;
      assert ControlsOf(blocks) == s.ctls[c := s.ctls[c].(state := ALLOCATED)];
      Hold(c, HandleToken, gen + 1);
    }

    method CopyFrom(h: nat, data: seq<Byte>, copyOk: bool) returns (r: Result<()>)
      requires Valid()
      modifies this`mem
      ensures Valid() && (Value(), r) == Protocol.CopyFrom(old(Value()), h, data, copyOk)
    {
      var a := CheckAccess(h, WRITE);
      if a.Err? {
        return Err(a.error);
      }
      var rec := recs[a.value];
      if |data| > rec.size || |data| > rec.backing.committed {
        return Err(BoundsError);
      }
      if rec.domain == DEVICE && !copyOk {
        return Err(BackendFailure);
      }
      mem := WritePrefix(mem, rec.backing.block, Written(data, rec.ns));
      return Ok(());
    }

    /** import_descriptor for same-runtime descriptors. */
    method Import(d: Descriptor, ns: NamespaceId) returns (r: Result<nat>)
      requires Valid() && LocalDomain(d.domain)
      modifies this`nextId, this`tokens, blocks
      ensures Valid() && (Value(), r) == ImportLocal(old(Value()), d, ns)
    {
      if d.version != FORMAT_VERSION || d.size == 0 || d.size > MAX_REQUEST {
        return Err(ImportFailure);
      }
      if d.alignment != 0 && Words.And(d.alignment, d.alignment - 1) != 0 {
        return Err(ImportFailure);
      }
      if ns !in nss {
        return Err(ImportFailure);
      }
      if (d.ns in nss && !nss[d.ns].allowImport) || !nss[ns].allowImport || d.ns != ns {
        return Err(PermissionFailure);
      }
      nextId := nextId + 1;
      if !d.local || d.id !in registry {
        return Err(ImportFailure);
      }
      var c := registry[d.id];
      if c >= |recs| || recs[c].generation != d.generation || c >= |blocks| {
        return Err(ImportFailure);
      }
      r := Ok(|tokens|);
      Hold(c, HandleToken, d.generation);
    }

    method CreateNamespace(c: NamespaceConfig)
      requires Valid()
      modifies this`nss
      ensures Valid() && StoreValue() == Storage.CreateNamespace(old(StoreValue()), c)
    {
      nss := nss[|nss| + 1 := c];
    }
  }
}
