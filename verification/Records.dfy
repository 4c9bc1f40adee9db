/** How one operation may change the table of records, and what follows for identity, generation and
    metadata: ids are never reused, the registry is exactly the live buffers, metadata stays checked. */
module Records {
  import opened Wrappers
  import opened Words
  import opened Types
  import opened SizeClass
  import opened Accounting
  import opened NativeMemory
  import opened Storage
  import opened Crc32c

  function Dead(r: Record): Record {
    r.(finalized := true)
  }

  /** Size and alignment that an importer accepts. */
  ghost predicate Portable(r: Record) {
    0 < r.size <= MAX_REQUEST && IsPow2(r.alignment)
  }

  /** A record as register_control receives it. */
  ghost predicate Born(st: Store, r: Record) {
    && !r.finalized && r.generation == 1 && r.metaCrc == 0
    && r.id == BufferId(st.cfg.idHi, st.nextId)
    && r.domain in st.cfg.domains
    && r.alignment > 0
    && (r.ownership != RUNTIME ==> !r.eligible && !r.poolable)
    && (r.exportable ==> Portable(r))
    && (r.eligible ==>
          && r.size <= MAX_REQUEST && r.alignment <= MAX_ALIGNMENT && IsPow2(r.alignment)
          && st.cfg.pool.minClassSize <= r.size && ClassOf(st.cfg.pool, r.size) <= st.cfg.pool.maxClassSize)
  }

  datatype Change =
    | Same
    | Added(r: Record)
    | Retired(c: nat)
    | Moved(c: nat, target: Domain, backing: Backing)

  ghost predicate Changes(st: Store, st': Store, ch: Change) {
    && st'.cfg == st.cfg
    && match ch
       case Same =>
         st'.recs == st.recs && st'.registry == st.registry && st'.nextId >= st.nextId
         && st'.allocations == st.allocations && st'.frees == st.frees
       case Added(r) =>
         Born(st, r) && st'.recs == st.recs + [r] && st'.registry == st.registry[r.id := |st.recs|]
         && st'.nextId == st.nextId + 1 && st'.allocations == st.allocations + 1 && st'.frees == st.frees
       case Retired(c) =>
         Live(st, c) && st'.recs == st.recs[c := Dead(st.recs[c])] && st'.registry == st.registry - {st.recs[c].id}
         && st'.nextId == st.nextId && st'.allocations == st.allocations && st'.frees == st.frees + 1
       case Moved(c, target, backing) =>
         Live(st, c) && target in st.cfg.domains && target != st.recs[c].domain
         && st'.recs == st.recs[c := Rebound(st.cfg, st.recs[c], target, backing)] && st'.registry == st.registry
         && st'.nextId == st.nextId && st'.allocations == st.allocations && st'.frees == st.frees
  }

  /** What an operation does to the records, read off its outcome. */
  function ChangeOf(st: Store, op: StoreOp): Change {
    match op
    case DoAllocate(req, env) =>
      var (st', r) := Allocate(st, req, env);
      if r.Ok? && |st'.recs| > 0 then Added(st'.recs[|st'.recs| - 1]) else Same
    case DoWrap(x, fill) =>
      var (st', r) := Wrap(st, x, fill);
      if r.Ok? && |st'.recs| > 0 then Added(st'.recs[|st'.recs| - 1]) else Same
    case DoFinalize(c) => if Live(st, c) then Retired(c) else Same
    case DoMigrate(c, target, env) =>
      if CanMigrate(st, c, target) && Migrate(st, c, target, env).1.Ok?
      then Moved(c, target, Migrate(st, c, target, env).0.recs[c].backing) else Same
    case _ => Same
  }

  lemma NewRecordBorn(st: Store, req: Request, plan: Plan, backing: Backing)
    requires Validate(st.cfg, req) == Ok(plan)
    ensures Born(st, NewRecord(st, req, plan, backing))
  {
    AcceptedPlan(st.cfg, req);
  }

  /** What a call that yields a new control did: it added exactly that record. */
  ghost predicate AddsOrFails(st: Store, r: (Store, Result<nat>)) {
    if r.1.Ok?
    then r.1.value == |st.recs| && |r.0.recs| == |st.recs| + 1 && Changes(st, r.0, Added(r.0.recs[|st.recs|]))
    else Changes(st, r.0, Same)
  }

  /** The stores agree on everything the records are about. */
  ghost predicate SameTables(st: Store, st': Store) {
    && st'.cfg == st.cfg && st'.recs == st.recs && st'.registry == st.registry
    && st'.allocations == st.allocations && st'.frees == st.frees
  }

  lemma RegisterAdds(st: Store, st1: Store, r: Record)
    requires SameTables(st, st1) && st1.nextId == st.nextId && Born(st, r)
    ensures AddsOrFails(st, (Register(st1, r), Ok(|st.recs|)))
  {
  }

  lemma FailureKeeps(st: Store, st': Store, e: ErrorCode)
    requires SameTables(st, st') && st'.nextId >= st.nextId
    ensures AddsOrFails(st, (st', Err(e)))
  {
  }

  lemma HitAdds(st: Store, req: Request, plan: Plan, acc: Accounts, i: nat, env: Env)
    requires i < |st.pool| && Validate(st.cfg, req) == Ok(plan)
    ensures AddsOrFails(st, AllocateHit(st, req, plan, acc, i, env))
  {
    var r, o := NewRecord(st, req, plan, st.pool[i].backing), AllocateHit(st, req, plan, acc, i, env);
    var st1 := TakeSlot(st, i).(acc := acc);
    NewRecordBorn(st, req, plan, st.pool[i].backing);
    assert r == NewRecord(st1, req, plan, st.pool[i].backing);
    if o.1.Err? {
      FailureKeeps(st, o.0, o.1.error);
    } else if WantZero(Policy(st.nss, req), Some(st.pool[i].lastOwner), req.ns) {
      RegisterAdds(st, st1.(mem := ZeroBlock(st1.mem, st.pool[i].backing.block)), r);
    } else {
      RegisterAdds(st, st1, r);
    }
  }

  lemma FreshAdds(st: Store, req: Request, plan: Plan, acc: Accounts, env: Env)
    requires Validate(st.cfg, req) == Ok(plan)
    ensures AddsOrFails(st, AllocateFresh(st, req, plan, acc, env))
  {
    var b, o := st.mem.next, AllocateFresh(st, req, plan, acc, env);
    var backing := Backing(b, plan.bytes, NativeAlignment(req.domain, plan.alignment));
    NewRecordBorn(st, req, plan, backing);
    if o.1.Err? {
      FailureKeeps(st, o.0, o.1.error);
    } else {
      var mem := Obtain(st.mem, Filled(plan.bytes, env.fill, Fresh));
      var acc1 := CommitAmount(acc, Charge(req.ns, req.domain), plan.bytes).value;
      RegisterAdds(
        st, st.(acc := acc1, mem := if WantZero(Policy(st.nss, req), None, req.ns) then ZeroBlock(mem, b) else mem),
        NewRecord(st, req, plan, backing));
    }
  }

  lemma AllocateAdds(st: Store, req: Request, env: Env)
    ensures AddsOrFails(st, Allocate(st, req, env))
  {
    var v := Validate(st.cfg, req);
    if v.Ok? {
      var plan := v.value;
      var a := ReserveFor(st, req, plan.bytes);
      if a.Ok? {
        var i := SlotFor(st, req, plan);
        if i < |st.pool| {
          HitAdds(st, req, plan, a.value, i, env);
        } else {
          FreshAdds(st, req, plan, a.value, env);
        }
      }
    }
  }

  lemma WrapAdds(st: Store, x: ExternalMemory, fill: seq<Byte>)
    ensures AddsOrFails(st, Wrap(st, x, fill))
  {
  }

  lemma FinalizeChanges(st: Store, c: nat)
    ensures Changes(st, Finalize(st, c), ChangeOf(st, DoFinalize(c)))
  {
  }

  lemma MigrateChanges(st: Store, c: nat, target: Domain, env: Env)
    requires CanMigrate(st, c, target)
    ensures Changes(st, Migrate(st, c, target, env).0, ChangeOf(st, DoMigrate(c, target, env)))
  {
  }

  lemma MigrateReservedKeepsPool(st: Store, c: nat, target: Domain, n: nat, acc: Accounts, env: Env)
    requires c < |st.recs|
    ensures
      var st' := MigrateReserved(st, c, target, n, acc, env).0;
      st'.cfg == st.cfg && st'.pool == st.pool && st'.poolCount == st.poolCount && st'.poolIdle == st.poolIdle
  {
  }

  lemma MigrateKeepsPool(st: Store, c: nat, target: Domain, env: Env)
    requires c < |st.recs|
    ensures
      var st' := Migrate(st, c, target, env).0;
      st'.cfg == st.cfg && st'.pool == st.pool && st'.poolCount == st.poolCount && st'.poolIdle == st.poolIdle
  {
    var r := st.recs[c];
    var n, k := MoveBytes(r), Charge(r.ns, target);
    var a := ReserveAmount(st.acc, k, CeilingOf(st.cfg, st.nss, k), n);
    if target in st.cfg.domains && a.Ok? {
      MigrateReservedKeepsPool(st, c, target, n, a.value, env);
    }
  }

  lemma StepChanges(st: Store, op: StoreOp)
    ensures Changes(st, Apply(st, op), ChangeOf(st, op))
  {
    match op
    case DoAllocate(req, env) => AllocateAdds(st, req, env);
    case DoWrap(x, fill) => WrapAdds(st, x, fill);
    case DoFinalize(c) => FinalizeChanges(st, c);
    case DoMigrate(c, target, env) =>
      if CanMigrate(st, c, target) {
        MigrateChanges(st, c, target, env);
      }
    case _ =>
  }

  // ------------------------------------------------------------------ identity

  /** What is always true of a record on its own. */
  ghost predicate Shaped(cfg: Config, r: Record) {
    && r.generation >= 1 && r.alignment > 0
    && (r.metaCrc == 0 || r.metaCrc == MetaCrc(r))
    && (r.ownership != RUNTIME ==> !r.eligible && !r.poolable)
    && (r.exportable ==> Portable(r))
    && (r.eligible ==>
          && r.size <= MAX_REQUEST && r.alignment <= MAX_ALIGNMENT && IsPow2(r.alignment)
          && cfg.pool.minClassSize <= r.size && ClassOf(cfg.pool, r.size) <= cfg.pool.maxClassSize)
  }

  ghost predicate AllShaped(st: Store) {
    forall i :: 0 <= i < |st.recs| ==> Shaped(st.cfg, st.recs[i])
  }

  /** Ids come from one counter: each lies below it, and later records have larger ones. */
  ghost predicate FreshIds(st: Store) {
    && (forall i :: 0 <= i < |st.recs| ==> st.recs[i].id.hi == st.cfg.idHi && st.recs[i].id.lo < st.nextId)
    && (forall i, j :: 0 <= i < j < |st.recs| ==> st.recs[i].id.lo < st.recs[j].id.lo)
  }

  /** The registry names exactly the buffers that are not finalized. */
  ghost predicate Registered(st: Store) {
    && (forall id :: id in st.registry ==> Live(st, st.registry[id]) && st.recs[st.registry[id]].id == id)
    && (forall i :: 0 <= i < |st.recs| && !st.recs[i].finalized ==>
          st.recs[i].id in st.registry && st.registry[st.recs[i].id] == i)
    && st.allocations == |st.recs|
    && st.allocations == st.frees + |st.registry|
  }

  ghost predicate Identified(st: Store) {
    AllShaped(st) && FreshIds(st) && Registered(st)
  }

  lemma AddedShaped(st: Store, st': Store, r: Record)
    requires AllShaped(st) && FreshIds(st) && Changes(st, st', Added(r))
    ensures AllShaped(st') && FreshIds(st')
  {
    assert Shaped(st.cfg, r);
    forall i | 0 <= i < |st.recs| ensures st'.recs[i] == st.recs[i] {
    }
  }

  /** The identifier of a new record is in no record and not registered. */
  lemma NewIdUnknown(st: Store, r: Record)
    requires FreshIds(st) && Registered(st) && r.id == BufferId(st.cfg.idHi, st.nextId)
    ensures r.id !in st.registry && forall i :: 0 <= i < |st.recs| ==> st.recs[i].id != r.id
  {
  }

  lemma AddedRegistered(st: Store, st': Store, r: Record)
    requires FreshIds(st) && Registered(st) && Changes(st, st', Added(r))
    ensures Registered(st')
  {
    NewIdUnknown(st, r);
    assert |st'.registry| == |st.registry| + 1;
    forall id | id in st'.registry ensures Live(st', st'.registry[id]) && st'.recs[st'.registry[id]].id == id {
      if id != r.id {
        assert st'.registry[id] == st.registry[id];
      }
    }
    forall i | 0 <= i < |st'.recs| && !st'.recs[i].finalized
      ensures st'.recs[i].id in st'.registry && st'.registry[st'.recs[i].id] == i
    {
      if i < |st.recs| {
        assert st'.recs[i] == st.recs[i];
      }
    }
  }

  lemma AddedIdentified(st: Store, st': Store, r: Record)
    requires Identified(st) && Changes(st, st', Added(r))
    ensures Identified(st')
  {
    AddedShaped(st, st', r);
    AddedRegistered(st, st', r);
  }

  lemma RetiredShaped(st: Store, st': Store, c: nat)
    requires AllShaped(st) && FreshIds(st) && Changes(st, st', Retired(c))
    ensures AllShaped(st') && FreshIds(st')
  {
    assert Shaped(st.cfg, st.recs[c]) && MetaCrc(st'.recs[c]) == MetaCrc(st.recs[c]);
  }

  lemma RetiredRegistered(st: Store, st': Store, c: nat)
    requires FreshIds(st) && Registered(st) && Changes(st, st', Retired(c))
    ensures Registered(st')
  {
    var id := st.recs[c].id;
    assert st'.registry.Keys == st.registry.Keys - {id};
    forall i | 0 <= i < |st'.recs| && !st'.recs[i].finalized
      ensures st'.recs[i].id in st'.registry && st'.registry[st'.recs[i].id] == i
    {
      assert st'.recs[i] == st.recs[i];
      assert i < c || c < i;
    }
  }

  lemma RetiredIdentified(st: Store, st': Store, c: nat)
    requires Identified(st) && Changes(st, st', Retired(c))
    ensures Identified(st')
  {
    RetiredShaped(st, st', c);
    RetiredRegistered(st, st', c);
  }

  lemma MovedShaped(st: Store, st': Store, c: nat, target: Domain, backing: Backing)
    requires AllShaped(st) && Changes(st, st', Moved(c, target, backing))
    ensures AllShaped(st')
  {
    var r := st'.recs[c];
    assert Shaped(st.cfg, st.recs[c]);
    assert MetaCrc(r.(metaCrc := st.recs[c].metaCrc)) == MetaCrc(r);
  }

  lemma MovedTables(st: Store, st': Store, c: nat, target: Domain, backing: Backing, i: nat)
    requires Changes(st, st', Moved(c, target, backing)) && i < |st.recs|
    ensures |st'.recs| == |st.recs| && st'.recs[i].id == st.recs[i].id && st'.recs[i].finalized == st.recs[i].finalized
  {
  }

  lemma SameIdentities(st: Store, st': Store)
    requires FreshIds(st) && Registered(st) && |st'.recs| == |st.recs| && st'.registry == st.registry
    requires st'.cfg == st.cfg && st'.nextId == st.nextId && st'.allocations == st.allocations && st'.frees == st.frees
    requires forall i :: 0 <= i < |st.recs| ==> st'.recs[i].id == st.recs[i].id && st'.recs[i].finalized == st.recs[i].finalized
    ensures FreshIds(st') && Registered(st')
  {
  }

  lemma MovedRegistered(st: Store, st': Store, c: nat, target: Domain, backing: Backing)
    requires FreshIds(st) && Registered(st) && Changes(st, st', Moved(c, target, backing))
    ensures FreshIds(st') && Registered(st')
  {
    forall i: nat | i < |st.recs|
      ensures st'.recs[i].id == st.recs[i].id && st'.recs[i].finalized == st.recs[i].finalized
    {
      MovedTables(st, st', c, target, backing, i);
    }
    SameIdentities(st, st');
  }

  lemma MovedIdentified(st: Store, st': Store, c: nat, target: Domain, backing: Backing)
    requires Identified(st) && Changes(st, st', Moved(c, target, backing))
    ensures Identified(st')
  {
    MovedShaped(st, st', c, target, backing);
    MovedRegistered(st, st', c, target, backing);
  }

  lemma StepIdentified(st: Store, op: StoreOp)
    requires Identified(st)
    ensures Identified(Apply(st, op))
  {
    StepChanges(st, op);
    var st' := Apply(st, op);
    match ChangeOf(st, op)
    case Same =>
    case Added(r) => AddedIdentified(st, st', r);
    case Retired(c) => RetiredIdentified(st, st', c);
    case Moved(c, target, backing) => MovedIdentified(st, st', c, target, backing);
  }

  /** lookup: the buffer of this id, if the generation is the current one. */
  function Lookup(st: Store, id: BufferId, generation: nat): Result<nat> {
    if id !in st.registry then Err(StaleHandle)
    else if st.registry[id] >= |st.recs| then Err(StaleHandle)
    else if st.recs[st.registry[id]].generation != generation then Err(StaleGeneration)
    else Ok(st.registry[id])
  }

  /** A lookup finds buffer c exactly while it is not finalized and has that generation. */
  lemma LookupExact(st: Store, c: nat, generation: nat)
    requires Identified(st) && c < |st.recs|
    ensures Lookup(st, st.recs[c].id, generation) == Ok(c) <==> Live(st, c) && st.recs[c].generation == generation
    ensures Lookup(st, st.recs[c].id, generation).Ok? ==> Lookup(st, st.recs[c].id, generation) == Ok(c)
  {
    var id := st.recs[c].id;
    if id in st.registry {
      var d := st.registry[id];
      assert d == c || d < c || c < d;
    }
  }
}
