/** What callers can rely on in every run: leases exclude each other, a buffer lives exactly as long as
    an object refers to it, pointers are good exactly while their generation is current, and once the
    last object is gone nothing is left. */
module Lifetimes {
  import opened Wrappers
  import opened Types
  import opened Sums
  import opened Accounting
  import opened NativeMemory
  import opened Storage
  import opened Records
  import opened Ownership
  import opened Contents
  import opened Protocol
  import opened Tokens
  import opened Runs
  import Conservation
  import Provenance

  // ------------------------------------------------------------------ leases

  predicate HoldsLease(t: Token, c: nat, k: LeaseKind) {
    t.live && t.ctl == c && t.kind == LeaseToken(k)
  }

  /** A lease counter is positive exactly if a lease object of that kind exists. */
  lemma LeaseCounter(s: State, c: nat, k: LeaseKind)
    requires Consistent(s) && c < |s.ctls|
    ensures Count(s.ctls[c], Leases(k)) > 0 <==> exists t :: 0 <= t < |s.tokens| && HoldsLease(s.tokens[t], c, k)
  {
    if t :| 0 <= t < |s.tokens| && HoldsLease(s.tokens[t], c, k) {
      HolderCounts(s.ctls, s.tokens, t, Leases(k));
    } else {
      SumZero(s.tokens, Tally(c, Leases(k)));
    }
  }

  /** An object that is a lease on control c, of whatever kind. */
  predicate AnyLease(t: Token, c: nat) {
    t.live && t.ctl == c && t.kind.LeaseToken?
  }

  /** Readers and a single writer: a lease is granted if and only if the handle is alive and every lease
      object on that buffer is a read lease, wanted for reading. */
  lemma AcquireExact(s: State, h: nat, k: LeaseKind)
    requires Consistent(s)
    ensures Acquire(s, h, k).1.Ok? <==>
            && Alive(s, h).Ok?
            && forall t :: 0 <= t < |s.tokens| && AnyLease(s.tokens[t], Alive(s, h).value) ==>
                 k == READ_LEASE && s.tokens[t].kind.lease == READ_LEASE
  {
    if Alive(s, h).Ok? {
      var c := Alive(s, h).value;
      AliveMeans(s, h);
      LeaseCounter(s, c, READ_LEASE);
      LeaseCounter(s, c, WRITE_LEASE);
      LeaseCounter(s, c, EXCLUSIVE_LEASE);
      forall t | 0 <= t < |s.tokens| && AnyLease(s.tokens[t], c) ensures HoldsLease(s.tokens[t], c, s.tokens[t].kind.lease) {
      }
      forall t, l | 0 <= t < |s.tokens| && HoldsLease(s.tokens[t], c, l) ensures AnyLease(s.tokens[t], c) {
      }
    }
  }

  /** A migration that changes the domain is refused with a lease conflict if and only if a write or
      exclusive lease object on the buffer exists. */
  lemma MigrateConflictExact(s: State, h: nat, target: Domain, env: Env)
    requires Consistent(s) && Alive(s, h).Ok? && s.store.recs[Alive(s, h).value].domain != target
    ensures !MovesAway(s, h, target) <==>
            exists t :: 0 <= t < |s.tokens| && AnyLease(s.tokens[t], Alive(s, h).value) && s.tokens[t].kind.lease != READ_LEASE
    ensures !MovesAway(s, h, target) ==> MigrateBuffer(s, h, target, env) == (s, Err(LeaseConflict))
  {
    var c := Alive(s, h).value;
    AliveMeans(s, h);
    LeaseCounter(s, c, WRITE_LEASE);
    LeaseCounter(s, c, EXCLUSIVE_LEASE);
    forall t | 0 <= t < |s.tokens| && AnyLease(s.tokens[t], c) ensures HoldsLease(s.tokens[t], c, s.tokens[t].kind.lease) {
    }
    forall t, l | 0 <= t < |s.tokens| && HoldsLease(s.tokens[t], c, l)
      ensures AnyLease(s.tokens[t], c) && s.tokens[t].kind.lease == l
    {
    }
  }

  /** Two leases on one buffer are both read leases. */
  lemma LeasesExclude(s: State, t: nat, u: nat)
    requires Consistent(s) && t < u < |s.tokens| && s.tokens[t].ctl == s.tokens[u].ctl
    requires AnyLease(s.tokens[t], s.tokens[t].ctl) && AnyLease(s.tokens[u], s.tokens[t].ctl)
    ensures s.tokens[t].kind.lease == READ_LEASE && s.tokens[u].kind.lease == READ_LEASE
  {
    var c, a, b := s.tokens[t].ctl, s.tokens[t].kind.lease, s.tokens[u].kind.lease;
    HolderCounts(s.ctls, s.tokens, t, Leases(a));
    HolderCounts(s.ctls, s.tokens, u, Leases(b));
    if a == b {
      SumPair(s.tokens, t, u, Tally(c, Leases(a)));
    }
    assert ControlOk(s.ctls[c], s.store.recs[c].finalized);
  }

  // ------------------------------------------------------------------ lifetime

  /** A buffer is finalized if and only if no object refers to it any more. */
  lemma FinalizedExactly(s: State, c: nat)
    requires Consistent(s) && c < |s.ctls|
    ensures s.store.recs[c].finalized <==> forall t :: 0 <= t < |s.tokens| && s.tokens[t].live ==> s.tokens[t].ctl != c
  {
    assert ControlOk(s.ctls[c], s.store.recs[c].finalized);
    if t :| 0 <= t < |s.tokens| && s.tokens[t].live && s.tokens[t].ctl == c {
      HolderCounts(s.ctls, s.tokens, t, References);
    } else {
      SumZero(s.tokens, Tally(c, References));
      assert Count(s.ctls[c], References) == 0;
    }
  }

  /** The objects that refer to control c, counted one by one. */
  lemma ReferencesAreObjects(s: State, c: nat)
    requires Consistent(s) && c < |s.ctls|
    ensures s.ctls[c].refs == Sum(s.tokens, Tally(c, References))
    ensures s.ctls[c].refs >= s.ctls[c].readLeases + s.ctls[c].writeLeases + s.ctls[c].exclusiveLeases + s.ctls[c].mapCount
  {
    assert Count(s.ctls[c], References) == Sum(s.tokens, Tally(c, References));
    SumOfKinds(s.tokens, c);
    assert Count(s.ctls[c], Leases(READ_LEASE)) == Sum(s.tokens, Tally(c, Leases(READ_LEASE)));
    assert Count(s.ctls[c], Leases(WRITE_LEASE)) == Sum(s.tokens, Tally(c, Leases(WRITE_LEASE)));
    assert Count(s.ctls[c], Leases(EXCLUSIVE_LEASE)) == Sum(s.tokens, Tally(c, Leases(EXCLUSIVE_LEASE)));
    assert Count(s.ctls[c], Maps) == Sum(s.tokens, Tally(c, Maps));
  }

  lemma {:induction false} SumOfKinds(tokens: seq<Token>, c: nat)
    ensures Sum(tokens, Tally(c, References))
         >= Sum(tokens, Tally(c, Leases(READ_LEASE))) + Sum(tokens, Tally(c, Leases(WRITE_LEASE)))
            + Sum(tokens, Tally(c, Leases(EXCLUSIVE_LEASE))) + Sum(tokens, Tally(c, Maps))
  {
    if tokens != [] {
      SumOfKinds(tokens[1..], c);
    }
  }

  /** The object that goes last leaves the control ALLOCATED before finalize makes it RELEASED. */
  lemma LastDropAllocated(s: State, t: nat)
    requires Consistent(s) && t < |s.tokens| && s.tokens[t].live && s.ctls[s.tokens[t].ctl].refs == 1
    ensures Dropped(s.ctls[s.tokens[t].ctl], s.tokens[t].kind).state == ALLOCATED
  {
    var c, k := s.tokens[t].ctl, s.tokens[t].kind;
    ReferencesAreObjects(s, c);
    assert ControlOk(s.ctls[c], s.store.recs[c].finalized);
    if k.LeaseToken? {
      HolderCounts(s.ctls, s.tokens, t, Leases(k.lease));
    } else if k.MapToken? {
      HolderCounts(s.ctls, s.tokens, t, Maps);
    } else {
      OthersToo(s.tokens, c, t);
    }
  }

  /** A handle or view is a reference beside all leases and maps. */
  lemma OthersToo(tokens: seq<Token>, c: nat, t: nat)
    requires t < |tokens| && tokens[t].live && tokens[t].ctl == c && (tokens[t].kind.HandleToken? || tokens[t].kind.ViewToken?)
    ensures Sum(tokens, Tally(c, References))
         >= 1 + Sum(tokens, Tally(c, Leases(READ_LEASE))) + Sum(tokens, Tally(c, Leases(WRITE_LEASE)))
            + Sum(tokens, Tally(c, Leases(EXCLUSIVE_LEASE))) + Sum(tokens, Tally(c, Maps))
  {
    var rest := RemoveAt(tokens, t);
    SumRemove(tokens, t, Tally(c, References));
    SumRemove(tokens, t, Tally(c, Leases(READ_LEASE)));
    SumRemove(tokens, t, Tally(c, Leases(WRITE_LEASE)));
    SumRemove(tokens, t, Tally(c, Leases(EXCLUSIVE_LEASE)));
    SumRemove(tokens, t, Tally(c, Maps));
    SumOfKinds(rest, c);
  }

  /** finalize_by_id, as far as it can get: it locks the control and then calls finalize, which locks it
      again, so an answer of Ok would never arrive for a buffer that is still to be finalized. */
  function Invalidate(s: State, id: BufferId): Result<()> {
    if id !in s.store.registry || s.store.registry[id] >= |s.ctls| then Err(StaleHandle)
    else if s.ctls[s.store.registry[id]].refs > 0 then Err(ResourceBusy)
    else Ok(())
  }

  /** That point is never reached: a registered buffer always has references, so an id is either busy or
      unknown. */
  lemma InvalidateNeverFinalizes(s: State, id: BufferId)
    requires Coherent(s)
    ensures Invalidate(s, id) == if id in s.store.registry then Err(ResourceBusy) else Err(StaleHandle)
  {
    if id in s.store.registry {
      var c := s.store.registry[id];
      assert Live(s.store, c);
      assert ControlOk(s.ctls[c], false);
    }
  }

  /** The controls that shutdown finalizes itself: registered and without references. */
  predicate Abandoned(s: State, id: BufferId) {
    id in s.store.registry && s.store.registry[id] < |s.ctls| && s.ctls[s.store.registry[id]].refs == 0
  }

  /** There are none: every buffer that shutdown finds is finalized by its own last object instead. */
  lemma ShutdownFindsNone(s: State, id: BufferId)
    requires Coherent(s)
    ensures !Abandoned(s, id)
  {
    if id in s.store.registry {
      assert Live(s.store, s.store.registry[id]);
      assert ControlOk(s.ctls[s.store.registry[id]], false);
    }
  }

  // ------------------------------------------------------------------ generations and pointers

  /** The step is a migration of buffer c that succeeds and is not a mere re-share. */
  predicate Migrated(s: State, op: Op, c: nat) {
    && op.MigrateOp? && Alive(s, op.h) == Ok(c) && MovesAway(s, op.h, op.target)
    && Migrate(s.store, c, op.target, op.env).1.Ok?
  }

  predicate MovesRecord(ch: Change, c: nat) {
    ch.Moved? && ch.c == c
  }

  lemma ChangedGeneration(st: Store, st': Store, ch: Change, c: nat)
    requires Changes(st, st', ch) && c < |st.recs|
    ensures c < |st'.recs| && st'.recs[c].id == st.recs[c].id
    ensures st'.recs[c].generation == st.recs[c].generation + if MovesRecord(ch, c) then 1 else 0
  {
  }

  lemma OnlyMigrationMoves(st: Store, op: StoreOp, c: nat)
    ensures MovesRecord(ChangeOf(st, op), c) <==>
            op.DoMigrate? && op.c == c && CanMigrate(st, c, op.target) && Migrate(st, c, op.target, op.env).1.Ok?
  {
  }

  lemma OtherOps(s: State, op: Op)
    requires !op.MigrateOp? && StoreOpOf(s, op).Some?
    ensures !StoreOpOf(s, op).value.DoMigrate?
  {
  }

  lemma MigratedMoves(s: State, op: Op, c: nat)
    requires c < |s.store.recs|
    ensures Migrated(s, op, c) <==> StoreOpOf(s, op).Some? && MovesRecord(ChangeOf(s.store, StoreOpOf(s, op).value), c)
  {
    if StoreOpOf(s, op).Some? {
      OnlyMigrationMoves(s.store, StoreOpOf(s, op).value, c);
      if op.MigrateOp? {
        AliveMeans(s, op.h);
      } else {
        OtherOps(s, op);
      }
    }
  }

  lemma StepGeneration(s: State, op: Op, c: nat)
    requires c < |s.store.recs|
    ensures
      var st, st' := s.store, Step(s, op).store;
      && c < |st'.recs| && st'.recs[c].id == st.recs[c].id
      && st'.recs[c].generation == st.recs[c].generation + if Migrated(s, op, c) then 1 else 0
  {
    StepProjects(s, op);
    MigratedMoves(s, op, c);
    match StoreOpOf(s, op)
    case None =>
    case Some(o) =>
      StepChanges(s.store, o);
      ChangedGeneration(s.store, Apply(s.store, o), ChangeOf(s.store, o), c);
  }

  function Migrations(s: State, ops: seq<Op>, c: nat): nat
    decreases |ops|
  {
    if ops == [] then 0
    else (if Migrated(s, ops[0], c) then 1 else 0) + Migrations(Step(s, ops[0]), ops[1..], c)
  }

  /** The generation counts the migrations; the identity never changes. */
  lemma {:induction false} GenerationCounts(s: State, ops: seq<Op>, c: nat)
    requires Coherent(s) && c < |s.store.recs|
    ensures
      var s' := StepAll(s, ops);
      && c < |s'.store.recs|
      && s'.store.recs[c].generation == s.store.recs[c].generation + Migrations(s, ops, c)
      && s'.store.recs[c].id == s.store.recs[c].id
    decreases |ops|
  {
    if ops != [] {
      StepGeneration(s, ops[0], c);
      StepCoherent(s, ops[0]);
      GenerationCounts(Step(s, ops[0]), ops[1..], c);
    }
  }

  /** Once a generation is superseded, no handle that carries it is ever accepted again. */
  lemma StaleForever(s: State, ops: seq<Op>, c: nat, gen: nat, h: nat)
    requires Coherent(s) && c < |s.store.recs| && gen < s.store.recs[c].generation
    requires
      var s' := StepAll(s, ops);
      h < |s'.tokens| && s'.tokens[h] == Token(HandleToken, c, gen, true)
    ensures Alive(StepAll(s, ops), h) == Err(StaleGeneration)
  {
    GenerationCounts(s, ops, c);
    RunFrom(s, ops);
    var s' := StepAll(s, ops);
    FinalizedExactly(s', c);
    assert ControlOk(s'.ctls[c], s'.store.recs[c].finalized);
  }

  /** A map or view points at memory that exists if and only if its generation is current; then it sees
      exactly the buffer's bytes, and a view's range lies inside them. */
  lemma PointerExact(s: State, t: nat, b: Block)
    requires Coherent(s) && Safe(s.store) && t < |s.tokens| && s.tokens[t].live
    requires (s.tokens[t].kind.MapToken? || s.tokens[t].kind.ViewToken?) && s.tokens[t].kind.at == Some(b)
    ensures
      var k := s.tokens[t];
      && k.ctl < |s.store.recs|
      && (b in s.store.mem.heap <==> k.gen == s.store.recs[k.ctl].generation)
      && (k.gen == s.store.recs[k.ctl].generation ==>
            && Content(s.store.mem, b) == Cells(s.store, k.ctl)
            && (k.kind.ViewToken? ==> k.kind.offset + k.kind.length <= |Content(s.store.mem, b)|))
  {
    var k := s.tokens[t];
    assert TokenOk(s.store, k);
    FinalizedExactly(s, k.ctl);
    assert RecordOk(s.store.cfg, s.store.mem, s.store.recs[k.ctl]);
  }

  /** So it is in every run, whatever backends answer and callers do. */
  lemma RunPointers(cfg: Config, nss: map<NamespaceId, NamespaceConfig>, ops: seq<Op>, t: nat, b: Block)
    requires
      var s := StepAll(InitState(cfg, nss), ops);
      && t < |s.tokens| && s.tokens[t].live
      && (s.tokens[t].kind.MapToken? || s.tokens[t].kind.ViewToken?) && s.tokens[t].kind.at == Some(b)
    ensures
      var s := StepAll(InitState(cfg, nss), ops);
      && s.tokens[t].ctl < |s.store.recs|
      && (b in s.store.mem.heap <==> s.tokens[t].gen == s.store.recs[s.tokens[t].ctl].generation)
  {
    RunSafe(cfg, nss, ops);
    PointerExact(StepAll(InitState(cfg, nss), ops), t, b);
  }

  // ------------------------------------------------------------------ nothing left

  ghost predicate Quiet(s: State) {
    forall t :: 0 <= t < |s.tokens| ==> !s.tokens[t].live
  }

  /** When the last object is gone every buffer is finalized and the registry is empty. */
  lemma QuietMeansFinalized(s: State)
    requires Coherent(s) && Quiet(s)
    ensures forall c :: 0 <= c < |s.store.recs| ==> s.store.recs[c].finalized
    ensures s.store.registry == map[]
  {
    forall c: nat | c < |s.store.recs| ensures s.store.recs[c].finalized {
      FinalizedExactly(s, c);
    }
    assert forall id :: id !in s.store.registry;
  }

  /** No leak and no double free: after the last object and a trim, every block the runtime ever obtained
      has been freed exactly once and every borrowed one has gone back to its lender exactly once. */
  lemma NothingLeaks(s: State, b: Block)
    requires Coherent(s) && Sound(s.store) && Quiet(s) && b < s.store.mem.next
    ensures
      var m := Trim(s.store).mem;
      && (if b in m.lent then Get(m.returned, b) == 1 && Get(m.freed, b) == 0
          else Get(m.freed, b) == 1 && Get(m.returned, b) == 0)
      && (b in m.heap <==> b in m.lent)
  {
    QuietMeansFinalized(s);
    TrimKeeps(s.store);
    KeptOwnership(s.store, Trim(s.store));
    EmptiedOut(Trim(s.store), b);
  }

  /** A store without live buffers and idle slots. */
  lemma EmptiedOut(st: Store, b: Block)
    requires Linear(st) && HeapOk(st.mem) && Lending(st) && st.pool == [] && b < st.mem.next
    requires forall c :: 0 <= c < |st.recs| ==> st.recs[c].finalized
    ensures
      var m := st.mem;
      && (if b in m.lent then Get(m.returned, b) == 1 && Get(m.freed, b) == 0
          else Get(m.freed, b) == 1 && Get(m.returned, b) == 0)
      && (b in m.heap <==> b in m.lent)
  {
    SumZero(st.recs, HoldsBlock(b));
    assert Places(st, b) == 1;
  }

  /** And the books read zero: every account is empty, as long as no pool hit crossed namespaces. */
  lemma NothingCharged(s: State, k: Charge)
    requires Coherent(s) && Quiet(s) && Conservation.Exact(s.store)
    ensures Trim(s.store).acc.Committed(k) == 0
  {
    QuietMeansFinalized(s);
    Conservation.DrainedToZero(s.store, k);
  }

  // ------------------------------------------------------------------ from the first call to the last

  /** No leak, no double free, over every regular run that ends with all objects released and a trim. */
  lemma RunLeavesNothing(cfg: Config, nss: map<NamespaceId, NamespaceConfig>, ops: seq<Op>, b: Block)
    requires Meets(Regular, InitState(cfg, nss), ops)
    requires Quiet(StepAll(InitState(cfg, nss), ops)) && b < StepAll(InitState(cfg, nss), ops).store.mem.next
    ensures
      var m := Trim(StepAll(InitState(cfg, nss), ops).store).mem;
      if b in m.lent then Get(m.returned, b) == 1 && Get(m.freed, b) == 0
      else Get(m.freed, b) == 1 && Get(m.returned, b) == 0 && b !in m.heap
  {
    RunOwned(cfg, nss, ops);
    NothingLeaks(StepAll(InitState(cfg, nss), ops), b);
  }

  /** The books return to zero over every such run without a crossing pool hit. */
  lemma RunBalances(cfg: Config, nss: map<NamespaceId, NamespaceConfig>, ops: seq<Op>, k: Charge)
    requires Meets(Conservation.Balancing, InitState(cfg, nss), ops) && Quiet(StepAll(InitState(cfg, nss), ops))
    ensures Trim(StepAll(InitState(cfg, nss), ops).store).acc.Committed(k) == 0
  {
    RunCoherent(cfg, nss, ops);
    RunProjects(Conservation.Balancing, InitState(cfg, nss), ops);
    Conservation.RunExact(cfg, nss, History(InitState(cfg, nss), ops));
    NothingCharged(StepAll(InitState(cfg, nss), ops), k);
  }

  /** Namespaces stay apart over every run whose allocations zero what comes from another namespace. */
  lemma RunIsolates(cfg: Config, nss: map<NamespaceId, NamespaceConfig>, ops: seq<Op>)
    requires Meets(Provenance.Guarded, InitState(cfg, nss), ops)
    ensures Provenance.Private(StepAll(InitState(cfg, nss), ops).store)
  {
    RunProjects(Provenance.Guarded, InitState(cfg, nss), ops);
    Provenance.GuardedRunPrivate(cfg, nss, History(InitState(cfg, nss), ops));
  }
}
