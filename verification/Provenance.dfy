/** Whose bytes a buffer can hold: the zeroing policies as an isolation property between namespaces. */
module Provenance {
  import opened Wrappers
  import opened Types
  import opened Sums
  import opened SizeClass
  import opened Accounting
  import opened NativeMemory
  import opened Storage
  import opened Records
  import opened Ownership
  import opened Contents
  import opened Conservation
  import Crc32c

  /** A byte that namespace ns may see: fresh from the backend, a zero of the runtime, or its own; in
      wrapped memory also what the caller had there. */
  predicate Allowed(cell: Cell, ns: NamespaceId, wrapped: bool) {
    match cell.origin
    case Fresh => true
    case Zeroed => cell.value == 0
    case Wrote(writer) => writer == ns
    case External => wrapped
  }

  ghost predicate Mine(cells: seq<Cell>, ns: NamespaceId, wrapped: bool) {
    forall i :: 0 <= i < |cells| ==> Allowed(cells[i], ns, wrapped)
  }

  /** Buffer c holds only what its namespace may see. */
  ghost predicate Own(st: Store, c: nat)
    requires c < |st.recs|
  {
    Mine(Cells(st, c), st.recs[c].ns, st.recs[c].ownership != RUNTIME)
  }

  /** Idle slot i holds only what its last owner may see. */
  ghost predicate OwnSlot(st: Store, i: nat)
    requires i < |st.pool|
  {
    Mine(Content(st.mem, st.pool[i].backing.block), st.pool[i].lastOwner, false)
  }

  ghost predicate Private(st: Store) {
    && (forall c :: 0 <= c < |st.recs| && !st.recs[c].finalized ==> Own(st, c))
    && (forall i :: 0 <= i < |st.pool| ==> OwnSlot(st, i))
  }

  /** The request is served from a slot with another namespace's bytes, and its policy does not zero it. */
  ghost predicate Leaks(st: Store, req: Request) {
    Hits(st, req) &&
    var e := st.pool[SlotFor(st, req, Validate(st.cfg, req).value)];
    !WantZero(Policy(st.nss, req), Some(e.lastOwner), req.ns) && !Mine(Content(st.mem, e.backing.block), req.ns, false)
  }

  // ------------------------------------------------------------------ steps

  /** A store that differs only outside the blocks in use stays private. */
  lemma PrivateFrame(st: Store, st': Store)
    requires Private(st) && st'.pool == st.pool && |st'.recs| == |st.recs|
    requires forall c :: 0 <= c < |st.recs| ==> st'.recs[c].finalized == st.recs[c].finalized
    requires forall c :: Live(st, c) ==> Survives(st, st', c)
    requires forall i :: 0 <= i < |st.pool| ==> Content(st'.mem, st.pool[i].backing.block) == Content(st.mem, st.pool[i].backing.block)
    ensures Private(st')
  {
    forall c | 0 <= c < |st'.recs| && !st'.recs[c].finalized ensures Own(st', c) {
      assert Live(st, c) && Survives(st, st', c) && Own(st, c);
    }
    forall i | 0 <= i < |st'.pool| ensures OwnSlot(st', i) {
      assert OwnSlot(st, i);
    }
  }

  /** A new record joins: the store is private exactly if the record's own cells are. */
  lemma PrivateAdded(st: Store, st': Store, r: Record)
    requires Private(st) && st'.recs == st.recs + [r] && !r.finalized
    requires forall i :: 0 <= i < |st'.pool| ==> st'.pool[i] in st.pool
    requires forall c :: Live(st, c) ==> Survives(st, st', c)
    requires forall i :: 0 <= i < |st'.pool| ==> Content(st'.mem, st'.pool[i].backing.block) == Content(st.mem, st'.pool[i].backing.block)
    ensures Private(st') <==> Own(st', |st.recs|)
  {
    assert st'.recs[|st.recs|] == r;
    if Own(st', |st.recs|) {
      forall c | 0 <= c < |st'.recs| && !st'.recs[c].finalized ensures Own(st', c) {
        if c < |st.recs| {
          assert st'.recs[c] == st.recs[c];
          assert Live(st, c) && Survives(st, st', c) && Own(st, c);
        }
      }
      forall i | 0 <= i < |st'.pool| ensures OwnSlot(st', i) {
        var j :| 0 <= j < |st.pool| && st.pool[j] == st'.pool[i];
        assert OwnSlot(st, j);
      }
    }
  }

  /** Fewer slots and nothing else. */
  lemma PrivateFewer(st: Store, st': Store)
    requires Private(st) && st'.recs == st.recs && st'.mem == st.mem
    requires forall i :: 0 <= i < |st'.pool| ==> st'.pool[i] in st.pool
    ensures Private(st')
  {
    forall c | 0 <= c < |st'.recs| && !st'.recs[c].finalized ensures Own(st', c) {
      assert Own(st, c);
    }
    forall i | 0 <= i < |st'.pool| ensures OwnSlot(st', i) {
      var j :| 0 <= j < |st.pool| && st.pool[j] == st'.pool[i];
      assert OwnSlot(st, j);
    }
  }

  /** A pool hit leaves the store private if and only if it does not leak. */
  lemma HitPrivate(st: Store, req: Request, plan: Plan, acc: Accounts, i: nat, env: Env)
    requires Disjoint(st) && Private(st) && i < |st.pool|
    ensures
      var e := st.pool[i];
      Private(AllocateHit(st, req, plan, acc, i, env).0) <==>
      (WantZero(Policy(st.nss, req), Some(e.lastOwner), req.ns) || Mine(Content(st.mem, e.backing.block), req.ns, false))
  {
    var (st', o) := AllocateHit(st, req, plan, acc, i, env);
    if o.Err? {
      PrivateFewer(st, st');
    } else {
      forall c: nat | Live(st, c) ensures Survives(st, st', c) {
        HitCells(st, req, plan, acc, i, env, c);
      }
      forall j | 0 <= j < |st'.pool|
        ensures Content(st'.mem, st'.pool[j].backing.block) == Content(st.mem, st'.pool[j].backing.block)
      {
        HitSlot(st, req, plan, acc, i, env, j);
      }
      PrivateAdded(st, st', st'.recs[|st.recs|]);
      assert SlotOk(st.cfg, st.mem, st.pool[i]);
    }
  }

  lemma HitSlot(st: Store, req: Request, plan: Plan, acc: Accounts, i: nat, env: Env, j: nat)
    requires Unique(st) && i < |st.pool| && j < |st.pool| - 1
    ensures
      var st', b := AllocateHit(st, req, plan, acc, i, env).0, RemoveAt(st.pool, i)[j].backing.block;
      st'.pool == RemoveAt(st.pool, i) && Content(st'.mem, b) == Content(st.mem, b)
  {
    if j < i {
      IdleApart(st, j, i);
    } else {
      IdleApart(st, i, j + 1);
    }
  }

  lemma FreshSlot(st: Store, req: Request, plan: Plan, acc: Accounts, env: Env, j: nat)
    requires Unique(st) && j < |st.pool|
    ensures
      var st' := AllocateFresh(st, req, plan, acc, env).0;
      st'.pool == st.pool && Content(st'.mem, st.pool[j].backing.block) == Content(st.mem, st.pool[j].backing.block)
  {
    IdleOnce(st, j);
    NewBlockApart(st.mem, Filled(plan.bytes, env.fill, Fresh), st.pool[j].backing.block);
  }

  /** The new record stands on the new block, raw or zeroed. */
  lemma FreshBlock(st: Store, req: Request, plan: Plan, acc: Accounts, env: Env)
    requires AllocateFresh(st, req, plan, acc, env).1.Ok? && |AllocateFresh(st, req, plan, acc, env).0.recs| == |st.recs| + 1
    ensures
      var st' := AllocateFresh(st, req, plan, acc, env).0;
      && st'.recs[|st.recs|].backing.block == st.mem.next && !st'.recs[|st.recs|].finalized
      && (st'.mem == Obtain(st.mem, Filled(plan.bytes, env.fill, Fresh))
          || st'.mem == ZeroBlock(Obtain(st.mem, Filled(plan.bytes, env.fill, Fresh)), st.mem.next))
  {
  }

  /** A new block holds no namespace's bytes. */
  lemma FreshMine(st: Store, req: Request, plan: Plan, acc: Accounts, env: Env)
    requires AllocateFresh(st, req, plan, acc, env).1.Ok? && |AllocateFresh(st, req, plan, acc, env).0.recs| == |st.recs| + 1
    ensures Own(AllocateFresh(st, req, plan, acc, env).0, |st.recs|)
  {
    FreshBlock(st, req, plan, acc, env);
  }

  lemma FreshPrivate(st: Store, req: Request, plan: Plan, acc: Accounts, env: Env)
    requires Unique(st) && Private(st)
    ensures Private(AllocateFresh(st, req, plan, acc, env).0)
  {
    var (st', o) := AllocateFresh(st, req, plan, acc, env);
    forall c: nat | Live(st, c) ensures Survives(st, st', c) {
      FreshCells(st, req, plan, acc, env, c);
    }
    FreshRecord(st, req, plan, acc, env);
    forall j: nat | j < |st.pool|
      ensures Content(st'.mem, st.pool[j].backing.block) == Content(st.mem, st.pool[j].backing.block)
    {
      FreshSlot(st, req, plan, acc, env, j);
    }
    if o.Ok? {
      FreshMine(st, req, plan, acc, env);
      FreshBlock(st, req, plan, acc, env);
      PrivateAdded(st, st', st'.recs[|st.recs|]);
    } else {
      PrivateFrame(st, st');
    }
  }

  lemma AllocatePrivate(st: Store, req: Request, env: Env)
    requires Disjoint(st) && Private(st)
    ensures Private(Allocate(st, req, env).0) <==> !Leaks(st, req)
  {
    var v := Validate(st.cfg, req);
    if v.Ok? && ReserveFor(st, req, v.value.bytes).Ok? {
      var a, i := ReserveFor(st, req, v.value.bytes).value, SlotFor(st, req, v.value);
      if i < |st.pool| {
        HitPrivate(st, req, v.value, a, i, env);
      } else {
        FreshPrivate(st, req, v.value, a, env);
      }
    } else {
      PrivateFrame(st, Allocate(st, req, env).0);
    }
  }

  /** Only memory the runtime allocated goes to the pool. */
  lemma FinalizePrivate(st: Store, c: nat)
    requires Disjoint(st) && AllShaped(st) && Private(st)
    ensures Private(Finalize(st, c))
  {
    if Live(st, c) {
      var st' := Finalize(st, c);
      assert Shaped(st.cfg, st.recs[c]) && Own(st, c);
      forall x | 0 <= x < |st'.recs| && !st'.recs[x].finalized ensures Own(st', x) {
        FinalizeCells(st, c, x);
        assert Own(st, x);
      }
      forall i | 0 <= i < |st'.pool| ensures OwnSlot(st', i) {
        if i < |st.pool| {
          HeldNotIdle(st, c, i);
          assert OwnSlot(st, i);
        }
      }
    }
  }

  lemma MigrateSlot(st: Store, c: nat, target: Domain, env: Env, i: nat)
    requires Unique(st) && Live(st, c) && i < |st.pool|
    ensures Content(Migrate(st, c, target, env).0.mem, st.pool[i].backing.block) == Content(st.mem, st.pool[i].backing.block)
  {
    HeldNotIdle(st, c, i);
    IdleOnce(st, i);
    var r := st.recs[c];
    var n, k := MoveBytes(r), Charge(r.ns, target);
    var a := ReserveAmount(st.acc, k, CeilingOf(st.cfg, st.nss, k), n);
    if target in st.cfg.domains && a.Ok? {
      MigrateReservedElsewhere(st, c, target, n, a.value, env, st.pool[i].backing.block);
    }
  }

  /** Only the records change, and none of them in content. */
  lemma MigratedPrivate(st: Store, st': Store, ch: Change)
    requires Private(st) && Changes(st, st', ch) && (ch.Same? || ch.Moved?) && st'.pool == st.pool
    requires forall x :: Live(st, x) ==> Survives(st, st', x)
    requires forall i :: 0 <= i < |st.pool| ==> Content(st'.mem, st.pool[i].backing.block) == Content(st.mem, st.pool[i].backing.block)
    ensures Private(st')
  {
    PrivateFrame(st, st');
  }

  lemma MigratePrivate(st: Store, c: nat, target: Domain, env: Env)
    requires Unique(st) && RecordsOk(st.cfg, st.mem, st.recs) && Private(st) && CanMigrate(st, c, target)
    ensures Private(Apply(st, DoMigrate(c, target, env)))
  {
    var op := DoMigrate(c, target, env);
    StepChanges(st, op);
    KindOfMigrate(st, op);
    MigrateKeepsPool(st, c, target, env);
    forall x: nat | Live(st, x) ensures Survives(st, Apply(st, op), x) {
      assert RecordOk(st.cfg, st.mem, st.recs[c]) && RecordOk(st.cfg, st.mem, st.recs[x]);
      MigrateCells(st, c, target, env, x);
    }
    forall i | 0 <= i < |st.pool|
      ensures Content(Apply(st, op).mem, st.pool[i].backing.block) == Content(st.mem, st.pool[i].backing.block)
    {
      MigrateSlot(st, c, target, env, i);
    }
    MigratedPrivate(st, Apply(st, op), ChangeOf(st, op));
  }

  lemma WritePrivate(st: Store, c: nat, data: seq<Crc32c.Byte>)
    requires Unique(st) && Private(st) && CanWrite(st, c, |data|)
    ensures Private(WriteBuffer(st, c, data))
  {
    var st' := WriteBuffer(st, c, data);
    forall x | 0 <= x < |st'.recs| && !st'.recs[x].finalized ensures Own(st', x) {
      assert Own(st, x);
      if x != c {
        WriteCells(st, c, data, x);
      }
    }
    forall i | 0 <= i < |st.pool| ensures OwnSlot(st', i) {
      HeldNotIdle(st, c, i);
      assert OwnSlot(st, i);
    }
  }

  lemma WrapPrivate(st: Store, x: ExternalMemory, fill: seq<Crc32c.Byte>)
    requires Unique(st) && Private(st)
    ensures Private(Wrap(st, x, fill).0)
  {
    var (st', o) := Wrap(st, x, fill);
    if o.Ok? {
      forall c: nat | Live(st, c) ensures Survives(st, st', c) {
        HeldOnce(st, c);
      }
      forall i | 0 <= i < |st.pool| ensures Content(st'.mem, st.pool[i].backing.block) == Content(st.mem, st.pool[i].backing.block) {
        IdleOnce(st, i);
      }
      PrivateAdded(st, st', st'.recs[|st.recs|]);
    }
  }

  lemma TrimPrivate(st: Store)
    requires Unique(st) && Private(st)
    ensures Private(Trim(st))
  {
    forall c | 0 <= c < |st.recs| && !st.recs[c].finalized ensures Own(Trim(st), c) {
      assert Own(st, c);
      TrimCells(st, c);
    }
  }

  ghost predicate LeaksAt(st: Store, op: StoreOp) {
    op.DoAllocate? && Leaks(st, op.req)
  }

  /** A step keeps namespaces' bytes apart if and only if it is not a leaking pool hit. */
  lemma StepPrivate(st: Store, op: StoreOp)
    requires Safe(st) && Private(st)
    ensures Private(Apply(st, op)) <==> !LeaksAt(st, op)
  {
    match op
    case DoAllocate(req, env) => AllocatePrivate(st, req, env);
    case DoWrap(x, fill) => WrapPrivate(st, x, fill);
    case DoFinalize(c) => FinalizePrivate(st, c);
    case DoMigrate(c, target, env) =>
      if CanMigrate(st, c, target) {
        MigratePrivate(st, c, target, env);
      }
    case DoTrim => TrimPrivate(st);
    case DoWrite(c, data) =>
      if CanWrite(st, c, |data|) {
        WritePrivate(st, c, data);
      }
    case DoCreateNamespace(nsc) => PrivateFrame(st, CreateNamespace(st, nsc));
    case DoTakeId => PrivateFrame(st, TakeId(st));
  }

  // ------------------------------------------------------------------ checkout policies

  /** Every allocation's effective policy zeroes memory that comes from another namespace. */
  predicate Guarded(st: Store, op: StoreOp) {
    op.DoAllocate? ==>
      var p := Policy(st.nss, op.req);
      p == ON_ALLOCATE || p == ON_CROSS_OWNER_REUSE || p == ALWAYS
  }

  lemma GuardedNeverLeaks(st: Store, op: StoreOp)
    requires Private(st) && Guarded(st, op)
    ensures !LeaksAt(st, op)
  {
    if op.DoAllocate? && Hits(st, op.req) {
      assert OwnSlot(st, SlotFor(st, op.req, Validate(st.cfg, op.req).value));
    }
  }

  ghost predicate PrivateSafe(st: Store) {
    Safe(st) && Private(st)
  }

  /** Under those policies no run ever shows a namespace another one's bytes. */
  lemma GuardedRunPrivate(cfg: Config, nss: map<NamespaceId, NamespaceConfig>, ops: seq<StoreOp>)
    requires StoreRun(Guarded, Init(cfg, nss), ops)
    ensures PrivateSafe(ApplyAll(Init(cfg, nss), ops))
  {
    InitSafe(cfg, nss);
    forall s: Store, op: StoreOp | PrivateSafe(s) && Guarded(s, op) ensures PrivateSafe(Apply(s, op)) {
      StepSafe(s, op);
      GuardedNeverLeaks(s, op);
      StepPrivate(s, op);
    }
    Induct(Guarded, PrivateSafe, Init(cfg, nss), ops);
  }

  // ------------------------------------------------------------------ release policies

  ghost predicate Blank(cells: seq<Cell>) {
    forall j :: 0 <= j < |cells| ==> cells[j] == Cell(0, Zeroed)
  }

  /** Every idle slot was wiped. */
  ghost predicate Wiped(st: Store) {
    forall i :: 0 <= i < |st.pool| ==> Blank(Content(st.mem, st.pool[i].backing.block))
  }

  /** Buffers are only released by namespaces whose own policy wipes on release. */
  predicate WipesOnRelease(st: Store, op: StoreOp) {
    op.DoFinalize? && Live(st, op.c) ==> ZeroOnRelease(st.nss, st.recs[op.c].ns)
  }

  lemma WipedNeverLeaks(st: Store, op: StoreOp)
    requires Wiped(st)
    ensures !LeaksAt(st, op)
  {
  }

  lemma FinalizeWiped(st: Store, c: nat)
    requires Disjoint(st) && Wiped(st) && (Live(st, c) ==> ZeroOnRelease(st.nss, st.recs[c].ns))
    ensures Wiped(Finalize(st, c))
  {
    if Live(st, c) {
      var st' := Finalize(st, c);
      forall i | 0 <= i < |st'.pool| ensures Blank(Content(st'.mem, st'.pool[i].backing.block)) {
        if i < |st.pool| {
          HeldNotIdle(st, c, i);
          assert st'.pool[i] == st.pool[i];
          assert Content(st'.mem, st.pool[i].backing.block) == Content(st.mem, st.pool[i].backing.block);
        }
      }
    }
  }

  lemma HitWiped(st: Store, req: Request, plan: Plan, acc: Accounts, i: nat, env: Env)
    requires Unique(st) && Wiped(st) && i < |st.pool|
    ensures Wiped(AllocateHit(st, req, plan, acc, i, env).0)
  {
    var st' := AllocateHit(st, req, plan, acc, i, env).0;
    forall x | 0 <= x < |st'.pool| ensures Blank(Content(st'.mem, st'.pool[x].backing.block)) {
      var y := if x < i then x else x + 1;
      assert st'.pool[x] == st.pool[y];
      if x < i {
        IdleApart(st, x, i);
      } else {
        IdleApart(st, i, y);
      }
      assert Content(st'.mem, st.pool[y].backing.block) == Content(st.mem, st.pool[y].backing.block);
    }
  }

  lemma WipedFrame(st: Store, st': Store)
    requires Wiped(st) && st'.pool == st.pool
    requires forall i :: 0 <= i < |st.pool| ==> Content(st'.mem, st.pool[i].backing.block) == Content(st.mem, st.pool[i].backing.block)
    ensures Wiped(st')
  {
  }

  lemma FreshWiped(st: Store, req: Request, plan: Plan, acc: Accounts, env: Env)
    requires Unique(st) && Wiped(st)
    ensures Wiped(AllocateFresh(st, req, plan, acc, env).0)
  {
    var st' := AllocateFresh(st, req, plan, acc, env).0;
    FreshRecord(st, req, plan, acc, env);
    forall j: nat | j < |st.pool|
      ensures Content(st'.mem, st.pool[j].backing.block) == Content(st.mem, st.pool[j].backing.block)
    {
      FreshSlot(st, req, plan, acc, env, j);
    }
    WipedFrame(st, st');
  }

  lemma AllocateWiped(st: Store, req: Request, env: Env)
    requires Unique(st) && Wiped(st)
    ensures Wiped(Allocate(st, req, env).0)
  {
    var v := Validate(st.cfg, req);
    if v.Ok? && ReserveFor(st, req, v.value.bytes).Ok? {
      var a, i := ReserveFor(st, req, v.value.bytes).value, SlotFor(st, req, v.value);
      if i < |st.pool| {
        HitWiped(st, req, v.value, a, i, env);
      } else {
        FreshWiped(st, req, v.value, a, env);
      }
    }
  }

  lemma MigrateWiped(st: Store, c: nat, target: Domain, env: Env)
    requires Unique(st) && Wiped(st) && Live(st, c)
    ensures Wiped(Migrate(st, c, target, env).0)
  {
    var st' := Migrate(st, c, target, env).0;
    MigrateKeepsPool(st, c, target, env);
    forall i | 0 <= i < |st.pool|
      ensures Content(st'.mem, st.pool[i].backing.block) == Content(st.mem, st.pool[i].backing.block)
    {
      MigrateSlot(st, c, target, env, i);
    }
    WipedFrame(st, st');
  }

  lemma WriteWiped(st: Store, c: nat, data: seq<Crc32c.Byte>)
    requires Unique(st) && Wiped(st) && CanWrite(st, c, |data|)
    ensures Wiped(WriteBuffer(st, c, data))
  {
    var st' := WriteBuffer(st, c, data);
    forall i | 0 <= i < |st.pool|
      ensures Content(st'.mem, st.pool[i].backing.block) == Content(st.mem, st.pool[i].backing.block)
    {
      HeldNotIdle(st, c, i);
    }
    WipedFrame(st, st');
  }

  lemma WrapWiped(st: Store, x: ExternalMemory, fill: seq<Crc32c.Byte>)
    requires Unique(st) && Wiped(st)
    ensures Wiped(Wrap(st, x, fill).0)
  {
    var st' := Wrap(st, x, fill).0;
    forall i | 0 <= i < |st.pool|
      ensures Content(st'.mem, st.pool[i].backing.block) == Content(st.mem, st.pool[i].backing.block)
    {
      IdleOnce(st, i);
    }
    WipedFrame(st, st');
  }

  lemma StepWiped(st: Store, op: StoreOp)
    requires Disjoint(st) && Wiped(st) && WipesOnRelease(st, op)
    ensures Wiped(Apply(st, op))
  {
    match op
    case DoAllocate(req, env) => AllocateWiped(st, req, env);
    case DoFinalize(c) => FinalizeWiped(st, c);
    case DoMigrate(c, target, env) =>
      if CanMigrate(st, c, target) {
        MigrateWiped(st, c, target, env);
      }
    case DoWrite(c, data) =>
      if CanWrite(st, c, |data|) {
        WriteWiped(st, c, data);
      }
    case DoWrap(x, fill) => WrapWiped(st, x, fill);
    case _ =>
  }

  ghost predicate WipedSafe(st: Store) {
    Safe(st) && Private(st) && Wiped(st)
  }

  /** When every releasing namespace wipes on release, no run leaks whatever policies requests ask for. */
  lemma WipedRunPrivate(cfg: Config, nss: map<NamespaceId, NamespaceConfig>, ops: seq<StoreOp>)
    requires StoreRun(WipesOnRelease, Init(cfg, nss), ops)
    ensures WipedSafe(ApplyAll(Init(cfg, nss), ops))
  {
    InitSafe(cfg, nss);
    forall s: Store, op: StoreOp | WipedSafe(s) && WipesOnRelease(s, op) ensures WipedSafe(Apply(s, op)) {
      StepSafe(s, op);
      WipedNeverLeaks(s, op);
      StepPrivate(s, op);
      StepWiped(s, op);
    }
    Induct(WipesOnRelease, WipedSafe, Init(cfg, nss), ops);
  }

  // ------------------------------------------------------------------ what the caller reads

  lemma FreshReadsZeros(st: Store, req: Request, plan: Plan, acc: Accounts, env: Env)
    requires WantZero(Policy(st.nss, req), None, req.ns) && AllocateFresh(st, req, plan, acc, env).1.Ok?
    ensures
      var st' := AllocateFresh(st, req, plan, acc, env).0;
      |st'.recs| == |st.recs| + 1 && Cells(st', |st.recs|) == Zeros(plan.bytes)
  {
    ZeroedNew(st.mem, Filled(plan.bytes, env.fill, Fresh));
  }

  lemma HitReadsZeros(st: Store, req: Request, plan: Plan, acc: Accounts, i: nat, env: Env)
    requires i < |st.pool| && SlotOk(st.cfg, st.mem, st.pool[i])
    requires WantZero(Policy(st.nss, req), Some(st.pool[i].lastOwner), req.ns) && AllocateHit(st, req, plan, acc, i, env).1.Ok?
    ensures
      var st' := AllocateHit(st, req, plan, acc, i, env).0;
      |st'.recs| == |st.recs| + 1 && Cells(st', |st.recs|) == Zeros(st.pool[i].backing.committed)
  {
  }

  /** Under ON_ALLOCATE or ALWAYS a buffer that is handed out reads all zeros, from the pool or not. */
  lemma HandedOutZeroed(st: Store, req: Request, env: Env)
    requires Disjoint(st) && Allocate(st, req, env).1.Ok?
    requires Policy(st.nss, req) == ON_ALLOCATE || Policy(st.nss, req) == ALWAYS
    ensures
      var st', c := Allocate(st, req, env).0, |st.recs|;
      && |st'.recs| == c + 1 && |Bytes(st', c)| == req.size
      && forall i :: 0 <= i < req.size ==> Bytes(st', c)[i] == 0
  {
    AcceptedPlan(st.cfg, req);
    var plan := Validate(st.cfg, req).value;
    var a, i := ReserveFor(st, req, plan.bytes).value, SlotFor(st, req, plan);
    AllocateSize(st, req, env);
    if i < |st.pool| {
      assert SlotOk(st.cfg, st.mem, st.pool[i]);
      HitReadsZeros(st, req, plan, a, i, env);
    } else {
      FreshReadsZeros(st, req, plan, a, env);
    }
  }
}
