/** What a buffer's bytes are over a run: pooling, sharing and migration never change them, only a
    write to the buffer itself does. */
module Contents {
  import opened Types
  import opened SizeClass
  import opened Accounting
  import opened NativeMemory
  import opened Storage
  import opened Records
  import opened Ownership
  import opened Crc32c

  /** The cells behind buffer c. */
  function Cells(st: Store, c: nat): seq<Cell>
    requires c < |st.recs|
  {
    Content(st.mem, st.recs[c].backing.block)
  }

  /** The abstract content of buffer c: its first size bytes. */
  function Bytes(st: Store, c: nat): seq<Byte>
    requires c < |st.recs|
  {
    var all := Values(Cells(st, c));
    if st.recs[c].size <= |all| then all[..st.recs[c].size] else all
  }

  /** Buffer c survives the step with the same cells. */
  ghost predicate Survives(st: Store, st': Store, c: nat) {
    && c < |st.recs| && c < |st'.recs|
    && Cells(st', c) == Cells(st, c)
    && st'.recs[c].size == st.recs[c].size && st'.recs[c].ns == st.recs[c].ns
    && st'.recs[c].ownership == st.recs[c].ownership
  }

  /** Work on a new block leaves older blocks alone. */
  lemma NewBlockApart(m: Memory, cells: seq<Cell>, x: Block)
    requires x != m.next
    ensures Content(Obtain(m, cells), x) == Content(m, x)
    ensures Content(Free(Obtain(m, cells), m.next), x) == Content(m, x)
    ensures Content(ZeroBlock(Obtain(m, cells), m.next), x) == Content(m, x)
    ensures forall y: seq<Cell> :: Content(WritePrefix(Obtain(m, cells), m.next, y), x) == Content(m, x)
  {
  }

  /** A full copy into a new block of the same length. */
  lemma CopiedBlock(m: Memory, raw: seq<Cell>, source: seq<Cell>)
    requires |raw| == |source|
    ensures WritePrefix(Obtain(m, raw), m.next, source) == Obtain(m, source)
  {
    assert source + raw[|source|..] == source;
    assert Obtain(m, raw).heap[m.next := source] == Obtain(m, source).heap;
  }

  lemma HitCells(st: Store, req: Request, plan: Plan, acc: Accounts, i: nat, env: Env, c: nat)
    requires Unique(st) && Live(st, c) && i < |st.pool|
    ensures Survives(st, AllocateHit(st, req, plan, acc, i, env).0, c)
  {
    HeldNotIdle(st, c, i);
  }

  lemma FreshCells(st: Store, req: Request, plan: Plan, acc: Accounts, env: Env, c: nat)
    requires Unique(st) && Live(st, c)
    ensures Survives(st, AllocateFresh(st, req, plan, acc, env).0, c)
  {
    HeldOnce(st, c);
    NewBlockApart(st.mem, Filled(plan.bytes, env.fill, Fresh), st.recs[c].backing.block);
  }

  lemma AllocateCells(st: Store, req: Request, env: Env, c: nat)
    requires Unique(st) && Live(st, c)
    ensures Survives(st, Allocate(st, req, env).0, c)
  {
    var v := Validate(st.cfg, req);
    if v.Ok? && ReserveFor(st, req, v.value.bytes).Ok? {
      var a, i := ReserveFor(st, req, v.value.bytes).value, SlotFor(st, req, v.value);
      if i < |st.pool| {
        HitCells(st, req, v.value, a, i, env, c);
      } else {
        FreshCells(st, req, v.value, a, env, c);
      }
    }
  }

  lemma WrapCells(st: Store, x: ExternalMemory, fill: seq<Byte>, c: nat)
    requires Unique(st) && Live(st, c)
    ensures Survives(st, Wrap(st, x, fill).0, c)
  {
    HeldOnce(st, c);
    NewBlockApart(st.mem, Filled(x.size, fill, External), st.recs[c].backing.block);
  }

  lemma FinalizeCells(st: Store, x: nat, c: nat)
    requires Unique(st) && Live(st, c) && Live(st, x) && x != c
    ensures Survives(st, Finalize(st, x), c)
  {
    HeldApart(st, x, c);
  }

  /** The migrated buffer itself: its new block has the old cells. */
  lemma MovedCells(st: Store, c: nat, target: Domain, n: nat, acc: Accounts, env: Env)
    requires Unique(st) && Live(st, c) && n == st.recs[c].backing.committed && RecordOk(st.cfg, st.mem, st.recs[c])
    ensures Survives(st, MigrateReserved(st, c, target, n, acc, env).0, c)
  {
    HeldOnce(st, c);
    var raw, source := Filled(n, env.fill, Fresh), Cells(st, c);
    CopiedBlock(st.mem, raw, source);
    NewBlockApart(st.mem, raw, st.recs[c].backing.block);
    NewBlockApart(st.mem, source, st.recs[c].backing.block);
  }

  lemma OtherCells(st: Store, x: nat, target: Domain, n: nat, acc: Accounts, env: Env, c: nat)
    requires Unique(st) && Live(st, c) && Live(st, x) && c != x
    ensures Survives(st, MigrateReserved(st, x, target, n, acc, env).0, c)
  {
    HeldOnce(st, c);
    HeldApart(st, x, c);
    MigrateReservedElsewhere(st, x, target, n, acc, env, st.recs[c].backing.block);
  }

  /** Freeing a block does nothing to other blocks. */
  lemma OtherBlock(m: Memory, b: Block, x: Block)
    requires x != b
    ensures Content(Free(m, b), x) == Content(m, x)
  {
  }

  lemma MigrateReservedElsewhere(st: Store, c: nat, target: Domain, n: nat, acc: Accounts, env: Env, x: Block)
    requires Live(st, c) && x != st.mem.next && x != st.recs[c].backing.block
    ensures Content(MigrateReserved(st, c, target, n, acc, env).0.mem, x) == Content(st.mem, x)
  {
    var raw := Obtain(st.mem, Filled(n, env.fill, Fresh));
    var copied := WritePrefix(raw, st.mem.next, Content(st.mem, st.recs[c].backing.block));
    NewBlockApart(st.mem, Filled(n, env.fill, Fresh), x);
    OtherBlock(raw, st.mem.next, x);
    OtherBlock(copied, st.mem.next, x);
    OtherBlock(copied, st.recs[c].backing.block, x);
  }

  lemma MigrateReservedCells(st: Store, x: nat, target: Domain, n: nat, acc: Accounts, env: Env, c: nat)
    requires Unique(st) && Live(st, c) && Live(st, x) && n == st.recs[x].backing.committed
    requires RecordOk(st.cfg, st.mem, st.recs[x])
    ensures Survives(st, MigrateReserved(st, x, target, n, acc, env).0, c)
  {
    if c == x {
      MovedCells(st, c, target, n, acc, env);
    } else {
      OtherCells(st, x, target, n, acc, env, c);
    }
  }

  lemma MigrateCells(st: Store, x: nat, target: Domain, env: Env, c: nat)
    requires Unique(st) && Live(st, c) && Live(st, x)
    requires RecordOk(st.cfg, st.mem, st.recs[x]) && RecordOk(st.cfg, st.mem, st.recs[c])
    ensures Survives(st, Migrate(st, x, target, env).0, c)
  {
    var r := st.recs[x];
    var n, k := r.backing.committed, Charge(r.ns, target);
    var a := ReserveAmount(st.acc, k, CeilingOf(st.cfg, st.nss, k), n);
    if target in st.cfg.domains && a.Ok? {
      MigrateReservedCells(st, x, target, n, a.value, env, c);
    }
  }

  lemma TrimCells(st: Store, c: nat)
    requires Unique(st) && Live(st, c)
    ensures Survives(st, Trim(st), c)
  {
    var b := st.recs[c].backing.block;
    if b in BlocksOf(st.pool) {
      var i :| 0 <= i < |st.pool| && st.pool[i].backing.block == b;
      HeldNotIdle(st, c, i);
    }
  }

  lemma WriteCells(st: Store, x: nat, data: seq<Byte>, c: nat)
    requires Unique(st) && Live(st, c) && CanWrite(st, x, |data|) && x != c
    ensures Survives(st, WriteBuffer(st, x, data), c)
  {
    HeldApart(st, x, c);
  }

  predicate WritesTo(op: StoreOp, c: nat) {
    op.DoWrite? && op.c == c
  }

  /** Every operation but a write to the buffer leaves every cell of a surviving buffer as it was. */
  lemma StepCells(st: Store, op: StoreOp, c: nat)
    requires Disjoint(st) && Live(st, c) && Live(Apply(st, op), c) && !WritesTo(op, c)
    ensures Survives(st, Apply(st, op), c)
  {
    match op
    case DoAllocate(req, env) => AllocateCells(st, req, env, c);
    case DoWrap(x, fill) => WrapCells(st, x, fill, c);
    case DoFinalize(x) =>
      if Live(st, x) {
        FinalizeCells(st, x, c);
      }
    case DoMigrate(x, target, env) =>
      if CanMigrate(st, x, target) {
        assert RecordOk(st.cfg, st.mem, st.recs[x]) && RecordOk(st.cfg, st.mem, st.recs[c]);
        MigrateCells(st, x, target, env, c);
      }
    case DoTrim => TrimCells(st, c);
    case DoWrite(x, data) =>
      if CanWrite(st, x, |data|) {
        WriteCells(st, x, data, c);
      }
    case _ =>
  }

  /** copy_from: the prefix becomes the data, the rest of the buffer is untouched. */
  lemma WriteBytes(st: Store, c: nat, data: seq<Byte>)
    requires CanWrite(st, c, |data|) && RecordOk(st.cfg, st.mem, st.recs[c])
    ensures Bytes(WriteBuffer(st, c, data), c) == data + Bytes(st, c)[|data|..]
  {
    var st', r := WriteBuffer(st, c, data), st.recs[c];
    var old', new' := Cells(st, c), Cells(st', c);
    assert new' == Written(data, r.ns) + old'[|data|..];
    forall i | 0 <= i < r.size ensures Bytes(st', c)[i] == (data + Bytes(st, c)[|data|..])[i] {
      if i < |data| {
        assert new'[i] == Written(data, r.ns)[i];
      } else {
        assert new'[i] == old'[i];
      }
    }
  }

  // ------------------------------------------------------------------ refinement to a plain map

  /** The runtime seen from outside: which buffers exist and what they contain. */
  ghost function View(st: Store): map<nat, seq<Byte>> {
    map c | 0 <= c < |st.recs| && Live(st, c) :: Bytes(st, c)
  }

  /** What an operation may do to that map. */
  ghost predicate MapStep(m: map<nat, seq<Byte>>, m': map<nat, seq<Byte>>, op: StoreOp) {
    match op
    case DoAllocate(req, _) =>
      m' == m || exists c :: c !in m && c in m' && m' - {c} == m && |m'[c]| == req.size
    case DoWrap(x, _) =>
      m' == m || exists c :: c !in m && c in m' && m' - {c} == m && |m'[c]| == x.size
    case DoFinalize(c) => m' == m - {c}
    case DoMigrate(_, _, _) => m' == m
    case DoTrim => m' == m
    case DoWrite(c, data) =>
      m' == if c in m && |data| <= |m[c]| then m[c := data + m[c][|data|..]] else m
    case DoCreateNamespace(_) => m' == m
    case DoTakeId => m' == m
  }

  lemma BytesLength(st: Store, c: nat)
    requires Safe(st) && Live(st, c)
    ensures |Bytes(st, c)| == st.recs[c].size <= st.recs[c].backing.committed
  {
    assert RecordOk(st.cfg, st.mem, st.recs[c]);
  }

  /** Buffers that stay live keep their bytes. */
  ghost predicate Preserves(st: Store, st': Store) {
    forall c :: Live(st, c) && Live(st', c) ==> Bytes(st', c) == Bytes(st, c)
  }

  lemma StepPreserves(st: Store, op: StoreOp)
    requires Disjoint(st) && !op.DoWrite?
    ensures Preserves(st, Apply(st, op))
  {
    forall c | Live(st, c) && Live(Apply(st, op), c) ensures Bytes(Apply(st, op), c) == Bytes(st, c) {
      StepCells(st, op, c);
    }
  }

  lemma AddedView(st: Store, st': Store, r: Record)
    requires Preserves(st, st') && st'.recs == st.recs + [r] && !r.finalized
    requires |Bytes(st', |st.recs|)| == r.size
    ensures
      var m, m', c := View(st), View(st'), |st.recs|;
      c !in m && c in m' && m' - {c} == m && |m'[c]| == r.size
  {
    var m, m', c := View(st), View(st'), |st.recs|;
    forall x | 0 <= x < |st.recs| ensures Live(st', x) <==> Live(st, x) {
      assert st'.recs[x] == st.recs[x];
    }
    assert (m' - {c}).Keys == m.Keys;
  }

  /** The same buffers are live before and after. */
  lemma SameView(st: Store, st': Store)
    requires Preserves(st, st') && |st'.recs| == |st.recs|
    requires forall c :: 0 <= c < |st.recs| ==> st'.recs[c].finalized == st.recs[c].finalized
    ensures View(st') == View(st)
  {
    forall c: nat ensures Live(st', c) <==> Live(st, c) {
    }
    assert View(st').Keys == View(st).Keys;
  }

  lemma KeptView(st: Store, st': Store, ch: Change)
    requires Preserves(st, st') && Changes(st, st', ch) && (ch.Same? || ch.Moved?)
    ensures View(st') == View(st)
  {
    SameView(st, st');
  }

  lemma RetiredView(st: Store, st': Store, c: nat)
    requires Preserves(st, st') && Live(st, c) && st'.recs == st.recs[c := Dead(st.recs[c])]
    ensures View(st') == View(st) - {c}
  {
    forall x: nat ensures Live(st', x) <==> Live(st, x) && x != c {
    }
    assert View(st').Keys == (View(st) - {c}).Keys;
  }

  lemma WriteView(st: Store, c: nat, data: seq<Byte>)
    requires Unique(st) && CanWrite(st, c, |data|) && RecordOk(st.cfg, st.mem, st.recs[c])
    ensures View(WriteBuffer(st, c, data)) == View(st)[c := data + Bytes(st, c)[|data|..]]
  {
    var st', m := WriteBuffer(st, c, data), View(st);
    WriteBytes(st, c, data);
    forall x | Live(st, x) && x != c ensures Bytes(st', x) == Bytes(st, x) {
      WriteCells(st, c, data, x);
    }
    assert View(st').Keys == m.Keys;
  }

  lemma AllocateView(st: Store, req: Request, env: Env)
    requires Safe(st)
    ensures MapStep(View(st), View(Allocate(st, req, env).0), DoAllocate(req, env))
  {
    var (st', o) := Allocate(st, req, env);
    assert Apply(st, DoAllocate(req, env)) == st';
    StepPreserves(st, DoAllocate(req, env));
    AllocateAdds(st, req, env);
    if o.Ok? {
      StepSafe(st, DoAllocate(req, env));
      AllocateSize(st, req, env);
      BytesLength(st', |st.recs|);
      AddedView(st, st', st'.recs[|st.recs|]);
    } else {
      SameView(st, st');
    }
  }

  lemma WrapLength(st: Store, x: ExternalMemory, fill: seq<Byte>)
    requires Wrap(st, x, fill).1.Ok?
    ensures
      var st' := Wrap(st, x, fill).0;
      |st'.recs| == |st.recs| + 1 && |Bytes(st', |st.recs|)| == x.size == st'.recs[|st.recs|].size
  {
  }

  lemma WrapView(st: Store, x: ExternalMemory, fill: seq<Byte>)
    requires Disjoint(st)
    ensures MapStep(View(st), View(Wrap(st, x, fill).0), DoWrap(x, fill))
  {
    var (st', o) := Wrap(st, x, fill);
    assert Apply(st, DoWrap(x, fill)) == st';
    StepPreserves(st, DoWrap(x, fill));
    WrapAdds(st, x, fill);
    if o.Ok? {
      WrapLength(st, x, fill);
      AddedView(st, st', st'.recs[|st.recs|]);
    } else {
      SameView(st, st');
    }
  }

  lemma AllocateSize(st: Store, req: Request, env: Env)
    ensures
      var (st', o) := Allocate(st, req, env);
      o.Ok? && |st'.recs| == |st.recs| + 1 ==> st'.recs[|st.recs|].size == req.size
  {
  }

  lemma FinalizeView(st: Store, c: nat)
    requires Disjoint(st)
    ensures View(Finalize(st, c)) == View(st) - {c}
  {
    if Live(st, c) {
      StepPreserves(st, DoFinalize(c));
      FinalizeChanges(st, c);
      RetiredView(st, Finalize(st, c), c);
    } else {
      assert View(st) - {c} == View(st);
    }
  }

  lemma KindOfMigrate(st: Store, op: StoreOp)
    requires op.DoMigrate?
    ensures ChangeOf(st, op).Same? || ChangeOf(st, op).Moved?
  {
  }

  lemma MigrateView(st: Store, op: StoreOp)
    requires Disjoint(st) && op.DoMigrate?
    ensures View(Apply(st, op)) == View(st)
  {
    StepPreserves(st, op);
    StepChanges(st, op);
    KindOfMigrate(st, op);
    KeptView(st, Apply(st, op), ChangeOf(st, op));
  }

  lemma TrimView(st: Store)
    requires Disjoint(st)
    ensures View(Trim(st)) == View(st)
  {
    StepPreserves(st, DoTrim);
    SameView(st, Trim(st));
  }

  lemma WriteStep(st: Store, c: nat, data: seq<Byte>)
    requires Safe(st)
    ensures MapStep(View(st), View(Apply(st, DoWrite(c, data))), DoWrite(c, data))
  {
    if Live(st, c) {
      BytesLength(st, c);
    }
    if CanWrite(st, c, |data|) {
      assert RecordOk(st.cfg, st.mem, st.recs[c]);
      WriteView(st, c, data);
    }
  }

  /** Refinement: every operation acts on the buffers' contents as an update of a plain map would;
      pooling, trimming and migration, failed or not, do nothing to it at all. */
  lemma StepRefinesMap(st: Store, op: StoreOp)
    requires Safe(st)
    ensures MapStep(View(st), View(Apply(st, op)), op)
  {
    match op
    case DoAllocate(req, env) => AllocateView(st, req, env);
    case DoWrap(x, fill) => WrapView(st, x, fill);
    case DoFinalize(c) => FinalizeView(st, c);
    case DoMigrate(c, target, env) => MigrateView(st, op);
    case DoTrim => TrimView(st);
    case DoWrite(c, data) => WriteStep(st, c, data);
    case DoCreateNamespace(nsc) =>
      StepPreserves(st, op);
      SameView(st, CreateNamespace(st, nsc));
    case DoTakeId =>
      StepPreserves(st, op);
      SameView(st, TakeId(st));
  }

  // ------------------------------------------------------------------ whole runs

  lemma StaysFinalized(st: Store, op: StoreOp, c: nat)
    requires c < |st.recs| && st.recs[c].finalized
    ensures c < |Apply(st, op).recs| && Apply(st, op).recs[c].finalized
  {
    StepChanges(st, op);
  }

  lemma {:induction false} StaysFinalizedRun(st: Store, ops: seq<StoreOp>, c: nat)
    requires c < |st.recs| && st.recs[c].finalized
    ensures c < |ApplyAll(st, ops).recs| && ApplyAll(st, ops).recs[c].finalized
    decreases |ops|
  {
    if ops != [] {
      StaysFinalized(st, ops[0], c);
      StaysFinalizedRun(Apply(st, ops[0]), ops[1..], c);
    }
  }

  lemma NeverShrinks(st: Store, op: StoreOp)
    ensures |Apply(st, op).recs| >= |st.recs|
  {
    StepChanges(st, op);
  }

  /** An operation that does not write to buffer c. */
  function Spares(c: nat): (Store, StoreOp) -> bool {
    (st: Store, op: StoreOp) => !WritesTo(op, c)
  }

  /** A buffer that is live at the end of a run and was never written to has its original bytes, however
      often it was migrated and whatever backends answered and happened to other buffers meanwhile. */
  lemma {:induction false} RunKeepsBytes(st: Store, ops: seq<StoreOp>, c: nat)
    requires Safe(st) && StoreRun(Spares(c), st, ops) && Live(st, c) && Live(ApplyAll(st, ops), c)
    ensures Bytes(ApplyAll(st, ops), c) == Bytes(st, c)
    decreases |ops|
  {
    if ops != [] {
      var st' := Apply(st, ops[0]);
      NeverShrinks(st, ops[0]);
      if !Live(st', c) {
        StaysFinalizedRun(st', ops[1..], c);
      }
      StepCells(st, ops[0], c);
      StepSafe(st, ops[0]);
      RunKeepsBytes(st', ops[1..], c);
    }
  }
}
