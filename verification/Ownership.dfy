/** Ownership of native memory. In every run, whatever backends answer and callers do, no block is in two
    places: nothing is freed twice or shared by two buffers. And every block is in exactly one place, with
    borrowed memory never freed, exactly as long as two kinds of steps do not happen. */
module Ownership {
  import opened Wrappers
  import opened Types
  import opened Sums
  import opened SizeClass
  import opened Accounting
  import opened NativeMemory
  import opened Storage
  import opened Records
  import Crc32c

  function HoldsBlock(b: Block): Record -> int {
    (r: Record) => if !r.finalized && r.backing.block == b then 1 else 0
  }

  /** In how many places block b is: live records, idle slots, freed, handed back to its lender. */
  function Places(st: Store, b: Block): int {
    Sum(st.recs, HoldsBlock(b)) + Sum(st.pool, SlotHolds(b)) + Get(st.mem.freed, b) + Get(st.mem.returned, b)
  }

  /** Every block ever obtained or wrapped is in exactly one place, and no other block is anywhere. */
  ghost predicate Linear(st: Store) {
    forall b: Block :: Places(st, b) == if b < st.mem.next then 1 else 0
  }

  /** No block is in two places, and a block never seen is nowhere. */
  ghost predicate Unique(st: Store) {
    forall b: Block :: Places(st, b) <= if b < st.mem.next then 1 else 0
  }

  /** A block of the memory that backs this record or slot. */
  ghost predicate Backed(m: Memory, b: Backing) {
    b.block in m.heap && |m.heap[b.block]| == b.committed && b.committed > 0
  }

  ghost predicate RecordOk(cfg: Config, m: Memory, r: Record) {
    r.finalized || (
      && Backed(m, r.backing)
      && 0 < r.size <= r.backing.committed
      && r.domain in cfg.domains
      && (r.ownership == RUNTIME ==> r.backing.committed <= MAX_CHARGE && r.backing.block !in m.lent))
  }

  ghost predicate SlotOk(cfg: Config, m: Memory, e: PoolEntry) {
    && Backed(m, e.backing)
    && e.backing.block !in m.lent
    && e.backing.committed <= MAX_CHARGE
    && e.key.domain in cfg.domains
  }

  ghost predicate RecordsOk(cfg: Config, m: Memory, recs: seq<Record>) {
    forall i :: 0 <= i < |recs| ==> RecordOk(cfg, m, recs[i])
  }

  ghost predicate SlotsOk(cfg: Config, m: Memory, pool: Pool) {
    forall i :: 0 <= i < |pool| ==> SlotOk(cfg, m, pool[i])
  }

  /** Exactly the blocks that were seen and not freed exist. */
  ghost predicate HeapOk(m: Memory) {
    && (forall b: Block :: b in m.heap <==> b < m.next && Get(m.freed, b) == 0)
    && (forall b :: b in m.lent ==> b < m.next)
  }

  /** The memory is what the records and the slots say it is. */
  ghost predicate Intact(st: Store) {
    && HeapOk(st.mem)
    && RecordsOk(st.cfg, st.mem, st.recs)
    && SlotsOk(st.cfg, st.mem, st.pool)
  }

  /** No two places, and memory as it should be: what every step keeps. */
  ghost predicate Disjoint(st: Store) {
    Unique(st) && Intact(st)
  }

  /** Borrowed blocks exist, only they are handed back, and exactly the borrowing records hold them. */
  ghost predicate Lending(st: Store) {
    && (forall b :: b in st.mem.lent ==> b in st.mem.heap)
    && (forall b: Block :: Get(st.mem.returned, b) > 0 ==> b in st.mem.lent)
    && (forall c :: 0 <= c < |st.recs| && !st.recs[c].finalized ==>
          (st.recs[c].ownership == BORROWED <==> st.recs[c].backing.block in st.mem.lent))
  }

  ghost predicate Owned(st: Store) {
    Linear(st) && Intact(st) && Lending(st)
  }

  /** A pool hit whose policy asks for zeroing while the backend fails it: the slot's block is dropped. */
  predicate LosesBlock(st: Store, op: StoreOp) {
    && op.DoAllocate? && !op.env.zeroOk && Hits(st, op.req)
    && var e := st.pool[SlotFor(st, op.req, Validate(st.cfg, op.req).value)];
    WantZero(Policy(st.nss, op.req), Some(e.lastOwner), op.req.ns)
  }

  /** A migration of borrowed memory that passes every guard: the lender's block is freed. */
  predicate FreesLent(st: Store, op: StoreOp) {
    && op.DoMigrate? && CanMigrate(st, op.c, op.target) && st.recs[op.c].ownership == BORROWED
    && MigrationPasses(st, op.c, op.target, op.env)
  }

  /** Neither of the two: exactly these operations keep ownership. */
  predicate Regular(st: Store, op: StoreOp) {
    !LosesBlock(st, op) && !FreesLent(st, op)
  }

  // ------------------------------------------------------------------ no aliasing

  lemma HeldOnce(st: Store, i: nat)
    requires Unique(st) && Live(st, i)
    ensures
      var b := st.recs[i].backing.block;
      b < st.mem.next && Get(st.mem.freed, b) == 0 && Get(st.mem.returned, b) == 0
  {
    var b := st.recs[i].backing.block;
    SumMember(st.recs, i, HoldsBlock(b));
    SumNonNegative(st.pool, SlotHolds(b));
    assert Places(st, b) >= 1 + Get(st.mem.freed, b) + Get(st.mem.returned, b);
  }

  /** Two live buffers never share a block. */
  lemma HeldApart(st: Store, i: nat, j: nat)
    requires Unique(st) && Live(st, i) && Live(st, j) && i != j
    ensures st.recs[i].backing.block != st.recs[j].backing.block
  {
    var b := st.recs[i].backing.block;
    SumPair(st.recs, if i < j then i else j, if i < j then j else i, HoldsBlock(b));
    SumNonNegative(st.pool, SlotHolds(b));
    assert Places(st, b) >= Sum(st.recs, HoldsBlock(b));
  }

  lemma HeldNotIdle(st: Store, i: nat, j: nat)
    requires Unique(st) && Live(st, i) && j < |st.pool|
    ensures st.recs[i].backing.block != st.pool[j].backing.block
  {
    var b := st.recs[i].backing.block;
    SumMember(st.recs, i, HoldsBlock(b));
    SumMember(st.pool, j, SlotHolds(b));
    assert Places(st, b) >= Sum(st.recs, HoldsBlock(b)) + Sum(st.pool, SlotHolds(b));
  }

  lemma IdleApart(st: Store, i: nat, j: nat)
    requires Unique(st) && i < j < |st.pool|
    ensures st.pool[i].backing.block != st.pool[j].backing.block
  {
    var b := st.pool[i].backing.block;
    SumPair(st.pool, i, j, SlotHolds(b));
    SumNonNegative(st.recs, HoldsBlock(b));
    assert Places(st, b) >= Sum(st.pool, SlotHolds(b));
  }

  lemma IdleOnce(st: Store, j: nat)
    requires Unique(st) && j < |st.pool|
    ensures
      var b := st.pool[j].backing.block;
      b < st.mem.next && Get(st.mem.freed, b) == 0 && Get(st.mem.returned, b) == 0
  {
    var b := st.pool[j].backing.block;
    SumMember(st.pool, j, SlotHolds(b));
    SumNonNegative(st.recs, HoldsBlock(b));
    assert Places(st, b) >= 1 + Get(st.mem.freed, b) + Get(st.mem.returned, b);
  }

  lemma NextUnused(st: Store)
    requires Unique(st)
    ensures Get(st.mem.freed, st.mem.next) == 0 && Get(st.mem.returned, st.mem.next) == 0
  {
    SumNonNegative(st.recs, HoldsBlock(st.mem.next));
    SumNonNegative(st.pool, SlotHolds(st.mem.next));
    assert Places(st, st.mem.next) == 0;
  }

  // ------------------------------------------------------------------ places

  /** Every block stays in as many places as it was; new blocks are in one. */
  ghost predicate Conserves(st: Store, st': Store) {
    && st.mem.next <= st'.mem.next
    && forall b: Block :: Places(st', b) == Places(st, b) + if st.mem.next <= b < st'.mem.next then 1 else 0
  }

  lemma ConservedPlaces(st: Store, st': Store)
    requires Conserves(st, st')
    ensures Unique(st) ==> Unique(st')
    ensures Linear(st) ==> Linear(st')
  {
  }

  /** What a harmless operation does: no place is lost, memory stays intact, loans stay in order. */
  ghost predicate Keeps(st: Store, st': Store) {
    Conserves(st, st') && Intact(st') && (Lending(st) ==> Lending(st'))
  }

  /** Loans stay in order when borrowed blocks stay and new holders of blocks have not borrowed them. */
  lemma LoansKept(st: Store, st': Store)
    requires Lending(st) && st'.mem.lent == st.mem.lent && st'.mem.returned == st.mem.returned
    requires forall b :: b in st.mem.lent ==> b in st'.mem.heap
    requires forall c :: 0 <= c < |st'.recs| && !st'.recs[c].finalized ==> Unlent(st, st'.recs[c]) || SameHolder(st, st'.recs[c], c)
    ensures Lending(st')
  {
    forall c | 0 <= c < |st'.recs| && !st'.recs[c].finalized
      ensures st'.recs[c].ownership == BORROWED <==> st'.recs[c].backing.block in st'.mem.lent
    {
      assert Unlent(st, st'.recs[c]) || SameHolder(st, st'.recs[c], c);
    }
  }

  ghost predicate Unlent(st: Store, r: Record) {
    r.ownership != BORROWED && r.backing.block !in st.mem.lent
  }

  ghost predicate SameHolder(st: Store, r: Record, c: nat) {
    Live(st, c) && r.ownership == st.recs[c].ownership && r.backing.block == st.recs[c].backing.block
  }

  lemma KeptOwnership(st: Store, st': Store)
    requires Keeps(st, st')
    ensures Disjoint(st) ==> Disjoint(st')
    ensures Owned(st) ==> Owned(st')
  {
    ConservedPlaces(st, st');
  }

  // ------------------------------------------------------------------ a block obtained

  /** The heap with a new block; the block may be marked as borrowed. */
  lemma ObtainIntact(st: Store, st': Store, cells: seq<Cell>, lend: bool)
    requires Disjoint(st)
    requires st'.cfg == st.cfg && st'.recs == st.recs && st'.pool == st.pool
    requires st'.mem == Obtain(st.mem, cells).(lent := st.mem.lent + if lend then {st.mem.next} else {})
    ensures Intact(st') && st.mem.next !in st.mem.heap && st.mem.next !in st.mem.lent
  {
    NextUnused(st);
    forall i | 0 <= i < |st.recs| ensures RecordOk(st.cfg, st'.mem, st.recs[i]) {
      assert RecordOk(st.cfg, st.mem, st.recs[i]);
    }
    forall i | 0 <= i < |st.pool| ensures SlotOk(st.cfg, st'.mem, st.pool[i]) {
      assert SlotOk(st.cfg, st.mem, st.pool[i]);
    }
  }

  /** A fresh block that is freed before anyone holds it leaves everything else alone. */
  lemma ObtainFree(st: Store, st': Store, cells: seq<Cell>)
    requires Disjoint(st)
    requires st'.cfg == st.cfg && st'.recs == st.recs && st'.pool == st.pool
    requires st'.mem == Free(Obtain(st.mem, cells), st.mem.next)
    ensures Keeps(st, st')
  {
    NextUnused(st);
    assert st'.mem.heap == st.mem.heap;
    if Lending(st) {
      LoansKept(st, st');
    }
    forall b: Block ensures Places(st', b) == Places(st, b) + if st.mem.next <= b < st'.mem.next then 1 else 0 {
      assert Places(st', b) == Places(st, b) + if b == st.mem.next then 1 else 0;
    }
    forall i | 0 <= i < |st.recs| ensures RecordOk(st.cfg, st'.mem, st.recs[i]) {
      assert RecordOk(st.cfg, st.mem, st.recs[i]);
    }
    forall i | 0 <= i < |st.pool| ensures SlotOk(st.cfg, st'.mem, st.pool[i]) {
      assert SlotOk(st.cfg, st.mem, st.pool[i]);
    }
  }

  /** A new record holds the new block, and has borrowed it or not. */
  lemma NewLoan(st: Store, st': Store, r: Record)
    requires Disjoint(st) && Lending(st) && st.mem.next !in st.mem.lent
    requires st'.recs == st.recs + [r] && r.backing.block == st.mem.next && st'.mem.returned == st.mem.returned
    requires st'.mem.lent == st.mem.lent + if r.ownership == BORROWED then {st.mem.next} else {}
    requires forall b :: b in st.mem.heap || b == st.mem.next ==> b in st'.mem.heap
    ensures Lending(st')
  {
    forall c | 0 <= c < |st'.recs| && !st'.recs[c].finalized
      ensures st'.recs[c].ownership == BORROWED <==> st'.recs[c].backing.block in st'.mem.lent
    {
      if c < |st.recs| {
        assert st'.recs[c] == st.recs[c];
        HeldOnce(st, c);
      }
    }
  }

  /** A new record on a new block. */
  lemma RegisterFresh(st: Store, st': Store, r: Record, cells: seq<Cell>)
    requires Disjoint(st)
    requires st'.cfg == st.cfg && st'.recs == st.recs + [r] && st'.pool == st.pool
    requires st'.mem == Obtain(st.mem, cells).(lent := st.mem.lent + if r.ownership == BORROWED then {st.mem.next} else {})
    requires !r.finalized && r.backing.block == st.mem.next && r.backing.committed == |cells|
    requires 0 < r.size <= |cells| && r.domain in st.cfg.domains
    requires r.ownership == RUNTIME ==> |cells| <= MAX_CHARGE
    ensures Keeps(st, st')
  {
    ObtainIntact(st, st'.(recs := st.recs), cells, r.ownership == BORROWED);
    assert RecordOk(st.cfg, st'.mem, r);
    if Lending(st) {
      NewLoan(st, st', r);
    }
    forall b: Block ensures Places(st', b) == Places(st, b) + if st.mem.next <= b < st'.mem.next then 1 else 0 {
      SumAppend(st.recs, r, HoldsBlock(b));
      assert Places(st', b) == Places(st, b) + if b == st.mem.next then 1 else 0;
    }
  }

  // ------------------------------------------------------------------ a block changed in place

  /** m' is m with the content of block b replaced by as many cells. */
  ghost predicate Rewrites(m: Memory, m': Memory, b: Block) {
    b in m.heap && exists cells :: |cells| == |m.heap[b]| && m' == m.(heap := m.heap[b := cells])
  }

  lemma RewriteIntact(st: Store, st': Store, b: Block)
    requires Disjoint(st)
    requires st'.cfg == st.cfg && st'.recs == st.recs && st'.pool == st.pool
    requires st'.mem == st.mem || Rewrites(st.mem, st'.mem, b)
    ensures Keeps(st, st')
  {
    if Lending(st) {
      LoansKept(st, st');
    }
    forall x: Block ensures Places(st', x) == Places(st, x) + if st.mem.next <= x < st'.mem.next then 1 else 0 {
      assert Places(st', x) == Places(st, x);
    }
    forall i | 0 <= i < |st.recs| ensures RecordOk(st.cfg, st'.mem, st.recs[i]) {
      assert RecordOk(st.cfg, st.mem, st.recs[i]);
    }
    forall i | 0 <= i < |st.pool| ensures SlotOk(st.cfg, st'.mem, st.pool[i]) {
      assert SlotOk(st.cfg, st.mem, st.pool[i]);
    }
  }

  lemma ZeroRewrites(m: Memory, b: Block)
    ensures ZeroBlock(m, b) == m || Rewrites(m, ZeroBlock(m, b), b)
  {
    if b in m.heap {
      assert ZeroBlock(m, b) == m.(heap := m.heap[b := Zeros(|m.heap[b]|)]);
    }
  }

  lemma WriteRewrites(m: Memory, b: Block, cells: seq<Cell>)
    ensures WritePrefix(m, b, cells) == m || Rewrites(m, WritePrefix(m, b, cells), b)
  {
    if b in m.heap && |cells| <= |m.heap[b]| {
      var all := cells + m.heap[b][|cells|..];
      assert |all| == |m.heap[b]| && WritePrefix(m, b, cells) == m.(heap := m.heap[b := all]);
    }
  }

  // ------------------------------------------------------------------ pool to record and back

  /** A new record on the block of an idle slot. */
  lemma RegisterSlot(st: Store, st': Store, r: Record, i: nat)
    requires Disjoint(st) && i < |st.pool|
    requires st'.cfg == st.cfg && st'.recs == st.recs + [r] && st'.pool == RemoveAt(st.pool, i) && st'.mem == st.mem
    requires !r.finalized && r.backing == st.pool[i].backing && r.ownership == RUNTIME
    requires 0 < r.size <= r.backing.committed && r.domain in st.cfg.domains
    ensures Keeps(st, st')
  {
    assert SlotOk(st.cfg, st.mem, st.pool[i]);
    if Lending(st) {
      LoansKept(st, st');
    }
    forall b: Block ensures Places(st', b) == Places(st, b) + if st.mem.next <= b < st'.mem.next then 1 else 0 {
      SumAppend(st.recs, r, HoldsBlock(b));
      SumRemove(st.pool, i, SlotHolds(b));
      assert Places(st', b) == Places(st, b);
    }
    forall j | 0 <= j < |st'.recs| ensures RecordOk(st.cfg, st'.mem, st'.recs[j]) {
      if j < |st.recs| {
        assert RecordOk(st.cfg, st.mem, st.recs[j]);
      }
    }
    forall j | 0 <= j < |st'.pool| ensures SlotOk(st.cfg, st'.mem, st'.pool[j]) {
      assert SlotOk(st.cfg, st.mem, if j < i then st.pool[j] else st.pool[j + 1]);
    }
  }

  /** The block of a retired record becomes an idle slot. */
  lemma RetireToPool(st: Store, st': Store, c: nat, e: PoolEntry)
    requires Disjoint(st) && Live(st, c) && st.recs[c].ownership == RUNTIME
    requires st'.cfg == st.cfg && st'.recs == st.recs[c := Dead(st.recs[c])] && st'.pool == st.pool + [e]
    requires st'.mem == st.mem
    requires e.backing == st.recs[c].backing && e.backing.committed <= MAX_CHARGE && e.key.domain == st.recs[c].domain
    ensures Keeps(st, st')
  {
    assert RecordOk(st.cfg, st.mem, st.recs[c]);
    if Lending(st) {
      LoansKept(st, st');
    }
    forall b: Block ensures Places(st', b) == Places(st, b) + if st.mem.next <= b < st'.mem.next then 1 else 0 {
      SumUpdate(st.recs, c, Dead(st.recs[c]), HoldsBlock(b));
      SumAppend(st.pool, e, SlotHolds(b));
      assert Places(st', b) == Places(st, b);
    }
    forall j | 0 <= j < |st'.recs| ensures RecordOk(st.cfg, st'.mem, st'.recs[j]) {
      assert RecordOk(st.cfg, st.mem, st.recs[j]);
    }
    forall j | 0 <= j < |st'.pool| ensures SlotOk(st.cfg, st'.mem, st'.pool[j]) {
      if j < |st.pool| {
        assert SlotOk(st.cfg, st.mem, st.pool[j]);
      }
    }
  }

  /** The block of a retired record is freed. */
  lemma RetireFreed(st: Store, st': Store, c: nat)
    requires Disjoint(st) && Live(st, c) && st.recs[c].ownership != BORROWED
    requires st'.cfg == st.cfg && st'.recs == st.recs[c := Dead(st.recs[c])] && st'.pool == st.pool
    requires st'.mem == Free(st.mem, st.recs[c].backing.block)
    ensures Keeps(st, st')
  {
    var x := st.recs[c].backing.block;
    HeldOnce(st, c);
    assert RecordOk(st.cfg, st.mem, st.recs[c]);
    if Lending(st) {
      LoansKept(st, st');
    }
    forall b: Block ensures Places(st', b) == Places(st, b) + if st.mem.next <= b < st'.mem.next then 1 else 0 {
      SumUpdate(st.recs, c, Dead(st.recs[c]), HoldsBlock(b));
      assert Places(st', b) == Places(st, b);
    }
    forall j | 0 <= j < |st'.recs| ensures RecordOk(st.cfg, st'.mem, st'.recs[j]) {
      assert RecordOk(st.cfg, st.mem, st.recs[j]);
      if j != c && Live(st, j) {
        HeldApart(st, c, j);
      }
    }
    forall j | 0 <= j < |st.pool| ensures SlotOk(st.cfg, st'.mem, st.pool[j]) {
      assert SlotOk(st.cfg, st.mem, st.pool[j]);
      HeldNotIdle(st, c, j);
    }
  }

  /** A borrowed block is handed back. */
  lemma RetireReturned(st: Store, st': Store, c: nat)
    requires Disjoint(st) && Live(st, c) && st.recs[c].ownership == BORROWED
    requires st'.cfg == st.cfg && st'.recs == st.recs[c := Dead(st.recs[c])] && st'.pool == st.pool
    requires
      var b := st.recs[c].backing.block;
      st'.mem == st.mem.(returned := st.mem.returned[b := Get(st.mem.returned, b) + 1])
    ensures Keeps(st, st')
  {
    assert RecordOk(st.cfg, st.mem, st.recs[c]);
    if Lending(st) {
      assert st.recs[c].backing.block in st.mem.lent;
    }
    forall b: Block ensures Places(st', b) == Places(st, b) + if st.mem.next <= b < st'.mem.next then 1 else 0 {
      SumUpdate(st.recs, c, Dead(st.recs[c]), HoldsBlock(b));
      assert Places(st', b) == Places(st, b);
    }
    forall j | 0 <= j < |st'.recs| ensures RecordOk(st.cfg, st'.mem, st'.recs[j]) {
      assert RecordOk(st.cfg, st.mem, st.recs[j]);
    }
    forall j | 0 <= j < |st.pool| ensures SlotOk(st.cfg, st'.mem, st.pool[j]) {
      assert SlotOk(st.cfg, st.mem, st.pool[j]);
    }
  }

  /** The record moves to a fresh block and the old one is freed: harmless unless it was borrowed. */
  lemma MoveRecord(st: Store, st': Store, c: nat, r: Record, cells: seq<Cell>)
    requires Disjoint(st) && Live(st, c)
    requires st'.cfg == st.cfg && st'.recs == st.recs[c := r] && st'.pool == st.pool
    requires st'.mem == Free(Obtain(st.mem, cells), st.recs[c].backing.block)
    requires !r.finalized && r.backing.block == st.mem.next && r.backing.committed == |cells|
    requires r.ownership == st.recs[c].ownership && r.size == st.recs[c].size && |cells| == st.recs[c].backing.committed
    requires r.domain in st.cfg.domains
    ensures Conserves(st, st') && Intact(st')
    ensures st.recs[c].ownership != BORROWED ==> Keeps(st, st')
  {
    var x := st.recs[c].backing.block;
    NextUnused(st);
    HeldOnce(st, c);
    assert RecordOk(st.cfg, st.mem, st.recs[c]);
    if Lending(st) && st.recs[c].ownership != BORROWED {
      LoansKept(st, st');
    }
    forall b: Block ensures Places(st', b) == Places(st, b) + if st.mem.next <= b < st'.mem.next then 1 else 0 {
      SumUpdate(st.recs, c, r, HoldsBlock(b));
      assert Places(st', b) == Places(st, b) + if b == st.mem.next then 1 else 0;
    }
    forall j | 0 <= j < |st'.recs| ensures RecordOk(st.cfg, st'.mem, st'.recs[j]) {
      assert RecordOk(st.cfg, st.mem, st.recs[j]);
      if j != c && Live(st, j) {
        HeldApart(st, c, j);
      }
    }
    forall j | 0 <= j < |st.pool| ensures SlotOk(st.cfg, st'.mem, st.pool[j]) {
      assert SlotOk(st.cfg, st.mem, st.pool[j]);
      HeldNotIdle(st, c, j);
    }
  }

  // ------------------------------------------------------------------ trimming

  lemma IdleInPool(pool: Pool, b: Block)
    ensures b in BlocksOf(pool) <==> IdleCount(pool, b) > 0
  {
    if b in BlocksOf(pool) {
      var e :| e in pool && e.backing.block == b;
      var i :| 0 <= i < |pool| && pool[i] == e;
      SumMember(pool, i, SlotHolds(b));
    } else {
      NoneIdle(pool, b);
    }
  }

  lemma {:induction false} NoneIdle(pool: Pool, b: Block)
    requires b !in BlocksOf(pool)
    ensures Sum(pool, SlotHolds(b)) == 0
  {
    if pool != [] {
      assert pool[0] in pool;
      forall e | e in pool[1..] ensures e.backing.block != b {
        assert e in pool;
      }
      NoneIdle(pool[1..], b);
    }
  }

  lemma TrimKeeps(st: Store)
    requires Disjoint(st)
    ensures Keeps(st, Trim(st))
  {
    TrimReads(st);
    TrimConserves(st);
    TrimRecords(st);
    if Lending(st) {
      LoansKept(st, Trim(st));
    }
  }

  lemma TrimConserves(st: Store)
    requires forall b: Block :: Get(Trim(st).mem.freed, b) == Get(st.mem.freed, b) + IdleCount(st.pool, b)
    ensures Conserves(st, Trim(st))
  {
    forall b: Block ensures Places(Trim(st), b) == Places(st, b) {
      assert Sum(Trim(st).pool, SlotHolds(b)) == 0;
    }
  }

  lemma TrimRecords(st: Store)
    requires Disjoint(st)
    ensures RecordsOk(st.cfg, Trim(st).mem, st.recs)
  {
    forall j | 0 <= j < |st.recs| ensures RecordOk(st.cfg, Trim(st).mem, st.recs[j]) {
      assert RecordOk(st.cfg, st.mem, st.recs[j]);
      if Live(st, j) {
        var b := st.recs[j].backing.block;
        if b in BlocksOf(st.pool) {
          var i :| 0 <= i < |st.pool| && st.pool[i].backing.block == b;
          HeldNotIdle(st, j, i);
        }
      }
    }
  }

  /** What a trim does to the memory, block by block. */
  lemma TrimReads(st: Store)
    requires Intact(st)
    ensures
      var m := Trim(st).mem;
      && (forall b: Block :: Get(m.freed, b) == Get(st.mem.freed, b) + IdleCount(st.pool, b))
      && HeapOk(m)
      && (forall b :: b in st.mem.lent && b in st.mem.heap ==> b in m.heap)
  {
    var m := Trim(st).mem;
    forall b: Block
      ensures Get(m.freed, b) == Get(st.mem.freed, b) + IdleCount(st.pool, b)
      ensures b in m.heap <==> b < m.next && Get(m.freed, b) == 0
    {
      IdleInPool(st.pool, b);
    }
    forall e | e in st.pool ensures e.backing.block !in st.mem.lent {
      assert SlotOk(st.cfg, st.mem, e);
    }
  }

  // ------------------------------------------------------------------ operations

  lemma AllocateKeeps(st: Store, req: Request, env: Env)
    requires Disjoint(st) && !LosesBlock(st, DoAllocate(req, env))
    ensures Keeps(st, Allocate(st, req, env).0)
  {
    AcceptedPlan(st.cfg, req);
    var v := Validate(st.cfg, req);
    RewriteIntact(st, st, 0);
    if v.Ok? {
      var plan := v.value;
      var a := ReserveFor(st, req, plan.bytes);
      if a.Ok? {
        var i := SlotFor(st, req, plan);
        if i < |st.pool| {
          HitKeeps(st, req, plan, a.value, i, env);
        } else {
          FreshKeeps(st, req, plan, a.value, env);
        }
      } else {
        RewriteIntact(st, Allocate(st, req, env).0, 0);
      }
    }
  }

  lemma HitKeeps(st: Store, req: Request, plan: Plan, acc: Accounts, i: nat, env: Env)
    requires Disjoint(st) && i < |st.pool| && st.pool[i].backing.committed >= plan.bytes
    requires env.zeroOk || !WantZero(Policy(st.nss, req), Some(st.pool[i].lastOwner), req.ns)
    requires req.domain in st.cfg.domains && 0 < req.size <= plan.bytes
    ensures Keeps(st, AllocateHit(st, req, plan, acc, i, env).0)
  {
    var st' := AllocateHit(st, req, plan, acc, i, env).0;
    var b := st.pool[i].backing.block;
    ZeroRewrites(st.mem, b);
    var st1 := st.(mem := st'.mem);
    RewriteIntact(st, st1, b);
    KeptOwnership(st, st1);
    RegisterSlot(st1, st', st'.recs[|st.recs|], i);
    KeepsTwice(st, st1, st');
  }

  lemma KeepsTwice(st: Store, st1: Store, st2: Store)
    requires Keeps(st, st1) && Keeps(st1, st2)
    ensures Keeps(st, st2)
  {
    forall b: Block ensures Places(st2, b) == Places(st, b) + if st.mem.next <= b < st2.mem.next then 1 else 0 {
      assert Places(st1, b) == Places(st, b) + if st.mem.next <= b < st1.mem.next then 1 else 0;
    }
  }

  /** The block of a hit that cannot be zeroed is in no place at all: neither held, idle nor freed. */
  lemma HitLost(st: Store, req: Request, plan: Plan, acc: Accounts, i: nat, env: Env)
    requires Disjoint(st) && i < |st.pool|
    requires !env.zeroOk && WantZero(Policy(st.nss, req), Some(st.pool[i].lastOwner), req.ns)
    ensures
      var st', b := AllocateHit(st, req, plan, acc, i, env).0, st.pool[i].backing.block;
      b < st'.mem.next && b in st'.mem.heap && Places(st', b) == 0 && Disjoint(st') && !Linear(st')
  {
    var st', b := AllocateHit(st, req, plan, acc, i, env).0, st.pool[i].backing.block;
    IdleOnce(st, i);
    assert SlotOk(st.cfg, st.mem, st.pool[i]);
    forall x: Block ensures Places(st', x) == Places(st, x) - SlotHolds(x)(st.pool[i]) {
      SumRemove(st.pool, i, SlotHolds(x));
    }
    assert 0 <= Places(st', b) by {
      SumNonNegative(st'.recs, HoldsBlock(b));
      SumNonNegative(st'.pool, SlotHolds(b));
    }
    assert Places(st, b) <= 1;
    assert Places(st', b) == 0;
    forall x: Block ensures Places(st', x) <= if x < st'.mem.next then 1 else 0 {
      assert Places(st, x) <= if x < st.mem.next then 1 else 0;
    }
    FewerSlots(st, st', i);
  }

  lemma FewerSlots(st: Store, st': Store, i: nat)
    requires Intact(st) && i < |st.pool|
    requires st'.cfg == st.cfg && st'.recs == st.recs && st'.mem == st.mem && st'.pool == RemoveAt(st.pool, i)
    ensures Intact(st')
  {
    forall j | 0 <= j < |st'.pool| ensures SlotOk(st.cfg, st'.mem, st'.pool[j]) {
      assert SlotOk(st.cfg, st.mem, if j < i then st.pool[j] else st.pool[j + 1]);
    }
  }

  lemma LostFails(st: Store, req: Request, env: Env)
    ensures LosesBlock(st, DoAllocate(req, env)) ==> Allocate(st, req, env).1.Err?
  {
  }

  lemma ZeroedNew(m: Memory, raw: seq<Cell>)
    ensures ZeroBlock(Obtain(m, raw), m.next) == Obtain(m, Zeros(|raw|))
  {
    assert ZeroBlock(Obtain(m, raw), m.next).heap == Obtain(m, Zeros(|raw|)).heap;
  }

  lemma FreshKeeps(st: Store, req: Request, plan: Plan, acc: Accounts, env: Env)
    requires Disjoint(st)
    requires req.domain in st.cfg.domains && 0 < req.size <= plan.bytes <= MAX_CHARGE
    ensures Keeps(st, AllocateFresh(st, req, plan, acc, env).0)
  {
    var st' := AllocateFresh(st, req, plan, acc, env).0;
    var raw := Filled(plan.bytes, env.fill, Fresh);
    if !env.allocateOk {
      RewriteIntact(st, st', 0);
    } else if CommitAmount(acc, Charge(req.ns, req.domain), plan.bytes).Err?
           || (!env.zeroOk && WantZero(Policy(st.nss, req), None, req.ns)) {
      ObtainFree(st, st', raw);
    } else {
      FreshHeld(st, req, plan, acc, env);
    }
  }

  lemma FreshHeld(st: Store, req: Request, plan: Plan, acc: Accounts, env: Env)
    requires Disjoint(st) && AllocateFresh(st, req, plan, acc, env).1.Ok?
    requires req.domain in st.cfg.domains && 0 < req.size <= plan.bytes <= MAX_CHARGE
    ensures Keeps(st, AllocateFresh(st, req, plan, acc, env).0)
  {
    var st', raw := AllocateFresh(st, req, plan, acc, env).0, Filled(plan.bytes, env.fill, Fresh);
    var cells := if WantZero(Policy(st.nss, req), None, req.ns) then Zeros(plan.bytes) else raw;
    FreshMemory(st, req, plan, acc, env);
    RegisterFresh(
      st, st', NewRecord(st, req, plan, Backing(st.mem.next, plan.bytes, NativeAlignment(req.domain, plan.alignment))), cells);
  }

  lemma FreshMemory(st: Store, req: Request, plan: Plan, acc: Accounts, env: Env)
    requires AllocateFresh(st, req, plan, acc, env).1.Ok?
    ensures
      var st' := AllocateFresh(st, req, plan, acc, env).0;
      var b := Backing(st.mem.next, plan.bytes, NativeAlignment(req.domain, plan.alignment));
      && st'.cfg == st.cfg && st'.pool == st.pool && st'.recs == st.recs + [NewRecord(st, req, plan, b)]
      && st'.mem == Obtain(st.mem, if WantZero(Policy(st.nss, req), None, req.ns) then Zeros(plan.bytes)
                                   else Filled(plan.bytes, env.fill, Fresh))
  {
    ZeroedNew(st.mem, Filled(plan.bytes, env.fill, Fresh));
  }

  lemma WrapKeeps(st: Store, x: ExternalMemory, fill: seq<Crc32c.Byte>)
    requires Disjoint(st)
    ensures Keeps(st, Wrap(st, x, fill).0)
  {
    var st' := Wrap(st, x, fill).0;
    if Wrap(st, x, fill).1.Ok? {
      RegisterFresh(st, st', st'.recs[|st.recs|], Filled(x.size, fill, External));
    } else {
      RewriteIntact(st, st', 0);
    }
  }

  lemma FinalizeKeeps(st: Store, c: nat)
    requires Disjoint(st)
    requires AllShaped(st)
    ensures Keeps(st, Finalize(st, c))
  {
    if Live(st, c) {
      var r, st' := st.recs[c], Finalize(st, c);
      assert RecordOk(st.cfg, st.mem, r) && Shaped(st.cfg, r);
      if r.ownership == BORROWED {
        RetireReturned(st, st', c);
      } else if GoesToPool(st, r) && !PoolFull(st, r.backing.committed) {
        PoolKeeps(st, c);
      } else {
        RetireFreed(st, st', c);
      }
    } else {
      RewriteIntact(st, st, 0);
    }
  }

  lemma PoolKeeps(st: Store, c: nat)
    requires Disjoint(st) && Live(st, c) && st.recs[c].ownership == RUNTIME
    requires GoesToPool(st, st.recs[c]) && !PoolFull(st, st.recs[c].backing.committed)
    ensures Keeps(st, Finalize(st, c))
  {
    var r, st' := st.recs[c], Finalize(st, c);
    assert RecordOk(st.cfg, st.mem, r);
    ZeroRewrites(st.mem, r.backing.block);
    var st1 := st.(mem := st'.mem);
    RewriteIntact(st, st1, r.backing.block);
    KeptOwnership(st, st1);
    RetireToPool(st1, st', c, st'.pool[|st.pool|]);
    KeepsTwice(st, st1, st');
  }

  lemma MigrateConserves(st: Store, c: nat, target: Domain, env: Env)
    requires Disjoint(st) && Live(st, c)
    ensures
      var st' := Migrate(st, c, target, env).0;
      && Conserves(st, st') && Intact(st')
      && (st.recs[c].ownership != BORROWED || !MigrationPasses(st, c, target, env) ==> Keeps(st, st'))
  {
    var r, st' := st.recs[c], Migrate(st, c, target, env).0;
    var n, b, k := r.backing.committed, st.mem.next, Charge(r.ns, target);
    assert RecordOk(st.cfg, st.mem, r);
    var raw := Filled(n, env.fill, Fresh);
    var source := Content(st.mem, r.backing.block);
    HeldOnce(st, c);
    assert WritePrefix(Obtain(st.mem, raw), b, source) == Obtain(st.mem, source) by {
      assert source + raw[|source|..] == source;
    }
    var a := ReserveAmount(st.acc, k, CeilingOf(st.cfg, st.nss, k), n);
    if target !in st.cfg.domains || a.Err? || !env.allocateOk {
      RewriteIntact(st, st', 0);
    } else if !env.copyOk {
      ObtainFree(st, st', raw);
    } else if CommitAmount(a.value, k, n).Err? || !env.verifyOk {
      ObtainFree(st, st', source);
    } else {
      MoveRecord(st, st', c, st'.recs[c], source);
    }
  }

  /** A successful migration of borrowed memory takes a lent block out of the heap. */
  lemma MigrateLent(st: Store, c: nat, target: Domain, env: Env)
    requires Owned(st) && Live(st, c) && st.recs[c].ownership == BORROWED && MigrationPasses(st, c, target, env)
    ensures
      var m, b := Migrate(st, c, target, env).0.mem, st.recs[c].backing.block;
      b in m.lent && b !in m.heap && !Owned(Migrate(st, c, target, env).0)
  {
    MigrateTakes(st, c, target, env);
  }

  lemma MigrateTakes(st: Store, c: nat, target: Domain, env: Env)
    requires c < |st.recs| && MigrationPasses(st, c, target, env)
    ensures
      var m := Migrate(st, c, target, env).0.mem;
      m.lent == st.mem.lent && st.recs[c].backing.block !in m.heap
  {
  }

  lemma WriteKeeps(st: Store, c: nat, data: seq<Crc32c.Byte>)
    requires Disjoint(st) && CanWrite(st, c, |data|)
    ensures Keeps(st, WriteBuffer(st, c, data))
  {
    var b := st.recs[c].backing.block;
    WriteRewrites(st.mem, b, Written(data, st.recs[c].ns));
    RewriteIntact(st, WriteBuffer(st, c, data), b);
  }

  /** A regular step moves blocks from place to place and nothing else. */
  lemma RegularKeeps(st: Store, op: StoreOp)
    requires Disjoint(st) && AllShaped(st) && Regular(st, op)
    ensures Keeps(st, Apply(st, op))
  {
    match op
    case DoAllocate(req, env) => AllocateKeeps(st, req, env);
    case DoWrap(x, fill) => WrapKeeps(st, x, fill);
    case DoFinalize(c) => FinalizeKeeps(st, c);
    case DoMigrate(c, target, env) =>
      if CanMigrate(st, c, target) {
        MigrateConserves(st, c, target, env);
      } else {
        RewriteIntact(st, st, 0);
      }
    case DoTrim => TrimKeeps(st);
    case DoWrite(c, data) =>
      if CanWrite(st, c, |data|) {
        WriteKeeps(st, c, data);
      } else {
        RewriteIntact(st, st, 0);
      }
    case DoCreateNamespace(nsc) => RewriteIntact(st, CreateNamespace(st, nsc), 0);
    case DoTakeId => RewriteIntact(st, TakeId(st), 0);
  }

  lemma LosesDisjoint(st: Store, req: Request, env: Env)
    requires Disjoint(st) && LosesBlock(st, DoAllocate(req, env))
    ensures Disjoint(Allocate(st, req, env).0) && !Linear(Allocate(st, req, env).0)
  {
    var plan := Validate(st.cfg, req).value;
    HitLost(st, req, plan, ReserveFor(st, req, plan.bytes).value, SlotFor(st, req, plan), env);
  }

  /** Every step keeps blocks apart, whatever the backends answer. */
  lemma StepDisjoint(st: Store, op: StoreOp)
    requires Disjoint(st) && AllShaped(st)
    ensures Disjoint(Apply(st, op))
  {
    if Regular(st, op) {
      RegularKeeps(st, op);
      KeptOwnership(st, Apply(st, op));
    } else if op.DoAllocate? {
      LosesDisjoint(st, op.req, op.env);
    } else {
      MigrateConserves(st, op.c, op.target, op.env);
      ConservedPlaces(st, Apply(st, op));
    }
  }

  /** A step keeps ownership if and only if it is neither a pool hit that cannot be zeroed nor a migration
      of borrowed memory; every other failure of a backend is harmless. */
  lemma StepOwned(st: Store, op: StoreOp)
    requires Owned(st) && AllShaped(st)
    ensures Owned(Apply(st, op)) <==> Regular(st, op)
  {
    if Regular(st, op) {
      RegularKeeps(st, op);
      KeptOwnership(st, Apply(st, op));
    } else if op.DoAllocate? {
      LosesDisjoint(st, op.req, op.env);
    } else {
      MigrateLent(st, op.c, op.target, op.env);
    }
  }

  // ------------------------------------------------------------------ every run

  /** Blocks apart, memory intact, identities in order: what every step keeps, without exception. */
  ghost predicate Safe(st: Store) {
    Disjoint(st) && Identified(st)
  }

  lemma StepSafe(st: Store, op: StoreOp)
    requires Safe(st)
    ensures Safe(Apply(st, op))
  {
    StepDisjoint(st, op);
    StepIdentified(st, op);
  }

  lemma {:induction false} SafeFrom(st: Store, ops: seq<StoreOp>)
    requires Safe(st)
    ensures Safe(ApplyAll(st, ops))
    decreases |ops|
  {
    if ops != [] {
      StepSafe(st, ops[0]);
      SafeFrom(Apply(st, ops[0]), ops[1..]);
    }
  }

  lemma InitSafe(cfg: Config, nss: map<NamespaceId, NamespaceConfig>)
    ensures Safe(Init(cfg, nss))
  {
    InitSound(cfg, nss);
  }

  /** In every run, whatever backends answer and callers do: no block is freed twice or used after it was
      freed, no two live buffers share one, and none is in use while idle in the pool. */
  lemma NoDoubleFree(cfg: Config, nss: map<NamespaceId, NamespaceConfig>, ops: seq<StoreOp>)
    ensures
      var st := ApplyAll(Init(cfg, nss), ops);
      && Safe(st)
      && (forall b: Block :: Get(st.mem.freed, b) <= 1)
      && (forall c: nat :: Live(st, c) ==> st.recs[c].backing.block in st.mem.heap && Get(st.mem.freed, st.recs[c].backing.block) == 0)
      && (forall c: nat, x: nat :: Live(st, c) && Live(st, x) && c != x ==> st.recs[c].backing.block != st.recs[x].backing.block)
      && (forall c: nat, i: nat :: Live(st, c) && i < |st.pool| ==> st.recs[c].backing.block != st.pool[i].backing.block)
  {
    var st := ApplyAll(Init(cfg, nss), ops);
    InitSafe(cfg, nss);
    SafeFrom(Init(cfg, nss), ops);
    forall b: Block ensures Get(st.mem.freed, b) <= 1 {
      FreedOnce(st, b);
    }
    forall c: nat | Live(st, c) ensures st.recs[c].backing.block in st.mem.heap {
      assert RecordOk(st.cfg, st.mem, st.recs[c]);
    }
    forall c: nat, x: nat | Live(st, c) && Live(st, x) && c != x ensures st.recs[c].backing.block != st.recs[x].backing.block {
      HeldApart(st, c, x);
    }
    forall c: nat, i: nat | Live(st, c) && i < |st.pool| ensures st.recs[c].backing.block != st.pool[i].backing.block {
      HeldNotIdle(st, c, i);
    }
  }

  lemma FreedOnce(st: Store, b: Block)
    requires Unique(st)
    ensures Get(st.mem.freed, b) <= 1
  {
    SumNonNegative(st.recs, HoldsBlock(b));
    SumNonNegative(st.pool, SlotHolds(b));
    assert Places(st, b) <= 1;
  }

  // ------------------------------------------------------------------ regular runs

  /** Ownership together with identity. */
  ghost predicate Sound(st: Store) {
    Owned(st) && Identified(st)
  }

  lemma StepSound(st: Store, op: StoreOp)
    requires Sound(st)
    ensures Sound(Apply(st, op)) <==> Regular(st, op)
  {
    StepOwned(st, op);
    StepIdentified(st, op);
  }

  lemma InitSound(cfg: Config, nss: map<NamespaceId, NamespaceConfig>)
    ensures Sound(Init(cfg, nss))
  {
    var st := Init(cfg, nss);
    forall b: Block ensures Places(st, b) == 0 {
    }
  }

  /** After any run of such operations every block is in exactly one place and the memory is what the
      records say. */
  lemma RunSound(cfg: Config, nss: map<NamespaceId, NamespaceConfig>, ops: seq<StoreOp>)
    requires StoreRun(Regular, Init(cfg, nss), ops)
    ensures Sound(ApplyAll(Init(cfg, nss), ops))
  {
    InitSound(cfg, nss);
    forall s: Store, op: StoreOp | Sound(s) && Regular(s, op) ensures Sound(Apply(s, op)) {
      StepSound(s, op);
    }
    Induct(Regular, Sound, Init(cfg, nss), ops);
  }

  /** Ownership holds in every state of the run. */
  ghost predicate AlwaysOwned(st: Store, ops: seq<StoreOp>)
    decreases |ops|
  {
    Owned(st) && (ops != [] ==> AlwaysOwned(Apply(st, ops[0]), ops[1..]))
  }

  lemma {:induction false} OwnedFrom(st: Store, ops: seq<StoreOp>)
    requires Sound(st)
    ensures AlwaysOwned(st, ops) <==> StoreRun(Regular, st, ops)
    decreases |ops|
  {
    if ops != [] {
      StepSound(st, ops[0]);
      StepIdentified(st, ops[0]);
      if Regular(st, ops[0]) {
        OwnedFrom(Apply(st, ops[0]), ops[1..]);
      }
    }
  }

  /** Ownership over whole runs, exactly: it holds throughout if and only if every operation is regular. */
  lemma RunOwnedExactly(cfg: Config, nss: map<NamespaceId, NamespaceConfig>, ops: seq<StoreOp>)
    ensures AlwaysOwned(Init(cfg, nss), ops) <==> StoreRun(Regular, Init(cfg, nss), ops)
  {
    InitSound(cfg, nss);
    OwnedFrom(Init(cfg, nss), ops);
  }
}
