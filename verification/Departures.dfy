/** Where the code falls short of what its names and comments suggest: exact conditions. */
module Departures {
  import opened Wrappers
  import opened Types
  import opened Sums
  import opened NativeMemory
  import opened Storage
  import opened Ownership
  import opened Protocol
  import opened Tokens

  // ------------------------------------------------------------------ borrowed memory

  lemma AllocateSpares(st: Store, req: Request, env: Env, b: Block)
    requires b != st.mem.next
    ensures Get(Allocate(st, req, env).0.mem.freed, b) == Get(st.mem.freed, b)
  {
  }

  lemma FinalizeSpares(st: Store, c: nat, b: Block)
    requires Lending(st) && b in st.mem.lent
    ensures Get(Finalize(st, c).mem.freed, b) == Get(st.mem.freed, b)
  {
  }

  lemma TrimSpares(st: Store, b: Block)
    requires SlotsOk(st.cfg, st.mem, st.pool) && b in st.mem.lent
    ensures Get(Trim(st).mem.freed, b) == Get(st.mem.freed, b)
  {
    forall i | 0 <= i < |st.pool| ensures SlotHolds(b)(st.pool[i]) == 0 {
      assert SlotOk(st.cfg, st.mem, st.pool[i]);
    }
    SumZero(st.pool, SlotHolds(b));
  }

  /** Borrowed memory is never freed, with one exception: an operation frees a lent block if and only if
      it migrates the buffer that wraps it and every guard of the migration passes. */
  lemma LentFreedExactly(st: Store, op: StoreOp, b: Block)
    requires Owned(st) && b in st.mem.lent
    ensures Get(Apply(st, op).mem.freed, b) > Get(st.mem.freed, b) <==>
            FreesLent(st, op) && st.recs[op.c].backing.block == b
  {
    match op
    case DoAllocate(req, env) => AllocateSpares(st, req, env, b);
    case DoFinalize(c) => FinalizeSpares(st, c, b);
    case DoTrim => TrimSpares(st, b);
    case DoMigrate(c, target, env) =>
      if CanMigrate(st, c, target) {
        MigrateFrees(st, c, target, env, b);
        MigrateExactly(st, c, target, env);
        assert RecordOk(st.cfg, st.mem, st.recs[c]);
      }
    case _ =>
  }

  // ------------------------------------------------------------------ access modes

  /** A read-only buffer refuses a handle if and only if the wish is exactly WRITE; READ_WRITE passes. */
  lemma RefusedExactly(s: State, h: nat, want: AccessMode)
    ensures EnsureValid(s, h, want) == Err(PermissionFailure) <==>
            Alive(s, h).Ok? && want == WRITE && s.store.recs[Alive(s, h).value].access == READ
    ensures EnsureValid(s, h, READ_WRITE) == Alive(s, h)
  {
  }

  /** So memory that was lent for reading can be mapped for writing. */
  lemma ReadOnlyMapsForWriting(s: State, h: nat)
    requires
      && Alive(s, h).Ok?
      && var r := s.store.recs[Alive(s, h).value];
      r.access == READ && r.domain != DEVICE && r.domain in s.store.cfg.domains
    ensures OpenMap(s, h, READ_WRITE).1.Ok? && OpenMap(s, h, WRITE).1 == Err(PermissionFailure)
  {
  }
}
