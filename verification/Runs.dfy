/** Whole runs of the protocol: what the store sees of them, and the invariants they keep. */
module Runs {
  import opened Wrappers
  import opened Types
  import opened Storage
  import opened Records
  import opened Ownership
  import opened Protocol
  import opened Tokens
  import Crc32c

  // ------------------------------------------------------------------ projection to the store

  /** Giving up object t finalizes a buffer if it was the last one. */
  function Ending(s: State, t: nat): Option<StoreOp> {
    if t < |s.tokens| && s.tokens[t].live && s.tokens[t].ctl < |s.ctls| && s.ctls[s.tokens[t].ctl].refs == 1
    then Some(DoFinalize(s.tokens[t].ctl)) else None
  }

  predicate MovesOver(s: State, dst: nat, src: nat) {
    dst < |s.tokens| && src < |s.tokens| && dst != src && SameClass(s.tokens[dst].kind, s.tokens[src].kind)
  }

  /** The store operation a step performs, if any. */
  function StoreOpOf(s: State, op: Op): Option<StoreOp> {
    match op
    case AllocateOp(req, env) => Some(DoAllocate(req, env))
    case WrapOp(x, fill) => Some(DoWrap(x, fill))
    case ReleaseOp(t) => Ending(s, t)
    case MoveAssignOp(dst, src) => if MovesOver(s, dst, src) then Ending(s, dst) else None
    case MigrateOp(h, target, env) => if MovesAway(s, h, target) then Some(DoMigrate(Alive(s, h).value, target, env)) else None
    case CopyFromOp(h, data, copyOk) =>
      if CopyFrom(s, h, data, copyOk).1.Ok? then Some(DoWrite(s.tokens[h].ctl, data)) else None
    case ImportOp(d, ns) => if LocalDomain(d.domain) && ImportAllowed(s.store, d, ns).Ok? then Some(DoTakeId) else None
    case TrimOp => Some(DoTrim)
    case CreateNamespaceOp(nsc) => Some(DoCreateNamespace(nsc))
    case _ => None
  }

  /** A migration gets past its guards. */
  predicate MovesAway(s: State, h: nat, target: Domain) {
    var c := Alive(s, h);
    && c.Ok? && HasControl(s, c.value) && s.store.recs[c.value].domain != target
    && s.ctls[c.value].writeLeases == 0 && s.ctls[c.value].exclusiveLeases == 0
  }

  function ApplyMaybe(st: Store, op: Option<StoreOp>): Store {
    match op
    case None => st
    case Some(o) => Apply(st, o)
  }

  /** Step s by op changes the store by StoreOpOf. */
  ghost predicate Projects(s: State, op: Op) {
    Step(s, op).store == ApplyMaybe(s.store, StoreOpOf(s, op))
  }

  lemma ReleaseStore(s: State, t: nat)
    ensures Release(s, t).store == ApplyMaybe(s.store, Ending(s, t))
  {
  }

  lemma ReleaseProjects(s: State, t: nat)
    ensures Projects(s, ReleaseOp(t))
  {
    ReleaseStore(s, t);
  }

  lemma MoveProjects(s: State, dst: nat, src: nat)
    ensures Projects(s, MoveAssignOp(dst, src))
  {
    ReleaseStore(s, dst);
  }

  lemma MigrateProjects(s: State, h: nat, target: Domain, env: Env)
    ensures Projects(s, MigrateOp(h, target, env))
  {
    if MovesAway(s, h, target) {
      ArrivedStore(s, Alive(s, h).value, Migrate(s.store, Alive(s, h).value, target, env));
    }
  }

  lemma ArrivedStore(s: State, c: nat, r: (Store, Result<()>))
    requires HasControl(s, c)
    ensures Arrived(s, c, r).0.store == r.0
  {
  }

  lemma CopyFromProjects(s: State, h: nat, data: seq<Crc32c.Byte>, copyOk: bool)
    ensures Projects(s, CopyFromOp(h, data, copyOk))
  {
  }

  lemma ImportProjects(s: State, d: Descriptor, ns: NamespaceId)
    ensures Projects(s, ImportOp(d, ns))
  {
  }

  lemma AdoptStore(s: State, r: (Store, Result<nat>))
    ensures Adopted(s, r).0.store == r.0
  {
  }

  lemma AdoptProjects(s: State, op: Op)
    requires op.AllocateOp? || op.WrapOp?
    ensures Projects(s, op)
  {
    if op.AllocateOp? {
      AdoptStore(s, Allocate(s.store, op.req, op.env));
    } else {
      AdoptStore(s, Wrap(s.store, op.x, op.fill));
    }
  }

  /** Making and moving objects leaves the store alone. */
  lemma ObjectProjects(s: State, op: Op)
    requires op.ShareOp? || op.ViewOp? || op.MapOp? || op.AcquireOp? || op.MoveNewOp?
    ensures Projects(s, op)
  {
  }

  lemma PlainProjects(s: State, op: Op)
    requires op.TrimOp? || op.CreateNamespaceOp?
    ensures Projects(s, op)
  {
  }

  /** A step of the protocol changes the store by that one operation, or not at all. */
  lemma StepProjects(s: State, op: Op)
    ensures Step(s, op).store == ApplyMaybe(s.store, StoreOpOf(s, op))
  {
    EveryOpProjects(s, op);
  }

  lemma EveryOpProjects(s: State, op: Op)
    ensures Projects(s, op)
  {
    match op
    case ReleaseOp(t) => ReleaseProjects(s, t);
    case MoveAssignOp(dst, src) => MoveProjects(s, dst, src);
    case MigrateOp(h, target, env) => MigrateProjects(s, h, target, env);
    case CopyFromOp(h, data, copyOk) => CopyFromProjects(s, h, data, copyOk);
    case ImportOp(d, ns) => ImportProjects(s, d, ns);
    case TrimOp => PlainProjects(s, op);
    case CreateNamespaceOp(_) => PlainProjects(s, op);
    case AllocateOp(_, _) => AdoptProjects(s, op);
    case WrapOp(_, _) => AdoptProjects(s, op);
    case _ => ObjectProjects(s, op);
  }

  /** What the store sees of a run. */
  function History(s: State, ops: seq<Op>): seq<StoreOp>
    decreases |ops|
  {
    if ops == [] then []
    else
      (match StoreOpOf(s, ops[0]) case None => [] case Some(o) => [o]) + History(Step(s, ops[0]), ops[1..])
  }

  /** Every store operation of the run meets the hypothesis. */
  ghost predicate Meets(ok: (Store, StoreOp) -> bool, s: State, ops: seq<Op>)
    decreases |ops|
  {
    ops != [] ==>
      && (match StoreOpOf(s, ops[0]) case None => true case Some(o) => ok(s.store, o))
      && Meets(ok, Step(s, ops[0]), ops[1..])
  }

  /** Projection: the store after a run of the protocol is the store after its history, and hypotheses on
      the run's store operations are hypotheses on the history. So every theorem about runs of the store
      is one about runs of the protocol. */
  lemma {:induction false} RunProjects(ok: (Store, StoreOp) -> bool, s: State, ops: seq<Op>)
    ensures StepAll(s, ops).store == ApplyAll(s.store, History(s, ops))
    ensures Meets(ok, s, ops) <==> StoreRun(ok, s.store, History(s, ops))
    decreases |ops|
  {
    if ops != [] {
      var s1, rest := Step(s, ops[0]), History(Step(s, ops[0]), ops[1..]);
      StepProjects(s, ops[0]);
      RunProjects(ok, s1, ops[1..]);
      match StoreOpOf(s, ops[0])
      case None => assert History(s, ops) == rest;
      case Some(o) => assert History(s, ops)[1..] == rest;
    }
  }

  // ------------------------------------------------------------------ all runs

  lemma StepCoherent(s: State, op: Op)
    requires Coherent(s)
    ensures Coherent(Step(s, op)) && Legal(s.ctls, Step(s, op).ctls)
  {
    StepConsistent(s, op);
    StepProjects(s, op);
    match StoreOpOf(s, op)
    case None =>
    case Some(o) => StepIdentified(s.store, o);
  }

  lemma {:induction false} RunFrom(s: State, ops: seq<Op>)
    requires Coherent(s)
    ensures Coherent(StepAll(s, ops))
    decreases |ops|
  {
    if ops != [] {
      StepCoherent(s, ops[0]);
      RunFrom(Step(s, ops[0]), ops[1..]);
    }
  }

  lemma InitCoherent(cfg: Config, nss: map<NamespaceId, NamespaceConfig>)
    ensures Coherent(InitState(cfg, nss))
  {
  }

  /** Every state of every run, whatever callers do and backends answer. */
  lemma RunCoherent(cfg: Config, nss: map<NamespaceId, NamespaceConfig>, ops: seq<Op>)
    ensures Coherent(StepAll(InitState(cfg, nss), ops))
  {
    InitCoherent(cfg, nss);
    RunFrom(InitState(cfg, nss), ops);
  }

  lemma {:induction false} SafeThroughout(s: State, ops: seq<Op>)
    requires Safe(s.store)
    ensures Safe(StepAll(s, ops).store)
    decreases |ops|
  {
    if ops != [] {
      StepProjects(s, ops[0]);
      match StoreOpOf(s, ops[0]) {
        case None =>
        case Some(o) => StepSafe(s.store, o);
      }
      SafeThroughout(Step(s, ops[0]), ops[1..]);
    }
  }

  /** In every state of every run blocks are apart, memory is intact and the protocol is in order. */
  lemma RunSafe(cfg: Config, nss: map<NamespaceId, NamespaceConfig>, ops: seq<Op>)
    ensures
      var s := StepAll(InitState(cfg, nss), ops);
      Coherent(s) && Safe(s.store)
  {
    RunCoherent(cfg, nss, ops);
    InitSafe(cfg, nss);
    SafeThroughout(InitState(cfg, nss), ops);
  }

  /** In runs of regular steps every block is also in exactly one place. */
  lemma RunOwned(cfg: Config, nss: map<NamespaceId, NamespaceConfig>, ops: seq<Op>)
    requires Meets(Regular, InitState(cfg, nss), ops)
    ensures
      var s := StepAll(InitState(cfg, nss), ops);
      Coherent(s) && Sound(s.store)
  {
    RunCoherent(cfg, nss, ops);
    RunProjects(Regular, InitState(cfg, nss), ops);
    RunSound(cfg, nss, History(InitState(cfg, nss), ops));
  }

  lemma {:induction false} StepAllAppend(s: State, ops: seq<Op>, op: Op)
    ensures StepAll(s, ops + [op]) == Step(StepAll(s, ops), op)
    decreases |ops|
  {
    if ops == [] {
      assert ([] + [op])[1..] == [];
    } else {
      assert (ops + [op])[0] == ops[0] && (ops + [op])[1..] == ops[1..] + [op];
      StepAllAppend(Step(s, ops[0]), ops[1..], op);
    }
  }

  lemma StepMoves(cfg: Config, nss: map<NamespaceId, NamespaceConfig>, ops: seq<Op>, op: Op, c: nat)
    requires c < |StepAll(InitState(cfg, nss), ops).ctls|
    ensures
      var s := StepAll(InitState(cfg, nss), ops);
      c < |Step(s, op).ctls| && Moves(s.ctls[c].state, Step(s, op).ctls[c].state)
  {
    RunCoherent(cfg, nss, ops);
    StepCoherent(StepAll(InitState(cfg, nss), ops), op);
  }

  /** In every run every lifecycle change of every buffer is one of the table's transitions. */
  lemma RunLegal(cfg: Config, nss: map<NamespaceId, NamespaceConfig>, ops: seq<Op>, op: Op, c: nat)
    requires c < |StepAll(InitState(cfg, nss), ops).ctls|
    ensures
      var before, after := StepAll(InitState(cfg, nss), ops), StepAll(InitState(cfg, nss), ops + [op]);
      c < |after.ctls| &&
      (before.ctls[c].state != after.ctls[c].state ==> ValidTransition(before.ctls[c].state, after.ctls[c].state))
  {
    StepMoves(cfg, nss, ops, op, c);
    StepAllAppend(InitState(cfg, nss), ops, op);
  }
}
