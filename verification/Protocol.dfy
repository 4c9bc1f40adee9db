/** Handles, leases, maps and views over the store (src/buffer.cpp and the guards of src/runtime.cpp).
    A control block is an index; the caller's objects are the rows of one table of tokens. */
module Protocol {
  import opened Wrappers
  import opened CheckedMath
  import opened Words
  import opened Types
  import opened SizeClass
  import opened NativeMemory
  import opened Storage
  import opened Records
  import opened Crc32c

  /** The mutable half of a control block; its finalized flag is in the record. */
  datatype Control = Control(refs: int, readLeases: nat, writeLeases: nat, exclusiveLeases: nat, mapCount: nat, state: BufferState)

  /** What a caller's object is. A map or view remembers the block it points into, if any. */
  datatype TokenKind =
    | HandleToken
    | LeaseToken(lease: LeaseKind)
    | MapToken(at: Option<Block>)
    | ViewToken(at: Option<Block>, offset: nat, length: nat)

  datatype Token = Token(kind: TokenKind, ctl: nat, gen: nat, live: bool)

  datatype State = State(store: Store, ctls: seq<Control>, tokens: seq<Token>)

  function InitState(cfg: Config, nss: map<NamespaceId, NamespaceConfig>): State {
    State(Init(cfg, nss), [], [])
  }

  // ------------------------------------------------------------------ lifecycle

  predicate ValidTransition(from: BufferState, to: BufferState) {
    match from
    case DECLARED => to in {RESERVED, ALLOCATED, FAILED, INVALID}
    case RESERVED => to in {ALLOCATED, RELEASED, FAILED, INVALID}
    case ALLOCATED => to in {MAPPED, COPYING, IN_USE, EXPORTING, RELEASING, MIGRATING, RELEASED, FAILED, INVALID}
    case MAPPED => to in {ALLOCATED, IN_USE, COPYING, RELEASING, RELEASED, FAILED, INVALID}
    case IN_USE => to in {ALLOCATED, COPYING, RELEASING, RELEASED, FAILED, INVALID}
    case EXPORTING => to in {EXPORTED, ALLOCATED, FAILED}
    case EXPORTED => to in {ALLOCATED, RELEASED, FAILED}
    case IMPORTING => to in {IMPORTED, FAILED, INVALID}
    case IMPORTED => to in {ALLOCATED, RELEASED, FAILED, INVALID}
    case COPYING => to in {ALLOCATED, IN_USE, RELEASED, FAILED}
    case MIGRATING => to in {ALLOCATED, FAILED}
    case RELEASING => to in {RELEASED, FAILED}
    case RELEASED => to == INVALID
    case FAILED => to in {QUARANTINED, INVALID}
    case QUARANTINED => to == INVALID
    case INVALID => false
  }

  /** The control once one more token of this kind refers to it. */
  function Taken(x: Control, k: TokenKind): Control {
    var y := x.(refs := x.refs + 1);
    match k
    case HandleToken => y
    case LeaseToken(READ_LEASE) =>
      y.(readLeases := x.readLeases + 1, state := if x.state == ALLOCATED then IN_USE else x.state)
    case LeaseToken(WRITE_LEASE) =>
      y.(writeLeases := x.writeLeases + 1, state := if x.state == ALLOCATED || x.state == MAPPED then IN_USE else x.state)
    case LeaseToken(EXCLUSIVE_LEASE) =>
      y.(exclusiveLeases := x.exclusiveLeases + 1, state := if x.state == ALLOCATED || x.state == MAPPED then IN_USE else x.state)
    case MapToken(_) =>
      y.(mapCount := x.mapCount + 1, state := if ValidTransition(x.state, MAPPED) then MAPPED else x.state)
    case ViewToken(_, _, _) => y
  }

  function Decrement(n: nat): nat {
    if n > 0 then n - 1 else 0
  }

  /** The last lease gives the IN_USE state back. */
  function LeaseGone(x: Control): Control {
    if x.readLeases == 0 && x.writeLeases == 0 && x.exclusiveLeases == 0 && x.state == IN_USE then x.(state := ALLOCATED) else x
  }

  /** The control once a token of this kind is given up, before the count is looked at. */
  function Dropped(x: Control, k: TokenKind): Control {
    var y := x.(refs := x.refs - 1);
    match k
    case HandleToken => y
    case LeaseToken(READ_LEASE) => LeaseGone(y.(readLeases := Decrement(x.readLeases)))
    case LeaseToken(WRITE_LEASE) => LeaseGone(y.(writeLeases := Decrement(x.writeLeases)))
    case LeaseToken(EXCLUSIVE_LEASE) => LeaseGone(y.(exclusiveLeases := Decrement(x.exclusiveLeases)))
    case MapToken(_) =>
      y.(mapCount := Decrement(x.mapCount), state := if x.mapCount <= 1 && x.state == MAPPED then ALLOCATED else x.state)
    case ViewToken(_, _, _) => y
  }

  // ------------------------------------------------------------------ handles

  predicate HasControl(s: State, c: nat) {
    c < |s.ctls| && c < |s.store.recs|
  }

  predicate Gone(b: BufferState) {
    b == RELEASED || b == QUARANTINED || b == INVALID
  }

  /** validate_alive: the control a handle may act on. */
  function Alive(s: State, h: nat): Result<nat> {
    if h >= |s.tokens| || !s.tokens[h].live || s.tokens[h].kind != HandleToken then Err(StaleHandle)
    else
      var c := s.tokens[h].ctl;
      if !HasControl(s, c) || s.store.recs[c].finalized then Err(StaleHandle)
      else if s.tokens[h].gen != s.store.recs[c].generation then Err(StaleGeneration)
      else if Gone(s.ctls[c].state) then Err(StaleHandle)
      else Ok(c)
  }

  /** ensure_valid: only a plain WRITE wish is refused on a read-only buffer. */
  function EnsureValid(s: State, h: nat, want: AccessMode): Result<nat> {
    match Alive(s, h)
    case Err(e) => Err(e)
    case Ok(c) =>
      if c < |s.store.recs| && want == WRITE && s.store.recs[c].access == READ then Err(PermissionFailure) else Ok(c)
  }

  /** A new object refers to control c. */
  function Take(s: State, c: nat, k: TokenKind, gen: nat): State
    requires c < |s.ctls|
  {
    s.(ctls := s.ctls[c := Taken(s.ctls[c], k)], tokens := s.tokens + [Token(k, c, gen, true)])
  }

  /** Taking for the handle h, with its generation. */
  function TakeFor(s: State, h: nat, c: nat, k: TokenKind): (State, Result<nat>)
    requires c < |s.ctls| && h < |s.tokens|
  {
    (Take(s, c, k, s.tokens[h].gen), Ok(|s.tokens|))
  }

  function Share(s: State, h: nat): (State, Result<nat>) {
    match Alive(s, h)
    case Err(e) => (s, Err(e))
    case Ok(c) => TakeFor(s, h, c, HandleToken)
  }

  /** The block behind the backing's host mapping. Device memory of the backend has none; wrapped memory, until
      it is migrated, has the caller's pointer for one. */
  function HostBlock(r: Record): Option<Block> {
    if r.domain == DEVICE && (r.ownership == RUNTIME || r.generation > 1) then None else Some(r.backing.block)
  }

  function OpenView(s: State, h: nat, offset: Size, length: Size, access: AccessMode): (State, Result<nat>) {
    match EnsureValid(s, h, access)
    case Err(e) => (s, Err(e))
    case Ok(c) =>
      var r := s.store.recs[c];
      if !(r.size <= MAX_SIZE && RangeInBounds(offset, length, r.size)) then (s, Err(BoundsError))
      else if length == 0 then (s, Err(InvalidArgument))
      else TakeFor(s, h, c, ViewToken(HostBlock(r), offset, length))
  }

  /** Every backend but the device's, which is refused here, maps without fail. */
  function OpenMap(s: State, h: nat, access: AccessMode): (State, Result<nat>) {
    match EnsureValid(s, h, access)
    case Err(e) => (s, Err(e))
    case Ok(c) =>
      var r := s.store.recs[c];
      if r.domain == DEVICE then (s, Err(UnsupportedCapability))
      else if r.domain !in s.store.cfg.domains then (s, Err(UnsupportedDomain))
      else TakeFor(s, h, c, MapToken(Some(r.backing.block)))
  }

  /** The three acquire operations: read leases exclude the others, the others exclude all. */
  predicate Conflicts(x: Control, k: LeaseKind) {
    x.exclusiveLeases > 0 || x.writeLeases > 0 || (k != READ_LEASE && x.readLeases > 0)
  }

  function Acquire(s: State, h: nat, k: LeaseKind): (State, Result<nat>) {
    match Alive(s, h)
    case Err(e) => (s, Err(e))
    case Ok(c) =>
      if Conflicts(s.ctls[c], k) then (s, Err(LeaseConflict)) else TakeFor(s, h, c, LeaseToken(k))
  }

  // ------------------------------------------------------------------ giving up

  /** finalize, together with the state it leaves. */
  function FinalizeControl(s: State, c: nat): State
    requires c < |s.ctls|
  {
    if !Live(s.store, c) then s
    else s.(store := Finalize(s.store, c), ctls := s.ctls[c := s.ctls[c].(state := RELEASED)])
  }

  /** Release of any object: handles, leases, maps and views all end in drop_ref. */
  function Release(s: State, t: nat): State {
    if t >= |s.tokens| || !s.tokens[t].live || s.tokens[t].ctl >= |s.ctls| then s
    else
      var k := s.tokens[t];
      var x := s.ctls[k.ctl];
      var s1 := s.(ctls := s.ctls[k.ctl := Dropped(x, k.kind)], tokens := s.tokens[t := k.(live := false)]);
      if x.refs == 1 then FinalizeControl(s1, k.ctl) else s1
  }

  /** Objects of one class: only these can be moved into each other. */
  predicate SameClass(a: TokenKind, b: TokenKind) {
    match a
    case HandleToken => b.HandleToken?
    case LeaseToken(_) => b.LeaseToken?
    case MapToken(_) => b.MapToken?
    case ViewToken(_, _, _) => b.ViewToken?
  }

  /** Move assignment: release the destination, then take over the source. Self-moves do nothing. */
  function MoveAssign(s: State, dst: nat, src: nat): State {
    if dst >= |s.tokens| || src >= |s.tokens| || dst == src || !SameClass(s.tokens[dst].kind, s.tokens[src].kind) then s
    else
      var s1 := Release(s, dst);
      if dst >= |s1.tokens| || src >= |s1.tokens| then s1
      else s1.(tokens := s1.tokens[dst := s1.tokens[src]][src := s1.tokens[src].(live := false)])
  }

  /** Move construction into a new object. */
  function MoveNew(s: State, src: nat): State {
    if src >= |s.tokens| then s
    else s.(tokens := s.tokens[src := s.tokens[src].(live := false)] + [s.tokens[src]])
  }

  // ------------------------------------------------------------------ runtime calls

  /** A control as register_control makes it, already retained once by the caller. */
  function FirstHeld(): Control {
    Control(1, 0, 0, 0, 0, ALLOCATED)
  }

  /** What Runtime::allocate and Runtime::wrap_external do with a new control. */
  function Adopted(s: State, r: (Store, Result<nat>)): (State, Result<nat>) {
    match r.1
    case Err(e) => (s.(store := r.0), Err(e))
    case Ok(c) => (State(r.0, s.ctls + [FirstHeld()], s.tokens + [Token(HandleToken, c, 1, true)]), Ok(|s.tokens|))
  }

  function AllocateBuffer(s: State, req: Request, env: Env): (State, Result<nat>) {
    Adopted(s, Allocate(s.store, req, env))
  }

  function WrapExternal(s: State, x: ExternalMemory, fill: seq<Byte>): (State, Result<nat>) {
    Adopted(s, Wrap(s.store, x, fill))
  }

  /** What Runtime::migrate does with the outcome for control c. */
  function Arrived(s: State, c: nat, r: (Store, Result<()>)): (State, Result<nat>)
    requires HasControl(s, c)
  {
    match r.1
    case Err(e) => (s.(store := r.0), Err(e))
    case Ok(_) =>
      var s1 := s.(store := r.0, ctls := s.ctls[c := s.ctls[c].(state := ALLOCATED)]);
      (Take(s1, c, HandleToken, s.store.recs[c].generation + 1), Ok(|s.tokens|))
  }

  /** migrate: the guards in the source's order, without its test for a released buffer, which the
      handle's validation has already made. A buffer that is already in the target is only shared. */
  function MigrateBuffer(s: State, h: nat, target: Domain, env: Env): (State, Result<nat>) {
    match Alive(s, h)
    case Err(e) => (s, Err(e))
    case Ok(c) =>
      var x := s.ctls[c];
      if s.store.recs[c].domain == target then TakeFor(s, h, c, HandleToken)
      else if x.writeLeases > 0 || x.exclusiveLeases > 0 then (s, Err(LeaseConflict))
      else Arrived(s, c, Migrate(s.store, c, target, env))
  }

  /** copy_from with its data already cut out of the caller's memory. */
  function CopyFrom(s: State, h: nat, data: seq<Byte>, copyOk: bool): (State, Result<()>) {
    match EnsureValid(s, h, WRITE)
    case Err(e) => (s, Err(e))
    case Ok(c) =>
      var r := s.store.recs[c];
      if |data| > r.size || |data| > r.backing.committed then (s, Err(BoundsError))
      else if r.domain == DEVICE && !copyOk then (s, Err(BackendFailure))
      else (s.(store := WriteBuffer(s.store, c, data)), Ok(()))
  }

  /** A same-runtime export; shared-memory and file handles are not modelled. */
  datatype Descriptor = Descriptor(
    version: nat, id: BufferId, generation: nat, ns: NamespaceId, domain: Domain, size: nat, alignment: nat, local: bool)

  const FORMAT_VERSION: nat := 1

  predicate LocalDomain(d: Domain) {
    d != SHARED_HOST && d != MMAP_STORAGE
  }

  function DescriptorOf(r: Record): Descriptor {
    Descriptor(FORMAT_VERSION, r.id, r.generation, r.ns, r.domain, r.size, r.alignment, true)
  }

  function ExportLocal(s: State, h: nat): Result<Descriptor> {
    match Alive(s, h)
    case Err(e) => Err(e)
    case Ok(c) =>
      var r := s.store.recs[c];
      if !r.exportable then Err(PermissionFailure)
      else if r.domain !in s.store.cfg.domains then Err(UnsupportedDomain)
      else if !LocalDomain(r.domain) then Err(UnsupportedCapability)
      else Ok(DescriptorOf(r))
  }

  /** import_descriptor up to the point where an identifier is drawn. */
  function ImportAllowed(st: Store, d: Descriptor, ns: NamespaceId): Result<()> {
    if d.version != FORMAT_VERSION || d.size == 0 || d.size > MAX_REQUEST then Err(ImportFailure)
    else if d.alignment != 0 && And(d.alignment, d.alignment - 1) != 0 then Err(ImportFailure)
    else if ns !in st.nss then Err(ImportFailure)
    else if d.ns in st.nss && !st.nss[d.ns].allowImport then Err(PermissionFailure)
    else if !st.nss[ns].allowImport then Err(PermissionFailure)
    else if d.ns != ns then Err(PermissionFailure)
    else Ok(())
  }

  /** Import of a same-runtime descriptor: the identifier drawn for it is never used. */
  function ImportLocal(s: State, d: Descriptor, ns: NamespaceId): (State, Result<nat>)
  {
    match ImportAllowed(s.store, d, ns)
    case Err(e) => (s, Err(e))
    case Ok(_) =>
      var s1 := s.(store := TakeId(s.store));
      if !d.local then (s1, Err(ImportFailure))
      else
        match Lookup(s.store, d.id, d.generation)
        case Err(_) => (s1, Err(ImportFailure))
        case Ok(c) => if c < |s.ctls| then (Take(s1, c, HandleToken, d.generation), Ok(|s.tokens|)) else (s1, Err(ImportFailure))
  }

  // ------------------------------------------------------------------ runs

  datatype Op =
    | AllocateOp(req: Request, env: Env)
    | WrapOp(x: ExternalMemory, fill: seq<Byte>)
    | ShareOp(h: nat)
    | ViewOp(h: nat, offset: Size, length: Size, access: AccessMode)
    | MapOp(h: nat, access: AccessMode)
    | AcquireOp(h: nat, lease: LeaseKind)
    | ReleaseOp(t: nat)
    | MoveAssignOp(dst: nat, src: nat)
    | MoveNewOp(src: nat)
    | MigrateOp(h: nat, target: Domain, env: Env)
    | CopyFromOp(h: nat, data: seq<Byte>, copyOk: bool)
    | ImportOp(d: Descriptor, ns: NamespaceId)
    | TrimOp
    | CreateNamespaceOp(nsc: NamespaceConfig)

  function Step(s: State, op: Op): State {
    match op
    case AllocateOp(req, env) => AllocateBuffer(s, req, env).0
    case WrapOp(x, fill) => WrapExternal(s, x, fill).0
    case ShareOp(h) => Share(s, h).0
    case ViewOp(h, offset, length, access) => OpenView(s, h, offset, length, access).0
    case MapOp(h, access) => OpenMap(s, h, access).0
    case AcquireOp(h, lease) => Acquire(s, h, lease).0
    case ReleaseOp(t) => Release(s, t)
    case MoveAssignOp(dst, src) => MoveAssign(s, dst, src)
    case MoveNewOp(src) => MoveNew(s, src)
    case MigrateOp(h, target, env) => MigrateBuffer(s, h, target, env).0
    case CopyFromOp(h, data, copyOk) => CopyFrom(s, h, data, copyOk).0
    case ImportOp(d, ns) => if LocalDomain(d.domain) then ImportLocal(s, d, ns).0 else s
    case TrimOp => s.(store := Trim(s.store))
    case CreateNamespaceOp(nsc) => s.(store := CreateNamespace(s.store, nsc))
  }

  function StepAll(s: State, ops: seq<Op>): State
    decreases |ops|
  {
    if ops == [] then s else StepAll(Step(s, ops[0]), ops[1..])
  }
}
