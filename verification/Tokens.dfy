/** What every run of the protocol keeps, whatever the backends answer: counters are the objects that
    exist, a buffer is finalized exactly when its last object goes, leases exclude each other, the
    lifecycle follows its table, and objects know whether their pointer is still good. */
module Tokens {
  import opened Wrappers
  import opened CheckedMath
  import opened Types
  import opened Sums
  import opened Accounting
  import opened NativeMemory
  import opened Storage
  import opened Records
  import opened Protocol
  import Crc32c

  // ------------------------------------------------------------------ counting

  /** The counters of a control block. */
  datatype Column = References | Leases(lease: LeaseKind) | Maps

  function Count(x: Control, col: Column): int {
    match col
    case References => x.refs
    case Leases(READ_LEASE) => x.readLeases
    case Leases(WRITE_LEASE) => x.writeLeases
    case Leases(EXCLUSIVE_LEASE) => x.exclusiveLeases
    case Maps => x.mapCount
  }

  /** What one object of this kind adds to a counter. */
  function Weight(col: Column, k: TokenKind): int {
    match col
    case References => 1
    case Leases(l) => if k == LeaseToken(l) then 1 else 0
    case Maps => if k.MapToken? then 1 else 0
  }

  function Tally(c: nat, col: Column): Token -> int {
    (t: Token) => if t.live && t.ctl == c then Weight(col, t.kind) else 0
  }

  /** Every live object belongs to a control, and every counter is the number of objects behind it. */
  ghost predicate Counted(ctls: seq<Control>, tokens: seq<Token>) {
    && (forall t :: 0 <= t < |tokens| && tokens[t].live ==> tokens[t].ctl < |ctls|)
    && (forall c: nat, col :: c < |ctls| ==> Count(ctls[c], col) == Sum(tokens, Tally(c, col)))
  }

  lemma TakeCounted(ctls: seq<Control>, tokens: seq<Token>, c: nat, k: TokenKind, gen: nat)
    requires Counted(ctls, tokens) && c < |ctls|
    ensures Counted(ctls[c := Taken(ctls[c], k)], tokens + [Token(k, c, gen, true)])
  {
    forall x: nat, col | x < |ctls|
      ensures Count(ctls[c := Taken(ctls[c], k)][x], col) == Sum(tokens + [Token(k, c, gen, true)], Tally(x, col))
    {
      SumAppend(tokens, Token(k, c, gen, true), Tally(x, col));
      assert Count(Taken(ctls[c], k), col) == Count(ctls[c], col) + Weight(col, k);
    }
  }

  lemma AdoptCounted(ctls: seq<Control>, tokens: seq<Token>)
    requires Counted(ctls, tokens)
    ensures Counted(ctls + [FirstHeld()], tokens + [Token(HandleToken, |ctls|, 1, true)])
  {
    forall x: nat, col | x <= |ctls|
      ensures Count((ctls + [FirstHeld()])[x], col) == Sum(tokens + [Token(HandleToken, |ctls|, 1, true)], Tally(x, col))
    {
      SumAppend(tokens, Token(HandleToken, |ctls|, 1, true), Tally(x, col));
      if x == |ctls| {
        SumZero(tokens, Tally(x, col));
      }
    }
  }

  lemma HolderCounts(ctls: seq<Control>, tokens: seq<Token>, t: nat, col: Column)
    requires Counted(ctls, tokens) && t < |tokens| && tokens[t].live
    ensures Count(ctls[tokens[t].ctl], col) >= Weight(col, tokens[t].kind)
  {
    SumMember(tokens, t, Tally(tokens[t].ctl, col));
  }

  lemma DropCounted(ctls: seq<Control>, tokens: seq<Token>, t: nat)
    requires Counted(ctls, tokens) && t < |tokens| && tokens[t].live
    ensures
      var k := tokens[t];
      Counted(ctls[k.ctl := Dropped(ctls[k.ctl], k.kind)], tokens[t := k.(live := false)])
  {
    var k := tokens[t];
    var c := k.ctl;
    var ctls', tokens' := ctls[c := Dropped(ctls[c], k.kind)], tokens[t := k.(live := false)];
    forall x: nat, col | x < |ctls| ensures Count(ctls'[x], col) == Sum(tokens', Tally(x, col)) {
      SumUpdate(tokens, t, k.(live := false), Tally(x, col));
      HolderCounts(ctls, tokens, t, col);
      DroppedCount(ctls[c], k.kind, col);
    }
  }

  lemma DroppedCount(x: Control, k: TokenKind, col: Column)
    requires Count(x, col) >= Weight(col, k)
    ensures Count(Dropped(x, k), col) == Count(x, col) - Weight(col, k)
  {
  }

  /** A move hands a reference over: every count stays what it was. */
  lemma MoveCounted(ctls: seq<Control>, tokens: seq<Token>, dst: nat, src: nat)
    requires Counted(ctls, tokens) && dst < |tokens| && src < |tokens| && dst != src && !tokens[dst].live
    ensures Counted(ctls, tokens[dst := tokens[src]][src := tokens[src].(live := false)])
  {
    var k := tokens[src];
    var tokens1 := tokens[dst := k];
    var tokens2 := tokens1[src := k.(live := false)];
    forall x: nat, col | x < |ctls| ensures Count(ctls[x], col) == Sum(tokens2, Tally(x, col)) {
      SumUpdate(tokens, dst, k, Tally(x, col));
      SumUpdate(tokens1, src, k.(live := false), Tally(x, col));
    }
  }

  lemma MoveNewCounted(ctls: seq<Control>, tokens: seq<Token>, src: nat)
    requires Counted(ctls, tokens) && src < |tokens|
    ensures Counted(ctls, tokens[src := tokens[src].(live := false)] + [tokens[src]])
  {
    var k := tokens[src];
    var tokens1 := tokens[src := k.(live := false)];
    forall x: nat, col | x < |ctls| ensures Count(ctls[x], col) == Sum(tokens1 + [k], Tally(x, col)) {
      SumUpdate(tokens, src, k.(live := false), Tally(x, col));
      SumAppend(tokens1, k, Tally(x, col));
    }
  }

  /** Changing only the lifecycle state leaves the counters alone. */
  lemma RestateCounted(ctls: seq<Control>, tokens: seq<Token>, c: nat, b: BufferState)
    requires Counted(ctls, tokens) && c < |ctls|
    ensures Counted(ctls[c := ctls[c].(state := b)], tokens)
  {
    forall x: nat, col | x < |ctls| ensures Count(ctls[c := ctls[c].(state := b)][x], col) == Sum(tokens, Tally(x, col)) {
      assert Count(ctls[c].(state := b), col) == Count(ctls[c], col);
    }
  }

  // ------------------------------------------------------------------ one control

  /** A buffer is finalized exactly when nothing refers to it, and exactly then RELEASED; leases exclude
      each other; MAPPED and IN_USE mean that a map or a lease is out. */
  ghost predicate ControlOk(x: Control, finalized: bool) {
    && x.refs >= 0
    && (finalized <==> x.refs == 0)
    && (finalized <==> x.state == RELEASED)
    && (!finalized ==> x.state == ALLOCATED || x.state == MAPPED || x.state == IN_USE)
    && (x.state == MAPPED ==> x.mapCount > 0)
    && (x.state == IN_USE ==> x.readLeases + x.writeLeases + x.exclusiveLeases > 0)
    && x.writeLeases + x.exclusiveLeases <= 1
    && (x.writeLeases + x.exclusiveLeases > 0 ==> x.readLeases == 0)
  }

  ghost predicate Settled(s: State) {
    && |s.ctls| == |s.store.recs|
    && forall c :: 0 <= c < |s.ctls| ==> ControlOk(s.ctls[c], s.store.recs[c].finalized)
  }

  /** A live object: its generation is one the buffer has had; a write or exclusive lease has the current
      one; its pointer is the current backing if the generation is current, and otherwise a block that was
      freed; a view lies inside its buffer. */
  ghost predicate TokenOk(st: Store, t: Token) {
    t.live ==>
      && t.ctl < |st.recs|
      && var r := st.recs[t.ctl];
      && 1 <= t.gen <= r.generation
      && (t.kind.LeaseToken? && t.kind.lease != READ_LEASE ==> t.gen == r.generation)
      && (t.kind.MapToken? || t.kind.ViewToken? ==> PointerOk(st.mem, t, r))
      && (t.kind.ViewToken? ==> 0 < t.kind.length && t.kind.offset + t.kind.length <= r.size)
  }

  ghost predicate PointerOk(m: Memory, t: Token, r: Record)
    requires t.kind.MapToken? || t.kind.ViewToken?
  {
    t.kind.at.Some? ==>
      if t.gen == r.generation then t.kind.at.value == r.backing.block else Get(m.freed, t.kind.at.value) >= 1
  }

  ghost predicate Faithful(s: State) {
    forall t :: 0 <= t < |s.tokens| ==> TokenOk(s.store, s.tokens[t])
  }

  /** What every run of the protocol keeps. */
  ghost predicate Consistent(s: State) {
    Counted(s.ctls, s.tokens) && Settled(s) && Faithful(s)
  }

  // ------------------------------------------------------------------ lifecycle

  ghost predicate Moves(from: BufferState, to: BufferState) {
    from == to || ValidTransition(from, to)
  }

  /** Every control keeps its lifecycle state or changes it along the table; new ones start ALLOCATED. */
  ghost predicate Legal(ctls: seq<Control>, ctls': seq<Control>) {
    && |ctls| <= |ctls'|
    && (forall c :: 0 <= c < |ctls| ==> Moves(ctls[c].state, ctls'[c].state))
    && (forall c :: |ctls| <= c < |ctls'| ==> ctls'[c].state == ALLOCATED)
  }

  lemma LegalStates(ctls: seq<Control>, ctls1: seq<Control>, ctls2: seq<Control>)
    requires Legal(ctls, ctls1) && |ctls2| == |ctls1|
    requires forall c :: 0 <= c < |ctls1| ==> ctls2[c].state == ctls1[c].state
    ensures Legal(ctls, ctls2)
  {
  }

  lemma TakenOk(x: Control, k: TokenKind)
    requires ControlOk(x, false) && (k.LeaseToken? ==> !Conflicts(x, k.lease))
    ensures ControlOk(Taken(x, k), false) && Moves(x.state, Taken(x, k).state)
  {
  }

  /** What drop_ref leaves behind: a control that is still referred to, or one that is RELEASED. */
  lemma DroppedOk(x: Control, k: TokenKind)
    requires ControlOk(x, false) && forall col :: Count(x, col) >= Weight(col, k)
    ensures x.refs > 1 ==> ControlOk(Dropped(x, k), false) && Moves(x.state, Dropped(x, k).state)
    ensures x.refs == 1 ==> ControlOk(Dropped(x, k).(state := RELEASED), true) && Moves(x.state, RELEASED)
  {
    assert Count(x, References) >= 1;
    if k.LeaseToken? {
      assert Count(x, Leases(k.lease)) >= 1;
    } else if k.MapToken? {
      assert Count(x, Maps) >= 1;
    }
  }

  // ------------------------------------------------------------------ store changes seen by objects

  /** Records keep their place and their size; a record whose generation moved on had its block freed. */
  ghost predicate Tracks(st: Store, st': Store) {
    && |st.recs| <= |st'.recs|
    && (forall b: Block :: Get(st'.mem.freed, b) >= Get(st.mem.freed, b))
    && (forall c :: 0 <= c < |st.recs| ==>
          && st'.recs[c].size == st.recs[c].size
          && if st'.recs[c].generation == st.recs[c].generation
             then st'.recs[c].backing.block == st.recs[c].backing.block
             else st'.recs[c].generation == st.recs[c].generation + 1
                  && Get(st'.mem.freed, st.recs[c].backing.block) >= 1)
  }

  lemma TokenKept(st: Store, st': Store, t: Token)
    requires Tracks(st, st') && TokenOk(st, t)
    requires t.live && t.kind.LeaseToken? && t.kind.lease != READ_LEASE && t.ctl < |st.recs| ==>
               st'.recs[t.ctl].generation == st.recs[t.ctl].generation
    ensures TokenOk(st', t)
  {
  }

  lemma FaithfulKept(s: State, st': Store)
    requires Faithful(s) && Tracks(s.store, st')
    requires forall c :: 0 <= c < |s.store.recs| ==> st'.recs[c].generation == s.store.recs[c].generation
    ensures Faithful(s.(store := st'))
  {
    forall t | 0 <= t < |s.tokens| ensures TokenOk(st', s.tokens[t]) {
      TokenKept(s.store, st', s.tokens[t]);
    }
  }

  lemma TrimFrees(st: Store, b: Block)
    ensures Get(Trim(st).mem.freed, b) >= Get(st.mem.freed, b)
  {
  }

  lemma FinalizeFrees(st: Store, c: nat, b: Block)
    ensures Get(Finalize(st, c).mem.freed, b) >= Get(st.mem.freed, b)
  {
  }

  lemma AllocateFrees(st: Store, req: Request, env: Env, b: Block)
    ensures Get(Allocate(st, req, env).0.mem.freed, b) >= Get(st.mem.freed, b)
  {
  }

  /** How often block b was freed after a migration: the new block if it failed, the old one if not. */
  ghost predicate FreesOne(st: Store, c: nat, r: (Store, Result<()>), b: Block)
    requires c < |st.recs|
  {
    var more := if r.1.Ok? && b == st.recs[c].backing.block then 1 else 0;
    && Get(r.0.mem.freed, b) >= Get(st.mem.freed, b) + more
    && (b != st.mem.next ==> Get(r.0.mem.freed, b) == Get(st.mem.freed, b) + more)
  }

  lemma FreedAfter(m: Memory, x: Block, b: Block)
    ensures Get(Free(m, x).freed, b) == Get(m.freed, b) + if b == x then 1 else 0
  {
  }

  lemma MigrateReservedFrees(st: Store, c: nat, target: Domain, n: nat, acc: Accounts, env: Env, b: Block)
    requires c < |st.recs|
    ensures FreesOne(st, c, MigrateReserved(st, c, target, n, acc, env), b)
  {
    var raw := Obtain(st.mem, Filled(n, env.fill, Fresh));
    var copied := WritePrefix(raw, st.mem.next, Content(st.mem, st.recs[c].backing.block));
    FreedAfter(raw, st.mem.next, b);
    FreedAfter(copied, st.mem.next, b);
    FreedAfter(copied, st.recs[c].backing.block, b);
  }

  lemma MigrateFrees(st: Store, c: nat, target: Domain, env: Env, b: Block)
    requires c < |st.recs|
    ensures FreesOne(st, c, Migrate(st, c, target, env), b)
  {
    var r := st.recs[c];
    var n, k := MoveBytes(r), Charge(r.ns, target);
    var a := ReserveAmount(st.acc, k, CeilingOf(st.cfg, st.nss, k), n);
    if target in st.cfg.domains && a.Ok? {
      MigrateReservedFrees(st, c, target, n, a.value, env, b);
    }
  }

  // ------------------------------------------------------------------ steps

  lemma TakeConsistent(s: State, c: nat, k: TokenKind, gen: nat)
    requires Consistent(s) && c < |s.ctls| && Live(s.store, c)
    requires k.LeaseToken? ==> !Conflicts(s.ctls[c], k.lease)
    requires TokenOk(s.store, Token(k, c, gen, true))
    ensures Consistent(Take(s, c, k, gen)) && Legal(s.ctls, Take(s, c, k, gen).ctls)
  {
    TakeCounted(s.ctls, s.tokens, c, k, gen);
    TakenOk(s.ctls[c], k);
  }

  /** The handle's own generation is current. */
  lemma AliveMeans(s: State, h: nat)
    requires Alive(s, h).Ok?
    ensures
      var c := Alive(s, h).value;
      && h < |s.tokens| && s.tokens[h] == Token(HandleToken, c, s.store.recs[c].generation, true)
      && c < |s.ctls| && Live(s.store, c)
  {
  }

  /** Objects made for a handle. */
  lemma TakeForConsistent(s: State, h: nat, k: TokenKind)
    requires Consistent(s) && Alive(s, h).Ok?
    requires k.LeaseToken? ==> !Conflicts(s.ctls[Alive(s, h).value], k.lease)
    requires k.MapToken? || k.ViewToken? ==> k.at.None? || k.at.value == s.store.recs[Alive(s, h).value].backing.block
    requires k.ViewToken? ==> 0 < k.length && k.offset + k.length <= s.store.recs[Alive(s, h).value].size
    ensures
      var s' := TakeFor(s, h, Alive(s, h).value, k).0;
      Consistent(s') && Legal(s.ctls, s'.ctls)
  {
    AliveMeans(s, h);
    var c := Alive(s, h).value;
    assert TokenOk(s.store, s.tokens[h]);
    TakeConsistent(s, c, k, s.tokens[h].gen);
  }

  /** drop_ref in a consistent state: the last object, and no other, finalizes the buffer. */
  lemma ReleaseConsistent(s: State, t: nat)
    requires Consistent(s)
    ensures Consistent(Release(s, t)) && Legal(s.ctls, Release(s, t).ctls)
    ensures |Release(s, t).tokens| == |s.tokens|
    ensures t < |s.tokens| ==> !Release(s, t).tokens[t].live
    ensures forall x :: 0 <= x < |s.tokens| && x != t ==> Release(s, t).tokens[x] == s.tokens[x]
  {
    if t < |s.tokens| && s.tokens[t].live {
      var k, c := s.tokens[t], s.tokens[t].ctl;
      var x := s.ctls[c];
      var s1 := s.(ctls := s.ctls[c := Dropped(x, k.kind)], tokens := s.tokens[t := k.(live := false)]);
      forall col ensures Count(x, col) >= Weight(col, k.kind) {
        HolderCounts(s.ctls, s.tokens, t, col);
      }
      assert Count(x, References) >= 1;
      assert ControlOk(x, s.store.recs[c].finalized);
      DropCounted(s.ctls, s.tokens, t);
      DroppedOk(x, k.kind);
      if x.refs == 1 {
        LastRelease(s, s1, c);
      }
    }
  }

  lemma LastRelease(s: State, s1: State, c: nat)
    requires Counted(s1.ctls, s1.tokens) && Settled(s) && Faithful(s1) && s1.store == s.store
    requires c < |s.ctls| && Live(s.store, c) && |s1.ctls| == |s.ctls|
    requires forall x :: 0 <= x < |s.ctls| && x != c ==> s1.ctls[x] == s.ctls[x]
    requires ControlOk(s1.ctls[c].(state := RELEASED), true)
    ensures Consistent(FinalizeControl(s1, c))
  {
    var st, st' := s.store, Finalize(s.store, c);
    FinalizeChanges(st, c);
    forall b: Block ensures Get(st'.mem.freed, b) >= Get(st.mem.freed, b) {
      FinalizeFrees(st, c, b);
    }
    FaithfulKept(s1, st');
    RestateCounted(s1.ctls, s1.tokens, c, RELEASED);
  }

  lemma MoveAssignConsistent(s: State, dst: nat, src: nat)
    requires Consistent(s)
    ensures Consistent(MoveAssign(s, dst, src)) && Legal(s.ctls, MoveAssign(s, dst, src).ctls)
  {
    if dst < |s.tokens| && src < |s.tokens| && dst != src {
      var s1 := Release(s, dst);
      ReleaseConsistent(s, dst);
      MoveCounted(s1.ctls, s1.tokens, dst, src);
      assert TokenOk(s1.store, s1.tokens[src]);
    }
  }

  lemma MoveNewConsistent(s: State, src: nat)
    requires Consistent(s)
    ensures Consistent(MoveNew(s, src)) && MoveNew(s, src).ctls == s.ctls
  {
    if src < |s.tokens| {
      MoveNewCounted(s.ctls, s.tokens, src);
      assert TokenOk(s.store, s.tokens[src]);
    }
  }

  /** A new buffer and its first handle. */
  lemma AdoptConsistent(s: State, r: (Store, Result<nat>))
    requires Consistent(s) && AddsOrFails(s.store, r)
    requires forall b: Block :: Get(r.0.mem.freed, b) >= Get(s.store.mem.freed, b)
    ensures Consistent(Adopted(s, r).0) && Legal(s.ctls, Adopted(s, r).0.ctls)
  {
    FaithfulKept(s, r.0);
    if r.1.Ok? {
      AdoptCounted(s.ctls, s.tokens);
    }
  }

  lemma AllocateConsistent(s: State, req: Request, env: Env)
    requires Consistent(s)
    ensures Consistent(AllocateBuffer(s, req, env).0) && Legal(s.ctls, AllocateBuffer(s, req, env).0.ctls)
  {
    AllocateAdds(s.store, req, env);
    forall b: Block ensures Get(Allocate(s.store, req, env).0.mem.freed, b) >= Get(s.store.mem.freed, b) {
      AllocateFrees(s.store, req, env, b);
    }
    AdoptConsistent(s, Allocate(s.store, req, env));
  }

  lemma WrapConsistent(s: State, x: ExternalMemory, fill: seq<Crc32c.Byte>)
    requires Consistent(s)
    ensures Consistent(WrapExternal(s, x, fill).0) && Legal(s.ctls, WrapExternal(s, x, fill).0.ctls)
  {
    WrapAdds(s.store, x, fill);
    AdoptConsistent(s, Wrap(s.store, x, fill));
  }

  /** The store changes, but no record does. */
  lemma StoreConsistent(s: State, st': Store)
    requires Consistent(s) && st'.recs == s.store.recs
    requires forall b: Block :: Get(st'.mem.freed, b) >= Get(s.store.mem.freed, b)
    ensures Consistent(s.(store := st'))
  {
    FaithfulKept(s, st');
  }

  /** Without write and exclusive leases there are no such objects either. */
  lemma NoWriters(s: State, c: nat, t: nat)
    requires Consistent(s) && c < |s.ctls| && s.ctls[c].writeLeases == 0 && s.ctls[c].exclusiveLeases == 0
    requires t < |s.tokens| && s.tokens[t].live && s.tokens[t].ctl == c && s.tokens[t].kind.LeaseToken?
    ensures s.tokens[t].kind.lease == READ_LEASE
  {
    HolderCounts(s.ctls, s.tokens, t, Leases(s.tokens[t].kind.lease));
  }

  /** A successful migration: the record moves on, the state returns to ALLOCATED. */
  lemma MovedConsistent(s: State, st': Store, c: nat)
    requires Consistent(s) && c < |s.ctls| && Live(s.store, c)
    requires s.ctls[c].writeLeases == 0 && s.ctls[c].exclusiveLeases == 0
    requires Tracks(s.store, st') && |st'.recs| == |s.store.recs| && !st'.recs[c].finalized
    requires forall x :: 0 <= x < |st'.recs| && x != c ==> st'.recs[x] == s.store.recs[x]
    ensures
      var s1 := s.(store := st', ctls := s.ctls[c := s.ctls[c].(state := ALLOCATED)]);
      Consistent(s1) && Legal(s.ctls, s1.ctls)
  {
    forall t | 0 <= t < |s.tokens| ensures TokenOk(st', s.tokens[t]) {
      var k := s.tokens[t];
      if k.live && k.kind.LeaseToken? && k.ctl == c {
        NoWriters(s, c, t);
      }
      TokenKept(s.store, st', k);
    }
    RestateCounted(s.ctls, s.tokens, c, ALLOCATED);
  }

  /** What a migration of record c leaves of the records, read off its outcome. */
  ghost predicate Migrates(st: Store, c: nat, r: (Store, Result<()>))
    requires c < |st.recs|
  {
    && Tracks(st, r.0) && |r.0.recs| == |st.recs|
    && (r.1.Err? ==> r.0.recs == st.recs)
    && (forall x :: 0 <= x < |st.recs| && x != c ==> r.0.recs[x] == st.recs[x])
    && !r.0.recs[c].finalized
    && (r.1.Ok? ==> r.0.recs[c].generation == st.recs[c].generation + 1)
  }

  lemma ChangesMigrates(st: Store, c: nat, r: (Store, Result<()>), ch: Change)
    requires Live(st, c) && Changes(st, r.0, ch)
    requires if r.1.Ok? then ch.Moved? && ch.c == c else ch.Same?
    requires forall b: Block :: Get(r.0.mem.freed, b) >= Get(st.mem.freed, b)
    requires r.1.Ok? ==> Get(r.0.mem.freed, st.recs[c].backing.block) >= 1
    ensures Migrates(st, c, r)
  {
  }

  lemma MigrateTracks(st: Store, c: nat, target: Domain, env: Env)
    requires CanMigrate(st, c, target)
    ensures Migrates(st, c, Migrate(st, c, target, env))
  {
    var r := Migrate(st, c, target, env);
    MigrateChanges(st, c, target, env);
    MigrateFrees(st, c, target, env, st.recs[c].backing.block);
    forall b: Block ensures Get(r.0.mem.freed, b) >= Get(st.mem.freed, b) {
      MigrateFrees(st, c, target, env, b);
    }
    ChangesMigrates(st, c, r, ChangeOf(st, DoMigrate(c, target, env)));
  }

  lemma MovedAndTaken(s: State, st': Store, c: nat, gen: nat)
    requires Consistent(s) && c < |s.ctls| && Live(s.store, c)
    requires s.ctls[c].writeLeases == 0 && s.ctls[c].exclusiveLeases == 0
    requires Tracks(s.store, st') && |st'.recs| == |s.store.recs| && !st'.recs[c].finalized
    requires 1 <= gen <= st'.recs[c].generation
    requires forall x :: 0 <= x < |st'.recs| && x != c ==> st'.recs[x] == s.store.recs[x]
    ensures
      var s1 := s.(store := st', ctls := s.ctls[c := s.ctls[c].(state := ALLOCATED)]);
      Consistent(Take(s1, c, HandleToken, gen)) && Legal(s.ctls, Take(s1, c, HandleToken, gen).ctls)
  {
    MovedConsistent(s, st', c);
    FurtherHandle(s.ctls, s.(store := st', ctls := s.ctls[c := s.ctls[c].(state := ALLOCATED)]), c, gen);
  }

  lemma ArrivedIs(s: State, c: nat, r: (Store, Result<()>))
    requires HasControl(s, c) && r.1.Ok?
    ensures
      var s1 := s.(store := r.0, ctls := s.ctls[c := s.ctls[c].(state := ALLOCATED)]);
      Arrived(s, c, r).0 == Take(s1, c, HandleToken, s.store.recs[c].generation + 1)
  {
  }

  lemma ArrivedConsistent(s: State, c: nat, r: (Store, Result<()>))
    requires Consistent(s) && HasControl(s, c) && Live(s.store, c) && Migrates(s.store, c, r)
    requires s.ctls[c].writeLeases == 0 && s.ctls[c].exclusiveLeases == 0 && s.store.recs[c].generation >= 1
    ensures Consistent(Arrived(s, c, r).0) && Legal(s.ctls, Arrived(s, c, r).0.ctls)
  {
    if r.1.Ok? {
      ArrivedIs(s, c, r);
      MovedAndTaken(s, r.0, c, s.store.recs[c].generation + 1);
    } else {
      StoreConsistent(s, r.0);
    }
  }

  /** A further handle leaves every lifecycle state as it is. */
  lemma FurtherHandle(ctls: seq<Control>, s: State, c: nat, gen: nat)
    requires Consistent(s) && c < |s.ctls| && Live(s.store, c) && 1 <= gen <= s.store.recs[c].generation && Legal(ctls, s.ctls)
    ensures Consistent(Take(s, c, HandleToken, gen)) && Legal(ctls, Take(s, c, HandleToken, gen).ctls)
  {
    TakeConsistent(s, c, HandleToken, gen);
    LegalStates(ctls, s.ctls, Take(s, c, HandleToken, gen).ctls);
  }

  lemma MigrateConsistent(s: State, h: nat, target: Domain, env: Env)
    requires Consistent(s)
    ensures Consistent(MigrateBuffer(s, h, target, env).0) && Legal(s.ctls, MigrateBuffer(s, h, target, env).0.ctls)
  {
    if Alive(s, h).Ok? {
      AliveMeans(s, h);
      var c := Alive(s, h).value;
      assert TokenOk(s.store, s.tokens[h]);
      if s.store.recs[c].domain == target {
        TakeForConsistent(s, h, HandleToken);
      } else if s.ctls[c].writeLeases == 0 && s.ctls[c].exclusiveLeases == 0 {
        MigrateTracks(s.store, c, target, env);
        ArrivedConsistent(s, c, Migrate(s.store, c, target, env));
      }
    }
  }

  lemma ViewConsistent(s: State, h: nat, offset: Size, length: Size, access: AccessMode)
    requires Consistent(s)
    ensures
      var s' := OpenView(s, h, offset, length, access).0;
      Consistent(s') && Legal(s.ctls, s'.ctls)
  {
    if OpenView(s, h, offset, length, access).1.Ok? {
      AliveMeans(s, h);
      var r := s.store.recs[Alive(s, h).value];
      TakeForConsistent(s, h, ViewToken(HostBlock(r), offset, length));
    }
  }

  lemma MapConsistent(s: State, h: nat, access: AccessMode)
    requires Consistent(s)
    ensures Consistent(OpenMap(s, h, access).0) && Legal(s.ctls, OpenMap(s, h, access).0.ctls)
  {
    if OpenMap(s, h, access).1.Ok? {
      AliveMeans(s, h);
      TakeForConsistent(s, h, MapToken(Some(s.store.recs[Alive(s, h).value].backing.block)));
    }
  }

  lemma AcquireConsistent(s: State, h: nat, k: LeaseKind)
    requires Consistent(s)
    ensures Consistent(Acquire(s, h, k).0) && Legal(s.ctls, Acquire(s, h, k).0.ctls)
  {
    if Acquire(s, h, k).1.Ok? {
      AliveMeans(s, h);
      TakeForConsistent(s, h, LeaseToken(k));
    }
  }

  lemma ImportConsistent(s: State, d: Descriptor, ns: NamespaceId)
    requires Consistent(s) && Identified(s.store)
    ensures Consistent(ImportLocal(s, d, ns).0) && Legal(s.ctls, ImportLocal(s, d, ns).0.ctls)
  {
    var s1 := s.(store := TakeId(s.store));
    StoreConsistent(s, s1.store);
    if ImportLocal(s, d, ns).1.Ok? {
      var c := Lookup(s.store, d.id, d.generation).value;
      assert Shaped(s.store.cfg, s.store.recs[c]);
      TakeConsistent(s1, c, HandleToken, d.generation);
    }
  }

  lemma ShareConsistent(s: State, h: nat)
    requires Consistent(s)
    ensures Consistent(Share(s, h).0) && Legal(s.ctls, Share(s, h).0.ctls)
  {
    if Alive(s, h).Ok? {
      TakeForConsistent(s, h, HandleToken);
    }
  }

  lemma CopyFromConsistent(s: State, h: nat, data: seq<Crc32c.Byte>, copyOk: bool)
    requires Consistent(s)
    ensures Consistent(CopyFrom(s, h, data, copyOk).0) && CopyFrom(s, h, data, copyOk).0.ctls == s.ctls
  {
    StoreConsistent(s, CopyFrom(s, h, data, copyOk).0.store);
  }

  lemma TrimConsistent(s: State)
    requires Consistent(s)
    ensures Consistent(s.(store := Trim(s.store)))
  {
    forall b: Block ensures Get(Trim(s.store).mem.freed, b) >= Get(s.store.mem.freed, b) {
      TrimFrees(s.store, b);
    }
    StoreConsistent(s, Trim(s.store));
  }

  // ------------------------------------------------------------------ whole runs

  /** Consistent, and every registered identifier names its live buffer. */
  ghost predicate Coherent(s: State) {
    Consistent(s) && Identified(s.store)
  }

  /** Making, moving and giving up objects. */
  lemma ObjectConsistent(s: State, op: Op)
    requires Consistent(s)
    requires op.ShareOp? || op.ViewOp? || op.MapOp? || op.AcquireOp? || op.ReleaseOp? || op.MoveAssignOp? || op.MoveNewOp?
    ensures Consistent(Step(s, op)) && Legal(s.ctls, Step(s, op).ctls)
  {
    match op
    case ShareOp(h) => ShareConsistent(s, h);
    case ViewOp(h, offset, length, access) => ViewConsistent(s, h, offset, length, access);
    case MapOp(h, access) => MapConsistent(s, h, access);
    case AcquireOp(h, lease) => AcquireConsistent(s, h, lease);
    case ReleaseOp(t) => ReleaseConsistent(s, t);
    case MoveAssignOp(dst, src) => MoveAssignConsistent(s, dst, src);
    case MoveNewOp(src) => MoveNewConsistent(s, src);
  }

  lemma StepConsistent(s: State, op: Op)
    requires Coherent(s)
    ensures Consistent(Step(s, op)) && Legal(s.ctls, Step(s, op).ctls)
  {
    match op
    case AllocateOp(req, env) => AllocateConsistent(s, req, env);
    case WrapOp(x, fill) => WrapConsistent(s, x, fill);
    case MigrateOp(h, target, env) => MigrateConsistent(s, h, target, env);
    case CopyFromOp(h, data, copyOk) => CopyFromConsistent(s, h, data, copyOk);
    case ImportOp(d, ns) => ImportConsistent(s, d, ns);
    case TrimOp => TrimConsistent(s);
    case CreateNamespaceOp(nsc) => StoreConsistent(s, CreateNamespace(s.store, nsc));
    case _ => ObjectConsistent(s, op);
  }
}
