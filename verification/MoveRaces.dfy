/** Migration against copies and leases of other threads, on one buffer whose references are held: copy_to
    and copy_from check the generation under the control's mutex but read the backing pointer and copy
    without it, acquire_* check it before they lock, and migrate swaps and frees under the lock
    (src/buffer.cpp, src/runtime.cpp). */
module MoveRaces {
  import opened Wrappers
  import opened Types

  /** Checked: a copy has passed its checks. Fetched: it has read the pointer; at is the generation at that
      moment, kept for the proofs. Admitted: an acquire has passed its check but does not have the lock. */
  datatype Pc =
    | Idle
    | Checked(gen: nat)
    | Fetched(block: nat, at: nat)
    | Admitted(kind: LeaseKind, gen: nat)

  datatype Lease = Lease(kind: LeaseKind, gen: nat)

  datatype Thread = Thread(pc: Pc, lease: Option<Lease>)

  datatype Buffer = Buffer(block: nat, generation: nat, freed: set<nat>, next: nat, threads: seq<Thread>)

  datatype Action =
    | Check(t: nat, gen: nat)
    | Fetch(t: nat)
    | Copy(t: nat)
    | Admit(t: nat, kind: LeaseKind, gen: nat)
    | Grant(t: nat)
    | Unlease(t: nat)
    | Migrate(t: nat)

  predicate Writing(th: Thread) {
    th.lease.Some? && th.lease.value.kind != READ_LEASE
  }

  predicate Written(s: Buffer) {
    exists t :: 0 <= t < |s.threads| && Writing(s.threads[t])
  }

  predicate Leased(s: Buffer) {
    exists t :: 0 <= t < |s.threads| && s.threads[t].lease.Some?
  }

  predicate Enabled(s: Buffer, a: Action) {
    a.t < |s.threads| &&
    var th := s.threads[a.t];
    match a
    case Check(_, gen) => th.pc == Idle && gen == s.generation
    case Fetch(_) => th.pc.Checked?
    case Copy(_) => th.pc.Fetched?
    case Admit(_, _, gen) => th.pc == Idle && th.lease == None && gen == s.generation
    case Grant(_) => th.pc.Admitted?
    case Unlease(_) => th.lease.Some?
    case Migrate(_) => th.pc == Idle && !Written(s)
  }

  function Put(s: Buffer, t: nat, th: Thread): Buffer
    requires t < |s.threads|
  {
    s.(threads := s.threads[t := th])
  }

  predicate Refused(s: Buffer, kind: LeaseKind) {
    Written(s) || (kind != READ_LEASE && Leased(s))
  }

  function Act(s: Buffer, a: Action): Buffer {
    if !Enabled(s, a) then s
    else
      var th := s.threads[a.t];
      match a
      case Check(t, gen) => Put(s, t, th.(pc := Checked(gen)))
      case Fetch(t) => Put(s, t, th.(pc := Fetched(s.block, s.generation)))
      case Copy(t) => Put(s, t, th.(pc := Idle))
      case Admit(t, kind, gen) => Put(s, t, th.(pc := Admitted(kind, gen)))
      case Grant(t) =>
        Put(s, t, Thread(Idle, if Refused(s, th.pc.kind) then th.lease else Some(Lease(th.pc.kind, th.pc.gen))))
      case Unlease(t) => Put(s, t, th.(lease := None))
      case Migrate(t) =>
        s.(block := s.next, generation := s.generation + 1, freed := s.freed + {s.block}, next := s.next + 1)
  }

  function ActAll(s: Buffer, actions: seq<Action>): Buffer
    decreases |actions|
  {
    if actions == [] then s else ActAll(Act(s, actions[0]), actions[1..])
  }

  /** How often the buffer moves during the run. */
  function Moves(s: Buffer, actions: seq<Action>): nat
    decreases |actions|
  {
    if actions == [] then 0
    else (if actions[0].Migrate? && Enabled(s, actions[0]) then 1 else 0) + Moves(Act(s, actions[0]), actions[1..])
  }

  // ------------------------------------------------------------------ every interleaving

  /** A fetched pointer is the current block if nothing moved since, and freed otherwise. */
  ghost predicate Faithful(s: Buffer, th: Thread) {
    && (th.pc.Fetched? ==>
          th.pc.at <= s.generation && if th.pc.at == s.generation then th.pc.block == s.block else th.pc.block in s.freed)
    && (th.pc.Checked? ==> th.pc.gen <= s.generation)
    && (th.pc.Admitted? ==> th.pc.gen <= s.generation)
    && (th.lease.Some? ==> th.lease.value.gen <= s.generation)
  }

  ghost predicate Valid(s: Buffer) {
    && s.block < s.next && s.block !in s.freed
    && (forall b :: b in s.freed ==> b < s.next)
    && (forall t :: 0 <= t < |s.threads| ==> Faithful(s, s.threads[t]))
  }

  lemma ActValid(s: Buffer, a: Action)
    requires Valid(s)
    ensures Valid(Act(s, a))
  {
    var s' := Act(s, a);
    forall t | 0 <= t < |s'.threads| ensures Faithful(s', s'.threads[t]) {
      assert Faithful(s, s.threads[t]);
    }
  }

  lemma {:induction false} RunValid(s: Buffer, actions: seq<Action>)
    requires Valid(s)
    ensures Valid(ActAll(s, actions))
    ensures ActAll(s, actions).generation == s.generation + Moves(s, actions)
    ensures |ActAll(s, actions).threads| == |s.threads|
    decreases |actions|
  {
    if actions != [] {
      ActValid(s, actions[0]);
      RunValid(Act(s, actions[0]), actions[1..]);
    }
  }

  /** The other threads run. */
  ghost predicate Without(t: nat, actions: seq<Action>) {
    forall i :: 0 <= i < |actions| ==> actions[i].t != t
  }

  lemma {:induction false} Waits(s: Buffer, t: nat, actions: seq<Action>)
    requires t < |s.threads| && Without(t, actions)
    ensures |ActAll(s, actions).threads| == |s.threads| && ActAll(s, actions).threads[t] == s.threads[t]
    decreases |actions|
  {
    if actions != [] {
      Waits(Act(s, actions[0]), t, actions[1..]);
    }
  }

  /** The copy touches memory that was freed. */
  predicate Dangles(s: Buffer, t: nat) {
    t < |s.threads| && s.threads[t].pc.Fetched? && s.threads[t].pc.block in s.freed
  }

  /** A copy touches freed memory if and only if the buffer moved between the moment the pointer was read
      and the copy itself; a move between the check and that moment is not enough. */
  lemma CopyDanglesExactly(s: Buffer, t: nat, actions: seq<Action>)
    requires Valid(s) && Enabled(s, Fetch(t)) && Without(t, actions)
    ensures Dangles(ActAll(Act(s, Fetch(t)), actions), t) <==> Moves(Act(s, Fetch(t)), actions) > 0
  {
    var s1 := Act(s, Fetch(t));
    ActValid(s, Fetch(t));
    RunValid(s1, actions);
    Waits(s1, t, actions);
    var s2 := ActAll(s1, actions);
    assert Faithful(s2, s2.threads[t]);
  }

  /** A copy acts on another generation than the one its handle was checked for if and only if the buffer
      moved in between. */
  lemma CopyStaleExactly(s: Buffer, t: nat, gen: nat, actions: seq<Action>)
    requires Valid(s) && Enabled(s, Check(t, gen)) && Without(t, actions)
    ensures
      var s1 := ActAll(Act(s, Check(t, gen)), actions);
      Enabled(s1, Fetch(t)) &&
      (Act(s1, Fetch(t)).threads[t].pc.at != gen <==> Moves(Act(s, Check(t, gen)), actions) > 0)
  {
    ActValid(s, Check(t, gen));
    RunValid(Act(s, Check(t, gen)), actions);
    Waits(Act(s, Check(t, gen)), t, actions);
  }

  // ------------------------------------------------------------------ leases

  /** A lease is granted for a superseded generation if and only if the buffer moved between the check of the
      handle and the grant. */
  lemma LeaseStaleExactly(s: Buffer, t: nat, kind: LeaseKind, gen: nat, actions: seq<Action>)
    requires Valid(s) && Enabled(s, Admit(t, kind, gen)) && Without(t, actions)
    ensures
      var s1 := ActAll(Act(s, Admit(t, kind, gen)), actions);
      && Enabled(s1, Grant(t))
      && (!Refused(s1, kind) ==>
            && Act(s1, Grant(t)).threads[t].lease == Some(Lease(kind, gen))
            && (gen != Act(s1, Grant(t)).generation <==> Moves(Act(s, Admit(t, kind, gen)), actions) > 0))
  {
    ActValid(s, Admit(t, kind, gen));
    RunValid(Act(s, Admit(t, kind, gen)), actions);
    Waits(Act(s, Admit(t, kind, gen)), t, actions);
  }

  /** Thread u keeps its lease. */
  ghost predicate KeepsLease(u: nat, actions: seq<Action>) {
    forall i :: 0 <= i < |actions| ==> actions[i] != Unlease(u)
  }

  lemma StillWriting(s: Buffer, u: nat, a: Action)
    requires u < |s.threads| && Writing(s.threads[u]) && a != Unlease(u)
    ensures u < |Act(s, a).threads| && Writing(Act(s, a).threads[u]) && !(a.Migrate? && Enabled(s, a))
  {
    if Enabled(s, a) && a.Grant? && a.t == u {
      assert Written(s);
    }
  }

  /** While a write or exclusive lease is held the buffer does not move, so the lease's generation, current or
      not, stays the distance it was from the buffer's. */
  lemma {:induction false} LeaseHoldsStill(s: Buffer, u: nat, actions: seq<Action>)
    requires u < |s.threads| && Writing(s.threads[u]) && KeepsLease(u, actions)
    ensures Moves(s, actions) == 0
    decreases |actions|
  {
    if actions != [] {
      StillWriting(s, u, actions[0]);
      LeaseHoldsStill(Act(s, actions[0]), u, actions[1..]);
    }
  }

  /** Copies under a write or exclusive lease never touch freed memory, whoever holds it. */
  lemma LeasedCopySafe(s: Buffer, t: nat, u: nat, actions: seq<Action>)
    requires Valid(s) && Enabled(s, Fetch(t)) && Without(t, actions)
    requires u < |s.threads| && Writing(s.threads[u]) && KeepsLease(u, actions)
    ensures !Dangles(ActAll(Act(s, Fetch(t)), actions), t)
  {
    StillWriting(s, u, Fetch(t));
    LeaseHoldsStill(Act(s, Fetch(t)), u, actions);
    CopyDanglesExactly(s, t, actions);
  }

  // ------------------------------------------------------------------ the races happen

  /** n threads with handles of the first generation. */
  function Start(n: nat): Buffer {
    Buffer(0, 1, {}, 1, seq(n, i => Thread(Idle, None)))
  }

  /** Without a lease both races are open to any two threads. */
  lemma RacesHappen(n: nat, t: nat, u: nat, kind: LeaseKind)
    requires t < n && u < n && t != u
    ensures
      var fetched := Act(Act(Start(n), Check(t, 1)), Fetch(t));
      Dangles(Act(fetched, Migrate(u)), t)
    ensures
      var granted := Act(Act(Act(Start(n), Admit(t, kind, 1)), Migrate(u)), Grant(t));
      granted.threads[t].lease == Some(Lease(kind, 1)) && granted.generation == 2
  {
    var fetched := Act(Act(Start(n), Check(t, 1)), Fetch(t));
    assert fetched.threads[t] == Thread(Fetched(0, 1), None) && fetched.threads[u] == Thread(Idle, None);
    assert !Written(fetched);
    var admitted := Act(Start(n), Admit(t, kind, 1));
    assert admitted.threads[u] == Thread(Idle, None) && admitted.threads[t] == Thread(Admitted(kind, 1), None);
    assert !Leased(admitted);
    var moved := Act(admitted, Migrate(u));
    assert moved.threads == admitted.threads && !Leased(moved) && !Written(moved);
  }
}
