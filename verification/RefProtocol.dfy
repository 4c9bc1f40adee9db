/** The reference count of one control block under concurrency: retain, drop_ref, finalize, lookup and
    shutdown as interleaved atomic steps of any number of threads (src/runtime.cpp). Every interleaving
    the control's mutex would forbid is included too, so what is proved here needs no lock. */
module RefProtocol {
  import opened Sums

  /** Found: has a pointer to the control, from register_control or lookup, but has not retained it yet.
      Finalizing: about to exchange the flag. Cleaning: won the exchange, runs the body of finalize. */
  datatype Pc = Idle | Found | Finalizing | Cleaning

  datatype Thread = Thread(pc: Pc, held: nat)

  datatype Shared = Shared(refs: int, finalized: bool, cleanups: nat, registered: bool, used: bool, threads: seq<Thread>)

  datatype Action =
    | Retain(t: nat)              // share, view, map, acquire: under a reference the thread holds
    | Pass(t: nat, u: nat)        // an object moves to another thread
    | Drop(t: nat)                // fetch_sub; the one that saw 1 finalizes
    | Exchange(t: nat)            // the flag decides who cleans up
    | Clean(t: nat)               // the body: backing, state, count, registry
    | Check(t: nat)               // shutdown finds no references
    | Find(t: nat)                // lookup
    | RetainFound(t: nat)         // the retain after register_control or lookup

  /** Just registered, by thread creator. */
  function Created(n: nat, creator: nat): Shared {
    Shared(0, false, 0, true, false, seq(n, i => Thread(if i == creator then Found else Idle, 0)))
  }

  predicate Enabled(s: Shared, a: Action) {
    a.t < |s.threads| &&
    var th := s.threads[a.t];
    match a
    case Retain(_) => th.pc == Idle && th.held > 0
    case Pass(_, u) => th.pc == Idle && th.held > 0 && u < |s.threads| && u != a.t
    case Drop(_) => th.pc == Idle && th.held > 0
    case Exchange(_) => th.pc == Finalizing
    case Clean(_) => th.pc == Cleaning
    case Check(_) => th.pc == Idle && s.refs == 0
    case Find(_) => th.pc == Idle && s.registered
    case RetainFound(_) => th.pc == Found
  }

  function Put(s: Shared, t: nat, th: Thread): Shared
    requires t < |s.threads|
  {
    s.(threads := s.threads[t := th])
  }

  function Act(s: Shared, a: Action): Shared {
    if !Enabled(s, a) then s
    else
      var th := s.threads[a.t];
      match a
      case Retain(t) => Put(s, t, th.(held := th.held + 1)).(refs := s.refs + 1)
      case Pass(t, u) => Put(Put(s, t, th.(held := th.held - 1)), u, s.threads[u].(held := s.threads[u].held + 1))
      case Drop(t) =>
        Put(s, t, Thread(if s.refs == 1 then Finalizing else Idle, th.held - 1)).(refs := s.refs - 1)
      case Exchange(t) => Put(s, t, th.(pc := if s.finalized then Idle else Cleaning)).(finalized := true)
      case Clean(t) => Put(s, t, th.(pc := Idle)).(cleanups := s.cleanups + 1, registered := false)
      case Check(t) => Put(s, t, th.(pc := Finalizing))
      case Find(t) => Put(s, t, th.(pc := Found))
      case RetainFound(t) => Put(s, t, Thread(Idle, th.held + 1)).(refs := s.refs + 1, used := true)
  }

  function ActAll(s: Shared, actions: seq<Action>): Shared
    decreases |actions|
  {
    if actions == [] then s else ActAll(Act(s, actions[0]), actions[1..])
  }

  // ------------------------------------------------------------------ every interleaving

  function Held(): Thread -> int {
    (th: Thread) => th.held
  }

  function At(pc: Pc): Thread -> int {
    (th: Thread) => if th.pc == pc then 1 else 0
  }

  /** The count is the references held; the flag has been won at most once; and a used control without
      references is finalized or somebody is about to finalize it. */
  ghost predicate Counts(s: Shared) {
    && s.refs == Sum(s.threads, Held())
    && s.cleanups + Sum(s.threads, At(Cleaning)) == (if s.finalized then 1 else 0)
    && (s.used ==> s.refs > 0 || s.finalized || Sum(s.threads, At(Finalizing)) > 0)
  }

  lemma Replaced(s: Shared, t: nat, th: Thread)
    requires t < |s.threads|
    ensures Sum(Put(s, t, th).threads, Held()) == Sum(s.threads, Held()) - s.threads[t].held + th.held
    ensures forall pc :: Sum(Put(s, t, th).threads, At(pc))
                      == Sum(s.threads, At(pc)) - At(pc)(s.threads[t]) + At(pc)(th)
  {
    SumUpdate(s.threads, t, th, Held());
    forall pc {
      SumUpdate(s.threads, t, th, At(pc));
    }
  }

  lemma Totals(s: Shared)
    ensures Sum(s.threads, Held()) >= 0 && forall pc :: Sum(s.threads, At(pc)) >= 0
    ensures forall t :: 0 <= t < |s.threads| ==> Sum(s.threads, Held()) >= s.threads[t].held
    ensures forall t :: 0 <= t < |s.threads| ==> Sum(s.threads, At(s.threads[t].pc)) >= 1
  {
    SumNonNegative(s.threads, Held());
    forall pc {
      SumNonNegative(s.threads, At(pc));
    }
    forall t | 0 <= t < |s.threads|
      ensures Sum(s.threads, Held()) >= s.threads[t].held
      ensures Sum(s.threads, At(s.threads[t].pc)) >= 1
    {
      SumMember(s.threads, t, Held());
      SumMember(s.threads, t, At(s.threads[t].pc));
    }
  }

  lemma PassCounts(s: Shared, t: nat, u: nat)
    requires Counts(s) && Enabled(s, Pass(t, u))
    ensures Counts(Act(s, Pass(t, u)))
  {
    var th := s.threads[t];
    var s1 := Put(s, t, th.(held := th.held - 1));
    Replaced(s, t, th.(held := th.held - 1));
    Replaced(s1, u, s.threads[u].(held := s.threads[u].held + 1));
  }

  /** Every atomic step keeps the counts, whatever the other threads are doing. */
  lemma ActCounts(s: Shared, a: Action)
    requires Counts(s)
    ensures Counts(Act(s, a))
  {
    if Enabled(s, a) {
      Totals(s);
      if a.Pass? {
        PassCounts(s, a.t, a.u);
      } else {
        Replaced(s, a.t, Act(s, a).threads[a.t]);
      }
    }
  }

  lemma {:induction false} RunCounts(s: Shared, actions: seq<Action>)
    requires Counts(s)
    ensures Counts(ActAll(s, actions))
    decreases |actions|
  {
    if actions != [] {
      ActCounts(s, actions[0]);
      RunCounts(Act(s, actions[0]), actions[1..]);
    }
  }

  lemma CreatedCounts(n: nat, creator: nat)
    ensures Counts(Created(n, creator))
  {
    SumZero(Created(n, creator).threads, Held());
    SumZero(Created(n, creator).threads, At(Cleaning));
  }

  ghost predicate AllIdle(s: Shared) {
    forall t :: 0 <= t < |s.threads| ==> s.threads[t].pc == Idle
  }

  /** In every interleaving the body of finalize runs at most once; and when every thread has come to rest
      and no reference is left on a control that was ever retained, it has run exactly once. */
  lemma CleanedExactlyOnce(n: nat, creator: nat, actions: seq<Action>)
    ensures
      var s := ActAll(Created(n, creator), actions);
      s.cleanups <= 1 && (AllIdle(s) && s.used && s.refs == 0 ==> s.cleanups == 1)
  {
    var s := ActAll(Created(n, creator), actions);
    CreatedCounts(n, creator);
    RunCounts(Created(n, creator), actions);
    Totals(s);
    if AllIdle(s) {
      SumZero(s.threads, At(Cleaning));
      SumZero(s.threads, At(Finalizing));
    }
  }

  // ------------------------------------------------------------------ no reference to a dead buffer

  /** The buffer is finalized, or a thread is on its way to do it. */
  ghost predicate Condemned(s: Shared) {
    s.finalized || exists t :: 0 <= t < |s.threads| && s.threads[t].pc == Finalizing
  }

  /** Nobody holds a reference to a buffer that is being or has been torn down. */
  ghost predicate Sane(s: Shared) {
    s.refs == Sum(s.threads, Held()) && (Condemned(s) ==> s.refs == 0)
  }

  /** A retain on a pointer that was found earlier, after the last reference went away. */
  ghost predicate Late(s: Shared, a: Action) {
    a.RetainFound? && Enabled(s, a) && Condemned(s)
  }

  lemma StaysCondemned(s: Shared, a: Action)
    requires Condemned(s)
    ensures Condemned(Act(s, a))
  {
    if Enabled(s, a) && !s.finalized {
      var t :| 0 <= t < |s.threads| && s.threads[t].pc == Finalizing;
      if a.t != t {
        assert Act(s, a).threads[t].pc == Finalizing;
      }
    }
  }

  lemma NewlyCondemned(s: Shared, a: Action)
    requires !Condemned(s) && Condemned(Act(s, a))
    ensures Enabled(s, a) && ((a.Drop? && s.refs == 1) || (a.Check? && s.refs == 0))
  {
  }

  /** A step keeps that if and only if it is not a late retain. */
  lemma SaneExactly(s: Shared, a: Action)
    requires Sane(s) && Counts(s)
    ensures Sane(Act(s, a)) <==> !Late(s, a)
  {
    ActCounts(s, a);
    Totals(s);
    if Condemned(s) {
      StaysCondemned(s, a);
    } else if Condemned(Act(s, a)) {
      NewlyCondemned(s, a);
    }
  }

  ghost predicate AlwaysSane(s: Shared, actions: seq<Action>)
    decreases |actions|
  {
    Sane(s) && (actions != [] ==> AlwaysSane(Act(s, actions[0]), actions[1..]))
  }

  ghost predicate NeverLate(s: Shared, actions: seq<Action>)
    decreases |actions|
  {
    actions != [] ==> !Late(s, actions[0]) && NeverLate(Act(s, actions[0]), actions[1..])
  }

  lemma {:induction false} SaneFrom(s: Shared, actions: seq<Action>)
    requires Sane(s) && Counts(s)
    ensures AlwaysSane(s, actions) <==> NeverLate(s, actions)
    decreases |actions|
  {
    if actions != [] {
      var s' := Act(s, actions[0]);
      SaneExactly(s, actions[0]);
      ActCounts(s, actions[0]);
      if Sane(s') {
        SaneFrom(s', actions[1..]);
      } else {
        NotSaneNow(s', actions[1..]);
      }
    }
  }

  lemma NotSaneNow(s: Shared, actions: seq<Action>)
    requires !Sane(s)
    ensures !AlwaysSane(s, actions)
  {
  }

  /** No use after free, exactly: in a run from registration on, references and teardown never overlap if
      and only if no thread retains a found pointer after the buffer was condemned. */
  lemma UseAfterFreeExactly(n: nat, creator: nat, actions: seq<Action>)
    ensures AlwaysSane(Created(n, creator), actions) <==> NeverLate(Created(n, creator), actions)
  {
    CreatedCounts(n, creator);
    SaneFrom(Created(n, creator), actions);
  }

  /** No thread retains a pointer it merely found. */
  ghost predicate HandlesOnly(actions: seq<Action>) {
    forall i :: 0 <= i < |actions| ==> !actions[i].RetainFound?
  }

  lemma {:induction false} HandlesNeverLate(s: Shared, actions: seq<Action>)
    requires HandlesOnly(actions)
    ensures NeverLate(s, actions)
    decreases |actions|
  {
    if actions != [] {
      HandlesNeverLate(Act(s, actions[0]), actions[1..]);
    }
  }

  /** With handles only, teardown is safe: from the creator's retain on, every interleaving in which new
      references are made only from held ones keeps references and teardown apart. */
  lemma HandlesOnlySafe(n: nat, creator: nat, actions: seq<Action>)
    requires creator < n && HandlesOnly(actions)
    ensures AlwaysSane(Act(Created(n, creator), RetainFound(creator)), actions)
  {
    var s := Created(n, creator);
    CreatedCounts(n, creator);
    CreatedNotCondemned(n, creator);
    SaneExactly(s, RetainFound(creator));
    ActCounts(s, RetainFound(creator));
    HandlesNeverLate(Act(s, RetainFound(creator)), actions);
    SaneFrom(Act(s, RetainFound(creator)), actions);
  }

  lemma CreatedNotCondemned(n: nat, creator: nat)
    ensures !Condemned(Created(n, creator)) && Sane(Created(n, creator))
  {
    CreatedCounts(n, creator);
  }

  /** The overlap can happen, first way: an import has found the control, the last handle goes, the import
      retains. */
  lemma LateRetainHappens(s: Shared, t: nat, u: nat)
    requires Sane(s) && Counts(s) && s.refs == 1 && !s.finalized
    requires t < |s.threads| && u < |s.threads| && s.threads[t] == Thread(Idle, 1) && s.threads[u].pc == Found
    ensures
      var gone := Act(Act(s, Drop(t)), Exchange(t));
      Late(gone, RetainFound(u)) && gone.finalized && !Sane(Act(gone, RetainFound(u)))
  {
    var dropped := Act(s, Drop(t));
    var gone := Act(dropped, Exchange(t));
    SaneExactly(s, Drop(t));
    ActCounts(s, Drop(t));
    SaneExactly(dropped, Exchange(t));
    ActCounts(dropped, Exchange(t));
    SaneExactly(gone, RetainFound(u));
  }

  /** Such a state is reached by creating a handle and looking the buffer up. */
  lemma LateRetainReachable()
    ensures
      var s := Act(Act(Created(2, 0), RetainFound(0)), Find(1));
      s.refs == 1 && !s.finalized && s.threads[0] == Thread(Idle, 1) && s.threads[1].pc == Found
  {
  }

  /** Second way: shutdown meets a control that is registered but not yet retained by its creator, and
      finalizes it under the handle that is about to be returned. */
  lemma ShutdownBeforeRetain(n: nat, creator: nat, t: nat)
    requires creator < n && t < n && t != creator
    ensures
      var gone := Act(Act(Created(n, creator), Check(t)), Exchange(t));
      Late(gone, RetainFound(creator)) && gone.finalized && !Sane(Act(gone, RetainFound(creator)))
  {
    var s := Created(n, creator);
    var checked := Act(s, Check(t));
    var gone := Act(checked, Exchange(t));
    CreatedCounts(n, creator);
    CreatedNotCondemned(n, creator);
    SaneExactly(s, Check(t));
    ActCounts(s, Check(t));
    SaneExactly(checked, Exchange(t));
    ActCounts(checked, Exchange(t));
    SaneExactly(gone, RetainFound(creator));
  }
}
