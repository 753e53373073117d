/** All locks of the virtual storage together: threads lock the virtual tree from the root down,
    then at most one storage, and release in reverse (`MGMultiLockGuard`, `resolveNode`).

    A thread is its stack of held locks and the lock it asked for last, if it has not yet seen the
    grant.  Every operation of the source is a sequence of these steps. */
module LockSystem {
  import opened MGMutex
  import opened Options

  type Path = seq<string>

  datatype LockId = NodeLock(path: Path) | StorageLock(id: nat)

  const ROOT := NodeLock([])

  datatype Thread = Thread(held: seq<LockId>, wants: Option<LockId>)

  datatype System = System(locks: map<LockId, State>, threads: map<ThreadId, Thread>) {
    function Lock(l: LockId): State { if l in locks then locks[l] else UNLOCKED }

    function ThreadOf(t: ThreadId): Thread { if t in threads then threads[t] else Thread([], None) }

    function With(l: LockId, s: State, t: ThreadId, thread: Thread): System {
      System(locks[l := s], threads[t := thread])
    }
  }

  const START := System(map[], map[])

  /** The order in which a thread may take its locks: a child of the node it holds, or a storage. */
  predicate Follows(held: LockId, next: LockId) {
    match (held, next)
    case (NodeLock(p), NodeLock(q)) => |q| == |p| + 1 && q[..|p|] == p
    case (NodeLock(_), StorageLock(_)) => true
    case (StorageLock(_), _) => false
  }

  predicate MayAsk(held: seq<LockId>, next: LockId) {
    if held == [] then next == ROOT else Follows(held[|held| - 1], next)
  }

  datatype Action =
    | Ask(t: ThreadId, lock: LockId, mode: LockType)   // MGMutex::lock, up to the spin loop
    | SeeGrant(t: ThreadId)                            // the spin loop finds the thread running
    | Drop(t: ThreadId)                                // MGMutex::unlock of the lock taken last

  predicate Can(s: System, a: Action) {
    var thread := s.ThreadOf(a.t);
    match a
    case Ask(_, l, mode) => mode != NL && thread.wants == None && MayAsk(thread.held, l)
    case SeeGrant(t) => thread.wants.Some? && Has(s.Lock(thread.wants.value).running, t)
    case Drop(t) => thread.wants == None && thread.held != [] && Has(s.Lock(thread.held[|thread.held| - 1]).running, t)
  }

  function Do(s: System, a: Action): System
    requires Can(s, a)
  {
    var thread := s.ThreadOf(a.t);
    match a
    case Ask(t, l, mode) => s.With(l, Request(s.Lock(l), t, mode), t, thread.(wants := Some(l)))
    case SeeGrant(t) =>
      s.With(thread.wants.value, s.Lock(thread.wants.value), t,
             Thread(thread.held + [thread.wants.value], None))
    case Drop(t) =>
      var n := |thread.held| - 1;
      s.With(thread.held[n], Release(s.Lock(thread.held[n]), t), t, thread.(held := thread.held[..n]))
  }

  predicate Execution(s: System, actions: seq<Action>, s': System)
    decreases |actions|
  {
    if actions == [] then s == s' else Can(s, actions[0]) && Execution(Do(s, actions[0]), actions[1..], s')
  }

  // ---- Invariant ---------------------------------------------------------------------------

  /** The held locks lead from the root down. */
  predicate Chain(held: seq<LockId>) {
    && (held != [] ==> held[0] == ROOT)
    && forall i | 0 <= i < |held| - 1 :: Follows(held[i], held[i + 1])
  }

  predicate Below(a: LockId, b: LockId) {
    match (a, b)
    case (NodeLock(p), NodeLock(q)) => |p| < |q|
    case (NodeLock(_), StorageLock(_)) => true
    case (StorageLock(_), _) => false
  }

  lemma {:induction false} ChainAscends(held: seq<LockId>, i: nat, j: nat)
    requires Chain(held) && i < j < |held|
    ensures Below(held[i], held[j])
  {
    assert Follows(held[j - 1], held[j]);
    if i < j - 1 {
      ChainAscends(held, i, j - 1);
    }
  }

  predicate ThreadOk(thread: Thread) {
    Chain(thread.held) && (thread.wants.Some? ==> MayAsk(thread.held, thread.wants.value))
  }

  /** What mutex `l` knows about thread `t` and what the thread knows agree. */
  predicate Linked(lock: State, thread: Thread, l: LockId, t: ThreadId) {
    && (Has(lock.waiting, t) ==> thread.wants == Some(l))
    && (Has(lock.running, t) ==> l in thread.held || thread.wants == Some(l))
    && (l in thread.held ==> Has(lock.running, t))
    && (thread.wants == Some(l) ==> Has(lock.running, t) || Has(lock.waiting, t))
  }

  ghost predicate Consistent(s: System) {
    && (forall l: LockId :: Invariant(s.Lock(l)))
    && (forall t: ThreadId :: ThreadOk(s.ThreadOf(t)))
    && (forall l: LockId, t: ThreadId :: Linked(s.Lock(l), s.ThreadOf(t), l, t))
  }

  lemma MayAskIsNew(held: seq<LockId>, l: LockId)
    requires Chain(held) && MayAsk(held, l)
    ensures l !in held && Chain(held + [l])
  {
    forall i | 0 <= i < |held|
      ensures held[i] != l
    {
      if i < |held| - 1 {
        ChainAscends(held, i, |held| - 1);
      }
    }
  }

  lemma AskConsistent(s: System, t: ThreadId, l: LockId, mode: LockType)
    requires Consistent(s) && Can(s, Ask(t, l, mode))
    ensures Consistent(Do(s, Ask(t, l, mode)))
  {
    hide Request, Invariant, Chain, MayAsk, Has;
    var s', lock, thread := Do(s, Ask(t, l, mode)), s.Lock(l), s.ThreadOf(t);
    MayAskIsNew(thread.held, l);
    assert Linked(lock, thread, l, t);
    RequestInvariant(lock, t, mode);
    forall k: LockId
      ensures Invariant(s'.Lock(k))
    {
      assert s'.Lock(k) == if k == l then Request(lock, t, mode) else s.Lock(k);
    }
    forall u: ThreadId
      ensures ThreadOk(s'.ThreadOf(u))
    {
      assert ThreadOk(s.ThreadOf(u));
    }
    forall k: LockId, u: ThreadId
      ensures Linked(s'.Lock(k), s'.ThreadOf(u), k, u)
    {
      assert Linked(s.Lock(k), s.ThreadOf(u), k, u);
      RequestLists(lock, t, mode, u);
    }
  }

  lemma RequestLists(s: State, t: ThreadId, mode: LockType, u: ThreadId)
    ensures Has(Request(s, t, mode).running, u) || Has(Request(s, t, mode).waiting, u)
       <==> u == t || Has(s.running, u) || Has(s.waiting, u)
    ensures u != t ==> (Has(Request(s, t, mode).running, u) <==> Has(s.running, u))
    ensures u != t ==> (Has(Request(s, t, mode).waiting, u) <==> Has(s.waiting, u))
  {
    HasAppend(s.running, [LockNode(t, mode)], u);
    HasAppend(s.waiting, [LockNode(t, mode)], u);
    assert [LockNode(t, mode)][0].thread == t;
  }

  /** An unlock removes `t` from the mutex and moves others forward, never back. */
  lemma ReleaseLists(s: State, t: ThreadId, u: ThreadId)
    requires Invariant(s) && Has(s.running, t)
    ensures var s' := Release(s, t);
      && !Has(s'.running, t) && !Has(s'.waiting, t)
      && (u != t ==> (Has(s'.running, u) || Has(s'.waiting, u) <==> Has(s.running, u) || Has(s.waiting, u)))
      && (u != t && Has(s.running, u) ==> Has(s'.running, u))
      && (u != t && Has(s'.waiting, u) ==> Has(s.waiting, u))
  {
    var s' := Release(s, t);
    var i := Find(s.running, t);
    var g := GrantsInOrder(s, t);
    var rest := s.running[..i] + s.running[i + 1..];
    GoneAfterRelease(s, t, i, g);
    hide Release, Invariant, Has;
    if u != t {
      SplitHas(s.running, i, u);
    }
    HasAppend(rest, s.waiting[..g], u);
    HasAppend(s.waiting[..g], s.waiting[g..], u);
    assert s.waiting == s.waiting[..g] + s.waiting[g..];
  }

  lemma SplitHas(nodes: seq<LockNode>, i: nat, u: ThreadId)
    requires i < |nodes| && nodes[i].thread != u
    ensures Has(nodes, u) <==> Has(nodes[..i] + nodes[i + 1..], u)
  {
    HasAppend(nodes[..i], nodes[i + 1..], u);
    HasAppend(nodes[..i], [nodes[i]] + nodes[i + 1..], u);
    HasAppend([nodes[i]], nodes[i + 1..], u);
    assert nodes == nodes[..i] + ([nodes[i]] + nodes[i + 1..]);
  }

  lemma GoneAfterRelease(s: State, t: ThreadId, i: nat, g: nat)
    requires Invariant(s) && i < |s.running| && s.running[i].thread == t && g <= |s.waiting|
    ensures !Has(s.running[..i] + s.running[i + 1..] + s.waiting[..g], t)
    ensures !Has(s.waiting[g..], t)
  {
    var all := s.running + s.waiting;
    assert all[i].thread == t;
    var rest := s.running[..i] + s.running[i + 1..] + s.waiting[..g];
    forall j | 0 <= j < |rest|
      ensures rest[j].thread != t
    {
      assert rest[j] == all[if j < i then j else j + 1];
    }
    forall j | 0 <= j < |s.waiting|
      ensures s.waiting[j].thread != t
    {
      assert s.waiting[j] == all[|s.running| + j];
    }
  }

  lemma DropConsistent(s: System, t: ThreadId)
    requires Consistent(s) && Can(s, Drop(t))
    ensures Consistent(Do(s, Drop(t)))
  {
    hide Release, Invariant, Chain, MayAsk, Has;
    var s', held := Do(s, Drop(t)), s.ThreadOf(t).held;
    var n := |held| - 1;
    var l := held[n];
    var lock := s.Lock(l);
    ReleaseInvariant(lock, t);
    assert ThreadOk(s.ThreadOf(t));
    LastHeld(held);
    forall k: LockId
      ensures Invariant(s'.Lock(k))
    {
      assert s'.Lock(k) == if k == l then Release(lock, t) else s.Lock(k);
    }
    forall u: ThreadId
      ensures ThreadOk(s'.ThreadOf(u))
    {
      assert ThreadOk(s.ThreadOf(u));
    }
    forall k: LockId, u: ThreadId
      ensures Linked(s'.Lock(k), s'.ThreadOf(u), k, u)
    {
      assert Linked(s.Lock(k), s.ThreadOf(u), k, u);
      ReleaseLists(lock, t, u);
    }
  }

  lemma LastHeld(held: seq<LockId>)
    requires Chain(held) && held != []
    ensures held[|held| - 1] !in held[..|held| - 1] && Chain(held[..|held| - 1])
  {
    forall i | 0 <= i < |held| - 1
      ensures held[i] != held[|held| - 1]
    {
      ChainAscends(held, i, |held| - 1);
    }
  }

  lemma SeeGrantConsistent(s: System, t: ThreadId)
    requires Consistent(s) && Can(s, SeeGrant(t))
    ensures Consistent(Do(s, SeeGrant(t)))
  {
    hide Invariant, Chain, MayAsk, Has;
    var l, s' := s.ThreadOf(t).wants.value, Do(s, SeeGrant(t));
    assert ThreadOk(s.ThreadOf(t));
    MayAskIsNew(s.ThreadOf(t).held, l);
    InvariantDistinct(s.Lock(l), t);
    forall k: LockId
      ensures Invariant(s'.Lock(k))
    {
      assert s'.Lock(k) == s.Lock(k);
    }
    forall u: ThreadId
      ensures ThreadOk(s'.ThreadOf(u))
    {
      assert ThreadOk(s.ThreadOf(u));
    }
    forall k: LockId, u: ThreadId
      ensures Linked(s'.Lock(k), s'.ThreadOf(u), k, u)
    {
      assert Linked(s.Lock(k), s.ThreadOf(u), k, u);
    }
  }

  lemma InvariantDistinct(lock: State, t: ThreadId)
    requires Invariant(lock)
    ensures !(Has(lock.running, t) && Has(lock.waiting, t))
  {
    NotBoth(lock, t);
  }

  lemma {:induction false} ExecutionConsistent(s: System, actions: seq<Action>, s': System)
    requires Consistent(s) && Execution(s, actions, s')
    ensures Consistent(s')
    decreases |actions|
  {
    hide Consistent, Can, Do;
    if actions != [] {
      match actions[0] {
        case Ask(t, l, mode) => AskConsistent(s, t, l, mode);
        case SeeGrant(t) => SeeGrantConsistent(s, t);
        case Drop(t) => DropConsistent(s, t);
      }
      ExecutionConsistent(Do(s, actions[0]), actions[1..], s');
    }
  }

  /** The locks that `resolveNode` takes for a path, root first. */
  function ResolvePlan(path: Path): seq<LockId> {
    seq(|path| + 1, i requires 0 <= i <= |path| => NodeLock(path[..i]))
  }

  /** `resolveNode` asks in the allowed order, and so does a storage operation after it. */
  lemma ResolveAsksInOrder(path: Path, n: nat, id: nat)
    requires n <= |path|
    ensures MayAsk(ResolvePlan(path)[..n], ResolvePlan(path)[n])
    ensures MayAsk(ResolvePlan(path), StorageLock(id))
  {
    if n > 0 {
      assert path[..n][..n - 1] == path[..n - 1];
    }
  }

  // ---- No deadlock -------------------------------------------------------------------------

  predicate Unfinished(s: System, t: ThreadId) {
    s.ThreadOf(t).held != [] || s.ThreadOf(t).wants.Some?
  }

  /** The thread has an operation under way and is not stuck in the spin loop. */
  predicate Runnable(s: System, t: ThreadId) {
    Unfinished(s, t) && (s.ThreadOf(t).wants.Some? ==> Has(s.Lock(s.ThreadOf(t).wants.value).running, t))
  }

  /** A runnable thread can in fact take a step. */
  lemma RunnableSteps(s: System, t: ThreadId)
    requires Consistent(s) && Runnable(s, t)
    ensures Can(s, if s.ThreadOf(t).wants.Some? then SeeGrant(t) else Drop(t))
  {
  }

  function WaitersAbove(s: System, l: LockId): set<ThreadId> {
    set t | t in s.threads && s.threads[t].wants.Some? && Below(l, s.threads[t].wants.value)
  }

  /** Following the holders of the wanted locks downwards leads to a thread that can step. */
  lemma {:induction false} FindRunnable(s: System, t: ThreadId) returns (r: ThreadId)
    requires Consistent(s) && Unfinished(s, t)
    ensures Runnable(s, r)
    decreases s.ThreadOf(t).wants.Some?, if s.ThreadOf(t).wants.Some? then WaitersAbove(s, s.ThreadOf(t).wants.value) else {}
  {
    if Runnable(s, t) {
      return t;
    }
    var l := s.ThreadOf(t).wants.value;
    var holder := s.Lock(l).running[0].thread;
    if Runnable(s, holder) {
      return holder;
    }
    assert Has(s.Lock(l).running, holder);
    var l' := s.ThreadOf(holder).wants.value;
    HeldBelowWanted(s, holder, l);
    WaitersShrink(s, l, holder);
    r := FindRunnable(s, holder);
  }

  lemma HeldBelowWanted(s: System, t: ThreadId, l: LockId)
    requires Consistent(s) && s.ThreadOf(t).wants.Some? && l in s.ThreadOf(t).held
    ensures Below(l, s.ThreadOf(t).wants.value)
  {
    var held := s.ThreadOf(t).held;
    var i :| 0 <= i < |held| && held[i] == l;
    if i < |held| - 1 {
      ChainAscends(held, i, |held| - 1);
    }
  }

  lemma WaitersShrink(s: System, l: LockId, t: ThreadId)
    requires s.ThreadOf(t).wants.Some? && Below(l, s.ThreadOf(t).wants.value)
    ensures WaitersAbove(s, s.ThreadOf(t).wants.value) < WaitersAbove(s, l)
  {
    assert t in WaitersAbove(s, l) && t !in WaitersAbove(s, s.ThreadOf(t).wants.value);
  }

  /** No deadlock: in every reachable state in which some operation is unfinished, some thread with
      an unfinished operation can take a step. */
  lemma NoDeadlock(actions: seq<Action>, s: System, t: ThreadId) returns (a: Action)
    requires Execution(START, actions, s) && Unfinished(s, t)
    ensures Can(s, a) && Unfinished(s, a.t)
  {
    ExecutionConsistent(START, actions, s);
    var r := FindRunnable(s, t);
    RunnableSteps(s, r);
    a := if s.ThreadOf(r).wants.Some? then SeeGrant(r) else Drop(r);
  }

  // ---- Exclusion ---------------------------------------------------------------------------

  /** While a mount or unmount holds the root in X, no other thread holds any lock at all. */
  lemma RootExclusion(actions: seq<Action>, s: System, i: nat, u: ThreadId)
    requires Execution(START, actions, s)
    requires i < |s.Lock(ROOT).running| && s.Lock(ROOT).running[i].mode == X
    requires u != s.Lock(ROOT).running[i].thread
    ensures s.ThreadOf(u).held == []
    ensures forall l: LockId :: !Has(s.Lock(l).running, u)
  {
    hide Execution;
    StartConsistent();
    ExecutionConsistent(START, actions, s);
    ExclusiveHolds(s.Lock(ROOT), i);
    assert !Has(s.Lock(ROOT).running, u);
    RootHeldFirst(s, u);
  }

  lemma RootHeldFirst(s: System, u: ThreadId)
    requires Consistent(s) && !Has(s.Lock(ROOT).running, u)
    ensures s.ThreadOf(u).held == []
    ensures forall l: LockId :: !Has(s.Lock(l).running, u)
  {
    var thread := s.ThreadOf(u);
    assert Linked(s.Lock(ROOT), thread, ROOT, u);
    assert ThreadOk(thread);
    assert ROOT !in thread.held;
    forall l: LockId
      ensures !Has(s.Lock(l).running, u)
    {
      assert Linked(s.Lock(l), thread, l, u);
    }
  }

  /** A thread that holds a storage in X is the only one in that storage. */
  lemma StorageExclusion(actions: seq<Action>, s: System, id: nat, i: nat, u: ThreadId)
    requires Execution(START, actions, s)
    requires i < |s.Lock(StorageLock(id)).running| && s.Lock(StorageLock(id)).running[i].mode == X
    requires u != s.Lock(StorageLock(id)).running[i].thread
    ensures StorageLock(id) !in s.ThreadOf(u).held
  {
    hide Execution, Has;
    StartConsistent();
    ExecutionConsistent(START, actions, s);
    ExclusiveHolds(s.Lock(StorageLock(id)), i);
    OneRuns(s, StorageLock(id), u);
  }

  // ---- Sharing -----------------------------------------------------------------------------

  /** Whoever asks for lock `l` asks for one of the modes. */
  predicate AsksOnly(actions: seq<Action>, l: LockId, modes: set<LockType>) {
    forall i | 0 <= i < |actions| :: actions[i].Ask? && actions[i].lock == l ==> actions[i].mode in modes
  }

  /** A lock that is only asked for in modes that fit each other never makes anybody wait. */
  lemma {:induction false} NobodyQueues(s: System, actions: seq<Action>, s': System, l: LockId, modes: set<LockType>)
    requires Consistent(s) && Execution(s, actions, s') && AsksOnly(actions, l, modes) && Agreeing(modes)
    requires s.Lock(l).waiting == [] && StateUses(s.Lock(l), modes)
    ensures s'.Lock(l).waiting == []
    decreases |actions|
  {
    hide Consistent, Can, Do, StateUses, Agreeing;
    if actions != [] {
      var next := Do(s, actions[0]);
      OneAction(s, actions[0]);
      ExecutionConsistent(s, [actions[0]], next);
      StillNobody(s, actions[0], l, modes);
      NobodyQueues(next, actions[1..], s', l, modes);
    }
  }

  lemma OneAction(s: System, a: Action)
    requires Can(s, a)
    ensures Execution(s, [a], Do(s, a))
  {
    hide Can, Do;
    assert [a][1..] == [] && Execution(Do(s, a), [], Do(s, a));
  }

  lemma StillNobody(s: System, a: Action, l: LockId, modes: set<LockType>)
    requires Consistent(s) && Can(s, a) && Agreeing(modes) && s.Lock(l).waiting == [] && StateUses(s.Lock(l), modes)
    requires a.Ask? && a.lock == l ==> a.mode in modes
    ensures Do(s, a).Lock(l).waiting == [] && StateUses(Do(s, a).Lock(l), modes)
  {
    hide Request, Release, Agreeing, StateUses, Invariant, Chain, MayAsk, Has;
    var lock, thread := s.Lock(l), s.ThreadOf(a.t);
    assert Invariant(lock) && ThreadOk(thread) && Linked(lock, thread, l, a.t);
    match a {
      case Ask(t, k, mode) =>
        if k == l {
          MayAskIsNew(thread.held, l);
          StepUses(lock, LockEvent(t, mode), modes);
          StepNoWait(lock, LockEvent(t, mode), modes);
        }
      case SeeGrant(t) =>
        assert Do(s, a).Lock(l) == lock;
      case Drop(t) =>
        if thread.held[|thread.held| - 1] == l {
          StepUses(lock, UnlockEvent(t), modes);
          StepNoWait(lock, UnlockEvent(t), modes);
        }
    }
  }

  lemma OneRuns(s: System, l: LockId, u: ThreadId)
    requires Consistent(s) && |s.Lock(l).running| == 1 && s.Lock(l).running[0].thread != u
    ensures l !in s.ThreadOf(u).held
  {
    assert Linked(s.Lock(l), s.ThreadOf(u), l, u);
  }

  lemma StartConsistent()
    ensures Consistent(START)
  {
  }

  /** Between mounts nobody waits for a node of the tree, and while a storage is only read nobody waits for it. */
  lemma ReadersNeverWait(actions: seq<Action>, s: System, path: Path, id: nat)
    requires Execution(START, actions, s)
    ensures AsksOnly(actions, NodeLock(path), {IS, IX}) ==> s.Lock(NodeLock(path)).waiting == []
    ensures AsksOnly(actions, StorageLock(id), {S}) ==> s.Lock(StorageLock(id)).waiting == []
  {
    hide Consistent, Agreeing, AsksOnly, Execution;
    StartConsistent();
    AgreeingModesOfTheSource();
    if AsksOnly(actions, NodeLock(path), {IS, IX}) {
      NobodyQueues(START, actions, s, NodeLock(path), {IS, IX});
    }
    if AsksOnly(actions, StorageLock(id), {S}) {
      NobodyQueues(START, actions, s, StorageLock(id), {S});
    }
  }
}
