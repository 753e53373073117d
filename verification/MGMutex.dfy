/** The multiple-granularity mutex: a current mode, the running holders and a first-in first-out
    queue of waiters.  `lock` and `unlock` are atomic steps; the spinning of a waiter is the
    observation that it has moved to the running list. */
module MGMutex {

  datatype LockType = NL | IS | IX | S | SIX | X

  /** The compatibility matrix of the source, row by row. */
  function Row(a: LockType): seq<bool>
    ensures |Row(a)| == 6
  {
    match a
    case NL  => [true, true, true, true, true, true]
    case IS  => [true, true, true, true, true, false]
    case IX  => [true, true, true, false, false, false]
    case S   => [true, true, false, true, false, false]
    case SIX => [true, true, false, false, false, false]
    case X   => [true, false, false, false, false, false]
  }

  function Index(a: LockType): (i: nat)
    ensures i < 6
  {
    match a case NL => 0 case IS => 1 case IX => 2 case S => 3 case SIX => 4 case X => 5
  }

  predicate Compatible(a: LockType, b: LockType) {
    Row(a)[Index(b)]
  }

  // What a mode lets its holder do with a node of the tree, all of it or some part below it.

  predicate ReadsAll(a: LockType) { a == S || a == SIX || a == X }

  predicate WritesAll(a: LockType) { a == X }

  predicate WritesSome(a: LockType) { a == IX || a == SIX || a == X }

  predicate TouchesSome(a: LockType) { a != NL }

  /** One holder may write what the other may be reading or writing, and no lock below keeps them apart. */
  predicate Clash(a: LockType, b: LockType) {
    (WritesAll(a) && TouchesSome(b)) || (ReadsAll(a) && WritesSome(b))
  }

  /** Two modes are compatible exactly if their holders cannot clash. */
  lemma CompatibleIsNoClash(a: LockType, b: LockType)
    ensures Compatible(a, b) <==> !Clash(a, b) && !Clash(b, a)
  {
  }

  type ThreadId = nat

  datatype LockNode = LockNode(thread: ThreadId, mode: LockType)

  datatype State = State(current: LockType, running: seq<LockNode>, waiting: seq<LockNode>)

  const UNLOCKED := State(NL, [], [])

  predicate Has(nodes: seq<LockNode>, t: ThreadId) {
    exists i | 0 <= i < |nodes| :: nodes[i].thread == t
  }

  /** The position of the first entry of thread `t`. */
  function Find(nodes: seq<LockNode>, t: ThreadId): (i: nat)
    requires Has(nodes, t)
    ensures i < |nodes| && nodes[i].thread == t && forall j | 0 <= j < i :: nodes[j].thread != t
  {
    if nodes[0].thread == t then 0 else
      assert forall i | 1 <= i < |nodes| :: nodes[i] == nodes[1..][i - 1];
      1 + Find(nodes[1..], t)
  }

  /** `lock`: run at once if nobody waits and the mode fits, else queue up. */
  function Request(s: State, t: ThreadId, mode: LockType): State {
    if s.waiting == [] && Compatible(s.current, mode) then
      State(if s.current == NL then mode else s.current, s.running + [LockNode(t, mode)], s.waiting)
    else
      s.(waiting := s.waiting + [LockNode(t, mode)])
  }

  /** How many waiters join holders of mode `current`, from the front of the queue. */
  function Joiners(current: LockType, waiting: seq<LockNode>): (n: nat)
    ensures n <= |waiting|
    ensures forall i | 0 <= i < n :: Compatible(current, waiting[i].mode)
    ensures n < |waiting| ==> !Compatible(current, waiting[n].mode)
  {
    if waiting == [] || !Compatible(current, waiting[0].mode) then 0 else 1 + Joiners(current, waiting[1..])
  }

  /** `unlock`: the last holder to leave hands the mutex to the first waiter and to those right
      behind it that fit. */
  function Release(s: State, t: ThreadId): State
    requires Has(s.running, t)
  {
    var i := Find(s.running, t);
    var rest := s.running[..i] + s.running[i + 1..];
    if rest != [] then s.(running := rest)
    else if s.waiting == [] then UNLOCKED
    else
      var mode := s.waiting[0].mode;
      var n := 1 + Joiners(mode, s.waiting[1..]);
      State(mode, s.waiting[..n], s.waiting[n..])
  }

  /** The mutex object of the source. */
  class Mutex {
    var currentType: LockType
    var runningThreads: seq<LockNode>
    var waitingThreads: seq<LockNode>

    function View(): State
      reads this
    {
      State(currentType, runningThreads, waitingThreads)
    }

    constructor ()
      ensures View() == UNLOCKED
    {
      currentType, runningThreads, waitingThreads := NL, [], [];
    }

    /** The atomic part of `lock`; `granted` is false when the caller has to spin. */
    method Lock(t: ThreadId, lockType: LockType) returns (granted: bool)
      modifies this
      ensures View() == Request(old(View()), t, lockType)
      ensures granted <==> runningThreads != old(runningThreads)
    {
      var node := LockNode(t, lockType);
      if waitingThreads == [] && Compatible(currentType, lockType) {
        runningThreads := runningThreads + [node];
        if currentType == NL {
          currentType := lockType;
        }
        return true;
      }
      waitingThreads := waitingThreads + [node];
      return false;
    }

    method Unlock(t: ThreadId)
      requires Has(runningThreads, t)
      modifies this
      ensures View() == Release(old(View()), t)
    {
      hide Compatible;
      var found := Find(runningThreads, t);
      runningThreads := runningThreads[..found] + runningThreads[found + 1..];
      if runningThreads == [] {
        currentType := NL;
      }
      if runningThreads == [] && waitingThreads != [] {
        Promote();
      }
    }

    /** The loop of `unlock` that moves waiters to the running list. */
    method Promote()
      requires runningThreads == [] && waitingThreads != []
      modifies this
      ensures var queue := old(waitingThreads);
        var n := 1 + Joiners(queue[0].mode, queue[1..]);
        currentType == queue[0].mode && runningThreads == queue[..n] && waitingThreads == queue[n..]
    {
      hide Compatible;
      ghost var queue := waitingThreads;
      ghost var n := 0;
      while waitingThreads != []
        invariant n <= |queue| && waitingThreads == queue[n..] && runningThreads == queue[..n]
        invariant n > 0 ==> currentType == queue[0].mode
        invariant n > 0 ==> 1 + Joiners(queue[0].mode, queue[1..]) == n + Joiners(currentType, waitingThreads)
        decreases |waitingThreads|
      {
        var it := waitingThreads[0];
        if runningThreads == [] {
          currentType := it.mode;
          runningThreads := runningThreads + [it];
          waitingThreads := waitingThreads[1..];
        } else if Compatible(currentType, it.mode) {
          runningThreads := runningThreads + [it];
          waitingThreads := waitingThreads[1..];
        } else {
          break;
        }
        n := n + 1;
      }
    }
  }

  // ---- Invariants over every run -----------------------------------------------------------

  predicate Distinct(nodes: seq<LockNode>) {
    forall i, j | 0 <= i < j < |nodes| :: nodes[i].thread != nodes[j].thread
  }

  /** What holds in every reachable state: a waiter implies a runner, and every runner behind the
      first one fits the current mode, which the first one has or fits as well. */
  predicate Invariant(s: State) {
    && (s.current == NL <==> s.running == [])
    && (s.running == [] ==> s.waiting == [])
    && (forall i | 0 <= i < |s.running| :: s.running[i].mode != NL)
    && (forall i | 0 <= i < |s.waiting| :: s.waiting[i].mode != NL)
    && (forall i | 1 <= i < |s.running| :: Compatible(s.current, s.running[i].mode))
    && (s.running != [] ==> s.running[0].mode == s.current || Compatible(s.current, s.running[0].mode))
    && Distinct(s.running + s.waiting)
  }

  datatype Event = LockEvent(thread: ThreadId, mode: LockType) | UnlockEvent(thread: ThreadId)

  /** Callers never ask for `NL`, never lock twice and unlock only what they hold. */
  predicate Enabled(s: State, e: Event) {
    match e
    case LockEvent(t, mode) => mode != NL && !Has(s.running, t) && !Has(s.waiting, t)
    case UnlockEvent(t) => Has(s.running, t)
  }

  function Step(s: State, e: Event): State
    requires Enabled(s, e)
  {
    match e
    case LockEvent(t, mode) => Request(s, t, mode)
    case UnlockEvent(t) => Release(s, t)
  }

  /** `es` is a run from `s` that ends in `s'`. */
  predicate Run(s: State, es: seq<Event>, s': State)
    decreases |es|
  {
    if es == [] then s == s' else Enabled(s, es[0]) && Run(Step(s, es[0]), es[1..], s')
  }

  lemma HasAppend(a: seq<LockNode>, b: seq<LockNode>, t: ThreadId)
    ensures Has(a + b, t) <==> Has(a, t) || Has(b, t)
  {
    if Has(a, t) {
      var i := Find(a, t);
      assert (a + b)[i].thread == t;
    }
    if Has(b, t) {
      var i := Find(b, t);
      assert (a + b)[|a| + i].thread == t;
    }
  }

  lemma StepInvariant(s: State, e: Event)
    requires Invariant(s) && Enabled(s, e)
    ensures Invariant(Step(s, e))
  {
    hide Invariant, Request, Release;
    match e {
      case LockEvent(t, mode) => RequestInvariant(s, t, mode);
      case UnlockEvent(t) => ReleaseInvariant(s, t);
    }
  }

  lemma RequestInvariant(s: State, t: ThreadId, mode: LockType)
    requires Invariant(s) && mode != NL && !Has(s.running, t) && !Has(s.waiting, t)
    ensures Invariant(Request(s, t, mode))
  {
    hide Has, Distinct;
    var s' := Request(s, t, mode);
    HasAppend(s.running, s.waiting, t);
    AppendDistinct(s.running + s.waiting, LockNode(t, mode));
    assert s'.running + s'.waiting == s.running + s.waiting + [LockNode(t, mode)];
  }

  lemma AppendDistinct(nodes: seq<LockNode>, node: LockNode)
    requires Distinct(nodes) && !Has(nodes, node.thread)
    ensures Distinct(nodes + [node])
  {
  }

  lemma ReleaseInvariant(s: State, t: ThreadId)
    requires Invariant(s) && Has(s.running, t)
    ensures Invariant(Release(s, t))
  {
    hide Compatible, Find, Has, Joiners, Distinct, Invariant, Release;
    var i := Find(s.running, t);
    var rest := s.running[..i] + s.running[i + 1..];
    ReleaseIs(s, t, rest);
    Leave(s, i, rest);
    if rest != [] {
      assert Release(s, t) == s.(running := rest);
    } else if s.waiting == [] {
      assert Release(s, t) == UNLOCKED;
    } else {
      assert rest + s.waiting == s.waiting;
      HandOver(s.waiting);
    }
  }

  lemma ReleaseIs(s: State, t: ThreadId, rest: seq<LockNode>)
    requires Has(s.running, t) && rest == s.running[..Find(s.running, t)] + s.running[Find(s.running, t) + 1..]
    ensures
      && (rest != [] ==> Release(s, t) == s.(running := rest))
      && (rest == [] && s.waiting == [] ==> Release(s, t) == UNLOCKED)
      && (rest == [] && s.waiting != [] ==>
            var n := 1 + Joiners(s.waiting[0].mode, s.waiting[1..]);
            Release(s, t) == State(s.waiting[0].mode, s.waiting[..n], s.waiting[n..]))
  {
  }

  /** One holder less, and others left; or none left. */
  lemma Leave(s: State, i: nat, rest: seq<LockNode>)
    requires Invariant(s) && i < |s.running| && rest == s.running[..i] + s.running[i + 1..]
    ensures
      && (rest != [] ==> Invariant(s.(running := rest)))
      && Distinct(rest + s.waiting) && (forall j | 0 <= j < |s.waiting| :: s.waiting[j].mode != NL)
    ensures Invariant(UNLOCKED)
  {
    hide Compatible, Distinct;
    RemoveDistinct(s.running, s.waiting, i);
    assert forall j | 0 <= j < |rest| :: rest[j] == s.running[if j < i then j else j + 1];
    NoneDistinct();
  }

  lemma NoneDistinct()
    ensures Distinct([] + [])
  {
  }

  /** The state after the last holder has left and the first waiters have got the mutex. */
  lemma HandOver(waiting: seq<LockNode>)
    requires waiting != [] && Distinct(waiting) && forall i | 0 <= i < |waiting| :: waiting[i].mode != NL
    ensures var n := 1 + Joiners(waiting[0].mode, waiting[1..]);
      Invariant(State(waiting[0].mode, waiting[..n], waiting[n..]))
  {
    hide Compatible, Distinct;
    var n := 1 + Joiners(waiting[0].mode, waiting[1..]);
    assert waiting[..n] + waiting[n..] == waiting;
    assert forall j | 1 <= j < n :: waiting[j] == waiting[1..][j - 1];
  }

  lemma RemoveDistinct(a: seq<LockNode>, b: seq<LockNode>, i: nat)
    requires i < |a| && Distinct(a + b)
    ensures Distinct(a[..i] + a[i + 1..] + b)
  {
    var all, rest := a + b, a[..i] + a[i + 1..] + b;
    assert forall j | 0 <= j < |rest| :: rest[j] == all[if j < i then j else j + 1];
  }

  lemma {:induction false} RunInvariant(s: State, es: seq<Event>, s': State)
    requires Invariant(s) && Run(s, es, s')
    ensures Invariant(s')
    decreases |es|
  {
    if es != [] {
      StepInvariant(s, es[0]);
      RunInvariant(Step(s, es[0]), es[1..], s');
    }
  }

  lemma NothingFitsExclusive(a: LockType)
    ensures Compatible(a, X) <==> a == NL
    ensures Compatible(X, a) <==> a == NL
  {
  }

  /** An exclusive holder is alone. */
  lemma ExclusiveHolds(s: State, i: nat)
    requires Invariant(s) && i < |s.running| && s.running[i].mode == X
    ensures |s.running| == 1
  {
    NothingFitsExclusive(s.current);
    if |s.running| > 1 {
      NothingFitsExclusive(s.running[1].mode);
    }
  }

  lemma ExclusiveIsAlone(es: seq<Event>, s: State, i: nat)
    requires Run(UNLOCKED, es, s) && i < |s.running| && s.running[i].mode == X
    ensures |s.running| == 1
  {
    RunInvariant(UNLOCKED, es, s);
    ExclusiveHolds(s, i);
  }

  // ---- Which mode sets keep holders pairwise compatible ------------------------------------

  predicate PairwiseCompatible(s: State) {
    forall i, j | 0 <= i < j < |s.running| :: Compatible(s.running[i].mode, s.running[j].mode)
  }

  predicate UsesModes(es: seq<Event>, modes: set<LockType>) {
    forall i | 0 <= i < |es| :: es[i].LockEvent? ==> es[i].mode in modes
  }

  /** Two modes that fit a third one fit each other. */
  predicate Closed(modes: set<LockType>) {
    forall a, b, c | a in modes && b in modes && c in modes ::
      Compatible(a, b) && Compatible(a, c) ==> Compatible(b, c)
  }

  predicate StateUses(s: State, modes: set<LockType>) {
    && (s.running != [] ==> s.current in modes)
    && (forall i | 0 <= i < |s.running| :: s.running[i].mode in modes)
    && (forall i | 0 <= i < |s.waiting| :: s.waiting[i].mode in modes)
  }

  lemma StepUses(s: State, e: Event, modes: set<LockType>)
    requires Enabled(s, e) && StateUses(s, modes) && Invariant(s)
    requires e.LockEvent? ==> e.mode in modes
    ensures StateUses(Step(s, e), modes)
  {
    hide Joiners, Compatible, Has, Find, Distinct;
  }

  lemma {:induction false} RunUses(s: State, es: seq<Event>, s': State, modes: set<LockType>)
    requires Run(s, es, s') && UsesModes(es, modes) && StateUses(s, modes) && Invariant(s)
    ensures StateUses(s', modes)
    decreases |es|
  {
    if es != [] {
      hide Invariant, StateUses;
      StepInvariant(s, es[0]);
      StepUses(s, es[0], modes);
      RunUses(Step(s, es[0]), es[1..], s', modes);
    }
  }

  /** Admission looks at the current mode only, so holders are pairwise compatible in every run
      exactly for the mode sets in which fitting a common mode implies fitting each other. */
  lemma ClosedIsSafe(modes: set<LockType>, es: seq<Event>, s: State)
    requires NL !in modes && Closed(modes)
    requires UsesModes(es, modes) && Run(UNLOCKED, es, s)
    ensures PairwiseCompatible(s)
  {
    RunInvariant(UNLOCKED, es, s);
    RunUses(UNLOCKED, es, s, modes);
  }

  lemma SafeIsClosed(modes: set<LockType>)
    requires NL !in modes
    requires forall es: seq<Event>, s | UsesModes(es, modes) && Run(UNLOCKED, es, s) :: PairwiseCompatible(s)
    ensures Closed(modes)
  {
    forall a, b, c | a in modes && b in modes && c in modes && Compatible(a, b) && Compatible(a, c)
      ensures Compatible(b, c)
    {
      var s := ThreeHolders(a, b, c);
      assert UsesModes([LockEvent(1, a), LockEvent(2, b), LockEvent(3, c)], modes);
      assert Compatible(s.running[1].mode, s.running[2].mode);
    }
  }

  /** Two modes that fit a third can be held together with it. */
  lemma ThreeHolders(a: LockType, b: LockType, c: LockType) returns (s: State)
    requires a != NL && b != NL && c != NL && Compatible(a, b) && Compatible(a, c)
    ensures s == State(a, [LockNode(1, a), LockNode(2, b), LockNode(3, c)], [])
    ensures Run(UNLOCKED, [LockEvent(1, a), LockEvent(2, b), LockEvent(3, c)], s)
  {
    hide Compatible, Request, Has, Enabled, Step, Run;
    FitsUnlocked(a);
    var e1, e2, e3 := LockEvent(1, a), LockEvent(2, b), LockEvent(3, c);
    var s1 := State(a, [LockNode(1, a)], []);
    var s2 := State(a, [LockNode(1, a), LockNode(2, b)], []);
    s := State(a, [LockNode(1, a), LockNode(2, b), LockNode(3, c)], []);
    Granted(NL, [], 1, a);
    Granted(a, [LockNode(1, a)], 2, b);
    Granted(a, [LockNode(1, a), LockNode(2, b)], 3, c);
    assert Step(UNLOCKED, e1) == s1 && Step(s1, e2) == s2 && Step(s2, e3) == s;
    RunEnds(s);
    RunMore(s2, e3, [], s);
    assert [e3] + [] == [e3];
    RunMore(s1, e2, [e3], s);
    assert [e2] + [e3] == [e2, e3];
    RunMore(UNLOCKED, e1, [e2, e3], s);
    assert [e1] + [e2, e3] == [e1, e2, e3];
  }

  lemma Granted(current: LockType, running: seq<LockNode>, t: ThreadId, mode: LockType)
    requires mode != NL && Compatible(current, mode) && forall i | 0 <= i < |running| :: running[i].thread != t
    ensures var s := State(current, running, []);
      Enabled(s, LockEvent(t, mode))
      && Step(s, LockEvent(t, mode)) == State(if current == NL then mode else current, running + [LockNode(t, mode)], [])
  {
    hide Compatible;
  }

  lemma RunEnds(s: State)
    ensures Run(s, [], s)
  {
  }

  lemma RunMore(s: State, e: Event, es: seq<Event>, s': State)
    requires Enabled(s, e) && Run(Step(s, e), es, s')
    ensures Run(s, [e] + es, s')
  {
    hide Enabled, Step;
    assert ([e] + es)[1..] == es;
  }

  /** Tree nodes are locked in IS, IX or X and storages in S or X; both sets are safe.  A set with
      IS, IX and S is not. */
  lemma ModeSetsOfTheSource()
    ensures Closed({IS, IX, X}) && Closed({S, X})
    ensures !Closed({IS, IX, S})
  {
    assert Compatible(IS, IX) && Compatible(IS, S) && !Compatible(IX, S);
  }

  /** All modes fit each other and themselves. */
  predicate Agreeing(modes: set<LockType>) {
    forall a, b | a in modes && b in modes :: Compatible(a, b)
  }

  /** Readers share: in every run in which all modes asked for fit each other, nobody ever waits. */
  lemma AgreeingNeverWait(modes: set<LockType>, es: seq<Event>, s: State)
    requires NL !in modes && Agreeing(modes) && UsesModes(es, modes) && Run(UNLOCKED, es, s)
    ensures s.waiting == []
  {
    NobodyWaits(UNLOCKED, es, s, modes);
  }

  lemma {:induction false} NobodyWaits(s: State, es: seq<Event>, s': State, modes: set<LockType>)
    requires Run(s, es, s') && UsesModes(es, modes) && StateUses(s, modes) && Invariant(s) && Agreeing(modes) && s.waiting == []
    ensures s'.waiting == []
    decreases |es|
  {
    if es != [] {
      hide Invariant, StateUses, Has, Find;
      StepInvariant(s, es[0]);
      StepUses(s, es[0], modes);
      StepNoWait(s, es[0], modes);
      NobodyWaits(Step(s, es[0]), es[1..], s', modes);
    }
  }

  lemma StepNoWait(s: State, e: Event, modes: set<LockType>)
    requires Enabled(s, e) && StateUses(s, modes) && Invariant(s) && Agreeing(modes) && s.waiting == []
    requires e.LockEvent? ==> e.mode in modes
    ensures Step(s, e).waiting == []
  {
    hide Joiners, Compatible, Has, Find, Distinct;
    FitsUnlocked(if e.LockEvent? then e.mode else NL);
  }

  lemma FitsUnlocked(a: LockType)
    ensures Compatible(NL, a)
  {
  }

  /** Readers of a storage agree, and so do readers and writers on the way down the tree. */
  lemma AgreeingModesOfTheSource()
    ensures Agreeing({S}) && Agreeing({IS, IX})
    ensures !Agreeing({S, X}) && !Agreeing({IS, IX, X})
  {
    assert !Compatible(S, X) && !Compatible(IS, X);
  }

  // ---- Progress and fairness ---------------------------------------------------------------

  /** Grants happen in arrival order: an unlock moves a prefix of the queue behind the holders
      that stay, and the new head of the queue, if any, does not fit or someone still runs. */
  lemma GrantsInOrder(s: State, t: ThreadId) returns (g: nat)
    requires Invariant(s) && Has(s.running, t)
    ensures g <= |s.waiting|
    ensures var i := Find(s.running, t); var s' := Release(s, t);
      && s'.waiting == s.waiting[g..]
      && s'.running == s.running[..i] + s.running[i + 1..] + s.waiting[..g]
      && (g > 0 <==> |s.running| == 1 && s.waiting != [])
      && (0 < g < |s.waiting| ==> !Compatible(s'.current, s.waiting[g].mode))
      && s'.current == (if g > 0 then s.waiting[0].mode else if |s.running| == 1 then NL else s.current)
  {
    hide Compatible;
    g := |s.waiting| - |Release(s, t).waiting|;
  }

  /** The number of unlocks before waiter `t` runs. */
  function UnlocksLeft(s: State, t: ThreadId): nat
    requires Has(s.waiting, t)
  {
    |s.running| + Find(s.waiting, t)
  }

  /** An unlock either lets `t` run or brings it exactly one unlock closer; no lock call by another
      thread changes how far it is. */
  lemma OneStepCloser(s: State, e: Event, t: ThreadId)
    requires Invariant(s) && Enabled(s, e) && Has(s.waiting, t)
    ensures Has(Step(s, e).running, t) != Has(Step(s, e).waiting, t)
    ensures Has(Step(s, e).waiting, t) ==>
      UnlocksLeft(Step(s, e), t) == UnlocksLeft(s, t) - (if e.UnlockEvent? then 1 else 0)
  {
    hide Compatible, Invariant;
    StepInvariant(s, e);
    NotBoth(s, t);
    NotBoth(Step(s, e), t);
    if e.LockEvent? {
      StillWaiting(s, e.thread, e.mode, t);
    } else {
      CloserByOne(s, e.thread, t);
    }
  }

  lemma StillWaiting(s: State, u: ThreadId, mode: LockType, t: ThreadId)
    requires Has(s.waiting, t) && !Has(s.waiting, u)
    ensures Has(Request(s, u, mode).waiting, t) && UnlocksLeft(Request(s, u, mode), t) == UnlocksLeft(s, t)
  {
    hide Compatible;
    HasAppend(s.waiting, [LockNode(u, mode)], t);
    var s', k := Request(s, u, mode), Find(s.waiting, t);
    assert s'.waiting[k].thread == t;
  }

  lemma CloserByOne(s: State, u: ThreadId, t: ThreadId)
    requires Invariant(s) && Has(s.running, u) && Has(s.waiting, t) && !Has(s.running, t)
    ensures var s' := Release(s, u);
      && (Has(s'.running, t) || Has(s'.waiting, t))
      && (Has(s'.waiting, t) && !Has(s'.running, t) ==> UnlocksLeft(s', t) == UnlocksLeft(s, t) - 1)
  {
    hide Compatible, Release, Invariant;
    var s' := Release(s, u);
    var k := Find(s.waiting, t);
    var g := GrantsInOrder(s, u);
    var i := Find(s.running, u);
    if k < g {
      assert s'.running[|s.running| - 1 + k].thread == t;
    } else {
      assert s'.waiting[k - g].thread == t;
    }
  }

  lemma NotBoth(s: State, t: ThreadId)
    requires Invariant(s)
    ensures !(Has(s.running, t) && Has(s.waiting, t))
  {
    if Has(s.running, t) {
      var i := Find(s.running, t);
      forall j | 0 <= j < |s.waiting|
        ensures s.waiting[j].thread != t
      {
        assert (s.running + s.waiting)[i] == s.running[i];
        assert (s.running + s.waiting)[|s.running| + j] == s.waiting[j];
      }
    }
  }

  function Unlocks(es: seq<Event>): nat {
    if es == [] then 0 else (if es[0].UnlockEvent? then 1 else 0) + Unlocks(es[1..])
  }

  /** `t` is waiting in every state that the run passes through. */
  predicate WaitsThroughout(s: State, es: seq<Event>, t: ThreadId)
    decreases |es|
  {
    && Has(s.waiting, t)
    && (es != [] ==> Enabled(s, es[0]) && WaitsThroughout(Step(s, es[0]), es[1..], t))
  }

  /** Fairness with an exact bound: as long as `t` waits, every unlock counts, so it runs after at
      most `|running| + i` unlocks, where `i` waiters are ahead of it. */
  lemma {:induction false} WaitIsBounded(s: State, es: seq<Event>, s': State, t: ThreadId)
    requires Invariant(s) && Run(s, es, s') && WaitsThroughout(s, es, t)
    ensures Has(s'.waiting, t)
    ensures Unlocks(es) == UnlocksLeft(s, t) - UnlocksLeft(s', t)
    ensures Unlocks(es) < UnlocksLeft(s, t)
    decreases |es|
  {
    if es != [] {
      StepInvariant(s, es[0]);
      OneStepCloser(s, es[0], t);
      WaitIsBounded(Step(s, es[0]), es[1..], s', t);
    }
  }
}
