/** Mounting several mount points anew, one after the other.  The order is that of a hash map, so this is
    about every order: the priorities are kept in all of them exactly when no mount point is outranked. */
module RemountOrders {
  import opened Options
  import opened Paths
  import opened RegistryModel
  import opened StorageRegistry
  import opened MountLists
  import opened MountModel
  import opened MountPriorities

  datatype Overlay = Overlay(nodes: Nodes, points: map<nat, MountPoint>)
  {
    ghost predicate KeepsPriorities() {
      Kept(nodes, AllItems(points), Priorities(points))
    }

    ghost predicate DominatesPriorities() {
      Dominated(nodes, AllItems(points), Priorities(points))
    }

    ghost predicate LacksPriorities() {
      Lacking(nodes, AllItems(points), Priorities(points))
    }

    /** What every remount needs and keeps. */
    ghost predicate Sound(trees: map<string, Tree>) {
      && (forall q | q in nodes :: Sorted(nodes[q]))
      && Consistent(AllItems(points)) && RootsShown(points)
      && (forall id | id in points :: NodeIn(trees, points[id].snapshot))
    }
  }

  /** Mount point `id` is unmounted and mounted again with a new snapshot, which is the current subtree. */
  ghost predicate Anew(trees: map<string, Tree>, a: Overlay, id: nat, b: Overlay) {
    && id in a.points && id in b.points
    && var m, m' := a.points[id], b.points[id];
    && m' == m.(snapshot := m'.snapshot) && SameSource(m.snapshot, m'.snapshot)
    && b == Overlay(MountedPart(UnmountedPart(a.nodes, m, m.snapshot.nodes.Keys), m', m'.snapshot.nodes.Keys), a.points[id := m'])
    && Exact(trees, m'.snapshot) && Consistent(AllItems(b.points))
  }

  lemma AnewIs(trees: map<string, Tree>, a: Overlay, id: nat, m': MountPoint, b: Overlay)
    requires id in a.points && m' == a.points[id].(snapshot := m'.snapshot) && SameSource(a.points[id].snapshot, m'.snapshot)
    requires b.nodes == MountedPart(UnmountedPart(a.nodes, a.points[id], a.points[id].snapshot.nodes.Keys), m', m'.snapshot.nodes.Keys)
    requires b.points == a.points[id := m'] && Exact(trees, m'.snapshot) && Consistent(AllItems(b.points))
    ensures Anew(trees, a, id, b)
  {
  }

  /** The mount points `order` one after the other. */
  ghost predicate Remounts(trees: map<string, Tree>, a: Overlay, order: seq<nat>, b: Overlay)
    decreases |order|
  {
    if order == [] then b == a else
      var n := |order| - 1;
      exists mid: Overlay :: Remounts(trees, a, order[..n], mid) && Anew(trees, mid, order[n], b)
  }

  lemma RemountsNone(trees: map<string, Tree>, a: Overlay, order: seq<nat>, b: Overlay)
    requires Remounts(trees, a, order, b)
    ensures order == [] ==> b == a
  {
  }

  lemma AnewSound(trees: map<string, Tree>, a: Overlay, id: nat, b: Overlay)
    requires a.Sound(trees) && Anew(trees, a, id, b)
    ensures b.Sound(trees) && SameMounts(a.points, b.points)
  {
    hide Split, Consistent, Exact, RootShown, AllItems, Sorted, Insert, Remove;
    var m, m' := a.points[id], b.points[id];
    forall q | q in b.nodes
      ensures Sorted(b.nodes[q])
    {
      SortedAfter(a.nodes, m, m', q);
    }
    forall x, y | x in b.points && y in b.points
      ensures RootShown(b.points[x], b.points[y])
    {
      if x == id {
        ExactShowsRoots(trees, m', b.points[y]);
      } else {
        assert RootShown(a.points[x], a.points[y]);
        SameRoot(a.points[x], a.points[y], b.points[y]);
      }
    }
  }

  lemma SameRoot(a: MountPoint, b: MountPoint, b': MountPoint)
    requires RootShown(a, b) && SameSource(b.snapshot, b'.snapshot)
    ensures RootShown(a, b')
  {
  }

  lemma SortedAfter(nodes: Nodes, m: MountPoint, m': MountPoint, q: Path)
    requires forall x | x in nodes :: Sorted(nodes[x])
    ensures var nodes' := MountedPart(UnmountedPart(nodes, m, m.snapshot.nodes.Keys), m', m'.snapshot.nodes.Keys);
      q in nodes' ==> Sorted(nodes'[q])
  {
    hide Insert, Remove, FindStorage, Sorted;
    var unmounted := UnmountedPart(nodes, m, m.snapshot.nodes.Keys);
    NothingSorted();
    if q in unmounted && Covers(m, m.snapshot.nodes.Keys, q) && FindStorage(nodes[q], StorageAt(m, q)) < |nodes[q]| {
      RemoveIsSorted(nodes[q], StorageAt(m, q));
    }
    assert Sorted(ListAt(unmounted, q));
    if Covers(m', m'.snapshot.nodes.Keys, q) {
      InsertIsSorted(ListAt(unmounted, q), Mounted(StorageAt(m', q), m'.priority));
    }
  }

  lemma NothingSorted()
    ensures Sorted([])
  {
  }

  /** One remount: it keeps the priorities unless the mount point is outranked; it never leaves too many
      entries above a priority; and when the mount point is outranked it leaves too few. */
  lemma AnewKeeps(trees: map<string, Tree>, a: Overlay, id: nat, b: Overlay)
    requires a.Sound(trees) && Anew(trees, a, id, b)
    ensures a.KeepsPriorities() && !Outranked(a.points, id) ==> b.KeepsPriorities()
    ensures a.DominatesPriorities() ==> b.DominatesPriorities()
    ensures a.DominatesPriorities() && Outranked(a.points, id) ==> b.LacksPriorities()
  {
    hide Kept, Dominated, Lacking, Rivalled, Outranked, Consistent, Exact, RootsShown, AllItems, Items, MountedPart, UnmountedPart, Sorted,
         NoneOf, NodeIn;
    var placed, m' := AllItems(a.points), b.points[id];
    RivalOutranks(placed, a.points, id);
    OutrankedIsRivalled(placed, a.points, id);
    ItemsReplaced(a.points, id, m');
    RemountKeeps(a.nodes, placed, a.points, id, m');
  }

  /** Over any number of remounts: the priorities are kept if none of the mount points is outranked, and not
      if the last one is, whatever was mounted anew before it. */
  lemma {:induction false} RemountsKeep(trees: map<string, Tree>, a: Overlay, order: seq<nat>, b: Overlay)
    requires a.Sound(trees) && a.DominatesPriorities() && Remounts(trees, a, order, b)
    ensures b.Sound(trees) && SameMounts(a.points, b.points) && b.DominatesPriorities()
    ensures a.KeepsPriorities() && (forall id | id in order :: !Outranked(a.points, id)) ==> b.KeepsPriorities()
    ensures order != [] && Outranked(a.points, order[|order| - 1]) ==> b.LacksPriorities()
    decreases |order|
  {
    hide Anew, Outranked, Overlay.Sound, Overlay.KeepsPriorities, Overlay.DominatesPriorities, Overlay.LacksPriorities, SameMounts;
    if order == [] {
      SameMountsSelf(a.points);
    } else {
      var n := |order| - 1;
      var mid: Overlay :| Remounts(trees, a, order[..n], mid) && Anew(trees, mid, order[n], b);
      RemountsKeep(trees, a, order[..n], mid);
      AnewSound(trees, mid, order[n], b);
      AnewKeeps(trees, mid, order[n], b);
      OutrankedSame(a.points, mid.points, order[n]);
      SameMountsTransitive(a.points, mid.points, b.points);
      assert forall id | id in order[..n] :: id in order;
    }
  }

  lemma SameMountsSelf(a: map<nat, MountPoint>)
    ensures SameMounts(a, a)
  {
  }

  lemma SameMountsTransitive(a: map<nat, MountPoint>, b: map<nat, MountPoint>, c: map<nat, MountPoint>)
    requires SameMounts(a, b) && SameMounts(b, c)
    ensures SameMounts(a, c)
  {
  }

  /** The mount points that a mount at `nodePath` mounts anew, each at least once. */
  ghost predicate Lists(points: map<nat, MountPoint>, order: seq<nat>, volume: string, nodePath: string) {
    forall id :: id in order <==> id in points && Candidate(points[id].snapshot, volume, nodePath)
  }

  ghost predicate Once(order: seq<nat>) {
    forall i, j | 0 <= i < j < |order| :: order[i] != order[j]
  }

  /** The priorities are kept whatever the order if and only if none of the mount points to be mounted anew is
      outranked; it makes no difference whether one may be mounted anew more than once. */
  lemma KeptInEveryOrder(trees: map<string, Tree>, a: Overlay, volume: string, nodePath: string)
    requires a.Sound(trees) && a.KeepsPriorities()
    ensures (forall order, b: Overlay | Lists(a.points, order, volume, nodePath) && Remounts(trees, a, order, b) :: b.KeepsPriorities())
       <==> NoneOutranked(a.points, volume, nodePath)
    ensures (forall order, b: Overlay | Lists(a.points, order, volume, nodePath) && Once(order) && Remounts(trees, a, order, b) ::
              b.KeepsPriorities())
       <==> NoneOutranked(a.points, volume, nodePath)
  {
    hide Overlay.Sound, Kept, Dominated, Lacking, Outranked, Remounts, Candidate, Priorities, AllItems;
    KeptIsDominated(a.nodes, AllItems(a.points), Priorities(a.points));
    if NoneOutranked(a.points, volume, nodePath) {
      forall order, b: Overlay | Lists(a.points, order, volume, nodePath) && Remounts(trees, a, order, b)
        ensures b.KeepsPriorities()
      {
        RemountsKeep(trees, a, order, b);
      }
    } else {
      var order, b := LosingOrder(trees, a, volume, nodePath);
    }
  }

  /** With an outranked mount point taken last, the priorities are lost. */
  lemma LosingOrder(trees: map<string, Tree>, a: Overlay, volume: string, nodePath: string) returns (order: seq<nat>, b: Overlay)
    requires a.Sound(trees) && a.KeepsPriorities() && !NoneOutranked(a.points, volume, nodePath)
    ensures Lists(a.points, order, volume, nodePath) && Once(order) && Remounts(trees, a, order, b) && !b.KeepsPriorities()
  {
    hide Overlay.Sound, Kept, Dominated, Lacking, Outranked, Remounts, Candidate, Priorities, AllItems;
    KeptIsDominated(a.nodes, AllItems(a.points), Priorities(a.points));
    var c :| c in a.points && Candidate(a.points[c].snapshot, volume, nodePath) && Outranked(a.points, c);
    order := InOrder((set id | id in a.points && Candidate(a.points[id].snapshot, volume, nodePath)) - {c}) + [c];
    b := RemountsExist(trees, a, order);
    RemountsKeep(trees, a, order, b);
    LackingIsNotKept(b.nodes, AllItems(b.points), Priorities(b.points));
  }

  ghost function InOrder(s: set<nat>): (order: seq<nat>)
    ensures Once(order) && forall x :: x in order <==> x in s
  {
    if s == {} then [] else
      var x :| x in s;
      InOrder(s - {x}) + [x]
  }

  // ---- Every order is possible -------------------------------------------------------------

  lemma {:induction false} RemountsExist(trees: map<string, Tree>, a: Overlay, order: seq<nat>) returns (b: Overlay)
    requires a.Sound(trees) && forall id | id in order :: id in a.points
    ensures Remounts(trees, a, order, b) && b.Sound(trees) && SameMounts(a.points, b.points)
    decreases |order|
  {
    hide Anew, Overlay.Sound, SameMounts;
    if order == [] {
      b := a;
      SameMountsSelf(a.points);
    } else {
      var n := |order| - 1;
      assert forall id | id in order[..n] :: id in order;
      var mid := RemountsExist(trees, a, order[..n]);
      SamePoints(a.points, mid.points);
      b := AnewExists(trees, mid, order[n]);
      AnewSound(trees, mid, order[n], b);
      SameMountsTransitive(a.points, mid.points, b.points);
    }
  }

  /** What the remounts and then the mount itself do to the priorities. */
  lemma PrioritiesAfter(trees: map<string, Tree>, start: Overlay, order: seq<nat>, now: Overlay, volume: string, nodePath: string,
                        id: nat, m: MountPoint)
    requires start.Sound(trees) && Remounts(trees, start, order, now) && Lists(start.points, order, volume, nodePath)
    requires id !in now.points && Items(id, m) !! AllItems(now.points) && forall u | u in AllItems(now.points) :: u.id in now.points
    ensures var kept, points := Kept(start.nodes, AllItems(start.points), Priorities(start.points)), start.points;
      var kept' := Kept(MountedPart(WithPath(now.nodes, m.node), m, m.snapshot.nodes.Keys), AllItems(now.points) + Items(id, m),
                        Priorities(now.points[id := m]));
      && (kept && NoneOutranked(points, volume, nodePath) ==> kept')
      && (kept && order != [] && Outranked(points, order[|order| - 1]) ==> !kept')
      && (forall c | kept && OnlyCandidate(points, c, volume, nodePath) && Outranked(points, c) :: !kept')
  {
    hide Kept, Dominated, Lacking, Outranked, Candidate, Priorities, Remounts, Overlay.Sound, AllItems, Items, MountedPart, WithPath, Lists,
         NoneOutranked, OnlyCandidate;
    if start.KeepsPriorities() {
      KeptIsDominated(start.nodes, AllItems(start.points), Priorities(start.points));
      RemountsKeep(trees, start, order, now);
    }
    OnlyIsLast(start.points, order, volume, nodePath);
    Placed(now.nodes, AllItems(now.points), now.points, id, m);
  }

  lemma OnlyIsLast(points: map<nat, MountPoint>, order: seq<nat>, volume: string, nodePath: string)
    requires Lists(points, order, volume, nodePath)
    ensures forall c | OnlyCandidate(points, c, volume, nodePath) :: order != [] && order[|order| - 1] == c
    ensures NoneOutranked(points, volume, nodePath) ==> forall id | id in order :: !Outranked(points, id)
  {
    forall c | OnlyCandidate(points, c, volume, nodePath)
      ensures order != [] && order[|order| - 1] == c
    {
      assert c in order;
      assert order[|order| - 1] in order;
    }
  }

  lemma SamePoints(a: map<nat, MountPoint>, b: map<nat, MountPoint>)
    requires SameMounts(a, b)
    ensures forall id :: id in a <==> id in b
  {
  }

  /** The storage of a volume node: the one that is in use, or a new one. */
  ghost function StorageOf(placed: set<Item>, volume: string, path: Path): StorageId {
    if exists u :: u in placed && u.volume == volume && u.path == path
    then (var u :| u in placed && u.volume == volume && u.path == path; u.storage)
    else StorageId(volume, path, 0)
  }

  lemma AnewExists(trees: map<string, Tree>, a: Overlay, id: nat) returns (b: Overlay)
    requires a.Sound(trees) && id in a.points
    ensures Anew(trees, a, id, b)
  {
    hide Split, MountedPart, UnmountedPart, RootsShown, Sorted;
    var m, placed := a.points[id], AllItems(a.points);
    var volume, at := m.snapshot.volume, Split(m.snapshot.nodePath, '/');
    var tree := trees[volume];
    var nodes := map r | r in Below(tree, at) :: StorageOf(placed, volume, at + r);
    var m' := m.(snapshot := Snapshot(volume, m.snapshot.nodePath, nodes));
    b := Overlay(MountedPart(UnmountedPart(a.nodes, m, m.snapshot.nodes.Keys), m', m'.snapshot.nodes.Keys), a.points[id := m']);
    ItemsReplaced(a.points, id, m');
    forall u | u in Items(id, m')
      ensures u.storage == StorageOf(placed, u.volume, u.path)
    {
    }
    NewIsConsistent(placed, placed - Items(id, m), Items(id, m'));
  }

  lemma NewIsConsistent(placed: set<Item>, rest: set<Item>, items: set<Item>)
    requires Consistent(placed) && rest <= placed && forall u | u in items :: u.storage == StorageOf(placed, u.volume, u.path)
    ensures Consistent(rest + items)
  {
    forall u | u in placed
      ensures u.storage == StorageOf(placed, u.volume, u.path)
    {
    }
    forall u | u in items
      ensures u.storage.volume == u.volume && u.storage.path == u.path
    {
    }
  }
}
