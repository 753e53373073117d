/** The virtual nodes with their lists of storages as one value, and what mounting and unmounting one
    snapshot does to it. */
module MountModel {
  import opened Paths
  import opened RegistryModel
  import opened StorageRegistry
  import opened MountLists

  type Nodes = map<Path, seq<Mounted>>

  datatype MountPoint = MountPoint(node: Path, snapshot: Snapshot, priority: int)

  function Items(id: nat, m: MountPoint): set<Item> {
    ItemsOf(id, m.node, m.snapshot)
  }

  /** Everything that the mount points place: one item for each node of each snapshot. */
  function AllItems(mountPoints: map<nat, MountPoint>): set<Item> {
    set id, r | id in mountPoints && r in mountPoints[id].snapshot.nodes :: ItemOf(id, mountPoints[id].node, mountPoints[id].snapshot, r)
  }

  function Placers(placed: set<Item>, q: Path, s: StorageId): set<Item> {
    set u | u in placed && u.at == q && u.storage == s
  }

  /** The list of virtual node `q` holds each storage once for every item that places it there. */
  ghost predicate ListOk(list: seq<Mounted>, placed: set<Item>, q: Path) {
    Sorted(list) && forall s :: Times(list, s) == |Placers(placed, q, s)|
  }

  ghost predicate ListsOk(nodes: Nodes, placed: set<Item>) {
    && (forall u | u in placed :: u.at in nodes)
    && (forall q | q in nodes :: ListOk(nodes[q], placed, q))
  }

  function ListAt(nodes: Nodes, q: Path): seq<Mounted> {
    if q in nodes then nodes[q] else []
  }

  lemma InsertStep(nodes: Nodes, placed: set<Item>, u: Item, priority: int)
    requires ListsOk(nodes, placed) && u !in placed
    ensures ListsOk(nodes[u.at := Insert(ListAt(nodes, u.at), Mounted(u.storage, priority))], placed + {u})
  {
    hide Insert, Times, Sorted;
    var list, m := ListAt(nodes, u.at), Mounted(u.storage, priority);
    var nodes' := nodes[u.at := Insert(list, m)];
    ListAtOk(nodes, placed, u.at);
    InsertIsSorted(list, m);
    forall q | q in nodes'
      ensures ListOk(nodes'[q], placed + {u}, q)
    {
      assert q in nodes ==> ListOk(nodes[q], placed, q);
      forall s
        ensures Times(nodes'[q], s) == |Placers(placed + {u}, q, s)|
      {
        PlacersAdd(placed, u, q, s);
        InsertTimes(list, m, s);
      }
    }
  }

  lemma ListAtOk(nodes: Nodes, placed: set<Item>, q: Path)
    requires ListsOk(nodes, placed)
    ensures ListOk(ListAt(nodes, q), placed, q)
  {
    if q !in nodes {
      forall s
        ensures Placers(placed, q, s) == {}
      {
      }
    }
  }

  lemma PlacersAdd(placed: set<Item>, u: Item, q: Path, s: StorageId)
    requires u !in placed
    ensures |Placers(placed + {u}, q, s)| == |Placers(placed, q, s)| + if u.at == q && u.storage == s then 1 else 0
  {
    if u.at == q && u.storage == s {
      assert Placers(placed + {u}, q, s) == Placers(placed, q, s) + {u};
    } else {
      assert Placers(placed + {u}, q, s) == Placers(placed, q, s);
    }
  }

  /** What an item placed can be found and taken away. */
  lemma RemoveStep(nodes: Nodes, placed: set<Item>, u: Item)
    requires ListsOk(nodes, placed) && u in placed
    ensures u.at in nodes && FindStorage(nodes[u.at], u.storage) < |nodes[u.at]|
    ensures ListsOk(nodes[u.at := Remove(nodes[u.at], u.storage)], placed - {u})
  {
    hide Remove, Times, Sorted;
    var list := nodes[u.at];
    assert ListOk(list, placed, u.at) && u in Placers(placed, u.at, u.storage);
    ListedIsFound(list, u.storage);
    RemoveIsSorted(list, u.storage);
    var nodes' := nodes[u.at := Remove(list, u.storage)];
    assert placed - {u} + {u} == placed;
    forall q | q in nodes'
      ensures ListOk(nodes'[q], placed - {u}, q)
    {
      assert ListOk(nodes[q], placed, q);
      forall s
        ensures Times(nodes'[q], s) == |Placers(placed - {u}, q, s)|
      {
        PlacersAdd(placed - {u}, u, q, s);
        RemoveTimes(list, u.storage, s);
      }
    }
  }

  // ---- One mount point on the lists --------------------------------------------------------

  /** Virtual node `q` is in the part `done` of the snapshot of a mount point. */
  predicate Covers(m: MountPoint, done: set<Path>, q: Path) {
    m.node <= q && q[|m.node|..] in done && q[|m.node|..] in m.snapshot.nodes
  }

  function StorageAt(m: MountPoint, q: Path): StorageId
    requires Covers(m, m.snapshot.nodes.Keys, q)
  {
    m.snapshot.nodes[q[|m.node|..]]
  }

  /** The virtual nodes when the part `done` of a snapshot has been mounted. */
  function MountedPart(nodes: Nodes, m: MountPoint, done: set<Path>): Nodes {
    map q | q in nodes.Keys + (set r | r in done :: m.node + r) ::
      if Covers(m, done, q) then Insert(ListAt(nodes, q), Mounted(StorageAt(m, q), m.priority)) else ListAt(nodes, q)
  }

  function RemoveListed(list: seq<Mounted>, s: StorageId): seq<Mounted> {
    if FindStorage(list, s) < |list| then Remove(list, s) else list
  }

  /** The virtual nodes when the part `done` of a snapshot has been unmounted. */
  function UnmountedPart(nodes: Nodes, m: MountPoint, done: set<Path>): Nodes {
    map q | q in nodes :: if Covers(m, done, q) then RemoveListed(nodes[q], StorageAt(m, q)) else nodes[q]
  }

  /** A snapshot has been mounted: at every virtual node that it covers its storage has come in at its place,
      and the other nodes list what they did; only nodes on the way to it are new besides. */
  ghost predicate MountedOn(nodes: Nodes, nodes': Nodes, m: MountPoint) {
    && nodes.Keys <= nodes'.Keys
    && (forall r | r in m.snapshot.nodes :: m.node + r in nodes')
    && (forall q | q in nodes' && q !in nodes :: q <= m.node || Covers(m, m.snapshot.nodes.Keys, q))
    && (forall q | q in nodes' ::
          if Covers(m, m.snapshot.nodes.Keys, q) then Entered(ListAt(nodes, q), nodes'[q], Mounted(StorageAt(m, q), m.priority))
          else nodes'[q] == ListAt(nodes, q))
  }

  lemma MountedIs(nodes: Nodes, m: MountPoint)
    requires forall q | q in nodes :: Sorted(nodes[q])
    ensures MountedOn(nodes, MountedPart(nodes, m, m.snapshot.nodes.Keys), m)
  {
    hide Insert, Entered;
    var nodes' := MountedPart(nodes, m, m.snapshot.nodes.Keys);
    forall q | q in nodes' && Covers(m, m.snapshot.nodes.Keys, q)
      ensures Entered(ListAt(nodes, q), nodes'[q], Mounted(StorageAt(m, q), m.priority))
    {
      InsertEnters(ListAt(nodes, q), Mounted(StorageAt(m, q), m.priority));
    }
    forall q | q in nodes' && q !in nodes
      ensures Covers(m, m.snapshot.nodes.Keys, q)
    {
      var r :| r in m.snapshot.nodes.Keys && q == m.node + r;
      OtherTails(m.node, r);
    }
  }

  lemma MountedOnPath(nodes: Nodes, nodes': Nodes, m: MountPoint)
    requires MountedOn(WithPath(nodes, m.node), nodes', m)
    ensures MountedOn(nodes, nodes', m)
  {
    hide Entered;
    forall q | q in nodes'
      ensures ListAt(WithPath(nodes, m.node), q) == ListAt(nodes, q)
      ensures q !in nodes ==> q <= m.node || Covers(m, m.snapshot.nodes.Keys, q)
    {
    }
  }

  /** A snapshot has been unmounted: every virtual node that it covers has lost the first entry of its storage. */
  ghost predicate UnmountedFrom(nodes: Nodes, nodes': Nodes, m: MountPoint) {
    && nodes'.Keys == nodes.Keys
    && forall q | q in nodes ::
         if Covers(m, m.snapshot.nodes.Keys, q) then Left(nodes[q], nodes'[q], StorageAt(m, q)) else nodes'[q] == nodes[q]
  }

  lemma UnmountedIsFrom(nodes: Nodes, m: MountPoint)
    ensures UnmountedFrom(nodes, UnmountedPart(nodes, m, m.snapshot.nodes.Keys), m)
  {
    hide Left, Remove;
    forall q | q in nodes && Covers(m, m.snapshot.nodes.Keys, q)
      ensures Left(nodes[q], RemoveListed(nodes[q], StorageAt(m, q)), StorageAt(m, q))
    {
      RemoveLeaves(nodes[q], StorageAt(m, q));
    }
  }

  lemma OtherTails(at: Path, r: Path)
    ensures forall q: Path | at <= q && q[|at|..] == r :: q == at + r
    ensures at <= at + r && (at + r)[|at|..] == r
  {
    forall q: Path | at <= q && q[|at|..] == r
      ensures q == at + r
    {
    }
  }

  lemma MountOneMore(nodes: Nodes, m: MountPoint, done: set<Path>, r: Path)
    requires r in m.snapshot.nodes && r !in done && done <= m.snapshot.nodes.Keys
    ensures var part, q := MountedPart(nodes, m, done), m.node + r;
      MountedPart(nodes, m, done + {r}) == part[q := Insert(ListAt(part, q), Mounted(m.snapshot.nodes[r], m.priority))]
  {
    hide Insert;
    OtherTails(m.node, r);
    var part, q := MountedPart(nodes, m, done), m.node + r;
    assert ListAt(part, q) == ListAt(nodes, q);
    var next := MountedPart(nodes, m, done + {r});
    forall x | x in next
      ensures x in part || x == q
      ensures x != q ==> next[x] == part[x]
    {
    }
  }

  lemma UnmountOneMore(nodes: Nodes, m: MountPoint, done: set<Path>, r: Path)
    requires r in m.snapshot.nodes && r !in done && done <= m.snapshot.nodes.Keys && m.node + r in nodes
    ensures var part, q := UnmountedPart(nodes, m, done), m.node + r;
      part[q] == nodes[q] && UnmountedPart(nodes, m, done + {r}) == part[q := RemoveListed(part[q], m.snapshot.nodes[r])]
  {
    hide RemoveListed;
    OtherTails(m.node, r);
  }

  // ---- The tree of virtual nodes -----------------------------------------------------------

  predicate Closed(nodes: Nodes) {
    [] in nodes && forall q | q in nodes && q != [] :: q[..|q| - 1] in nodes
  }

  /** `createNodesForPath`: the missing nodes on the way to `path`. */
  function WithPath(nodes: Nodes, path: Path): Nodes {
    map q | q in nodes.Keys + (set k | 0 <= k <= |path| :: path[..k]) :: ListAt(nodes, q)
  }

  lemma WithPathOk(nodes: Nodes, placed: set<Item>, path: Path)
    requires ListsOk(nodes, placed) && Closed(nodes)
    ensures ListsOk(WithPath(nodes, path), placed) && Closed(WithPath(nodes, path))
    ensures path in WithPath(nodes, path) && nodes.Keys <= WithPath(nodes, path).Keys
  {
    hide ListOk;
    var next := WithPath(nodes, path);
    assert path[..|path|] == path;
    forall q | q in next
      ensures ListOk(next[q], placed, q)
    {
      ListAtOk(nodes, placed, q);
    }
    forall q | q in next && q != []
      ensures q[..|q| - 1] in next
    {
      if q !in nodes {
        var k :| 0 <= k <= |path| && q == path[..k];
        assert q[..|q| - 1] == path[..k - 1];
      }
    }
  }

  lemma WithPathOne(nodes: Nodes, path: Path, comp: string)
    requires [] in nodes
    ensures WithPath(nodes, path + [comp])
         == if path + [comp] in WithPath(nodes, path) then WithPath(nodes, path)
            else WithPath(nodes, path)[path + [comp] := []]
  {
    var child := path + [comp];
    forall k | 0 <= k <= |child|
      ensures child[..k] == if k <= |path| then path[..k] else child
    {
    }
    var before, after := (set k | 0 <= k <= |path| :: path[..k]), (set k | 0 <= k <= |child| :: child[..k]);
    forall k | 0 <= k <= |path|
      ensures path[..k] in after
    {
      assert child[..k] == path[..k];
    }
    assert child[..|child|] == child;
    assert after == before + {child};
  }

  /** A snapshot holds the parent of every node that it holds. */
  predicate SnapshotClosed(snap: Snapshot) {
    forall r | r in snap.nodes && r != [] :: r[..|r| - 1] in snap.nodes
  }

  lemma ExactIsClosed(trees: map<string, Tree>, snap: Snapshot)
    requires Exact(trees, snap) && TreeOk(trees[snap.volume])
    ensures SnapshotClosed(snap)
  {
    var tree, at := trees[snap.volume], Split(snap.nodePath, '/');
    forall r | r in snap.nodes && r != []
      ensures r[..|r| - 1] in snap.nodes
    {
      BelowIs(tree, at, r);
      BelowIs(tree, at, r[..|r| - 1]);
      assert PathOk(tree, at + r);
      assert (at + r)[..|at + r| - 1] == at + r[..|r| - 1];
    }
  }

  lemma MountedClosed(nodes: Nodes, m: MountPoint)
    requires Closed(nodes) && m.node in nodes && SnapshotClosed(m.snapshot)
    ensures Closed(MountedPart(nodes, m, m.snapshot.nodes.Keys))
  {
    hide Insert;
    var next := MountedPart(nodes, m, m.snapshot.nodes.Keys);
    forall q | q in next && q != []
      ensures q[..|q| - 1] in next
    {
      if q !in nodes {
        var r :| r in m.snapshot.nodes && q == m.node + r;
        assert r != [] by {
          assert m.node + [] == m.node;
        }
        assert q[..|q| - 1] == m.node + r[..|r| - 1];
      }
    }
  }

  // ---- Mount points ------------------------------------------------------------------------

  predicate Candidate(snap: Snapshot, volume: string, nodePath: string) {
    snap.volume == volume && StartsWith(nodePath, snap.nodePath) && nodePath != snap.nodePath
  }

  /** It is a candidate exactly if the new node's path goes on behind its own, be it within a component. */
  lemma CandidateIs(snap: Snapshot, volume: string, nodePath: string)
    ensures Candidate(snap, volume, nodePath) <==>
      snap.volume == volume && exists rest :: rest != [] && nodePath == snap.nodePath + rest
  {
    if Candidate(snap, volume, nodePath) {
      var rest := nodePath[|snap.nodePath|..];
      assert nodePath == snap.nodePath + rest;
    }
  }

  predicate SameMounts(a: map<nat, MountPoint>, b: map<nat, MountPoint>) {
    a.Keys == b.Keys
    && forall id | id in a :: b[id] == a[id].(snapshot := b[id].snapshot) && SameSource(a[id].snapshot, b[id].snapshot)
  }

  predicate SameSource(a: Snapshot, b: Snapshot) {
    a.volume == b.volume && a.nodePath == b.nodePath
  }

  predicate NodeIn(trees: map<string, Tree>, snap: Snapshot) {
    snap.volume in trees && Split(snap.nodePath, '/') in trees[snap.volume]
  }

  /** The items of one mount point are those that carry its id. */
  lemma ItemsOfOne(mountPoints: map<nat, MountPoint>, id: nat)
    requires id in mountPoints
    ensures forall u :: u in Items(id, mountPoints[id]) <==> u in AllItems(mountPoints) && u.id == id
  {
    forall u
      ensures u in Items(id, mountPoints[id]) <==> u in AllItems(mountPoints) && u.id == id
    {
      if u in AllItems(mountPoints) && u.id == id {
        var i, r :| i in mountPoints && r in mountPoints[i].snapshot.nodes && u == ItemOf(i, mountPoints[i].node, mountPoints[i].snapshot, r);
      }
    }
  }

  ghost predicate NoneOf(uses: set<Item>, id: nat) {
    forall u | u in uses :: u.id != id
  }

  /** The items after one mount point has been replaced. */
  lemma ItemsReplaced(mountPoints: map<nat, MountPoint>, id: nat, m: MountPoint)
    requires id in mountPoints
    ensures AllItems(mountPoints[id := m]) == AllItems(mountPoints) - Items(id, mountPoints[id]) + Items(id, m)
    ensures Items(id, mountPoints[id]) <= AllItems(mountPoints) && NoneOf(AllItems(mountPoints) - Items(id, mountPoints[id]), id)
  {
    var next := mountPoints[id := m];
    ItemsOfOne(mountPoints, id);
    ItemsOfOne(next, id);
    forall u: Item
      ensures u.id != id ==> (u in AllItems(next) <==> u in AllItems(mountPoints))
    {
      if u.id != id && u in AllItems(next) {
        var i, r :| i in next && r in next[i].snapshot.nodes && u == ItemOf(i, next[i].node, next[i].snapshot, r);
        assert i in mountPoints && mountPoints[i] == next[i];
      }
      if u.id != id && u in AllItems(mountPoints) {
        var i, r :| i in mountPoints && r in mountPoints[i].snapshot.nodes && u == ItemOf(i, mountPoints[i].node, mountPoints[i].snapshot, r);
        assert i in next && next[i] == mountPoints[i];
      }
    }
  }
}
