/** Mounting: the subtrees of volumes overlaid on one tree of virtual nodes. */
module VirtualMounts {
  import opened Options
  import opened Paths
  import opened RegistryModel
  import opened StorageRegistry
  import opened MountLists
  import opened MountModel
  import opened MountPriorities
  import opened RemountOrders

  // ---- The virtual storage -----------------------------------------------------------------

  ghost predicate PointOk(nodes: Nodes, volumeNodes: map<string, seq<Path>>, m: MountPoint) {
    && m.node in nodes && ':' !in m.snapshot.volume && [] in m.snapshot.nodes
    && m.snapshot.volume in volumeNodes && m.node in volumeNodes[m.snapshot.volume]
  }

  /** What is placed is what the live mount points place. */
  ghost predicate PointsOk(nodes: Nodes, placed: set<Item>, mountPoints: map<nat, MountPoint>,
                           volumeNodes: map<string, seq<Path>>, counter: nat) {
    && placed == AllItems(mountPoints) && Closed(nodes)
    && (forall id | id in mountPoints :: id < counter && PointOk(nodes, volumeNodes, mountPoints[id]))
  }

  class VirtualStorage {
    const registry: LinearHashStorageRegistry
    var nodes: Nodes
    var mountPoints: map<nat, MountPoint>
    var volumeNodes: map<string, seq<Path>>
    var mountIdCounter: nat
    ghost var placed: set<Item>

    /** Lists and counters agree, except for `extra`, which is counted and not listed. */
    ghost predicate Agree(extra: set<Item>)
      reads this`nodes, this`placed, registry, registry.volumes.Values
    {
      && registry.Valid() && ListsOk(nodes, placed)
      && registry.uses == placed + extra && placed !! extra
    }

    ghost predicate Points()
      reads this
    {
      PointsOk(nodes, placed, mountPoints, volumeNodes, mountIdCounter)
    }

    /** Every live mount point shows exactly the current subtree of its volume; each node's list is sorted
        and lists what the mount points place there; the counters count the same. */
    ghost predicate Valid()
      reads this, registry, registry.volumes.Values
    {
      && Agree({}) && Points()
      && (forall id | id in mountPoints :: Exact(registry.State().trees, mountPoints[id].snapshot))
    }

    /** For every storage and priority each node lists as many entries as live mount points placed the
        storage there with that priority. */
    ghost predicate PrioritiesKept()
      reads this
    {
      Kept(nodes, placed, Priorities(mountPoints))
    }

    ghost function Now(): Overlay
      reads this
    {
      Overlay(nodes, mountPoints)
    }

    constructor ()
      ensures Valid() && PrioritiesKept() && mountPoints == map[] && nodes == map[[] := []] && mountIdCounter == 1
      ensures fresh(registry) && fresh(registry.volumes.Values)
    {
      registry := new LinearHashStorageRegistry();
      nodes, mountPoints, volumeNodes, mountIdCounter := map[[] := []], map[], map[], 1;
      placed := {};
    }

    /** `mount` of a subtree to the virtual nodes. */
    method MountNodes(m: MountPoint, ghost id: nat, ghost extra: set<Item>)
      requires Agree(Items(id, m) + extra) && Items(id, m) !! extra
      modifies this`nodes, this`placed
      ensures Agree(extra) && placed == old(placed) + Items(id, m)
      ensures nodes == MountedPart(old(nodes), m, m.snapshot.nodes.Keys) && MountedOn(old(nodes), nodes, m)
    {
      hide Insert, ListsOk, LinearHashStorageRegistry.Valid, MountedPart, MountedOn;
      ListsSorted(nodes, placed);
      MountedIs(nodes, m);
      ghost var done := {};
      var todo := m.snapshot.nodes.Keys;
      MountedNothing(nodes, m);
      while todo != {}
        invariant todo + done == m.snapshot.nodes.Keys && todo !! done
        invariant nodes == MountedPart(old(nodes), m, done)
        invariant placed == old(placed) + DoneItems(id, m.node, m.snapshot, todo)
        invariant ListsOk(nodes, placed)
        decreases todo
      {
        var r :| r in todo;
        var q, storage := m.node + r, m.snapshot.nodes[r];
        ghost var u := ItemOf(id, m.node, m.snapshot, r);
        MountOneMore(old(nodes), m, done, r);
        DoneOneMore(id, m.node, m.snapshot, todo, r);
        assert u in Items(id, m);
        InsertStep(nodes, placed, u, m.priority);
        if q !in nodes {
          nodes := nodes[q := []];
        }
        nodes := nodes[q := Insert(nodes[q], Mounted(storage, m.priority))];
        placed := placed + {u};
        todo := todo - {r};
        done := done + {r};
      }
      assert done == m.snapshot.nodes.Keys;
      NoneWaiting({}, [], id, m.node, m.snapshot);
    }

    /** `unmount` of a subtree: its storages are released and taken off the lists. */
    method UnmountNodes(m: MountPoint, ghost id: nat, ghost extra: set<Item>)
      requires Agree(extra) && Items(id, m) <= placed
      modifies this`nodes, this`placed, registry`counters, registry`keys, registry`uses, registry.volumes.Values
      ensures Agree(extra) && placed == old(placed) - Items(id, m)
      ensures nodes == UnmountedPart(old(nodes), m, m.snapshot.nodes.Keys) && UnmountedFrom(old(nodes), nodes, m)
      ensures SameShapes(old(registry.State()).trees, registry.State().trees)
    {
      hide Remove, ListsOk, LinearHashStorageRegistry.Valid, LinearHashStorageRegistry.State, UnmountedPart, SameShapes,
           DoneItems, Released, UnmountedFrom;
      UnmountedIsFrom(nodes, m);
      ghost var done := {};
      var todo := m.snapshot.nodes.Keys;
      MountedNothing(nodes, m);
      SameShapesSelf(registry.State().trees);
      NoneDone(id, m);
      while todo != {}
        invariant todo + done == m.snapshot.nodes.Keys && todo !! done
        invariant nodes == UnmountedPart(old(nodes), m, done)
        invariant placed == old(placed) - DoneItems(id, m.node, m.snapshot, todo)
        invariant Agree(extra)
        invariant SameShapes(old(registry.State()).trees, registry.State().trees)
        decreases todo
      {
        var r :| r in todo;
        ghost var u, trees := ItemOf(id, m.node, m.snapshot, r), registry.State().trees;
        DoneOneMore(id, m.node, m.snapshot, todo, r);
        assert u in Items(id, m);
        UnmountedKeys(old(nodes), m, done);
        UnmountNode(m, r, u, extra);
        UnmountOneMore(old(nodes), m, done, r);
        SameShapesTransitive(old(registry.State()).trees, trees, registry.State().trees);
        todo := todo - {r};
        done := done + {r};
      }
      assert done == m.snapshot.nodes.Keys;
      NoneWaiting({}, [], id, m.node, m.snapshot);
    }

    /** One turn of that loop: the storage of one node is released and taken off the node's list. */
    method UnmountNode(m: MountPoint, r: Path, ghost u: Item, ghost extra: set<Item>)
      requires Agree(extra) && u in placed && r in m.snapshot.nodes && u.at == m.node + r && u.storage == m.snapshot.nodes[r]
      modifies this`nodes, this`placed, registry`counters, registry`keys, registry`uses, registry.volumes.Values
      ensures Agree(extra) && placed == old(placed) - {u}
      ensures u.at in old(nodes) && nodes == old(nodes)[u.at := RemoveListed(old(nodes)[u.at], u.storage)]
      ensures SameShapes(old(registry.State()).trees, registry.State().trees)
    {
      hide Remove, ListsOk, LinearHashStorageRegistry.Valid, LinearHashStorageRegistry.State, SameShapes, Released;
      var q, storage := m.node + r, m.snapshot.nodes[r];
      RemoveStep(nodes, placed, u);
      var foundStorage := FindStorage(nodes[q], storage);
      var released := registry.ReleaseStorage(storage, u);
      assert released;
      nodes := nodes[q := Remove(nodes[q], storage)];
      placed := placed - {u};
    }

    /** One turn of the remount loop: unmount the old snapshot and mount a new one. */
    method RemountOne(id: nat, ghost extra: set<Item>)
      requires Agree(extra) && Points() && id in mountPoints && NoneOf(extra, id)
      modifies this`nodes, this`placed, this`mountPoints, registry, registry.volumes.Values
      ensures id in mountPoints && mountPoints == old(mountPoints)[id := old(mountPoints)[id].(snapshot := mountPoints[id].snapshot)]
      ensures SameSource(old(mountPoints)[id].snapshot, mountPoints[id].snapshot)
      ensures Agree(extra) && Points() && fresh(registry.volumes.Values - old(registry.volumes.Values))
      ensures SameShapes(old(registry.State()).trees, registry.State().trees)
      ensures Exact(registry.State().trees, mountPoints[id].snapshot)
      ensures Anew(old(registry.State()).trees, old(Now()), id, Now())
    {
      hide PointsOk, PointOk, SameSource, NodeIn, Agree, AllItems, Items, Exact, SameShapes, NoneOf, Closed, MountedPart, UnmountedPart,
           Consistent, Anew, LinearHashStorageRegistry.State;
      var m := mountPoints[id];
      ghost var trees, before := registry.State().trees, Now();
      PointIs(nodes, placed, mountPoints, volumeNodes, mountIdCounter, id);
      HasNode(id, extra);
      var m' := Exchange(m, id, extra);
      PointReplaced(before.nodes, old(placed), mountPoints, volumeNodes, mountIdCounter, nodes, placed, id, m');
      mountPoints := mountPoints[id := m'];
      PlacedConsistent(extra);
      SameShapesBack(trees, registry.State().trees);
      ExactSame(registry.State().trees, trees, m'.snapshot);
      AnewIs(trees, before, id, m', Now());
    }

    /** The part of that on the lists and the registry. */
    method Exchange(m: MountPoint, ghost id: nat, ghost extra: set<Item>) returns (m': MountPoint)
      requires Agree(extra) && Items(id, m) <= placed && NoneOf(placed - Items(id, m), id) && NoneOf(extra, id)
      requires m.node in nodes && ':' !in m.snapshot.volume && Closed(nodes) && NodeIn(registry.State().trees, m.snapshot)
      modifies this`nodes, this`placed, registry, registry.volumes.Values
      ensures m' == m.(snapshot := m'.snapshot) && SameSource(m.snapshot, m'.snapshot) && [] in m'.snapshot.nodes
      ensures Agree(extra) && placed == old(placed) - Items(id, m) + Items(id, m')
      ensures nodes == MountedPart(UnmountedPart(old(nodes), m, m.snapshot.nodes.Keys), m', m'.snapshot.nodes.Keys)
      ensures old(nodes).Keys <= nodes.Keys && Closed(nodes)
      ensures fresh(registry.volumes.Values - old(registry.volumes.Values))
      ensures SameShapes(old(registry.State()).trees, registry.State().trees) && Exact(registry.State().trees, m'.snapshot)
    {
      hide SameSource, SnapshotClosed, NodeIn, Agree, Items, Exact, SameShapes, NoneOf, Closed, MountedPart, UnmountedPart,
           MountedOn, UnmountedFrom, LinearHashStorageRegistry.State;
      ghost var trees := registry.State().trees;
      UnmountNodes(m, id, extra);
      UnmountedIs(old(nodes), m);
      ghost var trees' := registry.State().trees;
      NodeStays(trees, trees', m.snapshot);
      m' := AcquireAgain(m, id, extra);
      SameShapesTransitive(trees, trees', registry.State().trees);
      MountedKeys(nodes, m');
      MountedClosed(nodes, m');
      MountNodes(m', id, extra);
    }

    lemma PlacedConsistent(extra: set<Item>)
      requires Agree(extra) && Points()
      ensures placed == AllItems(mountPoints) && Consistent(placed)
    {
      hide RegOk, Consistent, ListsOk, AllItems, PointOk, Closed, LinearHashStorageRegistry.State;
      registry.ValidIs();
      UsesConsistent(registry.State(), registry.uses);
      ConsistentPart(registry.uses, placed);
    }

    /** In a valid state the lists are ready for any remount. */
    lemma SoundNow()
      requires Valid()
      ensures Now().Sound(registry.State().trees)
    {
      hide Consistent, ListOk, Times, Sorted, Exact, PointOk, Closed, AllItems, RootShown, NodeIn, LinearHashStorageRegistry.Valid,
           LinearHashStorageRegistry.State;
      PlacedConsistent({});
      forall id | id in mountPoints
        ensures NodeIn(registry.State().trees, mountPoints[id].snapshot)
      {
        HasNode(id, {});
      }
      forall a, b | a in mountPoints && b in mountPoints
        ensures RootShown(mountPoints[a], mountPoints[b])
      {
        ExactShowsRoots(registry.State().trees, mountPoints[a], mountPoints[b]);
      }
      forall q | q in nodes
        ensures Sorted(nodes[q])
      {
        assert ListOk(nodes[q], placed, q);
        ListIsSorted(nodes[q], placed, q);
      }
    }

    lemma HasNode(id: nat, extra: set<Item>)
      requires Agree(extra) && Points() && id in mountPoints
      ensures NodeIn(registry.State().trees, mountPoints[id].snapshot)
    {
      ItemsWithout(mountPoints, id);
      NodeMounted(registry.State(), registry.uses, id, mountPoints[id]);
    }

    /** The acquisition of that turn. */
    method AcquireAgain(m: MountPoint, ghost id: nat, ghost extra: set<Item>) returns (m': MountPoint)
      requires Agree(extra) && NoneOf(placed, id) && NoneOf(extra, id) && ':' !in m.snapshot.volume
      requires NodeIn(registry.State().trees, m.snapshot)
      modifies registry, registry.volumes.Values
      ensures m' == m.(snapshot := m'.snapshot) && SameSource(m.snapshot, m'.snapshot) && [] in m'.snapshot.nodes
      ensures Agree(Items(id, m') + extra) && Items(id, m') !! extra
      ensures fresh(registry.volumes.Values - old(registry.volumes.Values))
      ensures Exact(registry.State().trees, m'.snapshot) && SnapshotClosed(m'.snapshot)
      ensures SameShapes(old(registry.State()).trees, registry.State().trees)
    {
      hide RegOk, ListsOk, Exact, SameShapes, GrownTo, Split, SnapshotOf, ItemsOf, LinearHashStorageRegistry.State, SnapshotClosed;
      ghost var reg, uses := registry.State(), registry.uses;
      registry.ValidIs();
      var snap := registry.AcquireStorage(m.snapshot.volume, m.snapshot.nodePath, id, m.node);
      m' := m.(snapshot := snap);
      registry.ValidIs();
      GrownToItself(reg, uses, registry.State().trees, m.snapshot.volume, Split(m.snapshot.nodePath, '/'));
      SnapshotIsClosed(registry.State(), registry.uses, snap);
      ItemsCarry(id, m');
    }

    /** The part of `remountNodes` that collects the mount points of the volume whose path `startsWith`
        takes for an ancestor of the new node's. */
    method RemountEntries(volume: string, nodePath: string) returns (entries: seq<nat>)
      requires Points()
      ensures forall id | id in entries :: id in mountPoints && Candidate(mountPoints[id].snapshot, volume, nodePath)
      ensures forall id | id in mountPoints && Candidate(mountPoints[id].snapshot, volume, nodePath) :: id in entries
    {
      entries := [];
      if volume !in volumeNodes {
        return;
      }
      var nodesCopy := volumeNodes[volume];
      var i := 0;
      while i < |nodesCopy|
        invariant i <= |nodesCopy|
        invariant forall id | id in entries :: id in mountPoints && Candidate(mountPoints[id].snapshot, volume, nodePath)
        invariant forall id | id in mountPoints && Candidate(mountPoints[id].snapshot, volume, nodePath)
                              && mountPoints[id].node in nodesCopy[..i] :: id in entries
      {
        var todo := set id | id in mountPoints && mountPoints[id].node == nodesCopy[i];
        while todo != {}
          invariant forall id | id in todo :: id in mountPoints
          invariant forall id | id in entries :: id in mountPoints && Candidate(mountPoints[id].snapshot, volume, nodePath)
          invariant forall id | id in mountPoints && Candidate(mountPoints[id].snapshot, volume, nodePath)
                                && mountPoints[id].node in nodesCopy[..i + 1] :: id in entries || id in todo
          decreases todo
        {
          var id :| id in todo;
          todo := todo - {id};
          var mounted := mountPoints[id].snapshot;
          if mounted.volume == volume && StartsWith(nodePath, mounted.nodePath) && nodePath != mounted.nodePath {
            entries := entries + [id];
          }
        }
        i := i + 1;
      }
      assert nodesCopy[..|nodesCopy|] == nodesCopy;
    }

    /** `remountNodes`: every mount point that misses the new nodes below its own is mounted anew. */
    method RemountNodes(volume: string, nodePath: string, ghost extra: set<Item>) returns (ghost order: seq<nat>)
      requires Agree(extra) && Points() && forall id | id in mountPoints :: NoneOf(extra, id)
      requires UpToDate(registry.State().trees, mountPoints, volume, nodePath, mountPoints.Keys)
      modifies this`nodes, this`placed, this`mountPoints, registry, registry.volumes.Values
      ensures Agree(extra) && Points() && fresh(registry.volumes.Values - old(registry.volumes.Values))
      ensures UpToDate(registry.State().trees, mountPoints, volume, nodePath, {})
      ensures SameShapes(old(registry.State()).trees, registry.State().trees)
      ensures SameMounts(old(mountPoints), mountPoints)
      ensures Lists(old(mountPoints), order, volume, nodePath)
      ensures Remounts(old(registry.State()).trees, old(Now()), order, Now())
    {
      hide AllItems, Exact, Behind, Remounts, Anew;
      hide Agree, PointsOk, UpToDate, SameShapes, SameMounts, LinearHashStorageRegistry.State, Candidate;
      var entries := RemountEntries(volume, nodePath);
      ghost var trees := registry.State().trees;
      ghost var start := Now();
      order := entries;
      NoRemounts(trees, start);
      OnlyCandidates(trees, mountPoints, volume, nodePath, entries);
      var i := 0;
      while i < |entries|
        invariant i <= |entries| && mountPoints.Keys == old(mountPoints.Keys)
        invariant Agree(extra) && Points() && fresh(registry.volumes.Values - old(registry.volumes.Values))
        invariant UpToDate(registry.State().trees, mountPoints, volume, nodePath, Rest(entries, i))
        invariant SameShapes(trees, registry.State().trees)
        invariant SameMounts(old(mountPoints), mountPoints)
        invariant Remounts(trees, start, entries[..i], Now())
      {
        ghost var before, points, now := registry.State().trees, mountPoints, Now();
        var id := entries[i];
        RemountOne(id, extra);
        SameShapesTransitive(trees, before, registry.State().trees);
        RemountedOne(before, registry.State().trees, points, mountPoints, volume, nodePath, id,
                     Rest(entries, i), Rest(entries, i + 1));
        SameMountsStep(old(mountPoints), points, mountPoints, id);
        RemountsMore(trees, before, start, entries, i, now, Now());
        i := i + 1;
      }
      assert Rest(entries, |entries|) == {} && entries[..|entries|] == entries;
    }

    /** The walk of `resolveNode`: the node of a path, found through its ancestors. */
    method ResolveNode(path: string) returns (node: Option<Path>)
      requires Valid()
      ensures node == if Split(path, '/') in nodes then Some(Split(path, '/')) else None
    {
      hide Split, Agree, AllItems, PointOk, Exact;
      var comps := SplitString(path, '/');
      var at: Path := [];
      var i := 0;
      while i < |comps|
        invariant i <= |comps| && at == comps[..i] && at in nodes
      {
        var child := at + [comps[i]];
        assert child == comps[..i + 1];
        if child !in nodes {
          AncestorsIn(nodes, comps, i + 1);
          return None;
        }
        at := child;
        i := i + 1;
      }
      assert comps[..|comps|] == comps;
      return Some(at);
    }

    /** `createNodesForPath`. */
    method CreateNodesForPath(path: string) returns (node: Path)
      requires [] in nodes
      modifies this`nodes
      ensures node == Split(path, '/') && nodes == WithPath(old(nodes), node)
    {
      hide Split;
      var comps := SplitString(path, '/');
      node := [];
      WithNoPath(nodes);
      var i := 0;
      while i < |comps|
        invariant i <= |comps| && node == comps[..i]
        invariant nodes == WithPath(old(nodes), node)
      {
        var child := node + [comps[i]];
        assert child == comps[..i + 1];
        WithPathOne(old(nodes), node, comps[i]);
        if child !in nodes {
          nodes := nodes[child := []];
        }
        node := child;
        i := i + 1;
      }
      assert comps[..|comps|] == comps;
    }

    /** `mount`. */
    method Mount(volumeFilePath: string, nodePath: string, storageMountPath: string, priority: int)
      returns (mountId: nat, ghost order: seq<nat>, ghost remounted: Overlay)
      requires Valid() && ':' !in volumeFilePath
      modifies this, registry, registry.volumes.Values
      ensures Valid() && fresh(registry.volumes.Values - old(registry.volumes.Values))
      ensures mountId == old(mountIdCounter) == mountIdCounter - 1 && mountId !in old(mountPoints) && mountId in mountPoints
      ensures var m := mountPoints[mountId];
        && m.node == Split(storageMountPath, '/') && m.priority == priority
        && m.snapshot.volume == volumeFilePath && m.snapshot.nodePath == nodePath
      ensures SameMounts(old(mountPoints), mountPoints - {mountId})
      ensures ShapeGrownTo(old(registry.State()).trees, registry.State().trees, volumeFilePath, Split(nodePath, '/'))
      ensures Lists(old(mountPoints), order, volumeFilePath, nodePath)
      ensures exists trees :: Remounts(trees, old(Now()), order, remounted)
      ensures MountedOn(remounted.nodes, nodes, mountPoints[mountId]) && (order == [] ==> remounted == old(Now()))
      ensures old(PrioritiesKept()) && NoneOutranked(old(mountPoints), volumeFilePath, nodePath) ==> PrioritiesKept()
      ensures old(PrioritiesKept()) && order != [] && Outranked(old(mountPoints), order[|order| - 1]) ==> !PrioritiesKept()
      ensures forall c | old(PrioritiesKept()) && OnlyCandidate(old(mountPoints), c, volumeFilePath, nodePath) && Outranked(old(mountPoints), c) ::
        !PrioritiesKept()
    {
      hide Kept, Outranked, Candidate, Priorities, Remounts, Overlay.Sound, AllItems, Lists, NoneOutranked, OnlyCandidate, MountedOn;
      hide Agree, PointsOk, UpToDate, SameShapes, SameMounts, LinearHashStorageRegistry.State, Split, Exact, SnapshotClosed,
           ShapeGrownTo, ItemsOf, NoneOf;
      mountId := mountIdCounter;
      ghost var trees, points := registry.State().trees, mountPoints;
      SoundNow();
      PlacedAre(nodes, placed, mountPoints, volumeNodes, mountIdCounter);
      // Loading the volume subtree
      var snap := Acquire(volumeFilePath, nodePath, Split(storageMountPath, '/'));
      var m := MountPoint(Split(storageMountPath, '/'), snap, priority);
      ghost var trees1 := registry.State().trees;
      ghost var start := Now();
      SoundGrown(trees, trees1, start, volumeFilePath, Split(nodePath, '/'));
      // Remounting the mount points that miss its new nodes
      order := RemountNodes(volumeFilePath, nodePath, Items(mountId, m));
      ghost var trees2, points2, nodes2, placed2 := registry.State().trees, mountPoints, nodes, placed;
      PlacedIds(nodes2, placed2, points2, volumeNodes, mountIdCounter);
      PlacedAre(nodes2, placed2, points2, volumeNodes, mountIdCounter);
      remounted := Now();
      RemountsNone(trees1, start, order, remounted);
      // Creating the virtual nodes and mounting the subtree
      Place(mountId, m, storageMountPath);
      PrioritiesAfter(trees1, start, order, remounted, volumeFilePath, nodePath, mountId, m);
      SameNewShape(trees, trees1, trees2, volumeFilePath, Split(nodePath, '/'));
      ExactSame(trees1, trees2, snap);
      AllExact(points, points2, mountPoints, trees2, volumeFilePath, nodePath, mountId);
    }

    /** The acquisition of `mount`. */
    method Acquire(volume: string, nodePath: string, ghost node: Path) returns (snap: Snapshot)
      requires Valid() && ':' !in volume
      modifies registry, registry.volumes.Values
      ensures snap.volume == volume && snap.nodePath == nodePath && [] in snap.nodes
      ensures Agree(ItemsOf(mountIdCounter, node, snap)) && fresh(registry.volumes.Values - old(registry.volumes.Values))
      ensures Exact(registry.State().trees, snap) && SnapshotClosed(snap)
      ensures UpToDate(registry.State().trees, mountPoints, volume, nodePath, mountPoints.Keys)
      ensures ShapeGrownTo(old(registry.State()).trees, registry.State().trees, volume, Split(nodePath, '/'))
      ensures mountIdCounter !in mountPoints
      ensures forall id | id in mountPoints :: NoneOf(ItemsOf(mountIdCounter, node, snap), id)
    {
      hide RegOk, ListsOk, Exact, GrownTo, Split, SnapshotOf, ItemsOf, LinearHashStorageRegistry.State, SnapshotClosed, UpToDate,
           PointsOk, NoneOf;
      NotYet(nodes, placed, mountPoints, volumeNodes, mountIdCounter);
      forall id | id in mountPoints {
        HasNode(id, {});
      }
      ghost var reg, uses := registry.State(), registry.uses;
      registry.ValidIs();
      snap := registry.AcquireStorage(volume, nodePath, mountIdCounter, node);
      registry.ValidIs();
      SnapshotIsClosed(registry.State(), registry.uses, snap);
      AfterGrowth(reg, uses, registry.State().trees, mountPoints, volume, nodePath);
      ItemsCarry(mountIdCounter, MountPoint(node, snap, 0));
      forall id | id in mountPoints
        ensures NoneOf(ItemsOf(mountIdCounter, node, snap), id)
      {
        CarryNoOther(mountIdCounter, node, snap, id);
      }
    }

    /** `unmount`. */
    method Unmount(mountId: nat) returns (ok: bool)
      requires Valid()
      modifies this`nodes, this`placed, this`mountPoints, registry`counters, registry`keys, registry`uses, registry.volumes.Values
      ensures Valid() && (ok <==> mountId in old(mountPoints))
      ensures mountPoints == old(mountPoints) - {mountId}
      ensures nodes == if ok then UnmountedPart(old(nodes), old(mountPoints)[mountId], old(mountPoints)[mountId].snapshot.nodes.Keys)
                       else old(nodes)
      ensures ok ==> UnmountedFrom(old(nodes), nodes, old(mountPoints)[mountId])
      ensures SameShapes(old(registry.State()).trees, registry.State().trees)
      ensures old(PrioritiesKept()) ==> (PrioritiesKept() <==> !ok || !Outranked(old(mountPoints), mountId))
    {
      hide Kept, Rivalled, Outranked, Priorities, Unrivalled, Consistent, Exact, RootsShown, NodeIn, Sorted;
      hide Agree, AllItems, Items, Exact, SameShapes, PointOk, Closed, UnmountedPart, UnmountedFrom, LinearHashStorageRegistry.State;
      ghost var trees, kept := registry.State().trees, PrioritiesKept();
      SameShapesSelf(trees);
      if mountId !in mountPoints {
        assert mountPoints - {mountId} == mountPoints;
        return false;
      }
      var m := mountPoints[mountId];
      ItemsWithout(mountPoints, mountId);
      Rivals();
      SoundNow();
      PlacedConsistent({});
      UnmountNodes(m, mountId, {});
      UnmountedIs(old(nodes), m);
      PointsLeft(old(nodes), nodes, volumeNodes, mountPoints);
      if kept {
        UnmountedKeeps(old(nodes), old(placed), mountPoints, mountId);
      }
      mountPoints := mountPoints - {mountId};
      forall id | id in mountPoints
        ensures Exact(registry.State().trees, mountPoints[id].snapshot)
      {
        ExactSame(trees, registry.State().trees, mountPoints[id].snapshot);
      }
      return true;
    }

    /** In a valid state a mount point has a rival among the listed storages exactly when it is outranked. */
    lemma Rivals()
      requires Valid()
      ensures forall id | id in mountPoints :: Rivalled(placed, mountPoints, id) <==> Outranked(mountPoints, id)
    {
      hide Rivalled, Outranked, Consistent, Agree, AllItems, Exact, LinearHashStorageRegistry.State, PointOk, Closed, Items, RootsShown,
           NodeIn, Sorted;
      SoundNow();
      PlacedConsistent({});
      forall id | id in mountPoints
        ensures Rivalled(placed, mountPoints, id) <==> Outranked(mountPoints, id)
      {
        RivalOutranks(placed, mountPoints, id);
        OutrankedIsRivalled(placed, mountPoints, id);
      }
    }

    /** What the invariant says without the ghost items: each counter is the number of live mount points
        that hold the node, a node is loaded exactly while that number is positive, and each virtual
        node lists a storage once for every live mount point that places it there. */
    lemma CountersAndLists()
      requires Valid()
      ensures forall v, p | v in registry.volumes && p in registry.volumes[v].nodes && p != [] ::
        var holders := |HoldersOf(mountPoints, v, p)|;
        && (registry.volumes[v].nodes[p].Some? <==> holders > 0)
        && (Key(v, p) in registry.counters <==> holders > 0)
        && (holders > 0 ==> registry.counters[Key(v, p)] == (registry.volumes[v].nodes[p].value, holders))
      ensures forall q, s | q in nodes :: Times(nodes[q], s) == |PlacersAt(mountPoints, q, s)|
      ensures forall q | q in nodes :: Sorted(nodes[q])
    {
      hide Key, KeyOk, UseOk, TreeOk, HoldersOf, PlacersAt, UsersOf, Placers, AllItems, Exact, PointOk, Closed, Times, Sorted;
      var reg := registry.State();
      forall v, p | v in registry.volumes && p in registry.volumes[v].nodes && p != []
        ensures NodeOk(reg, registry.uses, {}, v, p)
        ensures |UsersOf(registry.uses, v, p)| == |HoldersOf(mountPoints, v, p)|
      {
        UsersAreHolders(mountPoints, v, p);
      }
      forall q, s | q in nodes
        ensures Times(nodes[q], s) == |PlacersAt(mountPoints, q, s)| && Sorted(nodes[q])
      {
        assert ListOk(nodes[q], placed, q);
        PlacersArePoints(mountPoints, q, s);
      }
    }

    /** What `PrioritiesKept` says without the ghost items. */
    lemma PrioritiesAre()
      requires Valid()
      ensures PrioritiesKept() <==>
        forall q, x: Mounted | q in nodes :: multiset(nodes[q])[x] == |PlacersWith(mountPoints, q, x)|
    {
      hide ListsOk, LinearHashStorageRegistry.Valid, AllItems, Exact, PointOk, Closed, Marked, PlacersWith;
      PlacedIds(nodes, placed, mountPoints, volumeNodes, mountIdCounter);
      forall q, x: Mounted
        ensures |Marked(placed, Priorities(mountPoints), q, x)| == |PlacersWith(mountPoints, q, x)|
      {
        MarkedArePoints(mountPoints, q, x);
      }
      forall u | u in placed
        ensures u.at in nodes
      {
        ListedAt(nodes, placed, u);
      }
    }

    /** Every storage that a virtual node lists is loaded. */
    lemma ListedIsLoaded(q: Path, i: nat)
      requires Valid() && q in nodes && i < |nodes[q]|
      ensures var s := nodes[q][i].storage;
        s.volume in registry.volumes && s.path in registry.volumes[s.volume].nodes
        && registry.volumes[s.volume].nodes[s.path] == Some(s)
    {
      hide Key, KeyOk, TreeOk, AllItems, Exact, PointOk, Closed;
      var s := nodes[q][i].storage;
      ListedTimes(nodes[q], i);
      assert ListOk(nodes[q], placed, q);
      assert |Placers(placed, q, s)| > 0;
      var u :| u in Placers(placed, q, s);
      var reg := registry.State();
      assert UseOk(reg, u) && NodeOk(reg, registry.uses, {}, u.volume, u.path);
    }

    /** The last part of `mount`: the virtual nodes, the lists, and the new mount point. */
    method Place(mountId: nat, m: MountPoint, storageMountPath: string)
      requires Agree(Items(mountId, m)) && Points() && mountId == mountIdCounter && m.node == Split(storageMountPath, '/')
      requires SnapshotClosed(m.snapshot) && [] in m.snapshot.nodes && ':' !in m.snapshot.volume
      modifies this
      ensures Agree({}) && Points() && mountPoints == old(mountPoints)[mountId := m]
      ensures nodes == MountedPart(WithPath(old(nodes), m.node), m, m.snapshot.nodes.Keys) && MountedOn(old(nodes), nodes, m)
      ensures mountIdCounter == old(mountIdCounter) + 1 && placed == old(placed) + Items(mountId, m) && Items(mountId, m) !! old(placed)
    {
      hide ListsOk, LinearHashStorageRegistry.Valid, Split, SnapshotClosed, WithPath, MountedPart, MountedOn, PointsOk, Items;
      PointsClosed(nodes, placed, mountPoints, volumeNodes, mountIdCounter);
      WithPathOk(nodes, placed, m.node);
      var node := CreateNodesForPath(storageMountPath);
      ghost var created := nodes;
      mountIdCounter := mountIdCounter + 1;
      assert Items(mountId, m) + {} == Items(mountId, m);
      MountNodes(m, mountId, {});
      MountedOnPath(old(nodes), nodes, m);
      MountedClosed(created, m);
      MountedKeys(created, m);
      PointAdded(old(nodes), old(placed), mountPoints, volumeNodes, mountId, nodes, placed, m);
      mountPoints := mountPoints[mountId := m];
      var volume := m.snapshot.volume;
      volumeNodes := volumeNodes[volume := (if volume in volumeNodes then volumeNodes[volume] else []) + [node]];
    }
  }

  /** The mount points that hold node `p` of volume `v`. */
  function HoldersOf(mountPoints: map<nat, MountPoint>, v: string, p: Path): set<nat> {
    set id | id in mountPoints && mountPoints[id].snapshot.volume == v && Split(mountPoints[id].snapshot.nodePath, '/') <= p
             && p[|Split(mountPoints[id].snapshot.nodePath, '/')|..] in mountPoints[id].snapshot.nodes
  }

  /** The mount points that place storage `s` at virtual node `q`. */
  function PlacersAt(mountPoints: map<nat, MountPoint>, q: Path, s: StorageId): set<nat> {
    set id | id in mountPoints && mountPoints[id].node <= q
             && q[|mountPoints[id].node|..] in mountPoints[id].snapshot.nodes
             && mountPoints[id].snapshot.nodes[q[|mountPoints[id].node|..]] == s
  }

  /** The mount points that place the storage of `x` at virtual node `q` with the priority of `x`. */
  function PlacersWith(mountPoints: map<nat, MountPoint>, q: Path, x: Mounted): set<nat> {
    set id | id in PlacersAt(mountPoints, q, x.storage) && id in mountPoints && mountPoints[id].priority == x.priority
  }

  lemma MarkedArePoints(mountPoints: map<nat, MountPoint>, q: Path, x: Mounted)
    ensures |Marked(AllItems(mountPoints), Priorities(mountPoints), q, x)| == |PlacersWith(mountPoints, q, x)|
  {
    hide Split;
    var items := Marked(AllItems(mountPoints), Priorities(mountPoints), q, x);
    forall u | u in items
      ensures u.id in PlacersWith(mountPoints, q, x)
      ensures u == ItemOf(u.id, mountPoints[u.id].node, mountPoints[u.id].snapshot, q[|mountPoints[u.id].node|..])
    {
      var id, r :| id in mountPoints && r in mountPoints[id].snapshot.nodes && u == ItemOf(id, mountPoints[id].node, mountPoints[id].snapshot, r);
      OtherTails(mountPoints[id].node, r);
    }
    forall id | id in PlacersWith(mountPoints, q, x)
      ensures exists u :: u in items && u.id == id
    {
      var m := mountPoints[id];
      assert q == m.node + q[|m.node|..];
      assert ItemOf(id, m.node, m.snapshot, q[|m.node|..]) in items;
    }
    OnePerId(items, PlacersWith(mountPoints, q, x));
  }

  lemma ListedAt(nodes: Nodes, placed: set<Item>, u: Item)
    requires ListsOk(nodes, placed) && u in placed
    ensures u.at in nodes
  {
  }

  lemma {:induction false} OnePerId(items: set<Item>, ids: set<nat>)
    requires forall u | u in items :: u.id in ids
    requires forall id | id in ids :: exists u :: u in items && u.id == id
    requires forall u, w | u in items && w in items :: u.id == w.id ==> u == w
    ensures |items| == |ids|
  {
    if ids == {} {
      assert items == {};
    } else {
      var id :| id in ids;
      var u :| u in items && u.id == id;
      forall x | x in ids - {id}
        ensures exists w :: w in items - {u} && w.id == x
      {
        var w :| w in items && w.id == x;
        assert w in items - {u};
      }
      OnePerId(items - {u}, ids - {id});
    }
  }

  lemma UsersAreHolders(mountPoints: map<nat, MountPoint>, v: string, p: Path)
    ensures |UsersOf(AllItems(mountPoints), v, p)| == |HoldersOf(mountPoints, v, p)|
  {
    hide Split;
    var items := UsersOf(AllItems(mountPoints), v, p);
    forall u | u in items
      ensures u.id in HoldersOf(mountPoints, v, p)
      ensures u == ItemHere(mountPoints[u.id], u.id, v, p)
    {
      var id, r :| id in mountPoints && r in mountPoints[id].snapshot.nodes && u == ItemOf(id, mountPoints[id].node, mountPoints[id].snapshot, r);
      OtherTails(Split(mountPoints[id].snapshot.nodePath, '/'), r);
    }
    forall id | id in HoldersOf(mountPoints, v, p)
      ensures exists u :: u in items && u.id == id
    {
      var m := mountPoints[id];
      var at := Split(m.snapshot.nodePath, '/');
      assert p == at + p[|at|..];
      assert ItemOf(id, m.node, m.snapshot, p[|at|..]) in items;
    }
    OnePerId(items, HoldersOf(mountPoints, v, p));
  }

  function ItemHere(m: MountPoint, id: nat, v: string, p: Path): Item
    requires Split(m.snapshot.nodePath, '/') <= p && p[|Split(m.snapshot.nodePath, '/')|..] in m.snapshot.nodes
  {
    ItemOf(id, m.node, m.snapshot, p[|Split(m.snapshot.nodePath, '/')|..])
  }

  lemma PlacersArePoints(mountPoints: map<nat, MountPoint>, q: Path, s: StorageId)
    ensures |Placers(AllItems(mountPoints), q, s)| == |PlacersAt(mountPoints, q, s)|
  {
    hide Split;
    var items := Placers(AllItems(mountPoints), q, s);
    forall u | u in items
      ensures u.id in PlacersAt(mountPoints, q, s)
      ensures u == ItemOf(u.id, mountPoints[u.id].node, mountPoints[u.id].snapshot, q[|mountPoints[u.id].node|..])
    {
      var id, r :| id in mountPoints && r in mountPoints[id].snapshot.nodes && u == ItemOf(id, mountPoints[id].node, mountPoints[id].snapshot, r);
      OtherTails(mountPoints[id].node, r);
    }
    forall id | id in PlacersAt(mountPoints, q, s)
      ensures exists u :: u in items && u.id == id
    {
      var m := mountPoints[id];
      assert q == m.node + q[|m.node|..];
      assert ItemOf(id, m.node, m.snapshot, q[|m.node|..]) in items;
    }
    OnePerId(items, PlacersAt(mountPoints, q, s));
  }

  ghost predicate ShapeGrownTo(trees: map<string, Tree>, trees': map<string, Tree>, v: string, path: Path) {
    && trees'.Keys == trees.Keys + {v}
    && trees'[v].Keys == Grown(if v in trees then trees[v] else map[[] := None], path).Keys
    && forall w | w in trees && w != v :: trees'[w].Keys == trees[w].Keys
  }

  lemma SameNewShape(trees: map<string, Tree>, trees1: map<string, Tree>, trees2: map<string, Tree>, v: string, path: Path)
    requires ShapeGrownTo(trees, trees1, v, path) && SameShapes(trees1, trees2)
    ensures ShapeGrownTo(trees, trees2, v, path)
  {
  }

  lemma AllExact(a: map<nat, MountPoint>, mid: map<nat, MountPoint>, b: map<nat, MountPoint>,
                 trees: map<string, Tree>, volume: string, nodePath: string, id: nat)
    requires id !in a && SameMounts(a, mid) && UpToDate(trees, mid, volume, nodePath, {})
    requires id in b && b == mid[id := b[id]] && Exact(trees, b[id].snapshot)
    ensures SameMounts(a, b - {id}) && forall x | x in b :: Exact(trees, b[x].snapshot)
  {
    hide Exact;
    assert b - {id} == mid;
  }

  lemma CarryNoOther(id: nat, node: Path, snap: Snapshot, other: nat)
    ensures other != id ==> NoneOf(ItemsOf(id, node, snap), other)
    ensures forall uses :: NoneOf(uses, id) ==> uses !! ItemsOf(id, node, snap)
  {
  }

  lemma NotYet(nodes: Nodes, placed: set<Item>, mountPoints: map<nat, MountPoint>, volumeNodes: map<string, seq<Path>>, counter: nat)
    requires PointsOk(nodes, placed, mountPoints, volumeNodes, counter)
    ensures counter !in mountPoints && NoneOf(placed, counter)
  {
    ItemsIds(mountPoints, counter);
  }

  lemma PointsClosed(nodes: Nodes, placed: set<Item>, mountPoints: map<nat, MountPoint>, volumeNodes: map<string, seq<Path>>, counter: nat)
    requires PointsOk(nodes, placed, mountPoints, volumeNodes, counter)
    ensures Closed(nodes)
  {
  }

  /** The growth of a volume leaves behind only mount points above the new node. */
  lemma AfterGrowth(reg: Registry, uses: set<Item>, trees': map<string, Tree>, mountPoints: map<nat, MountPoint>,
                    volume: string, nodePath: string)
    requires RegOk(reg, uses, {}) && GrownTo(reg.trees, trees', volume, Split(nodePath, '/'))
    requires forall id | id in mountPoints :: Exact(reg.trees, mountPoints[id].snapshot) && NodeIn(reg.trees, mountPoints[id].snapshot)
    ensures UpToDate(trees', mountPoints, volume, nodePath, mountPoints.Keys)
    ensures ShapeGrownTo(reg.trees, trees', volume, Split(nodePath, '/'))
  {
    hide Split;
    forall id | id in mountPoints && !Behind(mountPoints[id].snapshot, volume, nodePath)
      ensures Exact(trees', mountPoints[id].snapshot)
    {
      var snap := mountPoints[id].snapshot;
      if snap.volume == volume {
        GrowthBelow(reg.trees[volume], Split(nodePath, '/'), Split(snap.nodePath, '/'));
        SameBelow(Grown(reg.trees[volume], Split(nodePath, '/')), trees'[volume], Split(snap.nodePath, '/'));
      }
    }
  }

  lemma SameBelow(a: Tree, b: Tree, at: Path)
    requires a.Keys == b.Keys
    ensures Below(a, at) == Below(b, at)
  {
    forall p
      ensures p in a <==> p in b
    {
      assert p in a <==> p in a.Keys;
      assert p in b <==> p in b.Keys;
    }
  }

  lemma SameShapesSelf(trees: map<string, Tree>)
    ensures SameShapes(trees, trees)
  {
  }

  lemma PointsLeft(nodes: Nodes, nodes': Nodes, volumeNodes: map<string, seq<Path>>, mountPoints: map<nat, MountPoint>)
    requires nodes'.Keys == nodes.Keys && forall id | id in mountPoints :: PointOk(nodes, volumeNodes, mountPoints[id])
    ensures forall id | id in mountPoints :: PointOk(nodes', volumeNodes, mountPoints[id])
  {
  }

  lemma {:induction false} ListedTimes(list: seq<Mounted>, i: nat)
    requires i < |list|
    ensures Times(list, list[i].storage) > 0
  {
    if i > 0 {
      ListedTimes(list[1..], i - 1);
    }
  }

  lemma PointAdded(nodes: Nodes, placed: set<Item>, mountPoints: map<nat, MountPoint>, volumeNodes: map<string, seq<Path>>,
                   id: nat, nodes': Nodes, placed': set<Item>, m: MountPoint)
    requires PointsOk(nodes, placed, mountPoints, volumeNodes, id)
    requires nodes.Keys <= nodes'.Keys && Closed(nodes') && placed' == placed + Items(id, m)
    requires m.node in nodes' && ':' !in m.snapshot.volume && [] in m.snapshot.nodes
    ensures var v := m.snapshot.volume;
      PointsOk(nodes', placed', mountPoints[id := m],
               volumeNodes[v := (if v in volumeNodes then volumeNodes[v] else []) + [m.node]], id + 1)
  {
    hide AllItems, Items, Closed;
    ItemsWith(mountPoints, id, m);
  }

  lemma WithNoPath(nodes: Nodes)
    requires [] in nodes
    ensures WithPath(nodes, []) == nodes
  {
  }

  function Rest(entries: seq<nat>, i: nat): set<nat>
    requires i <= |entries|
  {
    set j | i <= j < |entries| :: entries[j]
  }

  /** The mounted node is a proper ancestor of the new one. */
  predicate Behind(snap: Snapshot, volume: string, nodePath: string) {
    snap.volume == volume && Split(snap.nodePath, '/') < Split(nodePath, '/')
  }

  /** Only mount points in `left` that lie above the new node may miss nodes. */
  ghost predicate UpToDate(trees: map<string, Tree>, mountPoints: map<nat, MountPoint>, volume: string, nodePath: string, left: set<nat>) {
    forall id | id in mountPoints ::
      Exact(trees, mountPoints[id].snapshot) || (id in left && Behind(mountPoints[id].snapshot, volume, nodePath))
  }

  lemma SameMountsStep(a: map<nat, MountPoint>, b: map<nat, MountPoint>, c: map<nat, MountPoint>, id: nat)
    requires SameMounts(a, b) && id in b && id in c && c == b[id := b[id].(snapshot := c[id].snapshot)]
    requires SameSource(b[id].snapshot, c[id].snapshot)
    ensures SameMounts(a, c)
  {
  }

  lemma BehindIsCandidate(snap: Snapshot, volume: string, nodePath: string)
    requires Behind(snap, volume, nodePath)
    ensures Candidate(snap, volume, nodePath)
  {
    AncestorIsPrefix(snap.nodePath, nodePath);
    StartsWithIsWider();
  }

  lemma OnlyCandidates(trees: map<string, Tree>, mountPoints: map<nat, MountPoint>, volume: string, nodePath: string, entries: seq<nat>)
    requires UpToDate(trees, mountPoints, volume, nodePath, mountPoints.Keys)
    requires forall id | id in mountPoints && Candidate(mountPoints[id].snapshot, volume, nodePath) :: id in entries
    ensures UpToDate(trees, mountPoints, volume, nodePath, Rest(entries, 0))
    ensures SameMounts(mountPoints, mountPoints) && SameShapes(trees, trees)
  {
    hide Exact, Behind, Candidate;
    forall id | id in mountPoints && !Exact(trees, mountPoints[id].snapshot)
      ensures id in Rest(entries, 0)
    {
      BehindIsCandidate(mountPoints[id].snapshot, volume, nodePath);
    }
  }

  lemma RemountedOne(trees: map<string, Tree>, trees': map<string, Tree>, a: map<nat, MountPoint>, b: map<nat, MountPoint>,
                     volume: string, nodePath: string, id: nat, left: set<nat>, left': set<nat>)
    requires UpToDate(trees, a, volume, nodePath, left) && SameShapes(trees, trees') && left <= left' + {id}
    requires id in a && id in b && b == a[id := b[id]] && Exact(trees', b[id].snapshot)
    ensures UpToDate(trees', b, volume, nodePath, left')
  {
    hide Exact, SameShapes, Behind;
    forall x | x in b
      ensures Exact(trees', b[x].snapshot) || (x in left' && Behind(b[x].snapshot, volume, nodePath))
    {
      if x != id && Exact(trees, a[x].snapshot) {
        ExactSame(trees, trees', a[x].snapshot);
      }
    }
  }

  lemma PointIs(nodes: Nodes, placed: set<Item>, mountPoints: map<nat, MountPoint>,
                volumeNodes: map<string, seq<Path>>, counter: nat, id: nat)
    requires PointsOk(nodes, placed, mountPoints, volumeNodes, counter) && id in mountPoints
    ensures Items(id, mountPoints[id]) <= placed && NoneOf(placed - Items(id, mountPoints[id]), id)
    ensures mountPoints[id].node in nodes && ':' !in mountPoints[id].snapshot.volume && Closed(nodes)
  {
    ItemsWithout(mountPoints, id);
    ItemsIds(mountPoints, id);
  }

  lemma PointReplaced(nodes: Nodes, placed: set<Item>, mountPoints: map<nat, MountPoint>,
                      volumeNodes: map<string, seq<Path>>, counter: nat,
                      nodes': Nodes, placed': set<Item>, id: nat, m': MountPoint)
    requires PointsOk(nodes, placed, mountPoints, volumeNodes, counter) && id in mountPoints
    requires nodes.Keys <= nodes'.Keys && Closed(nodes') && placed' == placed - Items(id, mountPoints[id]) + Items(id, m')
    requires m' == mountPoints[id].(snapshot := m'.snapshot)
    requires SameSource(mountPoints[id].snapshot, m'.snapshot) && [] in m'.snapshot.nodes
    ensures PointsOk(nodes', placed', mountPoints[id := m'], volumeNodes, counter)
  {
    hide AllItems, Items, Closed;
    ItemsWith(mountPoints, id, m');
  }

  lemma PlacedIds(nodes: Nodes, placed: set<Item>, mountPoints: map<nat, MountPoint>, volumeNodes: map<string, seq<Path>>, counter: nat)
    requires PointsOk(nodes, placed, mountPoints, volumeNodes, counter)
    ensures counter !in mountPoints && forall u | u in placed :: u.id in mountPoints
  {
  }

  lemma PlacedAre(nodes: Nodes, placed: set<Item>, mountPoints: map<nat, MountPoint>, volumeNodes: map<string, seq<Path>>, counter: nat)
    requires PointsOk(nodes, placed, mountPoints, volumeNodes, counter)
    ensures placed == AllItems(mountPoints)
  {
  }

  lemma ListsSorted(nodes: Nodes, placed: set<Item>)
    requires ListsOk(nodes, placed)
    ensures forall q | q in nodes :: Sorted(nodes[q])
  {
    hide Sorted, Times;
    forall q | q in nodes
      ensures Sorted(nodes[q])
    {
      assert ListOk(nodes[q], placed, q);
    }
  }

  lemma ListIsSorted(list: seq<Mounted>, placed: set<Item>, q: Path)
    requires ListOk(list, placed, q)
    ensures Sorted(list)
  {
  }

  lemma SameShapesBack(a: map<string, Tree>, b: map<string, Tree>)
    requires SameShapes(a, b)
    ensures SameShapes(b, a)
  {
  }

  lemma NoRemounts(trees: map<string, Tree>, a: Overlay)
    ensures Remounts(trees, a, [], a)
  {
  }

  lemma RemountsMore(trees: map<string, Tree>, now: map<string, Tree>, a: Overlay, order: seq<nat>, i: nat, b: Overlay, c: Overlay)
    requires i < |order| && Remounts(trees, a, order[..i], b) && Anew(now, b, order[i], c) && SameShapes(trees, now)
    ensures Remounts(trees, a, order[..i + 1], c)
  {
    hide Consistent, Exact;
    SameShapesBack(trees, now);
    ExactSame(now, trees, c.points[order[i]].snapshot);
    assert order[..i + 1][..i] == order[..i] && order[..i + 1][i] == order[i];
    assert Anew(trees, b, order[i], c);
  }

  /** A growing volume keeps the nodes of the mount points. */
  lemma SoundGrown(trees: map<string, Tree>, trees': map<string, Tree>, a: Overlay, v: string, path: Path)
    requires a.Sound(trees) && ShapeGrownTo(trees, trees', v, path)
    ensures a.Sound(trees')
  {
    hide Consistent, RootsShown, Split;
    forall id | id in a.points
      ensures NodeIn(trees', a.points[id].snapshot)
    {
      assert NodeIn(trees, a.points[id].snapshot);
    }
  }

  lemma NodeStays(trees: map<string, Tree>, trees': map<string, Tree>, snap: Snapshot)
    requires NodeIn(trees, snap) && SameShapes(trees, trees')
    ensures NodeIn(trees', snap)
  {
  }

  lemma ItemsCarry(id: nat, m: MountPoint)
    ensures forall u | u in Items(id, m) :: u.id == id
  {
  }

  lemma ItemsIds(mountPoints: map<nat, MountPoint>, id: nat)
    ensures id in mountPoints ==> NoneOf(AllItems(mountPoints) - Items(id, mountPoints[id]), id)
    ensures id !in mountPoints ==> NoneOf(AllItems(mountPoints), id)
  {
    if id in mountPoints {
      ItemsOfOne(mountPoints, id);
    }
  }

  lemma ItemsWith(mountPoints: map<nat, MountPoint>, id: nat, m: MountPoint)
    ensures AllItems(mountPoints[id := m])
         == (if id in mountPoints then AllItems(mountPoints) - Items(id, mountPoints[id]) else AllItems(mountPoints)) + Items(id, m)
    ensures id in mountPoints ==> Items(id, mountPoints[id]) <= AllItems(mountPoints)
  {
    var next := mountPoints[id := m];
    forall u
      ensures u in AllItems(next) <==> (u in AllItems(mountPoints) && u.id != id) || u in Items(id, m)
    {
      if u in AllItems(next) {
        var i, r :| i in next && r in next[i].snapshot.nodes && u == ItemOf(i, next[i].node, next[i].snapshot, r);
        assert i != id ==> i in mountPoints && mountPoints[i] == next[i];
      }
      if u in AllItems(mountPoints) && u.id != id {
        var i, r :| i in mountPoints && r in mountPoints[i].snapshot.nodes && u == ItemOf(i, mountPoints[i].node, mountPoints[i].snapshot, r);
        assert next[i] == mountPoints[i];
      }
      if u in Items(id, m) {
        var r :| r in m.snapshot.nodes && u == ItemOf(id, m.node, m.snapshot, r);
        assert next[id] == m;
      }
    }
    if id in mountPoints {
      ItemsOfOne(mountPoints, id);
    }
  }

  lemma ItemsWithout(mountPoints: map<nat, MountPoint>, id: nat)
    requires id in mountPoints
    ensures AllItems(mountPoints - {id}) == AllItems(mountPoints) - Items(id, mountPoints[id])
    ensures Items(id, mountPoints[id]) <= AllItems(mountPoints)
  {
    var next := mountPoints - {id};
    ItemsOfOne(mountPoints, id);
    forall u
      ensures u in AllItems(next) <==> u in AllItems(mountPoints) && u.id != id
    {
      if u in AllItems(next) {
        var i, r :| i in next && r in next[i].snapshot.nodes && u == ItemOf(i, next[i].node, next[i].snapshot, r);
        assert i in mountPoints && mountPoints[i] == next[i];
      }
      if u in AllItems(mountPoints) && u.id != id {
        var i, r :| i in mountPoints && r in mountPoints[i].snapshot.nodes && u == ItemOf(i, mountPoints[i].node, mountPoints[i].snapshot, r);
        assert i in next && next[i] == mountPoints[i];
      }
    }
  }

  lemma ExactSame(trees: map<string, Tree>, trees': map<string, Tree>, snap: Snapshot)
    requires Exact(trees, snap) && SameShapes(trees, trees')
    ensures Exact(trees', snap)
  {
    var tree, tree', at := trees[snap.volume], trees'[snap.volume], Split(snap.nodePath, '/');
    forall r
      ensures r in Below(tree, at) <==> r in Below(tree', at)
    {
      BelowIs(tree, at, r);
      BelowIs(tree', at, r);
    }
  }

  /** The node of a live mount point is there. */
  lemma NodeMounted(reg: Registry, uses: set<Item>, id: nat, m: MountPoint)
    requires RegOk(reg, uses, {}) && Items(id, m) <= uses && [] in m.snapshot.nodes
    ensures NodeIn(reg.trees, m.snapshot)
  {
    var u := ItemOf(id, m.node, m.snapshot, []);
    assert u in Items(id, m);
    assert UseOk(reg, u);
    assert Split(m.snapshot.nodePath, '/') + [] == Split(m.snapshot.nodePath, '/');
  }

  lemma UnmountedIs(nodes: Nodes, m: MountPoint)
    ensures UnmountedPart(nodes, m, m.snapshot.nodes.Keys).Keys == nodes.Keys
    ensures Closed(nodes) ==> Closed(UnmountedPart(nodes, m, m.snapshot.nodes.Keys))
  {
  }

  lemma MountedKeys(nodes: Nodes, m: MountPoint)
    ensures nodes.Keys <= MountedPart(nodes, m, m.snapshot.nodes.Keys).Keys
  {
  }

  lemma SnapshotIsClosed(reg: Registry, uses: set<Item>, snap: Snapshot)
    requires RegOk(reg, uses, {}) && Exact(reg.trees, snap)
    ensures SnapshotClosed(snap)
  {
    ExactIsClosed(reg.trees, snap);
  }

  lemma NoneDone(id: nat, m: MountPoint)
    ensures DoneItems(id, m.node, m.snapshot, m.snapshot.nodes.Keys) == {}
  {
  }

  lemma {:induction false} AncestorsIn(nodes: Nodes, path: Path, k: nat)
    requires Closed(nodes) && k <= |path|
    ensures path in nodes ==> path[..k] in nodes
    decreases |path|
  {
    if k < |path| && path in nodes {
      AncestorsIn(nodes, path[..|path| - 1], k);
      assert path[..|path| - 1][..k] == path[..k];
    } else {
      assert k == |path| ==> path[..k] == path;
    }
  }

  lemma UnmountedKeys(nodes: Nodes, m: MountPoint, done: set<Path>)
    ensures UnmountedPart(nodes, m, done).Keys == nodes.Keys
  {
  }

  lemma MountedNothing(nodes: Nodes, m: MountPoint)
    ensures MountedPart(nodes, m, {}) == nodes && UnmountedPart(nodes, m, {}) == nodes
  {
  }

  // ---- A mount that takes another mount point's entry --------------------------------------

  lemma OneName(a: string)
    requires '/' !in a
    ensures Split(a, '/') == [a]
  {
    SplitJoin([a], '/');
  }

  lemma TwoNames(a: string, b: string)
    requires '/' !in a && '/' !in b
    ensures Split(a + "/" + b, '/') == [a, b]
  {
    assert [a, b][1..] == [b];
    SplitJoin([a, b], '/');
  }

  /** Mount point `m` mounts `d/e` at `m/e`, and the other one `d` at `m`. */
  ghost predicate Overlaid(points: map<nat, MountPoint>, high: nat, low: nat) {
    && points.Keys == {high, low} && high != low
    && IsMount(points[high], "d/e", "m/e", 5) && IsMount(points[low], "d", "m", 1)
  }

  ghost predicate IsMount(m: MountPoint, nodePath: string, at: string, priority: int) {
    m.snapshot.volume == "v" && m.snapshot.nodePath == nodePath && m.node == Split(at, '/') && m.priority == priority
  }

  lemma NoCandidates(points: map<nat, MountPoint>, high: nat)
    requires points.Keys <= {high} && forall id | id in points :: points[id].snapshot.nodePath == "d/e"
    ensures NoneOutranked(points, "v", "d/e") && NoneOutranked(points, "v", "d")
  {
  }

  lemma OverlaidClash(points: map<nat, MountPoint>, high: nat, low: nat)
    requires Overlaid(points, high, low)
    ensures OnlyCandidate(points, low, "v", "d/f") && Outranked(points, low)
  {
    TwoNames("d", "e");
    TwoNames("m", "e");
    OneName("d");
    OneName("m");
    assert "d" + "/" + "e" == "d/e" && "m" + "/" + "e" == "m/e";
    assert "d/f"[..3] != "d/e" by {
      assert "d/f"[2] != "d/e"[2];
    }
    assert "d/f"[..1] == "d";
    assert !Candidate(points[high].snapshot, "v", "d/f") && Candidate(points[low].snapshot, "v", "d/f");
    assert ["m"] <= ["m", "e"] && ["m", "e"][1..] == ["e"] == ["d", "e"][1..];
    assert Above(points[low], points[high]);
    assert Overlap(points[high], points[low]);
  }

  method OverlaidMounts() returns (vs: VirtualStorage, high: nat, low: nat)
    ensures fresh(vs) && fresh(vs.registry) && fresh(vs.registry.volumes.Values)
    ensures vs.Valid() && vs.PrioritiesKept() && Overlaid(vs.mountPoints, high, low)
  {
    hide VirtualStorage.Valid, VirtualStorage.PrioritiesKept, NoneOutranked, OnlyCandidate, Outranked, Split, ShapeGrownTo,
         MountedOn, Remounts, LinearHashStorageRegistry.State;
    vs := new VirtualStorage();
    NoCandidates(vs.mountPoints, 0);
    ghost var order, remounted;
    high, order, remounted := vs.Mount("v", "d/e", "m/e", 5);
    ghost var first := vs.mountPoints;
    assert first.Keys == (first - {high}).Keys + {high};
    NoCandidates(first, high);
    low, order, remounted := vs.Mount("v", "d", "m", 1);
    assert vs.mountPoints.Keys == (vs.mountPoints - {low}).Keys + {low};
  }

  /** `d/e` is mounted at `m/e` with priority 5, and then `d` at `m` with priority 1.  Mounting the new node
      `d/f` somewhere else mounts `d` anew, which takes the entry of priority 5 off the list of `m/e`. */
  method MountTakesAnotherEntry() returns (vs: VirtualStorage, ghost before: bool)
    ensures fresh(vs) && vs.Valid() && before && !vs.PrioritiesKept()
  {
    hide VirtualStorage.Valid, VirtualStorage.PrioritiesKept, NoneOutranked, OnlyCandidate, Outranked, Split, ShapeGrownTo,
         MountedOn, Remounts, LinearHashStorageRegistry.State;
    var high, low;
    vs, high, low := OverlaidMounts();
    before := vs.PrioritiesKept();
    OverlaidClash(vs.mountPoints, high, low);
    var id; ghost var order, remounted;
    id, order, remounted := vs.Mount("v", "d/f", "x", 0);
  }
}
