/** Volumes and the registry that shares and counts their storages. */
module StorageRegistry {
  import opened Options
  import opened Paths
  import opened RegistryModel

  /** The subtree that a load returns: the storages by their path from the loaded node. */
  datatype Snapshot = Snapshot(volume: string, nodePath: string, nodes: map<Path, StorageId>)

  function SnapshotOf(tree: Tree, volume: string, nodePath: string): Snapshot {
    var at := Split(nodePath, '/');
    Snapshot(volume, nodePath, map r | r in Below(tree, at) && at + r in tree && tree[at + r].Some? :: tree[at + r].value)
  }

  /** What a snapshot uses when mount point `id` mounts it to `where`. */
  function ItemOf(id: nat, where: Path, snap: Snapshot, r: Path): Item
    requires r in snap.nodes
  {
    Item(id, snap.volume, Split(snap.nodePath, '/') + r, where + r, snap.nodes[r])
  }

  function ItemsOf(id: nat, where: Path, snap: Snapshot): set<Item> {
    set r | r in snap.nodes :: ItemOf(id, where, snap, r)
  }

  class LinearHashVolume {
    const filepath: string
    var nodes: Tree

    constructor (filepath: string)
      ensures this.filepath == filepath && nodes == map[[] := None]
    {
      this.filepath := filepath;
      nodes := map[[] := None];
    }

    /** `findTreeNode`: nodes are created on demand. */
    method FindTreeNode(path: string) returns (node: Path)
      requires [] in nodes
      modifies this
      ensures node == Split(path, '/') && nodes == Grown(old(nodes), node)
    {
      var comps := SplitString(path, '/');
      node := [];
      GrowNone(nodes);
      var i := 0;
      while i < |comps|
        invariant i <= |comps| && node == comps[..i]
        invariant nodes == Grown(old(nodes), node)
      {
        var child := node + [comps[i]];
        assert child == comps[..i + 1];
        GrowOne(old(nodes), node, comps[i]);
        if child !in nodes {
          nodes := nodes[child := None];
        }
        node := child;
        i := i + 1;
      }
      assert comps[..|comps|] == comps;
    }

    /** `loadStorage`: a storage for every node of the subtree, and the subtree as a snapshot. */
    method LoadStorage(path: string, load: nat) returns (snap: Snapshot)
      requires [] in nodes
      modifies this
      ensures nodes == LoadedTree(Grown(old(nodes), Split(path, '/')), filepath, Split(path, '/'), load)
      ensures snap == SnapshotOf(nodes, filepath, path)
    {
      var at := FindTreeNode(path);
      ghost var grown := nodes;
      var subtree: map<Path, StorageId> := map[];
      var todo := set p | p in nodes && at <= p;
      while todo != {}
        invariant Partly(nodes, subtree, grown, filepath, at, load, todo)
        decreases todo
      {
        var p :| p in todo;
        assert todo == todo - {p} + {p};
        todo := todo - {p};
        PartlyOneMore(nodes, subtree, grown, filepath, at, load, todo, p);
        if nodes[p].None? {
          nodes := nodes[p := Some(StorageId(filepath, p, load))];
        }
        subtree := subtree[p[|at|..] := nodes[p].value];
      }
      assert nodes == LoadedTree(grown, filepath, at, load);
      snap := Snapshot(filepath, path, subtree);
      LoadedSnapshot(nodes, filepath, path, subtree);
    }

    /** `unloadStorage`. */
    method UnloadStorage(path: string)
      requires [] in nodes
      modifies this
      ensures nodes == Grown(old(nodes), Split(path, '/'))[Split(path, '/') := None]
    {
      var at := FindTreeNode(path);
      nodes := nodes[at := None];
    }
  }

  /** The state of the load when the nodes `todo` are still to be visited. */
  ghost predicate Partly(nodes: Tree, subtree: map<Path, StorageId>, grown: Tree, v: string, at: Path, load: nat, todo: set<Path>) {
    && (forall p | p in todo :: p in grown && at <= p)
    && nodes == (map p | p in grown :: if p in todo then grown[p] else LoadedTree(grown, v, at, load)[p])
    && subtree.Keys == (set p | p in grown && at <= p && p !in todo :: p[|at|..])
    && forall p | p in grown && at <= p && p !in todo ::
         p[|at|..] in subtree && Some(subtree[p[|at|..]]) == LoadedTree(grown, v, at, load)[p]
  }

  lemma PartlyOneMore(nodes: Tree, subtree: map<Path, StorageId>, grown: Tree, v: string, at: Path, load: nat, todo: set<Path>, p: Path)
    requires p !in todo && Partly(nodes, subtree, grown, v, at, load, todo + {p})
    ensures p in nodes && at <= p
    ensures var nodes' := if nodes[p].None? then nodes[p := Some(StorageId(v, p, load))] else nodes;
      && nodes'[p].Some?
      && Partly(nodes', subtree[p[|at|..] := nodes'[p].value], grown, v, at, load, todo)
  {
    TailsDiffer(at, p);
    TailsOneMore(grown, at, todo, p);
  }

  lemma TailsOneMore(grown: Tree, at: Path, todo: set<Path>, p: Path)
    requires p !in todo && p in grown && at <= p
    ensures (set q | q in grown && at <= q && q !in todo :: q[|at|..])
         == (set q | q in grown && at <= q && q !in todo + {p} :: q[|at|..]) + {p[|at|..]}
  {
    var before, after := (set q | q in grown && at <= q && q !in todo + {p} :: q[|at|..]),
                         (set q | q in grown && at <= q && q !in todo :: q[|at|..]);
    forall r | r in after
      ensures r in before + {p[|at|..]}
    {
      var q :| q in grown && at <= q && q !in todo && q[|at|..] == r;
      assert q != p ==> q !in todo + {p};
    }
  }

  lemma GrowNone(tree: Tree)
    requires [] in tree
    ensures Grown(tree, []) == tree
  {
  }

  lemma GrowOne(tree: Tree, node: Path, comp: string)
    requires [] in tree
    ensures Grown(tree, node + [comp])
         == if node + [comp] in Grown(tree, node) then Grown(tree, node) else Grown(tree, node)[node + [comp] := None]
  {
    var child := node + [comp];
    var small, big := set k | 0 <= k <= |node| :: node[..k], set k | 0 <= k <= |child| :: child[..k];
    assert big == small + {child} by {
      forall k | 0 <= k <= |child|
        ensures child[..k] in small + {child}
      {
        assert k <= |node| ==> child[..k] == node[..k];
        assert k == |child| ==> child[..k] == child;
      }
      forall k | 0 <= k <= |node|
        ensures node[..k] in big
      {
        assert child[..k] == node[..k];
      }
      assert child[..|child|] == child;
    }
  }

  lemma TailsDiffer(at: Path, p: Path)
    requires at <= p
    ensures forall q: Path | at <= q && q[|at|..] == p[|at|..] :: q == p
  {
    forall q: Path | at <= q && q[|at|..] == p[|at|..]
      ensures q == p
    {
      assert q == at + q[|at|..] && p == at + p[|at|..];
    }
  }

  lemma LoadedSnapshot(tree: Tree, volume: string, path: string, subtree: map<Path, StorageId>)
    requires var at := Split(path, '/');
      && subtree.Keys == (set p | p in tree && at <= p :: p[|at|..])
      && forall p | p in tree && at <= p :: p[|at|..] in subtree && Some(subtree[p[|at|..]]) == tree[p]
    ensures Snapshot(volume, path, subtree) == SnapshotOf(tree, volume, path)
  {
    hide Split;
    var at := Split(path, '/');
    var snap := SnapshotOf(tree, volume, path);
    forall r | r in subtree
      ensures r in snap.nodes && snap.nodes[r] == subtree[r]
    {
      var p :| p in tree && at <= p && p[|at|..] == r;
      assert p == at + r;
    }
    assert subtree == snap.nodes;
  }

  lemma SnapshotItem(tree: Tree, snap: Snapshot, r: Path)
    requires snap == SnapshotOf(tree, snap.volume, snap.nodePath) && r in snap.nodes
    ensures var p := Split(snap.nodePath, '/') + r; p != [] && p in tree && tree[p] == Some(snap.nodes[r])
  {
  }

  lemma SnapshotNames(tree: Tree, volume: string, path: string)
    ensures SnapshotOf(tree, volume, path).volume == volume && SnapshotOf(tree, volume, path).nodePath == path
  {
  }

  /** The nodes of a snapshot that have been counted, and those loaded that have not, while `todo` remain. */
  function DoneItems(id: nat, at: Path, snap: Snapshot, todo: set<Path>): set<Item> {
    set r | r in snap.nodes && r !in todo :: ItemOf(id, at, snap, r)
  }

  function Waiting(pending: set<(string, Path)>, base: Path, todo: set<Path>): set<(string, Path)> {
    set x | x in pending && base <= x.1 && x.1[|base|..] in todo
  }

  lemma AllWaiting(tree: Tree, snap: Snapshot, pending: set<(string, Path)>, id: nat, at: Path)
    requires snap == SnapshotOf(tree, snap.volume, snap.nodePath)
    requires forall x | x in pending :: Split(snap.nodePath, '/') <= x.1 && x.1 in tree && tree[x.1].Some?
    ensures Waiting(pending, Split(snap.nodePath, '/'), snap.nodes.Keys) == pending
    ensures DoneItems(id, at, snap, snap.nodes.Keys) == {}
  {
    hide Split;
    var base := Split(snap.nodePath, '/');
    forall x | x in pending
      ensures x.1[|base|..] in snap.nodes
    {
      assert x.1 == base + x.1[|base|..];
    }
  }

  lemma NoneWaiting(pending: set<(string, Path)>, base: Path, id: nat, at: Path, snap: Snapshot)
    ensures Waiting(pending, base, {}) == {} && DoneItems(id, at, snap, {}) == ItemsOf(id, at, snap)
  {
  }

  lemma DoneOneMore(id: nat, at: Path, snap: Snapshot, todo: set<Path>, r: Path)
    requires r in snap.nodes && r in todo
    ensures ItemOf(id, at, snap, r) !in DoneItems(id, at, snap, todo) && ItemOf(id, at, snap, r).id == id
    ensures DoneItems(id, at, snap, todo - {r}) == DoneItems(id, at, snap, todo) + {ItemOf(id, at, snap, r)}
  {
    forall q | q in snap.nodes && q !in todo
      ensures ItemOf(id, at, snap, q) != ItemOf(id, at, snap, r)
    {
      assert (at + q)[|at|..] == q && (at + r)[|at|..] == r;
    }
  }

  lemma WaitingOneLess(v: string, pending: set<(string, Path)>, base: Path, todo: set<Path>, r: Path)
    requires forall x | x in pending :: x.0 == v
    ensures Waiting(pending, base, todo - {r}) == Waiting(pending, base, todo) - {(v, base + r)}
  {
    assert (base + r)[|base|..] == r;
    forall x | x in pending && base <= x.1 && x.1[|base|..] == r
      ensures x.1 == base + r
    {
    }
  }

  /** The snapshot has exactly the nodes that the volume has at and below the loaded one. */
  predicate Exact(trees: map<string, Tree>, snap: Snapshot) {
    snap.volume in trees && snap.nodes.Keys == Below(trees[snap.volume], Split(snap.nodePath, '/'))
  }

  lemma LoadedExact(reg: Registry, v: string, path: string)
    requires v in reg.trees
    requires Split(path, '/') in Loaded(reg, v, Split(path, '/')).trees[v]
    ensures var d := Loaded(reg, v, Split(path, '/'));
      Exact(d.trees, SnapshotOf(d.trees[v], v, path)) && [] in SnapshotOf(d.trees[v], v, path).nodes
  {
    hide Grown, Split;
    var at := Split(path, '/');
    assert at + [] == at;
    BelowIs(Loaded(reg, v, at).trees[v], at, []);
    var tree := Loaded(reg, v, at).trees[v];
    forall r | r in Below(tree, at)
      ensures at + r in tree && tree[at + r].Some?
    {
      BelowIs(tree, at, r);
    }
  }

  /** The volumes have the same nodes. */
  ghost predicate SameShapes(trees: map<string, Tree>, trees': map<string, Tree>) {
    trees'.Keys == trees.Keys && forall v | v in trees :: trees'[v].Keys == trees[v].Keys
  }

  /** Volume `v` has grown to `path`, the others are as they were. */
  ghost predicate GrownTo(trees: map<string, Tree>, trees': map<string, Tree>, v: string, path: Path) {
    && trees'.Keys == trees.Keys + {v}
    && trees'[v].Keys == Grown(if v in trees then trees[v] else map[[] := None], path).Keys
    && forall w | w in trees && w != v :: trees'[w] == trees[w]
  }

  class LinearHashStorageRegistry {
    var volumes: map<string, LinearHashVolume>
    var counters: map<string, (StorageId, int)>
    var keys: map<StorageId, string>
    var loads: nat
    ghost var uses: set<Item>

    ghost function State(): Registry
      reads this, volumes.Values
    {
      Registry(map v | v in volumes :: volumes[v].nodes, counters, keys, loads)
    }

    ghost predicate Valid()
      reads this, volumes.Values
    {
      && (forall v | v in volumes :: volumes[v].filepath == v)
      && RegOk(State(), uses, {})
    }

    lemma ValidIs()
      requires Valid()
      ensures RegOk(State(), uses, {})
    {
    }

    constructor ()
      ensures Valid() && uses == {} && volumes == map[]
    {
      volumes, counters, keys, loads := map[], map[], map[], 0;
      uses := {};
    }

    /** `acquireStorage`: the storages at and below a node of a volume, counted once more each. */
    method AcquireStorage(volumePath: string, nodePath: string, ghost id: nat, ghost at: Path) returns (snap: Snapshot)
      requires Valid() && ':' !in volumePath && forall u | u in uses :: u.id != id
      modifies this, volumes.Values
      ensures Valid() && uses == old(uses) + ItemsOf(id, at, snap)
      ensures fresh(volumes.Values - old(volumes.Values))
      ensures volumePath in volumes && snap == SnapshotOf(volumes[volumePath].nodes, volumePath, nodePath)
      ensures snap.volume == volumePath && snap.nodePath == nodePath && Exact(State().trees, snap) && [] in snap.nodes
      ensures GrownTo(old(State()).trees, State().trees, volumePath, Split(nodePath, '/'))
    {
      hide RegOk, SnapshotOf, ItemsOf, Exact, GrownTo, Split;
      ghost var pending;
      snap, pending := LoadFrom(volumePath, nodePath);
      CountAll(snap, id, at, pending);
    }

    /** The part of `acquireStorage` that finds or adds the volume and loads the subtree; `pending` is what
        is loaded and not yet counted. */
    method LoadFrom(volumePath: string, nodePath: string) returns (snap: Snapshot, ghost pending: set<(string, Path)>)
      requires Valid() && ':' !in volumePath
      modifies this`volumes, this`loads, volumes.Values
      ensures (forall v | v in volumes :: volumes[v].filepath == v) && RegOk(State(), uses, pending)
      ensures fresh(volumes.Values - old(volumes.Values))
      ensures volumePath in volumes && snap == SnapshotOf(volumes[volumePath].nodes, volumePath, nodePath)
      ensures snap.volume == volumePath && snap.nodePath == nodePath && Exact(State().trees, snap) && [] in snap.nodes
      ensures GrownTo(old(State()).trees, State().trees, volumePath, Split(nodePath, '/'))
      ensures forall x | x in pending :: x.0 == volumePath && Split(nodePath, '/') <= x.1
                && x.1 in volumes[volumePath].nodes && volumes[volumePath].nodes[x.1].Some?
    {
      hide RegOk, Grown, LoadedTree, NewlyLoaded, SnapshotOf, Loaded, Exact, GrownTo, Split;
      ghost var start := State();
      if volumePath !in volumes {
        AddVolume(volumePath);
      }
      ghost var before, base := State(), Split(nodePath, '/');
      HasRoot(before, uses, volumePath);
      snap := LoadVolume(volumePath, nodePath);
      LoadedOk(before, uses, volumePath, base);
      LoadedGrows(start, before, volumePath, base);
      LoadedExact(before, volumePath, nodePath);
      pending := NewlyLoaded(before.trees[volumePath], volumePath, base);
    }

    method LoadVolume(volumePath: string, nodePath: string) returns (snap: Snapshot)
      requires (forall v | v in volumes :: volumes[v].filepath == v) && volumePath in volumes
      requires [] in volumes[volumePath].nodes
      modifies this`loads, volumes.Values
      ensures State() == Loaded(old(State()), volumePath, Split(nodePath, '/'))
      ensures snap == SnapshotOf(volumes[volumePath].nodes, volumePath, nodePath)
      ensures snap.volume == volumePath && snap.nodePath == nodePath
    {
      hide Grown, Split, LoadedTree, SnapshotOf;
      ghost var start := State();
      var volume := volumes[volumePath];
      snap := volume.LoadStorage(nodePath, loads);
      loads := loads + 1;
      assert State() == Loaded(start, volumePath, Split(nodePath, '/'));
      SnapshotNames(volume.nodes, volumePath, nodePath);
    }

    method AddVolume(volumePath: string)
      requires Valid() && ':' !in volumePath && volumePath !in volumes
      modifies this`volumes
      ensures Valid() && State() == old(State()).(trees := old(State()).trees[volumePath := map[[] := None]])
      ensures volumes.Keys == old(volumes.Keys) + {volumePath} && fresh(volumes[volumePath])
      ensures forall v | v in old(volumes) :: volumes[v] == old(volumes)[v]
    {
      hide RegOk;
      NewVolumeOk(State(), uses, volumePath);
      ghost var start := State();
      var volume := new LinearHashVolume(volumePath);
      volumes := volumes[volumePath := volume];
      forall v | v in start.trees
        ensures v in volumes && v != volumePath && volumes[v].nodes == start.trees[v]
      {
      }
      assert State().trees == start.trees[volumePath := map[[] := None]];
    }

    /** The recursion of `acquireStorage` over the nodes of the subtree. */
    method CountAll(snap: Snapshot, ghost id: nat, ghost at: Path, ghost pending: set<(string, Path)>)
      requires RegOk(State(), uses, pending) && forall u | u in uses :: u.id != id
      requires snap.volume in volumes && snap == SnapshotOf(volumes[snap.volume].nodes, snap.volume, snap.nodePath)
      requires forall x | x in pending :: x.0 == snap.volume && Split(snap.nodePath, '/') <= x.1
                 && x.1 in volumes[snap.volume].nodes && volumes[snap.volume].nodes[x.1].Some?
      modifies this`counters, this`keys, this`uses
      ensures RegOk(State(), uses, {}) && uses == old(uses) + ItemsOf(id, at, snap)
      ensures State().trees == old(State()).trees
    {
      hide RegOk, Counted, DoneItems, Waiting, SnapshotOf, Split, ItemsOf;
      ghost var trees, start := State().trees, uses;
      var base := Split(snap.nodePath, '/');
      var todo := snap.nodes.Keys;
      AllWaiting(trees[snap.volume], snap, pending, id, at);
      while todo != {}
        invariant todo <= snap.nodes.Keys && State().trees == trees
        invariant RegOk(State(), uses, Waiting(pending, base, todo))
        invariant uses == start + DoneItems(id, at, snap, todo)
        decreases todo
      {
        var r :| r in todo;
        ghost var u := ItemOf(id, at, snap, r);
        SnapshotItem(trees[snap.volume], snap, r);
        DoneOneMore(id, at, snap, todo, r);
        WaitingOneLess(snap.volume, pending, base, todo, r);
        CountedOk(State(), uses, Waiting(pending, base, todo), u);
        CountOne(snap.volume, base + r, snap.nodes[r]);
        ghost var counted := State();
        uses := uses + {u};
        assert State() == counted;
        todo := todo - {r};
      }
      NoneWaiting(pending, base, id, at, snap);
    }

    /** The counter of one node. */
    method CountOne(volumePath: string, path: Path, storage: StorageId)
      modifies this`counters, this`keys
      ensures State() == Counted(old(State()), volumePath, path, storage) && State().trees == old(State()).trees
    {
      var key := volumePath + ":" + Join(path, '/');
      if key !in counters {
        counters := counters[key := (storage, 0)];
        keys := keys[storage := key];
      }
      counters := counters[key := (counters[key].0, counters[key].1 + 1)];
    }

    /** `releaseStorage`: a storage that is no longer counted is unloaded. */
    method ReleaseStorage(storage: StorageId, ghost u: Item) returns (ok: bool)
      requires Valid() && (storage in keys ==> u in uses && u.storage == storage)
      modifies this`counters, this`keys, this`uses, volumes.Values
      ensures Valid() && (ok <==> storage in old(keys))
      ensures u in old(uses) && u.storage == storage ==> ok
      ensures !ok ==> State() == old(State()) && uses == old(uses)
      ensures ok ==> State() == Released(old(State()), storage) && uses == old(uses) - {u}
      ensures SameShapes(old(State()).trees, State().trees)
    {
      hide RegOk, Released;
      ghost var start := State();
      if u in uses {
        ReleasedParts(start, uses, u);
      }
      if storage !in keys {
        return false;
      }
      ReleasedOk(start, uses, u);
      ReleasedParts(start, uses, u);
      Uncount(storage);
      uses := uses - {u};
      assert State() == Released(start, storage);
      return true;
    }

    method Uncount(storage: StorageId)
      requires (forall v | v in volumes :: volumes[v].filepath == v) && storage in keys && keys[storage] in counters
      requires var key := keys[storage]; FirstColon(key) < |key| && VolumeOf(key) in volumes && [] in volumes[VolumeOf(key)].nodes
      modifies this`counters, this`keys, volumes.Values
      ensures State() == Released(old(State()), storage)
    {
      hide Grown, FirstColon, Split;
      var key := keys[storage];
      var (s, n) := counters[key];
      if n - 1 == 0 {
        var delimPos := FirstColon(key);
        Unload(key[..delimPos], key[delimPos + 1..]);
        keys := keys - {storage};
        counters := counters - {key};
      } else {
        counters := counters[key := (s, n - 1)];
      }
    }

    method Unload(volumePath: string, nodePath: string)
      requires (forall v | v in volumes :: volumes[v].filepath == v) && volumePath in volumes
      requires [] in volumes[volumePath].nodes
      modifies volumes.Values
      ensures State() == Unloaded(old(State()), volumePath, Split(nodePath, '/'))
    {
      hide Grown, Split;
      ghost var start := State();
      var volume := volumes[volumePath];
      volume.UnloadStorage(nodePath);
      assert State() == Unloaded(start, volumePath, Split(nodePath, '/'));
    }
  }

  lemma SameShapesTransitive(a: map<string, Tree>, b: map<string, Tree>, c: map<string, Tree>)
    requires SameShapes(a, b) && SameShapes(b, c)
    ensures SameShapes(a, c)
  {
  }

  /** Acquiring what is there already grows nothing. */
  lemma GrownToItself(reg: Registry, uses: set<Item>, trees': map<string, Tree>, v: string, at: Path)
    requires RegOk(reg, uses, {}) && v in reg.trees && at in reg.trees[v] && Plain(at, '/')
    requires GrownTo(reg.trees, trees', v, at)
    ensures SameShapes(reg.trees, trees')
  {
    GrownOk(reg.trees[v], at);
  }

  lemma HasRoot(reg: Registry, uses: set<Item>, v: string)
    requires RegOk(reg, uses, {}) && v in reg.trees
    ensures [] in reg.trees[v]
  {
  }

  lemma LoadedGrows(start: Registry, reg: Registry, v: string, base: Path)
    requires reg.trees == if v in start.trees then start.trees else start.trees[v := map[[] := None]]
    ensures GrownTo(start.trees, Loaded(reg, v, base).trees, v, base)
    ensures forall x | x in NewlyLoaded(reg.trees[v], v, base) :: x.0 == v && base <= x.1
              && x.1 in Loaded(reg, v, base).trees[v] && Loaded(reg, v, base).trees[v][x.1].Some?
  {
    hide Grown;
  }

  lemma ReleasedParts(reg: Registry, uses: set<Item>, u: Item)
    requires RegOk(reg, uses, {}) && u in uses
    ensures u.storage in reg.keys && reg.keys[u.storage] in reg.counters
    ensures var key := reg.keys[u.storage];
      && FirstColon(key) < |key| && VolumeOf(key) in reg.trees && [] in reg.trees[VolumeOf(key)]
      && PathOf(key) == Split(key[FirstColon(key) + 1..], '/')
  {
    ReleasedOk(reg, uses, u);
    KeyOfStorage(reg, uses, {}, u.storage);
    assert UseOk(reg, u);
    KeyRoundTrip(u.volume, u.path);
    FirstColonIs(Key(u.volume, u.path), |u.volume|);
  }
}
