/** The registry of loaded storages as one value: the trees of the volumes, the reference counters, the
    keys of the storages; and the single-node steps that acquiring and releasing are made of. */
module RegistryModel {
  import opened Options
  import opened Paths

  /** A loaded storage: the volume node it belongs to and the load that created it. */
  datatype StorageId = StorageId(volume: string, path: Path, load: nat)

  /** The nodes of a volume, each with its storage if that is loaded. */
  type Tree = map<Path, Option<StorageId>>

  datatype Registry = Registry(
    trees: map<string, Tree>,
    counters: map<string, (StorageId, int)>,
    keys: map<StorageId, string>,
    loads: nat)

  /** One node of the snapshot of mount point `id`, which mounts it to virtual node `at`. */
  datatype Item = Item(id: nat, volume: string, path: Path, at: Path, storage: StorageId)

  // ---- Keys --------------------------------------------------------------------------------

  /** The registry's key of a volume node. */
  function Key(volume: string, path: Path): string {
    volume + ":" + Join(path, '/')
  }

  function FirstColon(s: string): (n: nat)
    ensures n <= |s| && (n < |s| ==> s[n] == ':') && ':' !in s[..n]
  {
    if s == "" || s[0] == ':' then 0
    else
      var n := FirstColon(s[1..]) + 1;
      assert s[..n] == [s[0]] + s[1..][..n - 1];
      n
  }

  /** What `releaseStorage` reads back from a key. */
  function VolumeOf(key: string): string {
    key[..FirstColon(key)]
  }

  function PathOf(key: string): Path {
    var n := FirstColon(key);
    if n < |key| then Split(key[n + 1..], '/') else [""]
  }

  lemma {:induction false} FirstColonIs(s: string, n: nat)
    requires n < |s| && s[n] == ':' && ':' !in s[..n]
    ensures FirstColon(s) == n
  {
    if n > 0 {
      assert s[0] in s[..n];
      assert s[1..][..n - 1] == s[..n][1..];
      FirstColonIs(s[1..], n - 1);
    }
  }

  /** Keys are read back if and only if the volume's path has no colon. */
  lemma KeyRoundTrip(volume: string, path: Path)
    requires Plain(path, '/')
    ensures VolumeOf(Key(volume, path)) == volume && PathOf(Key(volume, path)) == path <==> ':' !in volume
  {
    if ':' in volume {
      ColonInVolume(volume, path);
    } else {
      var key := Key(volume, path);
      assert key[..|volume|] == volume;
      FirstColonIs(key, |volume|);
      assert key[|volume| + 1..] == Join(path, '/');
      SplitJoin(path, '/');
    }
  }

  /** With a colon in the volume's path the release looks for another volume: the part before it. */
  lemma ColonInVolume(volume: string, path: Path)
    requires ':' in volume
    ensures VolumeOf(Key(volume, path)) == VolumeOf(volume) < volume
  {
    var key, n := Key(volume, path), FirstColon(volume);
    assert key[..n] == volume[..n];
    FirstColonIs(key, n);
  }

  // ---- Trees -------------------------------------------------------------------------------

  predicate PathOk(tree: Tree, p: Path)
    requires p in tree
  {
    if p == [] then tree[p] == None else Plain(p, '/') && p[..|p| - 1] in tree
  }

  predicate TreeOk(tree: Tree) {
    [] in tree && forall p | p in tree :: PathOk(tree, p)
  }

  /** `findTreeNode`: the missing nodes on the way to `path`. */
  function Grown(tree: Tree, path: Path): Tree {
    map p | p in tree.Keys + (set k | 0 <= k <= |path| :: path[..k]) :: if p in tree then tree[p] else None
  }

  /** `loadStorage`: every node at or below `at` has a storage. */
  function LoadedTree(tree: Tree, volume: string, at: Path, load: nat): Tree {
    map p | p in tree :: if at <= p && tree[p].None? then Some(StorageId(volume, p, load)) else tree[p]
  }

  /** The nodes at or below `at`, by their path from `at`. */
  function Below(tree: Tree, at: Path): set<Path> {
    set p | p in tree && at <= p :: p[|at|..]
  }

  lemma BelowIs(tree: Tree, at: Path, r: Path)
    ensures r in Below(tree, at) <==> at + r in tree
  {
    assert (at + r)[|at|..] == r;
    if r in Below(tree, at) {
      var p :| p in tree && at <= p && p[|at|..] == r;
      assert p == at + r;
    }
  }

  lemma GrownOk(tree: Tree, path: Path)
    requires TreeOk(tree) && Plain(path, '/')
    ensures TreeOk(Grown(tree, path)) && path in Grown(tree, path) && tree.Keys <= Grown(tree, path).Keys
    ensures path in tree ==> Grown(tree, path) == tree
  {
    var grown := Grown(tree, path);
    assert path[..|path|] == path && path[..0] == [];
    forall p | p in grown
      ensures PathOk(grown, p)
    {
      if p !in tree {
        var k :| 0 <= k <= |path| && p == path[..k];
        assert k > 0 ==> p[..|p| - 1] == path[..k - 1];
      } else {
        assert PathOk(tree, p);
      }
    }
    if path in tree {
      forall k | 0 <= k <= |path|
        ensures path[..k] in tree
      {
        PrefixIn(tree, path, k);
      }
      assert grown.Keys == tree.Keys;
    }
  }

  lemma {:induction false} PrefixIn(tree: Tree, path: Path, k: nat)
    requires TreeOk(tree) && path in tree && k <= |path|
    ensures path[..k] in tree
    decreases |path|
  {
    assert PathOk(tree, path);
    if k < |path| {
      PrefixIn(tree, path[..|path| - 1], k);
      assert path[..|path| - 1][..k] == path[..k];
    } else {
      assert path[..k] == path;
    }
  }

  lemma PrefixContinues(at: Path, r: Path, path: Path, k: nat)
    requires k <= |path| && at + r == path[..k]
    ensures at < path || (at == path && r == [] && at + r == at)
  {
    assert path == at + (r + path[k..]);
  }

  /** Growing a tree to a path changes what is below another node only if that is a proper ancestor. */
  lemma GrowthBelow(tree: Tree, path: Path, at: Path)
    requires TreeOk(tree) && at in tree && !(at < path)
    ensures Below(Grown(tree, path), at) == Below(tree, at)
  {
    hide Below, Grown, TreeOk;
    forall r
      ensures r in Below(Grown(tree, path), at) <==> r in Below(tree, at)
    {
      BelowIs(tree, at, r);
      BelowIs(Grown(tree, path), at, r);
      GrowthAt(tree, path, at, r);
    }
  }

  lemma GrowthAt(tree: Tree, path: Path, at: Path, r: Path)
    requires at in tree && !(at < path)
    ensures at + r in Grown(tree, path) <==> at + r in tree
  {
    if at + r in Grown(tree, path) && at + r !in tree {
      var k :| 0 <= k <= |path| && at + r == path[..k];
      PrefixContinues(at, r, path, k);
    }
  }

  // ---- The invariant -----------------------------------------------------------------------

  function UsersOf(uses: set<Item>, volume: string, path: Path): set<Item> {
    set u | u in uses && u.volume == volume && u.path == path
  }

  /** A node's storage is loaded exactly while its counter is positive, or it is about to be counted. */
  ghost predicate NodeOk(reg: Registry, uses: set<Item>, pending: set<(string, Path)>, v: string, p: Path)
    requires v in reg.trees && p in reg.trees[v]
  {
    var key := Key(v, p);
    var storage := reg.trees[v][p];
    && (storage.Some? ==> storage.value.volume == v && storage.value.path == p && storage.value.load < reg.loads)
    && (p != [] ==>
          && (storage.Some? <==> key in reg.counters || (v, p) in pending)
          && (key in reg.counters ==>
                && storage == Some(reg.counters[key].0)
                && reg.counters[key].1 == |UsersOf(uses, v, p)| && reg.counters[key].1 > 0)
          && (key !in reg.counters ==> UsersOf(uses, v, p) == {}))
  }

  ghost predicate KeyOk(reg: Registry, key: string)
    requires key in reg.counters
  {
    var v, p := VolumeOf(key), PathOf(key);
    && v in reg.trees && p in reg.trees[v] && Plain(p, '/') && key == Key(v, p)
    && reg.counters[key].0 in reg.keys && reg.keys[reg.counters[key].0] == key
  }

  ghost predicate UseOk(reg: Registry, u: Item) {
    && u.volume in reg.trees && u.path in reg.trees[u.volume] && u.path != []
    && reg.trees[u.volume][u.path] == Some(u.storage)
  }

  /** The counters count the uses; the two maps of the registry are inverse. */
  ghost predicate RegOk(reg: Registry, uses: set<Item>, pending: set<(string, Path)>) {
    && (forall v | v in reg.trees :: ':' !in v && TreeOk(reg.trees[v]))
    && (forall v, p | v in reg.trees && p in reg.trees[v] :: NodeOk(reg, uses, pending, v, p))
    && (forall key | key in reg.counters :: KeyOk(reg, key))
    && (forall s | s in reg.keys :: reg.keys[s] in reg.counters && reg.counters[reg.keys[s]].0 == s)
    && (forall u | u in uses :: UseOk(reg, u))
  }

  // ---- Steps -------------------------------------------------------------------------------

  /** `acquireStorage` for one node. */
  function Counted(reg: Registry, v: string, p: Path, storage: StorageId): Registry {
    var key := Key(v, p);
    if key in reg.counters then
      reg.(counters := reg.counters[key := (reg.counters[key].0, reg.counters[key].1 + 1)])
    else
      reg.(counters := reg.counters[key := (storage, 1)], keys := reg.keys[storage := key])
  }

  /** `releaseStorage` of a storage that the registry knows. */
  function Released(reg: Registry, storage: StorageId): Registry
    requires storage in reg.keys && reg.keys[storage] in reg.counters
  {
    var key := reg.keys[storage];
    var (s, n) := reg.counters[key];
    if n - 1 != 0 then reg.(counters := reg.counters[key := (s, n - 1)])
    else Unloaded(reg, VolumeOf(key), PathOf(key)).(counters := reg.counters - {key}, keys := reg.keys - {storage})
  }

  /** `unloadStorage`. */
  function Unloaded(reg: Registry, v: string, p: Path): Registry {
    if v in reg.trees then reg.(trees := reg.trees[v := Grown(reg.trees[v], p)[p := None]]) else reg
  }

  /** What a load leaves to be counted. */
  function NewlyLoaded(tree: Tree, v: string, at: Path): set<(string, Path)> {
    set p | p in Grown(tree, at) && at <= p && !(p in tree && tree[p].Some?) :: (v, p)
  }

  /** `loadStorage` of one volume. */
  function Loaded(reg: Registry, v: string, at: Path): Registry
    requires v in reg.trees
  {
    reg.(trees := reg.trees[v := LoadedTree(Grown(reg.trees[v], at), v, at, reg.loads)], loads := reg.loads + 1)
  }

  lemma LoadedOk(reg: Registry, uses: set<Item>, v: string, at: Path)
    requires RegOk(reg, uses, {}) && v in reg.trees && Plain(at, '/')
    ensures RegOk(Loaded(reg, v, at), uses, NewlyLoaded(reg.trees[v], v, at))
    ensures at in Loaded(reg, v, at).trees[v]
    ensures reg.trees[v].Keys <= Loaded(reg, v, at).trees[v].Keys
  {
    hide Key, NodeOk, KeyOk, TreeOk, Grown, UsersOf;
    var d := Loaded(reg, v, at);
    var pending := NewlyLoaded(reg.trees[v], v, at);
    GrownOk(reg.trees[v], at);
    LoadedTreeOk(Grown(reg.trees[v], at), v, at, reg.loads);
    forall w, q | w in d.trees && q in d.trees[w]
      ensures NodeOk(d, uses, pending, w, q)
    {
      if q in reg.trees[w] {
        assert NodeOk(reg, uses, {}, w, q);
        LoadedOld(reg, uses, v, at, w, q);
      } else {
        LoadedNew(reg, uses, v, at, q);
      }
    }
    forall k | k in d.counters
      ensures KeyOk(d, k)
    {
      assert KeyOk(reg, k);
      LoadedKey(reg, v, at, k);
    }
    forall x | x in uses
      ensures UseOk(d, x)
    {
      assert UseOk(reg, x);
      LoadedUse(reg, v, at, x);
    }
  }

  lemma LoadedTreeOk(tree: Tree, v: string, at: Path, load: nat)
    requires TreeOk(tree) && at != []
    ensures TreeOk(LoadedTree(tree, v, at, load))
  {
    forall p | p in LoadedTree(tree, v, at, load)
      ensures PathOk(LoadedTree(tree, v, at, load), p)
    {
      assert PathOk(tree, p);
    }
  }

  lemma LoadedOld(reg: Registry, uses: set<Item>, v: string, at: Path, w: string, q: Path)
    requires v in reg.trees && w in reg.trees && q in reg.trees[w] && NodeOk(reg, uses, {}, w, q)
    ensures q in Loaded(reg, v, at).trees[w]
    ensures NodeOk(Loaded(reg, v, at), uses, NewlyLoaded(reg.trees[v], v, at), w, q)
  {
    hide Key, UsersOf;
  }

  /** A node that the load added has no users and no counter. */
  lemma LoadedNew(reg: Registry, uses: set<Item>, v: string, at: Path, q: Path)
    requires RegOk(reg, uses, {}) && v in reg.trees && Plain(at, '/')
    requires q in Loaded(reg, v, at).trees[v] && q !in reg.trees[v]
    ensures NodeOk(Loaded(reg, v, at), uses, NewlyLoaded(reg.trees[v], v, at), v, q)
  {
    hide Key, NodeOk, TreeOk;
    GrownOk(reg.trees[v], at);
    if q != [] {
      PlainPath(Grown(reg.trees[v], at), q);
      KeyRoundTrip(v, q);
      assert Key(v, q) in reg.counters ==> KeyOk(reg, Key(v, q));
      forall u | u in uses
        ensures !(u.volume == v && u.path == q)
      {
        assert UseOk(reg, u);
      }
    }
    NewNode(reg, uses, v, at, q);
  }

  lemma NewNode(reg: Registry, uses: set<Item>, v: string, at: Path, q: Path)
    requires v in reg.trees && q in Loaded(reg, v, at).trees[v] && q !in reg.trees[v]
    requires q != [] ==> Key(v, q) !in reg.counters && UsersOf(uses, v, q) == {}
    ensures NodeOk(Loaded(reg, v, at), uses, NewlyLoaded(reg.trees[v], v, at), v, q)
  {
    hide Key, UsersOf;
  }

  lemma LoadedKey(reg: Registry, v: string, at: Path, k: string)
    requires v in reg.trees && k in reg.counters && KeyOk(reg, k)
    ensures KeyOk(Loaded(reg, v, at), k)
  {
    hide Key, VolumeOf, PathOf;
  }

  lemma LoadedUse(reg: Registry, v: string, at: Path, x: Item)
    requires v in reg.trees && UseOk(reg, x)
    ensures UseOk(Loaded(reg, v, at), x)
  {
  }

  /** A volume seen for the first time has no nodes but its root. */
  lemma NewVolumeOk(reg: Registry, uses: set<Item>, v: string)
    requires RegOk(reg, uses, {}) && v !in reg.trees && ':' !in v
    ensures RegOk(reg.(trees := reg.trees[v := map[[] := None]]), uses, {})
  {
    hide Key, VolumeOf, PathOf, NodeOk, KeyOk;
    var d := reg.(trees := reg.trees[v := map[[] := None]]);
    forall w, q | w in d.trees && q in d.trees[w]
      ensures NodeOk(d, uses, {}, w, q)
    {
      assert w != v ==> NodeOk(reg, uses, {}, w, q);
      NewVolumeNode(reg, uses, v, w, q);
    }
    forall k | k in d.counters
      ensures KeyOk(d, k)
    {
      assert KeyOk(reg, k);
      NewVolumeKey(reg, v, k);
    }
    forall x | x in uses
      ensures UseOk(d, x)
    {
      assert UseOk(reg, x);
    }
  }

  lemma NewVolumeNode(reg: Registry, uses: set<Item>, v: string, w: string, q: Path)
    requires w == v ==> q == []
    requires w != v ==> w in reg.trees && q in reg.trees[w] && NodeOk(reg, uses, {}, w, q)
    ensures NodeOk(reg.(trees := reg.trees[v := map[[] := None]]), uses, {}, w, q)
  {
    hide Key, UsersOf;
  }

  lemma NewVolumeKey(reg: Registry, v: string, k: string)
    requires v !in reg.trees && k in reg.counters && KeyOk(reg, k)
    ensures KeyOk(reg.(trees := reg.trees[v := map[[] := None]]), k)
  {
    hide Key, VolumeOf, PathOf;
  }

  lemma OneMore(uses: set<Item>, u: Item)
    requires u !in uses
    ensures UsersOf(uses + {u}, u.volume, u.path) == UsersOf(uses, u.volume, u.path) + {u}
    ensures |UsersOf(uses + {u}, u.volume, u.path)| == |UsersOf(uses, u.volume, u.path)| + 1
    ensures forall v, p | (v, p) != (u.volume, u.path) :: UsersOf(uses + {u}, v, p) == UsersOf(uses, v, p)
  {
    assert u !in UsersOf(uses, u.volume, u.path);
  }

  lemma KeyApart(reg: Registry, v: string, p: Path, w: string, q: Path)
    requires ':' !in v && ':' !in w && Plain(p, '/') && Plain(q, '/')
    ensures Key(v, p) == Key(w, q) ==> v == w && p == q
  {
    KeyRoundTrip(v, p);
    KeyRoundTrip(w, q);
  }

  lemma CountedOk(reg: Registry, uses: set<Item>, pending: set<(string, Path)>, u: Item)
    requires RegOk(reg, uses, pending) && u !in uses && UseOk(reg, u)
    ensures RegOk(Counted(reg, u.volume, u.path, u.storage), uses + {u}, pending - {(u.volume, u.path)})
  {
    hide Key, NodeOk, KeyOk, TreeOk;
    var v, p := u.volume, u.path;
    var d := Counted(reg, v, p, u.storage);
    assert NodeOk(reg, uses, pending, v, p);
    forall w, q | w in d.trees && q in d.trees[w]
      ensures NodeOk(d, uses + {u}, pending - {(v, p)}, w, q)
    {
      assert NodeOk(reg, uses, pending, w, q);
      PlainPath(reg.trees[v], p);
      PlainPath(reg.trees[w], q);
      CountedNode(reg, uses, pending, u, w, q);
    }
    CountedKeys(reg, uses, pending, u);
    forall x | x in uses + {u}
      ensures UseOk(d, x)
    {
      assert x in uses ==> UseOk(reg, x);
    }
  }

  lemma CountedNode(reg: Registry, uses: set<Item>, pending: set<(string, Path)>, u: Item, w: string, q: Path)
    requires u !in uses && UseOk(reg, u) && NodeOk(reg, uses, pending, u.volume, u.path)
    requires w in reg.trees && q in reg.trees[w] && NodeOk(reg, uses, pending, w, q)
    requires ':' !in u.volume && ':' !in w && Plain(u.path, '/') && (q != [] ==> Plain(q, '/'))
    ensures NodeOk(Counted(reg, u.volume, u.path, u.storage), uses + {u}, pending - {(u.volume, u.path)}, w, q)
  {
    hide Key, UsersOf;
    OneMore(uses, u);
    if q != [] {
      KeyApart(reg, u.volume, u.path, w, q);
    }
    if w != u.volume || q != u.path {
      assert (w, q) != (u.volume, u.path);
    }
  }

  lemma CountedKeys(reg: Registry, uses: set<Item>, pending: set<(string, Path)>, u: Item)
    requires RegOk(reg, uses, pending) && u !in uses && UseOk(reg, u)
    ensures var d := Counted(reg, u.volume, u.path, u.storage);
      && (forall k | k in d.counters :: KeyOk(d, k))
      && (forall s | s in d.keys :: d.keys[s] in d.counters && d.counters[d.keys[s]].0 == s)
  {
    hide Key, VolumeOf, PathOf, TreeOk;
    var v, p := u.volume, u.path;
    var d := Counted(reg, v, p, u.storage);
    PlainPath(reg.trees[v], p);
    KeyRoundTrip(v, p);
    assert NodeOk(reg, uses, pending, v, p);
    if u.storage in reg.keys {
      KeyOfStorage(reg, uses, pending, u.storage);
    }
    forall k | k in d.counters
      ensures KeyOk(d, k)
    {
      assert k in reg.counters ==> KeyOk(reg, k);
    }
  }

  /** A storage that the registry knows is that of the node its key names. */
  lemma KeyOfStorage(reg: Registry, uses: set<Item>, pending: set<(string, Path)>, s: StorageId)
    requires RegOk(reg, uses, pending) && s in reg.keys
    ensures reg.keys[s] in reg.counters && reg.counters[reg.keys[s]].0 == s && reg.keys[s] == Key(s.volume, s.path)
    ensures s.volume in reg.trees && s.path in reg.trees[s.volume] && reg.trees[s.volume][s.path] == Some(s)
    ensures VolumeOf(reg.keys[s]) == s.volume && PathOf(reg.keys[s]) == s.path && Plain(s.path, '/')
  {
    hide Key, VolumeOf, PathOf, TreeOk;
    var key := reg.keys[s];
    assert KeyOk(reg, key);
    assert NodeOk(reg, uses, pending, VolumeOf(key), PathOf(key));
  }

  lemma OneLess(uses: set<Item>, u: Item)
    requires u in uses
    ensures UsersOf(uses - {u}, u.volume, u.path) == UsersOf(uses, u.volume, u.path) - {u}
    ensures |UsersOf(uses - {u}, u.volume, u.path)| == |UsersOf(uses, u.volume, u.path)| - 1
    ensures forall v, p | (v, p) != (u.volume, u.path) :: UsersOf(uses - {u}, v, p) == UsersOf(uses, v, p)
  {
    assert u in UsersOf(uses, u.volume, u.path);
  }

  lemma ReleasedOk(reg: Registry, uses: set<Item>, u: Item)
    requires RegOk(reg, uses, {}) && u in uses
    ensures u.storage in reg.keys && reg.keys[u.storage] in reg.counters
    ensures RegOk(Released(reg, u.storage), uses - {u}, {})
    ensures Released(reg, u.storage).trees.Keys == reg.trees.Keys
    ensures forall v | v in reg.trees :: Released(reg, u.storage).trees[v].Keys == reg.trees[v].Keys
  {
    hide Key, NodeOk, KeyOk, TreeOk, Released;
    assert UseOk(reg, u) && NodeOk(reg, uses, {}, u.volume, u.path);
    ReleasedIs(reg, uses, u);
    var d := Released(reg, u.storage);
    forall w, q | w in d.trees && q in d.trees[w]
      ensures NodeOk(d, uses - {u}, {}, w, q)
    {
      assert NodeOk(reg, uses, {}, w, q);
      PlainPath(reg.trees[w], q);
      ReleasedNode(reg, uses, u, w, q);
    }
    ReleasedKeys(reg, uses, u);
    forall x | x in uses - {u}
      ensures UseOk(d, x)
    {
      assert UseOk(reg, x) && NodeOk(reg, uses, {}, x.volume, x.path);
      ReleasedUse(reg, uses, u, x);
    }
  }

  /** The release takes one from the counter of the storage's node, and unloads the node if that was the
      last use. */
  lemma ReleasedIs(reg: Registry, uses: set<Item>, u: Item)
    requires RegOk(reg, uses, {}) && u in uses
    ensures UseOk(reg, u) && u.storage in reg.keys && reg.keys[u.storage] == Key(u.volume, u.path)
    ensures var key := Key(u.volume, u.path);
      && key in reg.counters && reg.counters[key].0 == u.storage
      && Released(reg, u.storage)
         == if reg.counters[key].1 != 1 then reg.(counters := reg.counters[key := (u.storage, reg.counters[key].1 - 1)])
            else reg.(trees := reg.trees[u.volume := reg.trees[u.volume][u.path := None]],
                      counters := reg.counters - {key}, keys := reg.keys - {u.storage})
    ensures TreeOk(reg.trees[u.volume][u.path := None])
  {
    hide Key, VolumeOf, PathOf;
    var v, p := u.volume, u.path;
    assert UseOk(reg, u) && NodeOk(reg, uses, {}, v, p);
    assert Key(v, p) in reg.counters;
    assert KeyOk(reg, Key(v, p));
    KeyOfStorage(reg, uses, {}, u.storage);
    GrownOk(reg.trees[v], p);
    var tree := reg.trees[v][p := None];
    forall q | q in tree
      ensures PathOk(tree, q)
    {
      assert PathOk(reg.trees[v], q);
    }
  }

  lemma ReleasedNode(reg: Registry, uses: set<Item>, u: Item, w: string, q: Path)
    requires RegOk(reg, uses, {}) && u in uses && u.storage in reg.keys && reg.keys[u.storage] in reg.counters
    requires w in Released(reg, u.storage).trees && q in Released(reg, u.storage).trees[w]
    ensures NodeOk(Released(reg, u.storage), uses - {u}, {}, w, q)
  {
    hide Key, UsersOf, TreeOk, Released, KeyOk;
    ReleasedIs(reg, uses, u);
    OneLess(uses, u);
    assert NodeOk(reg, uses, {}, u.volume, u.path) && NodeOk(reg, uses, {}, w, q);
    PlainPath(reg.trees[u.volume], u.path);
    PlainPath(reg.trees[w], q);
    if q != [] {
      KeyApart(reg, u.volume, u.path, w, q);
    }
    if w != u.volume || q != u.path {
      assert (w, q) != (u.volume, u.path);
    }
  }

  lemma ReleasedKeys(reg: Registry, uses: set<Item>, u: Item)
    requires RegOk(reg, uses, {}) && u in uses && u.storage in reg.keys && reg.keys[u.storage] in reg.counters
    ensures var d := Released(reg, u.storage);
      && (forall k | k in d.counters :: KeyOk(d, k))
      && (forall s | s in d.keys :: d.keys[s] in d.counters && d.counters[d.keys[s]].0 == s)
  {
    hide Key, VolumeOf, PathOf, TreeOk, Released, NodeOk;
    ReleasedIs(reg, uses, u);
    var d := Released(reg, u.storage);
    forall k | k in d.counters
      ensures KeyOk(d, k)
    {
      assert KeyOk(reg, k);
    }
  }

  lemma ReleasedUse(reg: Registry, uses: set<Item>, u: Item, x: Item)
    requires RegOk(reg, uses, {}) && u in uses && u.storage in reg.keys && reg.keys[u.storage] in reg.counters
    requires x in uses && x != u
    ensures UseOk(Released(reg, u.storage), x)
  {
    hide Key, TreeOk, Released, KeyOk;
    ReleasedIs(reg, uses, u);
    assert NodeOk(reg, uses, {}, u.volume, u.path) && UseOk(reg, x);
    if x.volume == u.volume && x.path == u.path {
      assert {u, x} <= UsersOf(uses, u.volume, u.path);
      TwoUsers(UsersOf(uses, u.volume, u.path), u, x);
    }
  }

  lemma TwoUsers(users: set<Item>, u: Item, x: Item)
    requires u in users && x in users && u != x
    ensures |users| != 1
  {
    assert |users - {u}| == |users| - 1;
    assert x in users - {u};
  }

  lemma PlainPath(tree: Tree, p: Path)
    requires TreeOk(tree) && p in tree
    ensures p != [] ==> Plain(p, '/')
  {
    assert PathOk(tree, p);
  }
}
