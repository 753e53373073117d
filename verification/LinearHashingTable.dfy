/** The linear hashing table as a mutable object over the file-backed bucket manager.

    `Table()` is the table of `TableModel` that the buckets make up, wherever they are cached or
    stored.  Every operation changes it exactly as the model does, for any cache size. */
module LinearHashing {
  import opened Options
  import opened TableModel
  import opened TableMap
  import opened CacheModel
  import opened Bitarrays
  import opened BucketManager
  import opened Wiring
  import opened Evictions
  import opened SavedTables
  import opened TableSteps
  import opened WiredChains
  import opened OpenedFiles
  import opened CacheSteps
  import opened KeysRange
  import opened TableKeys

  class LinearHashingTable<K(==), V> {
    const cfg: Config<K>
    const manager: FileBucketManager<K, V>
    var bucketChains: seq<BucketId>
    ghost var ids: seq<Ids>

    ghost function Table(): Table<K, V>
      reads this, manager
    {
      TableModel.Table(manager.meta.n, manager.meta.p, manager.meta.size, ChainsOf(manager.view, ids))
    }

    /** The buckets of the manager are those of the table and of the chain `extra`. */
    ghost predicate Connected(extra: Ids)
      reads this, manager, manager.status
    {
      && manager.Valid()
      && Wired(manager.view, ids, extra)
      && |bucketChains| == |ids| == manager.meta.primaryCount
      && (forall i | 0 <= i < |bucketChains| :: bucketChains[i] == Primary(i) && Primary(i) in manager.handles)
    }

    ghost predicate Linked(extra: Ids)
      reads this, manager, manager.status
    {
      Connected(extra) && Shape(cfg, Table())
    }

    lemma LinkedIs(extra: Ids)
      requires Linked(extra)
      ensures Shape(cfg, Table()) && manager.Valid() && |ChainOf(manager.view, extra)| == |extra|
      ensures |bucketChains| == |ids| == |Table().chains| && forall b | b in extra :: b in manager.view
      ensures manager.State().loaded <= manager.State().handles.Keys
    {
      hide Cache.Ok, Shape, Wired, Covered;
      RestLive(manager.view, ids, extra);
      OkHandles(manager.State());
    }

    lemma LinkedApart(c: nat, b: BucketId)
      requires Linked([]) && c < |ids| && b in ids[c]
      ensures c < |ids| - 1 ==> b !in ids[|ids| - 1]
    {
      hide Wired;
      OutsideLast(manager.view, ids, c, b);
    }

    lemma HasShape()
      requires Valid()
      ensures Shape(cfg, Table()) && Unique(All(Table().chains)) && WellFormed(cfg, Table())
    {
    }

    /** Between operations no bucket is locked or on its way out. */
    ghost predicate Idle()
      reads manager
    {
      manager.leaving == {} && forall b | b in manager.handles :: manager.handles[b].locks == 0
    }

    ghost predicate Valid()
      reads this, manager, manager.status
    {
      Linked([]) && manager.Safe(None) && Idle() && WellFormed(cfg, Table())
    }

    /** A table over empty files. */
    constructor (cfg: Config<K>, cacheSize: nat)
      requires cfg.capacity > 0 && IsPow2(cfg.minCount)
      ensures Valid() && this.cfg == cfg && Table() == Empty(cfg) && manager.Durable()
      ensures fresh(manager) && fresh(manager.status)
    {
      this.cfg := cfg;
      manager := new FileBucketManager<K, V>(cacheSize, cfg.minCount);
      bucketChains, ids := [], [];
      new;
      Initialize();
    }

    /** A table over the files that another one left behind: the metadata comes from the primary file, and
        the primary buckets are read when they are needed.  It is the table that the files hold: the
        other table's chains, and behind them any that it has merged away since the metadata was written. */
    constructor Reopen(other: LinearHashingTable<K, V>, cacheSize: nat)
      requires other.Valid() && other.manager.loaded == {} && other.manager.stored.Some?
      ensures cfg == other.cfg && Table() == SavedTable(other.manager.Disk())
      ensures other.Table().chains <= Table().chains
      ensures Loadable(cfg, other.manager.Disk()) ==> Valid()
      ensures Valid() && Table() == other.Table() <==> other.manager.MetadataStored()
      ensures fresh(manager) && fresh(manager.status)
      ensures manager.loaded == {} && manager.Disk() == other.manager.Disk() && manager.cacheSize == cacheSize
      ensures manager.meta == other.manager.stored.value.meta
      ensures Exact(other.manager.State(), other.manager.stored) && other.manager.MetadataStored() ==> manager.leaked == other.manager.leaked
    {
      hide Wired, Shape, WellFormed, Cache.Ok, ChainOf, Table, BitsOf, BitAt, OnlyUnloaded, Cache.SafeFor, Covered, Held,
           SavedIds, SavedView, ChainsOf, Unused, Exact;
      cfg := other.cfg;
      var files := other.manager;
      manager := new FileBucketManager<K, V>.Open(cacheSize, files.primaryFile, files.overflowFile,
                                                  files.stored.value, SavedView(files.Disk()));
      bucketChains, ids := [], SavedIds(files.Disk());
      new;
      UnloadedHeads();
      SameTable(other);
    }

    lemma SameTable(other: LinearHashingTable<K, V>)
      requires other.Valid() && other.manager.loaded == {} && other.manager.stored.Some?
      requires cfg == other.cfg && ids == SavedIds(other.manager.Disk()) && manager.view == SavedView(other.manager.Disk())
      requires manager.Disk() == other.manager.Disk() && manager.leaving == {} && manager.loaded == {}
      requires manager.stored.Some? && manager.leaked == Unused(manager.stored.value, manager.view) && manager.meta == manager.stored.value.meta
      requires manager.status.bytes == manager.stored.value.bytes && manager.status.size == manager.stored.value.bits
      requires |bucketChains| == manager.meta.primaryCount && OnlyUnloaded(manager.handles, |bucketChains|)
      requires forall i | 0 <= i < |bucketChains| :: bucketChains[i] == Primary(i)
      ensures Table() == SavedTable(other.manager.Disk()) && other.Table().chains <= Table().chains
      ensures Loadable(cfg, other.manager.Disk()) ==> Valid()
      ensures Valid() && Table() == other.Table() <==> other.manager.MetadataStored()
      ensures Exact(other.manager.State(), other.manager.stored) && other.manager.MetadataStored() ==> manager.leaked == other.manager.leaked
    {
      hide Cache.Ok, Wired, Shape, WellFormed, ChainOf, Covered, Tidy, Held, SavedIds, SavedView, ChainsOf, Unused, Exact, BitAt, BitsOf,
           Loadable, AllOnFile, OnlyUnloaded;
      ghost var files, c := other.manager.Disk(), other.manager.State();
      other.FilesComplete();
      SavedIs(c.view, other.ids, files);
      if Loadable(cfg, files) {
        LoadableValid();
      }
      if manager.meta == other.manager.meta {
        other.FilesCurrent();
        if Exact(c, other.manager.stored) {
          LeakedAgain(c, manager.stored.value);
        }
      }
    }

    lemma LoadableValid()
      requires Loadable(cfg, manager.Disk()) && ids == SavedIds(manager.Disk()) && manager.view == SavedView(manager.Disk())
      requires manager.leaving == {} && manager.loaded == {} && manager.leaked == Unused(manager.stored.value, manager.view)
      requires manager.meta == manager.stored.value.meta
      requires manager.status.bytes == manager.stored.value.bytes && manager.status.size == manager.stored.value.bits
      requires |bucketChains| == manager.meta.primaryCount && OnlyUnloaded(manager.handles, |bucketChains|)
      requires forall i | 0 <= i < |bucketChains| :: bucketChains[i] == Primary(i)
      ensures Valid()
    {
      hide Cache.Ok, Covered, Wired, Shape, WellFormed, ChainOf, Held, SavedIds, SavedView, Unused, BitAt, BitsOf, AllOnFile, OnlyUnloaded;
      LoadableOk(cfg, manager.Disk(), manager.State());
      ShapeOf(cfg, SavedTable(manager.Disk()));
      AllHandles(manager.handles, |bucketChains|);
    }

    /** With nothing to write, the files hold every bucket, and no fewer chains than the table has. */
    lemma FilesComplete()
      requires Valid() && !manager.AnyDirty() && manager.stored.Some?
      ensures AllOnFile(manager.view, manager.Disk()) && |ids| <= manager.stored.value.meta.primaryCount
      ensures Wired(manager.view, ids, []) && forall b | b in manager.view :: Held(manager.stored.value, b)
    {
      hide Wired, Shape, WellFormed, ChainOf;
      CleanFiles(manager.State(), manager.Disk());
      if |ids| > 0 {
        assert bucketChains[|ids| - 1] == Primary(|ids| - 1);
        OkHandles(manager.State());
      }
    }

    /** With nothing to write and the metadata up to date, the files hold the table. */
    lemma FilesCurrent()
      requires Valid() && !manager.AnyDirty() && manager.MetadataStored()
      ensures Loadable(cfg, manager.Disk()) && SavedTable(manager.Disk()) == Table()
    {
      hide Wired, Shape, WellFormed, ChainOf, ChainsOf, Held, AllOnFile, SavedIds, SavedView, Cache.Ok, Covered, Tidy;
      FilesComplete();
      SavedIs(manager.view, ids, manager.Disk());
      NoSharedLinks(manager.State());
    }

    /** `initialize` over files that hold a table: the primary buckets, none of them loaded. */
    method UnloadedHeads()
      requires bucketChains == [] && manager.loaded == {} && manager.handles == map[]
      modifies this`bucketChains, manager`handles
      ensures |bucketChains| == manager.meta.primaryCount
      ensures forall i | 0 <= i < |bucketChains| :: bucketChains[i] == Primary(i)
      ensures OnlyUnloaded(manager.handles, |bucketChains|)
    {
      while |bucketChains| < manager.meta.primaryCount
        invariant |bucketChains| <= manager.meta.primaryCount
        invariant OnlyUnloaded(manager.handles, |bucketChains|)
        invariant forall i | 0 <= i < |bucketChains| :: bucketChains[i] == Primary(i)
      {
        manager.UnloadedBucket(Primary(|bucketChains|));
        bucketChains := bucketChains + [Primary(|bucketChains|)];
      }
    }

    /** `~LinearHashingTable`: flush. */
    method Close()
      requires Valid()
      modifies manager, manager.status
      ensures Valid() && Table() == old(Table()) && manager.loaded == {}
      ensures manager.MetadataStored() <==> old(manager.Durable())
      ensures if old(manager.AnyDirty()) then Exact(manager.State(), manager.stored) else manager.Disk() == old(manager.Disk())
    {
      hide Cache.Ok, Calm, Shape, WellFormed, Wired, ChainOf, Covered, Exact;
      ghost var c := manager.State();
      OkHandles(c);
      var changed := manager.Flush();
      CalmHandles(c, manager.State());
      CalmIdle(c, manager.State());
    }

    /** Closing a table and opening its files again gives the same table exactly when there was something
        to write, or nothing had changed since the metadata was written.  In any case no record is lost; the
        records of merged chains come back, so the records are the same exactly when these chains are empty. */
    method CloseAndReopen(cacheSize: nat) returns (again: LinearHashingTable<K, V>)
      requires Valid() && (manager.stored.Some? || manager.AnyDirty())
      modifies manager, manager.status
      ensures again.cfg == cfg && fresh(again) && fresh(again.manager) && fresh(again.manager.status)
      ensures Valid() && Table() == old(Table())
      ensures again.Valid() && again.Table() == old(Table()) <==> old(manager.Durable())
      ensures old(Table()).chains <= again.Table().chains
      ensures All(again.Table().chains) == All(old(Table()).chains) + All(again.Table().chains[|old(Table()).chains|..])
      ensures All(again.Table().chains) == All(old(Table()).chains) <==> All(again.Table().chains[|old(Table()).chains|..]) == multiset{}
      ensures !old(manager.AnyDirty()) ==>
        again.Table() == SavedTable(old(manager.Disk())) && (Loadable(cfg, old(manager.Disk())) ==> again.Valid())
      ensures old(manager.AnyDirty()) ==> again.manager.leaked == manager.leaked
    {
      hide Valid, Table, Exact, SavedTable, All;
      Close();
      again := new LinearHashingTable<K, V>.Reopen(this, cacheSize);
      AllSplit(again.Table().chains, |Table().chains|);
      assert again.Table().chains[..|Table().chains|] == Table().chains;
    }

    /** `initialize` over empty files: the minimum number of primary buckets. */
    method Initialize()
      requires cfg.capacity > 0 && IsPow2(cfg.minCount) && bucketChains == [] && ids == []
      requires manager.Valid() && manager.Safe(None) && Idle()
      requires manager.meta == Metadata(cfg.minCount, 0, 0, 0) && manager.view == map[]
      modifies this, manager, manager.status
      ensures Valid() && Table() == Empty(cfg) && manager.AnyDirty()
    {
      hide Cache.Ok, Covered, Calm, WellFormed, Wired, ChainOf, Shape;
      NothingWired<K, V>();
      while |bucketChains| < cfg.minCount
        invariant |bucketChains| <= cfg.minCount
        invariant Connected([]) && manager.Safe(None) && Idle()
        invariant manager.meta == Metadata(cfg.minCount, 0, 0, |bucketChains|)
        invariant Table().chains == seq(|bucketChains|, _ => [[]])
        invariant bucketChains != [] ==> manager.AnyDirty()
      {
        GrowEmpty();
      }
      EmptyWellFormed<K, V>(cfg);
      ShapeOf(cfg, Empty<K, V>(cfg));
      assert Table() == Empty(cfg);
    }

    /** One turn of that loop. */
    method GrowEmpty()
      requires Connected([]) && manager.Safe(None) && Idle()
      modifies this, manager, manager.status
      ensures Connected([]) && manager.Safe(None) && Idle()
      ensures manager.meta == old(manager.meta).(primaryCount := old(manager.meta.primaryCount) + 1)
      ensures Table().chains == old(Table()).chains + [[[]]] && manager.AnyDirty()
    {
      hide Cache.Ok, Covered, Calm, Wired, ChainOf;
      ghost var c := manager.State();
      NoPrimaryBeyond(c.view, ids);
      Grow();
      CalmHandles(c, manager.State());
      CalmIdle(c, manager.State());
      GrowWired(c.view, ids, []);
      ids := ids + [[Primary(|ids|)]];
    }

    /** `grow`: one more primary bucket. */
    method Grow()
      requires manager.Valid() && manager.Safe(None) && |bucketChains| == manager.meta.primaryCount
      requires Primary(|bucketChains|) !in manager.view
      modifies this`bucketChains, manager, manager.status
      ensures manager.Valid() && manager.Safe(None)
      ensures bucketChains == old(bucketChains) + [Primary(|old(bucketChains)|)]
      ensures manager.view == old(manager.view)[Primary(|old(bucketChains)|) := Page(None, [])]
      ensures Primary(|old(bucketChains)|) in manager.handles
      ensures manager.meta == old(manager.meta).(primaryCount := old(manager.meta.primaryCount) + 1)
      ensures manager.leaving == old(manager.leaving)
      ensures Calm(old(manager.State()), manager.State()) && manager.AnyDirty()
    {
      hide Cache.Ok, Covered, Calm;
      SetMetadata(manager.meta.(primaryCount := manager.meta.primaryCount + 1));
      manager.NewPrimary(|bucketChains|);
      bucketChains := bucketChains + [Primary(|bucketChains|)];
    }

    /** The metadata in memory changes, and nothing else. */
    method SetMetadata(meta: Metadata)
      requires manager.Valid()
      modifies manager`meta
      ensures manager.Valid() && manager.meta == meta
      ensures manager.State() == old(manager.State()) && manager.Disk() == old(manager.Disk())
      ensures old(manager.Safe(None)) && old(manager.meta.primaryCount) <= meta.primaryCount ==> manager.Safe(None)
    {
      hide Cache.Ok, Covered;
      ghost var c := manager.State();
      manager.meta := meta;
      assert manager.State() == c;
    }

    /** `find_internal`. */
    method FindInternal(key: K, c: nat) returns (found: bool, source: BucketId, index: nat, ghost j: nat)
      requires Linked([]) && manager.Safe(None) && Idle() && c < |ids|
      modifies manager, manager.status
      ensures Linked([]) && manager.Safe(None) && Idle()
      ensures manager.view == old(manager.view) && manager.meta == old(manager.meta)
      ensures Calm(old(manager.State()), manager.State())
      ensures found ==> j < |ids[c]| && WalkedTo(old(manager.State()), old(manager.Disk()), manager.State(), manager.Disk(),
                                                 manager.MetadataStored(), ids[c], j + 1, manager.cacheSize)
      ensures old(manager.Durable()) ==> manager.Durable()
      ensures found <==> FindInChain(Table().chains[c], key).Some?
      ensures found ==> FindInChain(Table().chains[c], key).value == (j, index)
                        && j < |ids[c]| && source == ids[c][j] && manager.Ready(source)
    {
      hide Cache.Ok, Calm, Shape, WiredChain, ChainOf, FindInChain, Covered, WalkedTo;
      ghost var start := manager.State();
      found, source, index, j := Search(bucketChains[c], ids[c], key);
      CalmHandles(start, manager.State());
    }

    /** The loop of `find_internal` along one chain. */
    method Search(first: BucketId, ghost chain: Ids, key: K) returns (found: bool, source: BucketId, index: nat, ghost j: nat)
      requires manager.Valid() && manager.Safe(None) && Idle()
      requires chain != [] && WiredChain(manager.view, chain) && first == chain[0] && first in manager.handles
      modifies manager, manager.status
      ensures manager.Valid() && manager.Safe(None) && Idle()
      ensures manager.view == old(manager.view) && manager.meta == old(manager.meta)
      ensures Calm(old(manager.State()), manager.State())
      ensures found ==> j < |chain| && WalkedTo(old(manager.State()), old(manager.Disk()), manager.State(), manager.Disk(),
                                                manager.MetadataStored(), chain, j + 1, manager.cacheSize)
      ensures old(manager.Durable()) ==> manager.Durable()
      ensures found <==> FindInChain(ChainOf(manager.view, chain), key).Some?
      ensures found ==> FindInChain(ChainOf(manager.view, chain), key).value == (j, index)
                        && j < |chain| && source == chain[j] && manager.Ready(source)
    {
      hide Cache.Ok, Calm, Covered, WalkedTo, Fetched, Settled, WiredChain, ChainOf, FindInChain, Walking,
           FileBucketManager.Valid, FileBucketManager.Safe, FileBucketManager.MetadataStored, FindInBucket;
      ghost var view, start, disk, current := manager.view, manager.State(), manager.Disk(), manager.MetadataStored();
      ManagerCalm();
      WalkingFirst(start, disk, current, chain, manager.cacheSize);
      source, j, found, index := first, 0, false, 0;
      ghost var model := ChainOf(view, chain);
      while true
        invariant j < |chain| && source == chain[j] && source in manager.handles
        invariant manager.Valid() && manager.Safe(None) && manager.leaving == {}
        invariant manager.view == view && manager.meta == old(manager.meta)
        invariant Walking(start, disk, current, manager.State(), manager.Disk(), manager.MetadataStored(), chain, j, manager.cacheSize)
        invariant forall k | 0 <= k < j :: FindInBucket(model[k], key) == None
        decreases |chain| - j
      {
        ghost var before, beforeDisk, before' := manager.State(), manager.Disk(), manager.MetadataStored();
        manager.SafeAnyway(source);
        var records := manager.Data(source);
        ManagerCalm();
        WalkingOn(start, disk, current, before, beforeDisk, before', manager.State(), manager.Disk(), manager.MetadataStored(), chain, j, manager.cacheSize);
        RecordsAt(view, chain, j);
        LastOf(view, chain, j);
        var at := FindInBucket(records, key);
        if at.Some? {
          FindAt(model, j, key);
          found, index := true, at.value;
          break;
        }
        var next := manager.handles[source].overflow;
        if next.None? {
          FindAt(model, j + 1, key);
          break;
        }
        source := Overflow(next.value);
        j := j + 1;
      }
      WalkingIs(start, disk, current, manager.State(), manager.Disk(), manager.MetadataStored(), chain, j + 1, manager.cacheSize);
    }

    /** `insert_internal`: walk to the first bucket that is not full, adding one if there is none. */
    method InsertInternal(key: K, value: V, c: nat, ghost extra: Ids)
      requires Linked(extra) && manager.Safe(None) && c < |ids|
      modifies this`ids, manager, manager.status
      ensures Linked(extra) && manager.Safe(None)
      ensures Table() == old(Table()).(chains := old(Table()).chains[c := InsertChain(cfg.capacity, old(Table()).chains[c], (key, value))])
      ensures forall b | b in extra :: b in old(manager.view) && b in manager.view && manager.view[b] == old(manager.view)[b]
      ensures manager.meta == old(manager.meta) && manager.leaving == old(manager.leaving)
      ensures Calm(old(manager.State()), manager.State()) && exists b :: manager.State().Dirty(b) && b !in extra
    {
      hide Cache.Ok, Calm, WiredChain, ChainOf, InsertChain, IsPow2, Covered;
      ghost var view, start := manager.view, manager.State();
      ghost var chain' := InsertInChain(key, value, bucketChains[c], ids[c]);
      ghost var changed :| changed in chain' && manager.State().Dirty(changed);
      ReplaceChain(view, manager.view, ids, extra, c, chain');
      ExtraUntouched(view, manager.view, ids, extra, c);
      CalmHandles(start, manager.State());
      InsertChainShape(cfg.capacity, ChainOf(view, ids[c]), (key, value));
      ids := ids[c := chain'];
      OutsideExtra(manager.view, ids, extra, c, changed);
    }

    /** The walk of `insert_internal` along one chain. */
    method InsertInChain(key: K, value: V, first: BucketId, ghost chain: Ids) returns (ghost chain': Ids)
      requires manager.Valid() && manager.Safe(None) && cfg.capacity > 0
      requires chain != [] && WiredChain(manager.view, chain) && first == chain[0] && first in manager.handles
      modifies manager, manager.status
      ensures manager.Valid() && manager.Safe(None)
      ensures chain' != [] && chain'[0] == first && WiredChain(manager.view, chain')
      ensures ChainOf(manager.view, chain') == InsertChain(cfg.capacity, ChainOf(old(manager.view), chain), (key, value))
      ensures forall b | b in old(manager.view) && b !in chain :: b in manager.view && manager.view[b] == old(manager.view)[b]
      ensures forall b | b in chain' :: b in chain || b !in old(manager.view)
      ensures forall b | b in manager.view :: b in old(manager.view) || b in chain'
      ensures forall b | b in chain :: b in chain'
      ensures manager.meta == old(manager.meta) && manager.leaving == old(manager.leaving)
      ensures Calm(old(manager.State()), manager.State()) && exists b :: b in chain' && manager.State().Dirty(b)
    {
      hide Cache.Ok, Calm, WiredChain, ChainOf, InsertChain, Covered, Fetched, Settled, NoneDirtier, Grown,
           FileBucketManager.Valid, FileBucketManager.Safe, FileBucketManager.MetadataStored;
      ghost var view, start := manager.view, manager.State();
      ManagerCalm();
      var source := first;
      ghost var j := 0;
      chain' := chain;
      GrownNot(view, chain);
      while true
        invariant j < |chain'| && source == chain'[j] && source in manager.handles && j <= |chain|
        invariant manager.Valid() && manager.Safe(None)
        invariant manager.meta == old(manager.meta) && manager.leaving == old(manager.leaving)
        invariant Calm(start, manager.State())
        invariant Grown(view, chain, manager.view, chain', j)
        invariant forall k | 0 <= k < j :: |ChainOf(view, chain)[k]| == cfg.capacity
        decreases |chain| - j
      {
        ghost var before := manager.State();
        manager.SafeAnyway(source);
        var records := manager.Data(source);
        CalmTransitive(start, before, manager.State());
        if |records| != cfg.capacity {
          break;
        }
        GrownAt(view, chain, manager.view, chain', j, cfg.capacity);
        ghost var before' := manager.State();
        if manager.handles[source].overflow == None {
          var i := manager.CreateOverflow(source);
          GrownBy(view, chain, i);
          chain' := chain + [Overflow(i)];
        }
        CalmTransitive(start, before', manager.State());
        source := Overflow(manager.handles[source].overflow.value);
        j := j + 1;
      }
      ghost var before := manager.State();
      InsertedAt(view, chain, manager.view, chain', j, cfg.capacity, (key, value));
      manager.Insert(source, (key, value));
      CalmTransitive(start, before, manager.State());
    }

    function ChainIndex(key: K): nat
      reads manager
      requires manager.meta.n > 0
    {
      Address(cfg.hash(key), manager.meta.n, manager.meta.p)
    }

    /** The loop that both rebalancing operations end with: re-insert the records of every bucket of
        the chain `target` and discard the bucket. */
    method Drain(first: BucketId, ghost target: Ids)
      requires Linked(target) && target != [] && target[0] == first && first in manager.handles
      requires OnlyBeyond(manager.State(), manager.meta.primaryCount, first)
      requires Quiet(manager.State(), Members(target), first)
      modifies this`ids, manager, manager.status
      ensures Linked([]) && manager.Safe(None) && manager.leaving == {}
      ensures Table() == PlaceBuckets(cfg, old(Table()), ChainOf(old(manager.view), target), |target|)
      ensures manager.meta == old(manager.meta)
      ensures Kept(old(manager.State()), manager.State(), Members(target))
      ensures forall b | b in manager.handles && b in target :: manager.handles[b].locks == 0
      ensures old(Lasting(manager.State(), manager.MetadataStored(), target)) || !Bare(ChainOf(old(manager.view), target)) ==> manager.Durable()
      ensures Bare(ChainOf(old(manager.view), target)) && Quiet(old(manager.State()), old(manager.handles).Keys, first) && !old(manager.MetadataStored()) ==>
        DrainedTo(old(manager.State()), old(manager.Disk()), manager.State(), manager.Disk(), manager.MetadataStored(),
                  target, |target|, manager.cacheSize)
    {
      hide Cache.Ok, Calm, WiredChain, ChainOf, Shape, PlaceBuckets, PlaceRecords, Kept, Drained, Wired, Covered, Lasting, DrainedOne, DrainedTo, Bare,
           DrainedUpTo, DrainedBucket, OnlyBeyond, Quiet, Members, Linked,
           FileBucketManager.Valid, FileBucketManager.Safe, FileBucketManager.MetadataStored;
      LinkedIs(target);
      ghost var start, disk, t, chain := manager.State(), manager.Disk(), Table(), ChainOf(manager.view, target);
      ghost var lasts := Lasting(start, manager.MetadataStored(), target);
      ghost var exact := Bare(chain) && Quiet(start, start.handles.Keys, first) && !manager.MetadataStored();
      DrainedNone(start, disk, manager.MetadataStored(), target, chain, manager.cacheSize, exact);
      var source := first;
      ghost var m := 0;
      assert target[0..] == target && chain[0..] == chain;
      PlaceNothing(cfg, t, chain);
      while true
        invariant m < |target| && source == target[m] && source in manager.handles
        invariant Linked(target[m..]) && manager.meta == old(manager.meta)
        invariant OnlyBeyond(manager.State(), manager.meta.primaryCount, source)
        invariant Quiet(manager.State(), Members(target), source)
        invariant ChainOf(manager.view, target[m..]) == chain[m..]
        invariant Table() == PlaceBuckets(cfg, t, chain, m)
        invariant DrainedUpTo(start, disk, manager.State(), manager.Disk(), manager.MetadataStored(), target, chain, m, manager.cacheSize, lasts, exact)
        decreases |target| - m
      {
        ghost var before, beforeDisk, current := manager.State(), manager.Disk(), manager.MetadataStored();
        assert target[m..][1..] == target[m + 1..] && chain[m..][1..] == chain[m + 1..] && chain[m..][0] == chain[m];
        manager.StoredIs();
        var next := DrainBucket(source, target[m..]);
        manager.StoredIs();
        DrainedMore(start, disk, before, beforeDisk, current, manager.State(), manager.Disk(), manager.MetadataStored(), target, chain, m,
                    manager.cacheSize, lasts, exact);
        PlaceOneMore(cfg, t, chain, m);
        m := m + 1;
        if next.None? {
          assert target[m..] == [];
          DrainedAll(start, disk, manager.State(), manager.Disk(), manager.MetadataStored(), target, chain, manager.cacheSize, lasts, exact);
          break;
        }
        source := Overflow(next.value);
      }
    }

    /** One turn of that loop. */
    method DrainBucket(source: BucketId, ghost rest: Ids) returns (next: Option<nat>)
      requires Linked(rest) && rest != [] && rest[0] == source && source in manager.handles
      requires OnlyBeyond(manager.State(), manager.meta.primaryCount, source)
      modifies this`ids, manager, manager.status
      ensures Linked(rest[1..]) && manager.Safe(None) && manager.leaving == {}
      ensures next.None? <==> |rest| == 1
      ensures next.Some? ==> rest[1] == Overflow(next.value) && rest[1] in manager.handles
      ensures OnlyBeyond(manager.State(), manager.meta.primaryCount, if |rest| > 1 then rest[1] else source)
      ensures ChainOf(manager.view, rest[1..]) == ChainOf(old(manager.view), rest)[1..]
      ensures Table() == PlaceRecords(cfg, old(Table()), ChainOf(old(manager.view), rest)[0], |ChainOf(old(manager.view), rest)[0]|)
      ensures manager.meta == old(manager.meta)
      ensures DrainedBucket(old(manager.State()), old(manager.Disk()), old(manager.MetadataStored()), manager.State(), manager.Disk(),
                            manager.MetadataStored(), source, ChainOf(old(manager.view), rest)[0], rest, manager.cacheSize)
    {
      hide Cache.Ok, Calm, WiredChain, ChainOf, Shape, PlaceRecords, Wired, OnlyBeyond, Covered, Fetched, Settled, Lasting, DrainedBucket, WithoutBucket,
           FileBucketManager.Valid, FileBucketManager.Safe;
      ghost var c, disk, current := manager.State(), manager.Disk(), manager.MetadataStored();
      LinkedIs(rest);
      var records := FetchToDrain(source, rest);
      ghost var d, e := WithLocks(c, source, c.handles[source].locks + 1, source.Primary?), manager.State();
      MoveRecords(records, source, rest);
      ghost var f := manager.State();
      CalmTransitive(d, e, f);
      CalmHandles(d, f);
      StaysLoaded(d, e, f, source);
      next := manager.handles[source].overflow;
      StillBeyond(c, rest);
      DiscardDrained(source, rest);
      BucketDrained(c, disk, current, d, f, manager.Disk(), manager.MetadataStored(), source, records, rest, manager.cacheSize);
    }

    lemma StillBeyond(c: Cache<K, V>, rest: Ids)
      requires Linked(rest) && rest != [] && OnlyBeyond(c, manager.meta.primaryCount, rest[0])
      requires manager.leaving <= c.leaving + {rest[0]}
      ensures OnlyBeyond(manager.State(), manager.meta.primaryCount, rest[0])
    {
      hide Cache.Ok, Shape, Wired, Covered, OnlyBeyond;
      BeyondAgain(c, manager.State(), ids, rest);
    }

    /** Lock the bucket to be drained and load it. */
    method FetchToDrain(source: BucketId, ghost rest: Ids) returns (records: seq<(K, V)>)
      requires Linked(rest) && rest != [] && rest[0] == source && source in manager.handles
      requires OnlyBeyond(manager.State(), manager.meta.primaryCount, source)
      modifies manager, manager.status
      ensures Linked(rest) && manager.Safe(None) && source in manager.loaded && source in manager.handles
      ensures manager.view == old(manager.view) && manager.meta == old(manager.meta)
      ensures manager.leaving == if source.Primary? then old(manager.leaving) + {source} else old(manager.leaving)
      ensures records == ChainOf(old(manager.view), rest)[0]
      ensures var d := WithLocks(old(manager.State()), source, old(manager.handles[source]).locks + 1, source.Primary?);
        && Calm(d, manager.State())
        && Fetched(d, old(manager.Disk()), manager.State(), manager.Disk(), manager.MetadataStored(), source, manager.cacheSize)
      ensures old(Lasting(manager.State(), manager.MetadataStored(), rest)) ==> Lasting(manager.State(), manager.MetadataStored(), rest)
      ensures old(manager.MetadataStored()) ==> manager.MetadataStored()
    {
      hide Cache.Ok, Calm, WiredChain, ChainOf, Shape, Wired, OnlyBeyond, Covered, Fetched, Settled, Lasting;
      ghost var c, current := manager.State(), manager.MetadataStored();
      FirstRecords(manager.view, ids, rest);
      manager.LockFlush(source, source.Primary?);
      ghost var d := manager.State();
      SafeToDrain(c, manager.meta.primaryCount, source, manager.handles[source].locks);
      records := manager.Data(source);
      CalmHandles(d, manager.State());
      if Lasting(c, current, rest) {
        LastingLocks(c, current, source, d.handles[source].locks, source.Primary?, rest);
        LastingSettled(d, current, manager.State(), manager.MetadataStored(), rest);
      }
      SettledCurrent(d, current, manager.State(), manager.MetadataStored());
    }

    /** The drained bucket leaves the manager. */
    method DiscardDrained(source: BucketId, ghost rest: Ids)
      requires Linked(rest) && rest != [] && rest[0] == source && source in manager.loaded
      requires OnlyBeyond(manager.State(), manager.meta.primaryCount, source)
      modifies manager, manager.status
      ensures Linked(rest[1..]) && manager.Safe(None) && manager.leaving == {}
      ensures old(manager.handles)[source].overflow.None? <==> |rest| == 1
      ensures |rest| > 1 ==>
        && old(manager.handles)[source].overflow.Some?
        && rest[1] == Overflow(old(manager.handles)[source].overflow.value) && rest[1] in manager.handles
      ensures OnlyBeyond(manager.State(), manager.meta.primaryCount, if |rest| > 1 then rest[1] else source)
      ensures ChainOf(manager.view, rest[1..]) == ChainOf(old(manager.view), rest)[1..]
      ensures Table() == old(Table()) && manager.meta == old(manager.meta) && manager.Disk() == old(manager.Disk())
      ensures source.Overflow? ==> source.index < |old(manager.State()).occupied|
      ensures manager.State() == WithoutBucket(old(manager.State()), source)
    {
      hide Cache.Ok, Calm, WiredChain, ChainOf, Shape, Wired, Covered;
      ghost var f := manager.State();
      OccupiedIs(f);
      ReadyFrom(f, source);
      LinkFromFirst(f.view, ids, rest);
      NoLinkToFirst(f.view, ids, rest);
      DiscardFirst(f.view, ids, rest);
      HeadsNotIn(f.view, ids, rest);
      manager.Discard(source);
    }

    /** Re-insert the records of one bucket of the chain that is being drained. */
    method MoveRecords(records: seq<(K, V)>, source: BucketId, ghost rest: Ids)
      requires Linked(rest) && manager.Safe(None) && rest != [] && rest[0] == source
      modifies this`ids, manager, manager.status
      ensures Linked(rest) && manager.Safe(None)
      ensures forall b | b in rest :: b in old(manager.view) && b in manager.view && manager.view[b] == old(manager.view)[b]
      ensures Table() == PlaceRecords(cfg, old(Table()), records, |records|)
      ensures manager.meta == old(manager.meta) && manager.leaving == old(manager.leaving)
      ensures Calm(old(manager.State()), manager.State())
      ensures if records == [] then manager.State() == old(manager.State()) && manager.Disk() == old(manager.Disk())
              else Lasting(manager.State(), manager.MetadataStored(), rest)
    {
      hide Cache.Ok, Calm, WiredChain, ChainOf, Shape, Wired, Covered,
           FileBucketManager.Valid, FileBucketManager.Safe, FileBucketManager.MetadataStored, Linked, PlaceRecords, InsertChain, Address, Lasting;
      ghost var start, t := manager.State(), Table();
      LinkedIs(rest);
      ManagerCalm();
      PlaceNone(cfg, t, records);
      var i := 0;
      while i < |records|
        invariant 0 <= i <= |records|
        invariant Linked(rest) && manager.Safe(None)
        invariant forall b | b in rest :: b in start.view && b in manager.view && manager.view[b] == start.view[b]
        invariant Table() == PlaceRecords(cfg, t, records, i)
        invariant if i == 0 then manager.State() == start && manager.Disk() == old(manager.Disk())
                  else Lasting(manager.State(), manager.MetadataStored(), rest)
        invariant manager.meta == old(manager.meta) && manager.leaving == old(manager.leaving)
        invariant Calm(start, manager.State())
      {
        ghost var before := manager.State();
        var (key, value) := records[i];
        LinkedIs(rest);
        PlaceMore(cfg, t, records, i);
        InsertInternal(key, value, ChainIndex(key), rest);
        LastingChange(manager.State(), manager.MetadataStored(), rest);
        CalmTransitive(start, before, manager.State());
        i := i + 1;
      }
    }

    /** Lock the bucket to be split and load it. */
    method LoadForSplit(p: nat)
      requires Connected([]) && manager.Safe(None) && Idle() && p < |ids|
      modifies manager, manager.status
      ensures manager.Valid() && manager.Safe(None) && manager.view == old(manager.view) && manager.leaving == {}
      ensures manager.meta == old(manager.meta)
      ensures Primary(p) in manager.loaded && Primary(p) in manager.handles && manager.handles[Primary(p)].locks == 1
      ensures forall b | b in manager.handles && b != Primary(p) :: manager.handles[b].locks == 0
      ensures forall b | b in old(manager.handles) :: b in manager.handles
    {
      hide Cache.Ok, Covered, Calm, WiredChain, ChainOf;
      ghost var c := manager.State();
      manager.LockFlush(bucketChains[p], false);
      ghost var d := manager.State();
      var records := manager.Data(bucketChains[p]);
      OneLocked(c, d, manager.State(), Primary(p));
    }

    /** `split`: an empty bucket takes the slot of bucket `p` and another one is added at the end. */
    method ReplaceBySplit(p: nat)
      requires manager.Valid() && manager.Safe(None) && manager.leaving == {}
      requires |bucketChains| == manager.meta.primaryCount && p < |bucketChains|
      requires forall i | 0 <= i < |bucketChains| :: bucketChains[i] == Primary(i) && Primary(i) in manager.handles
      requires Primary(p) in manager.loaded && Primary(p) in manager.view && manager.handles[Primary(p)].locks == 1
      requires forall b | b in manager.handles && b != Primary(p) :: manager.handles[b].locks == 0
      requires Detached(p) !in manager.view && Primary(|bucketChains|) !in manager.view
      modifies this`bucketChains, manager, manager.status
      ensures manager.Valid() && manager.Safe(None) && manager.leaving == {Detached(p)}
      ensures manager.view == Wiring.Opened(old(manager.view), |old(bucketChains)|, p)
      ensures manager.meta == old(manager.meta).(primaryCount := old(manager.meta.primaryCount) + 1)
      ensures |bucketChains| == |old(bucketChains)| + 1
      ensures forall i | 0 <= i < |bucketChains| :: bucketChains[i] == Primary(i) && Primary(i) in manager.handles
      ensures Detached(p) in manager.handles
      ensures Primary(p) in manager.loaded && manager.State().Dirty(Primary(p)) && manager.handles[Primary(p)].locks == 1
      ensures forall b | b in manager.handles && b != Primary(p) && b != Detached(p) :: manager.handles[b].locks == 0
    {
      hide Cache.Ok, Covered, Calm, FileBucketManager.Valid, FileBucketManager.Safe;
      SetAside(p);
      ghost var e := manager.State();
      Grow();
      StillLocked(e, manager.State(), Primary(p), Detached(p));
      Relock(Primary(p));
    }

    /** The first part of that: the empty bucket takes the slot and is locked. */
    method SetAside(p: nat)
      requires manager.Valid() && manager.Safe(None) && manager.leaving == {} && p < manager.meta.primaryCount
      requires Primary(p) in manager.loaded && Primary(p) in manager.view && Primary(p) in manager.handles && manager.handles[Primary(p)].locks == 1
      requires forall b | b in manager.handles && b != Primary(p) :: manager.handles[b].locks == 0
      requires Detached(p) !in manager.view
      modifies manager, manager.status
      ensures manager.Valid() && manager.Safe(None) && manager.leaving == {Detached(p)} && manager.meta == old(manager.meta)
      ensures manager.view == (old(manager.view) - {Primary(p)})[Detached(p) := old(manager.view)[Primary(p)]][Primary(p) := Page(None, [])]
      ensures Detached(p) in manager.handles && Primary(p) in manager.handles && forall b | b in old(manager.handles) :: b in manager.handles
      ensures Primary(p) in manager.loaded && manager.State().Dirty(Primary(p)) && manager.handles[Primary(p)].locks == 1
      ensures forall b | b in manager.handles && b != Primary(p) && b != Detached(p) :: manager.handles[b].locks == 0
    {
      hide Cache.Ok, Covered, Calm, FileBucketManager.Valid, FileBucketManager.Safe;
      manager.Detach(p);
      ghost var c := manager.State();
      manager.NewPrimary(p);
      ghost var d := manager.State();
      StillQuiet(c, d, Primary(p), Detached(p));
      manager.LockFlush(Primary(p), false);
    }

    /** The guard of `split` is released and the one of `rebalance_split` is taken. */
    method Relock(b: BucketId)
      requires manager.Valid() && b in manager.handles && manager.handles[b].locks == 1 && b !in manager.leaving
      modifies manager
      ensures manager.Valid() && manager.State() == old(manager.State()) && manager.meta == old(manager.meta)
      ensures old(manager.Safe(None)) ==> manager.Safe(None)
    {
      hide Cache.Ok, Covered;
      manager.UnlockFlush(b);
      manager.LockFlush(b, false);
    }

    /** `split` and the move of the split pointer: the bucket to be split is locked and loaded, gives its
        slot to an empty bucket and waits, detached, for its records to be moved. */
    method OpenForSplit() returns (ghost target: Ids)
      requires Linked([]) && manager.Safe(None) && Idle()
      modifies this, manager, manager.status
      ensures target != [] && target[0] == Detached(old(manager.meta.p)) && target[0] in manager.handles
      ensures Linked(target) && manager.Safe(None) && manager.leaving == {target[0]}
      ensures Table() == TableModel.Opened(cfg, old(Table()))
      ensures ChainOf(manager.view, target) == old(Table()).chains[old(manager.meta.p)]
      ensures Quiet(manager.State(), Members(target), target[0])
      ensures var kept := Primary(old(manager.meta.p));
        && kept in manager.loaded && manager.State().Dirty(kept) && kept !in target && manager.handles[kept].locks == 1
        && forall b | b in manager.handles && b != kept && b != target[0] :: manager.handles[b].locks == 0
    {
      hide Cache.Ok, Covered, Calm, WiredChain, ChainOf, Shape, TableModel.Opened, Advance, Wiring.Opened, Wired, Wider,
           FileBucketManager.Valid, FileBucketManager.Safe, FileBucketManager.MetadataStored;
      ghost var start, t := manager.State(), Table();
      ShapePositive(cfg, t);
      var p := manager.meta.p;
      NoPrimaryBeyond(start.view, ids);
      SplitTarget(start.view, ids, p);
      LoadForSplit(p);
      target := ids[p][0 := Detached(p)];
      ReplaceBySplit(p);
      OpenTwo(start.view, ids, p);
      OpenTwoChains(start.view, ids, p);
      ids := Wider(ids, p);
      var (n', p') := Advance(manager.meta.n, manager.meta.p);
      SetMetadata(manager.meta.(n := n', p := p'));
      OpenedShape(cfg, t);
      assert Table() == TableModel.Opened(cfg, t);
    }

    /** One turn of the `rebalance_split` loop. */
    method SplitOnce()
      requires Linked([]) && manager.Safe(None) && Idle()
      modifies this, manager, manager.status
      ensures Linked([]) && manager.Safe(None) && Idle()
      ensures Table() == SplitStep(cfg, old(Table()))
      ensures manager.AnyDirty()
    {
      hide Cache.Ok, Covered, Calm, WiredChain, ChainOf, Shape, Kept, TableModel.Opened, Wired,
           FileBucketManager.Valid, FileBucketManager.Safe, FileBucketManager.MetadataStored;
      ghost var t := Table();
      ghost var kept := Primary(manager.meta.p);
      var p := manager.meta.p;
      ghost var target := OpenForSplit();
      ghost var c := manager.State();
      SplitStepIs(cfg, t);
      NothingBeyond(manager.view, ids, target);
      Drain(Detached(p), target);
      KeptQuiet(c, manager.State(), Members(target), kept, target[0]);
      ReleaseFlush(Primary(p));
    }

    /** The bucket that was split may leave the cache again. */
    method ReleaseFlush(b: BucketId)
      requires Linked([]) && manager.Safe(None) && manager.leaving == {} && b in manager.handles && manager.handles[b].locks == 1
      requires manager.State().Dirty(b) && forall x | x in manager.handles && x != b :: manager.handles[x].locks == 0
      modifies manager
      ensures Linked([]) && manager.Safe(None) && Idle() && manager.State().Dirty(b)
      ensures Table() == old(Table())
    {
      hide Cache.Ok, Covered, Shape, Wired, ChainOf;
      manager.UnlockFlush(b);
    }

    /** One turn of the `rebalance_merge` loop: the last chain is taken out and its records are moved. */
    method MergeOnce()
      requires Linked([]) && manager.Safe(None) && Idle() && |ids| > 1
      modifies this, manager, manager.status
      ensures Linked([]) && manager.Safe(None) && Idle()
      ensures Table() == MergeStep(cfg, old(Table()))
      ensures |ids| == |old(ids)| - 1
      ensures (exists b :: old(manager.State()).Dirty(b) && b !in old(ids)[|old(ids)| - 1]) || !Bare(old(Table()).chains[|old(ids)| - 1]) ==>
        manager.Durable()
      ensures Bare(old(Table()).chains[|old(ids)| - 1]) && NotYet(old(manager.stored), manager.meta) ==>
        Merged(old(manager.loaded), Dirt(old(manager.State())), old(manager.Disk()), manager.State(), manager.Disk(), manager.MetadataStored(),
               old(ids)[|old(ids)| - 1], manager.cacheSize)
    {
      hide Cache.Ok, Calm, WiredChain, ChainOf, Shape, Kept, TableModel.Closed, Bare, Wired, MergeStep, Covered, DrainedTo, Merged, Quiet,
           OnlyBeyond, FileBucketManager.Valid, FileBucketManager.Safe;
      ghost var t, c, disk := Table(), manager.State(), manager.Disk();
      MergeStepIs(cfg, t);
      var first := bucketChains[manager.meta.primaryCount - 1];
      ghost var target := CloseForMerge();
      QuietIdle(c, Members(target), first);
      ghost var unlike := NotYet(manager.stored, manager.meta);
      Drain(first, target);
      if Bare(t.chains[|t.chains| - 1]) && unlike {
        MergedFrom(c, disk, manager.State(), manager.Disk(), manager.MetadataStored(), target, manager.cacheSize);
      }
      KeptQuiet(c, manager.State(), Members(target), first, first);
    }

    /** `shrink` and the move of the split pointer: the last chain leaves the table and waits for its records
        to be moved. */
    method CloseForMerge() returns (ghost target: Ids)
      requires Linked([]) && manager.Safe(None) && Idle() && |ids| > 1
      modifies this`ids, this`bucketChains, manager`meta
      ensures target == old(ids)[|old(ids)| - 1] && ids == old(ids)[..|old(ids)| - 1]
      ensures target != [] && target[0] == old(bucketChains)[|old(ids)| - 1] && target[0] in manager.handles
      ensures Linked(target) && Table() == TableModel.Closed(cfg, old(Table()))
      ensures ChainOf(manager.view, target) == old(Table()).chains[|old(ids)| - 1]
      ensures manager.State() == old(manager.State()) && manager.Disk() == old(manager.Disk())
      ensures OnlyBeyond(manager.State(), manager.meta.primaryCount, target[0])
    {
      hide Cache.Ok, WiredChain, ChainOf, Shape, TableModel.Closed, Retreat, Wired, Covered, FileBucketManager.Valid, FileBucketManager.Safe;
      ghost var t := Table();
      ShapePositive(cfg, t);
      var count := manager.meta.primaryCount - 1;
      ghost var first := bucketChains[count];
      bucketChains := bucketChains[..count];
      target := ids[count];
      ChainIsWired(manager.view, ids, [], count);
      CloseLast(manager.view, ids);
      ids := ids[..count];
      OnlyLastBeyond(manager.view, ids, target, first);
      ClosedShape(cfg, t);
      var (n', p') := Retreat(manager.meta.n, manager.meta.p);
      SetMetadata(Metadata(n', p', manager.meta.size, count));
      assert Table() == TableModel.Closed(cfg, t);
    }

    /** `rebalance_split` and `rebalance_merge`. */
    method RebalanceSplit()
      requires Linked([]) && manager.Safe(None) && Idle() && manager.AnyDirty()
      modifies this, manager, manager.status
      ensures Linked([]) && manager.Safe(None) && Idle() && manager.AnyDirty()
      ensures Table() == TableModel.RebalanceSplit(cfg, old(Table()))
    {
      hide Cache.Ok, Covered, WiredChain, ChainOf, Shape, SplitStep, Wired;
      ghost var result := TableModel.RebalanceSplit(cfg, Table());
      while Overloaded(cfg.capacity, manager.meta.size, |bucketChains|)
        invariant Linked([]) && manager.Safe(None) && Idle() && manager.AnyDirty()
        invariant TableModel.RebalanceSplit(cfg, Table()) == result
        decreases 20 * manager.meta.size - 19 * Room(cfg.capacity, |bucketChains|)
      {
        ghost var t := Table();
        SplitStepSize(cfg, t);
        SplitOnce();
      }
    }

    method RebalanceMerge()
      requires Linked([]) && manager.Safe(None) && Idle() && cfg.minCount > 0
      modifies this, manager, manager.status
      ensures Linked([]) && manager.Safe(None) && Idle()
      ensures Table() == TableModel.RebalanceMerge(cfg, old(Table()))
      ensures old(manager.AnyDirty()) && |ids| == |old(ids)| ==> manager.AnyDirty()
      ensures |ids| < |old(ids)| && !Bare(TableModel.LastMerged(cfg, old(Table()), [])) ==> manager.Durable()
      ensures |ids| == |old(ids)| - 1 && (exists b :: old(manager.State()).Dirty(b) && b !in old(ids)[|ids|]) ==> manager.Durable()
      ensures |ids| == |old(ids)| - 1 && Bare(old(Table()).chains[|ids|]) && NotYet(old(manager.stored), manager.meta) ==>
        Merged(old(manager.loaded), Dirt(old(manager.State())), old(manager.Disk()), manager.State(), manager.Disk(), manager.MetadataStored(),
               old(ids)[|ids|], manager.cacheSize)
      ensures |ids| == |old(ids)| - 1 ==> TableModel.LastMerged(cfg, old(Table()), []) == old(Table()).chains[|ids|]
    {
      hide Cache.Ok, WiredChain, ChainOf, Shape, MergeStep, Wired, Bare, Covered, Merged;
      ghost var result := TableModel.RebalanceMerge(cfg, Table());
      ghost var last: Chain<K, V> := [];
      while |bucketChains| > cfg.minCount && Underloaded(cfg.capacity, manager.meta.size, |bucketChains|)
        invariant Linked([]) && manager.Safe(None) && Idle()
        invariant TableModel.RebalanceMerge(cfg, Table()) == result
        invariant |ids| <= |old(ids)| && (|ids| == |old(ids)| && old(manager.AnyDirty()) ==> manager.AnyDirty())
        invariant |ids| == |old(ids)| ==>
          ids == old(ids) && Table() == old(Table()) && manager.State() == old(manager.State()) && manager.Disk() == old(manager.Disk())
        invariant |ids| == |old(ids)| - 1 && (exists b :: old(manager.State()).Dirty(b) && b !in old(ids)[|ids|]) ==> manager.Durable()
        invariant |ids| == |old(ids)| - 1 && Bare(old(Table()).chains[|ids|]) && NotYet(old(manager.stored), manager.meta) ==>
          Merged(old(manager.loaded), Dirt(old(manager.State())), old(manager.Disk()), manager.State(), manager.Disk(), manager.MetadataStored(),
                 old(ids)[|ids|], manager.cacheSize)
        invariant |ids| == |old(ids)| - 1 ==> last == old(Table()).chains[|ids|]
        invariant |ids| < |old(ids)| && !Bare(last) ==> manager.Durable()
        invariant TableModel.LastMerged(cfg, Table(), last) == TableModel.LastMerged(cfg, old(Table()), [])
        decreases |bucketChains|
      {
        ghost var t := Table();
        MergeStepSize(cfg, t);
        LastMergedStep(cfg, t, last);
        last := t.chains[|t.chains| - 1];
        MergeOnce();
      }
    }

    /** Remove record `i` from bucket `j` of chain `c`. */
    method RemoveRecord(c: nat, ghost j: nat, source: BucketId, i: nat)
      requires Linked([]) && manager.Safe(None) && Idle() && c < |ids| && j < |ids[c]| && source == ids[c][j]
      requires source in manager.handles && i < |Table().chains[c][j]|
      modifies manager, manager.status
      ensures Linked([]) && manager.Safe(None) && Idle() && manager.AnyDirty()
      ensures Table() == old(Table()).(chains := old(Table()).chains[c := old(Table()).chains[c][j := Without(old(Table()).chains[c][j], i)]])
      ensures manager.meta == old(manager.meta)
      ensures manager.State().Dirty(source) && ids == old(ids)
      ensures source in old(manager.loaded) ==> manager.loaded == old(manager.loaded) && manager.Disk() == old(manager.Disk())
      ensures source in old(manager.loaded) ==> forall x :: manager.State().Dirty(x) <==> x == source || old(manager.State()).Dirty(x)
    {
      hide Cache.Ok, Covered, Calm, WiredChain, ChainOf, Shape, Wired;
      ghost var start, t := manager.State(), Table();
      ChainIsWired(start.view, ids, [], c);
      RecordsAt(start.view, ids[c], j);
      RewriteChain(start.view, ids[c], j, Without(t.chains[c][j], i));
      manager.RemoveAt(source, i);
      CalmHandles(start, manager.State());
      CalmIdle(start, manager.State());
      ReplaceChain(start.view, manager.view, ids, [], c, ids[c]);
      assert ids[c := ids[c]] == ids;
      ErasedShape(cfg, t, c, j, i);
    }

    /** `insert`. */
    method Insert(key: K, value: V, cleanupFilter: (K, V) -> bool) returns (inserted: bool)
      requires Valid()
      modifies this, manager, manager.status
      ensures Valid()
      ensures (Table(), inserted) == TableModel.Insert(cfg, old(Table()), key, value, cleanupFilter)
      ensures inserted <==> key !in old(Contents(Table()))
      ensures inserted ==>
        Contents(Table()) == AfterInsert(old(Contents(Table())), old(Dropped(cfg, Table(), key, cleanupFilter)), key, value)
      ensures !inserted ==> Contents(Table()) == old(Contents(Table()))
      ensures inserted ==> manager.AnyDirty()
      ensures !inserted ==> (old(manager.Durable()) ==> manager.Durable())
    {
      hide Cache.Ok, Covered, Calm, WiredChain, ChainOf, Shape, WellFormed, Contents, Wired, Place, Find, FindInChain,
           TableModel.Insert, Inserted, Cleanable, AfterInsert;
      ghost var t := Table();
      ShapePositive(cfg, t);
      ChainForInRange(cfg, t, key);
      FindIs(cfg, t, key);
      InsertIsMapInsert(cfg, t, key, value, cleanupFilter);
      InsertCases(cfg, t, key, value, cleanupFilter);
      var c := ChainIndex(key);
      ghost var start := manager.State();
      var found, source, index, j := FindInternal(key, c);
      CalmIdle(start, manager.State());
      if found {
        return false;
      }
      InsertNew(key, value, c, cleanupFilter);
      return true;
    }

    /** The part of `insert` for a key that the table does not hold. */
    method InsertNew(key: K, value: V, c: nat, filter: (K, V) -> bool)
      requires Linked([]) && manager.Safe(None) && Idle() && c < |ids| && c == ChainFor(cfg, Table(), key)
      modifies this, manager, manager.status
      ensures Linked([]) && manager.Safe(None) && Idle() && manager.AnyDirty()
      ensures Table() == if Cleanable(cfg, old(Table()), key, filter).Some?
                         then Inserted(cfg, old(Table()), key, value, filter)
                         else TableModel.RebalanceSplit(cfg, Inserted(cfg, old(Table()), key, value, filter))
    {
      hide Cache.Ok, Covered, Calm, WiredChain, ChainOf, Shape, Wired, Place, Inserted, Cleanable, Cleaned;
      ghost var t := Table();
      InsertIs(cfg, t, key, value, filter);
      var removed := Cleanup(key, c, filter);
      ghost var before := manager.State();
      InsertInternal(key, value, c, []);
      CalmIdle(before, manager.State());
      if !removed {
        SetMetadata(manager.meta.(size := manager.meta.size + 1));
        assert Table() == Inserted(cfg, t, key, value, filter);
        RebalanceSplit();
      }
    }

    /** The cleanup of `insert`: drop the first record of the primary bucket that the filter accepts. */
    method Cleanup(key: K, c: nat, filter: (K, V) -> bool) returns (removed: bool)
      requires Linked([]) && manager.Safe(None) && Idle() && c < |ids| && c == ChainFor(cfg, Table(), key)
      modifies manager, manager.status
      ensures Linked([]) && manager.Safe(None) && Idle()
      ensures removed <==> Cleanable(cfg, old(Table()), key, filter).Some?
      ensures Table() == Cleaned(cfg, old(Table()), key, filter)
      ensures manager.meta == old(manager.meta)
    {
      hide Cache.Ok, Covered, Calm, WiredChain, ChainOf, Shape, Wired;
      ghost var start, t := manager.State(), Table();
      RecordsOfFirst(manager.view, ids, c);
      var records := manager.Data(bucketChains[c]);
      CalmIdle(start, manager.State());
      CalmHandles(start, manager.State());
      CleanedIs(cfg, t, key, filter);
      assert Table() == t;
      var i := FirstAccepted(records, filter);
      if i.None? {
        return false;
      }
      RemoveRecord(c, 0, bucketChains[c], i.value);
      return true;
    }

    /** `remove`. */
    method Remove(key: K) returns (value: Option<V>)
      requires Valid()
      modifies this, manager, manager.status
      ensures Valid()
      ensures old(Find(cfg, Table(), key).Some? ==> Table().size > 0)
      ensures (Table(), value) == TableModel.Remove(cfg, old(Table()), key)
      ensures value == if key in old(Contents(Table())) then Some(old(Contents(Table()))[key]) else None
      ensures Contents(Table()) == old(Contents(Table())) - {key}
      ensures value.Some? && |bucketChains| == |old(bucketChains)| ==> manager.AnyDirty()
      ensures value == None ==> (old(manager.Durable()) ==> manager.Durable())
      ensures !Bare(LastDrained(cfg, old(Table()), key)) ==> manager.Durable()
      ensures |bucketChains| == |old(bucketChains)| - 1 && !Lonely(cfg, old(Table()), key) ==> manager.Durable()
      ensures |bucketChains| == |old(bucketChains)| - 1 && Lonely(cfg, old(Table()), key) && NotYet(old(manager.stored), manager.meta) ==>
        && (manager.Durable() <==> old(LeavesTraceOf(key)))
        && (!manager.Durable() && !old(manager.AnyDirty()) ==> manager.Disk() == old(manager.Disk()))
    {
      hide Cache.Ok, Calm, WiredChain, ChainOf, Shape, WellFormed, Contents, Wired, Find, FindInChain,
           TableModel.Remove, Erased, Bare, Lonely, Covered, LastDrained, LeavesTraceOf, Walked, WalkFlushes, LeavesTrace,
           FileBucketManager.AnyDirty, FileBucketManager.MetadataStored, FileBucketManager.Durable, NotYet;
      ghost var t := Table();
      ShapeOf(cfg, t);
      RemoveIsMapRemove(cfg, t, key);
      RemoveCases(cfg, t, key);
      LastDrainedIs(cfg, t, key);
      if Lonely(cfg, t, key) {
        LeavesTraceIs(key);
      }
      value := RemoveKey(key);
    }

    /** The same over the chains. */
    method RemoveKey(key: K) returns (value: Option<V>)
      requires Linked([]) && manager.Safe(None) && Idle() && cfg.minCount > 0
      requires Find(cfg, Table(), key).Some? ==> Table().size > 0
      modifies this, manager, manager.status
      ensures Linked([]) && manager.Safe(None) && Idle()
      ensures value == old(Find(cfg, Table(), key))
      ensures value.None? ==> Table() == old(Table()) && bucketChains == old(bucketChains) && (old(manager.Durable()) ==> manager.Durable())
      ensures value.Some? ==> Table() == TableModel.RebalanceMerge(cfg, Erased(cfg, old(Table()), key))
      ensures value.Some? && |bucketChains| == |old(bucketChains)| ==> manager.AnyDirty()
      ensures value.Some? && |bucketChains| < |old(bucketChains)| && !Bare(TableModel.LastMerged(cfg, Erased(cfg, old(Table()), key), [])) ==>
        manager.Durable()
      ensures |bucketChains| == |old(bucketChains)| - 1 && !old(Lonely(cfg, Table(), key)) ==> manager.Durable()
      ensures |bucketChains| == |old(bucketChains)| - 1 && old(Lonely(cfg, Table(), key)) && NotYet(old(manager.stored), manager.meta) ==>
        && |bucketChains| == |old(ids)| - 1 == |old(Table()).chains| - 1
        && var chain, n := old(ids)[|bucketChains|], manager.cacheSize;
           var found := FindInChain(old(Table()).chains[|bucketChains|], key);
        && found.Some? && found.value.0 < |chain|
        && var k := found.value.0 + 1;
           var dirty := (if WalkFlushes(old(manager.loaded), chain, k, n) then {} else Dirt(old(manager.State()))) + {chain[k - 1]};
        && (manager.Durable() <==> LeavesTrace(Walked(old(manager.loaded), chain, k, n), dirty, chain, n))
        && (!manager.Durable() && !old(manager.AnyDirty()) ==> manager.Disk() == old(manager.Disk()))
    {
      hide Cache.Ok, Calm, WiredChain, ChainOf, Shape, Wired, Find, FindInChain, Erased, Bare, Lonely, Covered, WalkedTo,
           Walked, WalkFlushes, LeavesTrace,
           FileBucketManager.Valid, FileBucketManager.Safe;
      ghost var t, before, disk := Table(), manager.State(), manager.Disk();
      LinkedIs([]);
      ShapePositive(cfg, t);
      ChainForInRange(cfg, t, key);
      FindIs(cfg, t, key);
      LonelyIs(cfg, t, key);
      var c := ChainIndex(key);
      var found, source, index, j := FindInternal(key, c);
      if !found {
        return None;
      }
      WalkedBy(before, disk, manager.State(), manager.Disk(), manager.MetadataStored(), ids[c], j + 1, manager.cacheSize);
      value := RemoveFound(key, c, source, index, j);
    }

    /** The removal of `key`, the last record of the last chain, reaches the files: it is walked to, which may
        push buckets out of the cache, and then the chain is drained. */
    ghost predicate LeavesTraceOf(key: K)
      requires Valid() && Lonely(cfg, Table(), key)
      reads this, manager, manager.status
    {
      LonelyIs(cfg, Table(), key);
      FindIs(cfg, Table(), key);
      var chain, n := ids[|ids| - 1], manager.cacheSize;
      var j := FindInChain(Table().chains[|ids| - 1], key).value.0;
      var dirty := if WalkFlushes(manager.loaded, chain, j + 1, n) then {} else Dirt(manager.State());
      LeavesTrace(Walked(manager.loaded, chain, j + 1, n), dirty + {chain[j]}, chain, n)
    }

    lemma LeavesTraceIs(key: K)
      requires Valid() && Lonely(cfg, Table(), key)
      ensures |ids| > 0 && |ids[|ids| - 1]| == |Table().chains[|ids| - 1]| && FindInChain(Table().chains[|ids| - 1], key).Some?
      ensures var chain, n, j := ids[|ids| - 1], manager.cacheSize, FindInChain(Table().chains[|ids| - 1], key).value.0;
        LeavesTraceOf(key) <==>
        LeavesTrace(Walked(manager.loaded, chain, j + 1, n),
                    (if WalkFlushes(manager.loaded, chain, j + 1, n) then {} else Dirt(manager.State())) + {chain[j]}, chain, n)
    {
      hide Cache.Ok, Covered, Shape, WellFormed, Wired, ChainOf, Lonely, Walked, WalkFlushes, LeavesTrace, FindInChain;
      LonelyIs(cfg, Table(), key);
      FindIs(cfg, Table(), key);
    }

    /** With nothing else to write: exactly if the walk to the key pushes the first bucket of its chain out
        and leaves the cache full. */
    lemma LeavesTraceWhen(key: K)
      requires Valid() && Lonely(cfg, Table(), key) && !manager.AnyDirty()
      ensures |ids| > 0 && |ids[|ids| - 1]| == |Table().chains[|ids| - 1]|
      ensures FindInChain(Table().chains[|ids| - 1], key).Some?
      ensures var chain, n := ids[|ids| - 1], manager.cacheSize;
        var w := Walked(manager.loaded, chain, FindInChain(Table().chains[|ids| - 1], key).value.0 + 1, n);
        LeavesTraceOf(key) <==> chain[0] !in w && |w| >= n
    {
      hide Cache.Ok, Shape, WellFormed, WiredChain, ChainOf, Lonely, Walked, WalkFlushes, LeavesTrace, Covered, Wired;
      LonelyIs(cfg, Table(), key);
      FindIs(cfg, Table(), key);
      var chain := ids[|ids| - 1];
      ChainApart(manager.view, ids);
      assert Dirt(manager.State()) == {};
      var j := FindInChain(Table().chains[|ids| - 1], key).value.0;
      assert {} + {chain[j]} == {chain[j]};
      WalkThenDrain(manager.loaded, chain, j, manager.cacheSize);
    }

    /** So a removal from the primary bucket of the chain leaves none, whatever the cache size. */
    lemma PrimaryLeavesNoTrace(key: K)
      requires Valid() && Lonely(cfg, Table(), key) && !manager.AnyDirty()
      requires |Table().chains| > 0 && FindInBucket(FirstBucket(Table().chains[|Table().chains| - 1]), key).Some?
      ensures !LeavesTraceOf(key)
    {
      hide Valid, Table, Lonely, LeavesTraceOf, FindInChain, FindInBucket, Walked, FileBucketManager.AnyDirty;
      SameIds();
      LeavesTraceWhen(key);
      FoundFirst(Table().chains[|ids| - 1], key);
      FirstStays(manager.loaded, ids[|ids| - 1], manager.cacheSize);
    }

    /** The removal will be lost when the table is closed: the record is the last one of the last chain,
        which is merged away, and nothing is written on the way. */
    ghost predicate ComesBack(key: K)
      requires Valid()
      reads this, manager, manager.status
    {
      && Lonely(cfg, Table(), key)
      && |Table().chains| > cfg.minCount && Underloaded(cfg.capacity, Table().size - 1, |Table().chains|)
      && !LeavesTraceOf(key)
    }

    lemma OneMerge(key: K)
      requires Valid() && InBand(cfg, Table()) && cfg.capacity >= 2 && cfg.minCount >= 4
      ensures Shape(cfg, Table()) && (Find(cfg, Table(), key).Some? ==> Table().size > 0)
      ensures var t, t' := Table(), TableModel.Remove(cfg, Table(), key).0;
        && |t.chains| - 1 <= |t'.chains| <= |t.chains|
        && (Lonely(cfg, t, key) ==> key in Contents(t))
        && (Lonely(cfg, t, key) ==>
              (|t'.chains| < |t.chains| <==> |t.chains| > cfg.minCount && Underloaded(cfg.capacity, t.size - 1, |t.chains|)))
    {
      hide Shape, WellFormed, Contents, Wired, ChainOf, InBand, Cache.Ok, Covered, Bare, Find;
      HasShape();
      var t := Table();
      RemoveKeepsBand(cfg, t, key);
      FindIsLookup(cfg, t, key);
      RemoveCases(cfg, t, key);
      if Lonely(cfg, t, key) {
        LonelyIs(cfg, t, key);
        ErasedIs(cfg, t, key);
        MergeShrinks(cfg, Erased(cfg, t, key));
      }
    }

    /** Remove a key from a table that has just been flushed, close it and open its files again: the
        removal is there, unless it comes back, and then the whole table is the one before the removal. */
    method RemoveAndReopen(key: K, cacheSize: nat) returns (value: Option<V>, again: LinearHashingTable<K, V>)
      requires Valid() && !manager.AnyDirty() && manager.MetadataStored()
      requires InBand(cfg, Table()) && cfg.capacity >= 2 && cfg.minCount >= 4
      modifies this, manager, manager.status
      ensures fresh(again) && fresh(again.manager) && fresh(again.manager.status)
      ensures again.cfg == cfg && again.Valid()
      ensures Valid() && Contents(Table()) == old(Contents(Table())) - {key}
      ensures again.Table() == if old(ComesBack(key)) then old(Table()) else Table()
      ensures key in Contents(again.Table()) <==> old(ComesBack(key))
    {
      hide Valid, Table, Contents, Lonely, Bare, InBand, Loadable, SavedTable, LeavesTraceOf, TableModel.Remove, All, Find, LastDrained, Erased;
      ghost var t, disk, back := Table(), manager.Disk(), ComesBack(key);
      ghost var count := |bucketChains|;
      FilesCurrent();
      OneMerge(key);
      SameCount();
      value := Remove(key);
      SameCount();
      again := CloseAndReopen(cacheSize);
    }

    /** The part of `remove` for a key that was found at place `index` of bucket `source`. */
    method RemoveFound(key: K, c: nat, source: BucketId, index: nat, ghost j: nat) returns (value: Option<V>)
      requires Linked([]) && manager.Safe(None) && Idle() && c < |ids| && c == ChainFor(cfg, Table(), key)
      requires FindInChain(Table().chains[c], key) == Some((j, index)) && j < |ids[c]| && source == ids[c][j]
      requires manager.Ready(source) && cfg.minCount > 0
      requires Find(cfg, Table(), key).Some? && Table().size > 0
      modifies this, manager, manager.status
      ensures Linked([]) && manager.Safe(None) && Idle()
      ensures Table() == TableModel.RebalanceMerge(cfg, Erased(cfg, old(Table()), key))
      ensures value == old(Find(cfg, Table(), key))
      ensures |bucketChains| == |old(bucketChains)| ==> manager.AnyDirty()
      ensures |bucketChains| < |old(bucketChains)| && !Bare(TableModel.LastMerged(cfg, Erased(cfg, old(Table()), key), [])) ==> manager.Durable()
      ensures |bucketChains| == |old(bucketChains)| - 1 && !old(Lonely(cfg, Table(), key)) ==> manager.Durable()
      ensures |bucketChains| == |old(bucketChains)| - 1 && old(Lonely(cfg, Table(), key)) && NotYet(old(manager.stored), manager.meta) ==>
        && c == |bucketChains|
        && Merged(old(manager.loaded), Dirt(old(manager.State())) + {source}, old(manager.Disk()), manager.State(), manager.Disk(), manager.MetadataStored(),
                  old(ids)[c], manager.cacheSize)
    {
      hide Cache.Ok, Calm, WiredChain, ChainOf, Shape, Wired, Find, FindInChain, Erased, Bare, Covered, Merged,
           FileBucketManager.Valid, FileBucketManager.Safe, FileBucketManager.MetadataStored, Lonely, NotYet, Linked, WithRecords;
      ghost var t, ids0, start, disk := Table(), ids, manager.State(), manager.Disk();
      LinkedIs([]);
      ErasedIs(cfg, t, key);
      LonelyIs(cfg, t, key);
      value := Erase(key, c, source, index, j);
      LinkedApart(c, source);
      ghost var last, after := |ids| - 1, manager.State();
      RebalanceMerge();
      LinkedIs([]);
      assert |ids| == last ==> TableModel.LastMerged(cfg, Erased(cfg, t, key), []) == Erased(cfg, t, key).chains[last];
    }

    /** The part of that before the table is rebalanced. */
    method Erase(key: K, c: nat, source: BucketId, index: nat, ghost j: nat) returns (value: Option<V>)
      requires Linked([]) && manager.Safe(None) && Idle() && c < |ids| && c == ChainFor(cfg, Table(), key)
      requires FindInChain(Table().chains[c], key) == Some((j, index)) && j < |ids[c]| && source == ids[c][j]
      requires manager.Ready(source) && Find(cfg, Table(), key).Some? && Table().size > 0
      modifies manager, manager.status
      ensures Linked([]) && manager.Safe(None) && Idle()
      ensures Table() == Erased(cfg, old(Table()), key) && value == old(Find(cfg, Table(), key))
      ensures manager.State().Dirty(source) && Dirt(manager.State()) == Dirt(old(manager.State())) + {source}
      ensures manager.loaded == old(manager.loaded) && manager.Disk() == old(manager.Disk())
    {
      hide Cache.Ok, Calm, WiredChain, ChainOf, Shape, Wired, Find, FindInChain, Erased, Covered, Fetched, Settled,
           FileBucketManager.Valid, FileBucketManager.Safe, FileBucketManager.MetadataStored;
      ghost var t, start := Table(), manager.State();
      ErasedIs(cfg, t, key);
      RecordsInChain(manager.view, ids, c, j);
      manager.SafeAnyway(source);
      var records := manager.Data(source);
      value := Some(records[index].1);
      RemoveRecord(c, j, source, index);
      ghost var after := manager.State();
      DirtWith(start, after, source);
      SetMetadata(manager.meta.(size := manager.meta.size - 1));
      assert Table() == Erased(cfg, t, key);
    }

    /** `find`, and `contains` when only the presence matters. */
    method Lookup(key: K) returns (value: Option<V>)
      requires Valid()
      modifies manager, manager.status
      ensures Valid() && Table() == old(Table())
      ensures old(manager.Durable()) ==> manager.Durable()
      ensures value == if key in Contents(Table()) then Some(Contents(Table())[key]) else None
    {
      hide Cache.Ok, Covered, Calm, WiredChain, ChainOf, Shape, WellFormed, Contents, Wired, FindInChain;
      ghost var t := Table();
      ShapePositive(cfg, t);
      ChainForInRange(cfg, t, key);
      FindIsLookup(cfg, t, key);
      FindIs(cfg, t, key);
      var c := ChainIndex(key);
      ghost var start := manager.State();
      var found, source, index, j := FindInternal(key, c);
      CalmIdle(start, manager.State());
      if !found {
        return None;
      }
      ghost var before := manager.State();
      var records := manager.Data(source);
      CalmIdle(before, manager.State());
      CalmHandles(before, manager.State());
      RecordsInChain(manager.view, ids, c, j);
      value := Some(records[index].1);
    }

    /** `size`. */
    method Size() returns (n: nat)
      requires Valid()
      ensures n == |Contents(Table())| == Table().size
    {
      SizeIsCount(cfg, Table());
      n := manager.meta.size;
    }

    /** The records of a primary bucket. */
    method PrimaryRecords(c: nat) returns (records: seq<(K, V)>)
      requires Valid() && c < |bucketChains|
      modifies manager, manager.status
      ensures Valid() && Table() == old(Table()) && (old(manager.Durable()) ==> manager.Durable())
      ensures c < |Table().chains| && records == FirstBucket(Table().chains[c])
    {
      hide Cache.Ok, Covered, Calm, WiredChain, ChainOf, Shape, WellFormed, Wired;
      ghost var start := manager.State();
      RecordsOfFirst(manager.view, ids, c);
      records := manager.Data(bucketChains[c]);
      CalmIdle(start, manager.State());
      CalmHandles(start, manager.State());
    }

    /** `getKeysRange`: a slice of the accepted keys of the primary buckets; overflow buckets are not read. */
    method GetKeysRange(from: nat, count: nat, filter: (K, V) -> bool) returns (keys: seq<K>)
      requires Valid()
      modifies manager, manager.status
      ensures Valid() && Table() == old(Table()) && (old(manager.Durable()) ==> manager.Durable())
      ensures keys == Take(Drop(PrimaryKeys(Table().chains, filter), from), count)
    {
      var iBucket, iRecord := SkipKeys(from, filter);
      keys := CollectKeys(iBucket, iRecord, count, filter);
    }

    /** The first loop of `getKeysRange`. */
    method SkipKeys(from: nat, filter: (K, V) -> bool) returns (iBucket: nat, iRecord: nat)
      requires Valid()
      modifies manager, manager.status
      ensures Valid() && Table() == old(Table()) && (old(manager.Durable()) ==> manager.Durable())
      ensures iBucket <= |Table().chains| && (iBucket < |Table().chains| ==> iRecord <= |FirstBucket(Table().chains[iBucket])|)
      ensures KeysFrom(Table().chains, filter, iBucket, iRecord) == Drop(PrimaryKeys(Table().chains, filter), from)
    {
      hide Valid, Table, KeysFrom, PrimaryKeys, FileBucketManager.Durable;
      ghost var chains, all := Table().chains, PrimaryKeys(Table().chains, filter);
      var indexFrom: nat := from;
      iBucket, iRecord := 0, 0;
      AllKeys(chains, filter);
      SameCount();
      while indexFrom > 0 && iBucket < |bucketChains|
        invariant Valid() && Table() == old(Table()) && (old(manager.Durable()) ==> manager.Durable())
        invariant |bucketChains| == |chains|
        invariant iBucket <= |chains| && indexFrom <= from && from - indexFrom <= |all|
        invariant iBucket < |chains| ==> iRecord <= |FirstBucket(chains[iBucket])|
        invariant indexFrom > 0 ==> iRecord == 0
        invariant KeysFrom(chains, filter, iBucket, iRecord) == all[from - indexFrom..]
        decreases |chains| - iBucket, indexFrom
      {
        var data := PrimaryRecords(iBucket);
        iRecord, indexFrom := SkipRecords(data, indexFrom, filter, chains, iBucket, all, from);
        if indexFrom != 0 || iRecord == |data| {
          NextBucket(chains, filter, iBucket);
          iBucket := iBucket + 1;
          iRecord := 0;
        }
      }
      if iBucket == |chains| {
        NoKeys(chains, filter, iRecord);
      }
    }

    /** One turn of the first loop, within a bucket. */
    static method SkipRecords(data: seq<(K, V)>, skip: nat, filter: (K, V) -> bool,
                              ghost chains: seq<Chain<K, V>>, ghost i: nat, ghost all: seq<K>, ghost from: nat)
      returns (iRecord: nat, indexFrom: nat)
      requires i < |chains| && data == FirstBucket(chains[i]) && 0 < skip <= from && from - skip <= |all|
      requires KeysFrom(chains, filter, i, 0) == all[from - skip..]
      ensures iRecord <= |data| && indexFrom <= skip && from - indexFrom <= |all|
      ensures KeysFrom(chains, filter, i, iRecord) == all[from - indexFrom..]
      ensures indexFrom > 0 ==> iRecord == |data|
    {
      hide KeysFrom;
      iRecord, indexFrom := 0, skip;
      while iRecord < |data|
        invariant iRecord <= |data| && 0 < indexFrom <= skip && from - indexFrom <= |all|
        invariant KeysFrom(chains, filter, i, iRecord) == all[from - indexFrom..]
      {
        NextRecord(chains, filter, i, iRecord);
        if filter(data[iRecord].0, data[iRecord].1) {
          DropMore(all, [data[iRecord].0], KeysFrom(chains, filter, i, iRecord + 1), from - indexFrom);
          indexFrom := indexFrom - 1;
        }
        iRecord := iRecord + 1;
        if indexFrom == 0 {
          break;
        }
      }
    }

    /** The second loop of `getKeysRange`. */
    method CollectKeys(i: nat, r: nat, count: nat, filter: (K, V) -> bool) returns (result: seq<K>)
      requires Valid() && i <= |Table().chains| && (i < |Table().chains| ==> r <= |FirstBucket(Table().chains[i])|)
      modifies manager, manager.status
      ensures Valid() && Table() == old(Table()) && (old(manager.Durable()) ==> manager.Durable())
      ensures result == Take(KeysFrom(Table().chains, filter, i, r), count)
    {
      hide Valid, Table, KeysFrom, PrimaryKeys, FileBucketManager.Durable;
      ghost var chains := Table().chains;
      ghost var all := KeysFrom(chains, filter, i, r);
      var iBucket: nat, iRecord: nat, keysCount: nat := i, r, count;
      result := [];
      SameCount();
      while keysCount > 0 && iBucket < |bucketChains|
        invariant Valid() && Table() == old(Table()) && (old(manager.Durable()) ==> manager.Durable())
        invariant |bucketChains| == |chains|
        invariant iBucket <= |chains| && keysCount + |result| == count
        invariant iBucket < |chains| ==> iRecord <= |FirstBucket(chains[iBucket])|
        invariant result <= all && (keysCount > 0 ==> all == result + KeysFrom(chains, filter, iBucket, iRecord))
        decreases |chains| - iBucket, keysCount
      {
        var data := PrimaryRecords(iBucket);
        ghost var rest := KeysFrom(chains, filter, iBucket, iRecord);
        var more;
        more, iRecord := CollectRecords(data, iRecord, keysCount, filter, chains, iBucket);
        AppendMore(all, result, rest, more, KeysFrom(chains, filter, iBucket, iRecord));
        result := result + more;
        keysCount := keysCount - |more|;
        if iRecord == |data| {
          NextBucket(chains, filter, iBucket);
          iBucket := iBucket + 1;
          iRecord := 0;
        }
      }
      if iBucket == |chains| {
        NoKeys(chains, filter, iRecord);
      }
    }

    /** One turn of the second loop, within a bucket. */
    static method CollectRecords(data: seq<(K, V)>, start: nat, count: nat, filter: (K, V) -> bool,
                                 ghost chains: seq<Chain<K, V>>, ghost i: nat)
      returns (result: seq<K>, iRecord: nat)
      requires i < |chains| && data == FirstBucket(chains[i]) && start <= |data| && count > 0
      ensures iRecord <= |data| && |result| <= count
      ensures |result| < count ==> iRecord == |data| && KeysFrom(chains, filter, i, start) == result + KeysFrom(chains, filter, i, iRecord)
      ensures result <= KeysFrom(chains, filter, i, start)
      ensures |result| == count ==> iRecord < |data|
    {
      hide KeysFrom;
      ghost var all := KeysFrom(chains, filter, i, start);
      result, iRecord := [], start;
      while iRecord < |data|
        invariant iRecord <= |data| && |result| < count
        invariant all == result + KeysFrom(chains, filter, i, iRecord)
      {
        NextRecord(chains, filter, i, iRecord);
        if filter(data[iRecord].0, data[iRecord].1) {
          result := result + [data[iRecord].0];
        }
        if |result| == count {
          break;
        }
        iRecord := iRecord + 1;
      }
    }

    lemma SameIds()
      requires Valid()
      ensures |ids| == |Table().chains|
    {
    }

    lemma SameCount()
      requires Valid()
      ensures |bucketChains| == |Table().chains| == manager.meta.primaryCount
    {
    }

    lemma ManagerCalm()
      requires manager.Valid()
      ensures Calm(manager.State(), manager.State()) && manager.loaded <= manager.handles.Keys
    {
      OkHandles(manager.State());
    }
  }
}
