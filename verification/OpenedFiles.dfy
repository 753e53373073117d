/** A table over files that hold one: what is in the files when there is nothing to write, and the cache
    after opening them. */
module OpenedFiles {
  import opened Options
  import opened TableModel
  import opened TableMap
  import opened CacheModel
  import opened Bitarrays
  import opened BucketManager
  import opened Wiring
  import opened SavedTables
  import opened TableSteps
  import opened WiredChains

  /** The bucket objects are those of the first `n` primary buckets, none of them loaded. */
  ghost predicate OnlyUnloaded<K, V>(handles: map<BucketId, Handle<K, V>>, n: nat) {
    && (forall b :: b in handles <==> b.Primary? && b.index < n)
    && (forall b | b in handles :: handles[b] == Handle([], None, false, 0))
  }

  lemma AllHandles<K, V>(handles: map<BucketId, Handle<K, V>>, n: nat)
    requires OnlyUnloaded(handles, n)
    ensures forall i: nat | i < n :: Primary(i) in handles
    ensures forall b | b in handles :: handles[b].locks == 0
  {
  }

  /** Files that hold a table can be opened: the cache over them is consistent. */
  lemma LoadableOk<K, V>(cfg: Config<K>, files: Files<K, V>, d: Cache<K, V>)
    requires Loadable(cfg, files)
    requires d.view == SavedView(files) && d.primaryFile == files.primary && d.overflowFile == files.overflow
    requires d.loaded == {} && d.leaving == {} && OnlyUnloaded(d.handles, files.stored.value.meta.primaryCount)
    requires d.occupied == BitsOf(files.stored.value.bytes, files.stored.value.bits) && d.leaked == Unused(files.stored.value, d.view)
    ensures d.Ok() && d.SafeFor(files.stored.value.meta.primaryCount, None) && Covered(d, files.stored)
  {
    hide WellFormed, SavedTable, SavedView, SavedIds, Wired, Cache.BucketOk, Cache.LinkOk, Cache.LinksApart, BitsOf, BitAt, Unused, Tidy, Held, AllOnFile,
         Cache.SafeFor, Covered, OnlyUnloaded;
    AllUnloadedOk(files, d);
    SlotsOf(files.stored.value, d);
    ApartWhen(d);
    HeldSafe(d, files.stored.value);
  }

  lemma AllUnloadedOk<K, V>(files: Files<K, V>, d: Cache<K, V>)
    requires files.stored.Some? && d.view == SavedView(files) && AllOnFile(d.view, files) && Wired(d.view, SavedIds(files), [])
    requires d.primaryFile == files.primary && d.overflowFile == files.overflow
    requires d.loaded == {} && d.leaving == {} && OnlyUnloaded(d.handles, files.stored.value.meta.primaryCount)
    ensures d.handles.Keys <= d.view.Keys && forall b | b in d.view :: d.BucketOk(b) && d.LinkOk(b)
  {
    hide SavedView, SavedIds, Wired, Cache.BucketOk, Cache.LinkOk, AllOnFile;
    forall b | b in d.handles
      ensures b in d.view && d.handles[b] == Handle([], None, false, 0)
    {
      HeadIsLive(files, b.index);
    }
    forall b | b in d.view
      ensures d.BucketOk(b) && d.LinkOk(b)
    {
      LinkedTo(d.view, SavedIds(files), b);
      OnFileWhen(files, d, b);
      UnloadedOk(d, b);
    }
  }

  lemma HeldSafe<K, V>(d: Cache<K, V>, s: Stored)
    requires forall b | b in d.view :: Held(s, b)
    ensures d.SafeFor(s.meta.primaryCount, None) && Covered(d, Some(s))
  {
    forall i: nat | Primary(i) in d.view
      ensures i < s.meta.primaryCount
    {
      assert Held(s, Primary(i));
    }
  }

  lemma OnFileWhen<K, V>(files: Files<K, V>, d: Cache<K, V>, b: BucketId)
    requires AllOnFile(d.view, files) && d.primaryFile == files.primary && d.overflowFile == files.overflow && b in d.view
    ensures d.OnFile(b)
  {
  }

  lemma HeadIsLive<K, V>(files: Files<K, V>, i: nat)
    requires files.stored.Some? && i < files.stored.value.meta.primaryCount
    ensures Primary(i) in SavedView(files)
  {
    assert Primary(i) in SavedIds(files)[i];
  }

  lemma ApartWhen<K, V>(d: Cache<K, V>)
    requires forall b, c | b in d.view && c in d.view && b != c :: d.view[b].overflow.Some? ==> d.view[b].overflow != d.view[c].overflow
    ensures forall b, c | b in d.view && c in d.view :: d.LinksApart(b, c)
  {
  }

  lemma SlotsOf<K, V>(s: Stored, d: Cache<K, V>)
    requires d.occupied == BitsOf(s.bytes, s.bits) && d.leaked == Unused(s, d.view) && forall b | b in d.view :: Held(s, b)
    ensures forall i: nat :: Overflow(i) in d.view || i in d.leaked <==> i < |d.occupied| && d.occupied[i]
    ensures forall i | i in d.leaked :: Overflow(i) !in d.view
  {
    forall i: nat
      ensures Overflow(i) in d.view || i in d.leaked <==> i < |d.occupied| && d.occupied[i]
    {
      assert Overflow(i) in d.view ==> Held(s, Overflow(i));
    }
  }

  lemma UnloadedOk<K, V>(d: Cache<K, V>, b: BucketId)
    requires b in d.view && d.loaded == {} && d.leaving == {} && d.OnFile(b)
    requires b in d.handles ==> d.handles[b] == Handle([], None, false, 0)
    requires d.view[b].overflow.Some? ==> Overflow(d.view[b].overflow.value) in d.view && Overflow(d.view[b].overflow.value) !in d.handles
    ensures d.BucketOk(b) && d.LinkOk(b)
  {
  }

  /** With nothing to write, every page is in the files and the metadata counts every bucket in. */
  lemma CleanFiles<K, V>(c: Cache<K, V>, files: Files<K, V>)
    requires c.Ok() && c.leaving == {} && Covered(c, files.stored) && !exists b :: c.Dirty(b)
    requires c.primaryFile == files.primary && c.overflowFile == files.overflow && files.stored.Some?
    ensures AllOnFile(c.view, files) && forall b | b in c.view :: Held(files.stored.value, b)
  {
    forall b | b in c.view
      ensures c.OnFile(b)
    {
      assert c.BucketOk(b) && !c.Dirty(b);
    }
  }

  lemma NoSharedLinks<K, V>(c: Cache<K, V>)
    requires c.Ok()
    ensures forall b, d | b in c.view && d in c.view && b != d :: c.view[b].overflow.Some? ==> c.view[b].overflow != c.view[d].overflow
  {
    forall b, d | b in c.view && d in c.view && b != d
      ensures c.view[b].overflow.Some? ==> c.view[b].overflow != c.view[d].overflow
    {
      assert c.LinksApart(b, d);
    }
  }

  lemma LeakedAgain<K, V>(c: Cache<K, V>, s: Stored)
    requires c.Ok() && Exact(c, Some(s))
    ensures Unused(s, c.view) == c.leaked
  {
    OccupiedIs(c);
    forall i: nat
      ensures i in c.leaked ==> i < s.bits && BitAt(s.bytes, i) && Overflow(i) !in c.view
      ensures i < s.bits && BitAt(s.bytes, i) && Overflow(i) !in c.view ==> i in c.leaked
    {
    }
  }

  /** The stored metadata is not this one. */
  predicate NotYet(stored: Option<Stored>, meta: Metadata) {
    stored.Some? ==> stored.value.meta != meta
  }
}
