/** The file-backed bucket manager: a cache of buckets over two files of pages.

    Every method states its effect on `view`, the contents of the live buckets, whatever the cache
    size and whatever was evicted on the way: to the table the manager is an in-memory one. */
module BucketManager {
  import opened Bitarrays
  import opened Options
  import opened CacheModel

  datatype Metadata = Metadata(n: nat, p: nat, size: nat, primaryCount: nat)

  /** The table metadata at the end of the primary file, with the occupancy of the overflow file. */
  datatype Stored = Stored(meta: Metadata, bytes: seq<bv8>, bits: nat)

  /** The two files of pages, with the metadata behind the primary one. */
  datatype Files<K, V> = Files(primary: map<nat, Page<K, V>>, overflow: map<nat, Page<K, V>>, stored: Option<Stored>)

  /** As many bytes as the bits need, and no bit set behind them. */
  ghost predicate Tidy(s: Stored) {
    |s.bytes| == ByteCount(s.bits) && forall i: nat :: i >= s.bits ==> !BitAt(s.bytes, i)
  }

  /** The stored metadata counts bucket `b` in. */
  predicate Held(s: Stored, b: BucketId) {
    match b
    case Primary(i) => i < s.meta.primaryCount
    case Overflow(i) => i < s.bits && BitAt(s.bytes, i)
    case Detached(i) => false
  }

  /** The stored metadata counts every bucket of the table in, except those with changes to write: when
      they are written, so is the metadata. */
  ghost predicate Covered<K, V>(c: Cache<K, V>, stored: Option<Stored>) {
    forall b | b in c.view && b !in c.leaving && !c.Dirty(b) :: stored.Some? && Held(stored.value, b)
  }

  class FileBucketManager<K, V> {
    const cacheSize: nat
    const status: Bitarray
    var meta: Metadata
    var handles: map<BucketId, Handle<K, V>>
    var loaded: set<BucketId>
    var primaryFile: map<nat, Page<K, V>>
    var overflowFile: map<nat, Page<K, V>>
    var stored: Option<Stored>
    ghost var view: map<BucketId, Page<K, V>>
    ghost var leaving: set<BucketId>
    ghost const leaked: set<nat>

    ghost function State(): Cache<K, V>
      reads this, status
    {
      Cache(handles, loaded, primaryFile, overflowFile, status.View(), view, leaving, leaked)
    }

    ghost function Disk(): Files<K, V>
      reads this
    {
      Files(primaryFile, overflowFile, stored)
    }

    /** What even the eviction of a bucket keeps, before the metadata is written. */
    ghost predicate Sound()
      reads this, status
    {
      status.Valid() && status.Clean() && State().Ok() && (stored.Some? ==> Tidy(stored.value))
    }

    ghost predicate Valid()
      reads this, status
    {
      Sound() && Covered(State(), stored)
    }

    /** Writing the metadata now would cut no bucket off, provided `b` is loaded first. */
    ghost predicate Safe(b: Option<BucketId>)
      reads this, status
    {
      State().SafeFor(meta.primaryCount, b)
    }

    lemma StoredIs()
      ensures MetadataStored() <==> Disk().stored.Some? && Disk().stored.value.meta == meta
    {
    }

    lemma SafeAnyway(b: BucketId)
      requires Safe(None)
      ensures Safe(Some(b))
    {
    }

    /** Some cached bucket has changes that are not in the files. */
    ghost predicate AnyDirty()
      reads this, status
    {
      exists b :: State().Dirty(b)
    }

    /** The metadata in the file is the one in memory. */
    ghost predicate MetadataStored()
      reads this
    {
      stored.Some? && stored.value.meta == meta
    }

    /** Nothing but what `flush` would write is missing from the files. */
    ghost predicate Durable()
      reads this, status
    {
      AnyDirty() || MetadataStored()
    }

    /** A manager over empty files; the table's `initialize` adds the primary buckets. */
    constructor (cacheSize: nat, n: nat)
      ensures Valid() && Safe(None) && fresh(status)
      ensures view == map[] && leaving == {} && meta == Metadata(n, 0, 0, 0) && stored == None
      ensures loaded == {} && handles == map[] && this.cacheSize == cacheSize && leaked == {}
    {
      this.cacheSize := cacheSize;
      status := new Bitarray();
      meta := Metadata(n, 0, 0, 0);
      handles, loaded, primaryFile, overflowFile, stored := map[], {}, map[], map[], None;
      view, leaving, leaked := map[], {}, {};
    }

    /** `initialize` over files that already hold a table: the metadata comes from the file. */
    constructor Open(cacheSize: nat, primaryFile: map<nat, Page<K, V>>, overflowFile: map<nat, Page<K, V>>,
                     stored: Stored, ghost view: map<BucketId, Page<K, V>>)
      requires |stored.bytes| == ByteCount(stored.bits)
      ensures fresh(status) && this.cacheSize == cacheSize
      ensures this.view == view && leaving == {} && meta == stored.meta && loaded == {} && handles == map[]
      ensures this.primaryFile == primaryFile && this.overflowFile == overflowFile
      ensures this.stored == Some(stored) && status.bytes == stored.bytes && status.size == stored.bits
      ensures leaked == Unused(stored, view)
    {
      this.cacheSize := cacheSize;
      status := new Bitarray.SetBytes(stored.bytes, stored.bits);
      meta := stored.meta;
      handles, loaded := map[], {};
      this.primaryFile, this.overflowFile, this.stored := primaryFile, overflowFile, Some(stored);
      this.view, leaving, leaked := view, {}, Unused(stored, view);
    }

    /** `unloaded_bucket`: a bucket object whose records are still in the file. */
    method UnloadedBucket(b: BucketId)
      requires b !in loaded
      modifies this`handles
      ensures handles == old(handles)[b := Handle([], None, false, 0)]
    {
      handles := handles[b := Handle([], None, false, 0)];
    }

    method LockFlush(b: BucketId, ghost leaves: bool)
      requires Valid() && b in handles
      modifies this
      ensures Valid() && State() == WithLocks(old(State()), b, old(handles[b]).locks + 1, leaves)
      ensures meta == old(meta) && Disk() == old(Disk()) && (old(Safe(None)) ==> Safe(None))
    {
      hide Cache.Ok, BitsOf, Covered;
      WithLocksOk(State(), b, handles[b].locks + 1, leaves);
      LocksCovered(State(), b, handles[b].locks + 1, leaves, stored);
      handles := handles[b := handles[b].(locks := handles[b].locks + 1)];
      leaving := if leaves then leaving + {b} else leaving;
    }

    method UnlockFlush(b: BucketId)
      requires Valid() && State().Locked(b) && (b in leaving ==> handles[b].locks > 1)
      modifies this
      ensures Valid() && State() == WithLocks(old(State()), b, old(handles[b]).locks - 1, false)
      ensures meta == old(meta) && Disk() == old(Disk()) && (old(Safe(None)) ==> Safe(None))
    {
      hide Cache.Ok, BitsOf, Covered;
      WithLocksOk(State(), b, handles[b].locks - 1, false);
      LocksCovered(State(), b, handles[b].locks - 1, false, stored);
      handles := handles[b := handles[b].(locks := handles[b].locks - 1)];
    }

    /** The part of `flush` that handles one bucket. */
    method Evict(b: BucketId) returns (written: bool)
      requires Sound() && b in loaded && !State().Locked(b)
      modifies this
      ensures Sound() && State() == Evicted(old(State()), b)
      ensures written == old(handles[b].dirty) && (!written ==> Disk() == old(Disk()))
      ensures meta == old(meta) && stored == old(stored)
    {
      hide Cache.Ok, BitsOf;
      ghost var c := State();
      EvictedOk(c, b);
      OkHandles(c);
      var bucket := handles[b];
      written := bucket.dirty;
      if bucket.dirty {
        var page := Page(bucket.overflow, bucket.records);
        if b.Overflow? {
          overflowFile := overflowFile[b.index := page];
        } else {
          primaryFile := primaryFile[b.index := page];
        }
      }
      handles := handles[b := bucket.(records := [], dirty := false)];
      loaded := loaded - {b};
      assert State() == Evicted(c, b);
    }

    /** No file goes on behind its last page, and the occupancy ends with an occupied slot. */
    ghost predicate FilesCropped()
      reads this, status
    {
      && (forall i | i in primaryFile :: i < meta.primaryCount) && (forall i | i in overflowFile :: i < |status.View()|)
      && (status.View() != [] ==> status.View()[|status.View()| - 1])
    }

    /** `flush_table_metadata`: crop the free slots at the end of the overflow file, write the metadata
        behind the primary buckets and cut both files. */
    method FlushTableMetadata()
      requires Sound() && Safe(None)
      modifies this, status
      ensures Valid() && MetadataStored() && Exact(State(), stored)
      ensures view == old(view) && leaving == old(leaving) && handles == old(handles) && loaded == old(loaded)
      ensures meta == old(meta) && FilesCropped()
      ensures Shortened(old(primaryFile), primaryFile, meta.primaryCount) && Shortened(old(overflowFile), overflowFile, |status.View()|)
    {
      hide Cache.Ok, BitsOf, BitAt, Cache.SafeFor, Covered, Exact, Tidy, CutAt, Shortened, Bitarray.Valid, Bitarray.Clean, Bitarray.View;
      ghost var c := State();
      var count := CropStatus();
      stored := Some(Stored(meta, status.bytes, status.size));
      CutIsShorter(primaryFile, meta.primaryCount);
      CutIsShorter(overflowFile, count);
      primaryFile, overflowFile := CutAt(primaryFile, meta.primaryCount), CutAt(overflowFile, count);
      Cropped(c, State(), meta, status.bytes, status.size, count);
    }

    method CropStatus() returns (count: nat)
      requires status.Valid() && status.Clean()
      modifies status
      ensures status.Valid() && status.Clean() && forall m :: Tidy(Stored(m, status.bytes, status.size))
      ensures status.View() == BitsOf(status.bytes, status.size)
      ensures count <= |old(status.View())| && status.View() == old(status.View())[..count]
      ensures forall i | count <= i < |old(status.View())| :: !old(status.View())[i]
      ensures count > 0 ==> old(status.View())[count - 1]
    {
      count := status.size;
      while count > 0
        invariant count <= status.size && status.View() == old(status.View())
        invariant status.Valid() && status.Clean() && status.size == old(status.size)
        invariant forall i | count <= i < status.size :: !status.View()[i]
      {
        var isSet := status.IsSet(count - 1);
        if isSet {
          break;
        }
        count := count - 1;
      }
      status.Resize(count);
    }

    /** `flush`: write every dirty bucket that is not locked, empty the cache of unlocked buckets, and
        write the metadata if any bucket was written. */
    method Flush() returns (changed: bool)
      requires Valid() && Safe(None)
      modifies this, status
      ensures Valid() && Safe(None)
      ensures view == old(view) && leaving == old(leaving) && meta == old(meta)
      ensures Calm(old(State()), State())
      ensures loaded == set b | b in old(loaded) && !Unlocked(old(State()), b)
      ensures changed <==> exists b :: old(State()).Dirty(b) && Unlocked(old(State()), b)
      ensures changed ==> MetadataStored() && Exact(State(), stored) && FilesCropped()
      ensures !changed ==> Disk() == old(Disk())
      ensures NoneDirtier(old(State()), State())
      ensures Settled(old(State()), old(MetadataStored()), State(), MetadataStored())
    {
      hide Cache.Ok, Calm, BitsOf, Covered, Exact, FilesCropped, Shortened;
      ghost var c := State();
      OkHandles(c);
      changed := EvictUnlocked();
      ghost var d := State();
      SafeAfterEviction(c, d, meta.primaryCount);
      if changed {
        FlushTableMetadata();
      } else {
        KeptCovered(c, d, stored);
      }
      CalmSame(c, d, State());
      KeptDirty(c, State());
    }

    /** The loop of `flush` over the cached buckets. */
    method EvictUnlocked() returns (changed: bool)
      requires Sound()
      modifies this
      ensures Sound()
      ensures view == old(view) && leaving == old(leaving) && meta == old(meta) && stored == old(stored)
      ensures Calm(old(State()), State())
      ensures loaded == set b | b in old(loaded) && !Unlocked(old(State()), b)
      ensures changed <==> exists b :: old(State()).Dirty(b) && Unlocked(old(State()), b)
      ensures !changed ==> Disk() == old(Disk())
      ensures NoneDirtier(old(State()), State())
    {
      hide Cache.Ok, Calm, BitsOf, Covered;
      ghost var c := State();
      OkHandles(c);
      CalmSame(c, c, c);
      var todo := loaded;
      changed := false;
      while todo != {}
        invariant Sound() && view == c.view && leaving == c.leaving && meta == old(meta) && stored == old(stored)
        invariant !changed ==> Disk() == old(Disk())
        invariant Calm(c, State()) && NoneDirtier(c, State())
        invariant todo <= c.loaded && todo <= loaded
        invariant loaded == set b | b in c.loaded && (b in todo || !Unlocked(c, b))
        invariant forall b | b in todo :: b in handles && handles[b] == c.handles[b]
        invariant changed <==> exists b :: b !in todo && c.Dirty(b) && Unlocked(c, b)
        decreases todo
      {
        var b :| b in todo;
        todo := todo - {b};
        if handles[b].locks == 0 {
          EvictedCalm(State(), b);
          CalmTransitive(c, State(), Evicted(State(), b));
          var written := Evict(b);
          assert written <==> c.Dirty(b);
          changed := changed || written;
        }
      }
    }

    /** What `data()` leaves behind: the bucket is in memory, with the object of its overflow bucket. */
    ghost predicate Ready(b: BucketId)
      reads this
    {
      && b in view && b in loaded && b in handles
      && handles[b].records == view[b].records && handles[b].overflow == view[b].overflow
      && (view[b].overflow.Some? ==> Overflow(view[b].overflow.value) in handles)
    }

    /** Keep bucket `b` while room is made in the cache. */
    method MakeRoom(b: BucketId)
      requires Valid() && Safe(None) && b in loaded
      modifies this, status
      ensures Valid() && Safe(None) && Ready(b)
      ensures view == old(view) && leaving == old(leaving) && meta == old(meta)
      ensures Calm(old(State()), State())
      ensures old(State()).Dirty(b) ==> State().Dirty(b)
      ensures old(|loaded|) <= cacheSize ==> State() == old(State()) && Disk() == old(Disk())
      ensures old(|loaded|) > cacheSize ==> loaded == {b} + set x | x in old(loaded) && !Unlocked(old(State()), x)
      ensures old(|loaded|) > cacheSize && (exists x :: x != b && old(State()).Dirty(x) && Unlocked(old(State()), x)) ==> MetadataStored()
      ensures !(exists x :: x != b && old(State()).Dirty(x)) ==> Disk() == old(Disk())
      ensures NoneDirtier(old(State()), State())
      ensures Settled(old(State()), old(MetadataStored()), State(), MetadataStored())
    {
      hide Cache.Ok, Calm, BitsOf, Covered, Settled;
      ghost var c := State();
      OkHandles(c);
      if |loaded| > cacheSize {
        FlushOthers(b);
      } else {
        CalmSame(c, c, c);
        SettledSame(c, MetadataStored());
      }
      ReadyFrom(State(), b);
    }

    /** The part of `load` for a full cache: `b` is locked while every other unlocked bucket is flushed. */
    method FlushOthers(b: BucketId)
      requires Valid() && Safe(None) && b in loaded && b in handles
      modifies this, status
      ensures Valid() && Safe(None) && b in loaded
      ensures view == old(view) && leaving == old(leaving) && meta == old(meta)
      ensures Calm(old(State()), State())
      ensures old(State()).Dirty(b) ==> State().Dirty(b)
      ensures loaded == {b} + set x | x in old(loaded) && !Unlocked(old(State()), x)
      ensures (exists x :: x != b && old(State()).Dirty(x) && Unlocked(old(State()), x)) ==> MetadataStored()
      ensures !(exists x :: x != b && old(State()).Dirty(x)) ==> Disk() == old(Disk())
      ensures NoneDirtier(old(State()), State())
      ensures Settled(old(State()), old(MetadataStored()), State(), MetadataStored())
    {
      hide Cache.Ok, Calm, BitsOf, Covered, Exact, NoneDirtier, Settled, FileBucketManager.Safe;
      ghost var c := State();
      OkHandles(c);
      LockFlush(b, false);
      ghost var d := State();
      var changed := Flush();
      ghost var e := State();
      UnlockAfter(c, d, e, b);
      UnlockFlush(b);
      FlushedOthers(c, d, e, State(), b, old(MetadataStored()), MetadataStored());
    }

    /** `load`: read the records of an unloaded bucket, and make room in the cache. */
    method Load(b: BucketId)
      requires Valid() && Safe(Some(b)) && b in handles
      modifies this, status
      ensures Valid() && Safe(None) && Ready(b)
      ensures view == old(view) && leaving == old(leaving) && meta == old(meta)
      ensures Calm(old(State()), State())
      ensures old(State()).Dirty(b) ==> State().Dirty(b)
      ensures b in old(loaded) ==> State() == old(State()) && Disk() == old(Disk())
      ensures b !in old(loaded) && old(|loaded|) < cacheSize ==>
        State() == LoadedFrom(old(State()), b, old(view)[b]) && Disk() == old(Disk())
      ensures Fetched(old(State()), old(Disk()), State(), Disk(), MetadataStored(), b, cacheSize)
      ensures NoneDirtier(old(State()), State())
      ensures Settled(old(State()), old(MetadataStored()), State(), MetadataStored())
    {
      hide Cache.Ok, Calm, BitsOf, Covered, Fetched;
      ghost var c := State();
      OkHandles(c);
      CalmSame(c, c, c);
      if b in loaded {
        ReadyFrom(c, b);
        FetchedCached(c, Disk(), MetadataStored(), b, cacheSize);
        return;
      }
      ReadIn(b);
      LoadedCalm(c, b);
      ghost var d := State();
      MakeRoom(b);
      CalmTransitive(c, d, State());
      FetchedFrom(c, Disk(), d, State(), old(Disk()), MetadataStored(), b, cacheSize);
    }

    /** The part of `load` that reads the page of an unloaded bucket. */
    method ReadIn(b: BucketId)
      requires Valid() && Safe(Some(b)) && b in handles && b !in loaded
      modifies this
      ensures Valid() && Safe(None) && b in loaded
      ensures b in old(view) && State() == LoadedFrom(old(State()), b, old(view)[b])
      ensures meta == old(meta) && Disk() == old(Disk())
    {
      hide Cache.Ok, Calm, BitsOf, Covered;
      ghost var c := State();
      OkHandles(c);
      LoadedOk(c, b);
      LoadedCovered(c, b, stored);
      var page := if b.Overflow? then overflowFile[b.index] else primaryFile[b.index];
      var bucket := handles[b].(records := page.records);
      var created := bucket.overflow.None? && page.overflow.Some?;
      if bucket.overflow.None? {
        bucket := bucket.(overflow := page.overflow);
      }
      loaded := loaded + {b};
      handles := handles[b := bucket];
      if created {
        handles := handles[Overflow(page.overflow.value) := Handle([], None, false, 0)];
      }
      assert State() == LoadedFrom(c, b, c.view[b]);
    }

    /** `data`: the records of a bucket. */
    method Data(b: BucketId) returns (records: seq<(K, V)>)
      requires Valid() && Safe(Some(b)) && b in handles
      modifies this, status
      ensures Valid() && Safe(None) && Ready(b) && records == view[b].records
      ensures view == old(view) && leaving == old(leaving) && meta == old(meta)
      ensures Calm(old(State()), State())
      ensures old(State()).Dirty(b) ==> State().Dirty(b)
      ensures b in old(loaded) ==> State() == old(State()) && Disk() == old(Disk())
      ensures b !in old(loaded) && old(|loaded|) < cacheSize ==>
        State() == LoadedFrom(old(State()), b, old(view)[b]) && Disk() == old(Disk())
      ensures Fetched(old(State()), old(Disk()), State(), Disk(), MetadataStored(), b, cacheSize)
      ensures NoneDirtier(old(State()), State())
      ensures Settled(old(State()), old(MetadataStored()), State(), MetadataStored())
    {
      hide Cache.Ok, Calm, BitsOf, Covered, Fetched, Settled;
      Load(b);
      records := handles[b].records;
    }

    /** `insert` into and `remove` from a bucket. */
    method Insert(b: BucketId, r: (K, V))
      requires Valid() && Safe(None) && b in handles
      modifies this, status
      ensures Valid() && Safe(None) && Ready(b) && State().Dirty(b)
      ensures b in old(view) && view == old(view)[b := old(view)[b].(records := old(view)[b].records + [r])]
      ensures leaving == old(leaving) && meta == old(meta)
      ensures Calm(old(State()), State())
    {
      hide Cache.Ok, Calm, BitsOf, Covered, Fetched;
      OkHandles(State());
      Load(b);
      ghost var d := State();
      Rewrite(b, handles[b].records + [r]);
      CalmTransitive(old(State()), d, State());
    }

    method RemoveAt(b: BucketId, i: nat)
      requires Valid() && Safe(None) && b in handles && b in view && i < |view[b].records|
      modifies this, status
      ensures Valid() && Safe(None) && Ready(b) && State().Dirty(b)
      ensures view == old(view)[b := old(view)[b].(records := old(view)[b].records[..i] + old(view)[b].records[i + 1..])]
      ensures leaving == old(leaving) && meta == old(meta)
      ensures Calm(old(State()), State())
      ensures b in old(loaded) ==> loaded == old(loaded) && Disk() == old(Disk())
      ensures b in old(loaded) ==> forall x :: State().Dirty(x) <==> x == b || old(State()).Dirty(x)
    {
      hide Cache.Ok, Calm, BitsOf, Covered, Fetched;
      Load(b);
      ghost var d := State();
      Rewrite(b, handles[b].records[..i] + handles[b].records[i + 1..]);
      CalmTransitive(old(State()), d, State());
    }

    /** Change the records of a loaded bucket and mark it dirty. */
    method Rewrite(b: BucketId, records: seq<(K, V)>)
      requires Valid() && Safe(None) && Ready(b)
      modifies this
      ensures Valid() && Safe(None) && Ready(b) && State() == WithRecords(old(State()), b, records)
      ensures Calm(old(State()), State()) && State().Dirty(b)
      ensures meta == old(meta) && Disk() == old(Disk())
    {
      hide Cache.Ok, Calm, BitsOf, Covered;
      ghost var c := State();
      WithRecordsOk(c, b, records);
      RecordsCovered(c, b, records, stored);
      WithRecordsCalm(c, b, records);
      handles := handles[b := handles[b].(records := records, dirty := true)];
      view := view[b := view[b].(records := records)];
      assert State() == WithRecords(c, b, records);
    }

    /** `new_primary_bucket`: an empty bucket for slot `i`. */
    method NewPrimary(i: nat)
      requires Valid() && Safe(None) && Primary(i) !in view && i < meta.primaryCount
      modifies this, status
      ensures Valid() && Safe(None) && Ready(Primary(i)) && State().Dirty(Primary(i))
      ensures view == old(view)[Primary(i) := Page(None, [])]
      ensures leaving == old(leaving) && meta == old(meta)
      ensures Calm(old(State()), State())
    {
      hide Cache.Ok, Calm, BitsOf, Covered;
      ghost var c := State();
      WithNewOk(c, Primary(i), c.occupied);
      NewCovered(c, Primary(i), c.occupied, stored);
      handles := handles[Primary(i) := Handle([], None, true, 0)];
      view := view[Primary(i) := Page(None, [])];
      loaded := loaded + {Primary(i)};
      ghost var d := State();
      assert d == WithNew(c, Primary(i), c.occupied);
      MakeRoom(Primary(i));
      CalmTransitive(c, d, State());
    }

    /** `new_overflow_bucket`: an empty bucket at the first free slot of the overflow file. */
    method NewOverflow() returns (i: nat)
      requires Valid() && Safe(None)
      modifies this, status
      ensures Valid() && Safe(None) && Ready(Overflow(i))
      ensures Overflow(i) !in old(view) && view == old(view)[Overflow(i) := Page(None, [])]
      ensures forall k: nat | k < i :: Overflow(k) in old(view) || k in leaked
      ensures forall x | x in view :: view[x].overflow != Some(i)
      ensures leaving == old(leaving) && meta == old(meta)
      ensures Calm(old(State()), State())
    {
      hide Cache.Ok, Calm, BitsOf, Covered;
      ghost var c := State();
      i := TakeSlot();
      ghost var d := State();
      MakeRoom(Overflow(i));
      CalmTransitive(c, d, State());
    }

    /** The part of `new_overflow_bucket` before room is made. */
    method TakeSlot() returns (i: nat)
      requires Valid() && Safe(None)
      modifies this, status
      ensures Valid() && Safe(None)
      ensures Overflow(i) !in old(view)
      ensures State() == WithNew(old(State()), Overflow(i), status.View()) && Calm(old(State()), State())
      ensures forall k: nat | k < i :: Overflow(k) in old(view) || k in leaked
      ensures forall x | x in view :: view[x].overflow != Some(i)
      ensures State().Dirty(Overflow(i)) && meta == old(meta)
      ensures |status.View()| == if i < |old(status.View())| then |old(status.View())| else i + 1
    {
      hide Cache.Ok, Cache.SafeFor, Calm, BitsOf, Covered;
      ghost var c := State();
      i := ClaimSlot();
      SlotTaken(c, i, status.View(), stored, meta.primaryCount);
      handles := handles[Overflow(i) := Handle([], None, true, 0)];
      view := view[Overflow(i) := Page(None, [])];
      loaded := loaded + {Overflow(i)};
      assert State() == WithNew(c, Overflow(i), status.View());
    }

    /** The first free slot of the overflow file, now taken; the file grows when all are taken. */
    method ClaimSlot() returns (i: nat)
      requires status.Valid() && status.Clean()
      modifies status
      ensures status.Valid() && status.Clean()
      ensures i <= |old(status.View())| && (i < |old(status.View())| ==> !old(status.View())[i])
      ensures forall k | 0 <= k < i :: old(status.View())[k]
      ensures i < status.size && |old(status.View())| <= status.size && status.View()[i]
      ensures forall k | 0 <= k < status.size && k != i ::
        status.View()[k] <==> k < |old(status.View())| && old(status.View())[k]
      ensures status.size == if i < |old(status.View())| then |old(status.View())| else i + 1
    {
      i := status.FirstUnset();
      if i >= status.size {
        i := status.size;
        status.Resize(i + 1);
      }
      status.Set(i);
    }

    /** `create_overflow`: chain a new bucket off a bucket that has none. */
    method CreateOverflow(b: BucketId) returns (i: nat)
      requires Valid() && Safe(None) && b in handles && b in view && view[b].overflow.None?
      modifies this, status
      ensures Valid() && Safe(None) && Overflow(i) in handles
      ensures b in handles && handles[b].overflow == Some(i)
      ensures Overflow(i) !in old(view)
      ensures view == old(view)[b := old(view)[b].(overflow := Some(i))][Overflow(i) := Page(None, [])]
      ensures leaving == old(leaving) && meta == old(meta)
      ensures Calm(old(State()), State())
    {
      hide Cache.Ok, Calm, BitsOf, WithLink, Covered;
      ghost var c := State();
      OkHandles(c);
      LockFlush(b, false);
      ghost var c1 := State();
      i := ChainNew(b);
      UnlockAfter(c, c1, State(), b);
      UnlockFlush(b);
    }

    /** The part of `create_overflow` during which the bucket is locked. */
    method ChainNew(b: BucketId) returns (i: nat)
      requires Valid() && Safe(None) && State().Locked(b) && b in view && view[b].overflow.None?
      modifies this, status
      ensures Valid() && Safe(None) && Overflow(i) in handles
      ensures b in handles && handles[b].overflow == Some(i)
      ensures Overflow(i) !in old(view)
      ensures view == old(view)[b := old(view)[b].(overflow := Some(i))][Overflow(i) := Page(None, [])]
      ensures leaving == old(leaving) && meta == old(meta)
      ensures Calm(old(State()), State())
    {
      hide Cache.Ok, Calm, BitsOf, Covered;
      ghost var c1 := State();
      Load(b);
      ghost var c2 := State();
      i := NewOverflow();
      ghost var c3 := State();
      CalmTransitive(c1, c2, c3);
      StaysLoaded(c1, c2, c3, b);
      ReadyFrom(c3, b);
      LinkTo(b, i);
      CalmTransitive(c1, c3, State());
    }

    method LinkTo(b: BucketId, i: nat)
      requires Valid() && Safe(None) && Ready(b) && view[b].overflow.None?
      requires Overflow(i) in handles && forall x | x in view :: view[x].overflow != Some(i)
      modifies this
      ensures Valid() && Safe(None) && State() == WithLink(old(State()), b, i)
      ensures Calm(old(State()), State())
      ensures meta == old(meta) && stored == old(stored)
    {
      hide Cache.Ok, Calm, BitsOf, Covered;
      ghost var c := State();
      WithLinkOk(c, b, i);
      LinkCovered(c, b, i, stored);
      handles := handles[b := handles[b].(overflow := Some(i), dirty := true)];
      view := view[b := view[b].(overflow := Some(i))];
      assert State() == WithLink(c, b, i);
    }

    /** `discard`: the bucket has left the table. */
    method Discard(b: BucketId)
      requires Valid() && b in view && b in handles
      requires b.Overflow? ==> forall x | x in view :: view[x].overflow != Some(b.index)
      modifies this, status
      ensures Valid()
      ensures State() == WithoutBucket(old(State()), b)
      ensures meta == old(meta) && Disk() == old(Disk())
    {
      hide Cache.Ok, Calm, BitsOf, Covered;
      ghost var c := State();
      WithoutBucketOk(c, b);
      WithoutCovered(c, b, stored);
      loaded := loaded - {b};
      if b.Overflow? {
        status.Unset(b.index);
      }
      handles := handles - {b};
      view := view - {b};
      leaving := leaving - {b};
      assert State() == WithoutBucket(c, b);
    }

    /** The bucket object of slot `i` gives its place in the table up and lives on until it is drained. */
    method Detach(i: nat)
      requires Valid() && Safe(None) && Primary(i) in loaded && State().Locked(Primary(i)) && Detached(i) !in view
      modifies this
      ensures Valid() && Safe(None)
      ensures State() == WithDetached(old(State()), i)
      ensures meta == old(meta) && Disk() == old(Disk())
    {
      hide Cache.Ok, Calm, BitsOf, Covered;
      ghost var c := State();
      WithDetachedOk(c, i);
      OkHandles(c);
      DetachedCovered(c, i, stored);
      handles := (handles - {Primary(i)})[Detached(i) := handles[Primary(i)]];
      loaded := loaded - {Primary(i)} + {Detached(i)};
      view := (view - {Primary(i)})[Detached(i) := view[Primary(i)]];
      leaving := leaving - {Primary(i)} + {Detached(i)};
      assert State() == WithDetached(c, i);
    }
  }

  predicate Unlocked<K, V>(c: Cache<K, V>, b: BucketId) {
    b in c.handles && c.handles[b].locks == 0
  }

  /** The file has lost exactly the pages from `n` on. */
  ghost predicate Shortened<P>(file: map<nat, P>, file': map<nat, P>, n: nat) {
    && (forall i :: i in file' <==> i in file && i < n)
    && forall i | i in file' :: file'[i] == file[i]
  }

  lemma CutIsShorter<P>(file: map<nat, P>, n: nat)
    ensures Shortened(file, CutAt(file, n), n) && forall i | i in CutAt(file, n) :: i < n
  {
  }

  lemma TruncatedIs<K, V>(c: Cache<K, V>, d: Cache<K, V>, count: nat, slots: nat)
    requires slots <= |c.occupied| && d.occupied == c.occupied[..slots]
    requires d.primaryFile == CutAt(c.primaryFile, count) && d.overflowFile == CutAt(c.overflowFile, slots)
    requires d.handles == c.handles && d.loaded == c.loaded && d.view == c.view && d.leaving == c.leaving && d.leaked == c.leaked
    ensures d == Truncated(c, count, slots)
  {
  }

  lemma TruncatedSafe<K, V>(c: Cache<K, V>, count: nat, slots: nat)
    requires slots <= |c.occupied| && c.SafeFor(count, None)
    ensures Truncated(c, count, slots).SafeFor(count, None)
  {
  }

  /** The slots that the stored metadata marks as occupied and no bucket uses. */
  ghost function Unused<K, V>(s: Stored, view: map<BucketId, Page<K, V>>): set<nat> {
    set i: nat | i < s.bits && BitAt(s.bytes, i) && Overflow(i) !in view
  }

  /** The stored metadata marks the same slots as occupied as the cache does. */
  ghost predicate Exact<K, V>(c: Cache<K, V>, stored: Option<Stored>) {
    stored.Some? && c.occupied == BitsOf(stored.value.bytes, stored.value.bits)
  }

  lemma CoveredBy<K, V>(c: Cache<K, V>, meta: Metadata, bytes: seq<bv8>, bits: nat)
    requires c.Ok() && c.SafeFor(meta.primaryCount, None) && c.occupied == BitsOf(bytes, bits)
    ensures Covered(c, Some(Stored(meta, bytes, bits))) && Exact(c, Some(Stored(meta, bytes, bits)))
  {
    OccupiedIs(c);
    forall b | b in c.view && b !in c.leaving
      ensures Held(Stored(meta, bytes, bits), b)
    {
      assert c.BucketOk(b);
    }
  }

  /** What the files and the cache are like after both files have been cut. */
  lemma Cropped<K, V>(c: Cache<K, V>, d: Cache<K, V>, meta: Metadata, bytes: seq<bv8>, bits: nat, count: nat)
    requires c.Ok() && c.SafeFor(meta.primaryCount, None) && count <= |c.occupied|
    requires forall i | count <= i < |c.occupied| :: !c.occupied[i]
    requires d.occupied == c.occupied[..count] == BitsOf(bytes, bits)
    requires d.primaryFile == CutAt(c.primaryFile, meta.primaryCount) && d.overflowFile == CutAt(c.overflowFile, count)
    requires d.handles == c.handles && d.loaded == c.loaded && d.view == c.view && d.leaving == c.leaving && d.leaked == c.leaked
    ensures d.Ok() && d.SafeFor(meta.primaryCount, None)
    ensures Covered(d, Some(Stored(meta, bytes, bits))) && Exact(d, Some(Stored(meta, bytes, bits)))
  {
    hide Cache.Ok, BitsOf, Truncated, Cache.SafeFor, Covered, Exact;
    TruncatedOk(c, meta.primaryCount, count);
    TruncatedIs(c, d, meta.primaryCount, count);
    TruncatedSafe(c, meta.primaryCount, count);
    CoveredBy(d, meta, bytes, bits);
  }

  /** A bucket with changes is written with the metadata or keeps them. */
  ghost predicate Settled<K, V>(c: Cache<K, V>, current: bool, d: Cache<K, V>, current': bool) {
    && (current ==> current')
    && forall b :: c.Dirty(b) ==> d.Dirty(b) || current'
  }

  lemma SettledSame<K, V>(c: Cache<K, V>, current: bool)
    ensures Settled(c, current, c, current) && NoneDirtier(c, c)
  {
  }

  lemma KeptDirty<K, V>(c: Cache<K, V>, d: Cache<K, V>)
    requires c.loaded <= c.handles.Keys && Calm(c, d)
    ensures forall b :: c.Dirty(b) && !Unlocked(c, b) ==> d.Dirty(b)
  {
  }

  lemma KeptCovered<K, V>(c: Cache<K, V>, d: Cache<K, V>, stored: Option<Stored>)
    requires c.loaded <= c.handles.Keys && Calm(c, d) && d.view == c.view && d.leaving == c.leaving
    requires Covered(c, stored) && !exists b :: c.Dirty(b) && Unlocked(c, b)
    ensures Covered(d, stored)
  {
    KeptDirty(c, d);
  }

  lemma LocksCovered<K, V>(c: Cache<K, V>, b: BucketId, n: nat, leaves: bool, stored: Option<Stored>)
    requires b in c.handles && Covered(c, stored)
    ensures Covered(WithLocks(c, b, n, leaves), stored)
  {
  }

  lemma LoadedCovered<K, V>(c: Cache<K, V>, b: BucketId, stored: Option<Stored>)
    requires c.Ok() && b in c.handles && b !in c.loaded && Covered(c, stored)
    ensures b in c.view && Covered(LoadedFrom(c, b, c.view[b]), stored)
  {
    hide Cache.LinksApart, LoadedFrom;
    LoadedCalm(c, b);
    LoadedIs(c, b, c.view[b]);
  }

  lemma LoadedIs<K, V>(c: Cache<K, V>, b: BucketId, page: Page<K, V>)
    requires b in c.handles
    ensures LoadedFrom(c, b, page).view == c.view && LoadedFrom(c, b, page).leaving == c.leaving
    ensures LoadedFrom(c, b, page).loaded == c.loaded + {b}
  {
  }

  lemma RecordsCovered<K, V>(c: Cache<K, V>, b: BucketId, records: seq<(K, V)>, stored: Option<Stored>)
    requires b in c.handles && b in c.view && b in c.loaded && Covered(c, stored)
    ensures Covered(WithRecords(c, b, records), stored)
  {
    var d := WithRecords(c, b, records);
    forall x | x in d.view && x !in d.leaving && !d.Dirty(x)
      ensures stored.Some? && Held(stored.value, x)
    {
      assert x in c.view && !c.Dirty(x);
    }
  }

  lemma NewCovered<K, V>(c: Cache<K, V>, b: BucketId, occupied: seq<bool>, stored: Option<Stored>)
    requires Covered(c, stored)
    ensures Covered(WithNew(c, b, occupied), stored)
  {
    var d := WithNew(c, b, occupied);
    forall x | x in d.view && x !in d.leaving && !d.Dirty(x)
      ensures stored.Some? && Held(stored.value, x)
    {
      assert x in c.view && !c.Dirty(x);
    }
  }

  lemma LinkCovered<K, V>(c: Cache<K, V>, b: BucketId, i: nat, stored: Option<Stored>)
    requires b in c.handles && b in c.view && b in c.loaded && Covered(c, stored)
    ensures Covered(WithLink(c, b, i), stored)
  {
    var d := WithLink(c, b, i);
    forall x | x in d.view && x !in d.leaving && !d.Dirty(x)
      ensures stored.Some? && Held(stored.value, x)
    {
      assert x in c.view && !c.Dirty(x);
    }
  }

  lemma DetachedCovered<K, V>(c: Cache<K, V>, i: nat, stored: Option<Stored>)
    requires Primary(i) in c.handles && Primary(i) in c.view && Covered(c, stored)
    ensures Covered(WithDetached(c, i), stored)
  {
    var d := WithDetached(c, i);
    forall x | x in d.view && x !in d.leaving && !d.Dirty(x)
      ensures stored.Some? && Held(stored.value, x)
    {
      assert x in c.view && !c.Dirty(x);
    }
  }

  lemma WithoutCovered<K, V>(c: Cache<K, V>, b: BucketId, stored: Option<Stored>)
    requires (b.Overflow? ==> b.index < |c.occupied|) && Covered(c, stored)
    ensures Covered(WithoutBucket(c, b), stored)
  {
    var d := WithoutBucket(c, b);
    forall x | x in d.view && x !in d.leaving && !d.Dirty(x)
      ensures stored.Some? && Held(stored.value, x)
    {
      assert x in c.view && x !in c.leaving && !c.Dirty(x);
    }
  }

  // ---- What a load evicts ------------------------------------------------------------------

  /** Reading bucket `b` into a cache of `n` buckets: with room for it nothing else changes; without,
      every unlocked bucket leaves, and the metadata is written if one of them had changes. */
  ghost predicate Fetched<K, V>(c: Cache<K, V>, disk: Files<K, V>, d: Cache<K, V>, disk': Files<K, V>, current: bool,
                                b: BucketId, n: nat) {
    && (b in c.loaded || |c.loaded| < n ==>
          d.loaded == c.loaded + {b} && disk' == disk && forall x :: d.Dirty(x) <==> c.Dirty(x))
    && (b !in c.loaded && |c.loaded| >= n ==> d.loaded == {b} + set x | x in c.loaded && !Unlocked(c, x))
    && (b !in c.loaded && |c.loaded| >= n && (exists x :: c.Dirty(x) && Unlocked(c, x)) ==> current)
    && (!(exists x :: c.Dirty(x)) ==> disk' == disk)
    && NoneDirtier(c, d)
  }

  lemma FetchedCached<K, V>(c: Cache<K, V>, disk: Files<K, V>, current: bool, b: BucketId, n: nat)
    requires b in c.loaded
    ensures Fetched(c, disk, c, disk, current, b, n)
  {
    assert c.loaded + {b} == c.loaded;
  }

  /** Reading the page and then making room. */
  lemma FetchedFrom<K, V>(c: Cache<K, V>, disk': Files<K, V>, d: Cache<K, V>, e: Cache<K, V>, disk: Files<K, V>, current: bool,
                          b: BucketId, n: nat)
    requires b in c.handles && b in c.view && b !in c.loaded && c.loaded <= c.handles.Keys && d == LoadedFrom(c, b, c.view[b])
    requires NoneDirtier(c, d) && NoneDirtier(d, c) && Calm(c, d) && NoneDirtier(d, e)
    requires |d.loaded| <= n ==> e == d && disk' == disk
    requires |d.loaded| > n ==> e.loaded == {b} + set x | x in d.loaded && !Unlocked(d, x)
    requires |d.loaded| > n && (exists x :: x != b && d.Dirty(x) && Unlocked(d, x)) ==> current
    requires !(exists x :: x != b && d.Dirty(x)) ==> disk' == disk
    ensures Fetched(c, disk, e, disk', current, b, n)
  {
  }

  lemma OkHandles<K, V>(c: Cache<K, V>)
    requires c.Ok()
    ensures c.handles.Keys <= c.view.Keys && c.loaded <= c.handles.Keys
    ensures forall b | b in c.leaving :: c.Locked(b)
  {
    forall b | b in c.leaving
      ensures c.Locked(b)
    {
      assert c.BucketOk(b);
    }
  }

  lemma SafeAfterEviction<K, V>(c: Cache<K, V>, d: Cache<K, V>, count: nat)
    requires c.Ok() && c.SafeFor(count, None)
    requires d.view == c.view && d.leaving == c.leaving
    requires d.loaded == set b | b in c.loaded && !Unlocked(c, b)
    ensures d.SafeFor(count, None)
  {
    OkHandles(c);
  }

  lemma LocksDirt<K, V>(c: Cache<K, V>, b: BucketId, n: nat)
    requires b in c.handles
    ensures NoneDirtier(c, WithLocks(c, b, n, false)) && NoneDirtier(WithLocks(c, b, n, false), c)
  {
  }

  lemma {:induction false} FewerElements<T>(a: set<T>, b: set<T>)
    requires a <= b
    ensures |a| <= |b|
  {
    if a != {} {
      var x :| x in a;
      FewerElements(a - {x}, b - {x});
    }
  }

  lemma CalmSame<K, V>(c: Cache<K, V>, d: Cache<K, V>, e: Cache<K, V>)
    requires c.loaded <= c.handles.Keys
    requires d.handles == e.handles && d.loaded == e.loaded
    ensures Calm(c, c)
    ensures Calm(c, d) ==> Calm(c, e)
  {
  }

  lemma ReadyFrom<K, V>(c: Cache<K, V>, b: BucketId)
    requires c.Ok() && b in c.loaded
    ensures b in c.view && b in c.handles
    ensures c.handles[b].records == c.view[b].records && c.handles[b].overflow == c.view[b].overflow
    ensures c.view[b].overflow.Some? ==> Overflow(c.view[b].overflow.value) in c.handles
  {
    assert c.BucketOk(b);
  }

  lemma OccupiedIs<K, V>(c: Cache<K, V>)
    requires c.Ok()
    ensures forall i: nat :: Overflow(i) in c.view || i in c.leaked <==> i < |c.occupied| && c.occupied[i]
  {
  }

  /** What marking the first free slot does to the cache. */
  lemma SlotTaken<K, V>(c: Cache<K, V>, i: nat, occupied: seq<bool>, stored: Option<Stored>, count: nat)
    requires c.Ok() && Covered(c, stored) && c.SafeFor(count, None)
    requires i <= |c.occupied| && (i < |c.occupied| ==> !c.occupied[i]) && forall k | 0 <= k < i :: c.occupied[k]
    requires i < |occupied| && |c.occupied| <= |occupied| && occupied[i]
    requires forall k | 0 <= k < |occupied| && k != i :: occupied[k] <==> k < |c.occupied| && c.occupied[k]
    ensures var b, d := Overflow(i), WithNew(c, Overflow(i), occupied);
      && d.Ok() && Covered(d, stored) && d.SafeFor(count, None) && d.Dirty(b) && Calm(c, d) && b !in c.view
      && (forall k: nat | k < i :: Overflow(k) in c.view || k in c.leaked)
      && (forall x | x in d.view :: d.view[x].overflow != Some(i))
  {
    hide Cache.Ok, Calm, Covered;
    OccupiedIs(c);
    WithNewOk(c, Overflow(i), occupied);
    NewCovered(c, Overflow(i), occupied, stored);
  }

  /** A locked bucket that has been loaded is not evicted. */
  lemma StaysLoaded<K, V>(c: Cache<K, V>, d: Cache<K, V>, e: Cache<K, V>, b: BucketId)
    requires c.Locked(b) && Calm(c, d) && b in d.loaded && Calm(d, e)
    ensures b in e.loaded
  {
  }

  /** A flush between locking and unlocking `b`, seen from outside. */
  lemma FlushedOthers<K, V>(c: Cache<K, V>, d: Cache<K, V>, e: Cache<K, V>, f: Cache<K, V>, b: BucketId, current: bool, current': bool)
    requires b in c.handles && b in c.loaded && d == WithLocks(c, b, c.handles[b].locks + 1, false)
    requires b in e.handles && f == WithLocks(e, b, c.handles[b].locks, false)
    requires NoneDirtier(d, e) && Settled(d, current, e, current')
    ensures NoneDirtier(c, f) && Settled(c, current, f, current')
    ensures forall x :: d.Dirty(x) <==> c.Dirty(x)
    ensures forall x :: Unlocked(d, x) <==> x != b && Unlocked(c, x)
  {
    LocksDirt(c, b, c.handles[b].locks + 1);
    LocksDirt(e, b, c.handles[b].locks);
  }

  /** A locked section on `b`: whatever is calm in between is calm from before the lock to after it. */
  lemma UnlockAfter<K, V>(c: Cache<K, V>, d: Cache<K, V>, e: Cache<K, V>, b: BucketId)
    requires c.Ok() && b in c.handles && d == WithLocks(c, b, c.handles[b].locks + 1, false)
    requires Calm(d, e) && e.leaving == c.leaving && (b in c.leaving ==> c.Locked(b))
    ensures b in e.handles && e.handles[b].locks == c.handles[b].locks + 1
    ensures Calm(c, WithLocks(e, b, c.handles[b].locks, false))
    ensures b in c.loaded ==> b in e.loaded && (c.Dirty(b) ==> e.Dirty(b))
  {
    hide Cache.Ok, Calm;
    UnlockLocks(c, d, e, b);
    UnlockCalm(c, d, e, b);
  }

  lemma UnlockLocks<K, V>(c: Cache<K, V>, d: Cache<K, V>, e: Cache<K, V>, b: BucketId)
    requires b in c.handles && d == WithLocks(c, b, c.handles[b].locks + 1, false) && Calm(d, e)
    ensures b in e.handles && e.handles[b].locks == c.handles[b].locks + 1
    ensures b in c.loaded ==> b in e.loaded && (c.Dirty(b) ==> e.Dirty(b))
  {
    assert d.handles[b].locks == c.handles[b].locks + 1;
  }

  lemma UnlockCalm<K, V>(c: Cache<K, V>, d: Cache<K, V>, e: Cache<K, V>, b: BucketId)
    requires b in c.handles && d == WithLocks(c, b, c.handles[b].locks + 1, false) && Calm(d, e) && b in e.handles
    ensures Calm(c, WithLocks(e, b, c.handles[b].locks, false))
  {
    forall x | x in c.handles
      ensures x in d.handles && (x != b ==> d.handles[x] == c.handles[x]) && d.handles[x].overflow == c.handles[x].overflow
    {
    }
  }
}
