/** The state of a file-backed bucket cache as one value, what makes it consistent, and the steps
    that keep it so.

    `view` is what each live bucket holds and which bucket it overflows to, wherever it is stored
    now; it is what the in-memory manager keeps in the buckets themselves. */
module CacheModel {
  import opened Options

  /** The bucket objects.  `Detached(i)` is the primary bucket of slot `i` while its records move to
      the bucket that replaced it. */
  datatype BucketId = Primary(index: nat) | Overflow(index: nat) | Detached(index: nat)

  /** What is stored for a bucket: its records and the slot of its overflow bucket. */
  datatype Page<K, V> = Page(overflow: Option<nat>, records: seq<(K, V)>)

  /** A bucket object in memory. */
  datatype Handle<K, V> = Handle(records: seq<(K, V)>, overflow: Option<nat>, dirty: bool, locks: nat)

  datatype Cache<K, V> = Cache(
    handles: map<BucketId, Handle<K, V>>,
    loaded: set<BucketId>,
    primaryFile: map<nat, Page<K, V>>,
    overflowFile: map<nat, Page<K, V>>,
    occupied: seq<bool>,
    view: map<BucketId, Page<K, V>>,
    leaving: set<BucketId>,   // taken out of the table and still to be drained
    leaked: set<nat>)         // overflow slots marked as occupied that no bucket uses
  {
    /** The page of bucket `b`'s slot is up to date. */
    ghost predicate OnFile(b: BucketId)
      requires b in view
    {
      match b
      case Overflow(i) => i in overflowFile && overflowFile[i] == view[b]
      case Primary(i) => i in primaryFile && primaryFile[i] == view[b]
      case Detached(i) => false
    }

    predicate Locked(b: BucketId) {
      b in handles && handles[b].locks > 0
    }

    predicate Dirty(b: BucketId) {
      b in loaded && b in handles && handles[b].dirty
    }

    /** What memory and file hold about bucket `b` agrees with its contents. */
    ghost predicate BucketOk(b: BucketId)
      requires b in view
    {
      && (b in loaded ==>
            && b in handles
            && handles[b].records == view[b].records && handles[b].overflow == view[b].overflow
            && (!handles[b].dirty ==> OnFile(b) || b in leaving))
      && (b !in loaded ==> OnFile(b) && (b in handles ==> !handles[b].dirty))
      && (b in handles && handles[b].overflow.Some? ==>
            handles[b].overflow == view[b].overflow && Overflow(handles[b].overflow.value) in handles)
      && (b in leaving ==> Locked(b))
      && (b.Detached? ==> b in loaded && b in leaving)
    }

    /** The link out of bucket `b` leads to a live bucket, and the bucket object behind it exists
        only if the link is in memory. */
    ghost predicate LinkOk(b: BucketId)
      requires b in view
    {
      view[b].overflow.Some? ==>
        && Overflow(view[b].overflow.value) in view
        && (Overflow(view[b].overflow.value) in handles ==> b in handles && handles[b].overflow == view[b].overflow)
    }

    /** No two buckets overflow to the same bucket. */
    predicate LinksApart(b: BucketId, c: BucketId)
      requires b in view && c in view
    {
      b != c && view[b].overflow.Some? ==> view[b].overflow != view[c].overflow
    }

    ghost predicate Ok() {
      && handles.Keys <= view.Keys && loaded <= handles.Keys && leaving <= view.Keys
      && (forall i: nat :: Overflow(i) in view || i in leaked <==> i < |occupied| && occupied[i])
      && (forall i | i in leaked :: Overflow(i) !in view)
      && (forall b | b in view :: BucketOk(b))
      && (forall b | b in view :: LinkOk(b))
      && (forall b, c | b in view && c in view :: LinksApart(b, c))
    }

    /** The metadata is written behind the first `count` primary buckets, so a bucket beyond them
        must not be waiting in the file: it is leaving, and in memory unless it is `b`. */
    ghost predicate SafeFor(count: nat, b: Option<BucketId>) {
      forall i: nat :: Primary(i) in view && i >= count ==>
        Primary(i) in leaving && (Primary(i) in loaded || b == Some(Primary(i)))
    }
  }

  /** What no bucket operation disturbs: bucket objects, their flush locks and their links, and the
      cached state of locked buckets. */
  ghost predicate Calm<K, V>(c: Cache<K, V>, d: Cache<K, V>) {
    && (forall b | b in c.handles :: b in d.handles && d.handles[b].locks == c.handles[b].locks)
    && (forall b | b in d.handles && b !in c.handles :: d.handles[b].locks == 0)
    && (forall b | b in c.loaded && c.Locked(b) :: b in d.loaded && (c.Dirty(b) ==> d.Dirty(b)))
    && (forall b | b in c.handles && c.handles[b].overflow.Some? ::
          b in d.handles && d.handles[b].overflow == c.handles[b].overflow)
  }

  /** No bucket has become dirty. */
  ghost predicate NoneDirtier<K, V>(c: Cache<K, V>, d: Cache<K, V>) {
    forall b :: d.Dirty(b) ==> c.Dirty(b)
  }

  lemma CalmTransitive<K, V>(c: Cache<K, V>, d: Cache<K, V>, e: Cache<K, V>)
    requires Calm(c, d) && Calm(d, e)
    ensures Calm(c, e)
  {
  }

  // ---- Locking -----------------------------------------------------------------------------

  function WithLocks<K, V>(c: Cache<K, V>, b: BucketId, n: nat, leaves: bool): Cache<K, V>
    requires b in c.handles
  {
    c.(handles := c.handles[b := c.handles[b].(locks := n)],
       leaving := if leaves then c.leaving + {b} else c.leaving)
  }

  lemma WithLocksOk<K, V>(c: Cache<K, V>, b: BucketId, n: nat, leaves: bool)
    requires c.Ok() && b in c.handles && (b in c.leaving || leaves ==> n > 0)
    ensures WithLocks(c, b, n, leaves).Ok()
  {
    hide Cache.BucketOk, Cache.LinkOk, Cache.LinksApart;
    var d := WithLocks(c, b, n, leaves);
    Preserved(c, d);
    forall x | x in d.view
      ensures d.BucketOk(x) && d.LinkOk(x)
    {
      WithLocksAt(c, b, n, leaves, x);
    }
  }

  lemma WithLocksAt<K, V>(c: Cache<K, V>, b: BucketId, n: nat, leaves: bool, x: BucketId)
    requires b in c.handles && (b in c.leaving || leaves ==> n > 0) && x in c.view && c.BucketOk(x) && c.LinkOk(x)
    ensures WithLocks(c, b, n, leaves).BucketOk(x) && WithLocks(c, b, n, leaves).LinkOk(x)
  {
  }

  /** A step that keeps the links keeps them apart; the rest is checked bucket by bucket. */
  lemma Preserved<K, V>(c: Cache<K, V>, d: Cache<K, V>)
    requires c.Ok() && d.view.Keys <= c.view.Keys
    requires forall b | b in d.view :: d.view[b].overflow == c.view[b].overflow
    ensures forall b | b in d.view :: c.BucketOk(b) && c.LinkOk(b)
    ensures forall b, e | b in d.view && e in d.view :: d.LinksApart(b, e)
  {
    hide Cache.BucketOk, Cache.LinkOk;
    forall b, e | b in d.view && e in d.view
      ensures d.LinksApart(b, e)
    {
      assert c.LinksApart(b, e);
    }
  }

  // ---- Eviction ----------------------------------------------------------------------------

  /** A dirty bucket is written to its slot; then the bucket leaves the cache. */
  function Evicted<K, V>(c: Cache<K, V>, b: BucketId): Cache<K, V>
    requires b in c.handles
  {
    var h := c.handles[b];
    var page := Page(h.overflow, h.records);
    c.(handles := c.handles[b := h.(records := [], dirty := false)],
       loaded := c.loaded - {b},
       primaryFile := if h.dirty && b.Primary? then c.primaryFile[b.index := page] else c.primaryFile,
       overflowFile := if h.dirty && b.Overflow? then c.overflowFile[b.index := page] else c.overflowFile)
  }

  lemma EvictedOk<K, V>(c: Cache<K, V>, b: BucketId)
    requires c.Ok() && b in c.loaded && !c.Locked(b)
    ensures Evicted(c, b).Ok() && !b.Detached?
  {
    hide Cache.BucketOk, Cache.LinkOk, Cache.LinksApart;
    var d := Evicted(c, b);
    Preserved(c, d);
    forall x | x in d.view
      ensures d.BucketOk(x) && d.LinkOk(x)
    {
      EvictedBucket(c, b, x);
    }
    EvictedBucket(c, b, b);
  }

  lemma EvictedBucket<K, V>(c: Cache<K, V>, b: BucketId, x: BucketId)
    requires b in c.loaded && !c.Locked(b) && b in c.view && x in c.view && c.BucketOk(b) && c.BucketOk(x) && c.LinkOk(x)
    ensures b in c.handles && Evicted(c, b).BucketOk(x) && Evicted(c, b).LinkOk(x) && !b.Detached?
  {
  }

  lemma EvictedCalm<K, V>(c: Cache<K, V>, b: BucketId)
    requires b in c.handles && !c.Locked(b)
    ensures Calm(c, Evicted(c, b)) && NoneDirtier(c, Evicted(c, b))
  {
  }

  /** A file of pages, cut after its first `n`. */
  function CutAt<P>(file: map<nat, P>, n: nat): map<nat, P> {
    map i | i in file && i < n :: file[i]
  }

  /** Writing the metadata cuts the primary file after its last bucket and the overflow file after
      the last occupied slot. */
  function Truncated<K, V>(c: Cache<K, V>, count: nat, slots: nat): Cache<K, V>
    requires slots <= |c.occupied|
  {
    c.(primaryFile := CutAt(c.primaryFile, count),
       overflowFile := CutAt(c.overflowFile, slots),
       occupied := c.occupied[..slots])
  }

  lemma TruncatedOk<K, V>(c: Cache<K, V>, count: nat, slots: nat)
    requires c.Ok() && slots <= |c.occupied|
    requires forall i | slots <= i < |c.occupied| :: !c.occupied[i]
    requires c.SafeFor(count, None)
    ensures Truncated(c, count, slots).Ok()
  {
    hide Cache.BucketOk, Cache.LinkOk, Cache.LinksApart;
    var d := Truncated(c, count, slots);
    Preserved(c, d);
    forall x | x in d.view
      ensures d.BucketOk(x) && d.LinkOk(x)
    {
      assert x.Overflow? ==> x.index < slots;
      TruncatedBucket(c, count, slots, x);
    }
  }

  lemma TruncatedBucket<K, V>(c: Cache<K, V>, count: nat, slots: nat, x: BucketId)
    requires slots <= |c.occupied| && x in c.view && c.BucketOk(x) && c.LinkOk(x)
    requires x.Overflow? ==> x.index < slots
    requires x.Primary? && x.index >= count ==> x in c.leaving && x in c.loaded
    ensures Truncated(c, count, slots).BucketOk(x) && Truncated(c, count, slots).LinkOk(x)
  {
  }

  // ---- Loading -----------------------------------------------------------------------------

  function PageOf<K, V>(c: Cache<K, V>, b: BucketId): (page: Page<K, V>)
    requires b.Overflow? ==> b.index in c.overflowFile
    requires !b.Overflow? ==> b.index in c.primaryFile
  {
    if b.Overflow? then c.overflowFile[b.index] else c.primaryFile[b.index]
  }

  /** The records come from the page; the overflow bucket object is created unless it exists. */
  function LoadedFrom<K, V>(c: Cache<K, V>, b: BucketId, page: Page<K, V>): Cache<K, V>
    requires b in c.handles
  {
    var h := c.handles[b];
    var h' := h.(records := page.records, overflow := if h.overflow.None? then page.overflow else h.overflow);
    c.(loaded := c.loaded + {b},
       handles := if h.overflow.None? && page.overflow.Some?
                  then c.handles[b := h'][Overflow(page.overflow.value) := Handle([], None, false, 0)]
                  else c.handles[b := h'])
  }

  lemma LoadedOk<K, V>(c: Cache<K, V>, b: BucketId)
    requires c.Ok() && b in c.handles && b !in c.loaded
    ensures b.Overflow? ==> b.index in c.overflowFile
    ensures !b.Overflow? ==> b.Primary? && b.index in c.primaryFile
    ensures PageOf(c, b) == c.view[b]
    ensures LoadedFrom(c, b, c.view[b]).Ok()
  {
    hide Cache.BucketOk, Cache.LinkOk, Cache.LinksApart;
    LoadedPage(c, b);
    var d := LoadedFrom(c, b, c.view[b]);
    Preserved(c, d);
    forall x | x in d.view
      ensures d.BucketOk(x) && d.LinkOk(x)
    {
      assert c.LinksApart(x, b);
      LoadedBucket(c, b, x);
    }
  }

  lemma LoadedPage<K, V>(c: Cache<K, V>, b: BucketId)
    requires b in c.handles && b !in c.loaded && b in c.view && c.BucketOk(b) && c.LinkOk(b)
    ensures if b.Overflow? then b.index in c.overflowFile else b.Primary? && b.index in c.primaryFile
    ensures PageOf(c, b) == c.view[b] && !c.handles[b].dirty
    ensures c.handles[b].overflow.None? && c.view[b].overflow.Some? ==>
              Overflow(c.view[b].overflow.value) in c.view && Overflow(c.view[b].overflow.value) !in c.handles
    ensures c.handles[b].overflow.Some? ==> c.view[b].overflow == c.handles[b].overflow
  {
  }

  lemma LoadedBucket<K, V>(c: Cache<K, V>, b: BucketId, x: BucketId)
    requires b in c.handles && b !in c.loaded && b in c.view && c.loaded <= c.handles.Keys && x in c.view
    requires c.BucketOk(b) && c.LinkOk(b) && c.BucketOk(x) && c.LinkOk(x) && c.LinksApart(x, b)
    ensures var d := LoadedFrom(c, b, c.view[b]); d.BucketOk(x) && d.LinkOk(x)
  {
  }

  lemma LoadedCalm<K, V>(c: Cache<K, V>, b: BucketId)
    requires c.Ok() && b in c.handles && b !in c.loaded
    ensures Calm(c, LoadedFrom(c, b, c.view[b]))
    ensures NoneDirtier(c, LoadedFrom(c, b, c.view[b])) && NoneDirtier(LoadedFrom(c, b, c.view[b]), c)
  {
    hide Cache.Ok, Cache.BucketOk, Cache.LinkOk, Cache.LinksApart, NoneDirtier;
    OkAt(c, b);
    LoadedPage(c, b);
    LoadedNoneDirtier(c, b);
  }

  lemma LoadedNoneDirtier<K, V>(c: Cache<K, V>, b: BucketId)
    requires b in c.handles && b !in c.loaded && b in c.view && !c.handles[b].dirty
    requires c.handles[b].overflow.None? && c.view[b].overflow.Some? ==> Overflow(c.view[b].overflow.value) !in c.handles
    ensures NoneDirtier(c, LoadedFrom(c, b, c.view[b])) && NoneDirtier(LoadedFrom(c, b, c.view[b]), c)
  {
  }

  lemma OkAt<K, V>(c: Cache<K, V>, b: BucketId)
    requires c.Ok() && b in c.handles
    ensures b in c.view && c.BucketOk(b) && c.LinkOk(b)
  {
    hide Cache.BucketOk, Cache.LinkOk, Cache.LinksApart;
  }

  // ---- Changing a bucket -------------------------------------------------------------------

  function WithRecords<K, V>(c: Cache<K, V>, b: BucketId, records: seq<(K, V)>): Cache<K, V>
    requires b in c.handles && b in c.view
  {
    c.(handles := c.handles[b := c.handles[b].(records := records, dirty := true)],
       view := c.view[b := c.view[b].(records := records)])
  }

  lemma WithRecordsOk<K, V>(c: Cache<K, V>, b: BucketId, records: seq<(K, V)>)
    requires c.Ok() && b in c.loaded
    ensures WithRecords(c, b, records).Ok() && WithRecords(c, b, records).Dirty(b)
  {
    hide Cache.BucketOk, Cache.LinkOk, Cache.LinksApart;
    var d := WithRecords(c, b, records);
    Preserved(c, d);
    forall x | x in d.view
      ensures d.BucketOk(x) && d.LinkOk(x)
    {
      WithRecordsAt(c, b, records, x);
    }
  }

  lemma WithRecordsAt<K, V>(c: Cache<K, V>, b: BucketId, records: seq<(K, V)>, x: BucketId)
    requires b in c.loaded && b in c.handles && b in c.view && x in c.view && c.BucketOk(x) && c.LinkOk(x)
    ensures WithRecords(c, b, records).BucketOk(x) && WithRecords(c, b, records).LinkOk(x)
  {
  }

  lemma WithRecordsCalm<K, V>(c: Cache<K, V>, b: BucketId, records: seq<(K, V)>)
    requires b in c.handles && b in c.view && b in c.loaded
    ensures Calm(c, WithRecords(c, b, records))
  {
  }

  /** A new, empty bucket: dirty, so that it is written before it is ever read. */
  function WithNew<K, V>(c: Cache<K, V>, b: BucketId, occupied: seq<bool>): Cache<K, V> {
    c.(handles := c.handles[b := Handle([], None, true, 0)],
       loaded := c.loaded + {b},
       view := c.view[b := Page(None, [])],
       occupied := occupied)
  }

  lemma WithNewOk<K, V>(c: Cache<K, V>, b: BucketId, occupied: seq<bool>)
    requires c.Ok() && b !in c.view && !b.Detached?
    requires b.Primary? ==> occupied == c.occupied
    requires b.Overflow? ==> b.index < |occupied| && occupied[b.index] && |c.occupied| <= |occupied|
    requires b.Overflow? && b.index < |c.occupied| ==> !c.occupied[b.index]
    requires b.Overflow? ==> forall i | 0 <= i < |occupied| && i != b.index ::
                               occupied[i] <==> i < |c.occupied| && c.occupied[i]
    ensures WithNew(c, b, occupied).Ok() && WithNew(c, b, occupied).Dirty(b)
    ensures Calm(c, WithNew(c, b, occupied))
    ensures forall x | x in WithNew(c, b, occupied).view && b.Overflow? ::
              WithNew(c, b, occupied).view[x].overflow != Some(b.index)
  {
    hide Cache.BucketOk, Cache.LinkOk, Cache.LinksApart, Calm;
    var d := WithNew(c, b, occupied);
    WithNewCalm(c, b, occupied);
    forall x | x in d.view
      ensures d.BucketOk(x) && d.LinkOk(x)
      ensures b.Overflow? ==> d.view[x].overflow != Some(b.index)
    {
      WithNewAt(c, b, occupied, x);
    }
    forall x, y | x in d.view && y in d.view
      ensures d.LinksApart(x, y)
    {
      assert x != b && y != b ==> c.LinksApart(x, y);
      WithNewApart(c, b, occupied, x, y);
    }
  }

  lemma WithNewCalm<K, V>(c: Cache<K, V>, b: BucketId, occupied: seq<bool>)
    requires b !in c.handles
    ensures Calm(c, WithNew(c, b, occupied))
  {
  }

  lemma WithNewAt<K, V>(c: Cache<K, V>, b: BucketId, occupied: seq<bool>, x: BucketId)
    requires b !in c.view && !b.Detached? && b !in c.leaving && c.handles.Keys <= c.view.Keys
    requires x == b || (x in c.view && c.BucketOk(x) && c.LinkOk(x))
    ensures var d := WithNew(c, b, occupied); d.BucketOk(x) && d.LinkOk(x) && (b.Overflow? ==> d.view[x].overflow != Some(b.index))
  {
  }

  lemma WithNewApart<K, V>(c: Cache<K, V>, b: BucketId, occupied: seq<bool>, x: BucketId, y: BucketId)
    requires b !in c.view && (x == b || x in c.view) && (y == b || y in c.view)
    requires x != b && y != b ==> c.LinksApart(x, y)
    ensures WithNew(c, b, occupied).LinksApart(x, y)
  {
  }

  /** `create_overflow`: bucket `b` gets the new bucket `i` as its overflow. */
  function WithLink<K, V>(c: Cache<K, V>, b: BucketId, i: nat): Cache<K, V>
    requires b in c.handles && b in c.view
  {
    c.(handles := c.handles[b := c.handles[b].(overflow := Some(i), dirty := true)],
       view := c.view[b := c.view[b].(overflow := Some(i))])
  }

  lemma WithLinkOk<K, V>(c: Cache<K, V>, b: BucketId, i: nat)
    requires c.Ok() && b in c.loaded && c.view[b].overflow.None?
    requires Overflow(i) in c.handles && forall x | x in c.view :: c.view[x].overflow != Some(i)
    ensures WithLink(c, b, i).Ok() && WithLink(c, b, i).Dirty(b)
    ensures Calm(c, WithLink(c, b, i))
  {
    hide Cache.BucketOk, Cache.LinkOk, Cache.LinksApart, Calm;
    var d := WithLink(c, b, i);
    forall x | x in d.view
      ensures d.BucketOk(x) && d.LinkOk(x)
    {
      WithLinkAt(c, b, i, x);
    }
    WithLinkAt(c, b, i, b);
    WithLinkCalm(c, b, i);
    forall x, y | x in d.view && y in d.view
      ensures d.LinksApart(x, y)
    {
      assert c.LinksApart(x, y);
      WithLinkApart(c, b, i, x, y);
    }
  }

  lemma WithLinkCalm<K, V>(c: Cache<K, V>, b: BucketId, i: nat)
    requires b in c.loaded && b in c.handles && b in c.view && c.handles[b].overflow.None?
    ensures Calm(c, WithLink(c, b, i))
  {
  }

  lemma WithLinkAt<K, V>(c: Cache<K, V>, b: BucketId, i: nat, x: BucketId)
    requires b in c.loaded && b in c.view && x in c.view && c.BucketOk(b) && c.BucketOk(x) && c.LinkOk(x)
    requires c.view[b].overflow.None? && Overflow(i) in c.handles && Overflow(i) in c.view && c.view[x].overflow != Some(i)
    ensures b in c.handles && c.handles[b].overflow.None? && WithLink(c, b, i).BucketOk(x) && WithLink(c, b, i).LinkOk(x)
  {
  }

  lemma WithLinkApart<K, V>(c: Cache<K, V>, b: BucketId, i: nat, x: BucketId, y: BucketId)
    requires b in c.handles && b in c.view && x in c.view && y in c.view && c.LinksApart(x, y)
    requires c.view[x].overflow != Some(i) && c.view[y].overflow != Some(i)
    ensures WithLink(c, b, i).LinksApart(x, y)
  {
  }

  // ---- Leaving the table -------------------------------------------------------------------

  /** The table replaces the bucket of slot `i`; the old object lives on until it is drained. */
  function WithDetached<K, V>(c: Cache<K, V>, i: nat): Cache<K, V>
    requires Primary(i) in c.handles && Primary(i) in c.view
  {
    c.(handles := (c.handles - {Primary(i)})[Detached(i) := c.handles[Primary(i)]],
       loaded := c.loaded - {Primary(i)} + {Detached(i)},
       view := (c.view - {Primary(i)})[Detached(i) := c.view[Primary(i)]],
       leaving := c.leaving - {Primary(i)} + {Detached(i)})
  }

  lemma WithDetachedOk<K, V>(c: Cache<K, V>, i: nat)
    requires c.Ok() && Primary(i) in c.loaded && c.Locked(Primary(i)) && Detached(i) !in c.view
    ensures WithDetached(c, i).Ok()
  {
    var d := WithDetached(c, i);
    forall x | x in d.view
      ensures d.BucketOk(x) && d.LinkOk(x)
    {
      var y := if x == Detached(i) then Primary(i) else x;
      assert c.BucketOk(y) && c.LinkOk(y);
      if d.view[x].overflow.Some? {
        assert c.view[y].overflow == d.view[x].overflow;
      }
    }
    forall x, y | x in d.view && y in d.view
      ensures d.LinksApart(x, y)
    {
      assert c.LinksApart(if x == Detached(i) then Primary(i) else x, if y == Detached(i) then Primary(i) else y);
    }
  }

  /** `discard`: the bucket object and, for an overflow bucket, its slot are free again. */
  function WithoutBucket<K, V>(c: Cache<K, V>, b: BucketId): Cache<K, V>
    requires b.Overflow? ==> b.index < |c.occupied|
  {
    c.(handles := c.handles - {b},
       loaded := c.loaded - {b},
       view := c.view - {b},
       leaving := c.leaving - {b},
       occupied := if b.Overflow? then c.occupied[b.index := false] else c.occupied)
  }

  lemma WithoutBucketOk<K, V>(c: Cache<K, V>, b: BucketId)
    requires c.Ok() && b in c.view
    requires b.Overflow? ==> forall x | x in c.view :: c.view[x].overflow != Some(b.index)
    ensures b.Overflow? ==> b.index < |c.occupied|
    ensures WithoutBucket(c, b).Ok()
  {
    hide Cache.BucketOk, Cache.LinkOk, Cache.LinksApart;
    var d := WithoutBucket(c, b);
    Preserved(c, d);
    forall x | x in d.view
      ensures d.BucketOk(x) && d.LinkOk(x)
    {
      WithoutBucketAt(c, b, x);
    }
  }

  lemma WithoutBucketAt<K, V>(c: Cache<K, V>, b: BucketId, x: BucketId)
    requires x in c.view && x != b && c.BucketOk(x) && c.LinkOk(x) && (b.Overflow? ==> b.index < |c.occupied|)
    requires b.Overflow? ==> c.view[x].overflow != Some(b.index)
    ensures WithoutBucket(c, b).BucketOk(x) && WithoutBucket(c, b).LinkOk(x)
  {
  }
}
