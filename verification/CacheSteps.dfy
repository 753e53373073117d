/** The cache between two moments of an operation: which buckets stay locked, loaded and dirty while a
    chain is walked or drained. */
module CacheSteps {
  import opened Options
  import opened TableModel
  import opened CacheModel
  import opened BucketManager
  import opened Wiring
  import opened Evictions
  import opened TableSteps
  import opened WiredChains

  lemma FirstStays(loaded: set<BucketId>, ids: Ids, n: nat)
    requires ids != []
    ensures ids[0] in Walked(loaded, ids, 1, n)
  {
  }

  lemma NotWalked<K, V>(c: Cache<K, V>, disk: Files<K, V>, current: bool, ids: Ids, n: nat)
    ensures WalkedTo(c, disk, c, disk, current, ids, 0, n)
  {
  }

  lemma WalkedOn<K, V>(c: Cache<K, V>, disk: Files<K, V>, d: Cache<K, V>, disk': Files<K, V>, current: bool,
                       e: Cache<K, V>, disk'': Files<K, V>, current': bool, ids: Ids, k: nat, n: nat)
    requires k < |ids| && WalkedTo(c, disk, d, disk', current, ids, k, n) && d.loaded <= d.handles.Keys
    requires forall b | b in d.handles :: d.handles[b].locks == 0
    requires Fetched(d, disk', e, disk'', current', ids[k], n) && Settled(d, current, e, current')
    ensures WalkedTo(c, disk, e, disk'', current', ids, k + 1, n)
  {
    hide WalkedTo, Fetched;
    WalkedStep(c, disk, d, disk', current, e, disk'', current', ids, k, n);
  }

  /** The walk along a chain, with nothing locked, so far. */
  ghost predicate Walking<K, V>(c: Cache<K, V>, disk: Files<K, V>, current: bool, d: Cache<K, V>, disk': Files<K, V>, current': bool,
                                ids: Ids, k: nat, n: nat)
    requires k <= |ids|
  {
    && Calm(c, d) && AllUnlocked(d) && d.loaded <= d.handles.Keys
    && WalkedTo(c, disk, d, disk', current', ids, k, n)
    && ((exists b :: c.Dirty(b)) || current ==> (exists b :: d.Dirty(b)) || current')
  }

  lemma WalkingFirst<K, V>(c: Cache<K, V>, disk: Files<K, V>, current: bool, ids: Ids, n: nat)
    requires Calm(c, c) && AllUnlocked(c) && c.loaded <= c.handles.Keys
    ensures Walking(c, disk, current, c, disk, current, ids, 0, n)
  {
    NotWalked(c, disk, current, ids, n);
  }

  lemma WalkingOn<K, V>(c: Cache<K, V>, disk: Files<K, V>, current: bool, d: Cache<K, V>, disk': Files<K, V>, current': bool,
                        e: Cache<K, V>, disk'': Files<K, V>, current'': bool, ids: Ids, k: nat, n: nat)
    requires k < |ids| && Walking(c, disk, current, d, disk', current', ids, k, n) && e.loaded <= e.handles.Keys
    requires Calm(d, e) && Fetched(d, disk', e, disk'', current'', ids[k], n) && Settled(d, current', e, current'')
    ensures Walking(c, disk, current, e, disk'', current'', ids, k + 1, n)
  {
    hide Calm, WalkedTo, Fetched, Settled;
    CalmTransitive(c, d, e);
    CalmIdle(d, e);
    WalkedOn(c, disk, d, disk', current', e, disk'', current'', ids, k, n);
    SettledDurable(d, current', e, current'');
  }

  lemma WalkingIs<K, V>(c: Cache<K, V>, disk: Files<K, V>, current: bool, d: Cache<K, V>, disk': Files<K, V>, current': bool,
                        ids: Ids, k: nat, n: nat)
    requires k <= |ids| && Walking(c, disk, current, d, disk', current', ids, k, n)
    ensures Calm(c, d) && (forall b | b in d.handles :: d.handles[b].locks == 0)
    ensures WalkedTo(c, disk, d, disk', current', ids, k, n)
    ensures (exists b :: c.Dirty(b)) || current ==> (exists b :: d.Dirty(b)) || current'
  {
    hide Calm, WalkedTo;
  }

  lemma WalkedBy<K, V>(c: Cache<K, V>, disk: Files<K, V>, d: Cache<K, V>, disk': Files<K, V>, current: bool, ids: Ids, k: nat, n: nat)
    requires k <= |ids| && WalkedTo(c, disk, d, disk', current, ids, k, n)
    ensures d.loaded == Walked(c.loaded, ids, k, n)
    ensures Dirt(d) == (if WalkFlushes(c.loaded, ids, k, n) then {} else Dirt(c))
    ensures current || disk' == disk
    ensures !(exists b :: c.Dirty(b)) ==> disk' == disk
  {
    hide Walked, WalkFlushes;
    if Dirt(c) != {} {
      var b :| b in Dirt(c);
      assert c.Dirty(b);
    }
  }

  lemma SettledDurable<K, V>(c: Cache<K, V>, current: bool, d: Cache<K, V>, current': bool)
    requires Settled(c, current, d, current')
    ensures (exists b :: c.Dirty(b)) || current ==> (exists b :: d.Dirty(b)) || current'
  {
  }

  lemma SettledCurrent<K, V>(c: Cache<K, V>, current: bool, d: Cache<K, V>, current': bool)
    requires Settled(c, current, d, current')
    ensures current ==> current'
  {
  }

  lemma DirtWith<K, V>(c: Cache<K, V>, d: Cache<K, V>, b: BucketId)
    requires forall x :: d.Dirty(x) <==> x == b || c.Dirty(x)
    ensures Dirt(d) == Dirt(c) + {b}
  {
    forall x
      ensures x in Dirt(d) <==> x in Dirt(c) + {b}
    {
      assert d.Dirty(x) <==> x == b || c.Dirty(x);
    }
  }

  lemma CalmIdle<K, V>(c: Cache<K, V>, d: Cache<K, V>)
    requires Calm(c, d) && forall b | b in c.handles :: c.handles[b].locks == 0
    ensures forall b | b in d.handles :: d.handles[b].locks == 0
  {
  }

  /** The only bucket that may be on its way out, or beyond the primary buckets, is `b`. */
  ghost predicate OnlyBeyond<K, V>(c: Cache<K, V>, count: nat, b: BucketId) {
    && c.leaving <= {b}
    && forall i: nat :: Primary(i) in c.view && i >= count ==> b == Primary(i)
  }

  lemma BeyondAgain<K, V>(c: Cache<K, V>, d: Cache<K, V>, chains: seq<Ids>, rest: Ids)
    requires rest != [] && OnlyBeyond(c, |chains|, rest[0]) && Wired(d.view, chains, rest)
    requires d.leaving <= c.leaving + {rest[0]}
    ensures OnlyBeyond(d, |chains|, rest[0])
  {
    hide Wired;
    forall i: nat | Primary(i) in d.view && i >= |chains|
      ensures rest[0] == Primary(i)
    {
      PrimaryWhere(d.view, chains, rest, i);
    }
  }

  lemma SafeToDrain<K, V>(c: Cache<K, V>, count: nat, b: BucketId, n: nat)
    requires OnlyBeyond(c, count, b) && b in c.handles
    ensures WithLocks(c, b, n, b.Primary?).SafeFor(count, Some(b))
  {
  }

  /** Bucket `source` was drained and discarded; nothing else that matters changed. */
  ghost predicate Drained<K, V>(c: Cache<K, V>, d: Cache<K, V>, source: BucketId) {
    && source !in d.handles
    && (forall b | b in c.handles && b != source :: b in d.handles && d.handles[b].locks == c.handles[b].locks)
    && (forall b | b in d.handles && b !in c.handles :: d.handles[b].locks == 0)
    && (forall b | b in c.loaded && c.Locked(b) && b != source :: b in d.loaded && (c.Dirty(b) ==> d.Dirty(b)))
  }

  /** The buckets in `gone` may have been discarded; nothing else that matters changed. */
  ghost predicate Kept<K, V>(c: Cache<K, V>, d: Cache<K, V>, gone: set<BucketId>) {
    && (forall b | b in c.handles && b !in gone :: b in d.handles && d.handles[b].locks == c.handles[b].locks)
    && (forall b | b in d.handles && b !in c.handles && b !in gone :: d.handles[b].locks == 0)
    && (forall b | b in c.loaded && c.Locked(b) && b !in gone :: b in d.loaded && (c.Dirty(b) ==> d.Dirty(b)))
  }

  /** No bucket in `gone` is locked, except perhaps `b`. */
  predicate Quiet<K, V>(c: Cache<K, V>, gone: set<BucketId>, b: BucketId) {
    forall x | x in c.handles && x in gone && x != b :: c.handles[x].locks == 0
  }

  lemma KeptSelf<K, V>(c: Cache<K, V>, target: Ids)
    requires c.loaded <= c.handles.Keys
    ensures Kept(c, c, Members(target))
  {
  }

  lemma KeptStep<K, V>(c: Cache<K, V>, d: Cache<K, V>, e: Cache<K, V>, gone: set<BucketId>, source: BucketId)
    requires Kept(c, d, gone) && Drained(d, e, source) && source in gone && Quiet(d, gone, source)
    ensures Kept(c, e, gone)
    ensures forall x | x in e.handles && x in gone :: e.handles[x].locks == 0
  {
  }

  /** A bucket between its lock and its discard. */
  lemma DrainedFrom<K, V>(c: Cache<K, V>, d: Cache<K, V>, e: Cache<K, V>, source: BucketId, n: nat, leaves: bool)
    requires source in c.handles && d == WithLocks(c, source, n, leaves) && Calm(d, e)
    requires source.Overflow? ==> source.index < |e.occupied|
    ensures Drained(c, WithoutBucket(e, source), source)
  {
  }

  /** While a chain is drained and nothing else was locked, nothing else is. */
  lemma QuietStill<K, V>(c: Cache<K, V>, d: Cache<K, V>, gone: set<BucketId>, first: BucketId, source: BucketId)
    requires Kept(c, d, gone) && Quiet(c, c.handles.Keys, first) && Quiet(d, gone, source) && first in gone
    ensures Quiet(d, d.handles.Keys, source)
  {
  }

  lemma QuietIdle<K, V>(c: Cache<K, V>, gone: set<BucketId>, first: BucketId)
    requires forall b | b in c.handles :: c.handles[b].locks == 0
    ensures Quiet(c, gone, first) && Quiet(c, c.handles.Keys, first)
  {
  }

  /** A bucket without records between its lock and its discard, when no other bucket is locked. */
  lemma EmptyDrained<K, V>(c: Cache<K, V>, disk: Files<K, V>, d: Cache<K, V>, e: Cache<K, V>, disk': Files<K, V>, current: bool,
                           source: BucketId, leaves: bool, n: nat)
    requires source in c.handles && d == WithLocks(c, source, c.handles[source].locks + 1, leaves) && c.loaded <= c.handles.Keys
    requires Fetched(d, disk, e, disk', current, source, n) && Quiet(c, c.handles.Keys, source)
    requires source.Overflow? ==> source.index < |e.occupied|
    ensures DrainedOne(c, disk, WithoutBucket(e, source), disk', current, source, n)
  {
    hide Fetched;
    LockedDirt(c, source, d.handles[source].locks, leaves);
    FetchedUnlocked(d, disk, e, disk', current, source, n);
    var f := WithoutBucket(e, source);
    forall x
      ensures x in Dirt(f) <==> x in Dirt(e) - {source}
    {
      assert f.Dirty(x) <==> e.Dirty(x) && x != source;
    }
  }

  lemma LockedDirt<K, V>(c: Cache<K, V>, b: BucketId, n: nat, leaves: bool)
    requires b in c.handles
    ensures Dirt(WithLocks(c, b, n, leaves)) == Dirt(c)
  {
    var d := WithLocks(c, b, n, leaves);
    forall x
      ensures x in Dirt(d) <==> x in Dirt(c)
    {
      assert d.Dirty(x) <==> c.Dirty(x);
    }
  }

  lemma LastingLocks<K, V>(c: Cache<K, V>, current: bool, b: BucketId, n: nat, leaves: bool, rest: Ids)
    requires b in c.handles && Lasting(c, current, rest)
    ensures Lasting(WithLocks(c, b, n, leaves), current, rest)
  {
    if !current {
      var x :| c.Dirty(x) && x !in rest;
      assert WithLocks(c, b, n, leaves).Dirty(x);
    }
  }

  lemma LastingDiscard<K, V>(c: Cache<K, V>, current: bool, rest: Ids)
    requires rest != [] && (rest[0].Overflow? ==> rest[0].index < |c.occupied|)
    ensures Lasting(c, current, rest) ==> Lasting(WithoutBucket(c, rest[0]), current, rest[1..])
  {
    if Lasting(c, current, rest) && !current {
      var x :| c.Dirty(x) && x !in rest;
      assert WithoutBucket(c, rest[0]).Dirty(x) && x !in rest[1..];
    }
  }

  lemma LastingChange<K, V>(c: Cache<K, V>, current: bool, rest: Ids)
    requires exists b :: c.Dirty(b) && b !in rest
    ensures Lasting(c, current, rest)
  {
  }

  lemma LastingDurable<K, V>(c: Cache<K, V>, current: bool)
    ensures Lasting(c, current, []) ==> current || exists b :: c.Dirty(b)
  {
  }

  /** The first `m` buckets of the chain `target` are drained: the other buckets keep their locks and changes,
      what was written lasts, and of a chain without records it is known exactly what reached the files. */
  ghost predicate DrainedUpTo<K, V>(c: Cache<K, V>, disk: Files<K, V>, d: Cache<K, V>, disk': Files<K, V>, current: bool,
                                    target: Ids, chain: Chain<K, V>, m: nat, n: nat, lasts: bool, exact: bool)
    requires m <= |target| && m <= |chain|
  {
    && Kept(c, d, Members(target))
    && (lasts || !Bare(chain[..m]) ==> Lasting(d, current, target[m..]))
    && (exact ==> DrainedTo(c, disk, d, disk', current, target, m, n))
  }

  lemma DrainedNone<K, V>(c: Cache<K, V>, disk: Files<K, V>, current: bool, target: Ids, chain: Chain<K, V>, n: nat, exact: bool)
    requires c.loaded <= c.handles.Keys && (exact ==> !current)
    ensures DrainedUpTo(c, disk, c, disk, current, target, chain, 0, n, Lasting(c, current, target), exact)
  {
    hide Kept, Lasting, DrainedTo;
    KeptSelf(c, target);
    DrainedStart(c, disk, target, n);
    BareNone(chain);
    assert target[0..] == target;
  }

  /** What draining bucket `source` says of the cache, the files and the metadata. */
  ghost predicate DrainedBucket<K, V>(d: Cache<K, V>, disk: Files<K, V>, current: bool, e: Cache<K, V>, disk': Files<K, V>, current': bool,
                                      source: BucketId, records: Bucket<K, V>, rest: Ids, n: nat)
    requires rest != []
  {
    && Drained(d, e, source)
    && (Lasting(d, current, rest) || records != [] ==> Lasting(e, current', rest[1..]))
    && (records == [] && Quiet(d, d.handles.Keys, source) ==> DrainedOne(d, disk, e, disk', current', source, n))
    && (records == [] && current ==> current')
  }

  lemma BucketDrained<K, V>(c: Cache<K, V>, disk: Files<K, V>, current: bool, d: Cache<K, V>, e: Cache<K, V>, disk': Files<K, V>, current': bool,
                            source: BucketId, records: Bucket<K, V>, rest: Ids, n: nat)
    requires source in c.handles && rest != [] && source == rest[0] && c.loaded <= c.handles.Keys
    requires d == WithLocks(c, source, c.handles[source].locks + 1, source.Primary?) && Calm(d, e)
    requires source.Overflow? ==> source.index < |e.occupied|
    requires Lasting(c, current, rest) || records != [] ==> Lasting(e, current', rest)
    requires records == [] ==> Fetched(d, disk, e, disk', current', source, n) && (current ==> current')
    ensures DrainedBucket(c, disk, current, WithoutBucket(e, source), disk', current', source, records, rest, n)
  {
    hide Calm, Drained, DrainedOne, Lasting, Fetched, Quiet, WithLocks, WithoutBucket;
    DrainedFrom(c, d, e, source, c.handles[source].locks + 1, source.Primary?);
    LastingDiscard(e, current', rest);
    if records == [] && Quiet(c, c.handles.Keys, source) {
      EmptyDrained(c, disk, d, e, disk', current', source, source.Primary?, n);
    }
  }

  lemma DrainedMore<K, V>(c: Cache<K, V>, disk: Files<K, V>, d: Cache<K, V>, disk': Files<K, V>, current: bool,
                          e: Cache<K, V>, disk'': Files<K, V>, current': bool,
                          target: Ids, chain: Chain<K, V>, m: nat, n: nat, lasts: bool, exact: bool)
    requires m < |target| && m < |chain| && DrainedUpTo(c, disk, d, disk', current, target, chain, m, n, lasts, exact)
    requires DrainedBucket(d, disk', current, e, disk'', current', target[m], chain[m], target[m..], n)
    requires Quiet(d, Members(target), target[m]) && (exact ==> Bare(chain) && Quiet(c, c.handles.Keys, target[0]))
    requires current' && !current ==> disk'' != disk'
    ensures DrainedUpTo(c, disk, e, disk'', current', target, chain, m + 1, n, lasts, exact)
    ensures forall x | x in e.handles && x in target :: e.handles[x].locks == 0
    ensures forall b :: Quiet(e, Members(target), b)
  {
    hide Kept, Lasting, DrainedTo, DrainedOne, Drained, Bare;
    assert target[m..][1..] == target[m + 1..];
    if exact {
      QuietStill(c, d, Members(target), target[0], target[m]);
      BareAt(chain, m);
      DrainedStep(c, disk, d, disk', current, e, disk'', current', target, m, n);
    }
    BareMore(chain, m);
    KeptStep(c, d, e, Members(target), target[m]);
  }

  lemma DrainedAll<K, V>(c: Cache<K, V>, disk: Files<K, V>, d: Cache<K, V>, disk': Files<K, V>, current: bool,
                         target: Ids, chain: Chain<K, V>, n: nat, lasts: bool, exact: bool)
    requires |target| == |chain| && DrainedUpTo(c, disk, d, disk', current, target, chain, |target|, n, lasts, exact)
    ensures Kept(c, d, Members(target))
    ensures lasts || !Bare(chain) ==> current || exists b :: d.Dirty(b)
    ensures exact ==> DrainedTo(c, disk, d, disk', current, target, |target|, n)
  {
    hide Kept, Lasting, DrainedTo;
    assert chain[..|target|] == chain && target[|target|..] == [];
    LastingDurable(d, current);
  }

  /** After the drain only `kept` may still be locked. */
  lemma KeptQuiet<K, V>(c: Cache<K, V>, d: Cache<K, V>, gone: set<BucketId>, kept: BucketId, first: BucketId)
    requires Kept(c, d, gone) && first in gone
    requires forall b | b in c.handles && b != kept && b != first :: c.handles[b].locks == 0
    requires forall b | b in d.handles && b in gone :: d.handles[b].locks == 0
    ensures forall b | b in d.handles && b != kept :: d.handles[b].locks == 0
    ensures kept in gone ==> forall b | b in d.handles :: d.handles[b].locks == 0
    ensures kept !in gone && kept in c.loaded && c.Locked(kept) ==>
      kept in d.handles && d.handles[kept].locks == c.handles[kept].locks && kept in d.loaded && (c.Dirty(kept) ==> d.Dirty(kept))
  {
  }

  lemma OneLocked<K, V>(c: Cache<K, V>, d: Cache<K, V>, e: Cache<K, V>, b: BucketId)
    requires b in c.handles && d == WithLocks(c, b, 1, false) && Calm(d, e)
    requires forall x | x in c.handles :: c.handles[x].locks == 0
    ensures b in e.handles && e.handles[b].locks == 1
    ensures forall x | x in e.handles && x != b :: e.handles[x].locks == 0
    ensures forall x | x in c.handles :: x in e.handles
  {
  }

  /** A calm step that adds bucket `b` adds it unlocked. */
  lemma StillQuiet<K, V>(c: Cache<K, V>, d: Cache<K, V>, b: BucketId, other: BucketId)
    requires Calm(c, d) && b !in c.handles && b in d.handles && other in c.handles
    requires forall x | x in c.handles && x != other :: c.handles[x].locks == 0
    ensures forall x | x in c.handles :: x in d.handles
    ensures forall x | x in d.handles && x != other :: d.handles[x].locks == 0
  {
  }

  lemma StillLocked<K, V>(c: Cache<K, V>, d: Cache<K, V>, b: BucketId, other: BucketId)
    requires Calm(c, d) && b in c.handles && c.handles[b].locks == 1 && b in c.loaded && c.Dirty(b) && other in c.handles
    requires forall x | x in c.handles && x != other && x != b :: c.handles[x].locks == 0
    ensures forall x | x in c.handles :: x in d.handles
    ensures d.handles[b].locks == 1 && b in d.loaded && d.Dirty(b)
    ensures forall x | x in d.handles && x != other && x != b :: d.handles[x].locks == 0
  {
  }

  lemma CalmHandles<K, V>(c: Cache<K, V>, d: Cache<K, V>)
    requires Calm(c, d)
    ensures c.handles.Keys <= d.handles.Keys
  {
  }
}
