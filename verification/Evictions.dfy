/** What the cache does while a chain is walked or drained: which buckets stay in memory, and whether
    anything is written.  A full cache lets every unlocked bucket go when one more is loaded. */
module Evictions {
  import opened CacheModel
  import opened BucketManager
  import opened Wiring

  /** The cached buckets after a load of `b` into a cache of `n` buckets. */
  function AfterLoad(loaded: set<BucketId>, b: BucketId, n: nat): set<BucketId> {
    if b in loaded || |loaded| < n then loaded + {b} else {b}
  }

  /** Those after the first `k` buckets of a chain have been loaded in turn. */
  function Walked(loaded: set<BucketId>, ids: Ids, k: nat, n: nat): set<BucketId>
    requires k <= |ids|
  {
    if k == 0 then loaded else AfterLoad(Walked(loaded, ids, k - 1, n), ids[k - 1], n)
  }

  /** One of those loads found the cache full. */
  predicate WalkFlushes(loaded: set<BucketId>, ids: Ids, k: nat, n: nat)
    requires k <= |ids|
  {
    k > 0 &&
    var before := Walked(loaded, ids, k - 1, n);
    WalkFlushes(loaded, ids, k - 1, n) || (ids[k - 1] !in before && |before| >= n)
  }

  /** Loading and discarding the buckets of a chain from number `m` on, in turn, finds the cache full
      while some other bucket is dirty. */
  predicate DrainWrites(loaded: set<BucketId>, dirty: set<BucketId>, ids: Ids, m: nat, n: nat)
    requires m <= |ids|
    decreases |ids| - m
  {
    m < |ids| &&
    if ids[m] in loaded || |loaded| < n
    then DrainWrites(loaded - {ids[m]}, dirty - {ids[m]}, ids, m + 1, n)
    else dirty - {ids[m]} != {}
  }

  /** Draining a chain leaves a trace of the buckets in `dirty`: one of them is of another chain, or is
      written on the way. */
  predicate LeavesTrace(loaded: set<BucketId>, dirty: set<BucketId>, ids: Ids, n: nat) {
    dirty - Members(ids) != {} || DrainWrites(loaded, dirty, ids, 0, n)
  }

  // ---- One dirty bucket --------------------------------------------------------------------

  /** Walk to bucket `j` of a chain, change it, and drain the chain: the change is written if and only
      if the walk has pushed the first bucket out and left the cache full. */
  lemma WalkThenDrain(loaded: set<BucketId>, ids: Ids, j: nat, n: nat)
    requires NoRepeats(ids) && j < |ids|
    ensures var w := Walked(loaded, ids, j + 1, n);
      LeavesTrace(w, {ids[j]}, ids, n) <==> ids[0] !in w && |w| >= n
  {
    hide Walked;
    WalkedAll(loaded, ids, j + 1, n);
    var w := Walked(loaded, ids, j + 1, n);
    assert {ids[j]} - Members(ids) == {};
    if ids[0] in w {
      DrainCached(w, ids, 0, j, n);
    } else if |w| < n {
      DrainWithRoom(w, {ids[j]}, ids, 0, n);
    } else {
      assert ids[j] in {ids[j]} - {ids[0]};
    }
  }

  lemma {:induction false} WalkedAll(loaded: set<BucketId>, ids: Ids, k: nat, n: nat)
    requires NoRepeats(ids) && 0 < k <= |ids|
    ensures var w := Walked(loaded, ids, k, n);
      ids[k - 1] in w && (ids[0] in w ==> forall i | 0 <= i < k :: ids[i] in w)
  {
    if k > 1 {
      WalkedAll(loaded, ids, k - 1, n);
    }
  }

  lemma {:induction false} DrainCached(loaded: set<BucketId>, ids: Ids, m: nat, j: nat, n: nat)
    requires NoRepeats(ids) && m <= j < |ids| && forall i | m <= i <= j :: ids[i] in loaded
    ensures !DrainWrites(loaded, {ids[j]}, ids, m, n)
    decreases |ids| - m
  {
    if m < j {
      assert {ids[j]} - {ids[m]} == {ids[j]};
      DrainCached(loaded - {ids[m]}, ids, m + 1, j, n);
    } else {
      assert {ids[j]} - {ids[m]} == {};
      DrainClean(loaded - {ids[m]}, ids, m + 1, n);
    }
  }

  lemma {:induction false} DrainWithRoom(loaded: set<BucketId>, dirty: set<BucketId>, ids: Ids, m: nat, n: nat)
    requires m <= |ids| && |loaded| < n
    ensures !DrainWrites(loaded, dirty, ids, m, n)
    decreases |ids| - m
  {
    if m < |ids| {
      FewerElements(loaded - {ids[m]}, loaded);
      DrainWithRoom(loaded - {ids[m]}, dirty - {ids[m]}, ids, m + 1, n);
    }
  }

  lemma {:induction false} DrainClean(loaded: set<BucketId>, ids: Ids, m: nat, n: nat)
    requires m <= |ids|
    ensures !DrainWrites(loaded, {}, ids, m, n)
    decreases |ids| - m
  {
    if m < |ids| {
      assert {} - {ids[m]} == {};
      DrainClean(loaded - {ids[m]}, ids, m + 1, n);
    }
  }

  // ---- Walks -------------------------------------------------------------------------------

  ghost function Dirt<K, V>(c: Cache<K, V>): set<BucketId> {
    set b | b in c.loaded && c.Dirty(b)
  }

  predicate AllUnlocked<K, V>(c: Cache<K, V>) {
    forall b | b in c.handles :: c.handles[b].locks == 0
  }

  /** From `c` to `d` by loading the first `k` buckets of a chain; `current` is whether the metadata in the
      files is that in memory afterwards. */
  ghost predicate WalkedTo<K, V>(c: Cache<K, V>, disk: Files<K, V>, d: Cache<K, V>, disk': Files<K, V>, current: bool,
                                 ids: Ids, k: nat, n: nat)
    requires k <= |ids|
  {
    && d.loaded == Walked(c.loaded, ids, k, n)
    && Dirt(d) == (if WalkFlushes(c.loaded, ids, k, n) then {} else Dirt(c))
    && (WalkFlushes(c.loaded, ids, k, n) && Dirt(c) != {} ==> current)
    && (!WalkFlushes(c.loaded, ids, k, n) || Dirt(c) == {} ==> disk' == disk)
  }

  lemma WalkedStep<K, V>(c: Cache<K, V>, disk: Files<K, V>, d: Cache<K, V>, disk': Files<K, V>, current: bool,
                         e: Cache<K, V>, disk'': Files<K, V>, current': bool, ids: Ids, k: nat, n: nat)
    requires k < |ids| && WalkedTo(c, disk, d, disk', current, ids, k, n) && AllUnlocked(d) && d.loaded <= d.handles.Keys
    requires Fetched(d, disk', e, disk'', current', ids[k], n) && (current ==> current')
    ensures WalkedTo(c, disk, e, disk'', current', ids, k + 1, n)
  {
    hide Walked, WalkFlushes;
    WalkOnce(c.loaded, ids, k, n);
    FetchedUnlocked(d, disk', e, disk'', current', ids[k], n);
  }

  lemma WalkOnce(loaded: set<BucketId>, ids: Ids, k: nat, n: nat)
    requires k < |ids|
    ensures var w := Walked(loaded, ids, k, n);
      && Walked(loaded, ids, k + 1, n) == AfterLoad(w, ids[k], n)
      && (WalkFlushes(loaded, ids, k + 1, n) <==> WalkFlushes(loaded, ids, k, n) || (ids[k] !in w && |w| >= n))
  {
  }

  /** A load when no bucket is locked, except perhaps the one that is loaded. */
  lemma FetchedUnlocked<K, V>(c: Cache<K, V>, disk: Files<K, V>, d: Cache<K, V>, disk': Files<K, V>, current: bool,
                              b: BucketId, n: nat)
    requires Fetched(c, disk, d, disk', current, b, n) && c.loaded <= c.handles.Keys
    requires forall x | x in c.handles && x != b :: c.handles[x].locks == 0
    ensures d.loaded == AfterLoad(c.loaded, b, n)
    ensures b in c.loaded || |c.loaded| < n ==> Dirt(d) == Dirt(c) && disk' == disk
    ensures b !in c.loaded && |c.loaded| >= n ==> Dirt(d) == {} && (if Dirt(c) == {} then disk' == disk else current)
  {
    var full := b !in c.loaded && |c.loaded| >= n;
    if full {
      assert d.loaded == {b};
      forall x | x in d.loaded
        ensures !d.Dirty(x)
      {
        assert d.Dirty(x) ==> c.Dirty(x);
      }
      if Dirt(c) != {} {
        var x :| x in Dirt(c);
        assert c.Dirty(x) && Unlocked(c, x);
      }
    }
    if Dirt(c) == {} {
      forall x
        ensures !c.Dirty(x)
      {
        assert c.Dirty(x) ==> x in Dirt(c);
      }
    }
  }

  // ---- Drains ------------------------------------------------------------------------------

  /** From `c` to `d` by draining the first `m` buckets of a chain without records. */
  ghost predicate DrainedTo<K, V>(c: Cache<K, V>, disk: Files<K, V>, d: Cache<K, V>, disk': Files<K, V>, current: bool,
                                  ids: Ids, m: nat, n: nat)
    requires m <= |ids|
  {
    if current then DrainWrites(c.loaded, Dirt(c), ids, 0, n)
    else
      && disk' == disk
      && Dirt(d) == Dirt(c) - Members(ids[..m])
      && (DrainWrites(c.loaded, Dirt(c), ids, 0, n) <==> DrainWrites(d.loaded, Dirt(d), ids, m, n))
  }

  /** One bucket without records is loaded and discarded. */
  ghost predicate DrainedOne<K, V>(c: Cache<K, V>, disk: Files<K, V>, d: Cache<K, V>, disk': Files<K, V>, current: bool,
                                   b: BucketId, n: nat) {
    && (b in c.loaded || |c.loaded| < n ==> d.loaded == c.loaded - {b} && Dirt(d) == Dirt(c) - {b} && disk' == disk)
    && (b !in c.loaded && |c.loaded| >= n ==> if Dirt(c) == {} then Dirt(d) == {} && disk' == disk else current)
  }

  lemma DrainedStart<K, V>(c: Cache<K, V>, disk: Files<K, V>, ids: Ids, n: nat)
    ensures DrainedTo(c, disk, c, disk, false, ids, 0, n)
  {
  }

  lemma DrainedStep<K, V>(c: Cache<K, V>, disk: Files<K, V>, d: Cache<K, V>, disk': Files<K, V>, current: bool,
                          e: Cache<K, V>, disk'': Files<K, V>, current': bool, ids: Ids, m: nat, n: nat)
    requires m < |ids| && DrainedTo(c, disk, d, disk', current, ids, m, n)
    requires DrainedOne(d, disk', e, disk'', current', ids[m], n) && (current ==> current')
    requires current' && !current ==> disk'' != disk'
    ensures DrainedTo(c, disk, e, disk'', current', ids, m + 1, n)
  {
    assert Members(ids[..m + 1]) == Members(ids[..m]) + {ids[m]};
    assert ids[m] !in d.loaded ==> ids[m] !in Dirt(d);
    if Dirt(d) == {} && !current' {
      DrainClean(e.loaded, ids, m + 1, n);
      DrainClean(d.loaded, ids, m, n);
      assert Dirt(e) == {};
    }
  }

  /** To `d` by draining a chain without records: with something left to write, or the metadata up
      to date, exactly if that leaves a trace; and otherwise the files are as they were. */
  ghost predicate Merged<K, V>(loaded: set<BucketId>, dirty: set<BucketId>, disk: Files<K, V>,
                               d: Cache<K, V>, disk': Files<K, V>, current: bool, ids: Ids, n: nat)
  {
    && (current || (exists b :: d.Dirty(b)) <==> LeavesTrace(loaded, dirty, ids, n))
    && (!current && !(exists b :: d.Dirty(b)) ==> disk' == disk)
  }

  lemma MergedFrom<K, V>(c: Cache<K, V>, disk: Files<K, V>, d: Cache<K, V>, disk': Files<K, V>, current: bool, ids: Ids, n: nat)
    requires DrainedTo(c, disk, d, disk', current, ids, |ids|, n)
    requires (exists b :: c.Dirty(b) && b !in ids) ==> current || exists b :: d.Dirty(b)
    ensures Merged(c.loaded, Dirt(c), disk, d, disk', current, ids, n)
  {
    assert ids[..|ids|] == ids;
    if !current && exists b :: d.Dirty(b) {
      var b :| d.Dirty(b);
      assert b in Dirt(d);
    }
    if Dirt(c) - Members(ids) != {} {
      var b :| b in Dirt(c) - Members(ids);
      assert c.Dirty(b) && b !in ids;
    }
  }

  /** The changes of the buckets outside the chain `rest` will not get lost when it is drained. */
  ghost predicate Lasting<K, V>(c: Cache<K, V>, current: bool, rest: Ids) {
    current || exists b :: c.Dirty(b) && b !in rest
  }

  lemma LastingSettled<K, V>(c: Cache<K, V>, current: bool, d: Cache<K, V>, current': bool, rest: Ids)
    requires Settled(c, current, d, current') && Lasting(c, current, rest)
    ensures Lasting(d, current', rest)
  {
  }
}
